/**
 * The sequential skeleton of the request batcher: one batching window drains the
 * queued (identifier, slot) pairs into a registry, splits the registry into
 * sub-batches of at most `maxPostSize` identifiers, posts one payload per
 * sub-batch and routes every parsed item to the slot registered under the
 * item's own identifier.
 *
 * The parts that are I/O or scheduling are parameters: `order` is the order in
 * which `HashMap::drain` yields the registry's keys, `responses[i]` is the parsed
 * answer to the i-th post, and `encode` is the JSON encoding of an identifier list.
 */
module Api {
  import opened Wrappers

  // ------------------------------------------------------------ endpoints

  /** The default of `max_post_size`. */
  const DefaultMaxPostSize: nat := 50

  /** The substitution site of every payload template. */
  const IdsMarker: string := "{ids}"

  /** What an endpoint type provides: URL extension, payload template, batch limit. */
  datatype Endpoint = Endpoint(extension: string, payloadTemplate: string, maxPostSize: nat)

  // ------------------------------------------------------------- payloads

  predicate MatchAt(s: string, i: nat, pat: string)
  {
    i + |pat| <= |s| && s[i..i + |pat|] == pat
  }

  /**
   * `str::replace`: every non-overlapping occurrence of `pat`, found from left
   * to right, is replaced by `rep`.
   */
  function Replace(s: string, pat: string, rep: string): string
    requires |pat| > 0
  {
    ReplaceFrom(s, 0, pat, rep)
  }

  /** The scan of `str::replace` from position `i` on. */
  function ReplaceFrom(s: string, i: nat, pat: string, rep: string): string
    requires |pat| > 0 && i <= |s|
    decreases |s| - i
  {
    if i + |pat| > |s| then s[i..]
    else if MatchAt(s, i, pat) then rep + ReplaceFrom(s, i + |pat|, pat, rep)
    else [s[i]] + ReplaceFrom(s, i + 1, pat, rep)
  }

  /** No match of `pat` starts at a position in `j..i`. */
  predicate NoMatchIn(s: string, j: nat, i: nat, pat: string)
    decreases i - j
  {
    j >= i || (!MatchAt(s, j, pat) && NoMatchIn(s, j + 1, i, pat))
  }

  lemma {:induction false} NoMatchInFromAll(s: string, j: nat, i: nat, pat: string)
    requires forall k: nat :: j <= k < i ==> !MatchAt(s, k, pat)
    ensures NoMatchIn(s, j, i, pat)
    decreases i - j
  {
    if j < i {
      NoMatchInFromAll(s, j + 1, i, pat);
    }
  }

  /** Where no match starts from `i` on, the scan copies the rest. */
  lemma {:induction false} ReplaceWithoutMatch(s: string, i: nat, pat: string, rep: string)
    requires |pat| > 0 && i <= |s|
    requires NoMatchIn(s, i, |s|, pat)
    ensures ReplaceFrom(s, i, pat, rep) == s[i..]
    decreases |s| - i
  {
    if i + |pat| <= |s| {
      ReplaceSkipAt(s, i, pat, rep);
      ReplaceWithoutMatch(s, i + 1, pat, rep);
      assert [s[i]] + s[i + 1..] == s[i..];
    }
  }

  /** At a match, the scan emits `rep` and jumps behind the match. */
  lemma ReplaceAtMatch(s: string, i: nat, pat: string, rep: string)
    requires |pat| > 0 && MatchAt(s, i, pat)
    ensures ReplaceFrom(s, i, pat, rep) == s[i..i] + rep + ReplaceFrom(s, i + |pat|, pat, rep)
  {
    assert s[i..i] == [];
  }

  /** Elsewhere, it copies one character and moves on. */
  lemma ReplaceSkipAt(s: string, i: nat, pat: string, rep: string)
    requires |pat| > 0 && i + |pat| <= |s| && !MatchAt(s, i, pat)
    ensures ReplaceFrom(s, i, pat, rep) == [s[i]] + ReplaceFrom(s, i + 1, pat, rep)
  {
  }

  /**
   * The first occurrence from `j` on is replaced and the scan resumes after it:
   * when the first match starts at `i`, the text before it is kept, the match
   * becomes `rep`, and the scan continues behind the match.
   */
  lemma {:induction false} ReplaceFirstMatch(s: string, j: nat, i: nat, pat: string, rep: string)
    requires |pat| > 0 && j <= i && MatchAt(s, i, pat)
    requires NoMatchIn(s, j, i, pat)
    ensures ReplaceFrom(s, j, pat, rep) == s[j..i] + rep + ReplaceFrom(s, i + |pat|, pat, rep)
    decreases i - j
  {
    if j < i {
      ReplaceSkipAt(s, j, pat, rep);
      ReplaceFirstMatch(s, j + 1, i, pat, rep);
      var rest := rep + ReplaceFrom(s, i + |pat|, pat, rep);
      assert [s[j]] + s[j + 1..i] == s[j..i];
      assert [s[j]] + (s[j + 1..i] + rest) == s[j..i] + rest;
    } else {
      ReplaceAtMatch(s, i, pat, rep);
    }
  }

  /** The body posted for one sub-batch. */
  function Payload(template: string, encode: seq<string> -> string, ids: seq<string>): string
  {
    Replace(template, IdsMarker, encode(ids))
  }

  /** The marker can only start at a `{` followed by `i`. */
  lemma NoMarkerAt(s: string, i: nat)
    requires i < |s|
    requires s[i] != '{' || (i + 1 < |s| && s[i + 1] != 'i')
    ensures !MatchAt(s, i, IdsMarker)
  {
    if i + 5 <= |s| {
      assert s[i..i + 5][0] == s[i] && s[i..i + 5][1] == s[i + 1];
    }
  }

  /**
   * A template whose only marker sits between `pre` and `post`, and in which every
   * other `{` opens a quoted key, is posted with the encoded identifiers in place
   * of the marker and nothing else changed.
   */
  lemma TemplatePayload(pre: string, post: string, encode: seq<string> -> string, ids: seq<string>)
    requires forall i :: 0 <= i < |pre| ==> pre[i] != '{' || (i + 1 < |pre| && pre[i + 1] == '"')
    requires forall i :: 0 <= i < |post| ==> post[i] != '{'
    ensures Payload(pre + IdsMarker + post, encode, ids) == pre + encode(ids) + post
  {
    var s := pre + IdsMarker + post;
    var n := |pre| + 5;
    forall i: nat | i < |pre| ensures !MatchAt(s, i, IdsMarker) {
      assert s[i] == pre[i];
      if i + 1 < |pre| {
        assert s[i + 1] == pre[i + 1];
      } else {
        assert s[i + 1] == '{';
      }
      NoMarkerAt(s, i);
    }
    forall i: nat | n <= i < |s| ensures !MatchAt(s, i, IdsMarker) {
      assert s[i] == post[i - n];
      NoMarkerAt(s, i);
    }
    assert MatchAt(s, |pre|, IdsMarker) by {
      assert s[|pre|..n] == IdsMarker;
    }
    NoMatchInFromAll(s, 0, |pre|, IdsMarker);
    NoMatchInFromAll(s, n, |s|, IdsMarker);
    ReplaceFirstMatch(s, 0, |pre|, IdsMarker, encode(ids));
    ReplaceWithoutMatch(s, n, IdsMarker, encode(ids));
    assert s[0..|pre|] == pre && s[n..] == post;
  }

  // ----------------------------------------------------------- sub-batches

  /** Repeated `take(max)` on the drained keys: consecutive chunks of at most `m`. */
  function Chunks(s: seq<string>, m: nat): seq<seq<string>>
    requires m >= 1
    decreases |s|
  {
    if |s| == 0 then []
    else
      var n := if |s| < m then |s| else m;
      [s[..n]] + Chunks(s[n..], m)
  }

  function Flatten(cs: seq<seq<string>>): seq<string>
  {
    if |cs| == 0 then [] else cs[0] + Flatten(cs[1..])
  }

  /** The chunks, laid end to end, are the drained keys in drain order. */
  lemma {:induction false} ChunksFlatten(s: seq<string>, m: nat)
    requires m >= 1
    ensures Flatten(Chunks(s, m)) == s
    decreases |s|
  {
    if |s| > 0 {
      var n := if |s| < m then |s| else m;
      ChunksFlatten(s[n..], m);
      assert s[..n] + s[n..] == s;
    }
  }

  /** Every chunk holds between 1 and `m` keys, and all but the last exactly `m`. */
  lemma {:induction false} ChunkSizes(s: seq<string>, m: nat)
    requires m >= 1
    ensures forall i :: 0 <= i < |Chunks(s, m)| ==> 1 <= |Chunks(s, m)[i]| <= m
    ensures forall i :: 0 <= i < |Chunks(s, m)| - 1 ==> |Chunks(s, m)[i]| == m
    decreases |s|
  {
    if |s| > 0 {
      var n := if |s| < m then |s| else m;
      ChunkSizes(s[n..], m);
      assert forall i :: 1 <= i < |Chunks(s, m)| ==> Chunks(s, m)[i] == Chunks(s[n..], m)[i - 1];
      if |s| < m {
        assert s[n..] == [];
      }
    }
  }

  /** ceil(n / m) sub-batches: the fewest posts of at most `m` keys that hold all n. */
  lemma {:induction false} ChunkCount(s: seq<string>, m: nat)
    requires m >= 1
    ensures (|Chunks(s, m)| - 1) * m < |s| <= |Chunks(s, m)| * m
    decreases |s|
  {
    if |s| >= m {
      ChunkCount(s[m..], m);
      assert |Chunks(s, m)| == 1 + |Chunks(s[m..], m)|;
    } else if |s| > 0 {
      assert s[|s|..] == [];
    }
  }

  /** Every key of a chunk is one of the drained keys. */
  lemma {:induction false} ChunkMembers(s: seq<string>, m: nat, i: nat, x: string)
    requires m >= 1
    requires i < |Chunks(s, m)| && x in Chunks(s, m)[i]
    ensures x in s
    decreases |s|
  {
    var n := if |s| < m then |s| else m;
    if i > 0 {
      ChunkMembers(s[n..], m, i - 1, x);
    }
  }

  /** Every drained key lies in some chunk. */
  lemma {:induction false} ChunksCover(s: seq<string>, m: nat, x: string)
    requires m >= 1
    requires x in s
    ensures exists i :: 0 <= i < |Chunks(s, m)| && x in Chunks(s, m)[i]
    decreases |s|
  {
    var n := if |s| < m then |s| else m;
    if x !in s[..n] {
      assert s == s[..n] + s[n..];
      ChunksCover(s[n..], m, x);
      var i :| 0 <= i < |Chunks(s[n..], m)| && x in Chunks(s[n..], m)[i];
      assert Chunks(s, m)[i + 1] == Chunks(s[n..], m)[i];
    } else {
      assert Chunks(s, m)[0] == s[..n];
    }
  }

  predicate Distinct(s: seq<string>)
  {
    forall i, j :: 0 <= i < j < |s| ==> s[i] != s[j]
  }

  /** Keys are distinct in the drain, hence no key lies in two chunks. */
  lemma {:induction false} ChunksDisjoint(s: seq<string>, m: nat, i: nat, j: nat, x: string)
    requires m >= 1 && Distinct(s)
    requires i < |Chunks(s, m)| && j < |Chunks(s, m)|
    requires x in Chunks(s, m)[i] && x in Chunks(s, m)[j]
    ensures i == j
    decreases |s|
  {
    var n := if |s| < m then |s| else m;
    var rest := s[n..];
    assert Distinct(rest) by {
      forall a, b | 0 <= a < b < |rest| ensures rest[a] != rest[b] {
        assert rest[a] == s[n + a] && rest[b] == s[n + b];
      }
    }
    if i > 0 && j > 0 {
      ChunksDisjoint(rest, m, i - 1, j - 1, x);
    } else if i > 0 || j > 0 {
      var k := if i > 0 then i else j;
      ChunkMembers(rest, m, k - 1, x);
      assert false;
    }
  }

  /** Partition of the registry: with at least one key per chunk, each key in exactly one chunk. */
  lemma ChunksPartition(s: seq<string>, m: nat)
    requires m >= 1 && Distinct(s)
    ensures forall x :: x in s <==> exists i :: 0 <= i < |Chunks(s, m)| && x in Chunks(s, m)[i]
    ensures forall i, j, x ::
      (0 <= i < |Chunks(s, m)| && 0 <= j < |Chunks(s, m)| &&
       x in Chunks(s, m)[i] && x in Chunks(s, m)[j]) ==> i == j
  {
    forall x | x in s ensures exists i :: 0 <= i < |Chunks(s, m)| && x in Chunks(s, m)[i] {
      ChunksCover(s, m, x);
    }
    forall i, x | 0 <= i < |Chunks(s, m)| && x in Chunks(s, m)[i] ensures x in s {
      ChunkMembers(s, m, i, x);
    }
    forall i, j, x | 0 <= i < |Chunks(s, m)| && 0 <= j < |Chunks(s, m)| &&
      x in Chunks(s, m)[i] && x in Chunks(s, m)[j] ensures i == j {
      ChunksDisjoint(s, m, i, j, x);
    }
  }

  /** 120 keys against the default limit: three posts of 50, 50 and 20 keys. */
  lemma HundredTwentyKeys(s: seq<string>)
    requires |s| == 120
    ensures |Chunks(s, DefaultMaxPostSize)| == 3
    ensures |Chunks(s, 50)[0]| == 50 && |Chunks(s, 50)[1]| == 50 && |Chunks(s, 50)[2]| == 20
  {
    ChunkCount(s, 50);
    ChunkSizes(s, 50);
    ChunksFlatten(s, 50);
    var cs := Chunks(s, 50);
    assert |Flatten(cs[2..])| == |cs[2]|;
  }

  // ------------------------------------------------------------ responses

  /** What a post's response body parses to. */
  datatype Response<T> =
    | ItemList(items: seq<T>)
    | ErrorObject(error: string)
    | KeyedItems(byId: map<string, T>)
    | Unparseable

  /** The first item answering `k`. */
  function Find<T>(items: seq<T>, key: T -> string, k: string): (r: Option<T>)
    ensures r.Some? ==> key(r.value) == k && r.value in items
    ensures r.None? <==> forall i :: 0 <= i < |items| ==> key(items[i]) != k
    decreases |items|
  {
    if |items| == 0 then None
    else if key(items[0]) == k then Some(items[0])
    else Find(items[1..], key, k)
  }

  lemma {:induction false} FindSnoc<T>(items: seq<T>, x: T, key: T -> string, k: string)
    ensures Find(items + [x], key, k) ==
      if Find(items, key, k).Some? then Find(items, key, k)
      else if key(x) == k then Some(x) else None
    decreases |items|
  {
    if |items| > 0 {
      assert (items + [x])[1..] == items[1..] + [x];
      FindSnoc(items[1..], x, key, k);
    }
  }

  /** With pairwise distinct keys, each item is the answer for its own key. */
  lemma {:induction false} FindDistinct<T>(items: seq<T>, key: T -> string, i: nat)
    requires i < |items|
    requires forall a, b :: 0 <= a < b < |items| ==> key(items[a]) != key(items[b])
    ensures Find(items, key, key(items[i])) == Some(items[i])
    decreases |items|
  {
    if i > 0 {
      FindDistinct(items[1..], key, i - 1);
    }
  }

  /** Some value of `m` is an item answering `k`. */
  ghost predicate KeyedAnswers<T>(m: map<string, T>, key: T -> string, k: string)
  {
    exists j :: j in m && key(m[j]) == k
  }

  /** The answer a parsed response holds for key `k`. */
  ghost function Answer<T>(r: Response<T>, key: T -> string, k: string): Option<T>
  {
    match r
    case ItemList(items) => Find(items, key, k)
    case KeyedItems(m) =>
      if KeyedAnswers(m, key, k) then
        var j :| j in m && key(m[j]) == k; Some(m[j])
      else None
    case _ => None
  }

  /**
   * A response the routing loop gets through: a list or keyed response whose items
   * all answer keys of this sub-batch, no two the same key. An error object aborts
   * before any routing; an unparseable body panics.
   */
  ghost predicate Routable<T>(chunk: seq<string>, r: Response<T>, key: T -> string)
  {
    match r
    case ItemList(items) =>
      (forall i :: 0 <= i < |items| ==> key(items[i]) in chunk) &&
      (forall i, j :: 0 <= i < j < |items| ==> key(items[i]) != key(items[j]))
    case KeyedItems(m) =>
      (forall j :: j in m ==> key(m[j]) in chunk) &&
      (forall j1, j2 :: j1 in m && j2 in m && j1 != j2 ==> key(m[j1]) != key(m[j2]))
    case ErrorObject(_) => true
    case Unparseable => false
  }

  /** Every response the window reaches is routable; after an error object nothing is read. */
  ghost predicate Serviceable<T>(cs: seq<seq<string>>, rs: seq<Response<T>>, key: T -> string)
    requires |rs| == |cs|
    decreases |cs|
  {
    |cs| == 0 || rs[0].ErrorObject? ||
    (Routable(cs[0], rs[0], key) && Serviceable(cs[1..], rs[1..], key))
  }

  /** What the slot registered under `k` has received once the window is over. */
  ghost function Delivery<T>(cs: seq<seq<string>>, rs: seq<Response<T>>, key: T -> string, k: string): Option<T>
    requires |rs| == |cs|
    decreases |cs|
  {
    if |cs| == 0 || rs[0].ErrorObject? then None
    else if k in cs[0] then Answer(rs[0], key, k)
    else Delivery(cs[1..], rs[1..], key, k)
  }

  /** The payloads posted: one per sub-batch, up to and including the first error object. */
  function Sent<T>(cs: seq<seq<string>>, rs: seq<Response<T>>, template: string, encode: seq<string> -> string): seq<string>
    requires |rs| == |cs|
    decreases |cs|
  {
    if |cs| == 0 then []
    else
      var rest := if rs[0].ErrorObject? then [] else Sent(cs[1..], rs[1..], template, encode);
      [Payload(template, encode, cs[0])] + rest
  }

  /** The first error object among the first `|cs|` responses, or `|cs|` when there is none. */
  function FirstError<T>(rs: seq<Response<T>>): (e: nat)
    ensures e <= |rs|
    ensures forall i :: 0 <= i < e ==> !rs[i].ErrorObject?
    ensures e < |rs| ==> rs[e].ErrorObject?
    decreases |rs|
  {
    if |rs| == 0 then 0 else if rs[0].ErrorObject? then 0 else 1 + FirstError(rs[1..])
  }

  // ----------------------------------------------------- window properties

  /** A delivered item always answers the identifier its slot was registered under. */
  lemma {:induction false} DeliveryAnswersKey<T>(cs: seq<seq<string>>, rs: seq<Response<T>>, key: T -> string, k: string)
    requires |rs| == |cs|
    ensures Delivery(cs, rs, key, k).Some? ==> key(Delivery(cs, rs, key, k).value) == k
    decreases |cs|
  {
    if |cs| > 0 && !rs[0].ErrorObject? && k !in cs[0] {
      DeliveryAnswersKey(cs[1..], rs[1..], key, k);
    }
  }

  /**
   * The reach of one window: a key of sub-batch `i` receives exactly what the
   * i-th response holds for it when no error object came before or at `i`, and
   * nothing otherwise.
   */
  lemma {:induction false} DeliveryOfChunk<T>(cs: seq<seq<string>>, rs: seq<Response<T>>, key: T -> string, i: nat, k: string)
    requires |rs| == |cs| && i < |cs| && k in cs[i]
    requires forall j :: 0 <= j < i ==> k !in cs[j]
    ensures Delivery(cs, rs, key, k) == if i < FirstError(rs) then Answer(rs[i], key, k) else None
    decreases i
  {
    if i > 0 && !rs[0].ErrorObject? {
      assert k !in cs[0];
      DeliveryOfChunk(cs[1..], rs[1..], key, i - 1, k);
    }
  }

  /** Every item of a reached list response lands in the slot of its own key. */
  lemma ItemListDelivered<T>(cs: seq<seq<string>>, rs: seq<Response<T>>, key: T -> string, i: nat, n: nat)
    requires |rs| == |cs| && i < FirstError(rs) && i < |cs|
    requires rs[i].ItemList? && n < |rs[i].items|
    requires Routable(cs[i], rs[i], key)
    requires forall j :: 0 <= j < i ==> key(rs[i].items[n]) !in cs[j]
    ensures Delivery(cs, rs, key, key(rs[i].items[n])) == Some(rs[i].items[n])
  {
    DeliveryOfChunk(cs, rs, key, i, key(rs[i].items[n]));
    FindDistinct(rs[i].items, key, n);
  }

  /** Keys of a reached sub-batch that no item answers get nothing: the caller sees `None`. */
  lemma UnansweredKeyGetsNothing<T>(cs: seq<seq<string>>, rs: seq<Response<T>>, key: T -> string, i: nat, k: string)
    requires |rs| == |cs| && i < |cs| && k in cs[i]
    requires forall j :: 0 <= j < i ==> k !in cs[j]
    requires Answer(rs[i], key, k).None?
    ensures Delivery(cs, rs, key, k).None?
  {
    DeliveryOfChunk(cs, rs, key, i, k);
  }

  /** An error object aborts the window: its sub-batch and every later one get nothing. */
  lemma ErrorAbortsRest<T>(cs: seq<seq<string>>, rs: seq<Response<T>>, key: T -> string, i: nat, k: string)
    requires |rs| == |cs| && i < |cs| && k in cs[i]
    requires forall j :: 0 <= j < i ==> k !in cs[j]
    requires FirstError(rs) <= i
    ensures Delivery(cs, rs, key, k).None?
  {
    DeliveryOfChunk(cs, rs, key, i, k);
  }

  /** One post per sub-batch up to the first error object, each carrying that sub-batch's keys. */
  lemma {:induction false} SentPosts<T>(cs: seq<seq<string>>, rs: seq<Response<T>>, template: string, encode: seq<string> -> string)
    requires |rs| == |cs|
    ensures |Sent(cs, rs, template, encode)| == if FirstError(rs) < |cs| then FirstError(rs) + 1 else |cs|
    ensures forall i :: 0 <= i < |Sent(cs, rs, template, encode)| ==>
      Sent(cs, rs, template, encode)[i] == Payload(template, encode, cs[i])
    decreases |cs|
  {
    if |cs| > 0 && !rs[0].ErrorObject? {
      SentPosts(cs[1..], rs[1..], template, encode);
      var tail := Sent(cs[1..], rs[1..], template, encode);
      assert Sent(cs, rs, template, encode) == [Payload(template, encode, cs[0])] + tail;
    }
  }

  /** Without an error object, a registry of n keys costs ceil(n / maxPostSize) posts. */
  lemma PostCount<T>(order: seq<string>, m: nat, rs: seq<Response<T>>, template: string, encode: seq<string> -> string)
    requires m >= 1 && |rs| == |Chunks(order, m)|
    requires forall i :: 0 <= i < |rs| ==> !rs[i].ErrorObject?
    ensures |Sent(Chunks(order, m), rs, template, encode)| == |Chunks(order, m)|
    ensures (|Sent(Chunks(order, m), rs, template, encode)| - 1) * m < |order| <=
      |Sent(Chunks(order, m), rs, template, encode)| * m
  {
    SentPosts(Chunks(order, m), rs, template, encode);
    ChunkCount(order, m);
  }

  // -------------------------------------------------------------- the state

  /** The sending half of one caller's single-use response channel. */
  class Slot<T> {
    var delivered: Option<T>

    constructor ()
      ensures delivered == None
    {
      delivered := None;
    }

    /** `oneshot::Sender::send`, which consumes the sender: at most one value per slot. */
    method Send(item: T)
      requires delivered == None
      modifies this
      ensures delivered == Some(item)
    {
      delivered := Some(item);
    }
  }

  /** Distinct keys hold distinct slots. */
  predicate DistinctSlots<T>(registry: map<string, Slot<T>>)
  {
    forall k1, k2 :: k1 in registry && k2 in registry && k1 != k2 ==> registry[k1] != registry[k2]
  }

  /** `order` lists each key of the registry once. */
  predicate Enumerates(order: seq<string>, keys: set<string>)
  {
    Distinct(order) && (forall i :: 0 <= i < |order| ==> order[i] in keys) &&
    (forall k :: k in keys ==> k in order)
  }

  /** Only an empty sequence enumerates the empty set. */
  lemma EnumeratesEmpty(order: seq<string>, keys: set<string>)
    requires Enumerates(order, keys)
    ensures |keys| == 0 <==> |order| == 0
  {
    if |order| > 0 {
      assert order[0] in keys;
    }
  }

  /** The queued pair at `i` is the last one queued for its identifier. */
  predicate IsLatest<T>(queued: seq<(string, Slot<T>)>, i: nat)
    requires i < |queued|
  {
    forall j :: i < j < |queued| ==> queued[j].0 != queued[i].0
  }

  /**
   * The drain loop of one window: every queued pair is inserted into the
   * registry, so a later pair for the same identifier replaces the earlier slot.
   */
  method Drain<T>(queued: seq<(string, Slot<T>)>) returns (gets: map<string, Slot<T>>)
    ensures forall k :: k in gets <==> exists i :: 0 <= i < |queued| && queued[i].0 == k
    ensures forall i :: 0 <= i < |queued| && IsLatest(queued, i) ==> gets[queued[i].0] == queued[i].1
  {
    gets := map[];
    for n := 0 to |queued|
      invariant forall k :: k in gets <==> exists i :: 0 <= i < n && queued[i].0 == k
      invariant forall i :: 0 <= i < n && IsLatest(queued[..n], i) ==> gets[queued[i].0] == queued[i].1
    {
      forall i | 0 <= i < n + 1 && IsLatest(queued[..n + 1], i)
        ensures i < n ==> IsLatest(queued[..n], i) && queued[n].0 != queued[i].0
      {
        if i < n {
          assert queued[..n + 1][n] == queued[n];
        }
      }
      gets := gets[queued[n].0 := queued[n].1];
    }
    assert queued[..|queued|] == queued;
  }

  /** `into_values().collect()`: the values of a keyed response in some order. */
  method CollectValues<T>(m: map<string, T>) returns (vs: seq<T>, ghost ks: seq<string>)
    ensures |ks| == |vs| && Distinct(ks)
    ensures forall i :: 0 <= i < |vs| ==> ks[i] in m && vs[i] == m[ks[i]]
    ensures forall j :: j in m ==> j in ks
  {
    var rest := m;
    vs, ks := [], [];
    while rest != map[]
      invariant |ks| == |vs| && Distinct(ks)
      invariant forall i :: 0 <= i < |vs| ==> ks[i] in m && ks[i] !in rest && vs[i] == m[ks[i]]
      invariant forall j :: j in rest ==> j in m && rest[j] == m[j]
      invariant forall j :: j in m ==> j in ks || j in rest
      decreases |rest|
    {
      var j :| j in rest;
      vs, ks := vs + [rest[j]], ks + [j];
      rest := rest - {j};
    }
  }

  /** Collected values answer each key as the keyed response does. */
  lemma CollectedAnswer<T>(m: map<string, T>, vs: seq<T>, ks: seq<string>, key: T -> string, k: string)
    requires |ks| == |vs|
    requires forall i :: 0 <= i < |vs| ==> ks[i] in m && vs[i] == m[ks[i]]
    requires forall j :: j in m ==> j in ks
    requires forall j1, j2 :: j1 in m && j2 in m && j1 != j2 ==> key(m[j1]) != key(m[j2])
    ensures Find(vs, key, k) == Answer(KeyedItems(m), key, k)
  {
    if KeyedAnswers(m, key, k) {
      var j :| j in m && key(m[j]) == k;
      var i :| 0 <= i < |ks| && ks[i] == j;
      assert key(vs[i]) == k;
      var f := Find(vs, key, k).value;
      var a := Answer(KeyedItems(m), key, k).value;
      assert f in vs;
      var fi :| 0 <= fi < |vs| && vs[fi] == f;
      assert key(m[ks[fi]]) == k;
    } else {
      forall i | 0 <= i < |vs| ensures key(vs[i]) != k {
        assert ks[i] in m;
      }
    }
  }

  /**
   * The routing loop: each item goes to the slot its key names, which is removed
   * from the sub-batch map (`map.remove(..).unwrap()`).
   */
  method Route<T>(batch: map<string, Slot<T>>, outputs: seq<T>, key: T -> string)
    requires forall i :: 0 <= i < |outputs| ==> key(outputs[i]) in batch
    requires forall i, j :: 0 <= i < j < |outputs| ==> key(outputs[i]) != key(outputs[j])
    requires DistinctSlots(batch)
    requires forall k :: k in batch ==> batch[k].delivered == None
    modifies batch.Values
    ensures forall k :: k in batch ==> batch[k].delivered == Find(outputs, key, k)
  {
    var pending := batch;
    ghost var answered: set<string> := {};
    for n := 0 to |outputs|
      invariant answered == set i | 0 <= i < n :: key(outputs[i])
      invariant pending.Keys == batch.Keys - answered
      invariant forall k :: k in pending ==> pending[k] == batch[k] && batch[k].delivered == None
      invariant forall i :: 0 <= i < n ==> batch[key(outputs[i])].delivered == Some(outputs[i])
    {
      var k0 := key(outputs[n]);
      assert k0 !in answered;
      var target := pending[k0];
      pending := pending - {k0};
      answered := answered + {k0};
      target.Send(outputs[n]);
    }
    forall k | k in batch ensures batch[k].delivered == Find(outputs, key, k) {
      if k in answered {
        var i :| 0 <= i < |outputs| && key(outputs[i]) == k;
        FindDistinct(outputs, key, i);
      } else {
        assert forall i :: 0 <= i < |outputs| ==> key(outputs[i]) in answered;
      }
    }
  }

  /**
   * The handling of one parsed, non-error response to the sub-batch `ids`: the
   * sub-batch's slots are taken out of the registry, a list is routed as it is and
   * a keyed response by its values. Every slot of the sub-batch ends up holding
   * what the response answers for its key; no other slot changes.
   */
  method Deliver<T>(registry: map<string, Slot<T>>, ids: seq<string>, response: Response<T>, key: T -> string)
    requires !response.ErrorObject?
    requires Routable(ids, response, key)
    requires forall k :: k in ids ==> k in registry
    requires DistinctSlots(registry)
    requires forall k :: k in ids ==> registry[k].delivered == None
    modifies set k | k in ids :: registry[k]
    ensures forall k :: k in ids ==> registry[k].delivered == Answer(response, key, k)
    ensures forall k :: k in registry && k !in ids ==> registry[k].delivered == old(registry[k].delivered)
  {
    var batch := map k | k in ids :: registry[k];
    var outputs: seq<T>;
    match response {
      case ItemList(items) =>
        outputs := items;
      case KeyedItems(byId) =>
        ghost var ks;
        outputs, ks := CollectValues(byId);
        forall k | true ensures Find(outputs, key, k) == Answer(response, key, k) {
          CollectedAnswer(byId, outputs, ks, key, k);
        }
        forall i, j | 0 <= i < j < |outputs| ensures key(outputs[i]) != key(outputs[j]) {
          assert ks[i] != ks[j];
        }
    }
    forall k | k in registry && k !in ids ensures registry[k] !in batch.Values {
      forall j | j in batch ensures batch[j] != registry[k] {
        assert j != k;
      }
    }
    Route(batch, outputs, key);
  }

  /** The window's first sub-batch, once the drained keys are split. */
  lemma ChunksHead(vals: seq<string>, m: nat)
    requires m >= 1 && |vals| > 0
    ensures var n := if |vals| < m then |vals| else m;
      Chunks(vals, m) == [vals[..n]] + Chunks(vals[n..], m) &&
      vals == vals[..n] + vals[n..]
  {
  }

  /** Keys of the first sub-batch are not in later ones. */
  lemma HeadApart(vals: seq<string>, n: nat)
    requires n <= |vals| && Distinct(vals)
    ensures forall k :: k in vals[..n] ==> k !in vals[n..]
    ensures Distinct(vals[n..])
  {
    forall k | k in vals[..n] ensures k !in vals[n..] {
      var a :| 0 <= a < n && vals[..n][a] == k;
      forall b | 0 <= b < |vals[n..]| ensures vals[n..][b] != k {
        assert vals[n..][b] == vals[n + b] && vals[a] == k;
      }
    }
    forall a, b | 0 <= a < b < |vals[n..]| ensures vals[n..][a] != vals[n..][b] {
      assert vals[n..][a] == vals[n + a] && vals[n..][b] == vals[n + b];
    }
  }

  /**
   * The loop state of `process` apart from the slots: `vals` are the keys not yet
   * posted, `rs` the responses still to come, `sent` the payloads posted so far,
   * and what is left to post and deliver is what the window still owes.
   */
  ghost predicate Pending<T>(cs: seq<seq<string>>, responses: seq<Response<T>>, vals: seq<string>,
                             rs: seq<Response<T>>, sent: seq<string>, m: nat, key: T -> string,
                             template: string, encode: seq<string> -> string)
  {
    m >= 1 && |responses| == |cs| && |rs| == |Chunks(vals, m)| && Distinct(vals) &&
    Serviceable(Chunks(vals, m), rs, key) &&
    Sent(cs, responses, template, encode) == sent + Sent(Chunks(vals, m), rs, template, encode) &&
    forall k :: k in vals ==> Delivery(cs, responses, key, k) == Delivery(Chunks(vals, m), rs, key, k)
  }

  lemma PendingStart<T>(order: seq<string>, responses: seq<Response<T>>, m: nat, key: T -> string,
                        template: string, encode: seq<string> -> string)
    requires m >= 1 && Distinct(order) && |responses| == |Chunks(order, m)|
    requires Serviceable(Chunks(order, m), responses, key)
    ensures Pending(Chunks(order, m), responses, order, responses, [], m, key, template, encode)
  {
  }

  /** Posting the first pending sub-batch when its response is an error object ends the window. */
  lemma PendingAbort<T>(cs: seq<seq<string>>, responses: seq<Response<T>>, vals: seq<string>,
                        rs: seq<Response<T>>, sent: seq<string>, m: nat, key: T -> string,
                        template: string, encode: seq<string> -> string)
    requires Pending(cs, responses, vals, rs, sent, m, key, template, encode)
    requires |vals| > 0 && rs[0].ErrorObject?
    ensures var n := if |vals| < m then |vals| else m;
      Sent(cs, responses, template, encode) == sent + [Payload(template, encode, vals[..n])]
    ensures forall k :: k in vals ==> Delivery(cs, responses, key, k) == None
  {
    ChunksHead(vals, m);
  }

  /** Posting the first pending sub-batch when its response is routable. */
  lemma PendingStep<T>(cs: seq<seq<string>>, responses: seq<Response<T>>, vals: seq<string>,
                       rs: seq<Response<T>>, sent: seq<string>, m: nat, key: T -> string,
                       template: string, encode: seq<string> -> string)
    requires Pending(cs, responses, vals, rs, sent, m, key, template, encode)
    requires |vals| > 0 && !rs[0].ErrorObject?
    ensures var n := if |vals| < m then |vals| else m;
      Pending(cs, responses, vals[n..], rs[1..], sent + [Payload(template, encode, vals[..n])], m, key, template, encode)
    ensures var n := if |vals| < m then |vals| else m;
      Routable(vals[..n], rs[0], key) &&
      (forall k :: k in vals[..n] ==> Delivery(cs, responses, key, k) == Answer(rs[0], key, k)) &&
      (forall k :: k in vals[..n] ==> k !in vals[n..]) &&
      (forall k :: k in vals <==> k in vals[..n] || k in vals[n..])
  {
    var n := if |vals| < m then |vals| else m;
    ChunksHead(vals, m);
    HeadApart(vals, n);
    var payload := Payload(template, encode, vals[..n]);
    var later := Sent(Chunks(vals[n..], m), rs[1..], template, encode);
    assert Sent(Chunks(vals, m), rs, template, encode) == [payload] + later;
    assert sent + ([payload] + later) == (sent + [payload]) + later;
  }

  /** Nothing is owed once every sub-batch is posted. */
  lemma PendingEnd<T>(cs: seq<seq<string>>, responses: seq<Response<T>>, rs: seq<Response<T>>,
                      sent: seq<string>, m: nat, key: T -> string, template: string, encode: seq<string> -> string)
    requires Pending(cs, responses, [], rs, sent, m, key, template, encode)
    ensures Sent(cs, responses, template, encode) == sent
  {
  }

  /**
   * `process`: post each sub-batch in turn and route its items; an error object
   * ends the window. `order` is the order `drain` yields the registry's keys.
   */
  method Process<T>(registry: map<string, Slot<T>>, order: seq<string>, ep: Endpoint,
                    encode: seq<string> -> string, key: T -> string, responses: seq<Response<T>>)
    returns (sent: seq<string>)
    requires ep.maxPostSize >= 1
    requires Enumerates(order, registry.Keys)
    requires DistinctSlots(registry)
    requires forall k :: k in registry ==> registry[k].delivered == None
    requires |responses| == |Chunks(order, ep.maxPostSize)|
    requires Serviceable(Chunks(order, ep.maxPostSize), responses, key)
    modifies registry.Values
    ensures sent == Sent(Chunks(order, ep.maxPostSize), responses, ep.payloadTemplate, encode)
    ensures |registry| == 0 ==> sent == []
    ensures forall k :: k in registry ==> registry[k].delivered == Delivery(Chunks(order, ep.maxPostSize), responses, key, k)
  {
    var m := ep.maxPostSize;
    ghost var cs := Chunks(order, m);
    if |registry| == 0 {
      EnumeratesEmpty(order, registry.Keys);
      return [];
    }
    var vals := order;
    var rs := responses;
    sent := [];
    PendingStart(order, responses, m, key, ep.payloadTemplate, encode);
    while |vals| > 0
      invariant Pending(cs, responses, vals, rs, sent, m, key, ep.payloadTemplate, encode)
      invariant forall k :: k in vals ==> k in registry
      invariant forall k :: k in registry ==>
        registry[k].delivered == if k in vals then None else Delivery(cs, responses, key, k)
      decreases |vals|
    {
      var n := if |vals| < m then |vals| else m;
      var ids := vals[..n];
      var payload := Payload(ep.payloadTemplate, encode, ids);
      var response := rs[0];
      if response.ErrorObject? {
        PendingAbort(cs, responses, vals, rs, sent, m, key, ep.payloadTemplate, encode);
        sent := sent + [payload];
        return;
      }
      PendingStep(cs, responses, vals, rs, sent, m, key, ep.payloadTemplate, encode);
      sent := sent + [payload];
      Deliver(registry, ids, response, key);
      vals := vals[n..];
      rs := rs[1..];
    }
    PendingEnd(cs, responses, rs, sent, m, key, ep.payloadTemplate, encode);
  }

  /** All slots of the queued pairs. */
  ghost function SlotsOf<T>(queued: seq<(string, Slot<T>)>): set<Slot<T>>
  {
    set i | 0 <= i < |queued| :: queued[i].1
  }

  /** Every identifier some queued pair asks for. */
  ghost function IdsOf<T>(queued: seq<(string, Slot<T>)>): set<string>
  {
    set i | 0 <= i < |queued| :: queued[i].0
  }

  /** Every identifier that is queued has a last pair. */
  lemma {:induction false} LatestExists<T>(queued: seq<(string, Slot<T>)>, i: nat)
    requires i < |queued|
    ensures exists l :: i <= l < |queued| && queued[l].0 == queued[i].0 && IsLatest(queued, l)
    decreases |queued| - i
  {
    if !IsLatest(queued, i) {
      var j :| i < j < |queued| && queued[j].0 == queued[i].0;
      LatestExists(queued, j);
    }
  }

  /** The queued pair whose slot the drained registry holds under `k`. */
  lemma LatestFor<T>(queued: seq<(string, Slot<T>)>, gets: map<string, Slot<T>>, k: string) returns (l: nat)
    requires forall k :: k in gets <==> exists i :: 0 <= i < |queued| && queued[i].0 == k
    requires forall i :: 0 <= i < |queued| && IsLatest(queued, i) ==> gets[queued[i].0] == queued[i].1
    requires k in gets
    ensures l < |queued| && IsLatest(queued, l) && queued[l].0 == k && gets[k] == queued[l].1
  {
    var i :| 0 <= i < |queued| && queued[i].0 == k;
    LatestExists(queued, i);
    l :| i <= l < |queued| && queued[l].0 == queued[i].0 && IsLatest(queued, l);
  }

  /** What `Drain` leaves: one slot per queued identifier, the latest one, all distinct. */
  lemma DrainedRegistry<T>(queued: seq<(string, Slot<T>)>, gets: map<string, Slot<T>>)
    requires forall i, j :: 0 <= i < j < |queued| ==> queued[i].1 != queued[j].1
    requires forall k :: k in gets <==> exists i :: 0 <= i < |queued| && queued[i].0 == k
    requires forall i :: 0 <= i < |queued| && IsLatest(queued, i) ==> gets[queued[i].0] == queued[i].1
    ensures gets.Keys == IdsOf(queued)
    ensures DistinctSlots(gets)
    ensures forall k :: k in gets ==> gets[k] in SlotsOf(queued)
    ensures forall i :: 0 <= i < |queued| && !IsLatest(queued, i) ==> queued[i].1 !in gets.Values
  {
    assert gets.Keys == IdsOf(queued);
    forall k1, k2 | k1 in gets && k2 in gets && k1 != k2 ensures gets[k1] != gets[k2] {
      var l1 := LatestFor(queued, gets, k1);
      var l2 := LatestFor(queued, gets, k2);
    }
    forall k | k in gets ensures gets[k] in SlotsOf(queued) {
      var l := LatestFor(queued, gets, k);
    }
    forall i | 0 <= i < |queued| && !IsLatest(queued, i) ensures queued[i].1 !in gets.Values {
      forall k | k in gets ensures gets[k] != queued[i].1 {
        var l := LatestFor(queued, gets, k);
        assert l != i;
      }
    }
  }

  /**
   * One batching window, from the mailbox to the callers: the queued pairs are
   * drained and processed. A caller whose pair was superseded by a later pair for
   * the same identifier receives nothing, so its `Client::get` yields `None`.
   */
  method DispatchWindow<T>(queued: seq<(string, Slot<T>)>, order: seq<string>, ep: Endpoint,
                           encode: seq<string> -> string, key: T -> string, responses: seq<Response<T>>)
    returns (sent: seq<string>)
    requires ep.maxPostSize >= 1
    requires forall i, j :: 0 <= i < j < |queued| ==> queued[i].1 != queued[j].1
    requires forall i :: 0 <= i < |queued| ==> queued[i].1.delivered == None
    requires Enumerates(order, IdsOf(queued))
    requires |responses| == |Chunks(order, ep.maxPostSize)|
    requires Serviceable(Chunks(order, ep.maxPostSize), responses, key)
    modifies SlotsOf(queued)
    ensures sent == Sent(Chunks(order, ep.maxPostSize), responses, ep.payloadTemplate, encode)
    ensures forall i :: 0 <= i < |queued| && IsLatest(queued, i) ==>
      queued[i].1.delivered == Delivery(Chunks(order, ep.maxPostSize), responses, key, queued[i].0)
    ensures forall i :: 0 <= i < |queued| && !IsLatest(queued, i) ==> queued[i].1.delivered == None
  {
    var gets := Drain(queued);
    DrainedRegistry(queued, gets);
    sent := Process(gets, order, ep, encode, key, responses);
  }
}
