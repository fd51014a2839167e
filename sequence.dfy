/**
 * The sequence endpoint: coding and cDNA sequences, where exons are marked by
 * case (upper-case and lower-case runs alternate), and the split of a coding
 * sequence into its exons.
 */
module Sequence {
  import opened Wrappers
  import opened Ascii
  import Api

  datatype CdnaSequence = CdnaSequence(query: string, id: string, desc: Option<string>, sequence: string)

  datatype CodingSequence = CodingSequence(query: string, id: string, desc: Option<string>, sequence: string)

  // --------------------------------------------------------------- case runs

  /** Two characters fall in the same class of `char::is_uppercase`. */
  predicate SameCase(a: char, b: char)
  {
    IsUpper(a) == IsUpper(b)
  }

  /** Every character of `s[lo..hi]` is in the class of `s[lo]`. */
  predicate Uniform(s: string, lo: nat, hi: nat)
    requires lo < hi <= |s|
  {
    forall i :: lo <= i < hi ==> SameCase(s[lo], s[i])
  }

  /** The first position of the maximal same-case run that ends at position `j`. */
  function RunStart(s: string, j: nat): (r: nat)
    requires j < |s|
    ensures r <= j && Uniform(s, r, j + 1)
    ensures r == 0 || !SameCase(s[r - 1], s[r])
    decreases j
  {
    if j == 0 then 0
    else if SameCase(s[j - 1], s[j]) then RunStart(s, j - 1)
    else j
  }

  /** A run start looks only at the characters up to it. */
  lemma {:induction false} RunStartPrefix(s: string, t: string, j: nat)
    requires j < |t| <= |s| && t == s[..|t|]
    ensures RunStart(t, j) == RunStart(s, j)
    decreases j
  {
    if j > 0 {
      assert t[j - 1] == s[j - 1] && t[j] == s[j];
      RunStartPrefix(s, t, j - 1);
    }
  }

  /** The maximal same-case runs of `s`, left to right. */
  function Runs(s: string): seq<string>
    decreases |s|
  {
    if |s| == 0 then []
    else
      var r := RunStart(s, |s| - 1);
      Runs(s[..r]) + [s[r..]]
  }

  function Concat(rs: seq<string>): string
    decreases |rs|
  {
    if |rs| == 0 then [] else Concat(rs[..|rs| - 1]) + rs[|rs| - 1]
  }

  function UpperAll(rs: seq<string>): (us: seq<string>)
    ensures |us| == |rs|
    ensures forall i :: 0 <= i < |rs| ==> us[i] == UpperString(rs[i])
  {
    seq(|rs|, i requires 0 <= i < |rs| => UpperString(rs[i]))
  }

  lemma UpperAllSnoc(rs: seq<string>, r: string)
    ensures UpperAll(rs + [r]) == UpperAll(rs) + [UpperString(r)]
  {
  }

  /** The exons of a coding sequence as `exons` returns them. */
  function ExonsOf(s: string): seq<string>
  {
    if |s| <= 1 then [] else UpperAll(Runs(s))
  }

  // ------------------------------------------------------------- exons

  /**
   * `CodingSequence::exons`: scan with `end`, comparing each character with the
   * first of the current run, and cut where the case changes.
   */
  method Exons(cs: CodingSequence) returns (output: seq<string>)
    ensures output == ExonsOf(cs.sequence)
  {
    var s := cs.sequence;
    output := [];
    var start := 0;
    var end := 1;
    while end < |s|
      invariant start < end && start <= |s|
      invariant end <= |s| || end == 1
      invariant end <= |s| ==> start == RunStart(s, end - 1)
      invariant output == UpperAll(Runs(s[..start]))
      decreases |s| - end
    {
      if IsUpper(s[start]) == IsUpper(s[end]) {
        assert SameCase(s[end - 1], s[end]);
        end := end + 1;
      } else {
        RunsPrefix(s, end);
        UpperAllSnoc(Runs(s[..start]), s[start..end]);
        output := output + [UpperString(s[start..end])];
        start := end;
        end := end + 1;
      }
    }
    if end > 1 {
      RunsPrefix(s, |s|);
      UpperAllSnoc(Runs(s[..start]), s[start..]);
      assert s[..|s|] == s;
      output := output + [UpperString(s[start..])];
    }
  }

  /** The runs of a prefix that ends where a run ends. */
  lemma RunsPrefix(s: string, n: nat)
    requires 0 < n <= |s|
    ensures Runs(s[..n]) == Runs(s[..RunStart(s, n - 1)]) + [s[RunStart(s, n - 1)..n]]
  {
    var t := s[..n];
    RunStartPrefix(s, t, n - 1);
    var r := RunStart(s, n - 1);
    assert t[..r] == s[..r];
    assert t[r..] == s[r..n];
  }

  // -------------------------------------------------------------- properties

  /** Laid end to end, the runs are the sequence. */
  lemma {:induction false} RunsConcat(s: string)
    ensures Concat(Runs(s)) == s
    decreases |s|
  {
    if |s| > 0 {
      var r := RunStart(s, |s| - 1);
      RunsConcat(s[..r]);
      var rs := Runs(s);
      assert rs[..|rs| - 1] == Runs(s[..r]);
      assert s[..r] + s[r..] == s;
    }
  }

  /** A non-empty run of one case. */
  predicate UniformRun(a: string)
  {
    |a| > 0 && forall j :: 0 <= j < |a| ==> SameCase(a[0], a[j])
  }

  /** Where one run ends and the next begins, the case changes. */
  predicate Apart(a: string, b: string)
  {
    |a| > 0 && |b| > 0 && !SameCase(a[|a| - 1], b[0])
  }

  /** Every run is non-empty and of one case. */
  lemma {:induction false} RunsUniform(s: string)
    ensures forall i :: 0 <= i < |Runs(s)| ==> UniformRun(Runs(s)[i])
    decreases |s|
  {
    if |s| > 0 {
      var r := RunStart(s, |s| - 1);
      RunsUniform(s[..r]);
      assert Runs(s)[|Runs(s)| - 1] == s[r..];
      assert Uniform(s, r, |s|);
    }
  }

  /** Adjacent runs differ in case: the runs are maximal. */
  lemma {:induction false} RunsAlternate(s: string)
    ensures forall i :: 0 <= i < |Runs(s)| - 1 ==> Apart(Runs(s)[i], Runs(s)[i + 1])
    decreases |s|
  {
    if |s| > 0 {
      var r := RunStart(s, |s| - 1);
      var p := s[..r];
      var rs := Runs(p);
      assert Runs(s) == rs + [s[r..]];
      RunsAlternate(p);
      if r > 0 {
        RunsLast(p);
        assert rs[|rs| - 1][|rs[|rs| - 1]| - 1] == s[r - 1];
        assert Apart(rs[|rs| - 1], s[r..]);
      }
    }
  }

  /** The last run of a non-empty sequence ends with its last character. */
  lemma RunsLast(s: string)
    requires |s| > 0
    ensures |Runs(s)| > 0 && |Runs(s)[|Runs(s)| - 1]| > 0
    ensures Runs(s)[|Runs(s)| - 1][|Runs(s)[|Runs(s)| - 1]| - 1] == s[|s| - 1]
  {
  }

  lemma {:induction false} ConcatUpper(rs: seq<string>)
    ensures Concat(UpperAll(rs)) == UpperString(Concat(rs))
    decreases |rs|
  {
    if |rs| > 0 {
      var n := |rs| - 1;
      assert UpperAll(rs)[..n] == UpperAll(rs[..n]);
      ConcatUpper(rs[..n]);
      UpperStringAppend(Concat(rs[..n]), rs[n]);
    }
  }

  /** From two bases on, the exons are the upper-cased sequence cut at every case change. */
  lemma ExonsCoverSequence(s: string)
    requires |s| >= 2
    ensures Concat(ExonsOf(s)) == UpperString(s)
  {
    RunsConcat(s);
    ConcatUpper(Runs(s));
  }

  /** Inside a run that starts at `lo`, every position's run starts at `lo`. */
  lemma {:induction false} RunStartInRun(s: string, lo: nat, j: nat)
    requires lo <= j < |s| && Uniform(s, lo, j + 1)
    requires lo == 0 || !SameCase(s[lo - 1], s[lo])
    ensures RunStart(s, j) == lo
    decreases j - lo
  {
    if j > lo {
      assert SameCase(s[lo], s[j - 1]) && SameCase(s[lo], s[j]);
      RunStartInRun(s, lo, j - 1);
    }
  }

  /** The last run of `p + b` starts where `b` does. */
  lemma RunStartAppended(p: string, b: string)
    requires UniformRun(b)
    requires |p| == 0 || !SameCase(p[|p| - 1], b[0])
    ensures RunStart(p + b, |p| + |b| - 1) == |p|
  {
    var s := p + b;
    forall i | |p| <= i < |s| ensures SameCase(s[|p|], s[i]) {
      assert s[i] == b[i - |p|];
    }
    RunStartInRun(s, |p|, |s| - 1);
  }

  /** A run appended where the case changes is one more run. */
  lemma RunsAppendRun(p: string, b: string)
    requires UniformRun(b)
    requires |p| == 0 || !SameCase(p[|p| - 1], b[0])
    ensures Runs(p + b) == Runs(p) + [b]
  {
    var s := p + b;
    RunStartAppended(p, b);
    assert s[..|p|] == p && s[|p|..] == b;
  }

  /** Four runs, each of one case, alternating in case. */
  lemma FourRuns(a: string, b: string, c: string, d: string)
    requires UniformRun(a) && UniformRun(b) && UniformRun(c) && UniformRun(d)
    requires Apart(a, b) && Apart(b, c) && Apart(c, d)
    ensures Runs(a + b + c + d) == [a, b, c, d]
  {
    var ab, abc := a + b, a + b + c;
    RunsAppendRun([], a);
    assert [] + a == a;
    assert Runs(a) == [a];
    RunsAppendRun(a, b);
    assert ab[|ab| - 1] == b[|b| - 1];
    RunsAppendRun(ab, c);
    assert abc[|abc| - 1] == c[|c| - 1];
    RunsAppendRun(abc, d);
    Snocs(a, b, c, d);
  }

  lemma Snocs<T>(a: T, b: T, c: T, d: T)
    ensures [a] + [b] == [a, b] && [a, b] + [c] == [a, b, c] && [a, b, c] + [d] == [a, b, c, d]
  {
  }

  lemma DocExampleText()
    ensures "ACGTacgtACGTacgt" == "ACGT" + "acgt" + "ACGT" + "acgt"
  {
  }

  lemma DocExampleUpper()
    ensures UpperString("acgt") == "ACGT" && UpperString("ACGT") == "ACGT"
  {
  }

  /** The example of the `exons` documentation: four exons of "ACGT". */
  lemma ExonsDocExample(s: string)
    requires s == "ACGTacgtACGTacgt"
    ensures ExonsOf(s) == ["ACGT", "ACGT", "ACGT", "ACGT"]
  {
    var up, low := "ACGT", "acgt";
    assert UniformRun(up) && UniformRun(low);
    assert Apart(up, low) && Apart(low, up);
    FourRuns(up, low, up, low);
    DocExampleText();
    DocExampleUpper();
    var e := UpperAll([up, low, up, low]);
    assert ExonsOf(s) == e;
    FourElements(e, "ACGT", "ACGT", "ACGT", "ACGT");
  }

  /** The number of adjacent pairs of `s` whose characters differ in case. */
  function CaseChanges(s: string): nat
    decreases |s|
  {
    if |s| <= 1 then 0
    else CaseChanges(s[..|s| - 1]) + (if SameCase(s[|s| - 2], s[|s| - 1]) then 0 else 1)
  }

  /** A uniform tail adds no case change beyond its first character. */
  lemma {:induction false} CaseChangesUniformTail(s: string, r: nat)
    requires r < |s| && Uniform(s, r, |s|)
    ensures CaseChanges(s) == CaseChanges(s[..r + 1])
    decreases |s|
  {
    if |s| == r + 1 {
      assert s[..r + 1] == s;
    } else {
      var p := s[..|s| - 1];
      assert SameCase(s[r], s[|s| - 2]) && SameCase(s[r], s[|s| - 1]);
      assert Uniform(p, r, |p|) by {
        forall i | r <= i < |p| ensures SameCase(p[r], p[i]) {
          assert p[i] == s[i] && p[r] == s[r];
        }
      }
      CaseChangesUniformTail(p, r);
      assert p[..r + 1] == s[..r + 1];
    }
  }

  /** There is one run more than there are case changes. */
  lemma {:induction false} RunsCount(s: string)
    requires |s| > 0
    ensures |Runs(s)| == 1 + CaseChanges(s)
    decreases |s|
  {
    var r := RunStart(s, |s| - 1);
    CaseChangesUniformTail(s, r);
    var q := s[..r + 1];
    if r > 0 {
      assert q[..r] == s[..r] && q[r - 1] == s[r - 1] && q[r] == s[r];
      RunsCount(s[..r]);
    } else {
      assert |Runs(s[..0])| == 0;
    }
  }

  /** From two characters on, `exons` returns one exon more than there are case changes. */
  lemma ExonsCount(s: string)
    requires |s| >= 2
    ensures |ExonsOf(s)| == 1 + CaseChanges(s)
  {
    RunsCount(s);
  }

  lemma FourElements<T>(e: seq<T>, a: T, b: T, c: T, d: T)
    requires |e| == 4 && e[0] == a && e[1] == b && e[2] == c && e[3] == d
    ensures e == [a, b, c, d]
  {
  }

  // --------------------------------------------------------------- endpoints

  /** `input`: responses answer the caller's query text. */
  function Input(c: CodingSequence): string
  {
    c.query
  }

  function CdnaInput(c: CdnaSequence): string
  {
    c.query
  }

  /** The shared text of both sequence templates, around the requested type. */
  const TypeKey: string := "{\"type\": \""
  const MaskedIds: string := "\", \"mask_feature\" : 1, \"ids\" : "

  const CodingSequenceEndpoint: Api.Endpoint :=
    Api.Endpoint("/sequence/id", TypeKey + "cds" + MaskedIds + Api.IdsMarker + "}", Api.DefaultMaxPostSize)

  const CdnaSequenceEndpoint: Api.Endpoint :=
    Api.Endpoint("/sequence/id", TypeKey + "cdna" + MaskedIds + Api.IdsMarker + "}", Api.DefaultMaxPostSize)

  /** A coding-sequence post asks for masked CDS sequences of the encoded identifiers. */
  lemma CodingSequencePayload(encode: seq<string> -> string, ids: seq<string>)
    ensures Api.Payload(CodingSequenceEndpoint.payloadTemplate, encode, ids) ==
      TypeKey + "cds" + MaskedIds + encode(ids) + "}"
  {
    var pre := TypeKey + "cds" + MaskedIds;
    assert CodingSequenceEndpoint.payloadTemplate == pre + Api.IdsMarker + "}";
    Api.TemplatePayload(pre, "}", encode, ids);
  }

  /** A cDNA post asks for masked cDNA sequences of the encoded identifiers. */
  lemma CdnaSequencePayload(encode: seq<string> -> string, ids: seq<string>)
    ensures Api.Payload(CdnaSequenceEndpoint.payloadTemplate, encode, ids) ==
      TypeKey + "cdna" + MaskedIds + encode(ids) + "}"
  {
    var pre := TypeKey + "cdna" + MaskedIds;
    assert CdnaSequenceEndpoint.payloadTemplate == pre + Api.IdsMarker + "}";
    Api.TemplatePayload(pre, "}", encode, ids);
  }

  /**
   * For the same identifiers, the coding-sequence and cDNA posts differ only in
   * the requested sequence type.
   */
  lemma SequencePayloadsDiffer(encode: seq<string> -> string, ids: seq<string>)
    ensures var rest := MaskedIds + encode(ids) + "}";
      Api.Payload(CodingSequenceEndpoint.payloadTemplate, encode, ids) == TypeKey + "cds" + rest &&
      Api.Payload(CdnaSequenceEndpoint.payloadTemplate, encode, ids) == TypeKey + "cdna" + rest
  {
    CodingSequencePayload(encode, ids);
    CdnaSequencePayload(encode, ids);
  }
}
