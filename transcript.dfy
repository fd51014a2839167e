/**
 * Transcripts and the prediction of a variant's consequences on one: the
 * reverse complement of a strand, the translation of a coding sequence into
 * a protein (with its stop codon and its last exon junction), and the
 * classification of an edit as intronic, splice-disrupting or coding.
 */
module Transcripts {
  import opened Wrappers
  import opened Ascii
  import Api
  import Descriptors

  newtype u32 = x: int | 0 <= x < 0x1_0000_0000
  newtype i8 = x: int | -0x80 <= x < 0x80

  datatype Translation = Translation(id: string, start: u32, end: u32, length: u32)

  datatype Transcript = Transcript(
    id: string,
    displayName: string,
    start: u32,
    end: u32,
    strand: i8,
    translation: Option<Translation>,
    canonical: Descriptors.Canonical,
    species: string)

  /** A genomic sequence as the sequence endpoint returns it. */
  datatype GenomicSequence = GenomicSequence(query: string, id: string, desc: Option<string>, sequence: string)

  datatype TranslationType = NORMAL | NMD | NONSTOP | ERROR

  datatype TranslationConsequence = TranslationConsequence(
    proteinSequence: string,
    stopIndex: Option<nat>,
    lastEjcIndex: Option<nat>,
    translationType: TranslationType)

  /** The derived `Default`: no protein, no indices, type `ERROR`. */
  const DefaultTranslation: TranslationConsequence := TranslationConsequence([], None, None, ERROR)

  datatype Consequences =
    | DisruptedSpliceSite
    | Coding(editedGenomicSequence: string,
             editedProteinSequence: TranslationConsequence,
             uneditedProteinSequence: TranslationConsequence)
    | Intron

  // ------------------------------------------------------- reverse complement

  predicate IsNucleotide(c: char)
  {
    c in "ACGTacgt"
  }

  predicate IsDna(s: string)
  {
    forall i :: 0 <= i < |s| ==> IsNucleotide(s[i])
  }

  /** The paired base: A with T and C with G, keeping the letter's case. */
  function Complement(c: char): (r: char)
    requires IsNucleotide(c)
    ensures IsNucleotide(r) && IsUpper(r) == IsUpper(c)
    ensures c in "Aa" <==> r in "Tt"
    ensures c in "Tt" <==> r in "Aa"
    ensures c in "Cc" <==> r in "Gg"
    ensures c in "Gg" <==> r in "Cc"
  {
    match c
    case 'a' => 't'
    case 'A' => 'T'
    case 'c' => 'g'
    case 'C' => 'G'
    case 'g' => 'c'
    case 'G' => 'C'
    case 't' => 'a'
    case 'T' => 'A'
  }

  /** The complementary strand read in its own 5'-to-3' direction. */
  function RevComp(s: string): (r: string)
    requires IsDna(s)
    ensures |r| == |s| && IsDna(r)
  {
    if |s| == 0 then [] else RevComp(s[1..]) + [Complement(s[0])]
  }

  /** `reverse_complement`: walk the sequence backwards pushing each base's complement. */
  method ReverseComplement(s: string) returns (output: string)
    requires IsDna(s)
    ensures output == RevComp(s)
  {
    output := [];
    var i := |s|;
    while i > 0
      invariant 0 <= i <= |s|
      invariant output == RevComp(s[i..])
    {
      i := i - 1;
      assert s[i..][1..] == s[i + 1..];
      output := output + [Complement(s[i])];
    }
    assert s[0..] == s;
  }

  lemma ComplementInvolutive(c: char)
    requires IsNucleotide(c)
    ensures Complement(Complement(c)) == c
  {
  }

  /** Position `k` of the reverse complement pairs with position `|s| - 1 - k`. */
  lemma {:induction false} RevCompAt(s: string)
    requires IsDna(s)
    ensures forall k :: 0 <= k < |s| ==> RevComp(s)[k] == Complement(s[|s| - 1 - k])
  {
    if |s| > 0 {
      RevCompAt(s[1..]);
    }
  }

  /** Taking the reverse complement twice gives back the original strand. */
  lemma RevCompInvolutive(s: string)
    requires IsDna(s)
    ensures RevComp(RevComp(s)) == s
  {
    var r := RevComp(s);
    RevCompAt(s);
    RevCompAt(r);
    forall k | 0 <= k < |s| ensures RevComp(r)[k] == s[k] {
      ComplementInvolutive(s[k]);
    }
  }

  /** The reverse complement of a concatenation swaps the parts. */
  lemma {:induction false} RevCompAppend(a: string, b: string)
    requires IsDna(a) && IsDna(b)
    ensures IsDna(a + b) && RevComp(a + b) == RevComp(b) + RevComp(a)
  {
    if |a| == 0 {
      assert a + b == b;
    } else {
      assert (a + b)[1..] == a[1..] + b;
      RevCompAppend(a[1..], b);
    }
  }

  // -------------------------------------------------------------- translation

  /** The `map` step of `translate`: thymine is read as uracil. */
  function Rna(c: char): char
  {
    if c == 'T' then 'U' else if c == 't' then 'u' else c
  }

  /** What the `filter` step keeps of one character: the upper-case ones, after the `map` step. */
  function Kept(c: char): string
  {
    if IsUpper(c) then [Rna(c)] else []
  }

  /** The bases `translate` pulls from `s[lo..hi]`: its upper-case characters, T read as U, in order. */
  function BasesIn(s: string, lo: nat, hi: nat): (b: string)
    requires lo <= hi <= |s|
    ensures |b| <= hi - lo
    decreases hi
  {
    if hi == lo then [] else BasesIn(s, lo, hi - 1) + Kept(s[hi - 1])
  }

  /** The bases `translate` reads from the whole of `s`. */
  function Bases(s: string): string
  {
    BasesIn(s, 0, |s|)
  }

  /** The codon table of `translate`; `None` where the source panics. */
  function Codon(x: char, y: char, z: char): (r: Option<char>)
    ensures r.Some? ==> IsRnaBase(x) && IsRnaBase(y)
    ensures IsRnaBase(x) && IsRnaBase(y) && IsRnaBase(z) ==> r.Some?
  {
    match (x, y, z)
    case ('G', 'C', _) => Some('A')
    case ('U', 'G', 'U') | ('U', 'G', 'C') => Some('C')
    case ('G', 'A', 'U') | ('G', 'A', 'C') => Some('D')
    case ('G', 'A', 'A') | ('G', 'A', 'G') => Some('E')
    case ('U', 'U', 'U') | ('U', 'U', 'C') => Some('F')
    case ('G', 'G', _) => Some('G')
    case ('C', 'A', 'U') | ('C', 'A', 'C') => Some('H')
    case ('A', 'U', 'U') | ('A', 'U', 'C') | ('A', 'U', 'A') => Some('I')
    case ('A', 'A', 'A') | ('A', 'A', 'G') => Some('K')
    case ('C', 'U', _) | ('U', 'U', 'A') | ('U', 'U', 'G') => Some('L')
    case ('A', 'U', 'G') => Some('M')
    case ('A', 'A', 'U') | ('A', 'A', 'C') => Some('N')
    case ('C', 'C', _) => Some('P')
    case ('C', 'A', 'A') | ('C', 'A', 'G') => Some('Q')
    case ('C', 'G', _) | ('A', 'G', 'A') | ('A', 'G', 'G') => Some('R')
    case ('U', 'C', _) | ('A', 'G', 'U') | ('A', 'G', 'C') => Some('S')
    case ('A', 'C', _) => Some('T')
    case ('G', 'U', _) => Some('V')
    case ('U', 'G', 'G') => Some('W')
    case ('U', 'A', 'U') | ('U', 'A', 'C') => Some('Y')
    case ('U', 'A', 'A') | ('U', 'A', 'G') | ('U', 'G', 'A') => Some('*')
    case _ => None
  }

  /**
   * Every codon read from position `j` on, up to and including the first stop
   * codon, is in the table; a trailing incomplete codon is never looked up.
   */
  predicate KnownFrom(b: string, j: nat)
    requires j <= |b|
    decreases |b| - j
  {
    j + 3 > |b| ||
    (Codon(b[j], b[j + 1], b[j + 2]).Some? &&
     (Codon(b[j], b[j + 1], b[j + 2]).value == '*' || KnownFrom(b, j + 3)))
  }

  /** The `tuples` step with the table, from position `j`: one residue per codon, up to and including a stop. */
  function ReadFrom(b: string, j: nat): (p: string)
    requires j <= |b| && KnownFrom(b, j)
    ensures 3 * |p| <= |b| - j
    ensures (|p| > 0 && p[|p| - 1] == '*') || |b| - j < 3 * |p| + 3
    decreases |b| - j
  {
    if j + 3 > |b| then []
    else
      var aa := Codon(b[j], b[j + 1], b[j + 2]).value;
      if aa == '*' then ['*'] else [aa] + ReadFrom(b, j + 3)
  }

  predicate CodonsKnown(b: string)
  {
    KnownFrom(b, 0)
  }

  /** The residues read from the bases `b`. */
  function ReadCodons(b: string): string
    requires CodonsKnown(b)
  {
    ReadFrom(b, 0)
  }

  /** The input `translate` accepts without panicking. */
  predicate Translatable(s: string)
  {
    CodonsKnown(Bases(s))
  }

  /** The value of the counter once the `k`-th base of `s[..hi]` has been pulled. */
  function ConsumedBy(s: string, hi: nat, k: nat): (n: nat)
    requires hi <= |s| && 1 <= k <= |BasesIn(s, 0, hi)|
    ensures 1 <= n <= hi
    ensures |BasesIn(s, 0, n)| == k && IsUpper(s[n - 1])
    decreases hi
  {
    if |BasesIn(s, 0, hi - 1)| >= k then ConsumedBy(s, hi - 1, k) else hi
  }

  /** The value of the counter once the `k`-th base has been pulled: its position plus one. */
  function Consumed(s: string, k: nat): (n: nat)
    requires 1 <= k <= |Bases(s)|
    ensures 1 <= n <= |s|
    ensures |BasesIn(s, 0, n)| == k && IsUpper(s[n - 1])
  {
    ConsumedBy(s, |s|, k)
  }

  /** The type of a translation that reached a stop codon after `n` characters. */
  function StopType(n: nat, lastEjc: Option<nat>): TranslationType
  {
    match lastEjc
    case None => NORMAL
    case Some(j) => if n + 50 < j then NMD else NORMAL
  }

  // ------------------------------------------------ the last exon junction

  predicate AllUpperIn(s: string, lo: nat, hi: nat)
    requires lo <= hi <= |s|
  {
    forall i :: lo <= i < hi ==> IsUpper(s[i])
  }

  predicate AllLowerIn(s: string, lo: nat, hi: nat)
    requires lo <= hi <= |s|
  {
    forall i :: lo <= i < hi ==> IsLower(s[i])
  }

  /** `.` of a regex matches every character except a line feed. */
  predicate NoLineFeedIn(s: string, lo: nat, hi: nat)
    requires lo <= hi <= |s|
  {
    forall i :: lo <= i < hi ==> s[i] != '\n'
  }

  /**
   * `.+([A-Z][a-z]+[A-Z]+)$` matches `s` with its group starting at `g`: at least
   * one non-line-feed character before it, an upper-case letter at `g`, a run
   * of lower-case letters, and upper-case letters up to the end of `s`.
   */
  ghost predicate EjcMatch(s: string, g: nat)
  {
    0 < g < |s| && IsUpper(s[g]) &&
    (exists p :: 0 <= p < g && NoLineFeedIn(s, p, g)) &&
    (exists k :: g + 1 < k < |s| && AllLowerIn(s, g + 1, k) && AllUpperIn(s, k, |s|))
  }

  /** Where the maximal upper-case run ending at `hi` starts. */
  function UpperRunBefore(s: string, hi: nat): (r: nat)
    requires hi <= |s|
    ensures r <= hi
  {
    if hi == 0 || !IsUpper(s[hi - 1]) then hi else UpperRunBefore(s, hi - 1)
  }

  lemma {:induction false} UpperRunBeforeIsRun(s: string, hi: nat)
    requires hi <= |s|
    ensures var r := UpperRunBefore(s, hi);
      AllUpperIn(s, r, hi) && (r == 0 || !IsUpper(s[r - 1]))
    decreases hi
  {
    if hi > 0 && IsUpper(s[hi - 1]) {
      UpperRunBeforeIsRun(s, hi - 1);
    }
  }

  /** Where the maximal lower-case run ending at `hi` starts. */
  function LowerRunBefore(s: string, hi: nat): (r: nat)
    requires hi <= |s|
    ensures r <= hi
  {
    if hi == 0 || !IsLower(s[hi - 1]) then hi else LowerRunBefore(s, hi - 1)
  }

  lemma {:induction false} LowerRunBeforeIsRun(s: string, hi: nat)
    requires hi <= |s|
    ensures var r := LowerRunBefore(s, hi);
      AllLowerIn(s, r, hi) && (r == 0 || !IsLower(s[r - 1]))
    decreases hi
  {
    if hi > 0 && IsLower(s[hi - 1]) {
      LowerRunBeforeIsRun(s, hi - 1);
    }
  }

  /** The start of capture group 1 of the last-EJC regex, if the regex matches. */
  function LastEjcIndex(s: string): (r: Option<nat>)
    ensures r.Some? ==> var g := r.value;
      1 <= g && g + 2 < |s| && IsUpper(s[g]) && IsLower(s[g + 1]) && IsUpper(s[|s| - 1])
  {
    var k := UpperRunBefore(s, |s|);
    var j := LowerRunBefore(s, k);
    UpperRunBeforeIsRun(s, |s|);
    LowerRunBeforeIsRun(s, k);
    if k < |s| && j < k && 2 <= j && IsUpper(s[j - 1]) && s[j - 2] != '\n' then Some(j - 1)
    else None
  }

  lemma {:induction false} UpperRunBeforeUnique(s: string, hi: nat, r: nat)
    requires r <= hi <= |s| && AllUpperIn(s, r, hi)
    requires r == 0 || !IsUpper(s[r - 1])
    ensures UpperRunBefore(s, hi) == r
    decreases hi
  {
    if hi > r {
      UpperRunBeforeUnique(s, hi - 1, r);
    }
  }

  lemma {:induction false} LowerRunBeforeUnique(s: string, hi: nat, r: nat)
    requires r <= hi <= |s| && AllLowerIn(s, r, hi)
    requires r == 0 || !IsLower(s[r - 1])
    ensures LowerRunBefore(s, hi) == r
    decreases hi
  {
    if hi > r {
      LowerRunBeforeUnique(s, hi - 1, r);
    }
  }

  /** The computed index is exactly where the regex's group starts, and no match means `None`. */
  lemma LastEjcIndexMatches(s: string, g: nat)
    ensures LastEjcIndex(s) == Some(g) <==> EjcMatch(s, g)
  {
    var k := UpperRunBefore(s, |s|);
    var j := LowerRunBefore(s, k);
    UpperRunBeforeIsRun(s, |s|);
    LowerRunBeforeIsRun(s, k);
    if LastEjcIndex(s) == Some(g) {
      assert NoLineFeedIn(s, g - 1, g);
      assert AllLowerIn(s, g + 1, k) && AllUpperIn(s, k, |s|);
    }
    if EjcMatch(s, g) {
      var p :| 0 <= p < g && NoLineFeedIn(s, p, g);
      var k' :| g + 1 < k' < |s| && AllLowerIn(s, g + 1, k') && AllUpperIn(s, k', |s|);
      UpperRunBeforeUnique(s, |s|, k');
      LowerRunBeforeUnique(s, k', g + 1);
      assert s[g - 1] != '\n';
    }
  }

  /** The regex can place its group at one position at most. */
  lemma EjcMatchUnique(s: string, g: nat, h: nat)
    requires EjcMatch(s, g) && EjcMatch(s, h)
    ensures g == h
  {
    LastEjcIndexMatches(s, g);
    LastEjcIndexMatches(s, h);
  }

  // ------------------------------------------------------------ translate

  /**
   * What `translate` computes, stated on the iterator chain: the residues read
   * from the filtered bases, the counter at the stop codon, and the type.
   */
  function TranslationOf(s: string): TranslationConsequence
    requires Translatable(s)
  {
    var p := ReadCodons(Bases(s));
    var ejc := LastEjcIndex(s);
    if |p| > 0 && p[|p| - 1] == '*' then
      var n := Consumed(s, 3 * |p|);
      TranslationConsequence(p, Some(n), ejc, StopType(n, ejc))
    else
      TranslationConsequence(p, None, ejc, NONSTOP)
  }

  /** The bases of adjacent ranges concatenate. */
  lemma {:induction false} BasesInSplit(s: string, lo: nat, mid: nat, hi: nat)
    requires lo <= mid <= hi <= |s|
    ensures BasesIn(s, lo, hi) == BasesIn(s, lo, mid) + BasesIn(s, mid, hi)
    decreases hi
  {
    if hi > mid {
      BasesInSplit(s, lo, mid, hi - 1);
    }
  }

  /** The bases pulled from the second part of a concatenation are those of that part. */
  lemma {:induction false} BasesInShifted(a: string, b: string, hi: nat)
    requires hi <= |b|
    ensures BasesIn(a + b, |a|, |a| + hi) == BasesIn(b, 0, hi)
    decreases hi
  {
    if hi > 0 {
      assert (a + b)[|a| + hi - 1] == b[hi - 1];
      BasesInShifted(a, b, hi - 1);
    }
  }

  /** Filtering a concatenation filters each part. */
  lemma BasesAppend(a: string, b: string)
    ensures Bases(a + b) == Bases(a) + Bases(b)
  {
    var ab := a + b;
    BasesInSplit(ab, 0, |a|, |ab|);
    BasesInExtended(a, b, |a|);
    BasesInShifted(a, b, |b|);
  }

  /** One codon read at position `j`: a residue that is not a stop is followed by the rest. */
  lemma ReadStep(b: string, j: nat)
    requires j + 3 <= |b| && KnownFrom(b, j)
    ensures Codon(b[j], b[j + 1], b[j + 2]).Some?
    ensures var aa := Codon(b[j], b[j + 1], b[j + 2]).value;
      if aa == '*' then ReadFrom(b, j) == ['*']
      else KnownFrom(b, j + 3) && ReadFrom(b, j) == [aa] + ReadFrom(b, j + 3)
  {
  }

  /**
   * The state of `translate` after `i` characters, over the bases `b` of the
   * whole input and the residues `full` read from them: the counter is `i`;
   * the `3 * |output| + |pending|` bases pulled so far are whole codons, whose
   * residues are `output` and hold no stop, followed by the `pending` bases of
   * an incomplete codon.
   */
  ghost predicate Reading(s: string, b: string, full: string, i: nat, pending: string, output: string)
  {
    var m := 3 * |output| + |pending|;
    i <= |s| && b == Bases(s) &&
    |pending| < 3 && m == |BasesIn(s, 0, i)| && m <= |b| &&
    pending == b[3 * |output|..m] &&
    KnownFrom(b, 3 * |output|) && '*' !in output &&
    full == output + ReadFrom(b, 3 * |output|)
  }

  lemma ReadingStart(s: string)
    requires Translatable(s)
    ensures Reading(s, Bases(s), ReadCodons(Bases(s)), 0, [], [])
  {
  }

  /** Character `i` is either dropped or is the next base of `Bases(s)`. */
  lemma BaseAt(s: string, i: nat)
    requires i < |s|
    ensures |BasesIn(s, 0, i)| <= |Bases(s)|
    ensures !IsUpper(s[i]) ==> |BasesIn(s, 0, i + 1)| == |BasesIn(s, 0, i)|
    ensures IsUpper(s[i]) ==> (|BasesIn(s, 0, i + 1)| == |BasesIn(s, 0, i)| + 1 &&
      |BasesIn(s, 0, i)| < |Bases(s)| && Bases(s)[|BasesIn(s, 0, i)|] == Rna(s[i]))
  {
    BasesInSplit(s, 0, i + 1, |s|);
  }

  /** A character that is not upper case is counted and dropped. */
  lemma ReadingSkip(s: string, b: string, full: string, i: nat, pending: string, output: string)
    requires Reading(s, b, full, i, pending, output) && i < |s| && !IsUpper(s[i])
    ensures Reading(s, b, full, i + 1, pending, output)
  {
    BaseAt(s, i);
  }

  /** An upper-case character that does not complete a codon is buffered. */
  lemma ReadingPend(s: string, b: string, full: string, i: nat, pending: string, output: string)
    requires Reading(s, b, full, i, pending, output) && i < |s| && IsUpper(s[i]) && |pending| < 2
    ensures Reading(s, b, full, i + 1, pending + [Rna(s[i])], output)
  {
    BaseAt(s, i);
    var q := 3 * |output|;
    var m := q + |pending|;
    assert b[q..m + 1] == b[q..m] + [b[m]];
  }

  /** An upper-case character that completes a codon reads the codon at `3 * |output|`. */
  lemma ReadingCodonAt(s: string, b: string, full: string, i: nat, pending: string, output: string)
    requires Reading(s, b, full, i, pending, output) && i < |s| && IsUpper(s[i]) && |pending| == 2
    ensures 3 * |output| + 3 <= |b|
    ensures b[3 * |output|] == pending[0] && b[3 * |output| + 1] == pending[1]
    ensures b[3 * |output| + 2] == Rna(s[i])
    ensures |BasesIn(s, 0, i + 1)| == 3 * |output| + 3
  {
    BaseAt(s, i);
  }

  /** A completed codon that is in the table and is not a stop adds its residue. */
  lemma ReadingCodon(s: string, b: string, full: string, i: nat, pending: string, output: string)
    requires Reading(s, b, full, i, pending, output) && i < |s| && IsUpper(s[i]) && |pending| == 2
    ensures Codon(pending[0], pending[1], Rna(s[i])).Some?
    ensures var aa := Codon(pending[0], pending[1], Rna(s[i])).value;
      aa != '*' ==> Reading(s, b, full, i + 1, [], output + [aa])
  {
    ReadingCodonAt(s, b, full, i, pending, output);
    var q := 3 * |output|;
    ReadStep(b, q);
    assert Codon(pending[0], pending[1], Rna(s[i])) == Codon(b[q], b[q + 1], b[q + 2]);
    var aa := Codon(b[q], b[q + 1], b[q + 2]).value;
    if aa != '*' {
      assert b[q + 3..q + 3] == [];
      assert output + ([aa] + ReadFrom(b, q + 3)) == (output + [aa]) + ReadFrom(b, q + 3);
    }
  }

  /** A completed stop codon ends the residues, after `i + 1` characters. */
  lemma ReadingStop(s: string, b: string, full: string, i: nat, pending: string, output: string)
    requires Reading(s, b, full, i, pending, output) && i < |s| && IsUpper(s[i]) && |pending| == 2
    requires Codon(pending[0], pending[1], Rna(s[i])) == Some('*')
    ensures full == output + ['*'] && |BasesIn(s, 0, i + 1)| == 3 * |output + ['*']|
  {
    ReadingCodonAt(s, b, full, i, pending, output);
    ReadStep(b, 3 * |output|);
  }

  /** A translation whose residues end in a stop codon pulled at position `n - 1`. */
  lemma TranslationOfStop(s: string, p: string, n: nat)
    requires Translatable(s) && ReadCodons(Bases(s)) == p && |p| > 0 && p[|p| - 1] == '*'
    requires 1 <= n <= |s| && |BasesIn(s, 0, n)| == 3 * |p| && IsUpper(s[n - 1])
    ensures TranslationOf(s) == TranslationConsequence(p, Some(n), LastEjcIndex(s), StopType(n, LastEjcIndex(s)))
  {
    ConsumedUnique(s, |s|, 3 * |p|, n);
  }

  /** Running out of characters before a stop codon gives a non-stop translation. */
  lemma ReadingEnd(s: string, b: string, full: string, pending: string, output: string)
    requires Translatable(s) && full == ReadCodons(Bases(s))
    requires Reading(s, b, full, |s|, pending, output)
    ensures TranslationOf(s) == TranslationConsequence(output, None, LastEjcIndex(s), NONSTOP)
  {
    assert ReadFrom(b, 3 * |output|) == [];
    assert output + [] == output;
  }

  /** `translate`: the counter, the pending codon and the output, one character at a time. */
  method Translate(s: string) returns (t: TranslationConsequence)
    requires Translatable(s)
    ensures t == TranslationOf(s)
  {
    var lastEjc := LastEjcIndex(s);
    var output: string := [];
    var counter: nat := 0;
    var pending: string := [];
    ghost var b := Bases(s);
    ghost var full := ReadCodons(b);
    ReadingStart(s);
    var i := 0;
    while i < |s|
      invariant counter == i
      invariant Reading(s, b, full, i, pending, output)
    {
      counter := counter + 1;
      var c := Rna(s[i]);
      if !IsUpper(c) {
        ReadingSkip(s, b, full, i, pending, output);
      } else if |pending| < 2 {
        ReadingPend(s, b, full, i, pending, output);
        pending := pending + [c];
      } else {
        ReadingCodon(s, b, full, i, pending, output);
        var aa := Codon(pending[0], pending[1], c).value;
        if aa == '*' {
          ReadingStop(s, b, full, i, pending, output);
          output := output + [aa];
          TranslationOfStop(s, output, counter);
          t := TranslationConsequence(output, Some(counter), lastEjc, StopType(counter, lastEjc));
          return;
        }
        output := output + [aa];
        pending := [];
      }
      i := i + 1;
    }
    ReadingEnd(s, b, full, pending, output);
    t := TranslationConsequence(output, None, lastEjc, NONSTOP);
  }

  lemma BasesPrefixMonotone(s: string, i: nat, j: nat)
    requires i <= j <= |s|
    ensures |BasesIn(s, 0, i)| <= |BasesIn(s, 0, j)|
  {
    BasesInSplit(s, 0, i, j);
  }

  /** The counter value `ConsumedBy` names is the only one at which the `k`-th base is pulled. */
  lemma {:induction false} ConsumedUnique(s: string, hi: nat, k: nat, n: nat)
    requires 1 <= n <= hi <= |s| && |BasesIn(s, 0, n)| == k && IsUpper(s[n - 1])
    ensures 1 <= k <= |BasesIn(s, 0, hi)|
    ensures ConsumedBy(s, hi, k) == n
    decreases hi
  {
    BasesPrefixMonotone(s, n, hi);
    if n < hi {
      BasesPrefixMonotone(s, n, hi - 1);
      assert |BasesIn(s, 0, hi - 1)| >= k;
      ConsumedUnique(s, hi - 1, k, n);
    } else {
      assert BasesIn(s, 0, n) == BasesIn(s, 0, n - 1) + [Rna(s[n - 1])];
    }
  }

  // ------------------------------------------------- what a translation means

  /** A stop codon can only be the last residue read. */
  lemma {:induction false} StopOnlyAtEnd(b: string, j: nat)
    requires j <= |b| && KnownFrom(b, j)
    ensures forall k :: 0 <= k < |ReadFrom(b, j)| - 1 ==> ReadFrom(b, j)[k] != '*'
    decreases |b| - j
  {
    if j + 3 <= |b| && Codon(b[j], b[j + 1], b[j + 2]).value != '*' {
      StopOnlyAtEnd(b, j + 3);
    }
  }

  /**
   * The fields of a translation: a stop index exactly when the protein ends in
   * a stop codon, pointing just past that codon's last base; `NMD` exactly when
   * the stop lies more than 50 characters before the last exon junction;
   * `NONSTOP` exactly when no stop codon was read, after every complete codon;
   * never `ERROR`.
   */
  lemma TranslationFields(s: string)
    requires Translatable(s)
    ensures var t := TranslationOf(s);
      var p := t.proteinSequence;
      p == ReadCodons(Bases(s)) && t.lastEjcIndex == LastEjcIndex(s) &&
      3 * |p| <= |Bases(s)| && t.translationType != ERROR &&
      (forall k :: 0 <= k < |p| - 1 ==> p[k] != '*') &&
      (t.stopIndex.Some? <==> |p| > 0 && p[|p| - 1] == '*') &&
      (t.translationType == NONSTOP <==> t.stopIndex.None?) &&
      (t.translationType == NMD <==>
         t.stopIndex.Some? && t.lastEjcIndex.Some? && t.stopIndex.value + 50 < t.lastEjcIndex.value) &&
      (t.stopIndex.None? ==> |Bases(s)| < 3 * |p| + 3) &&
      (t.stopIndex.Some? ==> var n := t.stopIndex.value;
         1 <= n <= |s| && IsUpper(s[n - 1]) && |BasesIn(s, 0, n)| == 3 * |p|)
  {
    StopOnlyAtEnd(Bases(s), 0);
  }

  /** What follows a stop codon of `b` is never read. */
  lemma {:induction false} ReadFromPrefix(b: string, c: string, j: nat)
    requires j <= |b| && KnownFrom(b, j)
    requires |ReadFrom(b, j)| > 0 && ReadFrom(b, j)[|ReadFrom(b, j)| - 1] == '*'
    ensures KnownFrom(b + c, j) && ReadFrom(b + c, j) == ReadFrom(b, j)
    decreases |b| - j
  {
    var bc := b + c;
    assert bc[j] == b[j] && bc[j + 1] == b[j + 1] && bc[j + 2] == b[j + 2];
    if Codon(b[j], b[j + 1], b[j + 2]).value != '*' {
      ReadFromPrefix(b, c, j + 3);
    }
  }

  /**
   * Translation ends at the first stop codon: appending anything after a
   * sequence that already stops changes neither its protein nor its stop index.
   */
  lemma TranslationEndsAtStop(s: string, tail: string)
    requires Translatable(s) && TranslationOf(s).stopIndex.Some?
    ensures Translatable(s + tail)
    ensures TranslationOf(s + tail).proteinSequence == TranslationOf(s).proteinSequence
    ensures TranslationOf(s + tail).stopIndex == TranslationOf(s).stopIndex
  {
    var p := ReadCodons(Bases(s));
    StoppedPrefix(s, tail, p, Consumed(s, 3 * |p|));
  }

  lemma StoppedPrefix(s: string, tail: string, p: string, n: nat)
    requires Translatable(s) && p == ReadCodons(Bases(s)) && |p| > 0 && p[|p| - 1] == '*'
    requires 3 * |p| <= |Bases(s)| && n == Consumed(s, 3 * |p|)
    ensures Translatable(s + tail) && ReadCodons(Bases(s + tail)) == p
    ensures 3 * |p| <= |Bases(s + tail)| && Consumed(s + tail, 3 * |p|) == n
  {
    StoppedReading(s, tail, p);
    ConsumedPrefix(s, tail, 3 * |p|, n);
  }

  lemma StoppedReading(s: string, tail: string, p: string)
    requires Translatable(s) && p == ReadCodons(Bases(s)) && |p| > 0 && p[|p| - 1] == '*'
    ensures Translatable(s + tail) && ReadCodons(Bases(s + tail)) == p
  {
    BasesAppend(s, tail);
    ReadFromPrefix(Bases(s), Bases(tail), 0);
  }

  /** Appending characters does not move the point at which the `k`-th base is pulled. */
  lemma ConsumedPrefix(s: string, tail: string, k: nat, n: nat)
    requires 1 <= k <= |Bases(s)| && n == Consumed(s, k)
    ensures k <= |Bases(s + tail)| && Consumed(s + tail, k) == n
  {
    var st := s + tail;
    BasesInExtended(s, tail, n);
    ConsumedUnique(st, |st|, k, n);
  }

  /** Extending a string leaves the bases of its prefixes alone. */
  lemma {:induction false} BasesInExtended(s: string, tail: string, hi: nat)
    requires hi <= |s|
    ensures BasesIn(s + tail, 0, hi) == BasesIn(s, 0, hi)
    decreases hi
  {
    if hi > 0 {
      assert (s + tail)[hi - 1] == s[hi - 1];
      BasesInExtended(s, tail, hi - 1);
    }
  }

  /** Characters that are not upper-case letters are invisible to translation. */
  lemma IgnoredCharacters(a: string, x: string, c: string)
    requires forall k :: 0 <= k < |x| ==> !IsUpper(x[k])
    ensures Bases(a + x + c) == Bases(a + c)
    ensures Translatable(a + x + c) <==> Translatable(a + c)
    ensures Translatable(a + c) ==>
      TranslationOf(a + x + c).proteinSequence == TranslationOf(a + c).proteinSequence
  {
    NoBases(x, |x|);
    BasesAppend(a, x);
    BasesAppend(a + x, c);
    BasesAppend(a, c);
    assert Bases(a) + Bases(x) == Bases(a);
  }

  lemma {:induction false} NoBases(x: string, hi: nat)
    requires hi <= |x| && forall k :: 0 <= k < |x| ==> !IsUpper(x[k])
    ensures BasesIn(x, 0, hi) == []
    decreases hi
  {
    if hi > 0 {
      NoBases(x, hi - 1);
    }
  }

  /** Thymine and uracil are read alike. */
  lemma ThymineAsUracil(a: string, c: string)
    ensures Bases(a + "T" + c) == Bases(a + "U" + c)
  {
    BasesAppend(a, "T");
    BasesAppend(a + "T", c);
    BasesAppend(a, "U");
    BasesAppend(a + "U", c);
    assert Bases("T") == Bases("U") by {
      assert "T"[..0] == "U"[..0];
    }
  }

  /** The stop codons of the table are UAA, UAG and UGA. */
  lemma StopCodons(x: char, y: char, z: char)
    ensures Codon(x, y, z) == Some('*') <==>
      (x == 'U' && ((y == 'A' && (z == 'A' || z == 'G')) || (y == 'G' && z == 'A')))
  {
  }

  /** Methionine is read from AUG only. */
  lemma MethionineCodon(x: char, y: char, z: char)
    ensures Codon(x, y, z) == Some('M') <==> x == 'A' && y == 'U' && z == 'G'
  {
  }

  /**
   * The eight fourfold-degenerate rows ignore the third character: any third
   * character, `N` for instance, reads as an `A` there.
   */
  lemma CodonWildcard(x: char, y: char, z: char)
    requires (x == 'G' && y == 'C') || (x == 'G' && y == 'G') || (x == 'C' && y == 'U') ||
             (x == 'C' && y == 'C') || (x == 'C' && y == 'G') || (x == 'U' && y == 'C') ||
             (x == 'A' && y == 'C') || (x == 'G' && y == 'U')
    ensures Codon(x, y, z).Some? && Codon(x, y, z) == Codon(x, y, 'A')
  {
  }

  /** The table yields one of the twenty amino acids or the stop marker. */
  lemma CodonResidues(x: char, y: char, z: char)
    ensures Codon(x, y, z).Some? ==> Codon(x, y, z).value in "ACDEFGHIKLMNPQRSTVWY*"
  {
  }

  predicate IsRnaBase(c: char)
  {
    c == 'A' || c == 'C' || c == 'G' || c == 'U'
  }

  // ----------------------------------------------------- variant consequences

  /** Where the upstream flank ends: the variant's first position, relative to the transcript's 5' end. */
  function UpstreamEnd(t: Transcript, start: u32, end: u32): int
  {
    if t.strand == 1 then start as int - t.start as int else t.end as int - end as int
  }

  /** Where the downstream flank starts: just past the variant's last position. */
  function DownstreamStart(t: Transcript, start: u32, end: u32): int
  {
    if t.strand == 1 then end as int - t.start as int + 1 else t.end as int - start as int + 1
  }

  /** Where the coding sequence starts, relative to the transcript's 5' end. */
  function TranslationOffset(t: Transcript): int
    requires t.translation.Some?
  {
    if t.strand == 1 then t.translation.value.start as int - t.start as int else t.end as int - t.translation.value.end as int
  }

  /**
   * The variant falls inside a sequence of length `len` as `make_consequences`
   * needs: no unsigned subtraction underflows and the final `+ 1` does not
   * overflow, both flanks are slices of the sequence, and neither is empty.
   */
  predicate Located(t: Transcript, start: u32, end: u32, len: nat)
  {
    0 < UpstreamEnd(t, start, end) <= len &&
    1 <= DownstreamStart(t, start, end) < 0x1_0000_0000 &&
    DownstreamStart(t, start, end) < len
  }

  function Upstream(s: string, t: Transcript, start: u32, end: u32): (u: string)
    requires Located(t, start, end, |s|)
    ensures |u| > 0
  {
    s[..UpstreamEnd(t, start, end)]
  }

  function Downstream(s: string, t: Transcript, start: u32, end: u32): (d: string)
    requires Located(t, start, end, |s|)
    ensures |d| > 0
  {
    s[DownstreamStart(t, start, end)..]
  }

  /** The upstream flank ends in an intron (lower case). */
  predicate UpstreamIntronic(s: string, t: Transcript, start: u32, end: u32)
    requires Located(t, start, end, |s|)
  {
    var u := Upstream(s, t, start, end);
    IsLower(u[|u| - 1])
  }

  /** The downstream flank starts in an intron (lower case). */
  predicate DownstreamIntronic(s: string, t: Transcript, start: u32, end: u32)
    requires Located(t, start, end, |s|)
  {
    IsLower(Downstream(s, t, start, end)[0])
  }

  /** The allele as written on the transcript's strand. */
  function StrandAllele(t: Transcript, allele: string): string
    requires t.strand == 1 || IsDna(allele)
  {
    if t.strand == 1 then allele else RevComp(allele)
  }

  /** The transcript's sequence with the variant's positions replaced by the allele. */
  function Edited(s: string, t: Transcript, start: u32, end: u32, allele: string): (e: string)
    requires Located(t, start, end, |s|) && (t.strand == 1 || IsDna(allele))
    ensures |e| == |s| - (end as int - start as int + 1) + |allele|
  {
    Upstream(s, t, start, end) + StrandAllele(t, allele) + Downstream(s, t, start, end)
  }

  /**
   * What the coding branch needs beyond `Located`: an allele that can be
   * reverse-complemented on the reverse strand, and, for a coding transcript,
   * an offset that neither underflows nor passes the end of either sequence,
   * with both readings free of unknown codons.
   */
  predicate CodingDefined(s: string, t: Transcript, start: u32, end: u32, allele: string)
    requires Located(t, start, end, |s|)
  {
    (t.strand == 1 || IsDna(allele)) &&
    (t.translation.Some? ==>
       var o := TranslationOffset(t);
       var e := Edited(s, t, start, end, allele);
       0 <= o <= |e| && o <= |s| && Translatable(e[o..]) && Translatable(s[o..]))
  }

  /** The translations of the coding branch: both defaults without a translation. */
  function EditedTranslation(s: string, t: Transcript, start: u32, end: u32, allele: string): TranslationConsequence
    requires Located(t, start, end, |s|) && CodingDefined(s, t, start, end, allele)
  {
    if t.translation.None? then DefaultTranslation
    else TranslationOf(Edited(s, t, start, end, allele)[TranslationOffset(t)..])
  }

  function UneditedTranslation(s: string, t: Transcript, start: u32, end: u32, allele: string): TranslationConsequence
    requires Located(t, start, end, |s|) && CodingDefined(s, t, start, end, allele)
  {
    if t.translation.None? then DefaultTranslation
    else TranslationOf(s[TranslationOffset(t)..])
  }

  /**
   * `make_consequences`: an intron when both flanks are lower case, a
   * disrupted splice site when exactly one is, and otherwise the edited
   * sequence with the translations of the edited and unedited sequences.
   */
  method MakeConsequences(sq: GenomicSequence, t: Transcript, start: u32, end: u32, allele: string)
    returns (c: Consequences)
    requires Located(t, start, end, |sq.sequence|)
    requires !UpstreamIntronic(sq.sequence, t, start, end) && !DownstreamIntronic(sq.sequence, t, start, end) ==>
      CodingDefined(sq.sequence, t, start, end, allele)
    ensures var s := sq.sequence;
      c.Intron? <==> UpstreamIntronic(s, t, start, end) && DownstreamIntronic(s, t, start, end)
    ensures var s := sq.sequence;
      c.DisruptedSpliceSite? <==> UpstreamIntronic(s, t, start, end) != DownstreamIntronic(s, t, start, end)
    ensures c.Coding? ==> var s := sq.sequence;
      CodingDefined(s, t, start, end, allele) &&
      c.editedGenomicSequence == Edited(s, t, start, end, allele) &&
      c.editedProteinSequence == EditedTranslation(s, t, start, end, allele) &&
      c.uneditedProteinSequence == UneditedTranslation(s, t, start, end, allele)
  {
    var s := sq.sequence;
    var edited: string := [];
    var upstream, downstream;
    if t.strand == 1 {
      upstream := s[..(start - t.start) as int];
      downstream := s[(end - t.start + 1) as int..];
    } else {
      upstream := s[..(t.end - end) as int];
      downstream := s[(t.end - start + 1) as int..];
    }
    assert upstream == Upstream(s, t, start, end) && downstream == Downstream(s, t, start, end);
    var down := IsLower(downstream[0]);
    var up := IsLower(upstream[|upstream| - 1]);
    if down && up {
      return Intron;
    } else if down || up {
      return DisruptedSpliceSite;
    }
    assert !UpstreamIntronic(s, t, start, end) && !DownstreamIntronic(s, t, start, end);
    assert CodingDefined(s, t, start, end, allele);
    edited := edited + upstream;
    assert edited == upstream;
    if t.strand == 1 {
      edited := edited + allele;
    } else {
      var rc := ReverseComplement(allele);
      edited := edited + rc;
    }
    assert edited == upstream + StrandAllele(t, allele);
    edited := edited + downstream;
    var editedProtein := DefaultTranslation;
    var uneditedProtein := DefaultTranslation;
    if t.translation.Some? {
      var translation := t.translation.value;
      var offset := if t.strand == 1 then (translation.start - t.start) as int else (t.end - translation.end) as int;
      assert offset == TranslationOffset(t);
      editedProtein := Translate(edited[offset..]);
      uneditedProtein := Translate(s[offset..]);
    }
    c := Coding(edited, editedProtein, uneditedProtein);
  }

  // ------------------------------------------------- properties of the edit

  /** The reference bases the variant covers, as an allele on the forward strand. */
  function ReferenceAllele(s: string, t: Transcript, start: u32, end: u32): string
    requires Located(t, start, end, |s|) && UpstreamEnd(t, start, end) <= DownstreamStart(t, start, end)
    requires t.strand == 1 || IsDna(s[UpstreamEnd(t, start, end)..DownstreamStart(t, start, end)])
  {
    var r := s[UpstreamEnd(t, start, end)..DownstreamStart(t, start, end)];
    if t.strand == 1 then r else RevComp(r)
  }

  /** Putting the reference allele back leaves the sequence and both translations unchanged. */
  lemma ReferenceAlleleUnchanged(s: string, t: Transcript, start: u32, end: u32)
    requires Located(t, start, end, |s|) && UpstreamEnd(t, start, end) <= DownstreamStart(t, start, end)
    requires t.strand == 1 || IsDna(s[UpstreamEnd(t, start, end)..DownstreamStart(t, start, end)])
    ensures var allele := ReferenceAllele(s, t, start, end);
      (t.strand == 1 || IsDna(allele)) && Edited(s, t, start, end, allele) == s
    ensures var allele := ReferenceAllele(s, t, start, end);
      CodingDefined(s, t, start, end, allele) ==>
        EditedTranslation(s, t, start, end, allele) == UneditedTranslation(s, t, start, end, allele)
  {
    var a, d := UpstreamEnd(t, start, end), DownstreamStart(t, start, end);
    var r := s[a..d];
    if t.strand != 1 {
      RevCompInvolutive(r);
      assert StrandAllele(t, ReferenceAllele(s, t, start, end)) == r;
    }
    SlicesReassemble(s, a, d);
  }

  /** Three adjacent slices make up the whole string. */
  lemma SlicesReassemble(s: string, a: nat, d: nat)
    requires a <= d <= |s|
    ensures s[..a] + s[a..d] + s[d..] == s
  {
  }

  /** A single-position substitution keeps the length and changes only that position. */
  lemma SingleBaseEdit(s: string, t: Transcript, pos: u32, allele: string)
    requires Located(t, pos, pos, |s|) && |allele| == 1 && (t.strand == 1 || IsDna(allele))
    ensures var e := Edited(s, t, pos, pos, allele);
      var a := UpstreamEnd(t, pos, pos);
      |e| == |s| &&
      e[a] == (if t.strand == 1 then allele[0] else Complement(allele[0])) &&
      forall i :: 0 <= i < |s| && i != a ==> e[i] == s[i]
  {
    var a := UpstreamEnd(t, pos, pos);
    assert DownstreamStart(t, pos, pos) == a + 1;
    var x := if t.strand == 1 then allele[0] else Complement(allele[0]);
    if t.strand != 1 {
      assert allele[1..] == [];
      assert RevComp(allele) == [x];
    }
    assert Edited(s, t, pos, pos, allele) == s[..a] + [x] + s[a + 1..];
    SliceReplaced(s, a, x);
  }

  /** Replacing the character at `a` changes that position only. */
  lemma SliceReplaced(s: string, a: nat, x: char)
    requires a < |s|
    ensures var e := s[..a] + [x] + s[a + 1..];
      |e| == |s| && e[a] == x && forall i :: 0 <= i < |s| && i != a ==> e[i] == s[i]
  {
  }

  /**
   * An insertion is written with its start one past its end; then both
   * flanks meet and the allele is placed between two adjacent positions.
   */
  lemma InsertionEdit(s: string, t: Transcript, start: u32, end: u32, allele: string)
    requires start as int == end as int + 1
    requires Located(t, start, end, |s|) && (t.strand == 1 || IsDna(allele))
    ensures var a := UpstreamEnd(t, start, end);
      DownstreamStart(t, start, end) == a &&
      Edited(s, t, start, end, allele) == s[..a] + StrandAllele(t, allele) + s[a..]
  {
  }

  /**
   * An allele "-" on the forward strand is written into the edited sequence
   * as it stands, but it is not an upper-case base, so the edited protein is
   * that of the sequence with the variant's positions deleted.
   */
  lemma DeletionMarker(s: string, t: Transcript, start: u32, end: u32)
    requires Located(t, start, end, |s|) && t.strand == 1 && t.translation.Some?
    requires 0 <= TranslationOffset(t) <= UpstreamEnd(t, start, end)
    requires var o, a, d := TranslationOffset(t), UpstreamEnd(t, start, end), DownstreamStart(t, start, end);
      Translatable(s[o..a] + s[d..])
    ensures CodingDefined(s, t, start, end, "-") ==>
      var o, a, d := TranslationOffset(t), UpstreamEnd(t, start, end), DownstreamStart(t, start, end);
      EditedTranslation(s, t, start, end, "-").proteinSequence == TranslationOf(s[o..a] + s[d..]).proteinSequence
  {
    var o, a, d := TranslationOffset(t), UpstreamEnd(t, start, end), DownstreamStart(t, start, end);
    var e := Edited(s, t, start, end, "-");
    assert e[o..] == s[o..a] + "-" + s[d..];
    IgnoredCharacters(s[o..a], "-", s[d..]);
  }

  /**
   * On the reverse strand the deletion marker "-" cannot be reverse-complemented,
   * so the coding branch is undefined there: `reverse_complement` panics on it.
   */
  lemma ReverseStrandDeletion(s: string, t: Transcript, start: u32, end: u32)
    requires Located(t, start, end, |s|) && t.strand != 1
    ensures !IsDna("-") && !CodingDefined(s, t, start, end, "-")
  {
    assert !IsNucleotide("-"[0]);
  }

  /** On the reverse strand the allele is stored as its reverse complement, which undoes itself. */
  lemma ReverseStrandAllele(t: Transcript, allele: string)
    requires t.strand != 1 && IsDna(allele)
    ensures IsDna(StrandAllele(t, allele)) && RevComp(StrandAllele(t, allele)) == allele
  {
    RevCompInvolutive(allele);
  }

  // ------------------------------------------------------------- endpoint

  /** `input`: transcripts are looked up by id, a thousand to a request. */
  const TranscriptEndpoint: Api.Endpoint :=
    Api.Endpoint("/lookup/id", "{\"expand\": 1, \"utr\" : 1, \"ids\" : {ids}}", 1000)

  function TranscriptInput(t: Transcript): string
  {
    t.id
  }

  /** A lookup post asks for the expanded records, with their UTRs, of the encoded identifiers. */
  lemma TranscriptPayload(encode: seq<string> -> string, ids: seq<string>)
    ensures Api.Payload(TranscriptEndpoint.payloadTemplate, encode, ids) ==
      "{\"expand\": 1, \"utr\" : 1, \"ids\" : " + encode(ids) + "}"
  {
    var pre := "{\"expand\": 1, \"utr\" : 1, \"ids\" : ";
    assert TranscriptEndpoint.payloadTemplate == pre + Api.IdsMarker + "}";
    Api.TemplatePayload(pre, "}", encode, ids);
  }

  /**
   * Without error objects, a window of n transcript identifiers costs
   * ceil(n / 1000) posts, where the default limit would cost ceil(n / 50).
   */
  lemma TranscriptPostCount<T>(order: seq<string>, rs: seq<Api.Response<T>>, encode: seq<string> -> string)
    requires |rs| == |Api.Chunks(order, TranscriptEndpoint.maxPostSize)|
    requires forall i :: 0 <= i < |rs| ==> !rs[i].ErrorObject?
    ensures var n := |Api.Sent(Api.Chunks(order, TranscriptEndpoint.maxPostSize), rs, TranscriptEndpoint.payloadTemplate, encode)|;
      (n - 1) * 1000 < |order| <= n * 1000
  {
    Api.PostCount(order, TranscriptEndpoint.maxPostSize, rs, TranscriptEndpoint.payloadTemplate, encode);
  }
}
