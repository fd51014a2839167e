/**
 * The small descriptor types of the Ensembl records: the canonical flag, the
 * strand, the high-information-position flag and the two UTR aliases of the
 * consequence vocabulary. Every conversion is a total or partial table.
 */
module Descriptors {
  import opened Wrappers

  newtype i32 = x: int | -0x8000_0000 <= x < 0x8000_0000
  newtype i64 = x: int | -0x8000_0000_0000_0000 <= x < 0x8000_0000_0000_0000

  // ---------------------------------------------------------------- Canonical

  /** Ensembl's `is_canonical` flag; serde carries it as an `i32`. */
  datatype Canonical = CANONICAL | NONCANONICAL

  const DefaultCanonical: Canonical := NONCANONICAL

  /** `Into<i32>`: the flag as Ensembl writes it. */
  function CanonicalToI32(c: Canonical): (v: i32)
    ensures v == 0 || v == 1
    ensures v == 1 <==> c == CANONICAL
  {
    match c
    case CANONICAL => 1
    case NONCANONICAL => 0
  }

  /** `From<i32>`: zero is the only non-canonical value. */
  function CanonicalFromI32(v: i32): (c: Canonical)
    ensures c == NONCANONICAL <==> v == 0
  {
    if v == 0 then NONCANONICAL else CANONICAL
  }

  lemma CanonicalRoundTrip(c: Canonical)
    ensures CanonicalFromI32(CanonicalToI32(c)) == c
  {
  }

  /** Reading then writing the flag normalises every non-zero value to 1. */
  lemma CanonicalNormalises(v: i32)
    ensures CanonicalToI32(CanonicalFromI32(v)) == if v == 0 then 0 else 1
  {
  }

  // ------------------------------------------------------------------- Strand

  datatype Strand = PLUS | MINUS

  datatype StrandError = InvalidStrandString(text: string) | InvalidStrandNumber(number: i32)

  /** `TryFrom<i32>`: only 1 and -1 name a strand. */
  function StrandTryFromI32(v: i32): (r: Result<Strand, StrandError>)
    ensures r.Success? <==> v == 1 || v == -1
    ensures r.Success? ==> (r.value == PLUS <==> v == 1)
    ensures r.Failure? ==> r.error == InvalidStrandNumber(v)
  {
    if v == 1 then Success(PLUS)
    else if v == -1 then Success(MINUS)
    else Failure(InvalidStrandNumber(v))
  }

  /** `FromStr` (and `TryFrom<&str>`, which delegates to it). */
  function StrandFromStr(s: string): (r: Result<Strand, StrandError>)
    ensures r == Success(PLUS) <==> s == "+" || s == "1"
    ensures r == Success(MINUS) <==> s == "-" || s == "-1"
    ensures r.Failure? ==> r.error == InvalidStrandString(s)
  {
    if s == "+" || s == "1" then Success(PLUS)
    else if s == "-" || s == "-1" then Success(MINUS)
    else Failure(InvalidStrandString(s))
  }

  /** `Display` (and `Debug`, which writes the same text). */
  function StrandToString(s: Strand): (t: string)
    ensures t == "+" <==> s == PLUS
    ensures t == "-" <==> s == MINUS
  {
    match s
    case PLUS => "+"
    case MINUS => "-"
  }

  lemma StrandDisplayRoundTrip(s: Strand)
    ensures StrandFromStr(StrandToString(s)) == Success(s)
  {
  }

  /** Every strand that parses from an `i32` parses from that number's text as well. */
  lemma StrandNumberTextAgrees(v: i32)
    requires v == 1 || v == -1
    ensures StrandFromStr(if v == 1 then "1" else "-1") == StrandTryFromI32(v)
  {
  }

  // ------------------------------------------------- Strand deserialisation

  /**
   * serde's `unknown_variant` error (the rejected text and the accepted forms),
   * and its `invalid_type` error for a JSON value the visitor has no case for.
   */
  datatype DeError = UnknownVariant(variant: string, expected: seq<string>) | InvalidType

  const Fields: seq<string> := ["+/1", "-/-1"]

  /** Decimal text of an integer, as `format!("{value}")` writes it. */
  function DecimalString(v: int): (t: string)
    ensures |t| > 0
    ensures v < 0 <==> t[0] == '-'
    decreases if v < 0 then -v else v
  {
    if v < 0 then "-" + NatDecimal(-v) else NatDecimal(v)
  }

  function NatDecimal(n: nat): (t: string)
    ensures |t| > 0 && forall i :: 0 <= i < |t| ==> '0' <= t[i] <= '9'
  {
    var d: char := ('0' as int + n % 10) as char;
    if n < 10 then [d] else NatDecimal(n / 10) + [d]
  }

  /** The visitor's string case. */
  function VisitStr(value: string): (r: Result<Strand, DeError>)
    ensures r.Failure? ==> r.error == UnknownVariant(value, Fields)
  {
    if value == "+" || value == "1" then Success(PLUS)
    else if value == "-" || value == "-1" then Success(MINUS)
    else Failure(UnknownVariant(value, Fields))
  }

  /**
   * The visitor's `visit_i64` case. A JSON reader hands over only negative
   * integers this way; non-negative ones go to `visit_u64`, which the visitor
   * does not define.
   */
  function VisitI64(value: i64): (r: Result<Strand, DeError>)
    ensures r.Failure? ==> r.error == UnknownVariant(DecimalString(value as int), Fields)
  {
    if value == 1 then Success(PLUS)
    else if value == -1 then Success(MINUS)
    else Failure(UnknownVariant(DecimalString(value as int), Fields))
  }

  /** The deserializer's string table is exactly the `FromStr` table. */
  lemma VisitStrAgreesWithFromStr(value: string)
    ensures VisitStr(value).Success? <==> StrandFromStr(value).Success?
    ensures VisitStr(value).Success? ==> VisitStr(value).value == StrandFromStr(value).value
  {
  }

  /** The deserializer's integer table is exactly the `TryFrom<i32>` table. */
  lemma VisitI64AgreesWithTryFrom(value: i64)
    ensures VisitI64(value).Success? ==> -0x8000_0000 <= value < 0x8000_0000
    ensures -0x8000_0000 <= value < 0x8000_0000 ==>
      (VisitI64(value).Success? <==> StrandTryFromI32(value as int as i32).Success?) &&
      (VisitI64(value).Success? ==> VisitI64(value).value == StrandTryFromI32(value as int as i32).value)
  {
  }

  /**
   * A JSON integer strand as the deserializer reads it: `deserialize_any` passes a
   * non-negative integer to `visit_u64`, whose default fails with `invalid_type`,
   * and a negative one in `i64` range to `visit_i64`. So `1` is rejected.
   */
  function JsonNumberStrand(v: int): (r: Result<Strand, DeError>)
    ensures r.Success? <==> v == -1
    ensures r.Success? ==> r.value == MINUS
    ensures v >= 0 ==> r == Failure(InvalidType)
  {
    if v >= 0 || v < -0x8000_0000_0000_0000 then Failure(InvalidType)
    else VisitI64(v as i64)
  }

  /**
   * The same reading with a `visit_u64` that consults the same table as
   * `visit_i64`: the integer forms are then exactly those of `TryFrom<i32>`.
   * Integers outside both 64-bit ranges arrive as floats, which stay rejected.
   */
  function JsonNumberStrandIntended(v: int): (r: Result<Strand, DeError>)
    ensures r.Success? <==> v == 1 || v == -1
    ensures r.Success? ==> r == Success(StrandTryFromI32(v as i32).value)
  {
    if -0x8000_0000_0000_0000 <= v < 0x8000_0000_0000_0000 then VisitI64(v as i64)
    else if 0 <= v < 0x1_0000_0000_0000_0000 then Failure(UnknownVariant(DecimalString(v), Fields))
    else Failure(InvalidType)
  }

  /** The JSON integer 1 names `PLUS` in `TryFrom<i32>` but fails to deserialize as written. */
  lemma PlusNumberRejected()
    ensures StrandTryFromI32(1) == Success(PLUS)
    ensures JsonNumberStrand(1) == Failure(InvalidType)
    ensures JsonNumberStrandIntended(1) == Success(PLUS)
  {
  }

  // -------------------------------------------------------------- HighInfPos

  /** `HighInfPos`; the source's third variant is spelt `null`, a reserved word here. */
  datatype HighInfPos = Y | N | Null

  const DefaultHighInfPos: HighInfPos := Null

  /** `Into<bool>`. */
  function HighInfPosToBool(h: HighInfPos): (b: bool)
    ensures b <==> h == Y
  {
    match h
    case Y => true
    case N => false
    case Null => false
  }

  // ------------------------------------------------------------- Consequence

  /** The Sequence Ontology consequence terms the source enumerates. */
  datatype Consequence =
    | transcript_ablation
    | splice_acceptor_variant
    | splice_donor_variant
    | stop_gained
    | frameshift_variant
    | stop_lost
    | start_lost
    | transcript_amplification
    | feature_elongation
    | feature_truncation
    | inframe_insertion
    | inframe_deletion
    | missense_variant
    | protein_altering_variant
    | splice_donor_5th_base_variant
    | splice_region_variant
    | splice_donor_region_variant
    | splice_polypyrimidine_tract_variant
    | incomplete_terminal_codon_variant
    | start_retained_variant
    | stop_retained_variant
    | synonymous_variant
    | coding_sequence_variant
    | mature_miRNA_variant
    | five_prime_UTR_variant
    | three_prime_UTR_variant
    | non_coding_transcript_exon_variant
    | intron_variant
    | NMD_transcript_variant
    | non_coding_transcript_variant
    | coding_transcript_variant
    | upstream_gene_variant
    | downstream_gene_variant
    | TFBS_ablation
    | TFBS_amplification
    | TF_binding_site_variant
    | regulatory_region_ablation
    | regulatory_region_amplification
    | regulatory_region_variant
    | intergenic_variant
    | sequence_variant
    | Unknown

  const DefaultConsequence: Consequence := Unknown

  /**
   * The derived `FromStr`: every variant parses from its own name, except the two
   * UTR terms, which parse from exactly their two listed spellings each.
   */
  function ConsequenceFromStr(s: string): (r: Option<Consequence>)
    ensures r == Some(five_prime_UTR_variant) <==> s == "5_prime_UTR_variant" || s == "five_prime_UTR_variant"
    ensures r == Some(three_prime_UTR_variant) <==> s == "3_prime_UTR_variant" || s == "three_prime_UTR_variant"
  {
    if s == "5_prime_UTR_variant" || s == "five_prime_UTR_variant" then Some(five_prime_UTR_variant)
    else if s == "3_prime_UTR_variant" || s == "three_prime_UTR_variant" then Some(three_prime_UTR_variant)
    else CodingConsequenceFromStr(s)
  }

  /** The first half of the table, without the two UTR terms: each term parses from its own name only. */
  function CodingConsequenceFromStr(s: string): (r: Option<Consequence>)
    ensures r.Some? ==> !r.value.five_prime_UTR_variant? && !r.value.three_prime_UTR_variant?
  {
    match s
    case "transcript_ablation" => Some(transcript_ablation)
    case "splice_acceptor_variant" => Some(splice_acceptor_variant)
    case "splice_donor_variant" => Some(splice_donor_variant)
    case "stop_gained" => Some(stop_gained)
    case "frameshift_variant" => Some(frameshift_variant)
    case "stop_lost" => Some(stop_lost)
    case "start_lost" => Some(start_lost)
    case "transcript_amplification" => Some(transcript_amplification)
    case "feature_elongation" => Some(feature_elongation)
    case "feature_truncation" => Some(feature_truncation)
    case "inframe_insertion" => Some(inframe_insertion)
    case "inframe_deletion" => Some(inframe_deletion)
    case "missense_variant" => Some(missense_variant)
    case "protein_altering_variant" => Some(protein_altering_variant)
    case "splice_donor_5th_base_variant" => Some(splice_donor_5th_base_variant)
    case "splice_region_variant" => Some(splice_region_variant)
    case "splice_donor_region_variant" => Some(splice_donor_region_variant)
    case "splice_polypyrimidine_tract_variant" => Some(splice_polypyrimidine_tract_variant)
    case "incomplete_terminal_codon_variant" => Some(incomplete_terminal_codon_variant)
    case "start_retained_variant" => Some(start_retained_variant)
    case "stop_retained_variant" => Some(stop_retained_variant)
    case "synonymous_variant" => Some(synonymous_variant)
    case "coding_sequence_variant" => Some(coding_sequence_variant)
    case _ => NonCodingConsequenceFromStr(s)
  }

  /** The second half of the table: non-coding, intergenic and regulatory terms. */
  function NonCodingConsequenceFromStr(s: string): (r: Option<Consequence>)
    ensures r.Some? ==> !r.value.five_prime_UTR_variant? && !r.value.three_prime_UTR_variant?
  {
    match s
    case "mature_miRNA_variant" => Some(mature_miRNA_variant)
    case "non_coding_transcript_exon_variant" => Some(non_coding_transcript_exon_variant)
    case "intron_variant" => Some(intron_variant)
    case "NMD_transcript_variant" => Some(NMD_transcript_variant)
    case "non_coding_transcript_variant" => Some(non_coding_transcript_variant)
    case "coding_transcript_variant" => Some(coding_transcript_variant)
    case "upstream_gene_variant" => Some(upstream_gene_variant)
    case "downstream_gene_variant" => Some(downstream_gene_variant)
    case "TFBS_ablation" => Some(TFBS_ablation)
    case "TFBS_amplification" => Some(TFBS_amplification)
    case "TF_binding_site_variant" => Some(TF_binding_site_variant)
    case "regulatory_region_ablation" => Some(regulatory_region_ablation)
    case "regulatory_region_amplification" => Some(regulatory_region_amplification)
    case "regulatory_region_variant" => Some(regulatory_region_variant)
    case "intergenic_variant" => Some(intergenic_variant)
    case "sequence_variant" => Some(sequence_variant)
    case "Unknown" => Some(Unknown)
    case _ => None
  }
}
