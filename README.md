# rs-embl core in Dafny

This project models the core of rs-embl, a Rust client for the Ensembl REST
service. The core has three parts:

- **Request batcher** (`Getter` / `Client`). Callers ask for one item per
  identifier. A background worker drains every request queued during one
  window into a registry keyed by identifier. It splits the registry into
  posts of at most `max_post_size` identifiers (50 unless an endpoint says
  otherwise) and fills each post's payload template. Each parsed item goes
  back to the one-shot channel registered under that item's own identifier.
  A caller whose identifier no item answers gets `None`.
- **Transcript tools.** These are the reverse complement of a DNA strand and
  the translation of a coding sequence into a protein. Translation reads
  upper-case bases only, reads T as U, and stops at the first stop codon. Its
  result carries the stop index, the last exon junction (found by the regular
  expression `.+([A-Z][a-z]+[A-Z]+)$`) and the NMD / NORMAL / NONSTOP type.
  There is also `make_consequences`, which writes a variant allele into a
  transcript's genomic sequence. It classifies the variant as intronic,
  splice-disrupting or coding, and in the coding case it translates both the
  edited and the unedited sequence.
- **Descriptors and sequences.** These are the `Canonical`, `Strand`,
  `HighInfPos` and `Consequence` conversions and the split of a coding
  sequence into its exons. Exons are the maximal runs of one letter case,
  upper-cased.

Files:

- `wrappers.dfy`: `Option` and `Result`.
- `ascii.dfy`: ASCII letter classes and upper-casing.
- `descriptors.dfy`: module `Descriptors`.
- `sequence.dfy`: module `Sequence`.
- `transcript.dfy`: module `Transcripts`.
- `api.dfy`: module `Api`.

How the model relates to the code:

- **`translate`** is specified as its iterator chain: filter the bases, read
  whole codons up to the first stop, and set the counter at the stop codon.
  The method `Transcripts.Translate` is the imperative loop. It keeps a
  counter, a pending partial codon and an output, and is proved equal to that
  specification.
- **`make_consequences`, `reverse_complement` and `exons`** are methods over
  strings. Each is proved equal to a value-level definition.
- **`process`** is a method over a registry of `Slot` objects, one for each
  caller's one-shot sender. It is proved to post exactly one payload per
  sub-batch, up to and including the first error object. Every slot ends up
  holding exactly what the responses answer for its key.

The batcher has no classification of HTTP status codes, no pause after
throttling codes and no automatic retry. `process` (`src/api.rs:94-146`)
unwraps the HTTP result, returns on an Ensembl error object and panics on an
unparseable body. The model keeps the last three behaviours; the transport
itself is outside it (see "Left out").

## Model

| member | source | states |
|---|---|---|
| Descriptors.CanonicalToI32 | src/descriptors.rs:19-26 | the flag is written as 1 exactly for `CANONICAL` and as 0 otherwise |
| Descriptors.CanonicalFromI32 | src/descriptors.rs:27-34 | zero, and only zero, reads as `NONCANONICAL` |
| Descriptors.CanonicalRoundTrip | src/descriptors.rs:19-34 | writing a flag and reading it back gives the same flag |
| Descriptors.CanonicalNormalises | src/descriptors.rs:19-34 | reading then writing turns every non-zero value into 1 and keeps 0 |
| Descriptors.StrandTryFromI32 | src/descriptors.rs:41-50 | only 1 (`PLUS`) and -1 (`MINUS`) name a strand; any other number fails with `InvalidStrandNumber` carrying it |
| Descriptors.StrandFromStr | src/descriptors.rs:51-66 | "+" and "1" give `PLUS`, "-" and "-1" give `MINUS`, and anything else fails with `InvalidStrandString` carrying the text, for `FromStr` and `TryFrom<&str>` alike |
| Descriptors.StrandToString | src/descriptors.rs:67-79 | `Display` and `Debug` write "+" exactly for `PLUS` and "-" exactly for `MINUS` |
| Descriptors.StrandDisplayRoundTrip | src/descriptors.rs:51-79 | parsing the displayed text of a strand gives the strand back |
| Descriptors.StrandNumberTextAgrees | src/descriptors.rs:41-60 | a strand number and its decimal text parse to the same strand |
| Descriptors.VisitStr | src/descriptors.rs:317-326 | the deserializer's string case fails with `unknown_variant` of the text and the field list `["+/1", "-/-1"]` |
| Descriptors.VisitI64 | src/descriptors.rs:327-339 | the integer case fails with `unknown_variant` of the number's decimal text and the same field list |
| Descriptors.VisitStrAgreesWithFromStr | src/descriptors.rs:317-326 | the string case accepts exactly what `FromStr` accepts, with the same strand |
| Descriptors.VisitI64AgreesWithTryFrom | src/descriptors.rs:327-339 | the integer case accepts only numbers in `i32` range, giving the `TryFrom<i32>` strand |
| Descriptors.JsonNumberStrand | src/descriptors.rs:302-342 | a JSON integer strand is accepted only as -1 (`MINUS`); every non-negative integer, 1 included, goes to the undefined `visit_u64` and fails with `invalid_type` |
| Descriptors.JsonNumberStrandIntended | src/descriptors.rs:327-339 | with `visit_u64` consulting the same table, exactly 1 and -1 are accepted, as by `TryFrom<i32>` |
| Descriptors.PlusNumberRejected | src/descriptors.rs:327-339 | the integer 1 names `PLUS` under `TryFrom<i32>` and under the corrected reading, but is rejected as written |
| Descriptors.HighInfPosToBool | src/descriptors.rs:202-210 | only `Y` becomes true; `N` and `null` become false |
| Descriptors.CodingConsequenceFromStr | src/descriptors.rs:106-130 | no name in the first half of the term list parses as a UTR term |
| Descriptors.ConsequenceFromStr | src/descriptors.rs:131-140 | "5_prime_UTR_variant" and "five_prime_UTR_variant" are exactly the spellings that parse to the 5' UTR term, and likewise the two 3' spellings |
| Ascii.UpperStringAppend | src/sequence.rs:61-67 | upper-casing distributes over concatenation |
| Sequence.RunStart | src/sequence.rs:54-64 | the scan's `start` is where the maximal same-case run ending at `end - 1` begins |
| Sequence.Exons | src/sequence.rs:50-70 | `exons` returns the upper-cased maximal same-case runs of the sequence, and nothing for a sequence of fewer than two characters |
| Sequence.RunsConcat | src/sequence.rs:50-70 | the runs laid end to end are the sequence |
| Sequence.RunsUniform | src/sequence.rs:54-64 | every run is non-empty and of one case |
| Sequence.RunsAlternate | src/sequence.rs:55-63 | adjacent runs differ in case, so the runs are maximal |
| Sequence.ExonsCoverSequence | src/sequence.rs:50-70 | from two characters on, the exons concatenate to the upper-cased sequence |
| Sequence.RunsCount | src/sequence.rs:54-69 | a non-empty sequence has one run more than it has adjacent pairs of differing case |
| Sequence.ExonsCount | src/sequence.rs:50-70 | from two characters on, `exons` returns one exon more than there are case changes |
| Sequence.ExonsDocExample | src/sequence.rs:21-30 | "ACGTacgtACGTacgt" splits into four exons "ACGT" |
| Sequence.CodingSequencePayload | src/sequence.rs:73-83 | a coding-sequence post is the masked CDS request with the encoded identifier list in place of `{ids}` |
| Sequence.CdnaSequencePayload | src/sequence.rs:84-94 | a cDNA post is the masked cDNA request with the encoded identifier list in place of `{ids}` |
| Sequence.SequencePayloadsDiffer | src/sequence.rs:73-94 | for the same identifiers, the coding-sequence and cDNA posts differ only in "cds" against "cdna" |
| Api.ReplaceFirstMatch | src/api.rs:109 | `str::replace` keeps the text before the first match, substitutes the match, and resumes after it |
| Api.ReplaceWithoutMatch | src/api.rs:109 | where no match of the pattern starts, `str::replace` copies the text unchanged |
| Api.TemplatePayload | src/api.rs:109 | a template with one `{ids}` marker (every other `{` opening a quoted key) becomes the encoded identifiers in place of the marker, with nothing else changed |
| Api.ChunksFlatten | src/api.rs:101-103 | repeated `take(max_post_size)` yields the drained keys in drain order, with nothing lost or duplicated |
| Api.ChunkSizes | src/api.rs:102-103 | every sub-batch holds between 1 and `max_post_size` keys, and all but the last hold exactly `max_post_size` |
| Api.ChunkCount | src/api.rs:102-103 | there are ceil(n / max_post_size) sub-batches |
| Api.ChunksPartition | src/api.rs:101-108 | with distinct keys, every key lies in exactly one sub-batch and no other key does |
| Api.HundredTwentyKeys | src/api.rs:231-234 | 120 keys under the default limit of 50 go out as posts of 50, 50 and 20 |
| Api.Find | src/api.rs:141-142 | the item found answers the key and is one of the items; none is found exactly when no item answers the key |
| Api.FindDistinct | src/api.rs:141-142 | with pairwise distinct keys, each item is what its own key finds |
| Api.Slot.Send | src/api.rs:143 | a one-shot sender delivers exactly one value and then holds it |
| Api.Drain | src/api.rs:66-73 | the registry holds exactly the queued identifiers, and each maps to the slot queued last for it |
| Api.CollectValues | src/api.rs:133-134 | `into_values().collect()` lists each value of a keyed response once, under distinct keys |
| Api.CollectedAnswer | src/api.rs:133-134 | the collected values answer each key as the keyed response does |
| Api.Route | src/api.rs:141-144 | each parsed item goes to the slot of its own key; every slot of the sub-batch then holds what the items answer for its key |
| Api.Deliver | src/api.rs:104-144 | handling one routable response fills every slot of the sub-batch with the response's answer for its key and leaves every other slot unchanged |
| Api.DeliveryAnswersKey | src/api.rs:141-143 | a delivered item always answers the identifier its slot was registered under |
| Api.DeliveryOfChunk | src/api.rs:102-145 | a key of sub-batch i receives the i-th response's answer when no error object came at or before i, and nothing otherwise |
| Api.ItemListDelivered | src/api.rs:141-144 | every item of a reached list response lands in the slot of its own key |
| Api.UnansweredKeyGetsNothing | src/api.rs:209-218 | a key that no item answers gets nothing, so its caller's `get` returns `None` |
| Api.ErrorAbortsRest | src/api.rs:129-132 | an Ensembl error object ends the window: its sub-batch and every later one get nothing |
| Api.SentPosts | src/api.rs:102-120 | one post per sub-batch up to and including the first error object, each carrying that sub-batch's payload |
| Api.PostCount | src/api.rs:102-120 | without error objects, a registry of n keys costs ceil(n / max_post_size) posts |
| Api.Process | src/api.rs:94-146 | an empty registry posts nothing; otherwise the posts are exactly the sub-batch payloads up to the first error object, and every slot ends holding its key's delivery |
| Api.DrainedRegistry | src/api.rs:66-73 | the drained registry enumerates exactly the queued identifiers, with distinct, still-empty slots |
| Api.DispatchWindow | src/api.rs:64-75 | one window: the latest slot queued for each identifier gets that identifier's delivery, and earlier duplicate slots get nothing |
| Transcripts.Complement | src/transcript.rs:110-119 | A pairs with T and C with G, in both directions, keeping the letter's case |
| Transcripts.ReverseComplement | src/transcript.rs:107-123 | the loop over the reversed characters is the reverse complement |
| Transcripts.RevCompAt | src/transcript.rs:107-123 | position k of the result is the complement of position n-1-k of the input |
| Transcripts.RevCompInvolutive | src/transcript.rs:107-123 | taking the reverse complement twice gives back the original strand |
| Transcripts.RevCompAppend | src/transcript.rs:107-123 | the reverse complement of a concatenation is the reverse complements of the parts in swapped order |
| Transcripts.ReadFrom | src/transcript.rs:163-189 | the codons read never exceed the bases, and reading stops at a stop codon or when fewer than three bases remain |
| Transcripts.ConsumedBy | src/transcript.rs:150-162 | the counter at the k-th base pulled points just past an upper-case character and has exactly k bases before it |
| Transcripts.ConsumedUnique | src/transcript.rs:150-162 | that counter value is the only one at which the k-th base is pulled |
| Transcripts.LastEjcIndex | src/transcript.rs:143-147 | a found junction index is at least 1 and points at an upper-case letter followed by a lower-case one, in a sequence that ends in upper case |
| Transcripts.LastEjcIndexMatches | src/transcript.rs:143-147 | `last_ejc_index` is `Some(g)` exactly when `.+([A-Z][a-z]+[A-Z]+)$` matches with its group starting at g, and `None` when it does not match |
| Transcripts.EjcMatchUnique | src/transcript.rs:143-147 | the regular expression can place its group at one position at most |
| Transcripts.Translate | src/transcript.rs:142-214 | the loop's result is the protein read from the iterator chain, with the counter at the stop codon and the type determined by the stop and the last exon junction |
| Transcripts.TranslationFields | src/transcript.rs:150-214 | the protein has at most one residue per three upper-case bases (a trailing partial codon is dropped); the type is never `ERROR`; a stop index exists exactly when the protein ends in the only stop codon, and points just past that codon's last base; `NONSTOP` exactly when no stop was read, after all complete codons; `NMD` exactly when stop + 50 < last junction |
| Transcripts.StopOnlyAtEnd | src/transcript.rs:189-191 | a stop codon can only be the last residue |
| Transcripts.TranslationEndsAtStop | src/transcript.rs:189-191 | anything after a stop codon changes neither the protein nor the stop index |
| Transcripts.BasesAppend | src/transcript.rs:150-163 | the bases read from a concatenation are those of the parts in order |
| Transcripts.IgnoredCharacters | src/transcript.rs:162 | characters that are not upper case (introns, lower-case masking, "-") change neither the bases nor the protein |
| Transcripts.ThymineAsUracil | src/transcript.rs:152-160 | T and U are read alike |
| Transcripts.Codon | src/transcript.rs:165-188 | a codon is only in the table when its first two bases are A, C, G or U, and every codon over A, C, G and U is in it |
| Transcripts.CodonWildcard | src/transcript.rs:166-182 | the eight fourfold-degenerate rows (GC, GG, CU, CC, CG, UC, AC, GU) read any third character, `N` included, as they read A |
| Transcripts.CodonResidues | src/transcript.rs:165-188 | the table yields one of the twenty amino-acid letters or the stop marker `*` |
| Transcripts.StopCodons | src/transcript.rs:186 | the stop codons are exactly UAA, UAG and UGA |
| Transcripts.MethionineCodon | src/transcript.rs:176 | methionine is read from AUG only |
| Transcripts.MakeConsequences | src/transcript.rs:216-275 | an intron exactly when both flanks are lower case; a disrupted splice site exactly when exactly one is; otherwise the flanks around the allele (reverse-complemented on the reverse strand), and the translations of the edited and unedited sequences from the coding start, or the default translations without a `Translation` |
| Transcripts.Edited | src/transcript.rs:244-269 | the edited sequence is |seq| - (end - start + 1) + |allele| long, which with the insertion convention start = end + 1 adds exactly the allele |
| Transcripts.ReferenceAlleleUnchanged | src/transcript.rs:244-250 | writing back the reference bases leaves the sequence and both translations unchanged |
| Transcripts.SingleBaseEdit | src/transcript.rs:297-320 | substituting one position (start = end) keeps the length and changes that position only, to the allele or its complement |
| Transcripts.InsertionEdit | src/transcript.rs:346-368 | with start = end + 1 both flanks meet, so the allele is inserted between two adjacent positions |
| Transcripts.DeletionMarker | src/transcript.rs:321-344 | the allele "-" on the forward strand is stored literally, and the edited protein is that of the sequence with the variant's positions deleted |
| Transcripts.ReverseStrandDeletion | src/transcript.rs:245-249 | on the reverse strand the deletion marker "-" is not DNA, so `reverse_complement` panics on it and the coding branch is undefined |
| Transcripts.ReverseStrandAllele | src/transcript.rs:245-249 | on the reverse strand the edited allele is the reverse complement of the given one, and the given one is recovered from it |
| Transcripts.TranscriptPayload | src/transcript.rs:56-70 | a transcript lookup post asks for expanded records with UTRs of the encoded identifiers |
| Transcripts.TranscriptPostCount | src/transcript.rs:67-69 | with its limit of 1000 instead of the default 50, a window of n transcript identifiers costs ceil(n / 1000) posts when no error object comes back |

## Left out

- Concurrency and I/O are not modelled: tokio tasks, the bounded `mpsc` mailbox,
  the 500 ms `sleep` between windows, `reqwest`, and the close-and-drain path at
  `src/api.rs:79-87`. One window is modelled sequentially. The order `drain`
  yields keys is a parameter, and so is each post's parsed response.
- JSON encoding and serde parsing are not modelled. The identifier-list encoder
  is a function parameter. Each response body is already parsed into a list,
  a keyed map, an error object or an unparseable body.
- The `wasm32` variant of `process` (`src/api.rs:148-183`) is not modelled,
  because it is a build for another target.
- `Transcript::cdna_sequence` and `genomic_sequence` are not modelled: each is
  one `Client::get` inside a spawned task.
- The `Utr`, `Exon` and `Biotype` fields of `Transcript` are not modelled,
  because `make_consequences` does not read them.
- `strum`'s `Display` and `IntoStaticStr` for `Consequence` are not modelled
  beyond the parse table and the UTR aliases. For `HighInfPos` only the
  datatype, its default and `Into<bool>` are modelled; its string conversions
  (`try_from = "&str"`, `Into<String>`) are not.
- The definition of `GenomicSequence` is not part of this model. Its fields
  are taken from its use in the tests at `src/transcript.rs:299-304`.
- `src/lib.rs`, `src/main.rs`, `src/vep.rs` and `examples/vep.rs` are not part
  of this model.
- Letter classes are ASCII: `is_uppercase` and `is_lowercase` are 'A'..'Z' and
  'a'..'z'. Regex byte offsets are then character indices.
- Transcripts.ReverseComplement: requires a DNA strand, because the source
  panics on any other character.
- Transcripts.Translate: requires every codon up to the first stop to be in the
  table, because the source panics on an unknown codon.
- Transcripts.MakeConsequences: requires that no `u32` subtraction underflows,
  that `+ 1` does not overflow and that both flanks are non-empty slices. The
  source panics in those cases in a debug build; release-build wrap-around is
  not modelled. In the coding case it also requires the offset to be within
  both sequences and both readings to be translatable, and, on the reverse
  strand, an allele of DNA letters only: a "-" deletion panics there in
  `reverse_complement` (see Transcripts.ReverseStrandDeletion).
- Api.Process: requires every reached response to be routable. Every item must
  answer a distinct key of its own sub-batch, because `map.remove(..).unwrap()`
  panics otherwise. The body must not be unparseable, because that panics too.
  The `eprintln!` diagnostics are not modelled. A transport failure is not
  modelled either: `send().await.unwrap()` and `text().await.unwrap()`
  (`src/api.rs:110-120`) panic when the post or the reading of its body fails,
  while the model takes every post's parsed response as given.
- Api.Process and Api.DispatchWindow: require `max_post_size` to be at least 1.
  With 0, `take(0)` never empties the drain and the loop at `src/api.rs:102`
  never ends. No endpoint has a limit of 0 (50 by default, 1000 for
  transcripts).
- Descriptors.JsonNumberStrand: serde_json's dispatch of integers to
  `visit_u64` or `visit_i64` is written out here; the rest of serde is not.
- Api.Slot.Send: requires an empty slot, because a one-shot sender is consumed
  by its single `send`. A receiver that has gone away is not modelled; the
  source ignores that result.

## Findings

| source | as written | input that shows it | evidently intended | confidence | as-written member | corrected member |
|---|---|---|---|---|---|---|
| src/descriptors.rs:310-340 | `StrandVisitor` defines `visit_str` and `visit_i64` only; `deserialize_any` hands a non-negative JSON integer to `visit_u64`, whose default fails | the JSON integer `1` fails with `invalid_type` instead of giving `PLUS` | integers read through the same 1 / -1 table as `TryFrom<i32>` | not executed; follows serde's default `visit_u64` | Descriptors.JsonNumberStrand, Descriptors.PlusNumberRejected | Descriptors.JsonNumberStrandIntended |
