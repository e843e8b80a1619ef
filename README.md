# Sequence-file ingestion of ocean-insight-lab, modelled in Dafny

The `process-file-upload` edge function receives the text of an uploaded
sequencing file. It does three things:

- `parseSequenceFile` cuts the text into records of `header`, `sequence` and an
  optional `description`. The layout is chosen by the raw first character:
  - `>` means FASTA fragments;
  - `@` means four-line FASTQ blocks;
  - anything else means one sequence per non-blank line.
- `calculateQualityScore` rates every sequence out of 100. The score comes from
  the share of letters among A, T, C, G, U, N (in either case), plus a bonus
  when the GC content lies in [0.4, 0.6].
- Two `map` passes turn each record into a row of the `sequences` table.

This project models those three pieces and proves what they promise.

| file | module | what it holds |
|---|---|---|
| `text.dfy` | `Text` | The JavaScript string primitives the parser is built from: `trim`, the `/\s/` class, `replace(/\s/g, '')`, `split` on one character, `join`, `filter(l => l.trim())` and `${n}`. Each comes with its defining properties. |
| `parser.dfy` | `Parser` | The record type. The three branches as specification functions, with `Parse` dispatching between them. The imperative `ParseSequenceFile` with one loop per branch, each proved equal to its specification. Lemmas about each branch. |
| `quality.dfy` | `Quality` | `calculateQualityScore` over exact reals: its range, when it is perfect, its independence from letter case, the integer form of the GC band, and worked scores. |
| `formats.dfy` | `Formats` | Writers for the three layouts, and round trips showing the parser reads back exactly what was written. |
| `ingest.dfy` | `Ingest` | The scoring pass and the row-building pass: row invariants, recovery of the records from the rows, and a two-record upload end to end. |

## Behaviour of the code worth knowing

- **Dispatch uses the raw first character.** A file that starts with a space
  or a newline before `>` goes to the plain-line branch
  (`Parser.LeadingWhitespaceIsPlain`).
- **Headers may be empty.** In FASTQ, `@` followed by nothing gives the header
  `""` (`Parser.FastqEmptyHeader`). In FASTA, a fragment whose first line is
  blank also gives `""` (`Parser.FastaEmptyHeaderStripped`).
- **FASTQ and plain sequences are only trimmed.** Interior whitespace is kept
  (`Parser.FastqKeepsInnerWhitespace`, `Parser.PlainKeepsInnerWhitespace`).
  Only FASTA sequences have all whitespace removed
  (`Parser.FastaEmptyHeaderStripped`).
- **No branch ever sets `description`.** The rows store it as absent
  (`Parser.Parse`, `Ingest.RowsHaveNoDescription`).
- **Worked scores.** `XXXXATCG` has GC content 2/8 and
  scores 55 (`Quality.ScoreHalfInvalid`). `GGCC` has GC content 1, outside
  the band, so in the upload `>s1\nATCG\n>s2\nGGCC` it scores 80 while
  `ATCG` scores 100 (`Ingest.TwoRecordUpload`).

## Model

All source paths are in `supabase/functions/process-file-upload/index.ts`.

| member | source | states |
|---|---|---|
| Parser.ParseSequenceFile | supabase/functions/process-file-upload/index.ts:91-125 | The imperative parser returns exactly `Parse(content)`. It takes the FASTA branch for a leading `>`, the FASTQ branch for a leading `@`, and the plain branch otherwise. |
| Parser.ParseFasta | supabase/functions/process-file-upload/index.ts:94-102 | The `for...of` loop over the non-blank `>`-fragments pushes one record per fragment, in order. The loop invariant is the records of the fragments seen so far. |
| Parser.ParseFastq | supabase/functions/process-file-upload/index.ts:103-112 | The `i += 4` loop returns one record per present block, in block order. The invariant ties `i` to the block counter and the output to the blocks seen so far. |
| Parser.ParsePlain | supabase/functions/process-file-upload/index.ts:113-122 | The `forEach` over non-blank lines returns the trimmed line at position `idx` under the name `Sequence_<idx+1>`. |
| Parser.FastaRecordOfLines | supabase/functions/process-file-upload/index.ts:98-101 | A fragment `head + "\n" + body` gives header `trim(head)`, and a sequence equal to `body` with every whitespace character removed. |
| Parser.FastaRecordOneLine | supabase/functions/process-file-upload/index.ts:98-101 | A fragment with no line break gives the trimmed fragment as header and an empty sequence. |
| Parser.FastaEntryShape | supabase/functions/process-file-upload/index.ts:98 | The first line of a fragment has no `'\n'`. A one-line fragment is that line. Otherwise the fragment is its first line, a `'\n'`, and the remaining lines joined by `'\n'`. |
| Parser.FastaRecordChars | supabase/functions/process-file-upload/index.ts:98-101 | Every character of a FASTA header or sequence occurs in its fragment. |
| Parser.FastaRecordsWellFormed | supabase/functions/process-file-upload/index.ts:96-102 | For every FASTA record: the sequence holds no whitespace; the header holds no `'\n'`; neither holds `'>'`; the description is absent. |
| Parser.FastaRecords | supabase/functions/process-file-upload/index.ts:96-102 | The FASTA branch gives one record per kept fragment, as many as `FastaEntries` returns. `ParseFasta` is proved equal to it, and the FASTA lemmas are about it. |
| Parser.PlainLinesOf | supabase/functions/process-file-upload/index.ts:115 | `split('\n').filter(l => l.trim())` keeps no more lines than the split gives, each holding no `'\n'` and not blank. |
| Parser.PlainRecords | supabase/functions/process-file-upload/index.ts:115-121 | The plain branch gives one record per non-blank line. `ParsePlain` is proved equal to it, and the plain-line lemmas are about it. |
| Parser.BlockRecord | supabase/functions/process-file-upload/index.ts:106-110 | The record of a present block has a header shorter than its header line, because `substring(1)` drops the first character. Its sequence is no longer than its sequence line. |
| Parser.BlockRecords | supabase/functions/process-file-upload/index.ts:106-110 | One record per listed block, in the same order. |
| Parser.FastqOfLines | supabase/functions/process-file-upload/index.ts:105-111 | The FASTQ branch gives at most one record per block the loop visits. `ParseFastq` is proved equal to it, and the FASTQ lemmas are about it. |
| Parser.FastqRecords | supabase/functions/process-file-upload/index.ts:105-111 | A FASTQ file of `L` lines gives at most one record per four lines, rounded up: `4·records < L + 4`. |
| Parser.FastqRecordsStep | supabase/functions/process-file-upload/index.ts:106-111 | Visiting block `n` pushes that block's record exactly when the block is present. |
| Parser.BlockLinesAgree | supabase/functions/process-file-upload/index.ts:107-109 | Files that agree on every header and sequence line agree on both lines of each block. |
| Parser.BlockRecordsAgree | supabase/functions/process-file-upload/index.ts:106-110 | Files that agree on every header and sequence line give the same records for the same blocks. |
| Parser.PresentBlocks | supabase/functions/process-file-upload/index.ts:106-107 | Every block index the FASTQ loop keeps is below the bound and present: its header and sequence lines exist and are non-empty. At most `n` blocks are kept below the bound `n`. |
| Parser.PresentBlocksSpec | supabase/functions/process-file-upload/index.ts:106-107 | The kept blocks are strictly increasing, and every present block below the bound is kept. |
| Parser.PresentBlocksCount | supabase/functions/process-file-upload/index.ts:106-111 | The loop keeps as many blocks as `PresentBelow(lines, n)` holds: one per present block below the bound. |
| Parser.PresentBelowSpec | supabase/functions/process-file-upload/index.ts:106-107 | A block index is in the set `PresentBelow(lines, n)` exactly when it is below `n` and its block is present. |
| Parser.FastqRecordCount | supabase/functions/process-file-upload/index.ts:105-111 | The FASTQ branch returns exactly as many records as there are present blocks. |
| Parser.FastqAllBlocksPresent | supabase/functions/process-file-upload/index.ts:105-111 | When every block is present, there is one record per block, and record `k` comes from lines `4k` and `4k+1`. |
| Parser.PresentBlocksIgnoreOtherLines | supabase/functions/process-file-upload/index.ts:107 | Which blocks are kept depends only on lines `4k` and `4k+1`. |
| Parser.FastqIgnoresSeparatorAndQuality | supabase/functions/process-file-upload/index.ts:106-110 | Two files that agree on every header and sequence line parse alike, whatever their `+` and quality lines hold. |
| Parser.FastqSkipsIncompleteLastBlock | supabase/functions/process-file-upload/index.ts:106-107 | A final block with a missing or empty header or sequence line is dropped. The file parses as if it ended before that block. |
| Parser.PlainHeadersDistinct | supabase/functions/process-file-upload/index.ts:116-118 | The plain branch gives distinct records distinct `Sequence_<n>` headers. |
| Parser.PlainRecordsWellFormed | supabase/functions/process-file-upload/index.ts:115-120 | For every plain record: the sequence is non-empty and trimmed; it has no `'\n'`; the description is absent. |
| Parser.LeadingWhitespaceIsPlain | supabase/functions/process-file-upload/index.ts:94-103 | Text that starts with whitespace takes the plain branch, even if a `>` or `@` follows. |
| Parser.ParseBlank | supabase/functions/process-file-upload/index.ts:91-125 | Empty or all-whitespace text yields no records. |
| Parser.Parse | supabase/functions/process-file-upload/index.ts:91-125 | Whatever the branch, every header and every sequence has no whitespace at either end, and no record has a description. |
| Parser.DetectFormat | supabase/functions/process-file-upload/index.ts:94-103 | The FASTA branch is taken exactly when the text starts with `>`, and the FASTQ branch exactly when it starts with `@`. Everything else falls to the plain branch. |
| Parser.FastaEntries | supabase/functions/process-file-upload/index.ts:96 | Every fragment kept by `split('>').filter(e => e.trim())` holds no `>` and is not blank. |
| Parser.FastaRecord | supabase/functions/process-file-upload/index.ts:98-101 | A FASTA header has no whitespace at either end. A FASTA sequence holds no whitespace at all. The description is absent. |
| Parser.FastaRecordsPush | supabase/functions/process-file-upload/index.ts:97-101 | Pushing the record of the next fragment extends the records of the fragments before it. |
| Parser.BlockPresent | supabase/functions/process-file-upload/index.ts:107 | A block passes `lines[i] && lines[i + 1]` only if it starts before the end of the file, so it is among the blocks the loop visits. |
| Parser.BlockCount | supabase/functions/process-file-upload/index.ts:105-106 | The loop `i = 0, 4, 8, …` below `lines.length` visits the least number of blocks `c` with `4c >= lines.length`. |
| Parser.FastqRecord | supabase/functions/process-file-upload/index.ts:108-110 | A FASTQ header and sequence have no whitespace at either end. The description is absent. |
| Parser.PlainRecord | supabase/functions/process-file-upload/index.ts:116-120 | A plain record's header starts with `Sequence_` and has no whitespace at either end. So has its sequence. The description is absent. |
| Parser.PlainRecordsPush | supabase/functions/process-file-upload/index.ts:116-121 | Pushing the record of line `idx` extends the records of the lines before it. |
| Parser.TrimPadded | supabase/functions/process-file-upload/index.ts:109 | Trimming one space from each end of a trimmed, non-empty text gives that text back. |
| Parser.FastqOneBlock | supabase/functions/process-file-upload/index.ts:103-112 | `@h` then a line break then a non-empty `q`, with no further line break, parses to the single record `trim(h)` / `trim(q)`. |
| Parser.PlainOneLine | supabase/functions/process-file-upload/index.ts:113-122 | One non-blank line that starts with neither `>` nor `@` parses to the single record `Sequence_1` / the trimmed line. |
| Parser.FastqEmptyHeader | supabase/functions/process-file-upload/index.ts:108 | `@\nA` parses to one record with the empty header and sequence `A`. |
| Parser.FastqKeepsInnerWhitespace | supabase/functions/process-file-upload/index.ts:109 | `@r\n AC GT ` parses to header `r` and sequence `AC GT`: trimmed, inner space kept. |
| Parser.FastaOneFragment | supabase/functions/process-file-upload/index.ts:94-102 | `>` followed by one non-blank fragment without `>` parses to that fragment's record alone. |
| Parser.StripOneSpace | supabase/functions/process-file-upload/index.ts:100 | Stripping whitespace removes a single space between two whitespace-free parts and keeps both parts. |
| Parser.FastaHeaderless | supabase/functions/process-file-upload/index.ts:98-101 | A FASTA fragment with a blank first line and a second line `a b` gives the empty header and the sequence `ab`. |
| Parser.FastaEmptyHeaderStripped | supabase/functions/process-file-upload/index.ts:98-101 | `>\nAC GT` parses to one record with the empty header and the sequence `ACGT`. |
| Parser.PlainKeepsInnerWhitespace | supabase/functions/process-file-upload/index.ts:119 | ` AC GT ` parses to `Sequence_1` with sequence `AC GT`: trimmed, inner space kept. |
| Text.IsWhitespace | supabase/functions/process-file-upload/index.ts:99-100 | The characters `trim` removes and `/\s/` matches: ECMAScript WhiteSpace and LineTerminator, that is tab, line feed, vertical tab, form feed, carriage return, space, U+00A0, U+1680, U+2000 to U+200A, U+2028, U+2029, U+202F, U+205F, U+3000 and U+FEFF. Among ASCII characters it is exactly the space and tab to carriage return. |
| Text.Trim | supabase/functions/process-file-upload/index.ts:99 | `trim` never lengthens its argument. |
| Text.NonBlank | supabase/functions/process-file-upload/index.ts:96 | The filter never lengthens the list. |
| Text.Join | supabase/functions/process-file-upload/index.ts:100 | A join is at least as long as its first part, and starts with the first part's first character when that part is non-empty. |
| Text.Concat | supabase/functions/process-file-upload/index.ts:100 | `join('')` starts with its first part, and is empty exactly when every part is empty. |
| Text.SkipWhitespaceSpec | supabase/functions/process-file-upload/index.ts:99 | The forward scan passes only whitespace, and stops at the end or at a non-whitespace character. |
| Text.SkipWhitespaceBackSpec | supabase/functions/process-file-upload/index.ts:99 | The backward scan passes only whitespace, and stops at the start or after a non-whitespace character. |
| Text.TrimTrims | supabase/functions/process-file-upload/index.ts:99 | `trim` leaves no whitespace at either end. |
| Text.TrimInfix | supabase/functions/process-file-upload/index.ts:99 | `trim(s)` is a contiguous slice of `s`, with only whitespace before and after it. |
| Text.TrimEmpty | supabase/functions/process-file-upload/index.ts:96 | `trim(s)` is empty exactly when `s` is all whitespace. This is the truthiness test of the filters. |
| Text.TrimChars | supabase/functions/process-file-upload/index.ts:99 | `trim` adds no characters. |
| Text.TrimTrimmed | supabase/functions/process-file-upload/index.ts:119 | `trim` is the identity on a string with no whitespace at either end. |
| Text.StripWhitespace | supabase/functions/process-file-upload/index.ts:100 | `replace(/\s/g, '')` leaves no whitespace and never lengthens. |
| Text.StripWhitespaceChars | supabase/functions/process-file-upload/index.ts:100 | Stripping adds no characters. |
| Text.StripWhitespaceAppend | supabase/functions/process-file-upload/index.ts:100 | Stripping distributes over concatenation. |
| Text.StripWhitespaceNone | supabase/functions/process-file-upload/index.ts:100 | Stripping is the identity on text without whitespace. |
| Text.StripWhitespaceBlank | supabase/functions/process-file-upload/index.ts:100 | Stripping all-whitespace text leaves nothing. |
| Text.StripJoinConcat | supabase/functions/process-file-upload/index.ts:100 | Stripping lines joined by a whitespace separator equals stripping them joined with `''`. |
| Text.Split | supabase/functions/process-file-upload/index.ts:105 | `split` on one character always yields at least one piece. |
| Text.SplitSpec | supabase/functions/process-file-upload/index.ts:105 | No piece contains the separator, and joining the pieces with it gives back the input. |
| Text.SplitPrefix | supabase/functions/process-file-upload/index.ts:98 | A separator-free prefix becomes part of the first piece. |
| Text.SplitPiece | supabase/functions/process-file-upload/index.ts:98 | A separator-free piece followed by the separator becomes its own first piece. |
| Text.SplitJoin | supabase/functions/process-file-upload/index.ts:105 | Splitting the join of separator-free pieces gives those pieces back. This is the inverse of `SplitSpec`. |
| Text.JoinContains | supabase/functions/process-file-upload/index.ts:100 | Every character of a piece occurs in the join. |
| Text.NonBlankSpec | supabase/functions/process-file-upload/index.ts:115 | `filter(l => l.trim())` keeps exactly the non-blank strings and never lengthens the list. |
| Text.NonBlankAppend | supabase/functions/process-file-upload/index.ts:96 | The filter keeps the order of both halves of a concatenation. |
| Text.NonBlankAllKept | supabase/functions/process-file-upload/index.ts:115 | A list without blank strings passes the filter unchanged. |
| Text.NonBlankAllDropped | supabase/functions/process-file-upload/index.ts:96 | A list of blank strings is filtered to nothing. |
| Text.NatToString | supabase/functions/process-file-upload/index.ts:118 | `${n}` is a non-empty run of decimal digits with no leading zero. |
| Text.DecimalRoundTrip | supabase/functions/process-file-upload/index.ts:118 | Reading the digits of `${n}` back gives `n`. |
| Text.NatToStringInjective | supabase/functions/process-file-upload/index.ts:118 | Distinct numbers render as distinct strings. |
| Quality.ToUpperAscii | supabase/functions/process-file-upload/index.ts:132 | Upper-casing leaves no ASCII lower-case letter. The result is an ASCII letter exactly when the argument is one, and a character that is not a lower-case letter is unchanged. |
| Quality.IsValidBase | supabase/functions/process-file-upload/index.ts:132 | A base is valid exactly when it is one of A, T, C, G, U, N or a, t, c, g, u, n. |
| Quality.IsGC | supabase/functions/process-file-upload/index.ts:136 | A base counts towards GC exactly when it is G, C, g or c. Each such base is also valid. |
| Quality.CountValid | supabase/functions/process-file-upload/index.ts:131-133 | The valid-base count is at most the length, and equals it exactly when every character is valid. |
| Quality.CountGC | supabase/functions/process-file-upload/index.ts:135-136 | The G/C count never exceeds the valid-base count. |
| Quality.InGcBand | supabase/functions/process-file-upload/index.ts:137-141 | A GC content inside [0.4, 0.6] means the sequence holds at least one G or C and at least one other character. |
| Quality.RawScore | supabase/functions/process-file-upload/index.ts:140-141 | `validityScore + gcScore` of a non-empty sequence lies in [30, 100]. |
| Quality.Min | supabase/functions/process-file-upload/index.ts:143 | `Math.min` returns one of its arguments, and it is no larger than either. |
| Quality.CountValidUpTo | supabase/functions/process-file-upload/index.ts:131-133 | The number of valid bases is at most the length, and equals it exactly when every character is one of A, T, C, G, U, N in either case. |
| Quality.CountGCUpTo | supabase/functions/process-file-upload/index.ts:135-136 | The number of G or C characters never exceeds the number of valid bases. |
| Quality.QualityScore | supabase/functions/process-file-upload/index.ts:128-144 | The empty sequence scores 0. Any other sequence scores between 30 and 100. |
| Quality.RatioBounds | supabase/functions/process-file-upload/index.ts:140 | The valid share lies in [0, 1], and is exactly 1 only when every base is valid. |
| Quality.LowerBand | supabase/functions/process-file-upload/index.ts:141 | `0.4 <= g / l` holds exactly when `2l <= 5g`. |
| Quality.UpperBand | supabase/functions/process-file-upload/index.ts:141 | `g / l <= 0.6` holds exactly when `5g <= 3l`. |
| Quality.GcBandExact | supabase/functions/process-file-upload/index.ts:141 | The real-valued band test on `gc / len` is the integer test `2·len <= 5·gc <= 3·len`. |
| Quality.ClampInactive | supabase/functions/process-file-upload/index.ts:140-143 | The raw sum never exceeds 100, so `Math.min(100, …)` never changes it. |
| Quality.PerfectScore | supabase/functions/process-file-upload/index.ts:128-144 | The score is 100 exactly when the sequence is non-empty, every character is a valid base, and the GC count is in the band. |
| Quality.CountsUpToIgnoreCase | supabase/functions/process-file-upload/index.ts:131-136 | Both counts are unchanged when letters change case. |
| Quality.CaseInsensitive | supabase/functions/process-file-upload/index.ts:131-136 | The score is unchanged when letters change case. |
| Quality.ScoreOfCounts | supabase/functions/process-file-upload/index.ts:128-144 | A non-empty score is 50 × (valid share), plus 50 when `2·len <= 5·gc <= 3·len` and 30 otherwise. |
| Quality.ScoreEmpty | supabase/functions/process-file-upload/index.ts:129 | `""` scores 0. |
| Quality.ScoreAllGC | supabase/functions/process-file-upload/index.ts:128-144 | `GCGCGCGCGC` scores 80. |
| Quality.ScoreAllAT | supabase/functions/process-file-upload/index.ts:128-144 | `ATATATATAT` scores 80. |
| Quality.ScoreBalanced | supabase/functions/process-file-upload/index.ts:128-144 | `ATCGATCGAT` scores 100. Its GC content of exactly 0.4 is inside the band. |
| Quality.ScoreHalfInvalid | supabase/functions/process-file-upload/index.ts:128-144 | `XXXXATCG` scores 55. |
| Quality.ScoreLowerCase | supabase/functions/process-file-upload/index.ts:131-136 | `atcg` scores 100, the same as upper case. |
| Quality.ScoreAtcg | supabase/functions/process-file-upload/index.ts:128-144 | `ATCG` scores 100. |
| Quality.ScoreGgcc | supabase/functions/process-file-upload/index.ts:128-144 | `GGCC` scores 80. |
| Formats.PlainLinesOfText | supabase/functions/process-file-upload/index.ts:115 | The non-blank lines of one-per-line text are exactly the lines written. |
| Formats.NumberedLines | supabase/functions/process-file-upload/index.ts:116-120 | Lines with nothing to trim are kept as they are, named `Sequence_1`, `Sequence_2`, … |
| Formats.FastaEntriesOfText | supabase/functions/process-file-upload/index.ts:96 | The non-blank `>`-fragments of a written FASTA file are exactly the fragments written. |
| Formats.PlainRoundTrip | supabase/functions/process-file-upload/index.ts:113-122 | Lines written one per line read back as `Sequence_1`, `Sequence_2`, … with the lines unchanged. This holds for non-empty, trimmed, single lines whose first line does not look like FASTA or FASTQ. |
| Formats.FastqLinesShape | supabase/functions/process-file-upload/index.ts:105-107 | A written FASTQ file has single-line lines and one present block per record. Each block carries the record's header after `@` and its sequence. |
| Formats.FastqOfWrittenLines | supabase/functions/process-file-upload/index.ts:105-111 | Lines whose blocks hold trimmed headers and non-empty trimmed sequences read back as exactly those records. |
| Formats.FastqRoundTrip | supabase/functions/process-file-upload/index.ts:103-112 | A written FASTQ file reads back as exactly the records it was written from, whatever its quality lines hold. |
| Formats.FastaPieceRecord | supabase/functions/process-file-upload/index.ts:97-101 | One written fragment reads back as the record it was written from. |
| Formats.FastaPiecesShape | supabase/functions/process-file-upload/index.ts:96 | Written fragments contain no `>` and are never blank, so the split keeps all of them and the filter drops none. |
| Formats.FastaRoundTrip | supabase/functions/process-file-upload/index.ts:94-102 | A written FASTA file reads back as exactly the records it was written from. |
| Ingest.ToInsert | supabase/functions/process-file-upload/index.ts:45-54 | A row carries the uploaded `file_id`, the validated score and length, and the record's header, sequence and description unchanged. |
| Ingest.Inserts | supabase/functions/process-file-upload/index.ts:38-54 | The two `map` passes give one row per record. |
| Ingest.Rows | supabase/functions/process-file-upload/index.ts:34-54 | An upload gives one row per parsed record, each carrying the uploaded `file_id`. |
| Ingest.FastaTextOfTwo | supabase/functions/process-file-upload/index.ts:94-96 | Two records written as FASTA are `>`, the first fragment, `>`, the second fragment. |
| Ingest.Validate | supabase/functions/process-file-upload/index.ts:38-42 | The added `quality_score` lies in [0, 100], and is 0 exactly when the sequence is empty. |
| Ingest.InsertsWellFormed | supabase/functions/process-file-upload/index.ts:38-54 | There is one row per record. Every row has the uploaded `file_id`, a `length` equal to the stored sequence's length, and a `quality_score` that is that sequence's score, within [0, 100]. |
| Ingest.InsertsKeepRecords | supabase/functions/process-file-upload/index.ts:45-54 | Reading header, sequence and description back from the rows gives the records, in order. |
| Ingest.RowsHaveNoDescription | supabase/functions/process-file-upload/index.ts:50-53 | No row of a parsed upload carries a description. |
| Ingest.TwoRecordText | supabase/functions/process-file-upload/index.ts:94-102 | `>s1\nATCG\n>s2\nGGCC` is the FASTA text written from the records `s1`/`ATCG` and `s2`/`GGCC`. |
| Ingest.TwoRecordParse | supabase/functions/process-file-upload/index.ts:91-125 | `>s1\nATCG\n>s2\nGGCC` parses to those two records, in order. |
| Ingest.TwoRecordUpload | supabase/functions/process-file-upload/index.ts:34-54 | That upload stores two rows of length 4. `ATCG` scores 100 and `GGCC` scores 80. |

## Left out

- The HTTP handler is not part of this model: CORS preflight, the
  authorisation check, reading the JSON body, the database insert and the
  error responses. The model starts from the uploaded text and stops at the
  rows handed to `insert`.
- `fileId` comes from the request JSON and may be any JSON value. It is modelled as a string, which the rows copy unchanged.
- `projectId` is read from the request but never used. It is not modelled.
- The logging calls are not modelled.
- Quality.QualityScore: it is computed over exact reals. JavaScript's binary floating point may round `(valid / length) * 50` differently, and so the compared GC ratio as well. The proved bounds and the band equivalence are for exact arithmetic.
- `toUpperCase` is modelled on ASCII letters only. No other character upper-cases to one of the six letters, so the counts are exact.
- JavaScript strings are sequences of UTF-16 code units. The model works on Unicode characters. For text outside the Basic Multilingual Plane, `length`, `split('')` and so the score differ.
- `types.ts`, the React components and the other edge functions are not part of this model.
- The record's `description` is an `Option` that every branch leaves `None`. An absent JavaScript property and an explicit `undefined` are not distinguished.
