/** The three layouts `parseSequenceFile` reads, written out from records,
    and the round trips that show the parser reads them back. */
module Formats {
  import opened Text
  import opened Parser

  /** A record with no description, as every branch of the parser produces. */
  predicate Undescribed(r: SequenceRecord) {
    r.description == None
  }

  // ----------------------------------------------------------- plain lines

  /** A line the plain branch returns unchanged: non-empty, a single line,
      and with nothing for `trim` to remove. */
  predicate PlainLine(line: string) {
    line != [] && '\n' !in line && IsTrimmed(line)
  }

  /** Sequences written one per line. */
  function PlainText(sequences: seq<string>): string {
    if sequences == [] then [] else Join(sequences, '\n')
  }

  /** The records the plain branch numbers `Sequence_1`, `Sequence_2`, ... */
  function Numbered(sequences: seq<string>): seq<SequenceRecord> {
    seq(|sequences|, k requires 0 <= k < |sequences| =>
      SequenceRecord("Sequence_" + NatToString(k + 1), sequences[k], None))
  }

  /** The non-blank lines of one-per-line text are the lines written. */
  lemma PlainLinesOfText(sequences: seq<string>)
    requires sequences != []
    requires forall k :: 0 <= k < |sequences| ==> PlainLine(sequences[k])
    ensures PlainLinesOf(PlainText(sequences)) == sequences
  {
    SplitJoin(sequences, '\n');
    forall k | 0 <= k < |sequences| ensures !IsBlank(sequences[k]) {
      assert !IsWhitespace(sequences[k][0]);
    }
    NonBlankAllKept(sequences);
  }

  /** Lines with nothing to trim are numbered and kept as they are. */
  lemma NumberedLines(content: string, sequences: seq<string>)
    requires PlainLinesOf(content) == sequences
    requires forall k :: 0 <= k < |sequences| ==> PlainLine(sequences[k])
    ensures PlainRecords(content) == Numbered(sequences)
  {
    forall k | 0 <= k < |sequences|
      ensures PlainRecord(sequences[k], k) == Numbered(sequences)[k]
    {
      TrimTrimmed(sequences[k]);
    }
  }

  /** Reading back one-per-line text gives every line, in order, under its
      1-based ordinal name, provided the first line does not itself look like
      FASTA or FASTQ. */
  lemma PlainRoundTrip(sequences: seq<string>)
    requires forall k :: 0 <= k < |sequences| ==> PlainLine(sequences[k])
    requires |sequences| > 0 ==> DetectFormat(sequences[0]) == PlainLines
    ensures Parse(PlainText(sequences)) == Numbered(sequences)
  {
    if sequences == [] {
      ParseBlank([]);
    } else {
      var content := PlainText(sequences);
      assert content[0] == sequences[0][0];
      assert DetectFormat(content) == PlainLines;
      PlainLinesOfText(sequences);
      NumberedLines(content, sequences);
    }
  }

  // ---------------------------------------------------------------- FASTQ

  /** A record the FASTQ branch returns unchanged: header and sequence on
      one line each with nothing for `trim` to remove, and a non-empty
      sequence (an empty sequence line ends the block's record). */
  predicate FastqWritable(r: SequenceRecord) {
    Undescribed(r) && '\n' !in r.header && IsTrimmed(r.header)
    && r.sequence != [] && '\n' !in r.sequence && IsTrimmed(r.sequence)
  }

  /** Line `i % 4` of the block of `r`: `@header`, the sequence, `+`, and the
      quality string. */
  function BlockLine(r: SequenceRecord, quality: string, i: nat): string {
    if i % 4 == 0 then ['@'] + r.header
    else if i % 4 == 1 then r.sequence
    else if i % 4 == 2 then "+"
    else quality
  }

  /** The lines of a FASTQ file, four per record. */
  function FastqLines(records: seq<SequenceRecord>, qualities: seq<string>): seq<string>
    requires |qualities| == |records|
  {
    seq(4 * |records|, i requires 0 <= i < 4 * |records| =>
      BlockLine(records[i / 4], qualities[i / 4], i))
  }

  function FastqText(records: seq<SequenceRecord>, qualities: seq<string>): string
    requires |qualities| == |records|
  {
    if records == [] then [] else Join(FastqLines(records, qualities), '\n')
  }

  /** The written lines are single lines, and every block is present with
      the record's header after `@` and its sequence on the next line. */
  lemma FastqLinesShape(records: seq<SequenceRecord>, qualities: seq<string>)
    requires |qualities| == |records|
    requires forall k :: 0 <= k < |records| ==> FastqWritable(records[k])
    requires forall k :: 0 <= k < |qualities| ==> '\n' !in qualities[k]
    ensures var lines := FastqLines(records, qualities);
      (forall i :: 0 <= i < |lines| ==> '\n' !in lines[i])
      && BlockCount(lines) == |records|
      && (forall k :: 0 <= k < |records| ==>
            BlockPresent(lines, k) && lines[4 * k][1..] == records[k].header
            && lines[4 * k + 1] == records[k].sequence)
  {
    var lines := FastqLines(records, qualities);
    forall i | 0 <= i < |lines| ensures '\n' !in lines[i] {
      if i % 4 == 0 {
        assert lines[i] == ['@'] + records[i / 4].header;
      }
    }
    forall k | 0 <= k < |records|
      ensures BlockPresent(lines, k) && lines[4 * k][1..] == records[k].header
      ensures lines[4 * k + 1] == records[k].sequence
    {
      assert (4 * k) / 4 == k && (4 * k + 1) / 4 == k;
      assert lines[4 * k] == ['@'] + records[k].header;
    }
  }

  /** The FASTQ branch reads back lines whose every block is present and
      holds a record's header after its first character and its sequence. */
  lemma FastqOfWrittenLines(lines: seq<string>, records: seq<SequenceRecord>)
    requires BlockCount(lines) == |records|
    requires forall k :: 0 <= k < |records| ==> FastqWritable(records[k])
    requires forall k :: 0 <= k < |records| ==>
      BlockPresent(lines, k) && lines[4 * k][1..] == records[k].header
      && lines[4 * k + 1] == records[k].sequence
    ensures FastqOfLines(lines) == records
  {
    FastqAllBlocksPresent(lines);
    forall k | 0 <= k < |records|
      ensures FastqRecord(lines[4 * k], lines[4 * k + 1]) == records[k]
    {
      TrimTrimmed(records[k].header);
      TrimTrimmed(records[k].sequence);
    }
  }

  /** Reading back a FASTQ file gives the records it was written from,
      whatever its quality lines hold. */
  lemma FastqRoundTrip(records: seq<SequenceRecord>, qualities: seq<string>)
    requires |qualities| == |records|
    requires forall k :: 0 <= k < |records| ==> FastqWritable(records[k])
    requires forall k :: 0 <= k < |qualities| ==> '\n' !in qualities[k]
    ensures Parse(FastqText(records, qualities)) == records
  {
    if records == [] {
      ParseBlank([]);
    } else {
      var lines := FastqLines(records, qualities);
      var content := FastqText(records, qualities);
      FastqLinesShape(records, qualities);
      assert DetectFormat(content) == Fastq;
      SplitJoin(lines, '\n');
      FastqOfWrittenLines(lines, records);
    }
  }

  // ---------------------------------------------------------------- FASTA

  /** A record the FASTA branch returns unchanged: a one-line header with
      nothing for `trim` to remove, a sequence without whitespace, no `'>'`
      anywhere, and not both empty (a blank fragment is dropped). */
  predicate FastaWritable(r: SequenceRecord) {
    Undescribed(r) && '\n' !in r.header && '>' !in r.header && IsTrimmed(r.header)
    && NoWhitespace(r.sequence) && '>' !in r.sequence
    && (r.header != [] || r.sequence != [])
  }

  /** What follows one `'>'`: the header line, then the sequence line, ended
      by a newline unless it is the last record of the file. */
  function FastaPiece(r: SequenceRecord, last: bool): string {
    r.header + "\n" + (r.sequence + (if last then "" else "\n"))
  }

  function FastaPieces(records: seq<SequenceRecord>): seq<string> {
    seq(|records|, k requires 0 <= k < |records| => FastaPiece(records[k], k == |records| - 1))
  }

  /** `>header\nsequence` for each record, one after the other. */
  function FastaText(records: seq<SequenceRecord>): string {
    Join([""] + FastaPieces(records), '>')
  }

  /** One written fragment reads back as the record it was written from. */
  lemma FastaPieceRecord(r: SequenceRecord, last: bool)
    requires FastaWritable(r)
    ensures FastaRecord(FastaPiece(r, last)) == r
  {
    var tail := if last then "" else "\n";
    FastaRecordOfLines(r.header, r.sequence + tail);
    TrimTrimmed(r.header);
    StripWhitespaceAppend(r.sequence, tail);
    StripWhitespaceNone(r.sequence);
    StripWhitespaceBlank(tail);
    assert r.sequence + [] == r.sequence;
  }

  /** Written fragments hold no `'>'` and are never blank. */
  lemma FastaPiecesShape(records: seq<SequenceRecord>)
    requires forall k :: 0 <= k < |records| ==> FastaWritable(records[k])
    ensures var pieces := FastaPieces(records);
      forall k :: 0 <= k < |pieces| ==> '>' !in pieces[k] && !IsBlank(pieces[k])
  {
    var pieces := FastaPieces(records);
    forall k | 0 <= k < |pieces| ensures '>' !in pieces[k] && !IsBlank(pieces[k]) {
      var r := records[k];
      if r.header != [] {
        assert pieces[k][0] == r.header[0];
      } else {
        assert pieces[k][1] == r.sequence[0];
      }
    }
  }

  /** The non-blank `'>'`-fragments of a written FASTA file are the pieces
      written. */
  lemma FastaEntriesOfText(records: seq<SequenceRecord>)
    requires records != []
    requires forall k :: 0 <= k < |records| ==> FastaWritable(records[k])
    ensures FastaEntries(FastaText(records)) == FastaPieces(records)
  {
    var pieces := FastaPieces(records);
    FastaPiecesShape(records);
    SplitJoin([""] + pieces, '>');
    NonBlankAppend([""], pieces);
    NonBlankAllDropped([""]);
    NonBlankAllKept(pieces);
  }

  /** Reading back a FASTA file gives the records it was written from. */
  lemma FastaRoundTrip(records: seq<SequenceRecord>)
    requires forall k :: 0 <= k < |records| ==> FastaWritable(records[k])
    ensures Parse(FastaText(records)) == records
  {
    var pieces := FastaPieces(records);
    var content := FastaText(records);
    if records == [] {
      assert content == [];
      ParseBlank([]);
    } else {
      assert content == [] + ['>'] + Join(pieces, '>');
      assert DetectFormat(content) == Fasta;
      FastaEntriesOfText(records);
      forall k | 0 <= k < |records| ensures FastaRecord(pieces[k]) == records[k] {
        FastaPieceRecord(records[k], k == |records| - 1);
      }
      assert FastaRecords(content) == records;
    }
  }
}
