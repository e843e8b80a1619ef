/** The two `map` passes of the upload handler: each parsed record is scored
    and measured, then shaped into a row of the `sequences` table that
    carries the uploaded file's id and keeps header and description under
    `metadata`. */
module Ingest {
  import opened Text
  import opened Parser
  import opened Quality
  import opened Formats

  /** A parsed record with `quality_score` and `length` added. */
  datatype ValidatedSequence = ValidatedSequence(
    header: string, sequence: string, description: Option<string>,
    qualityScore: real, length: nat)

  datatype Metadata = Metadata(header: string, description: Option<string>)

  /** One row for the `sequences` table. */
  datatype SequenceInsert = SequenceInsert(
    fileId: string, sequenceData: string, qualityScore: real, length: nat,
    metadata: Metadata)

  /** `{ ...seq, quality_score: calculateQualityScore(seq.sequence),
      length: seq.sequence.length }` */
  function Validate(r: SequenceRecord): (v: ValidatedSequence)
    ensures 0.0 <= v.qualityScore <= 100.0
    ensures v.qualityScore == 0.0 <==> r.sequence == []
  {
    ValidatedSequence(r.header, r.sequence, r.description, QualityScore(r.sequence), |r.sequence|)
  }

  /** The row written for one validated sequence of file `fileId`: it keeps
      the score and the length, and the record can be read back from it. */
  function ToInsert(fileId: string, v: ValidatedSequence): (row: SequenceInsert)
    ensures row.fileId == fileId
    ensures row.qualityScore == v.qualityScore && row.length == v.length
    ensures RecordOf(row) == SequenceRecord(v.header, v.sequence, v.description)
  {
    SequenceInsert(fileId, v.sequence, v.qualityScore, v.length, Metadata(v.header, v.description))
  }

  /** Both passes over the parsed records, in order: one row per record. */
  function Inserts(fileId: string, records: seq<SequenceRecord>): (rows: seq<SequenceInsert>)
    ensures |rows| == |records|
  {
    seq(|records|, k requires 0 <= k < |records| => ToInsert(fileId, Validate(records[k])))
  }

  /** The rows the handler inserts for an upload of `content`: one per parsed
      record, each carrying the uploaded file's id. */
  function Rows(fileId: string, content: string): (rows: seq<SequenceInsert>)
    ensures |rows| == |Parse(content)|
    ensures forall k :: 0 <= k < |rows| ==> rows[k].fileId == fileId
  {
    Inserts(fileId, Parse(content))
  }

  /** The record a row was made from, read back out of the row. */
  function RecordOf(row: SequenceInsert): SequenceRecord {
    SequenceRecord(row.metadata.header, row.sequenceData, row.metadata.description)
  }

  /** Every row belongs to the uploaded file, its length is the length of
      the sequence it stores, and its score is that sequence's quality
      score, within [0, 100]. */
  lemma InsertsWellFormed(fileId: string, records: seq<SequenceRecord>)
    ensures var rows := Inserts(fileId, records);
      |rows| == |records|
      && forall k :: 0 <= k < |rows| ==>
           rows[k].fileId == fileId
           && rows[k].length == |rows[k].sequenceData|
           && rows[k].qualityScore == QualityScore(rows[k].sequenceData)
           && 0.0 <= rows[k].qualityScore <= 100.0
  {
  }

  /** No record is lost, added, reordered or altered on its way into the
      table: the rows give back exactly the records they were made from. */
  lemma InsertsKeepRecords(fileId: string, records: seq<SequenceRecord>)
    ensures var rows := Inserts(fileId, records);
      |rows| == |records| && forall k :: 0 <= k < |rows| ==> RecordOf(rows[k]) == records[k]
  {
  }

  /** Parsed uploads never store a description. */
  lemma RowsHaveNoDescription(fileId: string, content: string, k: nat)
    requires k < |Rows(fileId, content)|
    ensures Rows(fileId, content)[k].metadata.description == None
  {
  }

  /** Two records written as FASTA: `>`, the first fragment, `>`, the
      second. */
  lemma FastaTextOfTwo(r1: SequenceRecord, r2: SequenceRecord)
    ensures FastaText([r1, r2]) == ['>'] + FastaPiece(r1, false) + ['>'] + FastaPiece(r2, true)
  {
    var p1, p2 := FastaPiece(r1, false), FastaPiece(r2, true);
    assert FastaPieces([r1, r2]) == [p1, p2];
    var parts := [""] + [p1, p2];
    assert parts[1..] == [p1, p2] && [p1, p2][1..] == [p2];
    assert Join([p1, p2], '>') == p1 + ">" + p2;
    assert Join(parts, '>') == "" + ">" + (p1 + ">" + p2);
  }

  /** The two-record FASTA text `>s1\nATCG\n>s2\nGGCC` is the one written
      from those records. */
  lemma TwoRecordText()
    ensures FastaText([SequenceRecord("s1", "ATCG", None), SequenceRecord("s2", "GGCC", None)])
      == ">s1\nATCG\n>s2\nGGCC"
  {
    var r1 := SequenceRecord("s1", "ATCG", None);
    var r2 := SequenceRecord("s2", "GGCC", None);
    FastaTextOfTwo(r1, r2);
    var p1, p2 := FastaPiece(r1, false), FastaPiece(r2, true);
    assert p1 == "s1\nATCG\n";
    assert p2 == "s2\nGGCC";
    assert ['>'] + p1 + ['>'] + p2 == ">s1\nATCG\n>s2\nGGCC";
  }

  /** Parsing `>s1\nATCG\n>s2\nGGCC` gives the records `s1`/`ATCG` and
      `s2`/`GGCC`, in that order. */
  lemma TwoRecordParse()
    ensures Parse(">s1\nATCG\n>s2\nGGCC") ==
      [SequenceRecord("s1", "ATCG", None), SequenceRecord("s2", "GGCC", None)]
  {
    var r1 := SequenceRecord("s1", "ATCG", None);
    var r2 := SequenceRecord("s2", "GGCC", None);
    assert FastaWritable(r1) && FastaWritable(r2);
    TwoRecordText();
    FastaRoundTrip([r1, r2]);
  }

  /** The rows of an upload that parses to two records. */
  lemma RowsOfTwo(fileId: string, content: string, r1: SequenceRecord, r2: SequenceRecord)
    requires Parse(content) == [r1, r2]
    ensures Rows(fileId, content) == [ToInsert(fileId, Validate(r1)), ToInsert(fileId, Validate(r2))]
  {
  }

  /** An upload of two FASTA records, `s1` with `ATCG` and `s2` with `GGCC`,
      stores two rows of length 4. Every base is valid in both; `ATCG` has GC
      content 0.5 and scores 100, while `GGCC` has GC content 1, outside the
      band, and scores 80. */
  lemma TwoRecordUpload(fileId: string)
    ensures Rows(fileId, ">s1\nATCG\n>s2\nGGCC") == [
      SequenceInsert(fileId, "ATCG", 100.0, 4, Metadata("s1", None)),
      SequenceInsert(fileId, "GGCC", 80.0, 4, Metadata("s2", None))]
  {
    TwoRecordParse();
    RowsOfTwo(fileId, ">s1\nATCG\n>s2\nGGCC", SequenceRecord("s1", "ATCG", None), SequenceRecord("s2", "GGCC", None));
    ScoreAtcg();
    ScoreGgcc();
  }
}
