/** `parseSequenceFile`: the uploaded text is sniffed by its first raw
    character and cut into sequence records in one of three ways — FASTA
    fragments, four-line FASTQ blocks, or one record per non-blank line. */
module Parser {
  import opened Text

  datatype Option<T> = None | Some(value: T)

  /** `{ header, sequence, description? }`; no branch of the parser ever sets
      `description`. */
  datatype SequenceRecord = SequenceRecord(header: string, sequence: string, description: Option<string>)

  datatype Format = Fasta | Fastq | PlainLines

  /** `content.startsWith('>')`, else `content.startsWith('@')`, else the
      plain-line fallback. The raw, untrimmed first character decides. */
  function DetectFormat(content: string): (f: Format)
    ensures f == Fasta <==> ['>'] <= content
    ensures f == Fastq <==> ['@'] <= content
  {
    if |content| > 0 && content[0] == '>' then Fasta
    else if |content| > 0 && content[0] == '@' then Fastq
    else PlainLines
  }

  // ---------------------------------------------------------------- FASTA

  /** One `'>'`-fragment: its first `'\n'`-line trimmed is the header; the
      remaining lines, joined and stripped of all whitespace, the sequence. */
  function FastaRecord(entry: string): (r: SequenceRecord)
    ensures IsTrimmed(r.header) && NoWhitespace(r.sequence) && r.description == None
  {
    var lines := Split(entry, '\n');
    TrimTrims(lines[0]);
    SequenceRecord(Trim(lines[0]), StripWhitespace(Concat(lines[1..])), None)
  }

  /** `content.split('>').filter(e => e.trim())`: fragments that hold no
      `'>'` and are not blank. */
  function FastaEntries(content: string): (es: seq<string>)
    ensures forall k :: 0 <= k < |es| ==> '>' !in es[k] && !IsBlank(es[k])
  {
    SplitSpec(content, '>');
    NonBlankSpec(Split(content, '>'));
    NonBlank(Split(content, '>'))
  }

  /** One record per non-blank fragment, in order. */
  function FastaRecords(content: string): (rs: seq<SequenceRecord>)
    ensures |rs| == |FastaEntries(content)|
  {
    var entries := FastaEntries(content);
    seq(|entries|, k requires 0 <= k < |entries| => FastaRecord(entries[k]))
  }

  // ---------------------------------------------------------------- FASTQ

  /** `lines[i] && lines[i + 1]` for the block `k` that starts at line
      `i = 4·k`: its header and sequence lines exist and are non-empty. */
  predicate BlockPresent(lines: seq<string>, k: nat)
    ensures BlockPresent(lines, k) ==> k < BlockCount(lines)
  {
    4 * k + 1 < |lines| && lines[4 * k] != [] && lines[4 * k + 1] != []
  }

  /** The record of a four-line block: the header line without its first
      character (`substring(1)`), trimmed; the sequence line trimmed. */
  function FastqRecord(headerLine: string, sequenceLine: string): (r: SequenceRecord)
    ensures IsTrimmed(r.header) && IsTrimmed(r.sequence) && r.description == None
  {
    var afterFirst := if headerLine == [] then [] else headerLine[1..];
    TrimTrims(afterFirst);
    TrimTrims(sequenceLine);
    SequenceRecord(Trim(afterFirst), Trim(sequenceLine), None)
  }

  /** The record of block `k`, whose lines are present. Its header is
      shorter than the header line, whose first character is dropped, and its
      sequence is no longer than the sequence line. */
  function BlockRecord(lines: seq<string>, k: nat): (r: SequenceRecord)
    requires BlockPresent(lines, k)
    ensures |r.header| < |lines[4 * k]| && |r.sequence| <= |lines[4 * k + 1]|
  {
    FastqRecord(lines[4 * k], lines[4 * k + 1])
  }

  /** The present blocks among 0, ..., n-1, in the order the loop meets them. */
  function PresentBlocks(lines: seq<string>, n: nat): (ks: seq<nat>)
    ensures |ks| <= n
    ensures forall j :: 0 <= j < |ks| ==> ks[j] < n && BlockPresent(lines, ks[j])
  {
    if n == 0 then []
    else PresentBlocks(lines, n - 1) + (if BlockPresent(lines, n - 1) then [n - 1] else [])
  }

  /** One record per block of `ks`, in the same order. */
  function BlockRecords(lines: seq<string>, ks: seq<nat>): (rs: seq<SequenceRecord>)
    requires forall j :: 0 <= j < |ks| ==> BlockPresent(lines, ks[j])
    ensures |rs| == |ks|
  {
    seq(|ks|, j requires 0 <= j < |ks| => BlockRecord(lines, ks[j]))
  }

  /** The number of blocks the loop visits: the values `i = 0, 4, 8, ...`
      below `|lines|`, so the least `c` with `4·c >= |lines|`. */
  function BlockCount(lines: seq<string>): (c: nat)
    ensures |lines| <= 4 * c < |lines| + 4
  {
    (|lines| + 3) / 4
  }

  /** The records of the FASTQ branch, given the file's lines: at most one
      per block the loop visits. */
  function FastqOfLines(lines: seq<string>): (rs: seq<SequenceRecord>)
    ensures |rs| <= BlockCount(lines)
  {
    BlockRecords(lines, PresentBlocks(lines, BlockCount(lines)))
  }

  /** The records of the FASTQ branch: at most one per four lines, rounded
      up. */
  function FastqRecords(content: string): (rs: seq<SequenceRecord>)
    ensures 4 * |rs| < |Split(content, '\n')| + 4
  {
    FastqOfLines(Split(content, '\n'))
  }

  // ----------------------------------------------------------- plain lines

  /** The record of the non-blank line at 0-based position `idx`. */
  function PlainRecord(line: string, idx: nat): (r: SequenceRecord)
    ensures "Sequence_" <= r.header && IsTrimmed(r.header)
    ensures IsTrimmed(r.sequence) && r.description == None
  {
    TrimTrims(line);
    SequenceRecord("Sequence_" + NatToString(idx + 1), Trim(line), None)
  }

  /** `content.split('\n').filter(l => l.trim())`: no more lines than the
      text has, each holding no `'\n'` and not blank. */
  function PlainLinesOf(content: string): (ls: seq<string>)
    ensures |ls| <= |Split(content, '\n')|
    ensures forall k :: 0 <= k < |ls| ==> '\n' !in ls[k] && !IsBlank(ls[k])
  {
    SplitSpec(content, '\n');
    NonBlankSpec(Split(content, '\n'));
    NonBlank(Split(content, '\n'))
  }

  /** One record per non-blank line, numbered from 1. */
  function PlainRecords(content: string): (rs: seq<SequenceRecord>)
    ensures |rs| == |PlainLinesOf(content)|
  {
    var lines := PlainLinesOf(content);
    seq(|lines|, k requires 0 <= k < |lines| => PlainRecord(lines[k], k))
  }

  /** What `parseSequenceFile(content)` returns. Whatever the branch, every
      header and every sequence is free of whitespace at both ends, and no
      record has a description. */
  function Parse(content: string): (rs: seq<SequenceRecord>)
    ensures forall k :: 0 <= k < |rs| ==>
      IsTrimmed(rs[k].header) && IsTrimmed(rs[k].sequence) && rs[k].description == None
  {
    match DetectFormat(content)
    case Fasta => FastaRecords(content)
    case Fastq => FastqRecords(content)
    case PlainLines => PlainRecords(content)
  }

  /** `parseSequenceFile`: dispatches on the raw first character and
      collects the records of the chosen branch. */
  method ParseSequenceFile(content: string) returns (sequences: seq<SequenceRecord>)
    ensures sequences == Parse(content)
  {
    if |content| > 0 && content[0] == '>' {
      sequences := ParseFasta(content);
    } else if |content| > 0 && content[0] == '@' {
      sequences := ParseFastq(content);
    } else {
      sequences := ParsePlain(content);
    }
  }

  /** The FASTA branch: a `for...of` over the non-blank fragments, pushing one
      record per fragment. */
  method ParseFasta(content: string) returns (sequences: seq<SequenceRecord>)
    ensures sequences == FastaRecords(content)
  {
    sequences := [];
    var entries := NonBlank(Split(content, '>'));
    for k := 0 to |entries|
      invariant sequences == seq(k, j requires 0 <= j < k => FastaRecord(entries[j]))
    {
      var lines := Split(entries[k], '\n');
      var header := Trim(lines[0]);
      var sequence := StripWhitespace(Concat(lines[1..]));
      assert SequenceRecord(header, sequence, None) == FastaRecord(entries[k]);
      FastaRecordsPush(entries, k);
      sequences := sequences + [SequenceRecord(header, sequence, None)];
    }
  }

  /** Pushing the record of fragment `k` extends the records of the first
      `k` fragments. */
  lemma FastaRecordsPush(entries: seq<string>, k: nat)
    requires k < |entries|
    ensures seq(k + 1, j requires 0 <= j < k + 1 => FastaRecord(entries[j]))
      == seq(k, j requires 0 <= j < k => FastaRecord(entries[j])) + [FastaRecord(entries[k])]
  {
  }

  /** The FASTQ branch: `for (let i = 0; i < lines.length; i += 4)`, pushing a
      record only when the header and sequence lines are both non-empty. */
  method ParseFastq(content: string) returns (sequences: seq<SequenceRecord>)
    ensures sequences == FastqRecords(content)
  {
    sequences := [];
    var lines := Split(content, '\n');
    var i := 0;
    ghost var n := 0;
    while i < |lines|
      invariant i == 4 * n && i < |lines| + 4
      invariant sequences == BlockRecords(lines, PresentBlocks(lines, n))
    {
      FastqRecordsStep(lines, n);
      if lines[i] != [] && i + 1 < |lines| && lines[i + 1] != [] {
        var header := Trim(lines[i][1..]);
        var sequence := Trim(lines[i + 1]);
        assert BlockPresent(lines, n) && SequenceRecord(header, sequence, None) == BlockRecord(lines, n);
        sequences := sequences + [SequenceRecord(header, sequence, None)];
      } else {
        assert !BlockPresent(lines, n);
      }
      i, n := i + 4, n + 1;
    }
    assert n == BlockCount(lines);
  }

  /** Visiting block `n` pushes its record exactly when the block is
      present. */
  lemma FastqRecordsStep(lines: seq<string>, n: nat)
    ensures BlockRecords(lines, PresentBlocks(lines, n + 1))
      == BlockRecords(lines, PresentBlocks(lines, n))
         + (if BlockPresent(lines, n) then [BlockRecord(lines, n)] else [])
  {
    if BlockPresent(lines, n) {
      BlockRecordsAppend(lines, PresentBlocks(lines, n), n);
    } else {
      assert PresentBlocks(lines, n + 1) == PresentBlocks(lines, n);
    }
  }

  /** The plain-line fallback: a `forEach` over the non-blank lines, naming
      each `Sequence_<idx + 1>`. */
  method ParsePlain(content: string) returns (sequences: seq<SequenceRecord>)
    ensures sequences == PlainRecords(content)
  {
    sequences := [];
    var lines := NonBlank(Split(content, '\n'));
    for idx := 0 to |lines|
      invariant sequences == seq(idx, j requires 0 <= j < idx => PlainRecord(lines[j], j))
    {
      var header := "Sequence_" + NatToString(idx + 1);
      var sequence := Trim(lines[idx]);
      assert SequenceRecord(header, sequence, None) == PlainRecord(lines[idx], idx);
      PlainRecordsPush(lines, idx);
      sequences := sequences + [SequenceRecord(header, sequence, None)];
    }
  }

  /** Pushing the record of line `idx` extends the records of the first
      `idx` lines. */
  lemma PlainRecordsPush(lines: seq<string>, idx: nat)
    requires idx < |lines|
    ensures seq(idx + 1, j requires 0 <= j < idx + 1 => PlainRecord(lines[j], j))
      == seq(idx, j requires 0 <= j < idx => PlainRecord(lines[j], j)) + [PlainRecord(lines[idx], idx)]
  {
  }

  // ------------------------------------------------------- FASTA lemmas

  /** A fragment with a line break: the header is the text before the first
      `'\n'`, trimmed; the sequence is everything after it with all
      whitespace removed. */
  lemma {:induction false} FastaRecordOfLines(head: string, body: string)
    requires '\n' !in head
    ensures FastaRecord(head + "\n" + body) == SequenceRecord(Trim(head), StripWhitespace(body), None)
  {
    SplitPiece(head, body, '\n');
    var lines := Split(head + "\n" + body, '\n');
    assert lines[0] == head && lines[1..] == Split(body, '\n');
    SplitSpec(body, '\n');
    StripJoinConcat(Split(body, '\n'), '\n');
  }

  /** A fragment without a line break is all header and no sequence. */
  lemma {:induction false} FastaRecordOneLine(entry: string)
    requires '\n' !in entry
    ensures FastaRecord(entry) == SequenceRecord(Trim(entry), [], None)
  {
    SplitJoin([entry], '\n');
    assert Split(entry, '\n')[1..] == [];
  }

  /** Every fragment either has no line break, or is its first line, a
      `'\n'`, and the rest. */
  lemma {:induction false} FastaEntryShape(entry: string)
    ensures var lines := Split(entry, '\n');
      '\n' !in lines[0]
      && (|lines| == 1 ==> entry == lines[0])
      && (|lines| > 1 ==> entry == lines[0] + "\n" + Join(lines[1..], '\n'))
  {
    SplitSpec(entry, '\n');
  }

  /** What a FASTA record holds comes from its fragment. */
  lemma {:induction false} FastaRecordChars(entry: string, c: char)
    requires c in FastaRecord(entry).header || c in FastaRecord(entry).sequence
    ensures c in entry
  {
    var lines := Split(entry, '\n');
    FastaEntryShape(entry);
    if |lines| == 1 {
      FastaRecordOneLine(entry);
      TrimChars(entry, c);
    } else {
      var body := Join(lines[1..], '\n');
      FastaRecordOfLines(lines[0], body);
      if c in Trim(lines[0]) {
        TrimChars(lines[0], c);
      } else {
        StripWhitespaceChars(body, c);
      }
    }
  }

  /** Every FASTA record has a whitespace-free sequence, a single-line header,
      no `'>'` anywhere, and no description. */
  lemma FastaRecordsWellFormed(content: string, k: nat)
    requires k < |FastaRecords(content)|
    ensures var r := FastaRecords(content)[k];
      NoWhitespace(r.sequence) && '\n' !in r.header
      && '>' !in r.header && '>' !in r.sequence && r.description == None
  {
    var entries := FastaEntries(content);
    var entry := entries[k];
    var r := FastaRecord(entry);
    NonBlankSpec(Split(content, '>'));
    assert entry in Split(content, '>');
    SplitSpec(content, '>');
    assert '>' !in entry;
    if '>' in r.header || '>' in r.sequence {
      FastaRecordChars(entry, '>');
    }
    FastaEntryShape(entry);
    var lines := Split(entry, '\n');
    if '\n' in r.header {
      TrimChars(lines[0], '\n');
    }
  }

  // ------------------------------------------------------- FASTQ lemmas

  /** Pushing one more present block pushes its record. */
  lemma BlockRecordsAppend(lines: seq<string>, ks: seq<nat>, k: nat)
    requires forall j :: 0 <= j < |ks| ==> BlockPresent(lines, ks[j])
    requires BlockPresent(lines, k)
    ensures BlockRecords(lines, ks + [k]) == BlockRecords(lines, ks) + [BlockRecord(lines, k)]
  {
    var l, r := BlockRecords(lines, ks + [k]), BlockRecords(lines, ks) + [BlockRecord(lines, k)];
    forall j | 0 <= j < |l| ensures l[j] == r[j] {
      if j < |ks| { assert (ks + [k])[j] == ks[j]; }
    }
  }

  /** The present blocks come in strictly increasing order, and every present
      block below `n` is among them. */
  lemma {:induction false} PresentBlocksSpec(lines: seq<string>, n: nat)
    ensures var ks := PresentBlocks(lines, n);
      (forall i, j :: 0 <= i < j < |ks| ==> ks[i] < ks[j])
      && (forall k :: 0 <= k < n && BlockPresent(lines, k) ==> k in ks)
  {
    if n > 0 {
      PresentBlocksSpec(lines, n - 1);
    }
  }

  /** The blocks below `n` that are present, as a set. */
  function PresentBelow(lines: seq<string>, n: nat): (s: set<nat>)
    ensures forall k :: k in s ==> k < n
  {
    if n == 0 then {}
    else PresentBelow(lines, n - 1) + (if BlockPresent(lines, n - 1) then {n - 1} else {})
  }

  /** `PresentBelow` holds exactly the present blocks below the bound. */
  lemma {:induction false} PresentBelowSpec(lines: seq<string>, n: nat, k: nat)
    ensures k in PresentBelow(lines, n) <==> k < n && BlockPresent(lines, k)
  {
    if n > 0 {
      PresentBelowSpec(lines, n - 1, k);
    }
  }

  /** The loop keeps as many blocks as there are present ones. */
  lemma {:induction false} PresentBlocksCount(lines: seq<string>, n: nat)
    ensures |PresentBlocks(lines, n)| == |PresentBelow(lines, n)|
  {
    if n > 0 {
      PresentBlocksCount(lines, n - 1);
    }
  }

  /** Exactly one record per present block: the count of the FASTQ branch is
      the number of blocks `k` whose header line `4·k` and sequence line
      `4·k + 1` exist and are non-empty. A block cut short at the end of the
      file counts for nothing. */
  lemma FastqRecordCount(lines: seq<string>)
    ensures |FastqOfLines(lines)| == |set k: nat | k < |lines| && BlockPresent(lines, k)|
  {
    var n := BlockCount(lines);
    PresentBlocksCount(lines, n);
    forall k: nat ensures k in PresentBelow(lines, n) <==> k < |lines| && BlockPresent(lines, k) {
      PresentBelowSpec(lines, n, k);
    }
    assert PresentBelow(lines, n) == set k: nat | k < |lines| && BlockPresent(lines, k);
  }

  /** When every block is present, the loop keeps all of them. */
  lemma {:induction false} AllBlocksPresent(lines: seq<string>, n: nat)
    requires forall k :: 0 <= k < n ==> BlockPresent(lines, k)
    ensures |PresentBlocks(lines, n)| == n
    ensures forall k :: 0 <= k < n ==> PresentBlocks(lines, n)[k] == k
  {
    if n > 0 {
      AllBlocksPresent(lines, n - 1);
      assert BlockPresent(lines, n - 1);
    }
  }

  /** A well-formed FASTQ file of `n` complete four-line blocks gives `n`
      records, record `k` from lines `4·k` and `4·k + 1`. */
  lemma FastqAllBlocksPresent(lines: seq<string>)
    requires forall k :: 0 <= k < BlockCount(lines) ==> BlockPresent(lines, k)
    ensures |FastqOfLines(lines)| == BlockCount(lines)
    ensures forall k :: 0 <= k < BlockCount(lines) ==>
      FastqOfLines(lines)[k] == FastqRecord(lines[4 * k], lines[4 * k + 1])
  {
    var n := BlockCount(lines);
    AllBlocksPresent(lines, n);
    var ks := PresentBlocks(lines, n);
    forall k | 0 <= k < n ensures FastqOfLines(lines)[k] == FastqRecord(lines[4 * k], lines[4 * k + 1]) {
      assert ks[k] == k;
    }
  }

  /** Which blocks are present depends only on the header and sequence lines. */
  lemma {:induction false} PresentBlocksIgnoreOtherLines(lines: seq<string>, other: seq<string>, n: nat)
    requires |lines| == |other|
    requires forall i :: 0 <= i < |lines| && i % 4 < 2 ==> lines[i] == other[i]
    ensures PresentBlocks(lines, n) == PresentBlocks(other, n)
  {
    if n > 0 {
      PresentBlocksIgnoreOtherLines(lines, other, n - 1);
      var i := 4 * (n - 1);
      assert i % 4 == 0 && (i + 1) % 4 == 1;
      if i + 1 < |lines| {
        assert lines[i] == other[i] && lines[i + 1] == other[i + 1];
      }
    }
  }

  /** The separator and quality lines (`i + 2`, `i + 3`) never influence the
      output: two files that agree on every header and sequence line parse
      alike. */
  lemma FastqIgnoresSeparatorAndQuality(lines: seq<string>, other: seq<string>)
    requires |lines| == |other|
    requires forall i :: 0 <= i < |lines| && i % 4 < 2 ==> lines[i] == other[i]
    ensures FastqOfLines(lines) == FastqOfLines(other)
  {
    var n := BlockCount(lines);
    assert n == BlockCount(other);
    PresentBlocksIgnoreOtherLines(lines, other, n);
    BlockRecordsAgree(lines, other, PresentBlocks(lines, n));
  }

  /** Files that agree on every header and sequence line give the same
      records for the same present blocks. */
  lemma BlockRecordsAgree(lines: seq<string>, other: seq<string>, ks: seq<nat>)
    requires |lines| == |other|
    requires forall i :: 0 <= i < |lines| && i % 4 < 2 ==> lines[i] == other[i]
    requires forall j :: 0 <= j < |ks| ==> BlockPresent(lines, ks[j]) && BlockPresent(other, ks[j])
    ensures BlockRecords(lines, ks) == BlockRecords(other, ks)
  {
    forall j | 0 <= j < |ks| ensures BlockRecord(lines, ks[j]) == BlockRecord(other, ks[j]) {
      BlockLinesAgree(lines, other, ks[j]);
    }
  }

  /** Files that agree on every header and sequence line agree on both lines
      of each block. */
  lemma BlockLinesAgree(lines: seq<string>, other: seq<string>, k: nat)
    requires |lines| == |other| && 4 * k + 1 < |lines|
    requires forall i :: 0 <= i < |lines| && i % 4 < 2 ==> lines[i] == other[i]
    ensures lines[4 * k] == other[4 * k] && lines[4 * k + 1] == other[4 * k + 1]
  {
    var i := 4 * k;
    assert i % 4 == 0 && (i + 1) % 4 == 1;
  }

  /** The first `n` blocks read nothing at or beyond line `m >= 4·n`. */
  lemma {:induction false} PresentBlocksPrefix(lines: seq<string>, m: nat, n: nat)
    requires 4 * n <= m <= |lines|
    ensures PresentBlocks(lines[..m], n) == PresentBlocks(lines, n)
  {
    if n > 0 {
      PresentBlocksPrefix(lines, m, n - 1);
      var i := 4 * (n - 1);
      assert lines[..m][i] == lines[i] && lines[..m][i + 1] == lines[i + 1];
    }
  }

  /** A last block whose header or sequence line is missing or empty is
      skipped: the file parses as if it ended before that block. */
  lemma FastqSkipsIncompleteLastBlock(lines: seq<string>, n: nat)
    requires 4 * n < |lines| <= 4 * n + 4
    requires !BlockPresent(lines, n)
    ensures FastqOfLines(lines) == FastqOfLines(lines[..4 * n])
  {
    var prefix := lines[..4 * n];
    assert BlockCount(lines) == n + 1;
    assert BlockCount(prefix) == n;
    PresentBlocksPrefix(lines, 4 * n, n);
    var ks := PresentBlocks(lines, n);
    assert PresentBlocks(lines, n + 1) == ks;
    forall j | 0 <= j < |ks|
      ensures BlockRecord(lines, ks[j]) == BlockRecord(prefix, ks[j])
    {
      var i := 4 * ks[j];
      assert prefix[i] == lines[i] && prefix[i + 1] == lines[i + 1];
    }
  }

  // -------------------------------------------------- plain-line lemmas

  /** Plain records carry distinct synthesized headers. */
  lemma PlainHeadersDistinct(content: string, j: nat, k: nat)
    requires j < k < |PlainRecords(content)|
    ensures PlainRecords(content)[j].header != PlainRecords(content)[k].header
  {
    var p := "Sequence_";
    var a, b := NatToString(j + 1), NatToString(k + 1);
    if p + a == p + b {
      assert (p + a)[|p|..] == a && (p + b)[|p|..] == b;
      NatToStringInjective(j + 1, k + 1);
    }
  }

  /** Every plain record's sequence is its line trimmed: non-empty, with no
      whitespace at either end and no line break. */
  lemma PlainRecordsWellFormed(content: string, k: nat)
    requires k < |PlainRecords(content)|
    ensures var r := PlainRecords(content)[k];
      r.sequence != [] && IsTrimmed(r.sequence) && '\n' !in r.sequence && r.description == None
  {
    var pieces := Split(content, '\n');
    var line := PlainLinesOf(content)[k];
    NonBlankSpec(pieces);
    assert line in pieces;
    TrimEmpty(line);
    TrimTrims(line);
    SplitSpec(content, '\n');
    if '\n' in Trim(line) {
      TrimChars(line, '\n');
    }
  }

  // ------------------------------------------------------ dispatch lemmas

  /** Content that starts with whitespace goes to the plain-line branch even
      when a `'>'` or `'@'` follows it. */
  lemma LeadingWhitespaceIsPlain(content: string)
    requires |content| > 0 && IsWhitespace(content[0])
    ensures Parse(content) == PlainRecords(content)
  {
  }

  /** Empty or whitespace-only content yields no records. */
  lemma ParseBlank(content: string)
    requires IsBlank(content)
    ensures Parse(content) == []
  {
    var pieces := Split(content, '\n');
    SplitSpec(content, '\n');
    forall k | 0 <= k < |pieces| ensures IsBlank(pieces[k]) {
      forall i | 0 <= i < |pieces[k]| ensures IsWhitespace(pieces[k][i]) {
        JoinContains(pieces, '\n', k, pieces[k][i]);
      }
    }
    NonBlankAllDropped(pieces);
  }

  // ------------------------------------------------------ worked examples

  /** Trimming a single space from each end of a trimmed, non-empty text. */
  lemma TrimPadded(m: string)
    requires m != [] && IsTrimmed(m)
    ensures Trim([' '] + m + [' ']) == m
  {
    var s := [' '] + m + [' '];
    assert SkipWhitespace(s, 1) == 1;
    assert SkipWhitespaceBack(s, |s| - 1) == |s| - 1;
    assert s[1..|s| - 1] == m;
  }

  /** A one-block FASTQ text: `@`, a header line, and a non-empty sequence
      line. */
  lemma FastqOneBlock(h: string, q: string)
    requires '\n' !in h && '\n' !in q && q != []
    ensures Parse(['@'] + h + ['\n'] + q) == [SequenceRecord(Trim(h), Trim(q), None)]
  {
    var lines := [['@'] + h, q];
    assert Join(lines, '\n') == ['@'] + h + ['\n'] + q;
    SplitJoin(lines, '\n');
    assert PresentBlocks(lines, 1) == [0];
    assert lines[0][1..] == h;
  }

  /** A one-line text that is not blank and does not start with `>` or `@`. */
  lemma PlainOneLine(line: string)
    requires '\n' !in line && !IsBlank(line) && DetectFormat(line) == PlainLines
    ensures Parse(line) == [SequenceRecord("Sequence_1", Trim(line), None)]
  {
    SplitJoin([line], '\n');
    TrimEmpty(line);
    assert PlainLinesOf(line) == [line];
    assert "Sequence_" + NatToString(1) == "Sequence_1";
  }

  /** A FASTQ header line holding only `@` gives the empty header. */
  lemma FastqEmptyHeader()
    ensures Parse("@\nA") == [SequenceRecord("", "A", None)]
  {
    FastqOneBlock("", "A");
    assert ['@'] + "" + ['\n'] + "A" == "@\nA";
    TrimTrimmed("A");
  }

  /** A FASTQ sequence is only trimmed: its interior whitespace stays. */
  lemma FastqKeepsInnerWhitespace()
    ensures Parse("@r\n AC GT ") == [SequenceRecord("r", "AC GT", None)]
  {
    var q := [' '] + "AC GT" + [' '];
    assert q == " AC GT ";
    FastqOneBlock("r", q);
    assert ['@'] + "r" + ['\n'] + q == "@r\n AC GT ";
    TrimTrimmed("r");
    TrimPadded("AC GT");
  }

  /** A one-fragment FASTA text: `>` and a non-blank fragment without `>`. */
  lemma FastaOneFragment(e: string)
    requires '>' !in e && !IsBlank(e)
    ensures Parse(['>'] + e) == [FastaRecord(e)]
  {
    var parts := ["", e];
    assert Join(parts, '>') == ['>'] + e;
    SplitJoin(parts, '>');
    assert parts == [""] + [e];
    NonBlankAppend([""], [e]);
    NonBlankAllDropped([""]);
    NonBlankAllKept([e]);
  }

  /** Stripping removes a single space between two whitespace-free parts. */
  lemma StripOneSpace(a: string, b: string)
    requires NoWhitespace(a) && NoWhitespace(b)
    ensures StripWhitespace(a + [' '] + b) == a + b
  {
    var sb := [' '] + b;
    assert a + [' '] + b == a + sb;
    assert sb[0] == ' ' && sb[1..] == b;
    assert StripWhitespace(sb) == StripWhitespace(b);
    StripWhitespaceAppend(a, sb);
    StripWhitespaceNone(a);
    StripWhitespaceNone(b);
  }

  /** A FASTA fragment whose first line is blank and whose second line is
      two whitespace-free runs around a space. */
  lemma FastaHeaderless(a: string, b: string)
    requires a != [] && NoWhitespace(a) && NoWhitespace(b) && '>' !in a && '>' !in b
    ensures Parse(['>', '\n'] + a + [' '] + b) == [SequenceRecord("", a + b, None)]
  {
    var body := a + [' '] + b;
    var e := "" + "\n" + body;
    assert ['>', '\n'] + a + [' '] + b == ['>'] + e;
    assert e[1] == a[0] && !IsWhitespace(e[1]);
    FastaOneFragment(e);
    FastaRecordOfLines("", body);
    TrimTrimmed("");
    StripOneSpace(a, b);
  }

  /** A FASTA fragment with a blank first line gives the empty header, and
      its sequence loses every whitespace character. */
  lemma FastaEmptyHeaderStripped()
    ensures Parse(">\nAC GT") == [SequenceRecord("", "ACGT", None)]
  {
    FastaHeaderless("AC", "GT");
    assert ['>', '\n'] + "AC" + [' '] + "GT" == ">\nAC GT";
    assert "AC" + "GT" == "ACGT";
  }

  /** A plain line is only trimmed: its interior whitespace stays. */
  lemma PlainKeepsInnerWhitespace()
    ensures Parse(" AC GT ") == [SequenceRecord("Sequence_1", "AC GT", None)]
  {
    var line := [' '] + "AC GT" + [' '];
    assert line == " AC GT " && !IsWhitespace(line[1]);
    PlainOneLine(line);
    TrimPadded("AC GT");
  }
}
