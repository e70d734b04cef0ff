// The layout of an EPF feed file and the pure rules the parsers apply to
// it. A feed file is a header (the column names on a `#` line, then
// `#primaryKey:`, `#dbTypes:`, `#exportMode:` lines), the records, each
// made of one or more text lines and ended by the record delimiter
// (0x02 followed by a newline in the shipped configuration), with fields
// separated by the field delimiter (0x01), and a trailer line
// `#recordsWritten:<count>`.
//
// Two dialects are modelled side by side: `V3`, the live parser
// (parse/V3Parser.java), and `Legacy`, the older epf/Parser.java, which
// differs in how it reads lines, skips comments, splits rows and
// normalises records.

module FeedFormat {
  import opened Text

  const CommentChar: string := "#"
  const PrimaryKeyTag: string := "primaryKey:"
  const DataTypesTag: string := "dbTypes:"
  const ExportModeTag: string := "exportMode:"
  const RecordCountTag: string := "recordsWritten:"
  const PrimaryKeyStart: string := CommentChar + PrimaryKeyTag
  const DataTypesStart: string := CommentChar + DataTypesTag
  const ExportModeStart: string := CommentChar + ExportModeTag
  const RecordCountMarker: string := CommentChar + RecordCountTag

  /** The delimiters of the shipped configuration: 0x02 + newline and 0x01. */
  const DefaultRecordDelim: string := [2 as char, '\n']
  const DefaultFieldDelim: string := [1 as char]

  /** The trailer is read from the last 40 bytes of the file. */
  const TrailerLength: nat := 40
  /** How many rows after the column names `init` reads looking for the header tags. */
  const HeaderRowLimit: nat := 6
  /** Date values are cut to their first 19 characters. */
  const DateWidth: nat := 19
  const NullText: string := "NULL"

  const DefaultTypeMap: map<string, string> := map["CLOB" := "LONGTEXT"]
  const NumberTypes: seq<string> := ["INTEGER", "INT", "BIGINT", "TINYINT"]
  const DateTypes: seq<string> := ["DATE", "DATETIME", "TIME", "TIMESTAMP"]

  datatype Dialect = V3 | Legacy

  /** The exceptions the parsers can end with. */
  datatype Fault =
    | NegativeSeek                               // IOException: the file is shorter than the trailer
    | NumberFormat(text: string)                 // Integer.parseInt rejected the record count
    | SubstringNotFound(prefix: string, row: string)
    | IndexOutOfBounds                           // a list, array or substring index past the end
    | NullPointer                                // a null row handed to `splitRow`

  // ---------------------------------------------------------------------
  // Reading lines

  /** The index of the first newline at or after `pos`, or the end of the text. */
  function LineEnd(c: string, pos: nat): (k: nat)
    requires pos <= |c|
    ensures pos <= k <= |c|
    ensures forall i :: pos <= i < k ==> c[i] != '\n'
    ensures k < |c| ==> c[k] == '\n'
    decreases |c| - pos
  {
    if pos == |c| || c[pos] == '\n' then pos else LineEnd(c, pos + 1)
  }

  datatype Line = Line(text: string, next: nat)

  /**
   * `RandomAccessFile.readLine` at file position `pos`: the text up to the
   * next newline (which is consumed but not returned), or `None` at the end
   * of the file.
   */
  function ReadLine(c: string, pos: nat): (r: Option<Line>)
    requires pos <= |c|
    ensures r.None? <==> pos == |c|
    ensures r.Some? ==> pos < r.value.next <= |c| && '\n' !in r.value.text
  {
    if pos == |c| then None
    else
      var k := LineEnd(c, pos);
      Some(Line(c[pos..k], if k < |c| then k + 1 else k))
  }

  /**
   * The line read is the text from `pos` up to the next newline, and the
   * position after it is past that newline, or the end of the file when
   * the last line has none.
   */
  lemma ReadLineSlice(c: string, pos: nat)
    requires pos < |c|
    ensures var l := ReadLine(c, pos).value;
      && pos + |l.text| <= |c| && c[pos..pos + |l.text|] == l.text
      && ((l.next == pos + |l.text| + 1 && c[pos + |l.text|] == '\n')
          || l.next == pos + |l.text| == |c|)
  {
  }

  /**
   * The lines successive `readLine` calls return from file position `pos`
   * up to the end of the file. Apart from the trailer, which is read at a
   * byte offset, the parsers only read a feed file line by line from its
   * start, so a parser position is an index into `Lines(c)`.
   */
  function LinesFrom(c: string, pos: nat): (ls: seq<string>)
    requires pos <= |c|
    ensures |ls| == 0 <==> pos == |c|
    ensures forall k :: 0 <= k < |ls| ==> '\n' !in ls[k]
    decreases |c| - pos
  {
    match ReadLine(c, pos)
    case None => []
    case Some(l) =>
      var rest := LinesFrom(c, l.next);
      assert forall k :: 1 <= k < |[l.text] + rest| ==> ([l.text] + rest)[k] == rest[k - 1];
      [l.text] + rest
  }

  function Lines(c: string): (ls: seq<string>)
    ensures forall k :: 0 <= k < |ls| ==> '\n' !in ls[k]
  {
    LinesFrom(c, 0)
  }

  /** V3 puts back the newline `readLine` drops; Legacy does not. */
  function LineOf(d: Dialect, raw: string): string
  {
    if d == V3 then raw + "\n" else raw
  }

  function Concat(lines: seq<string>): string
  {
    if |lines| == 0 then "" else lines[0] + Concat(lines[1..])
  }

  /** Appending one more line to the buffer appends its text to the concatenation. */
  lemma {:induction false} ConcatSnoc(lines: seq<string>, line: string)
    ensures Concat(lines + [line]) == Concat(lines) + line
  {
    if |lines| == 0 {
      assert [line][1..] == [];
    } else {
      assert (lines + [line])[1..] == lines[1..] + [line];
      ConcatSnoc(lines[1..], line);
    }
  }

  /** Every line with its newline put back. */
  function WithNewlines(ls: seq<string>): (r: seq<string>)
    ensures |r| == |ls|
  {
    seq(|ls|, k requires 0 <= k < |ls| => LineOf(V3, ls[k]))
  }

  /**
   * The lines of a file that ends with a newline, each with its newline put
   * back as V3 does, make up the file again: nothing is lost or added by
   * reading it line by line.
   */
  lemma {:induction false} LinesRejoin(c: string, pos: nat)
    requires pos <= |c| && (pos == |c| || c[|c| - 1] == '\n')
    ensures Concat(WithNewlines(LinesFrom(c, pos))) == c[pos..]
    decreases |c| - pos
  {
    if pos < |c| {
      FullLine(c, pos);
      var l := ReadLine(c, pos).value;
      var rest := LinesFrom(c, l.next);
      assert LinesFrom(c, pos) == [l.text] + rest;
      LinesRejoin(c, l.next);
      NewlinesCons(l.text, rest);
      SliceAt(c, pos, pos + |l.text|);
    }
  }

  /** In a file that ends with a newline every line read ends with one. */
  lemma FullLine(c: string, pos: nat)
    requires pos < |c| && c[|c| - 1] == '\n'
    ensures var l := ReadLine(c, pos).value;
      && l.next == pos + |l.text| + 1 && pos + |l.text| < |c|
      && c[pos..pos + |l.text|] == l.text && c[pos + |l.text|] == '\n'
  {
    ReadLineSlice(c, pos);
  }

  lemma SliceAt(c: string, pos: nat, k: nat)
    requires pos <= k < |c|
    ensures c[pos..] == c[pos..k] + [c[k]] + c[k + 1..]
  {
  }

  lemma NewlinesCons(t: string, rest: seq<string>)
    ensures Concat(WithNewlines([t] + rest)) == t + "\n" + Concat(WithNewlines(rest))
  {
    var w := WithNewlines([t] + rest);
    assert w[0] == t + "\n";
    assert w[1..] == WithNewlines(rest);
  }

  /**
   * The test that skips a leading line of a row when comments are ignored.
   * V3 skips lines that start with `#`; Legacy has the test inverted and
   * skips lines that do NOT start with `#`.
   */
  predicate SkippedAsComment(d: Dialect, ln: string)
  {
    if d == V3 then StartsWith(ln, CommentChar) else !StartsWith(ln, CommentChar)
  }

  predicate StartsWith(s: string, prefix: string)
  {
    prefix <= s
  }

  // ---------------------------------------------------------------------
  // Rows: `nextRowString` and `advanceToNextRecord`

  /** The lines that make up one row, and the index of the first line after them. */
  datatype Scan = Scan(lines: seq<string>, next: nat)

  /**
   * `nextRowString` from line `i`: leading lines that count as comments
   * are skipped while no line has been kept (only when `ignoreComments`),
   * every other line is kept, and the row ends with the first kept line
   * that contains the record delimiter, or at the end of the file.
   */
  function ScanRow(d: Dialect, ls: seq<string>, i: nat, rd: string, ignoreComments: bool, first: bool): (s: Scan)
    requires i <= |ls| && |rd| > 0
    ensures i <= s.next <= |ls|
    ensures s.lines == [] ==> s.next == |ls|
    ensures s.lines != [] ==> i < s.next
    ensures !(first && ignoreComments) && i < |ls| ==> s.lines != []
    decreases |ls| - i
  {
    if i == |ls| then Scan([], i)
    else
      var ln := LineOf(d, ls[i]);
      if first && ignoreComments && SkippedAsComment(d, ln) then
        ScanRow(d, ls, i + 1, rd, ignoreComments, true)
      else if Contains(ln, rd) then
        Scan([ln], i + 1)
      else
        var rest := ScanRow(d, ls, i + 1, rd, ignoreComments, false);
        Scan([ln] + rest.lines, rest.next)
  }

  /** One line of `nextRowString`: skipped as a comment, kept as the row's last line, or kept before the rest. */
  lemma ScanStep(d: Dialect, ls: seq<string>, i: nat, rd: string, ignoreComments: bool, first: bool)
    requires i < |ls| && |rd| > 0
    ensures var ln := LineOf(d, ls[i]);
      var s := ScanRow(d, ls, i, rd, ignoreComments, first);
      var rest := ScanRow(d, ls, i + 1, rd, ignoreComments, false);
      && (first && ignoreComments && SkippedAsComment(d, ln) ==> s == ScanRow(d, ls, i + 1, rd, ignoreComments, true))
      && (!(first && ignoreComments && SkippedAsComment(d, ln)) && Contains(ln, rd) ==> s == Scan([ln], i + 1))
      && (!(first && ignoreComments && SkippedAsComment(d, ln)) && !Contains(ln, rd) ==> s == Scan([ln] + rest.lines, rest.next))
  {
  }

  /** A row that stops before the end of the file ends with a line holding the record delimiter. */
  lemma {:induction false} RowEndsWithDelimiter(d: Dialect, ls: seq<string>, i: nat, rd: string, ignoreComments: bool, first: bool)
    requires i <= |ls| && |rd| > 0
    ensures var s := ScanRow(d, ls, i, rd, ignoreComments, first);
      s.next < |ls| ==> s.lines != [] && Contains(Last(s.lines), rd)
    decreases |ls| - i
  {
    if i < |ls| {
      var ln := LineOf(d, ls[i]);
      if first && ignoreComments && SkippedAsComment(d, ln) {
        RowEndsWithDelimiter(d, ls, i + 1, rd, ignoreComments, true);
      } else if !Contains(ln, rd) {
        RowEndsWithDelimiter(d, ls, i + 1, rd, ignoreComments, false);
        var rest := ScanRow(d, ls, i + 1, rd, ignoreComments, false);
        if rest.lines != [] {
          assert Last([ln] + rest.lines) == Last(rest.lines);
        }
      }
    }
  }

  predicate OnlyLastDelimited(lines: seq<string>, rd: string)
  {
    forall k :: 0 <= k < |lines| - 1 ==> !Contains(lines[k], rd)
  }

  /** Only the last line of a row can hold the record delimiter. */
  lemma {:induction false} DelimiterOnlyAtEnd(d: Dialect, ls: seq<string>, i: nat, rd: string, ignoreComments: bool, first: bool)
    requires i <= |ls| && |rd| > 0
    ensures OnlyLastDelimited(ScanRow(d, ls, i, rd, ignoreComments, first).lines, rd)
    decreases |ls| - i
  {
    if i < |ls| {
      var ln := LineOf(d, ls[i]);
      var s := ScanRow(d, ls, i, rd, ignoreComments, first);
      if first && ignoreComments && SkippedAsComment(d, ln) {
        assert s == ScanRow(d, ls, i + 1, rd, ignoreComments, true);
        DelimiterOnlyAtEnd(d, ls, i + 1, rd, ignoreComments, true);
      } else if !Contains(ln, rd) {
        var rest := ScanRow(d, ls, i + 1, rd, ignoreComments, false);
        DelimiterOnlyAtEnd(d, ls, i + 1, rd, ignoreComments, false);
        assert s.lines == [ln] + rest.lines;
        forall k | 0 <= k < |s.lines| - 1
          ensures !Contains(s.lines[k], rd)
        {
          if k > 0 {
            assert s.lines[k] == rest.lines[k - 1];
          } else {
            assert s.lines[0] == ln;
          }
        }
      }
    }
  }

  /** The row string `nextRowString` returns: null (`None`) when no line was kept. */
  function RowText(s: Scan): Option<string>
  {
    if s.lines == [] then None else Some(Concat(s.lines))
  }

  datatype Advance = Advance(next: nat, counted: bool)

  /**
   * `advanceToNextRecord` from line `i`: every line that starts with `#` is
   * skipped, the record ends with the first other line that contains the
   * record delimiter and is then counted; reaching the end of the file
   * counts nothing.
   */
  function ScanAdvance(d: Dialect, ls: seq<string>, i: nat, rd: string): (a: Advance)
    requires i <= |ls| && |rd| > 0
    ensures i <= a.next <= |ls|
    ensures !a.counted ==> a.next == |ls|
    ensures a.counted ==> i < a.next
    decreases |ls| - i
  {
    if i == |ls| then Advance(i, false)
    else
      var ln := LineOf(d, ls[i]);
      if StartsWith(ln, CommentChar) then ScanAdvance(d, ls, i + 1, rd)
      else if Contains(ln, rd) then Advance(i + 1, true)
      else ScanAdvance(d, ls, i + 1, rd)
  }

  datatype Seek = Seek(pos: nat, count: nat)

  /** `n` successive calls of `advanceToNextRecord` from line `i`. */
  function AdvanceTimes(d: Dialect, ls: seq<string>, i: nat, rd: string, n: nat): (s: Seek)
    requires i <= |ls| && |rd| > 0
    ensures i <= s.pos <= |ls| && s.count <= n
  {
    if n == 0 then Seek(i, 0)
    else
      var before := AdvanceTimes(d, ls, i, rd, n - 1);
      var a := ScanAdvance(d, ls, before.pos, rd);
      Seek(a.next, before.count + (if a.counted then 1 else 0))
  }

  /** The line index after `n` successive data rows read by `nextRowString(true)`. */
  function RowsTimes(d: Dialect, ls: seq<string>, i: nat, rd: string, n: nat): (p: nat)
    requires i <= |ls| && |rd| > 0
    ensures i <= p <= |ls|
  {
    if n == 0 then i
    else ScanRow(d, ls, RowsTimes(d, ls, i, rd, n - 1), rd, true, true).next
  }

  /** No line starts with `#`. */
  predicate NoCommentLines(lines: seq<string>)
  {
    forall k :: 0 <= k < |lines| ==> !StartsWith(lines[k], CommentChar)
  }

  /** No line of a row after its first one starts with `#`. */
  predicate NoCommentContinuation(lines: seq<string>)
  {
    |lines| == 0 || NoCommentLines(lines[1..])
  }

  /** The row ends with its record delimiter rather than with the end of the file. */
  predicate Terminated(s: Scan, rd: string)
  {
    s.lines != [] && Contains(Last(s.lines), rd)
  }

  /** Each of the first `n` rows from line `i` has no continuation line starting with `#`. */
  predicate CleanRows(d: Dialect, ls: seq<string>, i: nat, rd: string, n: nat)
    requires i <= |ls| && |rd| > 0
  {
    n == 0 ||
      (CleanRows(d, ls, i, rd, n - 1)
       && NoCommentContinuation(ScanRow(d, ls, RowsTimes(d, ls, i, rd, n - 1), rd, true, true).lines))
  }

  /** Each of the first `n` rows from line `i` ends with the record delimiter. */
  predicate TerminatedRows(d: Dialect, ls: seq<string>, i: nat, rd: string, n: nat)
    requires i <= |ls| && |rd| > 0
  {
    n == 0 ||
      (TerminatedRows(d, ls, i, rd, n - 1)
       && Terminated(ScanRow(d, ls, RowsTimes(d, ls, i, rd, n - 1), rd, true, true), rd))
  }

  /**
   * A continuation of a row (after its first kept line), read by
   * `advanceToNextRecord`, ends where the row does when none of its lines
   * starts with `#`.
   */
  lemma {:induction false} AdvanceMatchesContinuation(ls: seq<string>, i: nat, rd: string)
    requires i <= |ls| && |rd| > 0
    requires NoCommentLines(ScanRow(V3, ls, i, rd, true, false).lines)
    ensures var s := ScanRow(V3, ls, i, rd, true, false);
      ScanAdvance(V3, ls, i, rd) == Advance(s.next, Terminated(s, rd))
    decreases |ls| - i
  {
    if i < |ls| {
      var ln := LineOf(V3, ls[i]);
      var s := ScanRow(V3, ls, i, rd, true, false);
      if !Contains(ln, rd) {
        var rest := ScanRow(V3, ls, i + 1, rd, true, false);
        assert s.lines == [ln] + rest.lines;
        ContinuationStep(ln, rest.lines);
        AdvanceMatchesContinuation(ls, i + 1, rd);
      } else {
        assert s.lines == [ln];
        assert s.lines[0] == ln;
      }
    }
  }

  /** Prepending a kept line to the rest of a row. */
  lemma ContinuationStep(ln: string, rest: seq<string>)
    requires NoCommentLines([ln] + rest)
    ensures !StartsWith(ln, CommentChar) && NoCommentLines(rest)
    ensures rest != [] ==> Last([ln] + rest) == Last(rest)
    ensures rest == [] ==> Last([ln] + rest) == ln
  {
    var lines := [ln] + rest;
    assert lines[0] == ln;
    forall k | 0 <= k < |rest|
      ensures !StartsWith(rest[k], CommentChar)
    {
      assert rest[k] == lines[k + 1];
    }
  }

  /**
   * `advanceToNextRecord` and `nextRowString(true)` started at the same
   * line stop at the same line when the row has no continuation line
   * starting with `#`; the record is counted exactly when the row ends
   * with its delimiter.
   */
  lemma {:induction false} AdvanceMatchesRow(ls: seq<string>, i: nat, rd: string)
    requires i <= |ls| && |rd| > 0
    requires NoCommentContinuation(ScanRow(V3, ls, i, rd, true, true).lines)
    ensures var s := ScanRow(V3, ls, i, rd, true, true);
      ScanAdvance(V3, ls, i, rd) == Advance(s.next, Terminated(s, rd))
    decreases |ls| - i
  {
    if i < |ls| {
      var ln := LineOf(V3, ls[i]);
      if StartsWith(ln, CommentChar) {
        AdvanceMatchesRow(ls, i + 1, rd);
      } else if !Contains(ln, rd) {
        var s := ScanRow(V3, ls, i, rd, true, true);
        var rest := ScanRow(V3, ls, i + 1, rd, true, false);
        assert s.lines == [ln] + rest.lines;
        assert s.lines[1..] == rest.lines;
        AdvanceMatchesContinuation(ls, i + 1, rd);
        if rest.lines != [] {
          assert Last(s.lines) == Last(rest.lines);
        }
      }
    }
  }

  /**
   * `seekToRecord(n)` lands where `n` calls of `nextRecord` after
   * `seekToRecord(0)` leave the file, provided no continuation line of
   * those rows starts with `#`.
   */
  lemma {:induction false} SeekMatchesReplay(ls: seq<string>, rd: string, n: nat)
    requires |rd| > 0
    requires CleanRows(V3, ls, 0, rd, n)
    ensures AdvanceTimes(V3, ls, 0, rd, n).pos == RowsTimes(V3, ls, 0, rd, n)
  {
    if n > 0 {
      var p := RowsTimes(V3, ls, 0, rd, n - 1);
      assert CleanRows(V3, ls, 0, rd, n - 1) && NoCommentContinuation(ScanRow(V3, ls, p, rd, true, true).lines);
      SeekMatchesReplay(ls, rd, n - 1);
      AdvanceMatchesRow(ls, p, rd);
      ReplayStep(ls, rd, n);
    }
  }

  /** One more `advanceToNextRecord` and one more `nextRowString(true)`. */
  lemma ReplayStep(ls: seq<string>, rd: string, n: nat)
    requires |rd| > 0 && n > 0
    ensures AdvanceTimes(V3, ls, 0, rd, n).pos == ScanAdvance(V3, ls, AdvanceTimes(V3, ls, 0, rd, n - 1).pos, rd).next
    ensures RowsTimes(V3, ls, 0, rd, n) == ScanRow(V3, ls, RowsTimes(V3, ls, 0, rd, n - 1), rd, true, true).next
  {
  }

  /**
   * Under the same condition `seekToRecord(n)` counts exactly the rows that
   * end with the record delimiter, which is all `n` of them when every row
   * does.
   */
  lemma {:induction false} SeekCountsRecords(ls: seq<string>, rd: string, n: nat)
    requires |rd| > 0
    requires CleanRows(V3, ls, 0, rd, n) && TerminatedRows(V3, ls, 0, rd, n)
    ensures AdvanceTimes(V3, ls, 0, rd, n).count == n
  {
    if n > 0 {
      SeekCountsRecords(ls, rd, n - 1);
      SeekMatchesReplay(ls, rd, n - 1);
      var p := RowsTimes(V3, ls, 0, rd, n - 1);
      var before := AdvanceTimes(V3, ls, 0, rd, n - 1);
      AdvanceMatchesRow(ls, p, rd);
      var a := ScanAdvance(V3, ls, p, rd);
      assert a.counted;
      assert AdvanceTimes(V3, ls, 0, rd, n) == Seek(a.next, before.count + 1);
    }
  }

  /**
   * With a record delimiter that contains a newline, a Legacy row never
   * stops at a delimiter, because its lines have lost their newline: every
   * row read runs to the end of the file.
   */
  lemma {:induction false} LegacyRowRunsToEnd(ls: seq<string>, i: nat, rd: string, ignoreComments: bool, first: bool)
    requires i <= |ls| && |rd| > 0 && '\n' in rd
    requires forall k :: 0 <= k < |ls| ==> '\n' !in ls[k]
    ensures ScanRow(Legacy, ls, i, rd, ignoreComments, first).next == |ls|
    decreases |ls| - i
  {
    if i < |ls| {
      NoNewlineNoDelimiter(ls[i], rd);
      LegacyRowRunsToEnd(ls, i + 1, rd, ignoreComments, first);
      LegacyRowRunsToEnd(ls, i + 1, rd, ignoreComments, false);
    }
  }

  /** A text without a newline cannot contain a delimiter that has one. */
  lemma {:induction false} NoNewlineNoDelimiter(s: string, d: string)
    requires '\n' !in s && '\n' in d
    ensures !Contains(s, d)
    decreases |s|
  {
    if |s| > 0 {
      NoNewlineNoDelimiter(s[1..], d);
    }
  }

  // ---------------------------------------------------------------------
  // Splitting a row into fields: `splitRow`

  /**
   * `splitRow(row, prefix)`: the prefix, when given, must start the row;
   * V3 keeps the text between the prefix and its next repetition
   * (`split(prefix, -1)[1]`), Legacy the third piece of the default split
   * (`split(prefix)[2]`); both then cut at the record delimiter and split on
   * the field delimiter (V3 keeping empty trailing fields, Legacy dropping
   * them).
   */
  function SplitRow(d: Dialect, row: string, prefix: Option<string>, rd: string, fd: string): (r: Result<seq<string>, Fault>)
    requires |rd| > 0 && |fd| > 0 && (prefix.Some? ==> |prefix.value| > 0)
    ensures (r.Failure? && r.error.SubstringNotFound?) <==> (prefix.Some? && !StartsWith(row, prefix.value))
    ensures d == V3 ==> (r.Success? <==> (prefix.None? || StartsWith(row, prefix.value)))
    ensures d == V3 && r.Success? ==> |r.value| >= 1
  {
    if prefix.Some? && !StartsWith(row, prefix.value) then
      Failure(SubstringNotFound(prefix.value, row))
    else
      match d
      case V3 =>
        var body :=
          if prefix.None? then Success(row)
          else
            var pieces := Split(row, prefix.value);
            if |pieces| < 2 then Failure(IndexOutOfBounds) else Success(pieces[1]);
        if body.Failure? then Failure(body.error)
        else Success(Split(Split(body.value, rd)[0], fd))
      case Legacy =>
        var body :=
          if prefix.None? then Success(row)
          else
            var pieces := SplitDefault(row, prefix.value);
            if |pieces| < 3 then Failure(IndexOutOfBounds) else Success(pieces[2]);
        if body.Failure? then Failure(body.error)
        else
          var front := SplitDefault(body.value, rd);
          if |front| == 0 then Failure(IndexOutOfBounds) else Success(SplitDefault(front[0], fd))
  }

  /**
   * The prefix test `indexOf(prefix) != 0` of `splitRow` holds exactly
   * when the row does not start with the prefix; when it does, the split on
   * the prefix has an empty first piece.
   */
  lemma PrefixAtStart(row: string, p: string)
    requires |p| > 0
    ensures IndexOf(row, p) == 0 <==> StartsWith(row, p)
    ensures StartsWith(row, p) ==> Split(row, p) == [""] + Split(row[|p|..], p)
  {
    if StartsWith(row, p) {
      assert OccursAt(row, p, 0);
    }
  }

  /**
   * A V3 row splits into fields that, joined with the field delimiter,
   * give back the row up to its first record delimiter, and no field
   * contains the field delimiter.
   */
  lemma V3SplitRowRejoins(row: string, rd: string, fd: string)
    requires |rd| > 0 && |fd| > 0
    ensures var r := SplitRow(V3, row, None, rd, fd);
      r.Success? && Join(r.value, fd) == Split(row, rd)[0]
      && forall k :: 0 <= k < |r.value| ==> !Contains(r.value[k], fd)
  {
    SplitJoin(Split(row, rd)[0], fd);
    SplitPiecesFree(Split(row, rd)[0], fd);
  }

  /**
   * With a prefix, V3 splits the text after the prefix, up to the next
   * repetition of the prefix and then up to the first record delimiter.
   */
  lemma V3SplitRowAfterPrefix(row: string, p: string, rd: string, fd: string)
    requires |rd| > 0 && |fd| > 0 && |p| > 0 && StartsWith(row, p)
    ensures var r := SplitRow(V3, row, Some(p), rd, fd);
      r.Success? && Join(r.value, fd) == Split(Split(row[|p|..], p)[0], rd)[0]
  {
    PrefixAtStart(row, p);
    SplitJoin(Split(Split(row[|p|..], p)[0], rd)[0], fd);
  }

  /**
   * A Legacy header row carrying its prefix once (such as
   * `#primaryKey:id`) cannot be split: `split(prefix)[2]` needs a second
   * occurrence of the prefix followed by more text.
   */
  lemma LegacySplitRowNeedsRepeatedPrefix(p: string, rest: string, rd: string, fd: string)
    requires |rd| > 0 && |fd| > 0 && |p| > 0 && !Contains(rest, p)
    ensures SplitRow(Legacy, p + rest, Some(p), rd, fd) == Failure(IndexOutOfBounds)
  {
    var row := p + rest;
    assert StartsWith(row, p);
    PrefixAtStart(row, p);
    assert row[|p|..] == rest;
    SplitAbsent(rest, p);
    assert Split(row, p) == ["", rest];
  }

  // ---------------------------------------------------------------------
  // Normalising a record: the body of `nextRecord`

  /** Empty fields become the text `NULL`. */
  function NullFill(rec: seq<string>): (r: seq<string>)
    ensures |r| == |rec|
  {
    seq(|rec|, i requires 0 <= i < |rec| => if rec[i] == "" then NullText else rec[i])
  }

  /** After the null fill no field is empty, and the non-empty fields are unchanged. */
  lemma NullFillNoEmpty(rec: seq<string>)
    ensures forall i :: 0 <= i < |rec| ==> NullFill(rec)[i] != ""
    ensures forall i :: 0 <= i < |rec| && rec[i] != "" ==> NullFill(rec)[i] == rec[i]
    ensures forall i :: 0 <= i < |rec| && rec[i] == "" ==> NullFill(rec)[i] == NullText
  {
  }

  /** Exactly four ASCII digits: `^\d\d\d\d$`. */
  predicate IsYear(s: string)
  {
    |s| == 4 && AllDigits(s)
  }

  /** A date value trimmed, with every space turned into a dash. */
  function Dashed(v: string): (c: string)
    ensures ' ' !in c
  {
    ReplaceRemoves(Trim(v), ' ', "-");
    Replace(Trim(v), " ", "-")
  }

  /** A bare year padded out with a made-up month and day. */
  function PadYear(cut: string): string
  {
    if IsYear(cut) then cut + "-01-01" else cut
  }

  /**
   * The date massage of one field: trimmed, spaces turned into dashes, cut
   * to 19 characters, and a bare year padded to `YYYY-01-01`. V3 cuts only
   * a longer value; Legacy uses `substring(0, 19)`, which throws on a
   * shorter one.
   */
  function DateFix(d: Dialect, v: string): (r: Result<string, Fault>)
    ensures d == V3 ==> r.Success? && ' ' !in r.value && |r.value| <= DateWidth
    ensures d == V3 && |Dashed(v)| <= DateWidth && !IsYear(Dashed(v)) ==> r.value == Dashed(v)
    ensures d == Legacy ==> (r.Success? <==> |Dashed(v)| >= DateWidth)
    ensures d == Legacy && r.Success? ==> r.value == Dashed(v)[..DateWidth]
  {
    var c := Dashed(v);
    match d
    case V3 =>
      var cut := if |c| > DateWidth then c[..DateWidth] else c;
      assert ' ' !in cut by {
        assert forall i :: 0 <= i < |cut| ==> cut[i] == c[i];
      }
      Success(PadYear(cut))
    case Legacy =>
      if |c| < DateWidth then Failure(IndexOutOfBounds) else Success(PadYear(c[..DateWidth]))
  }

  /** No character below U+0020 (the only ones `trim` removes besides the space). */
  predicate NoControl(s: string)
  {
    forall i :: 0 <= i < |s| ==> s[i] >= ' '
  }

  /** A text that needs no trimming and has no space is its own dashed form. */
  lemma DashedNoop(s: string)
    requires forall i :: 0 <= i < |s| ==> s[i] > ' '
    ensures Dashed(s) == s
  {
    TrimNoop(s);
    ReplaceAbsent(s, ' ', "-");
  }

  /**
   * The V3 date massage is idempotent on values without control
   * characters, including the padded `YYYY-01-01` form.
   */
  lemma DateFixIdempotent(v: string)
    requires NoControl(DateFix(V3, v).value)
    ensures DateFix(V3, DateFix(V3, v).value) == DateFix(V3, v)
  {
    var out := DateFix(V3, v).value;
    assert forall i :: 0 <= i < |out| ==> out[i] > ' ';
    DashedNoop(out);
    var c := Dashed(v);
    var cut := if |c| > DateWidth then c[..DateWidth] else c;
    assert out == PadYear(cut);
    assert !IsYear(out);
  }

  /** The Legacy massage never pads a year: the value is always 19 characters long. */
  lemma LegacyDateNeverPadsYear(v: string)
    requires DateFix(Legacy, v).Success?
    ensures |DateFix(Legacy, v).value| == DateWidth
  {
  }

  /** Every date column index is inside a record of length `n`. */
  predicate ColumnsWithin(cols: seq<nat>, n: nat)
  {
    forall k :: 0 <= k < |cols| ==> cols[k] < n
  }

  /**
   * The date massage applied to each date column in turn; an index past
   * the end of the record throws `IndexOutOfBounds`.
   */
  function ApplyDates(d: Dialect, rec: seq<string>, cols: seq<nat>): (r: Result<seq<string>, Fault>)
    ensures r.Success? ==> |r.value| == |rec|
    ensures r.Success? ==> forall i :: 0 <= i < |rec| && i !in cols ==> r.value[i] == rec[i]
    ensures !ColumnsWithin(cols, |rec|) ==> r.Failure?
    ensures d == V3 && ColumnsWithin(cols, |rec|) ==> r.Success?
    decreases |cols|
  {
    if |cols| == 0 then Success(rec)
    else if cols[0] >= |rec| then Failure(IndexOutOfBounds)
    else
      var fixed := DateFix(d, rec[cols[0]]);
      if fixed.Failure? then Failure(fixed.error)
      else
        ColumnsTail(cols, |rec|);
        ApplyDates(d, rec[cols[0] := fixed.value], cols[1..])
  }

  lemma ColumnsTail(cols: seq<nat>, n: nat)
    requires |cols| > 0
    ensures ColumnsWithin(cols, n) <==> cols[0] < n && ColumnsWithin(cols[1..], n)
    ensures forall i :: i !in cols ==> i != cols[0] && i !in cols[1..]
  {
    if cols[0] < n && ColumnsWithin(cols[1..], n) {
      forall k | 0 <= k < |cols|
        ensures cols[k] < n
      {
        if k > 0 {
          assert cols[k] == cols[1..][k - 1];
        }
      }
    }
  }

  /**
   * `nextRecord`'s treatment of the fields of a row: V3 cuts the record to
   * the number of columns when it is longer, Legacy cuts it with
   * `subList(0, width)`, which throws when the record is shorter; then
   * empty fields become `NULL` and the date columns are massaged.
   */
  function Normalize(d: Dialect, fields: seq<string>, width: nat, dateCols: seq<nat>): (r: Result<seq<string>, Fault>)
    ensures d == V3 && r.Success? ==> |r.value| == if |fields| > width then width else |fields|
    ensures d == Legacy && r.Success? ==> |r.value| == width
    ensures d == Legacy && |fields| < width ==> r == Failure(IndexOutOfBounds)
  {
    match d
    case V3 =>
      var rec := if |fields| > width then fields[..width] else fields;
      ApplyDates(V3, NullFill(rec), dateCols)
    case Legacy =>
      if |fields| < width then Failure(IndexOutOfBounds)
      else ApplyDates(Legacy, NullFill(fields[..width]), dateCols)
  }

  /** The record `nextRecord` builds from a row string. */
  function RecordOf(d: Dialect, row: string, rd: string, fd: string, width: nat, dateCols: seq<nat>): Result<seq<string>, Fault>
    requires |rd| > 0 && |fd| > 0
  {
    match SplitRow(d, row, None, rd, fd)
    case Failure(e) => Failure(e)
    case Success(fields) => Normalize(d, fields, width, dateCols)
  }

  /**
   * A V3 record is built exactly when every date column falls inside it;
   * it is never empty when there is at least one column, and outside the
   * date columns it holds the fields of the row (up to the first record
   * delimiter) with the empty ones replaced by `NULL`.
   */
  lemma V3RecordShape(row: string, rd: string, fd: string, width: nat, dateCols: seq<nat>)
    requires |rd| > 0 && |fd| > 0
    ensures var fields := Split(Split(row, rd)[0], fd);
      var n := if |fields| > width then width else |fields|;
      var r := RecordOf(V3, row, rd, fd, width, dateCols);
      && (r.Success? <==> ColumnsWithin(dateCols, n))
      && (r.Success? ==>
            && |r.value| == n
            && (width > 0 ==> |r.value| > 0)
            && forall i :: 0 <= i < n && i !in dateCols ==>
                 r.value[i] == (if fields[i] == "" then NullText else fields[i]))
  {
    var fields := Split(Split(row, rd)[0], fd);
    var cut := if |fields| > width then fields[..width] else fields;
    assert SplitRow(V3, row, None, rd, fd) == Success(fields);
    assert forall i :: 0 <= i < |cut| ==> cut[i] == fields[i];
  }

  // ---------------------------------------------------------------------
  // The record stream: `nextRecord` and `nextRecords`

  /** What the parser hands back for one record. */
  datatype Fetch<T> = Got(value: T) | EndOfData | Failed(fault: Fault)

  /** The parts of the parser state that reading records depends on. */
  datatype Feed = Feed(dialect: Dialect, lines: seq<string>, recordDelim: string, fieldDelim: string,
                       columnNames: seq<string>, dateColumns: seq<nat>)
  {
    predicate Valid()
    {
      |recordDelim| > 0 && |fieldDelim| > 0
    }
  }

  datatype Step = Step(fetch: Fetch<seq<string>>, next: nat)

  /** `nextRecord` at line `i`. */
  function RecordStep(f: Feed, i: nat): (s: Step)
    requires f.Valid() && i <= |f.lines|
    ensures s.next == ScanRow(f.dialect, f.lines, i, f.recordDelim, true, true).next
    ensures s.fetch.EndOfData? <==> ScanRow(f.dialect, f.lines, i, f.recordDelim, true, true).lines == []
    ensures !s.fetch.EndOfData? ==> i < s.next
  {
    var scan := ScanRow(f.dialect, f.lines, i, f.recordDelim, true, true);
    match RowText(scan)
    case None => Step(EndOfData, scan.next)
    case Some(row) =>
      match RecordOf(f.dialect, row, f.recordDelim, f.fieldDelim, |f.columnNames|, f.dateColumns)
      case Failure(e) => Step(Failed(e), scan.next)
      case Success(rec) => Step(Got(rec), scan.next)
  }

  /**
   * `seekToRecord(n)` followed by `nextRecord` reads the same record as
   * `n + 1` calls of `nextRecord` after `seekToRecord(0)` (each call moves
   * as far as `nextRowString(true)`, see `RecordStep`), provided no
   * continuation line of the first `n` rows starts with `#`.
   */
  lemma SeekThenRead(f: Feed, n: nat)
    requires f.Valid() && f.dialect == V3 && CleanRows(V3, f.lines, 0, f.recordDelim, n)
    ensures RecordStep(f, AdvanceTimes(V3, f.lines, 0, f.recordDelim, n).pos) == RecordStep(f, RowsTimes(V3, f.lines, 0, f.recordDelim, n))
  {
    SeekMatchesReplay(f.lines, f.recordDelim, n);
  }

  /** A V3 record is never empty when the feed has a column. */
  lemma V3RecordNonEmpty(f: Feed, i: nat)
    requires f.Valid() && i <= |f.lines| && f.dialect == V3 && |f.columnNames| > 0
    ensures RecordStep(f, i).fetch.Got? ==> RecordStep(f, i).fetch.value != []
  {
    var scan := ScanRow(f.dialect, f.lines, i, f.recordDelim, true, true);
    if scan.lines != [] {
      V3RecordShape(Concat(scan.lines), f.recordDelim, f.fieldDelim, |f.columnNames|, f.dateColumns);
    }
  }

  /** The outcome of `nextRecords`: the records, the line after them, and how many rows were counted. */
  datatype Batch = Batch(records: Result<seq<seq<string>>, Fault>, next: nat, fetched: nat)

  /**
   * `nextRecords(max)`: up to `max` records, stopping at the end of the
   * data and, in V3 only, at an empty record; a failing record ends the
   * whole call with its fault. `fetched` counts the rows read, each of
   * which advanced the record counter.
   */
  function TakeRecords(f: Feed, i: nat, max: int): (b: Batch)
    requires f.Valid() && i <= |f.lines|
    ensures i <= b.next <= |f.lines|
    decreases if max <= 0 then 0 else max, 2
  {
    if max <= 0 then Batch(Success([]), i, 0) else TakeFrom(f, i, max)
  }

  /** One round of the `nextRecords` loop at line `i`, with `max > 0` records still wanted: the row is read. */
  function TakeFrom(f: Feed, i: nat, max: int): (b: Batch)
    requires f.Valid() && i <= |f.lines| && max > 0
    ensures i <= b.next <= |f.lines|
    decreases max, 1
  {
    var scan := ScanRow(f.dialect, f.lines, i, f.recordDelim, true, true);
    match RowText(scan)
    case None => Batch(Success([]), scan.next, 0)
    case Some(row) => TakeRow(f, row, scan.next, max)
  }

  /** The rest of a round once `row` has been read and the pointer stands at line `next`. */
  function TakeRow(f: Feed, row: string, next: nat, max: int): (b: Batch)
    requires f.Valid() && next <= |f.lines| && max > 0
    ensures next <= b.next <= |f.lines|
    decreases max, 0
  {
    match RecordOf(f.dialect, row, f.recordDelim, f.fieldDelim, |f.columnNames|, f.dateColumns)
    case Failure(e) => Batch(Failure(e), next, 1)
    case Success(rec) =>
      if f.dialect == V3 && rec == [] then Batch(Success([]), next, 1)
      else
        var rest := TakeRecords(f, next, max - 1);
        match rest.records
        case Failure(e) => Batch(Failure(e), rest.next, rest.fetched + 1)
        case Success(recs) => Batch(Success([rec] + recs), rest.next, rest.fetched + 1)
  }

  /** `nextRecords`' answer so far: the records kept and the rows counted, followed by a batch read from here. */
  function Joined(kept: seq<seq<string>>, counted: nat, b: Batch): Batch
  {
    match b.records
    case Failure(e) => Batch(Failure(e), b.next, counted + b.fetched)
    case Success(rs) => Batch(Success(kept + rs), b.next, counted + b.fetched)
  }

  /** Whether `nextRecords` keeps the record it just fetched and goes on. */
  predicate Continues(f: Feed, fetch: Fetch<seq<string>>)
  {
    fetch.Got? && !(f.dialect == V3 && fetch.value == [])
  }

  /** One round of `nextRecords`: the batch either goes on after the record just read or ends with it. */
  lemma TakeStep(f: Feed, i: nat, max: int)
    requires f.Valid() && i <= |f.lines| && max > 0
    ensures var st := RecordStep(f, i);
      && (Continues(f, st.fetch) ==> TakeRecords(f, i, max) == Joined([st.fetch.value], 1, TakeRecords(f, st.next, max - 1)))
      && (st.fetch.Failed? ==> TakeRecords(f, i, max) == Batch(Failure(st.fetch.fault), st.next, 1))
      && (st.fetch.EndOfData? ==> TakeRecords(f, i, max) == Batch(Success([]), st.next, 0))
      && (st.fetch.Got? && !Continues(f, st.fetch) ==> TakeRecords(f, i, max) == Batch(Success([]), st.next, 1))
  {
    assert TakeRecords(f, i, max) == TakeFrom(f, i, max);
    var scan := ScanRow(f.dialect, f.lines, i, f.recordDelim, true, true);
    if RowText(scan).Some? {
      assert TakeFrom(f, i, max) == TakeRow(f, RowText(scan).value, scan.next, max);
    }
  }

  /** `records`, `next` and `fetched` are the outcome of `nextRecords(max)` at line `i`. */
  ghost predicate Fetched(f: Feed, i: nat, max: int, records: Result<seq<seq<string>>, Fault>, next: nat, fetched: int)
    requires f.Valid() && i <= |f.lines|
  {
    var b := TakeRecords(f, i, max);
    records == b.records && next == b.next && fetched == b.fetched
  }

  /**
   * A batch of at most `max` records that counts each of them and at most
   * one more row (the one that ended it), and, when `nonEmpty`, holds no
   * empty record.
   */
  predicate Shaped(b: Batch, max: nat, nonEmpty: bool)
  {
    b.records.Success? ==>
      && |b.records.value| <= max
      && (b.fetched == |b.records.value| || b.fetched == |b.records.value| + 1)
      && (nonEmpty ==> forall k :: 0 <= k < |b.records.value| ==> b.records.value[k] != [])
  }

  /** Putting one more record in front of a batch keeps its shape, with room for one more. */
  lemma JoinedShaped(rec: seq<string>, b: Batch, max: nat, nonEmpty: bool)
    requires Shaped(b, max, nonEmpty) && (nonEmpty ==> rec != [])
    ensures Shaped(Joined([rec], 1, b), max + 1, nonEmpty)
  {
    if b.records.Success? {
      var all := [rec] + b.records.value;
      assert forall k :: 1 <= k < |all| ==> all[k] == b.records.value[k - 1];
    }
  }

  /** Every batch is shaped for `max` records, none of them empty in V3. */
  lemma {:induction false} BatchShape(f: Feed, i: nat, max: int)
    requires f.Valid() && i <= |f.lines|
    ensures Shaped(TakeRecords(f, i, max), if max <= 0 then 0 else max, f.dialect == V3)
    decreases if max <= 0 then 0 else max
  {
    if max > 0 {
      BatchShape(f, RecordStep(f, i).next, max - 1);
      ShapedStep(f, i, max);
    }
  }

  /** One round of `nextRecords` keeps the batch shaped, given that the rest of the batch is. */
  lemma ShapedStep(f: Feed, i: nat, max: nat)
    requires f.Valid() && i <= |f.lines| && max > 0
    requires Shaped(TakeRecords(f, RecordStep(f, i).next, max - 1), max - 1, f.dialect == V3)
    ensures Shaped(TakeRecords(f, i, max), max, f.dialect == V3)
  {
    TakeStep(f, i, max);
    var st := RecordStep(f, i);
    if Continues(f, st.fetch) {
      JoinedShaped(st.fetch.value, TakeRecords(f, st.next, max - 1), max - 1, f.dialect == V3);
    }
  }

  /** A batch that holds a record has moved the file pointer. */
  lemma BatchAdvances(f: Feed, i: nat, max: int)
    requires f.Valid() && i <= |f.lines|
    ensures var b := TakeRecords(f, i, max);
      b.records.Success? && |b.records.value| > 0 ==> i < b.next
  {
    if max > 0 {
      TakeStep(f, i, max);
      var st := RecordStep(f, i);
      if Continues(f, st.fetch) {
        assert i < st.next <= TakeRecords(f, st.next, max - 1).next;
      }
    }
  }

  /** A V3 batch counts exactly the records it returns when the feed has at least one column. */
  lemma {:induction false} V3BatchCountsRecords(f: Feed, i: nat, max: int)
    requires f.Valid() && i <= |f.lines| && f.dialect == V3 && |f.columnNames| > 0
    ensures var b := TakeRecords(f, i, max);
      b.records.Success? ==> b.fetched == |b.records.value|
    decreases if max <= 0 then 0 else max
  {
    if max > 0 {
      V3BatchCountsRecords(f, RecordStep(f, i).next, max - 1);
      CountStep(f, i, max);
    }
  }

  /** One round of a V3 `nextRecords` counts only the record it keeps, given that the rest of the batch does. */
  lemma CountStep(f: Feed, i: nat, max: nat)
    requires f.Valid() && i <= |f.lines| && f.dialect == V3 && |f.columnNames| > 0 && max > 0
    requires var b := TakeRecords(f, RecordStep(f, i).next, max - 1);
      b.records.Success? ==> b.fetched == |b.records.value|
    ensures var b := TakeRecords(f, i, max);
      b.records.Success? ==> b.fetched == |b.records.value|
  {
    TakeStep(f, i, max);
    V3RecordNonEmpty(f, i);
  }

  // ---------------------------------------------------------------------
  // `nextRecordDict`

  /** Column names mapped to values; a later duplicate name overwrites an earlier one. */
  function ZipMap(keys: seq<string>, vals: seq<string>): (m: map<string, string>)
    requires |vals| >= |keys|
    ensures m.Keys == set k | k in keys
  {
    if |keys| == 0 then map[]
    else ZipMap(keys[..|keys| - 1], vals)[keys[|keys| - 1] := vals[|keys| - 1]]
  }

  /** With distinct column names every name maps to the value in its position. */
  lemma {:induction false} ZipMapLookup(keys: seq<string>, vals: seq<string>, i: nat)
    requires |vals| >= |keys| && i < |keys|
    requires forall a, b :: 0 <= a < b < |keys| ==> keys[a] != keys[b]
    ensures ZipMap(keys, vals)[keys[i]] == vals[i]
    decreases |keys|
  {
    if i < |keys| - 1 {
      ZipMapLookup(keys[..|keys| - 1], vals, i);
    }
  }

  /** `nextRecordDict` for one record: `vals.get(i)` throws when the record is shorter than the names. */
  function RecordDict(keys: seq<string>, vals: seq<string>): (r: Result<map<string, string>, Fault>)
    ensures r.Success? <==> |vals| >= |keys|
    ensures r.Success? ==> r.value.Keys == set k | k in keys
  {
    if |vals| < |keys| then Failure(IndexOutOfBounds) else Success(ZipMap(keys, vals))
  }

  /** What `nextRecordDict` returns for what `nextRecord` returned. */
  function DictFetch(keys: seq<string>, f: Fetch<seq<string>>): (r: Fetch<map<string, string>>)
    ensures r.EndOfData? <==> f.EndOfData?
    ensures r.Got? <==> f.Got? && |f.value| >= |keys|
    ensures r.Got? ==> r.value.Keys == set k | k in keys
  {
    match f
    case EndOfData => EndOfData
    case Failed(e) => Failed(e)
    case Got(vals) =>
      match RecordDict(keys, vals)
      case Failure(e) => Failed(e)
      case Success(m) => Got(m)
  }

  // ---------------------------------------------------------------------
  // The header: `init` (V3) and the Legacy constructor

  function ParseCount(s: string): (r: Result<int, Fault>)
    ensures r.Success? <==> ParseInt(s).Some?
    ensures r.Success? ==> r.value == ParseInt(s).value
  {
    match ParseInt(s)
    case None => Failure(NumberFormat(s))
    case Some(n) => Success(n)
  }

  /**
   * The record count from the trailer. V3 reads the last 40 characters,
   * takes the piece after the last `#recordsWritten:` and cuts it at the
   * record delimiter. Legacy reads the line that starts 40 characters from
   * the end and takes the second piece of the piece BEFORE the marker.
   * Both throw on a file shorter than 40 characters.
   */
  function TrailerCount(d: Dialect, file: string, rd: string): (r: Result<int, Fault>)
    requires |rd| > 0
    ensures r.Success? ==> |file| >= TrailerLength
    ensures |file| < TrailerLength ==> r == Failure(NegativeSeek)
  {
    if |file| < TrailerLength then Failure(NegativeSeek)
    else
      match d
      case V3 =>
        var tail := file[|file| - TrailerLength..];
        ParseCount(Split(Last(Split(tail, RecordCountMarker)), rd)[0])
      case Legacy =>
        var line := ReadLine(file, |file| - TrailerLength).value.text;
        var lst := SplitDefault(line, RecordCountMarker);
        if |lst| == 0 then Failure(IndexOutOfBounds)
        else
          var parts := SplitDefault(lst[0], rd);
          if |parts| < 2 then Failure(IndexOutOfBounds) else ParseCount(parts[1])
  }

  /** The marker's first character does not come back inside it, so two markers never overlap. */
  lemma MarkerHeadUnique()
    ensures RecordCountMarker[0] !in RecordCountMarker[1..]
  {
    assert RecordCountMarker[1..] == RecordCountTag;
  }

  /**
   * V3 reads the count written after the last `#recordsWritten:` of the
   * last 40 characters, up to the record delimiter.
   */
  lemma V3TrailerReadsCount(file: string, a: string, t: string, rd: string, u: string)
    requires |rd| > 0 && rd[0] !in t
    requires |file| >= TrailerLength
    requires file[|file| - TrailerLength..] == a + RecordCountMarker + (t + rd + u)
    requires !Contains(t + rd + u, RecordCountMarker)
    ensures TrailerCount(V3, file, rd) == ParseCount(t)
  {
    MarkerHeadUnique();
    LastPiece(a, RecordCountMarker, t + rd + u);
    assert t + rd + u == t + rd + u;
    FirstPiece(t, rd, u);
  }

  /**
   * The Legacy trailer parse cannot succeed when the record delimiter
   * contains a newline (both shipped configurations): the line it reads has
   * lost its newline, so it never holds a second piece.
   */
  lemma LegacyTrailerFails(file: string, rd: string)
    requires |rd| > 0 && '\n' in rd
    ensures TrailerCount(Legacy, file, rd).Failure?
  {
    if |file| >= TrailerLength {
      var line := ReadLine(file, |file| - TrailerLength).value.text;
      var lst := SplitDefault(line, RecordCountMarker);
      if |lst| > 0 {
        var i := IndexOf(line, RecordCountMarker);
        if i >= 0 {
          assert lst[0] == line[..i];
          assert forall k :: 0 <= k < i ==> line[..i][k] == line[k];
        }
        assert '\n' !in lst[0];
        NoNewlineNoDelimiter(lst[0], rd);
      }
    }
  }

  /** The header fields read from the tagged rows. */
  datatype Tags = Tags(primaryKey: seq<string>, dataTypes: seq<string>, exportMode: Option<string>)

  const NoTags: Tags := Tags([], [], None)

  /** A primary key given as a single space means no primary key. */
  function CleanKey(pk: seq<string>): (r: seq<string>)
    ensures r == [] || r == pk
    ensures r != [" "]
  {
    if pk == [" "] then [] else pk
  }

  /** One header row: a tagged row replaces the field its tag names; other rows change nothing. */
  function TagStep(d: Dialect, t: Tags, row: string, rd: string, fd: string): (r: Result<Tags, Fault>)
    requires |rd| > 0 && |fd| > 0
    ensures d == V3 ==> r.Success?
  {
    if StartsWith(row, PrimaryKeyStart) then
      match SplitRow(d, row, Some(PrimaryKeyStart), rd, fd)
      case Failure(e) => Failure(e)
      case Success(pk) => Success(Tags(CleanKey(pk), t.dataTypes, t.exportMode))
    else if StartsWith(row, DataTypesStart) then
      match SplitRow(d, row, Some(DataTypesStart), rd, fd)
      case Failure(e) => Failure(e)
      case Success(types) => Success(Tags(t.primaryKey, types, t.exportMode))
    else if StartsWith(row, ExportModeStart) then
      match SplitRow(d, row, Some(ExportModeStart), rd, fd)
      case Failure(e) => Failure(e)
      case Success(fields) =>
        if |fields| == 0 then Failure(IndexOutOfBounds)
        else Success(Tags(t.primaryKey, t.dataTypes, Some(fields[0])))
    else Success(t)
  }

  /** The header rows taken in order, each one applied to what the earlier ones gave. */
  function TagsOf(d: Dialect, rows: seq<string>, rd: string, fd: string): (r: Result<Tags, Fault>)
    requires |rd| > 0 && |fd| > 0
    ensures d == V3 ==> r.Success?
  {
    if |rows| == 0 then Success(NoTags)
    else
      match TagsOf(d, rows[..|rows| - 1], rd, fd)
      case Failure(e) => Failure(e)
      case Success(t) => TagStep(d, t, rows[|rows| - 1], rd, fd)
  }

  /** Once a header row fails, the rows after it are never looked at. */
  lemma {:induction false} TagsOfFailurePersists(d: Dialect, rows: seq<string>, k: nat, rd: string, fd: string)
    requires |rd| > 0 && |fd| > 0 && k <= |rows|
    requires TagsOf(d, rows[..k], rd, fd).Failure?
    ensures TagsOf(d, rows, rd, fd) == TagsOf(d, rows[..k], rd, fd)
    decreases |rows| - k
  {
    if k < |rows| {
      var front := rows[..|rows| - 1];
      assert front[..k] == rows[..k];
      TagsOfFailurePersists(d, front, k, rd, fd);
    } else {
      assert rows[..k] == rows;
    }
  }

  /** The last row that starts with `p`, if any. */
  function LastWith(rows: seq<string>, p: string): (r: Option<string>)
    ensures r.Some? ==> r.value in rows && StartsWith(r.value, p)
    ensures r.None? ==> forall k :: 0 <= k < |rows| ==> !StartsWith(rows[k], p)
  {
    if |rows| == 0 then None
    else if StartsWith(rows[|rows| - 1], p) then Some(rows[|rows| - 1])
    else LastWith(rows[..|rows| - 1], p)
  }

  /**
   * In V3 the order of the header rows does not matter beyond the last row
   * of each tag: the primary key, the data types and the export mode come
   * from the last row carrying their tag, and keep their defaults when no
   * row does.
   */
  lemma {:induction false} V3TagsFromLastRows(rows: seq<string>, rd: string, fd: string)
    requires |rd| > 0 && |fd| > 0
    ensures var t := TagsOf(V3, rows, rd, fd).value;
      && t.primaryKey == (match LastWith(rows, PrimaryKeyStart)
                          case None => []
                          case Some(r) => CleanKey(SplitRow(V3, r, Some(PrimaryKeyStart), rd, fd).value))
      && t.dataTypes == (match LastWith(rows, DataTypesStart)
                         case None => []
                         case Some(r) => SplitRow(V3, r, Some(DataTypesStart), rd, fd).value)
      && t.exportMode == (match LastWith(rows, ExportModeStart)
                          case None => None
                          case Some(r) => Some(SplitRow(V3, r, Some(ExportModeStart), rd, fd).value[0]))
  {
    if |rows| > 0 {
      V3TagsFromLastRows(rows[..|rows| - 1], rd, fd);
      TagPrefixesExclusive(rows[|rows| - 1]);
    }
  }

  /** A row carries at most one of the three tags. */
  lemma TagPrefixesExclusive(row: string)
    ensures StartsWith(row, PrimaryKeyStart) ==> !StartsWith(row, DataTypesStart) && !StartsWith(row, ExportModeStart)
    ensures StartsWith(row, DataTypesStart) ==> !StartsWith(row, ExportModeStart)
  {
    if StartsWith(row, PrimaryKeyStart) {
      assert row[1] == 'p';
    }
    if StartsWith(row, DataTypesStart) {
      assert row[1] == 'd';
    }
  }

  /** A header row that is kept: not null and not empty. */
  function KeptRow(t: Option<string>): seq<string>
  {
    if t.Some? && |t.value| > 0 then [t.value] else []
  }

  /** The `k` rows after line `i`, read with `nextRowString(false)`, without the null (end of file) and empty ones. */
  function HeaderRows(d: Dialect, ls: seq<string>, i: nat, rd: string, k: nat): seq<string>
    requires i <= |ls| && |rd| > 0
    decreases k, |ls| - i
  {
    if k == 0 then []
    else
      var s := ScanRow(d, ls, i, rd, false, true);
      KeptRow(RowText(s)) + HeaderRows(d, ls, s.next, rd, k - 1)
  }

  /** The first of `k` header rows is kept or dropped, then the other `k - 1` follow. */
  lemma HeaderRowsStep(d: Dialect, ls: seq<string>, i: nat, rd: string, k: nat)
    requires i <= |ls| && |rd| > 0 && k > 0
    ensures var s := ScanRow(d, ls, i, rd, false, true);
      HeaderRows(d, ls, i, rd, k) == KeptRow(RowText(s)) + HeaderRows(d, ls, s.next, rd, k - 1)
  {
  }

  /** At most `k` header rows are kept, and none of them is empty. */
  lemma {:induction false} HeaderRowsKept(d: Dialect, ls: seq<string>, i: nat, rd: string, k: nat)
    requires i <= |ls| && |rd| > 0
    ensures var rows := HeaderRows(d, ls, i, rd, k);
      |rows| <= k && forall j :: 0 <= j < |rows| ==> rows[j] != ""
    decreases k
  {
    if k > 0 {
      var s := ScanRow(d, ls, i, rd, false, true);
      HeaderRowsKept(d, ls, s.next, rd, k - 1);
      HeaderRowsStep(d, ls, i, rd, k);
      var head := KeptRow(RowText(s));
      var rest := HeaderRows(d, ls, s.next, rd, k - 1);
      assert forall j :: |head| <= j < |head + rest| ==> (head + rest)[j] == rest[j - |head|];
    }
  }

  /** A data type replaced by its mapped counterpart when the type map has one. */
  function MapTypes(types: seq<string>, typeMap: map<string, string>): (r: seq<string>)
    ensures |r| == |types|
    ensures forall j :: 0 <= j < |types| && types[j] !in typeMap ==> r[j] == types[j]
    ensures forall j :: 0 <= j < |types| && types[j] in typeMap ==> r[j] == typeMap[types[j]]
  {
    seq(|types|, i requires 0 <= i < |types| => if types[i] in typeMap then typeMap[types[i]] else types[i])
  }

  /** The indexes, in increasing order, of the types that belong to `kinds`. */
  function Positions(types: seq<string>, kinds: seq<string>): (r: seq<nat>)
    ensures ColumnsWithin(r, |types|)
  {
    if |types| == 0 then []
    else
      var before := Positions(types[..|types| - 1], kinds);
      before + (if types[|types| - 1] in kinds then [|types| - 1] else [])
  }

  /** Exactly the indexes of the types that belong to `kinds`, each once and in increasing order. */
  lemma {:induction false} PositionsExact(types: seq<string>, kinds: seq<string>)
    ensures var r := Positions(types, kinds);
      && (forall j: nat :: j in r <==> j < |types| && types[j] in kinds)
      && (forall a, b :: 0 <= a < b < |r| ==> r[a] < r[b])
  {
    if |types| > 0 {
      var front := types[..|types| - 1];
      PositionsExact(front, kinds);
      assert forall j :: 0 <= j < |front| ==> front[j] == types[j];
    }
  }

  datatype Header = Header(recordsExpected: int, columnNames: seq<string>, primaryKey: seq<string>,
                           dataTypes: seq<string>, exportMode: Option<string>,
                           dateColumns: seq<nat>, numberColumns: seq<nat>,
                           columnTypes: map<string, string>)

  /**
   * What `init` (V3) or the Legacy constructor reads from a feed file: the
   * trailer count, the column names from the first row (which must start
   * with `#`), the tagged rows among the next six, the data types mapped
   * through the type map, and the date and number columns found among the
   * unmapped types. Legacy also pairs every column name with a data type
   * in `columnTypes` and throws when there are fewer types than names.
   */
  function ParseHeader(d: Dialect, file: string, typeMap: map<string, string>, rd: string, fd: string): (r: Result<Header, Fault>)
    requires |rd| > 0 && |fd| > 0
  {
    match TrailerCount(d, file, rd)
    case Failure(e) => Failure(e)
    case Success(count) => HeaderAfterCount(d, Lines(file), count, typeMap, rd, fd)
  }

  /** The header once the trailer count is known: the column names come from the file's first row. */
  function HeaderAfterCount(d: Dialect, ls: seq<string>, count: int, typeMap: map<string, string>, rd: string, fd: string): Result<Header, Fault>
    requires |rd| > 0 && |fd| > 0
  {
    var first := ScanRow(d, ls, 0, rd, false, true);
    match RowText(first)
    case None => Failure(NullPointer)
    case Some(line1) =>
      match SplitRow(d, line1, Some(CommentChar), rd, fd)
      case Failure(e) => Failure(e)
      case Success(cols) => HeaderAfterColumns(d, ls, first.next, count, cols, typeMap, rd, fd)
  }

  /** The header once the column names are known and the header rows start at line `i`. */
  function HeaderAfterColumns(d: Dialect, ls: seq<string>, i: nat, count: int, cols: seq<string>,
                              typeMap: map<string, string>, rd: string, fd: string): Result<Header, Fault>
    requires i <= |ls| && |rd| > 0 && |fd| > 0
  {
    HeaderFromRows(d, HeaderRows(d, ls, i, rd, HeaderRowLimit), count, cols, typeMap, rd, fd)
  }

  /** The header once the header rows are read: their tags applied in order, then the header built. */
  function HeaderFromRows(d: Dialect, rows: seq<string>, count: int, cols: seq<string>,
                          typeMap: map<string, string>, rd: string, fd: string): Result<Header, Fault>
    requires |rd| > 0 && |fd| > 0
  {
    match TagsOf(d, rows, rd, fd)
    case Failure(e) => Failure(e)
    case Success(tags) => HeaderOf(d, count, cols, tags, typeMap)
  }

  /**
   * The header built from its parts; Legacy fails when there are fewer
   * data types than column names. The date and number columns index the
   * data types, and every Legacy column name has a type.
   */
  function HeaderOf(d: Dialect, count: int, cols: seq<string>, tags: Tags, typeMap: map<string, string>): (r: Result<Header, Fault>)
    ensures r.Success? <==> d == V3 || |tags.dataTypes| >= |cols|
    ensures r.Success? ==> r.value.recordsExpected == count && r.value.columnNames == cols
    ensures r.Success? ==> ColumnsWithin(r.value.dateColumns, |r.value.dataTypes|)
    ensures r.Success? ==> ColumnsWithin(r.value.numberColumns, |r.value.dataTypes|)
    ensures d == Legacy && r.Success? ==> |r.value.dataTypes| >= |r.value.columnNames|
  {
    if d == Legacy && |tags.dataTypes| < |cols| then Failure(IndexOutOfBounds)
    else
      var types := MapTypes(tags.dataTypes, typeMap);
      Success(Header(count, cols, tags.primaryKey, types, tags.exportMode,
                     Positions(tags.dataTypes, DateTypes), Positions(tags.dataTypes, NumberTypes),
                     if d == Legacy then ZipMap(cols, types) else map[]))
  }

  /**
   * A header that parses carries the trailer count, and its date and
   * number columns index its data types; a Legacy header has a data type
   * for every column name.
   */
  lemma ParseHeaderShape(d: Dialect, file: string, typeMap: map<string, string>, rd: string, fd: string)
    requires |rd| > 0 && |fd| > 0
    ensures var r := ParseHeader(d, file, typeMap, rd, fd);
      && (r.Success? ==> TrailerCount(d, file, rd) == Success(r.value.recordsExpected))
      && (r.Success? ==> ColumnsWithin(r.value.dateColumns, |r.value.dataTypes|))
      && (r.Success? ==> ColumnsWithin(r.value.numberColumns, |r.value.dataTypes|))
      && (d == Legacy && r.Success? ==> |r.value.dataTypes| >= |r.value.columnNames|)
  {
    var count := TrailerCount(d, file, rd);
    if count.Success? {
      var ls := Lines(file);
      var first := ScanRow(d, ls, 0, rd, false, true);
      if RowText(first).Some? {
        var cols := SplitRow(d, RowText(first).value, Some(CommentChar), rd, fd);
        if cols.Success? {
          var rows := HeaderRows(d, ls, first.next, rd, HeaderRowLimit);
          var tags := TagsOf(d, rows, rd, fd);
          if tags.Success? {
            assert ParseHeader(d, file, typeMap, rd, fd) == HeaderOf(d, count.value, cols.value, tags.value, typeMap);
          }
        }
      }
    }
  }

  /** With the shipped delimiters (or any record delimiter holding a newline) a Legacy parser is never constructed. */
  lemma LegacyHeaderFails(file: string, typeMap: map<string, string>, rd: string, fd: string)
    requires |rd| > 0 && |fd| > 0 && '\n' in rd
    ensures ParseHeader(Legacy, file, typeMap, rd, fd).Failure?
  {
    LegacyTrailerFails(file, rd);
  }
}
