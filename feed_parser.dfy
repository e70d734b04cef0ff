// The feed parser object: `V3Parser` and the older `Parser`, one open
// feed file each. The file pointer moves line by line; every method is
// proved to do what the functions of `FeedFormat` describe.

module FeedParser {
  import opened Text
  import opened FeedFormat

  /** `nextRowString`'s answer so far: the lines kept, followed by what a scan from here keeps. */
  function Resume(kept: seq<string>, s: Scan): Scan
  {
    Scan(kept + s.lines, s.next)
  }

  /** The lines of a row appended one by one to a `StringBuffer`. */
  lemma AppendAssoc(a: seq<string>, b: seq<string>, c: seq<string>)
    ensures a + (b + c) == (a + b) + c
  {
  }

  method AppendAll(lst: seq<string>) returns (sb: string)
    ensures sb == Concat(lst)
  {
    sb := "";
    for k := 0 to |lst|
      invariant sb == Concat(lst[..k])
    {
      assert lst[..k + 1] == lst[..k] + [lst[k]];
      ConcatSnoc(lst[..k], lst[k]);
      sb := sb + lst[k];
    }
    assert lst[..|lst|] == lst;
  }

  lemma JoinedNothing(b: Batch)
    ensures Joined([], 0, b) == b
  {
    match b.records
    case Failure(e) =>
    case Success(rs) => assert [] + rs == rs;
  }

  lemma JoinedStep(kept: seq<seq<string>>, counted: nat, rec: seq<string>, b: Batch)
    ensures Joined(kept, counted, Joined([rec], 1, b)) == Joined(kept + [rec], counted + 1, b)
  {
    match b.records
    case Failure(e) =>
    case Success(rs) => assert kept + ([rec] + rs) == (kept + [rec]) + rs;
  }

  /** The loop of `init` over the data types: each one mapped through `typeMap`, and the date and number columns noted by their raw type. */
  method TypeColumns(raw: seq<string>, typeMap: map<string, string>) returns (types: seq<string>, dates: seq<nat>, numbers: seq<nat>)
    ensures types == MapTypes(raw, typeMap)
    ensures dates == Positions(raw, DateTypes)
    ensures numbers == Positions(raw, NumberTypes)
  {
    ghost var mapped := MapTypes(raw, typeMap);
    types := raw;
    dates := [];
    numbers := [];
    for j := 0 to |types|
      invariant |types| == |raw|
      invariant forall k :: 0 <= k < j ==> types[k] == mapped[k]
      invariant forall k :: j <= k < |raw| ==> types[k] == raw[k]
      invariant dates == Positions(raw[..j], DateTypes)
      invariant numbers == Positions(raw[..j], NumberTypes)
    {
      var dType := types[j];
      assert raw[..j + 1][..j] == raw[..j];
      if dType in typeMap {
        types := types[j := typeMap[dType]];
      }
      if dType in DateTypes {
        dates := dates + [j];
      }
      if dType in NumberTypes {
        numbers := numbers + [j];
      }
    }
    assert raw[..|raw|] == raw;
  }

  /** The loop of `nextRecord` that writes `NULL` over every empty field. */
  method FillNulls(cut: seq<string>) returns (fields: seq<string>)
    ensures fields == NullFill(cut)
  {
    fields := cut;
    for i := 0 to |fields|
      invariant |fields| == |cut|
      invariant forall k :: 0 <= k < i ==> fields[k] == NullFill(cut)[k]
      invariant forall k :: i <= k < |fields| ==> fields[k] == cut[k]
    {
      var val := fields[i];
      fields := fields[i := if |val| == 0 then NullText else val];
    }
  }

  /** The loop of `nextRecord` over the date columns: each one massaged in turn, stopping at the first fault. */
  method FixDates(d: Dialect, filled: seq<string>, dateCols: seq<nat>) returns (r: Result<seq<string>, Fault>)
    ensures r == ApplyDates(d, filled, dateCols)
  {
    var fields := filled;
    for k := 0 to |dateCols|
      invariant ApplyDates(d, filled, dateCols) == ApplyDates(d, fields, dateCols[k..])
    {
      var j := dateCols[k];
      assert dateCols[k..][0] == j && dateCols[k..][1..] == dateCols[k + 1..];
      if j >= |fields| {
        return Failure(IndexOutOfBounds);
      }
      var corrected := DateFix(d, fields[j]);
      if corrected.Failure? {
        return Failure(corrected.error);
      }
      fields := fields[j := corrected.value];
    }
    assert dateCols[|dateCols|..] == [];
    r := Success(fields);
  }

  /** The loop of `nextRecordDict`: each column name paired with the value in its position; `vals.get(i)` throws when the values run out. */
  method ZipRecord(keys: seq<string>, vals: seq<string>) returns (r: Result<map<string, string>, Fault>)
    ensures r == RecordDict(keys, vals)
  {
    var dict: map<string, string> := map[];
    for i := 0 to |keys|
      invariant i <= |vals|
      invariant dict == ZipMap(keys[..i], vals)
    {
      if i >= |vals| {
        return Failure(IndexOutOfBounds);
      }
      assert keys[..i + 1][..i] == keys[..i];
      dict := dict[keys[i] := vals[i]];
    }
    assert keys[..|keys|] == keys;
    r := Success(dict);
  }

  /** The whole batch `total` is what has been kept so far followed by a batch read from line `i`. */
  ghost predicate Pending(f: Feed, i: nat, n: int, kept: seq<seq<string>>, counted: nat, total: Batch)
    requires f.Valid() && i <= |f.lines|
  {
    total == Joined(kept, counted, TakeRecords(f, i, n))
  }

  /**
   * A parser over one feed file. `dialect` selects `V3Parser` or the older
   * `Parser`. `lines` are the lines `readLine` returns from the start of
   * the file and `pos` is the index of the next one, which is where the
   * file pointer stands.
   */
  class Parser {
    const dialect: Dialect
    var lines: seq<string>
    var pos: nat
    var recordDelim: string
    var fieldDelim: string
    var dataTypeMap: map<string, string>
    var recordsExpected: int
    var latestRecordNum: int
    var columnNames: seq<string>
    var primaryKey: seq<string>
    var dataTypes: seq<string>
    var exportMode: Option<string>
    var dateColumns: seq<nat>
    var numberColumns: seq<nat>
    var columnTypes: map<string, string>

    predicate Valid()
      reads this
    {
      pos <= |lines| && |recordDelim| > 0 && |fieldDelim| > 0
    }

    /** The part of the state that reading records depends on. */
    function View(): Feed
      reads this
    {
      Feed(dialect, lines, recordDelim, fieldDelim, columnNames, dateColumns)
    }

    /** The parser's fields hold what the header `h` says. */
    predicate Describes(h: Header)
      reads this
    {
      && recordsExpected == h.recordsExpected
      && columnNames == h.columnNames
      && primaryKey == h.primaryKey
      && dataTypes == h.dataTypes
      && exportMode == h.exportMode
      && dateColumns == h.dateColumns
      && numberColumns == h.numberColumns
      && columnTypes == h.columnTypes
    }

    /** A parser with the shipped delimiters and type map and no file read yet. */
    constructor(dialect: Dialect)
      ensures this.dialect == dialect && Valid()
      ensures lines == [] && pos == 0
      ensures recordDelim == DefaultRecordDelim && fieldDelim == DefaultFieldDelim && dataTypeMap == DefaultTypeMap
      ensures recordsExpected == 0 && latestRecordNum == 0
      ensures columnNames == [] && primaryKey == [] && dataTypes == [] && exportMode == None
      ensures dateColumns == [] && numberColumns == [] && columnTypes == map[]
    {
      this.dialect := dialect;
      lines := [];
      pos := 0;
      recordDelim := DefaultRecordDelim;
      fieldDelim := DefaultFieldDelim;
      dataTypeMap := DefaultTypeMap;
      recordsExpected := 0;
      latestRecordNum := 0;
      columnNames := [];
      primaryKey := [];
      dataTypes := [];
      exportMode := None;
      dateColumns := [];
      numberColumns := [];
      columnTypes := map[];
    }

    /** `readLine`: the line at the file pointer, or null at the end of the file. */
    method ReadNextLine() returns (ln: Option<string>)
      requires pos <= |lines|
      modifies this`pos
      ensures old(pos) == |lines| ==> ln == None && pos == old(pos)
      ensures old(pos) < |lines| ==> ln == Some(lines[old(pos)]) && pos == old(pos) + 1
    {
      if pos == |lines| {
        ln := None;
      } else {
        ln := Some(lines[pos]);
        pos := pos + 1;
      }
    }

    /**
     * `init` (V3), or the body of the Legacy constructor: reads the trailer
     * count, the column names and the header rows, leaves the file pointer
     * at the start of the file and the record counter at zero, and fails
     * exactly as the header parse does.
     */
    method Init(file: string, typeMap: map<string, string>, rd: string, fd: string) returns (r: Result<Header, Fault>)
      requires |rd| > 0 && |fd| > 0
      modifies this
      ensures r == ParseHeader(dialect, file, typeMap, rd, fd)
      ensures r.Success? ==> Valid() && Describes(r.value)
      ensures r.Success? ==> lines == Lines(file) && pos == 0 && latestRecordNum == 0
      ensures r.Success? ==> recordDelim == rd && fieldDelim == fd && dataTypeMap == typeMap
    {
      Open(file, typeMap, rd, fd);
      var count := TrailerCount(dialect, file, rd);
      if count.Failure? {
        return Failure(count.error);
      }
      recordsExpected := count.value;
      r := ReadColumnNames();
      assert latestRecordNum == 0;
    }

    /** The fields `init` sets before it reads anything: the file, the delimiters, the type map and empty header fields. */
    method Open(file: string, typeMap: map<string, string>, rd: string, fd: string)
      requires |rd| > 0 && |fd| > 0
      modifies this
      ensures Valid() && lines == Lines(file) && pos == 0 && latestRecordNum == 0 && columnTypes == map[]
      ensures recordDelim == rd && fieldDelim == fd && dataTypeMap == typeMap
    {
      dataTypeMap := typeMap;
      columnNames := [];
      primaryKey := [];
      dataTypes := [];
      exportMode := None;
      dateColumns := [];
      numberColumns := [];
      columnTypes := map[];
      recordsExpected := 0;
      latestRecordNum := 0;
      recordDelim := rd;
      fieldDelim := fd;
      lines := Lines(file);
      pos := 0;
    }

    /** The rest of `init` once the trailer count is stored: the column names from the first row, then the header rows. */
    method ReadColumnNames() returns (r: Result<Header, Fault>)
      requires Valid() && pos == 0 && columnTypes == map[]
      modifies this`pos, this`columnNames, this`primaryKey, this`dataTypes, this`exportMode,
               this`dateColumns, this`numberColumns, this`columnTypes
      ensures r == HeaderAfterCount(dialect, lines, recordsExpected, dataTypeMap, recordDelim, fieldDelim)
      ensures r.Success? ==> Valid() && Describes(r.value) && pos == 0
    {
      var line1 := NextRowString(false);
      if line1.None? {
        return Failure(NullPointer);
      }
      var cols := SplitRow(dialect, line1.value, Some(CommentChar), recordDelim, fieldDelim);
      if cols.Failure? {
        return Failure(cols.error);
      }
      columnNames := cols.value;
      r := ReadHeaderBody();
    }

    /** The header rows after the column names, read and applied. */
    method ReadHeaderBody() returns (r: Result<Header, Fault>)
      requires Valid() && columnTypes == map[]
      modifies this`pos, this`primaryKey, this`dataTypes, this`exportMode,
               this`dateColumns, this`numberColumns, this`columnTypes
      ensures r == HeaderAfterColumns(dialect, lines, old(pos), recordsExpected, columnNames, dataTypeMap, recordDelim, fieldDelim)
      ensures r.Success? ==> Valid() && Describes(r.value) && pos == 0
    {
      var firstRows := ReadHeaderRows();
      r := ApplyHeaderRows(firstRows);
    }

    /** The rest of `init` once the column names are stored and the header rows read: the tags applied, the types mapped. */
    method ApplyHeaderRows(rows: seq<string>) returns (r: Result<Header, Fault>)
      requires Valid() && columnTypes == map[]
      modifies this`pos, this`primaryKey, this`dataTypes, this`exportMode,
               this`dateColumns, this`numberColumns, this`columnTypes
      ensures r == HeaderFromRows(dialect, rows, recordsExpected, columnNames, dataTypeMap, recordDelim, fieldDelim)
      ensures r.Success? ==> Valid() && Describes(r.value) && pos == 0
    {
      var tagged := ApplyTags(rows);
      if tagged.Failure? {
        return Failure(tagged.error);
      }
      r := FinishHeader();
    }

    /** The end of `init` once the tagged rows are applied: rewind, map the data types and (Legacy) pair them with the column names. */
    method FinishHeader() returns (r: Result<Header, Fault>)
      requires Valid() && columnTypes == map[]
      modifies this`pos, this`dataTypes, this`dateColumns, this`numberColumns, this`columnTypes
      ensures r == HeaderOf(dialect, recordsExpected, columnNames, Tags(primaryKey, old(dataTypes), exportMode), dataTypeMap)
      ensures r.Success? ==> Valid() && Describes(r.value) && pos == 0
    {
      pos := 0;
      MapDataTypes();
      if dialect == Legacy {
        var paired := PairColumnTypes();
        if paired.Failure? {
          return Failure(paired.error);
        }
      }
      r := Success(Header(recordsExpected, columnNames, primaryKey, dataTypes, exportMode,
                          dateColumns, numberColumns, columnTypes));
    }

    /**
     * The six rows after the column names, without the null and empty ones.
     * The source re-filters the whole list after each row; as the earlier
     * rows already passed the filter, only the new row is tested here.
     */
    method ReadHeaderRows() returns (rows: seq<string>)
      requires Valid()
      modifies this`pos
      ensures Valid()
      ensures rows == HeaderRows(dialect, lines, old(pos), recordDelim, HeaderRowLimit)
    {
      ghost var total := HeaderRows(dialect, lines, pos, recordDelim, HeaderRowLimit);
      rows := [];
      for j := 0 to HeaderRowLimit
        invariant Valid()
        invariant rows + HeaderRows(dialect, lines, pos, recordDelim, HeaderRowLimit - j) == total
      {
        ghost var here := pos;
        var row := NextRowString(false);
        HeaderRowsStep(dialect, lines, here, recordDelim, HeaderRowLimit - j);
        AppendAssoc(rows, KeptRow(row), HeaderRows(dialect, lines, pos, recordDelim, HeaderRowLimit - j - 1));
        rows := rows + KeptRow(row);
      }
    }

    /** The header rows applied in order to the primary key, the data types and the export mode. */
    method ApplyTags(rows: seq<string>) returns (r: Result<Tags, Fault>)
      requires |recordDelim| > 0 && |fieldDelim| > 0
      modifies this`primaryKey, this`dataTypes, this`exportMode
      ensures r == TagsOf(dialect, rows, recordDelim, fieldDelim)
      ensures r.Success? ==> r.value == Tags(primaryKey, dataTypes, exportMode)
    {
      primaryKey := [];
      dataTypes := [];
      exportMode := None;
      for k := 0 to |rows|
        invariant TagsOf(dialect, rows[..k], recordDelim, fieldDelim) == Success(Tags(primaryKey, dataTypes, exportMode))
      {
        var aRow := rows[k];
        assert rows[..k + 1][..k] == rows[..k];
        ghost var step := TagStep(dialect, Tags(primaryKey, dataTypes, exportMode), aRow, recordDelim, fieldDelim);
        assert TagsOf(dialect, rows[..k + 1], recordDelim, fieldDelim) == step;
        if StartsWith(aRow, PrimaryKeyStart) {
          var pk := SplitRow(dialect, aRow, Some(PrimaryKeyStart), recordDelim, fieldDelim);
          if pk.Failure? {
            TagsOfFailurePersists(dialect, rows, k + 1, recordDelim, fieldDelim);
            return Failure(pk.error);
          }
          primaryKey := CleanKey(pk.value);
        } else if StartsWith(aRow, DataTypesStart) {
          var types := SplitRow(dialect, aRow, Some(DataTypesStart), recordDelim, fieldDelim);
          if types.Failure? {
            TagsOfFailurePersists(dialect, rows, k + 1, recordDelim, fieldDelim);
            return Failure(types.error);
          }
          dataTypes := types.value;
        } else if StartsWith(aRow, ExportModeStart) {
          var fields := SplitRow(dialect, aRow, Some(ExportModeStart), recordDelim, fieldDelim);
          if fields.Failure? {
            TagsOfFailurePersists(dialect, rows, k + 1, recordDelim, fieldDelim);
            return Failure(fields.error);
          }
          if |fields.value| == 0 {
            TagsOfFailurePersists(dialect, rows, k + 1, recordDelim, fieldDelim);
            return Failure(IndexOutOfBounds);
          }
          exportMode := Some(fields.value[0]);
        }
      }
      assert rows[..|rows|] == rows;
      r := Success(Tags(primaryKey, dataTypes, exportMode));
    }

    /** Each data type replaced by its mapped counterpart; the date and number columns found among the unmapped types. */
    method MapDataTypes()
      modifies this`dataTypes, this`dateColumns, this`numberColumns
      ensures dataTypes == MapTypes(old(dataTypes), dataTypeMap)
      ensures dateColumns == Positions(old(dataTypes), DateTypes)
      ensures numberColumns == Positions(old(dataTypes), NumberTypes)
    {
      dataTypes, dateColumns, numberColumns := TypeColumns(dataTypes, dataTypeMap);
    }

    /** Legacy only: every column name paired with the data type in its position; fails when the types run out first. */
    method PairColumnTypes() returns (r: Result<map<string, string>, Fault>)
      modifies this`columnTypes
      ensures r.Success? <==> |dataTypes| >= |columnNames|
      ensures r.Success? ==> r.value == columnTypes == ZipMap(columnNames, dataTypes)
      ensures r.Failure? ==> r.error == IndexOutOfBounds
    {
      var tm: map<string, string> := map[];
      for i := 0 to |columnNames|
        invariant i <= |dataTypes|
        invariant tm == ZipMap(columnNames[..i], dataTypes)
      {
        if i >= |dataTypes| {
          return Failure(IndexOutOfBounds);
        }
        assert columnNames[..i + 1][..i] == columnNames[..i];
        tm := tm[columnNames[i] := dataTypes[i]];
      }
      assert columnNames[..|columnNames|] == columnNames;
      columnTypes := tm;
      r := Success(tm);
    }

    /** `setColumnNames`, used to cut the names to the width of an existing table. */
    method SetColumnNames(value: seq<string>)
      modifies this`columnNames
      ensures columnNames == value
    {
      columnNames := value;
    }

    /**
     * `nextRowString`: the lines of the next row, joined, or null at the end
     * of the file; the file pointer ends after the row's last line.
     */
    method NextRowString(ignoreComments: bool) returns (row: Option<string>)
      requires Valid()
      modifies this`pos
      ensures Valid()
      ensures var s := ScanRow(dialect, lines, old(pos), recordDelim, ignoreComments, true);
        row == RowText(s) && pos == s.next
    {
      var lst := ReadRowLines(ignoreComments);
      if |lst| == 0 {
        row := None;
      } else {
        var sb := AppendAll(lst);
        row := Some(sb);
      }
    }

    /** The loop of `nextRowString`: the lines of the next row, read one by one into a list. */
    method ReadRowLines(ignoreComments: bool) returns (lst: seq<string>)
      requires Valid()
      modifies this`pos
      ensures Valid()
      ensures ScanRow(dialect, lines, old(pos), recordDelim, ignoreComments, true) == Scan(lst, pos)
    {
      ghost var whole := ScanRow(dialect, lines, pos, recordDelim, ignoreComments, true);
      lst := [];
      var isFirstLine := true;
      while true
        invariant pos <= |lines|
        invariant isFirstLine <==> lst == []
        invariant whole == Resume(lst, ScanRow(dialect, lines, pos, recordDelim, ignoreComments, isFirstLine))
        decreases |lines| - pos
      {
        ghost var here := pos;
        var ln := ReadNextLine();
        if ln.None? {
          assert lst + [] == lst;
          return;
        }
        var l := LineOf(dialect, ln.value);
        ScanStep(dialect, lines, here, recordDelim, ignoreComments, isFirstLine);
        if isFirstLine && ignoreComments && SkippedAsComment(dialect, l) {
          continue;
        }
        ghost var before := lst;
        ghost var rest := ScanRow(dialect, lines, pos, recordDelim, ignoreComments, false);
        lst := lst + [l];
        if isFirstLine {
          isFirstLine := false;
        }
        if Contains(l, recordDelim) {
          return;
        }
        AppendAssoc(before, [l], rest.lines);
      }
    }

    /**
     * `advanceToNextRecord`: skips to the line after the next record's
     * last line and counts the record, or stops at the end of the file
     * without counting.
     */
    method AdvanceToNextRecord()
      requires Valid()
      modifies this`pos, this`latestRecordNum
      ensures Valid()
      ensures var a := ScanAdvance(dialect, lines, old(pos), recordDelim);
        pos == a.next && latestRecordNum == old(latestRecordNum) + (if a.counted then 1 else 0)
    {
      ghost var start := pos;
      while true
        invariant pos <= |lines|
        invariant latestRecordNum == old(latestRecordNum)
        invariant ScanAdvance(dialect, lines, start, recordDelim) == ScanAdvance(dialect, lines, pos, recordDelim)
        decreases |lines| - pos
      {
        var ln := ReadNextLine();
        if ln.None? {
          return;
        }
        var l := LineOf(dialect, ln.value);
        if StartsWith(l, CommentChar) {
          continue;
        }
        if Contains(l, recordDelim) {
          break;
        }
      }
      latestRecordNum := latestRecordNum + 1;
    }

    /**
     * `seekToRecord(n)`: back to the start of the file with the counter at
     * zero, then `n` calls of `advanceToNextRecord` (none when `n <= 0`).
     */
    method SeekToRecord(recordNum: int)
      requires Valid()
      modifies this`pos, this`latestRecordNum
      ensures Valid()
      ensures var s := AdvanceTimes(dialect, lines, 0, recordDelim, if recordNum <= 0 then 0 else recordNum);
        pos == s.pos && latestRecordNum == s.count
    {
      pos := 0;
      latestRecordNum := 0;
      if recordNum <= 0 {
        return;
      }
      var j := 0;
      while j < recordNum
        invariant 0 <= j <= recordNum
        invariant Valid()
        invariant pos == AdvanceTimes(dialect, lines, 0, recordDelim, j).pos
        invariant latestRecordNum == AdvanceTimes(dialect, lines, 0, recordDelim, j).count
      {
        AdvanceToNextRecord();
        j := j + 1;
      }
    }

    /**
     * `nextRecord`: the next row split into fields, cut to the number of
     * columns, with empty fields as `NULL` and the date columns massaged;
     * null at the end of the data. The counter rises for every row read,
     * even one whose record then fails.
     */
    method NextRecord() returns (rec: Fetch<seq<string>>)
      requires Valid()
      modifies this`pos, this`latestRecordNum
      ensures Valid()
      ensures var st := RecordStep(View(), old(pos));
        rec == st.fetch && pos == st.next
      ensures latestRecordNum == old(latestRecordNum) + (if rec.EndOfData? then 0 else 1)
    {
      var rowString := NextRowString(true);
      if rowString.None? {
        return EndOfData;
      }
      latestRecordNum := latestRecordNum + 1;
      var split := SplitRow(dialect, rowString.value, None, recordDelim, fieldDelim);
      if split.Failure? {
        return Failed(split.error);
      }
      var fields := split.value;
      var width := |columnNames|;
      if dialect == V3 {
        if |fields| > width {
          fields := fields[..width];
        }
      } else {
        if |fields| < width {
          return Failed(IndexOutOfBounds);
        }
        fields := fields[..width];
      }

      var filled := FillNulls(fields);
      var fixed := FixDates(dialect, filled, dateColumns);
      if fixed.Failure? {
        return Failed(fixed.error);
      }
      rec := Got(fixed.value);
    }

    /** One `nextRecord` call made by `nextRecords` with `n > 0` records still wanted. */
    method NextRecordInBatch(ghost n: int) returns (rec: Fetch<seq<string>>)
      requires Valid() && n > 0
      modifies this`pos, this`latestRecordNum
      ensures Valid() && View() == old(View())
      ensures latestRecordNum == old(latestRecordNum) + if rec.EndOfData? then 0 else 1
      ensures var f := View();
        && (Continues(f, rec) ==> TakeRecords(f, old(pos), n) == Joined([rec.value], 1, TakeRecords(f, pos, n - 1)))
        && (rec.Failed? ==> TakeRecords(f, old(pos), n) == Batch(Failure(rec.fault), pos, 1))
        && (rec.EndOfData? ==> TakeRecords(f, old(pos), n) == Batch(Success([]), pos, 0))
        && (rec.Got? && !Continues(f, rec) ==> TakeRecords(f, old(pos), n) == Batch(Success([]), pos, 1))
    {
      ghost var here := pos;
      rec := NextRecord();
      TakeStep(View(), here, n);
    }

    /**
     * `nextRecords(maxNum)`: up to `maxNum` records, stopping at the end of
     * the data and, in V3, at an empty record; a failing record ends the
     * call with its fault.
     */
    method NextRecords(maxNum: int) returns (records: Result<seq<seq<string>>, Fault>)
      requires Valid()
      modifies this`pos, this`latestRecordNum
      ensures Valid()
      ensures Fetched(View(), old(pos), maxNum, records, pos, latestRecordNum - old(latestRecordNum))
    {
      ghost var f := View();
      ghost var total := TakeRecords(f, pos, maxNum);
      ghost var counted: nat := 0;
      var got: seq<seq<string>> := [];
      var j := 0;
      JoinedNothing(total);
      while j < maxNum
        invariant 0 <= j && (j <= maxNum || j == 0)
        invariant Valid() && View() == f
        invariant latestRecordNum == old(latestRecordNum) + counted
        invariant Pending(f, pos, maxNum - j, got, counted, total)
        decreases maxNum - j
      {
        var lst := NextRecordInBatch(maxNum - j);
        if lst.Failed? {
          counted := counted + 1;
          return Failure(lst.fault);
        }
        if lst.EndOfData? || (dialect == V3 && lst.value == []) {
          counted := counted + if lst.EndOfData? then 0 else 1;
          assert got + [] == got;
          break;
        }
        JoinedStep(got, counted, lst.value, TakeRecords(f, pos, maxNum - (j + 1)));
        got := got + [lst.value];
        j := j + 1;
        counted := counted + 1;
      }
      if j == maxNum {
        assert got + [] == got;
      }
      records := Success(got);
    }

    /**
     * `nextRecordDict`: the next record keyed by the column names, null at
     * the end of the data; fails when the record is shorter than the names.
     */
    method NextRecordDict() returns (r: Fetch<map<string, string>>)
      requires Valid()
      modifies this`pos, this`latestRecordNum
      ensures Valid()
      ensures var st := RecordStep(View(), old(pos));
        r == DictFetch(columnNames, st.fetch) && pos == st.next
    {
      var vals := NextRecord();
      if vals.EndOfData? {
        return EndOfData;
      }
      if vals.Failed? {
        return Failed(vals.fault);
      }
      var dict := ZipRecord(columnNames, vals.value);
      if dict.Failure? {
        return Failed(dict.error);
      }
      r := Got(dict.value);
    }
  }
}
