// The MySQL server the ingesters talk to, reduced to what their statements
// do to a map of named tables, and a gateway whose statements fail when the
// database cannot apply them or when a fault script says so.

module Database {
  import opened Text

  /** A SQL value: `NULL` or the contents of a string literal. */
  datatype Value = Null | Str(text: string)

  type Row = seq<Value>

  /** A table: its column names and types, its primary key (empty when it has none) and its rows in order. */
  datatype Table = Table(columns: seq<string>, types: seq<string>, key: seq<string>, rows: seq<Row>)

  type Db = map<string, Table>

  /** `INSERT` or `REPLACE`, the verb of a batch statement. */
  datatype Verb = InsertInto | ReplaceInto

  /** The column whose later value lets an incoming row supersede a stored one. */
  const ExportDate: string := "export_date"

  /** The statements the ingesters send, by what they ask of the server. */
  datatype Command =
    | DropIfExists(table: string)
    | CreateTable(table: string, columns: seq<string>, types: seq<string>)
    | AddPrimaryKey(table: string, key: seq<string>)
    | Rename(from: string, to: string)
    | InsertRows(verb: Verb, ignore: bool, table: string, columns: seq<string>, records: seq<seq<string>>)
    | CreateUnion(table: string, live: string, inc: string, key: seq<string>)
    | CountTables(table: string)
    | CountColumns(table: string)

  /** The value a field becomes once its statement has unquoted `'NULL'` and `'null'`. */
  function SqlValue(field: string): (v: Value)
    ensures v.Null? <==> field == "NULL" || field == "null"
    ensures v.Str? ==> v.text == field
  {
    if field == "NULL" || field == "null" then Null else Str(field)
  }

  // ---------------------------------------------------------------
  // Field literals
  // ---------------------------------------------------------------

  /** A field as `escapeRecords` reads it before escaping: `\'` becomes `'`, then `\\` becomes `\`. */
  function Normalized(field: string): string
  {
    Replace(Replace(field, "\\'", "'"), "\\\\", "\\")
  }

  /** The escape of one character. */
  function EscapeChar(c: char): string
  {
    if c == '\\' then "\\\\" else if c == '\'' then "\\'" else [c]
  }

  /** Character-wise escaping: every `\` doubled, every `'` given a backslash. */
  function EscapeChars(y: string): string
    decreases |y|
  {
    if |y| == 0 then "" else EscapeChar(y[0]) + EscapeChars(y[1..])
  }

  /**
   * `escapeRecords` on one field: `\'` becomes `'`, `\\` becomes `\`, then
   * every `\` is doubled and every `'` gets a backslash.
   */
  function Escape(f: string): string
  {
    Replace(Replace(Normalized(f), "\\", "\\\\"), "'", "\\'")
  }

  /** A field as the literal `'…'` placed in the statement. */
  function Quote(f: string): string
  {
    "'" + Escape(f) + "'"
  }

  /**
   * The unquoting of `'NULL'` and `'null'` over the whole statement reaches
   * inside this field's literal: the literal holds one of them without
   * being exactly that word quoted.
   */
  predicate BreaksLiteral(field: string)
  {
    var q := Quote(field);
    q != "'NULL'" && q != "'null'" && (Contains(q, "'NULL'") || Contains(q, "'null'"))
  }

  /** No field of the batch has its literal broken by the unquoting. */
  predicate Sendable(recs: seq<seq<string>>)
  {
    forall i, j :: 0 <= i < |recs| && 0 <= j < |recs[i]| ==> !BreaksLiteral(recs[i][j])
  }

  /** The value stored for a field whose literal reaches the server intact: its normalized text, or `NULL`. */
  function StoredValue(field: string): Value
  {
    SqlValue(Normalized(field))
  }

  /** The position of `name` in `cols`, or `|cols|` when it is absent. */
  function PositionOf(cols: seq<string>, name: string): (i: nat)
    ensures i <= |cols|
    ensures i < |cols| ==> cols[i] == name
    ensures i == |cols| <==> name !in cols
  {
    if |cols| == 0 then 0
    else if cols[0] == name then 0
    else 1 + PositionOf(cols[1..], name)
  }

  /** The value of column `name` in `row`; `NULL` when there is no such column. */
  function Cell(cols: seq<string>, row: Row, name: string): Value
  {
    var i := PositionOf(cols, name);
    if i < |row| then row[i] else Null
  }

  /** SQL `=`: true only between equal non-`NULL` values. */
  predicate SqlEq(a: Value, b: Value)
  {
    a.Str? && b.Str? && a.text == b.text
  }

  /** SQL `<=` on the decimal `BIGINT` values of `export_date`; false when either side is not a number. */
  predicate SqlLe(a: Value, b: Value)
  {
    && a.Str? && b.Str? && |a.text| > 0 && |b.text| > 0 && AllDigits(a.text) && AllDigits(b.text)
    && DigitsValue(a.text) <= DigitsValue(b.text)
  }

  /** The values of the key columns of a row. */
  function KeyOf(cols: seq<string>, key: seq<string>, row: Row): seq<Value>
  {
    seq(|key|, i requires 0 <= i < |key| => Cell(cols, row, key[i]))
  }

  /**
   * The pruning predicate of the incremental merge: the incoming row `n`
   * (of a table with columns `ic`) matches the stored row `r` (columns `lc`)
   * on every primary-key column and is no older than it.
   */
  predicate Supersedes(lc: seq<string>, ic: seq<string>, key: seq<string>, r: Row, n: Row)
  {
    && (forall i :: 0 <= i < |key| ==> SqlEq(Cell(lc, r, key[i]), Cell(ic, n, key[i])))
    && SqlLe(Cell(lc, r, ExportDate), Cell(ic, n, ExportDate))
  }

  /** Some row of `incRows` supersedes `r`. */
  predicate Superseded(lc: seq<string>, ic: seq<string>, key: seq<string>, r: Row, incRows: seq<Row>)
  {
    exists j :: 0 <= j < |incRows| && Supersedes(lc, ic, key, r, incRows[j])
  }

  /** The stored rows no incoming row supersedes, in their order. */
  function Pruned(lc: seq<string>, ic: seq<string>, key: seq<string>, liveRows: seq<Row>, incRows: seq<Row>): seq<Row>
  {
    if |liveRows| == 0 then []
    else if Superseded(lc, ic, key, liveRows[0], incRows) then Pruned(lc, ic, key, liveRows[1..], incRows)
    else [liveRows[0]] + Pruned(lc, ic, key, liveRows[1..], incRows)
  }

  /**
   * A row survives the pruning exactly when it is a stored row that no
   * incoming row supersedes.
   */
  lemma {:induction false} PrunedMembers(lc: seq<string>, ic: seq<string>, key: seq<string>, liveRows: seq<Row>, incRows: seq<Row>, r: Row)
    ensures r in Pruned(lc, ic, key, liveRows, incRows) <==> r in liveRows && !Superseded(lc, ic, key, r, incRows)
    decreases |liveRows|
  {
    if |liveRows| > 0 {
      PrunedMembers(lc, ic, key, liveRows[1..], incRows, r);
      assert liveRows == [liveRows[0]] + liveRows[1..];
    }
  }

  /** The rows `CREATE TABLE un IGNORE SELECT * FROM inc UNION ALL <pruned live>` holds. */
  function Merged(lc: seq<string>, ic: seq<string>, key: seq<string>, liveRows: seq<Row>, incRows: seq<Row>): seq<Row>
  {
    incRows + Pruned(lc, ic, key, liveRows, incRows)
  }

  /**
   * The merged table keeps every incoming row, and a stored row exactly
   * when no incoming row matches it on the whole primary key with an
   * `export_date` at least as late.
   */
  lemma MergedMembers(lc: seq<string>, ic: seq<string>, key: seq<string>, liveRows: seq<Row>, incRows: seq<Row>, r: Row)
    ensures r in incRows ==> r in Merged(lc, ic, key, liveRows, incRows)
    ensures r in liveRows && !Superseded(lc, ic, key, r, incRows) ==> r in Merged(lc, ic, key, liveRows, incRows)
    ensures r in Merged(lc, ic, key, liveRows, incRows) ==>
      r in incRows || (r in liveRows && !Superseded(lc, ic, key, r, incRows))
  {
    PrunedMembers(lc, ic, key, liveRows, incRows, r);
  }

  /** One row of a batch statement added to a table, or `None` when it breaks the primary key of a plain `INSERT`. */
  function AddRow(t: Table, verb: Verb, ignore: bool, row: Row): (r: Option<Table>)
    ensures r.Some? ==> r.value.columns == t.columns && r.value.types == t.types && r.value.key == t.key
    ensures t.key == [] ==> r == Some(t.(rows := t.rows + [row]))
  {
    if t.key == [] then Some(t.(rows := t.rows + [row]))
    else
      var k := KeyOf(t.columns, t.key, row);
      var kept := Keep(t.columns, t.key, t.rows, k);
      if |kept| == |t.rows| then Some(t.(rows := t.rows + [row]))
      else match verb
        case ReplaceInto => Some(t.(rows := kept + [row]))
        case InsertInto => if ignore then Some(t) else None
  }

  /** The rows whose key differs from `k`. */
  function Keep(cols: seq<string>, key: seq<string>, rows: seq<Row>, k: seq<Value>): (r: seq<Row>)
    ensures |r| <= |rows|
  {
    if |rows| == 0 then []
    else if KeyOf(cols, key, rows[0]) == k then Keep(cols, key, rows[1..], k)
    else [rows[0]] + Keep(cols, key, rows[1..], k)
  }

  /** The rows of a batch added one after the other; `None` when one of them is refused. */
  function AddRows(t: Table, verb: Verb, ignore: bool, rows: seq<Row>): (r: Option<Table>)
    ensures r.Some? ==> r.value.columns == t.columns && r.value.types == t.types && r.value.key == t.key
    decreases |rows|
  {
    if |rows| == 0 then Some(t)
    else match AddRow(t, verb, ignore, rows[0])
      case None => None
      case Some(t1) => AddRows(t1, verb, ignore, rows[1..])
  }

  /** The row a record of fields becomes. */
  function RowOf(rec: seq<string>): (r: Row)
    ensures |r| == |rec|
  {
    seq(|rec|, i requires 0 <= i < |rec| => StoredValue(rec[i]))
  }

  function RowsOf(recs: seq<seq<string>>): (r: seq<Row>)
    ensures |r| == |recs|
  {
    seq(|recs|, i requires 0 <= i < |recs| => RowOf(recs[i]))
  }

  /** No name occurs twice in `cols`. */
  predicate DistinctNames(cols: seq<string>)
  {
    forall i, j :: 0 <= i < j < |cols| ==> cols[i] != cols[j]
  }

  /**
   * A column list the server takes for a table with columns `tcols`:
   * distinct names of its columns, in any order (a repeated name is
   * error 1110, "Column specified twice").
   */
  predicate ColumnList(cols: seq<string>, tcols: seq<string>)
  {
    DistinctNames(cols) && forall i :: 0 <= i < |cols| ==> cols[i] in tcols
  }

  /** A row given for the columns `cols`, laid out in the columns `tcols`: a column the list leaves out is `NULL`. */
  function Widened(tcols: seq<string>, cols: seq<string>, row: Row): (r: Row)
    ensures |r| == |tcols|
  {
    seq(|tcols|, k requires 0 <= k < |tcols| => Cell(cols, row, tcols[k]))
  }

  /**
   * The rows a batch naming the columns `cols` adds to a table with columns
   * `tcols`: its records' rows as they are when the list is the table's
   * own, each laid out in the table's columns otherwise.
   */
  function BatchRows(tcols: seq<string>, cols: seq<string>, recs: seq<seq<string>>): (r: seq<Row>)
    ensures |r| == |recs|
  {
    if cols == tcols then RowsOf(recs)
    else seq(|recs|, i requires 0 <= i < |recs| => Widened(tcols, cols, RowOf(recs[i])))
  }

  /** The first position of a name in a list without repeats is where it stands. */
  lemma {:induction false} PositionOfDistinct(cols: seq<string>, j: nat)
    requires DistinctNames(cols) && j < |cols|
    ensures PositionOf(cols, cols[j]) == j
    decreases j
  {
    if j > 0 {
      assert cols[0] != cols[j];
      assert DistinctNames(cols[1..]) by {
        forall a, b | 0 <= a < b < |cols[1..]|
          ensures cols[1..][a] != cols[1..][b]
        {
          assert cols[1..][a] == cols[a + 1] && cols[1..][b] == cols[b + 1];
        }
      }
      PositionOfDistinct(cols[1..], j - 1);
    }
  }

  /**
   * In a widened row every column of the list reads the value given for
   * it, and every other column of the table reads `NULL`.
   */
  lemma WidenedCells(tcols: seq<string>, cols: seq<string>, row: Row)
    requires DistinctNames(cols) && |row| == |cols|
    ensures forall j :: 0 <= j < |cols| && cols[j] in tcols ==> Cell(tcols, Widened(tcols, cols, row), cols[j]) == row[j]
    ensures forall name :: name in tcols && name !in cols ==> Cell(tcols, Widened(tcols, cols, row), name) == Null
  {
    var w := Widened(tcols, cols, row);
    forall j | 0 <= j < |cols| && cols[j] in tcols
      ensures Cell(tcols, w, cols[j]) == row[j]
    {
      PositionOfDistinct(cols, j);
    }
  }

  /** A batch's rows split with its records. */
  lemma BatchRowsAppend(tcols: seq<string>, cols: seq<string>, a: seq<seq<string>>, b: seq<seq<string>>)
    ensures BatchRows(tcols, cols, a + b) == BatchRows(tcols, cols, a) + BatchRows(tcols, cols, b)
  {
  }

  /** Into a table without a key a batch adds its rows at the end, whatever its verb. */
  lemma {:induction false} AddRowsWithoutKey(t: Table, verb: Verb, ignore: bool, rows: seq<Row>)
    requires t.key == []
    ensures AddRows(t, verb, ignore, rows) == Some(t.(rows := t.rows + rows))
    decreases |rows|
  {
    if |rows| > 0 {
      var t1 := t.(rows := t.rows + [rows[0]]);
      assert AddRow(t, verb, ignore, rows[0]) == Some(t1);
      assert AddRows(t, verb, ignore, rows) == AddRows(t1, verb, ignore, rows[1..]);
      AddRowsWithoutKey(t1, verb, ignore, rows[1..]);
      assert t1.rows + rows[1..] == t.rows + rows by {
        assert rows == [rows[0]] + rows[1..];
      }
    } else {
      assert t.rows + rows == t.rows;
    }
  }

  // ---------------------------------------------------------------
  // Key clashes
  // ---------------------------------------------------------------

  /** No two rows agree on the key columns. */
  predicate UniqueKeys(cols: seq<string>, key: seq<string>, rows: seq<Row>)
  {
    forall i, j :: 0 <= i < j < |rows| ==> KeyOf(cols, key, rows[i]) != KeyOf(cols, key, rows[j])
  }

  /** The keys of the rows, in order. */
  function KeysOf(cols: seq<string>, key: seq<string>, rows: seq<Row>): (ks: seq<seq<Value>>)
    ensures |ks| == |rows|
  {
    seq(|rows|, i requires 0 <= i < |rows| => KeyOf(cols, key, rows[i]))
  }

  /** The rows of `rows` that share their key with no row of `others`, in their order. */
  function Unmatched(cols: seq<string>, key: seq<string>, rows: seq<Row>, others: seq<Row>): (r: seq<Row>)
    ensures |r| <= |rows|
  {
    if |rows| == 0 then []
    else if KeyOf(cols, key, rows[0]) in KeysOf(cols, key, others) then Unmatched(cols, key, rows[1..], others)
    else [rows[0]] + Unmatched(cols, key, rows[1..], others)
  }

  /** `rows` can be given to `t` under `REPLACE`: `t` has no key, or no two of the rows share a key. */
  predicate DistinctKeys(t: Table, rows: seq<Row>)
  {
    t.key == [] || UniqueKeys(t.columns, t.key, rows)
  }

  /**
   * What `REPLACE` of rows with pairwise distinct keys leaves: the stored
   * rows that share a key with none of them, then the new rows; a table
   * without a key gains them at the end.
   */
  function ReplacedRows(t: Table, rows: seq<Row>): seq<Row>
  {
    if t.key == [] then t.rows + rows else Unmatched(t.columns, t.key, t.rows, rows) + rows
  }

  /** The rows whose key differs from `k` are all rows when none has key `k`. */
  lemma {:induction false} KeepAll(cols: seq<string>, key: seq<string>, rows: seq<Row>, k: seq<Value>)
    requires k !in KeysOf(cols, key, rows)
    ensures Keep(cols, key, rows, k) == rows
    decreases |rows|
  {
    if |rows| > 0 {
      assert KeysOf(cols, key, rows[1..]) == KeysOf(cols, key, rows)[1..];
      assert KeysOf(cols, key, rows)[0] == KeyOf(cols, key, rows[0]);
      KeepAll(cols, key, rows[1..], k);
      assert rows == [rows[0]] + rows[1..];
    }
  }

  /** When some row has key `k`, keeping the others loses a row. */
  lemma {:induction false} KeepDrops(cols: seq<string>, key: seq<string>, rows: seq<Row>, k: seq<Value>)
    requires k in KeysOf(cols, key, rows)
    ensures |Keep(cols, key, rows, k)| < |rows|
    decreases |rows|
  {
    if KeyOf(cols, key, rows[0]) != k {
      var i :| 0 <= i < |rows| && KeysOf(cols, key, rows)[i] == k;
      assert KeysOf(cols, key, rows[1..])[i - 1] == k;
      KeepDrops(cols, key, rows[1..], k);
    }
  }

  /** A row keeps its place in a table exactly when its key is not `k`: keeping is matching against one row. */
  lemma {:induction false} KeepIsUnmatched(cols: seq<string>, key: seq<string>, rows: seq<Row>, n: Row)
    ensures Keep(cols, key, rows, KeyOf(cols, key, n)) == Unmatched(cols, key, rows, [n])
    decreases |rows|
  {
    if |rows| > 0 {
      assert KeysOf(cols, key, [n]) == [KeyOf(cols, key, n)];
      KeepIsUnmatched(cols, key, rows[1..], n);
    }
  }

  /** The keys of consecutive rows are consecutive. */
  lemma KeysOfAppend(cols: seq<string>, key: seq<string>, a: seq<Row>, b: seq<Row>)
    ensures KeysOf(cols, key, a + b) == KeysOf(cols, key, a) + KeysOf(cols, key, b)
  {
  }

  /** Matching against two runs of rows one after the other is matching against both. */
  lemma {:induction false} UnmatchedTwice(cols: seq<string>, key: seq<string>, rows: seq<Row>, a: seq<Row>, b: seq<Row>)
    ensures Unmatched(cols, key, Unmatched(cols, key, rows, a), b) == Unmatched(cols, key, rows, a + b)
    decreases |rows|
  {
    KeysOfAppend(cols, key, a, b);
    if |rows| > 0 {
      UnmatchedTwice(cols, key, rows[1..], a, b);
      var u := Unmatched(cols, key, rows, a);
      if KeyOf(cols, key, rows[0]) !in KeysOf(cols, key, a) {
        assert u == [rows[0]] + Unmatched(cols, key, rows[1..], a);
        assert u[1..] == Unmatched(cols, key, rows[1..], a);
      }
    }
  }

  /** Matching distributes over consecutive rows. */
  lemma {:induction false} UnmatchedAppend(cols: seq<string>, key: seq<string>, a: seq<Row>, b: seq<Row>, others: seq<Row>)
    ensures Unmatched(cols, key, a + b, others) == Unmatched(cols, key, a, others) + Unmatched(cols, key, b, others)
    decreases |a|
  {
    if |a| == 0 {
      assert a + b == b;
    } else {
      assert (a + b)[0] == a[0] && (a + b)[1..] == a[1..] + b;
      UnmatchedAppend(cols, key, a[1..], b, others);
    }
  }

  /** Rows none of whose keys occur among `others` are all unmatched. */
  lemma {:induction false} UnmatchedNone(cols: seq<string>, key: seq<string>, rows: seq<Row>, others: seq<Row>)
    requires forall i :: 0 <= i < |rows| ==> KeyOf(cols, key, rows[i]) !in KeysOf(cols, key, others)
    ensures Unmatched(cols, key, rows, others) == rows
    decreases |rows|
  {
    if |rows| > 0 {
      UnmatchedNone(cols, key, rows[1..], others);
      assert rows == [rows[0]] + rows[1..];
    }
  }

  /** Matching against one more row whose key no row has changes nothing. */
  lemma {:induction false} UnmatchedExtra(cols: seq<string>, key: seq<string>, rows: seq<Row>, others: seq<Row>, x: Row)
    requires forall i :: 0 <= i < |rows| ==> KeyOf(cols, key, rows[i]) != KeyOf(cols, key, x)
    ensures Unmatched(cols, key, rows, others + [x]) == Unmatched(cols, key, rows, others)
    decreases |rows|
  {
    KeysOfAppend(cols, key, others, [x]);
    if |rows| > 0 {
      UnmatchedExtra(cols, key, rows[1..], others, x);
    }
  }

  /** A key that is one of the rows' keys is the key of one of them. */
  lemma KeyIn(cols: seq<string>, key: seq<string>, rows: seq<Row>, k: seq<Value>) returns (i: nat)
    requires k in KeysOf(cols, key, rows)
    ensures i < |rows| && KeyOf(cols, key, rows[i]) == k
  {
    i :| 0 <= i < |rows| && KeysOf(cols, key, rows)[i] == k;
  }

  /**
   * `REPLACE` of rows with pairwise distinct keys deletes every stored row
   * that shares a key with one of them, keeping the others in order, and
   * adds the new rows at the end; it is never refused.
   */
  lemma {:induction false} AddRowsReplace(t: Table, ignore: bool, rows: seq<Row>)
    requires DistinctKeys(t, rows)
    ensures AddRows(t, ReplaceInto, ignore, rows) == Some(t.(rows := ReplacedRows(t, rows)))
    decreases |rows|
  {
    if t.key == [] {
      AddRowsWithoutKey(t, ReplaceInto, ignore, rows);
    } else if |rows| == 0 {
      UnmatchedNone(t.columns, t.key, t.rows, rows);
      assert t.rows + rows == t.rows;
    } else {
      var n, rest := rows[0], rows[1..];
      var t1 := t.(rows := Unmatched(t.columns, t.key, t.rows, [n]) + [n]);
      ReplaceRow(t, ignore, n);
      assert UniqueKeys(t.columns, t.key, rest) by {
        forall i, j | 0 <= i < j < |rest|
          ensures KeyOf(t.columns, t.key, rest[i]) != KeyOf(t.columns, t.key, rest[j])
        {
          assert rest[i] == rows[i + 1] && rest[j] == rows[j + 1];
        }
      }
      AddRowsReplace(t1, ignore, rest);
      ReplacedStep(t, rows);
    }
  }

  /** `REPLACE` of one row into a keyed table deletes the stored row with its key, if any, and adds it at the end. */
  lemma ReplaceRow(t: Table, ignore: bool, n: Row)
    requires t.key != []
    ensures AddRow(t, ReplaceInto, ignore, n) == Some(t.(rows := Unmatched(t.columns, t.key, t.rows, [n]) + [n]))
  {
    var k := KeyOf(t.columns, t.key, n);
    if k !in KeysOf(t.columns, t.key, t.rows) {
      KeepAll(t.columns, t.key, t.rows, k);
    } else {
      KeepDrops(t.columns, t.key, t.rows, k);
    }
    KeepIsUnmatched(t.columns, t.key, t.rows, n);
  }

  /** Replacing the first row, then the rest, of rows with distinct keys is replacing them all. */
  lemma {:induction false} ReplacedStep(t: Table, rows: seq<Row>)
    requires t.key != [] && |rows| > 0 && UniqueKeys(t.columns, t.key, rows)
    ensures var t1 := t.(rows := Unmatched(t.columns, t.key, t.rows, [rows[0]]) + [rows[0]]);
      ReplacedRows(t1, rows[1..]) == ReplacedRows(t, rows)
  {
    var cols, key := t.columns, t.key;
    var n, rest := rows[0], rows[1..];
    assert rows == [n] + rest;
    var u := Unmatched(cols, key, t.rows, [n]);
    var w := Unmatched(cols, key, t.rows, rows);
    UnmatchedTwice(cols, key, t.rows, [n], rest);
    UnmatchedAppend(cols, key, u, [n], rest);
    UniqueTail(cols, key, rows);
    assert KeyOf(cols, key, n) !in KeysOf(cols, key, rest);
    assert Unmatched(cols, key, [n], rest) == [n];
    assert Unmatched(cols, key, u + [n], rest) == w + [n];
    assert w + [n] + rest == w + rows;
  }

  /**
   * `INSERT IGNORE` of rows with pairwise distinct keys keeps every stored
   * row and adds, in order, the new rows whose key no stored row has; the
   * others are dropped.
   */
  lemma {:induction false} AddRowsIgnore(t: Table, rows: seq<Row>)
    requires t.key != [] && UniqueKeys(t.columns, t.key, rows)
    ensures AddRows(t, InsertInto, true, rows) == Some(t.(rows := t.rows + Unmatched(t.columns, t.key, rows, t.rows)))
    decreases |rows|
  {
    var cols, key := t.columns, t.key;
    if |rows| == 0 {
      assert t.rows + [] == t.rows;
    } else {
      var n, rest := rows[0], rows[1..];
      UniqueTail(cols, key, rows);
      IgnoreRow(t, n);
      var t1 := t.(rows := t.rows + Unmatched(cols, key, [n], t.rows));
      assert AddRows(t, InsertInto, true, rows) == AddRows(t1, InsertInto, true, rest);
      AddRowsIgnore(t1, rest);
      IgnoreCombine(cols, key, t.rows, n, rest);
      assert rows == [n] + rest;
    }
  }

  /** `INSERT IGNORE` of one row into a keyed table adds it when its key is new and drops it otherwise. */
  lemma IgnoreRow(t: Table, n: Row)
    requires t.key != []
    ensures AddRow(t, InsertInto, true, n) == Some(t.(rows := t.rows + Unmatched(t.columns, t.key, [n], t.rows)))
  {
    var k := KeyOf(t.columns, t.key, n);
    if k in KeysOf(t.columns, t.key, t.rows) {
      KeepDrops(t.columns, t.key, t.rows, k);
      assert Unmatched(t.columns, t.key, [n], t.rows) == [];
      assert t.rows + [] == t.rows;
    } else {
      KeepAll(t.columns, t.key, t.rows, k);
      assert Unmatched(t.columns, t.key, [n], t.rows) == [n];
    }
  }

  /** Ignoring one row, then the rest, whose keys all differ from the first's, is ignoring them all. */
  lemma IgnoreCombine(cols: seq<string>, key: seq<string>, stored: seq<Row>, n: Row, rest: seq<Row>)
    requires forall i :: 0 <= i < |rest| ==> KeyOf(cols, key, rest[i]) != KeyOf(cols, key, n)
    ensures var s1 := stored + Unmatched(cols, key, [n], stored);
      s1 + Unmatched(cols, key, rest, s1) == stored + Unmatched(cols, key, [n] + rest, stored)
  {
    var u := Unmatched(cols, key, [n], stored);
    UnmatchedAppend(cols, key, [n], rest, stored);
    if u == [] {
      assert stored + [] == stored;
    } else {
      assert u == [n];
      UnmatchedExtra(cols, key, rest, stored, n);
    }
  }

  /** The rows after the first of rows with distinct keys have distinct keys, none of them the first's. */
  lemma UniqueTail(cols: seq<string>, key: seq<string>, rows: seq<Row>)
    requires |rows| > 0 && UniqueKeys(cols, key, rows)
    ensures UniqueKeys(cols, key, rows[1..])
    ensures forall i :: 0 <= i < |rows[1..]| ==> KeyOf(cols, key, rows[1..][i]) != KeyOf(cols, key, rows[0])
  {
    var rest := rows[1..];
    forall i, j | 0 <= i < j < |rest|
      ensures KeyOf(cols, key, rest[i]) != KeyOf(cols, key, rest[j])
    {
      assert rest[i] == rows[i + 1] && rest[j] == rows[j + 1];
    }
    forall i | 0 <= i < |rest|
      ensures KeyOf(cols, key, rest[i]) != KeyOf(cols, key, rows[0])
    {
      assert rest[i] == rows[i + 1];
    }
  }

  /**
   * Into a keyed table whose stored keys are distinct, a plain `INSERT`
   * goes through exactly when no two of the stored and new rows share a
   * key: a single clash refuses the whole batch.
   */
  lemma {:induction false} AddRowsInsert(t: Table, rows: seq<Row>)
    requires t.key != [] && UniqueKeys(t.columns, t.key, t.rows)
    ensures AddRows(t, InsertInto, false, rows).Some? <==> UniqueKeys(t.columns, t.key, t.rows + rows)
    decreases |rows|
  {
    var cols, key := t.columns, t.key;
    if |rows| == 0 {
      assert t.rows + rows == t.rows;
    } else {
      var n, rest := rows[0], rows[1..];
      var k := KeyOf(cols, key, n);
      var all := t.rows + rows;
      if k in KeysOf(cols, key, t.rows) {
        KeepDrops(cols, key, t.rows, k);
        var i := KeyIn(cols, key, t.rows, k);
        assert all[i] == t.rows[i] && all[|t.rows|] == n;
      } else {
        KeepAll(cols, key, t.rows, k);
        var t1 := t.(rows := t.rows + [n]);
        assert AddRow(t, InsertInto, false, n) == Some(t1);
        forall i, j | 0 <= i < j < |t1.rows|
          ensures KeyOf(cols, key, t1.rows[i]) != KeyOf(cols, key, t1.rows[j])
        {
          if j == |t.rows| {
            assert KeysOf(cols, key, t.rows)[i] == KeyOf(cols, key, t1.rows[i]);
          }
        }
        AddRowsInsert(t1, rest);
        assert t1.rows + rest == all;
      }
    }
  }

  /** Every key column and `export_date` is a column of both tables. */
  predicate MergeColumns(lc: seq<string>, ic: seq<string>, key: seq<string>)
  {
    && ExportDate in lc && ExportDate in ic
    && forall i :: 0 <= i < |key| ==> key[i] in lc && key[i] in ic
  }

  /**
   * Whether the server carries out the statement. It refuses to create a
   * table that exists, a table without columns, with a column named twice
   * (error 1060, "Duplicate column name") or with a type missing,
   * a key on a missing table, on a table that has one, on an unknown column,
   * with no columns (`PRIMARY KEY ()` is a syntax error) or on rows that
   * share a key (a duplicate entry), a rename from a missing table or onto
   * an existing one, a batch into a missing table, with a column list that
   * repeats a name or names a column the table lacks (a list naming fewer
   * columns than the table has is taken, the others set to `NULL`), with
   * a record of the wrong width, with a field literal broken by the
   * unquoting (the statement is then not valid SQL) or breaking the key of
   * a plain `INSERT`, and a merge whose key is empty (its `WHERE` clause
   * then ends in `AND`) or names unknown columns.
   */
  predicate Applicable(db: Db, c: Command)
  {
    match c
    case DropIfExists(_) => true
    case CreateTable(t, cols, types) => t !in db && |cols| > 0 && DistinctNames(cols) && |types| == |cols|
    case AddPrimaryKey(t, key) =>
      && t in db && db[t].key == [] && |key| > 0
      && (forall i :: 0 <= i < |key| ==> key[i] in db[t].columns)
      && UniqueKeys(db[t].columns, key, db[t].rows)
    case Rename(a, b) => a in db && b !in db
    case InsertRows(verb, ignore, t, cols, recs) =>
      && t in db && ColumnList(cols, db[t].columns)
      && (forall i :: 0 <= i < |recs| ==> |recs[i]| == |cols|)
      && Sendable(recs)
      && AddRows(db[t], verb, ignore, BatchRows(db[t].columns, cols, recs)).Some?
    case CreateUnion(un, live, inc, key) =>
      && un !in db && live in db && inc in db && |key| > 0
      && |db[live].columns| == |db[inc].columns|
      && MergeColumns(db[live].columns, db[inc].columns, key)
    case CountTables(_) => true
    case CountColumns(_) => true
  }

  /** What a statement the server carries out leaves in the database. */
  function Apply(db: Db, c: Command): Db
    requires Applicable(db, c)
  {
    match c
    case DropIfExists(t) => db - {t}
    case CreateTable(t, cols, types) => db[t := Table(cols, types, [], [])]
    case AddPrimaryKey(t, key) => db[t := db[t].(key := key)]
    case Rename(a, b) => (db - {a})[b := db[a]]
    case InsertRows(verb, ignore, t, cols, recs) => db[t := AddRows(db[t], verb, ignore, BatchRows(db[t].columns, cols, recs)).value]
    case CreateUnion(un, live, inc, key) =>
      var l := db[live];
      var n := db[inc];
      db[un := Table(n.columns, n.types, [], Merged(l.columns, n.columns, key, l.rows, n.rows))]
    case CountTables(_) => db
    case CountColumns(_) => db
  }

  /** The table a statement may change, if any. */
  function Touched(c: Command): set<string>
  {
    match c
    case DropIfExists(t) => {t}
    case CreateTable(t, _, _) => {t}
    case AddPrimaryKey(t, _) => {t}
    case Rename(a, b) => {a, b}
    case InsertRows(_, _, t, _, _) => {t}
    case CreateUnion(un, _, _, _) => {un}
    case CountTables(_) => {}
    case CountColumns(_) => {}
  }

  /** `a` and `b` hold the same tables apart from the names in `except`. */
  ghost predicate SameOutside(a: Db, b: Db, except: set<string>)
  {
    forall t :: t !in except ==> (t in a <==> t in b) && (t in a ==> a[t] == b[t])
  }

  /** A statement leaves every table it does not name as it was. */
  lemma ApplyLocal(db: Db, c: Command)
    requires Applicable(db, c)
    ensures SameOutside(db, Apply(db, c), Touched(c))
  {
  }

  /** The answer of `SELECT COUNT(*) FROM information_schema.tables` for one table name. */
  function TableCount(db: Db, t: string): (n: int)
    ensures n == 1 <==> t in db
    ensures n == 0 || n == 1
  {
    if t in db then 1 else 0
  }

  /** The answer of `SELECT COUNT(*) FROM information_schema.COLUMNS` for one table name. */
  function ColumnTotal(db: Db, t: string): (n: nat)
    ensures t !in db ==> n == 0
    ensures t in db ==> n == |db[t].columns|
  {
    if t in db then |db[t].columns| else 0
  }

  /** Whether attempt number `k` (from 0) is scripted to fail; attempts past the end of the script do not. */
  predicate FaultAt(faults: seq<bool>, k: nat)
  {
    k < |faults| && faults[k]
  }

  /**
   * The database behind `Connection.executeQuery`: each statement attempt
   * takes the next entry of the fault script, and fails when that entry
   * says so or when the server refuses the statement; a failed attempt
   * changes no table. `log` lists every attempt in order.
   */
  class Gateway {
    const faults: seq<bool>
    var db: Db
    var log: seq<Command>

    constructor(db: Db, faults: seq<bool>)
      ensures this.db == db && this.faults == faults && log == []
    {
      this.db := db;
      this.faults := faults;
      log := [];
    }

    /** One attempt at statement `c`; `ok` is false where `executeQuery` throws `SQLException`. */
    method Execute(c: Command) returns (ok: bool)
      modifies this
      ensures ok == (!FaultAt(faults, |old(log)|) && Applicable(old(db), c))
      ensures db == (if ok then Apply(old(db), c) else old(db))
      ensures log == old(log) + [c]
    {
      ok := !FaultAt(faults, |log|) && Applicable(db, c);
      if ok {
        db := Apply(db, c);
      }
      log := log + [c];
    }
  }
}
