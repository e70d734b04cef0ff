// What the ingesters' statement sequences do to the database, as functions
// of the database and of the scripted failures: the retrying statement
// runner, the batch loop that copies parsed records into a table, table
// creation, the rename swap and the incremental merge.

module Statements {
  import opened Text
  import opened FeedFormat
  import opened Database
  import opened IngesterBase

  // ---------------------------------------------------------------
  // Running one statement
  // ---------------------------------------------------------------

  /** What the gateway has seen so far: its tables and how many statement attempts it has taken. */
  datatype Store = Store(db: Db, attempts: nat)

  /** Whether a statement went through, and the store after its attempts. */
  datatype Ran = Ran(ok: bool, store: Store)

  /**
   * Attempts after the first: the live `executeQuery` is called with a
   * retry count of 2 everywhere; the main tree's `Connection.executeQuery`
   * runs a statement that throws once more without asking for generated
   * keys; the legacy tree sends each statement once.
   */
  function Retries(variant: Variant): nat
  {
    match variant
    case Live => 2
    case MainTree => 1
    case LegacyTree => 0
  }

  /** No attempt from number `n` on is scripted to fail. */
  predicate NoFaultFrom(faults: seq<bool>, n: nat)
  {
    forall j :: n <= j < |faults| ==> !faults[j]
  }

  /**
   * `executeQuery(conn, c, retries)`: attempts until one goes through or
   * `retries + 1` attempts have failed.
   */
  function Run(faults: seq<bool>, s: Store, c: Command, retries: nat): (r: Ran)
    ensures r.ok ==> Applicable(s.db, c) && r.store.db == Apply(s.db, c)
    ensures !r.ok ==> r.store.db == s.db
    ensures s.attempts < r.store.attempts <= s.attempts + retries + 1
    decreases retries
  {
    if !FaultAt(faults, s.attempts) && Applicable(s.db, c) then Ran(true, Store(Apply(s.db, c), s.attempts + 1))
    else if retries == 0 then Ran(false, Store(s.db, s.attempts + 1))
    else Run(faults, Store(s.db, s.attempts + 1), c, retries - 1)
  }

  /**
   * A statement that goes through stops at its first attempt not scripted
   * to fail; one that does not go through was refused or had every one of
   * its `retries + 1` attempts fail, and has used them all.
   */
  lemma {:induction false} RunStops(faults: seq<bool>, s: Store, c: Command, retries: nat)
    ensures var r := Run(faults, s, c, retries);
      && (r.ok ==> !FaultAt(faults, r.store.attempts - 1) && forall j :: s.attempts <= j < r.store.attempts - 1 ==> FaultAt(faults, j))
      && (!r.ok ==> r.store.attempts == s.attempts + retries + 1)
      && (!r.ok ==> !Applicable(s.db, c) || forall j :: s.attempts <= j <= s.attempts + retries ==> FaultAt(faults, j))
    decreases retries
  {
    if FaultAt(faults, s.attempts) || !Applicable(s.db, c) {
      if retries > 0 {
        var s1 := Store(s.db, s.attempts + 1);
        assert Run(faults, s, c, retries) == Run(faults, s1, c, retries - 1);
        RunStops(faults, s1, c, retries - 1);
      }
    }
  }

  /**
   * A statement goes through exactly when the server accepts it and one of
   * the first `retries + 1` attempts is not scripted to fail; it stops at
   * the first attempt that goes through, and a statement that does not go
   * through has used up every attempt.
   */
  lemma RunAttempts(faults: seq<bool>, s: Store, c: Command, retries: nat)
    ensures var r := Run(faults, s, c, retries);
      && (r.ok <==> Applicable(s.db, c) && exists j :: s.attempts <= j <= s.attempts + retries && !FaultAt(faults, j))
      && (r.ok ==> !FaultAt(faults, r.store.attempts - 1) && forall j :: s.attempts <= j < r.store.attempts - 1 ==> FaultAt(faults, j))
      && (!r.ok ==> r.store.attempts == s.attempts + retries + 1)
  {
    var r := Run(faults, s, c, retries);
    RunStops(faults, s, c, retries);
    if r.ok {
      var j := r.store.attempts - 1;
      assert s.attempts <= j <= s.attempts + retries && !FaultAt(faults, j);
    }
  }

  /** Without scripted faults a statement goes through exactly when the server accepts it, at its first attempt. */
  lemma RunClean(faults: seq<bool>, s: Store, c: Command, retries: nat)
    requires NoFaultFrom(faults, s.attempts)
    ensures var r := Run(faults, s, c, retries);
      (r.ok <==> Applicable(s.db, c)) && (r.ok ==> r.store.attempts == s.attempts + 1)
  {
    RunAttempts(faults, s, c, retries);
    if Applicable(s.db, c) {
      assert !FaultAt(faults, s.attempts);
    }
  }

  // ---------------------------------------------------------------
  // The batch loop of populateTable
  // ---------------------------------------------------------------

  /** The number of records per statement. */
  const BatchSize: nat := 200

  /**
   * The batch loop from a line on: the store it leaves, the line it stops
   * at, the rows it read, the rows it had read when it sent its last
   * statement (0 when it sent none), the records it sent in order, and the
   * parse fault that ended it, if one did.
   */
  datatype Drained = Drained(store: Store, next: nat, fetched: int, upTo: int, sent: seq<seq<string>>, fault: Option<Fault>)

  /** The statement for one batch. */
  function BatchCommand(f: Feed, verb: Verb, ignore: bool, table: string, recs: seq<seq<string>>): Command
  {
    InsertRows(verb, ignore, table, f.columnNames, recs)
  }

  /**
   * `populateTable`'s loop from line `i`: fetch up to 200 records; a parse
   * fault ends it, an empty batch ends it, and any other batch is sent as
   * one statement whose failure is swallowed before the next round.
   */
  function Drain(f: Feed, i: nat, s: Store, faults: seq<bool>, retries: nat, verb: Verb, ignore: bool, table: string): (d: Drained)
    requires f.Valid() && i <= |f.lines|
    ensures i <= d.next <= |f.lines|
    decreases |f.lines| - i
  {
    var b := TakeRecords(f, i, BatchSize);
    if b.records.Failure? then Drained(s, b.next, b.fetched, 0, [], Some(b.records.error))
    else if |b.records.value| == 0 then Drained(s, b.next, b.fetched, 0, [], None)
    else
      BatchAdvances(f, i, BatchSize);
      var ran := Run(faults, s, BatchCommand(f, verb, ignore, table, b.records.value), retries);
      var rest := Drain(f, b.next, ran.store, faults, retries, verb, ignore, table);
      Drained(rest.store, rest.next, b.fetched + rest.fetched, b.fetched + rest.upTo,
              b.records.value + rest.sent, rest.fault)
  }

  /** One round of `Drain`. */
  lemma DrainStep(f: Feed, i: nat, s: Store, faults: seq<bool>, retries: nat, verb: Verb, ignore: bool, table: string)
    requires f.Valid() && i <= |f.lines|
    ensures var b := TakeRecords(f, i, BatchSize);
      var d := Drain(f, i, s, faults, retries, verb, ignore, table);
      b.records.Success? && |b.records.value| > 0 ==>
        var ran := Run(faults, s, BatchCommand(f, verb, ignore, table, b.records.value), retries);
        var rest := Drain(f, b.next, ran.store, faults, retries, verb, ignore, table);
        && i < b.next
        && d.store == rest.store && d.next == rest.next && d.fault == rest.fault
        && d.fetched == b.fetched + rest.fetched && d.upTo == b.fetched + rest.upTo
        && d.sent == b.records.value + rest.sent
  {
    BatchAdvances(f, i, BatchSize);
  }

  /** The loop stops at a fault or an empty batch, having sent nothing more. */
  lemma DrainStops(f: Feed, i: nat, s: Store, faults: seq<bool>, retries: nat, verb: Verb, ignore: bool, table: string)
    requires f.Valid() && i <= |f.lines|
    requires var b := TakeRecords(f, i, BatchSize); b.records.Failure? || |b.records.value| == 0
    ensures var b := TakeRecords(f, i, BatchSize);
      Drain(f, i, s, faults, retries, verb, ignore, table)
        == Drained(s, b.next, b.fetched, 0, [], if b.records.Failure? then Some(b.records.error) else None)
  {
  }

  /** Proof plumbing: the rows of consecutive record lists are consecutive. */
  lemma RowsOfAppend(a: seq<seq<string>>, b: seq<seq<string>>)
    ensures RowsOf(a + b) == RowsOf(a) + RowsOf(b)
  {
  }

  /** The loop changes no table but its target. */
  lemma {:induction false} DrainLocal(f: Feed, i: nat, s: Store, faults: seq<bool>, retries: nat, verb: Verb, ignore: bool, table: string)
    requires f.Valid() && i <= |f.lines|
    ensures SameOutside(s.db, Drain(f, i, s, faults, retries, verb, ignore, table).store.db, {table})
    ensures s.attempts <= Drain(f, i, s, faults, retries, verb, ignore, table).store.attempts
    decreases |f.lines| - i
  {
    var b := TakeRecords(f, i, BatchSize);
    if b.records.Success? && |b.records.value| > 0 {
      DrainStep(f, i, s, faults, retries, verb, ignore, table);
      var c := BatchCommand(f, verb, ignore, table, b.records.value);
      var ran := Run(faults, s, c, retries);
      if ran.ok {
        ApplyLocal(s.db, c);
      }
      DrainLocal(f, b.next, ran.store, faults, retries, verb, ignore, table);
    }
  }

  /** `rows` can be added to `t` without a key clash: `t` has no key, or the old and new rows have pairwise distinct keys. */
  predicate Loadable(t: Table, rows: seq<Row>)
  {
    t.key == [] || UniqueKeys(t.columns, t.key, t.rows + rows)
  }

  /** A batch of rows whose keys clash neither with each other nor with the table is appended whole, whatever its verb. */
  lemma {:induction false} AddRowsLoadable(t: Table, verb: Verb, ignore: bool, rows: seq<Row>)
    requires Loadable(t, rows)
    ensures AddRows(t, verb, ignore, rows) == Some(t.(rows := t.rows + rows))
    decreases |rows|
  {
    if t.key == [] {
      AddRowsWithoutKey(t, verb, ignore, rows);
    } else if |rows| > 0 {
      var all := t.rows + rows;
      var k := KeyOf(t.columns, t.key, rows[0]);
      forall i | 0 <= i < |t.rows|
        ensures KeyOf(t.columns, t.key, t.rows[i]) != k
      {
        assert t.rows[i] == all[i] && rows[0] == all[|t.rows|];
      }
      KeepAll(t.columns, t.key, t.rows, k);
      var t1 := t.(rows := t.rows + [rows[0]]);
      assert AddRow(t, verb, ignore, rows[0]) == Some(t1);
      assert t1.rows + rows[1..] == all by {
        assert rows == [rows[0]] + rows[1..];
      }
      AddRowsLoadable(t1, verb, ignore, rows[1..]);
    } else {
      assert t.rows + rows == t.rows;
    }
  }

  /**
   * A batch sent without faults to a table whose columns are distinct, of
   * records as wide as the table, with no field literal broken by the
   * unquoting, that can be loaded, is appended at its first attempt.
   */
  lemma InsertClean(faults: seq<bool>, s: Store, retries: nat, verb: Verb, ignore: bool, table: string, recs: seq<seq<string>>)
    requires table in s.db && DistinctNames(s.db[table].columns) && Loadable(s.db[table], RowsOf(recs)) && Sendable(recs)
    requires NoFaultFrom(faults, s.attempts)
    requires forall k :: 0 <= k < |recs| ==> |recs[k]| == |s.db[table].columns|
    ensures var r := Run(faults, s, InsertRows(verb, ignore, table, s.db[table].columns, recs), retries);
      && r.ok && r.store.attempts == s.attempts + 1
      && r.store.db == s.db[table := s.db[table].(rows := s.db[table].rows + RowsOf(recs))]
  {
    var c := InsertRows(verb, ignore, table, s.db[table].columns, recs);
    AddRowsLoadable(s.db[table], verb, ignore, RowsOf(recs));
    assert Applicable(s.db, c);
    RunClean(faults, s, c, retries);
  }

  /** A table that can take some rows can take the first of them. */
  lemma LoadablePrefix(t: Table, a: seq<Row>, b: seq<Row>)
    requires Loadable(t, a + b)
    ensures Loadable(t, a)
  {
    if t.key != [] {
      var all := t.rows + (a + b);
      forall i, j | 0 <= i < j < |t.rows + a|
        ensures KeyOf(t.columns, t.key, (t.rows + a)[i]) != KeyOf(t.columns, t.key, (t.rows + a)[j])
      {
        assert (t.rows + a)[i] == all[i] && (t.rows + a)[j] == all[j];
      }
    }
  }

  /**
   * Into an existing table whose columns are the feed's, all distinct, with no statement
   * attempt failing, every record the loop sends as wide as the columns,
   * no field literal broken and no key clash among the old rows and the
   * new, the loop appends every record it sends, in order, each field
   * turned into its stored value.
   */
  lemma {:induction false} DrainAppends(f: Feed, i: nat, s: Store, faults: seq<bool>, retries: nat, verb: Verb, ignore: bool, table: string)
    requires f.Valid() && i <= |f.lines|
    requires table in s.db && s.db[table].columns == f.columnNames && DistinctNames(f.columnNames)
    requires NoFaultFrom(faults, s.attempts)
    requires var d := Drain(f, i, s, faults, retries, verb, ignore, table);
      && (forall k :: 0 <= k < |d.sent| ==> |d.sent[k]| == |f.columnNames|)
      && Sendable(d.sent) && Loadable(s.db[table], RowsOf(d.sent))
    ensures var d := Drain(f, i, s, faults, retries, verb, ignore, table);
      && table in d.store.db
      && d.store.db[table] == s.db[table].(rows := s.db[table].rows + RowsOf(d.sent))
    decreases |f.lines| - i
  {
    var d := Drain(f, i, s, faults, retries, verb, ignore, table);
    var b := TakeRecords(f, i, BatchSize);
    if b.records.Success? && |b.records.value| > 0 {
      DrainStep(f, i, s, faults, retries, verb, ignore, table);
      var recs := b.records.value;
      var ran := Run(faults, s, BatchCommand(f, verb, ignore, table, recs), retries);
      var rest := Drain(f, b.next, ran.store, faults, retries, verb, ignore, table);
      WidthsSplit(recs, rest.sent, |f.columnNames|);
      SendableSplit(recs, rest.sent);
      RowsOfAppend(recs, rest.sent);
      LoadablePrefix(s.db[table], RowsOf(recs), RowsOf(rest.sent));
      InsertClean(faults, s, retries, verb, ignore, table, recs);
      LoadableRest(s.db[table], RowsOf(recs), RowsOf(rest.sent));
      DrainAppends(f, b.next, ran.store, faults, retries, verb, ignore, table);
      AppendsCombine(s.db[table], recs, rest.sent);
    } else {
      assert s.db[table].rows + RowsOf(d.sent) == s.db[table].rows;
    }
  }

  /** After the first rows are appended, the table can take the rest. */
  lemma LoadableRest(t: Table, a: seq<Row>, b: seq<Row>)
    requires Loadable(t, a + b)
    ensures Loadable(t.(rows := t.rows + a), b)
  {
    assert t.rows + a + b == t.rows + (a + b);
  }

  /** Both halves of a list of records of one width have that width. */
  lemma WidthsSplit(a: seq<seq<string>>, b: seq<seq<string>>, n: nat)
    requires forall k :: 0 <= k < |a + b| ==> |(a + b)[k]| == n
    ensures forall k :: 0 <= k < |a| ==> |a[k]| == n
    ensures forall k :: 0 <= k < |b| ==> |b[k]| == n
  {
    forall k | 0 <= k < |a|
      ensures |a[k]| == n
    {
      assert a[k] == (a + b)[k];
    }
    forall k | 0 <= k < |b|
      ensures |b[k]| == n
    {
      assert b[k] == (a + b)[|a| + k];
    }
  }

  /** Both halves of a batch list without broken literals have none. */
  lemma SendableSplit(a: seq<seq<string>>, b: seq<seq<string>>)
    requires Sendable(a + b)
    ensures Sendable(a) && Sendable(b)
  {
    forall i, j | 0 <= i < |a| && 0 <= j < |a[i]|
      ensures !BreaksLiteral(a[i][j])
    {
      assert a[i] == (a + b)[i];
    }
    forall i, j | 0 <= i < |b| && 0 <= j < |b[i]|
      ensures !BreaksLiteral(b[i][j])
    {
      assert b[i] == (a + b)[|a| + i];
    }
  }

  /**
   * A `REPLACE` batch sent without faults, with a column list the table
   * takes, records as wide as the list, no field literal broken and no two
   * records sharing a key, goes through at its first attempt: the stored
   * rows sharing a key with a record are deleted and the records' rows,
   * laid out in the table's columns, added at the end.
   */
  lemma ReplaceClean(faults: seq<bool>, s: Store, retries: nat, table: string, cols: seq<string>, recs: seq<seq<string>>)
    requires table in s.db && ColumnList(cols, s.db[table].columns) && Sendable(recs)
    requires DistinctKeys(s.db[table], BatchRows(s.db[table].columns, cols, recs))
    requires NoFaultFrom(faults, s.attempts)
    requires forall k :: 0 <= k < |recs| ==> |recs[k]| == |cols|
    ensures var r := Run(faults, s, InsertRows(ReplaceInto, false, table, cols, recs), retries);
      && r.ok && r.store.attempts == s.attempts + 1
      && r.store.db == s.db[table := s.db[table].(rows := ReplacedRows(s.db[table], BatchRows(s.db[table].columns, cols, recs)))]
  {
    var c := InsertRows(ReplaceInto, false, table, cols, recs);
    AddRowsReplace(s.db[table], false, BatchRows(s.db[table].columns, cols, recs));
    assert Applicable(s.db, c);
    RunClean(faults, s, c, retries);
  }

  /**
   * The in-place loop: into an existing table that takes the feed's
   * column list, with no statement attempt failing, every record sent as
   * wide as the list, no field literal broken and no two records sharing a
   * key, the table ends as `REPLACE` of all the records sent.
   */
  lemma {:induction false} DrainReplaces(f: Feed, i: nat, s: Store, faults: seq<bool>, retries: nat, table: string)
    requires f.Valid() && i <= |f.lines|
    requires table in s.db && ColumnList(f.columnNames, s.db[table].columns)
    requires NoFaultFrom(faults, s.attempts)
    requires var d := Drain(f, i, s, faults, retries, ReplaceInto, false, table);
      && (forall k :: 0 <= k < |d.sent| ==> |d.sent[k]| == |f.columnNames|)
      && Sendable(d.sent) && DistinctKeys(s.db[table], BatchRows(s.db[table].columns, f.columnNames, d.sent))
    ensures var d := Drain(f, i, s, faults, retries, ReplaceInto, false, table);
      && table in d.store.db
      && d.store.db[table] == s.db[table].(rows := ReplacedRows(s.db[table], BatchRows(s.db[table].columns, f.columnNames, d.sent)))
    decreases |f.lines| - i
  {
    var d := Drain(f, i, s, faults, retries, ReplaceInto, false, table);
    var b := TakeRecords(f, i, BatchSize);
    var t := s.db[table];
    if b.records.Success? && |b.records.value| > 0 {
      DrainStep(f, i, s, faults, retries, ReplaceInto, false, table);
      var recs := b.records.value;
      var ran := Run(faults, s, BatchCommand(f, ReplaceInto, false, table, recs), retries);
      var rest := Drain(f, b.next, ran.store, faults, retries, ReplaceInto, false, table);
      WidthsSplit(recs, rest.sent, |f.columnNames|);
      SendableSplit(recs, rest.sent);
      BatchRowsAppend(t.columns, f.columnNames, recs, rest.sent);
      DistinctSplit(t, BatchRows(t.columns, f.columnNames, recs), BatchRows(t.columns, f.columnNames, rest.sent));
      ReplaceClean(faults, s, retries, table, f.columnNames, recs);
      DrainReplaces(f, b.next, ran.store, faults, retries, table);
      ReplacedCombine(t, BatchRows(t.columns, f.columnNames, recs), BatchRows(t.columns, f.columnNames, rest.sent));
    } else {
      UnmatchedNone(t.columns, t.key, t.rows, []);
      assert t.rows + [] == t.rows;
    }
  }

  /** Rows with distinct keys split into two runs with distinct keys, and the second's keys do not occur in the first. */
  lemma DistinctSplit(t: Table, a: seq<Row>, b: seq<Row>)
    requires DistinctKeys(t, a + b)
    ensures DistinctKeys(t, a) && DistinctKeys(t.(rows := ReplacedRows(t, a)), b)
    ensures t.key != [] ==> forall i :: 0 <= i < |a| ==> KeyOf(t.columns, t.key, a[i]) !in KeysOf(t.columns, t.key, b)
  {
    if t.key != [] {
      var cols, key := t.columns, t.key;
      forall i, j | 0 <= i < j < |a|
        ensures KeyOf(cols, key, a[i]) != KeyOf(cols, key, a[j])
      {
        assert a[i] == (a + b)[i] && a[j] == (a + b)[j];
      }
      forall i, j | 0 <= i < j < |b|
        ensures KeyOf(cols, key, b[i]) != KeyOf(cols, key, b[j])
      {
        assert b[i] == (a + b)[|a| + i] && b[j] == (a + b)[|a| + j];
      }
      forall i | 0 <= i < |a|
        ensures KeyOf(cols, key, a[i]) !in KeysOf(cols, key, b)
      {
        forall j | 0 <= j < |b|
          ensures KeysOf(cols, key, b)[j] != KeyOf(cols, key, a[i])
        {
          assert a[i] == (a + b)[i] && b[j] == (a + b)[|a| + j];
        }
      }
    }
  }

  /** Replacing one run of rows, then another, is replacing both when all their keys are distinct. */
  lemma ReplacedCombine(t: Table, a: seq<Row>, b: seq<Row>)
    requires DistinctKeys(t, a + b)
    ensures var t1 := t.(rows := ReplacedRows(t, a));
      t1.(rows := ReplacedRows(t1, b)) == t.(rows := ReplacedRows(t, a + b))
  {
    if t.key == [] {
      assert t.rows + a + b == t.rows + (a + b);
    } else {
      DistinctSplit(t, a, b);
      UnmatchedCombine(t.columns, t.key, t.rows, a, b);
    }
  }

  /** Matching the stored rows against `a`, appending `a`, then matching against `b` and appending `b`, when no key of `a` is in `b`. */
  lemma {:induction false} UnmatchedCombine(cols: seq<string>, key: seq<string>, rows: seq<Row>, a: seq<Row>, b: seq<Row>)
    requires forall i :: 0 <= i < |a| ==> KeyOf(cols, key, a[i]) !in KeysOf(cols, key, b)
    ensures Unmatched(cols, key, Unmatched(cols, key, rows, a) + a, b) + b == Unmatched(cols, key, rows, a + b) + (a + b)
  {
    var u := Unmatched(cols, key, rows, a);
    var w := Unmatched(cols, key, rows, a + b);
    UnmatchedAppend(cols, key, u, a, b);
    UnmatchedNone(cols, key, a, b);
    UnmatchedTwice(cols, key, rows, a, b);
    assert Unmatched(cols, key, u + a, b) == w + a;
    assert w + a + b == w + (a + b);
  }

  /** Appending two runs of records one after the other appends their concatenation. */
  lemma AppendsCombine(t: Table, a: seq<seq<string>>, b: seq<seq<string>>)
    ensures var t1 := t.(rows := t.rows + RowsOf(a));
      t1.(rows := t1.rows + RowsOf(b)) == t.(rows := t.rows + RowsOf(a + b))
  {
    RowsOfAppend(a, b);
    assert t.rows + RowsOf(a) + RowsOf(b) == t.rows + (RowsOf(a) + RowsOf(b));
  }

  // ---------------------------------------------------------------
  // Statement sequences
  // ---------------------------------------------------------------

  /**
   * The scripted failures, the retries every statement gets, and whether a
   * statement that goes through only on a resend keeps the generated keys
   * instead of its rows: the main tree's `Connection.executeQuery` resends
   * with plain `execute` and keeps `getGeneratedKeys()`.
   */
  datatype Conn = Conn(faults: seq<bool>, retries: nat, keysOnResend: bool)

  /** The store after a sequence of statements, and the exception that ended it, if one did. */
  datatype Outcome = Outcome(store: Store, err: Option<Thrown>)

  /** One statement through `executeQuery`: one that does not go through throws `SQLException`. */
  function Exec(e: Conn, s: Store, c: Command): (r: Outcome)
    ensures r.err.None? ==> Applicable(s.db, c) && r.store.db == Apply(s.db, c)
    ensures r.err.Some? ==> r.err.value == SqlError && r.store.db == s.db
    ensures s.attempts < r.store.attempts
  {
    var ran := Run(e.faults, s, c, e.retries);
    Outcome(ran.store, if ran.ok then None else Some(SqlError))
  }

  /**
   * A lookup whose answer is read from the `count` column of its row. When
   * the connection keeps the generated keys of a resend, a lookup that went
   * through only on its resend has no such column, and reading it throws
   * `SQLException`; the tables are as the statement left them.
   */
  function Lookup(e: Conn, s: Store, c: Command): (r: Outcome)
    ensures r.store == Exec(e, s, c).store
    ensures r.err.Some? ==> r.err.value == SqlError
    ensures r.err.None? ==> Exec(e, s, c).err.None?
  {
    var x := Exec(e, s, c);
    if x.err.None? && e.keysOnResend && x.store.attempts > s.attempts + 1 then Outcome(x.store, Some(SqlError)) else x
  }

  /** Without scripted faults a lookup goes through at its first attempt, so its answer is read as the statement's. */
  lemma LookupClean(e: Conn, s: Store, c: Command)
    requires NoFaultFrom(e.faults, s.attempts) && Applicable(s.db, c)
    ensures Lookup(e, s, c) == Exec(e, s, c) && Lookup(e, s, c).err.None?
    ensures Lookup(e, s, c).store == Store(Apply(s.db, c), s.attempts + 1)
  {
    assert !FaultAt(e.faults, s.attempts);
  }

  /**
   * On a connection that keeps the generated keys of a resend, a lookup
   * whose first attempt fails and whose resend goes through throws, though
   * the statement itself went through.
   */
  lemma ResentLookupThrows(e: Conn, s: Store, c: Command)
    requires e.keysOnResend && e.retries >= 1 && Applicable(s.db, c)
    requires FaultAt(e.faults, s.attempts) && !FaultAt(e.faults, s.attempts + 1)
    ensures Exec(e, s, c).err.None?
    ensures Lookup(e, s, c) == Outcome(Store(Apply(s.db, c), s.attempts + 2), Some(SqlError))
  {
    var s1 := Store(s.db, s.attempts + 1);
    assert Run(e.faults, s, c, e.retries) == Run(e.faults, s1, c, e.retries - 1);
    assert Run(e.faults, s1, c, e.retries - 1) == Ran(true, Store(Apply(s.db, c), s.attempts + 2));
  }

  /** Without scripted faults a statement throws exactly when the server refuses it. */
  lemma ExecClean(e: Conn, s: Store, c: Command)
    requires NoFaultFrom(e.faults, s.attempts)
    ensures Exec(e, s, c).err.None? <==> Applicable(s.db, c)
  {
    RunClean(e.faults, s, c, e.retries);
  }

  /**
   * `createTable(t)`: drop `t` if it exists, pair every column name with
   * its data type (an index error when the types run out), create the
   * table, then add the primary key.
   */
  function CreateSpec(e: Conn, s: Store, t: string, cols: seq<string>, types: seq<string>, key: seq<string>): (r: Outcome)
    ensures s.attempts < r.store.attempts
  {
    var d := Exec(e, s, DropIfExists(t));
    if d.err.Some? then d
    else if |types| < |cols| then Outcome(d.store, Some(IndexError))
    else
      var c := Exec(e, d.store, CreateTable(t, cols, types[..|cols|]));
      if c.err.Some? then c
      else Exec(e, c.store, AddPrimaryKey(t, key))
  }

  /**
   * A created table is empty and has the file's columns, their types and
   * the primary key; creating it touches no other table, and it fails
   * with `SQLException` or, when there are fewer types than columns, with
   * an index error.
   */
  lemma CreateShape(e: Conn, s: Store, t: string, cols: seq<string>, types: seq<string>, key: seq<string>)
    ensures var r := CreateSpec(e, s, t, cols, types, key);
      && SameOutside(s.db, r.store.db, {t})
      && (r.err.None? ==> |types| >= |cols| && t in r.store.db && r.store.db[t] == Table(cols, types[..|cols|], key, []))
      && (r.err.Some? ==> r.err.value == SqlError || (r.err.value == IndexError && |types| < |cols|))
  {
    var d := Exec(e, s, DropIfExists(t));
    if d.err.None? && |types| >= |cols| {
      var c := Exec(e, d.store, CreateTable(t, cols, types[..|cols|]));
      if c.err.None? {
        var k := Exec(e, c.store, AddPrimaryKey(t, key));
        if k.err.None? {
          assert k.store.db == c.store.db[t := Table(cols, types[..|cols|], key, [])];
        }
      }
    }
  }

  /**
   * Without scripted faults the table is created exactly when there is a
   * type for every column, there is at least one column, no column is
   * named twice, and the key is non-empty and names only columns; too few
   * types is the index error.
   */
  lemma CreateClean(e: Conn, s: Store, t: string, cols: seq<string>, types: seq<string>, key: seq<string>)
    requires NoFaultFrom(e.faults, s.attempts)
    ensures var r := CreateSpec(e, s, t, cols, types, key);
      && (r.err.None? <==> |types| >= |cols| > 0 && DistinctNames(cols) && |key| > 0 && forall i :: 0 <= i < |key| ==> key[i] in cols)
      && (r.err == Some(IndexError) <==> |types| < |cols|)
  {
    var d := Exec(e, s, DropIfExists(t));
    ExecClean(e, s, DropIfExists(t));
    if |types| >= |cols| {
      var c := Exec(e, d.store, CreateTable(t, cols, types[..|cols|]));
      ExecClean(e, d.store, CreateTable(t, cols, types[..|cols|]));
      if c.err.None? {
        ExecClean(e, c.store, AddPrimaryKey(t, key));
      }
    }
  }

  /** The name a table is parked under while its replacement is renamed into place. */
  function Parked(target: string): string
  {
    target + "_old"
  }

  /**
   * `renameAndDrop(source, target)`: drop the parking name, park `target`
   * if it exists, rename `source` to `target`, and drop the parked table.
   */
  function RenameSpec(e: Conn, s: Store, source: string, target: string): (r: Outcome)
  {
    var d := Exec(e, s, DropIfExists(Parked(target)));
    if d.err.Some? then d else ParkTarget(e, d.store, source, target)
  }

  /** `if (tableExists(target)) ALTER TABLE target RENAME target_old`, then the swap. */
  function ParkTarget(e: Conn, s: Store, source: string, target: string): (r: Outcome)
  {
    var x := Lookup(e, s, CountTables(target));
    if x.err.Some? then x
    else if target in s.db then
      var m := Exec(e, x.store, Rename(target, Parked(target)));
      if m.err.Some? then m else Install(e, m.store, source, target)
    else Install(e, x.store, source, target)
  }

  /**
   * Rename `source` to `target`; when that throws, put the parked table
   * back. Either way the parking name is dropped last.
   */
  function Install(e: Conn, s: Store, source: string, target: string): (r: Outcome)
  {
    var r := Exec(e, s, Rename(source, target));
    if r.err.None? then Exec(e, r.store, DropIfExists(Parked(target))) else Restore(e, r.store, target)
  }

  /** `if (tableExists(target_old)) ALTER TABLE target_old RENAME target`, then drop the parking name. */
  function Restore(e: Conn, s: Store, target: string): (r: Outcome)
  {
    var y := Lookup(e, s, CountTables(Parked(target)));
    if y.err.Some? then y
    else if Parked(target) in s.db then
      var z := Exec(e, y.store, Rename(Parked(target), target));
      if z.err.Some? then z else Exec(e, z.store, DropIfExists(Parked(target)))
    else Exec(e, y.store, DropIfExists(Parked(target)))
  }

  /** `source` has been renamed to `target`: `target` holds what `source` held and `source` is gone. */
  ghost predicate Installed(before: Db, after: Db, source: string, target: string)
  {
    source in before && target in after && after[target] == before[source] && source !in after
  }

  /** The swap was undone: `source` and `target` are as they were. */
  ghost predicate Reverted(before: Db, after: Db, source: string, target: string)
  {
    && (source in after <==> source in before) && (source in before ==> after[source] == before[source])
    && (target in after <==> target in before) && (target in before ==> after[target] == before[target])
  }

  /** What the swap starts from: `target` parked (or absent), everything else as in `before`. */
  ghost predicate ParkedFrom(before: Db, s: Db, source: string, target: string)
  {
    && source != target && source != Parked(target) && target != Parked(target)
    && target !in s && SameOutside(before, s, {target, Parked(target)})
    && (Parked(target) in s <==> target in before) && (target in before ==> s[Parked(target)] == before[target])
  }

  /** What a completed swap leaves: the parking name free, and `source` installed or both tables as they were. */
  ghost predicate Swapped(before: Db, after: Db, source: string, target: string)
  {
    && SameOutside(before, after, {source, target, Parked(target)})
    && Parked(target) !in after
    && (Installed(before, after, source, target) || Reverted(before, after, source, target))
  }

  /** The rename went through: the parked table is dropped and `source` is installed. */
  lemma InstallGoes(e: Conn, s: Store, source: string, target: string, before: Db)
    requires ParkedFrom(before, s.db, source, target)
    requires Exec(e, s, Rename(source, target)).err.None?
    ensures var r := Install(e, s, source, target);
      (r.err.None? ==> Swapped(before, r.store.db, source, target) && Installed(before, r.store.db, source, target))
      && (r.err.Some? ==> r.err.value == SqlError && SameOutside(before, r.store.db, {source, target, Parked(target)}))
  {
  }

  /** Putting a parked table back restores `target`; `source` is left alone. */
  lemma RestoreParked(e: Conn, s: Store, source: string, target: string, before: Db)
    requires ParkedFrom(before, s.db, source, target) && Parked(target) in s.db
    ensures var r := Restore(e, s, target);
      (r.err.None? ==> Swapped(before, r.store.db, source, target) && Reverted(before, r.store.db, source, target))
      && (r.err.Some? ==> r.err.value == SqlError && SameOutside(before, r.store.db, {source, target, Parked(target)}))
  {
    var y := Lookup(e, s, CountTables(Parked(target)));
    if y.err.None? {
      var z := Exec(e, y.store, Rename(Parked(target), target));
      if z.err.None? {
        assert z.store.db == (s.db - {Parked(target)})[target := s.db[Parked(target)]];
      }
    }
  }

  /** The rename threw: the parked table, if any, is renamed back, and the parking name dropped. */
  lemma InstallReverts(e: Conn, s: Store, source: string, target: string, before: Db)
    requires ParkedFrom(before, s.db, source, target)
    requires Exec(e, s, Rename(source, target)).err.Some?
    ensures var r := Install(e, s, source, target);
      (r.err.None? ==> Swapped(before, r.store.db, source, target) && Reverted(before, r.store.db, source, target))
      && (r.err.Some? ==> r.err.value == SqlError && SameOutside(before, r.store.db, {source, target, Parked(target)}))
  {
    var r := Exec(e, s, Rename(source, target));
    if Parked(target) in s.db {
      RestoreParked(e, r.store, source, target, before);
    }
  }

  /** Without scripted faults the swap completes, installing `source` exactly when it exists. */
  lemma InstallClean(e: Conn, s: Store, source: string, target: string, before: Db)
    requires ParkedFrom(before, s.db, source, target)
    requires NoFaultFrom(e.faults, s.attempts)
    ensures var r := Install(e, s, source, target);
      r.err.None? && (source in before <==> Installed(before, r.store.db, source, target))
  {
    var r := Exec(e, s, Rename(source, target));
    ExecClean(e, s, Rename(source, target));
    if r.err.None? {
      ExecClean(e, r.store, DropIfExists(Parked(target)));
      InstallGoes(e, s, source, target, before);
    } else {
      var y := Lookup(e, r.store, CountTables(Parked(target)));
      LookupClean(e, r.store, CountTables(Parked(target)));
      if Parked(target) in s.db {
        var z := Exec(e, y.store, Rename(Parked(target), target));
        ExecClean(e, y.store, Rename(Parked(target), target));
        ExecClean(e, z.store, DropIfExists(Parked(target)));
      } else {
        ExecClean(e, y.store, DropIfExists(Parked(target)));
      }
    }
  }

  /**
   * The swap changes only `source`, `target` and the parking name, and
   * throws only `SQLException`. When it completes, the parking name is
   * free and either `target` holds what `source` held, with `source` gone,
   * or both are as they were. Without scripted faults it completes, and it
   * installs `source` exactly when `source` exists.
   */
  lemma RenameOutcome(e: Conn, s: Store, source: string, target: string)
    requires source != target && source != Parked(target)
    ensures var r := RenameSpec(e, s, source, target);
      && SameOutside(s.db, r.store.db, {source, target, Parked(target)})
      && (r.err.Some? ==> r.err.value == SqlError)
      && (r.err.None? ==> Swapped(s.db, r.store.db, source, target))
      && (NoFaultFrom(e.faults, s.attempts) ==> r.err.None? && (source in s.db <==> Installed(s.db, r.store.db, source, target)))
  {
    assert |Parked(target)| > |target|;
    var d := Exec(e, s, DropIfExists(Parked(target)));
    if NoFaultFrom(e.faults, s.attempts) {
      ExecClean(e, s, DropIfExists(Parked(target)));
    }
    if d.err.None? {
      var x := Lookup(e, d.store, CountTables(target));
      if NoFaultFrom(e.faults, s.attempts) {
        LookupClean(e, d.store, CountTables(target));
      }
      if x.err.None? {
        var p := x.store;
        if target in d.store.db {
          var m := Exec(e, x.store, Rename(target, Parked(target)));
          if NoFaultFrom(e.faults, s.attempts) {
            ExecClean(e, x.store, Rename(target, Parked(target)));
          }
          p := m.store;
          if m.err.Some? {
            return;
          }
        }
        assert ParkedFrom(s.db, p.db, source, target);
        if Exec(e, p, Rename(source, target)).err.None? {
          InstallGoes(e, p, source, target, s.db);
        } else {
          InstallReverts(e, p, source, target, s.db);
        }
        if NoFaultFrom(e.faults, s.attempts) {
          InstallClean(e, p, source, target, s.db);
        }
      }
    }
  }

  /**
   * On a connection that keeps the generated keys of a resend, a lookup of
   * `target` that goes through only on its resend throws before anything
   * is parked: only the parking name has been dropped, the old table stays
   * and `source` is not installed.
   */
  lemma RenameResentLookupThrows(e: Conn, s: Store, source: string, target: string)
    requires e.keysOnResend && e.retries >= 1
    requires !FaultAt(e.faults, s.attempts) && FaultAt(e.faults, s.attempts + 1) && !FaultAt(e.faults, s.attempts + 2)
    ensures var r := RenameSpec(e, s, source, target);
      r.err == Some(SqlError) && r.store.db == s.db - {Parked(target)}
  {
    var d := Exec(e, s, DropIfExists(Parked(target)));
    assert d.store == Store(s.db - {Parked(target)}, s.attempts + 1);
    ResentLookupThrows(e, d.store, CountTables(target));
  }

  /**
   * `createUnionTable()`: drop the union table if it exists, then create it
   * from the incoming rows and the stored rows none of them supersedes.
   */
  function UnionSpec(e: Conn, s: Store, un: string, live: string, inc: string, key: seq<string>): (r: Outcome)
  {
    var d := Exec(e, s, DropIfExists(un));
    if d.err.Some? then d else Exec(e, d.store, CreateUnion(un, live, inc, key))
  }

  /** The server accepts the merge: both tables exist with as many columns, the key is non-empty, and every key column and `export_date` is in both. */
  predicate MergeAccepted(db: Db, live: string, inc: string, key: seq<string>)
  {
    && live in db && inc in db && |key| > 0 && |db[live].columns| == |db[inc].columns|
    && MergeColumns(db[live].columns, db[inc].columns, key)
  }

  /** The union table of `after` has the incoming table's columns and types, no key, and the merged rows of `before`. */
  ghost predicate MergedInto(before: Db, after: Db, un: string, live: string, inc: string, key: seq<string>)
  {
    && live in before && inc in before && un in after
    && after[un] == Table(before[inc].columns, before[inc].types, [],
                          Merged(before[live].columns, before[inc].columns, key, before[live].rows, before[inc].rows))
  }

  /**
   * The merge changes only the union table and throws only `SQLException`;
   * when it completes, the union table holds the merge. Without scripted
   * faults it completes exactly when the server accepts the merge.
   */
  lemma UnionOutcome(e: Conn, s: Store, un: string, live: string, inc: string, key: seq<string>)
    requires un != live && un != inc
    ensures var r := UnionSpec(e, s, un, live, inc, key);
      && SameOutside(s.db, r.store.db, {un})
      && (r.err.Some? ==> r.err.value == SqlError)
      && (r.err.None? ==> MergedInto(s.db, r.store.db, un, live, inc, key))
      && (NoFaultFrom(e.faults, s.attempts) ==> (r.err.None? <==> MergeAccepted(s.db, live, inc, key)))
  {
    var d := Exec(e, s, DropIfExists(un));
    if NoFaultFrom(e.faults, s.attempts) {
      ExecClean(e, s, DropIfExists(un));
      if d.err.None? {
        ExecClean(e, d.store, CreateUnion(un, live, inc, key));
      }
    }
  }

  // ---------------------------------------------------------------
  // populateTable
  // ---------------------------------------------------------------

  /** Where `seekToRecord(recordNum)` leaves the file pointer and the record counter. */
  function SeekTo(f: Feed, recordNum: int): (k: Seek)
    requires f.Valid()
    ensures k.pos <= |f.lines|
    ensures recordNum <= 0 ==> k == Seek(0, 0)
  {
    AdvanceTimes(f.dialect, f.lines, 0, f.recordDelim, if recordNum <= 0 then 0 else recordNum)
  }

  /** `populateTable(table, resumeNum, ...)`: seek, then the batch loop. */
  function Populate(e: Conn, s: Store, f: Feed, resumeNum: int, verb: Verb, ignore: bool, table: string): (d: Drained)
    requires f.Valid()
  {
    Drain(f, SeekTo(f, resumeNum).pos, s, e.faults, e.retries, verb, ignore, table)
  }

  /**
   * What the batch loop reads from line `i` on, whatever the database does:
   * the records it sends in order, the parse fault that ends it, the line
   * it stops at, the rows it reads, and the rows read up to its last
   * statement.
   */
  datatype Read = Read(records: seq<seq<string>>, fault: Option<Fault>, next: nat, fetched: int, upTo: int)

  /** The batches `nextRecords(200)` returns from line `i` until an empty batch or a fault. */
  function ReadFrom(f: Feed, i: nat): (r: Read)
    requires f.Valid() && i <= |f.lines|
    ensures i <= r.next <= |f.lines|
    decreases |f.lines| - i
  {
    var b := TakeRecords(f, i, BatchSize);
    if b.records.Failure? then Read([], Some(b.records.error), b.next, b.fetched, 0)
    else if |b.records.value| == 0 then Read([], None, b.next, b.fetched, 0)
    else
      BatchAdvances(f, i, BatchSize);
      var rest := ReadFrom(f, b.next);
      Read(b.records.value + rest.records, rest.fault, rest.next, b.fetched + rest.fetched, b.fetched + rest.upTo)
  }

  /** One round of `ReadFrom`. */
  lemma ReadStep(f: Feed, i: nat)
    requires f.Valid() && i <= |f.lines|
    ensures var b := TakeRecords(f, i, BatchSize);
      var r := ReadFrom(f, i);
      && (b.records.Failure? ==> r == Read([], Some(b.records.error), b.next, b.fetched, 0))
      && (b.records.Success? && |b.records.value| == 0 ==> r == Read([], None, b.next, b.fetched, 0))
      && (b.records.Success? && |b.records.value| > 0 ==>
            var rest := ReadFrom(f, b.next);
            r == Read(b.records.value + rest.records, rest.fault, rest.next, b.fetched + rest.fetched, b.fetched + rest.upTo))
  {
    BatchAdvances(f, i, BatchSize);
  }

  /**
   * The loop sends the records the feed yields, stops where the feed's
   * batches stop, and counts the same rows, whatever the database and the
   * scripted failures do.
   */
  lemma {:induction false} DrainReads(f: Feed, i: nat, s: Store, faults: seq<bool>, retries: nat, verb: Verb, ignore: bool, table: string)
    requires f.Valid() && i <= |f.lines|
    ensures var d := Drain(f, i, s, faults, retries, verb, ignore, table);
      var r := ReadFrom(f, i);
      d.sent == r.records && d.fault == r.fault && d.next == r.next && d.fetched == r.fetched && d.upTo == r.upTo
    decreases |f.lines| - i
  {
    var b := TakeRecords(f, i, BatchSize);
    if b.records.Success? && |b.records.value| > 0 {
      ReadStep(f, i);
      DrainStep(f, i, s, faults, retries, verb, ignore, table);
      var ran := Run(faults, s, BatchCommand(f, verb, ignore, table, b.records.value), retries);
      DrainReads(f, b.next, ran.store, faults, retries, verb, ignore, table);
    }
  }

  /** The loop keeps its table's columns, types and key, and the table itself. */
  lemma {:induction false} DrainKeepsShape(f: Feed, i: nat, s: Store, faults: seq<bool>, retries: nat, verb: Verb, ignore: bool, table: string)
    requires f.Valid() && i <= |f.lines|
    requires table in s.db
    ensures var d := Drain(f, i, s, faults, retries, verb, ignore, table);
      && table in d.store.db && d.store.db[table].columns == s.db[table].columns
      && d.store.db[table].types == s.db[table].types && d.store.db[table].key == s.db[table].key
    decreases |f.lines| - i
  {
    var b := TakeRecords(f, i, BatchSize);
    if b.records.Success? && |b.records.value| > 0 {
      DrainStep(f, i, s, faults, retries, verb, ignore, table);
      var ran := Run(faults, s, BatchCommand(f, verb, ignore, table, b.records.value), retries);
      DrainKeepsShape(f, b.next, ran.store, faults, retries, verb, ignore, table);
    }
  }

  // ---------------------------------------------------------------
  // The ingests
  // ---------------------------------------------------------------

  /** The work tables of the ingest into table `t`. */
  function TmpName(t: string): string { t + "_tmp" }
  function IncName(t: string): string { t + "_inc" }
  function UnionName(t: string): string { t + "_un" }

  /** Proof plumbing: the table, its work tables and its parking name are five different names. */
  lemma NamesDistinct(t: string)
    ensures t != TmpName(t) && t != IncName(t) && t != UnionName(t) && t != Parked(t)
    ensures TmpName(t) != IncName(t) && TmpName(t) != UnionName(t) && TmpName(t) != Parked(t)
    ensures IncName(t) != UnionName(t) && IncName(t) != Parked(t) && UnionName(t) != Parked(t)
  {
    assert TmpName(t)[|t| + 1] == 't' && IncName(t)[|t| + 1] == 'i';
    assert UnionName(t)[|t| + 1] == 'u' && Parked(t)[|t| + 1] == 'o';
  }

  /** What an ingest leaves: the store, the exception it ends with, if any, and the batch loop it ran, if it got that far. */
  datatype Ingested = Ingested(store: Store, err: Option<Thrown>, loaded: Option<Drained>)

  /** A batch loop run to its end: a parse fault becomes the exception of the ingest, otherwise `next` runs on. */
  function AfterLoad(d: Drained, next: Outcome): Ingested
  {
    if d.fault.Some? then Ingested(d.store, Some(ParseError(d.fault.value)), Some(d))
    else Ingested(next.store, next.err, Some(d))
  }

  /** The try block of `ingestFull`: create the temporary table, fill it from record 0, swap it in. */
  function FullSpec(e: Conn, s: Store, f: Feed, t: string, types: seq<string>, key: seq<string>, ignore: bool): (r: Ingested)
    requires f.Valid()
  {
    var c := CreateSpec(e, s, TmpName(t), f.columnNames, types, key);
    if c.err.Some? then Ingested(c.store, c.err, None)
    else
      var d := Populate(e, c.store, f, 0, InsertInto, ignore, TmpName(t));
      AfterLoad(d, RenameSpec(e, d.store, TmpName(t), t))
  }

  /** The try block of `ingestFullResume`: fill the temporary table from `fromRecord`, swap it in. */
  function ResumeSpec(e: Conn, s: Store, f: Feed, fromRecord: int, t: string, ignore: bool): (r: Ingested)
    requires f.Valid()
  {
    var d := Populate(e, s, f, fromRecord, InsertInto, ignore, TmpName(t));
    AfterLoad(d, RenameSpec(e, d.store, TmpName(t), t))
  }

  /** The in-place branch of `ingestIncremental`: `REPLACE` the records from `fromRecord` into the table. */
  function InPlaceSpec(e: Conn, s: Store, f: Feed, fromRecord: int, t: string): (r: Ingested)
    requires f.Valid()
  {
    var d := Populate(e, s, f, fromRecord, ReplaceInto, false, t);
    AfterLoad(d, Outcome(d.store, None))
  }

  /** The merge branch of `ingestIncremental`: load the incoming table from record 0, then merge. */
  function MergeSpec(e: Conn, s: Store, f: Feed, t: string, types: seq<string>, key: seq<string>, ignore: bool): (r: Ingested)
    requires f.Valid()
  {
    var c := CreateSpec(e, s, IncName(t), f.columnNames, types, key);
    if c.err.Some? then Ingested(c.store, c.err, None)
    else
      var d := Populate(e, c.store, f, 0, InsertInto, ignore, IncName(t));
      AfterLoad(d, MergeTail(e, d.store, t, key))
  }

  /** After the load: build the union, then put it in place. */
  function MergeTail(e: Conn, s: Store, t: string, key: seq<string>): (r: Outcome)
  {
    var u := UnionSpec(e, s, UnionName(t), t, IncName(t), key);
    if u.err.Some? then u else KeySwap(e, u.store, t, key)
  }

  /** Drop the incoming table, key the union table, swap it in. */
  function KeySwap(e: Conn, s: Store, t: string, key: seq<string>): (r: Outcome)
  {
    var x := Exec(e, s, DropIfExists(IncName(t)));
    if x.err.Some? then x
    else
      var k := Exec(e, x.store, AddPrimaryKey(UnionName(t), key));
      if k.err.Some? then k else RenameSpec(e, k.store, UnionName(t), t)
  }

  /** Every record has `n` fields. */
  predicate Fits(recs: seq<seq<string>>, n: nat)
  {
    forall k :: 0 <= k < |recs| ==> |recs[k]| == n
  }

  /** Two tables with the same columns, types and key. */
  predicate SameShape(a: Table, b: Table)
  {
    a.columns == b.columns && a.types == b.types && a.key == b.key
  }

  /** Proof plumbing: two steps that each keep the tables outside a set keep those outside the union. */
  lemma SameOutsideTrans(a: Db, b: Db, c: Db, x: set<string>, y: set<string>)
    requires SameOutside(a, b, x) && SameOutside(b, c, y)
    ensures SameOutside(a, c, x + y)
  {
  }

  /**
   * A full ingest changes only the table, its temporary table and its
   * parking name. It throws `SQLException`, the index error of too few
   * types, or a parse fault. When it completes, the whole feed has been
   * read and the parking name is free; the table has then either been
   * replaced by a table with the file's columns, their types and the
   * primary key, the temporary table gone, or been left as it was.
   */
  lemma FullOutcome(e: Conn, s: Store, f: Feed, t: string, types: seq<string>, key: seq<string>, ignore: bool)
    requires f.Valid()
    ensures var r := FullSpec(e, s, f, t, types, key, ignore);
      && SameOutside(s.db, r.store.db, {TmpName(t), t, Parked(t)})
      && (r.err.Some? ==> r.err.value in {SqlError, IndexError} || r.err.value.ParseError?)
      && (r.err.None? ==> r.loaded.Some? && r.loaded.value.fault.None? && Parked(t) !in r.store.db)
      && (r.err.None? ==> ReplacedBy(s.db, r.store.db, t, Table(f.columnNames, types[..|f.columnNames|], key, [])))
  {
    NamesDistinct(t);
    var tmp := TmpName(t);
    var c := CreateSpec(e, s, tmp, f.columnNames, types, key);
    CreateShape(e, s, tmp, f.columnNames, types, key);
    if c.err.None? {
      var d := Populate(e, c.store, f, 0, InsertInto, ignore, tmp);
      DrainLocal(f, SeekTo(f, 0).pos, c.store, e.faults, e.retries, InsertInto, ignore, tmp);
      DrainKeepsShape(f, SeekTo(f, 0).pos, c.store, e.faults, e.retries, InsertInto, ignore, tmp);
      SameOutsideTrans(s.db, c.store.db, d.store.db, {tmp}, {tmp});
      if d.fault.None? {
        var r := RenameSpec(e, d.store, tmp, t);
        RenameOutcome(e, d.store, tmp, t);
        SameOutsideTrans(s.db, d.store.db, r.store.db, {tmp}, {tmp, t, Parked(t)});
      }
    }
  }

  /**
   * Table `t` of `after` is either gone from `before` to `after` unchanged
   * or has been replaced by a table of the shape of `shape` (same columns,
   * types and key), with the temporary table gone.
   */
  ghost predicate ReplacedBy(before: Db, after: Db, t: string, shape: Table)
  {
    || (t in after && after[t].columns == shape.columns && after[t].types == shape.types && after[t].key == shape.key
        && TmpName(t) !in after)
    || ((t in after <==> t in before) && (t in before ==> after[t] == before[t]))
  }

  /** Proof plumbing: attempts without scripted faults stay so later on. */
  lemma NoFaultLater(faults: seq<bool>, n: nat, m: nat)
    requires NoFaultFrom(faults, n) && n <= m
    ensures NoFaultFrom(faults, m)
  {
  }

  /**
   * Without scripted faults, creating a work table for a feed with distinct
   * column names, a type for every column and a non-empty key on its
   * columns, then loading it
   * from record 0 with records read without a parse fault, as wide as the
   * columns, with no field literal broken and with distinct keys, leaves
   * the work table holding exactly those records, and every other table as
   * it was.
   */
  lemma FreshLoad(e: Conn, s: Store, f: Feed, w: string, types: seq<string>, key: seq<string>, ignore: bool)
    requires f.Valid() && NoFaultFrom(e.faults, s.attempts)
    requires |types| >= |f.columnNames| > 0 && DistinctNames(f.columnNames)
    requires |key| > 0 && forall i :: 0 <= i < |key| ==> key[i] in f.columnNames
    requires var rd := ReadFrom(f, 0);
      rd.fault.None? && Fits(rd.records, |f.columnNames|) && Sendable(rd.records)
      && UniqueKeys(f.columnNames, key, RowsOf(rd.records))
    ensures var c := CreateSpec(e, s, w, f.columnNames, types, key);
      && c.err.None?
      && var d := Populate(e, c.store, f, 0, InsertInto, ignore, w);
      && d.fault.None? && NoFaultFrom(e.faults, d.store.attempts) && SameOutside(s.db, d.store.db, {w})
      && w in d.store.db
      && d.store.db[w] == Table(f.columnNames, types[..|f.columnNames|], key, RowsOf(ReadFrom(f, 0).records))
  {
    var cols := f.columnNames;
    var recs := ReadFrom(f, 0).records;
    var c := CreateSpec(e, s, w, cols, types, key);
    CreateShape(e, s, w, cols, types, key);
    CreateClean(e, s, w, cols, types, key);
    NoFaultLater(e.faults, s.attempts, c.store.attempts);
    DrainReads(f, 0, c.store, e.faults, e.retries, InsertInto, ignore, w);
    assert [] + RowsOf(recs) == RowsOf(recs);
    DrainAppends(f, 0, c.store, e.faults, e.retries, InsertInto, ignore, w);
    var d := Populate(e, c.store, f, 0, InsertInto, ignore, w);
    DrainLocal(f, 0, c.store, e.faults, e.retries, InsertInto, ignore, w);
    NoFaultLater(e.faults, s.attempts, d.store.attempts);
  }

  /**
   * Without scripted faults, a full ingest of a feed with distinct column
   * names, a type for every column, a non-empty key on its columns, records
   * as wide as the columns, no field literal broken and no two records with
   * the same key, read without a parse fault, completes, and the table then holds exactly the feed's records under
   * the file's columns, their types and the key; the temporary table and
   * the parking name are gone.
   */
  lemma FullClean(e: Conn, s: Store, f: Feed, t: string, types: seq<string>, key: seq<string>, ignore: bool)
    requires f.Valid() && NoFaultFrom(e.faults, s.attempts)
    requires |types| >= |f.columnNames| > 0 && DistinctNames(f.columnNames)
    requires |key| > 0 && forall i :: 0 <= i < |key| ==> key[i] in f.columnNames
    requires var rd := ReadFrom(f, 0);
      rd.fault.None? && Fits(rd.records, |f.columnNames|) && Sendable(rd.records)
      && UniqueKeys(f.columnNames, key, RowsOf(rd.records))
    ensures var r := FullSpec(e, s, f, t, types, key, ignore);
      && r.err.None? && t in r.store.db && TmpName(t) !in r.store.db && Parked(t) !in r.store.db
      && r.store.db[t] == Table(f.columnNames, types[..|f.columnNames|], key, RowsOf(ReadFrom(f, 0).records))
  {
    NamesDistinct(t);
    FreshLoad(e, s, f, TmpName(t), types, key, ignore);
    var c := CreateSpec(e, s, TmpName(t), f.columnNames, types, key);
    var d := Populate(e, c.store, f, 0, InsertInto, ignore, TmpName(t));
    RenameOutcome(e, d.store, TmpName(t), t);
  }

  /**
   * A resumed full ingest changes only the table, its temporary table and
   * its parking name, and throws `SQLException` or a parse fault; when it
   * completes, the feed has been read to its end and the parking name is
   * free.
   */
  lemma ResumeOutcome(e: Conn, s: Store, f: Feed, fromRecord: int, t: string, ignore: bool)
    requires f.Valid()
    ensures var r := ResumeSpec(e, s, f, fromRecord, t, ignore);
      && SameOutside(s.db, r.store.db, {TmpName(t), t, Parked(t)})
      && (r.err.Some? ==> r.err.value == SqlError || r.err.value.ParseError?)
      && (r.err.None? ==> r.loaded.Some? && r.loaded.value.fault.None? && Parked(t) !in r.store.db)
  {
    NamesDistinct(t);
    var tmp := TmpName(t);
    var d := Populate(e, s, f, fromRecord, InsertInto, ignore, tmp);
    DrainLocal(f, SeekTo(f, fromRecord).pos, s, e.faults, e.retries, InsertInto, ignore, tmp);
    if d.fault.None? {
      var r := RenameSpec(e, d.store, tmp, t);
      RenameOutcome(e, d.store, tmp, t);
      SameOutsideTrans(s.db, d.store.db, r.store.db, {tmp}, {tmp, t, Parked(t)});
    }
  }

  /**
   * Without scripted faults, resuming into an existing temporary table of
   * the feed's columns, all distinct, with records read from the resume
   * point without a parse fault, as wide as the columns, with no field
   * literal broken and loadable, completes: the table then holds the temporary table's rows followed by the records read.
   */
  lemma ResumeClean(e: Conn, s: Store, f: Feed, fromRecord: int, t: string, ignore: bool)
    requires f.Valid() && NoFaultFrom(e.faults, s.attempts)
    requires TmpName(t) in s.db && s.db[TmpName(t)].columns == f.columnNames && DistinctNames(f.columnNames)
    requires var rd := ReadFrom(f, SeekTo(f, fromRecord).pos);
      rd.fault.None? && Fits(rd.records, |f.columnNames|) && Sendable(rd.records)
      && Loadable(s.db[TmpName(t)], RowsOf(rd.records))
    ensures var r := ResumeSpec(e, s, f, fromRecord, t, ignore);
      var tmp := s.db[TmpName(t)];
      && r.err.None? && t in r.store.db && TmpName(t) !in r.store.db && Parked(t) !in r.store.db
      && r.store.db[t] == tmp.(rows := tmp.rows + RowsOf(ReadFrom(f, SeekTo(f, fromRecord).pos).records))
  {
    NamesDistinct(t);
    var tmp := TmpName(t);
    var i := SeekTo(f, fromRecord).pos;
    DrainReads(f, i, s, e.faults, e.retries, InsertInto, ignore, tmp);
    DrainAppends(f, i, s, e.faults, e.retries, InsertInto, ignore, tmp);
    var d := Populate(e, s, f, fromRecord, InsertInto, ignore, tmp);
    DrainLocal(f, i, s, e.faults, e.retries, InsertInto, ignore, tmp);
    NoFaultLater(e.faults, s.attempts, d.store.attempts);
    RenameOutcome(e, d.store, tmp, t);
  }

  /**
   * The in-place incremental branch changes only the table, keeps its
   * columns, types and key, and throws only a parse fault. Without
   * scripted faults, into a table that takes the feed's column list, with
   * records read from the resume point without a parse fault, as wide as
   * the list, with no field literal broken and no two sharing a key, the
   * table ends as `REPLACE` of those records: the stored rows sharing a key
   * with none of them, then the records, laid out in the table's columns.
   */
  lemma InPlaceOutcome(e: Conn, s: Store, f: Feed, fromRecord: int, t: string)
    requires f.Valid()
    ensures var r := InPlaceSpec(e, s, f, fromRecord, t);
      && SameOutside(s.db, r.store.db, {t})
      && (r.err.Some? ==> r.err.value.ParseError?)
      && (t in s.db ==> t in r.store.db && SameShape(r.store.db[t], s.db[t]))
    ensures var rd := ReadFrom(f, SeekTo(f, fromRecord).pos);
      NoFaultFrom(e.faults, s.attempts) && t in s.db && ColumnList(f.columnNames, s.db[t].columns)
      && rd.fault.None? && Fits(rd.records, |f.columnNames|) && Sendable(rd.records)
      && DistinctKeys(s.db[t], BatchRows(s.db[t].columns, f.columnNames, rd.records)) ==>
        var r := InPlaceSpec(e, s, f, fromRecord, t);
        r.err.None? && r.store.db[t] == s.db[t].(rows := ReplacedRows(s.db[t], BatchRows(s.db[t].columns, f.columnNames, rd.records)))
  {
    var i := SeekTo(f, fromRecord).pos;
    DrainLocal(f, i, s, e.faults, e.retries, ReplaceInto, false, t);
    DrainReads(f, i, s, e.faults, e.retries, ReplaceInto, false, t);
    if t in s.db {
      DrainKeepsShape(f, i, s, e.faults, e.retries, ReplaceInto, false, t);
      var rd := ReadFrom(f, i);
      if NoFaultFrom(e.faults, s.attempts) && ColumnList(f.columnNames, s.db[t].columns)
        && rd.fault.None? && Fits(rd.records, |f.columnNames|) && Sendable(rd.records)
        && DistinctKeys(s.db[t], BatchRows(s.db[t].columns, f.columnNames, rd.records)) {
        DrainReplaces(f, i, s, e.faults, e.retries, t);
      }
    }
  }

  /** Putting the union in place changes only the table, the work tables and the parking name, and throws only `SQLException`. */
  lemma KeySwapLocal(e: Conn, s: Store, t: string, key: seq<string>)
    ensures var r := KeySwap(e, s, t, key);
      && SameOutside(s.db, r.store.db, {t, IncName(t), UnionName(t), Parked(t)})
      && (r.err.Some? ==> r.err.value == SqlError)
  {
    NamesDistinct(t);
    var un := UnionName(t);
    var inc := IncName(t);
    var x := Exec(e, s, DropIfExists(inc));
    if x.err.None? {
      var k := Exec(e, x.store, AddPrimaryKey(un, key));
      if k.err.None? {
        ApplyLocal(x.store.db, AddPrimaryKey(un, key));
        var r := RenameSpec(e, k.store, un, t);
        RenameOutcome(e, k.store, un, t);
        SameOutsideTrans(s.db, x.store.db, k.store.db, {inc}, {un});
        SameOutsideTrans(s.db, k.store.db, r.store.db, {inc, un}, {un, t, Parked(t)});
      }
    }
  }

  /**
   * Without scripted faults, a union table with no key whose columns hold
   * the key and whose rows have distinct keys is keyed and swapped in; the
   * incoming table and the parking name are gone.
   */
  lemma KeySwapClean(e: Conn, s: Store, t: string, key: seq<string>)
    requires NoFaultFrom(e.faults, s.attempts)
    requires UnionName(t) in s.db && s.db[UnionName(t)].key == [] && |key| > 0
    requires forall i :: 0 <= i < |key| ==> key[i] in s.db[UnionName(t)].columns
    requires UniqueKeys(s.db[UnionName(t)].columns, key, s.db[UnionName(t)].rows)
    ensures var r := KeySwap(e, s, t, key);
      && r.err.None? && t in r.store.db
      && IncName(t) !in r.store.db && UnionName(t) !in r.store.db && Parked(t) !in r.store.db
      && r.store.db[t] == s.db[UnionName(t)].(key := key)
  {
    NamesDistinct(t);
    var un := UnionName(t);
    var inc := IncName(t);
    ExecClean(e, s, DropIfExists(inc));
    var x := Exec(e, s, DropIfExists(inc));
    NoFaultLater(e.faults, s.attempts, x.store.attempts);
    ExecClean(e, x.store, AddPrimaryKey(un, key));
    var k := Exec(e, x.store, AddPrimaryKey(un, key));
    NoFaultLater(e.faults, s.attempts, k.store.attempts);
    RenameOutcome(e, k.store, un, t);
  }

  /** After the load, the merge changes only the table, the work tables and the parking name, and throws only `SQLException`. */
  lemma MergeTailLocal(e: Conn, s: Store, t: string, key: seq<string>)
    ensures var r := MergeTail(e, s, t, key);
      && SameOutside(s.db, r.store.db, {t, IncName(t), UnionName(t), Parked(t)})
      && (r.err.Some? ==> r.err.value == SqlError)
  {
    NamesDistinct(t);
    var u := UnionSpec(e, s, UnionName(t), t, IncName(t), key);
    UnionOutcome(e, s, UnionName(t), t, IncName(t), key);
    if u.err.None? {
      KeySwapLocal(e, u.store, t, key);
      SameOutsideTrans(s.db, u.store.db, KeySwap(e, u.store, t, key).store.db, {UnionName(t)}, {t, IncName(t), UnionName(t), Parked(t)});
    }
  }

  /**
   * Without scripted faults, when the server accepts the merge and no two
   * merged rows share a key, the merge completes: the table then holds the
   * merged rows under the incoming table's columns and types with the key,
   * and the work tables and the parking name are gone.
   */
  lemma MergeTailClean(e: Conn, s: Store, t: string, key: seq<string>)
    requires NoFaultFrom(e.faults, s.attempts) && MergeAccepted(s.db, t, IncName(t), key)
    requires var n := s.db[IncName(t)];
      UniqueKeys(n.columns, key, Merged(s.db[t].columns, n.columns, key, s.db[t].rows, n.rows))
    ensures var r := MergeTail(e, s, t, key);
      var n := s.db[IncName(t)];
      && r.err.None? && t in r.store.db
      && IncName(t) !in r.store.db && UnionName(t) !in r.store.db && Parked(t) !in r.store.db
      && r.store.db[t] == Table(n.columns, n.types, key, Merged(s.db[t].columns, n.columns, key, s.db[t].rows, n.rows))
  {
    NamesDistinct(t);
    var u := UnionSpec(e, s, UnionName(t), t, IncName(t), key);
    UnionOutcome(e, s, UnionName(t), t, IncName(t), key);
    NoFaultLater(e.faults, s.attempts, u.store.attempts);
    KeySwapClean(e, u.store, t, key);
  }

  /**
   * Without scripted faults, when two merged rows share a key (an incoming
   * row and a stored row it does not supersede because the stored row is
   * newer or its `export_date` is not a number), keying the union table
   * hits a duplicate entry: the merge throws `SQLException` and the table
   * is left as it was.
   */
  lemma MergeDuplicateAborts(e: Conn, s: Store, t: string, key: seq<string>)
    requires NoFaultFrom(e.faults, s.attempts) && MergeAccepted(s.db, t, IncName(t), key)
    requires var n := s.db[IncName(t)];
      !UniqueKeys(n.columns, key, Merged(s.db[t].columns, n.columns, key, s.db[t].rows, n.rows))
    ensures var r := MergeTail(e, s, t, key);
      r.err == Some(SqlError) && t in r.store.db && r.store.db[t] == s.db[t]
  {
    NamesDistinct(t);
    var un, inc := UnionName(t), IncName(t);
    var u := UnionSpec(e, s, un, t, inc, key);
    UnionOutcome(e, s, un, t, inc, key);
    NoFaultLater(e.faults, s.attempts, u.store.attempts);
    var x := Exec(e, u.store, DropIfExists(inc));
    ExecClean(e, u.store, DropIfExists(inc));
    NoFaultLater(e.faults, s.attempts, x.store.attempts);
    ExecClean(e, x.store, AddPrimaryKey(un, key));
  }

  /**
   * The merge branch changes only the table, the incoming and union tables
   * and the parking name. It throws `SQLException`, the index error of too
   * few types, or a parse fault.
   */
  lemma MergeOutcome(e: Conn, s: Store, f: Feed, t: string, types: seq<string>, key: seq<string>, ignore: bool)
    requires f.Valid()
    ensures var r := MergeSpec(e, s, f, t, types, key, ignore);
      && SameOutside(s.db, r.store.db, {t, IncName(t), UnionName(t), Parked(t)})
      && (r.err.Some? ==> r.err.value in {SqlError, IndexError} || r.err.value.ParseError?)
  {
    var inc := IncName(t);
    var c := CreateSpec(e, s, inc, f.columnNames, types, key);
    CreateShape(e, s, inc, f.columnNames, types, key);
    if c.err.None? {
      var d := Populate(e, c.store, f, 0, InsertInto, ignore, inc);
      DrainLocal(f, 0, c.store, e.faults, e.retries, InsertInto, ignore, inc);
      if d.fault.None? {
        var r := MergeTail(e, d.store, t, key);
        MergeTailLocal(e, d.store, t, key);
        SameOutsideTrans(s.db, d.store.db, r.store.db, {inc}, {t, inc, UnionName(t), Parked(t)});
      }
    }
  }

  /**
   * Without scripted faults, merging a feed with distinct column names, a
   * type for every column, a non-empty key on its columns, records read
   * without a parse fault, as wide as the columns, with no field literal
   * broken and with distinct keys, into an existing table with as many
   * columns, both holding the key and `export_date`, where no two merged
   * rows share a key, completes: the table then holds the incoming records
   * followed by the stored rows none of them supersedes, under the file's columns, their
   * types and the key, and the work tables and the parking name are gone.
   */
  lemma MergeClean(e: Conn, s: Store, f: Feed, t: string, types: seq<string>, key: seq<string>, ignore: bool)
    requires f.Valid() && NoFaultFrom(e.faults, s.attempts)
    requires |types| >= |f.columnNames| > 0 && DistinctNames(f.columnNames)
    requires |key| > 0 && forall i :: 0 <= i < |key| ==> key[i] in f.columnNames
    requires var rd := ReadFrom(f, 0);
      rd.fault.None? && Fits(rd.records, |f.columnNames|) && Sendable(rd.records)
      && UniqueKeys(f.columnNames, key, RowsOf(rd.records))
    requires t in s.db && |s.db[t].columns| == |f.columnNames| && MergeColumns(s.db[t].columns, f.columnNames, key)
    requires UniqueKeys(f.columnNames, key, Merged(s.db[t].columns, f.columnNames, key, s.db[t].rows, RowsOf(ReadFrom(f, 0).records)))
    ensures var r := MergeSpec(e, s, f, t, types, key, ignore);
      var live := s.db[t];
      var cols := f.columnNames;
      && r.err.None? && t in r.store.db
      && IncName(t) !in r.store.db && UnionName(t) !in r.store.db && Parked(t) !in r.store.db
      && r.store.db[t] == Table(cols, types[..|cols|], key, Merged(live.columns, cols, key, live.rows, RowsOf(ReadFrom(f, 0).records)))
  {
    NamesDistinct(t);
    FreshLoad(e, s, f, IncName(t), types, key, ignore);
    var c := CreateSpec(e, s, IncName(t), f.columnNames, types, key);
    var d := Populate(e, c.store, f, 0, InsertInto, ignore, IncName(t));
    assert d.store.db[t] == s.db[t];
    MergeTailClean(e, d.store, t, key);
  }
}
