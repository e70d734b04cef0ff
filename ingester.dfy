// The ingester object itself: the live `MySqlIngester` over `IngesterBase`,
// the main-tree `MySQLIngester` over its abstract `Ingester`, and the legacy
// `Ingester`, as one class over a `Variant`. Its methods send their
// statements through the scripted gateway and are proved to do what the
// statement-sequence functions of `Statements` say.

module Ingest {
  import opened Text
  import opened FeedFormat
  import opened FeedParser
  import opened Database
  import opened SqlText
  import opened IngesterBase
  import opened Statements
  import opened TimeHelper
  import opened LogFormat

  /** Records a file must announce before an incremental ingest switches from in-place `REPLACE` to prune-and-merge. */
  const MergeThreshold: int := 500000

  /** The checkpoint gaps `populateTable` passes to `checkProgress`: 5000 records, two minutes. */
  const RecordGap: int := 5000
  const TimeGap: int := 120 * 1000

  /** What the caller sees: the ingest returned, threw, or never returns (the legacy batch loop). */
  datatype Halt = Returned | Threw(thrown: Thrown) | Spins

  /** The live ingester wraps what it rethrows in a `RuntimeException`; the other two rethrow it as it is. */
  function Raised(variant: Variant, e: Thrown): (r: Thrown)
    ensures variant == Live ==> r == Wrapped(e)
    ensures variant != Live ==> r == e
  {
    if variant == Live then Wrapped(e) else e
  }

  /**
   * The whole loop `d0` is the rows `fetched` so far (some batch among them
   * sent when `any`), then the loop from line `at` over store `s`.
   */
  ghost predicate OnTrack(d0: Drained, any: bool, fetched: int, f: Feed, at: nat, s: Store, faults: seq<bool>, retries: nat,
                          verb: Verb, ignore: bool, table: string)
    requires f.Valid() && at <= |f.lines|
  {
    var r := Drain(f, at, s, faults, retries, verb, ignore, table);
    && d0.store == r.store && d0.next == r.next && d0.fault == r.fault
    && d0.fetched == fetched + r.fetched && d0.upTo == fetched + r.upTo
    && (d0.sent == []) == (!any && r.sent == [])
  }

  /** One round of the loop, with the batch, the store after it and the rest of the loop named. */
  lemma DrainRound(f: Feed, at: nat, s: Store, faults: seq<bool>, retries: nat, verb: Verb, ignore: bool, table: string,
                   b: Batch, after: Store, rest: Drained)
    requires f.Valid() && at <= |f.lines|
    requires b == TakeRecords(f, at, BatchSize) && b.records.Success? && |b.records.value| > 0
    requires after == Run(faults, s, BatchCommand(f, verb, ignore, table, b.records.value), retries).store
    requires rest == Drain(f, b.next, after, faults, retries, verb, ignore, table)
    ensures var d := Drain(f, at, s, faults, retries, verb, ignore, table);
      && d.store == rest.store && d.next == rest.next && d.fault == rest.fault
      && d.fetched == b.fetched + rest.fetched && d.upTo == b.fetched + rest.upTo
      && d.sent == b.records.value + rest.sent
  {
    DrainStep(f, at, s, faults, retries, verb, ignore, table);
  }

  /** A batch that is sent moves the loop one round on. */
  lemma TrackAdvance(d0: Drained, any: bool, fetched: int, f: Feed, at: nat, s: Store, faults: seq<bool>, retries: nat,
                     verb: Verb, ignore: bool, table: string, b: Batch, after: Store)
    requires f.Valid() && at <= |f.lines|
    requires OnTrack(d0, any, fetched, f, at, s, faults, retries, verb, ignore, table)
    requires b == TakeRecords(f, at, BatchSize) && b.records.Success? && |b.records.value| > 0
    requires after == Run(faults, s, BatchCommand(f, verb, ignore, table, b.records.value), retries).store
    ensures b.next <= |f.lines| && OnTrack(d0, true, fetched + b.fetched, f, b.next, after, faults, retries, verb, ignore, table)
  {
    DrainRound(f, at, s, faults, retries, verb, ignore, table, b, after, Drain(f, b.next, after, faults, retries, verb, ignore, table));
  }

  /** A fault or an empty batch ends the loop where it is. */
  lemma TrackStop(d0: Drained, any: bool, fetched: int, f: Feed, at: nat, s: Store, faults: seq<bool>, retries: nat,
                  verb: Verb, ignore: bool, table: string, b: Batch)
    requires f.Valid() && at <= |f.lines|
    requires OnTrack(d0, any, fetched, f, at, s, faults, retries, verb, ignore, table)
    requires b == TakeRecords(f, at, BatchSize) && (b.records.Failure? || |b.records.value| == 0)
    ensures d0.store == s && d0.next == b.next && d0.fetched == fetched + b.fetched
    ensures (d0.sent == []) == !any && d0.upTo == fetched
    ensures d0.fault == (if b.records.Failure? then Some(b.records.error) else None)
  {
    DrainStops(f, at, s, faults, retries, verb, ignore, table);
  }

  /** `parser.setColumnNames(columnNames.subList(0, n))` when the file has more than `n` columns; the file is otherwise read as it is. */
  function Trimmed(f: Feed, n: nat): (g: Feed)
    ensures g.Valid() == f.Valid()
    ensures g == f.(columnNames := g.columnNames)
    ensures |g.columnNames| == if |f.columnNames| > n then n else |f.columnNames|
    ensures g.columnNames <= f.columnNames
  {
    if |f.columnNames| > n then f.(columnNames := f.columnNames[..n]) else f
  }

  /**
   * How `ingestIncremental` ends: a lookup of the table or of its columns
   * threw, the table is missing and the file is skipped, or the file was
   * loaded, with its columns cut to the table's, by one of the two methods.
   */
  datatype Increment = Refused(store: Store) | Skipped(store: Store) | Loaded(trimmed: Feed, run: Ingested)
  {
    function Final(): Store
    {
      if Loaded? then run.store else store
    }
  }

  /** Which ingest `ingest` ran, and what it did to the database. */
  datatype Dispatched = FullRun(run: Ingested) | IncrementalRun(inc: Increment)

  /**
   * `ingestIncremental(fromRecord, skipKeyViolators)`: look the table up and,
   * when it is there, go on as `ExistingSpec`; a missing table is skipped.
   * The lookup is a `Lookup`, so in the main tree one that goes through
   * only on its resend throws.
   */
  function IncrementalSpec(e: Conn, s: Store, variant: Variant, f: Feed, fromRecord: int, t: string, types: seq<string>, key: seq<string>,
                           skipKeyViolators: bool, expected: int): (r: Increment)
    requires f.Valid()
  {
    var x := Lookup(e, s, CountTables(t));
    if x.err.Some? then Refused(x.store)
    else if t !in s.db then Skipped(x.store)
    else ExistingSpec(e, x.store, variant, f, fromRecord, t, types, key, skipKeyViolators, expected)
  }

  /**
   * The rest of `ingestIncremental` once the table is known to exist: count
   * its columns, cut the file's columns to that count, and load in place
   * below `MergeThreshold` announced records or by prune-and-merge from it on.
   * The main tree's `columnCount` reads the answer without first moving to
   * its row, so `getInt` throws `SQLException` even when the count went
   * through.
   */
  function ExistingSpec(e: Conn, s: Store, variant: Variant, f: Feed, fromRecord: int, t: string, types: seq<string>, key: seq<string>,
                        skipKeyViolators: bool, expected: int): (r: Increment)
    requires f.Valid()
  {
    var y := Exec(e, s, CountColumns(t));
    if y.err.Some? || variant == MainTree then Refused(y.store)
    else
      var g := Trimmed(f, ColumnTotal(s.db, t));
      Loaded(g, if expected < MergeThreshold then InPlaceSpec(e, y.store, g, fromRecord, t)
                else MergeSpec(e, y.store, g, t, types, key, skipKeyViolators))
  }

  /**
   * An incremental ingest changes only the table, its two work tables and
   * its parking name. A refused lookup or count leaves the tables alone; a
   * missing table is skipped with the tables alone; a load happens only on
   * an existing table, with the file's columns cut to the table's count.
   * Below the threshold only the table itself changes, keeping its
   * columns, types and key, and only a parse fault is thrown.
   */
  lemma IncrementalOutcome(e: Conn, s: Store, variant: Variant, f: Feed, fromRecord: int, t: string, types: seq<string>, key: seq<string>,
                           skipKeyViolators: bool, expected: int)
    requires f.Valid()
    ensures var r := IncrementalSpec(e, s, variant, f, fromRecord, t, types, key, skipKeyViolators, expected);
      && SameOutside(s.db, r.Final().db, {t, IncName(t), UnionName(t), Parked(t)})
      && (r.Refused? ==> r.store.db == s.db)
      && (r.Skipped? ==> t !in s.db && r.store.db == s.db)
      && (r.Loaded? ==> variant != MainTree && t in s.db && r.trimmed == Trimmed(f, |s.db[t].columns|))
      && (r.Loaded? && expected < MergeThreshold ==>
            && SameOutside(s.db, r.Final().db, {t}) && t in r.Final().db && SameShape(r.Final().db[t], s.db[t])
            && (r.run.err.Some? ==> r.run.err.value.ParseError?))
  {
    var x := Lookup(e, s, CountTables(t));
    if x.err.None? && t in s.db {
      var y := Exec(e, x.store, CountColumns(t));
      if y.err.None? && variant != MainTree {
        var g := Trimmed(f, ColumnTotal(x.store.db, t));
        if expected < MergeThreshold {
          InPlaceOutcome(e, y.store, g, fromRecord, t);
        } else {
          MergeOutcome(e, y.store, g, t, types, key, skipKeyViolators);
        }
      }
    }
  }

  /**
   * Without scripted faults the lookup and the count go through: a missing
   * table is skipped; an existing one is loaded, with the file cut to the
   * table's columns, except in the main tree, whose count always throws.
   */
  lemma IncrementalClean(e: Conn, s: Store, variant: Variant, f: Feed, fromRecord: int, t: string, types: seq<string>, key: seq<string>,
                         skipKeyViolators: bool, expected: int)
    requires f.Valid() && NoFaultFrom(e.faults, s.attempts)
    ensures var r := IncrementalSpec(e, s, variant, f, fromRecord, t, types, key, skipKeyViolators, expected);
      && (t !in s.db <==> r.Skipped?)
      && (t in s.db && variant != MainTree <==> r.Loaded?)
      && (t in s.db && variant == MainTree <==> r.Refused?)
      && (r.Loaded? ==> r.trimmed == Trimmed(f, |s.db[t].columns|))
  {
    LookupsClean(e, s, t);
  }

  /**
   * In the main tree an incremental ingest of an existing table never
   * loads: whatever the faults, the column count throws, and the tables
   * are left as they were.
   */
  lemma MainTreeCountThrows(e: Conn, s: Store, f: Feed, fromRecord: int, t: string, types: seq<string>, key: seq<string>,
                            skipKeyViolators: bool, expected: int)
    requires f.Valid() && t in s.db
    ensures var r := IncrementalSpec(e, s, MainTree, f, fromRecord, t, types, key, skipKeyViolators, expected);
      r.Refused? && r.store.db == s.db
  {
  }

  /**
   * In the main tree a table lookup that goes through only on its resend
   * throws `SQLException`, whether or not the table exists: a missing
   * table is not skipped, and the tables are left as they were.
   */
  lemma MainTreeResentLookupThrows(e: Conn, s: Store, f: Feed, fromRecord: int, t: string, types: seq<string>, key: seq<string>,
                                   skipKeyViolators: bool, expected: int)
    requires f.Valid() && e.keysOnResend && e.retries >= 1
    requires FaultAt(e.faults, s.attempts) && !FaultAt(e.faults, s.attempts + 1)
    ensures var r := IncrementalSpec(e, s, MainTree, f, fromRecord, t, types, key, skipKeyViolators, expected);
      r.Refused? && r.store == Store(s.db, s.attempts + 2)
  {
    ResentLookupThrows(e, s, CountTables(t));
  }

  /**
   * With the count read from its row, as the live tree does it, an existing
   * table is loaded without scripted faults, the file cut to exactly the
   * table's number of columns.
   */
  lemma FetchedCountTrims(e: Conn, s: Store, f: Feed, fromRecord: int, t: string, types: seq<string>, key: seq<string>,
                          skipKeyViolators: bool, expected: int)
    requires f.Valid() && t in s.db && NoFaultFrom(e.faults, s.attempts)
    ensures var r := ExistingSpec(e, s, Live, f, fromRecord, t, types, key, skipKeyViolators, expected);
      r.Loaded? && r.trimmed == Trimmed(f, |s.db[t].columns|)
  {
    ExecClean(e, s, CountColumns(t));
  }

  /**
   * From the threshold on and without scripted faults, when the file `g`
   * cut to the table's columns has distinct column names, a type for every
   * column, a non-empty key on its columns, and reads as `rd` from
   * record 0 without a parse fault, with records as wide as its columns,
   * no field literal broken and distinct keys, and the table has as many columns, both holding the key
   * and `export_date`, and no two merged rows share a key, the table ends
   * up holding the incoming records followed by the stored rows none of
   * them supersedes, and the work tables and the parking name are gone
   * (outside the main tree, whose column count throws first).
   */
  lemma IncrementalMergeClean(e: Conn, s: Store, variant: Variant, f: Feed, fromRecord: int, t: string, types: seq<string>, key: seq<string>,
                              skipKeyViolators: bool, expected: int, g: Feed, rd: Read)
    requires f.Valid() && NoFaultFrom(e.faults, s.attempts) && t in s.db && expected >= MergeThreshold
    requires g == Trimmed(f, |s.db[t].columns|) && |s.db[t].columns| == |g.columnNames|
    requires |types| >= |g.columnNames| > 0 && DistinctNames(g.columnNames)
    requires |key| > 0 && forall i :: 0 <= i < |key| ==> key[i] in g.columnNames
    requires MergeColumns(s.db[t].columns, g.columnNames, key)
    requires rd == ReadFrom(g, 0)
    requires rd.fault.None? && Fits(rd.records, |g.columnNames|) && Sendable(rd.records)
    requires UniqueKeys(g.columnNames, key, RowsOf(rd.records))
    requires UniqueKeys(g.columnNames, key, Merged(s.db[t].columns, g.columnNames, key, s.db[t].rows, RowsOf(rd.records)))
    ensures var r := IncrementalSpec(e, s, variant, f, fromRecord, t, types, key, skipKeyViolators, expected);
      var live := s.db[t];
      && (variant == MainTree ==> r.Refused? && r.store.db == s.db)
      && (variant != MainTree ==>
            && r.Loaded? && r.run.err.None? && t in r.Final().db
            && IncName(t) !in r.Final().db && UnionName(t) !in r.Final().db && Parked(t) !in r.Final().db
            && r.Final().db[t] == Table(g.columnNames, types[..|g.columnNames|], key,
                                        Merged(live.columns, g.columnNames, key, live.rows, RowsOf(rd.records))))
  {
    LookupsClean(e, s, t);
    var x := Lookup(e, s, CountTables(t));
    var y := Exec(e, x.store, CountColumns(t));
    if variant != MainTree {
      MergeClean(e, y.store, g, t, types, key, skipKeyViolators);
    }
  }

  /** Without scripted faults the lookup and the count both go through, and neither changes a table. */
  lemma LookupsClean(e: Conn, s: Store, t: string)
    requires NoFaultFrom(e.faults, s.attempts)
    ensures var x := Lookup(e, s, CountTables(t));
      var y := Exec(e, x.store, CountColumns(t));
      && x.err.None? && y.err.None? && x.store.db == s.db && y.store.db == s.db
      && NoFaultFrom(e.faults, y.store.attempts)
  {
    var x := Lookup(e, s, CountTables(t));
    LookupClean(e, s, CountTables(t));
    NoFaultLater(e.faults, s.attempts, x.store.attempts);
    var y := Exec(e, x.store, CountColumns(t));
    ExecClean(e, x.store, CountColumns(t));
    NoFaultLater(e.faults, s.attempts, y.store.attempts);
  }

  /**
   * Below the threshold and without scripted faults, when the table takes
   * the column list of the file `g` cut to the table's column count (its
   * own list, or fewer distinct columns of it), and `g` reads as `rd` from
   * `fromRecord` on without a parse fault, with records as wide as the
   * list, no field literal broken and no two records sharing a key, the
   * table ends as `REPLACE` of them: the stored rows that share a key with
   * no record, then the records, laid out in the table's columns with
   * `NULL` in the columns the file lacks (outside the main tree, whose
   * column count throws first).
   */
  lemma IncrementalInPlaceClean(e: Conn, s: Store, variant: Variant, f: Feed, fromRecord: int, t: string, types: seq<string>, key: seq<string>,
                                skipKeyViolators: bool, expected: int, g: Feed, rd: Read)
    requires f.Valid() && NoFaultFrom(e.faults, s.attempts) && t in s.db && expected < MergeThreshold
    requires g == Trimmed(f, |s.db[t].columns|) && ColumnList(g.columnNames, s.db[t].columns)
    requires rd == ReadFrom(g, SeekTo(g, fromRecord).pos)
    requires rd.fault.None? && Fits(rd.records, |g.columnNames|) && Sendable(rd.records)
    requires DistinctKeys(s.db[t], BatchRows(s.db[t].columns, g.columnNames, rd.records))
    ensures var r := IncrementalSpec(e, s, variant, f, fromRecord, t, types, key, skipKeyViolators, expected);
      && (variant == MainTree ==> r.Refused? && r.store.db == s.db)
      && (variant != MainTree ==>
            r.Loaded? && r.run.err.None? && t in r.Final().db
            && r.Final().db[t] == s.db[t].(rows := ReplacedRows(s.db[t], BatchRows(s.db[t].columns, g.columnNames, rd.records))))
  {
    LookupsClean(e, s, t);
    var x := Lookup(e, s, CountTables(t));
    var y := Exec(e, x.store, CountColumns(t));
    if variant != MainTree {
      InPlaceOutcome(e, y.store, g, fromRecord, t);
    }
  }

  /**
   * What a load leaves in the parser's line `pos`, its record counter
   * `latest` and `lastRecordIngested` `last`: what the loop of `r` left,
   * counted from `count`, or, when the load stopped before the loop, the
   * `pos0`, `count0` and `last0` it found.
   */
  ghost predicate LoadLeft(r: Ingested, count: int, pos0: nat, count0: int, last0: int, pos: nat, latest: int, last: int)
  {
    match r.loaded
    case Some(d) =>
      pos == d.next && latest == count + d.fetched && last == (if d.sent == [] then last0 else count + d.upTo)
    case None =>
      pos == pos0 && latest == count0 && last == last0
  }

  /**
   * What the catch block and the end of an ingest leave in the end time,
   * the abort time, the abort flag and the dictionary, from the values
   * they had before. With `aborts`, an `SQLException` stamps the abort
   * time with the last clock reading `now`, sets the flag and refreshes
   * the dictionary from the session's state `current`; without an
   * exception the end time is stamped and, with `refreshes`, the
   * dictionary refreshed.
   */
  ghost predicate Concluded(err: Option<Thrown>, aborts: bool, refreshes: bool,
                            end0: Option<int>, abort0: Option<int>, did0: bool, dict0: map<string, string>,
                            endTime: Option<int>, abortTime: Option<int>, didAbort: bool, dict: map<string, string>,
                            current: Status, now: int)
  {
    var aborted := aborts && err == Some(SqlError);
    && endTime == (if err.None? then Some(now) else end0)
    && abortTime == (if aborted then Some(now) else abort0)
    && didAbort == (did0 || aborted)
    && dict == (if aborted || (refreshes && err.None?) then Refreshed(dict0, current) else dict0)
  }

  /**
   * The elapsed time the full-ingest report is given: the live ingester
   * passes the text of `durationText`, the main tree the milliseconds as a
   * `long`.
   */
  function Elapsed(variant: Variant, start: int, end: int): Arg
  {
    if variant == Live then TextArg(DurationText(start, end)) else LongArg(end - start)
  }

  /**
   * How a full ingest that went through ends when INFO logging is on: the
   * report `"Full ingest of %s took %d"` is formatted after the try block,
   * so a format that throws escapes the ingest unwrapped.
   */
  function Reported(variant: Variant, table: string, start: int, end: int): Halt
  {
    var m := Format(FullTook, [TextArg(table), Elapsed(variant, start, end)]);
    if m.Success? then Returned else Threw(m.error)
  }

  /**
   * With INFO logging on, every live full ingest that went through throws
   * `IllegalFormatConversionException` after the new table is in place:
   * `%d` is given the text of `durationText`. The main tree passes a
   * `long` and returns.
   */
  lemma LiveReportThrows(table: string, start: int, end: int)
    ensures Reported(Live, table, start, end) == Threw(FormatError)
    ensures Reported(MainTree, table, start, end) == Returned
  {
    FullTookThrowsOnText(table, DurationText(start, end));
    FullTookOnLong(table, end - start);
  }

  class Ingester {
    const variant: Variant
    const session: Session
    const parser: Parser
    const gateway: Gateway
    const clock: Clock
    const tmpTableName: string
    const incTableName: string
    const unionTableName: string

    /** The work tables are named after the table, as `init` names them. */
    predicate Valid()
    {
      && tmpTableName == TmpName(session.tableName)
      && incTableName == IncName(session.tableName)
      && unionTableName == UnionName(session.tableName)
    }

    /** The scripted failures, the retries every statement gets, and whether a resend keeps only the generated keys. */
    function Conn(): Conn
    {
      Statements.Conn(gateway.faults, Retries(variant), variant == MainTree)
    }

    /** The gateway's tables and the number of attempts it has taken. */
    function StoreOf(): Store
      reads gateway
    {
      Store(gateway.db, |gateway.log|)
    }

    constructor(variant: Variant, tableName: string, filePath: string, parser: Parser, gateway: Gateway, clock: Clock)
      modifies clock
      ensures this.variant == variant && this.parser == parser && this.gateway == gateway && this.clock == clock
      ensures Valid() && fresh(session)
      ensures session.tableName == tableName && session.filePath == filePath && session.fileName == BaseName(filePath)
      ensures session.lastRecordIngested == -1 && session.startTime == None && session.endTime == None
      ensures session.abortTime == None && !session.didAbort
      ensures session.statusDict == Refreshed(map[], session.Current())
      ensures session.lastRecordCheck == 0 && session.lastTimeCheck == clock.readings(old(clock.taken))
      ensures clock.taken == old(clock.taken) + 1
    {
      this.variant := variant;
      this.parser := parser;
      this.gateway := gateway;
      this.clock := clock;
      tmpTableName := TmpName(tableName);
      incTableName := IncName(tableName);
      unionTableName := UnionName(tableName);
      session := new Session(filePath, tableName, clock);
    }

    /**
     * `init` (live) or the constructor (main tree, legacy): the table name
     * comes from the file name and the prefix before anything else is set;
     * the legacy `split(".")[0]` throws there. The work-table names and the
     * initial session follow, the session reading the clock once.
     */
    static method Make(variant: Variant, prefix: Option<string>, filePath: string, parser: Parser, gateway: Gateway, clock: Clock)
      returns (r: Result<Ingester, Thrown>)
      modifies clock
      ensures r.Failure? <==> TableNameOf(variant, prefix, BaseName(filePath)).Failure?
      ensures r.Failure? ==> r.error == IndexError && clock.taken == old(clock.taken)
      ensures r.Success? ==> fresh(r.value) && fresh(r.value.session) && r.value.Valid()
      ensures r.Success? ==> r.value.variant == variant && r.value.parser == parser && r.value.gateway == gateway && r.value.clock == clock
      ensures r.Success? ==> r.value.session.tableName == TableNameOf(variant, prefix, BaseName(filePath)).value
      ensures r.Success? ==> r.value.session.filePath == filePath && r.value.session.fileName == BaseName(filePath)
      ensures r.Success? ==> r.value.session.lastRecordIngested == -1 && !r.value.session.didAbort
      ensures r.Success? ==> r.value.session.startTime == None && r.value.session.endTime == None && r.value.session.abortTime == None
      ensures r.Success? ==> r.value.session.statusDict == Refreshed(map[], r.value.session.Current())
      ensures r.Success? ==> r.value.session.lastRecordCheck == 0 && r.value.session.lastTimeCheck == clock.readings(old(clock.taken))
      ensures r.Success? ==> clock.taken == old(clock.taken) + 1
    {
      var name := TableNameOf(variant, prefix, BaseName(filePath));
      if name.Failure? {
        return Failure(name.error);
      }
      var g := new Ingester(variant, name.value, filePath, parser, gateway, clock);
      r := Success(g);
    }

    /**
     * `executeQuery(conn, query, retryCount)`: attempt the statement until
     * one attempt goes through; a failure with no retry left throws, which
     * `ok == false` stands for.
     */
    method ExecuteQuery(c: Command, retryCount: nat) returns (ok: bool)
      modifies gateway
      ensures Ran(ok, StoreOf()) == Run(gateway.faults, old(StoreOf()), c, retryCount)
    {
      var retriesLeft: int := retryCount;
      var done := false;
      while retriesLeft >= 0 && !done
        invariant 0 <= retriesLeft <= retryCount
        invariant done ==> Run(gateway.faults, old(StoreOf()), c, retryCount) == Ran(true, StoreOf())
        invariant !done ==> Run(gateway.faults, old(StoreOf()), c, retryCount) == Run(gateway.faults, StoreOf(), c, retriesLeft)
        decreases retriesLeft, !done
      {
        var went := gateway.Execute(c);
        if went {
          done := true;
        } else {
          retriesLeft := retriesLeft - 1;
          if retriesLeft < 0 {
            return false;
          }
        }
      }
      return true;
    }

    /** One statement with the variant's retries: `SQLException` when it does not go through. */
    method Execute(c: Command) returns (err: Option<Thrown>)
      modifies gateway
      ensures Outcome(StoreOf(), err) == Exec(Conn(), old(StoreOf()), c)
    {
      var ok := ExecuteQuery(c, Retries(variant));
      err := if ok then None else Some(SqlError);
    }

    /**
     * `tableExists(t)`: whether the count of tables named `t` reads 1. In
     * the main tree a lookup that went through only on its resend left the
     * generated keys, which have no `count` column, and reading it throws.
     */
    method TableExists(t: string) returns (r: Result<bool, Thrown>)
      modifies gateway
      ensures var x := Lookup(Conn(), old(StoreOf()), CountTables(t));
        && StoreOf() == x.store
        && r == (if x.err.Some? then Failure(SqlError) else Success(t in old(gateway.db)))
    {
      var before := |gateway.log|;
      var err := Execute(CountTables(t));
      if err.Some? {
        return Failure(SqlError);
      }
      if variant == MainTree && |gateway.log| > before + 1 {
        return Failure(SqlError);
      }
      r := Success(TableCount(gateway.db, t) == 1);
    }

    /**
     * `columnCount(t)`: the number of columns named for `t`. The main tree
     * reads the answer before moving to its row, which throws `SQLException`.
     */
    method ColumnCount(t: string) returns (r: Result<int, Thrown>)
      modifies gateway
      ensures var x := Exec(Conn(), old(StoreOf()), CountColumns(t));
        && StoreOf() == x.store
        && r == (if x.err.Some? || variant == MainTree then Failure(SqlError)
                 else Success(if t in old(gateway.db) then |old(gateway.db)[t].columns| else 0))
    {
      var err := Execute(CountColumns(t));
      if err.Some? || variant == MainTree {
        return Failure(SqlError);
      }
      r := Success(ColumnTotal(gateway.db, t));
    }

    /** `dropTable(t)` */
    method DropTable(t: string) returns (err: Option<Thrown>)
      modifies gateway
      ensures Outcome(StoreOf(), err) == Exec(Conn(), old(StoreOf()), DropIfExists(t))
    {
      err := Execute(DropIfExists(t));
    }

    /** `applyPrimaryKeyConstraints(t)`: the parser's key is never null, so the statement is always sent, even for an empty key. */
    method ApplyPrimaryKeyConstraints(t: string) returns (err: Option<Thrown>)
      modifies gateway
      ensures Outcome(StoreOf(), err) == Exec(Conn(), old(StoreOf()), AddPrimaryKey(t, parser.primaryKey))
    {
      err := Execute(AddPrimaryKey(t, parser.primaryKey));
    }

    /**
     * `createTable(t)`: drop `t`, pair each column with its data type
     * (`dataTypes.get(i)` throws once the types run out), create the table
     * and apply the key.
     */
    method CreateTable(t: string) returns (err: Option<Thrown>)
      modifies gateway
      ensures Outcome(StoreOf(), err) == CreateSpec(Conn(), old(StoreOf()), t, parser.columnNames, parser.dataTypes, parser.primaryKey)
    {
      err := Execute(DropIfExists(t));
      if err.Some? {
        return;
      }
      var cols := parser.columnNames;
      var types: seq<string> := [];
      var i := 0;
      while i < |cols|
        invariant i <= |cols| && i <= |parser.dataTypes|
        invariant types == parser.dataTypes[..i]
      {
        if i >= |parser.dataTypes| {
          return Some(IndexError);
        }
        types := types + [parser.dataTypes[i]];
        i := i + 1;
      }
      err := Execute(Command.CreateTable(t, cols, types));
      if err.Some? {
        return;
      }
      err := ApplyPrimaryKeyConstraints(t);
    }

    /**
     * `renameAndDrop(source, target)`: park `target` under `target_old`,
     * rename `source` to `target`; when that rename throws, rename the
     * parked table back if there is one, and swallow the exception. The
     * parking name is dropped last.
     */
    method RenameAndDrop(source: string, target: string) returns (err: Option<Thrown>)
      modifies gateway
      ensures Outcome(StoreOf(), err) == RenameSpec(Conn(), old(StoreOf()), source, target)
    {
      var targetOld := Parked(target);
      err := Execute(DropIfExists(targetOld));
      if err.Some? {
        return;
      }
      err := ParkTarget(source, target);
    }

    /** The part of `renameAndDrop` after the first drop. */
    method ParkTarget(source: string, target: string) returns (err: Option<Thrown>)
      modifies gateway
      ensures Outcome(StoreOf(), err) == Statements.ParkTarget(Conn(), old(StoreOf()), source, target)
    {
      var present := TableExists(target);
      if present.Failure? {
        return Some(SqlError);
      }
      if present.value {
        err := Execute(Rename(target, Parked(target)));
        if err.Some? {
          return;
        }
      }
      err := Install(source, target);
    }

    /** The rename into place, the revert when it throws, and the final drop. */
    method Install(source: string, target: string) returns (err: Option<Thrown>)
      modifies gateway
      ensures Outcome(StoreOf(), err) == Statements.Install(Conn(), old(StoreOf()), source, target)
    {
      var renamed := Execute(Rename(source, target));
      if renamed.Some? {
        var present := TableExists(Parked(target));
        if present.Failure? {
          return Some(SqlError);
        }
        if present.value {
          err := Execute(Rename(Parked(target), target));
          if err.Some? {
            return;
          }
        }
      }
      err := Execute(DropIfExists(Parked(target)));
    }

    /** `createUnionTable()`: drop the union table, then create it from the merge of the table and the incoming table. */
    method CreateUnionTable() returns (err: Option<Thrown>)
      requires Valid()
      modifies gateway
      ensures Outcome(StoreOf(), err) == UnionSpec(Conn(), old(StoreOf()), unionTableName, session.tableName, incTableName, parser.primaryKey)
    {
      err := Execute(DropIfExists(unionTableName));
      if err.Some? {
        return;
      }
      err := Execute(CreateUnion(unionTableName, session.tableName, incTableName, parser.primaryKey));
    }

    /**
     * `populateTable(table, resumeNum, isIncremental, skipKeyViolators)`:
     * seek to `resumeNum`, then send batches of up to 200 records until an
     * empty batch. After each batch `lastRecordIngested` takes the parser's
     * record counter, which is the records skipped plus the rows read; a
     * parse fault ends it with the exception.
     */
    method PopulateTable(table: string, resumeNum: int, isIncremental: bool, skipKeyViolators: bool) returns (err: Option<Thrown>, ghost d: Drained)
      requires parser.Valid()
      modifies gateway, parser`pos, parser`latestRecordNum, session`lastRecordIngested, session`lastRecordCheck, session`lastTimeCheck, clock
      ensures old(clock.taken) <= clock.taken
      ensures parser.Valid() && parser.View() == old(parser.View())
      ensures d == Populate(Conn(), old(StoreOf()), parser.View(), resumeNum, VerbFor(isIncremental), IgnoreFor(skipKeyViolators, isIncremental), table)
      ensures Ended(d, SeekTo(parser.View(), resumeNum).count, old(session.lastRecordIngested), err)
    {
      var verb := VerbFor(isIncremental);
      var ignore := IgnoreFor(skipKeyViolators, isIncremental);
      parser.SeekToRecord(resumeNum);
      err, d := SendBatches(table, verb, ignore);
    }

    /**
     * The parser and the session as the loop of `populateTable` leaves them
     * after the rows `fetched` so far, some batch sent when `any`: `count0` and
     * `last0` are the record counter and `lastRecordIngested` when it started.
     */
    ghost predicate Tracking(f: Feed, any: bool, fetched: int, count0: int, last0: int)
      reads parser, session
    {
      && parser.Valid() && parser.View() == f
      && parser.latestRecordNum == count0 + fetched
      && (!any ==> fetched == 0)
      && session.lastRecordIngested == (if any then count0 + fetched else last0)
    }

    /**
     * The loop `d0` has ended: the store, the parser's line and record
     * counter, the exception and `lastRecordIngested` are what it left,
     * counted from `count0` and `last0`.
     */
    ghost predicate Ended(d0: Drained, count0: int, last0: int, err: Option<Thrown>)
      reads parser, gateway, session
    {
      && StoreOf() == d0.store && parser.pos == d0.next
      && parser.latestRecordNum == count0 + d0.fetched
      && err == (if d0.fault.Some? then Some(ParseError(d0.fault.value)) else None)
      && session.lastRecordIngested == (if d0.sent == [] then last0 else count0 + d0.upTo)
    }

    /**
     * The loop of `populateTable`: fetch up to 200 records; a fault ends it
     * with the exception, an empty batch ends it, and any other batch is
     * sent as one statement whose failure is swallowed.
     */
    method SendBatches(table: string, verb: Verb, ignore: bool) returns (err: Option<Thrown>, ghost d0: Drained)
      requires parser.Valid()
      modifies gateway, parser`pos, parser`latestRecordNum, session`lastRecordIngested, session`lastRecordCheck, session`lastTimeCheck, clock
      ensures old(clock.taken) <= clock.taken
      ensures parser.Valid() && parser.View() == old(parser.View())
      ensures d0 == Drain(parser.View(), old(parser.pos), old(StoreOf()), gateway.faults, Retries(variant), verb, ignore, table)
      ensures Ended(d0, old(parser.latestRecordNum), old(session.lastRecordIngested), err)
    {
      ghost var f := parser.View();
      ghost var at: nat := parser.pos;
      ghost var s := StoreOf();
      d0 := Drain(f, at, s, gateway.faults, Retries(variant), verb, ignore, table);
      ghost var count0 := parser.latestRecordNum;
      ghost var last0 := session.lastRecordIngested;
      ghost var any := false;
      ghost var fetched := 0;
      ghost var taken0 := clock.taken;
      while true
        invariant taken0 <= clock.taken
        invariant Tracking(f, any, fetched, count0, last0)
        invariant at == parser.pos && s == StoreOf()
        invariant OnTrack(d0, any, fetched, f, at, s, gateway.faults, Retries(variant), verb, ignore, table)
        decreases |f.lines| - at
      {
        var stop: bool;
        ghost var b: Batch;
        stop, err, b, s := Round(f, d0, any, fetched, count0, last0, at, s, table, verb, ignore);
        if stop {
          return;
        }
        any := true;
        fetched := fetched + b.fetched;
        at := b.next;
      }
    }

    /**
     * One round of the loop: fetch a batch and, when it holds records, send
     * it. When the loop stops here, the whole loop `d0` has ended with this
     * store, this line and this fault.
     */
    method Round(ghost f: Feed, ghost d0: Drained, ghost any: bool, ghost fetched: int, ghost count0: int, ghost last0: int,
                 ghost at: nat, ghost s: Store, table: string, verb: Verb, ignore: bool)
      returns (stop: bool, err: Option<Thrown>, ghost b: Batch, ghost after: Store)
      requires Tracking(f, any, fetched, count0, last0) && at == parser.pos && s == StoreOf()
      requires OnTrack(d0, any, fetched, f, at, s, gateway.faults, Retries(variant), verb, ignore, table)
      modifies gateway, parser`pos, parser`latestRecordNum, session`lastRecordIngested, session`lastRecordCheck, session`lastTimeCheck, clock
      ensures old(clock.taken) <= clock.taken
      ensures b == TakeRecords(f, at, BatchSize) && after == StoreOf()
      ensures !stop ==> (
          && b.records.Success? && at < b.next == parser.pos
          && Tracking(f, true, fetched + b.fetched, count0, last0)
          && OnTrack(d0, true, fetched + b.fetched, f, b.next, after, gateway.faults, Retries(variant), verb, ignore, table))
      ensures stop ==> parser.Valid() && parser.View() == f && Ended(d0, count0, last0, err)
    {
      stop, err, b := FetchAndSend(table, verb, ignore);
      after := StoreOf();
      if stop {
        TrackStop(d0, any, fetched, f, at, s, gateway.faults, Retries(variant), verb, ignore, table, b);
        return;
      }
      BatchAdvances(f, at, BatchSize);
      TrackAdvance(d0, any, fetched, f, at, s, gateway.faults, Retries(variant), verb, ignore, table, b, after);
    }

    /**
     * Fetch a batch of up to 200 records and, when it holds any, send it.
     * An empty batch or a parse fault stops the loop and sends nothing.
     */
    method FetchAndSend(table: string, verb: Verb, ignore: bool) returns (stop: bool, err: Option<Thrown>, ghost b: Batch)
      requires parser.Valid()
      modifies gateway, parser`pos, parser`latestRecordNum, session`lastRecordIngested, session`lastRecordCheck, session`lastTimeCheck, clock
      ensures old(clock.taken) <= clock.taken
      ensures parser.Valid() && parser.View() == old(parser.View())
      ensures b == TakeRecords(parser.View(), old(parser.pos), BatchSize)
      ensures parser.pos == b.next && parser.latestRecordNum == old(parser.latestRecordNum) + b.fetched
      ensures stop == (b.records.Failure? || |b.records.value| == 0)
      ensures err == (if b.records.Failure? then Some(ParseError(b.records.error)) else None)
      ensures stop ==> StoreOf() == old(StoreOf()) && session.lastRecordIngested == old(session.lastRecordIngested)
      ensures !stop ==> (
        && StoreOf() == Run(gateway.faults, old(StoreOf()), BatchCommand(parser.View(), verb, ignore, table, b.records.value), Retries(variant)).store
        && session.lastRecordIngested == parser.latestRecordNum)
    {
      ghost var at := parser.pos;
      var records := parser.NextRecords(BatchSize);
      b := TakeRecords(parser.View(), at, BatchSize);
      if records.Failure? || |records.value| == 0 {
        stop := true;
        err := if records.Failure? then Some(ParseError(records.error)) else None;
        return;
      }
      SendBatch(table, verb, ignore, records.value);
      stop := false;
      err := None;
    }

    /** One batch statement, its failure swallowed, then the counter is recorded and progress checked. */
    method SendBatch(table: string, verb: Verb, ignore: bool, records: seq<seq<string>>)
      modifies gateway, session`lastRecordIngested, session`lastRecordCheck, session`lastTimeCheck, clock
      ensures old(clock.taken) <= clock.taken
      ensures StoreOf() == Run(gateway.faults, old(StoreOf()), BatchCommand(parser.View(), verb, ignore, table, records), Retries(variant)).store
      ensures session.lastRecordIngested == parser.latestRecordNum
    {
      var ok := ExecuteQuery(InsertRows(verb, ignore, table, parser.columnNames, records), Retries(variant));
      session.lastRecordIngested := parser.latestRecordNum;
      var check := session.CheckProgress(RecordGap, TimeGap, clock);
    }

    // ---------------------------------------------------------------
    // The ingests
    // ---------------------------------------------------------------

    /** `startTime = new Date()` */
    method Start()
      modifies session`startTime, clock
      ensures session.startTime == Some(clock.readings(old(clock.taken))) && clock.taken == old(clock.taken) + 1
    {
      var now := clock.Now();
      session.startTime := Some(now);
    }

    /**
     * After the try block: with `aborts`, the `catch (SQLException)` block
     * stamps the abort and refreshes the dictionary; any exception is
     * rethrown, wrapped by the live ingester; otherwise the end time is
     * stamped and, with `refreshes`, the dictionary refreshed.
     */
    method Conclude(err: Option<Thrown>, aborts: bool, refreshes: bool) returns (h: Halt)
      requires clock.taken > 0
      modifies session`endTime, session`abortTime, session`didAbort, session`statusDict, clock
      ensures old(clock.taken) <= clock.taken
      ensures h == (if err.Some? then Threw(Raised(variant, err.value)) else Returned)
      ensures Concluded(err, aborts, refreshes, old(session.endTime), old(session.abortTime), old(session.didAbort), old(session.statusDict),
                        session.endTime, session.abortTime, session.didAbort, session.statusDict, session.Current(), clock.Last())
    {
      if err.Some? {
        if aborts && err == Some(SqlError) {
          var now := clock.Now();
          session.abortTime := Some(now);
          session.didAbort := true;
          session.UpdateStatusDict();
        }
        return Threw(Raised(variant, err.value));
      }
      var now := clock.Now();
      session.endTime := Some(now);
      if refreshes {
        session.UpdateStatusDict();
      }
      h := Returned;
    }

    /** The try block of `ingestFull`: create the temporary table, fill it from record 0, swap it in. */
    method FullLoad(skipKeyViolators: bool) returns (err: Option<Thrown>, ghost r: Ingested)
      requires Valid() && parser.Valid()
      modifies gateway, parser`pos, parser`latestRecordNum, session`lastRecordIngested, session`lastRecordCheck, session`lastTimeCheck, clock
      ensures old(clock.taken) <= clock.taken
      ensures parser.Valid() && parser.View() == old(parser.View())
      ensures r == FullSpec(Conn(), old(StoreOf()), parser.View(), session.tableName, parser.dataTypes, parser.primaryKey, skipKeyViolators)
      ensures StoreOf() == r.store && err == r.err
      ensures LoadLeft(r, 0, old(parser.pos), old(parser.latestRecordNum), old(session.lastRecordIngested),
                       parser.pos, parser.latestRecordNum, session.lastRecordIngested)
      ensures unchanged(session`endTime, session`abortTime, session`didAbort, session`statusDict)
    {
      err := CreateTable(tmpTableName);
      if err.Some? {
        r := Ingested(StoreOf(), err, None);
        return;
      }
      ghost var d;
      err, d := PopulateTable(tmpTableName, 0, false, skipKeyViolators);
      if err.None? {
        err := RenameAndDrop(tmpTableName, session.tableName);
      }
      r := AfterLoad(d, Outcome(StoreOf(), err));
    }

    /**
     * `ingestFull(skipKeyViolators)`: stamp the start, run the try block;
     * an `SQLException` is recorded as an abort, and every exception is
     * rethrown; a clean run stamps the end, refreshes the dictionary and,
     * when `infoEnabled` (the logger's `isInfoEnabled()`), formats its
     * report, which may throw.
     */
    method IngestFull(skipKeyViolators: bool, infoEnabled: bool) returns (h: Halt, ghost r: Ingested)
      requires Valid() && parser.Valid() && variant != LegacyTree
      modifies gateway, parser`pos, parser`latestRecordNum, session, clock
      ensures parser.Valid() && parser.View() == old(parser.View())
      ensures r == FullSpec(Conn(), old(StoreOf()), parser.View(), session.tableName, parser.dataTypes, parser.primaryKey, skipKeyViolators)
      ensures StoreOf() == r.store
      ensures old(clock.taken) < clock.taken && session.startTime == Some(clock.readings(old(clock.taken)))
      ensures h == (if r.err.Some? then Threw(Raised(variant, r.err.value))
                    else if infoEnabled then Reported(variant, session.tableName, clock.readings(old(clock.taken)), clock.Last())
                    else Returned)
      ensures LoadLeft(r, 0, old(parser.pos), old(parser.latestRecordNum), old(session.lastRecordIngested),
                       parser.pos, parser.latestRecordNum, session.lastRecordIngested)
      ensures Concluded(r.err, true, true, old(session.endTime), old(session.abortTime), old(session.didAbort), old(session.statusDict),
                        session.endTime, session.abortTime, session.didAbort, session.statusDict, session.Current(), clock.Last())
    {
      Start();
      var err;
      err, r := FullLoad(skipKeyViolators);
      h := Conclude(err, true, true);
      if h.Returned? && infoEnabled {
        var m := Format(FullTook, [TextArg(session.tableName), Elapsed(variant, session.startTime.value, session.endTime.value)]);
        if m.Failure? {
          h := Threw(m.error);
        }
      }
    }

    /** The try block of `ingestFullResume`: fill the temporary table from `fromRecord`, swap it in. */
    method ResumeLoad(fromRecord: int, skipKeyViolators: bool) returns (err: Option<Thrown>, ghost r: Ingested)
      requires Valid() && parser.Valid()
      modifies gateway, parser`pos, parser`latestRecordNum, session`lastRecordIngested, session`lastRecordCheck, session`lastTimeCheck, clock
      ensures old(clock.taken) <= clock.taken
      ensures parser.Valid() && parser.View() == old(parser.View())
      ensures r == ResumeSpec(Conn(), old(StoreOf()), parser.View(), fromRecord, session.tableName, skipKeyViolators)
      ensures StoreOf() == r.store && err == r.err
      ensures LoadLeft(r, SeekTo(parser.View(), fromRecord).count, old(parser.pos), old(parser.latestRecordNum), old(session.lastRecordIngested),
                       parser.pos, parser.latestRecordNum, session.lastRecordIngested)
      ensures unchanged(session`endTime, session`abortTime, session`didAbort, session`statusDict)
    {
      ghost var d;
      err, d := PopulateTable(tmpTableName, fromRecord, false, skipKeyViolators);
      if err.None? {
        err := RenameAndDrop(tmpTableName, session.tableName);
      }
      r := AfterLoad(d, Outcome(StoreOf(), err));
    }

    /** The opening of `ingestFullResume`: the last record set to `fromRecord - 1`, then the start stamped. */
    method StartFrom(fromRecord: int)
      modifies session`lastRecordIngested, session`startTime, clock
      ensures session.lastRecordIngested == fromRecord - 1
      ensures session.startTime == Some(clock.readings(old(clock.taken))) && clock.taken == old(clock.taken) + 1
    {
      session.lastRecordIngested := fromRecord - 1;
      Start();
    }

    /**
     * `ingestFullResume(fromRecord, skipKeyViolators)`: the last record is
     * set to `fromRecord - 1`, the start stamped, the try block run; every
     * exception is rethrown without an abort, and a clean run stamps the
     * end without refreshing the dictionary.
     */
    method IngestFullResume(fromRecord: int, skipKeyViolators: bool) returns (h: Halt, ghost r: Ingested)
      requires Valid() && parser.Valid() && variant != LegacyTree
      modifies gateway, parser`pos, parser`latestRecordNum, session, clock
      ensures parser.Valid() && parser.View() == old(parser.View())
      ensures r == ResumeSpec(Conn(), old(StoreOf()), parser.View(), fromRecord, session.tableName, skipKeyViolators)
      ensures StoreOf() == r.store
      ensures h == (if r.err.Some? then Threw(Raised(variant, r.err.value)) else Returned)
      ensures LoadLeft(r, SeekTo(parser.View(), fromRecord).count, old(parser.pos), old(parser.latestRecordNum), fromRecord - 1,
                       parser.pos, parser.latestRecordNum, session.lastRecordIngested)
      ensures old(clock.taken) < clock.taken && session.startTime == Some(clock.readings(old(clock.taken)))
      ensures Concluded(r.err, false, false, old(session.endTime), old(session.abortTime), old(session.didAbort), old(session.statusDict),
                        session.endTime, session.abortTime, session.didAbort, session.statusDict, session.Current(), clock.Last())
    {
      StartFrom(fromRecord);
      var err;
      err, r := ResumeLoad(fromRecord, skipKeyViolators);
      h := Conclude(err, false, false);
    }

    /** The in-place branch of `ingestIncremental`: `REPLACE` the records from `fromRecord` into the table. */
    method InPlaceLoad(fromRecord: int, skipKeyViolators: bool) returns (err: Option<Thrown>, ghost r: Ingested)
      requires parser.Valid()
      modifies gateway, parser`pos, parser`latestRecordNum, session`lastRecordIngested, session`lastRecordCheck, session`lastTimeCheck, clock
      ensures old(clock.taken) <= clock.taken
      ensures parser.Valid() && parser.View() == old(parser.View())
      ensures r == InPlaceSpec(Conn(), old(StoreOf()), parser.View(), fromRecord, session.tableName)
      ensures StoreOf() == r.store && err == r.err
      ensures LoadLeft(r, SeekTo(parser.View(), fromRecord).count, old(parser.pos), old(parser.latestRecordNum), old(session.lastRecordIngested),
                       parser.pos, parser.latestRecordNum, session.lastRecordIngested)
      ensures unchanged(session`endTime, session`abortTime, session`didAbort, session`statusDict)
    {
      ghost var d;
      err, d := PopulateTable(session.tableName, fromRecord, true, skipKeyViolators);
      r := AfterLoad(d, Outcome(StoreOf(), None));
    }

    /** After the incoming table is loaded: build the union, drop the incoming table, key the union, swap it in. */
    method Merge() returns (err: Option<Thrown>)
      requires Valid()
      modifies gateway
      ensures Outcome(StoreOf(), err) == MergeTail(Conn(), old(StoreOf()), session.tableName, parser.primaryKey)
    {
      err := CreateUnionTable();
      if err.Some? {
        return;
      }
      err := DropTable(incTableName);
      if err.Some? {
        return;
      }
      err := ApplyPrimaryKeyConstraints(unionTableName);
      if err.Some? {
        return;
      }
      err := RenameAndDrop(unionTableName, session.tableName);
    }

    /** The merge branch of `ingestIncremental`: create and fill the incoming table from record 0, then merge. */
    method MergeLoad(skipKeyViolators: bool) returns (err: Option<Thrown>, ghost r: Ingested)
      requires Valid() && parser.Valid()
      modifies gateway, parser`pos, parser`latestRecordNum, session`lastRecordIngested, session`lastRecordCheck, session`lastTimeCheck, clock
      ensures old(clock.taken) <= clock.taken
      ensures parser.Valid() && parser.View() == old(parser.View())
      ensures r == MergeSpec(Conn(), old(StoreOf()), parser.View(), session.tableName, parser.dataTypes, parser.primaryKey, skipKeyViolators)
      ensures StoreOf() == r.store && err == r.err
      ensures LoadLeft(r, 0, old(parser.pos), old(parser.latestRecordNum), old(session.lastRecordIngested),
                       parser.pos, parser.latestRecordNum, session.lastRecordIngested)
      ensures unchanged(session`endTime, session`abortTime, session`didAbort, session`statusDict)
    {
      err := CreateTable(incTableName);
      if err.Some? {
        r := Ingested(StoreOf(), err, None);
        return;
      }
      ghost var d;
      err, d := PopulateTable(incTableName, 0, false, skipKeyViolators);
      if err.None? {
        err := Merge();
      }
      r := AfterLoad(d, Outcome(StoreOf(), err));
    }

    /** The column check of `ingestIncremental`: a file with more columns than the table's `n` keeps only its first `n`. */
    method TrimColumns(n: nat)
      requires parser.Valid()
      modifies parser`columnNames
      ensures parser.Valid() && parser.View() == Trimmed(old(parser.View()), n)
    {
      if |parser.columnNames| > n {
        parser.SetColumnNames(parser.columnNames[..n]);
      }
    }

    /** The inner try block of `ingestIncremental`: in place below `MergeThreshold` announced records, else prune-and-merge. */
    method IncrementLoad(fromRecord: int, skipKeyViolators: bool) returns (err: Option<Thrown>, ghost r: Ingested)
      requires Valid() && parser.Valid()
      modifies gateway, parser`pos, parser`latestRecordNum, session`lastRecordIngested, session`lastRecordCheck, session`lastTimeCheck, clock
      ensures old(clock.taken) <= clock.taken
      ensures parser.Valid() && parser.View() == old(parser.View())
      ensures r == if parser.recordsExpected < MergeThreshold then InPlaceSpec(Conn(), old(StoreOf()), parser.View(), fromRecord, session.tableName)
                   else MergeSpec(Conn(), old(StoreOf()), parser.View(), session.tableName, parser.dataTypes, parser.primaryKey, skipKeyViolators)
      ensures StoreOf() == r.store && err == r.err
      ensures LoadLeft(r, if parser.recordsExpected < MergeThreshold then SeekTo(parser.View(), fromRecord).count else 0,
                       old(parser.pos), old(parser.latestRecordNum), old(session.lastRecordIngested),
                       parser.pos, parser.latestRecordNum, session.lastRecordIngested)
      ensures unchanged(session`endTime, session`abortTime, session`didAbort, session`statusDict)
    {
      if parser.recordsExpected < MergeThreshold {
        err, r := InPlaceLoad(fromRecord, skipKeyViolators);
      } else {
        err, r := MergeLoad(skipKeyViolators);
      }
    }

    /**
     * The part of `ingestIncremental` after the columns are trimmed: stamp
     * the start, run the inner try block, conclude. An `SQLException`
     * aborts, refreshes the dictionary and is rethrown (the live ingester
     * wraps it twice, once in the inner and once in the outer handler); a
     * clean run stamps the end and refreshes the dictionary.
     */
    method LoadTrimmed(fromRecord: int, skipKeyViolators: bool) returns (h: Halt, ghost r: Ingested)
      requires Valid() && parser.Valid()
      modifies gateway, parser`pos, parser`latestRecordNum, session, clock
      ensures parser.Valid() && parser.View() == old(parser.View())
      ensures r == if parser.recordsExpected < MergeThreshold then InPlaceSpec(Conn(), old(StoreOf()), parser.View(), fromRecord, session.tableName)
                   else MergeSpec(Conn(), old(StoreOf()), parser.View(), session.tableName, parser.dataTypes, parser.primaryKey, skipKeyViolators)
      ensures StoreOf() == r.store
      ensures h == match r.err
                   case None => Returned
                   case Some(SqlError) => Threw(Raised(variant, Raised(variant, SqlError)))
                   case Some(e) => Threw(Raised(variant, e))
      ensures LoadLeft(r, if parser.recordsExpected < MergeThreshold then SeekTo(parser.View(), fromRecord).count else 0,
                       old(parser.pos), old(parser.latestRecordNum), old(session.lastRecordIngested),
                       parser.pos, parser.latestRecordNum, session.lastRecordIngested)
      ensures old(clock.taken) < clock.taken && session.startTime == Some(clock.readings(old(clock.taken)))
      ensures Concluded(r.err, true, true, old(session.endTime), old(session.abortTime), old(session.didAbort), old(session.statusDict),
                        session.endTime, session.abortTime, session.didAbort, session.statusDict, session.Current(), clock.Last())
    {
      Start();
      var err;
      err, r := IncrementLoad(fromRecord, skipKeyViolators);
      h := Conclude(err, true, true);
      if err == Some(SqlError) {
        h := Threw(Raised(variant, h.thrown));
      }
    }

    /**
     * `ingestIncremental` once the table is known to exist: count its
     * columns (an `SQLException` is rethrown with nothing recorded), trim
     * the file's, then as `LoadTrimmed`.
     */
    method IngestExisting(fromRecord: int, skipKeyViolators: bool) returns (h: Halt, ghost r: Increment)
      requires Valid() && parser.Valid() && variant != LegacyTree
      modifies gateway, parser`pos, parser`latestRecordNum, parser`columnNames, session, clock
      ensures parser.Valid()
      ensures r == ExistingSpec(Conn(), old(StoreOf()), variant, old(parser.View()), fromRecord, session.tableName, parser.dataTypes, parser.primaryKey,
                                skipKeyViolators, parser.recordsExpected)
      ensures StoreOf() == r.Final()
      ensures r.Refused? || r.Loaded?
      ensures r.Refused? ==> h == Threw(Raised(variant, SqlError)) && parser.View() == old(parser.View())
      ensures r.Refused? ==> unchanged(session, clock) && parser.pos == old(parser.pos) && parser.latestRecordNum == old(parser.latestRecordNum)
      ensures r.Loaded? ==> parser.View() == r.trimmed
      ensures r.Loaded? ==> h == match r.run.err
                                 case None => Returned
                                 case Some(SqlError) => Threw(Raised(variant, Raised(variant, SqlError)))
                                 case Some(e) => Threw(Raised(variant, e))
      ensures r.Loaded? ==> LoadLeft(r.run, if parser.recordsExpected < MergeThreshold then SeekTo(r.trimmed, fromRecord).count else 0,
                                     old(parser.pos), old(parser.latestRecordNum), old(session.lastRecordIngested),
                                     parser.pos, parser.latestRecordNum, session.lastRecordIngested)
      ensures r.Loaded? ==> old(clock.taken) < clock.taken && session.startTime == Some(clock.readings(old(clock.taken)))
      ensures r.Loaded? ==> Concluded(r.run.err, true, true, old(session.endTime), old(session.abortTime), old(session.didAbort), old(session.statusDict),
                                      session.endTime, session.abortTime, session.didAbort, session.statusDict, session.Current(), clock.Last())
    {
      var n := ColumnCount(session.tableName);
      if n.Failure? {
        r := Refused(StoreOf());
        h := Threw(Raised(variant, SqlError));
        return;
      }
      TrimColumns(n.value);
      ghost var run;
      h, run := LoadTrimmed(fromRecord, skipKeyViolators);
      r := Loaded(parser.View(), run);
    }

    /**
     * `ingestIncremental(fromRecord, skipKeyViolators)`: a failed lookup is
     * rethrown with nothing recorded; a missing table is skipped, with only
     * the dictionary refreshed; otherwise as `IngestExisting`.
     */
    method IngestIncremental(fromRecord: int, skipKeyViolators: bool) returns (h: Halt, ghost r: Increment)
      requires Valid() && parser.Valid() && variant != LegacyTree
      modifies gateway, parser`pos, parser`latestRecordNum, parser`columnNames, session, clock
      ensures parser.Valid()
      ensures r == IncrementalSpec(Conn(), old(StoreOf()), variant, old(parser.View()), fromRecord, session.tableName, parser.dataTypes, parser.primaryKey,
                                   skipKeyViolators, parser.recordsExpected)
      ensures StoreOf() == r.Final()
      ensures !r.Loaded? ==> parser.View() == old(parser.View()) && parser.pos == old(parser.pos) && parser.latestRecordNum == old(parser.latestRecordNum)
      ensures r.Refused? ==> h == Threw(Raised(variant, SqlError)) && unchanged(session, clock)
      ensures r.Skipped? ==> h == Returned && unchanged(clock)
      ensures r.Skipped? ==> session.Current() == old(session.Current()) && session.statusDict == Refreshed(old(session.statusDict), session.Current())
      ensures r.Loaded? ==> parser.View() == r.trimmed
      ensures r.Loaded? ==> h == match r.run.err
                                 case None => Returned
                                 case Some(SqlError) => Threw(Raised(variant, Raised(variant, SqlError)))
                                 case Some(e) => Threw(Raised(variant, e))
      ensures r.Loaded? ==> LoadLeft(r.run, if parser.recordsExpected < MergeThreshold then SeekTo(r.trimmed, fromRecord).count else 0,
                                     old(parser.pos), old(parser.latestRecordNum), old(session.lastRecordIngested),
                                     parser.pos, parser.latestRecordNum, session.lastRecordIngested)
      ensures r.Loaded? ==> old(clock.taken) < clock.taken && session.startTime == Some(clock.readings(old(clock.taken)))
      ensures r.Loaded? ==> Concluded(r.run.err, true, true, old(session.endTime), old(session.abortTime), old(session.didAbort), old(session.statusDict),
                                      session.endTime, session.abortTime, session.didAbort, session.statusDict, session.Current(), clock.Last())
    {
      var found := TableExists(session.tableName);
      if found.Failure? {
        r := Refused(StoreOf());
        h := Threw(Raised(variant, SqlError));
        return;
      }
      if !found.value {
        session.UpdateStatusDict();
        r := Skipped(StoreOf());
        h := Returned;
        return;
      }
      h, r := IngestExisting(fromRecord, skipKeyViolators);
    }

    /**
     * `ingest(skipKeyViolators)`: an incremental ingest from record 0 when
     * the export mode is exactly `INCREMENTAL`, a full ingest otherwise, a
     * missing mode included.
     */
    method Ingest(skipKeyViolators: bool, infoEnabled: bool) returns (h: Halt, ghost r: Dispatched)
      requires Valid() && parser.Valid() && variant != LegacyTree
      modifies gateway, parser`pos, parser`latestRecordNum, parser`columnNames, session, clock
      ensures r.IncrementalRun? <==> parser.exportMode == Some("INCREMENTAL")
      ensures r.FullRun? ==> r.run == FullSpec(Conn(), old(StoreOf()), old(parser.View()), session.tableName, parser.dataTypes, parser.primaryKey,
                                              skipKeyViolators)
      ensures r.FullRun? ==> StoreOf() == r.run.store && old(clock.taken) < clock.taken
      ensures r.FullRun? ==> h == (if r.run.err.Some? then Threw(Raised(variant, r.run.err.value))
                                   else if infoEnabled then Reported(variant, session.tableName, clock.readings(old(clock.taken)), clock.Last())
                                   else Returned)
      ensures r.IncrementalRun? ==> r.inc == IncrementalSpec(Conn(), old(StoreOf()), variant, old(parser.View()), 0, session.tableName, parser.dataTypes,
                                                             parser.primaryKey, skipKeyViolators, parser.recordsExpected)
      ensures r.IncrementalRun? ==> StoreOf() == r.inc.Final()
      ensures r.IncrementalRun? ==> (h == Returned <==> r.inc.Skipped? || (r.inc.Loaded? && r.inc.run.err.None?))
    {
      if parser.exportMode == Some("INCREMENTAL") {
        ghost var inc;
        h, inc := IngestIncremental(0, skipKeyViolators);
        r := IncrementalRun(inc);
      } else {
        ghost var run;
        h, run := IngestFull(skipKeyViolators, infoEnabled);
        r := FullRun(run);
      }
    }
  }
}
