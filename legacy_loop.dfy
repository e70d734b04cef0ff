// The batch loop of the legacy `Ingester._populateTable`. It leaves only
// when `nextRecords` returns null, which the legacy parser never does: at
// the end of the file it keeps answering with an empty batch, so the loop
// keeps sending an empty statement. A loop that does not terminate cannot
// be written as a method here, so the loop is a function of the number of
// rounds it is allowed to run.

module LegacyLoop {
  import opened Text
  import opened FeedFormat
  import opened Database
  import opened Statements

  /** Where the loop stands after some rounds: the store, the line, the rows read, the records sent, and the parse fault that threw out of it. */
  datatype Spin = Spin(store: Store, at: nat, fetched: int, sent: seq<seq<string>>, fault: Option<Fault>)

  /**
   * An empty batch still goes out as `INSERT ... VALUES ` with nothing
   * after it, which the server refuses: one attempt, the tables untouched.
   */
  function Refused(s: Store): (r: Store)
    ensures r.db == s.db && r.attempts == s.attempts + 1
  {
    Store(s.db, s.attempts + 1)
  }

  /**
   * `rounds` turns of the legacy loop from line `i`: fetch up to 200
   * records; a parse fault throws out of the loop; any batch, an empty one
   * included, is sent once (no retry) and its failure swallowed.
   */
  function LegacyRounds(f: Feed, i: nat, s: Store, faults: seq<bool>, verb: Verb, ignore: bool, table: string, rounds: nat): (r: Spin)
    requires f.Valid() && i <= |f.lines|
    ensures i <= r.at <= |f.lines|
    decreases rounds
  {
    if rounds == 0 then Spin(s, i, 0, [], None)
    else
      var b := TakeRecords(f, i, BatchSize);
      if b.records.Failure? then Spin(s, b.next, b.fetched, [], Some(b.records.error))
      else
        var after := if b.records.value == [] then Refused(s)
                     else Run(faults, s, BatchCommand(f, verb, ignore, table, b.records.value), 0).store;
        var rest := LegacyRounds(f, b.next, after, faults, verb, ignore, table, rounds - 1);
        Spin(rest.store, rest.at, b.fetched + rest.fetched, b.records.value + rest.sent, rest.fault)
  }

  /** At the end of the file `nextRecords` reads nothing and answers with an empty batch, not with null. */
  lemma TakeAtEnd(f: Feed, max: int)
    requires f.Valid()
    ensures TakeRecords(f, |f.lines|, max) == Batch(Success([]), |f.lines|, 0)
  {
    if max > 0 {
      assert TakeRecords(f, |f.lines|, max) == TakeFrom(f, |f.lines|, max);
    }
  }

  /**
   * The loop does not end: from the end of the file, every one of any
   * number of rounds sends one more empty statement, reads nothing, sends
   * no record, meets no fault and leaves the tables as they were.
   */
  lemma {:induction false} LegacySpins(f: Feed, s: Store, faults: seq<bool>, verb: Verb, ignore: bool, table: string, rounds: nat)
    requires f.Valid()
    ensures var r := LegacyRounds(f, |f.lines|, s, faults, verb, ignore, table, rounds);
      && r.at == |f.lines| && r.fetched == 0 && r.sent == [] && r.fault.None?
      && r.store == Store(s.db, s.attempts + rounds)
    decreases rounds
  {
    if rounds > 0 {
      TakeAtEnd(f, BatchSize);
      LegacySpins(f, Refused(s), faults, verb, ignore, table, rounds - 1);
    }
  }
}
