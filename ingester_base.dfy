// The state every ingester keeps about one feed file: the table name it
// derives from the file name, the status dictionary it reports, and the
// checkpoint throttle that decides when progress is worth logging.
//
// Three ingesters share this state and differ in details: `Live`
// (ingest/IngesterBase.java with ingest/MySqlIngester.java, the one the
// program runs), `MainTree` (the abstract Ingester.java with
// MySQLIngester.java under src/main/java) and `LegacyTree` (the older
// epf/Ingester.java).

module IngesterBase {
  import opened Text
  import opened FeedFormat

  datatype Variant = Live | MainTree | LegacyTree

  /**
   * What an ingest throws: an `SQLException`, a parser failure, an index
   * out of bounds, a `String.format` whose arguments do not fit its
   * template, or a `RuntimeException` wrapping another.
   */
  datatype Thrown = SqlError | ParseError(fault: Fault) | IndexError | FormatError | Wrapped(cause: Thrown)

  // ---------------------------------------------------------------
  // Table names
  // ---------------------------------------------------------------

  /** A path without its trailing separators, as `File` normalizes it. */
  function TrimSlashes(path: string): (p: string)
    ensures p <= path
    ensures |p| == 0 || p[|p| - 1] != '/'
    ensures forall k :: |p| <= k < |path| ==> path[k] == '/'
  {
    if |path| > 0 && path[|path| - 1] == '/' then TrimSlashes(path[..|path| - 1]) else path
  }

  /** `new File(path).getName()`: the text after the last `/` once the trailing separators are gone. */
  function BaseName(path: string): (name: string)
    ensures !Contains(name, "/")
  {
    var p := TrimSlashes(path);
    SplitPiecesFree(p, "/");
    Last(Split(p, "/"))
  }

  /** A path without a separator is its own name. */
  lemma BaseNameOfName(path: string)
    requires !Contains(path, "/")
    ensures BaseName(path) == path
  {
    if |path| > 0 {
      LastNotSlash(path);
    }
    SplitAbsent(path, "/");
  }

  /** A text without a separator does not end in one. */
  lemma LastNotSlash(s: string)
    requires |s| > 0 && !Contains(s, "/")
    ensures s[|s| - 1] != '/'
  {
    ContainsIndexOf(s, "/");
    assert !OccursAt(s, "/", |s| - 1);
    assert s[|s| - 1..] == [s[|s| - 1]];
  }

  /** The name of a file in a directory is the file's own name, with or without a separator at the end. */
  lemma BaseNameInDirectory(dir: string, name: string)
    requires name != "" && !Contains(name, "/")
    ensures BaseName(dir + "/" + name) == name
    ensures BaseName(dir + "/" + name + "/") == name
  {
    var path := dir + "/" + name;
    LastNotSlash(name);
    assert path[|path| - 1] == name[|name| - 1];
    assert (path + "/")[..|path + "/"| - 1] == path;
    LastPiece(dir, "/", name);
  }

  /**
   * The table prefix: `prefix + "_"`, or nothing. The live ingester treats
   * an empty prefix as absent; the other two only a missing one.
   */
  function PrefixOf(variant: Variant, prefix: Option<string>): string
  {
    match prefix
    case None => ""
    case Some(p) => if variant == Live && p == "" then "" else p + "_"
  }

  /** The prefixed file name with every `-` turned into `_`. */
  function RawName(variant: Variant, prefix: Option<string>, fileName: string): string
  {
    Replace(PrefixOf(variant, prefix) + fileName, "-", "_")
  }

  /** `s.split(".", -1)`: the regular expression `.` matches every character, so each of the `|s| + 1` pieces is empty. */
  function DotSplitAll(s: string): (parts: seq<string>)
    ensures |parts| == |s| + 1
    ensures forall k :: 0 <= k < |parts| ==> parts[k] == ""
  {
    seq(|s| + 1, k => "")
  }

  /** `s.split(".")`: a text without a match is its own piece; otherwise the empty pieces are all trailing and dropped. */
  function DotSplit(s: string): (parts: seq<string>)
  {
    if |s| == 0 then [s] else DropTrailingEmpty(DotSplitAll(s))
  }

  /** A non-empty name splits into no pieces at all. */
  lemma DotSplitEmpty(s: string)
    requires |s| > 0
    ensures DotSplit(s) == []
  {
    var r := DotSplit(s);
    if |r| > 0 {
      assert false;
    }
  }

  /**
   * The table name: the raw name, cut with `split(".", -1)[0]` when it
   * holds a dot (live and main tree), or with `split(".")[0]` always
   * (legacy), which throws once there is no first piece.
   */
  function TableNameOf(variant: Variant, prefix: Option<string>, fileName: string): Result<string, Thrown>
  {
    var n := RawName(variant, prefix, fileName);
    if variant == LegacyTree then
      var parts := DotSplit(n);
      if |parts| == 0 then Failure(IndexError) else Success(parts[0])
    else if '.' in n then Success(DotSplitAll(n)[0])
    else Success(n)
  }

  /** Replacing a character by a non-empty text keeps a text non-empty. */
  lemma ReplaceNonEmpty(s: string, c: char, r: string)
    requires |s| > 0 && |r| > 0
    ensures |Replace(s, [c], r)| > 0
  {
  }

  /** Live and main tree: without a dot the name is the prefixed file name with no hyphen left; with a dot it is empty. */
  lemma TableNameCases(variant: Variant, prefix: Option<string>, fileName: string)
    requires variant != LegacyTree
    ensures var n := RawName(variant, prefix, fileName);
      && ('.' !in n ==> TableNameOf(variant, prefix, fileName) == Success(n) && '-' !in n)
      && ('.' in n ==> TableNameOf(variant, prefix, fileName) == Success(""))
  {
    ReplaceRemoves(PrefixOf(variant, prefix) + fileName, '-', "_");
  }

  /** Legacy: every name that is not empty makes the constructor throw. */
  lemma LegacyNameFails(prefix: Option<string>, fileName: string)
    requires |PrefixOf(LegacyTree, prefix) + fileName| > 0
    ensures TableNameOf(LegacyTree, prefix, fileName) == Failure(IndexError)
  {
    ReplaceNonEmpty(PrefixOf(LegacyTree, prefix) + fileName, '-', "_");
    DotSplitEmpty(RawName(LegacyTree, prefix, fileName));
  }

  /** An empty prefix: nothing for the live ingester, a lone `_` for the other two. */
  lemma EmptyPrefix(variant: Variant)
    ensures PrefixOf(variant, Some("")) == (if variant == Live then "" else "_")
  {
  }

  // ---------------------------------------------------------------
  // The status dictionary
  // ---------------------------------------------------------------

  /** The fields `updateStatusDict` reports. Times are milliseconds; `None` is a null `Date`. */
  datatype Status = Status(
    fileName: string, filePath: string, lastRecordIngested: int,
    startTime: Option<int>, endTime: Option<int>, abortTime: Option<int>, didAbort: bool)

  /** `Boolean.toString` */
  function BoolText(b: bool): string
  {
    if b then "true" else "false"
  }

  /** A time as the dictionary holds it (the model prints the milliseconds). */
  function DateText(t: int): string
  {
    IntToString(t)
  }

  function PutTime(d: map<string, string>, key: string, t: Option<int>): map<string, string>
  {
    if t.Some? then d[key := DateText(t.value)] else d
  }

  /** `updateStatusDict`: the four fixed keys, then each time that is set; nothing is removed. */
  function Refreshed(d: map<string, string>, s: Status): map<string, string>
  {
    var fixed := d["fileName" := s.fileName]["filePath" := s.filePath]["lastRecordIngested" := IntToString(s.lastRecordIngested)];
    PutTime(PutTime(PutTime(fixed, "startTime", s.startTime), "endTime", s.endTime), "abortTime", s.abortTime)["didAbort" := BoolText(s.didAbort)]
  }

  const TimeKeys: set<string> := {"startTime", "endTime", "abortTime"}

  /** The time a status holds under one of the time keys. */
  function TimeOf(s: Status, key: string): Option<int>
  {
    if key == "startTime" then s.startTime else if key == "endTime" then s.endTime else s.abortTime
  }

  /** A refresh keeps every key and holds the four fixed keys with the current values. */
  lemma RefreshedFixed(d: map<string, string>, s: Status)
    ensures var r := Refreshed(d, s);
      && d.Keys <= r.Keys
      && r["fileName"] == s.fileName && r["filePath"] == s.filePath
      && r["lastRecordIngested"] == IntToString(s.lastRecordIngested)
      && (r["didAbort"] == "true" <==> s.didAbort)
  {
  }

  /**
   * A time key is present after a refresh exactly when it was there or
   * its time is set; a set time is written, and a null one leaves the old
   * text in place.
   */
  lemma RefreshedTime(d: map<string, string>, s: Status, k: string)
    requires k in TimeKeys
    ensures var r := Refreshed(d, s);
      && (k in r <==> k in d || TimeOf(s, k).Some?)
      && (TimeOf(s, k).Some? ==> r[k] == DateText(TimeOf(s, k).value))
      && (TimeOf(s, k).None? && k in d ==> r[k] == d[k])
  {
  }

  /** A refresh touches no key other than its seven. */
  lemma RefreshedOthers(d: map<string, string>, s: Status, k: string)
    requires k !in TimeKeys && k != "fileName" && k != "filePath" && k != "lastRecordIngested" && k != "didAbort"
    ensures k in Refreshed(d, s) <==> k in d
    ensures k in d ==> Refreshed(d, s)[k] == d[k]
  {
  }

  /** The recorded count reads back as the count for every 32-bit value. */
  lemma RefreshedCount(d: map<string, string>, s: Status)
    requires IntMin <= s.lastRecordIngested <= IntMax
    ensures ParseInt(Refreshed(d, s)["lastRecordIngested"]) == Some(s.lastRecordIngested)
  {
    ParsePrinted(s.lastRecordIngested);
  }

  /** Refreshing twice with the same status changes nothing more. */
  lemma RefreshIdempotent(d: map<string, string>, s: Status)
    ensures Refreshed(Refreshed(d, s), s) == Refreshed(d, s)
  {
    var once := Refreshed(d, s);
    var twice := Refreshed(once, s);
    RefreshedFixed(once, s);
    forall k | k in twice
      ensures k in once && twice[k] == once[k]
    {
      if k in TimeKeys {
        RefreshedTime(d, s, k);
        RefreshedTime(once, s, k);
      } else if k != "fileName" && k != "filePath" && k != "lastRecordIngested" && k != "didAbort" {
        RefreshedOthers(once, s, k);
      } else {
        RefreshedFixed(d, s);
      }
    }
  }

  // ---------------------------------------------------------------
  // The checkpoint throttle
  // ---------------------------------------------------------------

  /** The outcome of `checkProgress`: its result and the two checkpoint fields after it. */
  datatype Check = Check(result: int, recordCheck: int, timeCheck: int)

  /** Whether `checkProgress` reads the clock: only once the record gap is met. */
  predicate RecordGapMet(ingested: int, recordCheck: int, recordGap: int)
  {
    ingested - recordCheck >= recordGap
  }

  /**
   * `checkProgress(recordGap, timeGap)` at time `now`: a checkpoint when
   * both gaps are met, which moves both fields and returns the count;
   * otherwise 0 and nothing moves.
   */
  function Throttle(ingested: int, recordCheck: int, timeCheck: int, now: int, recordGap: int, timeGap: int): Check
  {
    if RecordGapMet(ingested, recordCheck, recordGap) && now - timeCheck >= timeGap then Check(ingested, ingested, now)
    else Check(0, recordCheck, timeCheck)
  }

  /**
   * A checkpoint happens exactly when both gaps are met. With a positive
   * record gap and a non-negative last checkpoint, a checkpoint returns at
   * least the record gap, so 0 always means "no checkpoint", and the next
   * checkpoint lies at least a record gap and a time gap beyond this one.
   */
  lemma ThrottleSpacing(ingested: int, recordCheck: int, timeCheck: int, now: int, recordGap: int, timeGap: int)
    requires recordGap > 0 && recordCheck >= 0
    ensures var c := Throttle(ingested, recordCheck, timeCheck, now, recordGap, timeGap);
      && (c.result != 0 <==> ingested - recordCheck >= recordGap && now - timeCheck >= timeGap)
      && (c.result != 0 ==> c.result >= recordGap && c.result - recordCheck >= recordGap && c.timeCheck - timeCheck >= timeGap)
      && (c.result == 0 ==> c.recordCheck == recordCheck && c.timeCheck == timeCheck)
  {
  }

  /** A clock read as a script of millisecond readings, one per call. */
  class Clock {
    const readings: nat -> int
    var taken: nat

    constructor(readings: nat -> int)
      ensures this.readings == readings && taken == 0
    {
      this.readings := readings;
      taken := 0;
    }

    /** The reading the latest call of `Now` returned. */
    function Last(): int
      requires taken > 0
      reads this
    {
      readings(taken - 1)
    }

    /** `new Date().getTime()` */
    method Now() returns (t: int)
      modifies this
      ensures t == readings(old(taken)) && taken == old(taken) + 1
    {
      t := readings(taken);
      taken := taken + 1;
    }
  }

  /** The fields `IngesterBase` (or the legacy and main-tree `Ingester`) keeps for one file. */
  class Session {
    const filePath: string
    const fileName: string
    const tableName: string
    var statusDict: map<string, string>
    var startTime: Option<int>
    var endTime: Option<int>
    var abortTime: Option<int>
    var didAbort: bool
    var lastRecordIngested: int
    var lastRecordCheck: int
    var lastTimeCheck: int

    function Current(): Status
      reads this
    {
      Status(fileName, filePath, lastRecordIngested, startTime, endTime, abortTime, didAbort)
    }

    /**
     * `initTableName` then `initVariables`: no record yet, no times, no
     * abort, the dictionary filled from that state, the last checkpoint at
     * record 0 and at the current time.
     */
    constructor(filePath: string, tableName: string, clock: Clock)
      modifies clock
      ensures this.filePath == filePath && fileName == BaseName(filePath) && this.tableName == tableName
      ensures lastRecordIngested == -1 && startTime == None && endTime == None && abortTime == None && !didAbort
      ensures statusDict == Refreshed(map[], Current())
      ensures lastRecordCheck == 0 && lastTimeCheck == clock.readings(old(clock.taken)) && clock.taken == old(clock.taken) + 1
    {
      var now := clock.Now();
      this.filePath := filePath;
      fileName := BaseName(filePath);
      this.tableName := tableName;
      lastRecordIngested := -1;
      startTime := None;
      endTime := None;
      abortTime := None;
      didAbort := false;
      statusDict := Refreshed(map[], Status(BaseName(filePath), filePath, -1, None, None, None, false));
      lastRecordCheck := 0;
      lastTimeCheck := now;
    }

    /** `updateStatusDict` */
    method UpdateStatusDict()
      modifies this`statusDict
      ensures statusDict == Refreshed(old(statusDict), Current())
    {
      statusDict := Refreshed(statusDict, Current());
    }

    /** `checkProgress(recordGap, timeGap)`, reading the clock only once the record gap is met. */
    method CheckProgress(recordGap: int, timeGap: int, clock: Clock) returns (check: int)
      modifies this`lastRecordCheck, this`lastTimeCheck, clock
      ensures clock.taken == old(clock.taken) + (if RecordGapMet(lastRecordIngested, old(lastRecordCheck), recordGap) then 1 else 0)
      ensures var c := Throttle(lastRecordIngested, old(lastRecordCheck), old(lastTimeCheck), clock.readings(old(clock.taken)), recordGap, timeGap);
        check == c.result && lastRecordCheck == c.recordCheck && lastTimeCheck == c.timeCheck
    {
      check := 0;
      if lastRecordIngested - lastRecordCheck >= recordGap {
        var t := clock.Now();
        if t - lastTimeCheck >= timeGap {
          lastTimeCheck := t;
          lastRecordCheck := lastRecordIngested;
          check := lastRecordCheck;
        }
      }
    }
  }
}
