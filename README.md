# EPF bulk loader, modelled in Dafny

This project models the core of an importer for Apple's Enterprise Partner
Feed (EPF). An EPF file is a text export of one database table. Its first row
holds the column names after a `#`. The next rows carry tagged header lines
(`#primaryKey:`, `#dbTypes:`, `#exportMode:`). Then come the data records,
each ended by the record delimiter `\x02\n` and split into fields by `\x01`.
A trailer `#recordsWritten:` gives the record count. The importer reads the
file and loads it into a database table: the live and legacy trees target
MySQL, and the main tree's statements are given the same MySQL semantics.
A load takes one of two ways:

- **Full ingest.** Create a temporary table, fill it, then rename it into
  place.
- **Incremental ingest.** `REPLACE` rows into the existing table, or, for large
  files, load a second table and merge the two with a prune-and-union query.

The repository carries three generations of this code. The model covers all
three:

- **Live** (`Live`): `parse/V3Parser.java`, `ingest/IngesterBase.java` and
  `ingest/MySqlIngester.java`. Every statement is retried twice, and
  exceptions are rethrown wrapped in `RuntimeException`.
- **Main tree** (`MainTree`): `src/main/.../Ingester.java` and
  `MySQLIngester.java`. Its parser class, whose getters these files call,
  is not part of this model; the model lets the main tree read a feed of
  either dialect. A statement that throws is sent once more (its
  `Connection.executeQuery` falls back to a plain `execute`), and
  `SQLException` is rethrown as it is. That resend keeps the generated
  keys instead of the rows, so a table lookup that goes through only on
  its resend has no `count` to read and throws.
- **Legacy** (`LegacyTree`, and `Legacy` for its parser): `epf/Parser.java`
  and `epf/Ingester.java`.

Modules, in dependency order:

- `Text` (text.dfy): the Java string operations the source relies on.
  - `split` with limit -1 and with the default limit;
  - `indexOf` and `contains`;
  - `replace` and `trim`;
  - `Long.toString` and `Integer.parseInt`, with its 32-bit range.
- `TimeHelper` (time_helper.dfy): `durationText`, using Java's truncating
  `long` division.
- `FeedFormat` (feed_format.dfy): the parsers' reading logic as functions of
  the file's lines. It covers:
  - `readLine`, `nextRowString` and `advanceToNextRecord`;
  - `splitRow`, the record clean-up of `nextRecord`, `nextRecords` and
    `nextRecordDict`;
  - the trailer count and the header.
  `Dialect` selects V3 or Legacy, and every place where the two differ is a
  branch on it.
- `FeedParser` (feed_parser.dfy): the parser as a `class` whose fields are
  updated in place: the file pointer, the record counter and the header
  fields. Each method's loops are proved against the `FeedFormat` functions.
- `Database` (database.dfy): tables, rows and what MySQL does with each
  statement the importer sends, for every variant. This includes `INSERT` / `INSERT IGNORE` /
  `REPLACE` under a primary key, and the merge query. The connection is a
  `Gateway` class with a script of attempts that fail.
- `SqlText` (sql_text.dfy): the statement texts. It covers:
  - field escaping and the unquoting of `NULL`;
  - the batch `INSERT`/`REPLACE`;
  - `CREATE TABLE` and `ALTER TABLE ... PRIMARY KEY`;
  - the incremental `WHERE` / `SELECT` / `UNION` strings.
- `IngesterBase` (ingester_base.dfy):
  - the table-name derivation;
  - the status dictionary;
  - the progress throttle, as a `Session` class read against a scripted
    `Clock`.
- `LogFormat` (log_format.dfy): `String.format` with `%s` and `%d`
  conversions, enough to tell which log reports throw.
- `Statements` (statements.dfy): each ingest step as a function of the
  database, with the outcome lemmas:
  - what each step changes, and nothing else;
  - which exceptions it can raise;
  - what the table holds when no attempt fails.
- `Ingest` (ingester.dfy): the `Ingester` class. Its methods follow the
  source's methods one for one and are proved against `Statements`.
- `LegacyLoop` (legacy_loop.dfy): the legacy batch loop, which never ends
  when INFO logging is off.

Inputs that the program takes from its surroundings become parameters:

- the file's contents (a string);
- the clock (a script of readings);
- the database (a map of tables);
- the failures of `executeQuery` (a script of booleans).

## Model

| member | source | states |
|---|---|---|
| Text.IndexOf | src/com/spacehopperstudios/epf/parse/V3Parser.java:302 | the index of the first occurrence of the text, and -1 exactly when it occurs nowhere |
| Text.ContainsIndexOf | src/com/spacehopperstudios/epf/parse/V3Parser.java:248 | `contains` holds exactly when `indexOf` finds an occurrence |
| Text.Split | src/com/spacehopperstudios/epf/parse/V3Parser.java:311-312 | a split with limit -1 always yields at least one piece |
| Text.SplitJoin | src/com/spacehopperstudios/epf/parse/V3Parser.java:311-312 | joining the pieces with the delimiter gives back the original text |
| Text.SplitPiecesFree | src/com/spacehopperstudios/epf/parse/V3Parser.java:312 | no piece of a split contains the delimiter |
| Text.FirstPiece | src/com/spacehopperstudios/epf/parse/V3Parser.java:311 | the first piece is the text before the first delimiter |
| Text.LastPiece | src/com/spacehopperstudios/epf/parse/V3Parser.java:117-118 | for a delimiter whose first character does not recur, the last piece is the text after its last occurrence |
| Text.SplitAbsent | src/com/spacehopperstudios/epf/parse/V3Parser.java:308 | a text without the delimiter splits into itself alone |
| Text.DropTrailingEmpty | src/com/spacehopperstudios/epf/Parser.java:274-275 | the default split keeps a prefix of the pieces, ending in a non-empty piece, and drops only empty ones |
| Text.SplitDefaultPieces | src/com/spacehopperstudios/epf/Parser.java:87-88 | no piece of the default split holds the delimiter, the last piece is non-empty when the delimiter occurs, and the pieces rejoined give back the text up to a run of delimiters at its end |
| Text.ReplaceRemoves | src/com/spacehopperstudios/epf/ingest/IngesterBase.java:97 | replacing `-` by `_` leaves no hyphen in the name |
| Text.ReplaceAbsent | src/com/spacehopperstudios/epf/ingest/IngesterBase.java:97 | a name without a hyphen is left unchanged |
| Text.TrimStart | src/com/spacehopperstudios/epf/parse/V3Parser.java:351 | the result is a suffix that starts above U+0020, and only characters up to U+0020 were removed |
| Text.TrimEnd | src/com/spacehopperstudios/epf/parse/V3Parser.java:351 | the result is a prefix that ends above U+0020, and only characters up to U+0020 were removed |
| Text.TrimNoop | src/com/spacehopperstudios/epf/parse/V3Parser.java:351 | trimming a text whose ends are above U+0020 changes nothing |
| Text.NatToString | src/com/spacehopperstudios/epf/ingest/IngesterBase.java:44 | the printed form of a number is a non-empty run of decimal digits |
| Text.NatToStringValue | src/com/spacehopperstudios/epf/ingest/IngesterBase.java:44 | the digits printed for `n` evaluate back to `n` |
| Text.ParseInt | src/com/spacehopperstudios/epf/parse/V3Parser.java:119 | a parse succeeds only on non-empty text and only with a value in the 32-bit range (otherwise Java throws) |
| Text.ParsePrinted | src/com/spacehopperstudios/epf/parse/V3Parser.java:119 | parsing the printed form of any 32-bit integer gives it back |
| TimeHelper.JavaDiv | src/com/spacehopperstudios/epf/TimeHelper.java:23-30 | truncating division: for non-negative dividends the remainder is in `[0, b)`; for negative ones the quotient is non-positive and the remainder is in `(-b, 0]` |
| TimeHelper.DurationParts | src/com/spacehopperstudios/epf/TimeHelper.java:20-31 | the hours, minutes, seconds and milliseconds add back up to `end - start`; for `end >= start` each part is in its usual range; for `end < start` no part is positive |
| TimeHelper.ZeroDuration | src/com/spacehopperstudios/epf/TimeHelper.java:20-33 | a zero duration is printed `0h 0m 0s,0` |
| LogFormat.Format | src/com/spacehopperstudios/epf/ingest/MySqlIngester.java:104 | `String.format` fails only with a format error and only on a template with a conversion |
| LogFormat.DecimalOfTextThrows | src/com/spacehopperstudios/epf/ingest/MySqlIngester.java:104 | a `%d` conversion given a text throws a format error whatever follows |
| LogFormat.FullTookThrowsOnText | src/com/spacehopperstudios/epf/ingest/MySqlIngester.java:104 | the report `Full ingest of %s took %d` throws when the elapsed time is a text |
| LogFormat.FullTookOnLong | src/main/java/com/spacehopperstudios/epf/Ingester.java:154-156 | given the milliseconds as a `long`, the report reads `Full ingest of <table> took <millis>` |
| LogFormat.FullTookTextReports | src/com/spacehopperstudios/epf/ingest/MySqlIngester.java:104 | with `%s` in place of `%d`, the report reads `Full ingest of <table> took <elapsed text>` |
| LogFormat.UnknownConvThrows | src/com/spacehopperstudios/epf/Ingester.java:461 | a template holding the unknown conversion `%i` throws, whatever the arguments |
| LogFormat.AtRecordThrows | src/com/spacehopperstudios/epf/Ingester.java:458-462 | the legacy progress report `...at record %i...` throws for every record number |
| FeedFormat.ReadLine | src/com/spacehopperstudios/epf/parse/V3Parser.java:231-237 | `readLine` is null exactly at the end of the file; otherwise it returns a line without a newline and moves the position forward |
| FeedFormat.ReadLineSlice | src/com/spacehopperstudios/epf/parse/V3Parser.java:231-237 | the line read is the file's text from the position up to the next newline, and reading resumes just past that newline |
| FeedFormat.LinesFrom | src/com/spacehopperstudios/epf/parse/V3Parser.java:230-237 | no line read holds a newline, and there are no lines exactly at the end of the file |
| FeedFormat.LinesRejoin | src/com/spacehopperstudios/epf/parse/V3Parser.java:236-237 | for a file ending in a newline, the lines with the newline put back (as V3 does) concatenate to the file: reading line by line loses and adds nothing |
| FeedFormat.ScanRow | src/com/spacehopperstudios/epf/parse/V3Parser.java:226-264 | `nextRowString` never moves the pointer backwards; it returns null only after reaching the end of the file; a row it returns has consumed a line; when it does not skip comments it returns a row whenever a line is left |
| FeedFormat.RowEndsWithDelimiter | src/com/spacehopperstudios/epf/parse/V3Parser.java:248-250 | a row that stops before the end of the file ends with a line that contains the record delimiter |
| FeedFormat.DelimiterOnlyAtEnd | src/com/spacehopperstudios/epf/parse/V3Parser.java:243-250 | only the last line of a row can contain the record delimiter |
| FeedFormat.ScanAdvance | src/com/spacehopperstudios/epf/parse/V3Parser.java:270-292 | `advanceToNextRecord` counts no record only when it ran to the end of the file, and a counted record has consumed at least one line |
| FeedFormat.AdvanceTimes | src/com/spacehopperstudios/epf/parse/V3Parser.java:213-215 | `n` calls of `advanceToNextRecord` count at most `n` records |
| FeedFormat.AdvanceMatchesRow | src/com/spacehopperstudios/epf/parse/V3Parser.java:270-292 | when no continuation line starts with `#`, `advanceToNextRecord` and `nextRowString(true)` stop at the same line, and the record is counted exactly when the row ends with its delimiter |
| FeedFormat.SeekMatchesReplay | src/com/spacehopperstudios/epf/parse/V3Parser.java:204-216 | `seekToRecord(n)` lands where `n` reads of `nextRecord` from the start would, when no continuation line of those rows starts with `#` |
| FeedFormat.SeekCountsRecords | src/com/spacehopperstudios/epf/parse/V3Parser.java:204-216 | under the same condition, and when every row ends with its delimiter, `seekToRecord(n)` counts exactly `n` records |
| FeedFormat.LegacyRowRunsToEnd | src/com/spacehopperstudios/epf/Parser.java:204-220 | Legacy lines lose their newline, so with a newline in the record delimiter every Legacy row runs to the end of the file |
| FeedFormat.NoNewlineNoDelimiter | src/com/spacehopperstudios/epf/Parser.java:218 | a line without a newline never contains a delimiter that has one |
| FeedFormat.SplitRow | src/com/spacehopperstudios/epf/parse/V3Parser.java:299-322 | `SubstringNotFound` exactly when a required prefix is given and the row does not start with it; a V3 split fails only then, and it yields at least one field |
| FeedFormat.PrefixAtStart | src/com/spacehopperstudios/epf/parse/V3Parser.java:301-308 | the test `indexOf(prefix) != 0` holds exactly when the row does not start with the prefix |
| FeedFormat.V3SplitRowRejoins | src/com/spacehopperstudios/epf/parse/V3Parser.java:311-312 | the fields joined with the field delimiter give back the row up to its first record delimiter, and no field contains the field delimiter |
| FeedFormat.V3SplitRowAfterPrefix | src/com/spacehopperstudios/epf/parse/V3Parser.java:308-312 | with a prefix, V3 splits the text after the prefix, up to the prefix's next repetition |
| FeedFormat.LegacySplitRowNeedsRepeatedPrefix | src/com/spacehopperstudios/epf/Parser.java:272 | a Legacy header row that carries its tag once (`#primaryKey:id`) fails with an index error, because `split(prefix)[2]` needs a second occurrence |
| FeedFormat.NullFill | src/com/spacehopperstudios/epf/parse/V3Parser.java:341-345 | the null fill keeps the number of fields |
| FeedFormat.NullFillNoEmpty | src/com/spacehopperstudios/epf/parse/V3Parser.java:341-345 | after the null fill no field is empty, non-empty fields are unchanged, and empty ones became `NULL` |
| FeedFormat.Dashed | src/com/spacehopperstudios/epf/parse/V3Parser.java:351 | the trimmed, dashed date holds no space |
| FeedFormat.DateFix | src/com/spacehopperstudios/epf/parse/V3Parser.java:349-362 | the V3 date massage always succeeds, with no space and at most 19 characters, and a short non-year value is just trimmed and dashed; the Legacy one succeeds exactly when the dashed value has at least 19 characters, and then gives its first 19 |
| FeedFormat.DateFixIdempotent | src/com/spacehopperstudios/epf/parse/V3Parser.java:349-362 | massaging an already massaged V3 date changes nothing |
| FeedFormat.LegacyDateNeverPadsYear | src/com/spacehopperstudios/epf/Parser.java:302-305 | a Legacy date is always exactly 19 characters long, so the year padding never applies |
| FeedFormat.ApplyDates | src/com/spacehopperstudios/epf/parse/V3Parser.java:350-362 | the date pass keeps the record's length and every column that is not a date; it fails when a date column lies outside the record, and in V3 succeeds when all of them lie inside |
| FeedFormat.Normalize | src/com/spacehopperstudios/epf/parse/V3Parser.java:334-362 | a V3 record has `min(fields, columns)` fields; a Legacy record has exactly as many fields as columns and fails when the row is shorter |
| FeedFormat.V3RecordShape | src/com/spacehopperstudios/epf/parse/V3Parser.java:327-363 | a V3 record is built exactly when every date column lies inside it; it is non-empty when there is a column; outside the date columns it holds the row's fields, with empty ones as `NULL` |
| FeedFormat.RecordStep | src/com/spacehopperstudios/epf/parse/V3Parser.java:327-367 | `nextRecord` reads exactly as far as `nextRowString(true)`; it is at the end of the data exactly when no line is left to keep, and otherwise it makes progress |
| FeedFormat.SeekThenRead | src/com/spacehopperstudios/epf/parse/V3Parser.java:204-216 | `seekToRecord(n)` followed by `nextRecord` reads the record that `n + 1` reads from the start would |
| FeedFormat.V3RecordNonEmpty | src/com/spacehopperstudios/epf/parse/V3Parser.java:379-381 | a V3 record is never empty when the feed has a column, so the empty-record stop of `nextRecords` never fires |
| FeedFormat.TakeRecords | src/com/spacehopperstudios/epf/parse/V3Parser.java:372-387 | reading a batch never moves the file pointer backwards or past the end of the file |
| FeedFormat.BatchShape | src/com/spacehopperstudios/epf/parse/V3Parser.java:372-387 | a batch holds at most `maxNum` records, counts each of them and at most one more row, and holds no empty record in V3 |
| FeedFormat.BatchAdvances | src/com/spacehopperstudios/epf/parse/V3Parser.java:376-384 | a batch that holds a record has moved the file pointer |
| FeedFormat.V3BatchCountsRecords | src/com/spacehopperstudios/epf/parse/V3Parser.java:376-384 | a V3 batch advances the record counter by exactly the number of records it returns |
| FeedFormat.ZipMap | src/com/spacehopperstudios/epf/parse/V3Parser.java:399-404 | the dictionary's keys are exactly the column names |
| FeedFormat.ZipMapLookup | src/com/spacehopperstudios/epf/parse/V3Parser.java:399-404 | with distinct column names each name maps to the value in its position |
| FeedFormat.RecordDict | src/com/spacehopperstudios/epf/parse/V3Parser.java:399-406 | keying a record succeeds exactly when it has at least as many values as there are names, and the keys are the names |
| FeedFormat.DictFetch | src/com/spacehopperstudios/epf/parse/V3Parser.java:392-408 | `nextRecordDict` is null exactly when `nextRecord` is, and it yields a dictionary keyed by the column names exactly when `nextRecord` yields a record with at least as many values as names |
| FeedFormat.ParseCount | src/com/spacehopperstudios/epf/parse/V3Parser.java:119 | the count parses exactly when `ParseInt` accepts the text (an optional sign and ASCII digits in the 32-bit range), and then it is that number |
| FeedFormat.TrailerCount | src/com/spacehopperstudios/epf/parse/V3Parser.java:112-119 | a count is read only from a file of at least 40 characters; a shorter file makes the seek fail |
| FeedFormat.V3TrailerReadsCount | src/com/spacehopperstudios/epf/parse/V3Parser.java:113-119 | V3 reads the number written after the last `#recordsWritten:` in the final 40 characters, up to the record delimiter |
| FeedFormat.LegacyTrailerFails | src/com/spacehopperstudios/epf/Parser.java:85-89 | with a newline in the record delimiter the Legacy trailer parse always fails |
| FeedFormat.CleanKey | src/com/spacehopperstudios/epf/parse/V3Parser.java:146-149 | a key given as a single space becomes no key; any other key is kept |
| FeedFormat.TagStep | src/com/spacehopperstudios/epf/parse/V3Parser.java:144-155 | a V3 header row is never refused, whatever its tag |
| FeedFormat.TagsOf | src/com/spacehopperstudios/epf/parse/V3Parser.java:144-155 | applying the V3 header rows in order always succeeds |
| FeedFormat.TagsOfFailurePersists | src/com/spacehopperstudios/epf/parse/V3Parser.java:144-155 | once a header row fails, the rows after it make no difference |
| FeedFormat.V3TagsFromLastRows | src/com/spacehopperstudios/epf/parse/V3Parser.java:144-155 | the primary key, data types and export mode come from the last row that carries their tag, and keep their defaults when no row does |
| FeedFormat.TagPrefixesExclusive | src/com/spacehopperstudios/epf/parse/V3Parser.java:126-128 | a row carries at most one of the three tags |
| FeedFormat.HeaderRowsKept | src/com/spacehopperstudios/epf/parse/V3Parser.java:130-141 | at most six header rows are kept, and none of them is null or empty |
| FeedFormat.MapTypes | src/com/spacehopperstudios/epf/parse/V3Parser.java:159-163 | mapping keeps the number of types; each type is replaced by its mapped form when the map has one, and kept otherwise |
| FeedFormat.Positions | src/com/spacehopperstudios/epf/parse/V3Parser.java:165-171 | the recorded date and number columns index the data types |
| FeedFormat.PositionsExact | src/com/spacehopperstudios/epf/parse/V3Parser.java:165-171 | these are exactly the indexes whose raw type is of the kind, each listed once, in increasing order |
| FeedFormat.HeaderOf | src/com/spacehopperstudios/epf/Parser.java:128-149 | the header is built exactly in V3 or when there is a type for every column; it carries the count and the column names, its date and number columns index the types, and a Legacy header has a type per column |
| FeedFormat.ParseHeaderShape | src/com/spacehopperstudios/epf/parse/V3Parser.java:93-180 | a header that parses carries the trailer count, and its date and number columns index its data types |
| FeedFormat.LegacyHeaderFails | src/com/spacehopperstudios/epf/Parser.java:85-89 | with the shipped delimiters (or any record delimiter with a newline), a Legacy parser is never constructed |
| FeedParser.AppendAll | src/com/spacehopperstudios/epf/parse/V3Parser.java:256-262 | the `StringBuffer` loop yields the concatenation of the row's lines |
| FeedParser.TypeColumns | src/com/spacehopperstudios/epf/parse/V3Parser.java:159-172 | the type loop yields the mapped types and the positions of the raw date and number types, as `MapTypes` and `Positions` define them |
| FeedParser.FillNulls | src/com/spacehopperstudios/epf/parse/V3Parser.java:341-345 | the null loop yields `NullFill` of the record: no empty field is left and the others are unchanged |
| FeedParser.FixDates | src/com/spacehopperstudios/epf/parse/V3Parser.java:349-362 | the date loop yields `ApplyDates`, stopping at the first fault |
| FeedParser.ZipRecord | src/com/spacehopperstudios/epf/parse/V3Parser.java:399-406 | the dictionary loop yields `RecordDict`: the names paired with the values, or the index error when the values run out |
| FeedParser.Parser.constructor | src/com/spacehopperstudios/epf/parse/V3Parser.java:95-108 | a new parser holds the shipped delimiters and type map, no file, a zero count and counter, and empty header fields |
| FeedParser.Parser.ReadNextLine | src/com/spacehopperstudios/epf/parse/V3Parser.java:231-237 | `readLine` returns the line at the pointer and moves past it, or returns null at the end of the file without moving |
| FeedParser.Parser.Init | src/com/spacehopperstudios/epf/parse/V3Parser.java:93-180 | `init` succeeds or fails exactly as the header parse `ParseHeader` does; on success the fields hold that header, the file's lines, the given delimiters and map, the pointer at the start and the counter at zero |
| FeedParser.Parser.Open | src/com/spacehopperstudios/epf/parse/V3Parser.java:95-110 | opening stores the file's lines, the delimiters and the type map, with the pointer at the start and the counter at zero |
| FeedParser.Parser.ReadColumnNames | src/com/spacehopperstudios/epf/parse/V3Parser.java:120-123 | the rest of `init` after the trailer agrees with `HeaderAfterCount`, and leaves the pointer rewound on success |
| FeedParser.Parser.ReadHeaderBody | src/com/spacehopperstudios/epf/parse/V3Parser.java:125-155 | reading and applying the header rows agrees with `HeaderAfterColumns`, and leaves the pointer rewound on success |
| FeedParser.Parser.ApplyHeaderRows | src/com/spacehopperstudios/epf/parse/V3Parser.java:143-172 | applying the tags and mapping the types agrees with `HeaderFromRows` |
| FeedParser.Parser.FinishHeader | src/com/spacehopperstudios/epf/parse/V3Parser.java:156-172 | the rewind and type mapping agree with `HeaderOf`: on success the parser describes the header |
| FeedParser.Parser.ReadHeaderRows | src/com/spacehopperstudios/epf/parse/V3Parser.java:130-141 | the six-row loop, with its re-filtering, keeps exactly the rows `HeaderRows` keeps |
| FeedParser.Parser.ApplyTags | src/com/spacehopperstudios/epf/parse/V3Parser.java:144-155 | the tag loop agrees with `TagsOf`, and on success the key, types and mode fields hold its result |
| FeedParser.Parser.MapDataTypes | src/com/spacehopperstudios/epf/parse/V3Parser.java:158-172 | the fields afterwards hold the mapped types and the date and number positions of the unmapped ones |
| FeedParser.Parser.PairColumnTypes | src/com/spacehopperstudios/epf/Parser.java:144-149 | the Legacy type map is built exactly when there is a type for every column name, and pairs each name with the type in its position; otherwise the index error |
| FeedParser.Parser.SetColumnNames | src/com/spacehopperstudios/epf/parse/V3Parser.java:74-76 | the column names are replaced by the given list |
| FeedParser.Parser.NextRowString | src/com/spacehopperstudios/epf/parse/V3Parser.java:226-264 | `nextRowString` returns the row `ScanRow` describes (null when it keeps no line), and the pointer ends after the row's last line |
| FeedParser.Parser.ReadRowLines | src/com/spacehopperstudios/epf/parse/V3Parser.java:228-251 | the line loop keeps exactly the lines `ScanRow` keeps and stops where it stops |
| FeedParser.Parser.AdvanceToNextRecord | src/com/spacehopperstudios/epf/parse/V3Parser.java:270-292 | the pointer ends where `ScanAdvance` stops, and the counter rises by one exactly when a record was counted |
| FeedParser.Parser.SeekToRecord | src/com/spacehopperstudios/epf/parse/V3Parser.java:204-216 | the pointer and counter end as `n` advances from the start of the file leave them, with no advance when `n <= 0` |
| FeedParser.Parser.NextRecord | src/com/spacehopperstudios/epf/parse/V3Parser.java:327-367 | `nextRecord` returns what `RecordStep` describes, moves the pointer as far as it reads, and raises the counter for every row read, a failing one included |
| FeedParser.Parser.NextRecordInBatch | src/com/spacehopperstudios/epf/parse/V3Parser.java:376-384 | one call inside `nextRecords` is one round of `TakeRecords`: it continues the batch, ends it, or fails it |
| FeedParser.Parser.NextRecords | src/com/spacehopperstudios/epf/parse/V3Parser.java:372-387 | `nextRecords(max)` returns the batch `TakeRecords` defines, and the counter rises by the number of rows that batch read; `BatchShape` and `V3BatchCountsRecords` give its bounds |
| FeedParser.Parser.NextRecordDict | src/com/spacehopperstudios/epf/parse/V3Parser.java:392-408 | `nextRecordDict` returns `DictFetch` of the record `RecordStep` reads |
| Database.SqlValue | src/com/spacehopperstudios/epf/ingest/MySqlIngester.java:394-396 | a value read from a literal is `NULL` exactly when it is the word `NULL` or `null`; any other is stored as its text |
| Database.WidenedCells | src/com/spacehopperstudios/epf/ingest/MySqlIngester.java:367-371 | a row sent for a narrower list of distinct columns holds each listed column's value in that column, and `NULL` in every column the list leaves out |
| Database.BatchRowsAppend | src/com/spacehopperstudios/epf/ingest/MySqlIngester.java:376-414 | the rows a batch adds split with its records, so two batches add what one batch of both would |
| Database.PrunedMembers | src/com/spacehopperstudios/epf/ingest/MySqlIngester.java:489-495 | a stored row survives the pruning select exactly when no incoming row matches it on the key with an `export_date` at least as late |
| Database.MergedMembers | src/com/spacehopperstudios/epf/ingest/MySqlIngester.java:502-508 | the union table keeps every incoming row, keeps each stored row that no incoming row supersedes, and holds nothing else |
| Database.AddRow | src/com/spacehopperstudios/epf/ingest/MySqlIngester.java:367-369 | adding a row never changes the table's columns, types or key; a table without a key simply gains the row at the end |
| Database.AddRows | src/com/spacehopperstudios/epf/ingest/MySqlIngester.java:386-396 | adding a batch never changes the table's columns, types or key |
| Database.AddRowsWithoutKey | src/com/spacehopperstudios/epf/ingest/MySqlIngester.java:367-369 | into a table without a key, `INSERT`, `INSERT IGNORE` and `REPLACE` all append the batch's rows in order |
| Database.AddRowsReplace | src/com/spacehopperstudios/epf/ingest/MySqlIngester.java:368 | `REPLACE` of rows with distinct keys deletes every stored row sharing a key with one of them, keeps the others in order, adds the new rows at the end, and is never refused |
| Database.AddRowsIgnore | src/com/spacehopperstudios/epf/ingest/MySqlIngester.java:369 | `INSERT IGNORE` of rows with distinct keys keeps every stored row and adds, in order, exactly the new rows whose key no stored row has |
| Database.AddRowsInsert | src/com/spacehopperstudios/epf/ingest/MySqlIngester.java:367-369 | a plain `INSERT` into a keyed table goes through exactly when no two of the stored and new rows share a key |
| Database.ApplyLocal | src/com/spacehopperstudios/epf/ingest/MySqlIngester.java:532 | a statement changes no table other than the one it names |
| Database.TableCount | src/com/spacehopperstudios/epf/ingest/MySqlIngester.java:224-243 | the table-count query answers 1 exactly when the table exists, and 0 otherwise |
| Database.ColumnTotal | src/com/spacehopperstudios/epf/ingest/MySqlIngester.java:274-282 | the column-count query answers the named table's number of columns, or 0 for a missing table |
| Database.Gateway.Execute | src/com/spacehopperstudios/epf/ingest/MySqlIngester.java:532 | one attempt succeeds exactly when the script lets it through and the server accepts the statement; the database then holds the statement's effect and is otherwise unchanged, and the attempt is logged |
| SqlText.DoubleReplace | src/com/spacehopperstudios/epf/ingest/MySqlIngester.java:350 | the last two replacements of the escaping (`\` doubled, then `'` escaped) escape character by character |
| SqlText.EscapeCharsRoundTrip | src/com/spacehopperstudios/epf/ingest/MySqlIngester.java:350 | character-wise escaping yields a well-formed literal body that reads back as the original text |
| SqlText.EscapeWellFormed | src/com/spacehopperstudios/epf/ingest/MySqlIngester.java:350-351 | whatever the field, its escaped text is a well-formed literal body, so no quote in a field can end the literal |
| SqlText.EscapeRoundTrip | src/com/spacehopperstudios/epf/ingest/MySqlIngester.java:350-351 | a field without backslashes reads back unchanged from its literal |
| SqlText.EscapeMergesEscapedQuote | src/com/spacehopperstudios/epf/ingest/MySqlIngester.java:350 | the first two replacements lose information: the fields `\'` and `'` give the same literal |
| SqlText.LegacyEscape | src/com/spacehopperstudios/epf/Ingester.java:397-406 | the Legacy copy-through leaves a bare quote in a field without backslashes, so the literal is not well formed |
| SqlText.BareQuoteNotEscaped | src/com/spacehopperstudios/epf/Ingester.java:400-403 | a text with a quote and no backslash is never a well-formed literal body |
| SqlText.VerbFor | src/com/spacehopperstudios/epf/ingest/MySqlIngester.java:368 | the verb is `REPLACE` exactly for an incremental ingest, `INSERT` otherwise |
| SqlText.IgnoreFor | src/com/spacehopperstudios/epf/ingest/MySqlIngester.java:369 | `IGNORE` is added exactly when key violators are skipped in a full ingest |
| SqlText.UnquoteAfter | src/com/spacehopperstudios/epf/ingest/MySqlIngester.java:393-396 | the `NULL` unquoting leaves a quote-free head of the statement alone |
| SqlText.HeadQuoteFree | src/com/spacehopperstudios/epf/ingest/MySqlIngester.java:370-371 | the statement head holds no quote when the table and column names hold none |
| SqlText.BatchStatementHead | src/com/spacehopperstudios/epf/ingest/MySqlIngester.java:367-396 | the batch statement starts with its verb, the optional `IGNORE`, the table and the column list, and only its values are touched by the unquoting |
| SqlText.EscapePlain | src/com/spacehopperstudios/epf/ingest/MySqlIngester.java:350 | for a field without backslashes the escaping is character-wise |
| SqlText.QuoteNullWord | src/com/spacehopperstudios/epf/ingest/MySqlIngester.java:350-351 | the literal of the field `'NULL` is `'\'NULL'` |
| SqlText.UnquoteBreaksLiteral | src/com/spacehopperstudios/epf/ingest/MySqlIngester.java:395-396 | unquoting the whole statement turns that literal into `'\NULL`, whose opening quote is never closed |
| SqlText.FieldLiteralWellFormed | src/com/spacehopperstudios/epf/ingest/MySqlIngester.java:394-396 | the per-field literal is a bare `NULL` exactly where the field is the word `NULL` or `null`; otherwise it is a well-formed quoted literal that reads back as a field without backslashes |
| SqlText.QuoteIsNull | src/com/spacehopperstudios/epf/ingest/MySqlIngester.java:394-396 | a field's literal is the quoted word `NULL` (or `null`) exactly when the field reads as that word |
| SqlText.FieldUnquoted | src/com/spacehopperstudios/epf/ingest/MySqlIngester.java:393-396 | a field whose literal the whole-statement unquoting does not break comes out as its per-field literal |
| SqlText.BatchValuesUnquoted | src/com/spacehopperstudios/epf/ingest/MySqlIngester.java:386-396 | when no field's literal is broken, unquoting the whole batch gives every field its per-field literal, and each reads as the value the table then stores |
| SqlText.BreaksAfterQuotedNull | src/com/spacehopperstudios/epf/ingest/MySqlIngester.java:395-396 | every field reading as a text that ends in `'NULL` has its literal broken by the unquoting |
| SqlText.EmptyKeyText | src/com/spacehopperstudios/epf/ingest/MySqlIngester.java:325-330 | an empty key still produces an `ALTER TABLE ... PRIMARY KEY ()` statement |
| SqlText.MergeConds | src/com/spacehopperstudios/epf/ingest/MySqlIngester.java:475-481 | the merge compares `export_date` once and then each key column once |
| SqlText.MergeCondsMeanSupersedes | src/com/spacehopperstudios/epf/ingest/MySqlIngester.java:473-484 | all the comparisons hold exactly when the incoming row supersedes the stored one, as the database model defines it |
| SqlText.WhereRendersConds | src/com/spacehopperstudios/epf/ingest/MySqlIngester.java:473-484 | with a primary key, the clause is those comparisons written out and joined with `AND` |
| SqlText.WhereEmptyKey | src/com/spacehopperstudios/epf/ingest/MySqlIngester.java:480-481 | without a primary key, the clause ends in a dangling `AND ` |
| IngesterBase.BaseName | src/com/spacehopperstudios/epf/ingest/IngesterBase.java:95 | the file name of a path, trailing separators dropped, holds no `/` |
| IngesterBase.BaseNameOfName | src/com/spacehopperstudios/epf/ingest/IngesterBase.java:95 | a path without a `/` is its own file name |
| IngesterBase.TrimSlashes | src/com/spacehopperstudios/epf/ingest/IngesterBase.java:95 | the path without its trailing separators is a prefix of it that does not end in `/`, and only `/` was removed |
| IngesterBase.BaseNameInDirectory | src/com/spacehopperstudios/epf/ingest/IngesterBase.java:95 | the file name of `dir/name`, with or without a trailing `/`, is `name` |
| IngesterBase.DotSplitAll | src/com/spacehopperstudios/epf/ingest/IngesterBase.java:100 | `split(".", -1)` treats `.` as a regular expression that matches every character: it gives `|s| + 1` pieces, all of them empty |
| IngesterBase.DotSplitEmpty | src/com/spacehopperstudios/epf/Ingester.java:80 | the default `split(".")` of a non-empty name gives no pieces at all |
| IngesterBase.TableNameCases | src/com/spacehopperstudios/epf/ingest/IngesterBase.java:92-102 | live and main tree: a name without a dot is the prefixed file name with no hyphen left; a name with a dot becomes empty |
| IngesterBase.LegacyNameFails | src/com/spacehopperstudios/epf/Ingester.java:76-80 | Legacy: any non-empty name makes `split(".")[0]` throw, so the constructor fails |
| IngesterBase.EmptyPrefix | src/com/spacehopperstudios/epf/ingest/IngesterBase.java:96 | an empty prefix adds nothing in the live ingester but a lone `_` in the other two |
| IngesterBase.RefreshedFixed | src/com/spacehopperstudios/epf/ingest/IngesterBase.java:41-59 | a refresh keeps every existing key and writes the file name, path, last record and abort flag from the current state |
| IngesterBase.RefreshedTime | src/com/spacehopperstudios/epf/ingest/IngesterBase.java:46-56 | a time key is present after a refresh exactly when it was before or its time is set; a set time is written, and a null one leaves the old text |
| IngesterBase.RefreshedOthers | src/com/spacehopperstudios/epf/ingest/IngesterBase.java:41-59 | a refresh touches no key other than its seven |
| IngesterBase.RefreshedCount | src/com/spacehopperstudios/epf/ingest/IngesterBase.java:44 | the recorded last record reads back as that number for every 32-bit value |
| IngesterBase.RefreshIdempotent | src/com/spacehopperstudios/epf/ingest/IngesterBase.java:41-59 | refreshing twice from the same state changes nothing more |
| IngesterBase.ThrottleSpacing | src/com/spacehopperstudios/epf/ingest/IngesterBase.java:77-90 | a checkpoint happens exactly when both gaps are met; it returns at least the record gap, so 0 always means no checkpoint, and it moves both marks forward by at least their gaps; without one nothing moves |
| IngesterBase.Clock.Now | src/com/spacehopperstudios/epf/ingest/IngesterBase.java:80 | each reading is the next one in the script |
| IngesterBase.Session.constructor | src/com/spacehopperstudios/epf/ingest/IngesterBase.java:92-119 | a new session has no record yet, no times, no abort, the dictionary filled from that state, and its last checkpoint at record 0 and at the one clock reading it takes |
| IngesterBase.Session.UpdateStatusDict | src/com/spacehopperstudios/epf/ingest/IngesterBase.java:41-59 | the dictionary becomes the refresh of the old one from the current state |
| IngesterBase.Session.CheckProgress | src/com/spacehopperstudios/epf/ingest/IngesterBase.java:77-90 | the clock is read exactly when the record gap is met, and the result and both marks are those of `Throttle` |
| Statements.Run | src/com/spacehopperstudios/epf/ingest/MySqlIngester.java:510-544 | a statement that goes through was applicable and applied; one that fails leaves the tables alone; it takes between one and `retries + 1` attempts |
| Statements.RunStops | src/com/spacehopperstudios/epf/ingest/MySqlIngester.java:520-541 | a statement that goes through stopped at its first attempt not scripted to fail; one that does not was refused or failed on every one of its attempts, and used them all |
| Statements.RunAttempts | src/com/spacehopperstudios/epf/ingest/MySqlIngester.java:510-544 | the statement goes through exactly when the server accepts it and one of the `retries + 1` attempts is not faulted; it stops at the first unfaulted attempt, every earlier one faulted, and a failure has used all attempts |
| Statements.RunClean | src/com/spacehopperstudios/epf/ingest/MySqlIngester.java:510-544 | without scripted faults a statement goes through on its first attempt exactly when the server accepts it |
| Statements.Drain | src/com/spacehopperstudios/epf/ingest/MySqlIngester.java:376-414 | the batch loop never moves the parser backwards nor past the end of the file |
| Statements.DrainStops | src/com/spacehopperstudios/epf/ingest/MySqlIngester.java:380-383 | a parse fault or an empty batch ends the loop at once: nothing is sent, the tables are untouched, the fault is the one thrown |
| Statements.DrainLocal | src/com/spacehopperstudios/epf/ingest/MySqlIngester.java:376-414 | the batch loop changes no table but the one it loads and never takes back an attempt |
| Statements.AddRowsLoadable | src/com/spacehopperstudios/epf/ingest/MySqlIngester.java:367-369 | rows the table can take are appended behind its rows, in order, whatever the verb |
| Statements.InsertClean | src/com/spacehopperstudios/epf/ingest/MySqlIngester.java:398-404 | without faults, a batch into a table with distinct column names, of records as wide as the table, with no field literal broken, that the table can take goes through at its first attempt and appends their rows |
| Statements.DrainAppends | src/com/spacehopperstudios/epf/ingest/MySqlIngester.java:376-414 | without faults, into a table whose columns are the feed's, all distinct, when every record sent is as wide as the table, no field literal is broken and the table can take them all, the table ends up holding its old rows followed by the stored values of every record sent |
| Statements.ReplaceClean | src/com/spacehopperstudios/epf/ingest/MySqlIngester.java:367-404 | without faults, a `REPLACE` batch whose column list the table takes, with records as wide as the list, no literal broken and distinct keys, goes through at once: the rows sharing a key are deleted and the records' rows, `NULL` in the columns the list leaves out, are added at the end |
| Statements.DrainReplaces | src/com/spacehopperstudios/epf/ingest/MySqlIngester.java:376-414 | without faults, into a table that takes the feed's column list, the in-place loop ends with the table as `REPLACE` of every record it sent |
| Statements.DrainReads | src/com/spacehopperstudios/epf/ingest/MySqlIngester.java:376-414 | the records the loop sends, where it stops, and the fault it ends with depend only on the file, never on the database: they are what reading the file in batches gives |
| Statements.DrainKeepsShape | src/com/spacehopperstudios/epf/ingest/MySqlIngester.java:376-414 | the loaded table keeps its columns, types and primary key |
| Statements.Exec | src/com/spacehopperstudios/epf/ingest/MySqlIngester.java:510-544 | a statement either goes through, applied, or throws `SQLException` with the tables unchanged; every call takes an attempt |
| Statements.Lookup | src/main/java/com/spacehopperstudios/database/Connection.java:109-116 | a lookup leaves the tables as its statement does, throws only `SQLException`, and answers only when its statement went through |
| Statements.LookupClean | src/main/java/com/spacehopperstudios/epf/MySQLIngester.java:55-57 | without faults a lookup goes through at its first attempt and answers as its statement does, on every connection |
| Statements.ResentLookupThrows | src/main/java/com/spacehopperstudios/database/Connection.java:109-116 | on the main tree's connection a lookup whose first attempt fails and whose resend goes through throws, though the statement went through |
| Statements.ExecClean | src/com/spacehopperstudios/epf/ingest/MySqlIngester.java:510-544 | without faults a statement goes through exactly when the server accepts it |
| Statements.CreateSpec | src/com/spacehopperstudios/epf/ingest/MySqlIngester.java:296-317 | `createTable` always takes at least one attempt |
| Statements.CreateShape | src/com/spacehopperstudios/epf/ingest/MySqlIngester.java:296-317 | `createTable` touches only its table; on success it holds the file's columns, the first types, the key and no rows; it throws `SQLException`, or the index error when there are fewer types than columns |
| Statements.CreateClean | src/com/spacehopperstudios/epf/ingest/MySqlIngester.java:296-317 | without faults `createTable` succeeds exactly when there are enough types, at least one column, no column named twice and a non-empty key made of the columns, and throws the index error exactly when types run out |
| Statements.InstallGoes | src/com/spacehopperstudios/epf/ingest/MySqlIngester.java:445-455 | when the rename into place goes through, the source is installed as the target and the parked old target is dropped (or the error is an `SQLException` touching only the three names) |
| Statements.RestoreParked | src/com/spacehopperstudios/epf/ingest/MySqlIngester.java:447-451 | renaming the parked table back restores the old target |
| Statements.InstallReverts | src/com/spacehopperstudios/epf/ingest/MySqlIngester.java:445-455 | when the rename into place fails, the old target is restored from its parking name and the exception swallowed |
| Statements.InstallClean | src/com/spacehopperstudios/epf/ingest/MySqlIngester.java:433-456 | without faults the install goes through, and installs the source exactly when it existed |
| Statements.RenameResentLookupThrows | src/main/java/com/spacehopperstudios/epf/MySQLIngester.java:189-191 | in the main tree, when the target lookup goes through only on its resend, the swap throws after dropping only the parking name: the old table stays and the source is not installed |
| Statements.RenameOutcome | src/com/spacehopperstudios/epf/ingest/MySqlIngester.java:433-456 | `renameAndDrop` touches only the source, the target and the parking name; it only throws `SQLException`; on success the source has been swapped into the target, or the old target kept; without faults it succeeds and installs the source exactly when it existed |
| Statements.UnionOutcome | src/com/spacehopperstudios/epf/ingest/MySqlIngester.java:461-468 | `createUnionTable` touches only the union table, which on success holds the merge of the live and the incoming table; without faults it succeeds exactly when the merge is accepted |
| Statements.SeekTo | src/com/spacehopperstudios/epf/parse/V3Parser.java:204-216 | seeking stays within the file, and a record number of 0 or less starts from the first line with the counter at 0 |
| Statements.ReadFrom | src/com/spacehopperstudios/epf/ingest/MySqlIngester.java:376-383 | reading the file in batches from a line never moves backwards nor past the end |
| Statements.FullOutcome | src/com/spacehopperstudios/epf/ingest/MySqlIngester.java:84-87 | a full ingest touches only the table, its temporary table and its parking name; it throws `SQLException`, the index error or a parse fault; on success the file was read to its end without a fault, the parking name is gone and the table has been replaced by the created table filled from the file |
| Statements.FreshLoad | src/com/spacehopperstudios/epf/ingest/MySqlIngester.java:85-86 | without faults, with a well-formed header with distinct column names and records read without a fault, as wide as the columns, with no field literal broken and distinct keys, creating and filling a work table leaves it holding exactly the stored values of every record in the file |
| Statements.FullClean | src/com/spacehopperstudios/epf/ingest/MySqlIngester.java:84-87 | without faults, with a well-formed header with distinct column names and records with no field literal broken and distinct keys, the table ends up holding exactly the stored values of the file's records under the file's columns, types and key, and the work tables are gone |
| Statements.ResumeOutcome | src/com/spacehopperstudios/epf/ingest/MySqlIngester.java:120-122 | a resumed full ingest touches only the table, its temporary table and its parking name, and throws only `SQLException` or a parse fault |
| Statements.ResumeClean | src/com/spacehopperstudios/epf/ingest/MySqlIngester.java:120-122 | without faults, with a temporary table of the feed's distinct columns and records from the resume point whose literals are not broken and that it can take, a resumed ingest appends their stored values to the temporary table and installs it as the table |
| Statements.InPlaceOutcome | src/com/spacehopperstudios/epf/ingest/MySqlIngester.java:150-169 | an in-place load touches only the table, keeps its shape and throws only a parse fault; without faults, with a column list the table takes (its own, or a narrower one of its columns) and distinct keys, the table ends as `REPLACE` of the records read from the resume point |
| Statements.KeySwapLocal | src/com/spacehopperstudios/epf/ingest/MySqlIngester.java:176-179 | dropping the incoming table, keying the union and swapping it in touch only the table's four names and throw only `SQLException` |
| Statements.KeySwapClean | src/com/spacehopperstudios/epf/ingest/MySqlIngester.java:176-179 | without faults, a union table whose rows have distinct keys becomes the table, keyed on the primary key, and the work tables and the parking name are gone |
| Statements.MergeTailLocal | src/com/spacehopperstudios/epf/ingest/MySqlIngester.java:175-179 | building the union and swapping it in touch only the table's four names and throw only `SQLException` |
| Statements.MergeTailClean | src/com/spacehopperstudios/epf/ingest/MySqlIngester.java:175-179 | without faults, with an accepted merge in which no two merged rows share a key, the table ends up as the incoming rows followed by the live rows they do not supersede, under the incoming columns and types and the key |
| Statements.MergeOutcome | src/com/spacehopperstudios/epf/ingest/MySqlIngester.java:170-180 | a prune-and-merge ingest touches only the table's four names and throws `SQLException`, the index error or a parse fault |
| Statements.MergeClean | src/com/spacehopperstudios/epf/ingest/MySqlIngester.java:170-180 | without faults, with a well-formed file with distinct column names matching the table and no two merged rows sharing a key, the table ends up as the file's records followed by the stored rows none of them supersedes, and the work tables are gone |
| Statements.MergeDuplicateAborts | src/com/spacehopperstudios/epf/ingest/MySqlIngester.java:175-179 | without faults, when an incoming row and a stored row it does not supersede share a key, keying the union throws `SQLException` and the table is left as it was |
| Ingest.Raised | src/com/spacehopperstudios/epf/ingest/MySqlIngester.java:94-96 | the live ingester wraps what it rethrows; the main-tree and legacy ones rethrow it as it is |
| Ingest.Trimmed | src/com/spacehopperstudios/epf/ingest/MySqlIngester.java:153-158 | cutting the columns keeps the file otherwise as it is and its columns a prefix of at most `n` columns, all of them when there are no more than `n` |
| Ingest.IncrementalOutcome | src/com/spacehopperstudios/epf/ingest/MySqlIngester.java:139-204 | an incremental ingest changes only the table's four names; a refused lookup or count and a skipped missing table leave the tables alone; a load happens only on an existing table with the file cut to the table's column count; below the threshold only the table changes, keeping its shape, and only a parse fault is thrown |
| Ingest.IncrementalClean | src/com/spacehopperstudios/epf/ingest/MySqlIngester.java:141-147 | without faults, a missing table is skipped; an existing one is loaded, with the file cut to its column count, by the live tree and refused at the column count by the main tree |
| Ingest.IncrementalMergeClean | src/com/spacehopperstudios/epf/ingest/MySqlIngester.java:170-180 | from the threshold on, without faults and with a well-formed file with distinct column names whose merged rows have distinct keys, the live tree leaves the table holding the incoming records followed by the stored rows none of them supersedes; the main tree refuses with the tables unchanged |
| Ingest.LookupsClean | src/com/spacehopperstudios/epf/ingest/MySqlIngester.java:142-147 | without faults the table lookup and the column count go through, report the table's presence and column count, and change no table |
| Ingest.IncrementalInPlaceClean | src/com/spacehopperstudios/epf/ingest/MySqlIngester.java:146-169 | below the threshold and without faults, the main tree refuses at the column count; the live tree loads the file cut to the table's column count, and the table ends as `REPLACE` of the records from the resume point, `NULL` in the columns the file lacks |
| Ingest.MainTreeResentLookupThrows | src/main/java/com/spacehopperstudios/epf/MySQLIngester.java:55-57 | in the main tree an incremental ingest whose table lookup goes through only on its resend throws, whether or not the table exists, and leaves the tables as they were |
| Ingest.MainTreeCountThrows | src/main/java/com/spacehopperstudios/epf/MySQLIngester.java:105-118 | in the main tree an incremental ingest of an existing table never loads: the column count always throws and the tables are left as they were |
| Ingest.FetchedCountTrims | src/com/spacehopperstudios/epf/ingest/MySqlIngester.java:259-289 | reading the count from its row, as the live tree does, an existing table is loaded without faults with the file cut to exactly its column count |
| Ingest.LiveReportThrows | src/com/spacehopperstudios/epf/ingest/MySqlIngester.java:103-105 | with INFO logging on, the live full-ingest report throws a format error because `%d` is given the text of `durationText`; the main tree's report, given a `long`, returns |
| Ingest.Ingester.constructor | src/com/spacehopperstudios/epf/ingest/MySqlIngester.java:57-69 | the work tables are named after the table, and the session starts with nothing ingested, no time stamped, no abort and the dictionary filled from that state, having read the clock once |
| Ingest.Ingester.Make | src/com/spacehopperstudios/epf/ingest/MySqlIngester.java:45-70 | construction fails, with the index error and the clock untouched, exactly when the table name cannot be derived; otherwise the table name comes from the file name and prefix, nothing has been ingested, no time is stamped, the dictionary reflects that state and the clock was read once |
| Ingest.Ingester.ExecuteQuery | src/com/spacehopperstudios/epf/ingest/MySqlIngester.java:510-544 | the statement is attempted as `Run` describes, with the given retry count |
| Ingest.Ingester.Execute | src/com/spacehopperstudios/epf/ingest/MySqlIngester.java:510-544 | one statement, retried twice by the live ingester and re-sent once by the main tree's connection, as `Exec` describes |
| Ingest.Ingester.TableExists | src/com/spacehopperstudios/epf/ingest/MySqlIngester.java:221-250 | a refused lookup throws `SQLException`, and so does a main-tree lookup that went through only on its resend (as `Lookup` says); otherwise the answer is whether the table exists |
| Ingest.Ingester.ColumnCount | src/com/spacehopperstudios/epf/ingest/MySqlIngester.java:259-289 | a refused count throws `SQLException`, and so does every main-tree count; otherwise the answer is the table's number of columns, 0 for a missing table |
| Ingest.Ingester.DropTable | src/com/spacehopperstudios/epf/ingest/MySqlIngester.java:422-427 | the table is dropped if it exists, as one statement |
| Ingest.Ingester.ApplyPrimaryKeyConstraints | src/com/spacehopperstudios/epf/ingest/MySqlIngester.java:322-336 | the parser's primary key is added to the table, as one statement, even when it is empty |
| Ingest.Ingester.CreateTable | src/com/spacehopperstudios/epf/ingest/MySqlIngester.java:296-317 | the table is created from the parser's columns, types and key as `CreateSpec` describes |
| Ingest.Ingester.RenameAndDrop | src/com/spacehopperstudios/epf/ingest/MySqlIngester.java:433-456 | the swap follows `RenameSpec`, whose outcome `RenameOutcome` states; its lookups are `Lookup`s, so in the main tree a target lookup that goes through only on its resend throws before parking (`RenameResentLookupThrows`) |
| Ingest.Ingester.ParkTarget | src/com/spacehopperstudios/epf/ingest/MySqlIngester.java:440-443 | parking the target follows the specification of that step, whose lookup throws in the main tree when it goes through only on its resend |
| Ingest.Ingester.Install | src/com/spacehopperstudios/epf/ingest/MySqlIngester.java:445-455 | the rename into place, the revert and the final drop follow `Install`, whose outcomes `InstallGoes` and `InstallReverts` state; the revert's lookup is a `Lookup`, so in the main tree it throws out of the catch block when it goes through only on its resend |
| Ingest.Ingester.CreateUnionTable | src/com/spacehopperstudios/epf/ingest/MySqlIngester.java:461-468 | the union table is built from the table and the incoming table as `UnionSpec` describes |
| Ingest.Ingester.PopulateTable | src/com/spacehopperstudios/epf/ingest/MySqlIngester.java:364-417 | the file is left as it was, the tables end as the batch loop from the seek point leaves them, and the parser's line, its record counter and the last record ingested are what that loop leaves |
| Ingest.Ingester.SendBatches | src/com/spacehopperstudios/epf/ingest/MySqlIngester.java:376-414 | the loop ends where the batch loop's specification ends, with its store, line, record counter, fault and last record ingested |
| Ingest.Ingester.Round | src/com/spacehopperstudios/epf/ingest/MySqlIngester.java:380-413 | one round keeps the loop on the track of its specification, and a round that stops leaves the loop's final state |
| Ingest.Ingester.FetchAndSend | src/com/spacehopperstudios/epf/ingest/MySqlIngester.java:380-399 | a batch is read as `TakeRecords` reads it; a fault or an empty batch stops the loop with nothing sent |
| Ingest.Ingester.SendBatch | src/com/spacehopperstudios/epf/ingest/MySqlIngester.java:398-413 | one batch statement is run with the variant's retries (two live, one in the main tree), its failure swallowed, and the last record ingested becomes the parser's record counter |
| Ingest.Ingester.Start | src/com/spacehopperstudios/epf/ingest/MySqlIngester.java:83 | the start time is the next clock reading |
| Ingest.Ingester.Conclude | src/com/spacehopperstudios/epf/ingest/MySqlIngester.java:88-101 | an exception is rethrown, wrapped by the live ingester; the abort or end time, the abort flag and the dictionary are updated as the catch block and the end of an ingest do |
| Ingest.Ingester.FullLoad | src/com/spacehopperstudios/epf/ingest/MySqlIngester.java:84-87 | the tables end as `FullSpec` describes, the file is unchanged and the session's times are untouched |
| Ingest.Ingester.IngestFull | src/com/spacehopperstudios/epf/ingest/MySqlIngester.java:77-106 | the tables end as `FullSpec` describes; the caller sees the exception, wrapped by the live ingester, exactly when the load failed; after a clean load with INFO logging on the caller sees what the report does (`Reported`); the start is stamped, and an `SQLException` is recorded as an abort |
| Ingest.Ingester.ResumeLoad | src/com/spacehopperstudios/epf/ingest/MySqlIngester.java:120-122 | the tables end as `ResumeSpec` describes, the file is unchanged and the session's times are untouched |
| Ingest.Ingester.StartFrom | src/com/spacehopperstudios/epf/ingest/MySqlIngester.java:117-118 | the last record ingested is one before the resume point and the start time is the next clock reading |
| Ingest.Ingester.IngestFullResume | src/com/spacehopperstudios/epf/ingest/MySqlIngester.java:111-137 | the tables end as `ResumeSpec` describes; an exception is rethrown without an abort and a clean run stamps the end without refreshing the dictionary |
| Ingest.Ingester.InPlaceLoad | src/com/spacehopperstudios/epf/ingest/MySqlIngester.java:168-169 | the tables end as the in-place load's specification describes |
| Ingest.Ingester.Merge | src/com/spacehopperstudios/epf/ingest/MySqlIngester.java:175-179 | the union, the key swap and the install end as `MergeTail` describes |
| Ingest.Ingester.MergeLoad | src/com/spacehopperstudios/epf/ingest/MySqlIngester.java:170-180 | the tables end as `MergeSpec` describes |
| Ingest.Ingester.TrimColumns | src/com/spacehopperstudios/epf/ingest/MySqlIngester.java:153-158 | the parser's view becomes the file cut to the table's column count, as `Trimmed` states |
| Ingest.Ingester.IncrementLoad | src/com/spacehopperstudios/epf/ingest/MySqlIngester.java:167-181 | the load is in place below the threshold of announced records, prune-and-merge from it on |
| Ingest.Ingester.LoadTrimmed | src/com/spacehopperstudios/epf/ingest/MySqlIngester.java:160-197 | the start is stamped, the load runs, and an `SQLException` is recorded as an abort and rethrown (wrapped twice by the live ingester) |
| Ingest.Ingester.IngestExisting | src/com/spacehopperstudios/epf/ingest/MySqlIngester.java:146-198 | a refused column count (always, in the main tree) is rethrown with nothing recorded and the tables as they were; otherwise the file is trimmed to the table and loaded |
| Ingest.Ingester.IngestIncremental | src/com/spacehopperstudios/epf/ingest/MySqlIngester.java:139-204 | the tables end as `IncrementalSpec` describes, whose table lookup in the main tree throws when it goes through only on its resend (`MainTreeResentLookupThrows`); a refused lookup or count is rethrown with the session untouched, a missing table is skipped with only the dictionary refreshed, and a load stamps the start and ends or aborts as the catch block says |
| Ingest.Ingester.Ingest | src/com/spacehopperstudios/epf/ingest/IngesterBase.java:62-69 | an incremental ingest from record 0 runs exactly when the export mode is `INCREMENTAL`, a full ingest otherwise; a full ingest ends as `IngestFull` does, report included, and an incremental one returns cleanly exactly when it skipped or its load succeeded |
| LegacyLoop.Refused | src/com/spacehopperstudios/epf/Ingester.java:443-455 | an empty statement is refused: it takes an attempt and changes no table |
| LegacyLoop.LegacyRounds | src/com/spacehopperstudios/epf/Ingester.java:426-464 | the legacy loop never moves the parser backwards nor past the end of the file |
| LegacyLoop.TakeAtEnd | src/com/spacehopperstudios/epf/Parser.java:319-330 | at the end of the file a batch is empty, not null |
| LegacyLoop.LegacySpins | src/com/spacehopperstudios/epf/Ingester.java:410-467 | from the end of the file every round sends an empty statement that is refused and leaves the tables alone, so with INFO logging off the loop never ends |

## Left out

- Opening, closing and re-opening JDBC connections (including the reconnect inside `executeQuery`) are not modelled; a statement that cannot run is a scripted fault.
- Logging is left out except for the reports whose `String.format` throws: the live full-ingest report (`LiveReportThrows`) and the legacy reports that use `%i` (`Ingester.java:143`, `:168` and `:461`; `UnknownConvThrows`, `AtRecordThrows`). Every other log line's arguments fit their conversions, so it changes no state the ingest reads. Of `String.format` only `%s`, `%d` and the unknown `%i` are modelled.
- Database.ColumnTotal: counts the columns of the named table only; the source's query (`MySqlIngester.java:274`) has no `table_schema` filter, so tables of the same name in other schemas, which it would also count, are not modelled.
- LegacyLoop.LegacyRounds: the legacy ingester sends its fields without escaping (`Ingester.java:397-406`), but the rows it would store are modelled like the live ones; this is moot because no legacy ingester can be constructed.
- A merge whose file has fewer columns than the table fails when the union table is built, because the two selects of the union have different column counts; the model refuses that merge in the same way.
- `Date.toString()` in the status dictionary is rendered as the decimal milliseconds of the clock reading, and `timeText`'s ISO 8601 formatting is not modelled: both are library formatting.
- Re-encoding the statement and the file through `getBytes()` and UTF-8 is left out; text is a sequence of characters and a line ends at `\n` only.
- The Java `assert` after the column check of `ingestIncremental` is not modelled: Java runs with assertions disabled, so it has no effect.
- `Program`, `DataStoreIngester`, `IngesterProvider`, the `Ingester` interface and the connection helpers are not part of this model, apart from the main tree's resend and the generated keys it keeps (`Lookup`): they parse options, pick an implementation and open connections.
- `String.split` is a regular-expression split in Java; the model splits on literal delimiters, which agrees with the source for every delimiter it uses except `"."`, whose regular-expression meaning is modelled separately (`DotSplitAll`).
- Text.ParseInt: accepts only the ASCII digits `0`-`9` after an optional sign; Java's `Integer.parseInt` also accepts the other Unicode decimal digits (`Character.digit`), such as Arabic-Indic digits, which the model refuses.
- FeedFormat.ParseCount: inherits that gap: a trailer count written in non-ASCII decimal digits parses in Java but fails in the model.
- Text.Split: empty delimiters are excluded by its precondition; the source never splits on an empty delimiter.
- The main tree's connection helper (`src/main/java/com/spacehopperstudios/database/Connection.java:50-56`) loads the PostgreSQL driver and connects to a PostgreSQL server on port 5433. The main tree's statements are MySQL forms (`REPLACE`, `INSERT IGNORE`, `ALTER TABLE ... ADD CONSTRAINT PRIMARY KEY`, `ALTER TABLE a RENAME b`, `CREATE TABLE ... IGNORE SELECT ... UNION ALL`), so against that server each of them would be refused, like a scripted fault. The `information_schema` lookups are standard SQL and run there, but PostgreSQL reads `table_schema` as a schema name, so `tableExists` answers false unless a schema named after the database holds the table. The model gives them MySQL semantics, and the results about a clean `MainTree` run (`FullClean`, `MergeClean`, `IncrementalClean`, `IncrementalMergeClean`, `IncrementalInPlaceClean` and the `Ingester` methods for that variant) hold only under those semantics.
- The database is a map from table names to tables with rows and a primary key; MySQL's type conversion, `NULL` handling in keys, collation and storage engines are not modelled.
- LegacyLoop.LegacyRounds: the legacy batch loop never ends once the file is exhausted (with INFO logging off), so it is modelled for a given number of rounds, and `LegacySpins` proves every one of them sends an empty statement that is refused.
- LegacyLoop.LegacyRounds: the progress check and report at `Ingester.java:458-462` are not modelled. With INFO logging on, once 5000 records and 120 seconds have passed since the last checkpoint, the report's `%i` throws (`AtRecordThrows`) and ends the loop, so `LegacySpins` describes the loop only with INFO logging off.
- The legacy ingest bodies (`ingestFull`, `ingestFullResume`, `ingestIncremental` of the first generation) are not modelled beyond their batch loop: the legacy constructor always throws (`LegacyNameFails`, `LegacyHeaderFails`), so no legacy ingester exists to run them, and the ingest methods require a non-legacy variant.
- Ingest.Ingester.Ingest: its contract states which ingest runs and how the tables end; the session bookkeeping of each branch is stated on `IngestFull` and `IngestIncremental`.
- Database.AddRows: its own contract states only that the table's shape is kept; the rows a batch leaves are stated by `AddRowsWithoutKey`, `AddRowsReplace`, `AddRowsIgnore` and `AddRowsInsert`.
- Database.AddRow: likewise, what one keyed row does is stated through those four lemmas.
- Ingest.Ingester.TrimColumns: takes the table's column count as a `nat`; a negative count cannot come from `columnCount`.
- FeedFormat.TakeRecords: its own contract states only bounds on the batch; the shape of the records it returns is proved separately by `BatchShape`.

## Findings

| source | as written | input that shows it | evidently intended | confidence | as-written member | corrected member |
|---|---|---|---|---|---|---|
| src/com/spacehopperstudios/epf/ingest/MySqlIngester.java:395-396 | the quotes around `NULL` and `null` are stripped by a textual replacement over the whole finished statement, not per field | a field `'NULL`: its literal `'\'NULL'` contains `'NULL'`, which the replacement cuts to `'\NULL`, leaving the literal unterminated | only a field that is exactly `NULL` or `null` is sent as a bare `NULL`; every other field keeps its quoted literal | not executed | SqlText.UnquoteBreaksLiteral | SqlText.FieldLiteralWellFormed |
| src/main/java/com/spacehopperstudios/epf/MySQLIngester.java:105-118 | the main-tree `columnCount` reads the answer from the result set before moving to its first row | any existing table: the read before the row throws `SQLException`, so every main-tree incremental ingest of an existing table is refused | the count is read from the first row, as the live tree does, and the file is cut to the table's column count | not executed | Ingest.MainTreeCountThrows | Ingest.FetchedCountTrims |
| src/com/spacehopperstudios/epf/ingest/MySqlIngester.java:103-105 | the full-ingest report passes the text of `durationText` to a `%d` conversion | any full ingest that goes through with INFO logging enabled: `String.format` throws `IllegalFormatConversionException` after the new table is installed | the elapsed time is printed with `%s`, as the resumed and incremental reports do | not executed | Ingest.LiveReportThrows | LogFormat.FullTookTextReports |
