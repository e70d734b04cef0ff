// The SQL text the ingesters build: escaped field literals, the batched
// INSERT/REPLACE statement with its NULL unquoting, the key and table
// definitions, and the WHERE/SELECT/UNION clauses of the incremental merge.

module SqlText {
  import opened Text
  import opened Database

  /** `String.replace` on a text whose head holds no first character of the target leaves that head alone. */
  lemma {:induction false} ReplaceAfter(a: string, b: string, t: string, r: string)
    requires |t| > 0 && t[0] !in a
    ensures Replace(a + b, t, r) == a + Replace(b, t, r)
    decreases |a|
  {
    if |a| > 0 {
      assert (a + b)[0] == a[0];
      assert !(t <= a + b);
      assert (a + b)[1..] == a[1..] + b;
      ReplaceAfter(a[1..], b, t, r);
      assert a == [a[0]] + a[1..];
    } else {
      assert a + b == b;
    }
  }

  /** A text without the target's first character is left unchanged. */
  lemma ReplaceMissing(s: string, t: string, r: string)
    requires |t| > 0 && t[0] !in s
    ensures Replace(s, t, r) == s
  {
    ReplaceAfter(s, "", t, r);
    assert s + "" == s;
  }

  /** One step of `Replace` with a one-character target. */
  lemma ReplaceCharStep(x: char, rest: string, c: char, r: string)
    ensures Replace([x] + rest, [c], r) == (if x == c then r else [x]) + Replace(rest, [c], r)
  {
    assert ([x] + rest)[1..] == rest;
    assert ([x] + rest)[0] == x;
    assert [c] <= [x] + rest <==> x == c;
  }

  /** Replacing one character distributes over concatenation. */
  lemma {:induction false} ReplaceCharConcat(a: string, b: string, c: char, r: string)
    ensures Replace(a + b, [c], r) == Replace(a, [c], r) + Replace(b, [c], r)
    decreases |a|
  {
    if |a| == 0 {
      assert a + b == b;
    } else {
      var head := if a[0] == c then r else [a[0]];
      assert a == [a[0]] + a[1..];
      assert a + b == [a[0]] + (a[1..] + b);
      ReplaceCharStep(a[0], a[1..] + b, c, r);
      ReplaceCharStep(a[0], a[1..], c, r);
      ReplaceCharConcat(a[1..], b, c, r);
      var x, y := Replace(a[1..], [c], r), Replace(b, [c], r);
      assert head + (x + y) == (head + x) + y;
    }
  }

  // ---------------------------------------------------------------
  // Field escaping
  // ---------------------------------------------------------------

  /**
   * The body of a well-formed literal: a sequence of `\\`, `\'` and
   * characters other than `\` and `'`, so no quote in it ends the literal.
   */
  predicate Escaped(s: string)
    decreases |s|
  {
    if |s| == 0 then true
    else if s[0] == '\\' then |s| >= 2 && (s[1] == '\\' || s[1] == '\'') && Escaped(s[2..])
    else s[0] != '\'' && Escaped(s[1..])
  }

  /** The contents of a well-formed literal body, escapes undone. */
  function Unescape(s: string): string
    requires Escaped(s)
    decreases |s|
  {
    if |s| == 0 then ""
    else if s[0] == '\\' then [s[1]] + Unescape(s[2..])
    else [s[0]] + Unescape(s[1..])
  }

  /** The last two replacements of `Escape` escape character by character. */
  lemma {:induction false} DoubleReplace(y: string)
    ensures Replace(Replace(y, "\\", "\\\\"), "'", "\\'") == EscapeChars(y)
    decreases |y|
  {
    if |y| > 0 {
      var c := y[0];
      var doubled := if c == '\\' then "\\\\" else [c];
      assert Replace(y, "\\", "\\\\") == doubled + Replace(y[1..], "\\", "\\\\");
      ReplaceCharConcat(doubled, Replace(y[1..], "\\", "\\\\"), '\'', "\\'");
      assert Replace(doubled, "'", "\\'") == EscapeChar(c);
      DoubleReplace(y[1..]);
    }
  }

  /** Character-wise escaping yields a well-formed body that unescapes to the original. */
  lemma {:induction false} EscapeCharsRoundTrip(y: string)
    ensures Escaped(EscapeChars(y))
    ensures Unescape(EscapeChars(y)) == y
    decreases |y|
  {
    if |y| > 0 {
      EscapeCharsRoundTrip(y[1..]);
      var rest := EscapeChars(y[1..]);
      var e := EscapeChar(y[0]) + rest;
      assert e == EscapeChars(y);
      if y[0] == '\\' || y[0] == '\'' {
        assert e[2..] == rest;
      } else {
        assert e[1..] == rest;
      }
      assert y == [y[0]] + y[1..];
    }
  }

  /**
   * Whatever the field, its escaped text is a well-formed literal body, so
   * no unescaped quote reaches the statement, and it reads back as the
   * field with `\\'` and `\\\\` undone.
   */
  lemma EscapeWellFormed(f: string)
    ensures Escape(f) == EscapeChars(Normalized(f))
    ensures Escaped(Escape(f)) && Unescape(Escape(f)) == Normalized(f)
  {
    DoubleReplace(Normalized(f));
    EscapeCharsRoundTrip(Normalized(f));
  }

  /** A field without backslashes comes back unchanged when the literal is read. */
  lemma EscapeRoundTrip(f: string)
    requires '\\' !in f
    ensures Escaped(Escape(f)) && Unescape(Escape(f)) == f
  {
    ReplaceMissing(f, "\\'", "'");
    ReplaceMissing(f, "\\\\", "\\");
    EscapeWellFormed(f);
  }

  /** With a backslash the first two replacements lose information: `\'` and `'` give the same literal. */
  lemma EscapeMergesEscapedQuote()
    ensures Escape("\\'") == Escape("'") == "\\'"
  {
  }

  /** The Legacy ingester's `_escapeRecords` copies each field: a quote in a field without backslashes stays bare. */
  function LegacyEscape(f: string): (r: string)
    ensures '\'' in f && '\\' !in f ==> !Escaped(r)
  {
    BareQuoteNotEscaped(f);
    f
  }

  /** A text with a quote and no backslash is not a well-formed literal body. */
  lemma {:induction false} BareQuoteNotEscaped(s: string)
    ensures '\'' in s && '\\' !in s ==> !Escaped(s)
    decreases |s|
  {
    if |s| > 0 && '\'' in s && '\\' !in s && s[0] != '\'' {
      assert '\'' in s[1..] by {
        var k :| 0 <= k < |s| && s[k] == '\'';
        assert s[1..][k - 1] == '\'';
      }
      BareQuoteNotEscaped(s[1..]);
    }
  }

  // ---------------------------------------------------------------
  // The batch statement of populateTable
  // ---------------------------------------------------------------

  function VerbText(v: Verb): string
  {
    match v
    case InsertInto => "INSERT"
    case ReplaceInto => "REPLACE"
  }

  /** `REPLACE` exactly for an incremental ingest. */
  function VerbFor(isIncremental: bool): (v: Verb)
    ensures v == ReplaceInto <==> isIncremental
  {
    if isIncremental then ReplaceInto else InsertInto
  }

  /** `IGNORE` exactly when key violators are skipped in a full ingest. */
  function IgnoreFor(skipKeyViolators: bool, isIncremental: bool): (ignore: bool)
    ensures ignore <==> skipKeyViolators && !isIncremental
  {
    skipKeyViolators && !isIncremental
  }

  /** `"(a, b, c)"` */
  function TupleText(items: seq<string>): string
  {
    "(" + Join(items, ", ") + ")"
  }

  /** The tuples of a batch, each record's (already escaped) fields in a tuple, joined with `", "`. */
  function ValuesText(recs: seq<seq<string>>): string
  {
    Join(seq(|recs|, i requires 0 <= i < |recs| => TupleText(recs[i])), ", ")
  }

  /**
   * The statement as assembled, with `'NULL'` and then `'null'` replaced
   * by a bare `NULL` anywhere in its text.
   */
  function UnquoteNulls(s: string): string
  {
    Replace(Replace(s, "'NULL'", "NULL"), "'null'", "NULL")
  }

  /** The head of the batch statement: `"%s %s INTO %s %s VALUES "` filled in. */
  function BatchHead(verb: Verb, ignore: bool, table: string, cols: seq<string>): string
  {
    VerbText(verb) + " " + (if ignore then "IGNORE" else "") + " INTO " + table + " " + TupleText(cols) + " VALUES "
  }

  /** The statement `populateTable` sends for one batch of escaped records. */
  function BatchText(verb: Verb, ignore: bool, table: string, cols: seq<string>, escaped: seq<seq<string>>): string
  {
    UnquoteNulls(BatchHead(verb, ignore, table, cols) + ValuesText(escaped))
  }

  /** A quote-free head is untouched by the unquoting. */
  lemma UnquoteAfter(head: string, rest: string)
    requires '\'' !in head
    ensures UnquoteNulls(head + rest) == head + UnquoteNulls(rest)
  {
    ReplaceAfter(head, rest, "'NULL'", "NULL");
    ReplaceAfter(head, Replace(rest, "'NULL'", "NULL"), "'null'", "NULL");
  }

  /** The head holds no quote when the table and column names hold none. */
  lemma HeadQuoteFree(verb: Verb, ignore: bool, table: string, cols: seq<string>)
    requires '\'' !in table && '\'' !in Join(cols, ", ")
    ensures '\'' !in BatchHead(verb, ignore, table, cols)
  {
    var front := VerbText(verb) + " " + (if ignore then "IGNORE" else "") + " INTO ";
    assert '\'' !in front;
    assert '\'' !in TupleText(cols);
    assert BatchHead(verb, ignore, table, cols) == front + table + " " + TupleText(cols) + " VALUES ";
  }

  /**
   * When the table and column names hold no quote, the statement starts
   * with its verb (`REPLACE` for an incremental ingest, else `INSERT`),
   * then `IGNORE` exactly when key violators are skipped in a full ingest,
   * the table and the column list, and only the values are unquoted.
   */
  lemma BatchStatementHead(isIncremental: bool, skip: bool, table: string, cols: seq<string>, escaped: seq<seq<string>>)
    requires '\'' !in table && '\'' !in Join(cols, ", ")
    ensures var head := BatchHead(VerbFor(isIncremental), IgnoreFor(skip, isIncremental), table, cols);
      BatchText(VerbFor(isIncremental), IgnoreFor(skip, isIncremental), table, cols, escaped) == head + UnquoteNulls(ValuesText(escaped))
  {
    var head := BatchHead(VerbFor(isIncremental), IgnoreFor(skip, isIncremental), table, cols);
    HeadQuoteFree(VerbFor(isIncremental), IgnoreFor(skip, isIncremental), table, cols);
    UnquoteAfter(head, ValuesText(escaped));
  }

  /** For a field without backslashes the escaping is character-wise. */
  lemma EscapePlain(f: string)
    requires '\\' !in f
    ensures Escape(f) == EscapeChars(f)
  {
    ReplaceMissing(f, "\\'", "'");
    ReplaceMissing(f, "\\\\", "\\");
    EscapeWellFormed(f);
  }

  /** The literal of the field `'NULL`: its quote escaped, then the closing quote. */
  lemma QuoteNullWord(f: string)
    requires f == "'NULL"
    ensures Quote(f) == ['\''] + (['\\'] + (f + "'"))
  {
    var word := f[1..];
    assert f == ['\''] + word;
    EscapePlain(f);
    EscapeCharsStep('\'', word);
    EscapeCharsPlain(word);
    assert Escape(f) == "\\" + f;
  }

  /**
   * Unquoting the whole statement also strikes the closing quote of a
   * field that ends in `'NULL`: the literal of the field `'NULL` becomes
   * `'\NULL`, whose quote is never closed.
   */
  lemma UnquoteBreaksLiteral(f: string)
    requires f == "'NULL"
    ensures Quote(f) == "'\\" + f + "'"
    ensures UnquoteNulls(Quote(f)) == "'\\" + f[1..]
  {
    var word := f[1..];
    var hit := f + "'";
    QuoteNullWord(f);
    ReplaceWhole(hit, "NULL");
    ReplaceSkip('\\', hit, "'NULL'", "NULL");
    ReplaceSkip('\'', ['\\'] + hit, "'NULL'", "NULL");
    ReplaceMissing(['\\'] + word, "'null'", "NULL");
    ReplaceSkip('\'', ['\\'] + word, "'null'", "NULL");
    assert ['\''] + (['\\'] + word) == "'\\" + f[1..];
  }

  /** A text that is the target is replaced whole. */
  lemma ReplaceWhole(t: string, r: string)
    requires |t| > 0
    ensures Replace(t, t, r) == r
  {
    assert t[|t|..] == "";
  }

  /** One step of `EscapeChars`. */
  lemma EscapeCharsStep(c: char, rest: string)
    ensures EscapeChars([c] + rest) == EscapeChar(c) + EscapeChars(rest)
  {
    assert ([c] + rest)[1..] == rest;
  }

  /** A text without backslash and quote escapes to itself. */
  lemma {:induction false} EscapeCharsPlain(y: string)
    requires '\\' !in y && '\'' !in y
    ensures EscapeChars(y) == y
    decreases |y|
  {
    if |y| > 0 {
      EscapeCharsPlain(y[1..]);
      assert y == [y[0]] + y[1..];
    }
  }

  /** A text whose head differs from the target's in its first or second character keeps that first character. */
  lemma ReplaceSkip(c: char, rest: string, t: string, r: string)
    requires |t| > 1 && (c != t[0] || (|rest| > 0 && rest[0] != t[1]))
    ensures Replace([c] + rest, t, r) == [c] + Replace(rest, t, r)
  {
    assert !(t <= [c] + rest) by {
      if c == t[0] {
        assert ([c] + rest)[1] == rest[0];
      }
    }
    assert ([c] + rest)[1..] == rest;
  }

  /**
   * The literal of one field with the unquoting done per field: a field
   * stored as `NULL` becomes a bare `NULL`, any other field its quoted
   * literal.
   */
  function FieldLiteral(f: string): string
  {
    if StoredValue(f).Null? then "NULL" else Quote(f)
  }

  /** What the server reads from a literal: a bare `NULL` is `NULL`, a well-formed quoted literal its unescaped body. */
  predicate ReadsAs(lit: string, v: Value)
  {
    match v
    case Null => lit == "NULL"
    case Str(text) =>
      && |lit| >= 2 && lit[0] == '\'' && lit[|lit| - 1] == '\''
      && Escaped(lit[1..|lit| - 1]) && Unescape(lit[1..|lit| - 1]) == text
  }

  /**
   * The per-field literal is bare `NULL` exactly where the database model
   * stores `NULL`, and is otherwise a well-formed quoted literal; either
   * way the server reads it as the stored value.
   */
  lemma FieldLiteralWellFormed(f: string)
    ensures FieldLiteral(f) == "NULL" <==> StoredValue(f).Null?
    ensures ReadsAs(FieldLiteral(f), StoredValue(f))
  {
    EscapeWellFormed(f);
    if StoredValue(f).Str? {
      var lit := FieldLiteral(f);
      assert lit[1..|lit| - 1] == Escape(f);
    }
  }

  /** The literal of a field is the quoted word `NULL` (or `null`) exactly when the field reads as that word. */
  lemma QuoteIsNull(f: string)
    ensures Quote(f) == "'NULL'" <==> Normalized(f) == "NULL"
    ensures Quote(f) == "'null'" <==> Normalized(f) == "null"
  {
    assert '\\' !in "NULL" && '\'' !in "NULL";
    assert '\\' !in "null" && '\'' !in "null";
    QuoteIsWord(f, "NULL");
    QuoteIsWord(f, "null");
  }

  /** The literal of a field is a plain word quoted exactly when the field reads as that word. */
  lemma QuoteIsWord(f: string, w: string)
    requires '\\' !in w && '\'' !in w
    ensures Quote(f) == "'" + w + "'" <==> Normalized(f) == w
  {
    EscapeWellFormed(f);
    QuoteOf(f, w);
    EscapeCharsIs(Normalized(f), w);
  }

  /** A literal is `w` quoted exactly when the escaped field is `w`. */
  lemma QuoteOf(f: string, w: string)
    ensures Quote(f) == "'" + w + "'" <==> Escape(f) == w
  {
    if Quote(f) == "'" + w + "'" {
      assert Escape(f) == Quote(f)[1..|Quote(f)| - 1];
    }
  }

  /** A text without backslash and quote is the escape of itself and of nothing else. */
  lemma EscapeCharsIs(y: string, w: string)
    requires '\\' !in w && '\'' !in w
    ensures EscapeChars(y) == w <==> y == w
  {
    EscapeCharsPlain(w);
    EscapeCharsRoundTrip(y);
    EscapeCharsRoundTrip(w);
  }

  /** A text that does not contain the target is left unchanged. */
  lemma {:induction false} ReplaceNone(s: string, t: string, r: string)
    requires |t| > 0 && !Contains(s, t)
    ensures Replace(s, t, r) == s
    decreases |s|
  {
    if |s| > 0 {
      ReplaceNone(s[1..], t, r);
      assert s == [s[0]] + s[1..];
    }
  }

  /**
   * A field whose literal the whole-statement unquoting does not break
   * comes out of it as its per-field literal.
   */
  lemma FieldUnquoted(f: string)
    requires !BreaksLiteral(f)
    ensures UnquoteNulls(Quote(f)) == FieldLiteral(f)
  {
    var q := Quote(f);
    QuoteIsNull(f);
    if q == "'NULL'" {
      ReplaceWhole(q, "NULL");
      ReplaceMissing("NULL", "'null'", "NULL");
    } else if q == "'null'" {
      ReplaceAfter("null", "'", "'NULL'", "NULL");
      ReplaceSkip('\'', "null'", "'NULL'", "NULL");
      assert Replace("'", "'NULL'", "NULL") == "'";
      assert Replace("null'", "'NULL'", "NULL") == "null'" by {
        assert "null'" == "null" + "'";
      }
      assert ['\''] + "null'" == q;
      ReplaceWhole(q, "NULL");
    } else {
      ReplaceNone(q, "'NULL'", "NULL");
      ReplaceNone(q, "'null'", "NULL");
    }
  }

  /**
   * `String.replace` distributes over a concatenation whose second part
   * starts with a character absent from the target: no occurrence can
   * straddle the boundary.
   */
  lemma {:induction false} ReplaceConcat(a: string, b: string, t: string, r: string)
    requires |t| > 0 && |b| > 0 && b[0] !in t
    ensures Replace(a + b, t, r) == Replace(a, t, r) + Replace(b, t, r)
    decreases |a|
  {
    if |a| == 0 {
      assert a + b == b;
    } else {
      PrefixOfConcat(a, b, t);
      if t <= a {
        ReplaceConcatStep(a, b, t, r, |t|, r);
      } else {
        ReplaceConcatStep(a, b, t, r, 1, [a[0]]);
      }
    }
  }

  /** `ReplaceConcat` once the first step, which consumes `n` characters of `a` and emits `head`, is known. */
  lemma {:induction false} ReplaceConcatStep(a: string, b: string, t: string, r: string, n: nat, head: string)
    requires |t| > 0 && |b| > 0 && b[0] !in t && 0 < n <= |a|
    requires Replace(a + b, t, r) == head + Replace((a + b)[n..], t, r)
    requires Replace(a, t, r) == head + Replace(a[n..], t, r)
    ensures Replace(a + b, t, r) == Replace(a, t, r) + Replace(b, t, r)
    decreases |a|, 0
  {
    var rest := a[n..];
    assert (a + b)[n..] == rest + b;
    ReplaceConcat(rest, b, t, r);
    var x, y := Replace(rest, t, r), Replace(b, t, r);
    assert head + (x + y) == (head + x) + y;
  }

  /** Before a character absent from `t`, `t` starts `a + b` exactly when it starts `a`. */
  lemma PrefixOfConcat(a: string, b: string, t: string)
    requires |b| > 0 && b[0] !in t
    ensures t <= a + b <==> t <= a
  {
    if t <= a + b && |t| > |a| {
      StraddleChar(a, b, t);
      assert false;
    }
    if t <= a + b && |t| <= |a| {
      assert a[..|t|] == (a + b)[..|t|];
    }
    if t <= a {
      assert (a + b)[..|t|] == a[..|t|];
    }
  }

  /** An occurrence at the start of `a + b` that runs past `a` holds the first character of `b`. */
  lemma StraddleChar(a: string, b: string, t: string)
    requires |b| > 0 && t <= a + b && |a| < |t|
    ensures b[0] in t
  {
    assert t[|a|] == (a + b)[|a|];
  }

  /** The unquoting distributes over a concatenation whose second part starts with a character of neither target. */
  lemma UnquoteConcat(a: string, b: string)
    requires |b| > 0 && b[0] !in "'NULL'" && b[0] !in "'null'"
    ensures UnquoteNulls(a + b) == UnquoteNulls(a) + UnquoteNulls(b)
  {
    ReplaceConcat(a, b, "'NULL'", "NULL");
    var b1 := Replace(b, "'NULL'", "NULL");
    assert b1 == [b[0]] + Replace(b[1..], "'NULL'", "NULL") by {
      assert !("'NULL'" <= b);
    }
    ReplaceConcat(Replace(a, "'NULL'", "NULL"), b1, "'null'", "NULL");
  }

  /** The unquoting of items joined with `", "` is the join of the unquoted items. */
  lemma {:induction false} UnquoteJoin(items: seq<string>)
    ensures UnquoteNulls(Join(items, ", ")) == Join(seq(|items|, i requires 0 <= i < |items| => UnquoteNulls(items[i])), ", ")
    decreases |items|
  {
    var mapped := seq(|items|, i requires 0 <= i < |items| => UnquoteNulls(items[i]));
    if |items| == 0 {
      ReplaceMissing("", "'NULL'", "NULL");
      ReplaceMissing("", "'null'", "NULL");
    } else if |items| > 1 {
      var rest := Join(items[1..], ", ");
      assert Join(items, ", ") == items[0] + (", " + rest);
      UnquoteConcat(items[0], ", " + rest);
      UnquoteAfter(", ", rest);
      UnquoteJoin(items[1..]);
      assert mapped[1..] == seq(|items[1..]|, i requires 0 <= i < |items[1..]| => UnquoteNulls(items[1..][i]));
    }
  }

  /** The unquoting of a tuple is the tuple of the unquoted items. */
  lemma UnquoteTuple(items: seq<string>)
    ensures UnquoteNulls(TupleText(items)) == TupleText(seq(|items|, i requires 0 <= i < |items| => UnquoteNulls(items[i])))
  {
    var j := Join(items, ", ");
    var mapped := seq(|items|, i requires 0 <= i < |items| => UnquoteNulls(items[i]));
    assert TupleText(items) == "(" + (j + ")");
    UnquoteAfter("(", j + ")");
    UnquoteConcat(j, ")");
    ReplaceMissing(")", "'NULL'", "NULL");
    ReplaceMissing(")", "'null'", "NULL");
    assert UnquoteNulls(")") == ")";
    UnquoteJoin(items);
    assert UnquoteNulls(j) == Join(mapped, ", ");
    assert UnquoteNulls(TupleText(items)) == "(" + (Join(mapped, ", ") + ")");
  }

  /** The quoted literal of every field of every record, as `escapeRecords` and the tuple format put them. */
  function QuotedRecords(recs: seq<seq<string>>): seq<seq<string>>
  {
    seq(|recs|, i requires 0 <= i < |recs| => seq(|recs[i]|, j requires 0 <= j < |recs[i]| => Quote(recs[i][j])))
  }

  /** The per-field literal of every field of every record. */
  function LiteralRecords(recs: seq<seq<string>>): seq<seq<string>>
  {
    seq(|recs|, i requires 0 <= i < |recs| => seq(|recs[i]|, j requires 0 <= j < |recs[i]| => FieldLiteral(recs[i][j])))
  }

  /**
   * When no field's literal is broken, unquoting the values of the whole
   * batch gives every field its per-field literal, and each literal reads
   * as the value the database model stores for that field: the statement
   * text carries exactly `RowsOf(recs)`.
   */
  lemma BatchValuesUnquoted(recs: seq<seq<string>>)
    requires Sendable(recs)
    ensures UnquoteNulls(ValuesText(QuotedRecords(recs))) == ValuesText(LiteralRecords(recs))
    ensures forall i, j :: 0 <= i < |recs| && 0 <= j < |recs[i]| ==> ReadsAs(LiteralRecords(recs)[i][j], RowsOf(recs)[i][j])
  {
    var quoted := QuotedRecords(recs);
    var lits := LiteralRecords(recs);
    var tuples := seq(|quoted|, i requires 0 <= i < |quoted| => TupleText(quoted[i]));
    UnquoteJoin(tuples);
    forall i | 0 <= i < |recs|
      ensures UnquoteNulls(tuples[i]) == TupleText(lits[i])
    {
      UnquoteTuple(quoted[i]);
      forall j | 0 <= j < |recs[i]|
        ensures UnquoteNulls(quoted[i][j]) == lits[i][j]
      {
        FieldUnquoted(recs[i][j]);
      }
      assert seq(|quoted[i]|, j requires 0 <= j < |quoted[i]| => UnquoteNulls(quoted[i][j])) == lits[i];
    }
    assert seq(|tuples|, i requires 0 <= i < |tuples| => UnquoteNulls(tuples[i]))
      == seq(|lits|, i requires 0 <= i < |lits| => TupleText(lits[i]));
    forall i, j | 0 <= i < |recs| && 0 <= j < |recs[i]|
      ensures ReadsAs(lits[i][j], RowsOf(recs)[i][j])
    {
      FieldLiteralWellFormed(recs[i][j]);
    }
  }

  /** Escaping distributes over concatenation. */
  lemma {:induction false} EscapeCharsAppend(a: string, b: string)
    ensures EscapeChars(a + b) == EscapeChars(a) + EscapeChars(b)
    decreases |a|
  {
    if |a| == 0 {
      assert a + b == b;
    } else {
      assert (a + b)[0] == a[0] && (a + b)[1..] == a[1..] + b;
      EscapeCharsAppend(a[1..], b);
    }
  }

  /**
   * Every field that reads as a text ending in `'NULL` has its literal
   * broken by the whole-statement unquoting: its literal ends in
   * `\'NULL'`, whose `'NULL'` is struck.
   */
  lemma BreaksAfterQuotedNull(f: string, p: string)
    requires Normalized(f) == p + "'NULL"
    ensures BreaksLiteral(f)
  {
    var e := EscapeChars(p);
    var q := Quote(f);
    QuotedNullTail(f, p);
    assert |q| == |e| + 8;
    assert OccursAt(q, "'NULL'", |e| + 2) by {
      assert q[|e| + 2..] == "'NULL'";
    }
    ContainsIndexOf(q, "'NULL'");
  }

  /** The literal of a field that reads as `p + "'NULL"`. */
  lemma QuotedNullTail(f: string, p: string)
    requires Normalized(f) == p + "'NULL"
    ensures Quote(f) == "'" + EscapeChars(p) + "\\'NULL'"
  {
    EscapeWellFormed(f);
    EscapedNullTail(p);
  }

  lemma EscapedNullTail(p: string)
    ensures EscapeChars(p + "'NULL") == EscapeChars(p) + "\\'NULL"
  {
    EscapeCharsAppend(p, "'NULL");
    EscapeCharsStep('\'', "NULL");
    EscapeCharsPlain("NULL");
  }

  // ---------------------------------------------------------------
  // Table definition and primary key
  // ---------------------------------------------------------------

  /** `CREATE TABLE t (name type, …)`: each column name with the data type at its position. */
  function CreateText(table: string, cols: seq<string>, types: seq<string>): string
    requires |types| >= |cols|
  {
    "CREATE TABLE " + table + " " + TupleText(seq(|cols|, i requires 0 <= i < |cols| => cols[i] + " " + types[i]))
  }

  /** `ALTER TABLE t ADD CONSTRAINT PRIMARY KEY (k, …)` */
  function KeyText(table: string, key: seq<string>): string
  {
    "ALTER TABLE " + table + " ADD CONSTRAINT PRIMARY KEY " + TupleText(key)
  }

  /** An empty key list still yields a statement, with an empty column list that MySQL rejects. */
  lemma EmptyKeyText(table: string)
    ensures KeyText(table, []) == "ALTER TABLE " + table + " ADD CONSTRAINT PRIMARY KEY ()"
  {
  }

  // ---------------------------------------------------------------
  // The incremental merge
  // ---------------------------------------------------------------

  /** One comparison of the pruning `WHERE` clause. */
  datatype Cond = DateNotLater | KeyEqual(column: string)

  /** The comparisons the merge means: `export_date` first, then one equality per primary-key column. */
  function MergeConds(key: seq<string>): (cs: seq<Cond>)
    ensures |cs| == |key| + 1
  {
    [DateNotLater] + seq(|key|, i requires 0 <= i < |key| => KeyEqual(key[i]))
  }

  function CondText(live: string, inc: string, c: Cond): string
  {
    match c
    case DateNotLater => live + "." + ExportDate + " <= " + inc + "." + ExportDate
    case KeyEqual(k) => live + "." + k + "=" + inc + "." + k
  }

  /** What a comparison says of a stored row `r` and an incoming row `n`. */
  predicate CondHolds(lc: seq<string>, ic: seq<string>, c: Cond, r: Row, n: Row)
  {
    match c
    case DateNotLater => SqlLe(Cell(lc, r, ExportDate), Cell(ic, n, ExportDate))
    case KeyEqual(k) => SqlEq(Cell(lc, r, k), Cell(ic, n, k))
  }

  /** The comparisons of the merge together are exactly the superseding test of the database model. */
  lemma MergeCondsMeanSupersedes(lc: seq<string>, ic: seq<string>, key: seq<string>, r: Row, n: Row)
    ensures (forall i :: 0 <= i < |MergeConds(key)| ==> CondHolds(lc, ic, MergeConds(key)[i], r, n))
      <==> Supersedes(lc, ic, key, r, n)
  {
    var cs := MergeConds(key);
    if forall i :: 0 <= i < |cs| ==> CondHolds(lc, ic, cs[i], r, n) {
      forall i | 0 <= i < |key|
        ensures SqlEq(Cell(lc, r, key[i]), Cell(ic, n, key[i]))
      {
        assert cs[i + 1] == KeyEqual(key[i]);
        assert CondHolds(lc, ic, cs[i + 1], r, n);
      }
      assert CondHolds(lc, ic, cs[0], r, n);
    }
    if Supersedes(lc, ic, key, r, n) {
      forall i | 0 <= i < |cs|
        ensures CondHolds(lc, ic, cs[i], r, n)
      {
        if i > 0 {
          assert cs[i] == KeyEqual(key[i - 1]);
        }
      }
    }
  }

  /** `incrementalWhereClause`: the date comparison, `" AND "`, then the key equalities joined with `" AND "`. */
  function WhereClause(live: string, inc: string, key: seq<string>): string
  {
    "WHERE " + CondText(live, inc, DateNotLater) + " AND "
      + Join(seq(|key|, i requires 0 <= i < |key| => CondText(live, inc, KeyEqual(key[i]))), " AND ")
  }

  /** With a primary key, the clause is the merge's comparisons written out and joined with `AND`. */
  lemma WhereRendersConds(live: string, inc: string, key: seq<string>)
    requires |key| > 0
    ensures var cs := MergeConds(key);
      WhereClause(live, inc, key) == "WHERE " + Join(seq(|cs|, i requires 0 <= i < |cs| => CondText(live, inc, cs[i])), " AND ")
  {
    var cs := MergeConds(key);
    var all := seq(|cs|, i requires 0 <= i < |cs| => CondText(live, inc, cs[i]));
    var keys := seq(|key|, i requires 0 <= i < |key| => CondText(live, inc, KeyEqual(key[i])));
    assert all[1..] == keys;
    assert Join(all, " AND ") == all[0] + " AND " + Join(all[1..], " AND ");
  }

  /** Without a primary key the clause ends in a dangling `"AND "`. */
  lemma WhereEmptyKey(live: string, inc: string)
    ensures var w := WhereClause(live, inc, []);
      |w| >= 4 && w[|w| - 4..] == "AND "
  {
    var w := WhereClause(live, inc, []);
    assert w == "WHERE " + CondText(live, inc, DateNotLater) + " AND ";
  }

  /** `incrementalSelectString`: the stored rows for which no incoming row satisfies the clause. */
  function SelectText(live: string, inc: string, key: seq<string>): string
  {
    "SELECT * FROM " + live + " WHERE 0 = (SELECT COUNT(*) FROM " + inc + " " + WhereClause(live, inc, key) + ")"
  }

  /** `incrementalUnionString`: every incoming row, then the stored rows the select keeps. */
  function UnionText(live: string, inc: string, key: seq<string>): string
  {
    "IGNORE SELECT * FROM " + inc + " UNION ALL " + SelectText(live, inc, key)
  }
}
