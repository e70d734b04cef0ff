// `String.format` as the ingesters' log lines use it: a template of literal
// text and `%s` / `%d` conversions, filled from the arguments in order, and
// the `%i` the legacy ingester writes, which Java does not know.

module LogFormat {
  import opened Text
  import opened IngesterBase

  /** A `String.format` argument: a Java `long` or a `String`. */
  datatype Arg = LongArg(n: int) | TextArg(s: string)

  /** A piece of a template: literal text, a `%s`, a `%d` or a `%i`. */
  datatype Piece = Lit(text: string) | AnyConv | DecimalConv | UnknownConv

  /** The number of conversions in a template. */
  function Conversions(p: seq<Piece>): (n: nat)
    ensures n <= |p|
  {
    if |p| == 0 then 0 else (if p[0].Lit? then 0 else 1) + Conversions(p[1..])
  }

  /** `%s` of an argument: the decimal digits of a `long`, a `String` as it is. */
  function ArgText(a: Arg): string
  {
    match a
    case LongArg(n) => IntToString(n)
    case TextArg(s) => s
  }

  /** `head` in front of a formatted text; a failure stays a failure. */
  function Prepend(head: string, r: Result<string, Thrown>): Result<string, Thrown>
  {
    if r.Success? then Success(head + r.value) else r
  }

  /**
   * `String.format(template, args)`: literal text as it is, `%s` as the
   * text of its argument and `%d` as the digits of a `long`. A `%d` given
   * a `String` throws `IllegalFormatConversionException`, a conversion
   * with no argument left `MissingFormatArgumentException`, and `%i`
   * `UnknownFormatConversionException`; arguments beyond the conversions
   * are ignored.
   */
  function Format(p: seq<Piece>, args: seq<Arg>): (r: Result<string, Thrown>)
    ensures r.Failure? ==> r.error == FormatError
    ensures r.Failure? ==> Conversions(p) > 0
    decreases |p|
  {
    if |p| == 0 then Success("")
    else match p[0]
      case Lit(t) => Prepend(t, Format(p[1..], args))
      case AnyConv =>
        if |args| == 0 then Failure(FormatError) else Prepend(ArgText(args[0]), Format(p[1..], args[1..]))
      case DecimalConv =>
        if |args| == 0 || args[0].TextArg? then Failure(FormatError)
        else Prepend(IntToString(args[0].n), Format(p[1..], args[1..]))
      case UnknownConv => Failure(FormatError)
  }

  /** A template holding a `%i` throws, whatever the arguments. */
  lemma {:induction false} UnknownConvThrows(p: seq<Piece>, args: seq<Arg>)
    requires UnknownConv in p
    ensures Format(p, args) == Failure(FormatError)
    decreases |p|
  {
    if p[0] != UnknownConv {
      assert UnknownConv in p[1..] by {
        var k :| 0 <= k < |p| && p[k] == UnknownConv;
        assert p[1..][k - 1] == UnknownConv;
      }
      match p[0]
      case Lit(_) => UnknownConvThrows(p[1..], args);
      case AnyConv => if |args| > 0 { UnknownConvThrows(p[1..], args[1..]); }
      case DecimalConv => if |args| > 0 && args[0].LongArg? { UnknownConvThrows(p[1..], args[1..]); }
    }
  }

  /** `"...at record %i..."`, the legacy batch loop's progress report. */
  const AtRecord: seq<Piece> := [Lit("...at record "), UnknownConv, Lit("...")]

  /** The legacy progress report throws for every record number it is given. */
  lemma AtRecordThrows(record: int)
    ensures Format(AtRecord, [LongArg(record)]) == Failure(FormatError)
  {
    UnknownConvThrows(AtRecord, [LongArg(record)]);
  }

  /**
   * A `%d` whose argument is a `String` makes the whole format throw,
   * wherever it stands: once the conversions before it have used up the
   * arguments before it, nothing after it is reached.
   */
  lemma {:induction false} DecimalOfTextThrows(p: seq<Piece>, q: seq<Piece>, args: seq<Arg>, s: string, more: seq<Arg>)
    requires Conversions(p) == |args|
    ensures Format(p + [DecimalConv] + q, args + [TextArg(s)] + more) == Failure(FormatError)
    decreases |p|
  {
    var all := args + [TextArg(s)] + more;
    if |p| == 0 {
      assert p + [DecimalConv] + q == [DecimalConv] + q;
      assert all[0] == TextArg(s);
    } else {
      var rest := p + [DecimalConv] + q;
      assert rest[0] == p[0] && rest[1..] == p[1..] + [DecimalConv] + q;
      if p[0].Lit? {
        DecimalOfTextThrows(p[1..], q, args, s, more);
      } else {
        assert all[1..] == args[1..] + [TextArg(s)] + more;
        DecimalOfTextThrows(p[1..], q, args[1..], s, more);
      }
    }
  }

  /** `"Full ingest of %s took %d"`, the report both trees log at the end of a full ingest. */
  const FullTook: seq<Piece> := [Lit("Full ingest of "), AnyConv, Lit(" took "), DecimalConv]

  /** `"… took %s"`, the report as the resumed and incremental ingests word it. */
  const FullTookText: seq<Piece> := [Lit("Full ingest of "), AnyConv, Lit(" took "), AnyConv]

  /** Given the elapsed time as a text, the full-ingest report throws. */
  lemma FullTookThrowsOnText(table: string, elapsed: string)
    ensures Format(FullTook, [TextArg(table), TextArg(elapsed)]) == Failure(FormatError)
  {
    DecimalOfTextThrows([Lit("Full ingest of "), AnyConv, Lit(" took ")], [], [TextArg(table)], elapsed, []);
    assert [Lit("Full ingest of "), AnyConv, Lit(" took ")] + [DecimalConv] + [] == FullTook;
    assert [TextArg(table)] + [TextArg(elapsed)] + [] == [TextArg(table), TextArg(elapsed)];
  }

  /** Given the elapsed milliseconds as a `long`, the full-ingest report names the table and the milliseconds. */
  lemma FullTookOnLong(table: string, millis: int)
    ensures Format(FullTook, [TextArg(table), LongArg(millis)]) == Success("Full ingest of " + table + " took " + IntToString(millis))
  {
    var args := [TextArg(table), LongArg(millis)];
    var m := IntToString(millis);
    assert FullTook[3..] == [DecimalConv] && FullTook[3..][0] == DecimalConv && FullTook[3..][1..] == [];
    assert args[1..][0] == LongArg(millis) && args[1..][1..] == [];
    assert m + "" == m;
    assert Format(FullTook[3..], args[1..]) == Success(m);
    assert FullTook[2..][1..] == FullTook[3..];
    assert Format(FullTook[2..], args[1..]) == Success(" took " + m);
    assert FullTook[1..][1..] == FullTook[2..] && args[1..] == args[1..];
    assert Format(FullTook[1..], args) == Success(table + (" took " + m));
    assert "Full ingest of " + (table + (" took " + m)) == "Full ingest of " + table + " took " + m;
  }

  /** With `%s` in place of `%d`, the report names the table and the elapsed time text. */
  lemma FullTookTextReports(table: string, elapsed: string)
    ensures Format(FullTookText, [TextArg(table), TextArg(elapsed)]) == Success("Full ingest of " + table + " took " + elapsed)
  {
    var args := [TextArg(table), TextArg(elapsed)];
    assert FullTookText[3..] == [AnyConv] && FullTookText[3..][0] == AnyConv && FullTookText[3..][1..] == [];
    assert args[1..][0] == TextArg(elapsed) && args[1..][1..] == [];
    assert elapsed + "" == elapsed;
    assert Format(FullTookText[3..], args[1..]) == Success(elapsed);
    assert FullTookText[2..][1..] == FullTookText[3..];
    assert Format(FullTookText[2..], args[1..]) == Success(" took " + elapsed);
    assert FullTookText[1..][1..] == FullTookText[2..];
    assert Format(FullTookText[1..], args) == Success(table + (" took " + elapsed));
    assert "Full ingest of " + (table + (" took " + elapsed)) == "Full ingest of " + table + " took " + elapsed;
  }
}
