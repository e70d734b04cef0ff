// Java string operations the importer relies on, modelled on `seq<char>`:
// literal `String.split` (with limit -1 and with the default limit 0),
// `String.replace`, `String.trim`, `String.contains`/`indexOf`/`startsWith`,
// `Long.toString` and `Integer.parseInt`. Every delimiter used by the
// importer is a literal without regular-expression metacharacters, except
// `"."`, which is modelled separately where it is used.

module Text {

  datatype Option<T> = None | Some(value: T)

  /** The outcome of an operation that Java would end by throwing. */
  datatype Result<T, E> = Success(value: T) | Failure(error: E)

  /** `sub` occurs in `s` at index `i`. */
  predicate OccursAt(s: string, sub: string, i: int)
  {
    0 <= i <= |s| && sub <= s[i..]
  }

  /** Java `String.contains`: `sub` starts at some index of `s`. */
  predicate Contains(s: string, sub: string)
    decreases |s|
  {
    sub <= s || (|s| > 0 && Contains(s[1..], sub))
  }

  /** `contains` holds exactly when `indexOf` finds an occurrence. */
  lemma ContainsIndexOf(s: string, sub: string)
    ensures Contains(s, sub) <==> IndexOf(s, sub) >= 0
  {
    ContainsFrom(s, sub, 0);
  }

  lemma {:induction false} ContainsFrom(s: string, sub: string, from: nat)
    requires from <= |s|
    ensures Contains(s[from..], sub) <==> IndexFrom(s, sub, from) >= 0
    decreases |s| - from
  {
    if from < |s| {
      assert s[from..][1..] == s[from + 1..];
      ContainsFrom(s, sub, from + 1);
    }
  }

  /** Java `String.indexOf`: the first index at which `sub` occurs, or -1. */
  function IndexOf(s: string, sub: string): (i: int)
    ensures -1 <= i <= |s|
    ensures i >= 0 ==> OccursAt(s, sub, i) && forall j :: 0 <= j < i ==> !OccursAt(s, sub, j)
    ensures i < 0 ==> forall j :: 0 <= j <= |s| ==> !OccursAt(s, sub, j)
  {
    IndexFrom(s, sub, 0)
  }

  /** Java `String.indexOf(sub, from)`: the first occurrence at or after `from`. */
  function IndexFrom(s: string, sub: string, from: nat): (i: int)
    requires from <= |s| + 1
    ensures i == -1 || (from <= i <= |s| && OccursAt(s, sub, i))
    ensures forall j :: from <= j <= |s| && (i < 0 || j < i) ==> !OccursAt(s, sub, j)
    decreases |s| + 1 - from
  {
    if from > |s| then -1
    else if OccursAt(s, sub, from) then from
    else IndexFrom(s, sub, from + 1)
  }

  /**
   * Java `s.split(d, -1)` for a literal delimiter `d`: the pieces between
   * the non-overlapping occurrences of `d` found from the left, keeping
   * empty pieces, including trailing ones.
   */
  function Split(s: string, d: string): (parts: seq<string>)
    requires |d| > 0
    ensures |parts| >= 1
    decreases |s|
  {
    var i := IndexOf(s, d);
    if i < 0 then [s] else [s[..i]] + Split(s[i + |d|..], d)
  }

  /** The pieces joined back with the separator between them. */
  function Join(parts: seq<string>, sep: string): string
  {
    if |parts| == 0 then ""
    else if |parts| == 1 then parts[0]
    else parts[0] + sep + Join(parts[1..], sep)
  }

  /** Splitting loses nothing: the pieces joined with the delimiter give back the text. */
  lemma {:induction false} SplitJoin(s: string, d: string)
    requires |d| > 0
    ensures Join(Split(s, d), d) == s
    decreases |s|
  {
    var i := IndexOf(s, d);
    if i >= 0 {
      var rest := s[i + |d|..];
      SplitJoin(rest, d);
      var tail := Split(rest, d);
      var parts := [s[..i]] + tail;
      assert parts[1..] == tail;
      assert Join(parts, d) == s[..i] + d + Join(tail, d);
      OccurrenceSplits(s, d, i);
    }
  }

  /** A text cut around an occurrence of `d`. */
  lemma OccurrenceSplits(s: string, d: string, i: int)
    requires OccursAt(s, d, i)
    ensures s == s[..i] + d + s[i + |d|..]
  {
    assert s[i..][..|d|] == d;
    assert s == s[..i] + s[i..][..|d|] + s[i + |d|..];
  }

  /** No piece of a split contains the delimiter. */
  lemma {:induction false} SplitPiecesFree(s: string, d: string)
    requires |d| > 0
    ensures forall k :: 0 <= k < |Split(s, d)| ==> !Contains(Split(s, d)[k], d)
    decreases |s|
  {
    var i := IndexOf(s, d);
    if i < 0 {
      ContainsIndexOf(s, d);
    } else {
      SplitPiecesFree(s[i + |d|..], d);
      var head := s[..i];
      ContainsIndexOf(head, d);
      var j := IndexOf(head, d);
      if j >= 0 {
        assert d <= head[j..];
        assert head[j..] <= s[j..];
        assert OccursAt(s, d, j);
      }
    }
  }

  /**
   * When the first character of `d` does not reappear inside `d`, the
   * first piece of `t + d + u` is `t` as soon as that character is absent
   * from `t`.
   */
  lemma FirstPiece(t: string, d: string, u: string)
    requires |d| > 0 && d[0] !in t
    ensures Split(t + d + u, d)[0] == t
  {
    var s := t + d + u;
    assert OccursAt(s, d, |t|) by { assert s[|t|..] == d + u; }
    var i := IndexOf(s, d);
    assert s[..|t|] == t;
  }

  /**
   * The last piece of a split is the text after the last occurrence of the
   * delimiter, for a delimiter whose first character does not reappear in it
   * (such as `#recordsWritten:`).
   */
  lemma {:induction false} LastPiece(a: string, d: string, b: string)
    requires |d| > 0 && d[0] !in d[1..]
    requires !Contains(b, d)
    ensures Last(Split(a + d + b, d)) == b
    decreases |a|
  {
    var s := a + d + b;
    var i := IndexOf(s, d);
    ContainsIndexOf(b, d);
    assert OccursAt(s, d, |a|) by { assert s[|a|..] == d + b; }
    assert 0 <= i <= |a|;
    SplitLastStep(s, d);
    if i == |a| {
      assert s[i + |d|..] == b by { assert s == (a + d) + b; }
      SplitAbsent(b, d);
    } else {
      var a' := a[i + |d|..];
      assert s[i + |d|..] == a' + d + b by {
        OccurrencesApart(s, d, i, |a|);
        assert s[i + |d|..] == a[i + |d|..] + (d + b);
      }
      LastPiece(a', d, b);
    }
  }

  /** The last piece after the first occurrence is the last piece of the whole. */
  lemma {:induction false} SplitLastStep(s: string, d: string)
    requires |d| > 0 && IndexOf(s, d) >= 0
    ensures Last(Split(s, d)) == Last(Split(s[IndexOf(s, d) + |d|..], d))
  {
    var i := IndexOf(s, d);
    var tail := Split(s[i + |d|..], d);
    assert Split(s, d) == [s[..i]] + tail;
  }

  /** A text without the delimiter splits into itself alone. */
  lemma SplitAbsent(s: string, d: string)
    requires |d| > 0 && !Contains(s, d)
    ensures Split(s, d) == [s]
  {
    ContainsIndexOf(s, d);
  }

  function Last<T>(xs: seq<T>): T
    requires |xs| > 0
  {
    xs[|xs| - 1]
  }

  /** Two occurrences of a delimiter whose first character does not reappear in it cannot overlap. */
  lemma OccurrencesApart(s: string, d: string, i: int, j: int)
    requires |d| > 0 && d[0] !in d[1..]
    requires OccursAt(s, d, i) && OccursAt(s, d, j) && i < j
    ensures i + |d| <= j
  {
  }

  /** Java's default `split` (limit 0) drops trailing empty pieces. */
  function DropTrailingEmpty(parts: seq<string>): (r: seq<string>)
    ensures |r| <= |parts| && r == parts[..|r|]
    ensures |r| > 0 ==> r[|r| - 1] != ""
    ensures forall k :: |r| <= k < |parts| ==> parts[k] == ""
  {
    if |parts| == 0 then []
    else if parts[|parts| - 1] == "" then DropTrailingEmpty(parts[..|parts| - 1])
    else parts
  }

  /**
   * Java `s.split(d)` for a literal `d`: when `d` does not occur the result
   * is `[s]` (even for the empty string), otherwise the limit -1 split with
   * its trailing empty pieces removed.
   */
  function SplitDefault(s: string, d: string): (parts: seq<string>)
    requires |d| > 0
  {
    if IndexOf(s, d) < 0 then [s] else DropTrailingEmpty(Split(s, d))
  }

  /**
   * No piece of the default split holds the delimiter; the last piece is
   * non-empty when the delimiter occurs; and the pieces rejoined with the
   * delimiter give the text up to a run of delimiters at its end.
   */
  lemma SplitDefaultPieces(s: string, d: string)
    requires |d| > 0
    ensures var parts := SplitDefault(s, d);
      && (forall k :: 0 <= k < |parts| ==> !Contains(parts[k], d))
      && (IndexOf(s, d) >= 0 && |parts| > 0 ==> parts[|parts| - 1] != "")
      && exists n: nat :: s == Join(parts, d) + Copies(d, n)
  {
    ContainsIndexOf(s, d);
    if IndexOf(s, d) < 0 {
      assert SplitDefault(s, d) == [s];
      assert s == Join([s], d) + Copies(d, 0);
    } else {
      DroppedPieces(s, d);
    }
  }

  /** `SplitDefaultPieces` where the delimiter occurs. */
  lemma DroppedPieces(s: string, d: string)
    requires |d| > 0
    ensures var parts := DropTrailingEmpty(Split(s, d));
      && (forall k :: 0 <= k < |parts| ==> !Contains(parts[k], d))
      && exists n: nat :: s == Join(parts, d) + Copies(d, n)
  {
    var all := Split(s, d);
    var parts := DropTrailingEmpty(all);
    SplitPiecesFree(s, d);
    forall k | 0 <= k < |parts|
      ensures !Contains(parts[k], d)
    {
      assert parts[k] == all[k];
    }
    SplitJoin(s, d);
    JoinDropTrailing(all, d);
  }

  /** `n` copies of `d` in a row. */
  function Copies(d: string, n: nat): (r: string)
    ensures |r| == n * |d|
  {
    if n == 0 then "" else Copies(d, n - 1) + d
  }

  /** Joining one more piece adds the separator and that piece. */
  lemma {:induction false} JoinSnoc(parts: seq<string>, x: string, sep: string)
    requires |parts| > 0
    ensures Join(parts + [x], sep) == Join(parts, sep) + sep + x
    decreases |parts|
  {
    if |parts| > 1 {
      assert (parts + [x])[1..] == parts[1..] + [x];
      JoinSnoc(parts[1..], x, sep);
    }
  }

  /** The trailing empty pieces that `split` drops account for a run of separators at the end of the joined text. */
  lemma {:induction false} JoinDropTrailing(parts: seq<string>, sep: string)
    ensures exists n: nat :: Join(parts, sep) == Join(DropTrailingEmpty(parts), sep) + Copies(sep, n)
    decreases |parts|
  {
    if |parts| == 0 || parts[|parts| - 1] != "" {
      assert Join(parts, sep) == Join(DropTrailingEmpty(parts), sep) + Copies(sep, 0);
    } else {
      var front := parts[..|parts| - 1];
      assert parts == front + [""];
      if |front| == 0 {
        assert Join(parts, sep) == Join(DropTrailingEmpty(parts), sep) + Copies(sep, 0);
      } else {
        JoinDropTrailing(front, sep);
        var m: nat :| Join(front, sep) == Join(DropTrailingEmpty(front), sep) + Copies(sep, m);
        JoinSnoc(front, "", sep);
        assert Join(parts, sep) == Join(DropTrailingEmpty(parts), sep) + Copies(sep, m + 1);
      }
    }
  }

  /** Java `String.replace(target, replacement)` for a non-empty target. */
  function Replace(s: string, target: string, replacement: string): string
    requires |target| > 0
    decreases |s|
  {
    if |s| == 0 then ""
    else if target <= s then replacement + Replace(s[|target|..], target, replacement)
    else [s[0]] + Replace(s[1..], target, replacement)
  }

  /** Replacing a character by a text that does not contain it removes every occurrence. */
  lemma {:induction false} ReplaceRemoves(s: string, c: char, r: string)
    requires c !in r
    ensures c !in Replace(s, [c], r)
    decreases |s|
  {
    if |s| > 0 {
      ReplaceRemoves(s[1..], c, r);
    }
  }

  /** Replace leaves a text without the target unchanged. */
  lemma {:induction false} ReplaceAbsent(s: string, c: char, r: string)
    requires c !in s
    ensures Replace(s, [c], r) == s
    decreases |s|
  {
    if |s| > 0 {
      assert s == [s[0]] + s[1..];
      ReplaceAbsent(s[1..], c, r);
    }
  }

  /** Java `String.trim`: strips leading and trailing characters up to U+0020. */
  function TrimStart(s: string): (r: string)
    ensures |r| <= |s| && r == s[|s| - |r|..]
    ensures |r| > 0 ==> r[0] > ' '
    ensures forall k :: 0 <= k < |s| - |r| ==> s[k] <= ' '
  {
    if |s| > 0 && s[0] <= ' ' then TrimStart(s[1..]) else s
  }

  function TrimEnd(s: string): (r: string)
    ensures |r| <= |s| && r == s[..|r|]
    ensures |r| > 0 ==> r[|r| - 1] > ' '
    ensures forall k :: |r| <= k < |s| ==> s[k] <= ' '
  {
    if |s| > 0 && s[|s| - 1] <= ' ' then TrimEnd(s[..|s| - 1]) else s
  }

  function Trim(s: string): string
  {
    TrimEnd(TrimStart(s))
  }

  /** Trimming a text whose ends are already above U+0020 changes nothing. */
  lemma TrimNoop(s: string)
    requires |s| == 0 || (s[0] > ' ' && s[|s| - 1] > ' ')
    ensures Trim(s) == s
  {
  }

  // ---------------------------------------------------------------------
  // Decimal numbers

  predicate IsDigit(c: char)
  {
    '0' <= c <= '9'
  }

  predicate AllDigits(s: string)
  {
    forall k :: 0 <= k < |s| ==> IsDigit(s[k])
  }

  function DigitChar(d: nat): (c: char)
    requires d < 10
    ensures IsDigit(c) && (c as int) - ('0' as int) == d
  {
    ((('0' as int) + d) as char)
  }

  /** The value of a run of decimal digits, most significant first. */
  function DigitsValue(s: string): nat
    requires AllDigits(s)
  {
    if |s| == 0 then 0
    else DigitsValue(s[..|s| - 1]) * 10 + ((s[|s| - 1] as int) - ('0' as int))
  }

  /** The decimal digits of a natural number, without leading zeros. */
  function NatToString(n: nat): (s: string)
    ensures |s| > 0 && AllDigits(s)
    decreases n
  {
    if n < 10 then [DigitChar(n)] else NatToString(n / 10) + [DigitChar(n % 10)]
  }

  /** Java `Long.toString` / `%d`: a minus sign for negatives, then the digits. */
  function IntToString(i: int): string
  {
    if i < 0 then "-" + NatToString(-i) else NatToString(i)
  }

  lemma {:induction false} NatToStringValue(n: nat)
    ensures DigitsValue(NatToString(n)) == n
    decreases n
  {
    if n >= 10 {
      NatToStringValue(n / 10);
      var s := NatToString(n);
      assert s[..|s| - 1] == NatToString(n / 10);
    }
  }

  const IntMin: int := -0x8000_0000
  const IntMax: int := 0x7FFF_FFFF

  /**
   * Java `Integer.parseInt` on ASCII digits: an optional sign, at least one
   * digit, and a value inside the 32-bit range; `None` where Java throws
   * NumberFormatException.
   */
  function ParseInt(s: string): (r: Option<int>)
    ensures r.Some? ==> IntMin <= r.value <= IntMax
    ensures r.Some? ==> |s| > 0
  {
    if |s| == 0 then None
    else
      var body := if s[0] == '-' || s[0] == '+' then s[1..] else s;
      if |body| == 0 || !AllDigits(body) then None
      else
        var mag: int := DigitsValue(body);
        var v := if s[0] == '-' then -mag else mag;
        if IntMin <= v <= IntMax then Some(v) else None
  }

  /** Parsing gives back every 32-bit integer that `IntToString` prints. */
  lemma ParsePrinted(n: int)
    requires IntMin <= n <= IntMax
    ensures ParseInt(IntToString(n)) == Some(n)
  {
    var s := IntToString(n);
    if n < 0 {
      var digits := NatToString(-n);
      assert s == "-" + digits;
      assert s[1..] == digits;
      NatToStringValue(-n);
    } else {
      NatToStringValue(n);
      assert IsDigit(s[0]);
    }
  }
}
