// The elapsed-time text the importer logs at the end of a run: hours,
// minutes, seconds and milliseconds between two instants, each component
// obtained with Java's `long` division, which truncates toward zero.

module TimeHelper {
  import opened Text

  const MillisPerHour: int := 1000 * 60 * 60
  const MillisPerMinute: int := 1000 * 60
  const MillisPerSecond: int := 1000

  /** Java `long` division by a positive divisor: truncates toward zero. */
  function JavaDiv(a: int, b: int): (q: int)
    requires b > 0
    ensures a >= 0 ==> q >= 0 && 0 <= a - q * b < b
    ensures a < 0 ==> q <= 0 && -b < a - q * b <= 0
  {
    if a >= 0 then EuclidBounds(a, b); a / b
    else EuclidBounds(-a, b); -((-a) / b)
  }

  lemma EuclidBounds(a: nat, b: int)
    requires b > 0
    ensures a / b >= 0 && 0 <= a - (a / b) * b < b
  {
  }

  datatype Duration = Duration(hours: int, minutes: int, seconds: int, millis: int)

  /**
   * The components of `end - start` in the order the source peels them off:
   * whole hours, then whole minutes of what is left, then whole seconds,
   * then the remaining milliseconds.
   */
  function DurationParts(start: int, end: int): (p: Duration)
    ensures p.hours * MillisPerHour + p.minutes * MillisPerMinute
            + p.seconds * MillisPerSecond + p.millis == end - start
    ensures end >= start ==>
              p.hours >= 0 && 0 <= p.minutes < 60 && 0 <= p.seconds < 60 && 0 <= p.millis < 1000
    ensures end < start ==>
              p.hours <= 0 && -60 < p.minutes <= 0 && -60 < p.seconds <= 0 && -1000 < p.millis <= 0
  {
    var total := end - start;
    var hours := JavaDiv(total, MillisPerHour);
    var afterHours := total - hours * MillisPerHour;
    var minutes := JavaDiv(afterHours, MillisPerMinute);
    var afterMinutes := afterHours - minutes * MillisPerMinute;
    var seconds := JavaDiv(afterMinutes, MillisPerSecond);
    Duration(hours, minutes, seconds, afterMinutes - seconds * MillisPerSecond)
  }

  /** `durationText`: the components rendered as `%dh %dm %ds,%d`. */
  function DurationText(start: int, end: int): string
  {
    var p := DurationParts(start, end);
    IntToString(p.hours) + "h " + IntToString(p.minutes) + "m "
      + IntToString(p.seconds) + "s," + IntToString(p.millis)
  }

  /** A run that ends when it starts is reported as `0h 0m 0s,0`. */
  lemma ZeroDuration(t: int)
    ensures DurationText(t, t) == "0h 0m 0s,0"
  {
  }
}
