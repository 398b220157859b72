/**
 * Python's naive `datetime.time` (a time of day with microsecond resolution): its
 * fields, its ordering, its `str()` form, and the instants `datetime.combine`
 * builds from a date and a time.
 */
module Clock {
  import opened Wrappers
  import Decimal

  const MicrosPerSecond: nat := 1_000_000
  const MicrosPerMinute: nat := 60 * MicrosPerSecond
  const MicrosPerHour: nat := 60 * MicrosPerMinute
  const MicrosPerDay: nat := 24 * MicrosPerHour

  datatype Time = Time(hour: nat, minute: nat, second: nat, microsecond: nat)

  /** The values a `datetime.time` can hold. */
  type TimeOfDay = t: Time | t.hour < 24 && t.minute < 60 && t.second < 60 && t.microsecond < 1_000_000
    witness Time(0, 0, 0, 0)

  /** Microseconds since midnight. */
  function Micros(t: TimeOfDay): (m: nat)
    ensures m < MicrosPerDay
  {
    t.hour * MicrosPerHour + t.minute * MicrosPerMinute + t.second * MicrosPerSecond + t.microsecond
  }

  /**
   * Python compares naive times as the tuples (hour, minute, second, microsecond):
   * negative, zero or positive as `a` is before, equal to or after `b`.
   */
  function Compare(a: TimeOfDay, b: TimeOfDay): (c: int)
    ensures -1 <= c <= 1
    ensures c == 0 <==> a == b
  {
    if a.hour != b.hour then (if a.hour < b.hour then -1 else 1)
    else if a.minute != b.minute then (if a.minute < b.minute then -1 else 1)
    else if a.second != b.second then (if a.second < b.second then -1 else 1)
    else if a.microsecond != b.microsecond then (if a.microsecond < b.microsecond then -1 else 1)
    else 0
  }

  /** Swapping the operands negates the comparison. */
  lemma CompareAntisymmetric(a: TimeOfDay, b: TimeOfDay)
    ensures Compare(b, a) == -Compare(a, b)
  {
  }

  /** `a < b` on times. */
  predicate Before(a: TimeOfDay, b: TimeOfDay)
    ensures Before(a, b) <==> Micros(a) < Micros(b)
  {
    CompareMatchesMicros(a, b);
    Compare(a, b) < 0
  }

  /** `a >= b` on times: exactly when `a < b` does not hold. */
  predicate NotBefore(a: TimeOfDay, b: TimeOfDay)
    ensures NotBefore(a, b) <==> !Before(a, b)
    ensures NotBefore(a, b) <==> Micros(a) >= Micros(b)
  {
    CompareMatchesMicros(a, b);
    Compare(a, b) >= 0
  }

  lemma HourDominates(a: TimeOfDay, b: TimeOfDay)
    requires a.hour < b.hour
    ensures Micros(a) < Micros(b)
  {
    assert a.minute * MicrosPerMinute + a.second * MicrosPerSecond + a.microsecond < MicrosPerHour;
  }

  lemma MinuteDominates(a: TimeOfDay, b: TimeOfDay)
    requires a.hour == b.hour && a.minute < b.minute
    ensures Micros(a) < Micros(b)
  {
    assert a.second * MicrosPerSecond + a.microsecond < MicrosPerMinute;
  }

  lemma SecondDominates(a: TimeOfDay, b: TimeOfDay)
    requires a.hour == b.hour && a.minute == b.minute && a.second < b.second
    ensures Micros(a) < Micros(b)
  {
  }

  /** One of two times is before the other, in microseconds since midnight, if their tuples differ. */
  lemma EarlierTuple(a: TimeOfDay, b: TimeOfDay)
    requires Compare(a, b) < 0
    ensures Micros(a) < Micros(b)
  {
    if a.hour != b.hour {
      HourDominates(a, b);
    } else if a.minute != b.minute {
      MinuteDominates(a, b);
    } else if a.second != b.second {
      SecondDominates(a, b);
    }
  }

  /** The tuple order is the order of the instants within the day, and equal tuples are equal times. */
  lemma CompareMatchesMicros(a: TimeOfDay, b: TimeOfDay)
    ensures Compare(a, b) < 0 <==> Micros(a) < Micros(b)
    ensures Compare(a, b) == 0 <==> Micros(a) == Micros(b)
    ensures Compare(a, b) == 0 <==> a == b
  {
    if Compare(a, b) < 0 {
      EarlierTuple(a, b);
    } else if Compare(a, b) > 0 {
      assert Compare(b, a) < 0;
      EarlierTuple(b, a);
    }
  }

  /** `datetime.combine(d, t)`: the instant, in microseconds, of time `t` on the day with ordinal `day`. */
  function Combine(day: int, t: TimeOfDay): (instant: int)
    ensures day * MicrosPerDay <= instant < (day + 1) * MicrosPerDay
  {
    day * MicrosPerDay + Micros(t)
  }

  /** `str(t)`: `HH:MM:SS`, followed by `.ffffff` only when the microsecond field is not zero. */
  function IsoFormat(t: TimeOfDay): (s: string)
    ensures |s| == if t.microsecond == 0 then 8 else 15
    ensures s[2] == ':' && s[5] == ':' && (t.microsecond != 0 ==> s[8] == '.')
  {
    Decimal.ZeroPadParse(t.hour, 2);
    Decimal.ZeroPadParse(t.minute, 2);
    Decimal.ZeroPadParse(t.second, 2);
    Decimal.ZeroPadParse(t.microsecond, 6);
    Decimal.ZeroPad(t.hour, 2) + ":" + Decimal.ZeroPad(t.minute, 2) + ":" + Decimal.ZeroPad(t.second, 2)
    + (if t.microsecond != 0 then "." + Decimal.ZeroPad(t.microsecond, 6) else "")
  }

  /** Reads back what `IsoFormat` writes. */
  function ParseIso(s: string): Option<TimeOfDay>
  {
    if (|s| == 8 || (|s| == 15 && s[8] == '.' && Decimal.AllDigits(s[9..15])))
       && s[2] == ':' && s[5] == ':'
       && Decimal.AllDigits(s[0..2]) && Decimal.AllDigits(s[3..5]) && Decimal.AllDigits(s[6..8])
    then
      var hour := Decimal.ParseDigits(s[0..2]);
      var minute := Decimal.ParseDigits(s[3..5]);
      var second := Decimal.ParseDigits(s[6..8]);
      var micro := if |s| == 15 then Decimal.ParseDigits(s[9..15]) else 0;
      if hour < 24 && minute < 60 && second < 60 && (|s| == 8 || micro != 0)
      then Some(Time(hour, minute, second, micro))
      else None
    else None
  }

  /** The first eight characters of `str(t)`: two digits each for hour, minute and second, colons between. */
  lemma IsoFormatHead(t: TimeOfDay)
    ensures var head := Decimal.ZeroPad(t.hour, 2) + ":" + Decimal.ZeroPad(t.minute, 2) + ":" + Decimal.ZeroPad(t.second, 2);
            |head| == 8 && head[2] == ':' && head[5] == ':'
            && Decimal.AllDigits(head[0..2]) && Decimal.ParseDigits(head[0..2]) == t.hour
            && Decimal.AllDigits(head[3..5]) && Decimal.ParseDigits(head[3..5]) == t.minute
            && Decimal.AllDigits(head[6..8]) && Decimal.ParseDigits(head[6..8]) == t.second
  {
    Decimal.ZeroPadParse(t.hour, 2);
    Decimal.ZeroPadParse(t.minute, 2);
    Decimal.ZeroPadParse(t.second, 2);
    var h, m, sc := Decimal.ZeroPad(t.hour, 2), Decimal.ZeroPad(t.minute, 2), Decimal.ZeroPad(t.second, 2);
    var head := h + ":" + m + ":" + sc;
    assert head[0..2] == h && head[3..5] == m && head[6..8] == sc;
  }

  /** `str()` of a time with microseconds is read back as the same time. */
  lemma ParseIsoFormatWithMicros(t: TimeOfDay)
    requires t.microsecond != 0
    ensures ParseIso(IsoFormat(t)) == Some(t)
  {
    IsoFormatHead(t);
    var head := Decimal.ZeroPad(t.hour, 2) + ":" + Decimal.ZeroPad(t.minute, 2) + ":" + Decimal.ZeroPad(t.second, 2);
    Decimal.ZeroPadParse(t.microsecond, 6);
    var f := Decimal.ZeroPad(t.microsecond, 6);
    var s := head + ("." + f);
    assert s == IsoFormat(t);
    assert s[..8] == head && s[8] == '.' && s[9..15] == f;
    assert s[0..2] == head[0..2] && s[3..5] == head[3..5] && s[6..8] == head[6..8];
  }

  /** `str()` of a time is read back as the same time. */
  lemma ParseIsoFormat(t: TimeOfDay)
    ensures ParseIso(IsoFormat(t)) == Some(t)
  {
    if t.microsecond != 0 {
      ParseIsoFormatWithMicros(t);
    } else {
      IsoFormatHead(t);
      var head := Decimal.ZeroPad(t.hour, 2) + ":" + Decimal.ZeroPad(t.minute, 2) + ":" + Decimal.ZeroPad(t.second, 2);
      assert head == IsoFormat(t);
    }
  }

  /** Distinct times are written differently. */
  lemma IsoFormatInjective(a: TimeOfDay, b: TimeOfDay)
    requires IsoFormat(a) == IsoFormat(b)
    ensures a == b
  {
    ParseIsoFormat(a);
    ParseIsoFormat(b);
  }
}
