/** Local time as the scheduler sees it. An instant is a whole number of
    seconds since 0001-01-01 00:00:00 local time, the first day of Python's
    proleptic Gregorian calendar, which was a Monday; so day `t / 86400` has
    weekday `(t / 86400) % 7` with Monday = 0, as `datetime.weekday()` counts.
    The zone is America/Bogota, a fixed offset with no daylight saving, so
    local wall-clock arithmetic is plain integer arithmetic. */
module Calendar {
  import opened Wrappers
  import opened Builtins

  const MinuteSeconds := 60
  const HourSeconds := 3600
  const DaySeconds := 86400
  const WeekSeconds := 604800

  /** `timedelta(minutes=m)` in seconds. */
  function Minutes(m: int): int
  {
    60 * m
  }

  function Weekday(t: int): (wd: int)
    ensures 0 <= wd < 7
  {
    (t / DaySeconds) % 7
  }

  function SecondOfDay(t: int): (s: int)
    ensures 0 <= s < DaySeconds
  {
    t % DaySeconds
  }

  type Hour = h: int | 0 <= h < 24
  type Minute = m: int | 0 <= m < 60

  /** A `datetime.time` with whole minutes, as `_parse_hhmm` builds it. */
  datatype TimeOfDay = TimeOfDay(hour: Hour, minute: Minute)

  /** Seconds from midnight to the time of day. */
  function Offset(tod: TimeOfDay): (s: int)
    ensures 0 <= s < DaySeconds && s % MinuteSeconds == 0
  {
    tod.hour * HourSeconds + tod.minute * MinuteSeconds
  }

  // ---------------------------------------------------------------- _parse_hhmm

  /** `_parse_hhmm`: strip, split at ':' into exactly two parts, `int()` each,
      and build a `time`; None wherever Python raises ValueError (not two
      parts, a part that is not an integer, an hour outside 0..23 or a minute
      outside 0..59). */
  function ParseHhmm(text: string): Option<TimeOfDay>
  {
    var parts := Split(Strip(text), ":");
    if |parts| != 2 then None
    else
      match (ParseInt(parts[0]), ParseInt(parts[1]))
      case (Some(h), Some(m)) =>
        if 0 <= h < 24 && 0 <= m < 60 then Some(TimeOfDay(h, m)) else None
      case _ => None
  }

  /** The `HH:MM` spelling the configuration uses. */
  function FormatHhmm(tod: TimeOfDay): string
  {
    Pad2(tod.hour) + ":" + Pad2(tod.minute)
  }

  /** Every time of day written as `HH:MM` reads back as itself. */
  lemma ParseFormatHhmm(tod: TimeOfDay)
    ensures ParseHhmm(FormatHhmm(tod)) == Some(tod)
  {
    FormatHhmmIsStripped(tod);
    FormatHhmmSplits(tod);
    ParseIntPad2(tod.hour);
    ParseIntPad2(tod.minute);
    ParseHhmmOfFields(FormatHhmm(tod), Pad2(tod.hour), Pad2(tod.minute), tod);
  }

  lemma FormatHhmmSplits(tod: TimeOfDay)
    ensures Split(FormatHhmm(tod), ":") == [Pad2(tod.hour), Pad2(tod.minute)]
  {
    var hh, mm := Pad2(tod.hour), Pad2(tod.minute);
    assert FormatHhmm(tod) == hh + [':'] + mm;
    SplitHhmm(hh, mm);
  }

  lemma FormatHhmmIsStripped(tod: TimeOfDay)
    ensures Strip(FormatHhmm(tod)) == FormatHhmm(tod)
  {
    var s := FormatHhmm(tod);
    assert IsDigit(s[0]) && IsDigit(s[|s| - 1]);
    StripUnchanged(s);
  }

  /** A text whose strip splits into two fields reading as the hour and the
      minute of `tod` reads as `tod`. */
  lemma ParseHhmmOfFields(text: string, hh: string, mm: string, tod: TimeOfDay)
    requires Split(Strip(text), ":") == [hh, mm]
    requires ParseInt(hh) == Some(tod.hour as int) && ParseInt(mm) == Some(tod.minute as int)
    ensures ParseHhmm(text) == Some(tod)
  {
  }

  /** Two colon-free two-character fields joined by a colon split back
      into the two fields. */
  lemma SplitHhmm(hh: string, mm: string)
    requires |hh| == 2 && ':' !in hh && ':' !in mm
    ensures Split(hh + [':'] + mm, ":") == [hh, mm]
  {
    var s := hh + [':'] + mm;
    BeforeFirstChar(hh, ':', mm);
    var f := Find(s, ":");
    assert f == Some(2) by {
      assert OccursAt(s, ":", 2);
      assert !OccursAt(s, ":", 0) && !OccursAt(s, ":", 1);
    }
    assert s[3..] == mm;
    assert Find(mm, ":") == None by {
      ContainsChar(mm, ':');
    }
  }

  // ---------------------------------------------------------------- dates

  predicate IsLeapYear(y: int)
  {
    y % 4 == 0 && (y % 100 != 0 || y % 400 == 0)
  }

  function DaysInMonth(y: int, m: int): (n: int)
    requires 1 <= m <= 12
    ensures 28 <= n <= 31
  {
    if m == 2 then (if IsLeapYear(y) then 29 else 28)
    else if m == 4 || m == 6 || m == 9 || m == 11 then 30
    else 31
  }

  /** Days in the months of year `y` before month `m`. */
  function DaysBeforeMonth(y: int, m: int): int
    requires 1 <= m <= 12
  {
    if m == 1 then 0 else DaysBeforeMonth(y, m - 1) + DaysInMonth(y, m - 1)
  }

  /** Python's `date(y, m, d).toordinal()`: 0001-01-01 is day 1. */
  function Ordinal(y: int, m: int, d: int): int
    requires 1 <= m <= 12
  {
    var py := y - 1;
    365 * py + py / 4 - py / 100 + py / 400 + DaysBeforeMonth(y, m) + d
  }

  predicate IsValidDate(y: int, m: int, d: int)
  {
    1 <= y <= 9999 && 1 <= m <= 12 && 1 <= d <= DaysInMonth(y, m)
  }

  /** The instant of a local date and time of day. */
  function InstantOf(y: int, m: int, d: int, tod: TimeOfDay): (t: int)
    requires IsValidDate(y, m, d)
    ensures SecondOfDay(t) == Offset(tod)
  {
    (Ordinal(y, m, d) - 1) * DaySeconds + Offset(tod)
  }

  predicate AllDigits(s: string)
  {
    forall k :: 0 <= k < |s| ==> IsDigit(s[k])
  }

  /** `datetime.strptime(s, "%Y-%m-%d %H:%M")` for the canonical layout
      `YYYY-MM-DD HH:MM`, with Python's calendar checks; None where
      Python raises ValueError. */
  function ParseDateTime(s: string): (r: Option<int>)
    ensures r.Some? ==> SecondOfDay(r.value) % MinuteSeconds == 0
  {
    if |s| == 16 && s[4] == '-' && s[7] == '-' && s[10] == ' ' && s[13] == ':'
       && AllDigits(s[..4]) && AllDigits(s[5..7]) && AllDigits(s[8..10])
       && AllDigits(s[11..13]) && AllDigits(s[14..])
    then
      var y, m, d := DigitsValue(s[..4]), DigitsValue(s[5..7]), DigitsValue(s[8..10]);
      var hh, mm := DigitsValue(s[11..13]), DigitsValue(s[14..]);
      if IsValidDate(y, m, d) && hh < 24 && mm < 60 then Some(InstantOf(y, m, d, TimeOfDay(hh, mm)))
      else None
    else None
  }

  function Pad4(n: nat): (s: string)
    requires n < 10000
    ensures |s| == 4 && AllDigits(s)
  {
    [DigitChar(n / 1000), DigitChar(n / 100 % 10), DigitChar(n / 10 % 10), DigitChar(n % 10)]
  }

  /** The `YYYY-MM-DD HH:MM` spelling of a local date and time. */
  function FormatDateTime(y: nat, m: nat, d: nat, tod: TimeOfDay): string
    requires IsValidDate(y, m, d)
  {
    Pad4(y) + "-" + Pad2(m) + "-" + Pad2(d) + " " + FormatHhmm(tod)
  }

  lemma Pad4Value(n: nat)
    requires n < 10000
    ensures DigitsValue(Pad4(n)) == n
  {
    var s := Pad4(n);
    var a, b, c, d := n / 1000, n / 100 % 10, n / 10 % 10, n % 10;
    assert s[..1][..0] == [];
    assert s[..2][..1] == s[..1] && s[..3][..2] == s[..2] && s[..4] == s;
    assert DigitsValue(s[..1]) == a;
    assert DigitsValue(s[..2]) == 10 * a + b;
    assert DigitsValue(s[..3]) == 100 * a + 10 * b + c;
    assert DigitsValue(s) == 1000 * a + 100 * b + 10 * c + d;
    FourDigits(n);
  }

  lemma FourDigits(n: nat)
    requires n < 10000
    ensures 1000 * (n / 1000) + 100 * (n / 100 % 10) + 10 * (n / 10 % 10) + n % 10 == n
  {
    var tens, hundreds := n / 10, n / 100;
    assert hundreds == tens / 10;
    assert n / 1000 == hundreds / 10;
    assert n == 10 * tens + n % 10;
    assert tens == 10 * hundreds + tens % 10;
    assert hundreds == 10 * (n / 1000) + hundreds % 10;
  }

  lemma Pad2Value(n: nat)
    requires n < 100
    ensures DigitsValue(Pad2(n)) == n
  {
    var s := Pad2(n);
    assert s[..1][..0] == [];
    assert DigitsValue(s[..1]) == n / 10;
  }

  /** A digit is the spelling of its own value. */
  lemma DigitCharOfValue(c: char)
    requires IsDigit(c)
    ensures DigitChar(DigitValue(c)) == c
  {
  }

  /** Two digits are the zero-padded spelling of their value. */
  lemma Pad2OfDigits(s: string)
    requires |s| == 2 && AllDigits(s)
    ensures DigitsValue(s) < 100 && Pad2(DigitsValue(s)) == s
  {
    var a, b := DigitValue(s[0]), DigitValue(s[1]);
    assert s[..1][..0] == [] && s[..|s| - 1] == s[..1];
    assert DigitsValue(s[..1]) == a;
    assert DigitsValue(s) == 10 * a + b;
    DigitCharOfValue(s[0]);
    DigitCharOfValue(s[1]);
  }

  /** Four digits are the zero-padded spelling of their value. */
  lemma Pad4OfDigits(s: string)
    requires |s| == 4 && AllDigits(s)
    ensures DigitsValue(s) < 10000 && Pad4(DigitsValue(s)) == s
  {
    var a, b, c, d := DigitValue(s[0]), DigitValue(s[1]), DigitValue(s[2]), DigitValue(s[3]);
    assert s[..1][..0] == [];
    assert s[..2][..1] == s[..1] && s[..3][..2] == s[..2] && s[..4] == s;
    assert DigitsValue(s[..1]) == a;
    assert DigitsValue(s[..2]) == 10 * a + b;
    assert DigitsValue(s[..3]) == 100 * a + 10 * b + c;
    assert DigitsValue(s) == 1000 * a + 100 * b + 10 * c + d;
    DecimalDigitsOf(a, b, c, d);
    DigitCharOfValue(s[0]);
    DigitCharOfValue(s[1]);
    DigitCharOfValue(s[2]);
    DigitCharOfValue(s[3]);
  }

  /** The decimal digits of `abcd` are `a`, `b`, `c` and `d`. */
  lemma DecimalDigitsOf(a: nat, b: nat, c: nat, d: nat)
    requires a < 10 && b < 10 && c < 10 && d < 10
    ensures var n := 1000 * a + 100 * b + 10 * c + d;
      n < 10000 && n / 1000 == a && n / 100 % 10 == b && n / 10 % 10 == c && n % 10 == d
  {
    var n := 1000 * a + 100 * b + 10 * c + d;
    assert n / 10 == 100 * a + 10 * b + c;
    assert n / 100 == 10 * a + b;
  }

  /** `strptime` accepts only the layout `YYYY-MM-DD HH:MM` of a valid date
      and time: whatever parses is the spelling of a date and time, and
      parses as its instant. */
  lemma ParsedDateTimeIsFormatted(s: string) returns (y: nat, m: nat, d: nat, tod: TimeOfDay)
    requires ParseDateTime(s).Some?
    ensures IsValidDate(y, m, d) && s == FormatDateTime(y, m, d, tod)
    ensures ParseDateTime(s) == Some(InstantOf(y, m, d, tod))
  {
    y, m, d := DigitsValue(s[..4]), DigitsValue(s[5..7]), DigitsValue(s[8..10]);
    tod := TimeOfDay(DigitsValue(s[11..13]), DigitsValue(s[14..]));
    Pad4OfDigits(s[..4]);
    Pad2OfDigits(s[5..7]);
    Pad2OfDigits(s[8..10]);
    Pad2OfDigits(s[11..13]);
    Pad2OfDigits(s[14..]);
    assert s == s[..4] + [s[4]] + s[5..7] + [s[7]] + s[8..10] + [s[10]] + s[11..13] + [s[13]] + s[14..];
  }

  /** Every valid date and time written as `YYYY-MM-DD HH:MM` reads back as
      its instant. */
  lemma ParseFormatDateTime(y: nat, m: nat, d: nat, tod: TimeOfDay)
    requires IsValidDate(y, m, d)
    ensures ParseDateTime(FormatDateTime(y, m, d, tod)) == Some(InstantOf(y, m, d, tod))
  {
    var s := FormatDateTime(y, m, d, tod);
    assert s[..4] == Pad4(y);
    assert s[5..7] == Pad2(m);
    assert s[8..10] == Pad2(d);
    assert s[11..13] == Pad2(tod.hour);
    assert s[14..] == Pad2(tod.minute);
    Pad4Value(y);
    Pad2Value(m);
    Pad2Value(d);
    Pad2Value(tod.hour);
    Pad2Value(tod.minute);
  }

  /** The first instant of the calendar is a Monday, and so is 2001-01-01. */
  lemma EpochIsMonday()
    ensures Weekday(InstantOf(1, 1, 1, TimeOfDay(0, 0))) == 0
    ensures Weekday(InstantOf(2001, 1, 1, TimeOfDay(0, 0))) == 0
  {
  }

  // ---------------------------------------------------------------- _next_weekday_datetime

  /** A weekday number is its own residue; as a call it keeps `%` out of
      the proofs that use it. */
  lemma WeekdayNumberModSeven(wd: int)
    requires 0 <= wd < 7
    ensures wd % 7 == wd
  {
  }

  /** `t` falls on weekday `wd` at time of day `tod`, with zero seconds. */
  predicate IsOccurrence(t: int, wd: int, tod: TimeOfDay)
  {
    Weekday(t) == wd && SecondOfDay(t) == Offset(tod)
  }

  lemma DayDecomposition(t: int)
    ensures t == (t / DaySeconds) * DaySeconds + SecondOfDay(t)
  {
  }

  lemma DayOf(day: int, offset: int)
    requires 0 <= offset < DaySeconds
    ensures (day * DaySeconds + offset) / DaySeconds == day
    ensures SecondOfDay(day * DaySeconds + offset) == offset
  {
  }

  /** Two instants at the same second of the day are a whole number of days
      apart, so an earlier one is at least a day earlier. */
  lemma SameTimeOfDayDayApart(t: int, r: int)
    requires SecondOfDay(t) == SecondOfDay(r) && t < r
    ensures t <= r - DaySeconds
  {
    DayDecomposition(t);
    DayDecomposition(r);
    assert r - t == (r / DaySeconds - t / DaySeconds) * DaySeconds;
  }

  /** Two occurrences of the same weekday and time are a whole number of
      weeks apart, so an earlier one is at least a week earlier. */
  lemma OccurrencesWeekApart(t: int, r: int, wd: int, tod: TimeOfDay)
    requires IsOccurrence(t, wd, tod) && IsOccurrence(r, wd, tod) && t < r
    ensures t <= r - WeekSeconds
  {
    var dt, dr := t / DaySeconds, r / DaySeconds;
    DayDecomposition(t);
    DayDecomposition(r);
    assert dt < dr;
    assert dt % 7 == dr % 7;
    assert dt == 7 * (dt / 7) + dt % 7;
    assert dr == 7 * (dr / 7) + dr % 7;
    assert dr - dt == 7 * (dr / 7 - dt / 7);
    assert dr - dt >= 7;
  }

  /** `_next_weekday_datetime(target_wd, hhmm, now)`: move forward
      `(target_wd - now.weekday()) % 7` days, set the time of day, and add a
      week if that is not after `now`. The result is the first instant after
      `now` on that weekday at that time: it lies in the week after `now`, and
      nothing between `now` and it qualifies. */
  function NextWeekdayInstant(targetWd: int, tod: TimeOfDay, now: int): (r: int)
    ensures now < r <= now + WeekSeconds
    ensures IsOccurrence(r, targetWd % 7, tod)
    ensures forall t :: now < t < r ==> !IsOccurrence(t, targetWd % 7, tod)
  {
    var day := now / DaySeconds;
    var daysAhead := (targetWd - Weekday(now)) % 7;
    var candidate := (day + daysAhead) * DaySeconds + Offset(tod);
    var r := if candidate <= now then candidate + WeekSeconds else candidate;
    NextWeekdayInstantCorrect(targetWd, tod, now, day, daysAhead, candidate, r);
    r
  }

  lemma NextWeekdayInstantCorrect(targetWd: int, tod: TimeOfDay, now: int, day: int, daysAhead: int, candidate: int, r: int)
    requires day == now / DaySeconds && daysAhead == (targetWd - Weekday(now)) % 7
    requires candidate == (day + daysAhead) * DaySeconds + Offset(tod)
    requires r == if candidate <= now then candidate + WeekSeconds else candidate
    ensures now < r <= now + WeekSeconds
    ensures IsOccurrence(r, targetWd % 7, tod)
    ensures forall t :: now < t < r ==> !IsOccurrence(t, targetWd % 7, tod)
  {
    var wd := targetWd % 7;
    DayDecomposition(now);
    DayOf(day + daysAhead, Offset(tod));
    assert (day + daysAhead) % 7 == wd by {
      assert day == 7 * (day / 7) + Weekday(now);
      assert targetWd - Weekday(now) == 7 * ((targetWd - Weekday(now)) / 7) + daysAhead;
      assert targetWd == 7 * (targetWd / 7) + wd;
      assert day + daysAhead == 7 * (day / 7 + targetWd / 7 - (targetWd - Weekday(now)) / 7) + wd;
    }
    assert IsOccurrence(candidate, wd, tod);
    if candidate <= now {
      DayOf(day + daysAhead + 7, Offset(tod));
      assert r == (day + daysAhead + 7) * DaySeconds + Offset(tod);
      assert (day + daysAhead + 7) % 7 == wd;
    }
    assert IsOccurrence(r, wd, tod);
    forall t | now < t < r
      ensures !IsOccurrence(t, wd, tod)
    {
      if IsOccurrence(t, wd, tod) {
        OccurrencesWeekApart(t, r, wd, tod);
      }
    }
  }
}
