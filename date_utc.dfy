/** ECMAScript's `Date.UTC` (section 21.4.1 of ECMA-262: Day, DayFromYear,
    MakeDay, MakeTime, MakeDate and MakeFullYear) over integers, as used by
    `monthRangeUtc`. A time value is a number of milliseconds since
    1970-01-01T00:00:00Z in the proleptic Gregorian calendar. Months are
    0-based and any integer month rolls over into neighbouring years. */
module DateUtc {

  /** Gregorian leap years: every fourth year, except centuries not
      divisible by 400. */
  predicate IsLeapYear(y: int)
  {
    y % 4 == 0 && (y % 100 != 0 || y % 400 == 0)
  }

  function DaysInYear(y: int): int
  {
    if IsLeapYear(y) then 366 else 365
  }

  /** The day number of January 1st of year `y` (DayFromYear). Dafny's `/`
      by a positive constant is floor division, as the standard requires. */
  function DayFromYear(y: int): int
  {
    365 * (y - 1970) + (y - 1969) / 4 - (y - 1901) / 100 + (y - 1601) / 400
  }

  /** The length of month `mn` (0 = January) of year `y`. */
  function DaysInMonth(y: int, mn: int): int
    requires 0 <= mn < 12
  {
    if mn == 1 then (if IsLeapYear(y) then 29 else 28)
    else if mn == 3 || mn == 5 || mn == 8 || mn == 10 then 30
    else 31
  }

  /** The days of year `y` before month `mn`: the month boundaries of
      MonthFromTime. */
  function DaysBeforeMonth(y: int, mn: int): int
    requires 0 <= mn < 12
  {
    var common :=
      if mn < 6 then
        (if mn < 3 then (if mn == 0 then 0 else if mn == 1 then 31 else 59)
         else (if mn == 3 then 90 else if mn == 4 then 120 else 151))
      else
        (if mn < 9 then (if mn == 6 then 181 else if mn == 7 then 212 else 243)
         else (if mn == 9 then 273 else if mn == 10 then 304 else 334));
    common + (if mn >= 2 && IsLeapYear(y) then 1 else 0)
  }

  /** MakeDay: the day number of day `date` of month `month` of `year`; the
      month is first folded into the year with floor division and modulo,
      and day 1 of that month is then moved by `date - 1` days. */
  function MakeDay(year: int, month: int, date: int): int
  {
    var ym := year + month / 12;
    var mn := month % 12;
    DayFromYear(ym) + DaysBeforeMonth(ym, mn) + date - 1
  }

  function MakeTime(hour: int, min: int, sec: int, ms: int): int
  {
    hour * 3600000 + min * 60000 + sec * 1000 + ms
  }

  /** MakeDate: a day number and a time of day, in milliseconds (a day is
      86400000 ms). */
  function MakeDate(day: int, time: int): int
  {
    day * 86400000 + time
  }

  /** MakeFullYear: a year from 0 to 99 means 1900 to 1999. */
  function FullYear(y: int): int
  {
    if 0 <= y <= 99 then 1900 + y else y
  }

  /** `Date.UTC(year, month, date, hours, minutes, seconds)`: the start of
      its day plus the time of day, where an hour is 3600000 ms, a minute
      60000 ms and a second 1000 ms. */
  function DateUtcOf(year: int, month: int, date: int, hours: int, minutes: int, seconds: int): (t: int)
    ensures t == MakeDay(FullYear(year), month, date) * 86400000 + hours * 3600000 + minutes * 60000 + seconds * 1000
  {
    MakeDate(MakeDay(FullYear(year), month, date), MakeTime(hours, minutes, seconds, 0))
  }

  /** The length of month `month` counted from January of `y`, once it has
      rolled over into its own year. */
  function MonthLength(y: int, month: int): int
  {
    DaysInMonth(y + month / 12, month % 12)
  }

  // ---------------------------------------------------------------------
  // The calendar the formulas describe

  /** The epoch, 1970-01-01, is day 0. */
  lemma EpochIsDayZero()
    ensures MakeDay(1970, 0, 1) == 0
  {
  }

  /** Consecutive New Year's days are a year apart: DayFromYear agrees with
      the leap-year rule. */
  lemma YearLength(y: int)
    ensures DayFromYear(y + 1) - DayFromYear(y) == DaysInYear(y)
  {
    FloorStep4(y);
    FloorStep100(y);
    FloorStep400(y);
    var a, b, c := (y - 1969) / 4, (y - 1901) / 100, (y - 1601) / 400;
    assert DayFromYear(y) == 365 * (y - 1970) + a - b + c;
    assert DayFromYear(y + 1) == 365 * (y - 1969) + (y - 1968) / 4 - (y - 1900) / 100 + (y - 1600) / 400;
    CenturiesAreQuadrennial(y);
  }

  /** A year divisible by 400 is divisible by 100, and one divisible by 100
      is divisible by 4. */
  lemma CenturiesAreQuadrennial(y: int)
    ensures y % 400 == 0 ==> y % 100 == 0
    ensures y % 100 == 0 ==> y % 4 == 0
  {
    if y % 400 == 0 {
      var m, t := 4 * (y / 400), y / 100;
      assert y % 100 == 100 * (m - t);
    }
    if y % 100 == 0 {
      var m, t := 25 * (y / 100), y / 4;
      assert y % 4 == 4 * (m - t);
    }
  }

  /** The three counters of DayFromYear step up exactly in years divisible
      by 4, 100 and 400 respectively. */
  lemma FloorStep4(y: int)
    ensures (y - 1968) / 4 == (y - 1969) / 4 + (if y % 4 == 0 then 1 else 0)
  {
    var q := (y - 1969) / 4;
    assert y - 1969 == 4 * q + (y - 1969) % 4;
  }

  lemma FloorStep100(y: int)
    ensures (y - 1900) / 100 == (y - 1901) / 100 + (if y % 100 == 0 then 1 else 0)
  {
    var q := (y - 1901) / 100;
    assert y - 1901 == 100 * q + (y - 1901) % 100;
  }

  lemma FloorStep400(y: int)
    ensures (y - 1600) / 400 == (y - 1601) / 400 + (if y % 400 == 0 then 1 else 0)
  {
    var q := (y - 1601) / 400;
    assert y - 1601 == 400 * q + (y - 1601) % 400;
  }

  /** The month table partitions the year. */
  lemma MonthTable(y: int, mn: int)
    requires 0 <= mn < 12
    ensures DaysBeforeMonth(y, 0) == 0
    ensures mn < 11 ==> DaysBeforeMonth(y, mn + 1) == DaysBeforeMonth(y, mn) + DaysInMonth(y, mn)
    ensures mn == 11 ==> DaysBeforeMonth(y, mn) + DaysInMonth(y, mn) == DaysInYear(y)
  {
  }

  /** Every month lasts 28 to 31 days, February 29 days exactly in leap
      years. */
  lemma MonthLengthBounds(y: int, mn: int)
    requires 0 <= mn < 12
    ensures 28 <= DaysInMonth(y, mn) <= 31
    ensures DaysInMonth(y, 1) == 29 <==> IsLeapYear(y)
  {
  }

  /** February, counted from January of `y`, has 29 days exactly in leap
      years; the twelfth month, December, has 31. */
  lemma FebruaryAndDecember(y: int)
    ensures MonthLength(y, 1) == (if IsLeapYear(y) then 29 else 28)
    ensures MonthLength(y, 11) == 31
  {
  }

  /** So does every month, rolled over or not. */
  lemma MonthLengthRange(year: int, month: int)
    ensures 28 <= MonthLength(year, month) <= 31
  {
    MonthLengthBounds(year + month / 12, month % 12);
  }

  /** MakeDay only depends on the month counted from year 0. */
  lemma MakeDayAbsolute(year: int, month: int, date: int)
    ensures MakeDay(year, month, date) == MakeDay(0, 12 * year + month, date)
  {
    assert (12 * year + month) / 12 == year + month / 12;
    assert (12 * year + month) % 12 == month % 12;
  }

  /** Day 1 of the next month comes one month length after day 1 of this
      month, across year ends too. */
  lemma NextMonth(year: int, month: int)
    ensures MakeDay(year, month + 1, 1) == MakeDay(year, month, 1) + MonthLength(year, month)
  {
    var ym, mn := year + month / 12, month % 12;
    if mn < 11 {
      assert (month + 1) / 12 == month / 12 && (month + 1) % 12 == mn + 1;
      MonthTable(ym, mn);
    } else {
      assert (month + 1) / 12 == month / 12 + 1 && (month + 1) % 12 == 0;
      MonthTable(ym, mn);
      YearLength(ym);
    }
  }

  /** Day numbers within a month are consecutive, past its end too. */
  lemma DayShift(year: int, month: int, date: int, k: int)
    ensures MakeDay(year, month, date + k) == MakeDay(year, month, date) + k
  {
  }

  /** Day 0 of a month is the last day of the month before. */
  lemma DayZero(year: int, month: int)
    ensures MakeDay(year, month + 1, 0) == MakeDay(year, month, 1) + MonthLength(year, month) - 1
  {
    NextMonth(year, month);
  }

  /** The last day of a month, counted as day 0 of the next month. */
  lemma LastDay(year: int, month: int)
    ensures MakeDay(year, month + 1, 0) == MakeDay(year, month, MonthLength(year, month))
  {
    DayZero(year, month);
    DayShift(year, month, 1, MonthLength(year, month) - 1);
  }

  /** In milliseconds: 23:59:59 of day 0 of a month is one second before
      midnight of its day 1 ... */
  lemma DayZeroEndMs(year: int, month: int)
    ensures MakeDay(year, month, 0) * 86400000 + 86399000 + 1000 == MakeDay(year, month, 1) * 86400000
  {
    DayShift(year, month, 0, 1);
  }

  /** ... and the month from midnight of its day 1 to 23:59:59 of its last
      day lasts its length in days less one second. */
  lemma MonthSpanMs(year: int, month: int)
    ensures MakeDay(year, month + 1, 0) * 86400000 + 86399000
         == MakeDay(year, month, 1) * 86400000 + MonthLength(year, month) * 86400000 - 1000
  {
    DayZero(year, month);
  }

  /** A month starts before 23:59:59 of its last day, counted as day 0 of
      the month after it. */
  lemma MonthStartBeforeEnd(year: int, month: int)
    ensures MakeDay(year, month, 1) * 86400000 < MakeDay(year, month + 1, 0) * 86400000 + 86399000
  {
    DayZero(year, month);
    MonthLengthRange(year, month);
    var a, b := MakeDay(year, month, 1), MakeDay(year, month + 1, 0);
    assert a <= b;
    assert b * 86400000 - a * 86400000 == (b - a) * 86400000;
  }

  /** The same in milliseconds. */
  lemma MonthStartMsMonotone(year: int, a: int, b: int)
    requires a <= b
    ensures MakeDay(year, a, 1) * 86400000 <= MakeDay(year, b, 1) * 86400000
  {
    MonthStartMonotone(year, a, b);
  }

  /** Later months start later, however far the months roll over. */
  lemma {:induction false} MonthStartMonotone(year: int, a: int, b: int)
    requires a <= b
    ensures MakeDay(year, a, 1) <= MakeDay(year, b, 1)
    decreases b - a
  {
    if a < b {
      MonthStartMonotone(year, a, b - 1);
      NextMonth(year, b - 1);
      MonthLengthRange(year, b - 1);
    }
  }
}
