/**
 * Calendar days as the case tracker's date helpers (js/utils.js) see them.
 *
 * A JavaScript `Date` built with `new Date(y, m, d)` and moved with `setMonth` and
 * `setDate` is, at local midnight, a proleptic-Gregorian calendar day. Such a day is
 * modelled as a `Date`: a year, a month 1..12 and a day that exists in that month.
 * As in ECMAScript, each day has a day number counted from 1970-01-01 (day 0, a Thursday),
 * and the weekday and the distance between two days are integer arithmetic on day numbers.
 * JavaScript's normalisation of an out-of-range day of month (ECMAScript MakeDay) is
 * `Normalize`, which carries the overflow one month at a time; an Invalid Date is
 * `Moment.InvalidDate`.
 */
module Dates {
  import opened JsValues

  datatype Ymd = Ymd(year: int, month: int, day: int)

  predicate IsLeapYear(y: int)
  {
    y % 4 == 0 && (y % 100 != 0 || y % 400 == 0)
  }

  function YearLength(y: int): int
  {
    if IsLeapYear(y) then 366 else 365
  }

  function DaysInMonth(y: int, m: int): int
    requires 1 <= m <= 12
  {
    if m == 2 then (if IsLeapYear(y) then 29 else 28)
    else if m == 4 || m == 6 || m == 9 || m == 11 then 30
    else 31
  }

  predicate IsCalendarDate(d: Ymd)
  {
    1 <= d.month <= 12 && 1 <= d.day <= DaysInMonth(d.year, d.month)
  }

  /** A day of the proleptic Gregorian calendar. */
  type Date = d: Ymd | IsCalendarDate(d) witness Ymd(1970, 1, 1)

  /** ECMAScript DayFromYear: days from 1970-01-01 to January 1 of year `y`, one year at a time. */
  function DaysBeforeYear(y: int): int
    decreases if y >= 1970 then y - 1970 else 1970 - y
  {
    if y == 1970 then 0
    else if y > 1970 then DaysBeforeYear(y - 1) + YearLength(y - 1)
    else DaysBeforeYear(y + 1) - YearLength(y)
  }

  /** Days from January 1 of year `y` to the first day of month `m`. */
  function DaysBeforeMonth(y: int, m: int): int
    requires 1 <= m <= 12
  {
    if m == 1 then 0 else DaysBeforeMonth(y, m - 1) + DaysInMonth(y, m - 1)
  }

  /** The day number of `d`: 0 for 1970-01-01, one more for each following day. */
  function DayNumber(d: Date): int
  {
    DaysBeforeYear(d.year) + DaysBeforeMonth(d.year, d.month) + d.day - 1
  }

  // ---------------------------------------------------------------------------
  // Months and years fit together
  // ---------------------------------------------------------------------------

  lemma YearStep(y: int)
    ensures DaysBeforeYear(y + 1) == DaysBeforeYear(y) + YearLength(y)
  {
  }

  /** December ends the year. */
  lemma DecemberEnds(y: int)
    ensures DaysBeforeMonth(y, 12) + DaysInMonth(y, 12) == YearLength(y)
  {
    var leap := if IsLeapYear(y) then 1 else 0;
    assert DaysBeforeMonth(y, 2) == 31;
    assert DaysBeforeMonth(y, 3) == 59 + leap;
    assert DaysBeforeMonth(y, 4) == 90 + leap;
    assert DaysBeforeMonth(y, 5) == 120 + leap;
    assert DaysBeforeMonth(y, 6) == 151 + leap;
    assert DaysBeforeMonth(y, 7) == 181 + leap;
    assert DaysBeforeMonth(y, 8) == 212 + leap;
    assert DaysBeforeMonth(y, 9) == 243 + leap;
    assert DaysBeforeMonth(y, 10) == 273 + leap;
    assert DaysBeforeMonth(y, 11) == 304 + leap;
    assert DaysBeforeMonth(y, 12) == 334 + leap;
  }

  /** A month ends no later than a later month starts. */
  lemma {:induction false} MonthsIncrease(y: int, m1: int, m2: int)
    requires 1 <= m1 < m2 <= 12
    ensures DaysBeforeMonth(y, m1) + DaysInMonth(y, m1) <= DaysBeforeMonth(y, m2)
    decreases m2 - m1
  {
    if m1 + 1 < m2 {
      MonthsIncrease(y, m1 + 1, m2);
    }
  }

  lemma {:induction false} DaysBeforeMonthNonNegative(y: int, m: int)
    requires 1 <= m <= 12
    ensures DaysBeforeMonth(y, m) >= 0
  {
    if m > 1 {
      DaysBeforeMonthNonNegative(y, m - 1);
    }
  }

  /** Every month ends within its year. */
  lemma MonthWithinYear(y: int, m: int)
    requires 1 <= m <= 12
    ensures DaysBeforeMonth(y, m) + DaysInMonth(y, m) <= YearLength(y)
  {
    DecemberEnds(y);
    if m < 12 {
      MonthsIncrease(y, m, 12);
    }
  }

  /** A year ends no later than a later year starts. */
  lemma {:induction false} YearsIncrease(y: int, z: int)
    requires y < z
    ensures DaysBeforeYear(y) + YearLength(y) <= DaysBeforeYear(z)
    decreases z - y
  {
    YearStep(y);
    if y + 1 < z {
      YearsIncrease(y + 1, z);
      YearStep(y + 1);
    }
  }

  /** ECMAScript's closed form of DayFromYear: 365 days a year, plus leap days, with floor division. */
  function DayFromYear(y: int): int
  {
    365 * (y - 1970) + (y - 1969) / 4 - (y - 1901) / 100 + (y - 1601) / 400
  }

  lemma DayFromYearStep(y: int)
    ensures DayFromYear(y + 1) == DayFromYear(y) + YearLength(y)
  {
    MultipleStep(y + 1 - 1969, 4);
    MultipleStep(y + 1 - 1901, 100);
    MultipleStep(y + 1 - 1601, 400);
  }

  /** Among the numbers up to `a`, one more is a multiple of `k` than up to `a - 1` exactly when `a` is one. */
  lemma MultipleStep(a: int, k: int)
    requires k == 4 || k == 100 || k == 400
    ensures a / k - (a - 1) / k == (if a % k == 0 then 1 else 0)
  {
  }

  /** Counting year by year agrees with ECMAScript's closed form. */
  lemma {:induction false} DaysBeforeYearFormula(y: int)
    ensures DaysBeforeYear(y) == DayFromYear(y)
    decreases if y >= 1970 then y - 1970 else 1970 - y
  {
    if y > 1970 {
      DaysBeforeYearFormula(y - 1);
      DayFromYearStep(y - 1);
    } else if y < 1970 {
      DaysBeforeYearFormula(y + 1);
      DayFromYearStep(y);
    }
  }

  /** A day lies within its own year's range of day numbers. */
  lemma DayNumberInYear(d: Date)
    ensures DaysBeforeYear(d.year) <= DayNumber(d) < DaysBeforeYear(d.year) + YearLength(d.year)
  {
    MonthWithinYear(d.year, d.month);
    DaysBeforeMonthNonNegative(d.year, d.month);
  }

  /** Different days have different day numbers. */
  lemma DayNumberInjective(a: Date, b: Date)
    requires DayNumber(a) == DayNumber(b)
    ensures a == b
  {
    DayNumberInYear(a);
    DayNumberInYear(b);
    if a.year < b.year {
      YearsIncrease(a.year, b.year);
    } else if b.year < a.year {
      YearsIncrease(b.year, a.year);
    }
    if a.month < b.month {
      MonthsIncrease(a.year, a.month, b.month);
    } else if b.month < a.month {
      MonthsIncrease(a.year, b.month, a.month);
    }
  }

  /** Day numbers order days as the calendar does, year first. */
  lemma DayNumberOrdersYears(a: Date, b: Date)
    requires DayNumber(a) <= DayNumber(b)
    ensures a.year <= b.year
  {
    DayNumberInYear(a);
    DayNumberInYear(b);
    if b.year < a.year {
      YearsIncrease(b.year, a.year);
    }
  }

  // ---------------------------------------------------------------------------
  // Carrying an out-of-range day of month (ECMAScript MakeDay)
  // ---------------------------------------------------------------------------

  /** The first day of the month after month `m` of year `y`. */
  function FollowingMonth(y: int, m: int): (f: Date)
    requires 1 <= m <= 12
    ensures f.day == 1
    ensures DayNumber(f) == DaysBeforeYear(y) + DaysBeforeMonth(y, m) + DaysInMonth(y, m)
  {
    if m == 12 then
      DecemberEnds(y);
      Ymd(y + 1, 1, 1)
    else
      Ymd(y, m + 1, 1)
  }

  /** The first day of the month before month `m` of year `y`. */
  function PrecedingMonth(y: int, m: int): (p: Date)
    requires 1 <= m <= 12
    ensures p.day == 1 && FollowingMonth(p.year, p.month) == Ymd(y, m, 1)
  {
    if m == 1 then Ymd(y - 1, 12, 1) else Ymd(y, m - 1, 1)
  }

  /**
   * Day `dt` of month `m` of year `y`, an overflow in either direction carried into the
   * following or preceding months, one month at a time.
   */
  function Normalize(y: int, m: int, dt: int): (d: Date)
    requires 1 <= m <= 12
    ensures DayNumber(d) == DaysBeforeYear(y) + DaysBeforeMonth(y, m) + dt - 1
    decreases if dt < 1 then 1 else 0, if dt < 1 then -dt else dt
  {
    if dt < 1 then
      var p := PrecedingMonth(y, m);
      Normalize(p.year, p.month, dt + DaysInMonth(p.year, p.month))
    else if dt <= DaysInMonth(y, m) then
      Ymd(y, m, dt)
    else
      var f := FollowingMonth(y, m);
      Normalize(f.year, f.month, dt - DaysInMonth(y, m))
  }

  /** The day with day number `n`. */
  function FromDayNumber(n: int): (d: Date)
    ensures DayNumber(d) == n
  {
    Normalize(1970, 1, n + 1)
  }

  lemma FromDayNumberOfDayNumber(d: Date)
    ensures FromDayNumber(DayNumber(d)) == d
  {
    DayNumberInjective(FromDayNumber(DayNumber(d)), d);
  }

  // ---------------------------------------------------------------------------
  // JavaScript Date construction and mutation
  // ---------------------------------------------------------------------------

  /** The first day of month index `m0` (0 = January) of year `y`, months overflowing into years. */
  function FirstOfMonth(y: int, m0: int): (d: Date)
    ensures d.day == 1
    decreases if m0 < 0 then 1 else 0, if m0 < 0 then -m0 else m0
  {
    if m0 < 0 then FirstOfMonth(y - 1, m0 + 12)
    else if m0 < 12 then Ymd(y, m0 + 1, 1)
    else FirstOfMonth(y + 1, m0 - 12)
  }

  /** Carrying months into years is floor division by 12. */
  lemma {:induction false} FirstOfMonthDivides(y: int, m0: int)
    ensures FirstOfMonth(y, m0) == Ymd(y + m0 / 12, m0 % 12 + 1, 1)
    decreases if m0 < 0 then 1 else 0, if m0 < 0 then -m0 else m0
  {
    if m0 < 0 {
      FirstOfMonthDivides(y - 1, m0 + 12);
    } else if m0 >= 12 {
      FirstOfMonthDivides(y + 1, m0 - 12);
    }
  }

  /** ECMAScript MakeDay: day `dt` of month index `m0` of year `y`, with any overflow carried over. */
  function MakeDay(y: int, m0: int, dt: int): (d: Date)
    ensures DayNumber(d) == DayNumber(FirstOfMonth(y, m0)) + dt - 1
  {
    var first := FirstOfMonth(y, m0);
    Normalize(first.year, first.month, dt)
  }

  /** The year `new Date(y, ...)` uses: 0..99 are read as 1900..1999. */
  function FullYear(y: int): int
  {
    if 0 <= y <= 99 then 1900 + y else y
  }

  /** `new Date(y, m0, dt)` */
  function NewDate(y: int, m0: int, dt: int): Date
  {
    MakeDay(FullYear(y), m0, dt)
  }

  /** `d.setMonth(m0)`: same year and day of month, month index `m0`, overflow carried over. */
  function SetMonth(d: Date, m0: int): Date
  {
    MakeDay(d.year, m0, d.day)
  }

  /** `d.setDate(dt)`: same year and month, day `dt`, overflow carried over. */
  function SetDate(d: Date, dt: int): (r: Date)
    ensures DayNumber(r) == DayNumber(d) + dt - d.day
  {
    Normalize(d.year, d.month, dt)
  }

  /** `addDays(date, n)` (js/utils.js): `setDate(getDate() + n)` on a copy. */
  function AddDays(date: Date, n: int): (r: Date)
    ensures DayNumber(r) == DayNumber(date) + n
  {
    SetDate(date, date.day + n)
  }

  /** `getDay()`: 0 for Sunday through 6 for Saturday (1970-01-01 was a Thursday). */
  function Weekday(d: Date): (w: int)
    ensures 0 <= w <= 6
  {
    (DayNumber(d) + 4) % 7
  }

  /** `n` days on, the weekday has moved on by `n` modulo 7. */
  lemma WeekdayAfter(a: Date, b: Date, n: int)
    requires DayNumber(b) == DayNumber(a) + n
    ensures Weekday(b) == (Weekday(a) + n) % 7
  {
    ModSevenShift(DayNumber(a) + 4, n);
  }

  lemma ModSevenShift(a: int, n: int)
    ensures (a + n) % 7 == (a % 7 + n) % 7
  {
    assert a == 7 * (a / 7) + a % 7;
  }

  /** `isSameDay(d1, d2)` (js/utils.js): same year, month and day of month. */
  function IsSameDay(d1: Date, d2: Date): (same: bool)
    ensures same <==> d1 == d2
  {
    d1.year == d2.year && d1.month == d2.month && d1.day == d2.day
  }

  /** Two days are the same day exactly when their day numbers agree. */
  lemma SameDayIffSameNumber(d1: Date, d2: Date)
    ensures IsSameDay(d1, d2) <==> DayNumber(d1) == DayNumber(d2)
  {
    if DayNumber(d1) == DayNumber(d2) {
      DayNumberInjective(d1, d2);
    }
  }

  /** `daysBetweenDates(start, end)` (js/utils.js): whole days from `start` to `end`, never negative. */
  function DaysBetweenDates(start: Date, end: Date): (n: int)
    ensures n >= 0
    ensures DayNumber(start) <= DayNumber(end) ==> DayNumber(start) + n == DayNumber(end)
    ensures DayNumber(end) <= DayNumber(start) ==> n == 0
  {
    var diff := DayNumber(end) - DayNumber(start);
    if diff < 0 then 0 else diff
  }

  /** Going forward `n` days and counting the days back gives `n`. */
  lemma DaysBetweenAddDays(a: Date, n: int)
    requires n >= 0
    ensures DaysBetweenDates(a, AddDays(a, n)) == n
  {
  }

  /**
   * `addMonthsSameDay(date, n)` (js/utils.js): `setMonth(getMonth() + n)` on a copy, and when
   * the day of month changed (the target month is too short) `setDate(0)`, the last day of
   * the month before.
   */
  function AddMonthsSameDay(date: Date, n: int): Date
  {
    var day := date.day;
    var d := SetMonth(date, (date.month - 1) + n);
    if d.day != day then SetDate(d, 0) else d
  }

  /**
   * `addMonthsSameDay` lands in the month `n` months on, on the same day of month when that
   * month has it and on its last day otherwise.
   */
  lemma AddMonthsSameDayLands(date: Date, n: int)
    ensures var target := FirstOfMonth(date.year, date.month - 1 + n);
            var dim := DaysInMonth(target.year, target.month);
            AddMonthsSameDay(date, n) == Ymd(target.year, target.month, if date.day <= dim then date.day else dim)
  {
    var m0 := date.month - 1 + n;
    var target := FirstOfMonth(date.year, m0);
    SameDayOrMonthEnd(target.year, target.month, date.day);
  }

  /** Day `day` of a month, corrected as `addMonthsSameDay` does, is `day` or the month's last day. */
  lemma SameDayOrMonthEnd(y: int, m: int, day: int)
    requires 1 <= m <= 12 && 1 <= day <= 31
    ensures var d := Normalize(y, m, day);
            var dim := DaysInMonth(y, m);
            (if d.day != day then SetDate(d, 0) else d) == Ymd(y, m, if day <= dim then day else dim)
  {
    var dim := DaysInMonth(y, m);
    if day > dim {
      var f := FollowingMonth(y, m);
      assert Normalize(y, m, day) == Normalize(f.year, f.month, day - dim);
      assert Normalize(f.year, f.month, day - dim) == Ymd(f.year, f.month, day - dim);
      assert SetDate(Ymd(f.year, f.month, day - dim), 0) == Normalize(y, m, dim);
    }
  }

  // ---------------------------------------------------------------------------
  // Parsing and formatting
  // ---------------------------------------------------------------------------

  /** A JavaScript Date value: a calendar day, or an Invalid Date (time value NaN). */
  datatype Moment = InvalidDate | At(date: Date)

  /** `s.split(sep)` for a one-character separator. */
  function Split(s: string, sep: char): (parts: seq<string>)
    ensures |parts| >= 1
  {
    if s == [] then [""]
    else
      var rest := Split(s[1..], sep);
      if s[0] == sep then [""] + rest else [[s[0]] + rest[0]] + rest[1..]
  }

  lemma {:induction false} SplitAfterField(a: string, sep: char, b: string)
    requires sep !in a
    ensures Split(a + [sep] + b, sep) == [a] + Split(b, sep)
    decreases |a|
  {
    if a != [] {
      assert (a + [sep] + b)[1..] == a[1..] + [sep] + b;
      SplitAfterField(a[1..], sep, b);
      assert [a[0]] + a[1..] == a;
    } else {
      assert (a + [sep] + b)[1..] == b;
    }
  }

  lemma {:induction false} SplitNoSeparator(a: string, sep: char)
    requires sep !in a
    ensures Split(a, sep) == [a]
    decreases |a|
  {
    if a != [] {
      SplitNoSeparator(a[1..], sep);
      assert [a[0]] + a[1..] == a;
    }
  }

  /**
   * `parseLocalDate("YYYY-MM-DD")` (js/utils.js): the first three '-'-separated fields read
   * with `Number`, then `new Date(y, m - 1, d)`; a missing or non-numeric field gives an
   * Invalid Date.
   */
  function ParseLocalDate(s: string): Moment
  {
    DateOfFields(Split(s, '-'))
  }

  /** The first three fields read with `Number`, a missing field being NaN, then `new Date(y, m - 1, d)`. */
  function DateOfFields(parts: seq<string>): Moment
    requires |parts| >= 1
  {
    DateOfNumbers(StrToNumber(parts[0]),
                  if |parts| > 1 then StrToNumber(parts[1]) else NaN,
                  if |parts| > 2 then StrToNumber(parts[2]) else NaN)
  }

  /** `new Date(y, m - 1, d)`, an Invalid Date when any of the three is NaN. */
  function DateOfNumbers(y: Number, m: Number, d: Number): Moment
  {
    if y.NaN? || m.NaN? || d.NaN? then InvalidDate
    else At(NewDate(y.value, m.value - 1, d.value))
  }

  /** `String(n).padStart(2, '0')` */
  function Pad2(n: int): string
  {
    var s := IntToString(n);
    if |s| < 2 then "0" + s else s
  }

  /** What an Invalid Date prints for each of its fields. */
  const NaNField := "NaN"

  /** `formatDate(date)` (js/utils.js): `YYYY-MM-DD`; an Invalid Date prints NaN in every field. */
  function FormatDate(m: Moment): string
  {
    match m
    case InvalidDate => NaNField + "-" + NaNField + "-" + NaNField
    case At(d) => IntToString(d.year) + "-" + Pad2(d.month) + "-" + Pad2(d.day)
  }

  const WeekdayNames: seq<string> :=
    ["Sunday", "Monday", "Tuesday", "Wednesday", "Thursday", "Friday", "Saturday"]

  /** `formatDateWithWeekday(date)` (js/utils.js): e.g. "Monday, 03/15/2025". */
  function FormatDateWithWeekday(m: Moment): string
  {
    match m
    case InvalidDate => "undefined, NaN/NaN/NaN"
    case At(d) => WeekdayNames[Weekday(d)] + ", " + Pad2(d.month) + "/" + Pad2(d.day) + "/" + IntToString(d.year)
  }

  /** A zero-padded `YYYY-MM-DD` string of a calendar day whose year has no leading zero. */
  predicate IsIsoDateString(s: string)
  {
    |s| == 10 && s[4] == '-' && s[7] == '-' && IsIsoFields(s[..4], s[5..7], s[8..])
  }

  /** Four year digits without a leading zero, two month digits and two day digits naming a calendar day. */
  predicate IsIsoFields(ys: string, ms: string, ds: string)
  {
    && |ys| == 4 && |ms| == 2 && |ds| == 2
    && AllDecimalDigits(ys) && AllDecimalDigits(ms) && AllDecimalDigits(ds)
    && ys[0] != '0'
    && IsCalendarDate(Ymd(DecimalValue(ys), DecimalValue(ms), DecimalValue(ds)))
  }

  function IsoFieldsDate(ys: string, ms: string, ds: string): Date
    requires IsIsoFields(ys, ms, ds)
  {
    Ymd(DecimalValue(ys), DecimalValue(ms), DecimalValue(ds))
  }

  lemma DashedPieces(s: string)
    requires |s| == 10 && s[4] == '-' && s[7] == '-'
    ensures s == s[..4] + "-" + s[5..7] + "-" + s[8..]
  {
  }

  lemma DigitsHaveNoDash(s: string)
    requires AllDecimalDigits(s)
    ensures '-' !in s
  {
    assert forall i :: 0 <= i < |s| ==> IsDecimalDigit(s[i]);
  }

  lemma SplitFields(ys: string, ms: string, ds: string)
    requires '-' !in ys && '-' !in ms && '-' !in ds
    ensures Split(ys + "-" + ms + "-" + ds, '-') == [ys, ms, ds]
  {
    assert ys + "-" + ms + "-" + ds == ys + ['-'] + (ms + ['-'] + ds);
    SplitAfterField(ys, '-', ms + ['-'] + ds);
    SplitAfterField(ms, '-', ds);
    SplitNoSeparator(ds, '-');
  }

  lemma Pad2OfTwoDigits(s: string)
    requires |s| == 2 && AllDecimalDigits(s)
    ensures Pad2(DecimalValue(s)) == s
  {
    if s[0] == '0' {
      var t := s[1..];
      assert DecimalValue(s) == DecimalValue(t) by {
        assert s[..1] == "0";
        assert DecimalValue(s[..1]) == 0 by { assert DecimalValue(s[..1]) == 10 * DecimalValue([]) + 0; }
        assert DecimalValue(t) == 10 * DecimalValue([]) + (s[1] as int - '0' as int);
      }
      NatToRadixOfDecimalValue(t);
      assert "0" + t == s;
    } else {
      NatToRadixOfDecimalValue(s);
    }
  }

  lemma FourDigitYear(ys: string)
    requires |ys| == 4 && AllDecimalDigits(ys) && ys[0] != '0'
    ensures DecimalValue(ys) >= 1000
  {
    assert ys[..3][..2] == ys[..2] && ys[..2][..1] == ys[..1] && ys[..1][..0] == [];
    assert DecimalValue(ys[..1]) == ys[0] as int - '0' as int >= 1;
    assert DecimalValue(ys[..2]) >= 10 * DecimalValue(ys[..1]);
    assert DecimalValue(ys[..3]) >= 10 * DecimalValue(ys[..2]);
    assert DecimalValue(ys) >= 10 * DecimalValue(ys[..3]);
  }

  /** `new Date(y, m - 1, d)` of a calendar day with a year of at least 100 is that day. */
  lemma NewDateOfDate(d: Date)
    requires d.year >= 100
    ensures NewDate(d.year, d.month - 1, d.day) == d
  {
    assert FirstOfMonth(d.year, d.month - 1) == Ymd(d.year, d.month, 1);
  }

  lemma ParseDigitFields(ys: string, ms: string, ds: string)
    requires IsIsoFields(ys, ms, ds)
    ensures DateOfFields([ys, ms, ds]) == At(IsoFieldsDate(ys, ms, ds))
  {
    DigitsParse(ys);
    DigitsParse(ms);
    DigitsParse(ds);
    FourDigitYear(ys);
    ReadDateFields(ys, ms, ds, IsoFieldsDate(ys, ms, ds));
  }

  lemma ParseIsoFields(ys: string, ms: string, ds: string)
    requires IsIsoFields(ys, ms, ds)
    ensures ParseLocalDate(ys + "-" + ms + "-" + ds) == At(IsoFieldsDate(ys, ms, ds))
  {
    DigitsHaveNoDash(ys);
    DigitsHaveNoDash(ms);
    DigitsHaveNoDash(ds);
    SplitFields(ys, ms, ds);
    ParseDigitFields(ys, ms, ds);
  }

  lemma FormatIsoFields(ys: string, ms: string, ds: string)
    requires IsIsoFields(ys, ms, ds)
    ensures FormatDate(At(IsoFieldsDate(ys, ms, ds))) == ys + "-" + ms + "-" + ds
  {
    FourDigitYear(ys);
    NatToRadixOfDecimalValue(ys);
    Pad2OfTwoDigits(ms);
    Pad2OfTwoDigits(ds);
  }

  /** Formatting a parsed zero-padded date string gives the string back. */
  lemma FormatParseRoundTrip(s: string)
    requires IsIsoDateString(s)
    ensures ParseLocalDate(s).At?
    ensures FormatDate(ParseLocalDate(s)) == s
  {
    DashedPieces(s);
    ParseIsoFields(s[..4], s[5..7], s[8..]);
    FormatIsoFields(s[..4], s[5..7], s[8..]);
  }

  /**
   * `formatDateWithWeekday` of a parsed zero-padded date string shows that date's weekday name,
   * then the string's own month, day and year digits in `MM/DD/YYYY` order.
   */
  lemma WeekdayFormatOfIsoString(s: string)
    requires IsIsoDateString(s)
    ensures ParseLocalDate(s).At?
    ensures FormatDateWithWeekday(ParseLocalDate(s))
      == WeekdayNames[Weekday(ParseLocalDate(s).date)] + ", " + s[5..7] + "/" + s[8..] + "/" + s[..4]
  {
    FormatParseRoundTrip(s);
    WeekdayFormatOfFormatted(ParseLocalDate(s), s);
  }

  /** The weekday format of a day whose `formatDate` is the ten characters `s`. */
  lemma WeekdayFormatOfFormatted(m: Moment, s: string)
    requires m.At? && |s| == 10 && FormatDate(m) == s
    ensures FormatDateWithWeekday(m) == WeekdayNames[Weekday(m.date)] + ", " + s[5..7] + "/" + s[8..] + "/" + s[..4]
  {
    var d := m.date;
    Pad2Digits(d.month);
    Pad2Digits(d.day);
    DashedFieldsOf(s, IntToString(d.year), Pad2(d.month), Pad2(d.day));
  }

  /** The fields of a ten-character `YYYY-MM-DD` string joined from a year and two two-character parts. */
  lemma DashedFieldsOf(s: string, ys: string, ms: string, ds: string)
    requires |s| == 10 && |ms| == 2 && |ds| == 2
    requires s == ys + "-" + ms + "-" + ds
    ensures ys == s[..4] && ms == s[5..7] && ds == s[8..]
  {
    assert |ys| == 4;
    assert s[..4] == ys;
    assert s[5..7] == ms;
    assert s[8..] == ds;
  }

  /** `String(n).padStart(2, '0')` of a number below 100 is two decimal digits worth `n`. */
  lemma Pad2Digits(n: nat)
    requires n < 100
    ensures |Pad2(n)| == 2 && AllDecimalDigits(Pad2(n)) && DecimalValue(Pad2(n)) == n
  {
    var s := NatToRadix(n, 10);
    DecimalValueOfNatToRadix(n);
    if n < 10 {
      var p := "0" + s;
      assert p[..1] == "0" && p[..1][..0] == [];
      assert DecimalValue(p[..1]) == 0;
      assert DecimalValue(p) == 10 * DecimalValue(p[..1]) + (p[1] as int - '0' as int);
      assert DecimalValue(s) == 10 * DecimalValue(s[..0]) + (s[0] as int - '0' as int);
    } else {
      DivisionStep(n, 10);
      assert n / 10 < 10;
    }
  }

  /** Parsing a formatted date gives the date back, for every year from 100 on. */
  lemma ParseFormatRoundTrip(d: Date)
    requires d.year >= 100
    ensures ParseLocalDate(FormatDate(At(d))) == At(d)
  {
    var ys := IntToString(d.year);
    var ms := Pad2(d.month);
    var ds := Pad2(d.day);
    DecimalValueOfNatToRadix(d.year);
    Pad2Digits(d.month);
    Pad2Digits(d.day);
    DigitsHaveNoDash(ys);
    DigitsHaveNoDash(ms);
    DigitsHaveNoDash(ds);
    assert FormatDate(At(d)) == ys + "-" + ms + "-" + ds;
    SplitFields(ys, ms, ds);
    FieldsOfDate(d);
  }

  /** The three printed fields of a date read back as that date. */
  lemma FieldsOfDate(d: Date)
    requires d.year >= 100
    ensures DateOfFields([IntToString(d.year), Pad2(d.month), Pad2(d.day)]) == At(d)
  {
    YearReads(d.year);
    Pad2Reads(d.month);
    Pad2Reads(d.day);
    ReadDateFields(IntToString(d.year), Pad2(d.month), Pad2(d.day), d);
  }

  lemma ReadDateFields(ys: string, ms: string, ds: string, d: Date)
    requires d.year >= 100
    requires StrToNumber(ys) == Int(d.year) && StrToNumber(ms) == Int(d.month) && StrToNumber(ds) == Int(d.day)
    ensures DateOfFields([ys, ms, ds]) == At(d)
  {
    NumbersOfDate(d);
  }

  lemma YearReads(y: nat)
    ensures StrToNumber(IntToString(y)) == Int(y)
  {
    DecimalValueOfNatToRadix(y);
    DigitsParse(NatToRadix(y, 10));
  }

  lemma Pad2Reads(n: nat)
    requires n < 100
    ensures StrToNumber(Pad2(n)) == Int(n)
  {
    Pad2Digits(n);
    DigitsParse(Pad2(n));
  }

  lemma NumbersOfDate(d: Date)
    requires d.year >= 100
    ensures DateOfNumbers(Int(d.year), Int(d.month), Int(d.day)) == At(d)
  {
    NewDateOfDate(d);
  }

  /**
   * `daysBetween(startDateStr)` (js/utils.js): whole calendar days from the start date to `today`,
   * 0 when the start is later, 0 for no start date and NaN for an unreadable one.
   */
  function DaysBetween(startDateStr: string, today: Date): (n: Number)
    ensures startDateStr == "" ==> n == Int(0)
    ensures n.Int? ==> n.value >= 0
    ensures ParseLocalDate(startDateStr).InvalidDate? && startDateStr != "" <==> n.NaN?
    ensures startDateStr != "" && ParseLocalDate(startDateStr).At?
      ==> var start := ParseLocalDate(startDateStr).date;
        && (DayNumber(start) <= DayNumber(today) ==> n == Int(DayNumber(today) - DayNumber(start)))
        && (DayNumber(today) <= DayNumber(start) ==> n == Int(0))
  {
    if startDateStr == "" then Int(0)
    else
      match ParseLocalDate(startDateStr)
      case InvalidDate => NaN
      case At(start) => Int(DaysBetweenDates(start, today))
  }
}
