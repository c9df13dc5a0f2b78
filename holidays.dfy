/**
 * The New York court holiday table and the forward adjustment of a deadline that falls on a
 * weekend or a holiday (js/utils.js).
 *
 * Five holidays are fixed dates, observed on the Monday when they fall on a Sunday (a
 * Saturday holiday stays where it is); six are "n-th weekday" or "last weekday" rules.
 * `HolidayName` follows the source's rule table; `IsCourtHoliday` is an independent
 * description of the same set of days as calendar windows, and the two are proved to agree.
 * From the windows it follows that no holiday is followed by another one, which is why the
 * source's `while (true)` loop over holidays ends after at most one step.
 */
module Holidays {
  import opened JsValues
  import opened Dates

  // ---------------------------------------------------------------------------
  // Days inside one month
  // ---------------------------------------------------------------------------

  /** `new Date(y, m0, dt)` for a day that exists in month `m0` is that very day. */
  lemma NewDateInMonth(y: int, m0: int, dt: int)
    requires 0 <= m0 <= 11 && 1 <= dt <= DaysInMonth(FullYear(y), m0 + 1)
    ensures NewDate(y, m0, dt) == Ymd(FullYear(y), m0 + 1, dt)
  {
    assert FirstOfMonth(FullYear(y), m0) == Ymd(FullYear(y), m0 + 1, 1);
  }

  /** `d.setDate(dt)` for a day that exists in the month of `d` stays in that month. */
  lemma SetDateInMonth(d: Date, dt: int)
    requires 1 <= dt <= DaysInMonth(d.year, d.month)
    ensures SetDate(d, dt) == Ymd(d.year, d.month, dt)
  {
  }

  /** `new Date(y, m0 + 1, 0)`: day 0 of the next month is the last day of month `m0`. */
  lemma LastDayOfMonth(y: int, m0: int)
    requires 0 <= m0 <= 11
    ensures var last := NewDate(y, m0 + 1, 0);
      last.year == FullYear(y) && last.month == m0 + 1 && last.day == DaysInMonth(last.year, last.month)
  {
    var year := FullYear(y);
    var next := FollowingMonth(year, m0 + 1);
    assert FirstOfMonth(year, m0 + 1) == next by {
      if m0 == 11 {
        assert FirstOfMonth(year, 12) == FirstOfMonth(year + 1, 0);
      }
    }
    assert Normalize(next.year, next.month, 0) == Normalize(year, m0 + 1, DaysInMonth(year, m0 + 1));
  }

  /** The day after `d`: the next day of the same month, or the first of the next month. */
  lemma NextDay(d: Date)
    ensures d.day < DaysInMonth(d.year, d.month) ==> AddDays(d, 1) == Ymd(d.year, d.month, d.day + 1)
    ensures d.day == DaysInMonth(d.year, d.month) ==> AddDays(d, 1) == FollowingMonth(d.year, d.month)
    ensures Weekday(AddDays(d, 1)) == (Weekday(d) + 1) % 7
  {
    WeekdayAfter(d, AddDays(d, 1), 1);
    if d.day < DaysInMonth(d.year, d.month) {
      NextDayInMonth(d);
    } else if d.day == DaysInMonth(d.year, d.month) {
      NextDayAcrossMonth(d);
    }
  }

  lemma NextDayInMonth(d: Date)
    requires d.day < DaysInMonth(d.year, d.month)
    ensures AddDays(d, 1) == Ymd(d.year, d.month, d.day + 1)
  {
  }

  lemma NextDayAcrossMonth(d: Date)
    requires d.day == DaysInMonth(d.year, d.month)
    ensures AddDays(d, 1) == FollowingMonth(d.year, d.month)
  {
    var f := FollowingMonth(d.year, d.month);
    assert AddDays(d, 1) == Normalize(f.year, f.month, 1);
  }

  /** Two days of the same month less than a week apart that share a weekday are the same day. */
  lemma SameWeekdayWithinWeek(a: Date, b: Date)
    requires a.year == b.year && a.month == b.month && Weekday(a) == Weekday(b)
    requires -7 < b.day - a.day < 7
    ensures a == b
  {
    var k := b.day - a.day;
    WeekdayAfter(a, b, k);
    var w := Weekday(a);
    assert (w + k) % 7 == w;
    assert k == 0;
  }

  // ---------------------------------------------------------------------------
  // Weekday arithmetic
  // ---------------------------------------------------------------------------

  /** Forward from weekday `w0` to weekday `w`: `(w - w0 + 7) % 7` days, then whole weeks. */
  lemma ForwardToWeekday(w0: int, w: int, weeks: int, k: int)
    requires 0 <= w0 <= 6 && 0 <= w <= 6
    requires k == JsRemainder(w - w0 + 7, 7) + 7 * weeks
    ensures 0 <= JsRemainder(w - w0 + 7, 7) <= 6
    ensures (w0 + k) % 7 == w
  {
    if w >= w0 {
      assert JsRemainder(w - w0 + 7, 7) == w - w0;
    } else {
      assert JsRemainder(w - w0 + 7, 7) == w - w0 + 7;
    }
  }

  /** Back from weekday `w1` to weekday `w`: `(w1 - w + 7) % 7` days. */
  lemma BackToWeekday(w1: int, w: int)
    requires 0 <= w1 <= 6 && 0 <= w <= 6
    ensures 0 <= JsRemainder(w1 - w + 7, 7) <= 6
    ensures (w + JsRemainder(w1 - w + 7, 7)) % 7 == w1
  {
    if w1 >= w {
      assert JsRemainder(w1 - w + 7, 7) == w1 - w;
    } else {
      assert JsRemainder(w1 - w + 7, 7) == w1 - w + 7;
    }
  }

  // ---------------------------------------------------------------------------
  // Rule dates
  // ---------------------------------------------------------------------------

  /**
   * `nthWeekdayOfMonth(year, month, weekday, n)` (js/utils.js): from the first of the month,
   * forward to the first `weekday`, then `n - 1` weeks on.
   */
  function NthWeekdayOfMonth(year: int, month: int, weekday: int, n: int): Date
  {
    var first := NewDate(year, month, 1);
    var diff := JsRemainder(weekday - Weekday(first) + 7, 7);
    SetDate(first, 1 + diff + 7 * (n - 1))
  }

  /** The n-th `weekday` of a month (n from 1 to 4) is the day with that weekday among days 7(n-1)+1 .. 7n. */
  lemma NthWeekdayOfMonthWindow(year: int, month: int, weekday: int, n: int)
    requires 0 <= month <= 11 && 0 <= weekday <= 6 && 1 <= n <= 4
    ensures var d := NthWeekdayOfMonth(year, month, weekday, n);
      d.year == FullYear(year) && d.month == month + 1 && Weekday(d) == weekday
      && 7 * (n - 1) < d.day <= 7 * n
  {
    NthWeekdayInMonth(year, month, weekday, n);
    NthWeekdayHasWeekday(year, month, weekday, n);
    NthWeekdayInWeek(year, month, weekday, n);
  }

  lemma NthWeekdayInMonth(year: int, month: int, weekday: int, n: int)
    requires 0 <= month <= 11 && 0 <= weekday <= 6 && 1 <= n <= 4
    ensures var d := NthWeekdayOfMonth(year, month, weekday, n);
      d.year == FullYear(year) && d.month == month + 1
  {
    var first := NewDate(year, month, 1);
    NewDateInMonth(year, month, 1);
    var dt := 1 + JsRemainder(weekday - Weekday(first) + 7, 7) + 7 * (n - 1);
    NthFromFirst(first, weekday, n, dt);
  }

  lemma NthWeekdayHasWeekday(year: int, month: int, weekday: int, n: int)
    requires 0 <= month <= 11 && 0 <= weekday <= 6 && 1 <= n <= 4
    ensures Weekday(NthWeekdayOfMonth(year, month, weekday, n)) == weekday
  {
    var first := NewDate(year, month, 1);
    NewDateInMonth(year, month, 1);
    var dt := 1 + JsRemainder(weekday - Weekday(first) + 7, 7) + 7 * (n - 1);
    NthFromFirst(first, weekday, n, dt);
    assert NthWeekdayOfMonth(year, month, weekday, n) == SetDate(first, dt);
  }

  lemma NthWeekdayInWeek(year: int, month: int, weekday: int, n: int)
    requires 0 <= month <= 11 && 0 <= weekday <= 6 && 1 <= n <= 4
    ensures 7 * (n - 1) < NthWeekdayOfMonth(year, month, weekday, n).day <= 7 * n
  {
    var first := NewDate(year, month, 1);
    NewDateInMonth(year, month, 1);
    var dt := 1 + JsRemainder(weekday - Weekday(first) + 7, 7) + 7 * (n - 1);
    NthFromFirst(first, weekday, n, dt);
  }

  lemma NthFromFirst(first: Date, weekday: int, n: int, dt: int)
    requires first.day == 1 && 0 <= weekday <= 6 && 1 <= n <= 4
    requires dt == 1 + JsRemainder(weekday - Weekday(first) + 7, 7) + 7 * (n - 1)
    ensures var d := SetDate(first, dt);
      d.year == first.year && d.month == first.month && Weekday(d) == weekday
      && 7 * (n - 1) < d.day <= 7 * n
  {
    ForwardToWeekday(Weekday(first), weekday, n - 1, dt - 1);
    SetDateInMonth(first, dt);
    WeekdayAfter(first, SetDate(first, dt), dt - 1);
  }

  /** `lastWeekdayOfMonth(year, month, weekday)` (js/utils.js): back from the month's last day to `weekday`. */
  function LastWeekdayOfMonth(year: int, month: int, weekday: int): Date
  {
    var last := NewDate(year, month + 1, 0);
    var diff := JsRemainder(Weekday(last) - weekday + 7, 7);
    SetDate(last, last.day - diff)
  }

  /** The last `weekday` of a month is the day with that weekday among the month's last seven days. */
  lemma LastWeekdayOfMonthWindow(year: int, month: int, weekday: int)
    requires 0 <= month <= 11 && 0 <= weekday <= 6
    ensures var d := LastWeekdayOfMonth(year, month, weekday);
      d.year == FullYear(year) && d.month == month + 1 && Weekday(d) == weekday
      && DaysInMonth(d.year, d.month) - 7 < d.day <= DaysInMonth(d.year, d.month)
  {
    LastWeekdayInMonth(year, month, weekday);
    LastWeekdayHasWeekday(year, month, weekday);
    LastWeekdayInLastWeek(year, month, weekday);
  }

  lemma LastWeekdayInMonth(year: int, month: int, weekday: int)
    requires 0 <= month <= 11 && 0 <= weekday <= 6
    ensures var d := LastWeekdayOfMonth(year, month, weekday);
      d.year == FullYear(year) && d.month == month + 1
  {
    var last := NewDate(year, month + 1, 0);
    LastDayOfMonth(year, month);
    var dt := last.day - JsRemainder(Weekday(last) - weekday + 7, 7);
    LastFromEnd(last, weekday, dt);
  }

  lemma LastWeekdayHasWeekday(year: int, month: int, weekday: int)
    requires 0 <= month <= 11 && 0 <= weekday <= 6
    ensures Weekday(LastWeekdayOfMonth(year, month, weekday)) == weekday
  {
    var last := NewDate(year, month + 1, 0);
    LastDayOfMonth(year, month);
    var dt := last.day - JsRemainder(Weekday(last) - weekday + 7, 7);
    LastFromEnd(last, weekday, dt);
  }

  lemma LastWeekdayInLastWeek(year: int, month: int, weekday: int)
    requires 0 <= month <= 11 && 0 <= weekday <= 6
    ensures var d := LastWeekdayOfMonth(year, month, weekday);
      DaysInMonth(FullYear(year), month + 1) - 7 < d.day <= DaysInMonth(FullYear(year), month + 1)
  {
    var last := NewDate(year, month + 1, 0);
    LastDayOfMonth(year, month);
    var dt := last.day - JsRemainder(Weekday(last) - weekday + 7, 7);
    LastFromEnd(last, weekday, dt);
  }

  lemma LastFromEnd(last: Date, weekday: int, dt: int)
    requires last.day == DaysInMonth(last.year, last.month) && 0 <= weekday <= 6
    requires dt == last.day - JsRemainder(Weekday(last) - weekday + 7, 7)
    ensures var d := SetDate(last, dt);
      d.year == last.year && d.month == last.month && Weekday(d) == weekday
      && last.day - 7 < d.day <= last.day
  {
    BackToWeekday(Weekday(last), weekday);
    SetDateInMonth(last, dt);
    WeekdayAfter(SetDate(last, dt), last, last.day - dt);
  }

  /** A fixed-date holiday: day `dt` of month `m0`, observed on the next day when it falls on a Sunday. */
  function ObservedFixed(y: int, m0: int, dt: int): Date
  {
    var h := NewDate(y, m0, dt);
    if Weekday(h) == 0 then NewDate(y, m0, dt + 1) else h
  }

  // ---------------------------------------------------------------------------
  // The holiday table
  // ---------------------------------------------------------------------------

  /** How a holiday's date in a year is found; months are JavaScript month indexes (0 = January). */
  datatype Rule =
    | Fixed(month: int, day: int)
    | NthWeekday(month: int, weekday: int, n: int)
    | LastWeekday(month: int, weekday: int)

  datatype Holiday = Holiday(name: string, rule: Rule)

  /** The rules of `getHolidayName`, in the order the source tries them. */
  const CourtHolidays: seq<Holiday> := [
    Holiday("New Year's Day", Fixed(0, 1)),
    Holiday("Juneteenth", Fixed(5, 19)),
    Holiday("Independence Day", Fixed(6, 4)),
    Holiday("Veterans Day", Fixed(10, 11)),
    Holiday("Christmas Day", Fixed(11, 25)),
    Holiday("Martin Luther King Jr. Day", NthWeekday(0, 1, 3)),
    Holiday("Presidents' Day", NthWeekday(1, 1, 3)),
    Holiday("Memorial Day", LastWeekday(4, 1)),
    Holiday("Labor Day", NthWeekday(8, 1, 1)),
    Holiday("Columbus Day", NthWeekday(9, 1, 2)),
    Holiday("Thanksgiving Day", NthWeekday(10, 4, 4))
  ]

  /** The date a rule gives in year `y`. */
  function RuleDate(rule: Rule, y: int): Date
  {
    match rule
    case Fixed(m0, dt) => ObservedFixed(y, m0, dt)
    case NthWeekday(m0, w, n) => NthWeekdayOfMonth(y, m0, w, n)
    case LastWeekday(m0, w) => LastWeekdayOfMonth(y, m0, w)
  }

  /** The name of the first holiday of `table` that falls on `date`, or "". */
  function FirstHolidayOn(date: Date, table: seq<Holiday>): string
  {
    if |table| == 0 then ""
    else if IsSameDay(date, RuleDate(table[0].rule, date.year)) then table[0].name
    else FirstHolidayOn(date, table[1..])
  }

  /** `getHolidayName(date)` (js/utils.js): the rules are tried for the year of `date`, first match wins. */
  function HolidayName(date: Date): string
  {
    FirstHolidayOn(date, CourtHolidays)
  }

  /** Rule `h` gives `date` in the year of `date`. */
  predicate FallsOn(date: Date, h: Holiday)
  {
    IsSameDay(date, RuleDate(h.rule, date.year))
  }

  /** A name found by the search is the name of a rule that falls on `date`. */
  lemma {:induction false} FirstHolidayIndex(date: Date, table: seq<Holiday>) returns (i: nat)
    requires FirstHolidayOn(date, table) != ""
    ensures i < |table| && FallsOn(date, table[i]) && FirstHolidayOn(date, table) == table[i].name
    decreases |table|
  {
    if FallsOn(date, table[0]) {
      i := 0;
    } else {
      var k := FirstHolidayIndex(date, table[1..]);
      i := k + 1;
    }
  }

  /** When a rule of the table falls on `date` and every name is non-empty, the search finds a name. */
  lemma {:induction false} FirstHolidayFound(date: Date, table: seq<Holiday>, i: nat)
    requires i < |table| && FallsOn(date, table[i])
    requires forall j :: 0 <= j < |table| ==> table[j].name != ""
    ensures FirstHolidayOn(date, table) != ""
    decreases i
  {
    if !FallsOn(date, table[0]) {
      assert table[1..][i - 1] == table[i];
      FirstHolidayFound(date, table[1..], i - 1);
    }
  }

  /** The search returns the name of the first rule that falls on `date`. */
  lemma {:induction false} FirstHolidayAt(date: Date, table: seq<Holiday>, i: nat)
    requires i < |table| && FallsOn(date, table[i])
    requires forall j :: 0 <= j < i ==> !FallsOn(date, table[j])
    ensures FirstHolidayOn(date, table) == table[i].name
    decreases i
  {
    if i > 0 {
      assert !FallsOn(date, table[0]);
      assert table[1..][i - 1] == table[i];
      FirstHolidayAt(date, table[1..], i - 1);
    }
  }

  /** Day `dt` of `month` on a day other than Sunday, or day `dt + 1` when that is the Monday after a Sunday `dt`. */
  predicate FixedWindow(d: Date, month: int, dt: int)
  {
    d.month == month && ((d.day == dt && Weekday(d) != 0) || (d.day == dt + 1 && Weekday(d) == 1))
  }

  /** A `weekday` of `month` among days `lo` .. `lo + 6`. */
  predicate WeekdayWindow(d: Date, month: int, weekday: int, lo: int)
  {
    d.month == month && Weekday(d) == weekday && lo <= d.day <= lo + 6
  }

  /** The days of a month on which a rule can fall, described without computing the rule's date. */
  predicate InWindow(d: Date, rule: Rule)
  {
    match rule
    case Fixed(m0, dt) => FixedWindow(d, m0 + 1, dt)
    case NthWeekday(m0, w, n) => WeekdayWindow(d, m0 + 1, w, 7 * (n - 1) + 1)
    case LastWeekday(m0, w) =>
      d.month == m0 + 1 && Weekday(d) == w && DaysInMonth(d.year, d.month) - 7 < d.day
  }

  predicate WellFormedRule(rule: Rule)
  {
    match rule
    case Fixed(m0, dt) => 0 <= m0 <= 11 && 1 <= dt <= 27
    case NthWeekday(m0, w, n) => 0 <= m0 <= 11 && 0 <= w <= 6 && 1 <= n <= 4
    case LastWeekday(m0, w) => 0 <= m0 <= 11 && 0 <= w <= 6
  }

  /** The calendar windows of the New York court holidays. */
  predicate InCourtHolidayWindow(d: Date)
  {
    FixedWindow(d, 1, 1)            // New Year's Day
    || FixedWindow(d, 6, 19)        // Juneteenth
    || FixedWindow(d, 7, 4)         // Independence Day
    || FixedWindow(d, 11, 11)       // Veterans Day
    || FixedWindow(d, 12, 25)       // Christmas Day
    || WeekdayWindow(d, 1, 1, 15)   // third Monday of January
    || WeekdayWindow(d, 2, 1, 15)   // third Monday of February
    || WeekdayWindow(d, 5, 1, 25)   // last Monday of May
    || WeekdayWindow(d, 9, 1, 1)    // first Monday of September
    || WeekdayWindow(d, 10, 1, 8)   // second Monday of October
    || WeekdayWindow(d, 11, 4, 22)  // fourth Thursday of November
  }

  /**
   * A New York court holiday. Years 0 to 99 have none: the source builds each rule date with
   * `new Date(y, ...)`, which reads those years as 1900 to 1999.
   */
  predicate IsCourtHoliday(d: Date)
  {
    FullYear(d.year) == d.year && InCourtHolidayWindow(d)
  }

  /** A fixed-date rule falls on `d` exactly when `d` is in that rule's window. */
  lemma FixedRuleMatches(d: Date, m0: int, dt: int)
    requires 0 <= m0 <= 11 && 1 <= dt <= 27
    ensures IsSameDay(d, ObservedFixed(d.year, m0, dt)) <==> FullYear(d.year) == d.year && FixedWindow(d, m0 + 1, dt)
  {
    NewDateInMonth(d.year, m0, dt);
    NewDateInMonth(d.year, m0, dt + 1);
    WeekdayAfter(NewDate(d.year, m0, dt), NewDate(d.year, m0, dt + 1), 1);
  }

  /** An n-th weekday rule falls on `d` exactly when `d` is in that rule's window. */
  lemma NthRuleMatches(d: Date, m0: int, weekday: int, n: int)
    requires 0 <= m0 <= 11 && 0 <= weekday <= 6 && 1 <= n <= 4
    ensures IsSameDay(d, NthWeekdayOfMonth(d.year, m0, weekday, n))
      <==> FullYear(d.year) == d.year && WeekdayWindow(d, m0 + 1, weekday, 7 * (n - 1) + 1)
  {
    var r := NthWeekdayOfMonth(d.year, m0, weekday, n);
    NthWeekdayOfMonthWindow(d.year, m0, weekday, n);
    if FullYear(d.year) == d.year && WeekdayWindow(d, m0 + 1, weekday, 7 * (n - 1) + 1) {
      SameWeekdayWithinWeek(d, r);
    }
  }

  /** A last-weekday rule falls on `d` exactly when `d` is in that rule's window. */
  lemma LastRuleMatches(d: Date, m0: int, weekday: int)
    requires 0 <= m0 <= 11 && 0 <= weekday <= 6
    ensures IsSameDay(d, LastWeekdayOfMonth(d.year, m0, weekday))
      <==> FullYear(d.year) == d.year && d.month == m0 + 1 && Weekday(d) == weekday
           && DaysInMonth(d.year, d.month) - 7 < d.day
  {
    var r := LastWeekdayOfMonth(d.year, m0, weekday);
    LastWeekdayOfMonthWindow(d.year, m0, weekday);
    if FullYear(d.year) == d.year && d.month == m0 + 1 && Weekday(d) == weekday
       && DaysInMonth(d.year, d.month) - 7 < d.day {
      SameWeekdayWithinWeek(d, r);
    }
  }

  /** Any well-formed rule falls on `d` exactly when `d` is in its window. */
  lemma RuleMatches(d: Date, rule: Rule)
    requires WellFormedRule(rule)
    ensures IsSameDay(d, RuleDate(rule, d.year)) <==> FullYear(d.year) == d.year && InWindow(d, rule)
  {
    match rule
    case Fixed(m0, dt) => FixedRuleMatches(d, m0, dt);
    case NthWeekday(m0, w, n) => NthRuleMatches(d, m0, w, n);
    case LastWeekday(m0, w) => LastRuleMatches(d, m0, w);
  }

  /** A day in the windows is in the window of some rule of the table. */
  lemma WindowIndex(d: Date) returns (i: nat)
    requires InCourtHolidayWindow(d)
    ensures i < |CourtHolidays| && InWindow(d, CourtHolidays[i].rule)
  {
    if FixedWindow(d, 1, 1) || FixedWindow(d, 6, 19) || FixedWindow(d, 7, 4)
       || FixedWindow(d, 11, 11) || FixedWindow(d, 12, 25) {
      i := FixedWindowIndex(d);
    } else {
      i := WeekdayWindowIndex(d);
    }
  }

  lemma FixedWindowIndex(d: Date) returns (i: nat)
    requires FixedWindow(d, 1, 1) || FixedWindow(d, 6, 19) || FixedWindow(d, 7, 4)
             || FixedWindow(d, 11, 11) || FixedWindow(d, 12, 25)
    ensures i < 5 && InWindow(d, CourtHolidays[i].rule)
  {
    if FixedWindow(d, 1, 1) { i := 0; }
    else if FixedWindow(d, 6, 19) { i := 1; }
    else if FixedWindow(d, 7, 4) { i := 2; }
    else if FixedWindow(d, 11, 11) { i := 3; }
    else { i := 4; }
  }

  lemma WeekdayWindowIndex(d: Date) returns (i: nat)
    requires WeekdayWindow(d, 1, 1, 15) || WeekdayWindow(d, 2, 1, 15) || WeekdayWindow(d, 5, 1, 25)
             || WeekdayWindow(d, 9, 1, 1) || WeekdayWindow(d, 10, 1, 8) || WeekdayWindow(d, 11, 4, 22)
    ensures 5 <= i < |CourtHolidays| && InWindow(d, CourtHolidays[i].rule)
  {
    if WeekdayWindow(d, 1, 1, 15) { i := 5; }
    else if WeekdayWindow(d, 2, 1, 15) { i := 6; }
    else if WeekdayWindow(d, 5, 1, 25) { i := 7; }
    else if WeekdayWindow(d, 9, 1, 1) { i := 8; }
    else if WeekdayWindow(d, 10, 1, 8) { i := 9; }
    else { i := 10; }
  }

  /** The window of every rule of the table is among the windows. */
  lemma IndexWindow(d: Date, i: nat)
    requires i < |CourtHolidays| && InWindow(d, CourtHolidays[i].rule)
    ensures InCourtHolidayWindow(d)
  {
  }

  /** Every rule of the table is well formed and every name is non-empty. */
  lemma CourtHolidaysWellFormed()
    ensures forall i :: 0 <= i < |CourtHolidays| ==> CourtHolidays[i].name != "" && WellFormedRule(CourtHolidays[i].rule)
  {
  }

  /** The rule table names a holiday exactly on the days of the window description. */
  lemma HolidayNameIsCourtHoliday(d: Date)
    ensures HolidayName(d) != "" <==> IsCourtHoliday(d)
  {
    CourtHolidaysWellFormed();
    if HolidayName(d) != "" {
      var i := FirstHolidayIndex(d, CourtHolidays);
      RuleMatches(d, CourtHolidays[i].rule);
      IndexWindow(d, i);
    }
    if IsCourtHoliday(d) {
      var i := WindowIndex(d);
      RuleMatches(d, CourtHolidays[i].rule);
      FirstHolidayFound(d, CourtHolidays, i);
    }
  }

  /** No court holiday falls on a Sunday. */
  lemma CourtHolidayNotSunday(d: Date)
    requires IsCourtHoliday(d)
    ensures Weekday(d) != 0
  {
  }

  /** No Sunday is named a holiday. */
  lemma SundayIsNoHoliday(d: Date)
    requires Weekday(d) == 0
    ensures HolidayName(d) == ""
  {
    HolidayNameIsCourtHoliday(d);
  }

  /** The day after a court holiday is never a court holiday. */
  lemma NoConsecutiveCourtHolidays(d: Date)
    requires IsCourtHoliday(d)
    ensures !IsCourtHoliday(AddDays(d, 1))
  {
    var e := AddDays(d, 1);
    NextDay(d);
    CourtHolidayNotSunday(d);
    assert Weekday(e) != 1;
    if d.day == DaysInMonth(d.year, d.month) {
      assert d.month == 5 && d.day == 31;
    } else {
      assert e.month == d.month && e.day == d.day + 1;
    }
  }

  /** Hence the holiday loop of the adjustment takes at most one step. */
  lemma NoConsecutiveHolidayNames(d: Date)
    requires HolidayName(d) != ""
    ensures HolidayName(AddDays(d, 1)) == ""
  {
    HolidayNameIsCourtHoliday(d);
    HolidayNameIsCourtHoliday(AddDays(d, 1));
    NoConsecutiveCourtHolidays(d);
  }

  // ---------------------------------------------------------------------------
  // Weekend and holiday adjustment
  // ---------------------------------------------------------------------------

  /** `{ adjustedDate, tooltip }` as `adjustForWeekendOrHoliday` returns it. */
  datatype Adjustment = Adjustment(adjustedDate: Date, tooltip: string)

  const SaturdayTooltip := "Adjusted for deadline falling on Saturday"
  const SundayTooltip := "Adjusted for deadline falling on Sunday"

  /**
   * The adjustment in closed form: a Saturday moves to Monday, a Sunday to Monday, and a
   * weekday holiday to the next day, which is never a holiday itself.
   */
  function Adjusted(base: Date): Adjustment
  {
    if Weekday(base) == 6 then Adjustment(AddDays(base, 2), SaturdayTooltip)
    else if Weekday(base) == 0 then Adjustment(AddDays(base, 1), SundayTooltip)
    else if HolidayName(base) == "" then Adjustment(base, "")
    else Adjustment(AddDays(base, 1), "Adjusted for " + HolidayName(base))
  }

  /**
   * `adjustForWeekendOrHoliday(baseDate)` (js/utils.js): on a copy of the date, a weekend moves
   * to Monday without a holiday check; a weekday advances one day at a time while it is a
   * holiday, the tooltip naming the last holiday skipped.
   */
  method AdjustForWeekendOrHoliday(baseDate: Date) returns (r: Adjustment)
    ensures r == Adjusted(baseDate)
  {
    var d := baseDate;
    var tooltip := "";
    if Weekday(d) == 6 {
      d := SetDate(d, d.day + 2);
      tooltip := SaturdayTooltip;
      AdjustedOnSaturday(baseDate);
    } else if Weekday(d) == 0 {
      d := SetDate(d, d.day + 1);
      tooltip := SundayTooltip;
      AdjustedOnSunday(baseDate);
    } else {
      while true
        invariant (d == baseDate && tooltip == "")
          || (HolidayName(baseDate) != "" && d == AddDays(baseDate, 1) && HolidayName(d) == ""
              && tooltip == "Adjusted for " + HolidayName(baseDate))
        decreases if HolidayName(d) == "" then 0 else 1
      {
        var name := HolidayName(d);
        if name == "" {
          break;
        }
        NoConsecutiveHolidayNames(d);
        d := SetDate(d, d.day + 1);
        tooltip := "Adjusted for " + name;
      }
      AdjustedOnWeekday(baseDate);
    }
    r := Adjustment(d, tooltip);
  }

  /** The adjusted date is never earlier than the base date, at most two days later, and never a Sunday. */
  lemma AdjustedMovesForward(base: Date)
    ensures var a := Adjusted(base).adjustedDate;
      DayNumber(base) <= DayNumber(a) <= DayNumber(base) + 2 && Weekday(a) != 0
  {
    if Weekday(base) == 6 || Weekday(base) == 0 {
      WeekendMovesForward(base);
    } else {
      WeekdayMovesForward(base);
    }
  }

  lemma WeekendMovesForward(base: Date)
    requires Weekday(base) == 6 || Weekday(base) == 0
    ensures var a := Adjusted(base).adjustedDate;
      DayNumber(base) <= DayNumber(a) <= DayNumber(base) + 2 && Weekday(a) != 0
  {
    if Weekday(base) == 6 {
      AdjustedOnSaturday(base);
    } else {
      AdjustedOnSunday(base);
    }
  }

  lemma WeekdayMovesForward(base: Date)
    requires Weekday(base) != 6 && Weekday(base) != 0
    ensures var a := Adjusted(base).adjustedDate;
      DayNumber(base) <= DayNumber(a) <= DayNumber(base) + 2 && Weekday(a) != 0
  {
    if HolidayName(base) != "" {
      WeekdayAfter(base, AddDays(base, 1), 1);
    }
  }

  /** A weekday base comes back as a day that is not a holiday. */
  lemma AdjustedWeekdayNotHoliday(base: Date)
    requires Weekday(base) != 0 && Weekday(base) != 6
    ensures HolidayName(Adjusted(base).adjustedDate) == ""
  {
    if HolidayName(base) != "" {
      NoConsecutiveHolidayNames(base);
    }
  }

  /** A weekend moves to the following Monday. */
  lemma AdjustedWeekendToMonday(base: Date)
    requires Weekday(base) == 0 || Weekday(base) == 6
    ensures Weekday(Adjusted(base).adjustedDate) == 1
    ensures Adjusted(base).tooltip == if Weekday(base) == 6 then SaturdayTooltip else SundayTooltip
  {
    if Weekday(base) == 6 {
      AdjustedOnSaturday(base);
    } else {
      AdjustedOnSunday(base);
    }
  }

  /** A Saturday moves two days on, to a Monday. */
  lemma AdjustedOnSaturday(base: Date)
    requires Weekday(base) == 6
    ensures Adjusted(base) == Adjustment(AddDays(base, 2), SaturdayTooltip)
    ensures Weekday(AddDays(base, 2)) == 1
  {
    WeekdayAfter(base, AddDays(base, 2), 2);
  }

  /** A weekday stays when it is no holiday and moves one day on otherwise. */
  lemma AdjustedOnWeekday(base: Date)
    requires Weekday(base) != 6 && Weekday(base) != 0
    ensures Adjusted(base) == if HolidayName(base) == "" then Adjustment(base, "")
      else Adjustment(AddDays(base, 1), "Adjusted for " + HolidayName(base))
  {
  }

  /** A Sunday moves one day on, to a Monday. */
  lemma AdjustedOnSunday(base: Date)
    requires Weekday(base) == 0
    ensures Adjusted(base) == Adjustment(AddDays(base, 1), SundayTooltip)
    ensures Weekday(AddDays(base, 1)) == 1
  {
    WeekdayAfter(base, AddDays(base, 1), 1);
  }

  /** The date is unchanged exactly when it is a weekday that is not a holiday, and then the tooltip is empty. */
  lemma AdjustedUnchangedIff(base: Date)
    ensures Adjusted(base).adjustedDate == base
      <==> Weekday(base) != 0 && Weekday(base) != 6 && HolidayName(base) == ""
    ensures Adjusted(base).adjustedDate == base ==> Adjusted(base).tooltip == ""
  {
    AdjustedMovesForward(base);
  }

  /** On a weekday the date moves exactly when it is a holiday, and the tooltip names that holiday. */
  lemma AdjustedNamesHoliday(base: Date)
    requires Weekday(base) != 0 && Weekday(base) != 6 && HolidayName(base) != ""
    ensures DayNumber(Adjusted(base).adjustedDate) == DayNumber(base) + 1
    ensures Adjusted(base).tooltip == "Adjusted for " + HolidayName(base)
  {
  }

  // ---------------------------------------------------------------------------
  // Examples
  // ---------------------------------------------------------------------------

  /**
   * The weekday of a day, given its year's and month's day offsets computed in closed form and
   * the remainder `shift` of their sum plus three.
   */
  lemma WeekdayFromOffsets(d: Date, yearDays: int, monthDays: int, shift: int)
    requires DayFromYear(d.year) == yearDays && DaysBeforeMonth(d.year, d.month) == monthDays
    requires (yearDays + monthDays + 3 - shift) % 7 == 0
    ensures Weekday(d) == (d.day + shift) % 7
  {
    DaysBeforeYearFormula(d.year);
    ModSevenShift(yearDays + monthDays + 3 - shift, d.day + shift);
  }

  /** A fixed-date rule of another month does not fall on `d`. */
  lemma NotOnFixedRule(d: Date, m0: int, dt: int)
    requires 0 <= m0 <= 11 && 1 <= dt <= 27 && d.month != m0 + 1
    ensures !IsSameDay(d, ObservedFixed(d.year, m0, dt))
  {
    FixedRuleMatches(d, m0, dt);
  }

  /** A day in the Independence Day window is named Independence Day. */
  lemma NamedIndependenceDay(d: Date)
    requires FullYear(d.year) == d.year && FixedWindow(d, 7, 4)
    ensures HolidayName(d) == "Independence Day"
  {
    assert CourtHolidays[0] == Holiday("New Year's Day", Fixed(0, 1));
    assert CourtHolidays[1] == Holiday("Juneteenth", Fixed(5, 19));
    assert CourtHolidays[2] == Holiday("Independence Day", Fixed(6, 4));
    NotOnFixedRule(d, 0, 1);
    NotOnFixedRule(d, 5, 19);
    FixedRuleMatches(d, 6, 4);
    FirstHolidayAt(d, CourtHolidays, 2);
  }

  /** Days of July 2021: July 4 was a Sunday. */
  lemma WeekdayJuly2021(d: Date)
    requires d.year == 2021 && d.month == 7
    ensures Weekday(d) == (d.day + 3) % 7
  {
    assert DaysBeforeMonth(2021, 7) == 181;
    WeekdayFromOffsets(d, 18628, 181, 3);
  }

  /** Days of July 2023: July 4 was a Tuesday. */
  lemma WeekdayJuly2023(d: Date)
    requires d.year == 2023 && d.month == 7
    ensures Weekday(d) == (d.day + 5) % 7
  {
    assert DaysBeforeMonth(2023, 7) == 181;
    WeekdayFromOffsets(d, 19358, 181, 5);
  }

  /** Days of July 2025: July 4 is a Friday. */
  lemma WeekdayJuly2025(d: Date)
    requires d.year == 2025 && d.month == 7
    ensures Weekday(d) == (d.day + 1) % 7
  {
    assert DaysBeforeMonth(2025, 7) == 181;
    WeekdayFromOffsets(d, 20089, 181, 1);
  }

  /** Days of July 2022: July 4 was a Monday. */
  lemma WeekdayJuly2022(d: Date)
    requires d.year == 2022 && d.month == 7
    ensures Weekday(d) == (d.day + 4) % 7
  {
    assert DaysBeforeMonth(2022, 7) == 181;
    WeekdayFromOffsets(d, 18993, 181, 4);
  }

  /** July 4, 2021 was a Sunday and no holiday. */
  lemma IndependenceDay2021Sunday(sunday: Date)
    requires sunday.year == 2021 && sunday.month == 7 && sunday.day == 4
    ensures HolidayName(sunday) == ""
  {
    WeekdayJuly2021(sunday);
    SundayIsNoHoliday(sunday);
  }

  /** Monday July 5, 2021 was observed as Independence Day. */
  lemma IndependenceDay2021Monday(monday: Date)
    requires monday.year == 2021 && monday.month == 7 && monday.day == 5
    ensures HolidayName(monday) == "Independence Day"
  {
    WeekdayJuly2021(monday);
    NamedIndependenceDay(monday);
  }

  /** July 4, 2023 was a Tuesday and is Independence Day itself. */
  lemma IndependenceDay2023(d: Date)
    requires d.year == 2023 && d.month == 7 && d.day == 4
    ensures HolidayName(d) == "Independence Day"
  {
    WeekdayJuly2023(d);
    NamedIndependenceDay(d);
  }

  /** July 4, 2025 is a Friday. */
  lemma FridayJuly4th2025(friday: Date)
    requires friday.year == 2025 && friday.month == 7 && friday.day == 4
    ensures Weekday(friday) == 5
  {
    WeekdayJuly2025(friday);
  }

  /** Friday July 4, 2025 is Independence Day. */
  lemma IndependenceDay2025(friday: Date)
    requires friday.year == 2025 && friday.month == 7 && friday.day == 4
    ensures Weekday(friday) == 5 && HolidayName(friday) == "Independence Day"
  {
    FridayJuly4th2025(friday);
    NamedIndependenceDay(friday);
  }

  /** Friday July 4, 2025 moves to Saturday the 5th. */
  lemma AdjustedJuly4th2025(friday: Date)
    requires friday.year == 2025 && friday.month == 7 && friday.day == 4
    ensures Adjusted(friday).adjustedDate == Ymd(2025, 7, 5)
  {
    IndependenceDay2025(friday);
    NextDay(friday);
  }

  /** July 5, 2025 is a Saturday. */
  lemma SaturdayJuly5th2025(saturday: Date)
    requires saturday.year == 2025 && saturday.month == 7 && saturday.day == 5
    ensures Weekday(saturday) == 6
  {
    WeekdayJuly2025(saturday);
  }

  /** Saturday July 5, 2025 moves to Monday the 7th. */
  lemma AdjustedJuly5th2025(saturday: Date)
    requires saturday.year == 2025 && saturday.month == 7 && saturday.day == 5
    ensures Adjusted(saturday).adjustedDate == Ymd(2025, 7, 7)
  {
    SaturdayJuly5th2025(saturday);
    SetDateInMonth(saturday, 7);
  }

  /**
   * Adjusting twice is not always adjusting once: Friday July 4, 2025 moves to Saturday the 5th,
   * which a second adjustment moves on to Monday the 7th.
   */
  lemma AdjustedNotIdempotent(friday: Date)
    requires friday.year == 2025 && friday.month == 7 && friday.day == 4
    ensures Adjusted(friday).adjustedDate == Ymd(2025, 7, 5)
    ensures Adjusted(Adjusted(friday).adjustedDate).adjustedDate == Ymd(2025, 7, 7)
  {
    AdjustedJuly4th2025(friday);
    AdjustedJuly5th2025(Adjusted(friday).adjustedDate);
  }

  /** July 3, 2022 was a Sunday. */
  lemma SundayJuly3rd2022(sunday: Date)
    requires sunday.year == 2022 && sunday.month == 7 && sunday.day == 3
    ensures Weekday(sunday) == 0
  {
    WeekdayJuly2022(sunday);
  }

  /** Monday July 4, 2022 was Independence Day. */
  lemma IndependenceDay2022(monday: Date)
    requires monday.year == 2022 && monday.month == 7 && monday.day == 4
    ensures HolidayName(monday) == "Independence Day"
  {
    WeekdayJuly2022(monday);
    NamedIndependenceDay(monday);
  }

  /**
   * A weekend day is moved without a holiday check: Sunday July 3, 2022 lands on Monday the
   * 4th, which is Independence Day.
   */
  lemma SundayBeforeHolidayNotRechecked(sunday: Date)
    requires sunday.year == 2022 && sunday.month == 7 && sunday.day == 3
    ensures Adjusted(sunday).adjustedDate == Ymd(2022, 7, 4)
    ensures HolidayName(Adjusted(sunday).adjustedDate) == "Independence Day"
  {
    SundayJuly3rd2022(sunday);
    SetDateInMonth(sunday, 4);
    IndependenceDay2022(Adjusted(sunday).adjustedDate);
  }
}
