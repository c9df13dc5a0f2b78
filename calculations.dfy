/**
 * The section 30.30 deadline engine of the case tracker (js/calculations.js).
 *
 * A charge level fixes how long the prosecution has to be ready for trial: six calendar
 * months for a felony, 90 days for a class A misdemeanor, 60 for a class B misdemeanor and
 * 30 for a violation. The unadjusted deadline is that far from the start date; when it
 * falls on a weekend or a court holiday it moves forward (`Holidays.Adjusted`). The quick
 * calculator also adds the excluded days before adjusting. Dates travel as `YYYY-MM-DD`
 * strings, and the time to a deadline is counted in whole days from a given day.
 */
module Calculations {
  import opened Wrappers
  import opened JsValues
  import opened Dates
  import opened Holidays

  datatype Level = Felony | ClassA | ClassB | Violation

  /** The string a case stores for each level. */
  function LevelName(l: Level): string
  {
    match l
    case Felony => "felony"
    case ClassA => "classA"
    case ClassB => "classB"
    case Violation => "violation"
  }

  /** The level a stored string names; any other string names no level. */
  function LevelOf(level: string): (l: Option<Level>)
    ensures l.Some? ==> LevelName(l.value) == level
    ensures forall x: Level :: LevelName(x) == level ==> l == Some(x)
  {
    if level == "felony" then Some(Felony)
    else if level == "classA" then Some(ClassA)
    else if level == "classB" then Some(ClassB)
    else if level == "violation" then Some(Violation)
    else None
  }

  /** Days allowed for the levels counted in days. */
  function FixedCap(l: Level): int
    requires !l.Felony?
  {
    match l
    case ClassA => 90
    case ClassB => 60
    case Violation => 30
  }

  /** The unadjusted deadline: six months on for a felony, the fixed number of days otherwise. */
  function BaseDeadline(l: Level, start: Date): Date
  {
    if l.Felony? then AddMonthsSameDay(start, 6) else AddDays(start, FixedCap(l))
  }

  /** The deadline after moving off weekends and court holidays. */
  function CapDeadline(l: Level, start: Date): Date
  {
    Adjusted(BaseDeadline(l, start)).adjustedDate
  }

  // ---------------------------------------------------------------------------
  // computeCapAndDeadline
  // ---------------------------------------------------------------------------

  datatype CapAndDeadline = CapAndDeadline(capDays: Number, deadlineStr: string, tooltip: string)

  const NoDeadline := CapAndDeadline(Int(0), "", "")

  /**
   * `computeCapAndDeadline(level, startDateStr)`: the number of days allowed, the adjusted
   * deadline as `YYYY-MM-DD` and the reason it was moved. No start date or an unknown level
   * gives no deadline. A start date that does not parse is an Invalid Date, which every step
   * carries along: the felony cap is NaN and the deadline prints as "NaN-NaN-NaN".
   */
  function ComputeCapAndDeadline(level: string, startDateStr: string): (r: CapAndDeadline)
    ensures r.deadlineStr == "" <==> startDateStr == "" || LevelOf(level).None?
    ensures r.deadlineStr == "" ==> r == NoDeadline
  {
    if startDateStr == "" then NoDeadline
    else
      match LevelOf(level)
      case None => NoDeadline
      case Some(l) =>
        match ParseLocalDate(startDateStr)
        case InvalidDate =>
          CapAndDeadline(if l.Felony? then NaN else Int(FixedCap(l)), FormatDate(InvalidDate), "")
        case At(start) =>
          var base := BaseDeadline(l, start);
          var adjustment := Adjusted(base);
          var cap := if l.Felony? then DaysBetweenDates(start, base) else FixedCap(l);
          CapAndDeadline(Int(cap), FormatDate(At(adjustment.adjustedDate)), adjustment.tooltip)
  }

  /** The day number of the first day of a month in terms of the month tables. */
  lemma MonthTable(y: int)
    ensures DaysBeforeMonth(y, 1) == 0
    ensures var leap := if IsLeapYear(y) then 1 else 0;
      && DaysBeforeMonth(y, 2) == 31
      && DaysBeforeMonth(y, 3) == 59 + leap
      && DaysBeforeMonth(y, 4) == 90 + leap
      && DaysBeforeMonth(y, 5) == 120 + leap
      && DaysBeforeMonth(y, 6) == 151 + leap
      && DaysBeforeMonth(y, 7) == 181 + leap
      && DaysBeforeMonth(y, 8) == 212 + leap
      && DaysBeforeMonth(y, 9) == 243 + leap
      && DaysBeforeMonth(y, 10) == 273 + leap
      && DaysBeforeMonth(y, 11) == 304 + leap
      && DaysBeforeMonth(y, 12) == 334 + leap
  {
  }

  /** The six months from the first of a month in the first half of a year: 181 to 184 days. */
  lemma SixMonthsFromFirstHalf(y: int, m: int)
    requires 1 <= m <= 6
    ensures var span := DaysBeforeMonth(y, m + 6) - DaysBeforeMonth(y, m);
      && 181 <= span <= 184
      && span + (if DaysInMonth(y, m + 6) < DaysInMonth(y, m) then DaysInMonth(y, m + 6) - DaysInMonth(y, m) else 0) >= 181
  {
    MonthTable(y);
  }

  /** The six months from the first of a month in the second half of a year: 181 to 184 days. */
  lemma SixMonthsFromSecondHalf(y: int, m: int)
    requires 7 <= m <= 12
    ensures var span := YearLength(y) - DaysBeforeMonth(y, m) + DaysBeforeMonth(y + 1, m - 6);
      && 181 <= span <= 184
      && span + (if DaysInMonth(y + 1, m - 6) < DaysInMonth(y, m) then DaysInMonth(y + 1, m - 6) - DaysInMonth(y, m) else 0) >= 181
  {
    MonthTable(y);
    MonthTable(y + 1);
  }

  /** The first of the month six months on, and the days to it from the first of this month. */
  lemma SixMonthsFromFirst(y: int, m: int)
    requires 1 <= m <= 12
    ensures var t := FirstOfMonth(y, m + 5);
      var span := DayNumber(t) - DayNumber(Ymd(y, m, 1));
      && 181 <= span <= 184
      && span + (if DaysInMonth(t.year, t.month) < DaysInMonth(y, m) then DaysInMonth(t.year, t.month) - DaysInMonth(y, m) else 0) >= 181
  {
    FirstOfMonthDivides(y, m + 5);
    if m <= 6 {
      assert FirstOfMonth(y, m + 5) == Ymd(y, m + 6, 1);
      SixMonthsFromFirstHalf(y, m);
    } else {
      assert FirstOfMonth(y, m + 5) == Ymd(y + 1, m - 6, 1);
      YearStep(y);
      SixMonthsFromSecondHalf(y, m);
    }
  }

  /** Six calendar months from any day are between 181 and 184 days. */
  lemma SixMonthsSpan(start: Date)
    ensures var n := DayNumber(AddMonthsSameDay(start, 6)) - DayNumber(start);
      181 <= n <= 184
  {
    AddMonthsSameDayLands(start, 6);
    SixMonthsFromFirst(start.year, start.month);
  }

  /**
   * The cap counts exactly the days from the start date to the unadjusted deadline; for a
   * felony that is between 181 and 184 days, for the other levels 90, 60 or 30.
   */
  lemma CapCountsDaysToBase(level: string, startDateStr: string, start: Date)
    requires startDateStr != "" && LevelOf(level).Some?
    requires ParseLocalDate(startDateStr) == At(start)
    ensures var r := ComputeCapAndDeadline(level, startDateStr);
      var l := LevelOf(level).value;
      && r.capDays.Int?
      && AddDays(start, r.capDays.value) == BaseDeadline(l, start)
      && (if l.Felony? then 181 <= r.capDays.value <= 184 else r.capDays.value == FixedCap(l))
  {
    var l := LevelOf(level).value;
    var r := ComputeCapAndDeadline(level, startDateStr);
    if l.Felony? {
      SixMonthsSpan(start);
    }
    DayNumberInjective(AddDays(start, r.capDays.value), BaseDeadline(l, start));
  }

  /**
   * The deadline string names the adjusted deadline: it parses back to it, a day no earlier
   * than the unadjusted deadline, at most two days later and never a Sunday; the reason is
   * the adjustment's tooltip (the weekend text or the holiday skipped), empty exactly when the
   * deadline did not move.
   */
  lemma DeadlineStringNamesAdjustedDay(level: string, startDateStr: string, start: Date)
    requires startDateStr != "" && LevelOf(level).Some?
    requires ParseLocalDate(startDateStr) == At(start)
    requires start.year >= 100
    ensures var r := ComputeCapAndDeadline(level, startDateStr);
      var l := LevelOf(level).value;
      var deadline := CapDeadline(l, start);
      && ParseLocalDate(r.deadlineStr) == At(deadline)
      && DayNumber(BaseDeadline(l, start)) <= DayNumber(deadline) <= DayNumber(BaseDeadline(l, start)) + 2
      && Weekday(deadline) != 0
      && (r.tooltip == "" <==> deadline == BaseDeadline(l, start))
      && r.tooltip == Adjusted(BaseDeadline(l, start)).tooltip
  {
    var l := LevelOf(level).value;
    var base := BaseDeadline(l, start);
    AdjustedMovesForward(base);
    AdjustedUnchangedIff(base);
    DeadlineAfterStart(l, start);
    DayNumberOrdersYears(start, CapDeadline(l, start));
    ParseFormatRoundTrip(CapDeadline(l, start));
    if Adjusted(base).adjustedDate != base {
      AdjustmentGivesReason(base);
    }
  }

  /** A deadline that moved always says why. */
  lemma AdjustmentGivesReason(base: Date)
    requires Adjusted(base).adjustedDate != base
    ensures Adjusted(base).tooltip != ""
  {
    if Weekday(base) != 0 && Weekday(base) != 6 {
      assert ("Adjusted for " + HolidayName(base))[0] == 'A';
    }
  }

  /** The deadline does not come before the start date. */
  lemma DeadlineAfterStart(l: Level, start: Date)
    ensures DayNumber(start) <= DayNumber(BaseDeadline(l, start)) <= DayNumber(CapDeadline(l, start))
  {
    if l.Felony? {
      SixMonthsSpan(start);
    }
    AdjustedMovesForward(BaseDeadline(l, start));
  }

  // ---------------------------------------------------------------------------
  // computeQuickDeadline
  // ---------------------------------------------------------------------------

  datatype QuickDeadline = QuickDeadline(dateStr: string, tooltip: string, dateObj: Moment)

  /** `exDays || 0`: NaN counts as no excluded days. */
  function ExcludedOrZero(exDays: Number): int
  {
    if exDays.NaN? then 0 else exDays.value
  }

  /**
   * `computeQuickDeadline(level, startDateStr, exDays)`: the unadjusted deadline moved on by
   * the excluded days, then off weekends and holidays; shown with its weekday. No start date,
   * no level or an unknown level gives nothing.
   */
  function ComputeQuickDeadline(level: string, startDateStr: string, exDays: Number): (r: Option<QuickDeadline>)
    ensures r.None? <==> startDateStr == "" || LevelOf(level).None?
    ensures r.Some? ==> r.value.dateStr == FormatDateWithWeekday(r.value.dateObj)
    ensures r.Some? && r.value.dateObj.InvalidDate? ==> r.value.tooltip == ""
    ensures r.Some? && ParseLocalDate(startDateStr).At? ==>
      var extended := AddDays(BaseDeadline(LevelOf(level).value, ParseLocalDate(startDateStr).date), ExcludedOrZero(exDays));
      && r.value.dateObj == At(Adjusted(extended).adjustedDate)
      && r.value.tooltip == Adjusted(extended).tooltip
  {
    if startDateStr == "" || level == "" then None
    else
      match LevelOf(level)
      case None => None
      case Some(l) =>
        match ParseLocalDate(startDateStr)
        case InvalidDate => Some(QuickDeadline(FormatDateWithWeekday(InvalidDate), "", InvalidDate))
        case At(start) =>
          var extended := AddDays(BaseDeadline(l, start), ExcludedOrZero(exDays));
          var adjustment := Adjusted(extended);
          Some(QuickDeadline(FormatDateWithWeekday(At(adjustment.adjustedDate)), adjustment.tooltip,
                             At(adjustment.adjustedDate)))
  }

  /**
   * Each excluded day moves the quick deadline one day later, before the weekend and holiday
   * adjustment, which adds at most two days and never lands on a Sunday. The day and the
   * reason are those `adjustForWeekendOrHoliday` gives for the extended day.
   */
  lemma QuickDeadlineAddsExcludedDays(level: string, startDateStr: string, start: Date, exDays: Number)
    requires startDateStr != "" && LevelOf(level).Some?
    requires ParseLocalDate(startDateStr) == At(start)
    ensures var r := ComputeQuickDeadline(level, startDateStr, exDays);
      var b := DayNumber(BaseDeadline(LevelOf(level).value, start)) + ExcludedOrZero(exDays);
      var extended := AddDays(BaseDeadline(LevelOf(level).value, start), ExcludedOrZero(exDays));
      && r.Some? && r.value.dateObj.At?
      && b <= DayNumber(r.value.dateObj.date) <= b + 2
      && Weekday(r.value.dateObj.date) != 0
      && DayNumber(extended) == b
      && r.value.dateObj == At(Adjusted(extended).adjustedDate)
      && r.value.tooltip == Adjusted(extended).tooltip
  {
    var l := LevelOf(level).value;
    AdjustedMovesForward(AddDays(BaseDeadline(l, start), ExcludedOrZero(exDays)));
  }

  /** With no excluded days the quick calculator shows the same deadline and reason as the case view. */
  lemma QuickDeadlineAgreesWithCap(level: string, startDateStr: string, exDays: Number)
    requires startDateStr != "" && LevelOf(level).Some?
    requires exDays.NaN? || exDays == Int(0)
    ensures var q := ComputeQuickDeadline(level, startDateStr, exDays);
      var c := ComputeCapAndDeadline(level, startDateStr);
      q.Some? && FormatDate(q.value.dateObj) == c.deadlineStr && q.value.tooltip == c.tooltip
  {
    match ParseLocalDate(startDateStr)
    case InvalidDate =>
    case At(start) =>
      var base := BaseDeadline(LevelOf(level).value, start);
      DayNumberInjective(AddDays(base, 0), base);
  }

  // ---------------------------------------------------------------------------
  // daysUntilDeadline and formatDaysUntilDeadline
  // ---------------------------------------------------------------------------

  /**
   * `daysUntilDeadline(deadlineStr, fromDate)`: whole days from `from` to the deadline,
   * negative once it has passed; NaN when either day is an Invalid Date; nothing without a
   * deadline string.
   */
  function DaysUntilDeadline(deadlineStr: string, from: Moment): (days: Option<Number>)
    ensures days.None? <==> deadlineStr == ""
    ensures days.Some? && days.value.NaN?
      <==> deadlineStr != "" && (ParseLocalDate(deadlineStr).InvalidDate? || from.InvalidDate?)
  {
    if deadlineStr == "" then None
    else
      match (ParseLocalDate(deadlineStr), from)
      case (At(deadline), At(f)) => Some(Int(DayNumber(deadline) - DayNumber(f)))
      case _ => Some(NaN)
  }

  /**
   * For a formatted deadline, the count is the number of days to add to `from` to reach the
   * deadline: zero exactly on the deadline, positive exactly before it.
   */
  lemma DaysUntilReachesDeadline(deadline: Date, from: Date)
    requires deadline.year >= 100
    ensures var days := DaysUntilDeadline(FormatDate(At(deadline)), At(from));
      && days.Some? && days.value.Int?
      && AddDays(from, days.value.value) == deadline
      && (days.value.value == 0 <==> from == deadline)
      && (days.value.value > 0 <==> DayNumber(from) < DayNumber(deadline))
  {
    ParseFormatRoundTrip(deadline);
    var n := DayNumber(deadline) - DayNumber(from);
    DayNumberInjective(AddDays(from, n), deadline);
    SameDayIffSameNumber(from, deadline);
  }

  /** Counting to the deadline `computeCapAndDeadline` gives lands on the adjusted deadline. */
  lemma DaysUntilComputedDeadline(level: string, startDateStr: string, start: Date, from: Date)
    requires startDateStr != "" && LevelOf(level).Some?
    requires ParseLocalDate(startDateStr) == At(start)
    requires start.year >= 100
    ensures var days := DaysUntilDeadline(ComputeCapAndDeadline(level, startDateStr).deadlineStr, At(from));
      days.Some? && days.value.Int? && AddDays(from, days.value.value) == CapDeadline(LevelOf(level).value, start)
  {
    var deadline := CapDeadline(LevelOf(level).value, start);
    DeadlineAfterStart(LevelOf(level).value, start);
    DayNumberOrdersYears(start, deadline);
    DaysUntilReachesDeadline(deadline, from);
  }

  const UntilSuffix := " until 30.30 deadline"
  const PastSuffix := " past 30.30 deadline"
  const TodayText := "30.30 deadline today"

  /** `day${n === 1 ? '' : 's'}`, after its space. */
  function DayWord(n: int): string
  {
    if n == 1 then " day" else " days"
  }

  /** `${n} day${n === 1 ? '' : 's'}` */
  function DayCount(n: int): string
  {
    IntToString(n) + DayWord(n)
  }

  /**
   * `formatDaysUntilDeadline(days)`: "N days until 30.30 deadline", "30.30 deadline today"
   * or "N days past 30.30 deadline", one day in the singular; nothing prints as empty, and
   * NaN, which is neither positive nor zero, as "NaN days past 30.30 deadline".
   */
  function FormatDaysUntilDeadline(days: Option<Number>): (text: string)
    ensures text == "" <==> days.None?
  {
    match days
    case None => ""
    case Some(NaN) => "NaN days" + PastSuffix
    case Some(Int(n)) =>
      if n > 0 then DayCount(n) + UntilSuffix
      else if n == 0 then TodayText
      else DayCount(-n) + PastSuffix
  }

  /** The texts for no days, one day either way, and NaN, word for word. */
  lemma FormatSingularTexts()
    ensures FormatDaysUntilDeadline(Some(Int(0))) == TodayText
    ensures FormatDaysUntilDeadline(Some(Int(1))) == "1 day" + UntilSuffix
    ensures FormatDaysUntilDeadline(Some(Int(-1))) == "1 day" + PastSuffix
    ensures FormatDaysUntilDeadline(Some(NaN)) == "NaN days" + PastSuffix
  {
    assert IntToString(1) == "1" by {
      assert DigitChar(1) == '1';
    }
  }

  /** Any other count prints its absolute value and the plural "days", then "until" or "past". */
  lemma FormatPluralTexts(n: int)
    requires n > 1 || n < -1
    ensures n > 1 ==> FormatDaysUntilDeadline(Some(Int(n))) == IntToString(n) + " days" + UntilSuffix
    ensures n < -1 ==> FormatDaysUntilDeadline(Some(Int(n))) == IntToString(-n) + " days" + PastSuffix
  {
  }

  /** The index of the first `c` in `s`, or `|s|`. */
  function IndexOf(s: string, c: char): (k: nat)
    ensures k <= |s|
    ensures forall i :: 0 <= i < k ==> s[i] != c
    ensures k < |s| ==> s[k] == c
  {
    if |s| == 0 || s[0] == c then 0 else 1 + IndexOf(s[1..], c)
  }

  /**
   * Reads a text `formatDaysUntilDeadline` printed back into the day count: the number before
   * the first space, negated when the deadline is past.
   */
  function ReadDaysUntilDeadline(text: string): Option<Number>
  {
    if text == "" then None
    else if text == TodayText then Some(Int(0))
    else
      var k := IndexOf(text, ' ');
      ReadCount(StrToNumber(text[..k]), text[k..])
  }

  /**
   * The count read before the first space, given the rest of the text: a positive count with
   * its own day word and the "until" suffix as itself, with the "past" suffix negated, and NaN
   * only as "NaN days past"; any other text is not one the formatter prints.
   */
  function ReadCount(count: Number, rest: string): Option<Number>
  {
    if count.NaN? then (if rest == " days" + PastSuffix then Some(NaN) else None)
    else if count.value <= 0 then None
    else if rest == DayWord(count.value) + UntilSuffix then Some(count)
    else if rest == DayWord(count.value) + PastSuffix then Some(Int(-count.value))
    else None
  }

  lemma {:induction false} IndexOfAfterPrefix(a: string, b: string, c: char)
    requires forall i :: 0 <= i < |a| ==> a[i] != c
    requires |b| > 0 && b[0] == c
    ensures IndexOf(a + b, c) == |a|
    decreases |a|
  {
    if |a| > 0 {
      assert (a + b)[1..] == a[1..] + b;
      IndexOfAfterPrefix(a[1..], b, c);
    }
  }

  /** A printed positive count is followed by the suffix, and does not read as "today". */
  lemma CountSplits(n: int, suffix: string)
    requires n > 0 && |suffix| > 0 && suffix[0] == ' '
    ensures var text := IntToString(n) + suffix;
      && IndexOf(text, ' ') == |IntToString(n)|
      && text[..|IntToString(n)|] == IntToString(n)
      && text[|IntToString(n)|..] == suffix
      && text != TodayText
  {
    var digits := IntToString(n);
    var text := digits + suffix;
    DecimalValueOfNatToRadix(n);
    assert forall i :: 0 <= i < |digits| ==> IsDecimalDigit(digits[i]);
    IndexOfAfterPrefix(digits, suffix, ' ');
    assert text[..|digits|] == digits;
    assert text[|digits|..] == suffix;
    if |digits| >= 3 {
      assert IsDecimalDigit(text[2]);
      assert text[2] != TodayText[2];
    } else {
      assert text[|digits|] != TodayText[|digits|];
    }
  }

  /** The NaN text has its first space after "NaN". */
  lemma NaNTextSplits(text: string)
    requires text == "NaN days" + PastSuffix
    ensures IndexOf(text, ' ') == 3 && text[..3] == "NaN" && text[3..] == " days" + PastSuffix
    ensures text != TodayText
  {
    assert text[0] != TodayText[0];
    assert text == text[..3] + text[3..];
    IndexOfAfterPrefix(text[..3], text[3..], ' ');
  }

  /** `Number("NaN")` is NaN. */
  lemma NaNReads(s: string)
    requires s == "NaN"
    ensures StrToNumber(s) == NaN
  {
    TrimUnchanged(s);
    assert !IsDecimalDigit(s[0]);
  }

  /** A past text never ends like an ahead text. */
  lemma PastIsNotAhead(word: string)
    requires word == " day" || word == " days"
    ensures word + PastSuffix != word + UntilSuffix
  {
    var k := |word| + 1;
    assert (word + PastSuffix)[k] == 'p';
    assert (word + UntilSuffix)[k] != 'p';
  }

  /** A positive count followed by its day word and a suffix reads back by the suffix. */
  lemma ReadCountText(m: int, ahead: bool, text: string)
    requires m > 0
    requires text == IntToString(m) + DayWord(m) + (if ahead then UntilSuffix else PastSuffix)
    ensures ReadDaysUntilDeadline(text) == Some(Int(if ahead then m else -m))
  {
    var suffix := DayWord(m) + (if ahead then UntilSuffix else PastSuffix);
    assert text == IntToString(m) + suffix;
    CountSplits(m, suffix);
    StrToNumberOfIntToString(m);
    ReadSplitText(text, IntToString(m), m, suffix, ahead);
  }

  /** A text split at its first space into a count and its suffix reads as the count, negated after the past suffix. */
  lemma ReadSplitText(text: string, digits: string, m: int, suffix: string, ahead: bool)
    requires m > 0 && suffix == DayWord(m) + (if ahead then UntilSuffix else PastSuffix)
    requires |digits| < |text| && IndexOf(text, ' ') == |digits|
    requires text[..|digits|] == digits && text[|digits|..] == suffix && text != TodayText
    requires StrToNumber(digits) == Int(m)
    ensures ReadDaysUntilDeadline(text) == Some(Int(if ahead then m else -m))
  {
    var k := IndexOf(text, ' ');
    assert text[..k] == digits && text[k..] == suffix;
    assert ReadDaysUntilDeadline(text) == ReadCount(Int(m), suffix);
    ReadCountBySuffix(m, suffix, ahead);
  }

  /** A positive count is kept after its "until" suffix and negated after its "past" suffix. */
  lemma ReadCountBySuffix(m: int, suffix: string, ahead: bool)
    requires m > 0 && suffix == DayWord(m) + (if ahead then UntilSuffix else PastSuffix)
    ensures ReadCount(Int(m), suffix) == Some(Int(if ahead then m else -m))
  {
    if !ahead {
      PastIsNotAhead(DayWord(m));
    }
  }

  /** The reader holds the formatter to its number agreement: "1 days until" is not its text. */
  lemma ReadRejectsPluralOne()
    ensures ReadDaysUntilDeadline("1 days" + UntilSuffix) == None
  {
    var suffix := " days" + UntilSuffix;
    var text := "1 days" + UntilSuffix;
    assert IntToString(1) == "1" by {
      assert DigitChar(1) == '1';
    }
    assert text == IntToString(1) + suffix;
    CountSplits(1, suffix);
    StrToNumberOfIntToString(1);
    assert ReadDaysUntilDeadline(text) == ReadCount(Int(1), suffix);
  }

  /** A count ahead of the deadline reads back from its text. */
  lemma ReadFormatAhead(n: int, text: string)
    requires n > 0 && text == FormatDaysUntilDeadline(Some(Int(n)))
    ensures ReadDaysUntilDeadline(text) == Some(Int(n))
  {
    ReadCountText(n, true, text);
  }

  /** A count past the deadline reads back from its text. */
  lemma ReadFormatPast(n: int, text: string)
    requires n < 0 && text == FormatDaysUntilDeadline(Some(Int(n)))
    ensures ReadDaysUntilDeadline(text) == Some(Int(n))
  {
    ReadCountText(-n, false, text);
  }

  /** The NaN text reads back as NaN. */
  lemma ReadFormatNaN()
    ensures ReadDaysUntilDeadline(FormatDaysUntilDeadline(Some(NaN))) == Some(NaN)
  {
    var text := FormatDaysUntilDeadline(Some(NaN));
    NaNTextSplits(text);
    NaNReads("NaN");
    assert ReadDaysUntilDeadline(text) == ReadCount(NaN, " days" + PastSuffix);
  }

  /** Every text `formatDaysUntilDeadline` prints reads back as the count it was given. */
  lemma ReadFormatRoundTrip(days: Option<Number>)
    ensures ReadDaysUntilDeadline(FormatDaysUntilDeadline(days)) == days
  {
    match days
    case None =>
    case Some(NaN) =>
      ReadFormatNaN();
    case Some(Int(n)) =>
      if n > 0 {
        ReadFormatAhead(n, FormatDaysUntilDeadline(days));
      } else if n < 0 {
        ReadFormatPast(n, FormatDaysUntilDeadline(days));
      }
  }
}
