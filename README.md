# NYC case tracker: the speedy-trial deadline engine in Dafny

This project models the core of a browser tool that New York defence lawyers use to track criminal
cases against the speedy-trial rule of Criminal Procedure Law section 30.30. It proves properties of
that model. The core has these parts:

- **Calendar helpers** (`js/utils.js`):
  - local `YYYY-MM-DD` dates: parse, format, day and month arithmetic;
  - the eleven New York court holidays, and moving a deadline off a weekend or holiday;
  - `sanitizeString`, the 32-bit `calculateChecksum`, `validateExcludedDays` and `ncdClass`.
- **Deadline engine** (`js/calculations.js`): the cap per charge level, the adjusted deadline and the
  quick deadline with excludable days, and the signed days-until-deadline count with its text.
- **Record normaliser** (`js/storage.js`): an untrusted stored or imported case becomes a canonical
  record; a backup file becomes a list of records.
- **iCalendar export** (`js/calendar.js`): DATE values, TEXT escaping as in section 3.3.11 of RFC 5545,
  and the VCALENDAR line list of court dates.
- **Case-state rules of `js/app.js`**: total, excluded and chargeable days; the clock-stop freeze;
  excludable-window sums; the one-primary-charge rule; index-checked deletes; merge import by id; and
  the to-do deadline ordering.

Modules, one per file:

| file | module | models |
|---|---|---|
| `wrappers.dfy` | `Wrappers` | `Option` and `Result` |
| `js_values.dfy` | `JsValues` | JavaScript numbers (integer or NaN), `Number(s)`, `String(n)`, `trim`, `toString(36)` |
| `dates.dfy` | `Dates` | calendar days, day numbers, `parseLocalDate`, `formatDate`, the date arithmetic |
| `holidays.dfy` | `Holidays` | the n-th and last weekday of a month, `getHolidayName`, `adjustForWeekendOrHoliday` |
| `validation.dfy` | `Validation` | `sanitizeString`, `calculateChecksum`, `validateExcludedDays`, `ncdClass` |
| `calculations.dfy` | `Calculations` | `js/calculations.js` |
| `storage.dfy` | `Storage` | `normalizeCaseObject`, `validateAndNormalizeImportedCases` |
| `icalendar.dfy` | `ICalendar` | `js/calendar.js` |
| `case_state.dfy` | `CaseState` | the case-state rules of `js/app.js`; the open case is the class `OpenCase` |

**Dates.** A JavaScript `Date` at local midnight is modelled as a calendar day `Date` (year, month,
day). Each day has a day number counted from 1970-01-01, as in ECMAScript. An Invalid Date is
`Moment.InvalidDate`. `new Date(y, m, d)` carries an out-of-range month or day over, as JavaScript
does, and it reads years 0 to 99 as 1900 to 1999.

**Inputs the browser supplies.** "Today", the clock the export reads and generated ids are
parameters. The export reads the clock once per event, so it takes a function `clock` whose `k`-th
reading is the time stamp of the `k`-th event.
Client-name collation is the parameter `compareByClient`.

**Imperative parts.** The loops of the source are methods with loop invariants, each proved against
a function:

- the loop that moves a deadline off holidays (`Holidays.AdjustForWeekendOrHoliday`);
- the checksum loop (`Validation.CalculateChecksum`);
- the `forEach` of the iCalendar export (`ICalendar.ExportToCalendar`);
- the window-total loops (`CaseState.RecalcExCalcTotals`, `CaseState.RecalcModalExTotals`);
- the soonest-deadline loop (`CaseState.GetSoonestOutstandingTodoDeadline`).

The handlers that update the open case in place are methods of the class `CaseState.OpenCase`. Its
fields are the case's clock, its notes, its to-dos and its charges.

**Where the code behaves unexpectedly, the model follows the code:**

- **A deadline can land on a Saturday.** `adjustForWeekendOrHoliday` moves a Saturday or Sunday to
  Monday without checking holidays. On a weekday it skips holidays one day at a time, and it does not
  re-check the weekend.
  - A holiday on a Friday gives the Saturday after it (`Holidays.AdjustedNotIdempotent`: Friday
    2025-07-04 gives Saturday 2025-07-05).
  - The Sunday before a Monday holiday gives that holiday
    (`Holidays.SundayBeforeHolidayNotRechecked`: Sunday 2022-07-03 gives Monday 2022-07-04,
    Independence Day).
  - Adjusting twice can therefore move the date again.
- **`sanitizeString` is not idempotent.** Each `replace` runs once, so removing a match can join the
  text around it into a new match (`Validation.SanitizeNotIdempotent`).
- **The event description's separator is not a line break.** `exportToCalendar` joins the
  description parts with a literal backslash-n, then escapes the text. The separator comes out as
  `\\n` and reads back as a backslash followed by `n` (`ICalendar.SeparatorEscapedTwice`,
  `ICalendar.SeparatorReadsAsBackslashN`).
- **`daysBetween` and `ncdClass` lose a day across daylight saving.** They apply `Math.floor` to the
  milliseconds between two local midnights, and a span that crosses the spring change is an hour
  short of whole days. The model counts whole calendar days. "## Left out" gives the consequences.
- **An invalid to-do deadline can stick.** `getSoonestOutstandingTodoDeadline` compares with `<`. An
  Invalid Date taken first is never replaced, because no comparison with it is true
  (`CaseState.InvalidDeadlineSticks`).
- **Date round trips need a four-digit year.** `formatDate(parseLocalDate(s)) == s` holds for
  four-digit years without a leading zero. `parseLocalDate(formatDate(d)) == d` holds from year 100
  on. Below that, `new Date` reads the year as 19xx.

## Model

| member | source | states |
|---|---|---|
| `Dates.FormatParseRoundTrip` | js/utils.js:13-26 | formatting the parsed value of a zero-padded `YYYY-MM-DD` date string (four-digit year) gives the string back |
| `Dates.ParseFormatRoundTrip` | js/utils.js:13-26 | parsing the formatted text of any day from year 100 on gives that day back |
| `Dates.ParseIsoFields` | js/utils.js:13-16 | `parseLocalDate` of year, month and day digit fields joined by hyphens is the day they name |
| `Dates.FormatIsoFields` | js/utils.js:21-26 | `formatDate` of that day prints exactly those three digit fields |
| `Dates.FieldsOfDate` | js/utils.js:13-26 | the three printed fields of a day from year 100 on read back with `Number` as that day |
| `Dates.WeekdayFormatOfIsoString` | js/utils.js:32-39 | `formatDateWithWeekday` of a parsed ISO date string is that day's weekday name, then the string's own month, day and year digits in `MM/DD/YYYY` order |
| `Dates.SplitAfterField` | js/utils.js:14 | text before the first separator is the first field; the rest splits on its own |
| `Dates.DaysBetween` | js/utils.js:53-61 | an empty start date gives 0; an unparsable one gives NaN and only then; otherwise the number of calendar days from the start date to today, or 0 when the start is later |
| `Dates.DaysBetweenDates` | js/utils.js:66-73 | never negative; for an end date not before the start it is the exact number of days from start to end; otherwise 0 |
| `Dates.DaysBetweenAddDays` | js/utils.js:66-95 | the days between `a` and `addDays(a, n)` are `n` for every `n >= 0` |
| `Dates.AddDays` | js/utils.js:91-95 | `addDays(d, n)` is the day whose day number is `n` more |
| `Dates.AddMonthsSameDayLands` | js/utils.js:78-86 | `addMonthsSameDay(d, n)` is in the month `n` months on; it keeps the day of month when that month has it, else the month's last day |
| `Dates.SameDayOrMonthEnd` | js/utils.js:81-85 | setting the day in the target month, then `setDate(0)` on overflow, gives the kept day or the month end |
| `Dates.SetDate` | js/utils.js:93 | `setDate(dt)` moves by `dt` minus the current day of month, carrying into other months |
| `Dates.MakeDay` | js/utils.js:78-95 | a month and day out of range carry over as ECMAScript MakeDay does |
| `Dates.NewDateOfDate` | js/utils.js:15 | `new Date(y, m - 1, d)` of a calendar day from year 100 on is that day |
| `Dates.IsSameDay` | js/utils.js:100-106 | true exactly when year, month and day agree |
| `Dates.SameDayIffSameNumber` | js/utils.js:100-106 | same day exactly when the day numbers are equal |
| `Dates.DayNumberInjective` | js/utils.js:53-73 | different calendar days have different day numbers |
| `Dates.DaysBeforeYearFormula` | js/utils.js:53-73 | counting year by year agrees with ECMAScript's closed form DayFromYear |
| `Dates.FromDayNumber` | js/utils.js:91-95 | every day number names a calendar day |
| `Dates.FromDayNumberOfDayNumber` | js/utils.js:91-95 | the day of a day number is the day it came from |
| `Dates.Weekday` | js/utils.js:37 | `getDay()` is between 0 (Sunday) and 6 |
| `Dates.WeekdayAfter` | js/utils.js:37 | `n` days later the weekday has moved on by `n` modulo 7 |
| `Holidays.NthWeekdayOfMonthWindow` | js/utils.js:116-121 | the n-th given weekday of a month is in that month, has that weekday and falls on days `7(n-1)+1` to `7n` |
| `Holidays.NthFromFirst` | js/utils.js:116-121 | the offset from the first of the month reaches the requested weekday in the n-th week |
| `Holidays.LastWeekdayOfMonthWindow` | js/utils.js:126-131 | the last given weekday of a month is in that month, has that weekday and falls in its last seven days |
| `Holidays.LastFromEnd` | js/utils.js:126-131 | stepping back from the month's last day reaches the requested weekday within seven days |
| `Holidays.LastDayOfMonth` | js/utils.js:127 | `new Date(y, m + 1, 0)` is the last day of month `m` |
| `Holidays.FirstHolidayAt` | js/utils.js:136-193 | the name returned is that of the first rule in the table that falls on the day |
| `Holidays.FirstHolidayIndex` | js/utils.js:136-193 | a non-empty name comes from a rule that falls on the day |
| `Holidays.FixedRuleMatches` | js/utils.js:143-166 | a fixed-date holiday falls on its own date unless that is a Sunday, and then on the Monday after; a Saturday date is not moved |
| `Holidays.NthRuleMatches` | js/utils.js:168-190 | an n-th-weekday holiday falls on a day exactly when the day is that weekday in that week of the month |
| `Holidays.LastRuleMatches` | js/utils.js:176-178 | the last-Monday holiday falls on a day exactly when the day is a Monday in the month's last seven days |
| `Holidays.HolidayNameIsCourtHoliday` | js/utils.js:136-193 | `getHolidayName` is non-empty exactly on the calendar windows of the eleven court holidays, in years from 100 on |
| `Holidays.NamedIndependenceDay` | js/utils.js:153-156 | July 4 when not a Sunday, or Monday July 5, is named "Independence Day" |
| `Holidays.IndependenceDay2021Sunday` | js/utils.js:153-156 | Sunday July 4, 2021 has no holiday name |
| `Holidays.IndependenceDay2021Monday` | js/utils.js:153-156 | Monday July 5, 2021 is "Independence Day" |
| `Holidays.IndependenceDay2023` | js/utils.js:153-156 | Tuesday July 4, 2023 is "Independence Day" |
| `Holidays.SundayIsNoHoliday` | js/utils.js:136-193 | no Sunday has a holiday name |
| `Holidays.NoConsecutiveHolidayNames` | js/utils.js:136-193 | the day after a named holiday has no holiday name |
| `Holidays.AdjustForWeekendOrHoliday` | js/utils.js:198-218 | the loop returns exactly the adjustment defined by `Adjusted` |
| `Holidays.AdjustedMovesForward` | js/utils.js:198-218 | the adjusted day is the input or up to two days later, and never a Sunday |
| `Holidays.AdjustedWeekendToMonday` | js/utils.js:202-207 | a Saturday or Sunday moves to the Monday with its fixed tooltip, without a holiday re-check |
| `Holidays.AdjustedWeekdayNotHoliday` | js/utils.js:208-215 | from a weekday the result is not a holiday |
| `Holidays.AdjustedNamesHoliday` | js/utils.js:208-215 | a holiday on a weekday moves one day on, and the tooltip names the holiday skipped |
| `Holidays.AdjustedUnchangedIff` | js/utils.js:198-218 | the day stays put exactly when it is a weekday without a holiday, and then the tooltip is empty |
| `Holidays.AdjustedNotIdempotent` | js/utils.js:198-218 | Friday July 4, 2025 adjusts to Saturday July 5, and adjusting again gives Monday July 7 |
| `Holidays.SundayBeforeHolidayNotRechecked` | js/utils.js:205-207 | Sunday July 3, 2022 adjusts to Monday July 4, 2022, which is Independence Day |
| `Validation.SanitizeStringSafe` | js/utils.js:227-236 | the output is at most 1000 characters and holds no `<`, `>`, quote or control character |
| `Validation.SanitizeValueSafe` | js/utils.js:227-236 | `null` and `undefined` give `''`; every value gives safe text of at most 1000 characters |
| `Validation.SanitizeKeepsCleanText` | js/utils.js:227-236 | text with nothing to strip, already trimmed and short enough, comes back unchanged |
| `Validation.SanitizeRemovesJavascript` | js/utils.js:232 | `javascript:` alone sanitises to `''` |
| `Validation.SanitizeNotIdempotent` | js/utils.js:227-236 | `jjavascript:avascript:` sanitises to `javascript:`, which sanitises to `''` |
| `Validation.StripMarkup` | js/utils.js:230 | the result is no longer and holds no `<`, `>`, `'` or `"` |
| `Validation.StripControl` | js/utils.js:231 | the result is no longer, holds no character 0x00-0x1F or 0x7F, and adds no markup |
| `Validation.StripJavascript` | js/utils.js:232 | never lengthens and keeps safe text safe |
| `Validation.StripJavascriptKeeps` | js/utils.js:232 | text without `javascript:` in any case comes back unchanged |
| `Validation.StripHandlers` | js/utils.js:233 | never lengthens and keeps safe text safe |
| `Validation.StripHandlersKeeps` | js/utils.js:233 | text without an `on<word>=` match comes back unchanged |
| `Validation.HandlerMatch` | js/utils.js:233 | an `on\w+=` match is at least four characters long |
| `Validation.Wrap32` | js/utils.js:327-328 | `x & x` after `<<`: the 32-bit two's-complement value congruent to `x` |
| `Validation.CalculateChecksum` | js/utils.js:323-331 | the loop returns the base-36 text of the fold `hash := wrap32((hash << 5) - hash + charCode)` from 0 |
| `Validation.ChecksumIsPolynomialHash` | js/utils.js:323-331 | that fold equals the 32-bit wrap of the polynomial hash `sum of code(i) * 31^(n-1-i)` |
| `Validation.ValidateExcludedDays` | js/utils.js:277-294 | valid exactly when excluded is a non-negative number not above a numeric total; a non-numeric or negative count is the hard error |
| `Validation.ExceedMessageNamesNumbers` | js/utils.js:285-291 | more excluded than total days is a warning that quotes both numbers |
| `Validation.NcdClass` | js/utils.js:303-314 | `''` exactly for no date; red exactly for a past date; yellow for today through seven days on; green for later or unparsable dates |
| `JsValues.StrToNumberOfIntToString` | js/app.js:445-447 | `Number(String(n))` is `n` |
| `JsValues.IntToStringInjective` | js/storage.js:23-25 | different integers print differently |
| `JsValues.DecimalValueOfNatToRadix` | js/utils.js:330 | base-10 `toString` prints digits worth `n` |
| `JsValues.Trim` | js/utils.js:234 | `trim()` adds nothing, and neither end of a non-empty result is white space |
| `JsValues.TrimIsSlice` | js/utils.js:234 | `trim()` is a slice of the input, and everything it cuts off at either end is white space |
| `JsValues.TrimEmptyIff` | js/utils.js:234 | `trim()` is empty exactly when the input is all white space |
| `JsValues.JsRemainder` | js/utils.js:118-128 | `%` truncates: agrees with the Euclidean remainder for non-negative operands and stays within `(-b, b)` |
| `Calculations.LevelOf` | js/calculations.js:19-39 | exactly the four level names are known levels |
| `Calculations.ComputeCapAndDeadline` | js/calculations.js:19-45 | no deadline exactly when the start date is empty or the level is unknown, and then the result is `{0, '', ''}` |
| `Calculations.CapCountsDaysToBase` | js/calculations.js:25-36 | the cap is the days from start to the unadjusted deadline; a felony gives 181 to 184 days, the other levels 90, 60 and 30 |
| `Calculations.SixMonthsSpan` | js/calculations.js:25-27 | six calendar months from any day span 181 to 184 days |
| `Calculations.DeadlineStringNamesAdjustedDay` | js/calculations.js:41-44 | the deadline text parses to the adjusted day: no earlier than the unadjusted one, at most two days later, never a Sunday; the tooltip is `adjustForWeekendOrHoliday`'s for the unadjusted day (the weekend text or "Adjusted for" the holiday skipped), non-empty exactly when it moved |
| `Calculations.AdjustmentGivesReason` | js/calculations.js:41-44 | a deadline that moved carries a tooltip |
| `Calculations.DeadlineAfterStart` | js/calculations.js:19-45 | start, unadjusted deadline and adjusted deadline come in that order |
| `Calculations.ComputeQuickDeadline` | js/calculations.js:51-71 | `null` exactly when the start date is empty or the level unknown; otherwise the day and tooltip are `adjustForWeekendOrHoliday` of the unadjusted deadline plus `exDays || 0`, and the text is that day's weekday format |
| `Calculations.QuickDeadlineAddsExcludedDays` | js/calculations.js:62-70 | the quick deadline is the unadjusted deadline plus the excluded days (0 when NaN), then moved by `adjustForWeekendOrHoliday`, with its day and tooltip: at most two days later, never a Sunday |
| `Calculations.QuickDeadlineAgreesWithCap` | js/calculations.js:51-71 | with no excluded days the quick deadline is the same day, with the same tooltip, as `computeCapAndDeadline` |
| `Calculations.DaysUntilDeadline` | js/calculations.js:76-93 | `null` exactly for an empty deadline; NaN exactly when either date is invalid |
| `Calculations.DaysUntilReachesDeadline` | js/calculations.js:76-93 | the count added to the from-day gives the deadline; it is 0 on the deadline and positive exactly before it |
| `Calculations.DaysUntilComputedDeadline` | js/calculations.js:19-93 | counting to the computed deadline reaches the adjusted deadline |
| `Calculations.FormatDaysUntilDeadline` | js/calculations.js:98-109 | `''` exactly for `null` |
| `Calculations.FormatSingularTexts` | js/calculations.js:101-108 | 0 prints "30.30 deadline today", 1 and -1 print "1 day until/past 30.30 deadline" in the singular, NaN prints "NaN days past 30.30 deadline" |
| `Calculations.FormatPluralTexts` | js/calculations.js:101-108 | any other count prints its absolute value with "days", then "until" when positive and "past" when negative |
| `Calculations.ReadRejectsPluralOne` | js/calculations.js:102 | the reader accepts only the formatter's number agreement: "1 days until 30.30 deadline" reads as nothing |
| `Calculations.ReadFormatRoundTrip` | js/calculations.js:98-109 | the text reads back as the count it came from, under a reader that accepts only a positive count with its own day word and an exact suffix, "30.30 deadline today" and "NaN days past" |
| `Storage.NormalizeCaseObject` | js/storage.js:15-138 | a record exactly for an object or array input; `null` and every other value give `null` |
| `Storage.NormalizedIsWellFormed` | js/storage.js:15-138 | every normalised record has whitelisted levels, count strings, sanitised text and clean entries |
| `Storage.EntriesClean` | js/storage.js:52-104 | every phone, email, note, window, to-do and charge of a record is sanitised |
| `Storage.WhitelistLevel` | js/storage.js:21 | the level is `''` or one of the four names, and a kept name is the input's |
| `Storage.ChargeLevelWhitelist` | js/storage.js:21 | a known level name is kept, and any other value becomes `''` |
| `Storage.IdKeptOrGenerated` | js/storage.js:18 | a truthy id is kept as its string; only a missing one is generated |
| `Storage.CoerceCountReads` | js/storage.js:23-25 | a coerced count is a decimal string that reads back as the number, and coercing it again changes nothing |
| `Storage.CoerceCountValues` | js/storage.js:23-25 | a number becomes its decimal string; a non-numeric or missing value becomes `"0"` |
| `Storage.FrozenDays` | js/storage.js:34-37 | a number gives itself; a string gives its value exactly when `Number` reads it, and null otherwise; any other value gives null |
| `Storage.FrozenDaysRoundTrip` | js/storage.js:34-37 | a number, or its decimal string, gives that number |
| `Storage.ContactsMigrate` | js/storage.js:52-66 | an array maps entry by entry, in order, to the entry's sanitised number (address) and note and its own truthy id as a string or the id generated for its position; else a non-empty legacy phone or email becomes one `*-legacy` entry; else the list is empty |
| `Storage.TodoCompletedIff` | js/storage.js:86-93 | a to-do is completed exactly when `completed` or `done` was truthy |
| `Storage.WindowFields` | js/storage.js:77-85 | `arguable` is the truthiness of the field; a missing start or end becomes `''` |
| `Storage.ValidateAndNormalizeImportedCases` | js/storage.js:143-151 | an error exactly for a non-object, "Unsupported backup format"; a single object gives a one-element list |
| `Storage.ImportKeepsObjects` | js/storage.js:143-151 | a list of objects gives one record per element, in order |
| `Storage.ImportDropsOthers` | js/storage.js:145-146 | an array with no object at all gives no case |
| `Storage.ImportStep` | js/storage.js:145-146 | one more array element adds its normalised case after the others when it is an object, and nothing when it is not; with `ImportDropsOthers` on the empty array this fixes the import of every array |
| `Storage.FilterSomeAppend` | js/storage.js:146 | the `filter` of a concatenation is the concatenation of the filters |
| `Storage.ImportedAreWellFormed` | js/storage.js:143-151 | every imported record is well formed |
| `Storage.FilterSomeAllPresent` | js/storage.js:146 | the `filter` drops nothing when every entry is present, and keeps the order |
| `ICalendar.FormatICalDateDropsHyphens` | js/calendar.js:11-13 | the DATE value is `formatDate` with every hyphen removed |
| `ICalendar.ICalDateDigits` | js/calendar.js:11-13 | for four-digit years it is eight digits `YYYYMMDD` that read back as the day |
| `ICalendar.ICalDateOfIsoString` | js/calendar.js:11-13 | of a parsed ISO date string it is the string's own digits without the hyphens |
| `ICalendar.EscapeRoundTrip` | js/calendar.js:25-31 | unescaping by section 3.3.11 of RFC 5545 recovers the text exactly |
| `ICalendar.EscapeIsEscaped` | js/calendar.js:25-31 | escaped text has no raw newline, and every `;` and `,` in it follows a backslash |
| `ICalendar.EscapeAppend` | js/calendar.js:25-31 | escaping works character by character |
| `ICalendar.SeparatorEscapedTwice` | js/calendar.js:57-67 | the literal backslash-n separator comes out as `\\n` |
| `ICalendar.SeparatorReadsAsBackslashN` | js/calendar.js:57-67 | the separator reads back as a backslash and `n`, not a newline |
| `ICalendar.DescriptionPartsOrder` | js/calendar.js:57-67 | "On for:" comes first and only when an appearance type is set; "ADA:" comes last |
| `ICalendar.ExportToCalendar` | js/calendar.js:36-101 | with no dated case, the error "No court dates to export"; otherwise the CRLF-joined lines, with one clock reading per event, and the number of dated cases |
| `ICalendar.AddEvents` | js/calendar.js:47-89 | the loop leaves the header and one event block per dated case, counting them |
| `ICalendar.AddEvent` | js/calendar.js:48-88 | one step adds the case's block exactly when it has a court date |
| `ICalendar.CalendarFrame` | js/calendar.js:37-43 | the lines start with the five header lines, end with `END:VCALENDAR` and hold 14 lines per event |
| `ICalendar.EventLinesLength` | js/calendar.js:47-89 | the events take 14 lines per dated case |
| `ICalendar.EventBlockAt` | js/calendar.js:47-89 | the k-th block of lines is the event of the k-th dated case, in input order, stamped with the clock's k-th reading |
| `ICalendar.NoDatedCasesIff` | js/calendar.js:93-95 | there is no event exactly when no case has a court date |
| `ICalendar.DatedCasesMembers` | js/calendar.js:48 | a case gets an event exactly when it is in the input with a court date |
| `ICalendar.EventFields` | js/calendar.js:70-85 | an event has `UID:<id>@nycasetracker.com`, `DTSTAMP:` with its own clock reading, `DTSTART;VALUE=DATE:` with the court date's digits and an alarm `TRIGGER:-P1D` |
| `ICalendar.EventLinesOfFields` | js/calendar.js:70-85 | an event block is 14 lines from `BEGIN:VEVENT` to `END:VEVENT` |
| `CaseState.CocTotalCountsToCoc` | js/app.js:433-436 | with a certificate of compliance filed, the total is the days from start to its date, at least 0 |
| `CaseState.StoppedTotalIgnoresToday` | js/app.js:433-440 | a COC or a stopped clock fixes the total whatever today is; a stopped clock gives its snapshot |
| `CaseState.RunningTotalAdvances` | js/app.js:441-442 | a running clock's total grows by one each calendar day (counted in whole days; see "## Left out" on daylight saving) |
| `CaseState.ChargeableDays` | js/app.js:462 | NaN exactly for a NaN total; otherwise `max(0, total - excluded)`, never negative |
| `CaseState.LegacyCountIgnoredOnceSplit` | js/app.js:445-460 | once a definite or arguable count is set, the legacy count does not matter |
| `CaseState.LegacyCountWithoutSplit` | js/app.js:445-451 | without them, the legacy count is the excluded days |
| `CaseState.DefOnlyChargesNoLess` | js/app.js:452-460 | counting only definite days excludes no more and charges no fewer |
| `CaseState.WrittenTotalsAgree` | js/app.js:445-460 | totals written by the window calculator read back as definite plus arguable, or definite alone |
| `CaseState.SubmitClockKeepsConsistent` | js/app.js:981-990 | after a submit the flag is the one submitted, and a snapshot exists exactly while stopped |
| `CaseState.StopSnapshotsToday` | js/app.js:981-990 | stopping snapshots the days so far; saving again while stopped keeps the snapshot |
| `CaseState.StopThenRestart` | js/app.js:1234-1243 | restarting clears the snapshot |
| `CaseState.OpenCase.constructor` | js/app.js:1202-1247 | the open case holds the stored record's clock, notes, to-dos and charges |
| `CaseState.OpenCase.SaveClock` | js/app.js:1209-1243 | the form's level and start date are stored, the new clock is the freeze transition of the old one taken from the new start date, and the lists stay |
| `CaseState.OpenCase.DeleteNote` | js/app.js:1386-1390 | an in-range, confirmed index removes exactly that note; anything else leaves the list |
| `CaseState.OpenCase.DeleteTodo` | js/app.js:1555-1559 | an in-range, confirmed index removes exactly that to-do; anything else leaves the list |
| `CaseState.OpenCase.DeleteCharge` | js/app.js:1736-1751 | a confirmed, in-range index removes exactly that charge; at most one primary stays at most one |
| `CaseState.OpenCase.SaveNewCharge` | js/app.js:1676-1716 | a blank name changes nothing; else a sanitised charge is appended, a primary one clears every other primary flag and sets the level from its class |
| `CaseState.OpenCase.AddCharge` | js/app.js:1698-1715 | appends the charge, clearing other primaries for a primary one; keeps at most one primary |
| `CaseState.OpenCase.ClearPrimaryFlags` | js/app.js:1698-1700 | every charge loses its primary flag and nothing else |
| `CaseState.OpenCase.SetPrimaryCharge` | js/app.js:1753-1774 | an in-range index becomes the only primary charge and sets the level from its class; else nothing changes |
| `CaseState.RemoveAtShifts` | js/app.js:1390 | `splice(i, 1)` keeps the elements before `i`, shifts the rest down by one and removes exactly one element |
| `CaseState.AddedPrimaryIsOnlyPrimary` | js/app.js:1698-1716 | after adding a primary charge it is the only primary, and the other charges are unchanged but for the flag |
| `CaseState.AddedSecondaryKeepsOnePrimary` | js/app.js:1698-1716 | adding a non-primary charge keeps at most one primary |
| `CaseState.OnlyPrimaryMarksOne` | js/app.js:1765-1768 | exactly the chosen charge is primary, the others unchanged but for the flag |
| `CaseState.RemoveAtKeepsOnePrimary` | js/app.js:1746-1748 | deleting a charge keeps at most one primary |
| `CaseState.WindowDaysInclusive` | js/app.js:1872-1876 | a window counts days exactly when both dates parse and the end is not before the start, and then end minus start plus one |
| `CaseState.WindowOfFormattedDays` | js/app.js:1872-1876 | a window from a day to `k` days later counts `k + 1` days |
| `CaseState.SplitCountsEveryWindowOnce` | js/app.js:2057-2063 | definite plus arguable is the sum over all windows |
| `CaseState.TickingMovesDays` | js/app.js:1877-1878 | marking a window arguable moves its days from the definite to the arguable total |
| `CaseState.KeptWindowsAreClean` | js/app.js:1883-1890 | the kept windows are no more than the rows, with sanitised reasons |
| `CaseState.RecalcExCalcTotals` | js/app.js:1859-1897 | the loop returns the definite and arguable totals and the kept windows |
| `CaseState.AddExCalcRow` | js/app.js:1865-1891 | one row adds its days to its total and keeps its window |
| `CaseState.CountRow` | js/app.js:1872-1880 | one row adds its inclusive day count to the definite or the arguable total |
| `CaseState.KeepRow` | js/app.js:1883-1890 | one row keeps its window when it has a start date, an end date or a non-blank reason |
| `CaseState.RecalcModalExTotals` | js/app.js:2028-2065 | the texts written are the definite total, the arguable total and their sum over all windows |
| `CaseState.MergeAddsNewIds` | js/app.js:2251-2258 | existing cases keep their place; an imported case is added exactly when its id is new |
| `CaseState.MergeTwiceSameAsOnce` | js/app.js:2251-2258 | merging the same normalised list twice equals merging it once (a backup re-imported with id-less cases is normalised with fresh ids, so its cases are added again) |
| `CaseState.GetSoonestOutstandingTodoDeadline` | js/app.js:670-681 | the loop returns the soonest deadline of the outstanding to-dos |
| `CaseState.OutstandingDeadlinesEmpty` | js/app.js:670-681 | there is no deadline exactly when no to-do is outstanding |
| `CaseState.OutstandingDeadlineListed` | js/app.js:670-681 | every outstanding to-do's deadline is considered |
| `CaseState.SoonestExists` | js/app.js:670-681 | a soonest deadline exists exactly when some deadline does, and it is one of them |
| `CaseState.SoonestIsMinimum` | js/app.js:670-681 | among valid deadlines the result is no later than any of them |
| `CaseState.SoonestDeadlineNoLater` | js/app.js:670-681 | the soonest deadline is no later than any outstanding to-do's deadline |
| `CaseState.InvalidDeadlineSticks` | js/app.js:675-678 | an Invalid Date taken first is never replaced |
| `CaseState.DeadlineBeforeNone` | js/app.js:683-693 | a case with a to-do deadline sorts before a case without one |
| `CaseState.EarlierDeadlineFirst` | js/app.js:683-693 | an earlier deadline sorts first |
| `CaseState.CompareAntisymmetric` | js/app.js:683-693 | swapping the two cases flips the sign of the comparison, given that client order does |

## Left out

- Milliseconds, time zones and daylight saving of JavaScript `Date`: dates are whole calendar days.
  `daysBetweenDates` and `daysUntilDeadline` round the millisecond difference of two local midnights
  with `Math.round`, which gives whole calendar days across a daylight-saving change as well.
  `daysBetween` and `ncdClass` use `Math.floor`, which does not.
- `Dates.DaysBetween`: in a time zone with daylight saving, the source counts one day fewer when the
  span crosses the spring change, and the model does not. In New York, start 2024-01-01 with today
  2024-04-01 gives 90 days where the model gives 91. The running total stays the same from
  2024-03-10 to 2024-03-11, where `CaseState.RunningTotalAdvances` says it grows by one.
- `Validation.NcdClass`: for the same reason, a court date eight days ahead across the spring change
  is yellow in the source, and green in the model.
- Numbers are integers or NaN. Fractions, infinities, exponent notation and hexadecimal text are not
  modelled in `Number(s)`.
- Strings are sequences of characters. UTF-16 surrogate pairs are not modelled. White space is
  ECMAScript's WhiteSpace and LineTerminator set, as `String.prototype.trim` uses it.
- The browser clock, `Math.random` and `Date.now` are parameters: today's date, the export's clock
  readings (the text `formatICalTimestamp` returns) and the generated ids.
- `localeCompare` collation in `compareByClient` is the parameter `compareByClient`.
- `js/crypto.js`, `loadCases`, `saveCases`, `clearAllCases`, `JSON.parse`, `JSON.stringify` and
  `FileReader`: persistence and encryption I/O. Records arrive as the `Json` datatype.
- The DOM: rendering, toasts, modals, the confirm dialog (a `confirmed` parameter) and the
  excludable window rows' "N day(s)" labels.
- `validateDateRange`, `formatShortWeekday` and `debounce`: not part of the deadline engine.
- `saveModalChanges` and `handleCaseFormSubmit` copy many form fields. Only the charge level, the
  start date and the clock freeze are modelled. The toast that asks for a COC date is also left out.
- `CaseState.OpenCase.constructor`: a non-string start date is read as `''`.
- `ICalendar.ExportToCalendar`: court dates reach it as strings. The record normaliser keeps any
  truthy `nextCourtDate`, so an imported number such as `20240105` survives it, and in the source
  `parseLocalDate` then throws a TypeError on `split`. The model has no such date and no such throw.
- `CaseState.CocTotalCountsToCoc`: the start and COC dates reach the day count as strings. A truthy
  non-string date from an import makes `parseLocalDate` throw in the source; the model does not
  represent it. The same holds for `CaseState.StoppedTotalIgnoresToday` and
  `CaseState.RunningTotalAdvances`.
- A NaN snapshot would be stored as `null` by `JSON.stringify`. That is not modelled.
- The `Array.isArray` guards in the delete and primary-charge handlers always pass on normalised
  records, so they are not modelled.
- `Dates.FormatParseRoundTrip`: stated for four-digit years without a leading zero. Other years do
  not round-trip in the source.
- `Dates.ParseFormatRoundTrip`: stated from year 100 on. Earlier years are read as 19xx by
  `new Date`.
- `ICalendar.ICalDateDigits`: stated for years 1000 to 9999. Other years do not give eight digits.
- ECMAScript TimeClip: a `Date` more than 8.64e15 ms from the epoch (beyond about year 275760 either
  way) is an Invalid Date in JavaScript. The model has no such bound and gives a valid day, for
  example for "300000-01-01".
