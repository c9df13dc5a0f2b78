/**
 * The case-state rules of the page script (js/app.js): which day count a case shows as its
 * total, how excluded and chargeable days follow from it, the clock-stop freeze, the summing
 * of excludable windows, the charges and their single primary charge, index-checked deletion
 * from a case's lists, the merge of an imported backup, and the to-do deadline ordering.
 * The DOM that these rules read from and write to is replaced by parameters and results.
 */
module CaseState {
  import opened Wrappers
  import opened JsValues
  import opened Dates
  import opened Validation
  import opened Storage

  // ---------------------------------------------------------------------------
  // Total, excluded and chargeable days (createCaseRow, createMobileCard)
  // ---------------------------------------------------------------------------

  /** `Math.max(0, n)`, NaN staying NaN. */
  function MaxZero(n: Number): Number
  {
    match n
    case NaN => NaN
    case Int(v) => Int(if v < 0 then 0 else v)
  }

  /** `Utils.daysBetweenDates(s, d)` on two parsed dates: NaN when either is an Invalid Date. */
  function DaysBetweenMoments(start: Moment, end: Moment): Number
  {
    if start.InvalidDate? || end.InvalidDate? then NaN else Int(DaysBetweenDates(start.date, end.date))
  }

  /** The fields of a case that its day count reads. */
  datatype CaseClock = CaseClock(startDate: string, cocFiled: bool, cocDate: string,
                                 clockStopped: bool, frozenTotalDays: Option<Number>)

  /** The clock has stopped because the certificate of compliance was filed on a known date. */
  predicate CocCounted(c: CaseClock)
  {
    c.cocFiled && c.cocDate != "" && c.startDate != ""
  }

  /** The clock is stopped and holds a snapshot. */
  predicate FrozenCounted(c: CaseClock)
  {
    !CocCounted(c) && c.clockStopped && c.frozenTotalDays.Some?
  }

  /**
   * The total day count of a case on day `today`: the days from the start date to the COC
   * date once a COC is filed, else the frozen snapshot of a stopped clock, else the days
   * from the start date to today.
   */
  function TotalDays(c: CaseClock, today: Date): Number
  {
    if CocCounted(c) then MaxZero(DaysBetweenMoments(ParseLocalDate(c.startDate), ParseLocalDate(c.cocDate)))
    else if c.clockStopped && c.frozenTotalDays.Some? then c.frozenTotalDays.value
    else DaysBetween(c.startDate, today)
  }

  /** With a COC, the total counts the days from the start date up to the COC date, never below zero. */
  lemma CocTotalCountsToCoc(c: CaseClock, today: Date)
    requires CocCounted(c)
    requires ParseLocalDate(c.startDate).At? && ParseLocalDate(c.cocDate).At?
    ensures var s := ParseLocalDate(c.startDate).date;
      var e := ParseLocalDate(c.cocDate).date;
      var t := TotalDays(c, today);
      && t.Int? && t.value >= 0
      && (DayNumber(s) <= DayNumber(e) ==> DayNumber(s) + t.value == DayNumber(e))
      && (DayNumber(e) <= DayNumber(s) ==> t.value == 0)
  {
  }

  /** A COC total and a frozen total do not move with the calendar. */
  lemma StoppedTotalIgnoresToday(c: CaseClock, today: Date, later: Date)
    requires CocCounted(c) || FrozenCounted(c)
    ensures TotalDays(c, today) == TotalDays(c, later)
    ensures FrozenCounted(c) ==> TotalDays(c, today) == c.frozenTotalDays.value
  {
  }

  /** A running clock counts one more day each day once the start date has come. */
  lemma RunningTotalAdvances(c: CaseClock, today: Date)
    requires !CocCounted(c) && !FrozenCounted(c)
    requires c.startDate != "" && ParseLocalDate(c.startDate).At?
    requires DayNumber(ParseLocalDate(c.startDate).date) <= DayNumber(today)
    ensures TotalDays(c, today).Int? && TotalDays(c, AddDays(today, 1)).Int?
    ensures TotalDays(c, AddDays(today, 1)).value == TotalDays(c, today).value + 1
  {
    var s := ParseLocalDate(c.startDate).date;
    var t := TotalDays(c, today);
    var u := TotalDays(c, AddDays(today, 1));
    assert t == Int(DaysBetweenDates(s, today));
    assert u == Int(DaysBetweenDates(s, AddDays(today, 1)));
  }

  /** Which count the view may leave out: whether arguable windows count as excluded. */
  datatype ExcludeMode = DefOnly | DefAndArguable

  /** `Number(v) || 0` */
  function CountOrZero(v: string): int
  {
    var n := StrToNumber(v);
    if n.NaN? then 0 else n.value
  }

  /**
   * The excluded days: the definite count alone or with the arguable count once either is
   * non-zero, and otherwise the legacy single count.
   */
  function ExcludedDays(excludedDays: string, definitelyExcludedDays: string, arguablyExcludedDays: string,
                        mode: ExcludeMode): int
  {
    var defEx := CountOrZero(definitelyExcludedDays);
    var argEx := CountOrZero(arguablyExcludedDays);
    if defEx != 0 || argEx != 0 then (if mode == DefOnly then defEx else defEx + argEx)
    else CountOrZero(excludedDays)
  }

  /** `Math.max(0, totalDays - excluded)` */
  function ChargeableDays(total: Number, excluded: int): (n: Number)
    ensures n.NaN? <==> total.NaN?
    ensures n.Int? ==> n.value >= 0 && n.value >= total.value - excluded
    ensures n.Int? && total.value - excluded > 0 ==> n.value == total.value - excluded
    ensures n.Int? && total.value - excluded <= 0 ==> n.value == 0
  {
    match total
    case NaN => NaN
    case Int(t) => MaxZero(Int(t - excluded))
  }

  /** Once a definite or arguable count is set, the legacy count no longer matters. */
  lemma LegacyCountIgnoredOnceSplit(simple1: string, simple2: string, def: string, arg: string, mode: ExcludeMode)
    requires CountOrZero(def) != 0 || CountOrZero(arg) != 0
    ensures ExcludedDays(simple1, def, arg, mode) == ExcludedDays(simple2, def, arg, mode)
  {
  }

  /** Without split counts the legacy count is used whatever the mode. */
  lemma LegacyCountWithoutSplit(simple: string, def: string, arg: string, mode: ExcludeMode)
    requires CountOrZero(def) == 0 && CountOrZero(arg) == 0
    ensures ExcludedDays(simple, def, arg, mode) == CountOrZero(simple)
  {
  }

  /**
   * Leaving out a non-negative arguable count never excludes more and so never leaves fewer
   * chargeable days.
   */
  lemma DefOnlyChargesNoLess(simple: string, def: string, arg: string, total: Number)
    requires CountOrZero(arg) >= 0
    ensures ExcludedDays(simple, def, arg, DefOnly) <= ExcludedDays(simple, def, arg, DefAndArguable)
    ensures total.Int? ==>
      ChargeableDays(total, ExcludedDays(simple, def, arg, DefOnly)).value
      >= ChargeableDays(total, ExcludedDays(simple, def, arg, DefAndArguable)).value
  {
  }

  /**
   * The three counts the window calculator writes back (definite, arguable and their sum, as
   * text that reads back as those numbers, which `StrToNumberOfIntToString` gives for
   * `String(n)`): "both counted" excludes the full window total, and "definite only" the
   * definite total, except that with no window days at all both fall back to the legacy
   * count, which is then zero as well.
   */
  lemma WrittenTotalsAgree(simpleText: string, defText: string, argText: string, totalDef: nat, totalArg: nat)
    requires StrToNumber(simpleText) == Int(totalDef + totalArg)
    requires StrToNumber(defText) == Int(totalDef) && StrToNumber(argText) == Int(totalArg)
    ensures ExcludedDays(simpleText, defText, argText, DefAndArguable) == totalDef + totalArg
    ensures ExcludedDays(simpleText, defText, argText, DefOnly) == totalDef
  {
    assert CountOrZero(defText) == totalDef && CountOrZero(argText) == totalArg;
    assert CountOrZero(simpleText) == totalDef + totalArg;
  }

  // ---------------------------------------------------------------------------
  // The clock-stop freeze (handleCaseFormSubmit, saveModalChanges)
  // ---------------------------------------------------------------------------

  datatype ClockState = ClockState(clockStopped: bool, frozenTotalDays: Option<Number>)

  /**
   * The edit form's rule: stopping a running clock snapshots the days since the start date,
   * restarting a stopped clock drops the snapshot, and an unchanged flag keeps both.
   */
  function SubmitClock(existing: ClockState, clockStopped: bool, startDate: string, today: Date): ClockState
  {
    if clockStopped && !existing.clockStopped then ClockState(true, Some(DaysBetween(startDate, today)))
    else if !clockStopped && existing.clockStopped then ClockState(false, None)
    else existing
  }

  /** A stopped clock holds a snapshot and a running one holds none. */
  predicate ClockConsistent(s: ClockState)
  {
    s.clockStopped <==> s.frozenTotalDays.Some?
  }

  /** The new flag is taken, and a consistent clock stays consistent. */
  lemma SubmitClockKeepsConsistent(existing: ClockState, clockStopped: bool, startDate: string, today: Date)
    requires ClockConsistent(existing)
    ensures SubmitClock(existing, clockStopped, startDate, today).clockStopped == clockStopped
    ensures ClockConsistent(SubmitClock(existing, clockStopped, startDate, today))
  {
  }

  /** Stopping records the day count of that moment, which then stays while the flag stays. */
  lemma StopSnapshotsToday(existing: ClockState, startDate: string, today: Date, later: Date)
    requires !existing.clockStopped
    ensures var stopped := SubmitClock(existing, true, startDate, today);
      && stopped.frozenTotalDays == Some(DaysBetween(startDate, today))
      && SubmitClock(stopped, true, startDate, later) == stopped
  {
  }

  /** Stopping and then restarting leaves a running clock with no snapshot. */
  lemma StopThenRestart(existing: ClockState, startDate: string, today: Date, later: Date)
    requires !existing.clockStopped
    ensures SubmitClock(SubmitClock(existing, true, startDate, today), false, startDate, later) == ClockState(false, None)
  {
  }

  /**
   * The case being edited in the case modal: the fields the modal's handlers change in place.
   */
  class OpenCase {
    var startDate: string
    var chargeLevel: string
    var clockStopped: bool
    var frozenTotalDays: Option<Number>
    var noteEntries: seq<NoteEntry>
    var todos: seq<Todo>
    var charges: seq<Charge>

    constructor (c: CaseRecord)
      ensures startDate == (if c.startDate.Str? then c.startDate.s else "")
      ensures chargeLevel == c.chargeLevel && clockStopped == c.clockStopped
      ensures frozenTotalDays == (if c.frozenTotalDays.Some? then Some(Int(c.frozenTotalDays.value)) else None)
      ensures noteEntries == c.noteEntries && todos == c.todos && charges == c.charges
    {
      startDate := if c.startDate.Str? then c.startDate.s else "";
      chargeLevel := c.chargeLevel;
      clockStopped := c.clockStopped;
      frozenTotalDays := if c.frozenTotalDays.Some? then Some(Int(c.frozenTotalDays.value)) else None;
      noteEntries := c.noteEntries;
      todos := c.todos;
      charges := c.charges;
    }

    function Clock(): ClockState
      reads this
    {
      ClockState(clockStopped, frozenTotalDays)
    }

    /**
     * The level, start date and freeze steps of `saveModalChanges`: the form's level and start
     * date are stored first, then the snapshot is taken from the new start date or dropped, then
     * the flag is set; the outcome is the edit form's rule.
     */
    method SaveClock(newChargeLevel: string, newStartDate: string, newClockStopped: bool, today: Date)
      modifies this
      ensures startDate == newStartDate && chargeLevel == newChargeLevel
      ensures Clock() == SubmitClock(old(Clock()), newClockStopped, newStartDate, today)
      ensures noteEntries == old(noteEntries) && todos == old(todos) && charges == old(charges)
    {
      chargeLevel := newChargeLevel;
      startDate := newStartDate;
      var wasStopped := clockStopped;
      if !wasStopped && newClockStopped {
        frozenTotalDays := Some(DaysBetween(startDate, today));
      } else if wasStopped && !newClockStopped {
        frozenTotalDays := None;
      }
      clockStopped := newClockStopped;
    }

    /** `deleteNoteFromCurrentCase(noteIndex)`: removes the note when the index is in range and the user confirms. */
    method DeleteNote(noteIndex: int, confirmed: bool)
      modifies this
      ensures noteEntries == if 0 <= noteIndex < |old(noteEntries)| && confirmed
                             then RemoveAt(old(noteEntries), noteIndex) else old(noteEntries)
      ensures todos == old(todos) && charges == old(charges) && Clock() == old(Clock())
      ensures startDate == old(startDate) && chargeLevel == old(chargeLevel)
    {
      if noteIndex < 0 || noteIndex >= |noteEntries| {
        return;
      }
      if !confirmed {
        return;
      }
      noteEntries := RemoveAt(noteEntries, noteIndex);
    }

    /** `deleteTodoFromCurrentCase(todoIndex)`: removes the to-do when the index is in range and the user confirms. */
    method DeleteTodo(todoIndex: int, confirmed: bool)
      modifies this
      ensures todos == if 0 <= todoIndex < |old(todos)| && confirmed then RemoveAt(old(todos), todoIndex) else old(todos)
      ensures noteEntries == old(noteEntries) && charges == old(charges) && Clock() == old(Clock())
      ensures startDate == old(startDate) && chargeLevel == old(chargeLevel)
    {
      if todoIndex < 0 || todoIndex >= |todos| {
        return;
      }
      if !confirmed {
        return;
      }
      todos := RemoveAt(todos, todoIndex);
    }

    /** `deleteCharge(chargeIndex)`: the user confirms first, then an in-range index removes that charge. */
    method DeleteCharge(chargeIndex: int, confirmed: bool)
      modifies this
      ensures charges == if 0 <= chargeIndex < |old(charges)| && confirmed
                         then RemoveAt(old(charges), chargeIndex) else old(charges)
      ensures noteEntries == old(noteEntries) && todos == old(todos) && Clock() == old(Clock())
      ensures startDate == old(startDate) && chargeLevel == old(chargeLevel)
      ensures OnePrimaryAtMost(old(charges)) ==> OnePrimaryAtMost(charges)
    {
      if !confirmed {
        return;
      }
      if chargeIndex < 0 || chargeIndex >= |charges| {
        return;
      }
      if OnePrimaryAtMost(charges) {
        RemoveAtKeepsOnePrimary(charges, chargeIndex);
      }
      charges := RemoveAt(charges, chargeIndex);
    }

    /**
     * `saveNewCharge()`: a charge with a non-blank name is appended; when it is primary every
     * earlier charge loses its primary flag first, and its class, when set, becomes the case's
     * charge level. A blank name changes nothing.
     */
    method SaveNewCharge(name: string, statute: string, chargeClass: string, isPrimary: bool,
                         id: string, dateAdded: string)
      modifies this
      ensures Trim(name) == "" ==> charges == old(charges) && chargeLevel == old(chargeLevel)
      ensures Trim(name) != "" ==>
        charges == (if isPrimary then WithoutPrimary(old(charges)) else old(charges))
                   + [Charge(id, SanitizeString(Trim(name)), SanitizeString(Trim(statute)), chargeClass, isPrimary, dateAdded)]
      ensures chargeLevel == if Trim(name) != "" && isPrimary && chargeClass != "" then chargeClass else old(chargeLevel)
      ensures noteEntries == old(noteEntries) && todos == old(todos) && Clock() == old(Clock())
      ensures startDate == old(startDate)
      ensures OnePrimaryAtMost(old(charges)) ==> OnePrimaryAtMost(charges)
    {
      var trimmedName := Trim(name);
      if trimmedName == "" {
        return;
      }
      var newCharge := Charge(id, SanitizeString(trimmedName), SanitizeString(Trim(statute)), chargeClass, isPrimary, dateAdded);
      AddCharge(newCharge);
    }

    /**
     * The rest of `saveNewCharge()` once the new charge is built: a primary charge clears
     * every other primary flag and sets the case's charge level from its class, when set;
     * then the charge is appended.
     */
    method AddCharge(newCharge: Charge)
      modifies this
      ensures charges == (if newCharge.isPrimaryCharge then WithoutPrimary(old(charges)) else old(charges)) + [newCharge]
      ensures chargeLevel == if newCharge.isPrimaryCharge && newCharge.chargeClass != "" then newCharge.chargeClass else old(chargeLevel)
      ensures noteEntries == old(noteEntries) && todos == old(todos) && Clock() == old(Clock())
      ensures startDate == old(startDate)
      ensures OnePrimaryAtMost(old(charges)) || newCharge.isPrimaryCharge ==> OnePrimaryAtMost(charges)
    {
      if newCharge.isPrimaryCharge {
        ClearPrimaryFlags();
        if newCharge.chargeClass != "" {
          chargeLevel := newCharge.chargeClass;
        }
        AddedPrimaryIsOnlyPrimary(old(charges), newCharge);
      } else if OnePrimaryAtMost(charges) {
        AddedSecondaryKeepsOnePrimary(charges, newCharge);
      }
      charges := charges + [newCharge];
    }

    /** The `forEach` of `saveNewCharge()` that clears every charge's primary flag. */
    method ClearPrimaryFlags()
      modifies this
      ensures charges == WithoutPrimary(old(charges))
      ensures noteEntries == old(noteEntries) && todos == old(todos) && Clock() == old(Clock())
      ensures startDate == old(startDate) && chargeLevel == old(chargeLevel)
    {
      var i := 0;
      while i < |charges|
        invariant 0 <= i <= |charges| == |old(charges)|
        invariant charges[..i] == WithoutPrimary(old(charges))[..i]
        invariant charges[i..] == old(charges)[i..]
        invariant noteEntries == old(noteEntries) && todos == old(todos) && Clock() == old(Clock())
        invariant startDate == old(startDate) && chargeLevel == old(chargeLevel)
      {
        charges := charges[i := charges[i].(isPrimaryCharge := false)];
        i := i + 1;
      }
      assert charges == WithoutPrimary(old(charges));
    }

    /**
     * `setPrimaryCharge(chargeIndex)`: with an index in range, that charge alone becomes
     * primary and its class, when set, becomes the case's charge level.
     */
    method SetPrimaryCharge(chargeIndex: int)
      modifies this
      ensures charges == if 0 <= chargeIndex < |old(charges)| then OnlyPrimary(old(charges), chargeIndex) else old(charges)
      ensures chargeLevel == if 0 <= chargeIndex < |old(charges)| && old(charges)[chargeIndex].chargeClass != ""
                             then old(charges)[chargeIndex].chargeClass else old(chargeLevel)
      ensures noteEntries == old(noteEntries) && todos == old(todos) && Clock() == old(Clock())
      ensures startDate == old(startDate)
    {
      if chargeIndex < 0 || chargeIndex >= |charges| {
        return;
      }
      var i := 0;
      while i < |charges|
        invariant 0 <= i <= |charges| == |old(charges)|
        invariant charges[..i] == OnlyPrimary(old(charges), chargeIndex)[..i]
        invariant charges[i..] == old(charges)[i..]
        invariant noteEntries == old(noteEntries) && todos == old(todos) && Clock() == old(Clock())
        invariant startDate == old(startDate) && chargeLevel == old(chargeLevel)
      {
        charges := charges[i := charges[i].(isPrimaryCharge := i == chargeIndex)];
        i := i + 1;
      }
      assert charges == OnlyPrimary(old(charges), chargeIndex);
      var primaryCharge := charges[chargeIndex];
      if primaryCharge.chargeClass != "" {
        chargeLevel := primaryCharge.chargeClass;
      }
    }
  }

  // ---------------------------------------------------------------------------
  // Removing one entry of a list
  // ---------------------------------------------------------------------------

  /** `list.splice(i, 1)` */
  function RemoveAt<T>(s: seq<T>, i: nat): seq<T>
    requires i < |s|
  {
    s[..i] + s[i + 1..]
  }

  /** Removing entry `i` keeps the entries before it in place, shifts those after it down by one, and drops only that entry. */
  lemma RemoveAtShifts<T>(s: seq<T>, i: nat)
    requires i < |s|
    ensures |RemoveAt(s, i)| == |s| - 1
    ensures forall j :: 0 <= j < i ==> RemoveAt(s, i)[j] == s[j]
    ensures forall j :: i <= j < |s| - 1 ==> RemoveAt(s, i)[j] == s[j + 1]
    ensures multiset(RemoveAt(s, i)) + multiset{s[i]} == multiset(s)
  {
    assert s == s[..i] + [s[i]] + s[i + 1..];
  }

  // ---------------------------------------------------------------------------
  // Charges and the primary charge
  // ---------------------------------------------------------------------------

  /** At most one charge is marked primary. */
  predicate OnePrimaryAtMost(charges: seq<Charge>)
  {
    forall i, j :: 0 <= i < |charges| && 0 <= j < |charges| && charges[i].isPrimaryCharge && charges[j].isPrimaryCharge ==> i == j
  }

  /** Every charge with its primary flag cleared. */
  function WithoutPrimary(charges: seq<Charge>): (r: seq<Charge>)
    ensures |r| == |charges|
  {
    seq(|charges|, i requires 0 <= i < |charges| => charges[i].(isPrimaryCharge := false))
  }

  /** Every charge with the primary flag set on charge `k` alone. */
  function OnlyPrimary(charges: seq<Charge>, k: nat): (r: seq<Charge>)
    ensures |r| == |charges|
  {
    seq(|charges|, i requires 0 <= i < |charges| => charges[i].(isPrimaryCharge := i == k))
  }

  /** A new primary charge is the only primary one, and the other charges keep everything else. */
  lemma AddedPrimaryIsOnlyPrimary(charges: seq<Charge>, c: Charge)
    requires c.isPrimaryCharge
    ensures var r := WithoutPrimary(charges) + [c];
      && OnePrimaryAtMost(r)
      && (forall i :: 0 <= i < |r| ==> (r[i].isPrimaryCharge <==> i == |charges|))
      && (forall i :: 0 <= i < |charges| ==> r[i].(isPrimaryCharge := charges[i].isPrimaryCharge) == charges[i])
  {
  }

  /** A new charge that is not primary leaves at most one primary charge where there was at most one. */
  lemma AddedSecondaryKeepsOnePrimary(charges: seq<Charge>, c: Charge)
    requires !c.isPrimaryCharge && OnePrimaryAtMost(charges)
    ensures OnePrimaryAtMost(charges + [c])
  {
  }

  /** Setting charge `k` primary makes exactly that charge primary and changes no other field. */
  lemma OnlyPrimaryMarksOne(charges: seq<Charge>, k: nat)
    requires k < |charges|
    ensures var r := OnlyPrimary(charges, k);
      && OnePrimaryAtMost(r)
      && (forall i :: 0 <= i < |r| ==> (r[i].isPrimaryCharge <==> i == k))
      && (forall i :: 0 <= i < |r| ==> r[i].(isPrimaryCharge := charges[i].isPrimaryCharge) == charges[i])
  {
  }

  /** Deleting a charge cannot create a second primary charge. */
  lemma RemoveAtKeepsOnePrimary(charges: seq<Charge>, i: nat)
    requires i < |charges| && OnePrimaryAtMost(charges)
    ensures OnePrimaryAtMost(RemoveAt(charges, i))
  {
    RemoveAtShifts(charges, i);
    var r := RemoveAt(charges, i);
    forall a, b | 0 <= a < |r| && 0 <= b < |r| && r[a].isPrimaryCharge && r[b].isPrimaryCharge
      ensures a == b
    {
      var a' := if a < i then a else a + 1;
      var b' := if b < i then b else b + 1;
      assert charges[a'] == r[a] && charges[b'] == r[b];
    }
  }

  // ---------------------------------------------------------------------------
  // Excludable windows (recalcExCalcTotals, recalcModalExTotals)
  // ---------------------------------------------------------------------------

  /** One row of the window calculator as typed: start, end, reason and the arguable box. */
  datatype WindowRow = WindowRow(start: string, end: string, reason: string, arguable: bool)

  /**
   * The days of one window: both dates present and the end not before the start gives the
   * days between them plus one, counting both ends; anything else gives none.
   */
  function WindowDays(start: string, end: string): nat
  {
    if start != "" && end != "" then
      var s := ParseLocalDate(start);
      var e := ParseLocalDate(end);
      if s.At? && e.At? && DayNumber(e.date) >= DayNumber(s.date) then DaysBetweenDates(s.date, e.date) + 1 else 0
    else 0
  }

  /** A window counts every calendar day from its start to its end, both included. */
  lemma WindowDaysInclusive(start: string, end: string)
    ensures WindowDays(start, end) > 0 <==>
      start != "" && end != "" && ParseLocalDate(start).At? && ParseLocalDate(end).At?
      && DayNumber(ParseLocalDate(start).date) <= DayNumber(ParseLocalDate(end).date)
    ensures WindowDays(start, end) > 0 ==>
      WindowDays(start, end) == DayNumber(ParseLocalDate(end).date) - DayNumber(ParseLocalDate(start).date) + 1
  {
  }

  /** A window from a day to `k` days later, both written as `YYYY-MM-DD`, counts `k + 1` days. */
  lemma WindowOfFormattedDays(d: Date, k: nat)
    requires d.year >= 100
    ensures WindowDays(FormatDate(At(d)), FormatDate(At(AddDays(d, k)))) == k + 1
  {
    var e := AddDays(d, k);
    DayNumberOrdersYears(d, e);
    ParseFormatRoundTrip(d);
    ParseFormatRoundTrip(e);
    WindowOfDates(FormatDate(At(d)), FormatDate(At(e)), d, k);
  }

  /** A window whose dates read as a day and the day `k` days later counts `k + 1` days. */
  lemma WindowOfDates(start: string, end: string, d: Date, k: nat)
    requires start != "" && end != ""
    requires ParseLocalDate(start) == At(d) && ParseLocalDate(end) == At(AddDays(d, k))
    ensures WindowDays(start, end) == k + 1
  {
  }

  /** The definite days of the rows: the windows without the arguable box. */
  function DefiniteDays(rows: seq<WindowRow>): nat
  {
    if rows == [] then 0
    else
      var last := rows[|rows| - 1];
      DefiniteDays(rows[..|rows| - 1]) + (if last.arguable then 0 else WindowDays(last.start, last.end))
  }

  /** The arguable days of the rows: the windows with the arguable box. */
  function ArguableDays(rows: seq<WindowRow>): nat
  {
    if rows == [] then 0
    else
      var last := rows[|rows| - 1];
      ArguableDays(rows[..|rows| - 1]) + (if last.arguable then WindowDays(last.start, last.end) else 0)
  }

  /** The days of every window, whatever its box. */
  function AllWindowDays(rows: seq<WindowRow>): nat
  {
    if rows == [] then 0
    else AllWindowDays(rows[..|rows| - 1]) + WindowDays(rows[|rows| - 1].start, rows[|rows| - 1].end)
  }

  /** The simple total, definite plus arguable, is every window's days counted once. */
  lemma {:induction false} SplitCountsEveryWindowOnce(rows: seq<WindowRow>)
    ensures DefiniteDays(rows) + ArguableDays(rows) == AllWindowDays(rows)
    decreases |rows|
  {
    if rows != [] {
      SplitCountsEveryWindowOnce(rows[..|rows| - 1]);
    }
  }

  /** Ticking the arguable box of a row moves its days from the definite to the arguable total. */
  lemma {:induction false} TickingMovesDays(rows: seq<WindowRow>, k: nat)
    requires k < |rows| && !rows[k].arguable
    ensures var ticked := rows[k := rows[k].(arguable := true)];
      && DefiniteDays(ticked) == DefiniteDays(rows) - WindowDays(rows[k].start, rows[k].end)
      && ArguableDays(ticked) == ArguableDays(rows) + WindowDays(rows[k].start, rows[k].end)
    decreases |rows|
  {
    var ticked := rows[k := rows[k].(arguable := true)];
    var n := |rows| - 1;
    if k < n {
      TickingMovesDays(rows[..n], k);
      assert ticked[..n] == rows[..n][k := rows[k].(arguable := true)];
      assert ticked[n] == rows[n];
    } else {
      assert ticked[..n] == rows[..n];
    }
  }

  /** The windows the calculator keeps: rows with a start, an end or a reason, the reason trimmed and sanitized. */
  function KeptWindows(rows: seq<WindowRow>): seq<ExWindow>
  {
    if rows == [] then [] else KeptWindows(rows[..|rows| - 1]) + KeptRow(rows[|rows| - 1])
  }

  /** The window one row contributes: none when its start, end and trimmed reason are all empty. */
  function KeptRow(row: WindowRow): seq<ExWindow>
  {
    var reason := Trim(row.reason);
    if row.start != "" || row.end != "" || reason != ""
    then [ExWindow(row.start, row.end, SanitizeString(reason), row.arguable)] else []
  }

  /** Every kept window has something in it and a reason that is short and free of markup. */
  lemma {:induction false} KeptWindowsAreClean(rows: seq<WindowRow>)
    ensures |KeptWindows(rows)| <= |rows|
    ensures forall w :: w in KeptWindows(rows) ==> Clean(w.reason)
    decreases |rows|
  {
    if rows != [] {
      var front := rows[..|rows| - 1];
      KeptWindowsAreClean(front);
      var last := rows[|rows| - 1];
      SanitizeStringSafe(Trim(last.reason));
    }
  }

  /**
   * `recalcExCalcTotals()`: the definite and arguable totals of the calculator rows and the
   * windows it keeps.
   */
  method RecalcExCalcTotals(rows: seq<WindowRow>) returns (totalDef: nat, totalArg: nat, windows: seq<ExWindow>)
    ensures totalDef == DefiniteDays(rows) && totalArg == ArguableDays(rows)
    ensures windows == KeptWindows(rows)
  {
    totalDef, totalArg, windows := 0, 0, [];
    var i := 0;
    while i < |rows|
      invariant 0 <= i <= |rows|
      invariant totalDef == DefiniteDays(rows[..i]) && totalArg == ArguableDays(rows[..i])
      invariant windows == KeptWindows(rows[..i])
    {
      totalDef, totalArg, windows := AddExCalcRow(rows, i, totalDef, totalArg, windows);
      i := i + 1;
    }
    assert rows[..i] == rows;
  }

  /** One pass of the `forEach` of `recalcExCalcTotals()`: row `i` is counted and, when not empty, kept. */
  method AddExCalcRow(rows: seq<WindowRow>, i: nat, totalDef: nat, totalArg: nat, windows: seq<ExWindow>)
    returns (newDef: nat, newArg: nat, newWindows: seq<ExWindow>)
    requires i < |rows|
    requires totalDef == DefiniteDays(rows[..i]) && totalArg == ArguableDays(rows[..i])
    requires windows == KeptWindows(rows[..i])
    ensures newDef == DefiniteDays(rows[..i + 1]) && newArg == ArguableDays(rows[..i + 1])
    ensures newWindows == KeptWindows(rows[..i + 1])
  {
    newDef, newArg := CountRow(rows, i, totalDef, totalArg);
    newWindows := KeepRow(rows, i, windows);
  }

  /** The counting half of one pass (the whole pass of `recalcModalExTotals()`): the row's days go to the arguable or the definite total. */
  method CountRow(rows: seq<WindowRow>, i: nat, totalDef: nat, totalArg: nat) returns (newDef: nat, newArg: nat)
    requires i < |rows|
    requires totalDef == DefiniteDays(rows[..i]) && totalArg == ArguableDays(rows[..i])
    ensures newDef == DefiniteDays(rows[..i + 1]) && newArg == ArguableDays(rows[..i + 1])
  {
    var row := rows[i];
    assert rows[..i + 1][..i] == rows[..i];
    assert rows[..i + 1][i] == row;
    newDef, newArg := totalDef, totalArg;
    var days := WindowDays(row.start, row.end);
    if days > 0 {
      if row.arguable {
        newArg := totalArg + days;
      } else {
        newDef := totalDef + days;
      }
    }
  }

  /** The keeping half of one pass: a row with a start, an end or a reason becomes a window. */
  method KeepRow(rows: seq<WindowRow>, i: nat, windows: seq<ExWindow>) returns (newWindows: seq<ExWindow>)
    requires i < |rows|
    requires windows == KeptWindows(rows[..i])
    ensures newWindows == KeptWindows(rows[..i + 1])
  {
    var row := rows[i];
    assert rows[..i + 1][..i] == rows[..i];
    assert KeptWindows(rows[..i + 1]) == windows + KeptRow(row);
    var reason := Trim(row.reason);
    newWindows := windows;
    if row.start != "" || row.end != "" || reason != "" {
      newWindows := windows + [ExWindow(row.start, row.end, SanitizeString(reason), row.arguable)];
    }
  }

  /**
   * `recalcModalExTotals()`: the definite and arguable totals of the modal's rows, written
   * back as the definite, arguable and simple excluded-day fields.
   */
  method RecalcModalExTotals(rows: seq<WindowRow>) returns (defText: string, argText: string, simpleText: string)
    ensures defText == IntToString(DefiniteDays(rows)) && argText == IntToString(ArguableDays(rows))
    ensures simpleText == IntToString(AllWindowDays(rows))
  {
    var totalDef := 0;
    var totalArg := 0;
    var i := 0;
    while i < |rows|
      invariant 0 <= i <= |rows|
      invariant totalDef == DefiniteDays(rows[..i]) && totalArg == ArguableDays(rows[..i])
    {
      totalDef, totalArg := CountRow(rows, i, totalDef, totalArg);
      i := i + 1;
    }
    assert rows[..i] == rows;
    SplitCountsEveryWindowOnce(rows);
    defText, argText, simpleText := IntToString(totalDef), IntToString(totalArg), IntToString(totalDef + totalArg);
  }

  // ---------------------------------------------------------------------------
  // Merging an imported backup (handleImportFile, merge mode)
  // ---------------------------------------------------------------------------

  function Ids(cases: seq<CaseRecord>): set<string>
  {
    set c | c in cases :: c.id
  }

  /** The imported cases whose id no existing case has, in import order. */
  function NewCases(existing: seq<CaseRecord>, imported: seq<CaseRecord>): seq<CaseRecord>
  {
    if imported == [] then []
    else
      var last := imported[|imported| - 1];
      NewCases(existing, imported[..|imported| - 1]) + (if last.id in Ids(existing) then [] else [last])
  }

  /** `[...existingCases, ...newCases]` */
  function MergeCases(existing: seq<CaseRecord>, imported: seq<CaseRecord>): seq<CaseRecord>
  {
    existing + NewCases(existing, imported)
  }

  /** An imported case is added exactly when its id is new; the existing cases come first, unchanged and in order. */
  lemma {:induction false} MergeAddsNewIds(existing: seq<CaseRecord>, imported: seq<CaseRecord>, c: CaseRecord)
    ensures MergeCases(existing, imported)[..|existing|] == existing
    ensures c in NewCases(existing, imported) <==> c in imported && c.id !in Ids(existing)
    ensures |NewCases(existing, imported)| <= |imported|
    decreases |imported|
  {
    if imported != [] {
      var front := imported[..|imported| - 1];
      MergeAddsNewIds(existing, front, c);
      assert imported == front + [imported[|imported| - 1]];
    }
  }

  /** Merging the same backup twice adds nothing the second time. */
  lemma MergeTwiceSameAsOnce(existing: seq<CaseRecord>, imported: seq<CaseRecord>)
    ensures MergeCases(MergeCases(existing, imported), imported) == MergeCases(existing, imported)
  {
    var merged := MergeCases(existing, imported);
    forall c | c in imported
      ensures c.id in Ids(merged)
    {
      MergeAddsNewIds(existing, imported, c);
      if c.id !in Ids(existing) {
        assert c in merged;
      } else {
        var e :| e in existing && e.id == c.id;
        assert e in merged;
      }
    }
    NoNewCases(merged, imported);
  }

  lemma {:induction false} NoNewCases(existing: seq<CaseRecord>, imported: seq<CaseRecord>)
    requires forall c :: c in imported ==> c.id in Ids(existing)
    ensures NewCases(existing, imported) == []
    decreases |imported|
  {
    if imported != [] {
      NoNewCases(existing, imported[..|imported| - 1]);
    }
  }

  // ---------------------------------------------------------------------------
  // The soonest outstanding to-do deadline and the to-do ordering
  // ---------------------------------------------------------------------------

  /** `a < b` on two Date objects: false when either is an Invalid Date. */
  predicate Earlier(a: Moment, b: Moment)
  {
    a.At? && b.At? && DayNumber(a.date) < DayNumber(b.date)
  }

  /** A to-do that is not completed and has a deadline. */
  predicate Outstanding(t: Todo)
  {
    !t.completed && t.deadline != ""
  }

  /** The parsed deadlines of the outstanding to-dos, in list order. */
  function OutstandingDeadlines(todos: seq<Todo>): seq<Moment>
  {
    if todos == [] then []
    else
      var t := todos[|todos| - 1];
      OutstandingDeadlines(todos[..|todos| - 1]) + (if Outstanding(t) then [ParseLocalDate(t.deadline)] else [])
  }

  /**
   * The running best of the to-do loop over a list of dates: the first one, replaced by any
   * later one that is earlier.
   */
  function Soonest(deadlines: seq<Moment>): Option<Moment>
  {
    if deadlines == [] then None
    else
      var best := Soonest(deadlines[..|deadlines| - 1]);
      var d := deadlines[|deadlines| - 1];
      if best.None? || Earlier(d, best.value) then Some(d) else best
  }

  /** What `getSoonestOutstandingTodoDeadline` returns for a case's to-dos. */
  function SoonestDeadline(todos: seq<Todo>): Option<Moment>
  {
    Soonest(OutstandingDeadlines(todos))
  }

  /** `getSoonestOutstandingTodoDeadline(c)` */
  method GetSoonestOutstandingTodoDeadline(todos: seq<Todo>) returns (best: Option<Moment>)
    ensures best == SoonestDeadline(todos)
  {
    best := None;
    var i := 0;
    while i < |todos|
      invariant 0 <= i <= |todos|
      invariant best == Soonest(OutstandingDeadlines(todos[..i]))
    {
      var t := todos[i];
      assert todos[..i + 1][..i] == todos[..i];
      ghost var ds := OutstandingDeadlines(todos[..i]);
      if !t.completed && t.deadline != "" {
        var d := ParseLocalDate(t.deadline);
        assert (ds + [d])[..|ds|] == ds;
        if best.None? || Earlier(d, best.value) {
          best := Some(d);
        }
      } else {
        assert OutstandingDeadlines(todos[..i + 1]) == ds;
      }
      i := i + 1;
    }
    assert todos[..i] == todos;
  }

  /** There is no deadline to list exactly when no to-do is outstanding. */
  lemma {:induction false} OutstandingDeadlinesEmpty(todos: seq<Todo>)
    ensures |OutstandingDeadlines(todos)| <= |todos|
    ensures OutstandingDeadlines(todos) == [] <==> forall i :: 0 <= i < |todos| ==> !Outstanding(todos[i])
    decreases |todos|
  {
    if todos != [] {
      var n := |todos| - 1;
      var front := todos[..n];
      OutstandingDeadlinesEmpty(front);
      assert forall i :: 0 <= i < n ==> front[i] == todos[i];
    }
  }

  /** An outstanding to-do's parsed deadline is among those the loop compares. */
  lemma {:induction false} OutstandingDeadlineListed(todos: seq<Todo>, i: nat)
    requires i < |todos| && Outstanding(todos[i])
    ensures ParseLocalDate(todos[i].deadline) in OutstandingDeadlines(todos)
    decreases |todos|
  {
    var n := |todos| - 1;
    if i < n {
      OutstandingDeadlineListed(todos[..n], i);
    }
  }

  /** There is a soonest date exactly when there is a date. */
  lemma {:induction false} SoonestExists(deadlines: seq<Moment>)
    ensures Soonest(deadlines).Some? <==> deadlines != []
    ensures Soonest(deadlines).Some? ==> Soonest(deadlines).value in deadlines
    decreases |deadlines|
  {
    if deadlines != [] {
      var front := deadlines[..|deadlines| - 1];
      SoonestExists(front);
      assert deadlines == front + [deadlines[|deadlines| - 1]];
    }
  }

  /** When every date is valid, the soonest is one of them and none comes before it. */
  lemma {:induction false} SoonestIsMinimum(deadlines: seq<Moment>)
    requires forall m :: m in deadlines ==> m.At?
    ensures Soonest(deadlines).Some? ==>
      && Soonest(deadlines).value in deadlines
      && forall m :: m in deadlines ==> DayNumber(Soonest(deadlines).value.date) <= DayNumber(m.date)
    decreases |deadlines|
  {
    if deadlines != [] {
      var front := deadlines[..|deadlines| - 1];
      assert deadlines == front + [deadlines[|deadlines| - 1]];
      SoonestIsMinimum(front);
      SoonestExists(front);
    }
  }

  /**
   * When the outstanding deadlines are all valid dates, the soonest one is no later than the
   * deadline of any outstanding to-do.
   */
  lemma SoonestDeadlineNoLater(todos: seq<Todo>, i: nat)
    requires forall m :: m in OutstandingDeadlines(todos) ==> m.At?
    requires i < |todos| && Outstanding(todos[i])
    ensures SoonestDeadline(todos).Some? && SoonestDeadline(todos).value.At? && ParseLocalDate(todos[i].deadline).At?
    ensures DayNumber(SoonestDeadline(todos).value.date) <= DayNumber(ParseLocalDate(todos[i].deadline).date)
  {
    OutstandingDeadlineListed(todos, i);
    SoonestExists(OutstandingDeadlines(todos));
    SoonestIsMinimum(OutstandingDeadlines(todos));
  }

  /**
   * Once the running best is an Invalid Date no later deadline can replace it, since every
   * comparison with an Invalid Date is false.
   */
  lemma {:induction false} InvalidDeadlineSticks(deadlines: seq<Moment>, rest: seq<Moment>)
    requires Soonest(deadlines) == Some(InvalidDate)
    ensures Soonest(deadlines + rest) == Some(InvalidDate)
    decreases |rest|
  {
    if rest == [] {
      assert deadlines + rest == deadlines;
    } else {
      var front := rest[..|rest| - 1];
      InvalidDeadlineSticks(deadlines, front);
      assert (deadlines + rest)[..|deadlines + rest| - 1] == deadlines + front;
    }
  }

  /**
   * `compareByTodoDeadlineThenClient(a, b)`: cases with an outstanding deadline first, the
   * earlier deadline first, and client-name order otherwise; `compareByClient` is a parameter.
   */
  function CompareByTodoDeadlineThenClient(a: CaseRecord, b: CaseRecord, compareByClient: (string, string) -> int): int
  {
    var da := SoonestDeadline(a.todos);
    var db := SoonestDeadline(b.todos);
    if da.None? && db.None? then compareByClient(a.clientName, b.clientName)
    else if da.None? then 1
    else if db.None? then -1
    else if Earlier(da.value, db.value) then -1
    else if Earlier(db.value, da.value) then 1
    else compareByClient(a.clientName, b.clientName)
  }

  function Sign(n: int): int
  {
    if n < 0 then -1 else if n > 0 then 1 else 0
  }

  /** A case with an outstanding deadline sorts before one without, whatever the names. */
  lemma DeadlineBeforeNone(a: CaseRecord, b: CaseRecord, compareByClient: (string, string) -> int)
    requires SoonestDeadline(a.todos).Some? && SoonestDeadline(b.todos).None?
    ensures CompareByTodoDeadlineThenClient(a, b, compareByClient) == -1
    ensures CompareByTodoDeadlineThenClient(b, a, compareByClient) == 1
  {
  }

  /** The earlier valid deadline sorts first. */
  lemma EarlierDeadlineFirst(a: CaseRecord, b: CaseRecord, compareByClient: (string, string) -> int)
    requires SoonestDeadline(a.todos).Some? && SoonestDeadline(b.todos).Some?
    requires Earlier(SoonestDeadline(a.todos).value, SoonestDeadline(b.todos).value)
    ensures CompareByTodoDeadlineThenClient(a, b, compareByClient) == -1
    ensures CompareByTodoDeadlineThenClient(b, a, compareByClient) == 1
  {
  }

  /** With an antisymmetric name order the comparator is antisymmetric too. */
  lemma CompareAntisymmetric(a: CaseRecord, b: CaseRecord, compareByClient: (string, string) -> int)
    requires Sign(compareByClient(a.clientName, b.clientName)) == -Sign(compareByClient(b.clientName, a.clientName))
    ensures Sign(CompareByTodoDeadlineThenClient(a, b, compareByClient))
      == -Sign(CompareByTodoDeadlineThenClient(b, a, compareByClient))
  {
  }
}
