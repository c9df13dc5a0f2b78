/**
 * The court-date export of js/calendar.js: an iCalendar (RFC 5545) file with one all-day
 * event per case that has a next court date.
 *
 * TEXT values are escaped as section 3.3.11 of RFC 5545 asks (backslash, semicolon, comma
 * and newline), DATE values are written as `YYYYMMDD` (section 3.3.4), and content lines are
 * joined with CRLF (section 3.1). Each event's time stamp is read from the clock when its
 * block is written; here the clock is a parameter `clock`, whose `k`-th reading stamps the
 * `k`-th event.
 */
module ICalendar {
  import opened Wrappers
  import opened JsValues
  import opened Dates

  // ---------------------------------------------------------------------------
  // formatICalDate
  // ---------------------------------------------------------------------------

  /** `s.replace(/c/g, rep)` for a one-character pattern. */
  function ReplaceChar(s: string, c: char, rep: string): (r: string)
    ensures c !in rep ==> c !in r
  {
    if s == [] then []
    else (if s[0] == c then rep else [s[0]]) + ReplaceChar(s[1..], c, rep)
  }

  lemma {:induction false} ReplaceCharAppend(a: string, b: string, c: char, rep: string)
    ensures ReplaceChar(a + b, c, rep) == ReplaceChar(a, c, rep) + ReplaceChar(b, c, rep)
    decreases |a|
  {
    if a == [] {
      assert a + b == b;
    } else {
      assert (a + b)[1..] == a[1..] + b;
      ReplaceCharAppend(a[1..], b, c, rep);
    }
  }

  lemma {:induction false} ReplaceCharAbsent(s: string, c: char, rep: string)
    requires c !in s
    ensures ReplaceChar(s, c, rep) == s
    decreases |s|
  {
    if s != [] {
      ReplaceCharAbsent(s[1..], c, rep);
    }
  }

  /**
   * `formatICalDate(date)`: `formatDate(date)` without its hyphens, written out field by field
   * (a negative year loses its sign); FormatICalDateDropsHyphens shows that this is exactly
   * `formatDate(date)` with every hyphen removed.
   */
  function FormatICalDate(date: Moment): string
  {
    match date
    case InvalidDate => NaNField + NaNField + NaNField
    case At(d) => ReplaceChar(IntToString(d.year), '-', "") + Pad2(d.month) + Pad2(d.day)
  }

  /** The DATE value is the `YYYY-MM-DD` text with its hyphens removed, and has none left. */
  lemma FormatICalDateDropsHyphens(date: Moment)
    ensures FormatICalDate(date) == ReplaceChar(FormatDate(date), '-', "")
    ensures '-' !in FormatICalDate(date)
  {
    match date
    case InvalidDate => InvalidICalDate();
    case At(d) => CalendarICalDate(d);
  }

  lemma InvalidICalDate()
    ensures FormatICalDate(InvalidDate) == ReplaceChar(FormatDate(InvalidDate), '-', "")
    ensures '-' !in FormatICalDate(InvalidDate)
  {
    var nan := NaNField;
    HyphenDropped();
    ReplaceCharAbsent(nan, '-', "");
    ReplaceCharAppend(nan, "-", '-', "");
    assert ReplaceChar(nan + "-", '-', "") == nan;
    ReplaceCharAppend(nan + "-", nan, '-', "");
    ReplaceCharAppend(nan + "-" + nan, "-", '-', "");
    assert ReplaceChar(nan + "-" + nan + "-", '-', "") == nan + nan;
    ReplaceCharAppend(nan + "-" + nan + "-", nan, '-', "");
  }

  lemma CalendarICalDate(d: Date)
    ensures FormatICalDate(At(d)) == ReplaceChar(FormatDate(At(d)), '-', "")
    ensures '-' !in FormatICalDate(At(d))
  {
    var ys := IntToString(d.year);
    var ms := Pad2(d.month);
    var ds := Pad2(d.day);
    Pad2Digits(d.month);
    Pad2Digits(d.day);
    DigitsHaveNoDash(ms);
    DigitsHaveNoDash(ds);
    var y := ReplaceChar(ys, '-', "");
    HyphenDropped();
    ReplaceCharAppend(ys, "-", '-', "");
    assert ReplaceChar(ys + "-", '-', "") == y;
    ReplaceCharAppend(ys + "-", ms, '-', "");
    ReplaceCharAbsent(ms, '-', "");
    ReplaceCharAppend(ys + "-" + ms, "-", '-', "");
    assert ReplaceChar(ys + "-" + ms + "-", '-', "") == y + ms;
    ReplaceCharAppend(ys + "-" + ms + "-", ds, '-', "");
    ReplaceCharAbsent(ds, '-', "");
  }

  lemma HyphenDropped()
    ensures ReplaceChar("-", '-', "") == ""
  {
    assert "-"[1..] == [];
  }

  /** Reads a `YYYYMMDD` DATE value as the local date it names. */
  function ParseICalDate(r: string): Moment
  {
    if |r| == 8 && AllDecimalDigits(r) then ParseLocalDate(r[..4] + "-" + r[4..6] + "-" + r[6..])
    else InvalidDate
  }

  /** A year from 1000 to 9999 prints as four digits. */
  lemma FourDigitsOfYear(n: int)
    requires 1000 <= n <= 9999
    ensures |IntToString(n)| == 4
  {
    var a := n / 10;
    var b := a / 10;
    var c := b / 10;
    assert 1 <= c <= 9;
    assert NatToRadix(c, 10) == [DigitChar(c)];
    assert NatToRadix(b, 10) == NatToRadix(c, 10) + [DigitChar(b % 10)];
    assert NatToRadix(a, 10) == NatToRadix(b, 10) + [DigitChar(a % 10)];
    assert NatToRadix(n, 10) == NatToRadix(a, 10) + [DigitChar(n % 10)];
  }

  /**
   * For a year from 1000 to 9999 the DATE value is eight digits, year, month and day, and it
   * reads back as the same day.
   */
  lemma ICalDateDigits(d: Date)
    requires 1000 <= d.year <= 9999
    ensures var r := FormatICalDate(At(d));
      && |r| == 8 && AllDecimalDigits(r)
      && r == IntToString(d.year) + Pad2(d.month) + Pad2(d.day)
      && ParseICalDate(r) == At(d)
  {
    var ys := IntToString(d.year);
    var ms := Pad2(d.month);
    var ds := Pad2(d.day);
    FourDigitsOfYear(d.year);
    DecimalValueOfNatToRadix(d.year);
    Pad2Digits(d.month);
    Pad2Digits(d.day);
    DigitsHaveNoDash(ys);
    ReplaceCharAbsent(ys, '-', "");
    var r := ys + ms + ds;
    assert r[..4] == ys && r[4..6] == ms && r[6..] == ds;
    assert forall i :: 0 <= i < 8 ==> IsDecimalDigit(r[i]) by {
      assert forall i :: 0 <= i < 4 ==> r[i] == ys[i];
      assert forall i :: 4 <= i < 6 ==> r[i] == ms[i - 4];
      assert forall i :: 6 <= i < 8 ==> r[i] == ds[i - 6];
    }
    ParseFormatRoundTrip(d);
  }

  // ---------------------------------------------------------------------------
  // escapeICalText
  // ---------------------------------------------------------------------------

  /** `escapeICalText(text)`: backslash first, then semicolon, comma and newline, each as its own pass. */
  function EscapeICalText(text: string): string
  {
    var a := ReplaceChar(text, '\\', "\\\\");
    var b := ReplaceChar(a, ';', "\\;");
    var c := ReplaceChar(b, ',', "\\,");
    ReplaceChar(c, '\n', "\\n")
  }

  /** What the four passes make of one character. */
  function EscapeChar(c: char): string
  {
    if c == '\\' then "\\\\"
    else if c == ';' then "\\;"
    else if c == ',' then "\\,"
    else if c == '\n' then "\\n"
    else [c]
  }

  lemma EscapeAppend(a: string, b: string)
    ensures EscapeICalText(a + b) == EscapeICalText(a) + EscapeICalText(b)
  {
    var a1 := ReplaceChar(a, '\\', "\\\\");
    var b1 := ReplaceChar(b, '\\', "\\\\");
    ReplaceCharAppend(a, b, '\\', "\\\\");
    var a2 := ReplaceChar(a1, ';', "\\;");
    var b2 := ReplaceChar(b1, ';', "\\;");
    ReplaceCharAppend(a1, b1, ';', "\\;");
    var a3 := ReplaceChar(a2, ',', "\\,");
    var b3 := ReplaceChar(b2, ',', "\\,");
    ReplaceCharAppend(a2, b2, ',', "\\,");
    ReplaceCharAppend(a3, b3, '\n', "\\n");
  }

  lemma EscapeOneChar(c: char)
    ensures EscapeICalText([c]) == EscapeChar(c)
  {
    ReplaceOne(c, '\\', "\\\\");
    var a := ReplaceChar([c], '\\', "\\\\");
    if c == '\\' {
      ReplaceCharAbsent(a, ';', "\\;");
      ReplaceCharAbsent(a, ',', "\\,");
      ReplaceCharAbsent(a, '\n', "\\n");
    } else {
      ReplaceOne(c, ';', "\\;");
      var b := ReplaceChar(a, ';', "\\;");
      if c == ';' {
        ReplaceCharAbsent(b, ',', "\\,");
        ReplaceCharAbsent(b, '\n', "\\n");
      } else {
        ReplaceOne(c, ',', "\\,");
        var d := ReplaceChar(b, ',', "\\,");
        if c == ',' {
          ReplaceCharAbsent(d, '\n', "\\n");
        } else {
          ReplaceOne(c, '\n', "\\n");
        }
      }
    }
  }

  /** One pass over one character. */
  lemma ReplaceOne(c: char, x: char, rep: string)
    ensures ReplaceChar([c], x, rep) == if c == x then rep else [c]
  {
    assert [c][1..] == [];
  }

  /** The four passes act one character at a time. */
  lemma EscapeCons(c: char, rest: string)
    ensures EscapeICalText([c] + rest) == EscapeChar(c) + EscapeICalText(rest)
  {
    EscapeAppend([c], rest);
    EscapeOneChar(c);
  }

  /**
   * Unescaping a TEXT value (section 3.3.11 of RFC 5545): `\\`, `\;`, `\,` and `\n` or `\N`
   * stand for a backslash, semicolon, comma and newline; any other character stands for itself.
   */
  function UnescapeICalText(s: string): string
  {
    if s == [] then []
    else if |s| >= 2 && s[0] == '\\' && (s[1] == '\\' || s[1] == ';' || s[1] == ',') then [s[1]] + UnescapeICalText(s[2..])
    else if |s| >= 2 && s[0] == '\\' && (s[1] == 'n' || s[1] == 'N') then "\n" + UnescapeICalText(s[2..])
    else [s[0]] + UnescapeICalText(s[1..])
  }

  lemma UnescapeEscapedChar(c: char, rest: string)
    ensures UnescapeICalText(EscapeChar(c) + rest) == [c] + UnescapeICalText(rest)
  {
    var e := EscapeChar(c) + rest;
    if |EscapeChar(c)| == 2 {
      assert e[2..] == rest;
    } else {
      assert e[1..] == rest;
    }
  }

  /** Unescaping an escaped text gives the text back. */
  lemma {:induction false} EscapeRoundTrip(text: string)
    ensures UnescapeICalText(EscapeICalText(text)) == text
    decreases |text|
  {
    if text != [] {
      assert text == [text[0]] + text[1..];
      EscapeCons(text[0], text[1..]);
      UnescapeEscapedChar(text[0], EscapeICalText(text[1..]));
      EscapeRoundTrip(text[1..]);
    }
  }

  /** No raw newline, and every semicolon and comma right after a backslash. */
  predicate EscapedForm(s: string)
  {
    && (forall i :: 0 <= i < |s| ==> s[i] != '\n')
    && (forall i :: 0 <= i < |s| && (s[i] == ';' || s[i] == ',') ==> i > 0 && s[i - 1] == '\\')
  }

  /** Escaped text has no raw newline and escapes every semicolon and comma. */
  lemma {:induction false} EscapeIsEscaped(text: string)
    ensures EscapedForm(EscapeICalText(text))
    ensures |EscapeICalText(text)| > 0 ==> EscapeICalText(text)[0] != ';' && EscapeICalText(text)[0] != ','
    decreases |text|
  {
    if text == [] {
      assert EscapeICalText(text) == [];
    } else {
      assert text == [text[0]] + text[1..];
      EscapeCons(text[0], text[1..]);
      EscapeIsEscaped(text[1..]);
      var head := EscapeChar(text[0]);
      var tail := EscapeICalText(text[1..]);
      var s := head + tail;
      forall i | 0 <= i < |s| && (s[i] == ';' || s[i] == ',')
        ensures i > 0 && s[i - 1] == '\\'
      {
        if i >= |head| {
          assert s[i] == tail[i - |head|];
          assert i - |head| > 0;
          assert s[i - 1] == tail[i - 1 - |head|];
        }
      }
    }
  }

  /**
   * The description parts are joined with a backslash and an `n` and then escaped once more,
   * so each separator comes out as two backslashes and an `n`.
   */
  lemma SeparatorEscapedTwice(a: string, b: string)
    ensures EscapeICalText(a + "\\n" + b) == EscapeICalText(a) + "\\\\n" + EscapeICalText(b)
  {
    EscapeAppend(a + "\\n", b);
    EscapeAppend(a, "\\n");
    EscapeCons('\\', "n");
    EscapeOneChar('n');
  }

  /**
   * A calendar that unescapes the description therefore shows each separator as a backslash
   * followed by `n`, not as a line break.
   */
  lemma SeparatorReadsAsBackslashN(a: string, b: string)
    ensures UnescapeICalText(EscapeICalText(a + "\\n" + b)) == a + "\\n" + b
    ensures '\n' !in "\\n"
  {
    EscapeRoundTrip(a + "\\n" + b);
  }

  // ---------------------------------------------------------------------------
  // exportToCalendar
  // ---------------------------------------------------------------------------

  /** The fields of a case the export reads. */
  datatype CourtCase = CourtCase(id: string, clientName: string, courtPart: string, docketNumber: string,
                                 chargeLevel: string, assignedAda: string, nextCourtAppearanceType: string,
                                 nextCourtDate: string)

  const Header: seq<string> :=
    ["BEGIN:VCALENDAR", "VERSION:2.0", "PRODID:-//NYC Case Tracker//EN", "CALSCALE:GREGORIAN", "METHOD:PUBLISH"]

  const Footer := "END:VCALENDAR"

  const NoCourtDates := "No court dates to export"

  /** `s || 'N/A'` */
  function OrNA(s: string): string
  {
    if s == "" then "N/A" else s
  }

  function Summary(c: CourtCase): string
  {
    EscapeICalText("Court - " + c.clientName + (if c.courtPart != "" then " (" + c.courtPart + ")" else ""))
  }

  /** Docket, charge and ADA, with the appearance type in front when there is one. */
  function DescriptionParts(c: CourtCase): seq<string>
  {
    (if c.nextCourtAppearanceType != "" then ["On for: " + c.nextCourtAppearanceType] else [])
    + ["Docket: " + OrNA(c.docketNumber), "Charge: " + OrNA(c.chargeLevel), "ADA: " + OrNA(c.assignedAda)]
  }

  /** The parts joined with a backslash and an `n`, then escaped. */
  function Description(c: CourtCase): string
  {
    EscapeICalText(Join(DescriptionParts(c), "\\n"))
  }

  function Location(c: CourtCase): string
  {
    EscapeICalText(if c.courtPart != "" then c.courtPart else "See case details")
  }

  /** The lines of an event that are the same for every case: its start, its status and its reminder. */
  const EventStart := "BEGIN:VEVENT"
  const Confirmed := "STATUS:CONFIRMED"
  const AlarmLines: seq<string> :=
    ["BEGIN:VALARM", "TRIGGER:-P1D", "ACTION:DISPLAY", "DESCRIPTION:Court tomorrow", "END:VALARM"]
  const EventEnd := "END:VEVENT"

  /** The fourteen lines of one event, with a reminder the day before. */
  function EventBlock(c: CourtCase, timestamp: string): (block: seq<string>)
  {
    EventLinesOf(c.id, timestamp, FormatICalDate(ParseLocalDate(c.nextCourtDate)), Summary(c), Description(c), Location(c))
  }

  /** The lines of an event from its already formatted fields. */
  function EventLinesOf(id: string, timestamp: string, dateStr: string, summary: string, description: string,
                        location: string): seq<string>
  {
    [EventStart,
     "UID:" + id + "@nycasetracker.com",
     "DTSTAMP:" + timestamp,
     "DTSTART;VALUE=DATE:" + dateStr,
     "SUMMARY:" + summary,
     "DESCRIPTION:" + description,
     "LOCATION:" + location,
     Confirmed]
    + AlarmLines + [EventEnd]
  }

  /** Where each field sits in the fourteen lines of an event. */
  lemma EventLinesOfFields(id: string, timestamp: string, dateStr: string, summary: string, description: string,
                           location: string)
    ensures var block := EventLinesOf(id, timestamp, dateStr, summary, description, location);
      && |block| == 14
      && block[0] == "BEGIN:VEVENT" && block[13] == "END:VEVENT"
      && block[1] == "UID:" + id + "@nycasetracker.com"
      && block[2] == "DTSTAMP:" + timestamp
      && block[3] == "DTSTART;VALUE=DATE:" + dateStr
      && block[4] == "SUMMARY:" + summary
      && block[5] == "DESCRIPTION:" + description
      && block[9] == "TRIGGER:-P1D"
  {
  }

  /** The cases with a court date, in input order. */
  function DatedCases(cases: seq<CourtCase>): (dated: seq<CourtCase>)
    ensures |dated| <= |cases|
  {
    if cases == [] then []
    else
      var front := DatedCases(cases[..|cases| - 1]);
      var last := cases[|cases| - 1];
      if last.nextCourtDate != "" then front + [last] else front
  }

  /** The lines of consecutive blocks. */
  function Concat(blocks: seq<seq<string>>): seq<string>
  {
    if blocks == [] then [] else Concat(blocks[..|blocks| - 1]) + blocks[|blocks| - 1]
  }

  /** One event block per case, in order, the `k`-th stamped with the clock's `k`-th reading. */
  function Blocks(dated: seq<CourtCase>, clock: nat -> string): (blocks: seq<seq<string>>)
    ensures |blocks| == |dated|
  {
    seq(|dated|, k requires 0 <= k < |dated| => EventBlock(dated[k], clock(k)))
  }

  /** Every block has fourteen lines. */
  lemma BlocksLength(dated: seq<CourtCase>, clock: nat -> string)
    ensures forall k :: 0 <= k < |dated| ==> |Blocks(dated, clock)[k]| == 14
  {
    forall k | 0 <= k < |dated|
      ensures |Blocks(dated, clock)[k]| == 14
    {
      assert Blocks(dated, clock)[k] == EventBlock(dated[k], clock(k));
    }
  }

  /** Adding a case to the end adds its block to the end. */
  lemma BlocksAppend(dated: seq<CourtCase>, c: CourtCase, clock: nat -> string)
    ensures Blocks(dated + [c], clock)[..|dated|] == Blocks(dated, clock)
    ensures Blocks(dated + [c], clock)[|dated|] == EventBlock(c, clock(|dated|))
  {
    var longer := Blocks(dated + [c], clock);
    forall k | 0 <= k < |dated|
      ensures longer[k] == Blocks(dated, clock)[k]
    {
      assert (dated + [c])[k] == dated[k];
    }
  }

  /** The event lines: the blocks of the cases with a court date, in order. */
  function EventLines(cases: seq<CourtCase>, clock: nat -> string): seq<string>
  {
    Concat(Blocks(DatedCases(cases), clock))
  }

  /** Every line of the file before joining. */
  function CalendarLines(cases: seq<CourtCase>, clock: nat -> string): seq<string>
  {
    Header + EventLines(cases, clock) + [Footer]
  }

  datatype Export = Export(content: string, count: nat)

  /**
   * `exportToCalendar(cases)`: the header, one event per case with a court date, the footer,
   * joined with CRLF, and the number of events; with no court date at all, the error "No court
   * dates to export". `clock(k)` is the time stamp read for the `k`-th event.
   */
  method ExportToCalendar(cases: seq<CourtCase>, clock: nat -> string) returns (r: Result<Export, string>)
    ensures |DatedCases(cases)| == 0 ==> r == Failure(NoCourtDates)
    ensures |DatedCases(cases)| > 0
      ==> r == Success(Export(Join(CalendarLines(cases, clock), "\r\n"), |DatedCases(cases)|))
  {
    var icsContent, eventCount := AddEvents(cases, clock);
    icsContent := icsContent + [Footer];
    if eventCount == 0 {
      return Failure(NoCourtDates);
    }
    return Success(Export(Join(icsContent, "\r\n"), eventCount));
  }

  /** `cases.forEach(...)`: the header followed by the events of the cases with a court date, and their number. */
  method AddEvents(cases: seq<CourtCase>, clock: nat -> string) returns (icsContent: seq<string>, eventCount: nat)
    ensures icsContent == Header + EventLines(cases, clock)
    ensures eventCount == |DatedCases(cases)|
  {
    icsContent := Header;
    eventCount := 0;
    var i := 0;
    assert cases[..0] == [];
    assert EventLines(cases[..0], clock) == [];
    while i < |cases|
      invariant 0 <= i <= |cases|
      invariant icsContent == Header + EventLines(cases[..i], clock)
      invariant eventCount == |DatedCases(cases[..i])|
    {
      icsContent, eventCount := AddEvent(cases, i, clock, icsContent, eventCount);
      i := i + 1;
    }
    assert cases[..i] == cases;
  }

  /** The `forEach` callback: pushes the event of case `i` when it has a court date. */
  method AddEvent(cases: seq<CourtCase>, i: nat, clock: nat -> string, icsContent: seq<string>, eventCount: nat)
    returns (newContent: seq<string>, newCount: nat)
    requires i < |cases|
    requires icsContent == Header + EventLines(cases[..i], clock)
    requires eventCount == |DatedCases(cases[..i])|
    ensures newContent == Header + EventLines(cases[..i + 1], clock)
    ensures newCount == |DatedCases(cases[..i + 1])|
  {
    var c := cases[i];
    ExportStep(cases, i, clock, icsContent);
    newContent, newCount := icsContent, eventCount;
    if c.nextCourtDate != "" {
      newContent := icsContent + EventBlock(c, clock(eventCount));
      newCount := eventCount + 1;
    }
  }

  /** Taking one more case adds its block when it has a court date. */
  lemma EventLinesStep(cases: seq<CourtCase>, i: nat, clock: nat -> string)
    requires i < |cases|
    ensures DatedCases(cases[..i + 1])
      == DatedCases(cases[..i]) + (if cases[i].nextCourtDate != "" then [cases[i]] else [])
    ensures |DatedCases(cases[..i + 1])| == |DatedCases(cases[..i])| + (if cases[i].nextCourtDate != "" then 1 else 0)
    ensures EventLines(cases[..i + 1], clock)
      == EventLines(cases[..i], clock) + (if cases[i].nextCourtDate != "" then EventBlock(cases[i], clock(|DatedCases(cases[..i])|)) else [])
  {
    assert cases[..i + 1][..i] == cases[..i];
    var d := DatedCases(cases[..i]);
    if cases[i].nextCourtDate != "" {
      BlocksAppend(d, cases[i], clock);
    }
  }

  /** One step of the export loop: the lines so far plus the next case's block, if any. */
  lemma ExportStep(cases: seq<CourtCase>, i: nat, clock: nat -> string, content: seq<string>)
    requires i < |cases|
    requires content == Header + EventLines(cases[..i], clock)
    ensures |DatedCases(cases[..i + 1])| == |DatedCases(cases[..i])| + (if cases[i].nextCourtDate != "" then 1 else 0)
    ensures cases[i].nextCourtDate != "" ==> content + EventBlock(cases[i], clock(|DatedCases(cases[..i])|)) == Header + EventLines(cases[..i + 1], clock)
    ensures cases[i].nextCourtDate == "" ==> content == Header + EventLines(cases[..i + 1], clock)
  {
    EventLinesStep(cases, i, clock);
    if cases[i].nextCourtDate != "" {
      AppendAssociates(Header, EventLines(cases[..i], clock), EventBlock(cases[i], clock(|DatedCases(cases[..i])|)));
    }
  }

  lemma AppendAssociates<T>(a: seq<T>, b: seq<T>, c: seq<T>)
    ensures a + b + c == a + (b + c)
  {
  }

  /** Blocks of fourteen lines: the lines come fourteen per block. */
  lemma {:induction false} ConcatLength(blocks: seq<seq<string>>)
    requires forall i :: 0 <= i < |blocks| ==> |blocks[i]| == 14
    ensures |Concat(blocks)| == 14 * |blocks|
    decreases |blocks|
  {
    if blocks != [] {
      ConcatLength(blocks[..|blocks| - 1]);
    }
  }

  /** Blocks of fourteen lines: block `k` is lines `14k` to `14k + 13`. */
  lemma {:induction false} ConcatBlockAt(blocks: seq<seq<string>>, k: nat)
    requires forall i :: 0 <= i < |blocks| ==> |blocks[i]| == 14
    requires k < |blocks|
    ensures 14 * k + 14 <= |Concat(blocks)|
    ensures Concat(blocks)[14 * k .. 14 * k + 14] == blocks[k]
    decreases |blocks|
  {
    var front := blocks[..|blocks| - 1];
    ConcatLength(front);
    if k < |front| {
      ConcatBlockAt(front, k);
    }
  }

  /** There are fourteen event lines per case with a court date. */
  lemma EventLinesLength(cases: seq<CourtCase>, clock: nat -> string)
    ensures |EventLines(cases, clock)| == 14 * |DatedCases(cases)|
  {
    BlocksLength(DatedCases(cases), clock);
    ConcatLength(Blocks(DatedCases(cases), clock));
  }

  /** The `k`-th event block belongs to the `k`-th case with a court date. */
  lemma EventBlockAt(cases: seq<CourtCase>, clock: nat -> string, k: nat)
    requires k < |DatedCases(cases)|
    ensures 14 * k + 14 <= |EventLines(cases, clock)|
    ensures EventLines(cases, clock)[14 * k .. 14 * k + 14] == EventBlock(DatedCases(cases)[k], clock(k))
  {
    BlocksLength(DatedCases(cases), clock);
    ConcatBlockAt(Blocks(DatedCases(cases), clock), k);
  }

  /** The export fails exactly when no case has a court date. */
  lemma {:induction false} NoDatedCasesIff(cases: seq<CourtCase>)
    ensures |DatedCases(cases)| == 0 <==> forall i :: 0 <= i < |cases| ==> cases[i].nextCourtDate == ""
    decreases |cases|
  {
    if cases != [] {
      var front := cases[..|cases| - 1];
      NoDatedCasesIff(front);
      assert forall i :: 0 <= i < |front| ==> front[i] == cases[i];
    }
  }

  /** A case has an event exactly when it is one of the cases and has a court date. */
  lemma {:induction false} DatedCasesMembers(cases: seq<CourtCase>, c: CourtCase)
    ensures c in DatedCases(cases) <==> c in cases && c.nextCourtDate != ""
    decreases |cases|
  {
    if cases != [] {
      var front := cases[..|cases| - 1];
      DatedCasesMembers(front, c);
      assert cases == front + [cases[|cases| - 1]];
    }
  }

  /**
   * The file starts with the five header lines and ends with the footer, and has fourteen
   * lines per event in between.
   */
  lemma CalendarFrame(cases: seq<CourtCase>, clock: nat -> string)
    ensures var lines := CalendarLines(cases, clock);
      && lines[..5] == Header
      && lines[|lines| - 1] == Footer
      && |lines| == 6 + 14 * |DatedCases(cases)|
  {
    EventLinesLength(cases, clock);
  }

  /**
   * Each event names its case in its UID, starts on the court date without hyphens, and
   * reminds one day before.
   */
  lemma EventFields(c: CourtCase, timestamp: string)
    requires IsIsoDateString(c.nextCourtDate)
    ensures var block := EventBlock(c, timestamp);
      var s := c.nextCourtDate;
      && block[1] == "UID:" + c.id + "@nycasetracker.com"
      && block[2] == "DTSTAMP:" + timestamp
      && block[3] == "DTSTART;VALUE=DATE:" + (s[..4] + s[5..7] + s[8..])
      && block[9] == "TRIGGER:-P1D"
  {
    ICalDateOfIsoString(c.nextCourtDate);
    EventLinesOfFields(c.id, timestamp, FormatICalDate(ParseLocalDate(c.nextCourtDate)), Summary(c), Description(c), Location(c));
  }

  /** A `YYYY-MM-DD` court date becomes its own digits without the hyphens. */
  lemma ICalDateOfIsoString(s: string)
    requires IsIsoDateString(s)
    ensures FormatICalDate(ParseLocalDate(s)) == s[..4] + s[5..7] + s[8..]
  {
    FormatParseRoundTrip(s);
    FormatICalDateDropsHyphens(ParseLocalDate(s));
    DashedPieces(s);
    DigitsHaveNoDash(s[..4]);
    DigitsHaveNoDash(s[5..7]);
    DigitsHaveNoDash(s[8..]);
    DropTwoHyphens(s[..4], s[5..7], s[8..]);
  }

  /** Removing the hyphens of `a-b-c` leaves `abc` when the pieces have none. */
  lemma DropTwoHyphens(a: string, b: string, c: string)
    requires '-' !in a && '-' !in b && '-' !in c
    ensures ReplaceChar(a + "-" + b + "-" + c, '-', "") == a + b + c
  {
    HyphenDropped();
    ReplaceCharAbsent(a, '-', "");
    ReplaceCharAbsent(b, '-', "");
    ReplaceCharAbsent(c, '-', "");
    ReplaceCharAppend(a, "-", '-', "");
    assert ReplaceChar(a + "-", '-', "") == a;
    ReplaceCharAppend(a + "-", b, '-', "");
    ReplaceCharAppend(a + "-" + b, "-", '-', "");
    assert ReplaceChar(a + "-" + b + "-", '-', "") == a + b;
    ReplaceCharAppend(a + "-" + b + "-", c, '-', "");
  }

  /** The appearance type leads the description only when it is set. */
  lemma DescriptionPartsOrder(c: CourtCase)
    ensures |DescriptionParts(c)| == if c.nextCourtAppearanceType != "" then 4 else 3
    ensures c.nextCourtAppearanceType != "" ==> DescriptionParts(c)[0] == "On for: " + c.nextCourtAppearanceType
    ensures DescriptionParts(c)[|DescriptionParts(c)| - 1] == "ADA: " + OrNA(c.assignedAda)
  {
  }
}
