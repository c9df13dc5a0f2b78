/**
 * The input sanitiser, the excluded-days validator, the next-court-date colour class and
 * the storage checksum of js/utils.js.
 */
module Validation {
  import opened JsValues
  import opened Dates

  // ---------------------------------------------------------------------------
  // sanitizeString
  // ---------------------------------------------------------------------------

  /** The characters the first replacement removes: `<`, `>`, `'` and `"`. */
  predicate IsMarkupChar(c: char)
  {
    c == '<' || c == '>' || c == '\'' || c == '"'
  }

  /** The characters the second replacement removes: U+0000 to U+001F and U+007F. */
  predicate IsControlChar(c: char)
  {
    c <= '\U{001F}' || c == '\U{007F}'
  }

  /** No character of `s` is a markup character. */
  predicate NoMarkup(s: string)
  {
    forall i :: 0 <= i < |s| ==> !IsMarkupChar(s[i])
  }

  /** No character of `s` is a control character. */
  predicate NoControl(s: string)
  {
    forall i :: 0 <= i < |s| ==> !IsControlChar(s[i])
  }

  /** No markup and no control character: what the first two replacements guarantee. */
  predicate Safe(s: string)
  {
    NoMarkup(s) && NoControl(s)
  }

  /** `s.replace(/[<>'"]/g, '')` */
  function StripMarkup(s: string): (r: string)
    ensures |r| <= |s|
    ensures NoMarkup(r)
  {
    if s == [] then []
    else if IsMarkupChar(s[0]) then StripMarkup(s[1..])
    else [s[0]] + StripMarkup(s[1..])
  }

  /** `s.replace(/[\x00-\x1F\x7F]/g, '')` */
  function StripControl(s: string): (r: string)
    ensures |r| <= |s|
    ensures NoControl(r)
    ensures NoMarkup(s) ==> NoMarkup(r)
  {
    if s == [] then []
    else if IsControlChar(s[0]) then StripControl(s[1..])
    else [s[0]] + StripControl(s[1..])
  }

  /** The case folding of the `i` flag on ASCII letters; other characters are left alone. */
  function LowerAscii(c: char): char
  {
    if 'A' <= c <= 'Z' then (c as int + 32) as char else c
  }

  /** `s` starts with `word` (written in lower case), ignoring the case of ASCII letters. */
  predicate StartsIgnoringCase(s: string, word: string)
  {
    |word| <= |s| && forall i :: 0 <= i < |word| ==> LowerAscii(s[i]) == word[i]
  }

  /** `s.replace(/javascript:/gi, '')`: every match, left to right, removed in one pass. */
  function StripJavascript(s: string): (r: string)
    ensures |r| <= |s|
    ensures Safe(s) ==> Safe(r)
  {
    if s == [] then []
    else if StartsIgnoringCase(s, "javascript:") then StripJavascript(s[11..])
    else [s[0]] + StripJavascript(s[1..])
  }

  /** The characters of the regular-expression class `\w`. */
  predicate IsWordChar(c: char)
  {
    'a' <= c <= 'z' || 'A' <= c <= 'Z' || '0' <= c <= '9' || c == '_'
  }

  /** The length of the longest prefix of `s` made of `\w` characters. */
  function WordRun(s: string): (k: nat)
    ensures k <= |s|
    ensures forall i :: 0 <= i < k ==> IsWordChar(s[i])
    ensures k < |s| ==> !IsWordChar(s[k])
  {
    if s != [] && IsWordChar(s[0]) then 1 + WordRun(s[1..]) else 0
  }

  /**
   * The length of the match of `/on\w+=/i` at the start of `s`, or 0 when there is none:
   * "on", then at least one `\w` character, then '='. A greedy `\w+` cannot give back
   * characters to reach the '=', since '=' is not a `\w` character.
   */
  function HandlerMatch(s: string): (k: nat)
    ensures k == 0 || 4 <= k <= |s|
  {
    if StartsIgnoringCase(s, "on") then
      var w := WordRun(s[2..]);
      if w >= 1 && 2 + w < |s| && s[2 + w] == '=' then 3 + w else 0
    else 0
  }

  /** `s.replace(/on\w+=/gi, '')` */
  function StripHandlers(s: string): (r: string)
    ensures |r| <= |s|
    ensures Safe(s) ==> Safe(r)
  {
    if s == [] then []
    else if HandlerMatch(s) > 0 then StripHandlers(s[HandlerMatch(s)..])
    else [s[0]] + StripHandlers(s[1..])
  }

  /** `s.slice(0, n)` */
  function Prefix(s: string, n: nat): (r: string)
    ensures |r| <= n
  {
    if |s| <= n then s else s[..n]
  }

  const MaxLength := 1000

  /** `sanitizeString(s)` (js/utils.js) on a string: four replacements, `trim`, then the first 1000 characters. */
  function SanitizeString(s: string): string
  {
    Prefix(Trim(StripHandlers(StripJavascript(StripControl(StripMarkup(s))))), MaxLength)
  }

  /** `sanitizeString(v)` on any value: `null` and `undefined` give "", anything else goes through `String(v)`. */
  function SanitizeValue(v: Json): string
  {
    if v.Null? || v.Undefined? then "" else SanitizeString(ToJsString(v))
  }

  /** The sanitised string is at most 1000 characters long and keeps no markup or control character. */
  lemma SanitizeStringSafe(s: string)
    ensures |SanitizeString(s)| <= MaxLength
    ensures Safe(SanitizeString(s))
  {
    var u := StripHandlers(StripJavascript(StripControl(StripMarkup(s))));
    var t := Trim(u);
    var r := SanitizeString(s);
    forall i | 0 <= i < |r|
      ensures !IsMarkupChar(r[i]) && !IsControlChar(r[i])
    {
      assert r[i] in t;
      assert r[i] in u;
    }
  }

  /** `null` and `undefined` sanitise to the empty string; every value obeys the length and character bounds. */
  lemma SanitizeValueSafe(v: Json)
    ensures v.Null? || v.Undefined? ==> SanitizeValue(v) == ""
    ensures |SanitizeValue(v)| <= MaxLength
    ensures Safe(SanitizeValue(v))
  {
    if !v.Null? && !v.Undefined? {
      SanitizeStringSafe(ToJsString(v));
    }
  }

  /** The text the replacements leave alone: no markup or control character, and no match of the two patterns. */
  predicate NothingToStrip(s: string)
  {
    Safe(s)
    && (forall i :: 0 <= i < |s| ==> !StartsIgnoringCase(s[i..], "javascript:") && HandlerMatch(s[i..]) == 0)
  }

  lemma {:induction false} StripMarkupKeeps(s: string)
    requires NoMarkup(s)
    ensures StripMarkup(s) == s
    decreases |s|
  {
    if s != [] {
      StripMarkupKeeps(s[1..]);
      assert [s[0]] + s[1..] == s;
    }
  }

  lemma {:induction false} StripControlKeeps(s: string)
    requires NoControl(s)
    ensures StripControl(s) == s
    decreases |s|
  {
    if s != [] {
      StripControlKeeps(s[1..]);
      assert [s[0]] + s[1..] == s;
    }
  }

  lemma {:induction false} StripJavascriptKeeps(s: string)
    requires forall i :: 0 <= i < |s| ==> !StartsIgnoringCase(s[i..], "javascript:")
    ensures StripJavascript(s) == s
    decreases |s|
  {
    if s != [] {
      assert s[0..] == s;
      forall i | 0 <= i < |s[1..]|
        ensures !StartsIgnoringCase(s[1..][i..], "javascript:")
      {
        assert s[1..][i..] == s[i + 1..];
      }
      StripJavascriptKeeps(s[1..]);
      assert [s[0]] + s[1..] == s;
    }
  }

  lemma {:induction false} StripHandlersKeeps(s: string)
    requires forall i :: 0 <= i < |s| ==> HandlerMatch(s[i..]) == 0
    ensures StripHandlers(s) == s
    decreases |s|
  {
    if s != [] {
      assert s[0..] == s;
      forall i | 0 <= i < |s[1..]|
        ensures HandlerMatch(s[1..][i..]) == 0
      {
        assert s[1..][i..] == s[i + 1..];
      }
      StripHandlersKeeps(s[1..]);
      assert [s[0]] + s[1..] == s;
    }
  }

  /** A string with nothing to strip, no surrounding white space and at most 1000 characters comes back unchanged. */
  lemma SanitizeKeepsCleanText(s: string)
    requires NothingToStrip(s) && Trim(s) == s && |s| <= MaxLength
    ensures SanitizeString(s) == s
  {
    StripMarkupKeeps(s);
    StripControlKeeps(s);
    StripJavascriptKeeps(s);
    StripHandlersKeeps(s);
  }

  /**
   * On text without markup or control characters, when the "javascript:" pass gives `r` and
   * the remaining steps leave `r` alone, the result is `r`.
   */
  lemma SanitizeSafeText(s: string, r: string)
    requires Safe(s) && StripJavascript(s) == r
    requires StripHandlers(r) == r && Trim(r) == r && |r| <= MaxLength
    ensures SanitizeString(s) == r
  {
    StripMarkupKeeps(s);
    StripControlKeeps(s);
  }

  /** The "javascript:" pass skips a first character that does not start a match. */
  lemma StripJavascriptSkips(s: string)
    requires s != [] && !StartsIgnoringCase(s, "javascript:")
    ensures StripJavascript(s) == [s[0]] + StripJavascript(s[1..])
  {
  }

  /** The "javascript:" pass drops a match at the start. */
  lemma StripJavascriptDrops(s: string)
    requires StartsIgnoringCase(s, "javascript:")
    ensures StripJavascript(s) == StripJavascript(s[11..])
  {
  }

  /** Text shorter than "javascript:" holds no match. */
  lemma StripJavascriptShort(s: string)
    requires |s| < 11
    ensures StripJavascript(s) == s
  {
    StripJavascriptKeeps(s);
  }

  /** Text without the letter o holds no event-handler attribute. */
  lemma StripHandlersWithoutO(s: string)
    requires forall i :: 0 <= i < |s| ==> s[i] != 'o' && s[i] != 'O'
    ensures StripHandlers(s) == s
  {
    forall i | 0 <= i < |s|
      ensures HandlerMatch(s[i..]) == 0
    {
      assert s[i..][0] == s[i];
    }
    StripHandlersKeeps(s);
  }

  /** The facts about the sample string that the examples below need, each read off its characters. */
  lemma SpliceSafe(s: string)
    requires s == "jjavascript:avascript:"
    ensures Safe(s)
  {
  }

  lemma SpliceMatches(s: string)
    requires s == "jjavascript:avascript:"
    ensures !StartsIgnoringCase(s, "javascript:")
    ensures StartsIgnoringCase(s[1..], "javascript:")
  {
    assert LowerAscii(s[1]) != 'a';
  }

  lemma SpliceJoins(s: string)
    requires s == "jjavascript:avascript:"
    ensures s[1..][11..] == s[12..] && [s[0]] + s[12..] == "javascript:"
  {
  }

  lemma JavascriptFacts(r: string)
    requires r == "javascript:"
    ensures Safe(r) && StartsIgnoringCase(r, "javascript:") && |r| == 11
    ensures forall i :: 0 <= i < |r| ==> r[i] != 'o' && r[i] != 'O'
    ensures Trim(r) == r
  {
    TrimUnchanged(r);
  }

  /** One pass of the "javascript:" replacement on "j" + "javascript:" + "avascript:" leaves "javascript:". */
  lemma StripJavascriptSplice(s: string)
    requires s == "jjavascript:avascript:"
    ensures StripJavascript(s) == "javascript:"
  {
    SpliceMatches(s);
    SpliceJoins(s);
    StripJavascriptSkips(s);
    StripJavascriptDrops(s[1..]);
    StripJavascriptShort(s[12..]);
  }

  /** A lone match of "javascript:" sanitises to the empty string. */
  lemma SanitizeLoneMatch(r: string)
    requires Safe(r) && StartsIgnoringCase(r, "javascript:") && |r| == 11
    ensures SanitizeString(r) == ""
  {
    StripJavascriptDrops(r);
    SanitizeSafeText(r, "");
  }

  /** "javascript:" itself sanitises to the empty string. */
  lemma SanitizeRemovesJavascript(r: string)
    requires r == "javascript:"
    ensures SanitizeString(r) == ""
  {
    JavascriptFacts(r);
    SanitizeLoneMatch(r);
  }

  /**
   * Removing one match can join the text around it into a new match, so the output may
   * still hold "javascript:" and sanitising twice differs from sanitising once.
   */
  lemma SanitizeNotIdempotent(s: string)
    requires s == "jjavascript:avascript:"
    ensures SanitizeString(s) == "javascript:"
    ensures SanitizeString(SanitizeString(s)) == ""
  {
    SpliceSafe(s);
    StripJavascriptSplice(s);
    var r := StripJavascript(s);
    JavascriptFacts(r);
    StripHandlersWithoutO(r);
    SanitizeSafeText(s, r);
    SanitizeRemovesJavascript(r);
  }

  // ---------------------------------------------------------------------------
  // calculateChecksum
  // ---------------------------------------------------------------------------

  const TwoTo31: int := 0x8000_0000
  const TwoTo32: int := 0x1_0000_0000

  /** ECMAScript ToInt32 on an integer: wrap-around into [-2^31, 2^31). */
  function Wrap32(x: int): (r: int)
    ensures -TwoTo31 <= r < TwoTo31
    ensures (x - r) % TwoTo32 == 0
  {
    (x + TwoTo31) % TwoTo32 - TwoTo31
  }

  /** Two integers that agree modulo 2^32 wrap to the same 32-bit value. */
  lemma WrapCongruent(x: int, y: int, k: int)
    requires x == y + k * TwoTo32
    ensures Wrap32(x) == Wrap32(y)
  {
    var a := y + TwoTo31;
    assert x + TwoTo31 == a + k * TwoTo32;
    assert (a + k * TwoTo32) % TwoTo32 == a % TwoTo32;
  }

  /** The checksum hash as a left fold: `h := ToInt32(31 * h + code)` over the characters, from 0. */
  function ChecksumHash(s: string): (h: int)
    ensures -TwoTo31 <= h < TwoTo31
  {
    if s == [] then 0 else Wrap32(31 * ChecksumHash(s[..|s| - 1]) + s[|s| - 1] as int)
  }

  /** `calculateChecksum(dataString)` (js/utils.js): the hash loop, the result printed in base 36. */
  method CalculateChecksum(dataString: string) returns (checksum: string)
    ensures checksum == ToBase36(ChecksumHash(dataString))
  {
    var hash := 0;
    var i := 0;
    while i < |dataString|
      invariant 0 <= i <= |dataString|
      invariant hash == ChecksumHash(dataString[..i])
    {
      var code := dataString[i] as int;
      var shifted := Wrap32(hash * 32);            // hash << 5
      ShiftStep(hash, shifted, code);
      assert dataString[..i + 1][..i] == dataString[..i];
      hash := Wrap32(shifted - hash + code);       // (... - hash) + char, then hash & hash
      i := i + 1;
    }
    assert dataString[..i] == dataString;
    checksum := ToBase36(hash);
  }

  lemma ShiftStep(h: int, shifted: int, code: int)
    requires shifted == Wrap32(h * 32)
    ensures Wrap32(shifted - h + code) == Wrap32(31 * h + code)
  {
    var k := (h * 32 - shifted) / TwoTo32;
    WrapCongruent(31 * h + code, shifted - h + code, k);
  }

  /** The hash read as a number: `sum of code(s[i]) * 31^(n-1-i)`, without wrap-around. */
  function PolynomialHash(s: string): int
  {
    if s == [] then 0 else 31 * PolynomialHash(s[..|s| - 1]) + s[|s| - 1] as int
  }

  /** The 32-bit hash is the polynomial hash reduced to 32 bits: wrapping once at the end is the same. */
  lemma {:induction false} ChecksumIsPolynomialHash(s: string)
    ensures ChecksumHash(s) == Wrap32(PolynomialHash(s))
    decreases |s|
  {
    if s != [] {
      var front := s[..|s| - 1];
      var c := s[|s| - 1] as int;
      ChecksumIsPolynomialHash(front);
      var p := PolynomialHash(front);
      var w := Wrap32(p);
      var k := (p - w) / TwoTo32;
      assert p == w + k * TwoTo32;
      WrapCongruent(31 * p + c, 31 * w + c, 31 * k);
    }
  }

  // ---------------------------------------------------------------------------
  // validateExcludedDays
  // ---------------------------------------------------------------------------

  /** `{ valid: true }` or `{ valid: false, error, warning? }` */
  datatype Verdict = Valid | Invalid(error: string, warning: bool)

  const NegativeExcludedError := "Excluded days must be a positive number"

  /** `validateExcludedDays(excluded, total)` (js/utils.js), both values read with `Number`. */
  function ValidateExcludedDays(excluded: Json, total: Json): (v: Verdict)
    ensures v.Valid? <==> ToNumber(excluded).Int? && ToNumber(excluded).value >= 0
                          && (ToNumber(total).NaN? || ToNumber(excluded).value <= ToNumber(total).value)
    ensures v.Invalid? && !v.warning <==> ToNumber(excluded).NaN? || ToNumber(excluded).value < 0
    ensures v.Invalid? && !v.warning ==> v.error == NegativeExcludedError
  {
    var ex := ToNumber(excluded);
    var tot := ToNumber(total);
    if ex.NaN? || ex.value < 0 then Invalid(NegativeExcludedError, false)
    else if tot.Int? && ex.value > tot.value then
      Invalid("Excluded days (" + IntToString(ex.value) + ") cannot exceed total days ("
              + IntToString(tot.value) + ")", true)
    else Valid
  }

  /** The warning names both numbers, and reading them back out of the message gives the two inputs. */
  lemma ExceedMessageNamesNumbers(ex: nat, tot: int)
    requires ex > tot
    ensures var v := ValidateExcludedDays(Num(ex), Num(tot));
      v == Invalid("Excluded days (" + IntToString(ex) + ") cannot exceed total days ("
                   + IntToString(tot) + ")", true)
    ensures StrToNumber(IntToString(ex)) == Int(ex) && StrToNumber(IntToString(tot)) == Int(tot)
  {
    ExceedWarning(ex, tot);
    StrToNumberOfIntToString(ex);
    StrToNumberOfIntToString(tot);
  }

  lemma ExceedWarning(ex: nat, tot: int)
    requires ex > tot
    ensures ValidateExcludedDays(Num(ex), Num(tot))
      == Invalid("Excluded days (" + IntToString(ex) + ") cannot exceed total days (" + IntToString(tot) + ")", true)
  {
    assert ToNumber(Num(ex)) == Int(ex) && ToNumber(Num(tot)) == Int(tot);
  }

  // ---------------------------------------------------------------------------
  // ncdClass
  // ---------------------------------------------------------------------------

  /**
   * `ncdClass(nextCourtDateStr)` (js/utils.js) against `today`: red when the court date has
   * passed, yellow within the coming week, green otherwise. An unparseable date compares
   * as NaN, which fails both tests and so is green.
   */
  function NcdClass(nextCourtDateStr: string, today: Date): (cls: string)
    ensures nextCourtDateStr == "" <==> cls == ""
    ensures cls == "ncd-red" <==>
      nextCourtDateStr != "" && ParseLocalDate(nextCourtDateStr).At?
      && DayNumber(ParseLocalDate(nextCourtDateStr).date) < DayNumber(today)
    ensures cls == "ncd-yellow" <==>
      nextCourtDateStr != "" && ParseLocalDate(nextCourtDateStr).At?
      && DayNumber(today) <= DayNumber(ParseLocalDate(nextCourtDateStr).date) <= DayNumber(today) + 7
    ensures cls == "ncd-green" <==>
      nextCourtDateStr != "" && (ParseLocalDate(nextCourtDateStr).InvalidDate?
        || DayNumber(ParseLocalDate(nextCourtDateStr).date) > DayNumber(today) + 7)
  {
    if nextCourtDateStr == "" then ""
    else
      match ParseLocalDate(nextCourtDateStr)
      case InvalidDate => "ncd-green"
      case At(ncd) =>
        var diffDays := DayNumber(ncd) - DayNumber(today);
        if diffDays < 0 then "ncd-red"
        else if diffDays <= 7 then "ncd-yellow"
        else "ncd-green"
  }
}
