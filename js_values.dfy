/**
 * The slice of JavaScript's value semantics that the case tracker relies on:
 * numbers that may be NaN, untrusted JSON values, truthiness, `String(v)`,
 * `Number(v)`, `trim`, `join` and integer rendering in a radix.
 */
module JsValues {

  /** A JavaScript number as the modelled code produces it: an integer or NaN. */
  datatype Number = NaN | Int(value: int)

  /** A value read from parsed JSON, or `undefined` for a property that is absent. */
  datatype Json =
    | Undefined
    | Null
    | Bool(b: bool)
    | Num(n: int)
    | Str(s: string)
    | Arr(items: seq<Json>)
    | Obj(fields: map<string, Json>)

  predicate Truthy(v: Json)
  {
    match v
    case Undefined => false
    case Null => false
    case Bool(b) => b
    case Num(n) => n != 0
    case Str(s) => s != ""
    case Arr(_) => true
    case Obj(_) => true
  }

  /** `a || b` */
  function Or(a: Json, b: Json): Json
  {
    if Truthy(a) then a else b
  }

  /** `a && b` */
  function And(a: Json, b: Json): Json
  {
    if Truthy(a) then b else a
  }

  /** Property access `v.key`; anything but an object with that key gives `undefined`. */
  function Get(v: Json, key: string): Json
  {
    if v.Obj? && key in v.fields then v.fields[key] else Undefined
  }

  /** JavaScript's `a % b`: the remainder takes the sign of the dividend. */
  function JsRemainder(a: int, b: int): (r: int)
    requires b > 0
    ensures a >= 0 ==> r == a % b
    ensures -b < r < b
  {
    if a >= 0 then a % b else -((-a) % b)
  }

  // ---------------------------------------------------------------------------
  // Digits and radix rendering
  // ---------------------------------------------------------------------------

  predicate IsDecimalDigit(c: char)
  {
    '0' <= c <= '9'
  }

  predicate AllDecimalDigits(s: string)
  {
    forall i :: 0 <= i < |s| ==> IsDecimalDigit(s[i])
  }

  /** The value of a string of decimal digits, most significant first. */
  function DecimalValue(s: string): (v: nat)
    requires AllDecimalDigits(s)
  {
    if |s| == 0 then 0 else 10 * DecimalValue(s[..|s| - 1]) + (s[|s| - 1] as int - '0' as int)
  }

  /** The digit for `k` in radices up to 36: '0'..'9', then 'a'..'z'. */
  function DigitChar(k: nat): (c: char)
    requires k < 36
    ensures k < 10 <==> IsDecimalDigit(c)
  {
    if k < 10 then ('0' as int + k) as char else ('a' as int + k - 10) as char
  }

  /** `n.toString(radix)` for a non-negative integer: no leading zeros, lower-case letters. */
  function NatToRadix(n: nat, radix: nat): (s: string)
    requires 2 <= radix <= 36
    ensures |s| >= 1
    ensures n > 0 ==> s[0] != '0'
    decreases n
  {
    if n < radix then [DigitChar(n)]
    else
      DivisionStep(n, radix);
      NatToRadix(n / radix, radix) + [DigitChar(n % radix)]
  }

  lemma DivisionStep(n: nat, b: nat)
    requires 2 <= b <= n
    ensures 1 <= n / b < n && 0 <= n % b < b
  {
  }

  /** `String(n)` for an integer. */
  function IntToString(n: int): string
  {
    if n < 0 then "-" + NatToRadix(-n, 10) else NatToRadix(n, 10)
  }

  lemma {:induction false} DecimalValueOfNatToRadix(n: nat)
    ensures AllDecimalDigits(NatToRadix(n, 10))
    ensures DecimalValue(NatToRadix(n, 10)) == n
    decreases n
  {
    var s := NatToRadix(n, 10);
    if n < 10 {
      assert s == [DigitChar(n)];
      assert DecimalValue(s) == 10 * DecimalValue([]) + n;
    } else {
      var front := NatToRadix(n / 10, 10);
      DecimalValueOfNatToRadix(n / 10);
      assert s == front + [DigitChar(n % 10)];
      assert s[..|s| - 1] == front;
      assert DecimalValue(s) == 10 * (n / 10) + n % 10;
    }
  }

  /** A canonical decimal string (no leading zero unless it is "0") is what `String` prints for its value. */
  lemma {:induction false} NatToRadixOfDecimalValue(s: string)
    requires |s| >= 1 && AllDecimalDigits(s)
    requires s[0] != '0' || |s| == 1
    ensures NatToRadix(DecimalValue(s), 10) == s
    decreases |s|
  {
    var c := s[|s| - 1];
    if |s| == 1 {
      assert DecimalValue(s) == 10 * DecimalValue([]) + (c as int - '0' as int);
    } else {
      var front := s[..|s| - 1];
      assert front[0] == s[0];
      NatToRadixOfDecimalValue(front);
      LastSplit(s);
      AppendDigitRendering(front, c);
    }
  }

  lemma AppendDigitRendering(front: string, c: char)
    requires |front| >= 1 && AllDecimalDigits(front) && front[0] != '0' && IsDecimalDigit(c)
    requires NatToRadix(DecimalValue(front), 10) == front
    ensures AllDecimalDigits(front + [c])
    ensures NatToRadix(DecimalValue(front + [c]), 10) == front + [c]
  {
    var t := front + [c];
    var k := c as int - '0' as int;
    AppendDigitValue(front, c);
    LeadingDigitPositive(front);
    RadixAppend(DecimalValue(front), k);
    assert DigitChar(k) == c;
  }

  lemma AppendDigitValue(front: string, c: char)
    requires AllDecimalDigits(front) && IsDecimalDigit(c)
    ensures AllDecimalDigits(front + [c])
    ensures DecimalValue(front + [c]) == 10 * DecimalValue(front) + (c as int - '0' as int)
  {
    var t := front + [c];
    assert t[..|t| - 1] == front;
  }

  lemma LastSplit(s: string)
    requires |s| >= 1
    ensures s == s[..|s| - 1] + [s[|s| - 1]]
  {
  }

  /** Appending a digit `k` to the decimal rendering of `a` renders `10 * a + k`. */
  lemma RadixAppend(a: nat, k: nat)
    requires a >= 1 && k < 10
    ensures NatToRadix(10 * a + k, 10) == NatToRadix(a, 10) + [DigitChar(k)]
  {
    var v := 10 * a + k;
    assert v / 10 == a && v % 10 == k;
  }

  lemma {:induction false} LeadingDigitPositive(s: string)
    requires |s| >= 1 && AllDecimalDigits(s) && s[0] != '0'
    ensures DecimalValue(s) >= 1
    decreases |s|
  {
    if |s| > 1 {
      var front := s[..|s| - 1];
      assert front[0] == s[0];
      LeadingDigitPositive(front);
    }
  }

  /** Distinct integers print differently. */
  lemma IntToStringInjective(a: int, b: int)
    requires IntToString(a) == IntToString(b)
    ensures a == b
  {
    StrToNumberOfIntToString(a);
    StrToNumberOfIntToString(b);
  }

  // ---------------------------------------------------------------------------
  // White space, trim, join
  // ---------------------------------------------------------------------------

  /** ECMAScript WhiteSpace and LineTerminator code points (what `trim` and `Number` strip). */
  predicate IsJsWhitespace(c: char)
  {
    c == '\t' || c == '\n' || c == '\U{000B}' || c == '\U{000C}' || c == '\r' || c == ' '
    || c == '\U{00A0}' || c == '\U{1680}' || ('\U{2000}' <= c <= '\U{200A}')
    || c == '\U{2028}' || c == '\U{2029}' || c == '\U{202F}' || c == '\U{205F}'
    || c == '\U{3000}' || c == '\U{FEFF}'
  }

  function TrimStart(s: string): (r: string)
    ensures |r| <= |s| && r == s[|s| - |r|..]
    ensures |r| > 0 ==> !IsJsWhitespace(r[0])
  {
    if |s| > 0 && IsJsWhitespace(s[0]) then TrimStart(s[1..]) else s
  }

  function TrimEnd(s: string): (r: string)
    ensures |r| <= |s| && r == s[..|r|]
    ensures |r| > 0 ==> !IsJsWhitespace(r[|r| - 1])
  {
    if |s| > 0 && IsJsWhitespace(s[|s| - 1]) then TrimEnd(s[..|s| - 1]) else s
  }

  /** `s.trim()`: the result is a slice of `s` with no white space at either end. */
  function Trim(s: string): (r: string)
    ensures |r| <= |s|
    ensures forall c :: c in r ==> c in s
    ensures |r| > 0 ==> !IsJsWhitespace(r[0]) && !IsJsWhitespace(r[|r| - 1])
  {
    var t := TrimStart(s);
    var r := TrimEnd(t);
    assert forall c :: c in r ==> c in t;
    r
  }

  /** What `trimStart` cuts off is white space. */
  lemma {:induction false} TrimStartCutsWhitespace(s: string)
    ensures forall k :: 0 <= k < |s| - |TrimStart(s)| ==> IsJsWhitespace(s[k])
    decreases |s|
  {
    if |s| > 0 && IsJsWhitespace(s[0]) {
      TrimStartCutsWhitespace(s[1..]);
      assert forall k :: 1 <= k < |s| ==> s[k] == s[1..][k - 1];
    }
  }

  /** What `trimEnd` cuts off is white space. */
  lemma {:induction false} TrimEndCutsWhitespace(s: string)
    ensures forall k :: |TrimEnd(s)| <= k < |s| ==> IsJsWhitespace(s[k])
    decreases |s|
  {
    if |s| > 0 && IsJsWhitespace(s[|s| - 1]) {
      TrimEndCutsWhitespace(s[..|s| - 1]);
      assert forall k :: 0 <= k < |s| - 1 ==> s[k] == s[..|s| - 1][k];
    }
  }

  /** `s.trim()` is a slice of `s`, and what it cuts off at either end is white space. */
  lemma TrimIsSlice(s: string)
    ensures exists i, j :: TrimmedAt(s, Trim(s), i, j)
  {
    var t := TrimStart(s);
    TrimStartCutsWhitespace(s);
    TrimEndCutsWhitespace(t);
    var r := TrimEnd(t);
    assert Trim(s) == r;
    TrimBothEnds(s, t, r);
    assert TrimmedAt(s, Trim(s), |s| - |t|, |s| - |t| + |r|);
  }

  /** Trimming the start and then the end leaves a slice with only white space around it. */
  lemma TrimBothEnds(s: string, t: string, r: string)
    requires |t| <= |s| && t == s[|s| - |t|..]
    requires forall k :: 0 <= k < |s| - |t| ==> IsJsWhitespace(s[k])
    requires |r| <= |t| && r == t[..|r|]
    requires forall k :: |r| <= k < |t| ==> IsJsWhitespace(t[k])
    ensures TrimmedAt(s, r, |s| - |t|, |s| - |t| + |r|)
  {
    var i := |s| - |t|;
    forall k | i + |r| <= k < |s|
      ensures IsJsWhitespace(s[k])
    {
      assert s[k] == t[k - i];
    }
  }

  /** `s.trim()` is empty exactly when `s` is all white space. */
  lemma TrimEmptyIff(s: string)
    ensures Trim(s) == "" <==> forall k :: 0 <= k < |s| ==> IsJsWhitespace(s[k])
  {
    TrimIsSlice(s);
    var i, j :| TrimmedAt(s, Trim(s), i, j);
    if Trim(s) != "" {
      assert Trim(s)[0] == s[i];
    }
  }

  /** `r` is the slice `s[i..j]`, and everything of `s` outside it is white space. */
  predicate TrimmedAt(s: string, r: string, i: int, j: int)
  {
    && 0 <= i <= j <= |s| && r == s[i..j]
    && (forall k :: 0 <= k < i ==> IsJsWhitespace(s[k]))
    && (forall k :: j <= k < |s| ==> IsJsWhitespace(s[k]))
  }

  /** `parts.join(sep)` */
  function Join(parts: seq<string>, sep: string): string
  {
    if |parts| == 0 then ""
    else if |parts| == 1 then parts[0]
    else parts[0] + sep + Join(parts[1..], sep)
  }

  // ---------------------------------------------------------------------------
  // String(v) and Number(v)
  // ---------------------------------------------------------------------------

  /** `String(v)`; an array prints its elements joined by commas, with `null` and `undefined` as empty. */
  function ToJsString(v: Json): string
    decreases v
  {
    match v
    case Undefined => "undefined"
    case Null => "null"
    case Bool(b) => if b then "true" else "false"
    case Num(n) => IntToString(n)
    case Str(s) => s
    case Arr(items) =>
      Join(seq(|items|, i requires 0 <= i < |items| =>
             if items[i].Undefined? || items[i].Null? then "" else ToJsString(items[i])), ",")
    case Obj(_) => "[object Object]"
  }

  /**
   * `Number(s)` on a string: surrounding white space is ignored, an empty string is 0,
   * an optionally signed run of decimal digits is its value, anything else is NaN.
   */
  function StrToNumber(s: string): Number
  {
    var t := Trim(s);
    if t == "" then Int(0)
    else if (t[0] == '-' || t[0] == '+') && |t| > 1 && AllDecimalDigits(t[1..]) then
      var magnitude: int := DecimalValue(t[1..]);
      Int(if t[0] == '-' then -magnitude else magnitude)
    else if AllDecimalDigits(t) then Int(DecimalValue(t))
    else NaN
  }

  /** `Number(v)` */
  function ToNumber(v: Json): Number
  {
    match v
    case Undefined => NaN
    case Null => Int(0)
    case Bool(b) => Int(if b then 1 else 0)
    case Num(n) => Int(n)
    case Str(s) => StrToNumber(s)
    case Arr(_) => StrToNumber(ToJsString(v))
    case Obj(_) => NaN
  }

  /** Reading back what `String(n)` printed gives `n`. */
  lemma StrToNumberOfIntToString(n: int)
    ensures StrToNumber(IntToString(n)) == Int(n)
  {
    var m := if n < 0 then -n else n;
    var digits := NatToRadix(m, 10);
    DecimalValueOfNatToRadix(m);
    if n < 0 {
      NegativeDigitsParse(digits);
    } else {
      DigitsParse(digits);
    }
  }

  lemma DigitsParse(digits: string)
    requires |digits| > 0 && AllDecimalDigits(digits)
    ensures StrToNumber(digits) == Int(DecimalValue(digits))
  {
    assert IsDecimalDigit(digits[0]) && IsDecimalDigit(digits[|digits| - 1]);
    TrimUnchanged(digits);
    assert digits[0] != '-' && digits[0] != '+';
  }

  lemma NegativeDigitsParse(digits: string)
    requires |digits| > 0 && AllDecimalDigits(digits)
    ensures StrToNumber("-" + digits) == Int(-(DecimalValue(digits) as int))
  {
    var s := "-" + digits;
    assert IsDecimalDigit(digits[|digits| - 1]) && s[|s| - 1] == digits[|digits| - 1];
    TrimUnchanged(s);
    assert s[0] == '-' && s[1..] == digits;
  }

  lemma TrimUnchanged(s: string)
    requires |s| > 0 && !IsJsWhitespace(s[0]) && !IsJsWhitespace(s[|s| - 1])
    ensures Trim(s) == s
  {
    assert TrimStart(s) == s;
  }

  /** `(n).toString(36)`, with a leading minus sign for negative numbers. */
  function ToBase36(n: int): (s: string)
    ensures |s| >= 1
  {
    if n < 0 then "-" + NatToRadix(-n, 36) else NatToRadix(n, 36)
  }
}
