/** The two JavaScript number conversions the app relies on:
    `Number.prototype.toString()` for integers and `parseInt(s, 10)`.
    NaN is represented by `None`. */
module JsNumber {
  import opened Wrappers

  predicate IsDigit(c: char) {
    '0' <= c <= '9'
  }

  predicate AllDigits(s: string) {
    forall i :: 0 <= i < |s| ==> IsDigit(s[i])
  }

  function DigitValue(c: char): (d: nat)
    requires IsDigit(c)
    ensures d < 10
  {
    c as int - '0' as int
  }

  function DigitChar(d: nat): (c: char)
    requires d < 10
    ensures IsDigit(c) && DigitValue(c) == d
  {
    ('0' as int + d) as char
  }

  /** Decimal rendering of a non-negative integer, most significant digit
      first and without leading zeros. */
  function Decimal(n: nat): (s: string)
    ensures |s| >= 1 && AllDigits(s)
    ensures s[0] == '0' ==> n == 0
    ensures n < 10 <==> |s| == 1
    decreases n
  {
    if n < 10 then [DigitChar(n)] else Decimal(n / 10) + [DigitChar(n % 10)]
  }

  /** `Number.prototype.toString()` of an integer (below 10^21, where the
      decimal form is used). */
  function IntToString(i: int): (s: string)
    ensures |s| >= 1
    ensures forall k :: 0 <= k < |s| ==> IsDigit(s[k]) || (k == 0 && s[k] == '-')
    ensures s[0] == '-' <==> i < 0
  {
    if i < 0 then "-" + Decimal(-i) else Decimal(i)
  }

  /** `toString()` of a number that is an integer or, as `None`, `NaN`. */
  function NumberText(n: Option<int>): string {
    match n
    case None => "NaN"
    case Some(i) => IntToString(i)
  }

  /** Value of a run of decimal digits read most significant first. */
  function DigitsValue(s: string): nat
    requires AllDigits(s)
  {
    if |s| == 0 then 0 else DigitsValue(s[..|s| - 1]) * 10 + DigitValue(s[|s| - 1])
  }

  /** The characters `parseInt` skips before the number: ECMAScript's
      StrWhiteSpaceChar, i.e. WhiteSpace (including every space separator)
      and LineTerminator. */
  predicate IsJsWhiteSpace(c: char) {
    || c == '\t' || c == '\n' || c == '\U{B}' || c == '\U{C}' || c == '\r'
    || c == ' ' || c == '\U{A0}' || c == '\U{1680}'
    || ('\U{2000}' <= c <= '\U{200A}')
    || c == '\U{2028}' || c == '\U{2029}' || c == '\U{202F}' || c == '\U{205F}'
    || c == '\U{3000}' || c == '\U{FEFF}'
  }

  function TrimStart(s: string): (t: string)
    ensures |t| <= |s| && t == s[|s| - |t|..]
    ensures |t| == 0 || !IsJsWhiteSpace(t[0])
    ensures forall i :: 0 <= i < |s| - |t| ==> IsJsWhiteSpace(s[i])
  {
    if |s| > 0 && IsJsWhiteSpace(s[0]) then TrimStart(s[1..]) else s
  }

  /** The longest prefix of `s` made of decimal digits. */
  function LeadingDigits(s: string): (d: string)
    ensures |d| <= |s| && d == s[..|d|] && AllDigits(d)
    ensures |d| == |s| || !IsDigit(s[|d|])
  {
    if |s| > 0 && IsDigit(s[0]) then [s[0]] + LeadingDigits(s[1..]) else []
  }

  /** `parseInt(s, 10)`: skip leading white space, read an optional sign,
      then the longest run of digits; `None` (NaN) when that run is empty. */
  function ParseInt(s: string): Option<int> {
    ParseSigned(TrimStart(s))
  }

  /** parseInt after the white space is skipped. */
  function ParseSigned(t: string): Option<int> {
    if |t| > 0 && t[0] == '-' then Negate(ParseDigits(t[1..]))
    else if |t| > 0 && t[0] == '+' then ParseDigits(t[1..])
    else ParseDigits(t)
  }

  function ParseDigits(t: string): (r: Option<int>)
    ensures r.Some? ==> r.value >= 0
  {
    var digits := LeadingDigits(t);
    if |digits| == 0 then None else Some(DigitsValue(digits))
  }

  function Negate(r: Option<int>): Option<int> {
    match r
    case None => None
    case Some(v) => Some(-v)
  }

  /** The JavaScript string of a value that is either a number (an integer
      or, as `None`, `NaN`) or a string (template literals and `replaceAll`
      coerce with `String(v)`). */
  datatype NumOrString = Num(n: Option<int>) | Text(s: string)

  function ToJsString(v: NumOrString): string {
    match v
    case Num(n) => NumberText(n)
    case Text(s) => s
  }

  /** Different numbers print differently; `NaN` prints like no integer. */
  lemma NumberTextInjective(a: Option<int>, b: Option<int>)
    ensures NumberText(a) == NumberText(b) <==> a == b
  {
    if NumberText(a) == NumberText(b) {
      if a.Some? && b.Some? {
        IntToStringInjective(a.value, b.value);
      }
    }
  }

  lemma {:induction false} DigitsValueOfDecimal(n: nat)
    ensures DigitsValue(Decimal(n)) == n
    decreases n
  {
    if n >= 10 {
      DigitsValueOfDecimal(n / 10);
      var s := Decimal(n);
      assert s[..|s| - 1] == Decimal(n / 10);
    }
  }

  lemma {:induction false} LeadingDigitsOfDigitsThen(d: string, rest: string)
    requires AllDigits(d)
    requires |rest| == 0 || !IsDigit(rest[0])
    ensures LeadingDigits(d + rest) == d
    decreases |d|
  {
    if |d| > 0 {
      assert (d + rest)[1..] == d[1..] + rest;
      LeadingDigitsOfDigitsThen(d[1..], rest);
    } else {
      assert d + rest == rest;
    }
  }

  /** parseInt reads a digit run up to the first non-digit. */
  lemma ParseIntOfDigitsThen(d: string, rest: string)
    requires |d| > 0 && AllDigits(d)
    requires |rest| == 0 || !IsDigit(rest[0])
    ensures ParseInt(d + rest) == Some(DigitsValue(d))
  {
    var s := d + rest;
    assert s[0] == d[0];
    assert !IsJsWhiteSpace(s[0]);
    assert TrimStart(s) == s;
    LeadingDigitsOfDigitsThen(d, rest);
  }

  /** parseInt inverts Number.prototype.toString on integers. */
  lemma ParseIntOfIntToString(i: int)
    ensures ParseInt(IntToString(i)) == Some(i)
  {
    if i < 0 {
      ParseIntOfNegative(i);
    } else {
      ParseIntOfDigitsThen(Decimal(i), []);
      assert Decimal(i) + [] == Decimal(i);
      DigitsValueOfDecimal(i);
    }
  }

  lemma ParseIntOfNegative(i: int)
    requires i < 0
    ensures ParseInt(IntToString(i)) == Some(i)
  {
    var n: nat := -i;
    NegativeText(i, n);
    ParseIntOfMinus(Decimal(n));
    ParseDigitsOfDecimal(n);
  }

  lemma NegativeText(i: int, n: nat)
    requires i < 0 && n == -i
    ensures IntToString(i) == "-" + Decimal(n)
  {
  }

  /** A leading minus sign is not white space, so parsing starts at it. */
  lemma ParseIntOfMinus(d: string)
    ensures ParseInt("-" + d) == Negate(ParseDigits(d))
  {
    var s := "-" + d;
    assert s[0] == '-';
    TrimStartAt(s);
    assert s[1..] == d;
  }

  /** Text that does not begin with white space is not trimmed. */
  lemma TrimStartAt(s: string)
    requires |s| > 0 && !IsJsWhiteSpace(s[0])
    ensures TrimStart(s) == s
  {
  }

  lemma ParseDigitsOfDecimal(n: nat)
    ensures ParseDigits(Decimal(n)) == Some(n)
  {
    var d := Decimal(n);
    LeadingDigitsOfDigitsThen(d, []);
    assert d + [] == d;
    DigitsValueOfDecimal(n);
  }

  lemma IntToStringInjective(a: int, b: int)
    requires IntToString(a) == IntToString(b)
    ensures a == b
  {
    ParseIntOfIntToString(a);
    ParseIntOfIntToString(b);
  }

  /** A string whose first character can begin neither white space, a sign
      nor a digit parses to NaN. */
  lemma ParseIntOfNonNumeric(s: string)
    requires |s| > 0 && !IsJsWhiteSpace(s[0]) && !IsDigit(s[0]) && s[0] != '-' && s[0] != '+'
    ensures ParseInt(s) == None
  {
  }

  lemma {:induction false} DigitsValueZeroPrefix(z: string, d: string)
    requires forall i :: 0 <= i < |z| ==> z[i] == '0'
    requires AllDigits(d)
    ensures AllDigits(z + d) && DigitsValue(z + d) == DigitsValue(d)
    decreases |z| + |d|
  {
    if |d| == 0 {
      assert z + d == z;
      if |z| > 0 {
        assert z[..|z| - 1] + [] == z[..|z| - 1];
        DigitsValueZeroPrefix(z[..|z| - 1], []);
      }
    } else {
      assert (z + d)[..|z + d| - 1] == z + d[..|d| - 1];
      DigitsValueZeroPrefix(z, d[..|d| - 1]);
    }
  }

  function Pow10(k: nat): (p: nat)
    ensures p >= 1
  {
    if k == 0 then 1 else 10 * Pow10(k - 1)
  }

  /** A number has at most `k` decimal digits exactly when it is below
      10^k. */
  lemma {:induction false} DecimalLength(n: nat, k: nat)
    requires k >= 1
    ensures |Decimal(n)| <= k <==> n < Pow10(k)
    decreases n
  {
    if n >= 10 {
      if k == 1 {
        assert Pow10(1) == 10;
      } else {
        DecimalLength(n / 10, k - 1);
        assert Pow10(k) == 10 * Pow10(k - 1);
        assert n / 10 < Pow10(k - 1) <==> n < 10 * Pow10(k - 1);
      }
    } else {
      PowAtLeastTen(k);
    }
  }

  lemma {:induction false} PowAtLeastTen(k: nat)
    requires k >= 1
    ensures Pow10(k) >= 10
  {
    if k > 1 {
      PowAtLeastTen(k - 1);
    }
  }

  /** The decimal text of 25. */
  lemma TextOf25(n: int)
    requires n == 25
    ensures IntToString(n) == "25"
  {
    assert Decimal(n) == Decimal(2) + [DigitChar(5)];
  }
}
