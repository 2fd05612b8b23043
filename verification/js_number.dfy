/** The slice of JavaScript's `Number(string)` conversion and of number-to-string
    formatting that the `!reels` command and the tallies go through, restricted to
    integers: a numeric string is optional white space, an optional sign and ASCII
    decimal digits. */
module JsNumber {

  /** A JavaScript number as the handlers can meet it: an integer, or NaN. */
  datatype Number = Int(value: int) | NaN

  /** `!number` is false: the number is neither 0 nor NaN. */
  predicate Truthy(n: Number) {
    n.Int? && n.value != 0
  }

  /** ECMAScript WhiteSpace and LineTerminator code points, which `Number()` strips
      from both ends of its argument. */
  predicate IsJsSpace(c: char) {
    || c == '\t' || c == '\n' || c == '\U{000B}' || c == '\U{000C}' || c == '\r'
    || c == ' ' || c == '\U{00A0}' || c == '\U{1680}' || ('\U{2000}' <= c <= '\U{200A}')
    || c == '\U{2028}' || c == '\U{2029}' || c == '\U{202F}' || c == '\U{205F}'
    || c == '\U{3000}' || c == '\U{FEFF}'
  }

  /** `s` without its leading white space. */
  function TrimStart(s: string): (r: string)
    ensures |r| <= |s| && r == s[|s| - |r|..]
    ensures forall k :: 0 <= k < |s| - |r| ==> IsJsSpace(s[k])
    ensures |r| > 0 ==> !IsJsSpace(r[0])
  {
    if |s| > 0 && IsJsSpace(s[0]) then TrimStart(s[1..]) else s
  }

  /** `s` without its trailing white space. */
  function TrimEnd(s: string): (r: string)
    ensures |r| <= |s| && r == s[..|r|]
    ensures forall k :: |r| <= k < |s| ==> IsJsSpace(s[k])
    ensures |r| > 0 ==> !IsJsSpace(r[|r| - 1])
  {
    if |s| > 0 && IsJsSpace(s[|s| - 1]) then TrimEnd(s[..|s| - 1]) else s
  }

  function Trim(s: string): string {
    TrimEnd(TrimStart(s))
  }

  predicate IsDigit(c: char) {
    '0' <= c <= '9'
  }

  predicate AllDigits(s: string) {
    forall k :: 0 <= k < |s| ==> IsDigit(s[k])
  }

  function DigitValue(c: char): nat
    requires IsDigit(c)
  {
    c as int - '0' as int
  }

  /** The value of a string of decimal digits, most significant first. */
  function DigitsValue(s: string): nat
    requires AllDigits(s)
  {
    if |s| == 0 then 0 else 10 * DigitsValue(s[..|s| - 1]) + DigitValue(s[|s| - 1])
  }

  /** Decimal digits with an optional leading sign: the integer literals `Number`
      reads here. */
  predicate IsIntegerLiteral(t: string) {
    |t| >= 1 && (AllDigits(t) || (|t| >= 2 && (t[0] == '-' || t[0] == '+') && AllDigits(t[1..])))
  }

  /** `Number(s)`, for the integer strings the model covers; anything else is NaN. */
  function ToNumber(s: string): (r: Number)
    ensures |Trim(s)| == 0 ==> r == Int(0)
    ensures r.Int? ==> forall k | 0 <= k < |Trim(s)| ::
      IsDigit(Trim(s)[k]) || (k == 0 && (Trim(s)[k] == '-' || Trim(s)[k] == '+'))
    ensures r.Int? && |Trim(s)| > 0 && Trim(s)[0] == '-' ==> r.value <= 0
    ensures r.Int? && (|Trim(s)| == 0 || Trim(s)[0] != '-') ==> r.value >= 0
    ensures r.NaN? <==> |Trim(s)| > 0 && !IsIntegerLiteral(Trim(s))
    ensures |Trim(s)| > 0 && AllDigits(Trim(s)) ==> r == Int(DigitsValue(Trim(s)))
    ensures |Trim(s)| > 1 && Trim(s)[0] == '+' && AllDigits(Trim(s)[1..]) ==> r == Int(DigitsValue(Trim(s)[1..]))
    ensures |Trim(s)| > 1 && Trim(s)[0] == '-' && AllDigits(Trim(s)[1..]) ==> r == Int(-(DigitsValue(Trim(s)[1..]) as int))
  {
    var t := Trim(s);
    if |t| == 0 then Int(0)
    else if (t[0] == '-' || t[0] == '+') && |t| > 1 && AllDigits(t[1..]) then
      var v: int := DigitsValue(t[1..]);
      Int(if t[0] == '-' then -v else v)
    else if AllDigits(t) then Int(DigitsValue(t))
    else NaN
  }

  function DigitChar(d: nat): (c: char)
    requires d < 10
    ensures IsDigit(c) && DigitValue(c) == d
  {
    ('0' as int + d) as char
  }

  /** The shortest decimal spelling of `n`: no leading zero unless `n` is 0. */
  function DigitString(n: nat): (r: string)
    ensures |r| >= 1 && AllDigits(r) && DigitsValue(r) == n
    ensures |r| > 1 ==> r[0] != '0'
    decreases n
  {
    if n < 10 then [DigitChar(n)]
    else
      var r := DigitString(n / 10) + [DigitChar(n % 10)];
      assert r[..|r| - 1] == DigitString(n / 10);
      r
  }

  /** `String(n)` (equivalently `${n}` in a template) for an integer below 10^21 in
      magnitude. */
  function DecimalString(n: int): (r: string)
    ensures ' ' !in r && '/' !in r
    ensures |r| >= 1 && (r[0] == '-' || IsDigit(r[0]))
    ensures r[0] == '-' <==> n < 0
    ensures var digits := if n < 0 then r[1..] else r;
      |digits| >= 1 && AllDigits(digits) && DigitsValue(digits) == (if n < 0 then -n else n)
      && (|digits| > 1 ==> digits[0] != '0')
  {
    if n < 0 then "-" + DigitString(-n) else DigitString(n)
  }

  /** A string with no white space at either end is its own trimming. */
  lemma TrimUntouched(s: string)
    requires |s| > 0 && !IsJsSpace(s[0]) && !IsJsSpace(s[|s| - 1])
    ensures Trim(s) == s
  {
  }

  /** Reading back what `DecimalString` writes gives the same integer. */
  lemma ToNumberDecimalString(n: int)
    ensures ToNumber(DecimalString(n)) == Int(n)
  {
    var s := DecimalString(n);
    var d := DigitString(if n < 0 then -n else n);
    TrimUntouched(s);
    if n < 0 {
      assert s[1..] == d;
    }
  }
}
