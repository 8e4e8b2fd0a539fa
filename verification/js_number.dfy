/** The JavaScript number values the front-end handles, with the two
    conversions it applies to them: `String(n)` when a number is written into
    a URL and `parseInt(s, 10)` when it is read back. Only integers and NaN
    arise in this system, so fractional and infinite values are not modelled. */
module JsNumber {
  import Text

  datatype Num = Int(i: int) | NaN

  /** `n > k`: every comparison with NaN is false. */
  predicate Greater(n: Num, k: int) {
    n.Int? && n.i > k
  }

  /** JavaScript truthiness of a number: 0 and NaN are falsy. */
  predicate Truthy(n: Num) {
    n.Int? && n.i != 0
  }

  predicate IsDigit(c: char) {
    '0' <= c <= '9'
  }

  predicate AllDigits(s: string) {
    forall k :: 0 <= k < |s| ==> IsDigit(s[k])
  }

  function DigitChar(d: int): (c: char)
    requires 0 <= d < 10
    ensures IsDigit(c) && c as int - '0' as int == d
  {
    ('0' as int + d) as char
  }

  /** The canonical decimal digits of `n`, most significant first, without leading zeros. */
  function Digits(n: nat): (s: string)
    ensures |s| > 0 && AllDigits(s)
    ensures |s| > 1 ==> s[0] != '0'
    decreases n
  {
    if n < 10 then [DigitChar(n)] else Digits(n / 10) + [DigitChar(n % 10)]
  }

  /** The value of a string of decimal digits. */
  function DecimalValue(s: string): nat
    requires AllDigits(s)
  {
    if |s| == 0 then 0 else DecimalValue(s[..|s| - 1]) * 10 + (s[|s| - 1] as int - '0' as int)
  }

  /** `String(n)` for the numbers of this model. */
  function ToString(n: Num): (str: string)
    ensures |str| > 0
    ensures n.Int? ==> (str[0] == '-' <==> n.i < 0)
  {
    match n
    case NaN => "NaN"
    case Int(i) => if i < 0 then "-" + Digits(-i) else Digits(i)
  }

  /** The longest prefix of `s` made of decimal digits. */
  function DigitPrefix(s: string): (d: string)
    ensures d <= s && AllDigits(d)
    ensures |d| == |s| || !IsDigit(s[|d|])
  {
    if |s| > 0 && IsDigit(s[0]) then [s[0]] + DigitPrefix(s[1..]) else ""
  }

  /** `parseInt(s, 10)`: skip leading white space, read an optional sign, then
      the longest run of decimal digits; NaN when that run is empty. Whatever
      follows the digits is ignored. */
  function ParseInt(s: string): (n: Num)
  {
    ParseSigned(Text.TrimLeft(Text.Js, s))
  }

  /** `parseInt` after the white space: an optional sign, then the digits. */
  function ParseSigned(t: string): Num {
    if |t| > 0 && t[0] == '-' then Negate(ParseUnsigned(t[1..]))
    else if |t| > 0 && t[0] == '+' then ParseUnsigned(t[1..])
    else ParseUnsigned(t)
  }

  /** `parseInt` after the sign: the value of the leading digits, NaN if there are none. */
  function ParseUnsigned(b: string): Num {
    var d := DigitPrefix(b);
    if |d| == 0 then NaN else Int(DecimalValue(d))
  }

  function Negate(n: Num): Num {
    match n
    case NaN => NaN
    case Int(i) => Int(0 - i)
  }

  lemma {:induction false} DecimalValueOfDigits(n: nat)
    ensures DecimalValue(Digits(n)) == n
    decreases n
  {
    if n >= 10 {
      var s := Digits(n);
      assert s[..|s| - 1] == Digits(n / 10);
      DecimalValueOfDigits(n / 10);
    }
  }

  /** A string of digits that does not begin with white space or a sign
      parses to its decimal value. */
  lemma ParseDigitString(s: string)
    requires |s| > 0 && AllDigits(s)
    ensures ParseInt(s) == Int(DecimalValue(s))
  {
    NoLeadingSpace(s);
    DigitPrefixOfDigits(s);
  }

  lemma {:induction false} DigitPrefixOfDigits(s: string)
    requires AllDigits(s)
    ensures DigitPrefix(s) == s
  {
    if |s| > 0 {
      DigitPrefixOfDigits(s[1..]);
    }
  }

  /** The default page text reads as page 1. */
  lemma ParseOne()
    ensures ParseInt("1") == Int(1)
  {
    ParseToString(Int(1));
    assert ToString(Int(1)) == "1";
  }

  /** The fallback year text reads as 0. */
  lemma ParseZero()
    ensures ParseInt("0") == Int(0)
  {
    ParseToString(Int(0));
    assert ToString(Int(0)) == "0";
  }

  /** `parseInt` gives NaN exactly when, after the white space and an
      optional sign, no digit follows. */
  lemma ParseNaN(s: string)
    ensures var t := Text.TrimLeft(Text.Js, s);
      var body := if |t| > 0 && (t[0] == '-' || t[0] == '+') then t[1..] else t;
      ParseInt(s).NaN? <==> |body| == 0 || !IsDigit(body[0])
  {
  }

  /** A word such as "abc" reads as NaN. */
  lemma ParseWord()
    ensures ParseInt("abc") == NaN
  {
    assert !Text.IsSpace(Text.Js, 'a');
    ParseNaN("abc");
  }

  /** A string starting with a digit, a minus sign or the N of "NaN" has no
      leading white space for `parseInt` to skip. */
  lemma NoLeadingSpace(s: string)
    requires |s| > 0 && (IsDigit(s[0]) || s[0] == '-' || s[0] == 'N')
    ensures Text.TrimLeft(Text.Js, s) == s
  {
    assert !Text.IsSpace(Text.Js, s[0]);
  }

  /** `parseInt(String(n), 10)` gives back `n`, for every integer and for NaN. */
  lemma {:induction false} ParseToString(n: Num)
    ensures ParseInt(ToString(n)) == n
  {
    match n
    case NaN =>
      var s := ToString(n);
      NoLeadingSpace(s);
      assert DigitPrefix(s) == "";
    case Int(i) =>
      if i < 0 {
        var s := ToString(n);
        NoLeadingSpace(s);
        assert s[1..] == Digits(-i);
        DigitPrefixOfDigits(s[1..]);
        DecimalValueOfDigits(-i);
      } else {
        ParseDigitString(Digits(i));
        DecimalValueOfDigits(i);
      }
  }
}
