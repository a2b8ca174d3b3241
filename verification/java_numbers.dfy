/**
 * Java's decimal integers: Long.toString / Integer.toString, Long.parseLong /
 * Integer.parseInt, integer division, and the plain decimal literals that the parsers
 * hand to Double.parseDouble before casting the result to an integer type.
 */
module JavaNumbers {
  import opened Wrappers
  import opened JavaText

  const MinInt := -0x8000_0000
  const MaxInt := 0x7FFF_FFFF
  const MinLong := -0x8000_0000_0000_0000
  const MaxLong := 0x7FFF_FFFF_FFFF_FFFF

  /** Java's `/` for a positive divisor (Dafny's own `/` rounds down instead). */
  function JavaDiv(a: int, b: int): int
    requires b > 0
  {
    if a >= 0 then a / b else -((-a) / b)
  }

  function DigitChar(d: int): (c: char)
    requires 0 <= d <= 9
    ensures IsAsciiDigit(c) && c as int - '0' as int == d
  {
    ('0' as int + d) as char
  }

  /** The decimal digits of a natural number, without leading zeros. */
  function Digits(n: nat): (s: string)
    ensures |s| >= 1 && AllDigits(s)
    ensures |s| > 1 ==> s[0] != '0'
    ensures DigitsValue(s) == n
  {
    if n < 10 then [DigitChar(n)]
    else
      var init := Digits(n / 10);
      var s := init + [DigitChar(n % 10)];
      assert s[..|s| - 1] == init;
      s
  }

  /** Long.toString and Integer.toString. */
  function DecimalString(n: int): string {
    if n < 0 then "-" + Digits(-n) else Digits(n)
  }

  /** Long.parseLong / Integer.parseInt over ASCII digits: an optional sign, at least
      one digit, and a value inside [lo, hi]; anything else is a NumberFormatException. */
  function ParseInteger(s: string, lo: int, hi: int): (r: Option<int>)
    ensures r.Some? ==> lo <= r.value <= hi
  {
    if |s| == 0 then None
    else
      var digits := if s[0] == '-' || s[0] == '+' then s[1..] else s;
      if |digits| == 0 || !AllDigits(digits) then None
      else
        var v: int := if s[0] == '-' then 0 - DigitsValue(digits) else DigitsValue(digits);
        if lo <= v <= hi then Some(v) else None
  }

  function ParseLong(s: string): Option<int> { ParseInteger(s, MinLong, MaxLong) }
  function ParseInt(s: string): Option<int> { ParseInteger(s, MinInt, MaxInt) }

  /** The position of the first `c` in `s`, or |s| when there is none. */
  function FirstIndex(s: string, c: char): (i: nat)
    ensures i <= |s|
    ensures forall j | 0 <= j < i :: s[j] != c
    ensures i < |s| ==> s[i] == c
  {
    if s == [] || s[0] == c then 0 else 1 + FirstIndex(s[1..], c)
  }

  /** A plain decimal literal, an optional sign, digits, and optionally a '.' followed by
      digits, with at least one digit in all; its value rounded toward zero, which is
      what a cast of the parsed double to an integer type keeps. */
  function ParseTruncatedDecimal(s: string): (r: Option<int>)
    ensures r.Some? && '.' !in s ==> ParseInteger(s, r.value, r.value) == r
  {
    if |s| == 0 then None
    else
      var body := if s[0] == '-' || s[0] == '+' then s[1..] else s;
      var i := FirstIndex(body, '.');
      var whole := body[..i];
      var fraction := if i < |body| then body[i + 1..] else [];
      if AllDigits(whole) && AllDigits(fraction) && |whole| + |fraction| >= 1 then
        assert '.' !in s ==> whole == body;
        Some(if s[0] == '-' then 0 - DigitsValue(whole) else DigitsValue(whole))
      else None
  }

  /** A narrowing cast of a double to int or long: out-of-range values saturate. */
  function Saturate(v: int, lo: int, hi: int): (r: int)
    requires lo <= hi
    ensures lo <= r <= hi
    ensures lo <= v <= hi ==> r == v
  {
    if v < lo then lo else if v > hi then hi else v
  }

  // ---------------------------------------------------------------------------
  // Properties

  /** Java's division rounds toward zero: the product q * b lies between 0 and a, less
      than one divisor away from a. */
  lemma JavaDivRoundsTowardZero(a: int, b: int)
    requires b > 0
    ensures a >= 0 ==> 0 <= JavaDiv(a, b) * b <= a < JavaDiv(a, b) * b + b
    ensures a < 0 ==> JavaDiv(a, b) * b - b < a <= JavaDiv(a, b) * b <= 0
  {
    if a >= 0 {
      DivBounds(a, b);
    } else {
      DivBounds(-a, b);
      assert JavaDiv(a, b) * b == -(((-a) / b) * b);
    }
  }

  /** Euclidean division of a natural number: m / b copies of b fit in m, one more
      does not. */
  lemma DivBounds(m: nat, b: int)
    requires b > 0
    ensures 0 <= (m / b) * b <= m < (m / b) * b + b
  {
    var q, r := m / b, m % b;
    assert m == q * b + r && 0 <= r < b;
    assert q >= 0;
    assert q * b >= 0;
  }

  /** Printing a number and parsing it back gives the number (for any range holding it). */
  lemma ParseDecimalString(n: int, lo: int, hi: int)
    requires lo <= n <= hi
    ensures ParseInteger(DecimalString(n), lo, hi) == Some(n)
  {
    if n < 0 {
      assert DecimalString(n)[1..] == Digits(-n);
    }
  }

  /** A natural number has three decimal digits exactly when it lies in 100..999. */
  lemma {:induction false} DigitsLength(n: nat)
    ensures n < 10 ==> |Digits(n)| == 1
    ensures 10 <= n < 100 ==> |Digits(n)| == 2
    ensures 100 <= n < 1000 ==> |Digits(n)| == 3
    ensures n >= 1000 ==> |Digits(n)| >= 4
  {
    if n >= 10 {
      DigitsLength(n / 10);
    }
  }

  /** The last digit, and the one before it, of a number's decimal form. */
  lemma {:induction false} DigitsTail(n: nat)
    ensures Digits(n)[|Digits(n)| - 1] == DigitChar(n % 10)
    ensures n >= 10 ==> Digits(n)[|Digits(n)| - 2] == DigitChar((n / 10) % 10)
  {
    if n >= 10 {
      DigitsTail(n / 10);
    }
  }

  /** "D.F" with digit strings D and F is read as D. */
  lemma TruncatedDecimalOfFraction(whole: string, fraction: string, s: string)
    requires |whole| >= 1 && AllDigits(whole) && AllDigits(fraction)
    requires s == whole + "." + fraction
    ensures ParseTruncatedDecimal(s) == Some(DigitsValue(whole))
  {
    assert s[0] == whole[0];
    assert FirstIndex(s, '.') == |whole| by {
      forall j | 0 <= j < |whole| ensures s[j] != '.' {
        assert s[j] == whole[j];
      }
      FirstIndexAt(s, '.', |whole|);
    }
    assert s[..|whole|] == whole;
    assert s[|whole| + 1..] == fraction;
  }

  /** The decimal form of a natural number is read back as that number. */
  lemma TruncatedDecimalOfDigits(n: nat)
    ensures ParseTruncatedDecimal(Digits(n)) == Some(n)
  {
    var s := Digits(n);
    assert IsAsciiDigit(s[0]);
    assert FirstIndex(s, '.') == |s| by {
      assert forall i | 0 <= i < |s| :: s[i] != '.';
    }
    assert s[..|s|] == s;
  }

  lemma FirstIndexAt(s: string, c: char, i: nat)
    requires i < |s| && s[i] == c && forall j | 0 <= j < i :: s[j] != c
    ensures FirstIndex(s, c) == i
  {
  }
}
