/**
 * The two CSV field converters: CustomDateConverter (publication dates written
 * yyyy-MM-dd or yyyyMMdd, falling back to today) and CustomPriceConverter (prices
 * written as integers or decimals, falling back to 0). Neither ever throws. Today's
 * date is a parameter.
 */
module Converters {
  import opened Wrappers
  import opened JavaText
  import opened JavaNumbers
  import opened Entities

  predicate IsLeapYear(y: int) {
    y % 4 == 0 && (y % 100 != 0 || y % 400 == 0)
  }

  function MonthLength(y: int, m: int): (n: int)
    requires 1 <= m <= 12
    ensures 28 <= n <= 31
  {
    if m == 2 then (if IsLeapYear(y) then 29 else 28)
    else if m == 4 || m == 6 || m == 9 || m == 11 then 30
    else 31
  }

  predicate ValidDate(d: Date) {
    1 <= d.year && 1 <= d.month <= 12 && 1 <= d.day <= MonthLength(d.year, d.month)
  }

  /** The fields of a parsed date resolved the way LocalDate's default (SMART) resolver
      does: the year of era must be positive, the month 1..12 and the day 1..31, and a
      day past the end of its month is moved back to the month's last day. */
  function ResolveDate(y: int, m: int, d: int): (r: Option<Date>)
    ensures r.Some? ==> ValidDate(r.value)
  {
    if 1 <= y && 1 <= m <= 12 && 1 <= d <= 31 then
      Some(Date(y, m, if d <= MonthLength(y, m) then d else MonthLength(y, m)))
    else None
  }

  /** LocalDate.parse(s, "yyyy-MM-dd"): four year digits, two month digits and two day
      digits, separated by '-', and nothing else. */
  function ParseDashed(s: string): (r: Option<Date>)
    ensures r.Some? ==> ValidDate(r.value)
    ensures r.Some? ==>
      && |s| == 10 && s[4] == '-' && s[7] == '-'
      && AllDigits(s[..4]) && AllDigits(s[5..7]) && AllDigits(s[8..])
      && r.value.year == DigitsValue(s[..4]) && r.value.month == DigitsValue(s[5..7])
      && 1 <= r.value.day <= DigitsValue(s[8..])
  {
    if |s| == 10 && s[4] == '-' && s[7] == '-'
       && AllDigits(s[..4]) && AllDigits(s[5..7]) && AllDigits(s[8..])
    then ResolveDate(DigitsValue(s[..4]), DigitsValue(s[5..7]), DigitsValue(s[8..]))
    else None
  }

  /** LocalDate.parse(s, "yyyyMMdd") on an eight-unit string: eight digits. */
  function ParseCompact(s: string): (r: Option<Date>)
    ensures r.Some? ==> ValidDate(r.value)
    ensures r.Some? ==>
      && |s| == 8 && AllDigits(s)
      && r.value.year == DigitsValue(s[..4]) && r.value.month == DigitsValue(s[4..6])
      && 1 <= r.value.day <= DigitsValue(s[6..])
  {
    if |s| == 8 && AllDigits(s)
    then ResolveDate(DigitsValue(s[..4]), DigitsValue(s[4..6]), DigitsValue(s[6..]))
    else None
  }

  /** CustomDateConverter.convert. */
  function ConvertDate(value: Option<string>, today: Date): (d: Date)
    ensures value.None? || value.value == "" ==> d == today
    ensures d == today || ValidDate(d)
  {
    match value
    case None => today
    case Some(s) =>
      if s == [] then today
      else if '-' in s then ParseDashed(s).GetOr(today)
      else if Utf16Length(s) == 8 then ParseCompact(s).GetOr(today)
      else today
  }

  /** CustomPriceConverter.convert. */
  function ConvertPrice(value: Option<string>): (p: int)
    ensures MinInt <= p <= MaxInt
    ensures value.None? || IsBlankAscii(value.value) ==> p == 0
  {
    match value
    case None => 0
    case Some(s) =>
      if s == [] then 0
      else
        var t := Trim(s);
        if t == [] then 0
        else if '.' in t then
          match ParseTruncatedDecimal(t)
          case Some(v) => Saturate(v, MinInt, MaxInt)
          case None => 0
        else ParseInt(t).GetOr(0)
  }

  /** Every char is one String.trim removes. */
  predicate IsBlankAscii(s: string) {
    forall i | 0 <= i < |s| :: IsTrimmable(s[i])
  }

  // ---------------------------------------------------------------------------
  // Formatting, for the round-trip properties

  /** n written with exactly w digits, with leading zeros. */
  function Pad(n: nat, w: nat): (s: string)
    ensures |s| == w && AllDigits(s)
  {
    if w == 0 then [] else Pad(n / 10, w - 1) + [DigitChar(n % 10)]
  }

  function Pow10(w: nat): nat {
    if w == 0 then 1 else 10 * Pow10(w - 1)
  }

  /** A date written yyyy-MM-dd. */
  function FormatDashed(y: nat, m: nat, d: nat): string {
    Pad(y, 4) + "-" + Pad(m, 2) + "-" + Pad(d, 2)
  }

  /** A date written yyyyMMdd. */
  function FormatCompact(y: nat, m: nat, d: nat): string {
    Pad(y, 4) + Pad(m, 2) + Pad(d, 2)
  }

  // ---------------------------------------------------------------------------
  // Properties

  /** A number below 10^w reads back from its w-digit form. */
  lemma {:induction false} PadValue(n: nat, w: nat)
    requires n < Pow10(w)
    ensures DigitsValue(Pad(n, w)) == n
  {
    if w > 0 {
      var s := Pad(n, w);
      assert s[..|s| - 1] == Pad(n / 10, w - 1);
      PadValue(n / 10, w - 1);
    }
  }

  /** The converter's date for a well-formed yyyy-MM-dd string: the written year and
      month, and the written day moved back to the month's end when it is past it. */
  lemma ConvertDashedDate(y: nat, m: nat, d: nat, today: Date)
    requires 1 <= y <= 9999 && 1 <= m <= 12 && 1 <= d <= 31
    ensures ConvertDate(Some(FormatDashed(y, m, d)), today)
      == Date(y, m, if d <= MonthLength(y, m) then d else MonthLength(y, m))
  {
    var s := FormatDashed(y, m, d);
    assert s[4] == '-';
    assert s[..4] == Pad(y, 4) && s[5..7] == Pad(m, 2) && s[8..] == Pad(d, 2);
    PadValue(y, 4);
    PadValue(m, 2);
    PadValue(d, 2);
  }

  /** The same for a well-formed yyyyMMdd string. */
  lemma ConvertCompactDate(y: nat, m: nat, d: nat, today: Date)
    requires 1 <= y <= 9999 && 1 <= m <= 12 && 1 <= d <= 31
    ensures ConvertDate(Some(FormatCompact(y, m, d)), today)
      == Date(y, m, if d <= MonthLength(y, m) then d else MonthLength(y, m))
  {
    var s := FormatCompact(y, m, d);
    CompactDigits(y, m, d);
    AsciiUtf16Length(s);
    CompactFields(y, m, d);
    assert ConvertDate(Some(s), today) == ParseCompact(s).GetOr(today);
  }

  /** The yyyyMMdd form is eight digits, with no '-' among them. */
  lemma CompactDigits(y: nat, m: nat, d: nat)
    ensures var s := FormatCompact(y, m, d);
      |s| == 8 && AllDigits(s) && '-' !in s
  {
    var s := FormatCompact(y, m, d);
    forall i | 0 <= i < |s| ensures s[i] != '-' {
      assert IsAsciiDigit(s[i]);
    }
  }

  /** The yyyyMMdd form of an in-range date parses to its resolved fields. */
  lemma CompactFields(y: nat, m: nat, d: nat)
    requires y <= 9999 && m <= 99 && d <= 99
    ensures ParseCompact(FormatCompact(y, m, d)) == ResolveDate(y, m, d)
  {
    var s := FormatCompact(y, m, d);
    CompactDigits(y, m, d);
    assert s[..4] == Pad(y, 4) && s[4..6] == Pad(m, 2) && s[6..] == Pad(d, 2);
    PadValue(y, 4);
    PadValue(m, 2);
    PadValue(d, 2);
  }

  /** A valid date with a day up to 28 is read back exactly, in either format. */
  lemma ConvertDateRoundTrip(date: Date, today: Date)
    requires 1 <= date.year <= 9999 && 1 <= date.month <= 12 && 1 <= date.day <= 28
    ensures ConvertDate(Some(FormatDashed(date.year, date.month, date.day)), today) == date
    ensures ConvertDate(Some(FormatCompact(date.year, date.month, date.day)), today) == date
  {
    ConvertDashedDate(date.year, date.month, date.day, today);
    ConvertCompactDate(date.year, date.month, date.day, today);
  }

  /** A month outside 1..12 falls back to today. */
  lemma ConvertDateBadMonth(y: nat, m: nat, d: nat, today: Date)
    requires 1 <= y <= 9999 && (m == 0 || 13 <= m <= 99) && d <= 99
    ensures ConvertDate(Some(FormatDashed(y, m, d)), today) == today
    ensures ConvertDate(Some(FormatCompact(y, m, d)), today) == today
  {
    var s := FormatDashed(y, m, d);
    assert s[4] == '-';
    assert s[..4] == Pad(y, 4) && s[5..7] == Pad(m, 2) && s[8..] == Pad(d, 2);
    PadValue(m, 2);
    var c := FormatCompact(y, m, d);
    CompactDigits(y, m, d);
    AsciiUtf16Length(c);
    CompactFields(y, m, d);
  }

  /** A string of chars below U+10000 has as many UTF-16 units as chars. */
  lemma {:induction false} AsciiUtf16Length(s: string)
    requires forall i | 0 <= i < |s| :: IsAsciiDigit(s[i])
    ensures Utf16Length(s) == |s|
  {
    if s != [] {
      assert forall i | 0 <= i < |s[1..]| :: s[1..][i] == s[i + 1];
      AsciiUtf16Length(s[1..]);
    }
  }

  /** Surrounding whitespace is ignored. */
  lemma ConvertPriceIgnoresWhitespace(s: string)
    ensures ConvertPrice(Some(s)) == ConvertPrice(Some(Trim(s)))
  {
    TrimProperties(s);
    TrimProperties(Trim(s));
  }

  /** An int written in decimal reads back as itself. */
  lemma ConvertPriceRoundTrip(n: int)
    requires MinInt <= n <= MaxInt
    ensures ConvertPrice(Some(DecimalString(n))) == n
  {
    var s := DecimalString(n);
    ParseDecimalString(n, MinInt, MaxInt);
    assert Trimmed(s) by {
      if n < 0 {
        assert s[|s| - 1] == Digits(-n)[|Digits(-n)| - 1];
      }
    }
    TrimProperties(s);
    assert '.' !in s by {
      if n < 0 {
        forall i | 1 <= i < |s| ensures s[i] != '.' {
          assert s[i] == Digits(-n)[i - 1];
        }
      }
    }
  }

  /** A decimal "D.F" is read as its whole part D. */
  lemma ConvertPriceOfDecimal(whole: string, fraction: string, s: string)
    requires |whole| >= 1 && AllDigits(whole) && AllDigits(fraction)
    requires DigitsValue(whole) <= MaxInt
    requires s == whole + "." + fraction
    ensures ConvertPrice(Some(s)) == DigitsValue(whole)
  {
    TruncatedDecimalOfFraction(whole, fraction, s);
    assert s[0] == whole[0];
    assert s[|s| - 1] == '.' || IsAsciiDigit(s[|s| - 1]);
    TrimProperties(s);
    assert s[|whole|] == '.';
  }
}
