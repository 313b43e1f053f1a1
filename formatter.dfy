/** The number lexicon of fermi_formatter.py: numerals with an optional K/M/B magnitude
    suffix, read by ParseNumber and written by FormatNumber. Numbers are reals. */
module Formatter {
  import opened Wrappers
  import opened Text

  datatype NumberError = EmptyNumber | InvalidNumberFormat(text: string)

  // ---------------------------------------------------------------------------
  // Decimal numerals (the part of Python's float() the calculator relies on)
  // ---------------------------------------------------------------------------

  function DigitValue(c: char): nat
    requires IsDigit(c)
  {
    c as int - '0' as int
  }

  function DigitChar(d: nat): (c: char)
    requires d < 10
    ensures IsDigit(c) && DigitValue(c) == d
  {
    (d + '0' as int) as char
  }

  /** The natural number a string of decimal digits denotes (0 for the empty string). */
  function DigitsValue(s: string): nat
    requires AllDigits(s)
  {
    if s == [] then 0 else 10 * DigitsValue(s[..|s| - 1]) + DigitValue(s[|s| - 1])
  }

  /** The value of the digits after a decimal point: "75" is 0.75. */
  function FractionValue(s: string): (r: real)
    requires AllDigits(s)
    ensures 0.0 <= r < 1.0
  {
    if s == [] then 0.0 else (DigitValue(s[0]) as real + FractionValue(s[1..])) / 10.0
  }

  /** An unsigned decimal numeral: digits with at most one '.' and at least one digit
      ("5", "5.", ".5", "2.75"). */
  function UnsignedValue(s: string): (r: Option<real>)
    ensures r.Some? ==> r.value >= 0.0
  {
    var i := FirstIndex(s, '.');
    var whole := s[..i];
    var fraction := if i < |s| then s[i + 1..] else "";
    if AllDigits(whole) && AllDigits(fraction) && |whole| + |fraction| > 0 then
      Some(DigitsValue(whole) as real + FractionValue(fraction))
    else
      None
  }

  /** float(s) for a plain decimal numeral with an optional sign; None where float raises. */
  function DecimalValue(s: string): Option<real> {
    if s != [] && (s[0] == '+' || s[0] == '-') then
      match UnsignedValue(s[1..])
      case None => None
      case Some(v) => Some(if s[0] == '-' then -v else v)
    else
      UnsignedValue(s)
  }

  // ---------------------------------------------------------------------------
  // parse_number
  // ---------------------------------------------------------------------------

  /** A magnitude suffix: the last character, upper-cased, is K, M or B. */
  predicate IsSuffix(c: char) {
    c == 'K' || c == 'k' || c == 'M' || c == 'm' || c == 'B' || c == 'b'
  }

  /** v times the magnitude the suffix stands for: 1e3, 1e6 or 1e9. */
  function ApplySuffix(v: real, c: char): real
    requires IsSuffix(c)
  {
    if c == 'K' || c == 'k' then v * 1000.0
    else if c == 'M' || c == 'm' then v * 1000000.0
    else v * 1000000000.0
  }

  /** parse_number: strip, peel off a case-insensitive K/M/B suffix, read the rest as a numeral. */
  function ParseNumber(s: string): (r: Result<real, NumberError>)
    ensures r == Err(EmptyNumber) <==> AllSpace(s)
  {
    ParseStripped(Strip(s))
  }

  /** parse_number after its first strip. */
  function ParseStripped(t: string): (r: Result<real, NumberError>)
    ensures r == Err(EmptyNumber) <==> t == []
  {
    if t == [] then Err(EmptyNumber)
    else if IsSuffix(t[|t| - 1]) then
      var body := Strip(t[..|t| - 1]);
      if body == [] then Err(InvalidNumberFormat(t))
      else
        match DecimalValue(body)
        case Some(v) => Ok(ApplySuffix(v, t[|t| - 1]))
        case None => Err(InvalidNumberFormat(t))
    else
      match DecimalValue(t)
      case Some(v) => Ok(v)
      case None => Err(InvalidNumberFormat(t))
  }

  // ---------------------------------------------------------------------------
  // format_number
  // ---------------------------------------------------------------------------

  function Abs(x: real): real {
    if x < 0.0 then -x else x
  }

  predicate IsWhole(x: real) {
    x == x.Floor as real
  }

  /** Rounding to the nearest integer with ties to even, as Python's format() rounds a tie. */
  function RoundHalfEven(x: real): (k: nat)
    requires x >= 0.0
    ensures x - 0.5 <= k as real <= x + 0.5
    ensures IsWhole(x) ==> k as real == x
  {
    var f := x.Floor;
    var rest := x - f as real;
    if rest < 0.5 then f
    else if rest > 0.5 then f + 1
    else if f % 2 == 0 then f
    else f + 1
  }

  /** The decimal digits of n, most significant first, without leading zeros. */
  function NatToString(n: nat): (r: string)
    ensures |r| > 0 && AllDigits(r)
  {
    if n < 10 then [DigitChar(n)] else NatToString(n / 10) + [DigitChar(n % 10)]
  }

  predicate IsDisplayChar(c: char) {
    IsDigit(c) || c == '-' || c == '.' || c == 'K' || c == 'M' || c == 'B'
  }

  /** v with the sign of x. */
  function WithSign(x: real, v: real): real {
    if x < 0.0 then -v else v
  }

  function SignText(x: real): string {
    if x < 0.0 then "-" else ""
  }

  /** f"{x:.0f}": the sign, then |x| rounded to a whole number. */
  function Fixed0(x: real): (r: string)
    ensures |r| > 0 && (r[0] == '-' <==> x < 0.0) && IsDigit(r[|r| - 1])
  {
    SignText(x) + NatToString(RoundHalfEven(Abs(x)))
  }

  /** "q.dd" for k hundredths. */
  function Cents(k: nat): (r: string)
    ensures |r| >= 4 && IsDigit(r[0]) && IsDigit(r[|r| - 1])
  {
    NatToString(k / 100) + "." + [DigitChar(k % 100 / 10), DigitChar(k % 10)]
  }

  /** f"{x:.2f}": the sign, then |x| rounded to hundredths. */
  function Fixed2(x: real): (r: string)
    ensures |r| > 0 && (r[0] == '-' <==> x < 0.0) && IsDigit(r[|r| - 1])
  {
    SignText(x) + Cents(RoundHalfEven(Abs(x) * 100.0))
  }

  /** The suffix letter format_number writes once |n| reaches 1000: B from 1e9, M from 1e6,
      K below that. */
  function SuffixLetter(n: real): (c: char)
    ensures c == 'K' || c == 'M' || c == 'B'
  {
    var a := Abs(n);
    if a >= 1000000000.0 then 'B' else if a >= 1000000.0 then 'M' else 'K'
  }

  /** n counted in units of the magnitude its suffix letter stands for. */
  function Mantissa(n: real): real {
    var a := Abs(n);
    if a >= 1000000000.0 then n / 1000000000.0
    else if a >= 1000000.0 then n / 1000000.0
    else n / 1000.0
  }

  /** format_number: a K, M or B suffix when |n| reaches 1e3, 1e6 or 1e9, with two decimals;
      below 1000 no suffix, and no decimals once |n| >= 10 or n is zero. */
  function FormatNumber(n: real): string {
    var a := Abs(n);
    if a >= 1000.0 then Fixed2(Mantissa(n)) + [SuffixLetter(n)]
    else if a >= 10.0 || n == 0.0 then Fixed0(n)
    else Fixed2(n)
  }

  /** Cents writes digits and exactly the one decimal point after the whole part. */
  lemma CentsShape(k: nat)
    ensures Cents(k)[|NatToString(k / 100)|] == '.'
    ensures forall i :: 0 <= i < |Cents(k)| ==> IsDigit(Cents(k)[i]) || Cents(k)[i] == '.'
  {
  }

  /** Fixed0 writes a sign and digits, without a decimal point. */
  lemma Fixed0Shape(x: real)
    ensures '.' !in Fixed0(x)
    ensures forall i :: 0 <= i < |Fixed0(x)| ==> IsDisplayChar(Fixed0(x)[i])
  {
    var u := NatToString(RoundHalfEven(Abs(x)));
    assert forall i :: 0 <= i < |u| ==> IsDigit(u[i]);
  }

  /** Fixed2 writes a sign, digits and a decimal point. */
  lemma Fixed2Shape(x: real)
    ensures '.' in Fixed2(x)
    ensures forall i :: 0 <= i < |Fixed2(x)| ==> IsDisplayChar(Fixed2(x)[i])
  {
    var k := RoundHalfEven(Abs(x) * 100.0);
    CentsShape(k);
    var sign := SignText(x);
    assert Fixed2(x)[|sign| + |NatToString(k / 100)|] == '.';
  }

  /** What format_number writes: a leading '-' exactly for negative n, the last character
      names the K, M or B range it falls in, a decimal point exactly when two decimals are
      written, and only digits, '-', '.', K, M and B. */
  lemma FormatNumberShape(n: real)
    ensures var r := FormatNumber(n);
      && |r| > 0 && (r[0] == '-' <==> n < 0.0)
      && (r[|r| - 1] == 'B' <==> Abs(n) >= 1000000000.0)
      && (r[|r| - 1] == 'M' <==> 1000000.0 <= Abs(n) < 1000000000.0)
      && (r[|r| - 1] == 'K' <==> 1000.0 <= Abs(n) < 1000000.0)
      && ('.' in r <==> Abs(n) >= 1000.0 || (n != 0.0 && Abs(n) < 10.0))
      && (forall i :: 0 <= i < |r| ==> IsDisplayChar(r[i]))
  {
    var a := Abs(n);
    if a >= 1000.0 {
      Fixed2Shape(Mantissa(n));
    } else if a >= 10.0 || n == 0.0 {
      Fixed0Shape(n);
    } else {
      Fixed2Shape(n);
    }
  }

  // ---------------------------------------------------------------------------
  // Reading back what FormatNumber writes
  // ---------------------------------------------------------------------------

  lemma {:induction false} DigitsValueOfNat(n: nat)
    ensures DigitsValue(NatToString(n)) == n
  {
    if n >= 10 {
      var s := NatToString(n);
      assert s[..|s| - 1] == NatToString(n / 10);
      DigitsValueOfNat(n / 10);
    }
  }

  lemma UnsignedOfNat(n: nat)
    ensures UnsignedValue(NatToString(n)) == Some(n as real)
  {
    var s := NatToString(n);
    assert '.' !in s;
    assert s[..|s|] == s;
    DigitsValueOfNat(n);
  }

  lemma TwoDigitsFraction(a: nat, b: nat)
    requires a < 10 && b < 10
    ensures FractionValue([DigitChar(a), DigitChar(b)]) == a as real / 10.0 + b as real / 100.0
  {
    var dd := [DigitChar(a), DigitChar(b)];
    assert dd[1..] == [DigitChar(b)];
    assert dd[1..][1..] == [];
    assert FractionValue(dd[1..]) == b as real / 10.0;
  }

  lemma UnsignedOfCents(k: nat)
    ensures UnsignedValue(Cents(k)) == Some(k as real / 100.0)
  {
    var q := NatToString(k / 100);
    var a, b := k % 100 / 10, k % 10;
    var dd := [DigitChar(a), DigitChar(b)];
    assert Cents(k) == q + ['.'] + dd;
    UnsignedWithPoint(q, dd);
    TwoDigitsFraction(a, b);
    DigitsValueOfNat(k / 100);
    CentsSum(k);
  }

  /** k hundredths are k / 100 units, k % 100 / 10 tenths and k % 10 hundredths. */
  lemma CentsSum(k: nat)
    ensures (k / 100) as real + ((k % 100 / 10) as real / 10.0 + (k % 10) as real / 100.0)
      == k as real / 100.0
  {
    assert k == 100 * (k / 100) + 10 * (k % 100 / 10) + k % 10;
  }

  /** The sign FormatNumber writes in front of a numeral is read back by float(). */
  lemma DecimalOfSigned(x: real, u: string, v: real)
    requires u != [] && IsDigit(u[0]) && UnsignedValue(u) == Some(v)
    ensures DecimalValue(SignText(x) + u) == Some(WithSign(x, v))
  {
    var s := SignText(x) + u;
    if x < 0.0 {
      assert s == ['-'] + u;
      assert s[0] == '-' && s[1..] == u;
    } else {
      assert s == u;
      assert s[0] != '+' && s[0] != '-';
    }
  }

  lemma DecimalOfFixed0(x: real)
    ensures DecimalValue(Fixed0(x)) == Some(Rounded0(x))
  {
    UnsignedOfNat(RoundHalfEven(Abs(x)));
    DecimalOfSigned(x, NatToString(RoundHalfEven(Abs(x))), RoundHalfEven(Abs(x)) as real);
  }

  lemma DecimalOfFixed2(x: real)
    ensures DecimalValue(Fixed2(x)) == Some(Rounded2(x))
  {
    var k := RoundHalfEven(Abs(x) * 100.0);
    assert Fixed2(x) == SignText(x) + Cents(k);
    assert Rounded2(x) == WithSign(x, k as real / 100.0);
    DecimalOfSignedCents(x, k);
  }

  lemma DecimalOfSignedCents(x: real, k: nat)
    ensures DecimalValue(SignText(x) + Cents(k)) == Some(WithSign(x, k as real / 100.0))
  {
    UnsignedOfCents(k);
    DecimalOfSigned(x, Cents(k), k as real / 100.0);
  }

  /** A text with no whitespace at either end is its own Strip. */
  lemma StripTrimmed(s: string)
    requires Trimmed(s)
    ensures Strip(s) == s
  {
    assert [] + s + [] == s;
    StripSurrounded([], s, []);
  }

  lemma ParseNumberSuffixed(t: string, body: string, v: real)
    requires t != [] && Strip(t) == t && IsSuffix(t[|t| - 1])
    requires body == t[..|t| - 1] && Strip(body) == body && body != []
    requires DecimalValue(body) == Some(v)
    ensures ParseNumber(t) == Ok(ApplySuffix(v, t[|t| - 1]))
  {
  }

  /** A trimmed numeral followed directly by a suffix letter reads as the numeral's value
      times the suffix's magnitude. */
  lemma ParseSuffixedNumeral(body: string, c: char, v: real)
    requires body != [] && Trimmed(body) && DecimalValue(body) == Some(v)
    requires IsSuffix(c)
    ensures ParseNumber(body + [c]) == Ok(ApplySuffix(v, c))
  {
    var t := body + [c];
    assert t[0] == body[0] && t[|t| - 1] == c;
    StripTrimmed(t);
    assert t[..|t| - 1] == body;
    StripTrimmed(body);
    ParseNumberSuffixed(t, body, v);
  }

  /** parse_number reads a two-decimal rendering followed by a suffix letter as the rounded
      mantissa times the suffix's magnitude. */
  lemma ParseFixed2Suffixed(x: real, c: char)
    requires c == 'K' || c == 'M' || c == 'B'
    ensures ParseNumber(Fixed2(x) + [c]) == Ok(ApplySuffix(Rounded2(x), c))
  {
    DecimalOfFixed2(x);
    ParseSuffixedNumeral(Fixed2(x), c, Rounded2(x));
  }

  /** The number of decimals FormatNumber writes. */
  function Decimals(n: real): nat {
    if Abs(n) < 1000.0 && (Abs(n) >= 10.0 || n == 0.0) then 0 else 2
  }

  /** x rounded to a whole number, ties to even, sign kept. */
  function Rounded0(x: real): real {
    WithSign(x, RoundHalfEven(Abs(x)) as real)
  }

  /** x rounded to hundredths, ties to even, sign kept. */
  function Rounded2(x: real): real {
    WithSign(x, RoundHalfEven(Abs(x) * 100.0) as real / 100.0)
  }

  /** The value FormatNumber(n) shows: n counted in units of its suffix, rounded to the
      decimals written, and multiplied back. */
  function ShownValue(n: real): real {
    var a := Abs(n);
    if a >= 1000.0 then ApplySuffix(Rounded2(Mantissa(n)), SuffixLetter(n))
    else if a >= 10.0 || n == 0.0 then Rounded0(n)
    else Rounded2(n)
  }

  /** Half a unit in the last place FormatNumber writes for n. */
  function HalfUnit(n: real): (h: real)
    ensures h > 0.0
  {
    var a := Abs(n);
    if a >= 1000000000.0 then 5000000.0
    else if a >= 1000000.0 then 5000.0
    else if a >= 1000.0 then 5.0
    else if a >= 10.0 || n == 0.0 then 0.5
    else 0.005
  }

  /** |n| counted in units of the last place FormatNumber writes for n. */
  function ShownUnits(n: real): real {
    var a := Abs(n);
    if a >= 1000000000.0 then a / 10000000.0
    else if a >= 1000000.0 then a / 10000.0
    else if a >= 1000.0 then a / 10.0
    else if a >= 10.0 || n == 0.0 then a
    else a * 100.0
  }

  /** A trimmed numeral without a suffix letter reads as its own value. */
  lemma ParsePlainNumeral(t: string, v: real)
    requires t != [] && Trimmed(t) && !IsSuffix(t[|t| - 1]) && DecimalValue(t) == Some(v)
    ensures ParseNumber(t) == Ok(v)
  {
    StripTrimmed(t);
  }

  /** Whatever FormatNumber writes, ParseNumber reads back as the value shown. */
  lemma FormatThenParse(n: real)
    ensures ParseNumber(FormatNumber(n)) == Ok(ShownValue(n))
  {
    if Abs(n) >= 1000.0 {
      ParseFixed2Suffixed(Mantissa(n), SuffixLetter(n));
    } else if Abs(n) >= 10.0 || n == 0.0 {
      DecimalOfFixed0(n);
      ParsePlainNumeral(Fixed0(n), Rounded0(n));
    } else {
      DecimalOfFixed2(n);
      ParsePlainNumeral(Fixed2(n), Rounded2(n));
    }
  }

  /** The shown value differs from n by at most half a unit in the last place written. */
  lemma ShownValueNear(n: real)
    ensures Abs(ShownValue(n) - n) <= HalfUnit(n)
  {
  }

  /** When |n| is a whole number of units of the last place written, nothing is rounded away. */
  lemma ShownValueExact(n: real)
    requires IsWhole(ShownUnits(n))
    ensures ShownValue(n) == n
  {
  }

  /** When |n| is a whole number of units of the last place written, the round trip is exact:
      2700000 becomes "2.70M" and reads back as 2700000. */
  lemma FormatThenParseExact(n: real)
    requires IsWhole(ShownUnits(n))
    ensures ParseNumber(FormatNumber(n)) == Ok(n)
  {
    FormatThenParse(n);
    ShownValueExact(n);
  }

  // ---------------------------------------------------------------------------
  // What parse_number accepts
  // ---------------------------------------------------------------------------

  /** Whitespace around the text does not change what parse_number returns. */
  lemma ParseNumberIgnoresSpace(a: string, s: string, b: string)
    requires AllSpace(a) && AllSpace(b)
    ensures ParseNumber(a + s + b) == ParseNumber(s)
  {
    StripIgnoresSurroundingSpace(a, s, b);
  }

  /** Appending a character that is not whitespace keeps the trailing part of the strip. */
  lemma StripAppend(s: string, c: char)
    requires !IsSpace(c)
    ensures Strip(s + [c]) == TrimStart(s) + [c]
    ensures Strip(TrimStart(s)) == Strip(s)
  {
    var y := TrimStart(s);
    var lead := LeadingSpace(s);
    var t := y + [c];
    assert Trimmed(t) by { assert t[0] == (if y == [] then c else y[0]); }
    assert s + [c] == lead + t + [] by { Reassociate(lead, y, [c]); }
    StripSurrounded(lead, t, []);
    StripAfterSpace(lead, y);
  }

  /** A text ending in a suffix letter parses exactly when the stripped rest is a numeral,
      whatever the letter's case and whatever whitespace stands before it; the value is the
      numeral's times the suffix's magnitude. */
  lemma ParseWithSuffix(s: string, c: char)
    requires IsSuffix(c)
    ensures ParseNumber(s + [c]).Ok? <==> DecimalValue(Strip(s)).Some?
    ensures ParseNumber(s + [c]).Ok? ==>
      ParseNumber(s + [c]).value == ApplySuffix(DecimalValue(Strip(s)).value, c)
  {
    StripAppend(s, c);
    var y := TrimStart(s);
    var t := y + [c];
    assert t[..|t| - 1] == y;
    ParseStrippedSuffix(t);
  }

  lemma ParseStrippedSuffix(t: string)
    requires t != [] && IsSuffix(t[|t| - 1])
    ensures ParseStripped(t).Ok? <==> DecimalValue(Strip(t[..|t| - 1])).Some?
    ensures ParseStripped(t).Ok? ==>
      ParseStripped(t).value == ApplySuffix(DecimalValue(Strip(t[..|t| - 1])).value, t[|t| - 1])
  {
    if Strip(t[..|t| - 1]) == [] {
      assert UnsignedValue([]) == None;
    }
  }

  /** A bare suffix letter is not a number. */
  lemma BareSuffixRejected(c: char)
    requires IsSuffix(c)
    ensures ParseNumber([c]) == Err(InvalidNumberFormat([c]))
  {
    assert Strip([c]) == [c] by { StripTrimmed([c]); }
    assert [c][..0] == [];
  }

  lemma UnsignedParts(s: string, w: string, f: string)
    requires AllDigits(w) && AllDigits(f) && |w| + |f| > 0
    requires FirstIndex(s, '.') == |w| && |w| < |s| && s[..|w|] == w && s[|w| + 1..] == f
    ensures UnsignedValue(s) == Some(DigitsValue(w) as real + FractionValue(f))
  {
  }

  /** A numeral with a decimal point: its whole digits plus the value of its fraction digits. */
  lemma UnsignedWithPoint(w: string, f: string)
    requires AllDigits(w) && AllDigits(f) && |w| + |f| > 0
    ensures UnsignedValue(w + ['.'] + f) == Some(DigitsValue(w) as real + FractionValue(f))
  {
    var s := w + ['.'] + f;
    assert '.' !in w;
    assert s[..|w|] == w;
    assert FirstIndex(s, '.') == |w| by {
      assert '.' !in s[..|w|] && s[|w|] == '.';
    }
    assert s[|w| + 1..] == f;
    UnsignedParts(s, w, f);
  }

  /** A numeral without a decimal point: the value of its digits. */
  lemma UnsignedWhole(w: string)
    requires AllDigits(w) && w != []
    ensures UnsignedValue(w) == Some(DigitsValue(w) as real)
  {
    assert '.' !in w;
    assert w[..|w|] == w;
  }

  /** "2.70M", what FormatNumber writes for 2700000, reads back as 2700000. */
  lemma FormatParseMillionsExample()
    ensures ParseNumber("2.70M") == Ok(2700000.0)
  {
    FormatMillionsExample();
    assert IsWhole(ShownUnits(2700000.0)) by {
      assert ShownUnits(2700000.0) == 270 as real;
    }
    FormatThenParseExact(2700000.0);
  }

  /** "10K" reads as 10000. */
  lemma ParseThousandsExample()
    ensures ParseNumber("10K") == Ok(10000.0)
  {
    assert NatToString(10) == "10";
    assert NatToString(10) + ['K'] == "10K";
    ParseWholeSuffixed(10, 'K');
  }

  /** A whole number followed by a suffix letter reads as the number times the magnitude. */
  lemma ParseWholeSuffixed(n: nat, c: char)
    requires IsSuffix(c)
    ensures ParseNumber(NatToString(n) + [c]) == Ok(ApplySuffix(n as real, c))
  {
    var body := NatToString(n);
    DigitsValueOfNat(n);
    UnsignedWhole(body);
    assert DecimalValue(body) == UnsignedValue(body) by { assert IsDigit(body[0]); }
    assert Trimmed(body) by { assert IsDigit(body[0]) && IsDigit(body[|body| - 1]); }
    ParseSuffixedNumeral(body, c, n as real);
  }

  /** A digit, a point, a digit and a suffix letter read as that decimal times the magnitude. */
  lemma ParseTenthsSuffixed(d: char, e: char, c: char)
    requires IsDigit(d) && IsDigit(e) && IsSuffix(c)
    ensures ParseNumber([d, '.', e] + [c])
      == Ok(ApplySuffix(DigitValue(d) as real + DigitValue(e) as real / 10.0, c))
  {
    var body := [d, '.', e];
    TenthsValue(d, e);
    assert Trimmed(body) by { assert IsDigit(body[0]) && IsDigit(body[|body| - 1]); }
    ParseSuffixedNumeral(body, c, DigitValue(d) as real + DigitValue(e) as real / 10.0);
  }

  /** A digit, a point and a digit make the numeral of that decimal. */
  lemma TenthsValue(d: char, e: char)
    requires IsDigit(d) && IsDigit(e)
    ensures DecimalValue([d, '.', e]) == Some(DigitValue(d) as real + DigitValue(e) as real / 10.0)
  {
    var w, f := [d], [e];
    assert w[..0] == [];
    assert DigitsValue(w) == DigitValue(d);
    assert f[1..] == [];
    assert FractionValue(f) == DigitValue(e) as real / 10.0;
    UnsignedWithPoint(w, f);
    var body := [d, '.', e];
    assert body == w + ['.'] + f;
    assert DecimalValue(body) == UnsignedValue(body) by { assert IsDigit(body[0]); }
  }

  /** The digits of a whole number read as that number. */
  lemma ParseWhole(n: nat)
    ensures ParseNumber(NatToString(n)) == Ok(n as real)
  {
    var t := NatToString(n);
    DigitsValueOfNat(n);
    UnsignedWhole(t);
    assert DecimalValue(t) == UnsignedValue(t) by { assert IsDigit(t[0]); }
    assert Trimmed(t) && !IsSuffix(t[|t| - 1]) by { assert IsDigit(t[0]) && IsDigit(t[|t| - 1]); }
    ParsePlainNumeral(t, n as real);
  }

  /** "2.7M" reads as 2700000. */
  lemma ParseMillionsExample(t: string)
    requires t == "2.7M"
    ensures ParseNumber(t) == Ok(2700000.0)
  {
    assert t == ['2', '.', '7'] + ['M'];
    ParseTenthsSuffixed('2', '7', 'M');
  }

  /** "1.5B" reads as 1500000000. */
  lemma ParseBillionsExample(t: string)
    requires t == "1.5B"
    ensures ParseNumber(t) == Ok(1500000000.0)
  {
    assert t == ['1', '.', '5'] + ['B'];
    ParseTenthsSuffixed('1', '5', 'B');
  }

  /** "2.5K" reads as 2500. */
  lemma ParseDecimalExample(t: string)
    requires t == "2.5K"
    ensures ParseNumber(t) == Ok(2500.0)
  {
    assert t == ['2', '.', '5'] + ['K'];
    ParseTenthsSuffixed('2', '5', 'K');
  }

  /** "1000" reads as 1000. */
  lemma ParsePlainExample()
    ensures ParseNumber("1000") == Ok(1000.0)
  {
    assert NatToString(1) == "1";
    assert NatToString(10) == "10";
    assert NatToString(100) == "100";
    assert NatToString(1000) == "1000";
    ParseWhole(1000);
  }

  /** "5m" reads as 5000000: the suffix letter may be lower case. */
  lemma ParseLowercaseExample()
    ensures ParseNumber("5m") == Ok(5000000.0)
  {
    assert NatToString(5) == "5";
    assert NatToString(5) + ['m'] == "5m";
    ParseWholeSuffixed(5, 'm');
  }

  /** "  10K  " reads as 10000: whitespace around the number is ignored. */
  lemma ParseSpacedExample(t: string)
    requires t == "  10K  "
    ensures ParseNumber(t) == Ok(10000.0)
  {
    var pad := "  ";
    assert t == pad + "10K" + pad;
    assert AllSpace(pad) by { assert IsSpace(' '); }
    ParseNumberIgnoresSpace(pad, "10K", pad);
    ParseThousandsExample();
  }

  /** A trimmed text that is not a numeral and ends in no suffix letter is reported with its text. */
  lemma ParseNotNumeral(t: string)
    requires t != [] && Trimmed(t) && !IsSuffix(t[|t| - 1]) && DecimalValue(t) == None
    ensures ParseNumber(t) == Err(InvalidNumberFormat(t))
  {
    StripTrimmed(t);
  }

  /** DecimalValue has no value for a text that starts with a letter. */
  lemma LetterStartNotDecimal(t: string)
    requires t != [] && IsLetter(t[0])
    ensures DecimalValue(t) == None
  {
    var i := FirstIndex(t, '.');
    if i > 0 {
      assert t[..i][0] == t[0];
    }
  }

  /** "invalid" is not a number. */
  lemma ParseInvalidExample()
    ensures ParseNumber("invalid") == Err(InvalidNumberFormat("invalid"))
  {
    LetterStartNotDecimal("invalid");
    ParseNotNumeral("invalid");
  }

  lemma FormatMillionsExample()
    ensures FormatNumber(2700000.0) == "2.70M"
  {
    assert Mantissa(2700000.0) == 2.7;
    assert RoundHalfEven(270.0) == 270;
    assert NatToString(2) == "2";
    assert Cents(270) == "2.70";
    assert Fixed2(2.7) == "2.70";
  }

  lemma FormatThousandsExample()
    ensures FormatNumber(10000.0) == "10.00K"
  {
    assert Mantissa(10000.0) == 10.0;
    assert RoundHalfEven(1000.0) == 1000;
    assert NatToString(10) == "10";
    assert Cents(1000) == "10.00";
  }

  lemma FormatPlainExample()
    ensures FormatNumber(100.0) == "100"
  {
    assert RoundHalfEven(100.0) == 100;
    assert NatToString(1) == "1";
    assert NatToString(10) == "10";
    assert NatToString(100) == "100";
  }

  lemma FormatBillionsExample()
    ensures FormatNumber(1500000000.0) == "1.50B"
  {
    assert Mantissa(1500000000.0) == 1.5;
    assert RoundHalfEven(150.0) == 150;
    assert NatToString(1) == "1";
    assert Cents(150) == "1.50";
    assert Fixed2(1.5) == "1.50";
  }

  lemma FormatSmallExample()
    ensures FormatNumber(2.5) == "2.50"
  {
    assert RoundHalfEven(250.0) == 250;
    assert NatToString(2) == "2";
    assert Cents(250) == "2.50";
    assert Fixed2(2.5) == "2.50";
  }

  lemma FormatZeroExample()
    ensures FormatNumber(0.0) == "0"
  {
    assert RoundHalfEven(0.0) == 0;
    assert Fixed0(0.0) == "0";
  }

  lemma FormatNegativeExample()
    ensures FormatNumber(-5000000.0) == "-5.00M"
  {
    assert Mantissa(-5000000.0) == -5.0;
    assert RoundHalfEven(500.0) == 500;
    assert NatToString(5) == "5";
    assert Cents(500) == "5.00";
    assert Fixed2(-5.0) == "-5.00";
  }
}
