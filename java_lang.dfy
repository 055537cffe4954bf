/** The few pieces of the Java platform the data provider relies on: 32-bit `int`,
    the exceptions the extractor can raise, `Integer.valueOf(String)` and the `%d`
    conversion of `String.format`. */
module JavaLang {
  import opened Wrappers

  const MIN_INT: int := -0x8000_0000
  const MAX_INT: int := 0x7fff_ffff

  /** Java's `int`. */
  type Int32 = x: int | -0x8000_0000 <= x <= 0x7fff_ffff

  /** The exceptions that can escape the modelled code. */
  datatype Exception =
    | NullPointer        // a method called on a null reference
    | IndexOutOfBounds   // `List.get` outside the list
    | NumberFormat       // `Integer.valueOf` on a string that is not an int
    | IO                 // the remote call failed

  predicate IsDigit(c: char) { '0' <= c <= '9' }

  predicate IsSign(c: char) { c == '+' || c == '-' }

  predicate AllDigits(s: string) { forall i :: 0 <= i < |s| ==> IsDigit(s[i]) }

  function DigitValue(c: char): nat
    requires IsDigit(c)
  {
    (c as int) - ('0' as int)
  }

  function DigitChar(d: nat): (c: char)
    requires d < 10
    ensures IsDigit(c) && DigitValue(c) == d
  {
    (('0' as int) + d) as char
  }

  /** The value of a string of decimal digits, most significant first. */
  function DigitsValue(s: string): nat
    requires AllDigits(s)
  {
    if s == [] then 0 else DigitsValue(s[..|s| - 1]) * 10 + DigitValue(s[|s| - 1])
  }

  /** A character that makes `Integer.parseInt` reject `s`: anything but a digit,
      except one leading sign that is followed by at least one more character. */
  predicate StrayChar(s: string, i: int)
  {
    0 <= i < |s| && !IsDigit(s[i]) && !(i == 0 && IsSign(s[0]) && |s| > 1)
  }

  /** `Integer.valueOf(s)`, that is `Integer.parseInt(s, 10)`: an optional `+` or `-`
      followed by one or more ASCII digits whose value lies in the range of `int`;
      anything else, null included, throws NumberFormatException. */
  function ParseInt(s: Option<string>): (r: Result<Int32, Exception>)
    ensures r.Failure? ==> r.error == NumberFormat
    ensures r.Success? ==> s.Some? && |s.value| > 0 && IsDigit(s.value[|s.value| - 1])
  {
    match s
    case None => Failure(NumberFormat)
    case Some(text) =>
      if |text| == 0 then Failure(NumberFormat)
      else if IsSign(text[0]) then
        if |text| == 1 then Failure(NumberFormat)
        else ParseMagnitude(text[0] == '-', text[1..])
      else ParseMagnitude(false, text)
  }

  function ParseMagnitude(negative: bool, digits: string): (r: Result<Int32, Exception>)
    requires |digits| > 0
    ensures r.Success? ==> AllDigits(digits)
  {
    if !AllDigits(digits) then Failure(NumberFormat)
    else
      var v: int := if negative then 0 - DigitsValue(digits) else DigitsValue(digits);
      if MIN_INT <= v <= MAX_INT then Success(v) else Failure(NumberFormat)
  }

  /** The canonical decimal digits of `n`: no leading zero. */
  function Digits(n: nat): (s: string)
    ensures |s| > 0 && AllDigits(s) && DigitsValue(s) == n
    ensures |s| > 1 ==> s[0] != '0'
    decreases n
  {
    if n < 10 then [DigitChar(n)]
    else
      var prefix := Digits(n / 10);
      var s := prefix + [DigitChar(n % 10)];
      assert s[..|s| - 1] == prefix;
      s
  }

  /** `String.format("%d", n)` and `Integer.toString(n)`: a minus sign for negative
      numbers, then the canonical digits. */
  function Decimal(n: int): (s: string)
    ensures |s| > 0 && (s[0] == '-' <==> n < 0)
    ensures forall i :: 0 <= i < |s| ==> s[i] != ','
  {
    if n < 0 then "-" + Digits(-n) else Digits(n)
  }

  /** Every `int` printed by `%d` reads back as itself. */
  lemma ParseIntOfDecimal(n: Int32)
    ensures ParseInt(Some(Decimal(n))) == Success(n)
  {
  }

  /** `%d` never prints two different numbers the same way. */
  lemma DecimalInjective(m: Int32, n: Int32)
    ensures Decimal(m) == Decimal(n) ==> m == n
  {
    ParseIntOfDecimal(m);
    ParseIntOfDecimal(n);
  }

  /** Every string with a stray character, and the empty string, is rejected. */
  lemma ParseIntRejects(s: string, i: int)
    requires |s| == 0 || StrayChar(s, i)
    ensures ParseInt(Some(s)) == Failure(NumberFormat)
  {
  }

  /** Digit strings whose value lies outside `int` are rejected, with either sign. */
  lemma ParseIntRejectsOverflow(n: nat)
    ensures n > MAX_INT ==> ParseInt(Some(Digits(n))) == Failure(NumberFormat)
    ensures n > MAX_INT ==> ParseInt(Some("+" + Digits(n))) == Failure(NumberFormat)
    ensures n > -MIN_INT ==> ParseInt(Some("-" + Digits(n))) == Failure(NumberFormat)
  {
  }

  lemma {:induction false} LeadingZeroValue(d: string)
    requires AllDigits(d)
    ensures AllDigits("0" + d) && DigitsValue("0" + d) == DigitsValue(d)
  {
    var z := "0" + d;
    if d != [] {
      assert z[..|z| - 1] == "0" + d[..|d| - 1];
      LeadingZeroValue(d[..|d| - 1]);
    }
  }

  /** Leading zeros and a leading `+` do not change what is parsed. */
  lemma ParseIntIgnoresLeadingZeroAndPlus(d: string)
    requires |d| > 0 && AllDigits(d)
    ensures ParseInt(Some("0" + d)) == ParseInt(Some(d))
    ensures ParseInt(Some("+" + d)) == ParseInt(Some(d))
  {
    LeadingZeroValue(d);
    assert !IsSign(d[0]);
    assert ("+" + d)[1..] == d;
  }

  /** An unsigned digit string is accepted exactly when its value fits in `int`, and
      then that value is the result. */
  lemma ParseIntDigits(d: string)
    requires |d| > 0 && AllDigits(d)
    ensures ParseInt(Some(d)).Success? <==> DigitsValue(d) <= MAX_INT
    ensures ParseInt(Some(d)).Success? ==> ParseInt(Some(d)).value == DigitsValue(d)
  {
  }

  /** A leading `-` negates, and admits one more value, -2^31, than `+` does. */
  lemma ParseIntMinus(d: string)
    requires |d| > 0 && AllDigits(d)
    ensures ParseInt(Some("-" + d)).Success? <==> DigitsValue(d) <= -MIN_INT
    ensures ParseInt(Some("-" + d)).Success? ==> ParseInt(Some("-" + d)).value == 0 - DigitsValue(d) as int
  {
  }
}
