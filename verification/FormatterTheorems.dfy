/** What a formatted financial value shows, and when formatting is refused. */
module FormatterTheorems {
  import opened Outcomes
  import opened Decimals
  import opened DecimalText
  import opened Formatter

  // -------- the nearest hundredth --------

  lemma HundredTimes(m: real, p: int, c: int)
    requires m * (p * 100) as real == c as real
    ensures m * 100.0 * p as real == c as real
  {
    assert (p * 100) as real == p as real * 100.0;
  }

  lemma WholeHundredths(m: real, n: nat)
    requires m * 100.0 == n as real
    ensures RoundHalfUp(m * 100.0) == n
  {
    hide RoundHalfUp;
    RoundOfInteger(n);
  }

  lemma ShiftedHundredths(d: Decimals.Decimal, m: real)
    requires d.exponent >= DISPLAY_EXPONENT
    requires IsRatio(m, if d.exponent >= 0 then d.coefficient * PowerOfTen(d.exponent) else d.coefficient,
                     if d.exponent >= 0 then 1 else PowerOfTen(-d.exponent))
    ensures m * 100.0 == Hundredths(d) as real
  {
    hide RoundedMagnitude;
    HundredIsTwoDigits();
    if d.exponent >= 0 {
      ShiftByTwo(d.coefficient, d.exponent);
      assert Hundredths(d) == d.coefficient * PowerOfTen(d.exponent) * 100;
    } else {
      assert PowerOfTen(1) == 10 * PowerOfTen(0);
    }
  }

  /** The hundredths of a magnitude are its nearest hundredth. */
  lemma HundredthsOfMagnitude(d: Decimals.Decimal, m: real)
    requires IsRatio(m, if d.exponent >= 0 then d.coefficient * PowerOfTen(d.exponent) else d.coefficient,
                     if d.exponent >= 0 then 1 else PowerOfTen(-d.exponent))
    ensures RoundHalfUp(m * 100.0) == Hundredths(d)
  {
    hide RoundHalfUp, RoundedMagnitude, PowerOfTen;
    if d.exponent >= DISPLAY_EXPONENT {
      ShiftedHundredths(d, m);
      WholeHundredths(m, Hundredths(d));
    } else {
      var k: nat := -d.exponent - 2;
      HundredIsTwoDigits();
      PowerOfTenAdds(k, 2);
      HundredTimes(m, PowerOfTen(k), d.coefficient);
      MagnitudeRounds(d.coefficient, PowerOfTen(k), m * 100.0);
    }
  }

  function Signed(negative: bool, n: nat): int {
    if negative then 0 - n else n
  }

  lemma NegatedRatio(v: real, n: int, p: int)
    ensures IsRatio(v, 0 - n, p) ==> IsRatio(-v, n, p)
  {
  }

  /** Rounding the exact value to hundredths gives the hundredths under the value's sign. */
  lemma HundredthsAreNearest(d: Decimals.Decimal, v: real)
    requires Denotes(d, v)
    ensures RoundHalfUp(v * 100.0) == Signed(d.negative, Hundredths(d))
  {
    hide RoundHalfUp, Hundredths, PowerOfTen;
    var n := if d.exponent >= 0 then d.coefficient * PowerOfTen(d.exponent) else d.coefficient;
    var p := if d.exponent >= 0 then 1 else PowerOfTen(-d.exponent);
    if d.negative {
      NegatedNumerator(d);
      NegatedRatio(v, n, p);
      HundredthsOfMagnitude(d, -v);
      RoundOfNegation(v * 100.0);
      assert -v * 100.0 == -(v * 100.0);
    } else {
      HundredthsOfMagnitude(d, v);
    }
  }

  lemma NegatedNumerator(d: Decimals.Decimal)
    requires d.negative
    ensures var n: int := if d.exponent >= 0 then d.coefficient * PowerOfTen(d.exponent) else d.coefficient;
            FiniteFraction(d) == (0 - n, if d.exponent >= 0 then 1 else PowerOfTen(-d.exponent))
  {
    if d.exponent >= 0 {
      NegatedProduct(d.coefficient, PowerOfTen(d.exponent));
    }
  }

  // -------- the text --------

  /** The text of a number of hundredths: a sign only below zero, then units, a point and two digits. */
  function TextOf(hundredths: int): string {
    FixedText(Decimals.Decimal(hundredths < 0, Abs(hundredths), DISPLAY_EXPONENT))
  }

  function UnsignedText(n: nat): (s: string)
    ensures s != "" && IsDigit(s[0])
  {
    DecimalText.Decimal(n / 100) + "." + TwoDigits(n % 100)
  }

  lemma TwoDigitsAreInjective(m: nat, n: nat)
    requires m < 100 && n < 100 && TwoDigits(m) == TwoDigits(n)
    ensures m == n
  {
    assert Digit(m / 10) == TwoDigits(m)[0] == TwoDigits(n)[0] == Digit(n / 10);
    assert Digit(m % 10) == TwoDigits(m)[1] == TwoDigits(n)[1] == Digit(n % 10);
    DigitIsInjective(m / 10, n / 10);
    DigitIsInjective(m % 10, n % 10);
  }

  lemma DigitIsInjective(m: nat, n: nat)
    requires m < 10 && n < 10 && Digit(m) == Digit(n)
    ensures m == n
  {
  }

  lemma TextParts(n: nat)
    ensures var s := UnsignedText(n);
            && |s| >= 3 && s[..|s| - 3] == DecimalText.Decimal(n / 100) && s[|s| - 2..] == TwoDigits(n % 100)
  {
    hide DecimalText.Decimal;
  }

  lemma UnsignedTextIsInjective(m: nat, n: nat)
    requires UnsignedText(m) == UnsignedText(n)
    ensures m == n
  {
    hide DecimalText.Decimal, TwoDigits, UnsignedText;
    TextParts(m);
    TextParts(n);
    DecimalIsInjective(m / 100, n / 100);
    TwoDigitsAreInjective(m % 100, n % 100);
  }

  lemma SignedText(n: int)
    ensures TextOf(n) == (if n < 0 then "-" else "") + UnsignedText(Abs(n))
    ensures n < 0 <==> TextOf(n)[0] == '-'
  {
    hide DecimalText.Decimal, TwoDigits;
    assert TextOf(n) == (if n < 0 then "-" else "") + UnsignedText(Abs(n));
  }

  /** Different hundredths never print alike. */
  lemma TextDeterminesHundredths(m: int, n: int)
    requires TextOf(m) == TextOf(n)
    ensures m == n
  {
    hide TextOf, UnsignedText;
    SignedText(m);
    SignedText(n);
    var sign := if m < 0 then "-" else "";
    assert TextOf(m)[|sign|..] == UnsignedText(Abs(m)) && TextOf(n)[|sign|..] == UnsignedText(Abs(n));
    UnsignedTextIsInjective(Abs(m), Abs(n));
  }

  // -------- reading the text --------

  /** A text that reads as a number of hundredths: a '-' in front exactly below zero, then a numeral for the units, a point
      and two digits, which read without the point are the hundredths. */
  predicate ReadsAs(text: string, hundredths: int) {
    && text != "" && (hundredths < 0 <==> text[0] == '-')
    && UnsignedReadsAs(if text[0] == '-' then text[1..] else text, Abs(hundredths))
  }

  predicate UnsignedReadsAs(text: string, hundredths: int) {
    && |text| >= 4 && text[|text| - 3] == '.'
    && var units, decimals := text[..|text| - 3], text[|text| - 2..];
       IsNumeral(units) && AllDigits(decimals) && ReadDigits(units + decimals) == hundredths
  }

  lemma TwoMoreDigits(s: string, n: nat)
    requires n < 100
    ensures AllDigits(TwoDigits(n)) && ReadDigits(s + TwoDigits(n)) == 100 * ReadDigits(s) + n
  {
    DigitIsItsValue(n / 10);
    DigitIsItsValue(n % 10);
    var longer := s + TwoDigits(n);
    assert longer[|s|] == Digit(n / 10) && longer[|s| + 1] == Digit(n % 10);
    assert longer[..|s| + 1][..|s|] == s && longer[..|longer| - 1] == longer[..|s| + 1];
  }

  lemma UnsignedTextReadsBack(n: nat)
    ensures UnsignedReadsAs(UnsignedText(n), n) && UnsignedText(n)[0] != '-'
  {
    hide TwoDigits, DecimalText.Decimal, ReadDigits, AllDigits;
    DecimalReadsBack(n / 100);
    TwoMoreDigits(DecimalText.Decimal(n / 100), n % 100);
    TextParts(n);
    NumeralHasNoSign(DecimalText.Decimal(n / 100));
  }

  /** What is printed reads as the hundredths it was printed from. */
  lemma TextReadsBack(hundredths: int)
    ensures ReadsAs(TextOf(hundredths), hundredths)
  {
    hide UnsignedText, UnsignedReadsAs, TextOf;
    UnsignedTextReadsBack(Abs(hundredths));
    SignedText(hundredths);
    assert hundredths < 0 ==> TextOf(hundredths)[1..] == UnsignedText(Abs(hundredths));
    assert "" + UnsignedText(Abs(hundredths)) == UnsignedText(Abs(hundredths));
  }

  lemma NumeralHasNoSign(s: string)
    requires IsNumeral(s)
    ensures s[0] != '-'
  {
    assert 0 <= DigitValue(s[0]);
  }

  // -------- formatting --------

  predicate AdjustedInRange(d: Decimals.Decimal) {
    MIN_EXPONENT <= d.exponent + NumDigits(d.coefficient) - 1 <= MAX_EXPONENT
  }

  predicate PrecisionInRange(d: Decimals.Decimal) {
    NumDigits(d.coefficient) + Expansion(d.exponent) + 1 <= MAX_FINANCIAL_PRECISION
  }

  predicate RoundedInRange(d: Decimals.Decimal) {
    d.coefficient == 0 || DISPLAY_EXPONENT + NumDigits(Hundredths(d)) - 1 <= MAX_EXPONENT
  }

  /** The ranges of the decimal library's fields. */
  predicate Representable(d: Decimals.Decimal) {
    MIN_INT32 <= d.exponent <= MAX_INT32 && NumDigits(d.coefficient) <= MAX_INT64
  }

  lemma QuantizedForFormatting(d: Decimals.Decimal, precision: int)
    requires NumDigits(Hundredths(d)) <= precision
    ensures QuantizeForFormatting(d, precision)
            == if DISPLAY_EXPONENT + NumDigits(Hundredths(d)) - 1 > MAX_EXPONENT then Failure(InvalidInput)
               else Success(Decimals.Decimal(d.negative && Hundredths(d) != 0, Hundredths(d), DISPLAY_EXPONENT))
  {
    hide Hundredths, NumDigits;
    PreExpansionKeepsTheValue(d, 0.0);
  }

  /** A value formats exactly when its adjusted exponent, the precision it needs and its rounded result are in range,
      and the text reads as the nearest hundredth of its exact value, ties away from zero, without a negative zero. */
  lemma FormatsTheNearestHundredth(d: Decimals.Decimal, v: real)
    requires Representable(d) && Denotes(d, v)
    ensures FormatFinancialValue(d).Success? <==> AdjustedInRange(d) && PrecisionInRange(d) && RoundedInRange(d)
    ensures FormatFinancialValue(d).Success? ==> FormatFinancialValue(d).value == TextOf(RoundHalfUp(v * 100.0))
    ensures FormatFinancialValue(d).Success? ==> ReadsAs(FormatFinancialValue(d).value, RoundHalfUp(v * 100.0))
  {
    hide ReadsAs;
    TextReadsBack(RoundHalfUp(v * 100.0));
    hide RoundHalfUp, Hundredths, NumDigits, QuantizeForFormatting, FixedText;
    HundredthsAreNearest(d, v);
    if d.coefficient > 0 {
      PrecisionSuffices(d);
      if PrecisionInRange(d) {
        QuantizedForFormatting(d, NumDigits(d.coefficient) + Expansion(d.exponent) + 1);
      }
    } else {
      ZeroHasNoHundredths(d);
      ZeroText();
    }
  }

  lemma ZeroHasNoHundredths(d: Decimals.Decimal)
    requires d.coefficient == 0
    ensures Hundredths(d) == 0
  {
  }

  lemma ZeroText()
    ensures TextOf(0) == "0.00"
  {
  }

  lemma DivisionBelowPower(c: nat, j: nat, k: nat)
    requires c < PowerOfTen(j + k)
    ensures c / PowerOfTen(k) < PowerOfTen(j)
  {
    PowerOfTenAdds(j, k);
    var p, q := PowerOfTen(k), PowerOfTen(j);
    if c / p >= q {
      ProductGrows(p, q, c / p);
    }
  }

  /** Rounding k digits away leaves at most one digit more than were kept. */
  lemma CarryAddsOneDigit(c: nat, k: nat)
    requires k > 0
    ensures NumDigits(RoundedMagnitude(c, PowerOfTen(k))) <= if NumDigits(c) >= k then NumDigits(c) - k + 1 else 1
  {
    var digits := NumDigits(c);
    var j: nat := if digits >= k then digits - k else 0;
    DigitsBound(c);
    PowerOfTenIsMonotone(digits, j + k);
    DivisionBelowPower(c, j, k);
    assert RoundedMagnitude(c, PowerOfTen(k)) <= PowerOfTen(j);
    DigitsAreMonotone(RoundedMagnitude(c, PowerOfTen(k)), PowerOfTen(j));
    DigitsOfShifted(1, j);
    assert ShiftedUp(1, j) == PowerOfTen(j);
  }

  lemma {:induction false} PowerOfTenIsMonotone(j: nat, k: nat)
    requires j <= k
    ensures PowerOfTen(j) <= PowerOfTen(k)
  {
    if j == 0 {
    } else {
      PowerOfTenIsMonotone(j - 1, k - 1);
    }
  }

  /** Once the adjusted exponent and the precision are accepted, formatting can fail in one way only: a value of the
      largest adjusted exponent that rounding carries one digit further. */
  lemma OnlyACarryAtTheTopIsRefused(d: Decimals.Decimal)
    requires AdjustedInRange(d) && !RoundedInRange(d)
    ensures d.exponent + NumDigits(d.coefficient) - 1 == MAX_EXPONENT && d.exponent < DISPLAY_EXPONENT
  {
    hide RoundedMagnitude, NumDigits, PowerOfTen, ShiftedUp;
    var shift := d.exponent - DISPLAY_EXPONENT;
    if shift >= 0 {
      DigitsOfShifted(d.coefficient, shift);
    } else {
      CarryAddsOneDigit(d.coefficient, -shift);
    }
  }
}
