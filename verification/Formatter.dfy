/** Formats financial values at scale two, half up, with checked precision and exponent arithmetic. */
module Formatter {
  import opened Outcomes
  import opened Decimals
  import opened DecimalText

  const MAX_EXPONENT: int := 100_000
  const MIN_EXPONENT: int := -100_000
  const MAX_INT32: int := 0x7fff_ffff
  const MIN_INT32: int := -0x8000_0000
  const MAX_INT64: int := 0x7fff_ffff_ffff_ffff
  const MAX_UINT32: int := 0xffff_ffff
  const DISPLAY_EXPONENT: int := -2
  const MAX_FINANCIAL_PRECISION: int := MAX_INT32 + MIN_EXPONENT + 2

  // -------- digits --------

  function NumDigits(n: nat): (k: nat)
    ensures k >= 1
  {
    if n < 10 then 1 else 1 + NumDigits(n / 10)
  }

  /** k digits are what lies between two powers of ten. */
  lemma {:induction false} DigitsBound(n: nat)
    ensures n < PowerOfTen(NumDigits(n))
    ensures n > 0 ==> PowerOfTen(NumDigits(n) - 1) <= n
  {
    if n < 10 {
    } else {
      DigitsBound(n / 10);
    }
  }

  lemma {:induction false} DigitsAreMonotone(m: nat, n: nat)
    requires m <= n
    ensures NumDigits(m) <= NumDigits(n)
  {
    if m < 10 {
    } else {
      DigitsAreMonotone(m / 10, n / 10);
    }
  }

  lemma {:induction false} DigitsOfShifted(n: nat, k: nat)
    requires n > 0
    ensures NumDigits(ShiftedUp(n, k)) == NumDigits(n) + k
  {
    if k > 0 {
      DigitsOfShifted(n, k - 1);
      var shifted := ShiftedUp(n, k - 1);
      assert ShiftedUp(n, k) == 10 * shifted;
      assert shifted > 0 by { PositiveProduct(n, PowerOfTen(k - 1)); }
    } else {
      assert ShiftedUp(n, 0) == n;
    }
  }

  lemma PositiveProduct(a: int, b: int)
    requires a > 0 && b > 0
    ensures a * b > 0
  {
  }

  // -------- checked arithmetic --------

  function CheckedAdjustedExponent(sourceExponent: int, sourceDigits: int): Result<int> {
    if sourceDigits <= 0 then Failure(InvalidInput)
    else if sourceExponent > MAX_INT64 - (sourceDigits - 1) then Failure(InvalidInput)
    else Success(sourceExponent + (sourceDigits - 1))
  }

  function CheckedPrecision(sourceDigits: int, expansion: int): Result<int> {
    if sourceDigits <= 0 || expansion < 0 then Failure(InvalidInput)
    else if expansion > MAX_FINANCIAL_PRECISION then Failure(InvalidInput)
    else if sourceDigits > MAX_FINANCIAL_PRECISION - expansion - 1 then Failure(InvalidInput)
    else Success(sourceDigits + expansion + 1)
  }

  predicate FitsInt64(n: int) {
    -MAX_INT64 - 1 <= n <= MAX_INT64
  }

  /** Every intermediate of the checked sums fits 64 bits, a precision handed out fits 32 unsigned bits, and the least
      exponent the decimal library derives from it fits 32 signed bits. */
  lemma CheckedSumsNeverOverflow(sourceExponent: int, sourceDigits: int, expansion: int)
    requires MIN_INT32 <= sourceExponent <= MAX_INT32 && 1 <= sourceDigits <= MAX_INT64
    requires expansion == if sourceExponent > DISPLAY_EXPONENT then sourceExponent - DISPLAY_EXPONENT else 0
    ensures FitsInt64(MAX_INT64 - (sourceDigits - 1)) && FitsInt64(expansion) && FitsInt64(MAX_FINANCIAL_PRECISION - expansion - 1)
    ensures CheckedAdjustedExponent(sourceExponent, sourceDigits).Success? ==> FitsInt64(CheckedAdjustedExponent(sourceExponent, sourceDigits).value)
    ensures CheckedPrecision(sourceDigits, expansion).Success? ==>
              var precision := CheckedPrecision(sourceDigits, expansion).value;
              && 0 < precision <= MAX_UINT32 && precision == sourceDigits + expansion + 1
              && MIN_INT32 <= MIN_EXPONENT - (precision - 1) <= MAX_INT32
    ensures CheckedPrecision(sourceDigits, expansion).Failure? <==> sourceDigits + expansion + 1 > MAX_FINANCIAL_PRECISION
  {
  }

  // -------- quantization --------

  function ShiftedUp(coefficient: nat, k: nat): nat {
    assert 0 <= coefficient * PowerOfTen(k);
    coefficient * PowerOfTen(k)
  }

  /** The value in hundredths, a half going away from zero. */
  function Hundredths(d: Decimal): nat {
    var shift := d.exponent - DISPLAY_EXPONENT;
    if shift >= 0 then ShiftedUp(d.coefficient, shift) else RoundedMagnitude(d.coefficient, PowerOfTen(-shift))
  }

  /** The decimal library's quantization to the display exponent: it refuses a shift below its exponent range, a result
      with more digits than the precision, and a result beyond its exponent range. */
  function Quantize(d: Decimal, precision: int): Result<Decimal> {
    if DISPLAY_EXPONENT - d.exponent < MIN_EXPONENT then Failure(InvalidInput)
    else
      var coefficient := Hundredths(d);
      if NumDigits(coefficient) > precision then Failure(InvalidInput)
      else if DISPLAY_EXPONENT + NumDigits(coefficient) - 1 > MAX_EXPONENT then Failure(InvalidInput)
      else Success(Decimal(d.negative, coefficient, DISPLAY_EXPONENT))
  }

  predicate RequiresPreExpansion(exponent: int) {
    DISPLAY_EXPONENT - exponent < MIN_EXPONENT
  }

  function Expansion(exponent: int): nat {
    if exponent > DISPLAY_EXPONENT then exponent - DISPLAY_EXPONENT else 0
  }

  /** The same value with the display exponent, for exponents the library would refuse to shift. */
  function PreExpanded(d: Decimal): Decimal {
    if RequiresPreExpansion(d.exponent) then Decimal(d.negative, ShiftedUp(d.coefficient, Expansion(d.exponent)), DISPLAY_EXPONENT) else d
  }

  function QuantizeForFormatting(d: Decimal, precision: int): Result<Decimal> {
    match Quantize(PreExpanded(d), precision)
    case Failure(e) => Failure(e)
    case Success(q) => Success(if q.coefficient == 0 then q.(negative := false) else q)
  }

  function TwoDigits(n: nat): string
    requires n < 100
  {
    [Digit(n / 10), Digit(n % 10)]
  }

  /** The fixed-point text of a decimal with the display exponent. */
  function FixedText(d: Decimal): string {
    (if d.negative then "-" else "") + DecimalText.Decimal(d.coefficient / 100) + "." + TwoDigits(d.coefficient % 100)
  }

  function FormatFinancialValue(d: Decimal): Result<string> {
    var digits := NumDigits(d.coefficient);
    match CheckedAdjustedExponent(d.exponent, digits)
    case Failure(e) => Failure(e)
    case Success(adjusted) =>
      if adjusted < MIN_EXPONENT || adjusted > MAX_EXPONENT then Failure(InvalidInput)
      else
        match CheckedPrecision(digits, Expansion(d.exponent))
        case Failure(e) => Failure(e)
        case Success(precision) =>
          if d.coefficient == 0 then Success("0.00")
          else
            match QuantizeForFormatting(d, precision)
            case Failure(e) => Failure(e)
            case Success(quantized) => Success(FixedText(quantized))
  }

  // -------- what quantization keeps --------

  /** Pre-expansion does not change the value, and never leaves a shift the library refuses. */
  lemma PreExpansionKeepsTheValue(d: Decimal, v: real)
    ensures Denotes(d, v) <==> Denotes(PreExpanded(d), v)
    ensures Hundredths(PreExpanded(d)) == Hundredths(d)
    ensures !RequiresPreExpansion(PreExpanded(d).exponent) && PreExpanded(d).negative == d.negative
  {
    if RequiresPreExpansion(d.exponent) {
      hide RoundedMagnitude;
      var e: nat := d.exponent;
      var signed: int := d.coefficient;
      signed := if d.negative then 0 - signed else signed;
      ShiftByTwo(d.coefficient, e);
      FractionOfShifted(d, PreExpanded(d));
      ShiftedFraction(signed, PowerOfTen(e), v);
      assert ShiftedUp(PreExpanded(d).coefficient, 0) == PreExpanded(d).coefficient;
    }
  }

  lemma HundredIsTwoDigits()
    ensures PowerOfTen(2) == 100
  {
    assert PowerOfTen(1) == 10 * PowerOfTen(0);
  }

  lemma ShiftByTwo(c: nat, e: nat)
    ensures ShiftedUp(c, e + 2) == c * (PowerOfTen(e) * 100)
  {
    HundredIsTwoDigits();
    PowerOfTenAdds(e, 2);
  }

  /** The fraction of an expanded decimal: a hundred times the numerator over a hundred. */
  lemma FractionOfShifted(d: Decimal, expanded: Decimal)
    requires d.exponent >= 0 && expanded == Decimal(d.negative, ShiftedUp(d.coefficient, d.exponent + 2), -2)
    ensures var signed: int := d.coefficient;
            var numerator := if d.negative then 0 - signed else signed;
            FiniteFraction(d) == (numerator * PowerOfTen(d.exponent), 1)
            && FiniteFraction(expanded) == (numerator * (PowerOfTen(d.exponent) * 100), 100)
  {
    ShiftByTwo(d.coefficient, d.exponent);
    HundredIsTwoDigits();
    var p := PowerOfTen(d.exponent) * 100;
    NegatedProduct(d.coefficient, p);
  }

  lemma NegatedProduct(c: int, p: int)
    ensures 0 - c * p == (0 - c) * p
  {
  }

  lemma ShiftedFraction(signed: int, p: int, v: real)
    ensures IsRatio(v, signed * p, 1) <==> IsRatio(v, signed * (p * 100), 100)
  {
    assert signed * (p * 100) == signed * p * 100;
  }

  /** The precision computed is always enough, whatever rounding carries. */
  lemma PrecisionSuffices(d: Decimal)
    requires d.coefficient > 0
    ensures NumDigits(Hundredths(d)) <= NumDigits(d.coefficient) + Expansion(d.exponent)
    ensures CheckedPrecision(NumDigits(d.coefficient), Expansion(d.exponent)).Success? ==>
              NumDigits(Hundredths(d)) < CheckedPrecision(NumDigits(d.coefficient), Expansion(d.exponent)).value
  {
    hide RoundedMagnitude, ShiftedUp, PowerOfTen;
    var shift := d.exponent - DISPLAY_EXPONENT;
    if shift >= 0 {
      DigitsOfShifted(d.coefficient, shift);
    } else {
      RoundedIsNoLarger(d.coefficient, -shift);
      DigitsAreMonotone(Hundredths(d), d.coefficient);
    }
  }

  lemma RoundedIsNoLarger(n: nat, k: nat)
    requires n > 0 && k > 0
    ensures RoundedMagnitude(n, PowerOfTen(k)) <= n
  {
    assert PowerOfTen(k) == 10 * PowerOfTen(k - 1);
    RoundedTenthIsNoLarger(n, PowerOfTen(k));
  }

  lemma RoundedTenthIsNoLarger(n: nat, p: nat)
    requires n > 0 && p >= 10
    ensures RoundedMagnitude(n, p) <= n
  {
    var q, r := n / p, n % p;
    assert n == q * p + r;
    assert q * p >= q * 10 by { ProductGrows(q, 10, p); }
  }

  lemma ProductGrows(q: nat, a: nat, b: nat)
    requires a <= b
    ensures q * a <= q * b
  {
  }
}
