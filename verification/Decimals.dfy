/** Exact decimal arithmetic with one rounded operation: division, half up, at the active policy scale.

    An amount of money is measured in policy units (10 to the minus scale), so the rounding grid is the
    set of integers whatever the scale is.  Sums, differences and products are exact. */
module Decimals {
  import opened Outcomes
  import opened Reals

  // -------- rounding --------

  /** r is the integer nearest to x; a tie goes away from zero. */
  ghost predicate IsNearest(x: real, r: int) {
    && -0.5 <= x - r as real <= 0.5
    && (x - r as real == 0.5 ==> x < 0.0)
    && (x - r as real == -0.5 ==> x > 0.0)
  }

  function RoundHalfUp(x: real): (r: int)
    ensures IsNearest(x, r)
  {
    if x >= 0.0 then (x + 0.5).Floor else -(-x + 0.5).Floor
  }

  lemma NearestIsUnique(x: real, r: int, s: int)
    requires IsNearest(x, r) && IsNearest(x, s)
    ensures r == s
  {
    assert -1.0 <= r as real - s as real <= 1.0;
  }

  lemma RoundIsMonotone(x: real, y: real)
    requires x <= y
    ensures RoundHalfUp(x) <= RoundHalfUp(y)
  {
  }

  lemma RoundOfInteger(n: int)
    ensures RoundHalfUp(n as real) == n
  {
    NearestIsUnique(n as real, RoundHalfUp(n as real), n);
  }

  lemma RoundOfNegation(x: real)
    ensures RoundHalfUp(-x) == -RoundHalfUp(x)
  {
    NearestIsUnique(-x, RoundHalfUp(-x), -RoundHalfUp(x));
  }

  ghost predicate OnGrid(x: real) {
    x.Floor as real == x
  }

  ghost function Fraction(x: real): (f: real)
    ensures 0.0 <= f < 1.0
  {
    x - x.Floor as real
  }

  lemma IntegersAreOnGrid(n: int)
    ensures (n as real).Floor == n && OnGrid(n as real)
  {
  }

  lemma GridIsClosed(x: real, y: real)
    requires OnGrid(x) && OnGrid(y)
    ensures OnGrid(x + y) && OnGrid(x - y)
  {
    var n, m := x.Floor, y.Floor;
    IntegersAreOnGrid(n + m);
    IntegersAreOnGrid(n - m);
    assert (n + m) as real == x + y;
    assert (n - m) as real == x - y;
  }

  // -------- the rounded integer quotient --------

  function Abs(n: int): nat {
    if n < 0 then -n else n
  }

  /** Truncating division, one unit added when twice the remainder reaches the denominator. */
  function RoundedMagnitude(n: nat, d: nat): nat
    requires d > 0
  {
    if 2 * (n % d) >= d then n / d + 1 else n / d
  }

  /** The rounded magnitude under the sign of the exact quotient. */
  function RoundedQuotient(numerator: int, denominator: int): int
    requires denominator != 0
  {
    var n, d := Abs(numerator), Abs(denominator);
    var magnitude: int := RoundedMagnitude(n, d);
    if (numerator < 0) != (denominator < 0) then -magnitude else magnitude
  }

  lemma RatioBounds(r: real, d: real, x: real)
    requires 0.0 <= r < d && x * d == r
    ensures 0.0 <= x < 1.0
    ensures 2.0 * r >= d <==> x >= 0.5
  {
    CancelOrder(0.0, x, d);
    CancelOrder(x, 1.0, d);
    CancelOrder(0.5, x, d);
  }

  lemma NearestFromParts(q: int, rest: real)
    requires 0.0 <= rest < 1.0 && q >= 0
    ensures RoundHalfUp(q as real + rest) == if rest >= 0.5 then q + 1 else q
  {
    NearestIsUnique(q as real + rest, RoundHalfUp(q as real + rest), if rest >= 0.5 then q + 1 else q);
  }

  lemma MagnitudeRounds(n: nat, d: nat, x: real)
    requires d > 0 && x * d as real == n as real
    ensures RoundHalfUp(x) == RoundedMagnitude(n, d)
  {
    var q, r := n / d, n % d;
    var rest := x - q as real;
    assert rest * d as real == r as real by {
      assert n == q * d + r;
      assert q as real * d as real == (q * d) as real;
    }
    RatioBounds(r as real, d as real, rest);
    NearestFromParts(q, rest);
  }

  /** The integer algorithm is rounding of the exact quotient, for every sign combination. */
  lemma RoundedQuotientIsRounding(numerator: int, denominator: int, x: real)
    requires denominator != 0 && x * denominator as real == numerator as real
    ensures RoundedQuotient(numerator, denominator) == RoundHalfUp(x)
  {
    var n, d := Abs(numerator), Abs(denominator);
    if (numerator < 0) != (denominator < 0) {
      assert -x * d as real == n as real;
      MagnitudeRounds(n, d, -x);
      RoundOfNegation(x);
    } else {
      assert x * d as real == n as real;
      MagnitudeRounds(n, d, x);
    }
  }

  // -------- finite decimals --------

  /** A finite decimal: (-1)^negative * coefficient * 10^exponent. */
  datatype Decimal = Decimal(negative: bool, coefficient: nat, exponent: int)

  function PowerOfTen(k: nat): (p: int)
    ensures p > 0
  {
    if k == 0 then 1 else 10 * PowerOfTen(k - 1)
  }

  lemma {:induction false} PowerOfTenAdds(j: nat, k: nat)
    ensures PowerOfTen(j + k) == PowerOfTen(j) * PowerOfTen(k)
  {
    if j == 0 {
    } else {
      PowerOfTenAdds(j - 1, k);
      assert PowerOfTen(j + k) == 10 * PowerOfTen(j - 1 + k);
    }
  }

  /** Numerator and denominator of the exact fraction a decimal stands for. */
  function FiniteFraction(d: Decimal): (f: (int, int))
    ensures f.1 > 0
  {
    var magnitude: int := d.coefficient;
    var signed := if d.negative then -magnitude else magnitude;
    if d.exponent >= 0 then (signed * PowerOfTen(d.exponent), 1) else (signed, PowerOfTen(-d.exponent))
  }

  /** v is n / d. */
  ghost predicate IsRatio(v: real, n: int, d: int) {
    v * d as real == n as real
  }

  /** v is the exact value of d. */
  ghost predicate Denotes(d: Decimal, v: real) {
    IsRatio(v, FiniteFraction(d).0, FiniteFraction(d).1)
  }

  /** x is the value of some finite decimal, as every quantity and amount of a record is. */
  ghost predicate IsFinite(x: real) {
    exists d: Decimal :: Denotes(d, x)
  }

  lemma {:induction false} PowerOfTenExceeds(k: nat)
    ensures PowerOfTen(k) > k
  {
    if k == 0 {
    } else {
      PowerOfTenExceeds(k - 1);
    }
  }

  /** Some power of ten turns any gap into more than one. */
  lemma PowerOfTenWidens(gap: real) returns (k: nat)
    requires 0.0 < gap
    ensures k > 0 && 1.0 < Product(PowerOfTen(k) as real, gap)
  {
    var inverse := 1.0 / gap;
    DivideThenMultiply(1.0, gap);
    CancelOrder(0.0, inverse, gap);
    k := inverse.Floor + 1;
    PowerOfTenExceeds(k);
    WidenedGap(gap, inverse, PowerOfTen(k) as real);
  }

  lemma WidenedGap(gap: real, inverse: real, p: real)
    requires 0.0 < gap && inverse * gap == 1.0 && inverse < p
    ensures 1.0 < Product(p, gap)
  {
    MultiplyStrictOrder(inverse, p, gap);
  }

  lemma ScaledGap(low: real, high: real, p: real, n: real)
    requires 0.0 < p && 1.0 < Product(p, high - low) && Product(p, low) < n && n <= Product(p, low) + 1.0
    ensures low < n / p < high && n / p * p == n
  {
    ProductDistributes(p, low, high - low);
    DivideThenMultiply(n, p);
    CancelOrder(low, n / p, p);
    CancelOrder(n / p, high, p);
  }

  /** Between any two amounts lies a finite decimal. */
  lemma DecimalBetween(low: real, high: real) returns (x: real)
    requires 0.0 <= low < high
    ensures low < x < high && IsFinite(x)
  {
    hide Product;
    var k := PowerOfTenWidens(high - low);
    var p := PowerOfTen(k) as real;
    ProductSign(p, low);
    var n := Product(p, low).Floor + 1;
    assert Product(p, low) < n as real <= Product(p, low) + 1.0;
    ScaledGap(low, high, p, n as real);
    x := n as real / p;
    var e: int := k;
    var d := Decimal(false, n, -e);
    assert FiniteFraction(d) == (n, PowerOfTen(k));
    assert Denotes(d, x);
  }

  function SignOf(d: Decimal): int {
    if d.coefficient == 0 then 0 else if d.negative then -1 else 1
  }

  lemma SignOfFraction(d: Decimal)
    ensures SignOf(d) == 0 <==> FiniteFraction(d).0 == 0
    ensures SignOf(d) < 0 <==> FiniteFraction(d).0 < 0
  {
    if d.exponent >= 0 && d.coefficient > 0 {
      assert d.coefficient * PowerOfTen(d.exponent) > 0;
    }
  }

  lemma SignIsSignOfValue(d: Decimal, v: real)
    requires Denotes(d, v)
    ensures SignOf(d) == 0 <==> v == 0.0
    ensures SignOf(d) < 0 <==> v < 0.0
  {
    SignOfFraction(d);
    CancelOrder(v, 0.0, FiniteFraction(d).1 as real);
    CancelOrder(0.0, v, FiniteFraction(d).1 as real);
  }

  const MAXIMUM_POLICY_SCALE := 64

  /** The decimal units * 10^-scale. */
  function GridDecimal(units: int, scale: nat): Decimal {
    Decimal(units < 0, Abs(units), 0 - scale)
  }

  /** The quotient of the fractions n/nd and m/md, in units of 1/s. */
  function RoundedFraction(n: int, nd: int, m: int, md: int, s: int): int
    requires nd > 0 && m != 0
  {
    NonZeroProduct(nd, m);
    RoundedQuotient(n * md * s, nd * m)
  }

  /** Division at an explicit policy scale: invalid policies and zero divisors are refused. */
  function DivideFinite(dividend: Decimal, divisor: Decimal, scale: int): Result<Decimal> {
    if scale < 0 || scale > MAXIMUM_POLICY_SCALE then Failure(InvalidPolicy)
    else if SignOf(divisor) == 0 then Failure(ZeroDivisor)
    else
      var (n, nd) := FiniteFraction(dividend);
      var (m, md) := FiniteFraction(divisor);
      SignOfFraction(divisor);
      Success(GridDecimal(RoundedFraction(n, nd, m, md, PowerOfTen(scale)), scale))
  }

  lemma NonZeroProduct(a: int, b: int)
    requires a != 0 && b != 0
    ensures a * b != 0
  {
  }

  /** q = a / b with a = n / nd and b = m / md, written without division. */
  lemma CrossMultiplied(n: real, nd: real, m: real, md: real, a: real, b: real, q: real, s: real)
    requires a * nd == n && b * md == m && q * b == a
    ensures q * s * (nd * m) == n * md * s
  {
    calc {
      q * s * (nd * m);
      q * s * (nd * (b * md));
      (q * b) * nd * md * s;
      n * md * s;
    }
  }

  lemma RealProduct(a: int, b: int)
    ensures (a * b) as real == a as real * b as real
  {
  }

  ghost function InUnits(q: real, s: int): real {
    q * s as real
  }

  /** q is a / b. */
  ghost predicate IsQuotient(q: real, a: real, b: real) {
    q * b == a
  }

  /** The integer computed for two fractions is their exact scaled quotient, rounded. */
  lemma FractionQuotientRounds(n: int, nd: int, m: int, md: int, s: int, a: real, b: real, q: real)
    requires nd > 0 && md > 0 && m != 0
    requires IsRatio(a, n, nd) && IsRatio(b, m, md) && IsQuotient(q, a, b)
    ensures RoundedFraction(n, nd, m, md, s) == RoundHalfUp(InUnits(q, s))
  {
    NonZeroProduct(nd, m);
    RealProduct(n, md);
    RealProduct(n * md, s);
    RealProduct(nd, m);
    CrossMultiplied(n as real, nd as real, m as real, md as real, a, b, q, s as real);
    RoundedQuotientIsRounding(n * md * s, nd * m, q * s as real);
  }

  /** The quotient is on the policy grid: it is the exact quotient q of the two values, rounded half up to
      units of the scale. */
  lemma DivideFiniteRounds(dividend: Decimal, divisor: Decimal, scale: int, a: real, b: real, q: real)
    requires Denotes(dividend, a) && Denotes(divisor, b) && IsQuotient(q, a, b)
    ensures DivideFinite(dividend, divisor, scale).Success? <==> 0 <= scale <= MAXIMUM_POLICY_SCALE && b != 0.0
    ensures DivideFinite(dividend, divisor, scale).Success? ==>
              DivideFinite(dividend, divisor, scale).value == GridDecimal(RoundHalfUp(InUnits(q, PowerOfTen(scale))), scale)
  {
    SignIsSignOfValue(divisor, b);
    SignOfFraction(divisor);
    if DivideFinite(dividend, divisor, scale).Success? {
      var (n, nd) := FiniteFraction(dividend);
      var (m, md) := FiniteFraction(divisor);
      FractionQuotientRounds(n, nd, m, md, PowerOfTen(scale), a, b, q);
    }
  }
}
