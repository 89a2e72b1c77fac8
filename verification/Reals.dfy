/** Small facts about multiplying and dividing real numbers, stated once so that proofs stay linear. */
module Reals {
  lemma MultiplyOrder(x: real, y: real, d: real)
    requires x <= y && 0.0 <= d
    ensures x * d <= y * d
  {
  }

  lemma MultiplyStrictOrder(x: real, y: real, d: real)
    requires x < y && 0.0 < d
    ensures x * d < y * d
  {
  }

  lemma QuotientIsUnique(n: real, d: real, x: real)
    requires d != 0.0 && x * d == n
    ensures n / d == x
  {
  }

  /** Order is cancelled from products with a positive factor. */
  lemma CancelOrder(x: real, y: real, d: real)
    requires 0.0 < d
    ensures x * d <= y * d <==> x <= y
    ensures x * d < y * d <==> x < y
  {
    if x <= y { MultiplyOrder(x, y, d); } else { MultiplyStrictOrder(y, x, d); }
    if x < y { MultiplyStrictOrder(x, y, d); } else { MultiplyOrder(y, x, d); }
  }

  lemma DivideOrder(x: real, y: real, d: real)
    requires 0.0 < d
    ensures x / d <= y / d <==> x <= y
  {
    DivideThenMultiply(x, d);
    DivideThenMultiply(y, d);
    CancelOrder(x / d, y / d, d);
  }

  lemma DivideThenMultiply(n: real, d: real)
    requires d != 0.0
    ensures n / d * d == n
  {
  }

  // -------- a product as a function, so that proofs can keep it closed --------

  /** The product, closed to the prover where a proof hides it. */
  function Product(x: real, y: real): real {
    x * y
  }

  lemma ProductDistributes(factor: real, x: real, y: real)
    ensures Product(factor, x + y) == Product(factor, x) + Product(factor, y)
  {
  }

  lemma NearProduct(exact: real, rounded: real, quantity: real)
    requires quantity > 0.0 && -0.5 <= rounded - exact <= 0.5
    ensures -0.5 * quantity <= Product(rounded, quantity) - Product(exact, quantity) <= 0.5 * quantity
  {
    hide Product;
    DifferenceTimes(rounded, exact, quantity);
    HalfBounds(rounded - exact, quantity);
  }

  lemma DifferenceTimes(x: real, y: real, quantity: real)
    ensures Product(x - y, quantity) == Product(x, quantity) - Product(y, quantity)
  {
  }

  lemma HalfBounds(difference: real, quantity: real)
    requires quantity > 0.0 && -0.5 <= difference <= 0.5
    ensures -0.5 * quantity <= Product(difference, quantity) <= 0.5 * quantity
  {
    hide Product;
    ProductSign(0.5 - difference, quantity);
    ProductSign(difference + 0.5, quantity);
    DifferenceTimes(0.5, difference, quantity);
    DifferenceTimes(difference, -0.5, quantity);
    ProductByHalf(quantity);
  }

  lemma ProductSign(x: real, y: real)
    requires 0.0 <= x && 0.0 <= y
    ensures 0.0 <= Product(x, y)
  {
  }

  lemma ProductByHalf(x: real)
    ensures Product(0.5, x) == 0.5 * x && Product(-0.5, x) == -0.5 * x
  {
  }
}
