/** Proportional allocation of an amount over part of a quantity: multiply, then divide once, half up. */
module Proportions {
  import opened Outcomes
  import opened Reals
  import opened Decimals

  /** The exact proportional share, before rounding. */
  function ExactShare(total: real, quantity: real, portion: real): real
    requires quantity != 0.0
  {
    total * portion / quantity
  }

  /** The allocated share: the whole quantity takes the whole amount untouched, a part is rounded. */
  function Share(total: real, quantity: real, portion: real): real
    requires quantity != 0.0
  {
    if portion == quantity then total else RoundHalfUp(ExactShare(total, quantity, portion)) as real
  }

  function AllocateProportional(total: real, quantity: real, portion: real): Result<real> {
    if total < 0.0 then Failure(NegativeAmount)
    else if quantity <= 0.0 then Failure(NotPositive)
    else if portion <= 0.0 then Failure(NotPositive)
    else if portion > quantity then Failure(PortionExceedsTotal)
    else Success(Share(total, quantity, portion))
  }

  lemma ExactShareProduct(total: real, quantity: real, portion: real)
    requires quantity != 0.0
    ensures ExactShare(total, quantity, portion) * quantity == total * portion
  {
    DivideThenMultiply(total * portion, quantity);
  }

  lemma ExactShareOfWhole(total: real, quantity: real)
    requires quantity != 0.0
    ensures ExactShare(total, quantity, quantity) == total
  {
    QuotientIsUnique(total * quantity, quantity, total);
  }

  lemma ExactShareOrder(total: real, quantity: real, smaller: real, larger: real)
    requires 0.0 <= total && 0.0 < quantity && smaller <= larger
    ensures ExactShare(total, quantity, smaller) <= ExactShare(total, quantity, larger)
  {
    MultiplyOrder(smaller, larger, total);
    DivideOrder(total * smaller, total * larger, quantity);
  }

  /** Half a unit bounds the rounding error of one allocation. */
  lemma ShareIsNear(total: real, quantity: real, portion: real)
    requires 0.0 < quantity
    ensures -0.5 <= Share(total, quantity, portion) - ExactShare(total, quantity, portion) <= 0.5
  {
    if portion == quantity {
      ExactShareOfWhole(total, quantity);
    }
  }

  lemma ShareIsNonNegative(total: real, quantity: real, portion: real)
    requires 0.0 <= total && 0.0 < quantity && 0.0 <= portion
    ensures 0.0 <= Share(total, quantity, portion)
  {
    if portion != quantity {
      ExactShareOrder(total, quantity, 0.0, portion);
      assert ExactShare(total, quantity, 0.0) == 0.0;
      RoundIsMonotone(0.0, ExactShare(total, quantity, portion));
      RoundOfInteger(0);
    }
  }

  /** A larger part of the quantity never gets a smaller share. */
  lemma ShareIsMonotone(total: real, quantity: real, smaller: real, larger: real)
    requires 0.0 <= total && 0.0 < quantity && smaller <= larger < quantity
    ensures Share(total, quantity, smaller) <= Share(total, quantity, larger)
  {
    ExactShareOrder(total, quantity, smaller, larger);
    RoundIsMonotone(ExactShare(total, quantity, smaller), ExactShare(total, quantity, larger));
  }

  lemma RoundDownWithinHalf(x: real, total: real)
    requires x < total && Fraction(total) <= 0.5
    ensures RoundHalfUp(x) <= total.Floor
  {
  }

  /** A partial allocation takes whole units, so what it leaves has the fraction it started with. */
  lemma PartialShareKeepsFraction(total: real, quantity: real, portion: real)
    requires 0.0 < quantity && portion != quantity
    ensures Fraction(total - Share(total, quantity, portion)) == Fraction(total)
  {
    var taken := RoundHalfUp(ExactShare(total, quantity, portion));
    FloorOfShift(total, taken);
  }

  lemma FloorOfShift(x: real, n: int)
    ensures (x - n as real).Floor == x.Floor - n
  {
    assert (x.Floor - n) as real == x.Floor as real - n as real;
  }

  lemma ShareOfPartIsStrict(total: real, quantity: real, portion: real)
    requires 0.0 < total && 0.0 < quantity && portion < quantity
    ensures ExactShare(total, quantity, portion) < total
  {
    ExactShareProduct(total, quantity, portion);
    MultiplyStrictOrder(portion, quantity, total);
    CancelOrder(ExactShare(total, quantity, portion), total, quantity);
  }

  lemma ShareWithinHalf(total: real, quantity: real, portion: real)
    requires 0.0 <= total && 0.0 < quantity && 0.0 < portion <= quantity && Fraction(total) <= 0.5
    ensures Share(total, quantity, portion) <= total
  {
    if portion < quantity {
      if total == 0.0 {
        QuotientIsUnique(0.0, quantity, 0.0);
        RoundOfInteger(0);
      } else {
        ShareOfPartIsStrict(total, quantity, portion);
        RoundDownWithinHalf(ExactShare(total, quantity, portion), total);
      }
    }
  }

  /** The part of the quantity whose exact share is the amount's floor plus one half. */
  function OverflowingPortion(total: real, quantity: real): real
    requires total != 0.0
  {
    quantity * (total.Floor as real + 0.5) / total
  }

  lemma OverflowingPortionShare(total: real, quantity: real, half: real, portion: real)
    requires 0.0 < half < total && 0.0 < quantity && portion * total == quantity * half
    ensures 0.0 < portion < quantity && ExactShare(total, quantity, portion) == half
  {
    CancelOrder(0.0, portion, total);
    MultiplyStrictOrder(half, total, quantity);
    CancelOrder(portion, quantity, total);
    QuotientIsUnique(total * portion, quantity, half);
  }

  lemma ShareBeyondHalf(total: real, quantity: real)
    requires 0.0 <= total && 0.0 < quantity && Fraction(total) > 0.5
    ensures 0.0 < OverflowingPortion(total, quantity) < quantity
    ensures Share(total, quantity, OverflowingPortion(total, quantity)) > total
  {
    var half := total.Floor as real + 0.5;
    var portion := OverflowingPortion(total, quantity);
    DivideThenMultiply(quantity * half, total);
    OverflowingPortionShare(total, quantity, half, portion);
    NearestIsUnique(half, RoundHalfUp(half), total.Floor + 1);
  }

  /** A larger fraction than one half leaves a finite decimal portion that is allocated more than the whole amount. */
  lemma DecimalPortionOverflows(total: real, quantity: real) returns (portion: real)
    requires 0.0 <= total && 0.0 < quantity && Fraction(total) > 0.5
    ensures IsFinite(portion) && 0.0 < portion < quantity && Share(total, quantity, portion) > total
  {
    hide Share, OverflowingPortion, IsFinite;
    ShareBeyondHalf(total, quantity);
    portion := DecimalBetween(OverflowingPortion(total, quantity), quantity);
    ShareIsMonotone(total, quantity, OverflowingPortion(total, quantity), portion);
  }

  /** No portion of the quantity is ever allocated more than the whole amount when the amount's fraction of a policy
      unit is at most one half, and otherwise some finite decimal portion is. */
  lemma NeverOverAllocates(total: real, quantity: real)
    requires 0.0 <= total && 0.0 < quantity
    ensures (forall portion :: IsFinite(portion) && 0.0 < portion <= quantity ==> Share(total, quantity, portion) <= total)
            <==> Fraction(total) <= 0.5
    ensures Fraction(total) <= 0.5 ==> forall portion :: 0.0 < portion <= quantity ==> Share(total, quantity, portion) <= total
  {
    hide Share, IsFinite;
    if Fraction(total) <= 0.5 {
      forall portion | 0.0 < portion <= quantity
        ensures Share(total, quantity, portion) <= total
      {
        ShareWithinHalf(total, quantity, portion);
      }
    } else {
      var portion := DecimalPortionOverflows(total, quantity);
    }
  }

  /** An amount of 0.6 policy units over a quantity of 12: eleven twelfths of it are allocated a whole unit. */
  lemma OverAllocationWitness()
    ensures Share(0.6, 12.0, 11.0) == 1.0
    ensures AllocateProportional(0.6 - Share(0.6, 12.0, 11.0), 1.0, 1.0) == Failure(NegativeAmount)
  {
    QuotientIsUnique(6.6, 12.0, 0.55);
    NearestIsUnique(0.55, RoundHalfUp(0.55), 1);
  }
}
