/** How far repeated partial disposals drift from the exact proportional share, and when they can go on. */
module Drift {
  import opened Outcomes
  import opened Reals
  import opened Decimals
  import opened Proportions
  import opened Sums
  import opened Pools

  /** Disposals from one pool, one after the other, with no acquisition in between. */
  function PoolRun(pool: Pool, removals: seq<real>): Result<Pool> {
    if removals == [] then Success(pool)
    else
      var before := PoolRun(pool, removals[..|removals| - 1]);
      if before.Failure? then before
      else
        var quantity := removals[|removals| - 1];
        var r := PoolDisposalResult(before.value, quantity);
        if r.Failure? then Failure(r.error) else Success(PoolAfter(before.value, quantity))
  }

  lemma {:induction false} PoolRunQuantity(pool: Pool, removals: seq<real>)
    requires WellFormedPool(pool) && PoolRun(pool, removals).Success?
    ensures WellFormedPool(PoolRun(pool, removals).value)
    ensures PoolRun(pool, removals).value.quantity == pool.quantity - Sum(removals)
    ensures forall i :: 0 <= i < |removals| ==> removals[i] > 0.0
    decreases |removals|
  {
    if removals == [] {
    } else {
      hide PoolDisposalResult, PoolAfter;
      var init, last := removals[..|removals| - 1], removals[|removals| - 1];
      PoolRunQuantity(pool, init);
      PoolDisposalConserves(PoolRun(pool, init).value, last);
      SumAppend(init, last);
      assert removals == init + [last];
    }
  }

  // -------- the drift bound --------

  /** One rounded step scales the distance to the exact share down and adds at most half a unit. */
  lemma DriftStep(basis: real, quantity: real, current: real, open: real, exact: real, portion: real,
                  share: real, exactShare: real, nextExact: real, ratio: real, bound: real)
    requires 0.0 < quantity && 0.0 < open && 0.0 < portion < open
    requires exact * quantity == basis * open && nextExact * quantity == basis * (open - portion)
    requires exactShare * open == current * portion && ratio * open == open - portion
    requires -0.5 <= share - exactShare <= 0.5
    requires -bound <= current - exact <= bound
    ensures -(bound + 0.5) <= current - share - nextExact <= bound + 0.5
  {
    CancelOrder(0.0, ratio, open);
    CancelOrder(ratio, 1.0, open);
    RatioOfRest(current, open, portion, exactShare, ratio);
    RatioOfExact(basis, quantity, open, portion, exact, nextExact, ratio);
    ScaledDown(current - exact, ratio, bound);
    DifferenceTimes(current, exact, ratio);
  }

  lemma ScaledDown(x: real, ratio: real, bound: real)
    requires 0.0 <= ratio <= 1.0 && -bound <= x <= bound
    ensures -bound <= x * ratio <= bound
  {
    var scaled, limit := x * ratio, bound * ratio;
    assert limit <= bound by { MultiplyOrder(ratio, 1.0, bound); }
    assert scaled <= limit by { MultiplyOrder(x, bound, ratio); }
    assert -limit <= scaled by { MultiplyOrder(-bound, x, ratio); }
  }

  lemma RatioOfRest(current: real, open: real, portion: real, exactShare: real, ratio: real)
    requires 0.0 < open && exactShare * open == current * portion && ratio * open == open - portion
    ensures current - exactShare == current * ratio
  {
    assert (current - exactShare) * open == current * (open - portion);
    assert current * ratio * open == current * (ratio * open);
    SameFactor(current - exactShare, current * ratio, open);
  }

  lemma SameFactor(x: real, y: real, d: real)
    requires d != 0.0 && x * d == y * d
    ensures x == y
  {
  }

  lemma RatioOfExact(basis: real, quantity: real, open: real, portion: real, exact: real, nextExact: real, ratio: real)
    requires 0.0 < quantity && ratio * open == open - portion
    requires exact * quantity == basis * open && nextExact * quantity == basis * (open - portion)
    ensures nextExact == exact * ratio
  {
    calc {
      exact * ratio * quantity;
      exact * quantity * ratio;
      basis * open * ratio;
      basis * (ratio * open);
      nextExact * quantity;
    }
    SameFactor(nextExact, exact * ratio, quantity);
  }

  /** The distance of a remaining basis from its exact share of the original pool. */
  ghost predicate WithinDrift(pool: Pool, after: Pool, bound: real)
    requires pool.quantity != 0.0
  {
    -bound <= after.basis - ExactShare(pool.basis, pool.quantity, after.quantity) <= bound
  }

  lemma DisposalDrifts(pool: Pool, before: Pool, portion: real, bound: real)
    requires 0.0 < pool.quantity && 0.0 < portion < before.quantity && WithinDrift(pool, before, bound)
    ensures WithinDrift(pool, Pool(before.quantity - portion, before.basis - Share(before.basis, before.quantity, portion)), bound + 0.5)
  {
    hide ExactShare, Share;
    ShareIsNear(before.basis, before.quantity, portion);
    ExactShareProduct(pool.basis, pool.quantity, before.quantity);
    ExactShareProduct(pool.basis, pool.quantity, before.quantity - portion);
    ExactShareProduct(before.basis, before.quantity, portion);
    DivideThenMultiply(before.quantity - portion, before.quantity);
    DriftStep(pool.basis, pool.quantity, before.basis, before.quantity,
              ExactShare(pool.basis, pool.quantity, before.quantity), portion,
              Share(before.basis, before.quantity, portion), ExactShare(before.basis, before.quantity, portion),
              ExactShare(pool.basis, pool.quantity, before.quantity - portion),
              (before.quantity - portion) / before.quantity, bound);
  }

  /** After any number of partial disposals the remaining basis is within half a unit per disposal of the exact
      proportional share of the original basis. */
  lemma {:induction false} DriftIsBounded(pool: Pool, removals: seq<real>)
    requires 0.0 < pool.quantity && PoolRun(pool, removals).Success? && 0.0 < PoolRun(pool, removals).value.quantity
    ensures WithinDrift(pool, PoolRun(pool, removals).value, |removals| as real / 2.0)
    decreases |removals|
  {
    hide PoolDisposalResult, PoolAfter, Share;
    if removals == [] {
      ExactShareOfWhole(pool.basis, pool.quantity);
    } else {
      hide WithinDrift;
      var init, portion := removals[..|removals| - 1], removals[|removals| - 1];
      var before := PoolRun(pool, init).value;
      PoolRunQuantity(pool, init);
      PoolDisposalConserves(before, portion);
      DriftIsBounded(pool, init);
      DisposalDrifts(pool, before, portion, |init| as real / 2.0);
    }
  }

  // -------- when every way of disposing of the whole succeeds --------

  /** Positive removals that together take no more than the pool holds. */
  ghost predicate WithinPool(pool: Pool, removals: seq<real>) {
    && (forall i :: 0 <= i < |removals| ==> removals[i] > 0.0)
    && Sum(removals) <= pool.quantity
  }

  lemma {:induction false} SmallFractionKeepsGoing(pool: Pool, removals: seq<real>)
    requires 0.0 < pool.quantity && 0.0 <= pool.basis && Fraction(pool.basis) <= 0.5 && WithinPool(pool, removals)
    ensures PoolRun(pool, removals).Success?
    ensures 0.0 <= PoolRun(pool, removals).value.basis
    ensures 0.0 < PoolRun(pool, removals).value.quantity ==> Fraction(PoolRun(pool, removals).value.basis) == Fraction(pool.basis)
    decreases |removals|
  {
    hide PoolDisposalResult, PoolAfter, Share, Fraction;
    if removals == [] {
    } else {
      var init, portion := removals[..|removals| - 1], removals[|removals| - 1];
      assert removals == init + [portion];
      SumAppend(init, portion);
      SmallFractionKeepsGoing(pool, init);
      var before := PoolRun(pool, init).value;
      PoolRunQuantity(pool, init);
      PoolDisposalConserves(before, portion);
      ShareWithinHalf(before.basis, before.quantity, portion);
      if portion < before.quantity {
        PartialShareKeepsFraction(before.basis, before.quantity, portion);
      }
    }
  }

  /** With a larger fraction two finite decimal removals get stuck: the first is allocated more than the basis, and
      nothing can be taken from the negative rest. */
  lemma LargeFractionGetsStuck(pool: Pool) returns (removals: seq<real>)
    requires 0.0 < pool.quantity && 0.0 <= pool.basis && Fraction(pool.basis) > 0.5
    ensures WithinPool(pool, removals) && FiniteRemovals(removals) && PoolRun(pool, removals) == Failure(NegativeAmount)
  {
    hide Share, IsFinite;
    var portion := DecimalPortionOverflows(pool.basis, pool.quantity);
    var rest := DecimalBetween(0.0, pool.quantity - portion);
    removals := [portion, rest];
    PoolDisposalConserves(pool, portion);
    assert removals[..1] == [portion] && [portion][..0] == [];
    assert PoolRun(pool, []) == Success(pool);
    assert PoolRun(pool, [portion]) == Success(PoolAfter(pool, portion));
    assert Sum(removals) == removals[0] + Sum(removals[1..]);
    assert removals[1..] == [rest];
    assert Sum([rest]) == rest + Sum([]);
  }

  ghost predicate FiniteRemovals(removals: seq<real>) {
    forall i :: 0 <= i < |removals| ==> IsFinite(removals[i])
  }

  /** Every way of disposing of a pool piece by piece, in finite decimals, succeeds exactly when the fraction of a policy
      unit in its basis is at most one half; with a larger fraction some first piece is rounded up beyond the whole
      basis, the rest is left with a negative basis, and disposing of that rest is refused. */
  lemma DisposalsNeverGetStuckExactlyWhen(pool: Pool)
    requires 0.0 < pool.quantity && 0.0 <= pool.basis
    ensures (forall removals :: WithinPool(pool, removals) && FiniteRemovals(removals) ==> PoolRun(pool, removals).Success?)
            <==> Fraction(pool.basis) <= 0.5
  {
    hide FiniteRemovals;
    if Fraction(pool.basis) <= 0.5 {
      forall removals | WithinPool(pool, removals)
        ensures PoolRun(pool, removals).Success?
      {
        SmallFractionKeepsGoing(pool, removals);
      }
    } else {
      var removals := LargeFractionGetsStuck(pool);
    }
  }
}
