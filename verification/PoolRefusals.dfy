/** When rounding can refuse a disposal from the average-cost pool over whole histories with later acquisitions. */
module PoolRefusals {
  import opened Outcomes
  import opened Decimals
  import opened Proportions
  import opened Sums
  import opened LotOrder
  import opened Lots
  import opened Pools
  import opened QueueRuns
  import opened PoolHistories
  import opened LotDrift
  import opened LotRefusals

  ghost function Bases(acquired: seq<Lot>): (s: seq<real>)
    ensures |s| == |acquired| && forall i :: 0 <= i < |acquired| ==> s[i] == acquired[i].basis
  {
    seq(|acquired|, i requires 0 <= i < |acquired| => acquired[i].basis)
  }

  ghost function Quantities(acquired: seq<Lot>): (s: seq<real>)
    ensures |s| == |acquired| && forall i :: 0 <= i < |acquired| ==> s[i] == acquired[i].quantity
  {
    seq(|acquired|, i requires 0 <= i < |acquired| => acquired[i].quantity)
  }

  ghost predicate SmallStretch(bases: seq<real>, i: nat, j: nat)
    requires i <= j <= |bases|
  {
    Fraction(Sum(bases[i..j])) <= 0.5
  }

  /** Whatever consecutive acquisitions are pooled, their bases add up to a small fraction of a unit. */
  ghost predicate SmallStretches(bases: seq<real>) {
    forall i: nat, j: nat :: i < j <= |bases| ==> SmallStretch(bases, i, j)
  }

  // -------- small stretches --------

  /** The pool holds the quantity the history left, and the fraction of the acquisitions pooled since it was last empty. */
  ghost predicate PoolKeepsGoing(pool: Pool, events: seq<LotEvent>, since: nat) {
    var bases := Bases(AcquiredLots(events));
    && pool.quantity == Sum(AcquiredQuantities(events)) - RemovedQuantity(events) >= 0.0
    && pool.basis >= 0.0 && (pool.quantity == 0.0 ==> pool.basis == 0.0)
    && (pool.quantity > 0.0 ==> since < |bases| && Fraction(pool.basis) == Fraction(Sum(bases[since..])))
  }

  lemma FractionAdds(x: real, y: real, z: real)
    requires Fraction(x) == Fraction(y)
    ensures Fraction(x + z) == Fraction(y + z)
  {
    var n := x.Floor - y.Floor;
    assert x == y + n as real;
    assert (x + z).Floor == (y + z).Floor + n;
  }

  lemma PoolAcquisitionKeepsGoing(pool: Pool, before: seq<LotEvent>, since: nat, lot: Lot) returns (next: nat)
    requires PoolKeepsGoing(pool, before, since) && lot.quantity > 0.0 && lot.basis >= 0.0
    ensures PoolKeepsGoing(Pool(pool.quantity + lot.quantity, pool.basis + lot.basis), before + [Acquire(lot)], next)
  {
    hide Fraction;
    var bases, more := Bases(AcquiredLots(before)), before + [Acquire(lot)];
    FeasibleStep(before, Acquire(lot));
    SumAppend(AcquiredQuantities(before), lot.quantity);
    assert Bases(AcquiredLots(more)) == bases + [lot.basis];
    if pool.quantity == 0.0 {
      next := |bases|;
      assert (bases + [lot.basis])[next..] == [] + [lot.basis];
      SumAppend([], lot.basis);
    } else {
      next := since;
      assert (bases + [lot.basis])[next..] == bases[since..] + [lot.basis];
      SumAppend(bases[since..], lot.basis);
      FractionAdds(pool.basis, Sum(bases[since..]), lot.basis);
    }
  }

  lemma PoolRemovalKeepsGoing(pool: Pool, before: seq<LotEvent>, since: nat, quantity: real)
    requires PoolKeepsGoing(pool, before, since) && SmallStretches(Bases(AcquiredLots(before)))
    requires 0.0 < quantity <= pool.quantity
    ensures PoolDisposalResult(pool, quantity).Success?
    ensures PoolKeepsGoing(PoolAfter(pool, quantity), before + [Remove(quantity)], since)
  {
    hide Fraction, Share, PoolDisposalResult, PoolAfter;
    var bases := Bases(AcquiredLots(before));
    FeasibleStep(before, Remove(quantity));
    assert bases[since..|bases|] == bases[since..];
    assert SmallStretch(bases, since, |bases|);
    PoolDisposalConserves(pool, quantity);
    ShareWithinHalf(pool.basis, pool.quantity, quantity);
    if quantity < pool.quantity {
      PartialShareKeepsFraction(pool.basis, pool.quantity, quantity);
    }
  }

  lemma StretchesOfPrefix(bases: seq<real>, longer: seq<real>)
    requires bases <= longer && SmallStretches(longer)
    ensures SmallStretches(bases)
  {
    hide Fraction;
    forall i: nat, j: nat | i < j <= |bases|
      ensures SmallStretch(bases, i, j)
    {
      assert bases[i..j] == longer[i..j];
      assert SmallStretch(longer, i, j);
    }
  }

  lemma NothingIsPooled()
    ensures PoolHistory([]) == Success(EMPTY_POOL) && PoolKeepsGoing(EMPTY_POOL, [], 0)
  {
    assert AcquiredQuantities([]) == [];
  }

  lemma {:induction false} SmallStretchesAreNeverRefused(events: seq<LotEvent>) returns (since: nat)
    requires Feasible(events) && SmallStretches(Bases(AcquiredLots(events)))
    ensures PoolHistory(events).Success? && PoolKeepsGoing(PoolHistory(events).value, events, since)
    decreases |events|
  {
    hide PoolHistory, PoolKeepsGoing, Feasible, SmallStretches;
    if events == [] {
      NothingIsPooled();
      since := 0;
    } else {
      var before, last := events[..|events| - 1], events[|events| - 1];
      assert events == before + [last];
      FeasibleStep(before, last);
      StretchesOfPrefix(Bases(AcquiredLots(before)), Bases(AcquiredLots(events)));
      since := SmallStretchesAreNeverRefused(before);
      PoolHistoryStep(before, last);
      since := StepKeepsGoing(PoolHistory(before).value, before, since, last);
    }
  }

  lemma StepKeepsGoing(pool: Pool, before: seq<LotEvent>, since: nat, event: LotEvent) returns (next: nat)
    requires PoolKeepsGoing(pool, before, since) && SmallStretches(Bases(AcquiredLots(before))) && Feasible(before + [event])
    ensures PoolStep(pool, event).Success? && PoolKeepsGoing(PoolStep(pool, event).value, before + [event], next)
  {
    hide PoolDisposalResult, PoolAfter, Feasible, SmallStretches;
    FeasibleStep(before, event);
    match event
    case Acquire(lot) => next := PoolAcquisitionKeepsGoing(pool, before, since, lot);
    case Remove(quantity) =>
      next := since;
      PoolRemovalKeepsGoing(pool, before, since, quantity);
  }

  // -------- a history that gets stuck --------

  /** One lot acquired into an empty pool and removed whole. */
  lemma InAndOut(before: seq<LotEvent>, lot: Lot)
    requires PoolHistory(before) == Success(EMPTY_POOL) && ValidateAcquisition(lot).None?
    ensures PoolHistory(before + [Acquire(lot)] + [Remove(lot.quantity)]) == Success(EMPTY_POOL)
  {
    hide PoolHistory, Share, PoolDisposalResult, PoolAfter;
    PoolHistoryStep(before, Acquire(lot));
    PoolHistoryStep(before + [Acquire(lot)], Remove(lot.quantity));
    PoolDisposalConserves(Pool(lot.quantity, lot.basis), lot.quantity);
  }

  lemma {:induction false} ClearedPoolIsEmpty(acquired: seq<Lot>, n: nat)
    requires n <= |acquired| && ValidLots(acquired)
    ensures HistoryOver(Cleared(acquired, n), acquired, n)
    ensures PoolHistory(Cleared(acquired, n)) == Success(EMPTY_POOL)
    ensures RemovedQuantity(Cleared(acquired, n)) == Sum(AcquiredQuantities(Cleared(acquired, n)))
  {
    hide PoolHistory, IsFinite, Feasible, HistoryOver, RemovedQuantity, AcquiredQuantities;
    if n == 0 {
      NothingIsClosed(FIFO, acquired);
      NothingIsPooled();
    } else {
      var before, lot := Cleared(acquired, n - 1), acquired[n - 1];
      ClearedPoolIsEmpty(acquired, n - 1);
      AcquireNext(before, acquired, n - 1);
      RemoveNext(before + [Acquire(lot)], acquired, n, lot.quantity);
      InAndOut(before, lot);
    }
  }

  /** Acquisitions n up to m, one after the other. */
  ghost function Stretch(acquired: seq<Lot>, n: nat, m: nat): seq<LotEvent>
    requires n <= m <= |acquired|
  {
    if n == m then [] else Stretch(acquired, n, m - 1) + [Acquire(acquired[m - 1])]
  }

  /** The pool holds exactly acquisitions n up to m. */
  ghost predicate Pooled(events: seq<LotEvent>, acquired: seq<Lot>, n: nat, m: nat)
    requires n <= m <= |acquired|
  {
    && PoolHistory(events) == Success(Pool(Sum(Quantities(acquired)[n..m]), Sum(Bases(acquired)[n..m])))
    && Sum(AcquiredQuantities(events)) == RemovedQuantity(events) + Sum(Quantities(acquired)[n..m])
  }

  lemma PoolNext(events: seq<LotEvent>, acquired: seq<Lot>, n: nat, m: nat)
    requires n <= m < |acquired| && ValidLots(acquired) && HistoryOver(events, acquired, m) && Pooled(events, acquired, n, m)
    ensures Pooled(events + [Acquire(acquired[m])], acquired, n, m + 1)
  {
    hide PoolHistory, IsFinite, HistoryOver, RemovedQuantity, AcquiredQuantities, Sum;
    var lot := acquired[m];
    AcquireNext(events, acquired, m);
    PoolHistoryStep(events, Acquire(lot));
    assert Quantities(acquired)[n..m + 1] == Quantities(acquired)[n..m] + [lot.quantity];
    assert Bases(acquired)[n..m + 1] == Bases(acquired)[n..m] + [lot.basis];
    SumAppend(Quantities(acquired)[n..m], lot.quantity);
    SumAppend(Bases(acquired)[n..m], lot.basis);
  }

  lemma ClearedIsPooled(acquired: seq<Lot>, n: nat)
    requires n <= |acquired| && ValidLots(acquired)
    ensures HistoryOver(Cleared(acquired, n), acquired, n) && Pooled(Cleared(acquired, n), acquired, n, n)
  {
    hide PoolHistory, IsFinite, HistoryOver, RemovedQuantity, AcquiredQuantities;
    ClearedPoolIsEmpty(acquired, n);
    assert Quantities(acquired)[n..n] == [] && Bases(acquired)[n..n] == [];
  }

  lemma {:induction false} StretchIsPooled(acquired: seq<Lot>, n: nat, m: nat)
    requires n <= m <= |acquired| && ValidLots(acquired)
    ensures HistoryOver(Cleared(acquired, n) + Stretch(acquired, n, m), acquired, m)
    ensures Pooled(Cleared(acquired, n) + Stretch(acquired, n, m), acquired, n, m)
  {
    hide HistoryOver, Pooled, ValidLots, Cleared;
    if n == m {
      ClearedIsPooled(acquired, n);
      assert Cleared(acquired, n) + [] == Cleared(acquired, n);
    } else {
      StretchIsPooled(acquired, n, m - 1);
      var before := Cleared(acquired, n) + Stretch(acquired, n, m - 1);
      assert before + [Acquire(acquired[m - 1])] == Cleared(acquired, n) + Stretch(acquired, n, m);
      AcquireNext(before, acquired, m - 1);
      PoolNext(before, acquired, n, m - 1);
    }
  }

  lemma {:induction false} AcquisitionsFollowFailure(events: seq<LotEvent>, acquired: seq<Lot>, n: nat)
    requires n <= |acquired| && ValidLots(acquired) && PoolHistory(events).Failure? && HistoryOver(events, acquired, n)
    ensures PoolHistory(events + Acquisitions(acquired, n)).Failure?
    ensures HistoryOver(events + Acquisitions(acquired, n), acquired, |acquired|)
    decreases |acquired| - n
  {
    hide PoolHistory, HistoryOver, IsFinite, ValidateAcquisition;
    if n == |acquired| {
      assert events + [] == events;
    } else {
      AcquireNext(events, acquired, n);
      PoolHistoryStep(events, Acquire(acquired[n]));
      AcquisitionsFollowFailure(events + [Acquire(acquired[n])], acquired, n + 1);
      Regrouped(events, Acquire(acquired[n]), Acquisitions(acquired, n + 1));
    }
  }

  lemma PositiveStretch(acquired: seq<Lot>, i: nat, j: nat)
    requires ValidLots(acquired) && i < j <= |acquired|
    ensures Sum(Quantities(acquired)[i..j]) > 0.0 && Sum(Bases(acquired)[i..j]) >= 0.0
  {
    hide IsFinite;
    var quantities := Quantities(acquired)[i..j];
    SumIsNonNegative(quantities);
    SumIsNonNegative(Bases(acquired)[i..j]);
    assert quantities[0] > 0.0;
  }

  /** A stretch with a large fraction is pooled, over-allocated by a first removal, and refuses the second. */
  lemma LargeStretchIsRefused(acquired: seq<Lot>, i: nat, j: nat) returns (events: seq<LotEvent>)
    requires ValidLots(acquired) && i < j <= |acquired| && !SmallStretch(Bases(acquired), i, j)
    ensures HistoryOver(events, acquired, |acquired|) && PoolHistory(events).Failure?
  {
    hide PoolHistory, HistoryOver, IsFinite, Share, Fraction, ValidLots, Sum, RemovedQuantity, AcquiredQuantities;
    var pool := Pool(Sum(Quantities(acquired)[i..j]), Sum(Bases(acquired)[i..j]));
    PositiveStretch(acquired, i, j);
    StretchIsPooled(acquired, i, j);
    var started := Cleared(acquired, i) + Stretch(acquired, i, j);
    var first := DecimalPortionOverflows(pool.basis, pool.quantity);
    var second := DecimalBetween(0.0, pool.quantity - first);
    RemoveNext(started, acquired, j, first);
    PoolHistoryStep(started, Remove(first));
    PoolDisposalConserves(pool, first);
    RemoveNext(started + [Remove(first)], acquired, j, second);
    PoolHistoryStep(started + [Remove(first)], Remove(second));
    PoolDisposalConserves(PoolAfter(pool, first), second);
    events := started + [Remove(first)] + [Remove(second)];
    AcquisitionsFollowFailure(events, acquired, j);
    events := events + Acquisitions(acquired, j);
  }

  /** For the average-cost pool: no history over the given acquisitions is refused for rounding if and only if the bases
      of every run of consecutive acquisitions add up to a fraction of a policy unit of at most one half. */
  lemma PoolHistoriesAreNeverRefusedExactlyWhen(acquired: seq<Lot>)
    requires ValidLots(acquired)
    ensures (forall events :: HistoryOver(events, acquired, |acquired|) ==> PoolHistory(events).Success?) <==> SmallStretches(Bases(acquired))
  {
    hide PoolHistory, Feasible, FiniteEvents, SmallStretch, ValidLots;
    assert acquired[..|acquired|] == acquired;
    assert Bases(StoredLots(acquired)) == Bases(acquired);
    if SmallStretches(Bases(acquired)) {
      forall events | HistoryOver(events, acquired, |acquired|)
        ensures PoolHistory(events).Success?
      {
        var since := SmallStretchesAreNeverRefused(events);
      }
    } else {
      var i: nat, j: nat :| i < j <= |acquired| && !SmallStretch(Bases(acquired), i, j);
      var events := LargeStretchIsRefused(acquired, i, j);
    }
  }
}
