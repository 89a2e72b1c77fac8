/** Whole histories of an average-cost pool, and how far rounding takes its basis from the unrounded average. */
module PoolHistories {
  import opened Outcomes
  import opened Reals
  import opened Proportions
  import opened Pools
  import opened Drift
  import opened QueueRuns

  function PoolStep(pool: Pool, event: LotEvent): Result<Pool> {
    match event
    case Acquire(lot) => PoolAcquisition(pool, lot.quantity, lot.basis)
    case Remove(quantity) =>
      var r := PoolDisposalResult(pool, quantity);
      if r.Failure? then Failure(r.error) else Success(PoolAfter(pool, quantity))
  }

  /** The pool after a history, or the first failure. */
  function PoolHistory(events: seq<LotEvent>): Result<Pool> {
    if events == [] then Success(EMPTY_POOL)
    else
      var before := PoolHistory(events[..|events| - 1]);
      if before.Failure? then before else PoolStep(before.value, events[|events| - 1])
  }

  lemma PoolHistoryStep(before: seq<LotEvent>, event: LotEvent)
    ensures PoolHistory(before + [event]) == if PoolHistory(before).Failure? then PoolHistory(before) else PoolStep(PoolHistory(before).value, event)
  {
    assert (before + [event])[..|before|] == before;
  }

  /** The pool that never rounds: a removal takes its exact share of the basis, and all of it with the last unit. */
  ghost function Unrounded(events: seq<LotEvent>): Pool {
    if events == [] then EMPTY_POOL
    else
      var before, last := Unrounded(events[..|events| - 1]), events[|events| - 1];
      match last
      case Acquire(lot) => Pool(before.quantity + lot.quantity, before.basis + lot.basis)
      case Remove(quantity) =>
        if before.quantity <= quantity then EMPTY_POOL
        else Pool(before.quantity - quantity, UnroundedRest(before, quantity))
  }

  ghost function UnroundedRest(pool: Pool, quantity: real): real {
    if pool.quantity == 0.0 then 0.0 else ExactShare(pool.basis, pool.quantity, pool.quantity - quantity)
  }

  /** How many removals the pool has seen since it was last empty. */
  ghost function RemovalsSinceEmpty(events: seq<LotEvent>): nat {
    if events == [] then 0
    else
      var before, last := RemovalsSinceEmpty(events[..|events| - 1]), events[|events| - 1];
      match last
      case Acquire(_) => before
      case Remove(quantity) => if Unrounded(events[..|events| - 1]).quantity <= quantity then 0 else before + 1
  }

  /** The same quantity, and a basis no further away than the bound. */
  ghost predicate WithinRounding(pool: Pool, unrounded: Pool, bound: real) {
    pool.quantity == unrounded.quantity && -bound <= pool.basis - unrounded.basis <= bound
  }

  lemma RemovalRounds(pool: Pool, unrounded: Pool, portion: real, bound: real)
    requires 0.0 < portion < pool.quantity && WithinRounding(pool, unrounded, bound)
    ensures WithinRounding(Pool(pool.quantity - portion, pool.basis - Share(pool.basis, pool.quantity, portion)),
                           Pool(pool.quantity - portion, UnroundedRest(unrounded, portion)), bound + 0.5)
  {
    hide ExactShare, Share;
    var open, rest := pool.quantity, pool.quantity - portion;
    ShareIsNear(pool.basis, open, portion);
    ExactShareProduct(unrounded.basis, open, rest);
    ExactShareProduct(pool.basis, open, portion);
    DivideThenMultiply(rest, open);
    DriftStep(unrounded.basis, open, pool.basis, open, unrounded.basis, portion, Share(pool.basis, open, portion),
              ExactShare(pool.basis, open, portion), ExactShare(unrounded.basis, open, rest), rest / open, bound);
  }

  /** Over every successful history, acquisitions in between included, the basis of the pool is within half a unit for
      each removal since it was last empty of the basis an unrounded average would have left. */
  lemma {:induction false} PoolHistoryDriftIsBounded(events: seq<LotEvent>)
    requires PoolHistory(events).Success?
    ensures WellFormedPool(PoolHistory(events).value)
    ensures WithinRounding(PoolHistory(events).value, Unrounded(events), RemovalsSinceEmpty(events) as real / 2.0)
    decreases |events|
  {
    hide PoolDisposalResult, PoolAfter, UnroundedRest;
    if events == [] {
    } else {
      var init, last := events[..|events| - 1], events[|events| - 1];
      var before := PoolHistory(init).value;
      PoolHistoryDriftIsBounded(init);
      match last
      case Acquire(lot) =>
      case Remove(quantity) =>
        PoolDisposalConserves(before, quantity);
        if quantity < before.quantity {
          RemovalRounds(before, Unrounded(init), quantity, RemovalsSinceEmpty(init) as real / 2.0);
        }
    }
  }
}
