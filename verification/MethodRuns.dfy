/** Whole histories under any of the five methods, and what they have in common. */
module MethodRuns {
  import opened Outcomes
  import opened Sums
  import opened HybridTheorems
  import opened HybridMachine
  import opened BasisModel
  import Text

  /** The position a history ends with and the disposals it reported. */
  datatype Ledger = Ledger(position: Position, disposals: seq<BasisDisposal>)

  function LedgerStep(ledger: Ledger, event: ScopedEvent): Result<Ledger>
    requires ValidPosition(ledger.position)
  {
    match event
    case Acquire(scopeKey, lot) =>
      (match Acquired(ledger.position, scopeKey, lot)
       case Failure(e) => Failure(e)
       case Success(after) => Success(Ledger(after, ledger.disposals)))
    case Remove(scopeKey, quantity) =>
      (match Disposed(ledger.position, scopeKey, quantity)
       case Failure(e) => Failure(e)
       case Success((after, disposal)) => Success(Ledger(after, ledger.disposals + [disposal])))
  }

  lemma LedgerStepKeepsValid(ledger: Ledger, event: ScopedEvent)
    requires ValidPosition(ledger.position) && LedgerStep(ledger, event).Success?
    ensures ValidPosition(LedgerStep(ledger, event).value.position)
  {
    hide ValidPosition, Acquired, Disposed;
    match event
    case Acquire(scopeKey, lot) => AcquisitionConserves(ledger.position, scopeKey, lot);
    case Remove(scopeKey, quantity) => DisposalAlwaysBalances(ledger.position, scopeKey, quantity);
  }

  /** A whole history of one asset under one method, or its first failure. */
  function Replay(costBasisMethod: CostBasisMethod, events: seq<ScopedEvent>): (r: Result<Ledger>)
    ensures r.Success? ==> ValidPosition(r.value.position)
  {
    if events == [] then
      InitialIsEmpty(costBasisMethod);
      Success(Ledger(Initial(costBasisMethod), []))
    else
      var before := Replay(costBasisMethod, events[..|events| - 1]);
      if before.Failure? then before
      else
        var after := LedgerStep(before.value, events[|events| - 1]);
        assert after.Success? ==> ValidPosition(after.value.position) by {
          if after.Success? { LedgerStepKeepsValid(before.value, events[|events| - 1]); }
        }
        after
  }

  ghost function AcquiredQuantity(events: seq<ScopedEvent>): real {
    if events == [] then 0.0
    else
      var last := events[|events| - 1];
      AcquiredQuantity(events[..|events| - 1]) + if last.Acquire? then last.lot.quantity else 0.0
  }

  ghost function AcquiredBasis(events: seq<ScopedEvent>): real {
    if events == [] then 0.0
    else
      var last := events[|events| - 1];
      AcquiredBasis(events[..|events| - 1]) + if last.Acquire? then last.lot.basis else 0.0
  }

  ghost function RemovedQuantity(events: seq<ScopedEvent>): real {
    if events == [] then 0.0
    else
      var last := events[|events| - 1];
      RemovedQuantity(events[..|events| - 1]) + if last.Remove? then last.quantity else 0.0
  }

  ghost function AllocatedBases(disposals: seq<BasisDisposal>): (s: seq<real>)
    ensures |s| == |disposals| && forall i :: 0 <= i < |disposals| ==> s[i] == disposals[i].allocatedBasis
  {
    seq(|disposals|, i requires 0 <= i < |disposals| => disposals[i].allocatedBasis)
  }

  lemma AllocatedAppend(disposals: seq<BasisDisposal>, disposal: BasisDisposal)
    ensures Sum(AllocatedBases(disposals + [disposal])) == Sum(AllocatedBases(disposals)) + disposal.allocatedBasis
  {
    assert AllocatedBases(disposals + [disposal]) == AllocatedBases(disposals) + [disposal.allocatedBasis];
    SumAppend(AllocatedBases(disposals), disposal.allocatedBasis);
  }

  /** Over any successful history, under every method, what was acquired is what was disposed of plus what is open:
      for quantity, and exactly so for basis in spite of the rounded allocations. */
  lemma {:induction false} LifetimeConservation(costBasisMethod: CostBasisMethod, events: seq<ScopedEvent>)
    requires Replay(costBasisMethod, events).Success?
    ensures var ledger := Replay(costBasisMethod, events).value;
            && AcquiredQuantity(events) == RemovedQuantity(events) + PositionQuantity(ledger.position)
            && AcquiredBasis(events) == Sum(AllocatedBases(ledger.disposals)) + PositionBasis(ledger.position)
    decreases |events|
  {
    hide ValidPosition, Acquired, Disposed, PositionQuantity, PositionBasis;
    if events == [] {
      InitialIsEmpty(costBasisMethod);
      assert AllocatedBases([]) == [];
    } else {
      var init, last := events[..|events| - 1], events[|events| - 1];
      LifetimeConservation(costBasisMethod, init);
      var before := Replay(costBasisMethod, init).value;
      match last
      case Acquire(scopeKey, lot) =>
        AcquisitionConserves(before.position, scopeKey, lot);
      case Remove(scopeKey, quantity) =>
        DisposalAlwaysBalances(before.position, scopeKey, quantity);
        AllocatedAppend(before.disposals, Disposed(before.position, scopeKey, quantity).value.1);
    }
  }

  lemma NothingLeftNoBasis(position: Position)
    requires ValidPosition(position) && PositionQuantity(position) == 0.0
    ensures PositionBasis(position) == 0.0
  {
    match position
    case LotPosition(_, lots) => NothingOpenNoBasis(lots);
    case PoolPosition(_) =>
    case ScopedPosition(scopes) => TotalQuantityIsPositive(scopes);
  }

  /** Any two methods that both get through a history agree on the open quantity, and when it is zero on the total
      basis allocated over the lifetime. */
  lemma MethodsAgreeAtZero(first: CostBasisMethod, second: CostBasisMethod, events: seq<ScopedEvent>)
    requires Replay(first, events).Success? && Replay(second, events).Success?
    ensures PositionQuantity(Replay(first, events).value.position) == PositionQuantity(Replay(second, events).value.position)
    ensures PositionQuantity(Replay(first, events).value.position) == 0.0 ==>
              Sum(AllocatedBases(Replay(first, events).value.disposals)) == Sum(AllocatedBases(Replay(second, events).value.disposals))
  {
    hide Replay, PositionQuantity, PositionBasis, ValidPosition;
    LifetimeConservation(first, events);
    LifetimeConservation(second, events);
    if PositionQuantity(Replay(first, events).value.position) == 0.0 {
      NothingLeftNoBasis(Replay(first, events).value.position);
      NothingLeftNoBasis(Replay(second, events).value.position);
    }
  }
}
