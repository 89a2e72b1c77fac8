/** Histories whose bases are whole policy units: no allocation can go wrong. */
module GridRuns {
  import opened Decimals
  import opened Proportions
  import opened Sums
  import opened LotOrder
  import opened Lots
  import opened LotProperties
  import opened LotTheorems
  import opened Pools
  import opened HybridScopes
  import opened HybridTheorems
  import opened HybridMachine
  import opened BasisModel
  import opened MethodRuns
  import Text

  /** A whole number of policy units, and not negative. */
  ghost predicate WholeUnits(x: real) {
    OnGrid(x) && x >= 0.0
  }

  ghost predicate WholeLots(lots: seq<Lot>) {
    forall i :: 0 <= i < |lots| ==> WholeUnits(lots[i].basis)
  }

  ghost predicate WholeScope(scope: ScopeState) {
    match scope
    case Exact(lots) => WholeLots(lots)
    case Fallback(pool, _) => WholeUnits(pool.basis)
  }

  ghost predicate WholePosition(position: Position) {
    match position
    case LotPosition(_, lots) => WholeLots(lots)
    case PoolPosition(pool) => WholeUnits(pool.basis)
    case ScopedPosition(scopes) => forall key :: key in scopes ==> WholeScope(scopes[key])
  }

  lemma WholeUnitsAddUp(x: real, y: real)
    requires WholeUnits(x) && WholeUnits(y)
    ensures WholeUnits(x + y)
  {
    GridIsClosed(x, y);
  }

  /** Allocating part of whole units leaves whole units. */
  lemma WholeShare(total: real, quantity: real, portion: real)
    requires WholeUnits(total) && 0.0 < portion <= quantity
    ensures WholeUnits(total - Share(total, quantity, portion))
  {
    if portion == quantity {
      IntegersAreOnGrid(0);
    } else {
      ShareWithinHalf(total, quantity, portion);
      IntegersAreOnGrid(RoundHalfUp(ExactShare(total, quantity, portion)));
      GridIsClosed(total, Share(total, quantity, portion));
    }
  }

  lemma TakeKeepsWhole(c: Consumption, index: nat)
    requires index < |c.lots| && c.lots[index].quantity > 0.0 && c.remaining > 0.0 && WholeLots(c.lots)
    ensures WholeLots(TakeFromLot(c, index).lots)
  {
    var lot := c.lots[index];
    var matched := Minimum(lot.quantity, c.remaining);
    AllocationIsShare(lot.basis, lot.quantity, matched);
    WholeShare(lot.basis, lot.quantity, matched);
    hide Share, OnGrid;
  }

  lemma {:induction false} ConsumeKeepsWhole(c: Consumption, order: seq<nat>)
    requires WellFormed(c.lots) && OpenDistinct(order, c.lots) && c.remaining >= 0.0 && WholeLots(c.lots)
    ensures WholeLots(Consume(c, order).lots)
    decreases |order|
  {
    hide TakeFromLot, WholeUnits;
    if order == [] || c.remaining == 0.0 || c.error.Some? {
    } else {
      TakeConserves(c, order[0]);
      TakeKeepsWhole(c, order[0]);
      TailIsOpen(c.lots, order, TakeFromLot(c, order[0]).lots);
      ConsumeKeepsWhole(TakeFromLot(c, order[0]), order[1..]);
    }
  }

  lemma LotsAfterAreWhole(lotMethod: LotMethod, lots: seq<Lot>, quantity: real)
    requires WellFormed(lots) && WholeLots(lots)
    ensures WholeLots(LotsAfter(lotMethod, lots, quantity))
  {
    if quantity > 0.0 {
      hide DisposalOrder, Consume, WholeUnits;
      DisposalOrderIsOpen(lotMethod, lots);
      ConsumeKeepsWhole(Begin(lots, quantity), DisposalOrder(lotMethod, lots));
    }
  }

  lemma PoolAfterIsWhole(pool: Pool, quantity: real)
    requires WellFormedPool(pool) && WholeUnits(pool.basis)
    ensures WholeUnits(PoolAfter(pool, quantity).basis)
  {
    PoolDisposalConserves(pool, quantity);
    if 0.0 < quantity <= pool.quantity {
      WholeShare(pool.basis, pool.quantity, quantity);
    }
  }

  lemma {:induction false} WholeSum(s: seq<real>)
    requires forall i :: 0 <= i < |s| ==> WholeUnits(s[i])
    ensures WholeUnits(Sum(s))
  {
    if s == [] {
      IntegersAreOnGrid(0);
    } else {
      WholeSum(s[1..]);
      WholeUnitsAddUp(s[0], Sum(s[1..]));
    }
  }

  lemma OpenBasesAreWhole(lots: seq<Lot>)
    requires WholeLots(lots)
    ensures WholeUnits(TotalOpenBasis(lots)) && OpenBasesNonNegative(lots)
  {
    IntegersAreOnGrid(0);
    forall i | 0 <= i < |lots|
      ensures WholeUnits(OpenBases(lots)[i])
    {
    }
    WholeSum(OpenBases(lots));
  }

  /** In whole units a scope refuses only a quantity that is not positive or exceeds what it holds. */
  lemma WholeScopeDisposal(scope: ScopeState, quantity: real)
    requires OpenScope(scope) && WholeScope(scope)
    ensures scope.Exact? ==> NonNegativeQuantities(scope.lots)
    ensures DivisibleScope(scope)
    ensures ScopeDisposal(scope, quantity).Success? && ScopeDisposal(scope, quantity).value.0.Some? ==>
              WholeScope(ScopeDisposal(scope, quantity).value.0.value)
  {
    hide DisposalResult, LotsAfter, OpenLots, OnGrid, Share, Activated, TotalOpenBasis, TotalOpenQuantity, PoolDisposalResult, PoolAfter, ConsumeProvenance;
    match scope
    case Fallback(pool, provenance) =>
      PoolAfterIsWhole(pool, quantity);
    case Exact(lots) =>
      OpenBasesAreWhole(lots);
      if |OpenLots(lots)| == 1 {
        LotsAfterAreWhole(FIFO, lots, quantity);
      } else {
        ActivationKeepsTotals(lots);
        PoolAfterIsWhole(Pool(TotalOpenQuantity(lots), TotalOpenBasis(lots)), quantity);
      }
  }

  /** The quantity a disposal may take: all of the asset, or all of its scope. A blank key names no scope. */
  ghost function AvailableQuantity(position: Position, scopeKey: string): real {
    match position
    case LotPosition(_, lots) => TotalOpenQuantity(lots)
    case PoolPosition(pool) => pool.quantity
    case ScopedPosition(scopes) =>
      var key := Text.TrimSpace(scopeKey);
      if key != "" && key in scopes then ScopeQuantity(scopes[key]) else 0.0
  }

  /** In whole units, under every method, a disposal succeeds exactly when its quantity is positive and available, and
      it leaves whole units behind. */
  lemma WholeDisposal(position: Position, scopeKey: string, quantity: real)
    requires ValidPosition(position) && WholePosition(position)
    ensures Disposed(position, scopeKey, quantity).Success? <==> 0.0 < quantity <= AvailableQuantity(position, scopeKey)
    ensures Disposed(position, scopeKey, quantity).Success? ==> WholePosition(Disposed(position, scopeKey, quantity).value.0)
  {
    hide OpenScope, WholeUnits, DisposalResult, LotsAfter, PoolDisposalResult, PoolAfter, ScopeDisposal, DivisibleScope, TotalOpenQuantity, WholeScope;
    match position
    case LotPosition(lotMethod, lots) =>
      LotsAfterAreWhole(lotMethod, lots, quantity);
      DisposalSucceedsExactlyWhen(lotMethod, lots, quantity);
      WholeLotsAreNonNegative(lots);
      OrderIsInRange(lotMethod, lots);
    case PoolPosition(pool) =>
      PoolAfterIsWhole(pool, quantity);
      PoolDisposalConserves(pool, quantity);
      WholeIsNonNegative(pool.basis);
    case ScopedPosition(scopes) =>
      DisposalKeepsScopes(scopes, scopeKey, quantity);
      var key := Text.TrimSpace(scopeKey);
      if key in scopes {
        WholeScopeDisposal(scopes[key], quantity);
      }
  }

  lemma WholeIsNonNegative(x: real)
    requires WholeUnits(x)
    ensures x >= 0.0
  {
  }

  lemma WholeLotsAreNonNegative(lots: seq<Lot>)
    requires WholeLots(lots)
    ensures forall i :: 0 <= i < |lots| ==> lots[i].basis >= 0.0
  {
  }

  lemma WholeAcquisition(position: Position, scopeKey: string, lot: Lot)
    requires WholePosition(position) && WholeUnits(lot.basis) && Acquired(position, scopeKey, lot).Success?
    ensures WholePosition(Acquired(position, scopeKey, lot).value)
  {
    hide OnGrid;
    match position
    case LotPosition(_, _) =>
    case PoolPosition(pool) => WholeUnitsAddUp(pool.basis, lot.basis);
    case ScopedPosition(scopes) =>
      var key := Text.TrimSpace(scopeKey);
      if key in scopes && scopes[key].Fallback? {
        WholeUnitsAddUp(scopes[key].pool.basis, lot.basis);
      }
  }

  ghost predicate WholeEvents(events: seq<ScopedEvent>) {
    forall k :: 0 <= k < |events| && events[k].Acquire? ==> WholeUnits(events[k].lot.basis)
  }

  lemma {:induction false} WholeRun(costBasisMethod: CostBasisMethod, events: seq<ScopedEvent>)
    requires WholeEvents(events) && Replay(costBasisMethod, events).Success?
    ensures WholePosition(Replay(costBasisMethod, events).value.position)
    decreases |events|
  {
    if events == [] {
      IntegersAreOnGrid(0);
    } else {
      hide Acquired, Disposed, WholeUnits, WholePosition, ValidPosition;
      var init, last := events[..|events| - 1], events[|events| - 1];
      assert forall k :: 0 <= k < |init| ==> init[k] == events[k];
      WholeRun(costBasisMethod, init);
      var before := Replay(costBasisMethod, init).value;
      match last
      case Acquire(scopeKey, lot) =>
        WholeAcquisition(before.position, scopeKey, lot);
      case Remove(scopeKey, quantity) =>
        WholeDisposal(before.position, scopeKey, quantity);
    }
  }

  /** When every acquired basis is a whole number of policy units, no history under any method ever fails because of
      rounding: the next disposal succeeds exactly when its quantity is positive and available. */
  lemma WholeHistoriesFailOnlyForQuantity(costBasisMethod: CostBasisMethod, events: seq<ScopedEvent>, scopeKey: string, quantity: real)
    requires WholeEvents(events) && Replay(costBasisMethod, events).Success?
    ensures Replay(costBasisMethod, events + [Remove(scopeKey, quantity)]).Success?
            <==> 0.0 < quantity <= AvailableQuantity(Replay(costBasisMethod, events).value.position, scopeKey)
    ensures PositionBasis(Replay(costBasisMethod, events).value.position) >= 0.0
  {
    hide Acquired, Disposed, WholeEvents, WholePosition, AvailableQuantity, PositionBasis;
    WholeRun(costBasisMethod, events);
    var all := events + [Remove(scopeKey, quantity)];
    assert all[..|all| - 1] == events;
    WholeDisposal(Replay(costBasisMethod, events).value.position, scopeKey, quantity);
    WholePositionBasis(Replay(costBasisMethod, events).value.position);
  }

  lemma {:induction false} WholeScopesBasis(scopes: Scopes)
    requires forall key :: key in scopes ==> WholeScope(scopes[key])
    ensures TotalBasis(scopes) >= 0.0
    decreases |scopes|
  {
    if scopes == map[] {
    } else {
      var key :| key in scopes;
      SumScopesRemove(scopes, ScopeBasis, key);
      WholeScopesBasis(scopes - {key});
      match scopes[key]
      case Exact(lots) => OpenBasesAreWhole(lots);
      case Fallback(_, _) =>
    }
  }

  lemma WholePositionBasis(position: Position)
    requires WholePosition(position)
    ensures PositionBasis(position) >= 0.0
  {
    match position
    case LotPosition(_, lots) => OpenBasesAreWhole(lots);
    case PoolPosition(_) =>
    case ScopedPosition(scopes) => WholeScopesBasis(scopes);
  }
}
