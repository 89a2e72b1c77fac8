/** Inside one scope the hybrid never allocates anything but the average cost. */
module HybridAgreement {
  import opened LotOrder
  import opened Pools
  import opened HybridScopes
  import opened HybridTheorems
  import opened HybridMachine
  import opened BasisModel
  import opened MethodRuns
  import opened Agreement
  import opened ScopePools
  import Text

  ghost predicate OneScope(events: seq<ScopedEvent>, key: string) {
    forall k :: 0 <= k < |events| ==> Text.TrimSpace(events[k].scopeKey) == key
  }

  /** Every disposal reported the same. */
  ghost predicate SameReports(a: seq<BasisDisposal>, b: seq<BasisDisposal>) {
    |a| == |b| && forall k :: 0 <= k < |a| ==> SameReport(a[k], b[k])
  }

  /** The pool holds what the scope holds. */
  ghost predicate SameAsPool(hybrid: Position, average: Position, key: string) {
    hybrid.ScopedPosition? && average == PoolPosition(ScopePool(ScopeOf(hybrid.scopes, key)))
  }

  lemma AcquiredAsPool(hybrid: Position, average: Position, scopeKey: string, lot: Lot)
    requires ValidPosition(hybrid) && SameAsPool(hybrid, average, Text.TrimSpace(scopeKey)) && Acquired(hybrid, scopeKey, lot).Success?
    ensures Acquired(average, scopeKey, lot).Success?
    ensures SameAsPool(Acquired(hybrid, scopeKey, lot).value, Acquired(average, scopeKey, lot).value, Text.TrimSpace(scopeKey))
  {
    hide ScopeAcquisition, OpenScope, ScopeQuantity, ScopeBasis, Text.TrimSpace;
    AcquisitionKeepsScope(ScopeOf(hybrid.scopes, Text.TrimSpace(scopeKey)), lot);
  }

  lemma DisposedAsPool(hybrid: Position, average: Position, scopeKey: string, quantity: real)
    requires ValidPosition(hybrid) && ValidPosition(average) && SameAsPool(hybrid, average, Text.TrimSpace(scopeKey))
    requires Disposed(hybrid, scopeKey, quantity).Success?
    ensures Disposed(average, scopeKey, quantity).Success?
    ensures var (after, disposal) := Disposed(hybrid, scopeKey, quantity).value;
            var (pool, report) := Disposed(average, scopeKey, quantity).value;
            SameAsPool(after, pool, Text.TrimSpace(scopeKey)) && SameReport(disposal, report)
  {
    hide ScopeDisposal, PoolDisposalResult, PoolAfter, OpenScope, ScopeQuantity, ScopeBasis, Text.TrimSpace;
    var key := Text.TrimSpace(scopeKey);
    DisposalKeepsScopes(hybrid.scopes, scopeKey, quantity);
    ScopeDisposalIsPooled(hybrid.scopes[key], quantity);
  }

  lemma {:induction false} RunsAsPool(events: seq<ScopedEvent>, key: string)
    requires OneScope(events, key) && Replay(ScopeLocalHybrid, events).Success?
    ensures Replay(AverageCost, events).Success?
    ensures SameAsPool(Replay(ScopeLocalHybrid, events).value.position, Replay(AverageCost, events).value.position, key)
    ensures SameReports(Replay(ScopeLocalHybrid, events).value.disposals, Replay(AverageCost, events).value.disposals)
    decreases |events|
  {
    if events == [] {
    } else {
      hide Acquired, Disposed, SameAsPool, ValidPosition, Text.TrimSpace;
      var init, last := events[..|events| - 1], events[|events| - 1];
      RunsAsPool(init, key);
      var hybrid, average := Replay(ScopeLocalHybrid, init).value, Replay(AverageCost, init).value;
      match last
      case Acquire(scopeKey, lot) => AcquiredAsPool(hybrid.position, average.position, scopeKey, lot);
      case Remove(scopeKey, quantity) => DisposedAsPool(hybrid.position, average.position, scopeKey, quantity);
    }
  }

  lemma SameReportsSameSum(a: seq<BasisDisposal>, b: seq<BasisDisposal>)
    requires SameReports(a, b)
    ensures AllocatedBases(a) == AllocatedBases(b)
  {
  }

  /** On a history within one scope that the hybrid accepts, however its lots overlap, average cost succeeds too, with the
      same allocated basis and the same transition to zero at every disposal and the same open quantity and basis: exact
      mode never changes a number inside a scope. */
  lemma HybridIsAverageCostInsideAScope(events: seq<ScopedEvent>, key: string)
    requires OneScope(events, key) && Replay(ScopeLocalHybrid, events).Success?
    ensures Replay(AverageCost, events).Success?
    ensures var hybrid, average := Replay(ScopeLocalHybrid, events).value, Replay(AverageCost, events).value;
            && SameReports(hybrid.disposals, average.disposals)
            && PositionQuantity(hybrid.position) == PositionQuantity(average.position)
            && PositionBasis(hybrid.position) == PositionBasis(average.position)
  {
    hide Replay, SameAsPool, SameReports, PositionQuantity, PositionBasis;
    RunsAsPool(events, key);
    LifetimeConservation(ScopeLocalHybrid, events);
    LifetimeConservation(AverageCost, events);
    SameReportsSameSum(Replay(ScopeLocalHybrid, events).value.disposals, Replay(AverageCost, events).value.disposals);
  }
}
