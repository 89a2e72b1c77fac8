/** A hybrid scope against an average-cost pool: whatever mode it is in, a disposal takes what the pool would. */
module ScopePools {
  import opened Outcomes
  import opened Reals
  import opened Decimals
  import opened Proportions
  import opened Sums
  import opened LotOrder
  import opened Lots
  import opened LotProperties
  import opened SingleOpenLot
  import opened Pools
  import opened QueueRuns
  import opened LotDrift
  import opened LotRefusals
  import opened PoolHistories
  import opened PoolRefusals
  import opened HybridScopes
  import opened HybridTheorems
  import opened HybridDecomposition
  import Text

  /** The open quantity and basis of a scope, which an unopened one has none of. */
  ghost function ScopePool(scope: Option<ScopeState>): Pool {
    match scope
    case None => EMPTY_POOL
    case Some(open) => Pool(ScopeQuantity(open), ScopeBasis(open))
  }

  // -------- one step --------

  lemma SingleLotIsPooled(lots: seq<Lot>, quantity: real)
    requires OpenScope(Exact(lots)) && |OpenLots(lots)| == 1 && ScopeDisposal(Exact(lots), quantity).Success?
    ensures ScopeDisposal(Exact(lots), quantity).value.1.allocatedBasis == Share(TotalOpenBasis(lots), TotalOpenQuantity(lots), quantity)
    ensures TotalOpenBasis(lots) >= 0.0
  {
    hide DisposalResult, LotsAfter, OpenLots, TotalOpenQuantity, TotalOpenBasis, Share;
    SingleOpenPosition(lots);
    var i :| 0 <= i < |lots| && lots[i].quantity != 0.0;
    OnlyOpenDisposal(FIFO, lots, i, quantity);
    OnlyOpenTotals(lots, i);
  }

  lemma ActivationIsPooled(lots: seq<Lot>, quantity: real)
    requires OpenScope(Exact(lots)) && |OpenLots(lots)| != 1 && ScopeDisposal(Exact(lots), quantity).Success?
    ensures ScopeDisposal(Exact(lots), quantity).value.1.allocatedBasis == Share(TotalOpenBasis(lots), TotalOpenQuantity(lots), quantity)
    ensures TotalOpenBasis(lots) >= 0.0
  {
    hide OpenLots, Activated, FallbackDisposal, TotalOpenQuantity, TotalOpenBasis, Share;
    ActivationKeepsTotals(lots);
    var fallback := Activated(lots).value;
    FallbackDisposalKeeps(fallback.pool, fallback.provenance, quantity);
  }

  /** A disposal a scope accepts, a pool of the scope's quantity and basis accepts too; both allocate the same basis and
      leave the same quantity and basis. */
  lemma ScopeDisposalIsPooled(scope: ScopeState, quantity: real)
    requires OpenScope(scope)
    ensures scope.Exact? ==> NonNegativeQuantities(scope.lots)
    ensures ScopeDisposal(scope, quantity).Success? ==>
              var pool := ScopePool(Some(scope));
              var (next, disposal) := ScopeDisposal(scope, quantity).value;
              && PoolDisposalResult(pool, quantity).Success?
              && PoolDisposalResult(pool, quantity).value.allocatedBasis == disposal.allocatedBasis
              && PoolAfter(pool, quantity) == ScopePool(next)
              && (disposal.reachedZero <==> PoolDisposalResult(pool, quantity).value.remainingQuantity == 0.0)
  {
    OpenScopeHasNonNegativeQuantities(scope);
    hide ScopeDisposal, FallbackDisposal, PoolDisposalResult, PoolAfter, TotalOpenQuantity, TotalOpenBasis, OpenLots, Share;
    DisposalKeepsScope(scope, quantity);
    if ScopeDisposal(scope, quantity).Success? {
      match scope {
        case Fallback(pool, provenance) =>
          FallbackDisposalKeeps(pool, provenance, quantity);
          InFallback(pool, provenance, quantity);
        case Exact(lots) =>
          if |OpenLots(lots)| == 1 {
            SingleLotIsPooled(lots, quantity);
          } else {
            ActivationIsPooled(lots, quantity);
          }
      }
      PoolDisposalConserves(ScopePool(Some(scope)), quantity);
    }
  }

  lemma InFallback(pool: Pool, provenance: seq<ProvenanceLot>, quantity: real)
    ensures ScopeDisposal(Fallback(pool, provenance), quantity) == FallbackDisposal(pool, provenance, quantity)
  {
  }

  // -------- whole histories of one scope --------

  function AsScopeEvent(event: LotEvent): ScopeEvent {
    match event
    case Acquire(lot) => Add(lot)
    case Remove(quantity) => Take(quantity)
  }

  /** The same history, as the events of a scope. */
  function AsScopeEvents(events: seq<LotEvent>): (s: seq<ScopeEvent>)
    ensures |s| == |events| && forall i :: 0 <= i < |s| ==> s[i] == AsScopeEvent(events[i])
  {
    seq(|events|, i requires 0 <= i < |events| => AsScopeEvent(events[i]))
  }

  lemma ScopeEventStep(before: seq<LotEvent>, event: LotEvent)
    ensures ScopeRun(AsScopeEvents(before + [event]))
            == if ScopeRun(AsScopeEvents(before)).Failure? then ScopeRun(AsScopeEvents(before))
               else ScopeStep(ScopeRun(AsScopeEvents(before)).value, AsScopeEvent(event))
  {
    assert AsScopeEvents(before + [event]) == AsScopeEvents(before) + [AsScopeEvent(event)];
    ScopeRunStep(AsScopeEvents(before), AsScopeEvent(event));
  }

  lemma ScopeStepIsPooled(history: ScopeHistory, event: LotEvent)
    requires OpenIfAny(history.scope) && ScopeStep(history, AsScopeEvent(event)).Success?
    ensures PoolStep(ScopePool(history.scope), event) == Success(ScopePool(ScopeStep(history, AsScopeEvent(event)).value.scope))
  {
    hide ScopeAcquisition, ScopeDisposal, PoolDisposalResult, PoolAfter, OpenScope, ScopeQuantity, ScopeBasis;
    match event
    case Acquire(lot) => AcquisitionKeepsScope(history.scope, lot);
    case Remove(quantity) => ScopeDisposalIsPooled(history.scope.value, quantity);
  }

  /** A history a scope accepts is one the pool accepts, and at its end both hold the same quantity and basis. */
  lemma {:induction false} ScopeRunIsPooled(events: seq<LotEvent>)
    requires ScopeRun(AsScopeEvents(events)).Success?
    ensures PoolHistory(events) == Success(ScopePool(ScopeRun(AsScopeEvents(events)).value.scope))
    decreases |events|
  {
    hide ScopeRun, ScopeStep, PoolHistory, PoolStep, ScopePool;
    if events == [] {
      NothingInScope();
    } else {
      var init, last := events[..|events| - 1], events[|events| - 1];
      assert events == init + [last];
      ScopeEventStep(init, last);
      ScopeRunIsPooled(init);
      PoolHistoryStep(init, last);
      ScopeStepIsPooled(ScopeRun(AsScopeEvents(init)).value, last);
    }
  }

  lemma NothingInScope()
    ensures AsScopeEvents([]) == [] && ScopeRun([]) == Success(ScopeHistory(None, []))
    ensures PoolHistory([]) == Success(ScopePool(None))
  {
  }

  /** The drift of the pool is the drift of every scope, in either mode. */
  lemma ScopeDriftIsBounded(events: seq<LotEvent>)
    requires ScopeRun(AsScopeEvents(events)).Success?
    ensures WithinRounding(ScopePool(ScopeRun(AsScopeEvents(events)).value.scope), Unrounded(events), RemovalsSinceEmpty(events) as real / 2.0)
  {
    hide ScopeRun, ScopePool, PoolHistory, WithinRounding, Unrounded, RemovalsSinceEmpty;
    ScopeRunIsPooled(events);
    PoolHistoryDriftIsBounded(events);
  }

  // -------- when a pool's history is a scope's --------

  /** In exact mode no lot is negative, and each has kept its small fraction or closed. */
  ghost predicate SmallScope(scope: Option<ScopeState>) {
    scope.Some? && scope.value.Exact? ==>
      forall i :: 0 <= i < |scope.value.lots| ==> scope.value.lots[i].basis >= 0.0 && Fraction(scope.value.lots[i].basis) <= 0.5
  }

  lemma SmallAcquisition(scope: Option<ScopeState>, lot: Lot)
    requires SmallScope(scope) && ValidateAcquisition(lot).None? && Fraction(lot.basis) <= 0.5
    requires ScopeAcquisition(scope, lot).Success?
    ensures SmallScope(Some(ScopeAcquisition(scope, lot).value))
  {
    hide Fraction;
  }

  lemma SmallDisposal(scope: ScopeState, quantity: real)
    requires OpenScope(scope) && SmallScope(Some(scope))
    ensures scope.Exact? ==> NonNegativeQuantities(scope.lots)
    ensures PoolDisposalResult(ScopePool(Some(scope)), quantity).Success? ==> ScopeDisposal(scope, quantity).Success?
    ensures ScopeDisposal(scope, quantity).Success? ==> SmallScope(ScopeDisposal(scope, quantity).value.0)
  {
    OpenScopeHasNonNegativeQuantities(scope);
    hide ScopeDisposal, PoolDisposalResult, TotalOpenQuantity, TotalOpenBasis, OpenLots, Fraction;
    DisposalKeepsScope(scope, quantity);
    PoolDisposalConserves(ScopePool(Some(scope)), quantity);
    if ScopeDisposal(scope, quantity).Success? && scope.Exact? && |OpenLots(scope.lots)| == 1 {
      SmallLotDisposal(scope.lots, quantity);
    }
  }

  lemma SmallLotDisposal(lots: seq<Lot>, quantity: real)
    requires OpenScope(Exact(lots)) && SmallScope(Some(Exact(lots))) && |OpenLots(lots)| == 1 && ScopeDisposal(Exact(lots), quantity).Success?
    ensures SmallScope(ScopeDisposal(Exact(lots), quantity).value.0)
  {
    hide DisposalResult, LotsAfter, OpenLots, TotalOpenQuantity, Fraction, LotWithout;
    SingleOpenPosition(lots);
    var i :| 0 <= i < |lots| && lots[i].quantity != 0.0;
    OnlyOpenDisposal(FIFO, lots, i, quantity);
    TakingKeepsGoing(lots[i], quantity);
  }

  /** With small fractions in every acquired basis the converse holds: a history the pool accepts the scope accepts. */
  lemma {:induction false} PooledHistoriesAreAccepted(events: seq<LotEvent>)
    requires PoolHistory(events).Success? && Feasible(events) && SmallFractions(AcquiredLots(events))
    ensures ScopeRun(AsScopeEvents(events)).Success? && SmallScope(ScopeRun(AsScopeEvents(events)).value.scope)
    decreases |events|
  {
    hide ScopeRun, ScopeStep, PoolHistory, PoolStep, ScopePool, SmallScope, Feasible, Fraction;
    if events == [] {
      NothingInScope();
      NothingIsSmall();
    } else {
      var init, last := events[..|events| - 1], events[|events| - 1];
      assert events == init + [last];
      FeasibleStep(init, last);
      assert forall i :: 0 <= i < |AcquiredLots(init)| ==> AcquiredLots(init)[i] == AcquiredLots(events)[i];
      PoolHistoryStep(init, last);
      PooledHistoriesAreAccepted(init);
      ScopeRunIsPooled(init);
      ScopeEventStep(init, last);
      if last.Acquire? {
        assert AcquiredLots(events)[|AcquiredLots(init)|] == Stored(last.lot);
      }
      SmallStep(ScopeRun(AsScopeEvents(init)).value, last);
    }
  }

  lemma NothingIsSmall()
    ensures SmallScope(None)
  {
  }

  lemma SmallStep(history: ScopeHistory, event: LotEvent)
    requires OpenIfAny(history.scope) && SmallScope(history.scope) && PoolStep(ScopePool(history.scope), event).Success?
    requires event.Acquire? ==> ValidateAcquisition(event.lot).None? && Fraction(event.lot.basis) <= 0.5
    ensures ScopeStep(history, AsScopeEvent(event)).Success?
    ensures SmallScope(ScopeStep(history, AsScopeEvent(event)).value.scope)
  {
    hide ScopeAcquisition, ScopeDisposal, OpenScope, SmallScope, Fraction, ValidateAcquisition;
    match event
    case Acquire(lot) =>
      AcquisitionKeepsScope(history.scope, lot);
      SmallAcquisition(history.scope, lot);
    case Remove(quantity) =>
      if history.scope.Some? {
        SmallDisposal(history.scope.value, quantity);
      }
  }

  /** Four units for three quarters of a policy unit, three of them sold, one more bought for a whole unit, one sold. */
  ghost function ToppedUp(): seq<LotEvent> {
    [Acquire(Lot("a", 1, 1, 4.0, 0.75)), Remove(3.0), Acquire(Lot("b", 1, 2, 1.0, 1.0)), Remove(1.0)]
  }

  /** Without small fractions the converse fails: the first sale is allocated a whole unit and leaves a negative lot; the
      later purchase tops the pool up, but the scope cannot pool the negative lot. */
  lemma ToppedUpLotsAreRefused()
    ensures PoolHistory(ToppedUp()).Success? && ScopeRun(AsScopeEvents(ToppedUp())).Failure?
  {
    hide Share, PoolHistory, ScopeRun, ScopeDisposal;
    ToppedUpPool();
    var start, second := ToppedUp()[..2], ToppedUp()[2];
    assert ToppedUp() == start + [second] + [ToppedUp()[3]];
    NegativeLotIsLeft();
    ScopeEventStep(start, second);
    ScopeEventStep(start + [second], ToppedUp()[3]);
    TrimmedLetters();
    var left := Lot("a", 1, 1, 1.0, -0.25);
    assert ScopeStep(ScopeRun(AsScopeEvents(start)).value, AsScopeEvent(second)).value.scope == Some(Exact([left] + [Lot("b", 1, 2, 1.0, 1.0)]));
    var lots := [left] + [Lot("b", 1, 2, 1.0, 1.0)];
    assert lots[0].quantity != 0.0 && lots[0].basis < 0.0;
    DisposalKeepsScope(Exact(lots), 1.0);
  }

  lemma TrimmedLetters()
    ensures Text.TrimSpace("a") == "a" && Text.TrimSpace("b") == "b"
  {
  }

  lemma RoundedThreeQuarters()
    ensures Share(0.75, 4.0, 3.0) == 1.0 && Share(0.75, 2.0, 1.0) == 0.0
  {
    QuotientIsUnique(2.25, 4.0, 0.5625);
    QuotientIsUnique(0.75, 2.0, 0.375);
    NearestIsUnique(0.5625, RoundHalfUp(0.5625), 1);
    NearestIsUnique(0.375, RoundHalfUp(0.375), 0);
  }

  lemma ToppedUpSales()
    ensures PoolStep(Pool(4.0, 0.75), Remove(3.0)) == Success(Pool(1.0, -0.25))
    ensures PoolStep(Pool(2.0, 0.75), Remove(1.0)) == Success(Pool(1.0, 0.75))
  {
    hide Share;
    RoundedThreeQuarters();
  }

  lemma ToppedUpPool()
    ensures PoolHistory(ToppedUp()).Success?
  {
    hide PoolDisposalResult, PoolAfter, PoolHistory;
    ToppedUpSales();
    NothingInScope();
    var first, second, third, fourth := ToppedUp()[0], ToppedUp()[1], ToppedUp()[2], ToppedUp()[3];
    PoolHistoryStep([], first);
    PoolHistoryStep([] + [first], second);
    PoolHistoryStep([] + [first] + [second], third);
    PoolHistoryStep([] + [first] + [second] + [third], fourth);
    assert ToppedUp() == [] + [first] + [second] + [third] + [fourth];
  }

  lemma NegativeLotIsLeft()
    ensures ScopeRun(AsScopeEvents(ToppedUp()[..2])).Success?
    ensures ScopeRun(AsScopeEvents(ToppedUp()[..2])).value.scope == Some(Exact([Lot("a", 1, 1, 1.0, -0.25)]))
  {
    hide ScopeRun, ScopeDisposal;
    TrimmedLetters();
    NothingInScope();
    SoldLot();
    var bought := ToppedUp()[0];
    assert ToppedUp()[..2] == [] + [bought] + [Remove(3.0)];
    ScopeEventStep([], bought);
    ScopeEventStep([] + [bought], Remove(3.0));
    assert ScopeRun(AsScopeEvents([] + [bought])).value.scope == Some(Exact([Lot("a", 1, 1, 4.0, 0.75)]));
  }

  lemma SoldLot()
    ensures ScopeDisposal(Exact([Lot("a", 1, 1, 4.0, 0.75)]), 3.0).Success?
    ensures ScopeDisposal(Exact([Lot("a", 1, 1, 4.0, 0.75)]), 3.0).value.0 == Some(Exact([Lot("a", 1, 1, 1.0, -0.25)]))
  {
    hide Share, DisposalResult, LotsAfter, TotalOpenQuantity;
    RoundedThreeQuarters();
    var lots, left := [Lot("a", 1, 1, 4.0, 0.75)], [Lot("a", 1, 1, 1.0, -0.25)];
    OnlyOpenDisposal(FIFO, lots, 0, 3.0);
    assert LotsAfter(FIFO, lots, 3.0) == left;
    OnlyOpenTotals(left, 0);
    assert lots[..0] == [];
    assert |OpenLots(lots)| == 1;
  }

  // -------- when rounding can refuse --------

  lemma SmallStretchesAreSmall(acquired: seq<Lot>)
    requires SmallStretches(Bases(acquired))
    ensures SmallFractions(acquired)
  {
    hide Fraction;
    var bases := Bases(acquired);
    forall i | 0 <= i < |acquired|
      ensures Fraction(acquired[i].basis) <= 0.5
    {
      assert SmallStretch(bases, i, i + 1);
      assert bases[i..i + 1] == [] + [bases[i]];
      SumAppend([], bases[i]);
    }
  }

  lemma SmallHistoryIsAccepted(events: seq<LotEvent>)
    requires Feasible(events) && SmallStretches(Bases(AcquiredLots(events)))
    ensures ScopeRun(AsScopeEvents(events)).Success?
  {
    hide Feasible, SmallStretches, PoolHistory, ScopeRun;
    var since := SmallStretchesAreNeverRefused(events);
    SmallStretchesAreSmall(AcquiredLots(events));
    PooledHistoriesAreAccepted(events);
  }

  /** For one scope of the hybrid the condition is the pool's: no history over the given acquisitions is refused for
      rounding if and only if the bases of every run of consecutive acquisitions add up to a fraction of a policy unit of
      at most one half. */
  lemma ScopeHistoriesAreNeverRefusedExactlyWhen(acquired: seq<Lot>)
    requires ValidLots(acquired)
    ensures (forall events :: HistoryOver(events, acquired, |acquired|) ==> ScopeRun(AsScopeEvents(events)).Success?)
            <==> SmallStretches(Bases(acquired))
  {
    hide ScopeRun, PoolHistory, Feasible, FiniteEvents, SmallStretch, ValidLots;
    assert acquired[..|acquired|] == acquired;
    assert Bases(StoredLots(acquired)) == Bases(acquired);
    if SmallStretches(Bases(acquired)) {
      forall events | HistoryOver(events, acquired, |acquired|)
        ensures ScopeRun(AsScopeEvents(events)).Success?
      {
        SmallHistoryIsAccepted(events);
      }
    } else {
      var i: nat, j: nat :| i < j <= |acquired| && !SmallStretch(Bases(acquired), i, j);
      var events := LargeStretchIsRefused(acquired, i, j);
      if ScopeRun(AsScopeEvents(events)).Success? {
        ScopeRunIsPooled(events);
      }
    }
  }
}
