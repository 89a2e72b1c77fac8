/** What every step of one hybrid scope keeps, and the modes it moves through. */
module HybridTheorems {
  import opened Outcomes
  import opened Proportions
  import opened Sums
  import opened LotOrder
  import opened Lots
  import opened LotProperties
  import opened LotTheorems
  import opened Pools
  import opened HybridScopes

  /** An acquisition is refused only by its own validation.  It starts a scope in exact mode and never changes the
      mode of an open one. */
  lemma AcquisitionKeepsScope(scope: Option<ScopeState>, lot: Lot)
    requires scope.Some? ==> OpenScope(scope.value)
    ensures ScopeAcquisition(scope, lot).Success? <==> ValidateAcquisition(lot).None?
    ensures ScopeAcquisition(scope, lot).Success? ==>
              var next := ScopeAcquisition(scope, lot).value;
              && OpenScope(next)
              && (next.Fallback? <==> scope.Some? && scope.value.Fallback?)
              && ScopeQuantity(next) == (if scope.Some? then ScopeQuantity(scope.value) else 0.0) + lot.quantity
              && ScopeBasis(next) == (if scope.Some? then ScopeBasis(scope.value) else 0.0) + lot.basis
  {
    if ValidateAcquisition(lot).None? {
      match scope
      case None =>
        StartedScope(lot);
      case Some(Exact(lots)) =>
        TotalsAppend(lots, Stored(lot));
      case Some(Fallback(pool, provenance)) =>
        LargerProvenance(provenance, ProvenanceOf(lot));
    }
  }

  lemma StartedScope(lot: Lot)
    requires ValidateAcquisition(lot).None?
    ensures OpenScope(Exact([Stored(lot)]))
    ensures ScopeQuantity(Exact([Stored(lot)])) == lot.quantity && ScopeBasis(Exact([Stored(lot)])) == lot.basis
  {
    TotalsAppend([], Stored(lot));
    assert [] + [Stored(lot)] == [Stored(lot)];
    assert OpenQuantities([]) == [] && OpenBases([]) == [];
  }

  lemma LargerProvenance(provenance: seq<ProvenanceLot>, added: ProvenanceLot)
    requires NonNegativeProvenance(provenance) && added.quantity >= 0.0
    ensures var sorted := SortProvenance(provenance + [added]);
            && NonNegativeProvenance(sorted) && OldestFirst(sorted)
            && Sum(ProvenanceQuantities(sorted)) == Sum(ProvenanceQuantities(provenance)) + added.quantity
  {
    hide SortProvenance, OldestFirst;
    var all := provenance + [added];
    SortKeepsNonNegative(all);
    SortKeepsProvenanceTotal(all);
    SortedProvenanceIsOldestFirst(all);
    assert ProvenanceQuantities(all) == ProvenanceQuantities(provenance) + [added.quantity];
    SumAppend(ProvenanceQuantities(provenance), added.quantity);
  }

  // -------- disposals --------

  /** No basis a disposal of this scope has to divide is negative. */
  ghost predicate DivisibleScope(scope: ScopeState) {
    match scope
    case Exact(lots) => OpenBasesNonNegative(lots)
    case Fallback(pool, _) => pool.basis >= 0.0
  }

  ghost predicate DisposalKeeps(scope: ScopeState, quantity: real, next: Option<ScopeState>, disposal: HybridDisposal) {
    && (disposal.reachedZero <==> next.None?)
    && (next.None? <==> quantity == ScopeQuantity(scope))
    && (next.None? ==> disposal.allocatedBasis == ScopeBasis(scope))
    && (next.Some? ==>
          && OpenScope(next.value)
          && ScopeQuantity(next.value) == ScopeQuantity(scope) - quantity
          && ScopeBasis(next.value) == ScopeBasis(scope) - disposal.allocatedBasis)
  }

  lemma FallbackDisposalKeeps(pool: Pool, provenance: seq<ProvenanceLot>, quantity: real)
    requires OpenScope(Fallback(pool, provenance))
    ensures FallbackDisposal(pool, provenance, quantity).Success? <==> 0.0 < quantity <= pool.quantity && pool.basis >= 0.0
    ensures FallbackDisposal(pool, provenance, quantity).Failure? ==>
              FallbackDisposal(pool, provenance, quantity).error in {NotPositive, ExceedsOpenQuantity, NegativeAmount}
    ensures FallbackDisposal(pool, provenance, quantity).Success? ==>
              var (next, disposal) := FallbackDisposal(pool, provenance, quantity).value;
              && DisposalKeeps(Fallback(pool, provenance), quantity, next, disposal)
              && (next.Some? ==> next.value.Fallback?)
              && disposal.allocatedBasis == Share(pool.basis, pool.quantity, quantity)
              && disposal.matches == []
  {
    hide OldestFirst, Share, ConsumeProvenance, ProvenanceQuantities;
    PoolDisposalConserves(pool, quantity);
    if 0.0 < quantity <= pool.quantity && pool.basis >= 0.0 {
      ConsumingProvenance(provenance, quantity);
      ConsumedStaysOldestFirst(provenance, quantity);
    }
  }

  lemma ConsumedStaysOldestFirst(provenance: seq<ProvenanceLot>, quantity: real)
    requires OldestFirst(provenance)
    ensures OldestFirst(ConsumeProvenance(provenance, quantity).0)
  {
    hide CompareChronology;
    ConsumingKeepsPlaces(provenance, quantity);
  }

  lemma NothingOpenNoBasis(lots: seq<Lot>)
    requires WellFormed(lots) && TotalOpenQuantity(lots) == 0.0
    ensures TotalOpenBasis(lots) == 0.0
  {
    SumIsNonNegative(OpenQuantities(lots));
    assert forall i :: 0 <= i < |lots| ==> OpenQuantities(lots)[i] == 0.0;
    SumOfZeros(OpenBases(lots));
  }

  lemma OpenScopeHasNonNegativeQuantities(scope: ScopeState)
    requires OpenScope(scope)
    ensures scope.Exact? ==> NonNegativeQuantities(scope.lots)
  {
  }

  /** With one lot open, "reached" can only mean that lot. */
  lemma SingleLotReached(lots: seq<Lot>, quantity: real)
    requires NonNegativeQuantities(lots) && |OpenLots(lots)| == 1 && quantity > 0.0
    ensures InRange(DisposalOrder(FIFO, lots), lots)
    ensures ReachedBasesNonNegative(lots, DisposalOrder(FIFO, lots), quantity) <==> OpenBasesNonNegative(lots)
  {
    hide DisposalOrder;
    var order := DisposalOrder(FIFO, lots);
    DisposalOrderIsOpen(FIFO, lots);
    DisposalOrderIsPermutation(FIFO, lots);
    SingleOpenPosition(lots);
    var p :| 0 <= p < |lots| && lots[p].quantity != 0.0;
    assert p in order;
    var k :| 0 <= k < |order| && order[k] == p;
    assert order[0] in order && order[0] == p;
    assert Reached(lots, order, quantity, 0);
  }

  lemma {:induction false} OpenLotCount(lots: seq<Lot>, i: nat, j: nat)
    requires i < j < |lots| && lots[i].quantity != 0.0 && lots[j].quantity != 0.0
    ensures |OpenLots(lots)| >= 2
    decreases |lots|
  {
    var init := lots[..|lots| - 1];
    if j < |lots| - 1 {
      OpenLotCount(init, i, j);
    } else {
      OpenLotsNonEmpty(init, i);
    }
  }

  lemma {:induction false} OpenLotsNonEmpty(lots: seq<Lot>, i: nat)
    requires i < |lots| && lots[i].quantity != 0.0
    ensures |OpenLots(lots)| >= 1
    decreases |lots|
  {
    if i < |lots| - 1 {
      OpenLotsNonEmpty(lots[..|lots| - 1], i);
    }
  }

  lemma {:induction false} SingleOpenPosition(lots: seq<Lot>)
    requires |OpenLots(lots)| == 1
    ensures exists p :: 0 <= p < |lots| && lots[p].quantity != 0.0
    ensures forall p, q :: 0 <= p < |lots| && 0 <= q < |lots| && lots[p].quantity != 0.0 && lots[q].quantity != 0.0 ==> p == q
  {
    assert OpenLots(lots)[0] in lots && OpenLots(lots)[0].quantity != 0.0;
    forall p, q | 0 <= p < q < |lots| && lots[p].quantity != 0.0 && lots[q].quantity != 0.0
      ensures false
    {
      OpenLotCount(lots, p, q);
    }
  }

  lemma SingleLotDisposalKeeps(lots: seq<Lot>, quantity: real)
    requires OpenScope(Exact(lots)) && |OpenLots(lots)| == 1
    ensures ScopeDisposal(Exact(lots), quantity).Success?
            <==> 0.0 < quantity <= TotalOpenQuantity(lots) && OpenBasesNonNegative(lots)
    ensures ScopeDisposal(Exact(lots), quantity).Success? ==>
              var (next, disposal) := ScopeDisposal(Exact(lots), quantity).value;
              && DisposalKeeps(Exact(lots), quantity, next, disposal)
              && (next.Some? ==> next.value.Exact?)
  {
    hide DisposalOrder, DisposalResult, LotsAfter, ReachedBasesNonNegative, TotalOpenQuantity, TotalOpenBasis, OpenLots;
    DisposalSucceedsExactlyWhen(FIFO, lots, quantity);
    if quantity > 0.0 {
      SingleLotReached(lots, quantity);
    }
    if DisposalResult(FIFO, lots, quantity).Success? {
      DisposalConserves(FIFO, lots, quantity);
      var after := LotsAfter(FIFO, lots, quantity);
      if TotalOpenQuantity(after) == 0.0 {
        NothingOpenNoBasis(after);
      }
    }
  }

  lemma TotalOfNonNegativeBases(lots: seq<Lot>)
    requires OpenBasesNonNegative(lots)
    ensures TotalOpenBasis(lots) >= 0.0
  {
    SumIsNonNegative(OpenBases(lots));
  }

  lemma LotDisposalErrors(lotMethod: LotMethod, lots: seq<Lot>, quantity: real)
    requires WellFormed(lots) && DisposalResult(lotMethod, lots, quantity).Failure?
    ensures DisposalResult(lotMethod, lots, quantity).error in {NotPositive, ExceedsOpenQuantity, NegativeAmount}
  {
    if quantity > 0.0 {
      hide DisposalOrder, Consume;
      DisposalOrderIsOpen(lotMethod, lots);
      ConsumeErrors(Begin(lots, quantity), DisposalOrder(lotMethod, lots));
    }
  }

  lemma {:induction false} ConsumeErrors(c: Consumption, order: seq<nat>)
    requires WellFormed(c.lots) && OpenDistinct(order, c.lots) && c.remaining >= 0.0 && c.error.None?
    ensures Consume(c, order).error.Some? ==> Consume(c, order).error.value == NegativeAmount
    decreases |order|
  {
    if order == [] || c.remaining == 0.0 {
    } else {
      hide TakeFromLot;
      TakeConserves(c, order[0]);
      TakeErrors(c, order[0]);
      TailIsOpen(c.lots, order, TakeFromLot(c, order[0]).lots);
      if TakeFromLot(c, order[0]).error.None? {
        ConsumeErrors(TakeFromLot(c, order[0]), order[1..]);
      }
    }
  }

  lemma TakeErrors(c: Consumption, index: nat)
    requires index < |c.lots| && c.lots[index].quantity > 0.0 && c.remaining > 0.0 && c.error.None?
    ensures TakeFromLot(c, index).error.Some? ==> TakeFromLot(c, index).error.value == NegativeAmount
  {
    AllocationIsShare(c.lots[index].basis, c.lots[index].quantity, Minimum(c.lots[index].quantity, c.remaining));
  }

  /** Every step of an open scope: when a disposal succeeds, that the quantity and basis it reports are exactly what
      the scope loses, that a used-up scope leaves nothing behind, and how the mode moves.  The errors for an
      exhausted provenance queue and for a scope with nothing open cannot occur. */
  lemma DisposalKeepsScope(scope: ScopeState, quantity: real)
    requires OpenScope(scope)
    ensures scope.Exact? ==> NonNegativeQuantities(scope.lots)
    ensures ScopeDisposal(scope, quantity).Success? <==> 0.0 < quantity <= ScopeQuantity(scope) && DivisibleScope(scope)
    ensures ScopeDisposal(scope, quantity).Failure? ==>
              ScopeDisposal(scope, quantity).error in {NotPositive, ExceedsOpenQuantity, NegativeAmount}
    ensures ScopeDisposal(scope, quantity).Success? ==>
              var (next, disposal) := ScopeDisposal(scope, quantity).value;
              && DisposalKeeps(scope, quantity, next, disposal)
              && (next.Some? ==> (next.value.Exact? <==> scope.Exact? && |OpenLots(scope.lots)| == 1))
  {
    OpenScopeHasNonNegativeQuantities(scope);
    hide DisposalResult, LotsAfter, OpenLots, FallbackDisposal, Activated, TotalOpenQuantity, TotalOpenBasis, OpenBasesNonNegative;
    match scope
    case Fallback(pool, provenance) =>
      FallbackDisposalKeeps(pool, provenance, quantity);
    case Exact(lots) =>
      if |OpenLots(lots)| == 1 {
        SingleLotDisposalKeeps(lots, quantity);
        if DisposalResult(FIFO, lots, quantity).Failure? {
          LotDisposalErrors(FIFO, lots, quantity);
        }
      } else {
        ActivationKeepsTotals(lots);
        if Activated(lots).Success? {
          TotalOfNonNegativeBases(lots);
          var fallback := Activated(lots).value;
          FallbackDisposalKeeps(fallback.pool, fallback.provenance, quantity);
        }
      }
  }
}
