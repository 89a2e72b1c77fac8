/** The promises of a lot disposal: when it succeeds, what it conserves, and what a refusal leaves behind. */
module LotTheorems {
  import opened Outcomes
  import opened Proportions
  import opened Sums
  import opened LotOrder
  import opened Lots
  import opened LotProperties

  lemma DisposalOrderIsOpen(lotMethod: LotMethod, lots: seq<Lot>)
    requires NonNegativeQuantities(lots)
    ensures OpenDistinct(DisposalOrder(lotMethod, lots), lots)
  {
    hide DisposalOrder;
    DisposalOrderIsPermutation(lotMethod, lots);
    OrderIsInRange(lotMethod, lots);
    var order := DisposalOrder(lotMethod, lots);
    forall k | 0 <= k < |order|
      ensures lots[order[k]].quantity > 0.0
    {
      assert order[k] in order;
    }
  }

  lemma {:induction false} QuantityBeforeIsSum(lots: seq<Lot>, order: seq<nat>)
    requires InRange(order, lots)
    ensures QuantityBefore(lots, order, |order|) == SumAlong(OpenQuantities(lots), order)
    decreases |order|
  {
    if order == [] {
    } else {
      QuantityBeforeIsSum(lots, order[1..]);
    }
  }

  /** The disposal order holds the whole open quantity. */
  lemma OrderHoldsTheOpenQuantity(lotMethod: LotMethod, lots: seq<Lot>)
    requires NonNegativeQuantities(lots)
    ensures InRange(DisposalOrder(lotMethod, lots), lots)
    ensures QuantityBefore(lots, DisposalOrder(lotMethod, lots), |DisposalOrder(lotMethod, lots)|) == TotalOpenQuantity(lots)
  {
    hide DisposalOrder;
    var order := DisposalOrder(lotMethod, lots);
    DisposalOrderIsOpen(lotMethod, lots);
    DisposalOrderIsPermutation(lotMethod, lots);
    QuantityBeforeIsSum(lots, order);
    SumAlongIsSum(OpenQuantities(lots), order);
  }

  lemma {:induction false} NegativeBasisStops(c: Consumption, order: seq<nat>, k: nat)
    requires OpenDistinct(order, c.lots) && k < |order| && c.error.None? && c.remaining >= 0.0
    requires Reached(c.lots, order, c.remaining, k) && c.lots[order[k]].basis < 0.0
    ensures Consume(c, order).error == Some(NegativeAmount)
    decreases |order|
  {
    QuantityBeforeIsMonotone(c.lots, order, 0, k);
    var first := c.lots[order[0]];
    if first.basis < 0.0 {
      AllocationIsShare(first.basis, first.quantity, Minimum(first.quantity, c.remaining));
    } else {
      hide TakeFromLot, Taken;
      TakeFirst(c, order);
      var next := TakeFromLot(c, order[0]);
      QuantityBeforeIsMonotone(c.lots, order, 1, k);
      QuantityBeforeStep(c.lots, order, 0);
      TailIsOpen(c.lots, order, next.lots);
      TailTaken(c.lots, order, next.lots, c.remaining, k);
      NegativeBasisStops(next, order[1..], k - 1);
    }
  }

  /** Where the disposal ends up when no reached lot has a negative basis. */
  lemma ConsumeAllTakesExactly(lotMethod: LotMethod, lots: seq<Lot>, quantity: real)
    requires NonNegativeQuantities(lots) && quantity > 0.0
    requires InRange(DisposalOrder(lotMethod, lots), lots)
    requires ReachedBasesNonNegative(lots, DisposalOrder(lotMethod, lots), quantity)
    ensures OpenDistinct(DisposalOrder(lotMethod, lots), lots)
    ensures ConsumedExactly(Begin(lots, quantity), DisposalOrder(lotMethod, lots), ConsumeAll(lotMethod, lots, quantity))
    ensures ConsumeAll(lotMethod, lots, quantity).remaining == Maximum(0.0, quantity - TotalOpenQuantity(lots))
  {
    hide DisposalOrder, Consume, Reached;
    DisposalOrderIsOpen(lotMethod, lots);
    OrderHoldsTheOpenQuantity(lotMethod, lots);
    ConsumeTakesExactly(Begin(lots, quantity), DisposalOrder(lotMethod, lots));
  }

  /** A disposal succeeds exactly when its quantity is positive and no more than the open quantity, and no lot
      it reaches carries a negative basis. */
  lemma DisposalSucceedsExactlyWhen(lotMethod: LotMethod, lots: seq<Lot>, quantity: real)
    requires NonNegativeQuantities(lots)
    ensures InRange(DisposalOrder(lotMethod, lots), lots)
    ensures DisposalResult(lotMethod, lots, quantity).Success?
            <==> && 0.0 < quantity <= TotalOpenQuantity(lots)
                 && ReachedBasesNonNegative(lots, DisposalOrder(lotMethod, lots), quantity)
  {
    hide DisposalOrder, Consume, Reached, ConsumedExactly;
    OrderIsInRange(lotMethod, lots);
    var order := DisposalOrder(lotMethod, lots);
    if quantity > 0.0 {
      DisposalOrderIsOpen(lotMethod, lots);
      if ReachedBasesNonNegative(lots, order, quantity) {
        ConsumeAllTakesExactly(lotMethod, lots, quantity);
        ConsumedWithoutError(lotMethod, lots, quantity);
      } else {
        var k :| 0 <= k < |order| && Reached(lots, order, quantity, k) && lots[order[k]].basis < 0.0;
        NegativeBasisStops(Begin(lots, quantity), order, k);
      }
    }
  }

  lemma ConsumedWithoutError(lotMethod: LotMethod, lots: seq<Lot>, quantity: real)
    requires NonNegativeQuantities(lots) && OpenDistinct(DisposalOrder(lotMethod, lots), lots)
    requires ConsumedExactly(Begin(lots, quantity), DisposalOrder(lotMethod, lots), ConsumeAll(lotMethod, lots, quantity))
    ensures ConsumeAll(lotMethod, lots, quantity).error.None?
  {
  }

  /** What a successful disposal conserves: it removes exactly the asked quantity and exactly the basis it
      reports, its matches add up to both, and every lot keeps its identity. */
  lemma DisposalConserves(lotMethod: LotMethod, lots: seq<Lot>, quantity: real)
    requires WellFormed(lots) && DisposalResult(lotMethod, lots, quantity).Success?
    ensures var disposal := DisposalResult(lotMethod, lots, quantity).value;
            var after := LotsAfter(lotMethod, lots, quantity);
            && WellFormed(after) && SameIdentities(lots, after)
            && TotalOpenQuantity(after) == TotalOpenQuantity(lots) - quantity
            && TotalOpenBasis(after) == TotalOpenBasis(lots) - disposal.allocatedBasis
            && Sum(MatchedQuantities(disposal.matches)) == quantity
            && Sum(MatchedBases(disposal.matches)) == disposal.allocatedBasis
  {
    hide DisposalOrder, Consume;
    DisposalOrderIsOpen(lotMethod, lots);
    ConsumeConserves(Begin(lots, quantity), DisposalOrder(lotMethod, lots));
  }

  lemma WhollyTaken(lots: seq<Lot>, order: seq<nat>, quantity: real, k: nat)
    requires OpenDistinct(order, lots) && k < |order| && QuantityBefore(lots, order, |order|) <= quantity
    ensures LotWithout(lots[order[k]], Taken(lots, order, quantity, k)).quantity == 0.0
  {
    hide Share;
    QuantityBeforeStep(lots, order, k);
    QuantityBeforeIsMonotone(lots, order, k + 1, |order|);
    assert Taken(lots, order, quantity, k) == lots[order[k]].quantity;
  }

  /** A refused excessive disposal is not undone: every lot has been emptied. */
  lemma RefusedExcessEmptiesTheLots(lotMethod: LotMethod, lots: seq<Lot>, quantity: real)
    requires WellFormed(lots) && quantity > TotalOpenQuantity(lots)
    requires forall i :: 0 <= i < |lots| ==> lots[i].basis >= 0.0
    ensures DisposalResult(lotMethod, lots, quantity) == Failure(ExceedsOpenQuantity)
    ensures forall i :: 0 <= i < |lots| ==> LotsAfter(lotMethod, lots, quantity)[i].quantity == 0.0
  {
    hide DisposalOrder, Consume, Reached, Taken, LotWithout, QuantityBefore;
    SumIsNonNegative(OpenQuantities(lots));
    DisposalOrderIsOpen(lotMethod, lots);
    ConsumeAllTakesExactly(lotMethod, lots, quantity);
    OrderHoldsTheOpenQuantity(lotMethod, lots);
    DisposalOrderIsPermutation(lotMethod, lots);
    var order := DisposalOrder(lotMethod, lots);
    forall i | 0 <= i < |lots|
      ensures LotsAfter(lotMethod, lots, quantity)[i].quantity == 0.0
    {
      if i in order {
        var k :| 0 <= k < |order| && order[k] == i;
        WhollyTaken(lots, order, quantity, k);
      }
    }
  }
}
