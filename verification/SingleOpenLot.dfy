/** Lots of which one is open: every lot method disposes from them in the same way. */
module SingleOpenLot {
  import opened Proportions
  import opened Sums
  import opened LotOrder
  import opened Lots
  import opened LotProperties
  import opened LotTheorems

  /** Position i is the only open lot. */
  ghost predicate OnlyOpen(lots: seq<Lot>, i: nat) {
    && WellFormed(lots) && i < |lots| && lots[i].quantity > 0.0
    && forall j :: 0 <= j < |lots| && j != i ==> lots[j].quantity == 0.0
  }

  lemma OnlyOpenOrder(lotMethod: LotMethod, lots: seq<Lot>, i: nat)
    requires OnlyOpen(lots, i)
    ensures DisposalOrder(lotMethod, lots) == [i]
  {
    hide DisposalOrder;
    var order := DisposalOrder(lotMethod, lots);
    DisposalOrderIsPermutation(lotMethod, lots);
    assert i in order;
    var last := |order| - 1;
    assert order[0] in order && order[last] in order;
    assert last == 0;
  }

  lemma OnlyOpenTotals(lots: seq<Lot>, i: nat)
    requires OnlyOpen(lots, i)
    ensures TotalOpenQuantity(lots) == lots[i].quantity && TotalOpenBasis(lots) == lots[i].basis
  {
    SumAlongIsSum(OpenQuantities(lots), [i]);
    SumAlongIsSum(OpenBases(lots), [i]);
    assert SumAlong(OpenQuantities(lots), [i]) == OpenQuantities(lots)[i] + SumAlong(OpenQuantities(lots), []);
    assert SumAlong(OpenBases(lots), [i]) == OpenBases(lots)[i] + SumAlong(OpenBases(lots), []);
  }

  /** A disposal from a single open lot, spelled out: the same under every lot method, and the same share an
      average-cost pool of that lot would allocate. */
  lemma OnlyOpenDisposal(lotMethod: LotMethod, lots: seq<Lot>, i: nat, quantity: real)
    requires OnlyOpen(lots, i)
    ensures var lot := lots[i];
            var r := DisposalResult(lotMethod, lots, quantity);
            && (r.Success? <==> 0.0 < quantity <= lot.quantity && lot.basis >= 0.0)
            && (r.Success? ==>
                  && r.value == LotDisposal([MatchOf(lot, quantity)], Share(lot.basis, lot.quantity, quantity))
                  && LotsAfter(lotMethod, lots, quantity) == lots[i := LotWithout(lot, quantity)])
  {
    hide DisposalOrder, LotWithout, Share, TakeFromLot;
    OnlyOpenOrder(lotMethod, lots, i);
    OnlyOpenTotals(lots, i);
    DisposalSucceedsExactlyWhen(lotMethod, lots, quantity);
    if quantity > 0.0 {
      DisposalOrderIsOpen(lotMethod, lots);
      assert Reached(lots, [i], quantity, 0);
      if 0.0 < quantity <= lots[i].quantity && lots[i].basis >= 0.0 {
        var c := Begin(lots, quantity);
        TakeFirst(c, [i]);
        assert Consume(c, [i]) == Consume(TakeFromLot(c, i), []);
      }
    }
  }

  lemma WithoutLot(lots: seq<Lot>, i: nat, quantity: real)
    requires OnlyOpen(lots, i) && 0.0 < quantity <= lots[i].quantity
    ensures var after := lots[i := LotWithout(lots[i], quantity)];
            && WellFormed(after)
            && (quantity < lots[i].quantity ==> OnlyOpen(after, i))
            && (quantity == lots[i].quantity ==> forall j :: 0 <= j < |after| ==> after[j].quantity == 0.0)
  {
    AllocationIsShare(lots[i].basis, lots[i].quantity, quantity);
    hide Share;
  }
}
