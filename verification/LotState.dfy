/** The object that keeps the open lots of one asset and takes disposals from them in place. */
module LotState {
  import opened Outcomes
  import opened Proportions
  import opened Sums
  import opened StableSorting
  import opened LotOrder
  import opened Lots
  import opened LotProperties
  import opened LotTheorems
  import Text

  lemma LotsAfterWellFormed(lotMethod: LotMethod, lots: seq<Lot>, quantity: real)
    requires WellFormed(lots)
    ensures WellFormed(LotsAfter(lotMethod, lots, quantity))
  {
    if quantity > 0.0 {
      hide DisposalOrder, Consume;
      DisposalOrderIsOpen(lotMethod, lots);
      ConsumeConserves(Begin(lots, quantity), DisposalOrder(lotMethod, lots));
    }
  }

  class LotMethodState {
    const lotMethod: LotMethod
    var lots: seq<Lot>

    ghost predicate Valid()
      reads this
    {
      WellFormed(lots)
    }

    constructor (lotMethod: LotMethod)
      ensures this.lotMethod == lotMethod && lots == [] && Valid()
    {
      this.lotMethod := lotMethod;
      lots := [];
    }

    method AddAcquisition(lot: Lot) returns (error: Option<Error>)
      requires Valid()
      modifies this
      ensures Valid()
      ensures error == ValidateAcquisition(lot)
      ensures error.None? <==> Text.TrimSpace(lot.sourceId) != "" && lot.acquiredAt != 0 && lot.quantity > 0.0 && lot.basis >= 0.0
      ensures lots == if error.None? then old(lots) + [lot.(sourceId := Text.TrimSpace(lot.sourceId))] else old(lots)
    {
      error := ValidateAcquisition(lot);
      if error.None? {
        lots := lots + [Stored(lot)];
      }
    }

    /** The positions of the open lots in disposal order. */
    method OpenLotIndexes() returns (order: seq<nat>)
      requires Valid()
      ensures order == DisposalOrder(lotMethod, lots)
    {
      var indexes: seq<nat> := [];
      for index := 0 to |lots|
        invariant indexes == OpenIndexes(lots, index)
      {
        if lots[index].quantity != 0.0 {
          indexes := indexes + [index];
        }
      }
      order := StableSort(PositionBefore(lotMethod, lots), indexes);
    }

    method Dispose(quantity: real) returns (r: Result<LotDisposal>)
      requires Valid()
      modifies this
      ensures Valid()
      ensures r == DisposalResult(lotMethod, old(lots), quantity)
      ensures lots == LotsAfter(lotMethod, old(lots), quantity)
    {
      hide AllocateProportional;
      hide TakeFromLot;
      if quantity <= 0.0 {
        return Failure(NotPositive);
      }
      var order := OpenLotIndexes();
      OrderIsInRange(lotMethod, lots);
      LotsAfterWellFormed(lotMethod, lots, quantity);
      var remaining, matches, allocatedBasis := quantity, [], 0.0;
      ghost var start := Begin(lots, quantity);
      ghost var c := start;
      var k := 0;
      while k < |order| && remaining != 0.0
        invariant k <= |order| && InRange(order, c.lots)
        invariant c == Consumption(lots, remaining, matches, allocatedBasis, None)
        invariant Consume(start, order) == Consume(c, order[k..])
      {
        ConsumeStep(c, order, k);
        var taken;
        taken, c := DisposeFromLot(order[k], remaining, c);
        if taken.Failure? {
          return Failure(taken.error);
        }
        remaining := remaining - taken.value.quantity;
        allocatedBasis := allocatedBasis + taken.value.basis;
        matches := matches + [taken.value];
        k := k + 1;
      }
      if remaining != 0.0 {
        return Failure(ExceedsOpenQuantity);
      }
      return Success(LotDisposal(matches, allocatedBasis));
    }

    /** Takes at most the remaining quantity from one lot and updates that lot in place; c is the disposal
        so far, after the disposal it becomes. */
    method DisposeFromLot(index: nat, remaining: real, ghost c: Consumption)
      returns (r: Result<LotMatch>, ghost after: Consumption)
      requires index < |lots| && c.lots == lots && c.remaining == remaining && c.error.None?
      modifies this
      ensures after == TakeFromLot(c, index) && lots == after.lots
      ensures r.Failure? ==> after.error == Some(r.error)
      ensures r.Success? ==>
                && after.error.None?
                && after.remaining == remaining - r.value.quantity
                && after.matches == c.matches + [r.value]
                && after.allocatedBasis == c.allocatedBasis + r.value.basis
    {
      after := TakeFromLot(c, index);
      var lot := lots[index];
      var matched := Minimum(lot.quantity, remaining);
      var share := AllocateProportional(lot.basis, lot.quantity, matched);
      if share.Failure? {
        r := Failure(share.error);
      } else {
        lots := lots[index := lot.(quantity := lot.quantity - matched, basis := lot.basis - share.value)];
        r := Success(LotMatch(Text.TrimSpace(lot.sourceId), matched, share.value));
      }
    }

    /** The lots that still carry quantity, in the order they were acquired. */
    method GetOpenLots() returns (open: seq<Lot>)
      ensures open == OpenLots(lots)
      ensures |open| == |OpenPositions(lots)|
    {
      open := [];
      for index := 0 to |lots|
        invariant open == OpenLots(lots[..index])
      {
        assert lots[..index + 1][..index] == lots[..index];
        if lots[index].quantity != 0.0 {
          open := open + [lots[index]];
        }
      }
      assert lots[..|lots|] == lots;
      OpenLotsListsThemAll(lots);
    }

    method OpenLotCount() returns (count: nat)
      ensures count == |OpenLots(lots)|
      ensures count == |set i: nat | i < |lots| && lots[i].quantity != 0.0|
    {
      var open := GetOpenLots();
      count := |open|;
    }

    method GetTotalOpenQuantity() returns (total: real)
      ensures total == TotalOpenQuantity(lots)
    {
      OpenLotsCarryTheTotals(lots);
      var open := GetOpenLots();
      total := 0.0;
      for i := 0 to |open|
        invariant total == TotalOpenQuantity(open[..i])
      {
        TotalsAppend(open[..i], open[i]);
        assert open[..i] + [open[i]] == open[..i + 1];
        total := total + open[i].quantity;
      }
      assert open[..|open|] == open;
    }

    method GetTotalOpenBasis() returns (total: real)
      ensures total == TotalOpenBasis(lots)
    {
      OpenLotsCarryTheTotals(lots);
      var open := GetOpenLots();
      total := 0.0;
      for i := 0 to |open|
        invariant total == TotalOpenBasis(open[..i])
      {
        TotalsAppend(open[..i], open[i]);
        assert open[..i] + [open[i]] == open[..i + 1];
        total := total + open[i].basis;
      }
      assert open[..|open|] == open;
    }
  }
}
