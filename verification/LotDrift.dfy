/** Drift in lots: how far a lot's basis strays from its exact share over a whole interleaved history. */
module LotDrift {
  import opened Proportions
  import opened LotOrder
  import opened Lots
  import opened LotProperties
  import opened LotTheorems
  import opened Pools
  import opened Drift
  import opened QueueRuns

  /** What a successful disposal does to one lot: nothing, or it takes a part and that part's share. */
  lemma DisposalPerLot(lotMethod: LotMethod, lots: seq<Lot>, quantity: real, i: nat) returns (taken: real)
    requires WellFormed(lots) && DisposalResult(lotMethod, lots, quantity).Success? && i < |lots|
    ensures |LotsAfter(lotMethod, lots, quantity)| == |lots|
    ensures 0.0 <= taken <= lots[i].quantity
    ensures taken == 0.0 ==> LotsAfter(lotMethod, lots, quantity)[i] == lots[i]
    ensures taken > 0.0 ==> lots[i].basis >= 0.0 && LotsAfter(lotMethod, lots, quantity)[i] == LotWithout(lots[i], taken)
  {
    hide DisposalOrder, Consume, QuantityBefore, LotWithout;
    var order := DisposalOrder(lotMethod, lots);
    DisposalSucceedsExactlyWhen(lotMethod, lots, quantity);
    ConsumeAllTakesExactly(lotMethod, lots, quantity);
    taken := 0.0;
    if i in order {
      var k :| 0 <= k < |order| && order[k] == i;
      taken := Taken(lots, order, quantity, k);
      NothingTaken(lots[i]);
      assert taken > 0.0 ==> Reached(lots, order, quantity, k);
      assert LotsAfter(lotMethod, lots, quantity)[order[k]] == LotWithout(lots[order[k]], taken);
    }
  }

  lemma NothingTaken(lot: Lot)
    requires lot.quantity != 0.0
    ensures LotWithout(lot, 0.0) == lot
  {
  }

  /** The lots of a history as they were acquired. */
  ghost function AcquiredLots(events: seq<LotEvent>): seq<Lot> {
    if events == [] then []
    else
      var before, last := AcquiredLots(events[..|events| - 1]), events[|events| - 1];
      if last.Acquire? then before + [Stored(last.lot)] else before
  }

  ghost predicate ChangesLot(lotMethod: LotMethod, before: seq<LotEvent>, event: LotEvent, i: nat) {
    && event.Remove? && Run(lotMethod, before).Success? && i < |Run(lotMethod, before).value|
    && i < |LotsAfter(lotMethod, Run(lotMethod, before).value, event.quantity)|
    && LotsAfter(lotMethod, Run(lotMethod, before).value, event.quantity)[i] != Run(lotMethod, before).value[i]
  }

  /** How many removals of a history changed lot i. */
  ghost function Changes(lotMethod: LotMethod, events: seq<LotEvent>, i: nat): nat {
    if events == [] then 0
    else
      var before, last := events[..|events| - 1], events[|events| - 1];
      Changes(lotMethod, before, i) + if ChangesLot(lotMethod, before, last, i) then 1 else 0
  }

  /** The distance of an open lot's basis from its exact share of the acquisition. */
  ghost predicate LotWithinDrift(acquired: Lot, lot: Lot, bound: real) {
    acquired.quantity > 0.0 && WithinDrift(Pool(acquired.quantity, acquired.basis), Pool(lot.quantity, lot.basis), bound)
  }

  lemma LotDriftStep(acquired: Lot, lot: Lot, taken: real, bound: real)
    requires LotWithinDrift(acquired, lot, bound) && 0.0 < taken < lot.quantity
    ensures LotWithinDrift(acquired, LotWithout(lot, taken), bound + 0.5)
  {
    hide WithinDrift, Share;
    DisposalDrifts(Pool(acquired.quantity, acquired.basis), Pool(lot.quantity, lot.basis), taken, bound);
  }

  lemma FreshLot(lot: Lot)
    requires lot.quantity > 0.0
    ensures LotWithinDrift(lot, lot, 0.0)
  {
    ExactShareOfWhole(lot.basis, lot.quantity);
  }

  /** Every lot still open is within half a unit of its exact share for each removal that changed it. */
  ghost predicate AllWithinDrift(lotMethod: LotMethod, events: seq<LotEvent>, lots: seq<Lot>) {
    && |lots| == |AcquiredLots(events)|
    && forall i :: 0 <= i < |lots| && lots[i].quantity > 0.0 ==>
         LotWithinDrift(AcquiredLots(events)[i], lots[i], Changes(lotMethod, events, i) as real / 2.0)
  }

  lemma RemovalDrifts(lotMethod: LotMethod, before: seq<LotEvent>, quantity: real)
    requires Run(lotMethod, before).Success? && AllWithinDrift(lotMethod, before, Run(lotMethod, before).value)
    requires DisposalResult(lotMethod, Run(lotMethod, before).value, quantity).Success?
    ensures AllWithinDrift(lotMethod, before + [Remove(quantity)], LotsAfter(lotMethod, Run(lotMethod, before).value, quantity))
  {
    hide DisposalResult, LotsAfter, LotWithinDrift, LotWithout, Run;
    var lots, events := Run(lotMethod, before).value, before + [Remove(quantity)];
    var after := LotsAfter(lotMethod, lots, quantity);
    assert events[..|before|] == before;
    DisposalConserves(lotMethod, lots, quantity);
    forall i | 0 <= i < |after| && after[i].quantity > 0.0
      ensures LotWithinDrift(AcquiredLots(events)[i], after[i], Changes(lotMethod, events, i) as real / 2.0)
    {
      var taken := DisposalPerLot(lotMethod, lots, quantity, i);
      if taken > 0.0 {
        LeftAfterTaking(lots[i], taken);
        LotDriftStep(AcquiredLots(before)[i], lots[i], taken, Changes(lotMethod, before, i) as real / 2.0);
      }
    }
  }

  lemma LeftAfterTaking(lot: Lot, taken: real)
    requires 0.0 < taken <= lot.quantity
    ensures LotWithout(lot, taken).quantity == lot.quantity - taken
    ensures LotWithout(lot, taken) != lot
  {
  }

  lemma AcquisitionDrifts(lotMethod: LotMethod, before: seq<LotEvent>, lot: Lot)
    requires Run(lotMethod, before).Success? && AllWithinDrift(lotMethod, before, Run(lotMethod, before).value)
    requires ValidateAcquisition(lot).None?
    ensures AllWithinDrift(lotMethod, before + [Acquire(lot)], Run(lotMethod, before).value + [Stored(lot)])
  {
    hide LotWithinDrift, Run;
    var events := before + [Acquire(lot)];
    assert events[..|before|] == before;
    NotYetChanged(lotMethod, before, |AcquiredLots(before)|);
    FreshLot(Stored(lot));
  }

  lemma {:induction false} NotYetChanged(lotMethod: LotMethod, events: seq<LotEvent>, i: nat)
    requires Run(lotMethod, events).Success? && i >= |AcquiredLots(events)|
    ensures |Run(lotMethod, events).value| == |AcquiredLots(events)| && Changes(lotMethod, events, i) == 0
    decreases |events|
  {
    hide DisposalResult, LotsAfter;
    if events == [] {
    } else {
      var before, last := events[..|events| - 1], events[|events| - 1];
      NotYetChanged(lotMethod, before, i);
      if last.Remove? {
        DisposalConserves(lotMethod, Run(lotMethod, before).value, last.quantity);
      }
    }
  }

  /** Over every successful history of any lot method, other lots and later acquisitions interleaved: the basis of each
      lot still open is within k/2 units of the exact proportional share of the basis it was acquired with, k being
      the number of removals that changed that lot. */
  lemma {:induction false} LotDriftIsBounded(lotMethod: LotMethod, events: seq<LotEvent>)
    requires Run(lotMethod, events).Success?
    ensures AllWithinDrift(lotMethod, events, Run(lotMethod, events).value)
    decreases |events|
  {
    hide DisposalResult, LotsAfter, AllWithinDrift;
    if events == [] {
      NoLots(lotMethod);
    } else {
      var before, last := events[..|events| - 1], events[|events| - 1];
      assert events == before + [last];
      LotDriftIsBounded(lotMethod, before);
      match last
      case Acquire(lot) => AcquisitionDrifts(lotMethod, before, lot);
      case Remove(quantity) => RemovalDrifts(lotMethod, before, quantity);
    }
  }

  lemma NoLots(lotMethod: LotMethod)
    ensures AllWithinDrift(lotMethod, [], [])
  {
  }
}
