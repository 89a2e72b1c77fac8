/** Open-lot state of the FIFO, LIFO and HIFO methods. */
module Lots {
  import opened Outcomes
  import opened Proportions
  import opened Sums
  import opened LotOrder
  import Text

  datatype LotMatch = LotMatch(sourceId: string, quantity: real, basis: real)

  datatype LotDisposal = LotDisposal(matches: seq<LotMatch>, allocatedBasis: real)

  const ZERO_TIME := 0

  function ValidateAcquisition(lot: Lot): Option<Error> {
    if Text.TrimSpace(lot.sourceId) == "" then Some(InvalidInput)
    else if lot.acquiredAt == ZERO_TIME then Some(InvalidInput)
    else if lot.quantity <= 0.0 then Some(NotPositive)
    else if lot.basis < 0.0 then Some(NegativeAmount)
    else None
  }

  function Stored(lot: Lot): Lot {
    lot.(sourceId := Text.TrimSpace(lot.sourceId))
  }

  // -------- what a disposal does --------

  /** A disposal in progress: the lots as they are now, what is still to be taken, and what was taken. */
  datatype Consumption = Consumption(
    lots: seq<Lot>,
    remaining: real,
    matches: seq<LotMatch>,
    allocatedBasis: real,
    error: Option<Error>)

  predicate InRange(order: seq<nat>, lots: seq<Lot>) {
    forall k :: 0 <= k < |order| ==> order[k] < |lots|
  }

  function TakeFromLot(c: Consumption, index: nat): (r: Consumption)
    requires index < |c.lots|
    ensures |r.lots| == |c.lots|
  {
    var lot := c.lots[index];
    var matched := Minimum(lot.quantity, c.remaining);
    match AllocateProportional(lot.basis, lot.quantity, matched)
    case Failure(e) => c.(error := Some(e))
    case Success(basis) =>
      Consumption(
        c.lots[index := lot.(quantity := lot.quantity - matched, basis := lot.basis - basis)],
        c.remaining - matched,
        c.matches + [LotMatch(Text.TrimSpace(lot.sourceId), matched, basis)],
        c.allocatedBasis + basis,
        None)
  }

  function Consume(c: Consumption, order: seq<nat>): (r: Consumption)
    requires InRange(order, c.lots)
    ensures |r.lots| == |c.lots|
    decreases |order|
  {
    if order == [] || c.remaining == 0.0 || c.error.Some? then c
    else Consume(TakeFromLot(c, order[0]), order[1..])
  }

  lemma ConsumeStep(c: Consumption, order: seq<nat>, k: nat)
    requires InRange(order, c.lots) && k < |order| && c.remaining != 0.0 && c.error.None?
    ensures InRange(order[k..], c.lots) && InRange(order[k + 1..], c.lots)
    ensures Consume(c, order[k..]) == Consume(TakeFromLot(c, order[k]), order[k + 1..])
    ensures TakeFromLot(c, order[k]).error.Some? ==> Consume(c, order[k..]) == TakeFromLot(c, order[k])
  {
    assert order[k..][0] == order[k] && order[k..][1..] == order[k + 1..];
  }

  lemma OrderIsInRange(lotMethod: LotMethod, lots: seq<Lot>)
    requires NonNegativeQuantities(lots)
    ensures InRange(DisposalOrder(lotMethod, lots), lots)
  {
    DisposalOrderIsPermutation(lotMethod, lots);
    var order := DisposalOrder(lotMethod, lots);
    forall k | 0 <= k < |order|
      ensures order[k] < |lots|
    {
      assert order[k] in order;
    }
  }

  function Begin(lots: seq<Lot>, quantity: real): Consumption {
    Consumption(lots, quantity, [], 0.0, None)
  }

  function ConsumeAll(lotMethod: LotMethod, lots: seq<Lot>, quantity: real): Consumption
    requires NonNegativeQuantities(lots)
  {
    OrderIsInRange(lotMethod, lots);
    Consume(Begin(lots, quantity), DisposalOrder(lotMethod, lots))
  }

  /** The result of a disposal; the lots it leaves behind, on success and on failure, are LotsAfter. */
  function DisposalResult(lotMethod: LotMethod, lots: seq<Lot>, quantity: real): Result<LotDisposal>
    requires NonNegativeQuantities(lots)
  {
    if quantity <= 0.0 then Failure(NotPositive)
    else
      var c := ConsumeAll(lotMethod, lots, quantity);
      if c.error.Some? then Failure(c.error.value)
      else if c.remaining != 0.0 then Failure(ExceedsOpenQuantity)
      else Success(LotDisposal(c.matches, c.allocatedBasis))
  }

  function LotsAfter(lotMethod: LotMethod, lots: seq<Lot>, quantity: real): seq<Lot>
    requires NonNegativeQuantities(lots)
  {
    if quantity <= 0.0 then lots else ConsumeAll(lotMethod, lots, quantity).lots
  }

  // -------- totals --------

  function OpenBasis(lot: Lot): real {
    if lot.quantity == 0.0 then 0.0 else lot.basis
  }

  function OpenQuantities(lots: seq<Lot>): (s: seq<real>)
    ensures |s| == |lots| && forall i :: 0 <= i < |lots| ==> s[i] == lots[i].quantity
  {
    seq(|lots|, i requires 0 <= i < |lots| => lots[i].quantity)
  }

  function OpenBases(lots: seq<Lot>): (s: seq<real>)
    ensures |s| == |lots| && forall i :: 0 <= i < |lots| ==> s[i] == OpenBasis(lots[i])
  {
    seq(|lots|, i requires 0 <= i < |lots| => OpenBasis(lots[i]))
  }

  function TotalOpenQuantity(lots: seq<Lot>): real {
    Sum(OpenQuantities(lots))
  }

  function TotalOpenBasis(lots: seq<Lot>): real {
    Sum(OpenBases(lots))
  }

  function OpenLots(lots: seq<Lot>): (open: seq<Lot>)
    ensures forall i :: 0 <= i < |open| ==> open[i] in lots && open[i].quantity != 0.0
  {
    if lots == [] then []
    else if lots[|lots| - 1].quantity == 0.0 then OpenLots(lots[..|lots| - 1])
    else OpenLots(lots[..|lots| - 1]) + [lots[|lots| - 1]]
  }

  lemma TotalsAppend(lots: seq<Lot>, lot: Lot)
    ensures TotalOpenQuantity(lots + [lot]) == TotalOpenQuantity(lots) + lot.quantity
    ensures TotalOpenBasis(lots + [lot]) == TotalOpenBasis(lots) + OpenBasis(lot)
  {
    assert OpenQuantities(lots + [lot]) == OpenQuantities(lots) + [lot.quantity];
    assert OpenBases(lots + [lot]) == OpenBases(lots) + [OpenBasis(lot)];
    SumAppend(OpenQuantities(lots), lot.quantity);
    SumAppend(OpenBases(lots), OpenBasis(lot));
  }

  lemma TotalsUpdate(lots: seq<Lot>, i: nat, lot: Lot)
    requires i < |lots|
    ensures TotalOpenQuantity(lots[i := lot]) == TotalOpenQuantity(lots) - lots[i].quantity + lot.quantity
    ensures TotalOpenBasis(lots[i := lot]) == TotalOpenBasis(lots) - OpenBasis(lots[i]) + OpenBasis(lot)
  {
    assert OpenQuantities(lots[i := lot]) == OpenQuantities(lots)[i := lot.quantity];
    assert OpenBases(lots[i := lot]) == OpenBases(lots)[i := OpenBasis(lot)];
    SumUpdate(OpenQuantities(lots), i, lot.quantity);
    SumUpdate(OpenBases(lots), i, OpenBasis(lot));
  }

  /** The positions of the lots that still carry quantity. */
  ghost function OpenPositions(lots: seq<Lot>): set<nat> {
    set i: nat | i < |lots| && lots[i].quantity != 0.0
  }

  /** Every open lot is listed once. */
  lemma {:induction false} OpenLotsListsThemAll(lots: seq<Lot>)
    ensures |OpenLots(lots)| == |OpenPositions(lots)|
  {
    if lots == [] {
      assert OpenPositions(lots) == {};
    } else {
      var init, last := lots[..|lots| - 1], lots[|lots| - 1];
      OpenLotsListsThemAll(init);
      if last.quantity == 0.0 {
        assert OpenPositions(lots) == OpenPositions(init);
      } else {
        assert OpenPositions(lots) == OpenPositions(init) + {|init|} && |init| !in OpenPositions(init);
      }
    }
  }

  /** Summing over the open lots alone gives the same totals. */
  lemma {:induction false} OpenLotsCarryTheTotals(lots: seq<Lot>)
    ensures TotalOpenQuantity(OpenLots(lots)) == TotalOpenQuantity(lots)
    ensures TotalOpenBasis(OpenLots(lots)) == TotalOpenBasis(lots)
  {
    if lots == [] {
    } else {
      var init, last := lots[..|lots| - 1], lots[|lots| - 1];
      OpenLotsCarryTheTotals(init);
      assert lots == init + [last];
      TotalsAppend(init, last);
      TotalsAppend(OpenLots(init), last);
    }
  }
}
