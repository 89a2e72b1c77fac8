/** The disposal order of each method written out, and that a disposal follows it: nothing is reached early. */
module DisposalOrders {
  import opened Proportions
  import opened StableSorting
  import opened LotOrder
  import opened Lots
  import opened LotProperties
  import opened LotTheorems

  /** Which of two open lots a method takes first, by their days, places, unit costs and positions alone. */
  ghost predicate TakenFirst(lotMethod: LotMethod, lots: seq<Lot>, i: nat, j: nat)
    requires i < |lots| && j < |lots| && lots[i].quantity > 0.0 && lots[j].quantity > 0.0
  {
    var a, b := lots[i], lots[j];
    match lotMethod
    case FIFO => Earlier(a, b) || (!Earlier(b, a) && i < j)
    case LIFO => Earlier(b, a) || (!Earlier(a, b) && i < j)
    case HIFO => UnitCost(a) > UnitCost(b) || (UnitCost(a) == UnitCost(b) && (Earlier(a, b) || (!Earlier(b, a) && i < j)))
  }

  lemma AheadIsTakenFirst(lotMethod: LotMethod, lots: seq<Lot>, i: nat, j: nat)
    requires i < |lots| && j < |lots| && lots[i].quantity > 0.0 && lots[j].quantity > 0.0
    ensures Ahead(PositionBefore(lotMethod, lots), i, j) <==> TakenFirst(lotMethod, lots, i, j)
  {
    hide UnitCost, Earlier, CompareChronology, CompareUnitCosts;
    ChronologyIsEarlier(lots[i], lots[j]);
    ChronologyIsEarlier(lots[j], lots[i]);
    ChronologyIsTotal(lots[i], lots[j]);
    CrossMultiplicationComparesUnitCosts(lots[i], lots[j]);
    CrossMultiplicationComparesUnitCosts(lots[j], lots[i]);
  }

  /** The disposal order is that order: of any two lots, the one listed first is taken first. */
  lemma DisposalOrderIsTakenFirst(lotMethod: LotMethod, lots: seq<Lot>, j: nat, k: nat)
    requires NonNegativeQuantities(lots) && j < k < |DisposalOrder(lotMethod, lots)|
    ensures InRange(DisposalOrder(lotMethod, lots), lots)
    ensures var order := DisposalOrder(lotMethod, lots);
            && lots[order[j]].quantity > 0.0 && lots[order[k]].quantity > 0.0
            && TakenFirst(lotMethod, lots, order[j], order[k])
  {
    hide PositionBefore, TakenFirst, Ahead;
    var before, open := PositionBefore(lotMethod, lots), OpenIndexes(lots, |lots|);
    DisposalOrderIsOpen(lotMethod, lots);
    PositionsAreWeaklyOrdered(lotMethod, lots);
    StableSortIsStable(before, open);
    AheadIsTakenFirst(lotMethod, lots, DisposalOrder(lotMethod, lots)[j], DisposalOrder(lotMethod, lots)[k]);
  }

  lemma TakenFirstIsOneWay(lotMethod: LotMethod, lots: seq<Lot>, i: nat, j: nat)
    requires i < |lots| && j < |lots| && lots[i].quantity > 0.0 && lots[j].quantity > 0.0 && TakenFirst(lotMethod, lots, i, j)
    ensures i != j && !TakenFirst(lotMethod, lots, j, i)
  {
    hide UnitCost, Earlier, CompareChronology;
    ChronologyIsEarlier(lots[i], lots[j]);
    ChronologyIsEarlier(lots[j], lots[i]);
    ChronologyIsTotal(lots[i], lots[j]);
  }

  /** A disposal that took anything from a lot has emptied every open lot that is taken before it. */
  lemma ReachedInOrder(lotMethod: LotMethod, lots: seq<Lot>, quantity: real, i: nat, j: nat)
    requires WellFormed(lots) && DisposalResult(lotMethod, lots, quantity).Success?
    requires i < |lots| && j < |lots| && lots[i].quantity > 0.0 && lots[j].quantity > 0.0 && TakenFirst(lotMethod, lots, i, j)
    ensures |LotsAfter(lotMethod, lots, quantity)| == |lots|
    ensures LotsAfter(lotMethod, lots, quantity)[j] != lots[j] ==> LotsAfter(lotMethod, lots, quantity)[i].quantity == 0.0
  {
    hide DisposalOrder, Consume, QuantityBefore, LotWithout, TakenFirst;
    var order, after := DisposalOrder(lotMethod, lots), LotsAfter(lotMethod, lots, quantity);
    DisposalSucceedsExactlyWhen(lotMethod, lots, quantity);
    ConsumeAllTakesExactly(lotMethod, lots, quantity);
    DisposalOrderIsPermutation(lotMethod, lots);
    var a: nat :| a < |order| && order[a] == i;
    var b: nat :| b < |order| && order[b] == j;
    TakenFirstIsOneWay(lotMethod, lots, i, j);
    if b < a {
      DisposalOrderIsTakenFirst(lotMethod, lots, b, a);
    }
    EarlierIsEmptied(lots, order, quantity, a, b);
  }

  lemma EarlierIsEmptied(lots: seq<Lot>, order: seq<nat>, quantity: real, a: nat, b: nat)
    requires OpenDistinct(order, lots) && a < b < |order| && quantity > 0.0
    ensures LotWithout(lots[order[b]], Taken(lots, order, quantity, b)) != lots[order[b]] ==>
              LotWithout(lots[order[a]], Taken(lots, order, quantity, a)).quantity == 0.0
  {
    hide Share, QuantityBefore;
    QuantityBeforeStep(lots, order, a);
    QuantityBeforeIsMonotone(lots, order, a + 1, b);
  }

  // -------- highest cost over chronological lots --------

  /** Under highest cost first with chronological lots: costlier lots stand first, and of equally costly ones those
      acquired earlier. */
  lemma CostliestThenOldest(lots: seq<Lot>, j: nat, k: nat)
    requires NonNegativeQuantities(lots) && Chronological(lots) && j < k < |DisposalOrder(HIFO, lots)|
    ensures InRange(DisposalOrder(HIFO, lots), lots)
    ensures var order := DisposalOrder(HIFO, lots);
            && lots[order[j]].quantity > 0.0 && lots[order[k]].quantity > 0.0
            && UnitCost(lots[order[j]]) >= UnitCost(lots[order[k]])
            && (UnitCost(lots[order[j]]) == UnitCost(lots[order[k]]) ==> order[j] < order[k])
  {
    hide DisposalOrder, UnitCost;
    DisposalOrderIsTakenFirst(HIFO, lots, j, k);
    DisposalOrderIsPermutation(HIFO, lots);
  }

  /** What is left after a removal by highest cost: a lot that gave anything has no costlier open lot, and no equally costly
      older one, beside it. */
  ghost predicate CostliestGone(lots: seq<Lot>, after: seq<Lot>) {
    |after| == |lots| &&
    forall i, j :: 0 <= i < |lots| && 0 <= j < |lots| && lots[i].quantity > 0.0 && lots[j].quantity > 0.0 && after[j] != lots[j] ==>
      (UnitCost(lots[i]) > UnitCost(lots[j]) || (UnitCost(lots[i]) == UnitCost(lots[j]) && i < j)) ==> after[i].quantity == 0.0
  }

  lemma HighestCostLeavesNoneCostlier(lots: seq<Lot>, quantity: real)
    requires WellFormed(lots) && Chronological(lots) && DisposalResult(HIFO, lots, quantity).Success?
    ensures CostliestGone(lots, LotsAfter(HIFO, lots, quantity))
  {
    hide DisposalResult, LotsAfter, UnitCost;
    DisposalConserves(HIFO, lots, quantity);
    forall i, j | 0 <= i < |lots| && 0 <= j < |lots| && lots[i].quantity > 0.0 && lots[j].quantity > 0.0
      ensures UnitCost(lots[i]) > UnitCost(lots[j]) || (UnitCost(lots[i]) == UnitCost(lots[j]) && i < j) ==>
                LotsAfter(HIFO, lots, quantity)[j] != lots[j] ==> LotsAfter(HIFO, lots, quantity)[i].quantity == 0.0
    {
      if UnitCost(lots[i]) > UnitCost(lots[j]) || (UnitCost(lots[i]) == UnitCost(lots[j]) && i < j) {
        ReachedInOrder(HIFO, lots, quantity, i, j);
      }
    }
  }
}
