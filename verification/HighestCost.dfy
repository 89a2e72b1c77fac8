/** Highest-cost-first allocates as much basis as any split of the quantity could, up to half a unit. */
module HighestCost {
  import opened Reals
  import opened Proportions
  import opened Sums
  import opened LotOrder
  import opened Lots
  import opened LotProperties
  import opened LotTheorems

  /** A way of taking the quantity from the lots: a part of each lot, together exactly the quantity. */
  ghost predicate FeasibleSplit(lots: seq<Lot>, split: seq<real>, quantity: real) {
    && |split| == |lots|
    && (forall i :: 0 <= i < |lots| ==> 0.0 <= split[i] <= lots[i].quantity)
    && Sum(split) == quantity
  }

  /** The exact basis of part of a lot. */
  ghost function PartBasis(lot: Lot, part: real): real {
    if lot.quantity == 0.0 then 0.0 else ExactShare(lot.basis, lot.quantity, part)
  }

  ghost function SplitBases(lots: seq<Lot>, split: seq<real>): (s: seq<real>)
    requires |split| == |lots|
    ensures |s| == |lots| && forall i :: 0 <= i < |lots| ==> s[i] == PartBasis(lots[i], split[i])
  {
    seq(|lots|, i requires 0 <= i < |lots| => PartBasis(lots[i], split[i]))
  }

  /** The exact basis a split takes. */
  ghost function SplitBasis(lots: seq<Lot>, split: seq<real>): real
    requires |split| == |lots|
  {
    Sum(SplitBases(lots, split))
  }

  // -------- real arithmetic of the exchange argument --------

  ghost function Cost(part: real, unitCost: real): real {
    part * unitCost
  }

  lemma PartBasisIsCost(lot: Lot, part: real)
    requires lot.quantity > 0.0
    ensures PartBasis(lot, part) == Cost(part, UnitCost(lot))
    ensures Cost(lot.quantity, UnitCost(lot)) == lot.basis
  {
    DivideThenMultiply(lot.basis, lot.quantity);
    CrossProducts(UnitCost(lot), lot.basis, lot.quantity, part);
    QuotientIsUnique(lot.basis * part, lot.quantity, part * UnitCost(lot));
  }

  lemma CostIsLinear(a: real, b: real, unitCost: real)
    ensures Cost(a + b, unitCost) == Cost(a, unitCost) + Cost(b, unitCost)
    ensures Cost(a - b, unitCost) == Cost(a, unitCost) - Cost(b, unitCost)
  {
  }

  lemma CostOrder(part: real, lower: real, upper: real)
    requires 0.0 <= part && lower <= upper
    ensures Cost(part, lower) <= Cost(part, upper)
  {
    MultiplyOrder(lower, upper, part);
  }

  // -------- the exchange argument --------

  /** The costs of a split along a disposal order, every unit cost at most the cap. */
  ghost predicate CostsAlong(lots: seq<Lot>, order: seq<nat>, split: seq<real>, costs: seq<real>, cap: real) {
    && OpenDistinct(order, lots) && |split| == |lots| && |costs| == |lots|
    && forall k :: 0 <= k < |order| ==>
         && 0.0 <= split[order[k]] <= lots[order[k]].quantity
         && costs[order[k]] == Cost(split[order[k]], UnitCost(lots[order[k]]))
         && UnitCost(lots[order[k]]) <= cap
  }

  ghost predicate CostliestFirst(lots: seq<Lot>, order: seq<nat>)
    requires OpenDistinct(order, lots)
  {
    forall j, k :: 0 <= j < k < |order| ==> UnitCost(lots[order[j]]) >= UnitCost(lots[order[k]])
  }

  lemma CostsTail(lots: seq<Lot>, order: seq<nat>, split: seq<real>, costs: seq<real>, cap: real, next: seq<Lot>)
    requires CostsAlong(lots, order, split, costs, cap) && order != []
    requires |next| == |lots| && forall i :: 0 <= i < |lots| && i != order[0] ==> next[i] == lots[i]
    ensures CostsAlong(next, order[1..], split, costs, cap)
    ensures CostliestFirst(lots, order) ==>
              CostliestFirst(next, order[1..]) && CostsAlong(next, order[1..], split, costs, UnitCost(lots[order[0]]))
  {
    hide UnitCost, Cost;
    TailIsOpen(lots, order, next);
    var tail := order[1..];
    assert forall k :: 0 <= k < |tail| ==> tail[k] == order[k + 1];
  }

  /** No split costs more than its quantity at the cap. */
  lemma {:induction false} SplitCostsAtMostCap(lots: seq<Lot>, order: seq<nat>, split: seq<real>, costs: seq<real>, cap: real)
    requires CostsAlong(lots, order, split, costs, cap)
    ensures SumAlong(costs, order) <= Cost(SumAlong(split, order), cap)
    decreases |order|
  {
    hide UnitCost;
    if order == [] {
    } else {
      CostsTail(lots, order, split, costs, cap, lots);
      SplitCostsAtMostCap(lots, order[1..], split, costs, cap);
      CostOrder(split[order[0]], UnitCost(lots[order[0]]), cap);
      CostIsLinear(split[order[0]], SumAlong(split, order[1..]), cap);
    }
  }

  /** Against any split of at least as much, what the disposal allocates falls short by at most the excess
      quantity at the cap, plus half a unit for the one rounded fragment. */
  lemma {:induction false} GreedyBeatsSplits(c: Consumption, order: seq<nat>, split: seq<real>, costs: seq<real>, cap: real)
    requires CostsAlong(c.lots, order, split, costs, cap) && CostliestFirst(c.lots, order)
    requires c.error.None? && Consume(c, order).error.None?
    requires 0.0 <= c.remaining <= SumAlong(split, order)
    ensures Consume(c, order).allocatedBasis - c.allocatedBasis
            >= SumAlong(costs, order) - Cost(SumAlong(split, order) - c.remaining, cap) - 0.5
    decreases |order|
  {
    hide TakeFromLot, UnitCost;
    SplitCostsAtMostCap(c.lots, order, split, costs, cap);
    CostIsLinear(SumAlong(split, order), c.remaining, cap);
    if order == [] || c.remaining == 0.0 {
    } else {
      var lot := c.lots[order[0]];
      var next := TakeFromLot(c, order[0]);
      FirstLotIsAllocatable(c, order);
      TakeFirst(c, order);
      CostsTail(c.lots, order, split, costs, cap, next.lots);
      var u := UnitCost(lot);
      var excess := SumAlong(split, order) - c.remaining;
      CostOrder(excess, u, cap);
      if c.remaining <= lot.quantity {
        FirstFragment(c, order, split, costs, cap);
        assert Consume(next, order[1..]) == next;
      } else {
        SplitWithoutFirst(c, order, split, next.lots);
        GreedyBeatsSplits(next, order[1..], split, costs, u);
        FirstWholeLot(lot, split[order[0]], SumAlong(split, order[1..]), c.remaining);
        PartBasisIsCost(lot, lot.quantity);
      }
    }
  }

  lemma FirstLotIsAllocatable(c: Consumption, order: seq<nat>)
    requires OpenDistinct(order, c.lots) && order != [] && c.remaining > 0.0 && c.error.None?
    requires Consume(c, order).error.None?
    ensures c.lots[order[0]].basis >= 0.0
  {
    var lot := c.lots[order[0]];
    AllocationIsShare(lot.basis, lot.quantity, Minimum(lot.quantity, c.remaining));
  }

  lemma SplitWithoutFirst(c: Consumption, order: seq<nat>, split: seq<real>, next: seq<Lot>)
    requires OpenDistinct(order, c.lots) && order != [] && |split| == |c.lots|
    requires split[order[0]] <= c.lots[order[0]].quantity && c.remaining <= SumAlong(split, order)
    ensures c.remaining - c.lots[order[0]].quantity <= SumAlong(split, order[1..])
  {
  }

  /** The last fragment: rounded once, and no unit of any split costs more than its lot's. */
  lemma FirstFragment(c: Consumption, order: seq<nat>, split: seq<real>, costs: seq<real>, cap: real)
    requires CostsAlong(c.lots, order, split, costs, cap) && CostliestFirst(c.lots, order) && order != []
    requires 0.0 < c.remaining <= c.lots[order[0]].quantity && c.remaining <= SumAlong(split, order)
    ensures var lot := c.lots[order[0]];
            Share(lot.basis, lot.quantity, c.remaining)
            >= SumAlong(costs, order) - Cost(SumAlong(split, order) - c.remaining, UnitCost(lot)) - 0.5
  {
    hide UnitCost;
    var lot := c.lots[order[0]];
    ShareIsNear(lot.basis, lot.quantity, c.remaining);
    PartBasisIsCost(lot, c.remaining);
    assert CostsAlong(c.lots, order, split, costs, UnitCost(lot)) by {
      forall k | 0 <= k < |order|
        ensures UnitCost(c.lots[order[k]]) <= UnitCost(lot)
      {
      }
    }
    SplitCostsAtMostCap(c.lots, order, split, costs, UnitCost(lot));
    CostIsLinear(SumAlong(split, order), c.remaining, UnitCost(lot));
  }

  /** A whole first lot is worth its part of the split plus the shortfall at its own unit cost. */
  lemma FirstWholeLot(lot: Lot, part: real, rest: real, remaining: real)
    requires lot.quantity > 0.0
    ensures lot.basis - Cost(rest - (remaining - lot.quantity), UnitCost(lot))
            == Cost(part, UnitCost(lot)) - Cost(part + rest - remaining, UnitCost(lot))
  {
    PartBasisIsCost(lot, lot.quantity);
    CostIsLinear(rest - remaining, lot.quantity, UnitCost(lot));
    CostIsLinear(part, rest - remaining, UnitCost(lot));
  }

  /** A successful highest-cost-first disposal allocates at least the exact basis of every feasible split of the
      same quantity, less half a unit. */
  lemma HighestCostIsOptimal(lots: seq<Lot>, quantity: real, split: seq<real>)
    requires NonNegativeQuantities(lots) && FeasibleSplit(lots, split, quantity)
    requires DisposalResult(HIFO, lots, quantity).Success?
    ensures DisposalResult(HIFO, lots, quantity).value.allocatedBasis >= SplitBasis(lots, split) - 0.5
  {
    hide DisposalOrder, Consume, UnitCost;
    var order, costs := DisposalOrder(HIFO, lots), SplitBases(lots, split);
    DisposalOrderIsOpen(HIFO, lots);
    DisposalOrderIsPermutation(HIFO, lots);
    if order == [] {
      SumOfZeros(split);
      assert false;
    }
    HighestCostOrder(lots);
    var cap := UnitCost(lots[order[0]]);
    forall k | 0 <= k < |order|
      ensures costs[order[k]] == Cost(split[order[k]], UnitCost(lots[order[k]])) && UnitCost(lots[order[k]]) <= cap
    {
      PartBasisIsCost(lots[order[k]], split[order[k]]);
    }
    SumAlongIsSum(split, order);
    SumAlongIsSum(costs, order);
    GreedyBeatsSplits(Begin(lots, quantity), order, split, costs, cap);
    CostIsLinear(quantity, quantity, cap);
  }

  lemma HighestCostOrder(lots: seq<Lot>)
    requires NonNegativeQuantities(lots) && OpenDistinct(DisposalOrder(HIFO, lots), lots)
    ensures CostliestFirst(lots, DisposalOrder(HIFO, lots))
  {
    hide DisposalOrder, UnitCost;
    var order := DisposalOrder(HIFO, lots);
    forall j, k | 0 <= j < k < |order|
      ensures UnitCost(lots[order[j]]) >= UnitCost(lots[order[k]])
    {
      DisposalOrderIsSorted(HIFO, lots, j, k);
      CrossMultiplicationComparesUnitCosts(lots[order[j]], lots[order[k]]);
    }
  }
}
