/** Two removals in a row against one removal of their sum, under every lot method. */
module TwoRemovals {
  import opened Sequences
  import opened Outcomes
  import opened Proportions
  import opened Reals
  import opened Sums
  import opened Decimals
  import opened StableSorting
  import opened LotOrder
  import opened Lots
  import opened LotProperties
  import opened LotTheorems
  import Text

  ghost predicate SameQuantities(a: seq<Lot>, b: seq<Lot>) {
    |a| == |b| && forall i :: 0 <= i < |a| ==> a[i].quantity == b[i].quantity
  }

  // -------- one removal along the disposal order --------

  /** What a removal leaves of a lot that has the given quantity before it. */
  function LeftOf(width: real, ahead: real, quantity: real): real {
    width - Clip(quantity - ahead, width)
  }

  /** The lots after a removal, along the order. */
  ghost predicate RemovedAlong(lots: seq<Lot>, order: seq<nat>, quantity: real, after: seq<Lot>) {
    && OpenDistinct(order, lots) && |after| == |lots|
    && (forall i :: 0 <= i < |lots| && i !in order ==> lots[i].quantity == 0.0 && after[i] == lots[i])
    && forall k :: 0 <= k < |order| ==> LeavesOf(lots, order, quantity, after, k)
  }

  /** The lot at position k keeps its identity and what the removal leaves; a lot that gives nothing is untouched. */
  ghost predicate LeavesOf(lots: seq<Lot>, order: seq<nat>, quantity: real, after: seq<Lot>, k: nat)
    requires InRange(order, lots) && |after| == |lots| && k < |order|
  {
    var lot, left := lots[order[k]], after[order[k]];
    && SameIdentity(lot, left)
    && left.quantity == LeftOf(lot.quantity, QuantityBefore(lots, order, k), quantity)
    && (left.quantity == lot.quantity ==> left == lot)
  }

  lemma RemovalAlongOrder(lotMethod: LotMethod, lots: seq<Lot>, quantity: real)
    requires WellFormed(lots) && DisposalResult(lotMethod, lots, quantity).Success?
    ensures RemovedAlong(lots, DisposalOrder(lotMethod, lots), quantity, LotsAfter(lotMethod, lots, quantity))
    ensures WellFormed(LotsAfter(lotMethod, lots, quantity))
    ensures 0.0 < quantity <= TotalOpenQuantity(lots)
    ensures TotalOpenQuantity(LotsAfter(lotMethod, lots, quantity)) == TotalOpenQuantity(lots) - quantity
    ensures ReachedBasesNonNegative(lots, DisposalOrder(lotMethod, lots), quantity)
  {
    hide DisposalOrder, Consume, QuantityBefore, Share, ReachedBasesNonNegative, TotalOpenQuantity;
    var order := DisposalOrder(lotMethod, lots);
    DisposalSucceedsExactlyWhen(lotMethod, lots, quantity);
    ConsumeAllTakesExactly(lotMethod, lots, quantity);
    DisposalOrderIsPermutation(lotMethod, lots);
    DisposalConserves(lotMethod, lots, quantity);
    var after := LotsAfter(lotMethod, lots, quantity);
    forall k | 0 <= k < |order|
      ensures LeavesOf(lots, order, quantity, after, k)
    {
      assert after[order[k]] == LotWithout(lots[order[k]], Taken(lots, order, quantity, k));
    }
  }

  lemma WhatIsLeft(width: real, ahead: real, quantity: real)
    requires 0.0 <= width && 0.0 <= ahead && 0.0 <= quantity
    ensures Maximum(0.0, ahead + width - quantity) == Maximum(0.0, ahead - quantity) + LeftOf(width, ahead, quantity)
    ensures 0.0 <= LeftOf(width, ahead, quantity) <= width
    ensures 0.0 < LeftOf(width, ahead, quantity) < width <==> ahead < quantity < ahead + width
    ensures LeftOf(width, ahead, quantity) == width <==> quantity <= ahead || width == 0.0
    ensures LeftOf(width, ahead, quantity) == 0.0 <==> ahead + width <= quantity || width == 0.0
  {
  }

  /** Along the old order, what is left before a position is what stood before it less the removal. */
  lemma {:induction false} LeftBefore(lots: seq<Lot>, order: seq<nat>, quantity: real, after: seq<Lot>, k: nat)
    requires RemovedAlong(lots, order, quantity, after) && 0.0 <= quantity && k <= |order|
    ensures InRange(order, after) && 0.0 <= QuantityBefore(lots, order, k)
    ensures QuantityBefore(after, order, k) == Maximum(0.0, QuantityBefore(lots, order, k) - quantity)
    decreases k
  {
    hide QuantityBefore, LeftOf;
    QuantityBeforeIsMonotone(lots, order, 0, k);
    if k == 0 {
      NothingBefore(lots, order);
      NothingBefore(after, order);
    } else {
      LeftBefore(lots, order, quantity, after, k - 1);
      QuantityBeforeStep(lots, order, k - 1);
      QuantityBeforeStep(after, order, k - 1);
      assert LeavesOf(lots, order, quantity, after, k - 1);
      WhatIsLeft(lots[order[k - 1]].quantity, QuantityBefore(lots, order, k - 1), quantity);
    }
  }

  lemma NothingBefore(lots: seq<Lot>, order: seq<nat>)
    requires InRange(order, lots)
    ensures QuantityBefore(lots, order, 0) == 0.0
  {
  }

  // -------- what stands before a lot, as a set of positions --------

  ghost function Front(order: seq<nat>, k: nat): set<nat>
    requires k <= |order|
  {
    set p | p in order[..k]
  }

  lemma {:induction false} QuantityBeforeIsAlong(lots: seq<Lot>, order: seq<nat>, k: nat)
    requires InRange(order, lots) && k <= |order|
    ensures QuantityBefore(lots, order, k) == SumAlong(OpenQuantities(lots), order[..k])
    decreases k
  {
    if k == 0 {
    } else {
      QuantityBeforeIsAlong(lots, order[1..], k - 1);
      assert order[..k][1..] == order[1..][..k - 1];
    }
  }

  lemma QuantityBeforeIsMasked(lots: seq<Lot>, order: seq<nat>, k: nat)
    requires InRange(order, lots) && Distinct(order) && k <= |order|
    ensures QuantityBefore(lots, order, k) == Sum(Masked(OpenQuantities(lots), Front(order, k)))
  {
    hide Sum;
    QuantityBeforeIsAlong(lots, order, k);
    SumAlongIsMasked(OpenQuantities(lots), order[..k]);
  }

  // -------- the order, as a relation between positions --------

  lemma OrderPositions(lotMethod: LotMethod, lots: seq<Lot>, j: nat, k: nat)
    requires NonNegativeQuantities(lots) && j < |DisposalOrder(lotMethod, lots)| && k < |DisposalOrder(lotMethod, lots)|
    ensures var order := DisposalOrder(lotMethod, lots);
            Ahead(PositionBefore(lotMethod, lots), order[j], order[k]) <==> j < k
  {
    hide PositionBefore;
    var before, open := PositionBefore(lotMethod, lots), OpenIndexes(lots, |lots|);
    var order := DisposalOrder(lotMethod, lots);
    PositionsAreWeaklyOrdered(lotMethod, lots);
    StableSortIsStable(before, open);
    StableSortElements(before, open);
    assert order[j] in order && order[k] in order;
    if k <= j {
      AheadIsOneWay(before, open, order[k], order[j]);
    }
  }

  lemma AheadIsOneWay(before: (nat, nat) -> bool, all: seq<nat>, a: nat, b: nat)
    requires StrictWeakOrder(before, all) && a in all && b in all && (a == b || Ahead(before, a, b))
    ensures !Ahead(before, b, a)
  {
  }

  /** The positions in front of position k are the open ones that stand ahead of its lot. */
  lemma FrontIsAhead(lotMethod: LotMethod, lots: seq<Lot>, k: nat, j: nat)
    requires NonNegativeQuantities(lots) && k < |DisposalOrder(lotMethod, lots)|
    ensures var order := DisposalOrder(lotMethod, lots);
            j in Front(order, k) <==> j in order && Ahead(PositionBefore(lotMethod, lots), j, order[k])
  {
    hide PositionBefore, DisposalOrder, Ahead;
    var order := DisposalOrder(lotMethod, lots);
    if j in order {
      var at := PositionIn(order, j);
      OrderPositions(lotMethod, lots, at, k);
      DisposalOrderIsPermutation(lotMethod, lots);
      FrontByPosition(order, k, at);
    } else {
      assert j !in order[..k];
    }
  }

  ghost function PositionIn(order: seq<nat>, i: nat): (k: nat)
    requires i in order
    ensures k < |order| && order[k] == i
  {
    var k :| 0 <= k < |order| && order[k] == i;
    k
  }

  lemma FrontByPosition(order: seq<nat>, k: nat, at: nat)
    requires Distinct(order) && k <= |order| && at < |order|
    ensures order[at] in Front(order, k) <==> at < k
  {
    if at < k {
      assert order[..k][at] == order[at];
    }
  }

  // -------- after the first removal --------

  ghost predicate Removed(lotMethod: LotMethod, lots: seq<Lot>, first: real, middle: seq<Lot>) {
    && NonNegativeQuantities(lots) && NonNegativeQuantities(middle) && 0.0 < first
    && RemovedAlong(lots, DisposalOrder(lotMethod, lots), first, middle)
  }

  /** The removal took some of the lot and left some. */
  ghost predicate PartlyRemoved(lots: seq<Lot>, middle: seq<Lot>, i: nat) {
    i < |lots| && i < |middle| && 0.0 < middle[i].quantity < lots[i].quantity
  }

  /** A lot still open is either the one partly removed, which the removal ended in, or untouched behind it. */
  lemma StillOpen(lotMethod: LotMethod, lots: seq<Lot>, first: real, middle: seq<Lot>, i: nat) returns (k: nat)
    requires Removed(lotMethod, lots, first, middle) && i < |middle| && middle[i].quantity > 0.0
    ensures var order := DisposalOrder(lotMethod, lots);
            && k < |order| && order[k] == i && InRange(order, lots) && OpenDistinct(order, lots) && SameIdentity(lots[i], middle[i])
            && (PartlyRemoved(lots, middle, i) ==>
                  && QuantityBefore(lots, order, k) < first < QuantityBefore(lots, order, k) + lots[i].quantity
                  && first == QuantityBefore(lots, order, k) + lots[i].quantity - middle[i].quantity)
            && (!PartlyRemoved(lots, middle, i) ==> middle[i] == lots[i] && first <= QuantityBefore(lots, order, k))
  {
    hide DisposalOrder, QuantityBefore;
    var order := DisposalOrder(lotMethod, lots);
    assert i in order;
    k := PositionIn(order, i);
    assert LeavesOf(lots, order, first, middle, k);
    QuantityBeforeIsMonotone(lots, order, 0, k);
    NothingBefore(lots, order);
    WhatIsLeft(lots[i].quantity, QuantityBefore(lots, order, k), first);
  }

  /** The partly removed lot stands in front of every other lot still open. */
  lemma PartlyRemovedIsInFront(lotMethod: LotMethod, lots: seq<Lot>, first: real, middle: seq<Lot>, p: nat, i: nat)
    requires Removed(lotMethod, lots, first, middle) && PartlyRemoved(lots, middle, p)
    requires i < |middle| && middle[i].quantity > 0.0 && i != p
    ensures !PartlyRemoved(lots, middle, i) && i in DisposalOrder(lotMethod, lots)
    ensures p in Front(DisposalOrder(lotMethod, lots), PositionIn(DisposalOrder(lotMethod, lots), i))
  {
    hide DisposalOrder, QuantityBefore, RemovedAlong;
    var order := DisposalOrder(lotMethod, lots);
    var kp := StillOpen(lotMethod, lots, first, middle, p);
    var ki := StillOpen(lotMethod, lots, first, middle, i);
    if ki < kp {
      QuantityBeforeIsMonotone(lots, order, ki, kp);
    } else {
      QuantityBeforeIsMonotone(lots, order, kp, ki);
      FrontByPosition(order, ki, kp);
      assert PositionIn(order, i) == ki;
    }
  }

  lemma SameStanding(lotMethod: LotMethod, lots: seq<Lot>, first: real, middle: seq<Lot>, i: nat, j: nat)
    requires Removed(lotMethod, lots, first, middle)
    requires i < |middle| && middle[i].quantity > 0.0 && !PartlyRemoved(lots, middle, i)
    requires j < |middle| && middle[j].quantity > 0.0 && !PartlyRemoved(lots, middle, j)
    ensures i in DisposalOrder(lotMethod, lots) && i in DisposalOrder(lotMethod, middle)
    ensures var old', new' := DisposalOrder(lotMethod, lots), DisposalOrder(lotMethod, middle);
            j in Front(old', PositionIn(old', i)) <==> j in Front(new', PositionIn(new', i))
  {
    hide DisposalOrder, QuantityBefore, RemovedAlong, SortsBefore, Front;
    var ki := StillOpen(lotMethod, lots, first, middle, i);
    var kj := StillOpen(lotMethod, lots, first, middle, j);
    DisposalOrderIsPermutation(lotMethod, middle);
    FrontIsAhead(lotMethod, lots, PositionIn(DisposalOrder(lotMethod, lots), i), j);
    FrontIsAhead(lotMethod, middle, PositionIn(DisposalOrder(lotMethod, middle), i), j);
  }

  lemma NotInItsOwnFront(order: seq<nat>, i: nat)
    requires Distinct(order) && i in order
    ensures i !in Front(order, PositionIn(order, i))
  {
    FrontByPosition(order, PositionIn(order, i), PositionIn(order, i));
  }

  /** What stands before an untouched lot in the second removal is what stood before it less the first removal, except
      that the partly removed lot may have fallen behind it. */
  lemma BeforeTheSecond(lotMethod: LotMethod, lots: seq<Lot>, first: real, middle: seq<Lot>, i: nat, pivot: nat)
    requires Removed(lotMethod, lots, first, middle)
    requires i < |middle| && middle[i].quantity > 0.0 && !PartlyRemoved(lots, middle, i) && pivot < |middle|
    requires (forall p :: PartlyRemoved(lots, middle, p) ==> p == pivot) && (!PartlyRemoved(lots, middle, pivot) ==> pivot == i)
    ensures i in DisposalOrder(lotMethod, lots) && i in DisposalOrder(lotMethod, middle)
    ensures InRange(DisposalOrder(lotMethod, lots), lots) && InRange(DisposalOrder(lotMethod, middle), middle)
    ensures var old', new' := DisposalOrder(lotMethod, lots), DisposalOrder(lotMethod, middle);
            var overtaken := PartlyRemoved(lots, middle, pivot) && pivot !in Front(new', PositionIn(new', i));
            QuantityBefore(middle, new', PositionIn(new', i))
            == QuantityBefore(lots, old', PositionIn(old', i)) - first - (if overtaken then middle[pivot].quantity else 0.0)
  {
    hide DisposalOrder, QuantityBefore, RemovedAlong, Front, Sum;
    var old', new' := DisposalOrder(lotMethod, lots), DisposalOrder(lotMethod, middle);
    var k := StillOpen(lotMethod, lots, first, middle, i);
    DisposalOrderIsOpen(lotMethod, middle);
    DisposalOrderIsPermutation(lotMethod, middle);
    assert PositionIn(old', i) == k;
    var weights, before, after := OpenQuantities(middle), Front(old', k), Front(new', PositionIn(new', i));
    forall j | 0 <= j < |weights| && j != pivot && weights[j] != 0.0
      ensures j in before <==> j in after
    {
      SameStanding(lotMethod, lots, first, middle, i, j);
    }
    MasksDifferAt(weights, before, after, pivot);
    if PartlyRemoved(lots, middle, pivot) {
      PartlyRemovedIsInFront(lotMethod, lots, first, middle, pivot, i);
    } else {
      NotInItsOwnFront(old', i);
      NotInItsOwnFront(new', i);
    }
    RemovedLeavesBefore(lots, old', first, middle, k);
    QuantityBeforeIsMasked(middle, old', k);
    QuantityBeforeIsMasked(middle, new', PositionIn(new', i));
  }

  lemma RemovedLeavesBefore(lots: seq<Lot>, order: seq<nat>, first: real, middle: seq<Lot>, k: nat)
    requires RemovedAlong(lots, order, first, middle) && 0.0 < first && k < |order| && first <= QuantityBefore(lots, order, k)
    ensures InRange(order, middle) && QuantityBefore(middle, order, k) == QuantityBefore(lots, order, k) - first
  {
    LeftBefore(lots, order, first, middle, k);
  }

  // -------- the two removals --------

  /** After the first removal other lots stand ahead of the one it left partly removed, and the second removal is too
      small to take them and what is left of that one. */
  ghost predicate OvertakenAt(lotMethod: LotMethod, lots: seq<Lot>, middle: seq<Lot>, second: real, p: nat)
    requires InRange(DisposalOrder(lotMethod, middle), middle)
  {
    var order := DisposalOrder(lotMethod, middle);
    && PartlyRemoved(lots, middle, p) && p in order && PositionIn(order, p) > 0
    && second < QuantityBefore(middle, order, PositionIn(order, p)) + middle[p].quantity
  }

  ghost predicate Overtaken(lotMethod: LotMethod, lots: seq<Lot>, middle: seq<Lot>, second: real)
    requires InRange(DisposalOrder(lotMethod, middle), middle)
  {
    exists p :: OvertakenAt(lotMethod, lots, middle, second, p)
  }

  lemma OnePartlyRemoved(lotMethod: LotMethod, lots: seq<Lot>, first: real, middle: seq<Lot>, i: nat) returns (pivot: nat)
    requires Removed(lotMethod, lots, first, middle) && i < |middle|
    ensures pivot < |middle| && forall p :: PartlyRemoved(lots, middle, p) ==> p == pivot
    ensures !PartlyRemoved(lots, middle, pivot) ==> pivot == i
  {
    hide Removed;
    if p: nat :| PartlyRemoved(lots, middle, p) {
      forall q | PartlyRemoved(lots, middle, q)
        ensures q == p
      {
        if q != p {
          PartlyRemovedIsInFront(lotMethod, lots, first, middle, p, q);
        }
      }
      pivot := p;
    } else {
      pivot := i;
    }
  }

  /** In its turn, an untouched lot has no more before it than one removal of the sum would leave there. */
  lemma SecondReaches(lotMethod: LotMethod, lots: seq<Lot>, first: real, middle: seq<Lot>, k: nat)
    requires Removed(lotMethod, lots, first, middle) && OpenDistinct(DisposalOrder(lotMethod, lots), lots)
    requires k < |DisposalOrder(lotMethod, lots)| && first <= QuantityBefore(lots, DisposalOrder(lotMethod, lots), k)
    ensures var i, order := DisposalOrder(lotMethod, lots)[k], DisposalOrder(lotMethod, middle);
            && i < |middle| && middle[i] == lots[i] && i in order && InRange(order, middle)
            && QuantityBefore(middle, order, PositionIn(order, i)) <= QuantityBefore(lots, DisposalOrder(lotMethod, lots), k) - first
  {
    hide DisposalOrder, QuantityBefore, Front;
    var order := DisposalOrder(lotMethod, lots);
    var i := order[k];
    assert LeavesOf(lots, order, first, middle, k);
    QuantityBeforeIsMonotone(lots, order, 0, k);
    NothingBefore(lots, order);
    WhatIsLeft(lots[i].quantity, QuantityBefore(lots, order, k), first);
    var pivot := OnePartlyRemoved(lotMethod, lots, first, middle, i);
    BeforeTheSecond(lotMethod, lots, first, middle, i, pivot);
    assert PositionIn(order, i) == k;
  }

  /** When two removals succeed, so does one removal of their sum. */
  lemma SumIsNotRefused(lotMethod: LotMethod, lots: seq<Lot>, first: real, second: real)
    requires WellFormed(lots) && DisposalResult(lotMethod, lots, first).Success?
    requires WellFormed(LotsAfter(lotMethod, lots, first)) && DisposalResult(lotMethod, LotsAfter(lotMethod, lots, first), second).Success?
    ensures DisposalResult(lotMethod, lots, first + second).Success?
  {
    hide DisposalOrder, DisposalResult, LotsAfter, QuantityBefore, RemovedAlong, TotalOpenQuantity;
    var middle, order := LotsAfter(lotMethod, lots, first), DisposalOrder(lotMethod, lots);
    RemovalAlongOrder(lotMethod, lots, first);
    RemovalAlongOrder(lotMethod, middle, second);
    DisposalOrderIsOpen(lotMethod, lots);
    DisposalOrderIsOpen(lotMethod, middle);
    forall k | 0 <= k < |order| && Reached(lots, order, first + second, k)
      ensures lots[order[k]].basis >= 0.0
    {
      if Reached(lots, order, first, k) {
      } else {
        SecondReaches(lotMethod, lots, first, middle, k);
        var again := PositionIn(DisposalOrder(lotMethod, middle), order[k]);
        assert Reached(middle, DisposalOrder(lotMethod, middle), second, again);
      }
    }
    DisposalSucceedsExactlyWhen(lotMethod, lots, first + second);
  }

  lemma PartlyLeft(width: real, ahead: real, left: real, first: real, second: real, overtaking: real)
    requires 0.0 < left < width && first == ahead + width - left && 0.0 < second && 0.0 <= overtaking
    ensures LeftOf(left, overtaking, second) == LeftOf(width, ahead, first + second) <==> overtaking == 0.0 || overtaking + left <= second
  {
  }

  /** The lot partly removed by the first removal. */
  lemma PartlyRemovedLot(lotMethod: LotMethod, lots: seq<Lot>, first: real, middle: seq<Lot>, second: real, last: seq<Lot>, once: seq<Lot>, p: nat)
    requires Removed(lotMethod, lots, first, middle) && Removed(lotMethod, middle, second, last) && Removed(lotMethod, lots, first + second, once)
    requires PartlyRemoved(lots, middle, p) && InRange(DisposalOrder(lotMethod, middle), middle)
    ensures last[p].quantity == once[p].quantity <==> !OvertakenAt(lotMethod, lots, middle, second, p)
  {
    hide DisposalOrder, QuantityBefore;
    var order, again := DisposalOrder(lotMethod, lots), DisposalOrder(lotMethod, middle);
    var k := StillOpen(lotMethod, lots, first, middle, p);
    assert p in again;
    var turn := PositionIn(again, p);
    assert LeavesOf(middle, again, second, last, turn) && LeavesOf(lots, order, first + second, once, k);
    NothingBefore(middle, again);
    QuantityBeforeIsMonotone(middle, again, 0, turn);
    PartlyLeft(lots[p].quantity, QuantityBefore(lots, order, k), middle[p].quantity, first, second, QuantityBefore(middle, again, turn));
  }

  lemma BothEmpty(width: real, ahead: real, earlier: real, first: real, second: real)
    requires 0.0 < width && 0.0 <= ahead && 0.0 < first && ahead + width <= second && earlier + width <= first + second && 0.0 <= earlier
    ensures LeftOf(width, ahead, second) == LeftOf(width, earlier, first + second) == 0.0
  {
  }

  /** A lot the first removal left untouched. */
  lemma UntouchedLot(lotMethod: LotMethod, lots: seq<Lot>, first: real, middle: seq<Lot>, second: real, last: seq<Lot>, once: seq<Lot>, i: nat)
    requires Removed(lotMethod, lots, first, middle) && Removed(lotMethod, middle, second, last) && Removed(lotMethod, lots, first + second, once)
    requires i < |middle| && middle[i].quantity > 0.0 && !PartlyRemoved(lots, middle, i)
    requires InRange(DisposalOrder(lotMethod, middle), middle) && !Overtaken(lotMethod, lots, middle, second)
    ensures last[i].quantity == once[i].quantity
  {
    hide DisposalOrder, QuantityBefore, Front;
    var order, again := DisposalOrder(lotMethod, lots), DisposalOrder(lotMethod, middle);
    var k := StillOpen(lotMethod, lots, first, middle, i);
    assert PositionIn(order, i) == k && i in again;
    var turn := PositionIn(again, i);
    assert LeavesOf(middle, again, second, last, turn) && LeavesOf(lots, order, first + second, once, k);
    var pivot := OnePartlyRemoved(lotMethod, lots, first, middle, i);
    BeforeTheSecond(lotMethod, lots, first, middle, i, pivot);
    if PartlyRemoved(lots, middle, pivot) && pivot !in Front(again, turn) {
      assert pivot in again && !OvertakenAt(lotMethod, lots, middle, second, pivot);
      var pivotTurn := PositionIn(again, pivot);
      FrontByPosition(again, turn, pivotTurn);
      QuantityBeforeIsMonotone(middle, again, turn, pivotTurn);
      NothingBefore(middle, again);
      QuantityBeforeIsMonotone(middle, again, 0, turn);
      BothEmpty(middle[i].quantity, QuantityBefore(middle, again, turn), QuantityBefore(lots, order, k), first, second);
    }
  }

  /** A lot the first removal emptied, or that was closed already. */
  lemma ClosedLot(lotMethod: LotMethod, lots: seq<Lot>, first: real, middle: seq<Lot>, second: real, last: seq<Lot>, once: seq<Lot>, i: nat)
    requires Removed(lotMethod, lots, first, middle) && Removed(lotMethod, middle, second, last) && Removed(lotMethod, lots, first + second, once)
    requires i < |middle| && middle[i].quantity == 0.0
    ensures last[i].quantity == once[i].quantity == 0.0
  {
    hide DisposalOrder, QuantityBefore;
    var order := DisposalOrder(lotMethod, lots);
    if i in order {
      var k := PositionIn(order, i);
      assert LeavesOf(lots, order, first, middle, k) && LeavesOf(lots, order, first + second, once, k);
      NothingBefore(lots, order);
      QuantityBeforeIsMonotone(lots, order, 0, k);
      WhatIsLeft(lots[i].quantity, QuantityBefore(lots, order, k), first);
      WhatIsLeft(lots[i].quantity, QuantityBefore(lots, order, k), first + second);
    }
    DisposalOrderIsPermutation(lotMethod, middle);
    assert i !in DisposalOrder(lotMethod, middle);
  }

  /** The lots a removal leaves, or its refusal. */
  ghost function AfterRemoval(lotMethod: LotMethod, lots: seq<Lot>, quantity: real): (after: Result<seq<Lot>>)
    requires WellFormed(lots)
    ensures after.Success? ==> WellFormed(after.value)
  {
    match DisposalResult(lotMethod, lots, quantity)
    case Failure(e) => Failure(e)
    case Success(_) =>
      RemovalAlongOrder(lotMethod, lots, quantity);
      Success(LotsAfter(lotMethod, lots, quantity))
  }

  lemma SameByLots(lotMethod: LotMethod, lots: seq<Lot>, first: real, middle: seq<Lot>, second: real, last: seq<Lot>, once: seq<Lot>)
    requires Removed(lotMethod, lots, first, middle) && Removed(lotMethod, middle, second, last) && Removed(lotMethod, lots, first + second, once)
    ensures InRange(DisposalOrder(lotMethod, middle), middle)
    ensures SameQuantities(last, once) <==> !Overtaken(lotMethod, lots, middle, second)
  {
    hide DisposalOrder, QuantityBefore, OvertakenAt, Removed;
    SameLengths(lotMethod, lots, first, middle, second, last, once);
    if p: nat :| OvertakenAt(lotMethod, lots, middle, second, p) {
      OvertakenIsPartly(lotMethod, lots, middle, second, p);
      PartlyRemovedLot(lotMethod, lots, first, middle, second, last, once, p);
      assert last[p].quantity != once[p].quantity;
    } else {
      forall i | 0 <= i < |middle|
        ensures last[i].quantity == once[i].quantity
      {
        if middle[i].quantity == 0.0 {
          ClosedLot(lotMethod, lots, first, middle, second, last, once, i);
        } else if PartlyRemoved(lots, middle, i) {
          PartlyRemovedLot(lotMethod, lots, first, middle, second, last, once, i);
        } else {
          UntouchedLot(lotMethod, lots, first, middle, second, last, once, i);
        }
      }
    }
  }

  lemma SameLengths(lotMethod: LotMethod, lots: seq<Lot>, first: real, middle: seq<Lot>, second: real, last: seq<Lot>, once: seq<Lot>)
    requires Removed(lotMethod, lots, first, middle) && Removed(lotMethod, middle, second, last) && Removed(lotMethod, lots, first + second, once)
    ensures |last| == |once| == |middle| == |lots| && InRange(DisposalOrder(lotMethod, middle), middle)
    ensures forall i :: 0 <= i < |middle| ==> middle[i].quantity >= 0.0
  {
    hide DisposalOrder, QuantityBefore;
  }

  /** Under every lot method, when two removals succeed so does one removal of their sum, and it leaves every lot with
      the same quantity if and only if no other lot has overtaken the one the first removal left partly removed, or the
      second removal takes that one and all that overtook it. */
  lemma RemovingTwiceIsRemovingTheSumExactlyWhen(lotMethod: LotMethod, lots: seq<Lot>, first: real, second: real)
    requires WellFormed(lots) && AfterRemoval(lotMethod, lots, first).Success?
    requires AfterRemoval(lotMethod, AfterRemoval(lotMethod, lots, first).value, second).Success?
    ensures AfterRemoval(lotMethod, lots, first + second).Success?
    ensures var middle := AfterRemoval(lotMethod, lots, first).value;
            && InRange(DisposalOrder(lotMethod, middle), middle)
            && (SameQuantities(AfterRemoval(lotMethod, middle, second).value, AfterRemoval(lotMethod, lots, first + second).value)
                <==> !Overtaken(lotMethod, lots, middle, second))
  {
    hide DisposalOrder, DisposalResult, LotsAfter, QuantityBefore, RemovedAlong, Overtaken, SameQuantities;
    var middle := LotsAfter(lotMethod, lots, first);
    RemovalAlongOrder(lotMethod, lots, first);
    RemovalAlongOrder(lotMethod, middle, second);
    SumIsNotRefused(lotMethod, lots, first, second);
    RemovalAlongOrder(lotMethod, lots, first + second);
    SameByLots(lotMethod, lots, first, middle, second, LotsAfter(lotMethod, middle, second), LotsAfter(lotMethod, lots, first + second));
  }

  lemma OvertakenIsPartly(lotMethod: LotMethod, lots: seq<Lot>, middle: seq<Lot>, second: real, p: nat)
    requires InRange(DisposalOrder(lotMethod, middle), middle) && OvertakenAt(lotMethod, lots, middle, second, p)
    ensures PartlyRemoved(lots, middle, p)
  {
  }

  /** Without regard to cost nothing overtakes: in a queue or a stack two removals always equal one of their sum. */
  lemma QueuesAndStacksRemoveAlike(lotMethod: LotMethod, lots: seq<Lot>, first: real, second: real)
    requires lotMethod != HIFO && WellFormed(lots) && AfterRemoval(lotMethod, lots, first).Success?
    requires AfterRemoval(lotMethod, AfterRemoval(lotMethod, lots, first).value, second).Success?
    ensures AfterRemoval(lotMethod, lots, first + second).Success?
    ensures SameQuantities(AfterRemoval(lotMethod, AfterRemoval(lotMethod, lots, first).value, second).value,
                           AfterRemoval(lotMethod, lots, first + second).value)
  {
    hide DisposalResult, LotsAfter, QuantityBefore, DisposalOrder, RemovedAlong, SameQuantities;
    var middle := LotsAfter(lotMethod, lots, first);
    RemovalAlongOrder(lotMethod, lots, first);
    RemovingTwiceIsRemovingTheSumExactlyWhen(lotMethod, lots, first, second);
    if p: nat :| OvertakenAt(lotMethod, lots, middle, second, p) {
      NothingOvertakes(lotMethod, lots, first, middle, p);
    }
  }

  lemma NothingOvertakes(lotMethod: LotMethod, lots: seq<Lot>, first: real, middle: seq<Lot>, p: nat)
    requires lotMethod != HIFO && Removed(lotMethod, lots, first, middle) && PartlyRemoved(lots, middle, p)
    ensures p in DisposalOrder(lotMethod, middle) && PositionIn(DisposalOrder(lotMethod, middle), p) == 0
  {
    hide DisposalOrder, QuantityBefore, RemovedAlong, SortsBefore, Front;
    var order, again := DisposalOrder(lotMethod, lots), DisposalOrder(lotMethod, middle);
    DisposalOrderIsPermutation(lotMethod, middle);
    var turn := PositionIn(again, p);
    if turn > 0 {
      var i := again[0];
      assert i in again;
      PartlyRemovedIsInFront(lotMethod, lots, first, middle, p, i);
      FrontIsAhead(lotMethod, lots, PositionIn(order, i), p);
      var ki := StillOpen(lotMethod, lots, first, middle, i);
      var kp := StillOpen(lotMethod, lots, first, middle, p);
      OrderPositions(lotMethod, middle, turn, 0);
      SameChronology(lotMethod, lots[p], middle[p], lots[i], middle[i]);
    }
  }

  lemma SameChronology(lotMethod: LotMethod, a: Lot, b: Lot, c: Lot, d: Lot)
    requires lotMethod != HIFO && SameIdentity(a, b) && SameIdentity(c, d)
    ensures SortsBefore(lotMethod, a, c) == SortsBefore(lotMethod, b, d)
    ensures SortsBefore(lotMethod, c, a) == SortsBefore(lotMethod, d, b)
  {
    hide CompareHighestCost, Text.TrimSpace, Text.Compare;
  }

  /** Highest-cost-first is not such a line: rounding the first removal changes which lot is costliest, so two
      removals of one unit leave one unit in each of two equal lots, and one removal of two empties the first. */
  lemma HighestCostRemovingTwiceDiffers()
    ensures var lots := [Lot("a", 1, 1, 2.0, 3.0), Lot("b", 1, 2, 2.0, 3.0)];
            var middle := LotsAfter(HIFO, lots, 1.0);
            && WellFormed(lots) && Chronological(lots) && WellFormed(middle)
            && !SameQuantities(LotsAfter(HIFO, middle, 1.0), LotsAfter(HIFO, lots, 2.0))
  {
    hide DisposalOrder, LotsAfter, Share;
    var a, b := Lot("a", 1, 1, 2.0, 3.0), Lot("b", 1, 2, 2.0, 3.0);
    var lots, middle := [a, b], [a.(quantity := 1.0, basis := 1.0), b];
    HalfOfThree();
    assert !SortsBefore(HIFO, b, a);
    TwoLotOrder(HIFO, a, b);
    FirstLotOnly(HIFO, lots, 1.0);
    FirstLotOnly(HIFO, lots, 2.0);
    assert LotsAfter(HIFO, lots, 1.0) == middle;
    assert SortsBefore(HIFO, b, middle[0]);
    TwoLotOrder(HIFO, middle[0], b);
    FirstLotOnly(HIFO, middle, 1.0);
    assert LotsAfter(HIFO, middle, 1.0)[0].quantity == 1.0;
    assert LotsAfter(HIFO, lots, 2.0)[0].quantity == 0.0;
  }

  /** A disposal that fits in the first lot of the order changes that lot alone. */
  lemma FirstLotOnly(lotMethod: LotMethod, lots: seq<Lot>, quantity: real)
    requires NonNegativeQuantities(lots) && DisposalOrder(lotMethod, lots) != [] && DisposalOrder(lotMethod, lots)[0] < |lots|
    requires 0.0 < quantity <= lots[DisposalOrder(lotMethod, lots)[0]].quantity && lots[DisposalOrder(lotMethod, lots)[0]].basis >= 0.0
    ensures var first := DisposalOrder(lotMethod, lots)[0];
            LotsAfter(lotMethod, lots, quantity) == lots[first := LotWithout(lots[first], quantity)]
  {
    hide DisposalOrder, LotWithout, TakeFromLot;
    var order, c := DisposalOrder(lotMethod, lots), Begin(lots, quantity);
    DisposalOrderIsOpen(lotMethod, lots);
    TakeFirst(c, order);
    assert Consume(c, order) == Consume(TakeFromLot(c, order[0]), order[1..]);
    assert Consume(TakeFromLot(c, order[0]), order[1..]) == TakeFromLot(c, order[0]);
  }

  lemma HalfOfThree()
    ensures Share(3.0, 2.0, 1.0) == 2.0
  {
    QuotientIsUnique(3.0, 2.0, 1.5);
    NearestIsUnique(1.5, RoundHalfUp(1.5), 2);
  }

  lemma TwoLotOrder(lotMethod: LotMethod, a: Lot, b: Lot)
    requires a.quantity > 0.0 && b.quantity > 0.0
    ensures DisposalOrder(lotMethod, [a, b]) == if SortsBefore(lotMethod, b, a) then [1, 0] else [0, 1]
  {
    hide SortsBefore, StableSort;
    var lots := [a, b];
    BothOpen(lots);
    StableSortOfPair(PositionBefore(lotMethod, lots), 0, 1);
  }

  lemma BothOpen(lots: seq<Lot>)
    requires |lots| == 2 && lots[0].quantity != 0.0 && lots[1].quantity != 0.0
    ensures OpenIndexes(lots, 2) == [0, 1]
  {
    assert OpenIndexes(lots, 1) == [0];
  }

  lemma StableSortOfPair(before: (nat, nat) -> bool, i: nat, j: nat)
    ensures StableSort(before, [i, j]) == if before(j, i) then [j, i] else [i, j]
  {
    assert [i, j][..1] == [i] && [i][..0] == [] && [i][1..] == [];
    assert StableSort(before, []) == [];
    assert StableSort(before, [i]) == [i];
    assert Insert(before, [i], j) == if before(j, i) then [j, i] else [i, j];
  }
}
