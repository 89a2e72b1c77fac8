/** Over chronological acquisitions first-in-first-out is a queue of units and last-in-first-out a stack. */
module QueueAndStack {
  import opened Proportions
  import opened Sums
  import opened StableSorting
  import opened LotOrder
  import opened Lots
  import opened LotProperties
  import opened LotTheorems
  import Text

  /** The length two intervals have in common. */
  function Overlap(low1: real, high1: real, low2: real, high2: real): real {
    Maximum(0.0, Minimum(high1, high2) - Maximum(low1, low2))
  }

  /** Open units laid end to end in acquisition order: where lot i starts. */
  ghost function Level(lots: seq<Lot>, i: nat): real
    requires i <= |lots|
  {
    Sum(OpenQuantities(lots)[..i])
  }

  lemma LevelStep(lots: seq<Lot>, i: nat)
    requires i < |lots|
    ensures Level(lots, i + 1) == Level(lots, i) + lots[i].quantity
  {
    SumPrefixStep(OpenQuantities(lots), i);
  }

  lemma LevelEnds(lots: seq<Lot>)
    ensures Level(lots, 0) == 0.0 && Level(lots, |lots|) == TotalOpenQuantity(lots)
  {
    assert OpenQuantities(lots)[..|lots|] == OpenQuantities(lots);
  }

  lemma {:induction false} LevelIsMonotone(lots: seq<Lot>, i: nat, j: nat)
    requires NonNegativeQuantities(lots) && i <= j <= |lots|
    ensures Level(lots, i) <= Level(lots, j)
    decreases j - i
  {
    if i == j {
    } else {
      LevelStep(lots, i);
      LevelIsMonotone(lots, i + 1, j);
    }
  }

  // -------- what stands before an open lot in either order --------

  lemma {:induction false} QuantityBeforeOfPrefix(lots: seq<Lot>, order: seq<nat>, longer: seq<nat>, k: nat)
    requires InRange(longer, lots) && |order| <= |longer| && order == longer[..|order|] && k <= |order|
    ensures InRange(order, lots) && QuantityBefore(lots, order, k) == QuantityBefore(lots, longer, k)
    decreases k
  {
    assert forall j :: 0 <= j < |order| ==> order[j] == longer[j];
    if k == 0 {
    } else {
      QuantityBeforeOfPrefix(lots, order[1..], longer[1..], k - 1);
    }
  }

  /** Each position of the order has before it what lies below it, and the order covers the line to level n. */
  ghost predicate BelowComesFirst(lots: seq<Lot>, order: seq<nat>, n: nat)
    requires n <= |lots|
  {
    && InRange(order, lots)
    && QuantityBefore(lots, order, |order|) == Level(lots, n)
    && forall k :: 0 <= k < |order| ==> QuantityBefore(lots, order, k) == Level(lots, order[k])
  }

  lemma BelowAppend(lots: seq<Lot>, init: seq<nat>, n: nat)
    requires 0 < n <= |lots| && lots[n - 1].quantity != 0.0 && BelowComesFirst(lots, init, n - 1)
    ensures BelowComesFirst(lots, init + [n - 1], n)
  {
    hide Level, QuantityBefore;
    var order := init + [n - 1];
    LevelStep(lots, n - 1);
    forall k | 0 <= k <= |init|
      ensures QuantityBefore(lots, order, k) == QuantityBefore(lots, init, k)
    {
      QuantityBeforeOfPrefix(lots, init, order, k);
    }
    QuantityBeforeStep(lots, order, |init|);
  }

  /** In increasing order, a lot has its level before it. */
  lemma {:induction false} IncreasingOrderComesFromBelow(lots: seq<Lot>, n: nat)
    requires n <= |lots|
    ensures BelowComesFirst(lots, OpenIndexes(lots, n), n)
    decreases n
  {
    if n > 0 {
      IncreasingOrderComesFromBelow(lots, n - 1);
      if lots[n - 1].quantity != 0.0 {
        hide BelowComesFirst;
        BelowAppend(lots, OpenIndexes(lots, n - 1), n);
      } else {
        hide QuantityBefore;
        LevelStep(lots, n - 1);
      }
    } else {
      assert OpenQuantities(lots)[..0] == [];
    }
  }

  lemma ReversedOpenIndexes(lots: seq<Lot>, n: nat)
    requires 0 < n <= |lots|
    ensures lots[n - 1].quantity == 0.0 ==> Reversed(OpenIndexes(lots, n)) == Reversed(OpenIndexes(lots, n - 1))
    ensures lots[n - 1].quantity != 0.0 ==> Reversed(OpenIndexes(lots, n)) == [n - 1] + Reversed(OpenIndexes(lots, n - 1))
  {
    if lots[n - 1].quantity != 0.0 {
      assert OpenIndexes(lots, n)[..|OpenIndexes(lots, n)| - 1] == OpenIndexes(lots, n - 1);
    }
  }

  lemma QuantityBeforeCons(lots: seq<Lot>, first: nat, rest: seq<nat>, k: nat)
    requires first < |lots| && InRange(rest, lots) && k < |rest|
    ensures InRange([first] + rest, lots)
    ensures QuantityBefore(lots, [first] + rest, k + 1) == lots[first].quantity + QuantityBefore(lots, rest, k)
  {
    assert ([first] + rest)[1..] == rest;
  }

  /** Each position of the order has before it what lies above it, up to level n. */
  ghost predicate AboveComesFirst(lots: seq<Lot>, order: seq<nat>, n: nat)
    requires n <= |lots|
  {
    && InRange(order, lots)
    && forall k :: 0 <= k < |order| ==> QuantityBefore(lots, order, k) == Level(lots, n) - Level(lots, order[k] + 1)
  }

  lemma AboveCons(lots: seq<Lot>, rest: seq<nat>, n: nat)
    requires 0 < n <= |lots| && lots[n - 1].quantity != 0.0 && AboveComesFirst(lots, rest, n - 1)
    ensures AboveComesFirst(lots, [n - 1] + rest, n)
  {
    hide Level;
    var order := [n - 1] + rest;
    LevelStep(lots, n - 1);
    forall k | 0 <= k < |order|
      ensures QuantityBefore(lots, order, k) == Level(lots, n) - Level(lots, order[k] + 1)
    {
      if k > 0 {
        QuantityBeforeCons(lots, n - 1, rest, k - 1);
      }
    }
  }

  lemma AboveSkip(lots: seq<Lot>, order: seq<nat>, n: nat)
    requires 0 < n <= |lots| && lots[n - 1].quantity == 0.0 && AboveComesFirst(lots, order, n - 1)
    ensures AboveComesFirst(lots, order, n)
  {
    hide Level, QuantityBefore;
    LevelStep(lots, n - 1);
  }

  lemma AboveNothing(lots: seq<Lot>)
    ensures AboveComesFirst(lots, Reversed(OpenIndexes(lots, 0)), 0)
  {
  }

  /** In decreasing order, a lot has before it what lies above it. */
  lemma {:induction false} DecreasingOrderComesFromAbove(lots: seq<Lot>, n: nat)
    requires n <= |lots|
    ensures AboveComesFirst(lots, Reversed(OpenIndexes(lots, n)), n)
    decreases n
  {
    hide Reversed, OpenIndexes, AboveComesFirst;
    if n == 0 {
      AboveNothing(lots);
    } else {
      ReversedOpenIndexes(lots, n);
      DecreasingOrderComesFromAbove(lots, n - 1);
      if lots[n - 1].quantity != 0.0 {
        AboveCons(lots, Reversed(OpenIndexes(lots, n - 1)), n);
      } else {
        AboveSkip(lots, Reversed(OpenIndexes(lots, n - 1)), n);
      }
    }
  }

  // -------- one disposal --------

  /** Position k of the order gives the part of its segment that lies between low and high. */
  ghost predicate CutsLine(lots: seq<Lot>, order: seq<nat>, disposal: LotDisposal, low: real, high: real)
    requires InRange(order, lots)
  {
    && |disposal.matches| <= |order|
    && (forall k :: 0 <= k < |disposal.matches| ==>
          var lot := lots[order[k]];
          && lot.quantity != 0.0
          && disposal.matches[k] == MatchOf(lot, Overlap(Level(lots, order[k]), Level(lots, order[k] + 1), low, high)))
    && (forall k :: |disposal.matches| <= k < |order| ==>
          Overlap(Level(lots, order[k]), Level(lots, order[k] + 1), low, high) == 0.0)
  }

  /** Each lot keeps the part of its segment that lies between low and high. */
  ghost predicate KeepsLine(lots: seq<Lot>, after: seq<Lot>, low: real, high: real) {
    && |after| == |lots|
    && forall i :: 0 <= i < |lots| ==> after[i].quantity == Overlap(Level(lots, i), Level(lots, i + 1), low, high)
  }

  /** The order's takings, put as cuts of the line. */
  ghost predicate TakenOnLine(lots: seq<Lot>, order: seq<nat>, quantity: real, cutLow: real, cutHigh: real, keepLow: real, keepHigh: real)
    requires OpenDistinct(order, lots)
  {
    forall k :: 0 <= k < |order| ==>
      var segmentLow, segmentHigh := Level(lots, order[k]), Level(lots, order[k] + 1);
      && Taken(lots, order, quantity, k) == Overlap(segmentLow, segmentHigh, cutLow, cutHigh)
      && lots[order[k]].quantity - Taken(lots, order, quantity, k) == Overlap(segmentLow, segmentHigh, keepLow, keepHigh)
  }

  lemma LineIsCut(lots: seq<Lot>, order: seq<nat>, quantity: real, r: Consumption, cutLow: real, cutHigh: real, keepLow: real, keepHigh: real)
    requires OpenDistinct(order, lots) && MatchesConsumedExactly(Begin(lots, quantity), order, r)
    requires TakenOnLine(lots, order, quantity, cutLow, cutHigh, keepLow, keepHigh)
    ensures CutsLine(lots, order, LotDisposal(r.matches, r.allocatedBasis), cutLow, cutHigh)
  {
    hide Overlap, Taken, Reached, MatchOf, Level, QuantityBefore;
    var c := Begin(lots, quantity);
    forall k | 0 <= k < |r.matches|
      ensures r.matches[k] == MatchOf(lots[order[k]], Overlap(Level(lots, order[k]), Level(lots, order[k] + 1), cutLow, cutHigh))
    {
      assert r.matches[|c.matches| + k] == MatchOf(c.lots[order[k]], Taken(c.lots, order, c.remaining, k));
    }
    forall k | |r.matches| <= k < |order|
      ensures Overlap(Level(lots, order[k]), Level(lots, order[k] + 1), cutLow, cutHigh) == 0.0
    {
      assert !Reached(c.lots, order, c.remaining, k);
      UnreachedGivesNothing(lots, order, quantity, k);
    }
  }

  lemma LineIsKept(lots: seq<Lot>, order: seq<nat>, quantity: real, r: Consumption, cutLow: real, cutHigh: real, keepLow: real, keepHigh: real)
    requires OpenDistinct(order, lots) && LotsConsumedExactly(Begin(lots, quantity), order, r)
    requires forall i :: 0 <= i < |lots| && i !in order ==> lots[i].quantity == 0.0
    requires TakenOnLine(lots, order, quantity, cutLow, cutHigh, keepLow, keepHigh)
    requires forall x :: EmptyOverlap(x, keepLow, keepHigh)
    ensures KeepsLine(lots, r.lots, keepLow, keepHigh)
  {
    hide Overlap, Taken, Reached, Level, QuantityBefore, Share;
    forall i | 0 <= i < |lots|
      ensures r.lots[i].quantity == Overlap(Level(lots, i), Level(lots, i + 1), keepLow, keepHigh)
    {
      if i in order {
        var k :| 0 <= k < |order| && order[k] == i;
        assert r.lots[order[k]] == LotWithout(lots[order[k]], Taken(lots, order, quantity, k));
      } else {
        LevelStep(lots, i);
        assert EmptyOverlap(Level(lots, i), keepLow, keepHigh);
      }
    }
  }

  ghost predicate EmptyOverlap(x: real, low: real, high: real) {
    Overlap(x, x, low, high) == 0.0
  }

  lemma PointsDoNotOverlap(low: real, high: real)
    ensures forall x :: EmptyOverlap(x, low, high)
  {
  }

  lemma LineByOrder(lots: seq<Lot>, lotMethod: LotMethod, quantity: real, cutLow: real, cutHigh: real, keepLow: real, keepHigh: real)
    requires WellFormed(lots) && DisposalResult(lotMethod, lots, quantity).Success?
    requires OpenDistinct(DisposalOrder(lotMethod, lots), lots)
    requires TakenOnLine(lots, DisposalOrder(lotMethod, lots), quantity, cutLow, cutHigh, keepLow, keepHigh)
    ensures CutsLine(lots, DisposalOrder(lotMethod, lots), DisposalResult(lotMethod, lots, quantity).value, cutLow, cutHigh)
    ensures KeepsLine(lots, LotsAfter(lotMethod, lots, quantity), keepLow, keepHigh)
  {
    hide DisposalOrder, Consume, ReachedBasesNonNegative, TakenOnLine, CutsLine, KeepsLine, LotsConsumedExactly, MatchesConsumedExactly;
    DisposalSucceedsExactlyWhen(lotMethod, lots, quantity);
    ConsumeAllTakesExactly(lotMethod, lots, quantity);
    DisposalOrderIsPermutation(lotMethod, lots);
    PointsDoNotOverlap(keepLow, keepHigh);
    var order, r := DisposalOrder(lotMethod, lots), ConsumeAll(lotMethod, lots, quantity);
    LineIsCut(lots, order, quantity, r, cutLow, cutHigh, keepLow, keepHigh);
    LineIsKept(lots, order, quantity, r, cutLow, cutHigh, keepLow, keepHigh);
  }

  lemma UnreachedGivesNothing(lots: seq<Lot>, order: seq<nat>, quantity: real, k: nat)
    requires OpenDistinct(order, lots) && k < |order| && !Reached(lots, order, quantity, k)
    ensures Taken(lots, order, quantity, k) == 0.0
  {
  }

  lemma SegmentWithinLine(lots: seq<Lot>, i: nat)
    requires NonNegativeQuantities(lots) && i < |lots|
    ensures 0.0 <= Level(lots, i) && Level(lots, i + 1) == Level(lots, i) + lots[i].quantity
    ensures Level(lots, i + 1) <= TotalOpenQuantity(lots)
  {
    LevelEnds(lots);
    LevelStep(lots, i);
    LevelIsMonotone(lots, 0, i);
    LevelIsMonotone(lots, i + 1, |lots|);
  }

  lemma FrontCut(level: real, width: real, quantity: real, total: real)
    requires 0.0 <= level && 0.0 < width && level + width <= total && 0.0 < quantity <= total
    ensures Clip(quantity - level, width) == Overlap(level, level + width, 0.0, quantity)
    ensures width - Clip(quantity - level, width) == Overlap(level, level + width, quantity, total)
  {
  }

  lemma EndCut(level: real, width: real, quantity: real, total: real)
    requires 0.0 <= level && 0.0 < width && level + width <= total && 0.0 < quantity <= total
    ensures Clip(quantity - (total - (level + width)), width) == Overlap(level, level + width, total - quantity, total)
    ensures width - Clip(quantity - (total - (level + width)), width) == Overlap(level, level + width, 0.0, total - quantity)
  {
  }

  lemma FifoTaking(lots: seq<Lot>, order: seq<nat>, quantity: real, k: nat)
    requires NonNegativeQuantities(lots) && 0.0 < quantity <= TotalOpenQuantity(lots)
    requires OpenDistinct(order, lots) && k < |order| && QuantityBefore(lots, order, k) == Level(lots, order[k])
    ensures Taken(lots, order, quantity, k) == Overlap(Level(lots, order[k]), Level(lots, order[k] + 1), 0.0, quantity)
    ensures lots[order[k]].quantity - Taken(lots, order, quantity, k)
            == Overlap(Level(lots, order[k]), Level(lots, order[k] + 1), quantity, TotalOpenQuantity(lots))
  {
    hide Level, QuantityBefore, TotalOpenQuantity, Overlap, Clip;
    SegmentWithinLine(lots, order[k]);
    FrontCut(Level(lots, order[k]), lots[order[k]].quantity, quantity, TotalOpenQuantity(lots));
  }

  lemma FifoTakings(lots: seq<Lot>, quantity: real)
    requires NonNegativeQuantities(lots) && 0.0 < quantity <= TotalOpenQuantity(lots)
    requires OpenDistinct(OpenIndexes(lots, |lots|), lots)
    ensures TakenOnLine(lots, OpenIndexes(lots, |lots|), quantity, 0.0, quantity, quantity, TotalOpenQuantity(lots))
  {
    hide Level, QuantityBefore, TotalOpenQuantity, Overlap, Taken, OpenIndexes;
    var order, total := OpenIndexes(lots, |lots|), TotalOpenQuantity(lots);
    IncreasingOrderComesFromBelow(lots, |lots|);
    forall k | 0 <= k < |order|
      ensures Taken(lots, order, quantity, k) == Overlap(Level(lots, order[k]), Level(lots, order[k] + 1), 0.0, quantity)
      ensures lots[order[k]].quantity - Taken(lots, order, quantity, k)
              == Overlap(Level(lots, order[k]), Level(lots, order[k] + 1), quantity, total)
    {
      FifoTaking(lots, order, quantity, k);
    }
  }

  lemma LifoTakings(lots: seq<Lot>, quantity: real)
    requires NonNegativeQuantities(lots) && 0.0 < quantity <= TotalOpenQuantity(lots)
    requires OpenDistinct(Reversed(OpenIndexes(lots, |lots|)), lots)
    ensures TakenOnLine(lots, Reversed(OpenIndexes(lots, |lots|)), quantity, TotalOpenQuantity(lots) - quantity,
                        TotalOpenQuantity(lots), 0.0, TotalOpenQuantity(lots) - quantity)
  {
    hide Level, QuantityBefore, TotalOpenQuantity, Overlap, Clip, Reversed, OpenIndexes;
    var order, total := Reversed(OpenIndexes(lots, |lots|)), TotalOpenQuantity(lots);
    LevelEnds(lots);
    DecreasingOrderComesFromAbove(lots, |lots|);
    forall k | 0 <= k < |order|
      ensures Taken(lots, order, quantity, k) == Overlap(Level(lots, order[k]), Level(lots, order[k] + 1), total - quantity, total)
      ensures lots[order[k]].quantity - Taken(lots, order, quantity, k)
              == Overlap(Level(lots, order[k]), Level(lots, order[k] + 1), 0.0, total - quantity)
    {
      SegmentWithinLine(lots, order[k]);
      EndCut(Level(lots, order[k]), lots[order[k]].quantity, quantity, total);
    }
  }

  /** First in, first out: the disposal cuts the units from 0 to its quantity off the front of the line. */
  lemma FifoCutsTheFront(lots: seq<Lot>, quantity: real)
    requires WellFormed(lots) && Chronological(lots) && DisposalResult(FIFO, lots, quantity).Success?
    ensures DisposalOrder(FIFO, lots) == OpenIndexes(lots, |lots|) && InRange(DisposalOrder(FIFO, lots), lots)
    ensures CutsLine(lots, DisposalOrder(FIFO, lots), DisposalResult(FIFO, lots, quantity).value, 0.0, quantity)
    ensures KeepsLine(lots, LotsAfter(FIFO, lots, quantity), quantity, TotalOpenQuantity(lots))
  {
    hide DisposalOrder, DisposalResult, TakenOnLine, ReachedBasesNonNegative, CutsLine, KeepsLine, OpenIndexes, Reversed, TotalOpenQuantity;
    var total := TotalOpenQuantity(lots);
    ChronologicalFifoOrder(lots);
    DisposalOrderIsOpen(FIFO, lots);
    DisposalSucceedsExactlyWhen(FIFO, lots, quantity);
    FifoTakings(lots, quantity);
    LineByOrder(lots, FIFO, quantity, 0.0, quantity, quantity, total);
  }

  /** Last in, first out: the disposal pops its quantity off the end of the line. */
  lemma LifoPopsTheEnd(lots: seq<Lot>, quantity: real)
    requires WellFormed(lots) && Chronological(lots) && DisposalResult(LIFO, lots, quantity).Success?
    ensures DisposalOrder(LIFO, lots) == Reversed(OpenIndexes(lots, |lots|)) && InRange(DisposalOrder(LIFO, lots), lots)
    ensures CutsLine(lots, DisposalOrder(LIFO, lots), DisposalResult(LIFO, lots, quantity).value,
                     TotalOpenQuantity(lots) - quantity, TotalOpenQuantity(lots))
    ensures KeepsLine(lots, LotsAfter(LIFO, lots, quantity), 0.0, TotalOpenQuantity(lots) - quantity)
  {
    hide DisposalOrder, DisposalResult, TakenOnLine, ReachedBasesNonNegative, CutsLine, KeepsLine, OpenIndexes, Reversed, TotalOpenQuantity;
    var total := TotalOpenQuantity(lots);
    ChronologicalLifoOrder(lots);
    DisposalOrderIsOpen(LIFO, lots);
    DisposalSucceedsExactlyWhen(LIFO, lots, quantity);
    LifoTakings(lots, quantity);
    LineByOrder(lots, LIFO, quantity, total - quantity, total, 0.0, total - quantity);
  }
}
