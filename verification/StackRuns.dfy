/** Whole last-in-first-out histories: what is open is a stack of acquisitions. */
module StackRuns {
  import opened Sums
  import opened LotOrder
  import opened Lots
  import opened LotProperties
  import opened LotTheorems
  import opened QueueAndStack
  import opened QueueRuns

  ghost predicate NonNegative(s: seq<real>) {
    forall i :: 0 <= i < |s| ==> s[i] >= 0.0
  }

  /** A stack of open quantities with a quantity popped off its end; emptied places stay, at zero. */
  ghost function Popped(stack: seq<real>, quantity: real): (s: seq<real>)
    ensures |s| == |stack|
  {
    if stack == [] then []
    else
      var last := stack[|stack| - 1];
      var taken := Minimum(last, quantity);
      Popped(stack[..|stack| - 1], quantity - taken) + [last - taken]
  }

  lemma PrefixLineStart(stack: seq<real>, i: nat)
    requires i < |stack|
    ensures LineStart(stack[..|stack| - 1], i) == LineStart(stack, i)
    ensures Sum(stack) == Sum(stack[..|stack| - 1]) + stack[|stack| - 1]
  {
    assert stack[..|stack| - 1][..i] == stack[..i];
    assert stack == stack[..|stack| - 1] + [stack[|stack| - 1]];
    SumAppend(stack[..|stack| - 1], stack[|stack| - 1]);
  }

  lemma LineIsMonotone(stack: seq<real>, i: nat)
    requires NonNegative(stack) && i < |stack|
    ensures 0.0 <= LineStart(stack, i) <= LineStart(stack, i + 1) <= Sum(stack)
  {
    hide LineStart;
    LineStartStep(stack, i);
    LinePositions(stack, i);
    LinePositions(stack, i + 1);
  }

  lemma LinePositions(stack: seq<real>, i: nat)
    requires NonNegative(stack) && i <= |stack|
    ensures 0.0 <= LineStart(stack, i) <= Sum(stack)
  {
    SumSplit(stack, i);
    SumIsNonNegative(stack[..i]);
    SumIsNonNegative(stack[i..]);
  }

  lemma TopOfLine(start: real, last: real, quantity: real)
    requires 0.0 <= start && 0.0 <= last && 0.0 <= quantity <= start + last
    ensures last - Minimum(last, quantity) == Overlap(start, start + last, 0.0, start + last - quantity)
  {
  }

  lemma BelowTheTop(start: real, end: real, total: real, last: real, quantity: real)
    requires 0.0 <= start <= end <= total && 0.0 <= last && 0.0 <= quantity <= total + last
    ensures Overlap(start, end, 0.0, total - (quantity - Minimum(last, quantity))) == Overlap(start, end, 0.0, total + last - quantity)
  {
  }

  /** Popping keeps, of each place, what lies below the popped quantity. */
  lemma {:induction false} PoppedKeepsTheBottom(stack: seq<real>, quantity: real, i: nat)
    requires NonNegative(stack) && 0.0 <= quantity <= Sum(stack) && i < |stack|
    ensures Popped(stack, quantity)[i] == Overlap(LineStart(stack, i), LineStart(stack, i + 1), 0.0, Sum(stack) - quantity)
    decreases |stack|
  {
    hide LineStart, Overlap;
    var init, last := stack[..|stack| - 1], stack[|stack| - 1];
    PrefixLineStart(stack, i);
    LineStartStep(stack, i);
    if i == |init| {
      LineEnds(init);
      LinePositions(stack, i);
      TopOfLine(Sum(init), last, quantity);
    } else {
      PrefixLineStart(stack, i + 1);
      LineIsMonotone(init, i);
      PoppedKeepsTheBottom(init, quantity - Minimum(last, quantity), i);
      BelowTheTop(LineStart(init, i), LineStart(init, i + 1), Sum(init), last, quantity);
    }
  }

  /** The stack a history builds: an acquisition is pushed, a removal popped. */
  ghost function StackOf(events: seq<LotEvent>): seq<real> {
    if events == [] then []
    else
      var before, last := StackOf(events[..|events| - 1]), events[|events| - 1];
      match last
      case Acquire(lot) => before + [lot.quantity]
      case Remove(quantity) => Popped(before, quantity)
  }

  lemma StackRemoval(lots: seq<Lot>, quantity: real)
    requires WellFormed(lots) && Chronological(lots) && DisposalResult(LIFO, lots, quantity).Success?
    ensures OpenQuantities(LotsAfter(LIFO, lots, quantity)) == Popped(OpenQuantities(lots), quantity)
  {
    hide DisposalResult, LotsAfter, DisposalOrder, Overlap, Popped, ReachedBasesNonNegative, CutsLine, Sum;
    var stack, after := OpenQuantities(lots), LotsAfter(LIFO, lots, quantity);
    LifoPopsTheEnd(lots, quantity);
    DisposalSucceedsExactlyWhen(LIFO, lots, quantity);
    forall i | 0 <= i < |lots|
      ensures OpenQuantities(after)[i] == Popped(stack, quantity)[i]
    {
      PoppedKeepsTheBottom(stack, quantity, i);
      assert after[i].quantity == Overlap(Level(lots, i), Level(lots, i + 1), 0.0, TotalOpenQuantity(lots) - quantity);
    }
  }

  /** Over any successful chronological history a last-in-first-out state is a stack: each acquisition is pushed whole,
      each removal pops its quantity off the end, and the lots hold what is left of each. */
  lemma {:induction false} LifoRunIsAStack(events: seq<LotEvent>)
    requires Run(LIFO, events).Success? && Chronological(Run(LIFO, events).value)
    ensures OpenQuantities(Run(LIFO, events).value) == StackOf(events)
    decreases |events|
  {
    hide DisposalResult, LotsAfter, Popped;
    if events == [] {
      assert OpenQuantities([]) == [];
    } else {
      var before, last := events[..|events| - 1], events[|events| - 1];
      var lots := Run(LIFO, before).value;
      assert Chronological(lots) by {
        if last.Remove? { DisposalConserves(LIFO, lots, last.quantity); }
        EarlierIsChronological(lots, Run(LIFO, events).value);
      }
      LifoRunIsAStack(before);
      match last
      case Acquire(lot) =>
        assert OpenQuantities(lots + [Stored(lot)]) == OpenQuantities(lots) + [lot.quantity];
      case Remove(quantity) => StackRemoval(lots, quantity);
    }
  }
}
