/** Whole histories of one lot state, and first-in-first-out as a queue on the acquisition line. */
module QueueRuns {
  import opened Outcomes
  import opened Sums
  import opened LotOrder
  import opened Lots
  import opened LotProperties
  import opened LotTheorems
  import opened QueueAndStack

  datatype LotEvent = Acquire(lot: Lot) | Remove(quantity: real)

  function Apply(lotMethod: LotMethod, lots: seq<Lot>, event: LotEvent): Result<seq<Lot>>
    requires NonNegativeQuantities(lots)
  {
    match event
    case Acquire(lot) =>
      var error := ValidateAcquisition(lot);
      if error.Some? then Failure(error.value) else Success(lots + [Stored(lot)])
    case Remove(quantity) =>
      var r := DisposalResult(lotMethod, lots, quantity);
      if r.Failure? then Failure(r.error) else Success(LotsAfter(lotMethod, lots, quantity))
  }

  lemma ApplyKeepsWellFormed(lotMethod: LotMethod, lots: seq<Lot>, event: LotEvent)
    requires WellFormed(lots) && Apply(lotMethod, lots, event).Success?
    ensures WellFormed(Apply(lotMethod, lots, event).value)
  {
    hide DisposalResult, LotsAfter;
    if event.Remove? {
      DisposalConserves(lotMethod, lots, event.quantity);
    }
  }

  /** The lots after a history, or the first failure. */
  function Run(lotMethod: LotMethod, events: seq<LotEvent>): (r: Result<seq<Lot>>)
    ensures r.Success? ==> WellFormed(r.value)
  {
    if events == [] then Success([])
    else
      var before := Run(lotMethod, events[..|events| - 1]);
      if before.Failure? then before
      else
        var after := Apply(lotMethod, before.value, events[|events| - 1]);
        assert after.Success? ==> WellFormed(after.value) by {
          if after.Success? { ApplyKeepsWellFormed(lotMethod, before.value, events[|events| - 1]); }
        }
        after
  }

  lemma RunStep(lotMethod: LotMethod, before: seq<LotEvent>, event: LotEvent)
    ensures Run(lotMethod, before + [event])
            == if Run(lotMethod, before).Failure? then Run(lotMethod, before) else Apply(lotMethod, Run(lotMethod, before).value, event)
  {
    assert (before + [event])[..|before|] == before;
  }

  ghost function AcquiredQuantities(events: seq<LotEvent>): seq<real> {
    if events == [] then []
    else
      var before, last := AcquiredQuantities(events[..|events| - 1]), events[|events| - 1];
      if last.Acquire? then before + [last.lot.quantity] else before
  }

  ghost function RemovedQuantity(events: seq<LotEvent>): real {
    if events == [] then 0.0
    else
      var before, last := RemovedQuantity(events[..|events| - 1]), events[|events| - 1];
      if last.Remove? then before + last.quantity else before
  }

  /** Where the units of acquisition i start on the acquisition line. */
  ghost function LineStart(line: seq<real>, i: nat): real
    requires i <= |line|
  {
    Sum(line[..i])
  }

  lemma LineStartStep(line: seq<real>, i: nat)
    requires i < |line|
    ensures LineStart(line, i + 1) == LineStart(line, i) + line[i]
  {
    SumPrefixStep(line, i);
  }

  lemma LineEnds(line: seq<real>)
    ensures LineStart(line, |line|) == Sum(line)
  {
    assert line[..|line|] == line;
  }

  /** What is open is the acquisition line behind the point reached by the removals. */
  ghost predicate QueueState(lots: seq<Lot>, line: seq<real>, removed: real) {
    && |lots| == |line| && 0.0 <= removed <= Sum(line)
    && (forall i :: 0 <= i < |line| ==> line[i] > 0.0)
    && (forall i :: 0 <= i < |line| ==>
          lots[i].quantity == Overlap(LineStart(line, i), LineStart(line, i + 1), removed, Sum(line)))
  }

  lemma {:induction false} LevelOnLine(lots: seq<Lot>, line: seq<real>, removed: real, i: nat)
    requires QueueState(lots, line, removed) && i <= |line|
    ensures 0.0 <= LineStart(line, i) <= Sum(line)
    ensures Level(lots, i) == Maximum(0.0, LineStart(line, i) - removed)
  {
    hide LineStart, Level;
    LineBounds(line, i);
    if i == 0 {
      LevelEnds(lots);
    } else {
      LevelOnLine(lots, line, removed, i - 1);
      LevelStep(lots, i - 1);
      LineStartStep(line, i - 1);
    }
  }

  lemma {:induction false} LineBounds(line: seq<real>, i: nat)
    requires i <= |line| && forall j :: 0 <= j < |line| ==> line[j] > 0.0
    ensures LineStart(line, 0) == 0.0 && 0.0 <= LineStart(line, i) <= Sum(line)
  {
    SumSplit(line, i);
    SumIsNonNegative(line[..i]);
    SumIsNonNegative(line[i..]);
  }

  lemma ShiftedCut(start: real, end: real, removed: real, quantity: real)
    requires 0.0 <= start <= end && 0.0 <= removed && 0.0 <= quantity
    ensures Overlap(Maximum(0.0, start - removed), Maximum(0.0, end - removed), 0.0, quantity)
            == Overlap(start, end, removed, removed + quantity)
  {
  }

  lemma ShiftedRest(start: real, end: real, removed: real, quantity: real, total: real)
    requires 0.0 <= start <= end <= total && 0.0 <= removed && 0.0 <= quantity && removed + quantity <= total
    ensures Overlap(Maximum(0.0, start - removed), Maximum(0.0, end - removed), quantity, total - removed)
            == Overlap(start, end, removed + quantity, total)
  {
  }

  /** The matches of a removal are the cut of the units from low to high of the acquisition line. */
  ghost predicate CutsAcquisitionLine(lots: seq<Lot>, order: seq<nat>, line: seq<real>, disposal: LotDisposal, low: real, high: real)
    requires |line| == |lots| && InRange(order, lots)
  {
    && |disposal.matches| <= |order|
    && (forall k :: 0 <= k < |disposal.matches| ==>
          var i := order[k];
          && lots[i].quantity != 0.0
          && disposal.matches[k] == MatchOf(lots[i], Overlap(LineStart(line, i), LineStart(line, i + 1), low, high)))
    && (forall k :: |disposal.matches| <= k < |order| ==>
          Overlap(LineStart(line, order[k]), LineStart(line, order[k] + 1), low, high) == 0.0)
  }

  lemma SegmentOnLine(lots: seq<Lot>, line: seq<real>, removed: real, quantity: real, i: nat)
    requires QueueState(lots, line, removed) && i < |lots| && 0.0 <= quantity && removed + quantity <= Sum(line)
    ensures Overlap(Level(lots, i), Level(lots, i + 1), 0.0, quantity)
            == Overlap(LineStart(line, i), LineStart(line, i + 1), removed, removed + quantity)
    ensures Overlap(Level(lots, i), Level(lots, i + 1), quantity, Sum(line) - removed)
            == Overlap(LineStart(line, i), LineStart(line, i + 1), removed + quantity, Sum(line))
  {
    hide LineStart, Level, Overlap;
    LevelOnLine(lots, line, removed, i);
    LevelOnLine(lots, line, removed, i + 1);
    LineStartStep(line, i);
    ShiftedCut(LineStart(line, i), LineStart(line, i + 1), removed, quantity);
    ShiftedRest(LineStart(line, i), LineStart(line, i + 1), removed, quantity, Sum(line));
  }

  lemma OpenOnLine(lots: seq<Lot>, line: seq<real>, removed: real)
    requires QueueState(lots, line, removed)
    ensures TotalOpenQuantity(lots) == Sum(line) - removed
  {
    hide LineStart, Level;
    LevelEnds(lots);
    LevelOnLine(lots, line, removed, |line|);
    LineEnds(line);
  }

  lemma CutOnLine(lots: seq<Lot>, line: seq<real>, removed: real, quantity: real, disposal: LotDisposal, order: seq<nat>)
    requires |line| == |lots| && QueueState(lots, line, removed) && 0.0 <= quantity && removed + quantity <= Sum(line)
    requires InRange(order, lots) && CutsLine(lots, order, disposal, 0.0, quantity)
    ensures CutsAcquisitionLine(lots, order, line, disposal, removed, removed + quantity)
  {
    hide LineStart, Level, Overlap, MatchOf, QueueState;
    forall k | 0 <= k < |order|
      ensures Overlap(Level(lots, order[k]), Level(lots, order[k] + 1), 0.0, quantity)
              == Overlap(LineStart(line, order[k]), LineStart(line, order[k] + 1), removed, removed + quantity)
    {
      SegmentOnLine(lots, line, removed, quantity, order[k]);
    }
  }

  lemma QueueRemoval(lots: seq<Lot>, line: seq<real>, removed: real, quantity: real)
    requires WellFormed(lots) && Chronological(lots) && QueueState(lots, line, removed)
    requires DisposalResult(FIFO, lots, quantity).Success?
    ensures QueueState(LotsAfter(FIFO, lots, quantity), line, removed + quantity)
    ensures InRange(OpenIndexes(lots, |lots|), lots)
    ensures CutsAcquisitionLine(lots, OpenIndexes(lots, |lots|), line, DisposalResult(FIFO, lots, quantity).value, removed, removed + quantity)
  {
    hide DisposalResult, LotsAfter, LineStart, Level, DisposalOrder, Overlap, CutsLine, CutsAcquisitionLine, ReachedBasesNonNegative, OpenIndexes;
    var after := LotsAfter(FIFO, lots, quantity);
    FifoCutsTheFront(lots, quantity);
    DisposalSucceedsExactlyWhen(FIFO, lots, quantity);
    OpenOnLine(lots, line, removed);
    CutOnLine(lots, line, removed, quantity, DisposalResult(FIFO, lots, quantity).value, OpenIndexes(lots, |lots|));
    forall i | 0 <= i < |lots|
      ensures after[i].quantity == Overlap(LineStart(line, i), LineStart(line, i + 1), removed + quantity, Sum(line))
    {
      SegmentOnLine(lots, line, removed, quantity, i);
    }
  }

  lemma QueueAcquisition(lots: seq<Lot>, line: seq<real>, removed: real, lot: Lot)
    requires QueueState(lots, line, removed) && lot.quantity > 0.0
    ensures QueueState(lots + [lot], line + [lot.quantity], removed)
  {
    hide LineStart;
    var longer := line + [lot.quantity];
    SumAppend(line, lot.quantity);
    LineEnds(line);
    LineEnds(longer);
    forall i | 0 <= i <= |line|
      ensures LineStart(longer, i) == LineStart(line, i) && LineStart(line, i) <= Sum(line)
    {
      LinePrefix(line, lot.quantity, i);
      LineBounds(line, i);
    }
  }

  lemma LinePrefix(line: seq<real>, x: real, i: nat)
    requires i <= |line|
    ensures LineStart(line + [x], i) == LineStart(line, i)
  {
    assert (line + [x])[..i] == line[..i];
  }

  /** Over any successful chronological history a first-in-first-out state is the queue of acquired units: the
      units removed so far are the front of the acquisition line, what is open is the rest, in place. */
  lemma {:induction false} FifoRunIsAQueue(events: seq<LotEvent>)
    requires Run(FIFO, events).Success? && Chronological(Run(FIFO, events).value)
    ensures QueueState(Run(FIFO, events).value, AcquiredQuantities(events), RemovedQuantity(events))
    decreases |events|
  {
    hide DisposalResult, LotsAfter;
    if events == [] {
      assert Sum([]) == 0.0;
    } else {
      var before, last := events[..|events| - 1], events[|events| - 1];
      var lots := Run(FIFO, before).value;
      assert Chronological(lots) by {
        if last.Remove? { DisposalConserves(FIFO, lots, last.quantity); }
        EarlierIsChronological(lots, Run(FIFO, events).value);
      }
      FifoRunIsAQueue(before);
      match last
      case Acquire(lot) => QueueAcquisition(lots, AcquiredQuantities(before), RemovedQuantity(before), Stored(lot));
      case Remove(quantity) => QueueRemoval(lots, AcquiredQuantities(before), RemovedQuantity(before), quantity);
    }
  }

  lemma EarlierIsChronological(earlier: seq<Lot>, later: seq<Lot>)
    requires Chronological(later) && |earlier| <= |later|
    requires forall i :: 0 <= i < |earlier| ==> SameIdentity(earlier[i], later[i])
    ensures Chronological(earlier)
  {
  }

  /** The removal that ends such a history matches exactly the next units of the acquisition line. */
  lemma FifoRemovalCutsTheLine(events: seq<LotEvent>, quantity: real)
    requires Run(FIFO, events).Success? && Chronological(Run(FIFO, events).value)
    requires DisposalResult(FIFO, Run(FIFO, events).value, quantity).Success?
    ensures var lots := Run(FIFO, events).value;
            && |AcquiredQuantities(events)| == |lots| && InRange(OpenIndexes(lots, |lots|), lots)
            && CutsAcquisitionLine(lots, OpenIndexes(lots, |lots|), AcquiredQuantities(events),
                                   DisposalResult(FIFO, lots, quantity).value,
                                   RemovedQuantity(events), RemovedQuantity(events) + quantity)
  {
    hide DisposalResult, LotsAfter, Run, AcquiredQuantities, RemovedQuantity, Chronological, CutsAcquisitionLine;
    FifoRunIsAQueue(events);
    QueueRemoval(Run(FIFO, events).value, AcquiredQuantities(events), RemovedQuantity(events), quantity);
  }
}
