/** The replay of an asset under a lot method as a history of lot events, and when its lots are chronological. */
module LotHistories {
  import opened Outcomes
  import opened Activities
  import opened LotOrder
  import opened Lots
  import opened LotProperties
  import opened LotTheorems
  import opened DisposalOrders
  import opened QueueRuns
  import opened StackRuns
  import opened BasisModel
  import opened AssetReplay
  import Text

  /** The event of one activity; without amounts a BUY is refused before it becomes one. */
  function EventOf(input: ReplayInput, order: nat): LotEvent {
    if input.activityType == Buy && HasAmounts(input) then Acquire(AcquisitionOf(input, order)) else Remove(input.quantity)
  }

  /** The events of the first i activities. */
  function EventsTo(inputs: seq<ReplayInput>, i: nat): (events: seq<LotEvent>)
    requires i <= |inputs|
    ensures |events| == i
  {
    if i == 0 then [] else EventsTo(inputs, i - 1) + [EventOf(inputs[i - 1], i)]
  }

  lemma StepIsAnEvent(lotMethod: LotMethod, lots: seq<Lot>, input: ReplayInput, order: nat, selectedYear: int)
    requires WellFormed(lots) && Step(LotPosition(lotMethod, lots), input, order, selectedYear).Success?
    ensures Apply(lotMethod, lots, EventOf(input, order)).Success?
    ensures Step(LotPosition(lotMethod, lots), input, order, selectedYear).value.0 == LotPosition(lotMethod, Apply(lotMethod, lots, EventOf(input, order)).value)
  {
    hide DisposalResult, LotsAfter, ValidateAcquisition, Contributed;
  }

  /** Replaying an asset under a lot method is running its events. */
  lemma {:induction false} LotReplayIsARun(lotMethod: LotMethod, inputs: seq<ReplayInput>, i: nat, selectedYear: int)
    requires i <= |inputs| && ReplayedTo(LotPosition(lotMethod, []), inputs, i, selectedYear).Success?
    ensures Run(lotMethod, EventsTo(inputs, i)).Success?
    ensures ReplayedTo(LotPosition(lotMethod, []), inputs, i, selectedYear).value.0 == LotPosition(lotMethod, Run(lotMethod, EventsTo(inputs, i)).value)
  {
    hide Step, Apply, EventOf, Run;
    if i == 0 {
      NoEvents(lotMethod);
    } else {
      LotReplayIsARun(lotMethod, inputs, i - 1, selectedYear);
      var lots := Run(lotMethod, EventsTo(inputs, i - 1)).value;
      StepIsAnEvent(lotMethod, lots, inputs[i - 1], i, selectedYear);
      RunStep(lotMethod, EventsTo(inputs, i - 1), EventOf(inputs[i - 1], i));
    }
  }

  lemma NoEvents(lotMethod: LotMethod)
    ensures Run(lotMethod, []) == Success([])
  {
  }

  // -------- chronology --------

  ghost predicate DatesInOrder(inputs: seq<ReplayInput>) {
    forall i, j :: 0 <= i < j < |inputs| ==> inputs[i].date <= inputs[j].date
  }

  /** Every lot comes from one of the first i activities, and the lots stand in their order. */
  ghost predicate FromTheFirst(lots: seq<Lot>, inputs: seq<ReplayInput>, i: nat)
    requires i <= |inputs|
  {
    && Chronological(lots)
    && forall k :: 0 <= k < |lots| ==> 0 < lots[k].order <= i && BoughtAs(lots[k], inputs[lots[k].order - 1])
  }

  /** The lot was bought by this activity: it has its day and its trimmed identifier. */
  ghost predicate BoughtAs(lot: Lot, input: ReplayInput) {
    lot.acquiredAt == input.date && lot.sourceId == Text.TrimSpace(input.sourceId) && input.activityType == Buy
  }

  lemma AcquiredFromNext(lots: seq<Lot>, inputs: seq<ReplayInput>, i: nat, lot: Lot)
    requires i < |inputs| && DatesInOrder(inputs) && FromTheFirst(lots, inputs, i)
    requires lot.order == i + 1 && BoughtAs(lot, inputs[i])
    ensures FromTheFirst(lots + [lot], inputs, i + 1)
  {
    var more := lots + [lot];
    forall k | 0 <= k < |more|
      ensures 0 < more[k].order <= i + 1 && BoughtAs(more[k], inputs[more[k].order - 1])
      ensures more[k].acquiredAt <= lot.acquiredAt
    {
      if k < |lots| {
        assert more[k] == lots[k];
      }
    }
  }

  lemma StillFromTheFirst(lots: seq<Lot>, after: seq<Lot>, inputs: seq<ReplayInput>, i: nat)
    requires i < |inputs| && FromTheFirst(lots, inputs, i) && SameIdentities(lots, after)
    ensures FromTheFirst(after, inputs, i + 1)
  {
    forall k | 0 <= k < |after|
      ensures SameIdentity(lots[k], after[k]) && 0 < after[k].order <= i + 1
    {
    }
  }

  /** With the activities' days in order, so are the lots. */
  lemma {:induction false} LotsAreChronological(lotMethod: LotMethod, inputs: seq<ReplayInput>, i: nat)
    requires i <= |inputs| && DatesInOrder(inputs) && Run(lotMethod, EventsTo(inputs, i)).Success?
    ensures FromTheFirst(Run(lotMethod, EventsTo(inputs, i)).value, inputs, i)
  {
    hide DatesInOrder, FromTheFirst, Run, DisposalResult, LotsAfter;
    if i == 0 {
      NoEvents(lotMethod);
      NothingFromTheFirst(inputs);
    } else {
      var event := EventOf(inputs[i - 1], i);
      RunStep(lotMethod, EventsTo(inputs, i - 1), event);
      LotsAreChronological(lotMethod, inputs, i - 1);
      var lots := Run(lotMethod, EventsTo(inputs, i - 1)).value;
      match event
      case Acquire(lot) => AcquiredFromNext(lots, inputs, i - 1, Stored(lot));
      case Remove(quantity) =>
        DisposalConserves(lotMethod, lots, quantity);
        StillFromTheFirst(lots, LotsAfter(lotMethod, lots, quantity), inputs, i - 1);
    }
  }

  lemma NothingFromTheFirst(inputs: seq<ReplayInput>)
    ensures FromTheFirst([], inputs, 0)
  {
  }

  // -------- queues and stacks --------

  /** A removal succeeds and matches exactly the units of the line behind those already removed. */
  ghost predicate NextUnits(lots: seq<Lot>, line: seq<real>, removed: real, quantity: real) {
    && WellFormed(lots) && DisposalResult(FIFO, lots, quantity).Success?
    && |line| == |lots| && InRange(OpenIndexes(lots, |lots|), lots)
    && CutsAcquisitionLine(lots, OpenIndexes(lots, |lots|), line, DisposalResult(FIFO, lots, quantity).value, removed, removed + quantity)
  }

  ghost predicate ReplayedLots(lotMethod: LotMethod, history: seq<ReplayInput>, i: nat, selectedYear: int, lots: seq<Lot>)
    requires i <= |history|
  {
    && ReplayedTo(LotPosition(lotMethod, []), history, i, selectedYear).Success?
    && ReplayedTo(LotPosition(lotMethod, []), history, i, selectedYear).value.0 == LotPosition(lotMethod, lots)
  }

  /** After i activities the units sold are the front of the line of bought units and the open lots the rest, and a SELL
      that follows takes exactly the next units of that line. */
  ghost predicate QueueAfter(history: seq<ReplayInput>, i: nat, selectedYear: int)
    requires i <= |history|
  {
    exists lots :: ReplayedLots(FIFO, history, i, selectedYear, lots) && QueueLots(history, i, lots)
  }

  ghost predicate QueueLots(history: seq<ReplayInput>, i: nat, lots: seq<Lot>)
    requires i <= |history|
  {
    var line, sold := AcquiredQuantities(EventsTo(history, i)), RemovedQuantity(EventsTo(history, i));
    && QueueState(lots, line, sold)
    && (i < |history| && EventOf(history[i], i + 1).Remove? ==> NextUnits(lots, line, sold, history[i].quantity))
  }

  /** After i activities the open lots are the stack of what is left of each purchase. */
  ghost predicate StackAfter(history: seq<ReplayInput>, i: nat, selectedYear: int)
    requires i <= |history|
  {
    exists lots :: ReplayedLots(LIFO, history, i, selectedYear, lots) && OpenQuantities(lots) == StackOf(EventsTo(history, i))
  }

  lemma NextSellSucceeds(history: seq<ReplayInput>, i: nat, selectedYear: int, lots: seq<Lot>)
    requires i < |history| && EventOf(history[i], i + 1).Remove? && ReplayedLots(FIFO, history, i, selectedYear, lots)
    requires ReplayedTo(LotPosition(FIFO, []), history, i + 1, selectedYear).Success?
    ensures WellFormed(lots) && DisposalResult(FIFO, lots, history[i].quantity).Success?
  {
    hide Step, DisposalResult, LotsAfter;
    StepIsAnEvent(FIFO, lots, history[i], i + 1, selectedYear);
  }

  lemma DatedHistoryIsAQueue(history: seq<ReplayInput>, i: nat, selectedYear: int)
    requires i <= |history| && DatesInOrder(history)
    requires ReplayedTo(LotPosition(FIFO, []), history, i, selectedYear).Success?
    requires i < |history| ==> ReplayedTo(LotPosition(FIFO, []), history, i + 1, selectedYear).Success?
    ensures QueueAfter(history, i, selectedYear)
  {
    hide ReplayedTo, Run, QueueState, EventsTo, DisposalResult, CutsAcquisitionLine, DatesInOrder, Chronological, AcquiredQuantities, RemovedQuantity;
    var events := EventsTo(history, i);
    LotReplayIsARun(FIFO, history, i, selectedYear);
    var lots := Run(FIFO, events).value;
    LotsAreChronological(FIFO, history, i);
    FifoRunIsAQueue(events);
    if i < |history| && EventOf(history[i], i + 1).Remove? {
      NextSellSucceeds(history, i, selectedYear, lots);
      FifoRemovalCutsTheLine(events, history[i].quantity);
      assert NextUnits(lots, AcquiredQuantities(events), RemovedQuantity(events), history[i].quantity);
    }
    assert ReplayedLots(FIFO, history, i, selectedYear, lots) && QueueLots(history, i, lots);
  }

  lemma DatedHistoryIsAStack(history: seq<ReplayInput>, i: nat, selectedYear: int)
    requires i <= |history| && DatesInOrder(history)
    requires ReplayedTo(LotPosition(LIFO, []), history, i, selectedYear).Success?
    ensures StackAfter(history, i, selectedYear)
  {
    hide ReplayedTo, Run, StackOf, EventsTo, DatesInOrder, Chronological;
    LotReplayIsARun(LIFO, history, i, selectedYear);
    LotsAreChronological(LIFO, history, i);
    LifoRunIsAStack(EventsTo(history, i));
    assert ReplayedLots(LIFO, history, i, selectedYear, Run(LIFO, EventsTo(history, i)).value);
  }

  // -------- highest cost --------

  /** After i activities the open lots are chronological, and a SELL that follows leaves no costlier open lot, and no equally
      costly older one, beside a lot it took from. */
  ghost predicate CostliestAfter(history: seq<ReplayInput>, i: nat, selectedYear: int)
    requires i <= |history|
  {
    exists lots :: ReplayedLots(HIFO, history, i, selectedYear, lots) && CostliestLots(history, i, selectedYear, lots)
  }

  ghost predicate CostliestLots(history: seq<ReplayInput>, i: nat, selectedYear: int, lots: seq<Lot>)
    requires i <= |history|
  {
    && FromTheFirst(lots, history, i)
    && (i < |history| && EventOf(history[i], i + 1).Remove? ==>
          exists after :: ReplayedLots(HIFO, history, i + 1, selectedYear, after) && CostliestGone(lots, after))
  }

  lemma DatedHistoryTakesTheCostliest(history: seq<ReplayInput>, i: nat, selectedYear: int)
    requires i <= |history| && DatesInOrder(history)
    requires ReplayedTo(LotPosition(HIFO, []), history, i, selectedYear).Success?
    requires i < |history| ==> ReplayedTo(LotPosition(HIFO, []), history, i + 1, selectedYear).Success?
    ensures CostliestAfter(history, i, selectedYear)
  {
    hide ReplayedTo, Run, EventsTo, DisposalResult, LotsAfter, DatesInOrder, CostliestGone;
    LotReplayIsARun(HIFO, history, i, selectedYear);
    var lots := Run(HIFO, EventsTo(history, i)).value;
    LotsAreChronological(HIFO, history, i);
    if i < |history| && EventOf(history[i], i + 1).Remove? {
      LotReplayIsARun(HIFO, history, i + 1, selectedYear);
      NextEvent(history, i);
      RunStep(HIFO, EventsTo(history, i), EventOf(history[i], i + 1));
      HighestCostLeavesNoneCostlier(lots, history[i].quantity);
      assert ReplayedLots(HIFO, history, i + 1, selectedYear, LotsAfter(HIFO, lots, history[i].quantity));
    }
    assert ReplayedLots(HIFO, history, i, selectedYear, lots) && CostliestLots(history, i, selectedYear, lots);
  }

  lemma NextEvent(history: seq<ReplayInput>, i: nat)
    requires i < |history|
    ensures EventsTo(history, i + 1) == EventsTo(history, i) + [EventOf(history[i], i + 1)]
  {
  }
}
