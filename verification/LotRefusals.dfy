/** When rounding can refuse a disposal from lots: exactly when some acquired basis has too large a fraction of a unit. */
module LotRefusals {
  import opened Outcomes
  import opened Decimals
  import opened Proportions
  import opened Sums
  import opened LotOrder
  import opened Lots
  import opened LotProperties
  import opened LotTheorems
  import opened QueueRuns
  import opened LotDrift
  import opened SingleOpenLot

  /** Valid acquisitions, and removals of no more than what is then left: nothing but rounding can refuse one. */
  ghost predicate Feasible(events: seq<LotEvent>) {
    events == [] ||
    var before, last := events[..|events| - 1], events[|events| - 1];
    && Feasible(before)
    && (last.Acquire? ==> ValidateAcquisition(last.lot).None?)
    && (last.Remove? ==> 0.0 < last.quantity && RemovedQuantity(before) + last.quantity <= Sum(AcquiredQuantities(before)))
  }

  ghost predicate FiniteEvents(events: seq<LotEvent>) {
    forall k :: 0 <= k < |events| && events[k].Remove? ==> IsFinite(events[k].quantity)
  }

  ghost function StoredLots(acquired: seq<Lot>): (s: seq<Lot>)
    ensures |s| == |acquired| && forall i :: 0 <= i < |acquired| ==> s[i] == Stored(acquired[i])
  {
    seq(|acquired|, i requires 0 <= i < |acquired| => Stored(acquired[i]))
  }

  lemma FeasibleStep(before: seq<LotEvent>, event: LotEvent)
    ensures Feasible(before + [event]) <==>
              && Feasible(before)
              && (event.Acquire? ==> ValidateAcquisition(event.lot).None?)
              && (event.Remove? ==> 0.0 < event.quantity && RemovedQuantity(before) + event.quantity <= Sum(AcquiredQuantities(before)))
    ensures AcquiredLots(before + [event]) == if event.Acquire? then AcquiredLots(before) + [Stored(event.lot)] else AcquiredLots(before)
    ensures AcquiredQuantities(before + [event]) == if event.Acquire? then AcquiredQuantities(before) + [event.lot.quantity] else AcquiredQuantities(before)
    ensures RemovedQuantity(before + [event]) == if event.Remove? then RemovedQuantity(before) + event.quantity else RemovedQuantity(before)
  {
    assert (before + [event])[..|before|] == before;
  }

  // -------- small fractions --------

  ghost predicate SmallFractions(lots: seq<Lot>) {
    forall i :: 0 <= i < |lots| ==> Fraction(lots[i].basis) <= 0.5
  }

  /** No basis is negative, and each lot has kept its fraction or closed. */
  ghost predicate KeepsGoing(lots: seq<Lot>, events: seq<LotEvent>) {
    && TotalOpenQuantity(lots) == Sum(AcquiredQuantities(events)) - RemovedQuantity(events)
    && forall i :: 0 <= i < |lots| ==> lots[i].basis >= 0.0 && Fraction(lots[i].basis) <= 0.5
  }

  lemma TakingKeepsGoing(lot: Lot, taken: real)
    requires lot.basis >= 0.0 && Fraction(lot.basis) <= 0.5 && 0.0 < taken <= lot.quantity
    ensures LotWithout(lot, taken).basis >= 0.0 && Fraction(LotWithout(lot, taken).basis) <= 0.5
  {
    hide Fraction, RoundHalfUp;
    ShareWithinHalf(lot.basis, lot.quantity, taken);
    if taken < lot.quantity {
      PartialShareKeepsFraction(lot.basis, lot.quantity, taken);
    } else {
      NoFraction();
    }
  }

  lemma NoFraction()
    ensures Fraction(0.0) == 0.0
  {
  }

  lemma RemovalKeepsGoing(lotMethod: LotMethod, before: seq<LotEvent>, lots: seq<Lot>, quantity: real)
    requires WellFormed(lots) && KeepsGoing(lots, before) && Feasible(before + [Remove(quantity)])
    ensures DisposalResult(lotMethod, lots, quantity).Success?
    ensures KeepsGoing(LotsAfter(lotMethod, lots, quantity), before + [Remove(quantity)])
  {
    hide DisposalResult, LotsAfter, Fraction, LotWithout, Feasible;
    var after := LotsAfter(lotMethod, lots, quantity);
    FeasibleStep(before, Remove(quantity));
    DisposalSucceedsExactlyWhen(lotMethod, lots, quantity);
    DisposalOrderIsOpen(lotMethod, lots);
    assert ReachedBasesNonNegative(lots, DisposalOrder(lotMethod, lots), quantity);
    DisposalConserves(lotMethod, lots, quantity);
    forall i | 0 <= i < |after|
      ensures after[i].basis >= 0.0 && Fraction(after[i].basis) <= 0.5
    {
      var taken := DisposalPerLot(lotMethod, lots, quantity, i);
      if taken > 0.0 {
        TakingKeepsGoing(lots[i], taken);
      }
    }
  }

  lemma {:induction false} SmallFractionsAreNeverRefused(lotMethod: LotMethod, events: seq<LotEvent>)
    requires Feasible(events) && SmallFractions(AcquiredLots(events))
    ensures Run(lotMethod, events).Success? && KeepsGoing(Run(lotMethod, events).value, events)
    decreases |events|
  {
    hide DisposalResult, LotsAfter, Fraction, KeepsGoing;
    if events == [] {
      NothingYet(lotMethod);
    } else {
      var before, last := events[..|events| - 1], events[|events| - 1];
      assert events == before + [last];
      FeasibleStep(before, last);
      assert forall i :: 0 <= i < |AcquiredLots(before)| ==> AcquiredLots(before)[i] == AcquiredLots(events)[i];
      SmallFractionsAreNeverRefused(lotMethod, before);
      var lots := Run(lotMethod, before).value;
      match last
      case Acquire(lot) =>
        assert AcquiredLots(events)[|AcquiredLots(before)|] == Stored(lot);
        AcquisitionKeepsGoing(before, lots, lot);
      case Remove(quantity) => RemovalKeepsGoing(lotMethod, before, lots, quantity);
    }
  }

  lemma NothingYet(lotMethod: LotMethod)
    ensures KeepsGoing([], [])
  {
    assert OpenQuantities([]) == [];
  }

  lemma AcquisitionKeepsGoing(before: seq<LotEvent>, lots: seq<Lot>, lot: Lot)
    requires KeepsGoing(lots, before) && ValidateAcquisition(lot).None? && Fraction(lot.basis) <= 0.5
    ensures KeepsGoing(lots + [Stored(lot)], before + [Acquire(lot)])
  {
    hide Fraction;
    FeasibleStep(before, Acquire(lot));
    TotalsAppend(lots, Stored(lot));
    SumAppend(AcquiredQuantities(before), lot.quantity);
  }

  // -------- a history that gets stuck --------

  /** Each of the first n lots acquired and removed whole at once. */
  ghost function Cleared(acquired: seq<Lot>, n: nat): seq<LotEvent>
    requires n <= |acquired|
  {
    if n == 0 then [] else Cleared(acquired, n - 1) + [Acquire(acquired[n - 1])] + [Remove(acquired[n - 1].quantity)]
  }

  ghost function Acquisitions(acquired: seq<Lot>, n: nat): seq<LotEvent>
    requires n <= |acquired|
    decreases |acquired| - n
  {
    if n == |acquired| then [] else [Acquire(acquired[n])] + Acquisitions(acquired, n + 1)
  }

  ghost predicate ValidLots(acquired: seq<Lot>) {
    forall i :: 0 <= i < |acquired| ==> ValidateAcquisition(acquired[i]).None? && IsFinite(acquired[i].quantity)
  }

  /** A feasible history over the first n acquisitions. */
  ghost predicate HistoryOver(events: seq<LotEvent>, acquired: seq<Lot>, n: nat)
    requires n <= |acquired|
  {
    Feasible(events) && FiniteEvents(events) && AcquiredLots(events) == StoredLots(acquired[..n])
  }

  lemma AcquireNext(events: seq<LotEvent>, acquired: seq<Lot>, n: nat)
    requires n < |acquired| && ValidLots(acquired) && HistoryOver(events, acquired, n)
    ensures HistoryOver(events + [Acquire(acquired[n])], acquired, n + 1)
    ensures Sum(AcquiredQuantities(events + [Acquire(acquired[n])])) == Sum(AcquiredQuantities(events)) + acquired[n].quantity
    ensures RemovedQuantity(events + [Acquire(acquired[n])]) == RemovedQuantity(events)
  {
    hide Feasible, AcquiredLots, AcquiredQuantities, RemovedQuantity, IsFinite;
    FeasibleStep(events, Acquire(acquired[n]));
    SumAppend(AcquiredQuantities(events), acquired[n].quantity);
    assert StoredLots(acquired[..n + 1]) == StoredLots(acquired[..n]) + [Stored(acquired[n])];
  }

  lemma RemoveNext(events: seq<LotEvent>, acquired: seq<Lot>, n: nat, quantity: real)
    requires n <= |acquired| && HistoryOver(events, acquired, n) && IsFinite(quantity)
    requires 0.0 < quantity && RemovedQuantity(events) + quantity <= Sum(AcquiredQuantities(events))
    ensures HistoryOver(events + [Remove(quantity)], acquired, n)
    ensures AcquiredQuantities(events + [Remove(quantity)]) == AcquiredQuantities(events)
    ensures RemovedQuantity(events + [Remove(quantity)]) == RemovedQuantity(events) + quantity
  {
    hide Feasible, AcquiredLots, AcquiredQuantities, RemovedQuantity, IsFinite;
    FeasibleStep(events, Remove(quantity));
  }

  /** A run that has removed everything again. */
  ghost predicate ClosedRun(lotMethod: LotMethod, events: seq<LotEvent>) {
    && RemovedQuantity(events) == Sum(AcquiredQuantities(events))
    && Run(lotMethod, events).Success?
    && forall i :: 0 <= i < |Run(lotMethod, events).value| ==> Run(lotMethod, events).value[i].quantity == 0.0
  }

  /** One more lot on top of closed ones is the only open one. */
  lemma OneLotOpens(lotMethod: LotMethod, events: seq<LotEvent>, lot: Lot)
    requires ClosedRun(lotMethod, events) && ValidateAcquisition(lot).None?
    ensures var more := events + [Acquire(lot)];
            && Run(lotMethod, more) == Success(Run(lotMethod, events).value + [Stored(lot)])
            && OnlyOpen(Run(lotMethod, more).value, |Run(lotMethod, events).value|)
            && lot.quantity > 0.0 && lot.basis >= 0.0
  {
    hide Run, RemovedQuantity, AcquiredQuantities;
    RunStep(lotMethod, events, Acquire(lot));
  }

  /** The only open lot, still whole, can always be removed. */
  lemma OneLotCloses(lotMethod: LotMethod, events: seq<LotEvent>, lot: Lot)
    requires ClosedRun(lotMethod, events) && ValidateAcquisition(lot).None?
    ensures var after := Run(lotMethod, events + [Acquire(lot)] + [Remove(lot.quantity)]);
            after.Success? && forall i :: 0 <= i < |after.value| ==> after.value[i].quantity == 0.0
  {
    hide Run, DisposalResult, LotsAfter, ValidateAcquisition, LotWithout, RemovedQuantity, AcquiredQuantities;
    var more, i := events + [Acquire(lot)], |Run(lotMethod, events).value|;
    OneLotOpens(lotMethod, events, lot);
    RunStep(lotMethod, more, Remove(lot.quantity));
    OnlyOpenDisposal(lotMethod, Run(lotMethod, more).value, i, lot.quantity);
    WithoutLot(Run(lotMethod, more).value, i, lot.quantity);
  }

  lemma {:induction false} ClearedIsClosed(lotMethod: LotMethod, acquired: seq<Lot>, n: nat)
    requires n <= |acquired| && ValidLots(acquired)
    ensures HistoryOver(Cleared(acquired, n), acquired, n) && ClosedRun(lotMethod, Cleared(acquired, n))
  {
    hide Run, ValidateAcquisition, IsFinite, Feasible, HistoryOver;
    if n == 0 {
      NothingIsClosed(lotMethod, acquired);
    } else {
      ClearedIsClosed(lotMethod, acquired, n - 1);
      var before, lot := Cleared(acquired, n - 1), acquired[n - 1];
      AcquireNext(before, acquired, n - 1);
      OneLotOpens(lotMethod, before, lot);
      RemoveNext(before + [Acquire(lot)], acquired, n, lot.quantity);
      OneLotCloses(lotMethod, before, lot);
    }
  }

  lemma NothingIsClosed(lotMethod: LotMethod, acquired: seq<Lot>)
    ensures HistoryOver([], acquired, 0) && ClosedRun(lotMethod, [])
  {
    assert AcquiredQuantities([]) == [];
  }

  /** A lot with a large fraction is over-allocated by a first removal and refuses the second. */
  lemma TwoRemovalsGetStuck(lotMethod: LotMethod, events: seq<LotEvent>, i: nat, first: real, second: real)
    requires Run(lotMethod, events).Success? && OnlyOpen(Run(lotMethod, events).value, i)
    requires var lot := Run(lotMethod, events).value[i];
             && lot.basis >= 0.0 && 0.0 < first < lot.quantity && 0.0 < second <= lot.quantity - first
             && Share(lot.basis, lot.quantity, first) > lot.basis
    ensures Run(lotMethod, events + [Remove(first)] + [Remove(second)]).Failure?
  {
    hide DisposalResult, LotsAfter, Share;
    var lots := Run(lotMethod, events).value;
    var middle := lots[i := LotWithout(lots[i], first)];
    RunStep(lotMethod, events, Remove(first));
    OnlyOpenDisposal(lotMethod, lots, i, first);
    WithoutLot(lots, i, first);
    RunStep(lotMethod, events + [Remove(first)], Remove(second));
    OnlyOpenDisposal(lotMethod, middle, i, second);
  }

  /** Later acquisitions neither undo a failure nor make a history infeasible. */
  lemma {:induction false} AcquisitionsFollow(lotMethod: LotMethod, events: seq<LotEvent>, acquired: seq<Lot>, n: nat)
    requires n <= |acquired| && ValidLots(acquired) && Run(lotMethod, events).Failure? && HistoryOver(events, acquired, n)
    ensures Run(lotMethod, events + Acquisitions(acquired, n)).Failure?
    ensures HistoryOver(events + Acquisitions(acquired, n), acquired, |acquired|)
    decreases |acquired| - n
  {
    hide Run, HistoryOver, IsFinite, ValidateAcquisition;
    if n == |acquired| {
      assert events + [] == events;
    } else {
      var more := events + [Acquire(acquired[n])];
      AcquireNext(events, acquired, n);
      RunStep(lotMethod, events, Acquire(acquired[n]));
      AcquisitionsFollow(lotMethod, more, acquired, n + 1);
      Regrouped(events, Acquire(acquired[n]), Acquisitions(acquired, n + 1));
    }
  }

  lemma Regrouped(events: seq<LotEvent>, event: LotEvent, rest: seq<LotEvent>)
    ensures events + [event] + rest == events + ([event] + rest)
  {
  }

  lemma LargeFractionIsRefused(lotMethod: LotMethod, acquired: seq<Lot>, i: nat) returns (events: seq<LotEvent>)
    requires ValidLots(acquired) && i < |acquired| && Fraction(acquired[i].basis) > 0.5
    ensures HistoryOver(events, acquired, |acquired|) && Run(lotMethod, events).Failure?
  {
    hide Run, HistoryOver, IsFinite, Share, Fraction, Feasible;
    var lot := acquired[i];
    var cleared := Cleared(acquired, i);
    ClearedIsClosed(lotMethod, acquired, i);
    AcquireNext(cleared, acquired, i);
    OneLotOpens(lotMethod, cleared, lot);
    var started := cleared + [Acquire(lot)];
    var first := DecimalPortionOverflows(lot.basis, lot.quantity);
    var second := DecimalBetween(0.0, lot.quantity - first);
    TwoRemovalsGetStuck(lotMethod, started, |Run(lotMethod, cleared).value|, first, second);
    RemoveNext(started, acquired, i + 1, first);
    RemoveNext(started + [Remove(first)], acquired, i + 1, second);
    events := started + [Remove(first)] + [Remove(second)];
    AcquisitionsFollow(lotMethod, events, acquired, i + 1);
    events := events + Acquisitions(acquired, i + 1);
  }

  /** Under every lot method: no history over the given acquisitions is refused for rounding if and only if the basis of
      every acquisition has a fraction of a policy unit of at most one half. */
  lemma HistoriesAreNeverRefusedExactlyWhen(lotMethod: LotMethod, acquired: seq<Lot>)
    requires ValidLots(acquired)
    ensures (forall events :: HistoryOver(events, acquired, |acquired|) ==> Run(lotMethod, events).Success?) <==> SmallFractions(acquired)
  {
    hide Run, Feasible, FiniteEvents, Fraction;
    assert acquired[..|acquired|] == acquired;
    if SmallFractions(acquired) {
      forall events | HistoryOver(events, acquired, |acquired|)
        ensures Run(lotMethod, events).Success?
      {
        SmallFractionsAreNeverRefused(lotMethod, events);
      }
    } else {
      var i :| 0 <= i < |acquired| && Fraction(acquired[i].basis) > 0.5;
      var events := LargeFractionIsRefused(lotMethod, acquired, i);
    }
  }
}
