/** How long a scope stays in average-cost fallback. */
module HybridModes {
  import opened Outcomes
  import opened LotOrder
  import opened Lots
  import opened HybridScopes
  import opened HybridTheorems
  import opened HybridDecomposition

  ghost predicate InFallback(scope: Option<ScopeState>) {
    scope.Some? && scope.value.Fallback?
  }

  lemma StepReports(history: ScopeHistory, event: ScopeEvent)
    requires OpenIfAny(history.scope) && ScopeStep(history, event).Success?
    ensures history.disposals <= ScopeStep(history, event).value.disposals
    ensures event.Take? ==>
              && |ScopeStep(history, event).value.disposals| == |history.disposals| + 1
              && (ScopeStep(history, event).value.disposals[|history.disposals|].reachedZero <==> ScopeStep(history, event).value.scope.None?)
    ensures event.Add? ==> ScopeStep(history, event).value.scope.Some?
    ensures InFallback(history.scope) && ScopeStep(history, event).value.scope.Some? ==> InFallback(ScopeStep(history, event).value.scope)
  {
    hide ScopeAcquisition, ScopeDisposal, OpenScope;
    match event
    case Add(lot) => AcquisitionKeepsScope(history.scope, lot);
    case Take(quantity) => DisposalKeepsScope(history.scope.value, quantity);
  }

  /** Once in fallback a scope stays in fallback through every later event until a disposal reports that it reached
      zero. */
  lemma {:induction false} FallbackPersists(events: seq<ScopeEvent>, later: seq<ScopeEvent>)
    requires ScopeRun(events).Success? && InFallback(ScopeRun(events).value.scope)
    requires ScopeRun(events + later).Success?
    requires forall i :: |ScopeRun(events).value.disposals| <= i < |ScopeRun(events + later).value.disposals| ==>
               !ScopeRun(events + later).value.disposals[i].reachedZero
    ensures ScopeRun(events).value.disposals <= ScopeRun(events + later).value.disposals
    ensures InFallback(ScopeRun(events + later).value.scope)
    decreases |later|
  {
    if later == [] {
      assert events + later == events;
    } else {
      hide ScopeStep, ScopeRun, InFallback;
      var init, last := later[..|later| - 1], later[|later| - 1];
      assert events + later == (events + init) + [last];
      ScopeRunStep(events + init, last);
      var middle := ScopeRun(events + init).value;
      StepReports(middle, last);
      PrefixSucceeds(events, init);
      FallbackPersists(events, init);
    }
  }

  /** Reports are only ever added. */
  lemma {:induction false} PrefixSucceeds(events: seq<ScopeEvent>, later: seq<ScopeEvent>)
    requires ScopeRun(events + later).Success?
    ensures ScopeRun(events).Success? && ScopeRun(events).value.disposals <= ScopeRun(events + later).value.disposals
    decreases |later|
  {
    if later == [] {
      assert events + later == events;
    } else {
      hide ScopeStep, ScopeRun;
      var init, last := later[..|later| - 1], later[|later| - 1];
      assert events + later == (events + init) + [last];
      ScopeRunStep(events + init, last);
      PrefixSucceeds(events, init);
      StepReports(ScopeRun(events + init).value, last);
    }
  }

  /** After a scope reached zero the next acquisition starts it again in exact mode, with that lot alone. */
  lemma ReacquisitionRestartsExact(events: seq<ScopeEvent>, take: ScopeEvent, lot: Lot)
    requires take.Take? && ScopeRun(events + [take]).Success? && ValidateAcquisition(lot).None?
    requires var disposals := ScopeRun(events + [take]).value.disposals;
             |disposals| > 0 && disposals[|disposals| - 1].reachedZero
    ensures ScopeRun(events + [take] + [Add(lot)]).Success?
    ensures ScopeRun(events + [take] + [Add(lot)]).value.scope == Some(Exact([Stored(lot)]))
  {
    hide ScopeRun;
    ScopeRunStep(events, take);
    ScopeRunStep(events + [take], Add(lot));
    StepReports(ScopeRun(events).value, take);
  }
}
