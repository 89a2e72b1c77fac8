/** The hybrid machine is a family of independent machines, one for each applicable scope. */
module HybridDecomposition {
  import opened Outcomes
  import opened LotOrder
  import opened HybridScopes
  import opened HybridTheorems
  import opened HybridMachine
  import Text

  /** What happens to one scope. */
  datatype ScopeEvent = Add(lot: Lot) | Take(quantity: real)

  datatype ScopeHistory = ScopeHistory(scope: Option<ScopeState>, disposals: seq<HybridDisposal>)

  ghost predicate OpenIfAny(scope: Option<ScopeState>) {
    scope.Some? ==> OpenScope(scope.value)
  }

  function ScopeStep(history: ScopeHistory, event: ScopeEvent): Result<ScopeHistory>
    requires OpenIfAny(history.scope)
  {
    match event
    case Add(lot) =>
      (match ScopeAcquisition(history.scope, lot)
       case Failure(e) => Failure(e)
       case Success(next) => Success(ScopeHistory(Some(next), history.disposals)))
    case Take(quantity) =>
      if quantity <= 0.0 then Failure(NotPositive)
      else if history.scope.None? then Failure(ExceedsOpenQuantity)
      else
        OpenScopeHasNonNegativeQuantities(history.scope.value);
        match ScopeDisposal(history.scope.value, quantity)
        case Failure(e) => Failure(e)
        case Success((next, disposal)) => Success(ScopeHistory(next, history.disposals + [disposal]))
  }

  lemma ScopeStepKeepsScope(history: ScopeHistory, event: ScopeEvent)
    requires OpenIfAny(history.scope) && ScopeStep(history, event).Success?
    ensures OpenIfAny(ScopeStep(history, event).value.scope)
  {
    hide OpenScope, ScopeAcquisition, ScopeDisposal;
    match event
    case Add(lot) => AcquisitionKeepsScope(history.scope, lot);
    case Take(quantity) => DisposalKeepsScope(history.scope.value, quantity);
  }

  /** The machine of one scope run on its own. */
  function ScopeRun(events: seq<ScopeEvent>): (r: Result<ScopeHistory>)
    ensures r.Success? ==> OpenIfAny(r.value.scope)
  {
    if events == [] then Success(ScopeHistory(None, []))
    else
      var before := ScopeRun(events[..|events| - 1]);
      if before.Failure? then before
      else
        var after := ScopeStep(before.value, events[|events| - 1]);
        assert after.Success? ==> OpenIfAny(after.value.scope) by {
          if after.Success? { ScopeStepKeepsScope(before.value, events[|events| - 1]); }
        }
        after
  }

  function EventKey(event: ScopedEvent): string {
    Text.TrimSpace(event.scopeKey)
  }

  function WithoutKey(event: ScopedEvent): ScopeEvent {
    match event
    case Acquire(_, lot) => Add(lot)
    case Remove(_, quantity) => Take(quantity)
  }

  /** The part of a history that concerns one scope. */
  function Project(events: seq<ScopedEvent>, key: string): seq<ScopeEvent> {
    if events == [] then []
    else
      var before, last := Project(events[..|events| - 1], key), events[|events| - 1];
      if EventKey(last) == key then before + [WithoutKey(last)] else before
  }

  function ProjectDisposals(disposals: seq<KeyedDisposal>, key: string): seq<HybridDisposal> {
    if disposals == [] then []
    else
      var before, last := ProjectDisposals(disposals[..|disposals| - 1], key), disposals[|disposals| - 1];
      if last.key == key then before + [last.disposal] else before
  }

  /** Scope by scope, the state and the reports of a history are those of the scope's own machine. */
  ghost predicate AgreesOn(events: seq<ScopedEvent>, history: HybridHistory, key: string) {
    ScopeRun(Project(events, key)) == Success(ScopeHistory(ScopeOf(history.scopes, key), ProjectDisposals(history.disposals, key)))
  }

  lemma ProjectStep(init: seq<ScopedEvent>, last: ScopedEvent, key: string)
    ensures Project(init + [last], key)
            == if EventKey(last) == key then Project(init, key) + [WithoutKey(last)] else Project(init, key)
  {
    assert (init + [last])[..|init|] == init;
  }

  lemma ProjectDisposalStep(init: seq<KeyedDisposal>, last: KeyedDisposal, key: string)
    ensures ProjectDisposals(init + [last], key)
            == if last.key == key then ProjectDisposals(init, key) + [last.disposal] else ProjectDisposals(init, key)
  {
    assert (init + [last])[..|init|] == init;
  }

  lemma ScopeRunStep(init: seq<ScopeEvent>, last: ScopeEvent)
    ensures ScopeRun(init + [last]) == if ScopeRun(init).Failure? then ScopeRun(init) else ScopeStep(ScopeRun(init).value, last)
  {
    assert (init + [last])[..|init|] == init;
  }

  /** One step of the whole machine is one step of the machine of its own scope, and none of the others. */
  lemma StepDecomposes(events: seq<ScopedEvent>, history: HybridHistory, event: ScopedEvent, key: string)
    requires OpenScopes(history.scopes) && EventKey(event) != ""
    requires AgreesOn(events, history, EventKey(event)) && AgreesOn(events, history, key)
    ensures HybridStep(history, event).Success? <==> ScopeRun(Project(events + [event], EventKey(event))).Success?
    ensures HybridStep(history, event).Success? ==> AgreesOn(events + [event], HybridStep(history, event).value, key)
  {
    hide ScopeAcquisition, ScopeDisposal, OpenScope, ScopeRun, Project, ProjectDisposals, Text.TrimSpace;
    var own := EventKey(event);
    ProjectStep(events, event, own);
    ProjectStep(events, event, key);
    ScopeRunStep(Project(events, own), WithoutKey(event));
    if event.Remove? && HybridStep(history, event).Success? {
      var disposal := HybridDisposalResult(history.scopes, event.scopeKey, event.quantity).value.1;
      ProjectDisposalStep(history.disposals, KeyedDisposal(own, disposal), key);
    }
  }

  /** Running the whole history succeeds exactly when every scope's own machine succeeds on its part of it; then each
      recorded scope, and each reported disposal, is the one its own machine produces. */
  lemma {:induction false} HybridDecomposes(events: seq<ScopedEvent>)
    requires forall i :: 0 <= i < |events| ==> EventKey(events[i]) != ""
    ensures HybridRun(events).Success? <==> forall key :: ScopeRun(Project(events, key)).Success?
    ensures HybridRun(events).Success? ==> forall key :: AgreesOn(events, HybridRun(events).value, key)
    decreases |events|
  {
    if events == [] {
    } else {
      hide HybridStep, ScopeRun, Project, AgreesOn;
      var init, last := events[..|events| - 1], events[|events| - 1];
      assert events == init + [last];
      HybridDecomposes(init);
      var own := EventKey(last);
      if HybridRun(init).Success? {
        var history := HybridRun(init).value;
        StepDecomposes(init, history, last, own);
        forall key
          ensures HybridRun(events).Success? ==> AgreesOn(events, HybridRun(events).value, key)
          ensures HybridRun(events).Success? ==> ScopeRun(Project(events, key)).Success?
        {
          StepDecomposes(init, history, last, key);
          if HybridRun(events).Success? {
            Agreement(events, HybridRun(events).value, key);
          }
        }
      } else {
        var key :| ScopeRun(Project(init, key)).Failure?;
        FailureIsFinal(init, last, key);
      }
    }
  }

  lemma Agreement(events: seq<ScopedEvent>, history: HybridHistory, key: string)
    requires AgreesOn(events, history, key)
    ensures ScopeRun(Project(events, key)).Success?
  {
  }

  lemma FailureIsFinal(init: seq<ScopedEvent>, last: ScopedEvent, key: string)
    requires ScopeRun(Project(init, key)).Failure?
    ensures ScopeRun(Project(init + [last], key)).Failure?
  {
    ProjectStep(init, last, key);
    ScopeRunStep(Project(init, key), WithoutKey(last));
  }
}
