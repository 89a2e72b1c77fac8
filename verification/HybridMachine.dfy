/** The hybrid method over all scopes of one asset, as a function of the recorded scopes. */
module HybridMachine {
  import opened Outcomes
  import opened LotOrder
  import opened Lots
  import opened HybridScopes
  import opened HybridTheorems
  import Text

  type Scopes = map<string, ScopeState>

  /** Every recorded scope is open. */
  ghost predicate OpenScopes(scopes: Scopes) {
    forall key :: key in scopes ==> OpenScope(scopes[key])
  }

  function ScopeOf(scopes: Scopes, key: string): Option<ScopeState> {
    if key in scopes then Some(scopes[key]) else None
  }

  function WithScope(scopes: Scopes, key: string, scope: Option<ScopeState>): Scopes {
    match scope
    case None => scopes - {key}
    case Some(open) => scopes[key := open]
  }

  function HybridAcquisition(scopes: Scopes, scopeKey: string, lot: Lot): Result<Scopes> {
    var key := Text.TrimSpace(scopeKey);
    if key == "" then Failure(InvalidInput)
    else
      match ScopeAcquisition(ScopeOf(scopes, key), lot)
      case Failure(e) => Failure(e)
      case Success(next) => Success(scopes[key := next])
  }

  function HybridDisposalResult(scopes: Scopes, scopeKey: string, quantity: real): Result<(Scopes, HybridDisposal)>
    requires OpenScopes(scopes)
  {
    var key := Text.TrimSpace(scopeKey);
    if key == "" then Failure(InvalidInput)
    else if quantity <= 0.0 then Failure(NotPositive)
    else if key !in scopes then Failure(ExceedsOpenQuantity)
    else
      OpenScopeHasNonNegativeQuantities(scopes[key]);
      match ScopeDisposal(scopes[key], quantity)
      case Failure(e) => Failure(e)
      case Success((next, disposal)) => Success((WithScope(scopes, key, next), disposal))
  }

  /** What a refused disposal leaves of the scopes. */
  function RefusedHybrid(scopes: Scopes, scopeKey: string, quantity: real): Scopes
    requires OpenScopes(scopes)
  {
    var key := Text.TrimSpace(scopeKey);
    if key == "" || quantity <= 0.0 || key !in scopes then scopes
    else
      OpenScopeHasNonNegativeQuantities(scopes[key]);
      scopes[key := RefusedScope(scopes[key], quantity)]
  }

  // -------- totals over scopes --------

  /** A total over all scopes, which the iteration order of the map does not affect. */
  ghost function SumScopes(scopes: Scopes, measure: ScopeState -> real): real
    decreases |scopes|
  {
    if scopes == map[] then 0.0
    else
      var key :| key in scopes;
      measure(scopes[key]) + SumScopes(scopes - {key}, measure)
  }

  lemma {:induction false} SumScopesRemove(scopes: Scopes, measure: ScopeState -> real, key: string)
    requires key in scopes
    ensures SumScopes(scopes, measure) == measure(scopes[key]) + SumScopes(scopes - {key}, measure)
    decreases |scopes|
  {
    var first :| first in scopes && SumScopes(scopes, measure) == measure(scopes[first]) + SumScopes(scopes - {first}, measure);
    if first != key {
      SumScopesRemove(scopes - {first}, measure, key);
      SumScopesRemove(scopes - {key}, measure, first);
      assert scopes - {first} - {key} == scopes - {key} - {first};
    }
  }

  lemma SumScopesUpdate(scopes: Scopes, measure: ScopeState -> real, key: string, scope: ScopeState)
    ensures SumScopes(scopes[key := scope], measure)
            == SumScopes(scopes, measure) - (if key in scopes then measure(scopes[key]) else 0.0) + measure(scope)
  {
    SumScopesRemove(scopes[key := scope], measure, key);
    assert scopes[key := scope] - {key} == scopes - {key};
    if key in scopes {
      SumScopesRemove(scopes, measure, key);
    } else {
      assert scopes - {key} == scopes;
    }
  }

  ghost function TotalQuantity(scopes: Scopes): real {
    SumScopes(scopes, ScopeQuantity)
  }

  ghost function TotalBasis(scopes: Scopes): real {
    SumScopes(scopes, ScopeBasis)
  }

  lemma {:induction false} TotalQuantityIsPositive(scopes: Scopes)
    requires OpenScopes(scopes)
    ensures TotalQuantity(scopes) >= 0.0
    ensures TotalQuantity(scopes) == 0.0 <==> scopes == map[]
    decreases |scopes|
  {
    if scopes == map[] {
    } else {
      var key :| key in scopes;
      SumScopesRemove(scopes, ScopeQuantity, key);
      TotalQuantityIsPositive(scopes - {key});
    }
  }

  /** An acquisition is refused for its scope key or by its own validation, nothing else; the totals grow by it. */
  lemma AcquisitionKeepsScopes(scopes: Scopes, scopeKey: string, lot: Lot)
    requires OpenScopes(scopes)
    ensures HybridAcquisition(scopes, scopeKey, lot).Success? <==> Text.TrimSpace(scopeKey) != "" && ValidateAcquisition(lot).None?
    ensures HybridAcquisition(scopes, scopeKey, lot).Success? ==>
              var next := HybridAcquisition(scopes, scopeKey, lot).value;
              && OpenScopes(next)
              && (forall other :: other != Text.TrimSpace(scopeKey) ==> ScopeOf(next, other) == ScopeOf(scopes, other))
              && TotalQuantity(next) == TotalQuantity(scopes) + lot.quantity
              && TotalBasis(next) == TotalBasis(scopes) + lot.basis
  {
    hide ScopeAcquisition, OpenScope;
    var key := Text.TrimSpace(scopeKey);
    AcquisitionKeepsScope(ScopeOf(scopes, key), lot);
    if HybridAcquisition(scopes, scopeKey, lot).Success? {
      var next := ScopeAcquisition(ScopeOf(scopes, key), lot).value;
      SumScopesUpdate(scopes, ScopeQuantity, key, next);
      SumScopesUpdate(scopes, ScopeBasis, key, next);
    }
  }

  /** A disposal changes its own scope only; the totals shrink by exactly the quantity and the reported basis. */
  lemma DisposalKeepsScopes(scopes: Scopes, scopeKey: string, quantity: real)
    requires OpenScopes(scopes)
    ensures HybridDisposalResult(scopes, scopeKey, quantity).Success?
            <==> var key := Text.TrimSpace(scopeKey);
                 && key != "" && key in scopes && 0.0 < quantity <= ScopeQuantity(scopes[key]) && DivisibleScope(scopes[key])
    ensures HybridDisposalResult(scopes, scopeKey, quantity).Failure? ==>
              HybridDisposalResult(scopes, scopeKey, quantity).error in {InvalidInput, NotPositive, ExceedsOpenQuantity, NegativeAmount}
    ensures HybridDisposalResult(scopes, scopeKey, quantity).Success? ==>
              var key := Text.TrimSpace(scopeKey);
              var (next, disposal) := HybridDisposalResult(scopes, scopeKey, quantity).value;
              && OpenScopes(next)
              && (forall other :: other != key ==> ScopeOf(next, other) == ScopeOf(scopes, other))
              && TotalQuantity(next) == TotalQuantity(scopes) - quantity
              && TotalBasis(next) == TotalBasis(scopes) - disposal.allocatedBasis
              && (disposal.reachedZero <==> key !in next)
  {
    hide ScopeDisposal, OpenScope, DivisibleScope, ScopeQuantity, ScopeBasis;
    var key := Text.TrimSpace(scopeKey);
    if key in scopes {
      DisposalKeepsScope(scopes[key], quantity);
    }
    var r := HybridDisposalResult(scopes, scopeKey, quantity);
    if r.Success? {
      var next := ScopeDisposal(scopes[key], quantity).value.0;
      SumScopesRemove(scopes, ScopeQuantity, key);
      SumScopesRemove(scopes, ScopeBasis, key);
      if next.Some? {
        SumScopesUpdate(scopes, ScopeQuantity, key, next.value);
        SumScopesUpdate(scopes, ScopeBasis, key, next.value);
      }
    }
  }

  // -------- whole runs --------

  datatype ScopedEvent =
    | Acquire(scopeKey: string, lot: Lot)
    | Remove(scopeKey: string, quantity: real)

  datatype KeyedDisposal = KeyedDisposal(key: string, disposal: HybridDisposal)

  /** The scopes a run ends with, and what its disposals reported. */
  datatype HybridHistory = HybridHistory(scopes: Scopes, disposals: seq<KeyedDisposal>)

  function HybridStep(history: HybridHistory, event: ScopedEvent): Result<HybridHistory>
    requires OpenScopes(history.scopes)
  {
    match event
    case Acquire(scopeKey, lot) =>
      (match HybridAcquisition(history.scopes, scopeKey, lot)
       case Failure(e) => Failure(e)
       case Success(next) => Success(HybridHistory(next, history.disposals)))
    case Remove(scopeKey, quantity) =>
      (match HybridDisposalResult(history.scopes, scopeKey, quantity)
       case Failure(e) => Failure(e)
       case Success((next, disposal)) => Success(HybridHistory(next, history.disposals + [KeyedDisposal(Text.TrimSpace(scopeKey), disposal)])))
  }

  lemma StepKeepsScopes(history: HybridHistory, event: ScopedEvent)
    requires OpenScopes(history.scopes) && HybridStep(history, event).Success?
    ensures OpenScopes(HybridStep(history, event).value.scopes)
  {
    hide HybridAcquisition, HybridDisposalResult, OpenScope;
    match event
    case Acquire(scopeKey, lot) => AcquisitionKeepsScopes(history.scopes, scopeKey, lot);
    case Remove(scopeKey, quantity) => DisposalKeepsScopes(history.scopes, scopeKey, quantity);
  }

  /** After any successful run every recorded scope is open: it holds a positive quantity in exactly one mode, and in
      fallback its provenance adds up to the pool, oldest first. */
  function HybridRun(events: seq<ScopedEvent>): (r: Result<HybridHistory>)
    ensures r.Success? ==> OpenScopes(r.value.scopes)
  {
    if events == [] then Success(HybridHistory(map[], []))
    else
      var before := HybridRun(events[..|events| - 1]);
      if before.Failure? then before
      else
        var after := HybridStep(before.value, events[|events| - 1]);
        assert after.Success? ==> OpenScopes(after.value.scopes) by {
          if after.Success? { StepKeepsScopes(before.value, events[|events| - 1]); }
        }
        after
  }
}
