/** The objects of the hybrid method: one open state for each applicable scope, updated in place. */
module HybridState {
  import opened Outcomes
  import opened Sums
  import opened StableSorting
  import opened LotOrder
  import opened Lots
  import opened LotState
  import opened LotProperties
  import opened Pools
  import opened HybridScopes
  import opened HybridTheorems
  import opened HybridMachine
  import Text

  lemma ConsumeFront(first: ProvenanceLot, rest: seq<ProvenanceLot>, quantity: real)
    requires quantity != 0.0
    ensures var matched := Minimum(first.quantity, quantity);
            && ConsumeProvenance([first] + rest, quantity).0
               == [first.(quantity := first.quantity - matched)] + ConsumeProvenance(rest, quantity - matched).0
            && ConsumeProvenance([first] + rest, quantity).1 == ConsumeProvenance(rest, quantity - matched).1
  {
    assert ([first] + rest)[1..] == rest;
  }

  /** The entries before i are final; consuming the rest gives the whole outcome. */
  ghost predicate ConsumedUpTo(all: (seq<ProvenanceLot>, real), provenance: seq<ProvenanceLot>, i: nat, remaining: real) {
    && i <= |provenance|
    && all.0 == provenance[..i] + ConsumeProvenance(provenance[i..], remaining).0
    && all.1 == ConsumeProvenance(provenance[i..], remaining).1
  }

  lemma ConsumeStart(provenance: seq<ProvenanceLot>, quantity: real)
    ensures ConsumedUpTo(ConsumeProvenance(provenance, quantity), provenance, 0, quantity)
  {
    assert provenance[0..] == provenance;
  }

  lemma ConsumeNext(all: (seq<ProvenanceLot>, real), provenance: seq<ProvenanceLot>, i: nat, remaining: real)
    requires ConsumedUpTo(all, provenance, i, remaining) && i < |provenance| && remaining != 0.0
    ensures var matched := Minimum(provenance[i].quantity, remaining);
            var next := provenance[i := provenance[i].(quantity := provenance[i].quantity - matched)];
            ConsumedUpTo(all, next, i + 1, remaining - matched)
  {
    hide ConsumeProvenance;
    var first, rest := provenance[i], provenance[i + 1..];
    var matched := Minimum(first.quantity, remaining);
    var used := first.(quantity := first.quantity - matched);
    assert provenance[i..] == [first] + rest;
    ConsumeFront(first, rest, remaining);
    assert provenance[i := used][i + 1..] == rest;
    assert provenance[i := used][..i + 1] == provenance[..i] + [used];
  }

  lemma ConsumeEnd(all: (seq<ProvenanceLot>, real), provenance: seq<ProvenanceLot>, i: nat, remaining: real)
    requires ConsumedUpTo(all, provenance, i, remaining) && (i == |provenance| || remaining == 0.0)
    ensures all == (provenance, remaining)
  {
    assert provenance[..i] + provenance[i..] == provenance;
  }

  lemma PoolFront(pool: Pool, lots: seq<Lot>, i: nat)
    requires i < |lots|
    ensures PoolLots(pool, lots[i..])
            == match PoolAcquisition(pool, lots[i].quantity, lots[i].basis)
               case Failure(e) => Failure(e)
               case Success(larger) => PoolLots(larger, lots[i + 1..])
  {
    assert lots[i..][1..] == lots[i + 1..];
  }

  lemma PoolEnds(pool: Pool, lots: seq<Lot>)
    ensures PoolLots(pool, lots[0..]) == PoolLots(pool, lots) && PoolLots(pool, lots[|lots|..]) == Success(pool)
    ensures ProvenanceOfLots(lots)[..0] == [] && ProvenanceOfLots(lots)[..|lots|] == ProvenanceOfLots(lots)
  {
    assert lots[0..] == lots && lots[|lots|..] == [];
  }

  lemma PooledFront(pool: Pool, lots: seq<Lot>, i: nat)
    requires i < |lots|
    ensures PooledSoFar(pool, ProvenanceOfLots(lots)[..i], lots[i..])
            == match PoolAcquisition(pool, lots[i].quantity, lots[i].basis)
               case Failure(_) => Fallback(pool, ProvenanceOfLots(lots)[..i])
               case Success(larger) => PooledSoFar(larger, ProvenanceOfLots(lots)[..i + 1], lots[i + 1..])
  {
    assert lots[i..][1..] == lots[i + 1..];
    assert ProvenanceOfLots(lots)[..i + 1] == ProvenanceOfLots(lots)[..i] + [ProvenanceOf(lots[i])];
  }

  lemma ActivatedFrom(lots: seq<Lot>, sorted: seq<Lot>)
    requires OpenLots(lots) != [] && sorted == SortLots(OpenLots(lots))
    ensures Activated(lots)
            == match PoolLots(EMPTY_POOL, sorted)
               case Failure(e) => Failure(e)
               case Success(pool) => Success(Fallback(pool, ProvenanceOfLots(sorted)))
  {
  }

  /** A scope with one more acquisition. */
  ghost function Enlarged(scope: ScopeState, lot: Lot): ScopeState {
    match scope
    case Exact(lots) => Exact(lots + [Stored(lot)])
    case Fallback(pool, provenance) =>
      Fallback(Pool(pool.quantity + lot.quantity, pool.basis + lot.basis), SortProvenance(provenance + [ProvenanceOf(lot)]))
  }

  class ScopeLocalOpenState {
    var exactState: LotMethodState?
    var fallbackPool: AverageCostState?
    var provenanceLots: seq<ProvenanceLot>
    /** What the objects of this scope stand for, and which they are. */
    ghost var State: ScopeState
    ghost var Repr: set<object>

    /** The pool, once there, decides the mode. */
    ghost predicate Valid()
      reads this, Repr
      ensures Valid() ==> this in Repr
    {
      && this in Repr
      && (fallbackPool == null ==>
            && exactState != null && exactState in Repr && exactState.Valid() && exactState.lotMethod == FIFO
            && State == Exact(exactState.lots))
      && (fallbackPool != null ==>
            && fallbackPool in Repr
            && State == Fallback(fallbackPool.Contents(), provenanceLots))
    }

    constructor ()
      ensures Valid() && fresh(Repr) && State == Exact([])
    {
      var lotState := new LotMethodState(FIFO);
      exactState := lotState;
      fallbackPool := null;
      provenanceLots := [];
      State := Exact([]);
      Repr := {this, lotState};
    }

    predicate InFallback()
      reads this
    {
      fallbackPool != null
    }

    method SortFallbackProvenance()
      modifies `provenanceLots
      ensures provenanceLots == SortProvenance(old(provenanceLots))
      ensures OldestFirst(provenanceLots) && multiset(provenanceLots) == multiset(old(provenanceLots))
    {
      SortedProvenanceIsOldestFirst(provenanceLots);
      StableSortElements(OlderProvenance(), provenanceLots);
      provenanceLots := SortProvenance(provenanceLots);
    }

    /** Adds an acquisition in the mode the scope is in. */
    method AddAcquisition(lot: Lot) returns (error: Option<Error>)
      requires Valid() && ValidateAcquisition(lot).None?
      modifies Repr
      ensures Valid() && Repr == old(Repr) && error.None?
      ensures State == Enlarged(old(State), lot)
    {
      hide SortProvenance, OldestFirst, WellFormed;
      if InFallback() {
        error := fallbackPool.AddAcquisition(lot.quantity, lot.basis);
        provenanceLots := provenanceLots + [ProvenanceOf(lot)];
        SortFallbackProvenance();
        State := Fallback(fallbackPool.Contents(), provenanceLots);
      } else {
        error := exactState.AddAcquisition(lot);
        State := Exact(exactState.lots);
      }
    }

    /** Moves the open lots into an average-cost pool and a provenance queue, oldest first.  A refused activation leaves
        the scope in fallback with what was pooled before the refusal. */
    method ActivateFallback() returns (error: Option<Error>)
      requires Valid() && State.Exact?
      modifies this
      ensures Valid() && fresh(Repr - old(Repr))
      ensures error.None? ==> exactState == null
      ensures Activated(old(State.lots)) == if error.Some? then Failure(error.value) else Success(State)
      ensures error.Some? ==> State == ActivationLeaves(old(State.lots))
    {
      hide WellFormed, OpenLots, SortLots, PoolLots, PooledSoFar;
      var open := exactState.GetOpenLots();
      if open == [] {
        return Some(NothingOpen);
      }
      var sorted := SortLots(open);
      ActivatedFrom(exactState.lots, sorted);
      PoolEnds(EMPTY_POOL, sorted);
      var pool := new AverageCostState();
      fallbackPool, provenanceLots := pool, [];
      Repr := Repr + {pool};
      var i := 0;
      while i < |sorted|
        invariant i <= |sorted| && fallbackPool == pool && provenanceLots == ProvenanceOfLots(sorted)[..i]
        invariant Repr == old(Repr) + {pool}
        invariant PoolLots(EMPTY_POOL, sorted) == PoolLots(pool.Contents(), sorted[i..])
        invariant PooledSoFar(EMPTY_POOL, [], sorted) == PooledSoFar(pool.Contents(), provenanceLots, sorted[i..])
      {
        PoolFront(pool.Contents(), sorted, i);
        PooledFront(pool.Contents(), sorted, i);
        error := pool.AddAcquisition(sorted[i].quantity, sorted[i].basis);
        if error.Some? {
          State := Fallback(pool.Contents(), provenanceLots);
          return error;
        }
        provenanceLots := provenanceLots + [ProvenanceOf(sorted[i])];
        i := i + 1;
      }
      PoolEnds(pool.Contents(), sorted);
      exactState := null;
      State := Fallback(pool.Contents(), provenanceLots);
      return None;
    }

    /** Takes a quantity off the queue, entry by entry, in place. */
    method ConsumeFallbackProvenance(quantity: real) returns (error: Option<Error>)
      modifies this`provenanceLots
      ensures provenanceLots == ConsumeProvenance(old(provenanceLots), quantity).0
      ensures error == if ConsumeProvenance(old(provenanceLots), quantity).1 != 0.0 then Some(ExceedsProvenance) else None
    {
      hide ConsumeProvenance, ConsumedUpTo;
      var remaining := quantity;
      var i := 0;
      ghost var all := ConsumeProvenance(provenanceLots, quantity);
      ConsumeStart(provenanceLots, quantity);
      while i < |provenanceLots| && remaining != 0.0
        invariant i <= |provenanceLots| && ConsumedUpTo(all, provenanceLots, i, remaining)
      {
        ConsumeNext(all, provenanceLots, i, remaining);
        var matched := Minimum(provenanceLots[i].quantity, remaining);
        provenanceLots := provenanceLots[i := provenanceLots[i].(quantity := provenanceLots[i].quantity - matched)];
        remaining := remaining - matched;
        i := i + 1;
      }
      ConsumeEnd(all, provenanceLots, i, remaining);
      error := if remaining != 0.0 then Some(ExceedsProvenance) else None;
    }

    /** Takes a quantity from the pool and from the provenance queue. */
    method TakeFromPool(quantity: real) returns (r: Result<PoolDisposal>)
      requires Valid() && State.Fallback?
      modifies Repr
      ensures Valid() && Repr == old(Repr)
      ensures State == RefusedFallback(old(State.pool), old(State.provenance), quantity)
      ensures match PoolDisposalResult(old(State.pool), quantity)
              case Failure(e) => r == Failure(e)
              case Success(d) =>
                if ConsumeProvenance(old(State.provenance), quantity).1 != 0.0 then r == Failure(ExceedsProvenance) else r == Success(d)
    {
      hide ConsumeProvenance, PoolDisposalResult;
      r := fallbackPool.Dispose(quantity);
      if r.Failure? {
        return;
      }
      var error := ConsumeFallbackProvenance(quantity);
      State := Fallback(fallbackPool.Contents(), provenanceLots);
      if error.Some? {
        return Failure(error.value);
      }
    }

    method OpenQuantity() returns (quantity: real)
      requires Valid()
      ensures quantity == ScopeQuantity(State)
    {
      if InFallback() {
        quantity := fallbackPool.quantity;
      } else {
        quantity := exactState.GetTotalOpenQuantity();
      }
    }

    method OpenBasis() returns (basis: real)
      requires Valid()
      ensures basis == ScopeBasis(State)
    {
      if InFallback() {
        basis := fallbackPool.basis;
      } else {
        basis := exactState.GetTotalOpenBasis();
      }
    }

    /** Takes a quantity from the lots. */
    method TakeFromLots(quantity: real) returns (r: Result<LotDisposal>)
      requires Valid() && State.Exact?
      modifies Repr
      ensures Valid() && Repr == old(Repr)
      ensures NonNegativeQuantities(old(State.lots))
      ensures r == DisposalResult(FIFO, old(State.lots), quantity)
      ensures State == Exact(LotsAfter(FIFO, old(State.lots), quantity))
    {
      hide DisposalResult, LotsAfter;
      r := exactState.Dispose(quantity);
      State := Exact(exactState.lots);
    }
  }

  class ScopeLocalHybridState {
    var scopes: map<string, ScopeLocalOpenState>
    ghost var Repr: set<object>

    /** The scopes share no object. */
    ghost predicate Valid()
      reads this, Repr
      ensures Valid() ==> this in Repr
    {
      && this in Repr
      && (forall key :: key in scopes ==>
            && scopes[key] in Repr && scopes[key].Repr <= Repr && this !in scopes[key].Repr
            && scopes[key].Valid())
      && (forall key, other :: key in scopes && other in scopes && key != other ==> scopes[key].Repr !! scopes[other].Repr)
    }

    ghost function Contents(): (contents: Scopes)
      requires Valid()
      reads this, Repr
      ensures contents.Keys == scopes.Keys
    {
      map key | key in scopes :: scopes[key].State
    }

    constructor ()
      ensures Valid() && fresh(Repr) && Contents() == map[]
    {
      scopes := map[];
      Repr := {this};
    }

    /** The open state of a scope, created in exact mode when there is none. */
    method EnsureScopeState(key: string) returns (scope: ScopeLocalOpenState)
      requires Valid()
      modifies this
      ensures Valid() && fresh(Repr - old(Repr))
      ensures key in scopes && scope == scopes[key]
      ensures Contents() == if key in old(scopes) then old(Contents()) else old(Contents())[key := Exact([])]
    {
      if key in scopes {
        scope := scopes[key];
      } else {
        scope := new ScopeLocalOpenState();
        scopes := scopes[key := scope];
        Repr := Repr + scope.Repr;
      }
    }

    /** Changing the objects of one scope changes that scope's entry and nothing else. */
    twostate lemma OneScopeChanged(key: string)
      requires old(Valid()) && scopes == old(scopes) && key in scopes
      requires this in Repr && Repr >= old(Repr) && fresh(Repr - old(Repr))
      requires scopes[key].Valid() && scopes[key].Repr <= Repr && fresh(scopes[key].Repr - old(scopes[key].Repr))
      requires forall o :: o in old(Repr) - old(scopes[key].Repr) - {this} ==> unchanged(o)
      ensures Valid() && Contents() == old(Contents())[key := scopes[key].State]
    {
      forall other | other in scopes && other != key
        ensures scopes[other].Valid() && scopes[other].Repr == old(scopes[other].Repr) && scopes[other].State == old(scopes[other].State)
      {
        assert scopes[other] in old(scopes[other].Repr);
        assert old(scopes[other].Repr) !! old(scopes[key].Repr);
        forall o | o in old(scopes[other].Repr)
          ensures unchanged(o)
        {
          assert o in old(Repr) - old(scopes[key].Repr) - {this};
        }
      }
    }

    method AddToScope(key: string, lot: Lot) returns (error: Option<Error>)
      requires Valid() && key in scopes && ValidateAcquisition(lot).None?
      modifies Repr
      ensures Valid() && Repr == old(Repr) && error.None?
      ensures Contents() == WithScope(old(Contents()), key, Some(Enlarged(old(Contents())[key], lot)))
    {
      hide ValidateAcquisition, Enlarged;
      error := scopes[key].AddAcquisition(lot);
      OneScopeChanged(key);
    }

    /** Routes an acquisition to its scope. */
    method AddAcquisition(scopeKey: string, lot: Lot) returns (error: Option<Error>)
      requires Valid()
      modifies Repr
      ensures Valid() && fresh(Repr - old(Repr))
      ensures HybridAcquisition(old(Contents()), scopeKey, lot)
              == if error.Some? then Failure(error.value) else Success(Contents())
      ensures error.Some? ==> Contents() == old(Contents())
    {
      hide ValidateAcquisition, Enlarged, ScopeAcquisition;
      var key := Text.TrimSpace(scopeKey);
      if key == "" {
        return Some(InvalidInput);
      }
      error := ValidateAcquisition(lot);
      if error.Some? {
        InvalidAcquisition(ScopeOf(Contents(), key), lot);
        return error;
      }
      ghost var before := Contents();
      ValidAcquisition(ScopeOf(before, key), lot);
      var scope := EnsureScopeState(key);
      ghost var larger := Enlarged(Contents()[key], lot);
      LastScopeCounts(before, key, Exact([]));
      error := AddToScope(key, lot);
      assert Contents() == WithScope(before, key, Some(larger));
      assert HybridAcquisition(before, scopeKey, lot) == Success(WithScope(before, key, Some(larger)));
    }

    /** A used-up scope is forgotten. */
    method Forget(key: string)
      requires Valid() && key in scopes
      modifies this
      ensures Valid() && Repr == old(Repr) && Contents() == WithScope(old(Contents()), key, None)
    {
      scopes := scopes - {key};
    }

    /** Average-cost disposal of a scope in fallback. */
    method DisposeWithFallback(key: string, quantity: real) returns (r: Result<HybridDisposal>)
      requires Valid() && key in scopes && Contents()[key].Fallback?
      modifies Repr
      ensures Valid() && Repr == old(Repr)
      ensures var before := old(Contents())[key];
              match FallbackDisposal(before.pool, before.provenance, quantity)
              case Failure(e) => r == Failure(e) && Contents() == old(Contents())[key := RefusedFallback(before.pool, before.provenance, quantity)]
              case Success((next, disposal)) => r == Success(disposal) && Contents() == WithScope(old(Contents()), key, next)
    {
      hide ConsumeProvenance, PoolDisposalResult, PoolAfter;
      ghost var before := Contents();
      var taken := scopes[key].TakeFromPool(quantity);
      OneScopeChanged(key);
      if taken.Failure? {
        return Failure(taken.error);
      }
      if taken.value.remainingQuantity == 0.0 {
        LastScopeCounts(before, key, Contents()[key]);
        Forget(key);
        return Success(HybridDisposal(taken.value.allocatedBasis, [], true));
      }
      return Success(HybridDisposal(taken.value.allocatedBasis, [], false));
    }

    /** Disposal of a scope with a single open lot, which identifies the units exactly. */
    method DisposeExactly(key: string, quantity: real) returns (r: Result<HybridDisposal>)
      requires Valid() && key in scopes && Contents()[key].Exact? && |OpenLots(Contents()[key].lots)| == 1
      modifies Repr
      ensures Valid() && Repr == old(Repr)
      ensures NonNegativeQuantities(old(Contents())[key].lots)
      ensures match ScopeDisposal(old(Contents())[key], quantity)
              case Failure(e) => r == Failure(e) && Contents() == old(Contents())[key := Exact(LotsAfter(FIFO, old(Contents())[key].lots, quantity))]
              case Success((next, disposal)) => r == Success(disposal) && Contents() == WithScope(old(Contents()), key, next)
    {
      hide DisposalResult, LotsAfter, OpenLots, TotalOpenQuantity;
      ghost var before := Contents();
      var taken := scopes[key].TakeFromLots(quantity);
      OneScopeChanged(key);
      if taken.Failure? {
        return Failure(taken.error);
      }
      var remainingQuantity := scopes[key].exactState.GetTotalOpenQuantity();
      if remainingQuantity == 0.0 {
        LastScopeCounts(before, key, Contents()[key]);
        Forget(key);
        return Success(HybridDisposal(taken.value.allocatedBasis, taken.value.matches, true));
      }
      return Success(HybridDisposal(taken.value.allocatedBasis, taken.value.matches, false));
    }

    /** Moves a scope into fallback. */
    method Activate(key: string) returns (error: Option<Error>)
      requires Valid() && key in scopes && Contents()[key].Exact?
      modifies Repr
      ensures Valid() && fresh(Repr - old(Repr)) && key in scopes
      ensures match Activated(old(Contents())[key].lots)
              case Failure(e) => error == Some(e) && Contents() == old(Contents())[key := ActivationLeaves(old(Contents())[key].lots)]
              case Success(fallback) => error.None? && Contents() == old(Contents())[key := fallback]
    {
      hide Activated, ActivationLeaves;
      error := scopes[key].ActivateFallback();
      Repr := Repr + scopes[key].Repr;
      OneScopeChanged(key);
    }

    /** Moves a scope into fallback and disposes from there. */
    method ActivateAndDispose(key: string, quantity: real) returns (r: Result<HybridDisposal>)
      requires Valid() && key in scopes && OpenScope(Contents()[key]) && Contents()[key].Exact? && |OpenLots(Contents()[key].lots)| != 1
      modifies Repr
      ensures Valid() && fresh(Repr - old(Repr))
      ensures match ScopeDisposal(old(Contents())[key], quantity)
              case Failure(e) => r == Failure(e) && Contents() == old(Contents())[key := RefusedScope(old(Contents())[key], quantity)]
              case Success((next, disposal)) => r == Success(disposal) && Contents() == WithScope(old(Contents()), key, next)
    {
      hide *;
      ghost var before := Contents();
      OpenScopeHasNonNegativeQuantities(before[key]);
      DisposalByActivation(before[key], quantity);
      var error := Activate(key);
      if error.Some? {
        return Failure(error.value);
      }
      LastScopeCounts(before, key, Contents()[key]);
      r := DisposeWithFallback(key, quantity);
    }

    /** Removes a quantity from one scope: exactly while one lot is open, by average cost otherwise. */
    method Dispose(scopeKey: string, quantity: real) returns (r: Result<HybridDisposal>)
      requires Valid() && OpenScopes(Contents())
      modifies Repr
      ensures Valid() && fresh(Repr - old(Repr))
      ensures match HybridDisposalResult(old(Contents()), scopeKey, quantity)
              case Failure(e) => r == Failure(e) && Contents() == RefusedHybrid(old(Contents()), scopeKey, quantity)
              case Success((next, disposal)) => r == Success(disposal) && Contents() == next
    {
      hide OpenScope, FallbackDisposal, OpenLots, DisposalResult, RefusedFallback, ActivationLeaves;
      var key := Text.TrimSpace(scopeKey);
      if key == "" {
        return Failure(InvalidInput);
      }
      if quantity <= 0.0 {
        return Failure(NotPositive);
      }
      if key !in scopes {
        return Failure(ExceedsOpenQuantity);
      }
      ghost var scope := Contents()[key];
      if scopes[key].InFallback() {
        r := DisposeWithFallback(key, quantity);
        assert ScopeDisposal(scope, quantity) == FallbackDisposal(scope.pool, scope.provenance, quantity);
      } else {
        var openLots := scopes[key].exactState.OpenLotCount();
        if openLots == 1 {
          r := DisposeExactly(key, quantity);
        } else {
          r := ActivateAndDispose(key, quantity);
        }
      }
    }

    /** The open quantity over all scopes, whatever order the map is walked in. */
    method GetTotalOpenQuantity() returns (total: real)
      requires Valid()
      ensures total == TotalQuantity(Contents())
    {
      hide SumScopes, OnlyKeys, ScopeQuantity;
      ghost var recorded := Contents();
      total := 0.0;
      var keys := scopes.Keys;
      assert recorded.Keys == keys;
      AllKeys(recorded, ScopeQuantity);
      while keys != {}
        invariant keys <= scopes.Keys
        invariant TotalQuantity(recorded) == total + SumScopes(OnlyKeys(recorded, keys), ScopeQuantity)
        decreases keys
      {
        var key :| key in keys;
        OneKeyLess(recorded, keys, key, ScopeQuantity);
        var quantity := scopes[key].OpenQuantity();
        total := total + quantity;
        keys := keys - {key};
      }
    }

    /** The open basis over all scopes. */
    method GetTotalOpenBasis() returns (total: real)
      requires Valid()
      ensures total == TotalBasis(Contents())
    {
      hide SumScopes, OnlyKeys, ScopeBasis;
      ghost var recorded := Contents();
      total := 0.0;
      var keys := scopes.Keys;
      assert recorded.Keys == keys;
      AllKeys(recorded, ScopeBasis);
      while keys != {}
        invariant keys <= scopes.Keys
        invariant TotalBasis(recorded) == total + SumScopes(OnlyKeys(recorded, keys), ScopeBasis)
        decreases keys
      {
        var key :| key in keys;
        OneKeyLess(recorded, keys, key, ScopeBasis);
        var basis := scopes[key].OpenBasis();
        total := total + basis;
        keys := keys - {key};
      }
    }
  }

  lemma AllKeys(scopes: Scopes, measure: ScopeState -> real)
    ensures SumScopes(OnlyKeys(scopes, scopes.Keys), measure) == SumScopes(scopes, measure)
    ensures SumScopes(OnlyKeys(scopes, {}), measure) == 0.0
  {
    assert OnlyKeys(scopes, scopes.Keys) == scopes;
    assert OnlyKeys(scopes, {}) == map[];
  }

  lemma OneKeyLess(scopes: Scopes, keys: set<string>, key: string, measure: ScopeState -> real)
    requires key in keys && keys <= scopes.Keys
    ensures SumScopes(OnlyKeys(scopes, keys), measure) == measure(scopes[key]) + SumScopes(OnlyKeys(scopes, keys - {key}), measure)
  {
    SumScopesRemove(OnlyKeys(scopes, keys), measure, key);
    assert OnlyKeys(scopes, keys) - {key} == OnlyKeys(scopes, keys - {key});
  }

  ghost function OnlyKeys(scopes: Scopes, keys: set<string>): Scopes {
    map key | key in keys && key in scopes :: scopes[key]
  }

  lemma DisposalByActivation(scope: ScopeState, quantity: real)
    requires scope.Exact? && NonNegativeQuantities(scope.lots) && |OpenLots(scope.lots)| != 1
    ensures match Activated(scope.lots)
            case Failure(e) => ScopeDisposal(scope, quantity) == Failure(e) && RefusedScope(scope, quantity) == ActivationLeaves(scope.lots)
            case Success(fallback) =>
              && fallback.Fallback?
              && ScopeDisposal(scope, quantity) == FallbackDisposal(fallback.pool, fallback.provenance, quantity)
              && RefusedScope(scope, quantity) == RefusedFallback(fallback.pool, fallback.provenance, quantity)
  {
  }

  /** Only the last change of a scope is visible. */
  lemma LastScopeCounts(scopes: Scopes, key: string, earlier: ScopeState)
    ensures forall last :: WithScope(scopes[key := earlier], key, last) == WithScope(scopes, key, last)
  {
    forall last
      ensures WithScope(scopes[key := earlier], key, last) == WithScope(scopes, key, last)
    {
      if last.None? {
        assert scopes[key := earlier] - {key} == scopes - {key};
      } else {
        assert scopes[key := earlier][key := last.value] == scopes[key := last.value];
      }
    }
  }

  lemma InvalidAcquisition(scope: Option<ScopeState>, lot: Lot)
    requires ValidateAcquisition(lot).Some?
    ensures ScopeAcquisition(scope, lot) == Failure(ValidateAcquisition(lot).value)
  {
  }

  /** What a validated acquisition does to a scope, an unopened one counting as exact without lots. */
  lemma ValidAcquisition(scope: Option<ScopeState>, lot: Lot)
    requires ValidateAcquisition(lot).None?
    ensures ScopeAcquisition(scope, lot) == Success(Enlarged(if scope.Some? then scope.value else Exact([]), lot))
  {
    assert [] + [Stored(lot)] == [Stored(lot)];
  }
}
