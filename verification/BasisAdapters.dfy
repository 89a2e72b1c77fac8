/** The adapters that put the method-specific objects behind one interface. */
module BasisAdapters {
  import opened Outcomes
  import opened LotOrder
  import opened Lots
  import opened LotState
  import opened Pools
  import opened HybridScopes
  import opened HybridMachine
  import opened HybridState
  import opened BasisModel
  import Text

  /** A copy of the fragments with their source identifiers trimmed, built one by one. */
  method CopyMatches(matches: seq<LotMatch>) returns (copies: seq<BasisMatch>)
    ensures copies == PlainMatches(matches)
  {
    copies := [];
    for i := 0 to |matches|
      invariant |copies| == i && forall j :: 0 <= j < i ==> copies[j] == PlainMatch(matches[j])
    {
      copies := copies + [BasisMatch(Text.TrimSpace(matches[i].sourceId), matches[i].quantity, matches[i].basis, None, None)];
    }
  }

  method DisposeLots(state: LotMethodState, scopeKey: string, quantity: real) returns (r: Result<BasisDisposal>)
    requires state.Valid()
    modifies state
    ensures state.Valid()
    ensures match Disposed(LotPosition(state.lotMethod, old(state.lots)), scopeKey, quantity)
            case Failure(e) =>
              r == Failure(e) && LotPosition(state.lotMethod, state.lots) == Refused(LotPosition(state.lotMethod, old(state.lots)), scopeKey, quantity)
            case Success((after, disposal)) => r == Success(disposal) && LotPosition(state.lotMethod, state.lots) == after
  {
    hide DisposalResult, LotsAfter, TotalOpenQuantity;
    var taken := state.Dispose(quantity);
    if taken.Failure? {
      return Failure(taken.error);
    }
    var remaining := state.GetTotalOpenQuantity();
    var matches := CopyMatches(taken.value.matches);
    r := Success(BasisDisposal(taken.value.allocatedBasis, matches, remaining == 0.0));
  }

  method DisposePool(state: AverageCostState, scopeKey: string, quantity: real) returns (r: Result<BasisDisposal>)
    requires WellFormedPool(state.Contents())
    modifies state
    ensures WellFormedPool(state.Contents())
    ensures match Disposed(PoolPosition(old(state.Contents())), scopeKey, quantity)
            case Failure(e) => r == Failure(e) && state.Contents() == old(state.Contents())
            case Success((after, disposal)) => r == Success(disposal) && PoolPosition(state.Contents()) == after
  {
    PoolDisposalConserves(state.Contents(), quantity);
    var taken := state.Dispose(quantity);
    if taken.Failure? {
      return Failure(taken.error);
    }
    var d := taken.value;
    r := Success(BasisDisposal(d.allocatedBasis, [BasisMatch("AVERAGE_COST_POOL", d.disposed, d.allocatedBasis, None, None)],
                               d.remainingQuantity == 0.0));
  }

  method DisposeScope(state: ScopeLocalHybridState, scopeKey: string, quantity: real) returns (r: Result<BasisDisposal>)
    requires state.Valid() && OpenScopes(state.Contents())
    modifies state.Repr
    ensures state.Valid() && fresh(state.Repr - old(state.Repr))
    ensures r.Success? ==> OpenScopes(state.Contents())
    ensures match Disposed(ScopedPosition(old(state.Contents())), scopeKey, quantity)
            case Failure(e) => r == Failure(e) && state.Contents() == RefusedHybrid(old(state.Contents()), scopeKey, quantity)
            case Success((after, disposal)) => r == Success(disposal) && ScopedPosition(state.Contents()) == after
  {
    hide OpenScope, HybridDisposalResult, RefusedHybrid;
    ghost var before := state.Contents();
    var taken := state.Dispose(scopeKey, quantity);
    if taken.Failure? {
      return Failure(taken.error);
    }
    var matches := CopyMatches(taken.value.matches);
    if |matches| == 0 {
      matches := [BasisMatch(Text.TrimSpace(scopeKey), quantity, taken.value.allocatedBasis, None, None)];
    }
    DisposalKeepsScopes(before, scopeKey, quantity);
    r := Success(BasisDisposal(taken.value.allocatedBasis, matches, taken.value.reachedZero));
  }

  datatype AssetBasisState =
    | LotBasis(lotState: LotMethodState)
    | AverageCostBasis(poolState: AverageCostState)
    | ScopeLocalBasis(scopeState: ScopeLocalHybridState)
  {
    /** The objects behind the adapter. */
    ghost function Footprint(): set<object>
      reads if ScopeLocalBasis? then {scopeState} else {}
    {
      match this
      case LotBasis(state) => {state}
      case AverageCostBasis(state) => {state}
      case ScopeLocalBasis(state) => state.Repr
    }

    /** The objects can be read; a refused disposal leaves them so. */
    ghost predicate Readable()
      reads Footprint(), if ScopeLocalBasis? then {scopeState} else {}
    {
      match this
      case LotBasis(state) => state.Valid()
      case AverageCostBasis(state) => true
      case ScopeLocalBasis(state) => state.Valid()
    }

    /** What the objects record. */
    ghost function Recorded(): Position
      requires Readable()
      reads Footprint(), if ScopeLocalBasis? then {scopeState} else {}
    {
      match this
      case LotBasis(state) => LotPosition(state.lotMethod, state.lots)
      case AverageCostBasis(state) => PoolPosition(state.Contents())
      case ScopeLocalBasis(state) => ScopedPosition(state.Contents())
    }

    ghost predicate Valid()
      reads Footprint(), if ScopeLocalBasis? then {scopeState} else {}
      ensures Valid() ==> Readable() && ValidPosition(Recorded())
    {
      Readable() && ValidPosition(Recorded())
    }

    method AddAcquisition(scopeKey: string, lot: Lot) returns (error: Option<Error>)
      requires Valid()
      modifies Footprint()
      ensures Valid() && fresh(Footprint() - old(Footprint()))
      ensures match Acquired(old(Recorded()), scopeKey, lot)
              case Failure(e) => error == Some(e) && Recorded() == old(Recorded())
              case Success(after) => error.None? && Recorded() == after
    {
      ghost var before := Recorded();
      match this
      case LotBasis(state) =>
        error := state.AddAcquisition(lot);
      case AverageCostBasis(state) =>
        error := state.AddAcquisition(lot.quantity, lot.basis);
      case ScopeLocalBasis(state) =>
        error := state.AddAcquisition(scopeKey, lot);
      if error.None? {
        AcquisitionConserves(before, scopeKey, lot);
      }
    }

    method Dispose(scopeKey: string, quantity: real) returns (r: Result<BasisDisposal>)
      requires Valid()
      modifies Footprint()
      ensures Readable() && fresh(Footprint() - old(Footprint()))
      ensures r.Success? ==> Valid()
      ensures match Disposed(old(Recorded()), scopeKey, quantity)
              case Failure(e) => r == Failure(e) && Recorded() == Refused(old(Recorded()), scopeKey, quantity)
              case Success((after, disposal)) => r == Success(disposal) && Recorded() == after
    {
      hide DisposalResult, LotsAfter, PoolDisposalResult, HybridDisposalResult, Disposed, OpenScope;
      match this
      case LotBasis(state) => r := DisposeLots(state, scopeKey, quantity);
      case AverageCostBasis(state) => r := DisposePool(state, scopeKey, quantity);
      case ScopeLocalBasis(state) => r := DisposeScope(state, scopeKey, quantity);
    }

    method OpenQuantity() returns (quantity: real)
      requires Valid()
      ensures quantity == PositionQuantity(Recorded())
    {
      match this
      case LotBasis(state) => quantity := state.GetTotalOpenQuantity();
      case AverageCostBasis(state) => quantity := state.quantity;
      case ScopeLocalBasis(state) => quantity := state.GetTotalOpenQuantity();
    }

    method OpenBasis() returns (basis: real)
      requires Valid()
      ensures basis == PositionBasis(Recorded())
    {
      match this
      case LotBasis(state) => basis := state.GetTotalOpenBasis();
      case AverageCostBasis(state) => basis := state.basis;
      case ScopeLocalBasis(state) => basis := state.GetTotalOpenBasis();
    }
  }

  method NewAssetBasisState(costBasisMethod: CostBasisMethod) returns (state: AssetBasisState)
    ensures state.Valid() && fresh(state.Footprint()) && state.Recorded() == Initial(costBasisMethod)
  {
    match costBasisMethod
    case Fifo =>
      var lots := new LotMethodState(FIFO);
      state := LotBasis(lots);
    case Lifo =>
      var lots := new LotMethodState(LIFO);
      state := LotBasis(lots);
    case Hifo =>
      var lots := new LotMethodState(HIFO);
      state := LotBasis(lots);
    case AverageCost =>
      var pool := new AverageCostState();
      state := AverageCostBasis(pool);
    case ScopeLocalHybrid =>
      var scopes := new ScopeLocalHybridState();
      state := ScopeLocalBasis(scopes);
  }
}
