/** Resolves the scope partition of every activity of an asset. */
module Scoping {
  import opened Outcomes
  import opened Activities
  import opened BasisModel
  import Text

  datatype ApplicableKind = AccountScope | WalletScope | AssetScope | NoScope

  datatype ApplicableScope = ApplicableScope(assetKey: string, scopeKey: string, kind: ApplicableKind, broadened: bool)

  datatype ScopedInput = ScopedInput(input: CalculationInput, scope: ApplicableScope)

  const UNSCOPED := ApplicableScope("", "", NoScope, false)

  function SupportedKind(kind: ScopeKind): Option<ApplicableKind> {
    match kind
    case Account => Some(AccountScope)
    case Wallet => Some(WalletScope)
    case OtherKind => None
  }

  /** The activity carries a reliable account or wallet with an identifier. */
  predicate Reliable(input: CalculationInput) {
    && input.sourceScope.Some?
    && input.sourceScope.value.reliable
    && Text.TrimSpace(input.sourceScope.value.id) != ""
    && SupportedKind(input.sourceScope.value.kind).Some?
  }

  function ScopeId(input: CalculationInput): string
    requires input.sourceScope.Some?
  {
    Text.TrimSpace(input.sourceScope.value.id)
  }

  /** An asset can be narrowed when all its activities are reliable and no identifier names both an account and a
      wallet. */
  ghost predicate Narrowable(inputs: seq<CalculationInput>) {
    && (forall i :: 0 <= i < |inputs| ==> Reliable(inputs[i]))
    && forall i, j :: 0 <= i < |inputs| && 0 <= j < |inputs| && ScopeId(inputs[i]) == ScopeId(inputs[j]) ==>
         inputs[i].sourceScope.value.kind == inputs[j].sourceScope.value.kind
  }

  /** The kinds recorded are those of the identifiers seen. */
  ghost predicate RecordsKinds(kinds: map<string, ApplicableKind>, inputs: seq<CalculationInput>, n: nat)
    requires n <= |inputs|
  {
    && (forall i :: 0 <= i < n ==> Reliable(inputs[i]))
    && (forall i :: 0 <= i < n ==> ScopeId(inputs[i]) in kinds && SupportedKind(inputs[i].sourceScope.value.kind) == Some(kinds[ScopeId(inputs[i])]))
    && (forall id :: id in kinds ==> exists i :: 0 <= i < n && ScopeId(inputs[i]) == id)
  }

  lemma RecordOne(kinds: map<string, ApplicableKind>, inputs: seq<CalculationInput>, n: nat, kind: ApplicableKind)
    requires n < |inputs| && RecordsKinds(kinds, inputs, n) && Reliable(inputs[n])
    requires SupportedKind(inputs[n].sourceScope.value.kind) == Some(kind)
    requires ScopeId(inputs[n]) in kinds ==> kinds[ScopeId(inputs[n])] == kind
    ensures RecordsKinds(kinds[ScopeId(inputs[n]) := kind], inputs, n + 1)
  {
    hide Text.TrimSpace, ScopeId, SupportedKind;
    var next := kinds[ScopeId(inputs[n]) := kind];
    forall id | id in next
      ensures exists i :: 0 <= i < n + 1 && ScopeId(inputs[i]) == id
    {
      if id != ScopeId(inputs[n]) {
        var i :| 0 <= i < n && ScopeId(inputs[i]) == id;
        assert i < n + 1;
      }
    }
  }

  lemma RecordedKindsAgree(kinds: map<string, ApplicableKind>, inputs: seq<CalculationInput>)
    requires RecordsKinds(kinds, inputs, |inputs|)
    ensures Narrowable(inputs)
  {
    hide Text.TrimSpace;
  }

  method ShouldBroadenAssetScope(inputs: seq<CalculationInput>) returns (broaden: bool)
    ensures broaden <==> !Narrowable(inputs)
  {
    hide Text.TrimSpace;
    var kinds: map<string, ApplicableKind> := map[];
    var i := 0;
    while i < |inputs|
      invariant i <= |inputs| && RecordsKinds(kinds, inputs, i)
    {
      var input := inputs[i];
      if input.sourceScope.None? || !input.sourceScope.value.reliable {
        assert !Reliable(inputs[i]);
        return true;
      }
      var id := Text.TrimSpace(input.sourceScope.value.id);
      if id == "" {
        assert !Reliable(inputs[i]);
        return true;
      }
      var kind := SupportedKind(input.sourceScope.value.kind);
      if kind.None? {
        assert !Reliable(inputs[i]);
        return true;
      }
      if id in kinds && kinds[id] != kind.value {
        ghost var other :| 0 <= other < i && ScopeId(inputs[other]) == id;
        assert ScopeId(inputs[i]) == ScopeId(inputs[other]);
        return true;
      }
      RecordOne(kinds, inputs, i, kind.value);
      kinds := kinds[id := kind.value];
      i := i + 1;
    }
    RecordedKindsAgree(kinds, inputs);
    return false;
  }

  function BroadenedScope(assetKey: string): ApplicableScope {
    ApplicableScope(Text.TrimSpace(assetKey), Text.TrimSpace(assetKey), AssetScope, true)
  }

  function ReliableScope(assetKey: string, input: CalculationInput): Result<ApplicableScope> {
    if input.sourceScope.None? || !input.sourceScope.value.reliable then Failure(UnresolvedScope)
    else
      var kind := SupportedKind(input.sourceScope.value.kind);
      var id := Text.TrimSpace(input.sourceScope.value.id);
      if kind.None? || id == "" then Failure(UnresolvedScope)
      else Success(ApplicableScope(Text.TrimSpace(assetKey), id, kind.value, false))
  }

  /** The scope an activity gets, given whether its asset is broadened. */
  ghost function ScopeFor(costBasisMethod: CostBasisMethod, assetKey: string, inputs: seq<CalculationInput>, i: nat): ApplicableScope
    requires i < |inputs|
  {
    if costBasisMethod != ScopeLocalHybrid then UNSCOPED
    else if !Narrowable(inputs) then BroadenedScope(assetKey)
    else ReliableScope(assetKey, inputs[i]).value
  }

  ghost predicate ScopedUpTo(costBasisMethod: CostBasisMethod, assetKey: string, inputs: seq<CalculationInput>, scoped: seq<ScopedInput>, n: nat) {
    && |scoped| == n <= |inputs|
    && forall i :: 0 <= i < n ==> scoped[i] == ScopedInput(inputs[i], ScopeFor(costBasisMethod, assetKey, inputs, i))
  }

  /** Resolves the activities of a narrowed asset one by one; the first that cannot be resolved ends it. */
  method ResolveEach(assetKey: string, inputs: seq<CalculationInput>) returns (r: Result<seq<ScopedInput>>)
    ensures r.Success? <==> forall i :: 0 <= i < |inputs| ==> ReliableScope(assetKey, inputs[i]).Success?
    ensures r.Success? ==>
              && |r.value| == |inputs|
              && forall i :: 0 <= i < |inputs| ==> r.value[i] == ScopedInput(inputs[i], ReliableScope(assetKey, inputs[i]).value)
  {
    var scoped: seq<ScopedInput> := [];
    for i := 0 to |inputs|
      invariant |scoped| == i
      invariant forall j :: 0 <= j < i ==> ReliableScope(assetKey, inputs[j]).Success?
                                           && scoped[j] == ScopedInput(inputs[j], ReliableScope(assetKey, inputs[j]).value)
    {
      var scope := ReliableScope(assetKey, inputs[i]);
      if scope.Failure? {
        return Failure(scope.error);
      }
      scoped := scoped + [ScopedInput(inputs[i], scope.value)];
    }
    return Success(scoped);
  }

  /** Every activity gets a scope: resolution never fails once the decision to narrow has been taken. */
  method ResolveScopedAssetInputs(costBasisMethod: CostBasisMethod, assetKey: string, inputs: seq<CalculationInput>)
    returns (r: Result<seq<ScopedInput>>)
    ensures r.Success? && ScopedUpTo(costBasisMethod, assetKey, inputs, r.value, |inputs|)
  {
    var scoped: seq<ScopedInput> := [];
    if costBasisMethod != ScopeLocalHybrid {
      for i := 0 to |inputs|
        invariant ScopedUpTo(costBasisMethod, assetKey, inputs, scoped, i)
      {
        scoped := scoped + [ScopedInput(inputs[i], UNSCOPED)];
      }
      return Success(scoped);
    }
    var broaden := ShouldBroadenAssetScope(inputs);
    if broaden {
      var scope := BroadenedScope(assetKey);
      for i := 0 to |inputs|
        invariant ScopedUpTo(costBasisMethod, assetKey, inputs, scoped, i)
      {
        scoped := scoped + [ScopedInput(inputs[i], scope)];
      }
      return Success(scoped);
    }
    r := ResolveEach(assetKey, inputs);
  }

  /** The partition of the hybrid method that an activity falls into. */
  ghost function Partition(costBasisMethod: CostBasisMethod, assetKey: string, inputs: seq<CalculationInput>, i: nat): string
    requires i < |inputs|
  {
    Text.TrimSpace(ScopeFor(costBasisMethod, assetKey, inputs, i).scopeKey)
  }

  /** Under the hybrid method a narrowable asset has one partition for each trimmed scope identifier, all of one kind,
      and any other asset has a single partition. */
  lemma PartitionsAreScopeIds(assetKey: string, inputs: seq<CalculationInput>, i: nat, j: nat)
    requires i < |inputs| && j < |inputs|
    ensures Narrowable(inputs) ==>
              && (Partition(ScopeLocalHybrid, assetKey, inputs, i) == Partition(ScopeLocalHybrid, assetKey, inputs, j)
                  <==> ScopeId(inputs[i]) == ScopeId(inputs[j]))
              && Partition(ScopeLocalHybrid, assetKey, inputs, i) != ""
              && (ScopeId(inputs[i]) == ScopeId(inputs[j]) ==>
                    ScopeFor(ScopeLocalHybrid, assetKey, inputs, i) == ScopeFor(ScopeLocalHybrid, assetKey, inputs, j))
    ensures !Narrowable(inputs) ==>
              && Partition(ScopeLocalHybrid, assetKey, inputs, i) == Partition(ScopeLocalHybrid, assetKey, inputs, j)
              && Partition(ScopeLocalHybrid, assetKey, inputs, i) == Text.TrimSpace(assetKey)
  {
    Text.TrimSpaceTrims(assetKey);
    if Narrowable(inputs) {
      Text.TrimSpaceTrims(inputs[i].sourceScope.value.id);
      Text.TrimSpaceTrims(inputs[j].sourceScope.value.id);
    }
  }

  /** Every activity names a reliable account or wallet, and no identifier names both. */
  ghost predicate AllLocated(inputs: seq<CalculationInput>) {
    && (forall i :: 0 <= i < |inputs| ==>
          && inputs[i].sourceScope.Some? && inputs[i].sourceScope.value.reliable && Text.TrimSpace(inputs[i].sourceScope.value.id) != ""
          && (inputs[i].sourceScope.value.kind == Account || inputs[i].sourceScope.value.kind == Wallet))
    && forall i, j :: 0 <= i < |inputs| && 0 <= j < |inputs|
                      && Text.TrimSpace(inputs[i].sourceScope.value.id) == Text.TrimSpace(inputs[j].sourceScope.value.id) ==>
         inputs[i].sourceScope.value.kind == inputs[j].sourceScope.value.kind
  }

  /** Under the hybrid method an asset whose activities are all located is split by their trimmed identifiers, any other is
      one partition under its own trimmed key. */
  lemma LocatedAssetsAreSplit(assetKey: string, inputs: seq<CalculationInput>, i: nat)
    requires i < |inputs|
    ensures Partition(ScopeLocalHybrid, assetKey, inputs, i)
            == if AllLocated(inputs) then Text.TrimSpace(inputs[i].sourceScope.value.id) else Text.TrimSpace(assetKey)
  {
    hide Text.TrimSpace;
    LocatedIsNarrowable(inputs);
    Text.TrimSpaceTrims(assetKey);
    if AllLocated(inputs) {
      Text.TrimSpaceTrims(inputs[i].sourceScope.value.id);
    }
  }

  lemma LocatedIsNarrowable(inputs: seq<CalculationInput>)
    ensures AllLocated(inputs) <==> Narrowable(inputs)
  {
    hide Text.TrimSpace;
    if Narrowable(inputs) {
      forall i | 0 <= i < |inputs|
        ensures Reliable(inputs[i])
        ensures inputs[i].sourceScope.value.kind == Account || inputs[i].sourceScope.value.kind == Wallet
      {
      }
      forall i, j | 0 <= i < |inputs| && 0 <= j < |inputs|
        ensures ScopeId(inputs[i]) == ScopeId(inputs[j]) ==> inputs[i].sourceScope.value.kind == inputs[j].sourceScope.value.kind
      {
      }
    }
  }
}
