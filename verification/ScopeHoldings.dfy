/** When a hybrid report can be refused for the quantity of a SELL: only when some scope of some asset is oversold. */
module ScopeHoldings {
  import opened Outcomes
  import opened Calendar
  import opened Activities
  import opened HistoryValidation
  import opened LotOrder
  import opened Lots
  import opened Pools
  import opened HybridScopes
  import opened HybridTheorems
  import opened HybridMachine
  import opened BasisModel
  import opened Fragments
  import opened AssetReplay
  import opened Scoping
  import opened Grouping
  import opened YearReport
  import opened Rates
  import opened CurrencyBoundary
  import opened RateTheorems
  import opened ReportCalculation
  import opened OrderedReports
  import opened KeyHoldings
  import opened QuantityRefusals
  import Text

  /** What the first i activities of an asset bought minus what they sold within one scope. */
  ghost function ScopeNet(assetKey: string, inputs: seq<CalculationInput>, i: nat, key: string): real
    requires i <= |inputs|
  {
    if i == 0 then 0.0
    else
      ScopeNet(assetKey, inputs, i - 1, key)
      + if Partition(ScopeLocalHybrid, assetKey, inputs, i - 1) == key then InputMovement(inputs[i - 1]) else 0.0
  }

  /** At no point has more been sold within a scope than bought there. */
  ghost predicate ScopesCovered(group: AssetGroup) {
    forall i: nat, key :: i <= |group.inputs| ==> ScopeNet(group.assetKey, group.inputs, i, key) >= 0.0
  }

  // -------- one activity --------

  /** What a scope holds; one that is not recorded holds nothing. */
  ghost function HeldIn(position: Position, key: string): real {
    if position.ScopedPosition? && key in position.scopes then ScopeQuantity(position.scopes[key]) else 0.0
  }

  lemma ScopeRefusesOnlyExcess(scope: ScopeState, quantity: real)
    requires OpenScope(scope)
    ensures scope.Exact? ==> NonNegativeQuantities(scope.lots)
    ensures ScopeDisposal(scope, quantity) == Failure(ExceedsOpenQuantity) ==> quantity > ScopeQuantity(scope)
  {
    OpenScopeHasNonNegativeQuantities(scope);
    hide DisposalResult, LotsAfter, OpenLots, Activated, TotalOpenQuantity, TotalOpenBasis, OpenBasesNonNegative, ConsumeProvenance;
    if ScopeDisposal(scope, quantity) == Failure(ExceedsOpenQuantity) {
      match scope
      case Fallback(pool, provenance) => PoolDisposalConserves(pool, quantity);
      case Exact(lots) =>
        if |OpenLots(lots)| == 1 {
          LotsRefuseOnlyExcess(FIFO, lots, quantity);
        } else {
          ActivationKeepsTotals(lots);
          PoolDisposalConserves(Activated(lots).value.pool, quantity);
        }
    }
  }

  lemma HybridRefusesOnlyExcess(scopes: Scopes, scopeKey: string, quantity: real)
    requires OpenScopes(scopes) && HybridDisposalResult(scopes, scopeKey, quantity) == Failure(ExceedsOpenQuantity)
    ensures quantity > HeldIn(ScopedPosition(scopes), Text.TrimSpace(scopeKey))
  {
    hide ScopeDisposal, OpenScope, ScopeQuantity;
    var key := Text.TrimSpace(scopeKey);
    if key in scopes {
      ScopeRefusesOnlyExcess(scopes[key], quantity);
    }
  }

  lemma ScopedStepRefusesOnlyExcess(position: Position, input: ReplayInput, order: nat, selectedYear: int)
    requires ValidPosition(position) && position.ScopedPosition?
    requires Step(position, input, order, selectedYear) == Failure(ExceedsOpenQuantity)
    ensures input.activityType == Sell && input.quantity > HeldIn(position, Text.TrimSpace(input.scopeKey))
  {
    hide HybridDisposalResult, PositionQuantity, PositionBasis, HeldIn, OpenScope, ValidRow, ValidLiquidation, LiquidationOf, Text.TrimSpace;
    if HybridDisposalResult(position.scopes, input.scopeKey, input.quantity) == Failure(ExceedsOpenQuantity) {
      HybridRefusesOnlyExcess(position.scopes, input.scopeKey, input.quantity);
    }
  }

  lemma AcquiredInScope(scopes: Scopes, scopeKey: string, lot: Lot, key: string)
    requires OpenScopes(scopes) && HybridAcquisition(scopes, scopeKey, lot).Success?
    ensures HeldIn(ScopedPosition(HybridAcquisition(scopes, scopeKey, lot).value), key)
            == HeldIn(ScopedPosition(scopes), key) + if Text.TrimSpace(scopeKey) == key then lot.quantity else 0.0
  {
    hide ScopeAcquisition, OpenScope, ScopeQuantity, Text.TrimSpace;
    AcquisitionKeepsScope(ScopeOf(scopes, Text.TrimSpace(scopeKey)), lot);
  }

  lemma DisposedInScope(scopes: Scopes, scopeKey: string, quantity: real, key: string)
    requires OpenScopes(scopes) && HybridDisposalResult(scopes, scopeKey, quantity).Success?
    ensures HeldIn(ScopedPosition(HybridDisposalResult(scopes, scopeKey, quantity).value.0), key)
            == HeldIn(ScopedPosition(scopes), key) - if Text.TrimSpace(scopeKey) == key then quantity else 0.0
  {
    hide ScopeDisposal, OpenScope, ScopeQuantity, Text.TrimSpace;
    DisposalKeepsScope(scopes[Text.TrimSpace(scopeKey)], quantity);
  }

  lemma ScopedStepMoves(position: Position, input: ReplayInput, order: nat, selectedYear: int, key: string)
    requires ValidPosition(position) && position.ScopedPosition? && Step(position, input, order, selectedYear).Success?
    ensures var after, own := Step(position, input, order, selectedYear).value.0, Text.TrimSpace(input.scopeKey) == key;
            && after.ScopedPosition? && input.activityType != Unsupported
            && (input.activityType == Buy ==> HeldIn(after, key) == HeldIn(position, key) + if own then input.quantity else 0.0)
            && (input.activityType == Sell ==> HeldIn(after, key) == HeldIn(position, key) - if own then input.quantity else 0.0)
  {
    hide HybridDisposalResult, HybridAcquisition, PositionQuantity, PositionBasis, HeldIn, OpenScope, Contributed, Text.TrimSpace, LiquidationMatches;
    if input.activityType == Buy {
      AcquiredInScope(position.scopes, input.scopeKey, AcquisitionOf(input, order), key);
    } else if input.activityType == Sell {
      DisposedInScope(position.scopes, input.scopeKey, input.quantity, key);
    }
  }

  // -------- the scopes of a replayed group --------

  /** After i activities each scope holds what was bought in it minus what was sold from it. */
  lemma {:induction false} ScopeIsNet(group: AssetGroup, i: nat, selectedYear: int, key: string)
    requires i <= |group.inputs| && GroupReplay(ScopeLocalHybrid, group, i, selectedYear).Success?
    ensures var position := GroupReplay(ScopeLocalHybrid, group, i, selectedYear).value.0;
            position.ScopedPosition? && HeldIn(position, key) == ScopeNet(group.assetKey, group.inputs, i, key)
  {
    hide GroupReplay, Step, HeldIn, ValidPosition, ScopeFor, Text.TrimSpace;
    if i == 0 {
      NothingReplayed(ScopeLocalHybrid, group, selectedYear);
      NothingHeld(key);
    } else {
      GroupReplayStep(ScopeLocalHybrid, group, i, selectedYear);
      ScopeIsNet(group, i - 1, selectedYear, key);
      ScopedStepMoves(GroupReplay(ScopeLocalHybrid, group, i - 1, selectedYear).value.0, History(ScopeLocalHybrid, group)[i - 1], i, selectedYear, key);
    }
  }

  lemma NothingHeld(key: string)
    ensures HeldIn(Initial(ScopeLocalHybrid), key) == 0.0
  {
  }

  lemma {:induction false} CoveredScopesAreNotRefused(group: AssetGroup, i: nat, selectedYear: int)
    requires ScopesCovered(group) && i <= |group.inputs|
    ensures GroupReplay(ScopeLocalHybrid, group, i, selectedYear) != Failure(ExceedsOpenQuantity)
  {
    hide GroupReplay, Step, HeldIn, ValidPosition, ScopeFor, Text.TrimSpace;
    if i == 0 {
      NothingReplayed(ScopeLocalHybrid, group, selectedYear);
    } else {
      CoveredScopesAreNotRefused(group, i - 1, selectedYear);
      GroupReplayStep(ScopeLocalHybrid, group, i, selectedYear);
      if GroupReplay(ScopeLocalHybrid, group, i, selectedYear) == Failure(ExceedsOpenQuantity) {
        var key := Partition(ScopeLocalHybrid, group.assetKey, group.inputs, i - 1);
        ScopeIsNet(group, i - 1, selectedYear, key);
        assert ScopeNet(group.assetKey, group.inputs, i, key) >= 0.0;
        ScopedStepRefusesOnlyExcess(GroupReplay(ScopeLocalHybrid, group, i - 1, selectedYear).value.0, History(ScopeLocalHybrid, group)[i - 1], i, selectedYear);
      }
    }
  }

  lemma CoveredScopedGroupIsNotRefused(group: AssetGroup, selectedYear: int)
    requires ScopesCovered(group)
    ensures NotRefusedForQuantity(ScopeLocalHybrid, selectedYear, group)
  {
    hide ReplayedTo, ScopesCovered, ValidPosition, ValidPositions, MixedCurrencies, CommonCurrency;
    CoveredScopesAreNotRefused(group, |group.inputs|, selectedYear);
  }

  lemma HeldIsNotNegative(position: Position, key: string)
    requires ValidPosition(position)
    ensures HeldIn(position, key) >= 0.0
  {
    hide TotalOpenQuantity;
  }

  lemma ReplayedScopesAreCovered(group: AssetGroup, selectedYear: int)
    requires GroupResult(ScopeLocalHybrid, selectedYear, group).Success?
    ensures ScopesCovered(group)
  {
    hide GroupReplay, GroupResult, HeldIn, ValidPosition, ScopeNet;
    forall i: nat, key | i <= |group.inputs|
      ensures ScopeNet(group.assetKey, group.inputs, i, key) >= 0.0
    {
      EarlierReplaySucceeds(ScopeLocalHybrid, group, i, selectedYear);
      ScopeIsNet(group, i, selectedYear, key);
      HeldIsNotNegative(GroupReplay(ScopeLocalHybrid, group, i, selectedYear).value.0, key);
    }
  }

  // -------- through conversion --------

  lemma SamePartition(a: AssetGroup, b: AssetGroup, i: nat)
    requires SameGroup(a, b) && i < |a.inputs|
    ensures Partition(ScopeLocalHybrid, a.assetKey, a.inputs, i) == Partition(ScopeLocalHybrid, b.assetKey, b.inputs, i)
    ensures InputMovement(a.inputs[i]) == InputMovement(b.inputs[i])
  {
    hide Text.TrimSpace, SupportedKind;
    forall j | 0 <= j < |a.inputs|
      ensures a.inputs[j].sourceScope == b.inputs[j].sourceScope
    {
      assert SameActivity(a.inputs[j], b.inputs[j]);
    }
    assert SameActivity(a.inputs[i], b.inputs[i]);
    assert Narrowable(a.inputs) <==> Narrowable(b.inputs);
  }

  lemma {:induction false} SameScopeNet(a: AssetGroup, b: AssetGroup, i: nat, key: string)
    requires SameGroup(a, b) && i <= |a.inputs|
    ensures ScopeNet(a.assetKey, a.inputs, i, key) == ScopeNet(b.assetKey, b.inputs, i, key)
  {
    hide Partition, InputMovement, SameActivity;
    if i == 0 {
    } else {
      SameScopeNet(a, b, i - 1, key);
      SamePartition(a, b, i - 1);
    }
  }

  lemma SameScopesCovered(a: AssetGroup, b: AssetGroup)
    requires SameGroup(a, b)
    ensures ScopesCovered(a) <==> ScopesCovered(b)
  {
    hide ScopeNet, SameActivity;
    forall i: nat, key | i <= |a.inputs|
      ensures ScopeNet(a.assetKey, a.inputs, i, key) == ScopeNet(b.assetKey, b.inputs, i, key)
    {
      SameScopeNet(a, b, i, key);
    }
  }

  // -------- whole reports --------

  ghost predicate NoScopeOversells(records: seq<ActivityRecord>, selectedYear: int) {
    var groups := GroupsOf(Kept(records, |records|, selectedYear));
    forall g :: 0 <= g < |groups| ==> ScopesCovered(groups[g])
  }

  /** When no scope of any asset is oversold through the year, no hybrid report is refused for the quantity of a SELL. */
  lemma CoveredScopedReportsAreNotRefused(providers: map<string, Provider>, configured: bool, base: string,
                                          selectedYear: int, records: seq<ActivityRecord>)
    requires NoScopeOversells(records, selectedYear) && ConvertedGroups(providers, configured, base, selectedYear, records).Success?
    ensures var groups := ConvertedGroups(providers, configured, base, selectedYear, records).value.groups;
            ReportTo(ScopeLocalHybrid, selectedYear, groups, |groups|) != Failure(ExceedsOpenQuantity)
  {
    hide ScopesCovered, Kept, GroupOf, DirectGroups, ReportTo, SameGroup, NotRefusedForQuantity;
    var groups := GroupsOf(Kept(records, |records|, selectedYear));
    var converted := ConvertedGroups(providers, configured, base, selectedYear, records).value.groups;
    ConversionKeepsTheGroups(providers, configured, base, groups, |groups|);
    forall g | 0 <= g < |converted|
      ensures NotRefusedForQuantity(ScopeLocalHybrid, selectedYear, converted[g])
    {
      SameScopesCovered(groups[g], converted[g]);
      CoveredScopedGroupIsNotRefused(converted[g], selectedYear);
    }
    GroupsAreNotRefused(ScopeLocalHybrid, converted, |converted|, selectedYear);
  }

  /** And the other way round: whenever a hybrid report is calculated, no scope is oversold. */
  lemma CalculatedScopedReportsOversellNoScope(providers: map<string, Provider>, configured: bool, base: string,
                                               selectedYear: int, records: seq<ActivityRecord>)
    requires Calculable(providers, configured, base, ScopeLocalHybrid, selectedYear, records)
    ensures NoScopeOversells(records, selectedYear)
  {
    hide ScopesCovered, Kept, GroupOf, DirectGroups, ReportTo, SameGroup, GroupResult;
    var groups := GroupsOf(Kept(records, |records|, selectedYear));
    var converted := ConvertedGroups(providers, configured, base, selectedYear, records).value.groups;
    ConversionKeepsTheGroups(providers, configured, base, groups, |groups|);
    forall g | 0 <= g < |groups|
      ensures ScopesCovered(groups[g])
    {
      GroupsSucceed(ScopeLocalHybrid, selectedYear, converted, |converted|, g);
      ReplayedScopesAreCovered(converted[g], selectedYear);
      SameScopesCovered(groups[g], converted[g]);
    }
  }

  // -------- assets with a single scope --------

  lemma {:induction false} BroadenedNet(group: AssetGroup, i: nat, key: string)
    requires !Narrowable(group.inputs) && i <= |group.inputs|
    ensures ScopeNet(group.assetKey, group.inputs, i, key) == if key == Text.TrimSpace(group.assetKey) then NetBought(group.inputs[..i]) else 0.0
  {
    hide Text.TrimSpace, Narrowable, InputMovement, NetBought, Partition;
    if i == 0 {
      NothingIsCovered();
      assert group.inputs[..0] == [];
    } else {
      BroadenedNet(group, i - 1, key);
      PartitionsAreScopeIds(group.assetKey, group.inputs, i - 1, i - 1);
      assert group.inputs[..i] == group.inputs[..i - 1] + [group.inputs[i - 1]];
      NetBoughtStep(group.inputs[..i - 1], group.inputs[i - 1]);
    }
  }

  lemma BroadenedScopesAreCovered(group: AssetGroup)
    requires !Narrowable(group.inputs) && Covered(group.inputs)
    ensures ScopesCovered(group)
  {
    hide ScopeNet, NetBought, Narrowable, Text.TrimSpace;
    forall i: nat, key | i <= |group.inputs|
      ensures ScopeNet(group.assetKey, group.inputs, i, key) >= 0.0
    {
      BroadenedNet(group, i, key);
    }
  }

  /** No asset can be narrowed to accounts or wallets. */
  ghost predicate AllBroadened(records: seq<ActivityRecord>, selectedYear: int) {
    var groups := GroupsOf(Kept(records, |records|, selectedYear));
    forall g :: 0 <= g < |groups| ==> !Narrowable(groups[g].inputs)
  }

  /** Where no asset is narrowed, an accepted history in which records of one symbol have one key oversells no scope. */
  lemma AcceptedScopesAreCovered(records: seq<ActivityRecord>, selectedYear: int)
    requires Accepted(records) && SymbolsDecideKeys(records) && NoRefusal(records, |records|, selectedYear)
    requires AllBroadened(records, selectedYear)
    ensures NoScopeOversells(records, selectedYear)
  {
    hide Accepted, SymbolsDecideKeys, NoRefusal, NoKeyOversells, Covered, ScopesCovered, Kept, OfAsset, FirstSeen, LabelOf, Narrowable;
    AcceptedKeysAreCovered(records, selectedYear);
    var groups := GroupsOf(Kept(records, |records|, selectedYear));
    forall g | 0 <= g < |groups|
      ensures ScopesCovered(groups[g])
    {
      GroupIsCovered(records, groups[g].assetKey, selectedYear);
      BroadenedScopesAreCovered(groups[g]);
    }
  }

  // -------- one key in two accounts --------

  ghost function AccountInput(id: string): CalculationInput {
    SplitInput().(sourceScope := Some(SourceScope(id, Account, true)))
  }

  /** A unit bought one day in account X and sold the next in account Y, both as S and under key A. */
  ghost function MovedAsset(): (records: seq<ActivityRecord>)
    ensures |records| == 2
  {
    var amounts := Success(ResolvedAmounts(Some(1.0), Some(1.0), Some(0.0)));
    [ActivityRecord("b", "t", Some(1), BUY, "A", "S", "", 1.0, "", "", amounts, Success(AccountInput("X"))),
     ActivityRecord("s", "t", Some(2), SELL, "A", "S", "", 1.0, "", "", amounts, Success(AccountInput("Y")))]
  }

  ghost function MovedInputs(): (inputs: seq<CalculationInput>)
    ensures |inputs| == 2
  {
    [AccountInput("X").(sourceId := "b", date := 1, year := YearOf(1), activityType := Buy, assetKey := "A", displayLabel := "S", quantity := 1.0),
     AccountInput("Y").(sourceId := "s", date := 2, year := YearOf(2), activityType := Sell, assetKey := "A", displayLabel := "S", quantity := 1.0)]
  }

  lemma Accounts()
    ensures Text.TrimSpace("X") == "X" && Text.TrimSpace("Y") == "Y"
  {
  }

  lemma MovedAssetIsAccepted()
    ensures Accepted(MovedAsset()) && SymbolsDecideKeys(MovedAsset())
  {
    hide Text.TrimSpace;
    SplitLetters();
    assert Holdings(MovedAsset(), 1, "S") == 1.0;
    assert Holdings(MovedAsset(), 2, "S") == 0.0;
  }

  lemma MovedAssetIsKept()
    ensures OfAsset(Kept(MovedAsset(), 2, YearOf(2)), "A") == MovedInputs()
  {
    hide Text.TrimSpace, YearOf, Kept, OfAsset;
    SplitLetters();
    YearIsMonotone(1, 2);
    NothingKept(MovedAsset(), "A", YearOf(2));
    KeptOfAssetStep(MovedAsset(), 1, "A", YearOf(2));
    KeptOfAssetStep(MovedAsset(), 2, "A", YearOf(2));
    assert Select(MovedAsset()[0], YearOf(2)) == Take(MovedInputs()[0]);
    assert Select(MovedAsset()[1], YearOf(2)) == Take(MovedInputs()[1]);
  }

  lemma SellingAccountNets()
    ensures ScopeNet("A", MovedInputs(), 2, "Y") == -1.0
  {
    hide Text.TrimSpace, YearOf;
    Accounts();
    assert Narrowable(MovedInputs());
    assert ScopeNet("A", MovedInputs(), 1, "Y") == 0.0;
  }

  lemma SellingAccountIsOversold()
    ensures !NoScopeOversells(MovedAsset(), YearOf(2))
  {
    hide YearOf, MovedInputs, MovedAsset, Kept, OfAsset, FirstSeen, LabelOf, ScopeNet;
    var kept := Kept(MovedAsset(), |MovedAsset()|, YearOf(2));
    MovedAssetIsKept();
    SellingAccountNets();
    FirstSeenKeys(kept, "A");
    var g :| 0 <= g < |FirstSeen(kept)| && FirstSeen(kept)[g] == "A";
    var group := GroupsOf(kept)[g];
    assert ScopeNet(group.assetKey, group.inputs, 2, "Y") < 0.0;
  }

  /** The condition on scopes is needed: a history accepted, one key to one symbol, from which no hybrid report of the
      sale's year is ever calculated, for the selling account never bought anything. */
  lemma MovedAssetsAreRefused(providers: map<string, Provider>, configured: bool, base: string)
    ensures Accepted(MovedAsset()) && SymbolsDecideKeys(MovedAsset())
    ensures !Calculable(providers, configured, base, ScopeLocalHybrid, YearOf(2), MovedAsset())
  {
    hide Accepted, SymbolsDecideKeys, Calculable, YearOf, NoScopeOversells;
    MovedAssetIsAccepted();
    SellingAccountIsOversold();
    if Calculable(providers, configured, base, ScopeLocalHybrid, YearOf(2), MovedAsset()) {
      CalculatedScopedReportsOversellNoScope(providers, configured, base, YearOf(2), MovedAsset());
    }
  }
}
