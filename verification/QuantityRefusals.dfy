/** When a report can be refused for the quantity of a SELL: only when some key is oversold. */
module QuantityRefusals {
  import opened Outcomes
  import opened Calendar
  import opened Activities
  import opened HistoryValidation
  import opened LotOrder
  import opened Lots
  import opened LotProperties
  import opened LotTheorems
  import opened Pools
  import opened BasisModel
  import opened AssetReplay
  import opened Grouping
  import opened Scoping
  import opened YearBridge
  import opened YearReport
  import opened Rates
  import opened CurrencyBoundary
  import opened RateTheorems
  import opened ReportCalculation
  import opened OrderedReports
  import opened KeyHoldings
  import Text

  // -------- the prefixes of a group --------

  /** At no point have the inputs sold more than they bought. */
  ghost predicate Covered(inputs: seq<CalculationInput>) {
    forall i: nat :: i <= |inputs| ==> NetBought(inputs[..i]) >= 0.0
  }

  /** Every prefix of the kept activities of an asset is what some first records kept of it. */
  lemma {:induction false} PrefixIsKept(records: seq<ActivityRecord>, n: nat, key: string, selectedYear: int, i: nat) returns (m: nat)
    requires n <= |records| && i <= |OfAsset(Kept(records, n, selectedYear), key)|
    ensures m <= n && OfAsset(Kept(records, m, selectedYear), key) == OfAsset(Kept(records, n, selectedYear), key)[..i]
  {
    hide Kept, OfAsset, Select;
    var inputs := OfAsset(Kept(records, n, selectedYear), key);
    if i == |inputs| {
      m := n;
    } else {
      if n == 0 { NothingKept(records, key, selectedYear); }
      KeptOfAssetStep(records, n, key, selectedYear);
      m := PrefixIsKept(records, n - 1, key, selectedYear, i);
    }
  }

  lemma NothingKept(records: seq<ActivityRecord>, key: string, selectedYear: int)
    ensures OfAsset(Kept(records, 0, selectedYear), key) == []
  {
  }

  /** The points of a history at which a key can be oversold are the prefixes of its group. */
  lemma GroupIsCovered(records: seq<ActivityRecord>, key: string, selectedYear: int)
    requires NoKeyOversells(records, selectedYear)
    ensures Covered(OfAsset(Kept(records, |records|, selectedYear), key))
  {
    hide Kept, OfAsset, NetBought;
    var inputs := OfAsset(Kept(records, |records|, selectedYear), key);
    forall i: nat | i <= |inputs|
      ensures NetBought(inputs[..i]) >= 0.0
    {
      var m := PrefixIsKept(records, |records|, key, selectedYear, i);
      assert KeyNet(records, m, key, selectedYear) >= 0.0;
    }
  }

  lemma {:induction false} KeptIsAPrefix(records: seq<ActivityRecord>, n: nat, m: nat, key: string, selectedYear: int)
    requires m <= n <= |records|
    ensures OfAsset(Kept(records, m, selectedYear), key) <= OfAsset(Kept(records, n, selectedYear), key)
    decreases n - m
  {
    hide Kept, OfAsset, Select;
    if m == n {
    } else {
      KeptIsAPrefix(records, n - 1, m, key, selectedYear);
      KeptOfAssetStep(records, n, key, selectedYear);
    }
  }

  // -------- the position of a replayed group --------

  lemma {:induction false} SameActivitiesSameNet(a: seq<CalculationInput>, b: seq<CalculationInput>)
    requires SameActivities(a, b)
    ensures NetBought(a) == NetBought(b)
  {
    if a == [] {
    } else {
      assert SameActivity(a[|a| - 1], b[|b| - 1]);
      SameActivitiesSameNet(a[..|a| - 1], b[..|b| - 1]);
    }
  }

  /** What the replay of i activities of a group leads to. */
  ghost function GroupReplay(costBasisMethod: CostBasisMethod, group: AssetGroup, i: nat, selectedYear: int): (r: Result<(Position, ReplayState)>)
    requires i <= |group.inputs|
    ensures r.Success? ==> ValidPosition(r.value.0)
  {
    InitialIsEmpty(costBasisMethod);
    ReplayedTo(Initial(costBasisMethod), History(costBasisMethod, group), i, selectedYear)
  }

  lemma GroupReplayStep(costBasisMethod: CostBasisMethod, group: AssetGroup, i: nat, selectedYear: int)
    requires 0 < i <= |group.inputs|
    ensures var before := GroupReplay(costBasisMethod, group, i - 1, selectedYear);
            var now := GroupReplay(costBasisMethod, group, i, selectedYear);
            && (before.Failure? ==> now == before)
            && (before.Success? ==>
                  var step := Step(before.value.0, History(costBasisMethod, group)[i - 1], i, selectedYear);
                  && (step.Failure? ==> now == Failure(step.error))
                  && (step.Success? ==> now.Success? && now.value.0 == step.value.0))
  {
    hide Step, ValidPosition, History;
  }

  lemma StepMoves(position: Position, input: ReplayInput, order: nat, selectedYear: int)
    requires ValidPosition(position) && Step(position, input, order, selectedYear).Success?
    ensures var after := Step(position, input, order, selectedYear).value.0;
            && ValidPosition(after) && (after.ScopedPosition? <==> position.ScopedPosition?)
            && (input.activityType == Buy ==> PositionQuantity(after) == PositionQuantity(position) + input.quantity)
            && (input.activityType == Sell ==> PositionQuantity(after) == PositionQuantity(position) - input.quantity)
            && input.activityType != Unsupported
  {
    hide ValidPosition, PositionQuantity, PositionBasis, Contributed;
    StepBalances(position, input, order);
  }

  /** After i activities the open quantity is what they bought minus what they sold, under every method. */
  lemma {:induction false} PositionIsNet(costBasisMethod: CostBasisMethod, group: AssetGroup, i: nat, selectedYear: int)
    requires i <= |group.inputs| && GroupReplay(costBasisMethod, group, i, selectedYear).Success?
    ensures PositionQuantity(GroupReplay(costBasisMethod, group, i, selectedYear).value.0) == NetBought(group.inputs[..i])
    ensures GroupReplay(costBasisMethod, group, i, selectedYear).value.0.ScopedPosition? <==> costBasisMethod == ScopeLocalHybrid
  {
    hide GroupReplay, Step, PositionQuantity, ValidPosition, NetBought, ScopeFor;
    if i == 0 {
      NothingReplayed(costBasisMethod, group, selectedYear);
    } else {
      GroupReplayStep(costBasisMethod, group, i, selectedYear);
      PositionIsNet(costBasisMethod, group, i - 1, selectedYear);
      StepMoves(GroupReplay(costBasisMethod, group, i - 1, selectedYear).value.0, History(costBasisMethod, group)[i - 1], i, selectedYear);
      assert group.inputs[..i] == group.inputs[..i - 1] + [group.inputs[i - 1]];
      NetBoughtStep(group.inputs[..i - 1], group.inputs[i - 1]);
    }
  }

  lemma NothingReplayed(costBasisMethod: CostBasisMethod, group: AssetGroup, selectedYear: int)
    ensures GroupReplay(costBasisMethod, group, 0, selectedYear).Success?
    ensures GroupReplay(costBasisMethod, group, 0, selectedYear).value.0 == Initial(costBasisMethod)
    ensures PositionQuantity(Initial(costBasisMethod)) == 0.0 == NetBought(group.inputs[..0])
  {
    InitialIsEmpty(costBasisMethod);
  }

  // -------- what is refused for its quantity --------

  lemma LotsRefuseOnlyExcess(lotMethod: LotMethod, lots: seq<Lot>, quantity: real)
    requires WellFormed(lots) && DisposalResult(lotMethod, lots, quantity) == Failure(ExceedsOpenQuantity)
    ensures quantity > TotalOpenQuantity(lots)
  {
    hide DisposalOrder, Consume, Reached, ConsumedExactly, QuantityBefore;
    OrderIsInRange(lotMethod, lots);
    var order := DisposalOrder(lotMethod, lots);
    DisposalOrderIsOpen(lotMethod, lots);
    if ReachedBasesNonNegative(lots, order, quantity) {
      DisposalSucceedsExactlyWhen(lotMethod, lots, quantity);
    } else {
      var k :| 0 <= k < |order| && Reached(lots, order, quantity, k) && lots[order[k]].basis < 0.0;
      NegativeBasisStops(Begin(lots, quantity), order, k);
    }
  }

  /** Without scopes a disposal is refused for its quantity only when it asks for more than is open. */
  lemma OnlyExcessIsRefused(position: Position, scopeKey: string, quantity: real)
    requires ValidPosition(position) && !position.ScopedPosition?
    requires Disposed(position, scopeKey, quantity) == Failure(ExceedsOpenQuantity)
    ensures quantity > PositionQuantity(position)
  {
    hide DisposalResult, LotsAfter, TotalOpenQuantity;
    match position
    case LotPosition(lotMethod, lots) => LotsRefuseOnlyExcess(lotMethod, lots, quantity);
    case PoolPosition(pool) => PoolDisposalConserves(pool, quantity);
  }

  lemma StepRefusesOnlyExcess(position: Position, input: ReplayInput, order: nat, selectedYear: int)
    requires ValidPosition(position) && !position.ScopedPosition?
    requires Step(position, input, order, selectedYear) == Failure(ExceedsOpenQuantity)
    ensures input.activityType == Sell && input.quantity > PositionQuantity(position)
  {
    hide ValidPosition, PositionQuantity, PositionBasis, Disposed, ValidRow, ValidLiquidation, LiquidationOf;
    if Disposed(position, input.scopeKey, input.quantity) == Failure(ExceedsOpenQuantity) {
      OnlyExcessIsRefused(position, input.scopeKey, input.quantity);
    }
  }

  /** A group that never sells more than it bought is not refused for a quantity. */
  lemma {:induction false} CoveredReplayIsNotRefused(costBasisMethod: CostBasisMethod, group: AssetGroup, i: nat, selectedYear: int)
    requires costBasisMethod != ScopeLocalHybrid && Covered(group.inputs) && i <= |group.inputs|
    ensures GroupReplay(costBasisMethod, group, i, selectedYear) != Failure(ExceedsOpenQuantity)
  {
    hide GroupReplay, Step, PositionQuantity, ValidPosition, NetBought, ScopeFor;
    if i == 0 {
      NothingReplayed(costBasisMethod, group, selectedYear);
    } else {
      CoveredReplayIsNotRefused(costBasisMethod, group, i - 1, selectedYear);
      GroupReplayStep(costBasisMethod, group, i, selectedYear);
      if GroupReplay(costBasisMethod, group, i, selectedYear) == Failure(ExceedsOpenQuantity) {
        PositionIsNet(costBasisMethod, group, i - 1, selectedYear);
        assert group.inputs[..i] == group.inputs[..i - 1] + [group.inputs[i - 1]];
        NetBoughtStep(group.inputs[..i - 1], group.inputs[i - 1]);
        StepRefusesOnlyExcess(GroupReplay(costBasisMethod, group, i - 1, selectedYear).value.0, History(costBasisMethod, group)[i - 1], i, selectedYear);
      }
    }
  }

  lemma CoveredGroupIsNotRefused(costBasisMethod: CostBasisMethod, group: AssetGroup, selectedYear: int)
    requires costBasisMethod != ScopeLocalHybrid && Covered(group.inputs)
    ensures NotRefusedForQuantity(costBasisMethod, selectedYear, group)
  {
    hide ReplayedTo, Covered, ValidPosition, ValidPositions, MixedCurrencies, CommonCurrency;
    CoveredReplayIsNotRefused(costBasisMethod, group, |group.inputs|, selectedYear);
  }

  ghost predicate NotRefusedForQuantity(costBasisMethod: CostBasisMethod, selectedYear: int, group: AssetGroup) {
    GroupResult(costBasisMethod, selectedYear, group) != Failure(ExceedsOpenQuantity)
  }

  lemma {:induction false} GroupsAreNotRefused(costBasisMethod: CostBasisMethod, groups: seq<AssetGroup>, n: nat, selectedYear: int)
    requires n <= |groups| && forall g :: 0 <= g < n ==> NotRefusedForQuantity(costBasisMethod, selectedYear, groups[g])
    ensures ReportTo(costBasisMethod, selectedYear, groups, n) != Failure(ExceedsOpenQuantity)
  {
    hide GroupResult, WithResult;
    if n == 0 {
    } else {
      GroupsAreNotRefused(costBasisMethod, groups, n - 1, selectedYear);
      assert NotRefusedForQuantity(costBasisMethod, selectedYear, groups[n - 1]);
    }
  }

  lemma ConvertedIsCovered(inputs: seq<CalculationInput>, converted: seq<CalculationInput>)
    requires Covered(inputs) && SameActivities(inputs, converted)
    ensures Covered(converted)
  {
    hide NetBought, SameActivity;
    forall i: nat | i <= |converted|
      ensures NetBought(converted[..i]) >= 0.0
    {
      SameActivitiesSameNet(inputs[..i], converted[..i]);
    }
  }

  // -------- whole reports --------

  /** When no key is oversold through the year, no report under first-in-first-out, last-in-first-out, highest cost or
      average cost is refused for the quantity of a SELL. */
  lemma CoveredReportsAreNotRefused(providers: map<string, Provider>, configured: bool, base: string,
                                    costBasisMethod: CostBasisMethod, selectedYear: int, records: seq<ActivityRecord>)
    requires costBasisMethod != ScopeLocalHybrid && NoKeyOversells(records, selectedYear)
    requires ConvertedGroups(providers, configured, base, selectedYear, records).Success?
    ensures var groups := ConvertedGroups(providers, configured, base, selectedYear, records).value.groups;
            ReportTo(costBasisMethod, selectedYear, groups, |groups|) != Failure(ExceedsOpenQuantity)
  {
    hide NoKeyOversells, Covered, Kept, OfAsset, FirstSeen, LabelOf, DirectGroups, ReportTo, SameActivities, NotRefusedForQuantity;
    var kept := Kept(records, |records|, selectedYear);
    var groups, converted := GroupsOf(kept), ConvertedGroups(providers, configured, base, selectedYear, records).value.groups;
    ConversionKeepsTheGroups(providers, configured, base, groups, |groups|);
    forall g | 0 <= g < |converted|
      ensures NotRefusedForQuantity(costBasisMethod, selectedYear, converted[g])
    {
      GroupIsCovered(records, groups[g].assetKey, selectedYear);
      ConvertedIsCovered(groups[g].inputs, converted[g].inputs);
      CoveredGroupIsNotRefused(costBasisMethod, converted[g], selectedYear);
    }
    GroupsAreNotRefused(costBasisMethod, converted, |converted|, selectedYear);
  }

  lemma CalculatedKeyIsCovered(providers: map<string, Provider>, configured: bool, base: string,
                               costBasisMethod: CostBasisMethod, selectedYear: int, records: seq<ActivityRecord>, key: string)
    requires Calculable(providers, configured, base, costBasisMethod, selectedYear, records)
    ensures Covered(OfAsset(Kept(records, |records|, selectedYear), key))
  {
    hide Kept, OfAsset, LabelOf, FirstSeen, DirectGroups, ReportTo, SameActivities, NoRefusal, GroupResult, Covered;
    var kept := Kept(records, |records|, selectedYear);
    var groups, converted := GroupsOf(kept), ConvertedGroups(providers, configured, base, selectedYear, records).value.groups;
    ConversionKeepsTheGroups(providers, configured, base, groups, |groups|);
    FirstSeenKeys(kept, key);
    if key in FirstSeen(kept) {
      var g :| 0 <= g < |groups| && FirstSeen(kept)[g] == key;
      GroupsSucceed(costBasisMethod, selectedYear, converted, |converted|, g);
      ReplayedGroupIsCovered(costBasisMethod, groups[g], converted[g], selectedYear);
    } else {
      NothingIsCovered();
    }
  }

  /** And the other way round: whenever a report is calculated, under any method, no key is oversold. */
  lemma CalculatedReportsOversellNoKey(providers: map<string, Provider>, configured: bool, base: string,
                                       costBasisMethod: CostBasisMethod, selectedYear: int, records: seq<ActivityRecord>)
    requires Calculable(providers, configured, base, costBasisMethod, selectedYear, records)
    ensures NoKeyOversells(records, selectedYear)
  {
    hide Kept, OfAsset, Calculable, NetBought;
    forall key, n: nat | n <= |records|
      ensures KeyNet(records, n, key, selectedYear) >= 0.0
    {
      CalculatedKeyIsCovered(providers, configured, base, costBasisMethod, selectedYear, records, key);
      KeptIsAPrefix(records, |records|, n, key, selectedYear);
      var whole, part := OfAsset(Kept(records, |records|, selectedYear), key), OfAsset(Kept(records, n, selectedYear), key);
      assert whole[..|part|] == part;
    }
  }

  lemma NothingIsCovered()
    ensures NetBought([]) == 0.0 && Covered([])
  {
  }

  lemma ReplayedGroupIsCovered(costBasisMethod: CostBasisMethod, group: AssetGroup, converted: AssetGroup, selectedYear: int)
    requires SameActivities(group.inputs, converted.inputs) && GroupResult(costBasisMethod, selectedYear, converted).Success?
    ensures Covered(group.inputs)
  {
    hide NetBought, GroupReplay, SameActivity, PositionQuantity, ValidPosition;
    forall i: nat | i <= |group.inputs|
      ensures NetBought(group.inputs[..i]) >= 0.0
    {
      SameActivitiesSameNet(group.inputs[..i], converted.inputs[..i]);
      EarlierReplaySucceeds(costBasisMethod, converted, i, selectedYear);
      PositionIsNet(costBasisMethod, converted, i, selectedYear);
      PositionIsNotNegative(GroupReplay(costBasisMethod, converted, i, selectedYear).value.0);
    }
  }

  lemma EarlierReplaySucceeds(costBasisMethod: CostBasisMethod, group: AssetGroup, i: nat, selectedYear: int)
    requires i <= |group.inputs| && GroupResult(costBasisMethod, selectedYear, group).Success?
    ensures GroupReplay(costBasisMethod, group, i, selectedYear).Success?
  {
    hide ReplayedTo, ValidPosition, GroupCurrency, AssetResultOf;
    var history := History(costBasisMethod, group);
    InitialIsEmpty(costBasisMethod);
    if ReplayedTo(Initial(costBasisMethod), history, i, selectedYear).Failure? {
      FailureStays(Initial(costBasisMethod), history, i, |history|, selectedYear);
    }
  }

  /** For accepted histories in which records of one symbol have one key, no SELL is refused for its quantity. */
  lemma AcceptedSellsAreNeverRefusedForQuantity(providers: map<string, Provider>, configured: bool, base: string,
                                                costBasisMethod: CostBasisMethod, selectedYear: int, records: seq<ActivityRecord>)
    requires costBasisMethod != ScopeLocalHybrid && Accepted(records) && SymbolsDecideKeys(records)
    requires ConvertedGroups(providers, configured, base, selectedYear, records).Success?
    ensures var groups := ConvertedGroups(providers, configured, base, selectedYear, records).value.groups;
            ReportTo(costBasisMethod, selectedYear, groups, |groups|) != Failure(ExceedsOpenQuantity)
  {
    hide Accepted, SymbolsDecideKeys, NoKeyOversells, DirectGroups, GroupsOf, ReportTo;
    AcceptedKeysAreCovered(records, selectedYear);
    CoveredReportsAreNotRefused(providers, configured, base, costBasisMethod, selectedYear, records);
  }

  // -------- one symbol with two keys --------

  ghost function SplitInput(): CalculationInput {
    CalculationInput("", 0, 0, Unsupported, "", "", 0.0, Some(1.0), Some(1.0), Some(0.0), false, None, "", "", None)
  }

  /** A unit bought one day under key A, and sold the next under key B, both as S. */
  ghost function SplitAsset(): seq<ActivityRecord> {
    var amounts := Success(ResolvedAmounts(Some(1.0), Some(1.0), Some(0.0)));
    [ActivityRecord("b", "t", Some(1), BUY, "A", "S", "", 1.0, "", "", amounts, Success(SplitInput())),
     ActivityRecord("s", "t", Some(2), SELL, "B", "S", "", 1.0, "", "", amounts, Success(SplitInput()))]
  }

  lemma SplitLetters()
    ensures forall s :: s in {"b", "s", "t", "A", "B", "S"} ==> Text.TrimSpace(s) == s
  {
  }

  lemma SplitAssetIsAccepted()
    ensures Accepted(SplitAsset())
  {
    hide Text.TrimSpace;
    SplitLetters();
    var records := SplitAsset();
    assert Holdings(records, 1, "S") == 1.0;
    assert Holdings(records, 2, "S") == 0.0;
  }

  /** Symbol holdings cover the sale, so the history is accepted; the sold key never bought anything, so no report of the
      sale's year is ever calculated from it. */
  lemma SplitAssetsAreRefused(providers: map<string, Provider>, configured: bool, base: string, costBasisMethod: CostBasisMethod)
    ensures Accepted(SplitAsset())
    ensures KeyNet(SplitAsset(), 2, "B", YearOf(2)) == -1.0
    ensures !Calculable(providers, configured, base, costBasisMethod, YearOf(2), SplitAsset())
  {
    hide Accepted, Calculable, Text.TrimSpace, YearOf;
    SplitAssetIsAccepted();
    SplitKeyNet();
    if Calculable(providers, configured, base, costBasisMethod, YearOf(2), SplitAsset()) {
      CalculatedReportsOversellNoKey(providers, configured, base, costBasisMethod, YearOf(2), SplitAsset());
    }
  }

  lemma SplitKeyNet()
    ensures KeyNet(SplitAsset(), 2, "B", YearOf(2)) == -1.0
  {
    hide Text.TrimSpace, YearOf, KeyNet;
    SplitLetters();
    NothingNets(SplitAsset(), "B", YearOf(2));
    KeyNetStep(SplitAsset(), 1, "B", YearOf(2));
    KeyNetStep(SplitAsset(), 2, "B", YearOf(2));
  }

  ghost function SplitSale(): CalculationInput {
    SplitInput().(sourceId := "s", date := 2, year := YearOf(2), activityType := Sell, assetKey := "B", displayLabel := "S", quantity := 1.0)
  }

  lemma SoldKeyHoldsTheSale()
    ensures OfAsset(Kept(SplitAsset(), 2, YearOf(2)), "B") == [SplitSale()]
  {
    hide Text.TrimSpace, YearOf, Kept, OfAsset;
    SplitLetters();
    NothingKept(SplitAsset(), "B", YearOf(2));
    KeptOfAssetStep(SplitAsset(), 1, "B", YearOf(2));
    KeptOfAssetStep(SplitAsset(), 2, "B", YearOf(2));
    assert Select(SplitAsset()[1], YearOf(2)) == Take(SplitSale());
  }

  lemma NothingToSell(costBasisMethod: CostBasisMethod, scopeKey: string, quantity: real)
    requires costBasisMethod != ScopeLocalHybrid && quantity > 0.0
    ensures ValidPosition(Initial(costBasisMethod))
    ensures Disposed(Initial(costBasisMethod), scopeKey, quantity) == Failure(ExceedsOpenQuantity)
  {
    InitialIsEmpty(costBasisMethod);
    if costBasisMethod != AverageCost {
      RefusedExcessEmptiesTheLots(Initial(costBasisMethod).lotMethod, [], quantity);
    }
  }

  lemma LoneSaleIsRefused(costBasisMethod: CostBasisMethod, group: AssetGroup, selectedYear: int)
    requires costBasisMethod != ScopeLocalHybrid && group.inputs == [SplitSale()]
    ensures GroupResult(costBasisMethod, selectedYear, group) == Failure(ExceedsOpenQuantity)
  {
    hide ReplayedTo, Disposed, Contributed, GroupCurrency, AssetResultOf, ValidPosition;
    var sale := History(costBasisMethod, group)[0];
    NothingReplayed(costBasisMethod, group, selectedYear);
    NothingToSell(costBasisMethod, sale.scopeKey, sale.quantity);
    GroupReplayStep(costBasisMethod, group, 1, selectedYear);
  }

  /** Where no scopes are kept, the sale itself is what the replay of its key refuses, for its quantity. */
  lemma SplitSaleIsRefused(costBasisMethod: CostBasisMethod)
    requires costBasisMethod != ScopeLocalHybrid
    ensures var group := GroupOf(Kept(SplitAsset(), 2, YearOf(2)), "B");
            group in GroupsOf(Kept(SplitAsset(), 2, YearOf(2))) && GroupResult(costBasisMethod, YearOf(2), group) == Failure(ExceedsOpenQuantity)
  {
    hide GroupResult, Kept, OfAsset, FirstSeen, LabelOf, YearOf;
    var kept := Kept(SplitAsset(), 2, YearOf(2));
    SoldKeyHoldsTheSale();
    FirstSeenKeys(kept, "B");
    var g :| 0 <= g < |FirstSeen(kept)| && FirstSeen(kept)[g] == "B";
    assert GroupsOf(kept)[g] == GroupOf(kept, "B");
    LoneSaleIsRefused(costBasisMethod, GroupOf(kept, "B"), YearOf(2));
  }
}
