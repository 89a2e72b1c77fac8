/** What a report shows of the activities it was calculated from, section by section, in terms of those activities alone. */
module ReportFigures {
  import opened Outcomes
  import opened Activities
  import opened Sums
  import opened BasisModel
  import opened AssetReplay
  import opened YearBridge
  import opened LiquidationCounts
  import opened ReplayFigures
  import opened Scoping
  import opened Grouping
  import opened YearReport
  import opened ReportTheorems
  import opened HistoryValidation
  import opened Rates
  import opened CurrencyBoundary
  import opened CurrencyConversion
  import opened RateTheorems
  import opened ReportCalculation
  import opened OrderedReports

  // -------- the activities of the selected year --------

  function Amount(amount: Option<real>): real {
    if amount.Some? then amount.value else 0.0
  }

  predicate SoldForMoney(input: CalculationInput) {
    input.activityType == Sell && !input.zeroPricedReduction
  }

  /** What the in-year priced SELLs among the first n activities brought, beyond the basis their audit entries allocate: gross
      value minus fee minus that basis. */
  ghost function YearGain(inputs: seq<CalculationInput>, entries: seq<AuditEntry>, n: nat, year: int): real
    requires n <= |inputs| && n <= |entries|
  {
    if n == 0 then 0.0
    else
      var input := inputs[n - 1];
      YearGain(inputs, entries, n - 1, year)
      + if input.year == year && SoldForMoney(input) then
          Amount(input.grossValue) - Amount(input.feeAmount) - Amount(entries[n - 1].allocatedBasis)
        else 0.0
  }

  ghost function YearBought(inputs: seq<CalculationInput>, n: nat, year: int): real
    requires n <= |inputs|
  {
    if n == 0 then 0.0
    else YearBought(inputs, n - 1, year) + if inputs[n - 1].year == year && inputs[n - 1].activityType == Buy then inputs[n - 1].quantity else 0.0
  }

  ghost function YearSold(inputs: seq<CalculationInput>, n: nat, year: int): real
    requires n <= |inputs|
  {
    if n == 0 then 0.0
    else YearSold(inputs, n - 1, year) + if inputs[n - 1].year == year && inputs[n - 1].activityType == Sell then inputs[n - 1].quantity else 0.0
  }

  /** What the in-year BUYs cost, fees included. */
  ghost function YearCost(inputs: seq<CalculationInput>, n: nat, year: int): real
    requires n <= |inputs|
  {
    if n == 0 then 0.0
    else
      var input := inputs[n - 1];
      YearCost(inputs, n - 1, year)
      + if input.year == year && input.activityType == Buy then Amount(input.grossValue) + Amount(input.feeAmount) else 0.0
  }

  /** The basis the audit entries of the in-year SELLs allocate. */
  ghost function YearTaken(inputs: seq<CalculationInput>, entries: seq<AuditEntry>, n: nat, year: int): real
    requires n <= |inputs| && n <= |entries|
  {
    if n == 0 then 0.0
    else
      YearTaken(inputs, entries, n - 1, year)
      + if inputs[n - 1].year == year && inputs[n - 1].activityType == Sell then Amount(entries[n - 1].allocatedBasis) else 0.0
  }

  /** The activities among the first n that are in the year. */
  ghost function YearAt(inputs: seq<CalculationInput>, n: nat, year: int): (at: seq<nat>)
    requires n <= |inputs|
    ensures forall k :: 0 <= k < |at| ==> at[k] < n
  {
    if n == 0 then [] else YearAt(inputs, n - 1, year) + if inputs[n - 1].year == year then [n - 1] else []
  }

  /** The priced SELLs among them. */
  ghost function SalesAt(inputs: seq<CalculationInput>, n: nat, year: int): (at: seq<nat>)
    requires n <= |inputs|
    ensures forall k :: 0 <= k < |at| ==> at[k] < n
  {
    if n == 0 then [] else SalesAt(inputs, n - 1, year) + if inputs[n - 1].year == year && SoldForMoney(inputs[n - 1]) then [n - 1] else []
  }

  // -------- the annex of one asset --------

  /** An entry shows the activity itself. */
  ghost predicate ShowsActivity(shown: ReplayInput, input: CalculationInput) {
    && shown.sourceId == input.sourceId && shown.date == input.date && shown.year == input.year
    && shown.activityType == input.activityType && shown.quantity == input.quantity
    && shown.grossValue == input.grossValue && shown.feeAmount == input.feeAmount
    && shown.zeroPricedReduction == input.zeroPricedReduction
  }

  ghost function HeldBefore(entries: seq<AuditEntry>, k: nat): real
    requires k < |entries|
  {
    if k == 0 then 0.0 else entries[k - 1].quantityAfter
  }

  ghost function CostBefore(entries: seq<AuditEntry>, k: nat): real
    requires k < |entries|
  {
    if k == 0 then 0.0 else entries[k - 1].basisAfter
  }

  /** The entry of a BUY adds its quantity and its gross value plus fee; that of a SELL takes its quantity and the basis it
      allocates, and a priced one carries gross value minus fee and what that is more than the basis. */
  ghost predicate EntryFollows(entries: seq<AuditEntry>, k: nat, input: CalculationInput)
    requires k < |entries|
  {
    var entry := entries[k];
    && ShowsActivity(entry.input, input) && entry.quantityAfter >= 0.0 && entry.basisAfter >= 0.0
    && (input.activityType == Buy ==>
          && input.grossValue.Some? && input.feeAmount.Some?
          && entry.quantityAfter == HeldBefore(entries, k) + input.quantity
          && entry.basisAfter == CostBefore(entries, k) + input.grossValue.value + input.feeAmount.value
          && entry.allocatedBasis == None && entry.netProceeds == None && entry.gain == None)
    && (input.activityType == Sell ==>
          && entry.allocatedBasis.Some?
          && entry.quantityAfter == HeldBefore(entries, k) - input.quantity
          && entry.basisAfter == CostBefore(entries, k) - entry.allocatedBasis.value
          && (input.zeroPricedReduction ==> entry.netProceeds == None && entry.gain == None)
          && (!input.zeroPricedReduction ==>
                && input.grossValue.Some? && input.feeAmount.Some?
                && entry.netProceeds == Some(input.grossValue.value - input.feeAmount.value)
                && entry.gain == Some(input.grossValue.value - input.feeAmount.value - entry.allocatedBasis.value)))
  }

  ghost predicate AnnexShows(entries: seq<AuditEntry>, inputs: seq<CalculationInput>) {
    |entries| == |inputs| && forall k :: 0 <= k < |inputs| ==> EntryFollows(entries, k, inputs[k])
  }

  // -------- the other sections of one asset --------

  /** Something is left at the end, or an activity of the year took the asset, or a scope of it, to zero. */
  ghost predicate ShownInMain(entries: seq<AuditEntry>, year: int) {
    (entries != [] && entries[|entries| - 1].quantityAfter > 0.0) || HasFullLiquidationIn(entries, year)
  }

  ghost predicate SummaryShows(summary: SummaryEntry, group: AssetGroup, entries: seq<AuditEntry>, year: int)
    requires |entries| == |group.inputs|
  {
    && summary.assetKey == group.assetKey && summary.displayLabel == group.displayLabel
    && summary.netGainOrLoss == YearGain(group.inputs, entries, |entries|, year)
    && CommonCurrency(group.inputs, summary.currency)
  }

  /** The detail section ends where the annex ends, opens with what the year's activities lead from, and lists those. */
  ghost predicate DetailShows(detail: DetailSection, group: AssetGroup, entries: seq<AuditEntry>, year: int)
    requires |entries| == |group.inputs| && entries != []
  {
    var inputs, n := group.inputs, |entries|;
    && detail.assetKey == group.assetKey
    && detail.closingQuantity == entries[n - 1].quantityAfter && detail.closingBasis == entries[n - 1].basisAfter
    && detail.closingQuantity == detail.openingQuantity + YearBought(inputs, n, year) - YearSold(inputs, n, year)
    && detail.closingBasis == detail.openingBasis + YearCost(inputs, n, year) - YearTaken(inputs, entries, n, year)
    && RowsShow(detail.rows, entries, YearAt(inputs, n, year))
    && LiquidationsShow(detail.liquidations, entries, SalesAt(inputs, n, year))
  }

  ghost predicate ReferenceShows(reference: ReferenceEntry, group: AssetGroup, entries: seq<AuditEntry>, year: int) {
    && reference.assetKey == group.assetKey && reference.displayLabel == group.displayLabel
    && reference.fullLiquidations == FullLiquidations(entries)
    && reference.inMainSections == ShownInMain(entries, year)
  }

  ghost predicate ResultShows(result: AssetResult, group: AssetGroup, year: int) {
    && result.audit.Some? && result.audit.value.assetKey == group.assetKey
    && var entries := result.audit.value.entries;
       && AnnexShows(entries, group.inputs) && entries != []
       && result.yearlyNet == YearGain(group.inputs, entries, |entries|, year)
       && (result.includeInMain <==> ShownInMain(entries, year))
       && (result.includeInMain <==> result.summary.Some?) && (result.includeInMain <==> result.detail.Some?)
       && (result.summary.Some? ==> SummaryShows(result.summary.value, group, entries, year))
       && (result.detail.Some? ==> DetailShows(result.detail.value, group, entries, year))
       && (result.reference.Some? <==> FullLiquidations(entries) > 0)
       && (result.reference.Some? ==> ReferenceShows(result.reference.value, group, entries, year))
       && (!result.includeInMain ==> result.yearlyNet == 0.0)
  }

  // -------- from the replay to the activities --------

  ghost predicate ShowActivities(history: seq<ReplayInput>, inputs: seq<CalculationInput>) {
    |history| == |inputs| && forall i :: 0 <= i < |inputs| ==> ShowsActivity(history[i], inputs[i])
  }

  lemma HistoryShowsActivities(costBasisMethod: CostBasisMethod, group: AssetGroup)
    ensures ShowActivities(History(costBasisMethod, group), group.inputs)
  {
  }

  lemma {:induction false} SamePlaces(history: seq<ReplayInput>, inputs: seq<CalculationInput>, n: nat, year: int)
    requires ShowActivities(history, inputs) && n <= |inputs|
    ensures InYearAt(history, n, year) == YearAt(inputs, n, year) && PricedAt(history, n, year) == SalesAt(inputs, n, year)
  {
    if n == 0 {
    } else {
      SamePlaces(history, inputs, n - 1, year);
      assert ShowsActivity(history[n - 1], inputs[n - 1]);
    }
  }

  lemma {:induction false} SameSums(history: seq<ReplayInput>, inputs: seq<CalculationInput>, entries: seq<AuditEntry>, n: nat, year: int)
    requires ShowActivities(history, inputs) && n <= |inputs| && |entries| == |inputs|
    requires forall k :: 0 <= k < |inputs| ==> entries[k].input == history[k] && EntryFigures(entries[k])
    requires forall k :: 0 <= k < |inputs| && inputs[k].activityType == Buy ==> HasAmounts(history[k])
    ensures InYearBought(history, n, year) == YearBought(inputs, n, year)
    ensures InYearSold(history, n, year) == YearSold(inputs, n, year)
    ensures InYearCost(history, n, year) == YearCost(inputs, n, year)
    ensures InYearAllocated(entries[..n], year) == YearTaken(inputs, entries, n, year)
  {
    if n == 0 {
    } else {
      SameSums(history, inputs, entries, n - 1, year);
      assert ShowsActivity(history[n - 1], inputs[n - 1]);
      assert entries[..n] == entries[..n - 1] + [entries[n - 1]];
      AllocatedListed(entries[..n - 1], entries[n - 1], year);
    }
  }

  lemma LastSale(liquidations: seq<Liquidation>, entries: seq<AuditEntry>, inputs: seq<CalculationInput>, n: nat, year: int)
    requires 0 < n <= |inputs| && LiquidationsShow(liquidations, entries, SalesAt(inputs, n, year))
    requires inputs[n - 1].year == year && SoldForMoney(inputs[n - 1])
    ensures |liquidations| > 0 && n <= |entries|
    ensures LiquidationsShow(liquidations[..|liquidations| - 1], entries, SalesAt(inputs, n - 1, year))
    ensures ShowsEntry(liquidations[|liquidations| - 1], entries[n - 1])
  {
    hide ShowsEntry;
    assert SalesAt(inputs, n, year) == SalesAt(inputs, n - 1, year) + [n - 1];
    assert SalesAt(inputs, n, year)[|liquidations| - 1] == n - 1;
  }

  /** The nets of the listed liquidations add up to the gain of the year's priced SELLs. */
  lemma {:induction false} NetsAreYearGain(inputs: seq<CalculationInput>, entries: seq<AuditEntry>, liquidations: seq<Liquidation>, n: nat, year: int)
    requires |entries| == |inputs| && n <= |inputs| && LiquidationsShow(liquidations, entries, SalesAt(inputs, n, year))
    requires forall k :: 0 <= k < |inputs| ==> ShowsActivity(entries[k].input, inputs[k]) && EntryFigures(entries[k])
    ensures Sum(NetsOf(liquidations)) == YearGain(inputs, entries, n, year)
  {
    hide LiquidationsShow, ShowsEntry, ShowsActivity, EntryFigures;
    if n == 0 {
      NoSales(inputs, entries, liquidations, year);
    } else if inputs[n - 1].year == year && SoldForMoney(inputs[n - 1]) {
      LastSale(liquidations, entries, inputs, n, year);
      var init, last := liquidations[..|liquidations| - 1], liquidations[|liquidations| - 1];
      NetsAreYearGain(inputs, entries, init, n - 1, year);
      NetAppend(init, last);
      assert liquidations == init + [last];
      LiquidationNet(last, entries[n - 1], inputs[n - 1]);
    } else {
      assert SalesAt(inputs, n, year) == SalesAt(inputs, n - 1, year);
      NetsAreYearGain(inputs, entries, liquidations, n - 1, year);
    }
  }

  lemma NoSales(inputs: seq<CalculationInput>, entries: seq<AuditEntry>, liquidations: seq<Liquidation>, year: int)
    requires LiquidationsShow(liquidations, entries, SalesAt(inputs, 0, year))
    ensures Sum(NetsOf(liquidations)) == 0.0
  {
    assert NetsOf([]) == [];
  }

  lemma LiquidationNet(l: Liquidation, entry: AuditEntry, input: CalculationInput)
    requires ShowsEntry(l, entry) && ShowsActivity(entry.input, input) && EntryFigures(entry) && SoldForMoney(input)
    ensures l.netProceeds - l.allocatedBasis == Amount(input.grossValue) - Amount(input.feeAmount) - Amount(entry.allocatedBasis)
  {
    hide PricedFragments;
  }

  lemma EntryIsTheActivity(start: Position, entries: seq<AuditEntry>, k: nat, history: ReplayInput, input: CalculationInput)
    requires k < |entries| && entries[k].input == history && ShowsActivity(history, input)
    requires Continues(start, entries, k) && EntryFigures(entries[k])
    requires PositionQuantity(start) == 0.0 && PositionBasis(start) == 0.0
    requires input.activityType == Buy ==> HasAmounts(history)
    ensures EntryFollows(entries, k, input)
  {
    hide PositionQuantity, PositionBasis;
  }

  lemma {:induction false} BuysHaveAmounts(start: Position, history: seq<ReplayInput>, i: nat, year: int)
    requires ValidPosition(start) && i <= |history| && ReplayedTo(start, history, i, year).Success?
    ensures forall k :: 0 <= k < i && history[k].activityType == Buy ==> HasAmounts(history[k])
  {
    hide ValidPosition, Step, Opened, Accumulated, HasAmounts;
    if i == 0 {
    } else {
      BuysHaveAmounts(start, history, i - 1, year);
      var (position, _) := ReplayedTo(start, history, i - 1, year).value;
      StepHasAmounts(position, history[i - 1], i, year);
    }
  }

  lemma StepHasAmounts(position: Position, input: ReplayInput, order: nat, year: int)
    requires ValidPosition(position) && Step(position, input, order, year).Success?
    ensures input.activityType == Buy ==> HasAmounts(input)
  {
    hide ValidPosition, PositionQuantity, PositionBasis, Acquired, Disposed;
  }

  /** The group has activities, in order of their years, none after the selected one. */
  ghost predicate Ready(group: AssetGroup, year: int) {
    group.inputs != [] && GroupInOrder(group, year)
  }

  lemma GroupAnnex(costBasisMethod: CostBasisMethod, year: int, group: AssetGroup, state: ReplayState)
    requires Ready(group, year) && GroupState(costBasisMethod, year, group) == Success(state)
    ensures AnnexShows(state.audits, group.inputs) && state.audits != []
    ensures forall k :: 0 <= k < |group.inputs| ==>
              state.audits[k].input == History(costBasisMethod, group)[k] && EntryFigures(state.audits[k])
    ensures forall k :: 0 <= k < |group.inputs| && group.inputs[k].activityType == Buy ==> HasAmounts(History(costBasisMethod, group)[k])
    ensures state.closingQuantity == state.audits[|group.inputs| - 1].quantityAfter
    ensures state.closingBasis == state.audits[|group.inputs| - 1].basisAfter
    ensures RowsShow(state.rows, state.audits, YearAt(group.inputs, |group.inputs|, year))
    ensures LiquidationsShow(state.liquidations, state.audits, SalesAt(group.inputs, |group.inputs|, year))
  {
    hide ValidPosition, ReplayedTo, EntryFigures, EntryFollows, Continues, RowsShow, LiquidationsShow, ScopeFor, HasAmounts,
         PositionQuantity, PositionBasis;
    var start, history, n := Initial(costBasisMethod), History(costBasisMethod, group), |group.inputs|;
    InitialIsEmpty(costBasisMethod);
    HistoryShowsActivities(costBasisMethod, group);
    SamePlaces(history, group.inputs, n, year);
    FiguresAfter(start, history, n, year);
    AuditTrailIsUnbroken(start, history, year);
    BuysHaveAmounts(start, history, n, year);
    forall k | 0 <= k < n
      ensures EntryFollows(state.audits, k, group.inputs[k])
    {
      EntryIsTheActivity(start, state.audits, k, history[k], group.inputs[k]);
    }
  }

  lemma GroupGain(costBasisMethod: CostBasisMethod, year: int, group: AssetGroup, state: ReplayState)
    requires Ready(group, year) && GroupState(costBasisMethod, year, group) == Success(state)
    ensures |state.audits| == |group.inputs|
    ensures state.yearlyNet == YearGain(group.inputs, state.audits, |group.inputs|, year)
  {
    hide ValidPosition, ReplayedTo, EntryFigures, EntryFollows, RowsShow, LiquidationsShow, ScopeFor, HasAmounts, PositionQuantity, PositionBasis,
         Reports, ShowsActivity;
    InitialIsEmpty(costBasisMethod);
    GroupAnnex(costBasisMethod, year, group, state);
    HistoryShowsActivities(costBasisMethod, group);
    YearlyNetIsRealizedGain(Initial(costBasisMethod), History(costBasisMethod, group), year);
    NetsAreYearGain(group.inputs, state.audits, state.liquidations, |group.inputs|, year);
  }

  lemma GroupBridge(costBasisMethod: CostBasisMethod, year: int, group: AssetGroup, state: ReplayState)
    requires Ready(group, year) && GroupState(costBasisMethod, year, group) == Success(state)
    ensures |state.audits| == |group.inputs|
    ensures var inputs, n := group.inputs, |group.inputs|;
            && state.closingQuantity == state.openingQuantity + YearBought(inputs, n, year) - YearSold(inputs, n, year)
            && state.closingBasis == state.openingBasis + YearCost(inputs, n, year) - YearTaken(inputs, state.audits, n, year)
  {
    hide ValidPosition, ReplayedTo, EntryFigures, EntryFollows, RowsShow, LiquidationsShow, ScopeFor, HasAmounts,
         PositionQuantity, PositionBasis, ShowsActivity;
    var start, history, n := Initial(costBasisMethod), History(costBasisMethod, group), |group.inputs|;
    InitialIsEmpty(costBasisMethod);
    GroupAnnex(costBasisMethod, year, group, state);
    HistoryShowsActivities(costBasisMethod, group);
    HistoryInOrder(costBasisMethod, group, year);
    SameSums(history, group.inputs, state.audits, n, year);
    assert state.audits[..n] == state.audits;
    YearBridgeHolds(start, history, year);
  }

  lemma GroupInclusion(costBasisMethod: CostBasisMethod, year: int, group: AssetGroup, state: ReplayState)
    requires Ready(group, year) && GroupState(costBasisMethod, year, group) == Success(state)
    ensures IncludedInMain(state) <==> ShownInMain(state.audits, year)
    ensures state.fullLiquidations == FullLiquidations(state.audits)
    ensures !IncludedInMain(state) ==> state.yearlyNet == 0.0
  {
    hide ValidPosition, ReplayedTo, EntryFigures, EntryFollows, RowsShow, LiquidationsShow, ScopeFor, HasAmounts, PositionQuantity, PositionBasis,
         HasFullLiquidationIn, FullLiquidations;
    var start, history := Initial(costBasisMethod), History(costBasisMethod, group);
    InitialIsEmpty(costBasisMethod);
    GroupAnnex(costBasisMethod, year, group, state);
    HistoryInOrder(costBasisMethod, group, year);
    FullLiquidationsAreCounted(start, history, year);
    if !IncludedInMain(state) {
      ExcludedAssetsHaveNoActivity(start, history, year);
    }
  }

  lemma HistoryInOrder(costBasisMethod: CostBasisMethod, group: AssetGroup, year: int)
    requires GroupInOrder(group, year)
    ensures YearsInOrder(History(costBasisMethod, group), year)
  {
    hide ScopeFor;
  }

  /** The currency shown is the one every activity that has a currency is in. */
  lemma SelectedIsCommon(inputs: seq<CalculationInput>)
    requires GroupCurrency(inputs).Success?
    ensures CommonCurrency(inputs, GroupCurrency(inputs).value)
  {
    hide InputCurrency;
    if i :| 0 <= i < |inputs| && InputCurrency(inputs[i]) != NOT_APPLICABLE {
      assert CommonCurrency(inputs, InputCurrency(inputs[i]));
    }
  }

  /** The state of a group is what its annex, its gain, its bridge and its inclusion say. */
  ghost predicate StateShows(state: ReplayState, group: AssetGroup, year: int) {
    var inputs, n := group.inputs, |group.inputs|;
    && AnnexShows(state.audits, inputs) && state.audits != []
    && state.closingQuantity == state.audits[n - 1].quantityAfter && state.closingBasis == state.audits[n - 1].basisAfter
    && RowsShow(state.rows, state.audits, YearAt(inputs, n, year))
    && LiquidationsShow(state.liquidations, state.audits, SalesAt(inputs, n, year))
    && state.yearlyNet == YearGain(inputs, state.audits, n, year)
    && state.closingQuantity == state.openingQuantity + YearBought(inputs, n, year) - YearSold(inputs, n, year)
    && state.closingBasis == state.openingBasis + YearCost(inputs, n, year) - YearTaken(inputs, state.audits, n, year)
    && (IncludedInMain(state) <==> ShownInMain(state.audits, year))
    && state.fullLiquidations == FullLiquidations(state.audits)
    && (!IncludedInMain(state) ==> state.yearlyNet == 0.0)
  }

  lemma GroupStateShows(costBasisMethod: CostBasisMethod, year: int, group: AssetGroup, state: ReplayState)
    requires Ready(group, year) && GroupState(costBasisMethod, year, group) == Success(state)
    ensures StateShows(state, group, year)
  {
    hide GroupState, EntryFollows, RowsShow, LiquidationsShow, ShownInMain, FullLiquidations, EntryFigures, HasAmounts, Ready, IncludedInMain;
    GroupAnnex(costBasisMethod, year, group, state);
    GroupGain(costBasisMethod, year, group, state);
    GroupBridge(costBasisMethod, year, group, state);
    GroupInclusion(costBasisMethod, year, group, state);
  }

  lemma StateResultShows(group: AssetGroup, currency: string, state: ReplayState, year: int)
    requires StateShows(state, group, year) && CommonCurrency(group.inputs, currency) && AssetResultOf(group, currency, state).Success?
    ensures ResultShows(AssetResultOf(group, currency, state).value, group, year)
  {
    hide AnnexShows, RowsShow, LiquidationsShow, ShownInMain, FullLiquidations, CommonCurrency, YearGain, YearBought, YearSold, YearCost, YearTaken,
         YearAt, SalesAt, ValidPositions, IncludedInMain;
    AnnexLength(state.audits, group.inputs);
  }

  /** The sections of one asset show its activities. */
  lemma GroupResultShows(costBasisMethod: CostBasisMethod, year: int, group: AssetGroup)
    requires Ready(group, year) && GroupResult(costBasisMethod, year, group).Success?
    ensures ResultShows(GroupResult(costBasisMethod, year, group).value, group, year)
  {
    hide GroupState, GroupCurrency, AssetResultOf, StateShows, ResultShows, CommonCurrency, Ready;
    var state := GroupState(costBasisMethod, year, group).value;
    GroupStateShows(costBasisMethod, year, group, state);
    SelectedIsCommon(group.inputs);
    StateResultShows(group, GroupCurrency(group.inputs).value, state, year);
  }

  lemma AnnexLength(entries: seq<AuditEntry>, inputs: seq<CalculationInput>)
    requires AnnexShows(entries, inputs)
    ensures |entries| == |inputs|
  {
  }

  // -------- the whole report --------

  /** The assets among the first n whose annex says they are shown in the main sections. */
  ghost function ShownAt(annex: seq<AuditSection>, n: nat, year: int): (at: seq<nat>)
    requires n <= |annex|
    ensures forall k :: 0 <= k < |at| ==> at[k] < n
  {
    if n == 0 then [] else ShownAt(annex, n - 1, year) + if ShownInMain(annex[n - 1].entries, year) then [n - 1] else []
  }

  /** The assets among the first n that were ever fully liquidated. */
  ghost function LiquidatedAt(annex: seq<AuditSection>, n: nat): (at: seq<nat>)
    requires n <= |annex|
    ensures forall k :: 0 <= k < |at| ==> at[k] < n
  {
    if n == 0 then [] else LiquidatedAt(annex, n - 1) + if FullLiquidations(annex[n - 1].entries) > 0 then [n - 1] else []
  }

  ghost predicate SectionShows(section: AuditSection, group: AssetGroup) {
    section.assetKey == group.assetKey && AnnexShows(section.entries, group.inputs) && |section.entries| == |group.inputs| > 0
  }

  ghost predicate AnnexesShow(annex: seq<AuditSection>, groups: seq<AssetGroup>, n: nat)
    requires n <= |groups|
  {
    |annex| == n && forall g :: 0 <= g < n ==> SectionShows(annex[g], groups[g])
  }

  ghost function AssetGain(group: AssetGroup, section: AuditSection, year: int): real {
    if |section.entries| == |group.inputs| then YearGain(group.inputs, section.entries, |section.entries|, year) else 0.0
  }

  /** The gains of the first n assets, shown or not. */
  ghost function TotalGain(groups: seq<AssetGroup>, annex: seq<AuditSection>, n: nat, year: int): real
    requires n <= |groups| && n <= |annex|
  {
    if n == 0 then 0.0 else TotalGain(groups, annex, n - 1, year) + AssetGain(groups[n - 1], annex[n - 1], year)
  }

  ghost predicate SummariesShow(summaries: seq<SummaryEntry>, groups: seq<AssetGroup>, annex: seq<AuditSection>, at: seq<nat>, year: int) {
    |summaries| == |at| && forall k :: 0 <= k < |at| ==>
      at[k] < |groups| && at[k] < |annex| && |annex[at[k]].entries| == |groups[at[k]].inputs|
      && SummaryShows(summaries[k], groups[at[k]], annex[at[k]].entries, year)
  }

  ghost predicate DetailsShow(details: seq<DetailSection>, groups: seq<AssetGroup>, annex: seq<AuditSection>, at: seq<nat>, year: int) {
    |details| == |at| && forall k :: 0 <= k < |at| ==>
      at[k] < |groups| && at[k] < |annex| && |annex[at[k]].entries| == |groups[at[k]].inputs| > 0
      && DetailShows(details[k], groups[at[k]], annex[at[k]].entries, year)
  }

  ghost predicate ReferencesShow(references: seq<ReferenceEntry>, groups: seq<AssetGroup>, annex: seq<AuditSection>, at: seq<nat>, year: int) {
    |references| == |at| && forall k :: 0 <= k < |at| ==>
      at[k] < |groups| && at[k] < |annex| && ReferenceShows(references[k], groups[at[k]], annex[at[k]].entries, year)
  }

  /** The annex has a section for every asset, the summary and the detail sections are those of the shown assets, the reference
      entries those of the fully liquidated ones, all in the order of the assets, and the total is every asset's gain. */
  ghost predicate ReportShows(report: Report, groups: seq<AssetGroup>, n: nat, year: int)
    requires n <= |groups|
  {
    && AnnexesShow(report.audits, groups, n)
    && SummariesShow(report.summaries, groups, report.audits, ShownAt(report.audits, n, year), year)
    && DetailsShow(report.details, groups, report.audits, ShownAt(report.audits, n, year), year)
    && ReferencesShow(report.references, groups, report.audits, LiquidatedAt(report.audits, n), year)
    && report.yearlyNetTotal == TotalGain(groups, report.audits, n, year)
  }

  lemma {:induction false} EarlierAnnex(groups: seq<AssetGroup>, annex: seq<AuditSection>, added: AuditSection, n: nat, year: int)
    requires n <= |annex| && n <= |groups|
    ensures ShownAt(annex + [added], n, year) == ShownAt(annex, n, year)
    ensures LiquidatedAt(annex + [added], n) == LiquidatedAt(annex, n)
    ensures TotalGain(groups, annex + [added], n, year) == TotalGain(groups, annex, n, year)
  {
    hide ShownInMain, AssetGain, FullLiquidations;
    if n == 0 {
    } else {
      EarlierAnnex(groups, annex, added, n - 1, year);
    }
  }

  lemma EarlierSections(report: Report, groups: seq<AssetGroup>, added: AuditSection, shown: seq<nat>, liquidated: seq<nat>, year: int)
    requires SummariesShow(report.summaries, groups, report.audits, shown, year) && DetailsShow(report.details, groups, report.audits, shown, year)
    requires ReferencesShow(report.references, groups, report.audits, liquidated, year)
    ensures var annex := report.audits + [added];
            && SummariesShow(report.summaries, groups, annex, shown, year) && DetailsShow(report.details, groups, annex, shown, year)
            && ReferencesShow(report.references, groups, annex, liquidated, year)
  {
    hide SummaryShows, DetailShows, ReferenceShows;
  }

  lemma ReportStep(report: Report, groups: seq<AssetGroup>, n: nat, result: AssetResult, year: int)
    requires n < |groups| && ReportShows(report, groups, n, year) && ResultShows(result, groups[n], year)
    ensures ReportShows(WithResult(report, result), groups, n + 1, year)
  {
    hide SummaryShows, DetailShows, ReferenceShows, AnnexShows, ShownInMain, FullLiquidations, YearGain;
    var section := result.audit.value;
    AnnexLength(section.entries, groups[n].inputs);
    EarlierAnnex(groups, report.audits, section, n, year);
    EarlierSections(report, groups, section, ShownAt(report.audits, n, year), LiquidatedAt(report.audits, n), year);
    assert WithResult(report, result).audits == report.audits + [section];
    assert AnnexesShow(report.audits + [section], groups, n + 1);
  }

  lemma NothingShown(groups: seq<AssetGroup>, year: int)
    ensures ReportShows(NOTHING_REPORTED, groups, 0, year)
  {
  }

  /** Every section of a report of assets with their years in order shows what their activities were. */
  lemma {:induction false} ReportToShows(costBasisMethod: CostBasisMethod, year: int, groups: seq<AssetGroup>, n: nat)
    requires n <= |groups| && ReportTo(costBasisMethod, year, groups, n).Success? && forall g :: 0 <= g < n ==> Ready(groups[g], year)
    ensures ReportShows(ReportTo(costBasisMethod, year, groups, n).value, groups, n, year)
  {
    hide GroupResult, ResultShows, ReportShows, Ready, WithResult;
    if n == 0 {
      NothingShown(groups, year);
    } else {
      ReportToShows(costBasisMethod, year, groups, n - 1);
      GroupResultShows(costBasisMethod, year, groups[n - 1]);
      ReportStep(ReportTo(costBasisMethod, year, groups, n - 1).value, groups, n - 1, GroupResult(costBasisMethod, year, groups[n - 1]).value, year);
    }
  }

  /** Of an accepted history the report shows every activity through the year in its annex, with gross value plus fee added by
      each BUY and gross value minus fee brought by each priced SELL; everything else follows from the annex, up to the
      yearly total, which is the sum over all assets, shown or not, of gross value minus fee minus allocated basis of their
      in-year priced SELLs. */
  lemma AcceptedHistoriesAreShown(report: CalculatedReport, providers: map<string, Provider>, configured: bool, base: string,
                                  costBasisMethod: CostBasisMethod, selectedYear: int, records: seq<ActivityRecord>)
    requires Accepted(records) && Calculated(report, providers, configured, base, costBasisMethod, selectedYear, records)
    ensures ReportShows(report.sections, report.groups, |report.groups|, selectedYear)
  {
    hide Accepted, Calculated, ReportTo, ReportShows, GroupInOrder;
    CalculatedSections(report, providers, configured, base, costBasisMethod, selectedYear, records);
    forall g | 0 <= g < |report.groups|
      ensures Ready(report.groups[g], selectedYear)
    {
      CalculatedGroupsAreInOrder(report, providers, configured, base, costBasisMethod, selectedYear, records, g);
      CalculatedGroupsAreNotEmpty(report, providers, configured, base, costBasisMethod, selectedYear, records, g);
    }
    ReportToShows(costBasisMethod, selectedYear, report.groups, |report.groups|);
    CalculatedIsTheReport(report, providers, configured, base, costBasisMethod, selectedYear, records);
  }

  lemma CalculatedIsTheReport(report: CalculatedReport, providers: map<string, Provider>, configured: bool, base: string,
                              costBasisMethod: CostBasisMethod, selectedYear: int, records: seq<ActivityRecord>)
    requires Calculated(report, providers, configured, base, costBasisMethod, selectedYear, records)
    ensures ReportTo(costBasisMethod, selectedYear, report.groups, |report.groups|) == Success(report.sections)
  {
    hide ConvertedGroups, ReportTo, Refines;
  }

  lemma CalculatedGroupsAreNotEmpty(report: CalculatedReport, providers: map<string, Provider>, configured: bool, base: string,
                                    costBasisMethod: CostBasisMethod, selectedYear: int, records: seq<ActivityRecord>, g: nat)
    requires Calculated(report, providers, configured, base, costBasisMethod, selectedYear, records) && g < |report.groups|
    ensures report.groups[g].inputs != []
  {
    hide Kept, OfAsset, FirstSeen, LabelOf, DirectGroups, ReportTo, Refines, SameActivity;
    var kept := Kept(records, |records|, selectedYear);
    ConversionKeepsTheGroups(providers, configured, base, GroupsOf(kept), |GroupsOf(kept)|);
    GroupHoldsItsAsset(kept, g);
  }
}
