/** What the report promises of assets whose source years are in replay order. */
module ReportTheorems {
  import opened Sums
  import opened BasisModel
  import opened AssetReplay
  import opened YearBridge
  import opened Scoping
  import opened Grouping
  import opened YearReport
  import Text

  /** The last activity decides: after an in-year activity the asset is held or was liquidated in the year. */
  lemma HeldOrLiquidated(start: Position, inputs: seq<ReplayInput>, selectedYear: int)
    requires ValidPosition(start) && inputs != [] && inputs[|inputs| - 1].year == selectedYear
    requires ReplayedGroup(start, inputs, selectedYear).Success?
    ensures IncludedInMain(ReplayedGroup(start, inputs, selectedYear).value)
  {
    hide ValidPosition, Step, PositionQuantity, PositionBasis;
    var i := |inputs| - 1;
    var (position, state) := ReplayedTo(start, inputs, i, selectedYear).value;
    StepHasEffect(position, inputs[i], i + 1, selectedYear);
    var (after, c) := Step(position, inputs[i], i + 1, selectedYear).value;
    PositionIsNotNegative(position);
    PositionIsNotNegative(after);
  }

  lemma {:induction false} NoInYearSells(inputs: seq<ReplayInput>, i: nat, year: int)
    requires i <= |inputs| && forall k :: 0 <= k < i ==> inputs[k].year != year
    ensures InYearPricedSells(inputs, i, year) == []
  {
    if i == 0 {
    } else {
      NoInYearSells(inputs, i - 1, year);
    }
  }

  /** With source years in order, an asset is left out of the main sections only if nothing happened to it in the
      selected year; in particular its yearly net is zero. */
  lemma ExcludedAssetsHaveNoActivity(start: Position, inputs: seq<ReplayInput>, selectedYear: int)
    requires ValidPosition(start) && YearsInOrder(inputs, selectedYear)
    requires ReplayedGroup(start, inputs, selectedYear).Success?
    requires !IncludedInMain(ReplayedGroup(start, inputs, selectedYear).value)
    ensures forall k :: 0 <= k < |inputs| ==> inputs[k].year != selectedYear
    ensures ReplayedGroup(start, inputs, selectedYear).value.yearlyNet == 0.0
  {
    hide ValidPosition, ReplayedGroup, Reports;
    if inputs != [] && inputs[|inputs| - 1].year == selectedYear {
      HeldOrLiquidated(start, inputs, selectedYear);
    }
    forall k | 0 <= k < |inputs|
      ensures inputs[k].year != selectedYear
    {
      assert inputs[k].year <= inputs[|inputs| - 1].year;
    }
    NoInYearSells(inputs, |inputs|, selectedYear);
    YearlyNetIsRealizedGain(start, inputs, selectedYear);
  }

  // -------- the yearly total --------

  /** The realized gain of one asset: net proceeds minus allocated basis over its in-year priced SELLs. */
  ghost function RealizedGain(costBasisMethod: CostBasisMethod, selectedYear: int, group: AssetGroup): real {
    match GroupState(costBasisMethod, selectedYear, group)
    case Failure(_) => 0.0
    case Success(state) => Sum(NetsOf(state.liquidations))
  }

  ghost function RealizedGains(costBasisMethod: CostBasisMethod, selectedYear: int, groups: seq<AssetGroup>, n: nat): real
    requires n <= |groups|
  {
    if n == 0 then 0.0
    else RealizedGains(costBasisMethod, selectedYear, groups, n - 1) + RealizedGain(costBasisMethod, selectedYear, groups[n - 1])
  }

  /** The source years of a group never go back in replay order. */
  ghost predicate GroupInOrder(group: AssetGroup, selectedYear: int) {
    && (forall i, j :: 0 <= i < j < |group.inputs| ==> group.inputs[i].year <= group.inputs[j].year)
    && forall i :: 0 <= i < |group.inputs| ==> group.inputs[i].year <= selectedYear
  }

  lemma ResultCarriesTheGain(costBasisMethod: CostBasisMethod, selectedYear: int, group: AssetGroup)
    requires GroupResult(costBasisMethod, selectedYear, group).Success?
    ensures var result := GroupResult(costBasisMethod, selectedYear, group).value;
            && result.yearlyNet == RealizedGain(costBasisMethod, selectedYear, group)
            && (GroupInOrder(group, selectedYear) && !result.includeInMain ==> result.yearlyNet == 0.0)
  {
    hide ValidPosition, ReplayedGroup, GroupCurrency, Reports, ScopeFor;
    InitialIsEmpty(costBasisMethod);
    var start, history := Initial(costBasisMethod), History(costBasisMethod, group);
    YearlyNetIsRealizedGain(start, history, selectedYear);
    if GroupInOrder(group, selectedYear) && !IncludedInMain(ReplayedGroup(start, history, selectedYear).value) {
      ExcludedAssetsHaveNoActivity(start, history, selectedYear);
    }
  }

  /** With source years in order no realized gain is lost by the inclusion rule: the yearly total is the sum over all
      assets, shown or not, of what their in-year priced SELLs realized. */
  lemma {:induction false} NoGainIsLost(costBasisMethod: CostBasisMethod, selectedYear: int, groups: seq<AssetGroup>, n: nat)
    requires n <= |groups| && ReportTo(costBasisMethod, selectedYear, groups, n).Success?
    requires forall g :: 0 <= g < n ==> GroupInOrder(groups[g], selectedYear)
    ensures ReportTo(costBasisMethod, selectedYear, groups, n).value.yearlyNetTotal == RealizedGains(costBasisMethod, selectedYear, groups, n)
  {
    hide GroupResult, RealizedGain, GroupInOrder;
    if n == 0 {
    } else {
      NoGainIsLost(costBasisMethod, selectedYear, groups, n - 1);
      ResultCarriesTheGain(costBasisMethod, selectedYear, groups[n - 1]);
    }
  }

  /** The printed sections of an included asset bridge the year: closing is opening plus what the year acquired minus
      what it took, the summary's net is what the listed liquidations realized, and the rows are the year's activities. */
  lemma DetailSectionBridgesTheYear(costBasisMethod: CostBasisMethod, selectedYear: int, group: AssetGroup)
    requires GroupResult(costBasisMethod, selectedYear, group).Success? && GroupInOrder(group, selectedYear)
    requires GroupResult(costBasisMethod, selectedYear, group).value.includeInMain
    ensures var result := GroupResult(costBasisMethod, selectedYear, group).value;
            var history, n := History(costBasisMethod, group), |group.inputs|;
            && result.detail.Some? && result.summary.Some?
            && result.summary.value.netGainOrLoss == Sum(NetsOf(result.detail.value.liquidations))
            && InputsOf(result.detail.value.rows) == InYear(history, n, selectedYear)
            && result.detail.value.closingQuantity
               == result.detail.value.openingQuantity + InYearBought(history, n, selectedYear) - InYearSold(history, n, selectedYear)
            && result.detail.value.closingBasis
               == result.detail.value.openingBasis + InYearCost(history, n, selectedYear)
                  - InYearAllocated(if result.audit.Some? then result.audit.value.entries else [], selectedYear)
  {
    hide ValidPosition, ReplayedGroup, GroupCurrency, Reports, ScopeFor;
    InitialIsEmpty(costBasisMethod);
    var start, history := Initial(costBasisMethod), History(costBasisMethod, group);
    YearlyNetIsRealizedGain(start, history, selectedYear);
    YearBridgeHolds(start, history, selectedYear);
  }

  // -------- the detail section --------

  ghost predicate SoundSoFar(position: Position, state: ReplayState) {
    && PositionBasis(position) >= 0.0
    && (state.openingCaptured ==> state.openingQuantity >= 0.0 && state.openingBasis >= 0.0)
  }

  lemma {:induction false} SoundAfter(start: Position, inputs: seq<ReplayInput>, i: nat, selectedYear: int)
    requires ValidPosition(start) && PositionBasis(start) >= 0.0 && i <= |inputs|
    requires forall k :: 0 <= k < i ==> inputs[k].year <= selectedYear
    requires ReplayedTo(start, inputs, i, selectedYear).Success?
    ensures var (position, state) := ReplayedTo(start, inputs, i, selectedYear).value;
            SoundSoFar(position, state)
  {
    hide ValidPosition, Step, PositionQuantity, PositionBasis;
    if i == 0 {
    } else {
      SoundAfter(start, inputs, i - 1, selectedYear);
      var (position, state) := ReplayedTo(start, inputs, i - 1, selectedYear).value;
      PositionIsNotNegative(position);
      StepHasEffect(position, inputs[i - 1], i, selectedYear);
    }
  }

  /** An asset whose activities were all accepted always gets its detail section: opening and closing positions are
      never negative. */
  lemma DetailSectionIsNeverRejected(costBasisMethod: CostBasisMethod, selectedYear: int, group: AssetGroup)
    requires forall i :: 0 <= i < |group.inputs| ==> group.inputs[i].year <= selectedYear
    requires GroupState(costBasisMethod, selectedYear, group).Success?
    ensures ValidPositions(GroupState(costBasisMethod, selectedYear, group).value)
    ensures GroupResult(costBasisMethod, selectedYear, group).Success? <==> GroupCurrency(group.inputs).Success?
  {
    hide ValidPosition, Step, PositionQuantity, PositionBasis, GroupCurrency, ReplayedTo;
    InitialIsEmpty(costBasisMethod);
    var start, history := Initial(costBasisMethod), History(costBasisMethod, group);
    SoundAfter(start, history, |history|, selectedYear);
    PositionIsNotNegative(ReplayedTo(start, history, |history|, selectedYear).value.0);
  }
}
