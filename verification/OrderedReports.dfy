/** Reports over accepted histories: source days are in order, so no order has to be asked of the activities. */
module OrderedReports {
  import opened Outcomes
  import opened Calendar
  import opened Activities
  import opened HistoryValidation
  import opened BasisModel
  import opened AssetReplay
  import opened YearBridge
  import opened Grouping
  import opened YearReport
  import opened ReportTheorems
  import opened LotHistories
  import opened Rates
  import opened CurrencyBoundary
  import opened CurrencyConversion
  import opened RateTheorems
  import opened ReportCalculation

  // -------- order through selection, grouping and conversion --------

  /** Days never go back, and every year is that of its day. */
  ghost predicate DatedInOrder(inputs: seq<CalculationInput>) {
    && (forall i, j :: 0 <= i < j < |inputs| ==> inputs[i].date <= inputs[j].date)
    && (forall i :: 0 <= i < |inputs| ==> inputs[i].year == YearOf(inputs[i].date))
  }

  ghost predicate NoLaterThan(inputs: seq<CalculationInput>, day: int) {
    forall i :: 0 <= i < |inputs| ==> inputs[i].date <= day
  }

  lemma OneMoreDated(inputs: seq<CalculationInput>, last: CalculationInput)
    requires DatedInOrder(inputs) && NoLaterThan(inputs, last.date) && last.year == YearOf(last.date)
    ensures DatedInOrder(inputs + [last]) && NoLaterThan(inputs + [last], last.date)
  {
    hide YearOf;
  }

  lemma SelectedDate(record: ActivityRecord, selectedYear: int)
    requires Select(record, selectedYear).Take?
    ensures var input := Select(record, selectedYear).input;
            OccurredDay(record) == Some(input.date) && input.year == YearOf(input.date)
  {
    hide Text.TrimSpace, YearOf;
  }

  lemma {:induction false} KeptAreDated(records: seq<ActivityRecord>, n: nat, selectedYear: int)
    requires Accepted(records) && n <= |records|
    ensures DatedInOrder(Kept(records, n, selectedYear))
    ensures n > 0 ==> OccurredDay(records[n - 1]).Some? && NoLaterThan(Kept(records, n, selectedYear), OccurredDay(records[n - 1]).value)
  {
    hide Accepted, Select, YearOf, OccurredDay;
    if n == 0 {
    } else {
      var before := Kept(records, n - 1, selectedYear);
      KeptAreDated(records, n - 1, selectedYear);
      AcceptedHasDay(records, n - 1);
      if n > 1 {
        AcceptedDaysInOrder(records, n - 2, n - 1);
      }
      if Select(records[n - 1], selectedYear).Take? {
        SelectedDate(records[n - 1], selectedYear);
        OneMoreDated(before, Select(records[n - 1], selectedYear).input);
      } else {
        assert Kept(records, n, selectedYear) == before;
      }
    }
  }

  lemma AcceptedHasDay(records: seq<ActivityRecord>, i: nat)
    requires Accepted(records) && i < |records|
    ensures OccurredDay(records[i]).Some?
  {
    AcceptedStep(records, i);
  }

  lemma {:induction false} AssetIsDated(inputs: seq<CalculationInput>, key: string)
    requires DatedInOrder(inputs)
    ensures DatedInOrder(OfAsset(inputs, key))
  {
    hide YearOf;
    if inputs == [] {
    } else {
      var init, last := inputs[..|inputs| - 1], inputs[|inputs| - 1];
      AssetIsDated(init, key);
      OfAssetHasKey(init, key);
      forall i | 0 <= i < |OfAsset(init, key)|
        ensures OfAsset(init, key)[i].date <= last.date
      {
        assert OfAsset(init, key)[i] in init;
      }
      OneMoreDated(OfAsset(init, key), last);
    }
  }

  lemma ConvertedAreDated(inputs: seq<CalculationInput>, converted: seq<CalculationInput>, selectedYear: int)
    requires DatedInOrder(inputs) && SameActivities(inputs, converted)
    requires forall i :: 0 <= i < |inputs| ==> inputs[i].year <= selectedYear
    ensures DatedInOrder(converted)
    ensures forall i :: 0 <= i < |converted| ==> converted[i].year <= selectedYear
  {
    hide YearOf;
    forall i | 0 <= i < |converted|
      ensures converted[i].date == inputs[i].date && converted[i].year == inputs[i].year
    {
      assert SameActivity(inputs[i], converted[i]);
    }
  }

  /** The groups of an accepted history reach the replay with their days and years in order, after conversion too. */
  lemma CalculatedGroupsAreInOrder(report: CalculatedReport, providers: map<string, Provider>, configured: bool, base: string,
                                   costBasisMethod: CostBasisMethod, selectedYear: int, records: seq<ActivityRecord>, g: nat)
    requires Accepted(records) && Calculated(report, providers, configured, base, costBasisMethod, selectedYear, records)
    requires g < |report.groups|
    ensures DatedInOrder(report.groups[g].inputs) && GroupInOrder(report.groups[g], selectedYear)
  {
    hide Accepted, Kept, OfAsset, FirstSeen, FirstAt, TotalInputs, LabelOf, DirectGroups, ReportTo, Refines, YearOf, SameActivities;
    var kept := Kept(records, |records|, selectedYear);
    var groups := GroupsOf(kept);
    KeptAreDated(records, |records|, selectedYear);
    GroupsPartitionTheRecords(records, selectedYear);
    ConversionKeepsTheGroups(providers, configured, base, groups, |groups|);
    AssetIsDated(kept, groups[g].assetKey);
    ConvertedAreDated(groups[g].inputs, report.groups[g].inputs, selectedYear);
    DatedYearsInOrder(report.groups[g], selectedYear);
  }

  lemma DatedYearsInOrder(group: AssetGroup, selectedYear: int)
    requires DatedInOrder(group.inputs) && forall i :: 0 <= i < |group.inputs| ==> group.inputs[i].year <= selectedYear
    ensures GroupInOrder(group, selectedYear)
  {
    hide YearOf;
    forall i, j | 0 <= i < j < |group.inputs|
      ensures group.inputs[i].year <= group.inputs[j].year
    {
      YearIsMonotone(group.inputs[i].date, group.inputs[j].date);
    }
  }

  // -------- the report of an accepted history --------

  /** No realized gain is lost: the yearly total of a calculated report is the sum over all assets, shown or not, of what
      their in-year priced SELLs realized. */
  lemma AcceptedHistoriesLoseNoGain(report: CalculatedReport, providers: map<string, Provider>, configured: bool, base: string,
                                    costBasisMethod: CostBasisMethod, selectedYear: int, records: seq<ActivityRecord>)
    requires Accepted(records) && Calculated(report, providers, configured, base, costBasisMethod, selectedYear, records)
    ensures report.sections.yearlyNetTotal == RealizedGains(costBasisMethod, selectedYear, report.groups, |report.groups|)
  {
    hide Accepted, ConvertedGroups, ReportTo, Refines, RealizedGains, GroupInOrder;
    forall g | 0 <= g < |report.groups|
      ensures GroupInOrder(report.groups[g], selectedYear)
    {
      CalculatedGroupsAreInOrder(report, providers, configured, base, costBasisMethod, selectedYear, records, g);
    }
    NoGainIsLost(costBasisMethod, selectedYear, report.groups, |report.groups|);
  }

  lemma {:induction false} GroupsSucceed(costBasisMethod: CostBasisMethod, selectedYear: int, groups: seq<AssetGroup>, n: nat, g: nat)
    requires g < n <= |groups| && ReportTo(costBasisMethod, selectedYear, groups, n).Success?
    ensures GroupResult(costBasisMethod, selectedYear, groups[g]).Success?
    decreases n
  {
    hide GroupResult, WithResult;
    if g == n - 1 {
    } else {
      GroupsSucceed(costBasisMethod, selectedYear, groups, n - 1, g);
    }
  }

  /** Every asset of a calculated report bridges the year: closing is opening plus what the year acquired minus what it
      took, for quantity and exactly so for basis. */
  lemma AcceptedHistoriesBridgeTheYear(report: CalculatedReport, providers: map<string, Provider>, configured: bool, base: string,
                                       costBasisMethod: CostBasisMethod, selectedYear: int, records: seq<ActivityRecord>, g: nat)
    requires Accepted(records) && Calculated(report, providers, configured, base, costBasisMethod, selectedYear, records)
    requires g < |report.groups|
    ensures GroupState(costBasisMethod, selectedYear, report.groups[g]).Success?
    ensures var state := GroupState(costBasisMethod, selectedYear, report.groups[g]).value;
            var history, n := History(costBasisMethod, report.groups[g]), |report.groups[g].inputs|;
            && state.closingQuantity == state.openingQuantity + InYearBought(history, n, selectedYear) - InYearSold(history, n, selectedYear)
            && state.closingBasis == state.openingBasis + InYearCost(history, n, selectedYear) - InYearAllocated(state.audits, selectedYear)
            && (!IncludedInMain(state) ==> forall k :: 0 <= k < n ==> history[k].year != selectedYear)
  {
    hide Accepted, ConvertedGroups, ReportTo, Refines, ReplayedGroup, ValidPosition;
    var group := report.groups[g];
    CalculatedGroupsAreInOrder(report, providers, configured, base, costBasisMethod, selectedYear, records, g);
    GroupsSucceed(costBasisMethod, selectedYear, report.groups, |report.groups|, g);
    InitialIsEmpty(costBasisMethod);
    YearBridgeHolds(Initial(costBasisMethod), History(costBasisMethod, group), selectedYear);
    if !IncludedInMain(GroupState(costBasisMethod, selectedYear, group).value) {
      ExcludedAssetsHaveNoActivity(Initial(costBasisMethod), History(costBasisMethod, group), selectedYear);
    }
  }

  // -------- queues and stacks --------

  lemma HistoryIsInOrder(costBasisMethod: CostBasisMethod, group: AssetGroup)
    requires DatedInOrder(group.inputs)
    ensures DatesInOrder(History(costBasisMethod, group))
  {
    hide YearOf;
  }

  lemma ReplaySucceedsThroughout(costBasisMethod: CostBasisMethod, selectedYear: int, groups: seq<AssetGroup>, g: nat, i: nat)
    requires g < |groups| && i <= |groups[g].inputs| && ReportTo(costBasisMethod, selectedYear, groups, |groups|).Success?
    ensures ValidPosition(Initial(costBasisMethod)) && ReplayedTo(Initial(costBasisMethod), History(costBasisMethod, groups[g]), i, selectedYear).Success?
  {
    hide ValidPosition, ReportTo, ReplayedTo;
    InitialIsEmpty(costBasisMethod);
    var start, history := Initial(costBasisMethod), History(costBasisMethod, groups[g]);
    GroupsSucceed(costBasisMethod, selectedYear, groups, |groups|, g);
    if ReplayedTo(start, history, i, selectedYear).Failure? {
      FailureStays(start, history, i, |history|, selectedYear);
    }
  }

  lemma CalculatedSections(report: CalculatedReport, providers: map<string, Provider>, configured: bool, base: string,
                           costBasisMethod: CostBasisMethod, selectedYear: int, records: seq<ActivityRecord>)
    requires Calculated(report, providers, configured, base, costBasisMethod, selectedYear, records)
    ensures ReportTo(costBasisMethod, selectedYear, report.groups, |report.groups|).Success?
  {
    hide ConvertedGroups, ReportTo, Refines;
  }

  /** In the report of an accepted history every asset is a queue under first-in-first-out, a stack under last-in-first-out,
      and sold costliest first and oldest first among equals under highest cost, after any number of its activities. */
  lemma AcceptedHistoriesAreQueuesAndStacks(report: CalculatedReport, providers: map<string, Provider>, configured: bool, base: string,
                                            costBasisMethod: CostBasisMethod, selectedYear: int, records: seq<ActivityRecord>, g: nat, i: nat)
    requires Accepted(records) && Calculated(report, providers, configured, base, costBasisMethod, selectedYear, records)
    requires g < |report.groups| && i <= |report.groups[g].inputs|
    ensures costBasisMethod == Fifo ==> QueueAfter(History(Fifo, report.groups[g]), i, selectedYear)
    ensures costBasisMethod == Lifo ==> StackAfter(History(Lifo, report.groups[g]), i, selectedYear)
    ensures costBasisMethod == Hifo ==> CostliestAfter(History(Hifo, report.groups[g]), i, selectedYear)
  {
    hide Accepted, Calculated, ReplayedTo, YearOf, ReportTo, QueueAfter, StackAfter, CostliestAfter, ValidPosition;
    var group := report.groups[g];
    var history := History(costBasisMethod, group);
    CalculatedGroupsAreInOrder(report, providers, configured, base, costBasisMethod, selectedYear, records, g);
    HistoryIsInOrder(costBasisMethod, group);
    CalculatedSections(report, providers, configured, base, costBasisMethod, selectedYear, records);
    ReplaySucceedsThroughout(costBasisMethod, selectedYear, report.groups, g, i);
    if i < |history| {
      ReplaySucceedsThroughout(costBasisMethod, selectedYear, report.groups, g, i + 1);
    }
    if costBasisMethod == Fifo {
      DatedHistoryIsAQueue(history, i, selectedYear);
    } else if costBasisMethod == Lifo {
      DatedHistoryIsAStack(history, i, selectedYear);
    } else if costBasisMethod == Hifo {
      DatedHistoryTakesTheCostliest(history, i, selectedYear);
    }
  }
}
