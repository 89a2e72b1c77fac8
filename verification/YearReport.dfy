/** Turns replayed assets into report sections and the yearly total. */
module YearReport {
  import opened Outcomes
  import opened Activities
  import opened BasisModel
  import opened BasisAdapters
  import opened AssetReplay
  import opened AssetReplayer
  import opened Scoping
  import opened Grouping
  import Text

  datatype SummaryEntry = SummaryEntry(assetKey: string, displayLabel: string, netGainOrLoss: real, currency: string)

  datatype ReferenceEntry = ReferenceEntry(assetKey: string, displayLabel: string, fullLiquidations: nat, inMainSections: bool)

  datatype DetailSection = DetailSection(
    assetKey: string,
    openingQuantity: real,
    openingBasis: real,
    closingQuantity: real,
    closingBasis: real,
    rows: seq<ActivityRow>,
    liquidations: seq<Liquidation>)

  datatype AuditSection = AuditSection(assetKey: string, entries: seq<AuditEntry>)

  /** One asset's contributions; summary and detail exist when it is included in the main sections. */
  datatype AssetResult = AssetResult(
    includeInMain: bool,
    yearlyNet: real,
    summary: Option<SummaryEntry>,
    detail: Option<DetailSection>,
    reference: Option<ReferenceEntry>,
    audit: Option<AuditSection>)

  const NOT_APPLICABLE := "NOT APPLICABLE"

  // -------- one asset --------

  function ReplayInputOf(s: ScopedInput): ReplayInput {
    var input := s.input;
    ReplayInput(input.sourceId, input.date, input.year, input.activityType, input.quantity, input.grossValue, input.feeAmount,
                input.zeroPricedReduction, s.scope.scopeKey)
  }

  /** The history of one asset as it is replayed under a method. */
  ghost function History(costBasisMethod: CostBasisMethod, group: AssetGroup): (history: seq<ReplayInput>)
    ensures |history| == |group.inputs|
    ensures forall i :: 0 <= i < |group.inputs| ==>
              history[i] == ReplayInputOf(ScopedInput(group.inputs[i], ScopeFor(costBasisMethod, group.assetKey, group.inputs, i)))
  {
    seq(|group.inputs|, i requires 0 <= i < |group.inputs| =>
      ReplayInputOf(ScopedInput(group.inputs[i], ScopeFor(costBasisMethod, group.assetKey, group.inputs, i))))
  }

  function InputCurrency(input: CalculationInput): string {
    var currency := Text.TrimSpace(input.currency);
    if currency == "" then NOT_APPLICABLE else currency
  }

  ghost predicate Carries(inputs: seq<CalculationInput>, c: string) {
    exists i :: 0 <= i < |inputs| && InputCurrency(inputs[i]) == c
  }

  /** c is the currency of every input that has one. */
  ghost predicate CommonCurrency(inputs: seq<CalculationInput>, c: string) {
    && (forall i :: 0 <= i < |inputs| ==> InputCurrency(inputs[i]) == c || InputCurrency(inputs[i]) == NOT_APPLICABLE)
    && (c == NOT_APPLICABLE || Carries(inputs, c))
  }

  lemma CarriesAppend(inputs: seq<CalculationInput>, input: CalculationInput, c: string)
    ensures Carries(inputs + [input], c) <==> Carries(inputs, c) || InputCurrency(input) == c
  {
    hide InputCurrency;
    var more := inputs + [input];
    if Carries(inputs, c) {
      var i :| 0 <= i < |inputs| && InputCurrency(inputs[i]) == c;
      assert more[i] == inputs[i];
    }
    if InputCurrency(input) == c {
      assert more[|inputs|] == input;
    }
  }

  ghost predicate MixedCurrencies(inputs: seq<CalculationInput>) {
    exists i, j :: 0 <= i < |inputs| && 0 <= j < |inputs| && InputCurrency(inputs[i]) != InputCurrency(inputs[j])
                   && InputCurrency(inputs[i]) != NOT_APPLICABLE && InputCurrency(inputs[j]) != NOT_APPLICABLE
  }

  ghost function GroupCurrency(inputs: seq<CalculationInput>): Result<string> {
    if MixedCurrencies(inputs) then Failure(InvalidInput)
    else if exists c :: c != NOT_APPLICABLE && CommonCurrency(inputs, c) then
      var c :| c != NOT_APPLICABLE && CommonCurrency(inputs, c); Success(c)
    else Success(NOT_APPLICABLE)
  }

  method GroupCalculationCurrency(inputs: seq<CalculationInput>) returns (r: Result<string>)
    ensures r == GroupCurrency(inputs)
  {
    hide InputCurrency;
    var selected := NOT_APPLICABLE;
    for i := 0 to |inputs|
      invariant CommonCurrency(inputs[..i], selected)
    {
      assert inputs[..i + 1] == inputs[..i] + [inputs[i]];
      var currency := InputCurrency(inputs[i]);
      CarriesAppend(inputs[..i], inputs[i], selected);
      CarriesAppend(inputs[..i], inputs[i], currency);
      if currency != NOT_APPLICABLE {
        if selected == NOT_APPLICABLE {
          selected := currency;
        } else if selected != currency {
          ghost var j :| 0 <= j < i && InputCurrency(inputs[..i][j]) == selected;
          assert InputCurrency(inputs[j]) == selected;
          return Failure(InvalidInput);
        }
      }
    }
    assert inputs[..|inputs|] == inputs;
    return Success(selected);
  }

  /** The numeric checks of a detail section. */
  predicate ValidPositions(state: ReplayState) {
    state.openingQuantity >= 0.0 && state.openingBasis >= 0.0 && state.closingQuantity >= 0.0 && state.closingBasis >= 0.0
  }

  /** An asset is shown when it is still held at the end or was fully liquidated in the year. */
  predicate IncludedInMain(state: ReplayState) {
    state.closingQuantity > 0.0 || state.hadInYearFullLiquidation
  }

  function AssetResultOf(group: AssetGroup, currency: string, state: ReplayState): Result<AssetResult> {
    var included := IncludedInMain(state);
    var audit := if |state.audits| > 0 then Some(AuditSection(group.assetKey, state.audits)) else None;
    var reference :=
      if state.fullLiquidations > 0 then Some(ReferenceEntry(group.assetKey, group.displayLabel, state.fullLiquidations, included)) else None;
    if !included then Success(AssetResult(false, state.yearlyNet, None, None, reference, audit))
    else if !ValidPositions(state) then Failure(RejectedByValidator)
    else
      Success(AssetResult(true, state.yearlyNet,
                          Some(SummaryEntry(group.assetKey, group.displayLabel, state.yearlyNet, currency)),
                          Some(DetailSection(group.assetKey, state.openingQuantity, state.openingBasis, state.closingQuantity,
                                             state.closingBasis, state.rows, state.liquidations)),
                          reference, audit))
  }

  ghost function GroupState(costBasisMethod: CostBasisMethod, selectedYear: int, group: AssetGroup): Result<ReplayState> {
    InitialIsEmpty(costBasisMethod);
    ReplayedGroup(Initial(costBasisMethod), History(costBasisMethod, group), selectedYear)
  }

  ghost function GroupResult(costBasisMethod: CostBasisMethod, selectedYear: int, group: AssetGroup): Result<AssetResult> {
    match GroupState(costBasisMethod, selectedYear, group)
    case Failure(e) => Failure(e)
    case Success(state) =>
      match GroupCurrency(group.inputs)
      case Failure(e) => Failure(e)
      case Success(currency) => AssetResultOf(group, currency, state)
  }

  method CalculateAssetGroup(costBasisMethod: CostBasisMethod, selectedYear: int, group: AssetGroup) returns (r: Result<AssetResult>)
    ensures r == GroupResult(costBasisMethod, selectedYear, group)
  {
    hide ReplayedGroup, GroupCurrency, ScopeFor, AssetResultOf, AssetBasisState.Valid, AssetBasisState.Recorded;
    var basisState := NewAssetBasisState(costBasisMethod);
    var scoped := ResolveScopedAssetInputs(costBasisMethod, group.assetKey, group.inputs);
    var inputs := ReplayInputs(scoped.value);
    assert inputs == History(costBasisMethod, group);
    var state := ReplayAssetGroup(basisState, inputs, selectedYear);
    if state.Failure? {
      return Failure(state.error);
    }
    var currency := GroupCalculationCurrency(group.inputs);
    if currency.Failure? {
      return Failure(currency.error);
    }
    r := AssetResultOf(group, currency.value, state.value);
  }

  function ReplayInputs(scoped: seq<ScopedInput>): (s: seq<ReplayInput>)
    ensures |s| == |scoped| && forall i :: 0 <= i < |scoped| ==> s[i] == ReplayInputOf(scoped[i])
  {
    seq(|scoped|, i requires 0 <= i < |scoped| => ReplayInputOf(scoped[i]))
  }

  // -------- the report --------

  datatype Report = Report(
    summaries: seq<SummaryEntry>,
    references: seq<ReferenceEntry>,
    details: seq<DetailSection>,
    audits: seq<AuditSection>,
    yearlyNetTotal: real)

  const NOTHING_REPORTED := Report([], [], [], [], 0.0)

  function WithResult(report: Report, result: AssetResult): Report {
    var listed := report.(references := Listed(report.references, result.reference), audits := Listed(report.audits, result.audit));
    if !result.includeInMain then listed
    else
      listed.(summaries := Listed(listed.summaries, result.summary),
              details := Listed(listed.details, result.detail),
              yearlyNetTotal := listed.yearlyNetTotal + result.yearlyNet)
  }

  class ReportAggregation {
    var summaryEntries: seq<SummaryEntry>
    var referenceEntries: seq<ReferenceEntry>
    var detailSections: seq<DetailSection>
    var auditSections: seq<AuditSection>
    var yearlyNetTotal: real

    constructor ()
      ensures Contents() == NOTHING_REPORTED
    {
      summaryEntries, referenceEntries, detailSections, auditSections, yearlyNetTotal := [], [], [], [], 0.0;
    }

    function Contents(): Report
      reads this
    {
      Report(summaryEntries, referenceEntries, detailSections, auditSections, yearlyNetTotal)
    }

    method AddAssetResult(result: AssetResult)
      modifies this
      ensures Contents() == WithResult(old(Contents()), result)
    {
      if result.reference.Some? {
        referenceEntries := referenceEntries + [result.reference.value];
      }
      if result.audit.Some? {
        auditSections := auditSections + [result.audit.value];
      }
      if !result.includeInMain {
        return;
      }
      summaryEntries := Listed(summaryEntries, result.summary);
      detailSections := Listed(detailSections, result.detail);
      yearlyNetTotal := yearlyNetTotal + result.yearlyNet;
    }
  }

  /** The report of the first n groups. */
  ghost function ReportTo(costBasisMethod: CostBasisMethod, selectedYear: int, groups: seq<AssetGroup>, n: nat): Result<Report>
    requires n <= |groups|
  {
    if n == 0 then Success(NOTHING_REPORTED)
    else
      match ReportTo(costBasisMethod, selectedYear, groups, n - 1)
      case Failure(e) => Failure(e)
      case Success(report) =>
        match GroupResult(costBasisMethod, selectedYear, groups[n - 1])
        case Failure(e) => Failure(e)
        case Success(result) => Success(WithResult(report, result))
  }

  lemma {:induction false} ReportFailureStays(costBasisMethod: CostBasisMethod, selectedYear: int, groups: seq<AssetGroup>, i: nat, j: nat)
    requires i <= j <= |groups| && ReportTo(costBasisMethod, selectedYear, groups, i).Failure?
    ensures ReportTo(costBasisMethod, selectedYear, groups, j) == ReportTo(costBasisMethod, selectedYear, groups, i)
    decreases j - i
  {
    hide GroupResult, WithResult;
    if i == j {
    } else {
      ReportFailureStays(costBasisMethod, selectedYear, groups, i, j - 1);
    }
  }

  method CalculateReportAssetGroups(costBasisMethod: CostBasisMethod, selectedYear: int, groups: seq<AssetGroup>) returns (r: Result<Report>)
    ensures r == ReportTo(costBasisMethod, selectedYear, groups, |groups|)
  {
    hide GroupResult, WithResult;
    var aggregation := new ReportAggregation();
    for i := 0 to |groups|
      invariant ReportTo(costBasisMethod, selectedYear, groups, i) == Success(aggregation.Contents())
    {
      var result := CalculateAssetGroup(costBasisMethod, selectedYear, groups[i]);
      if result.Failure? {
        ReportFailureStays(costBasisMethod, selectedYear, groups, i + 1, |groups|);
        return Failure(result.error);
      }
      aggregation.AddAssetResult(result.value);
    }
    return Success(aggregation.Contents());
  }
}
