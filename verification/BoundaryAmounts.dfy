/** What the currency boundary makes of each row: its amounts as they were, or each at the rate for its own currency and day. */
module BoundaryAmounts {
  import opened Outcomes
  import opened Activities
  import opened Decimals
  import opened Grouping
  import opened Rates
  import opened CurrencyBoundary
  import opened CurrencyConversion
  import opened RateTheorems
  import opened BasisModel
  import opened YearReport
  import opened ReportCalculation
  import Text

  // -------- one row --------

  /** Absent, or multiplied by a rate quoted as base per source, or divided by one quoted as source per base and rounded. */
  ghost predicate Exchanged(amount: Option<real>, reported: Option<real>, evidence: Evidence) {
    && (amount.Some? <==> reported.Some?) && evidence.rate > 0.0
    && (amount.Some? && evidence.quote == BasePerSource ==> reported.value == amount.value * evidence.rate)
    && (amount.Some? && evidence.quote == SourcePerBase ==> reported.value == RoundHalfUp(amount.value / evidence.rate) as real)
    && evidence.quote in {BasePerSource, SourcePerBase}
  }

  /** The row is in another currency than the report, and not zero-priced. */
  predicate Foreign(input: CalculationInput, base: string) {
    !input.zeroPricedReduction && Text.TrimSpace(input.currency) != base
  }

  /** What the base's provider says about the row's currency on its day. */
  ghost predicate RateOf(providers: map<string, Provider>, base: string, input: CalculationInput, evidence: Evidence) {
    && base in providers
    && providers[base](RateRequest(Text.TrimSpace(input.currency), base, input.date)) == Success(evidence)
    && evidence.source == Text.TrimSpace(input.currency) && evidence.base == base
    && evidence.activityDate == input.date && evidence.rateDate <= input.date
    && ((base == "EUR" && evidence.authority == EuropeanCentralBank) || (base == "USD" && evidence.authority == FederalReserve))
  }

  /** A zero-priced row takes the base as its currency, one in the base currency says so; both keep their amounts. */
  ghost predicate KeptRow(base: string, input: CalculationInput, reported: CalculationInput) {
    reported == if input.zeroPricedReduction then input.(currency := base)
                else input.(activityCurrency := base, conversionStatus := Some(SameCurrency))
  }

  /** A foreign row has every amount exchanged, is in the base currency and says where it came from. */
  ghost predicate ExchangedRow(base: string, input: CalculationInput, reported: CalculationInput, evidence: Evidence) {
    && reported == input.(unitPrice := reported.unitPrice, grossValue := reported.grossValue, feeAmount := reported.feeAmount,
                          currency := base, activityCurrency := Text.TrimSpace(input.currency), conversionStatus := Some(Converted))
    && Exchanged(input.unitPrice, reported.unitPrice, evidence)
    && Exchanged(input.grossValue, reported.grossValue, evidence)
    && Exchanged(input.feeAmount, reported.feeAmount, evidence)
  }

  ghost predicate ReportedRow(providers: map<string, Provider>, base: string, input: CalculationInput, reported: CalculationInput) {
    if Foreign(input, base) then
      exists evidence :: RateOf(providers, base, input, evidence) && ExchangedRow(base, input, reported, evidence)
    else KeptRow(base, input, reported)
  }

  function Pair(kind: AmountKind, original: Option<real>, reported: Option<real>): seq<ConvertedAmount> {
    if original.Some? && reported.Some? then [ConvertedAmount(kind, original.value, reported.value)] else []
  }

  /** The audit entry of a foreign row names it and its rate, and pairs each original amount with the reported one. */
  ghost predicate ShowsRow(providers: map<string, Provider>, base: string, row: (CalculationInput, CalculationInput), audit: ConversionAudit) {
    var (input, reported) := row;
    && audit.sourceId == input.sourceId && audit.activityDate == input.date
    && audit.sourceCurrency == Text.TrimSpace(input.currency) && audit.baseCurrency == base
    && audit.amounts == Pair(UnitPrice, input.unitPrice, reported.unitPrice) + Pair(GrossValue, input.grossValue, reported.grossValue)
                        + Pair(FeeAmount, input.feeAmount, reported.feeAmount)
    && exists evidence :: RateOf(providers, base, input, evidence)
                          && audit.rate == evidence.rate && audit.quote == evidence.quote && audit.rateDate == evidence.rateDate
                          && audit.authority == evidence.authority && audit.rateKind == evidence.rateKind
  }

  lemma ExactlyIsExchanged(amount: Option<real>, evidence: Evidence)
    requires evidence.rate > 0.0 && evidence.quote != UnknownDirection
    ensures Exchanged(amount, ExactlyOptional(amount, evidence), evidence)
  {
    hide RoundHalfUp;
  }

  lemma RecordedIsPaired(kind: AmountKind, amount: Option<real>, evidence: Evidence)
    ensures Recorded(kind, amount, evidence) == Pair(kind, amount, ExactlyOptional(amount, evidence))
  {
    hide Exactly;
  }

  lemma ResolvedIsTheProviders(providers: map<string, Provider>, configured: bool, request: RateRequest)
    requires ResolvedDirectly(providers, configured, request).Success?
    ensures var evidence := ResolvedDirectly(providers, configured, request).value;
            && request.base in providers && providers[request.base](request) == Success(evidence)
            && ValidEvidence(evidence) && MatchesRequest(evidence, request)
  {
    hide Text.TrimSpace, ReportEvidence, ValidEvidence;
    ServiceEvidenceIsReportable(FreshRate(providers, request).value);
  }

  lemma ForeignRowIsReported(providers: map<string, Provider>, configured: bool, base: string, group: AssetGroup, input: CalculationInput)
    requires DirectRow(providers, configured, base, group, input).Success? && Foreign(input, base)
    ensures var (reported, audit) := DirectRow(providers, configured, base, group, input).value;
            && ReportedRow(providers, base, input, reported)
            && audit.Some? && ShowsRow(providers, base, (input, reported), audit.value)
            && (Text.TrimSpace(group.displayLabel) != "" ==> audit.value.assetLabel == Text.TrimSpace(group.displayLabel))
            && (Text.TrimSpace(group.displayLabel) == "" && Text.TrimSpace(input.displayLabel) != "" ==>
                  audit.value.assetLabel == Text.TrimSpace(input.displayLabel))
  {
    hide Text.TrimSpace, ResolvedDirectly, ExactlyOptional, Recorded, Pair, Exchanged, ConvertInput, ValidCode;
    var request := RequestOf(input, base).value;
    var evidence := ResolvedDirectly(providers, configured, request).value;
    ResolvedIsTheProviders(providers, configured, request);
    ConvertedRowsChangeOnlyTheirAmounts(group, input, base, evidence);
    ExactlyIsExchanged(input.unitPrice, evidence);
    ExactlyIsExchanged(input.grossValue, evidence);
    ExactlyIsExchanged(input.feeAmount, evidence);
    RecordedIsPaired(UnitPrice, input.unitPrice, evidence);
    RecordedIsPaired(GrossValue, input.grossValue, evidence);
    RecordedIsPaired(FeeAmount, input.feeAmount, evidence);
    assert RateOf(providers, base, input, evidence);
  }

  /** A row that is zero-priced or in the base currency always passes, with its amounts untouched and no audit entry. */
  lemma KeptRowsKeepTheirAmounts(providers: map<string, Provider>, configured: bool, base: string, group: AssetGroup, input: CalculationInput)
    requires !Foreign(input, base)
    ensures DirectRow(providers, configured, base, group, input).Success?
    ensures var (reported, audit) := DirectRow(providers, configured, base, group, input).value;
            KeptRow(base, input, reported) && audit == None
  {
    hide Text.TrimSpace;
  }

  // -------- all rows --------

  ghost predicate ReportedRows(providers: map<string, Provider>, base: string, inputs: seq<CalculationInput>, reported: seq<CalculationInput>) {
    |reported| == |inputs| && forall i :: 0 <= i < |inputs| ==> ReportedRow(providers, base, inputs[i], reported[i])
  }

  /** The foreign rows, each with what is reported of it, in order. */
  ghost function ForeignRows(inputs: seq<CalculationInput>, reported: seq<CalculationInput>, base: string): seq<(CalculationInput, CalculationInput)>
    requires |reported| == |inputs|
  {
    if inputs == [] then []
    else
      var n := |inputs| - 1;
      ForeignRows(inputs[..n], reported[..n], base) + if Foreign(inputs[n], base) then [(inputs[n], reported[n])] else []
  }

  ghost predicate ShowRows(providers: map<string, Provider>, base: string, rows: seq<(CalculationInput, CalculationInput)>,
                           audits: seq<ConversionAudit>) {
    |audits| == |rows| && forall k :: 0 <= k < |rows| ==> ShowsRow(providers, base, rows[k], audits[k])
  }

  lemma OneMoreForeign(inputs: seq<CalculationInput>, reported: seq<CalculationInput>, base: string, input: CalculationInput, row: CalculationInput)
    requires |reported| == |inputs|
    ensures ForeignRows(inputs + [input], reported + [row], base)
            == ForeignRows(inputs, reported, base) + if Foreign(input, base) then [(input, row)] else []
  {
    hide Foreign;
    assert (inputs + [input])[..|inputs|] == inputs && (reported + [row])[..|reported|] == reported;
  }

  lemma {:induction false} InputsAreReported(providers: map<string, Provider>, configured: bool, base: string, group: AssetGroup, n: nat,
                                             audits: seq<ConversionAudit>, earlier: seq<(CalculationInput, CalculationInput)>)
    requires n <= |group.inputs| && DirectInputs(providers, configured, base, group, n, audits).Success?
    requires ShowRows(providers, base, earlier, audits)
    ensures var (reported, all) := DirectInputs(providers, configured, base, group, n, audits).value;
            && ReportedRows(providers, base, group.inputs[..n], reported)
            && ShowRows(providers, base, earlier + ForeignRows(group.inputs[..n], reported, base), all)
  {
    hide DirectRow, ReportedRow, ShowsRow, Foreign, KeptRow;
    if n == 0 {
      assert earlier + [] == earlier;
    } else {
      InputsAreReported(providers, configured, base, group, n - 1, audits, earlier);
      var input := group.inputs[n - 1];
      var (reported, sofar) := DirectInputs(providers, configured, base, group, n - 1, audits).value;
      var (row, audit) := DirectRow(providers, configured, base, group, input).value;
      assert group.inputs[..n] == group.inputs[..n - 1] + [input];
      OneMoreForeign(group.inputs[..n - 1], reported, base, input, row);
      RowIsReported(providers, configured, base, group, input);
      var rows := earlier + ForeignRows(group.inputs[..n - 1], reported, base);
      assert earlier + ForeignRows(group.inputs[..n], reported + [row], base) == rows + if Foreign(input, base) then [(input, row)] else [];
    }
  }

  lemma RowIsReported(providers: map<string, Provider>, configured: bool, base: string, group: AssetGroup, input: CalculationInput)
    requires DirectRow(providers, configured, base, group, input).Success?
    ensures var (reported, audit) := DirectRow(providers, configured, base, group, input).value;
            && ReportedRow(providers, base, input, reported)
            && (audit.Some? <==> Foreign(input, base))
            && (audit.Some? ==> ShowsRow(providers, base, (input, reported), audit.value))
  {
    hide DirectRow, Foreign, KeptRow, ShowsRow, RateOf, ExchangedRow;
    if Foreign(input, base) {
      ForeignRowIsReported(providers, configured, base, group, input);
    } else {
      KeptRowsKeepTheirAmounts(providers, configured, base, group, input);
    }
  }

  /** The foreign rows of all groups. */
  ghost function AllForeignRows(groups: seq<AssetGroup>, reported: seq<AssetGroup>, n: nat, base: string): seq<(CalculationInput, CalculationInput)>
    requires n <= |groups| && n <= |reported| && forall g :: 0 <= g < n ==> |reported[g].inputs| == |groups[g].inputs|
  {
    if n == 0 then []
    else AllForeignRows(groups, reported, n - 1, base) + ForeignRows(groups[n - 1].inputs, reported[n - 1].inputs, base)
  }

  /** What the boundary reports of the first n groups. */
  ghost predicate ReportedGroups(providers: map<string, Provider>, base: string, groups: seq<AssetGroup>, n: nat, boundary: Boundary)
    requires n <= |groups|
  {
    && |boundary.groups| == n
    && (forall g :: 0 <= g < n ==> ReportedRows(providers, base, groups[g].inputs, boundary.groups[g].inputs))
    && ShowRows(providers, base, AllForeignRows(groups, boundary.groups, n, base), boundary.audits)
  }

  lemma {:induction false} MoreReported(groups: seq<AssetGroup>, reported: seq<AssetGroup>, added: AssetGroup, n: nat, base: string)
    requires n <= |groups| && n <= |reported| && forall g :: 0 <= g < n ==> |reported[g].inputs| == |groups[g].inputs|
    ensures AllForeignRows(groups, reported + [added], n, base) == AllForeignRows(groups, reported, n, base)
  {
    if n == 0 {
    } else {
      MoreReported(groups, reported, added, n - 1, base);
    }
  }

  /** Every row of every group is reported with its own amounts or exchanged at its own rate, and the audit entries are those
      of the foreign rows, one each and in order. */
  lemma {:induction false} GroupsAreReported(providers: map<string, Provider>, configured: bool, base: string, groups: seq<AssetGroup>, n: nat)
    requires n <= |groups| && DirectGroups(providers, configured, base, groups, n).Success?
    ensures ReportedGroups(providers, base, groups, n, DirectGroups(providers, configured, base, groups, n).value)
  {
    hide DirectInputs, ReportedRow, ShowsRow, ForeignRows;
    if n == 0 {
    } else {
      GroupsAreReported(providers, configured, base, groups, n - 1);
      var boundary, group := DirectGroups(providers, configured, base, groups, n - 1).value, groups[n - 1];
      var earlier := AllForeignRows(groups, boundary.groups, n - 1, base);
      InputsAreReported(providers, configured, base, group, |group.inputs|, boundary.audits, earlier);
      assert group.inputs[..|group.inputs|] == group.inputs;
      var (inputs, audits) := DirectInputs(providers, configured, base, group, |group.inputs|, boundary.audits).value;
      MoreReported(groups, boundary.groups, group.(inputs := inputs), n - 1, base);
    }
  }

  /** Every activity of a calculated report has the amounts of its record, or each of them exchanged at what the provider says
      of its own currency and day; the conversion audit lists exactly the exchanged ones. */
  lemma CalculatedAmountsAreTheirOwn(report: CalculatedReport, providers: map<string, Provider>, configured: bool, base: string,
                                     costBasisMethod: CostBasisMethod, selectedYear: int, records: seq<ActivityRecord>)
    requires Calculated(report, providers, configured, base, costBasisMethod, selectedYear, records)
    ensures var groups := GroupsOf(Kept(records, |records|, selectedYear));
            ReportedGroups(providers, base, groups, |groups|, Boundary(report.groups, report.audits))
  {
    hide Kept, GroupOf, ReportTo, Refines, DirectGroups, ReportedGroups;
    var groups := GroupsOf(Kept(records, |records|, selectedYear));
    GroupsAreReported(providers, configured, base, groups, |groups|);
  }
}
