/** The calculation of a report from synced records: selection, currency boundary, replay. */
module ReportCalculation {
  import opened Outcomes
  import opened Sequences
  import opened Activities
  import opened BasisModel
  import opened Grouping
  import opened Rates
  import opened CurrencyBoundary
  import opened CurrencyConversion
  import opened YearReport

  datatype CalculatedReport = CalculatedReport(groups: seq<AssetGroup>, sections: Report, audits: seq<ConversionAudit>, rateSources: seq<Evidence>)

  predicate ValidReportRequest(selectedYear: int, base: string, availableYears: seq<int>) {
    selectedYear > 0 && SupportedBase(base) && selectedYear in availableYears
  }

  /** The groups of the records through the year, each row converted by a fresh lookup. */
  ghost function ConvertedGroups(providers: map<string, Provider>, configured: bool, base: string, selectedYear: int, records: seq<ActivityRecord>)
    : Result<Boundary>
  {
    var groups := GroupsOf(Kept(records, |records|, selectedYear));
    if !NoRefusal(records, |records|, selectedYear) then Failure(InvalidInput)
    else DirectGroups(providers, configured, base, groups, |groups|)
  }

  /** The report of the records: its groups and audit entries are the converted ones, its sections theirs. */
  ghost predicate Calculated(report: CalculatedReport, providers: map<string, Provider>, configured: bool, base: string,
                             costBasisMethod: CostBasisMethod, selectedYear: int, records: seq<ActivityRecord>) {
    && ConvertedGroups(providers, configured, base, selectedYear, records) == Success(Boundary(report.groups, report.audits))
    && ReportTo(costBasisMethod, selectedYear, report.groups, |report.groups|) == Success(report.sections)
    && Refines(Success(BoundaryResult(report.groups, report.audits, report.rateSources)), providers, configured, base,
               GroupsOf(Kept(records, |records|, selectedYear)))
  }

  /** Every stage of the calculation accepts the records. */
  ghost predicate Calculable(providers: map<string, Provider>, configured: bool, base: string,
                             costBasisMethod: CostBasisMethod, selectedYear: int, records: seq<ActivityRecord>) {
    var converted := ConvertedGroups(providers, configured, base, selectedYear, records);
    converted.Success? && ReportTo(costBasisMethod, selectedYear, converted.value.groups, |converted.value.groups|).Success?
  }

  method CalculateReport(service: CurrencyRateService?, base: string, costBasisMethod: CostBasisMethod, selectedYear: int,
                         availableYears: seq<int>, records: seq<ActivityRecord>) returns (r: Result<CalculatedReport>)
    requires service != null ==> service.Valid()
    modifies if service == null then {} else {service, service.cache}
    ensures service != null ==> service.Valid()
    ensures var providers := if service == null then map[] else service.providers;
            && (r.Success? <==> ValidReportRequest(selectedYear, base, availableYears)
                                && Calculable(providers, service != null, base, costBasisMethod, selectedYear, records))
            && (r.Success? ==> Calculated(r.value, providers, service != null, base, costBasisMethod, selectedYear, records))
  {
    hide DirectGroups, GroupsOf, Kept, NoRefusal, FirstUses, NeededByGroups, ReportTo, ResolvedDirectly;
    if !ValidReportRequest(selectedYear, base, availableYears) {
      return Failure(InvalidInput);
    }
    var groups := SelectAssetInputGroupsThroughYear(records, selectedYear);
    if groups.Failure? {
      return Failure(groups.error);
    }
    var boundary := ApplyReportCurrencyBoundary(service, base, groups.value);
    if boundary.Failure? {
      return Failure(boundary.error);
    }
    var sections := CalculateReportAssetGroups(costBasisMethod, selectedYear, boundary.value.groups);
    if sections.Failure? {
      return Failure(sections.error);
    }
    return Success(CalculatedReport(boundary.value.groups, sections.value, boundary.value.audits, boundary.value.rateSources));
  }
}
