/** The currency boundary of one report: remembers resolved keys, and agrees with a fresh lookup for every row. */
module CurrencyConversion {
  import opened Outcomes
  import opened Sequences
  import opened Activities
  import opened Grouping
  import opened Rates
  import opened CurrencyBoundary
  import Text

  lemma CodesAreTrimmed(code: string)
    requires ValidCode(code)
    ensures Text.TrimSpace(code) == code
  {
    Text.TrimSpaceTrims(code);
  }

  /** Evidence the service accepts is always fit for the report, unchanged. */
  lemma ServiceEvidenceIsReportable(evidence: Evidence)
    requires ValidEvidence(evidence)
    ensures ReportEvidence(evidence) == Success(evidence)
  {
    hide Text.TrimSpace;
    CodesAreTrimmed(evidence.source);
    CodesAreTrimmed(evidence.base);
  }

  class ReportCurrencyBoundary {
    const service: CurrencyRateService?
    const base: string
    var resolvedEvidence: map<RateRequest, Evidence>
    var orderedKeys: seq<RateRequest>
    /** The requests the rows so far have needed, the lookups this report made, and those made before it. */
    ghost var used: seq<RateRequest>
    ghost var looked: seq<RateRequest>
    ghost var before: seq<RateRequest>

    ghost function Footprint(): set<object>
      reads this
    {
      if service == null then {this} else {this, service, service.cache}
    }

    ghost function Providers(): map<string, Provider>
      reads this
    {
      if service == null then map[] else service.providers
    }

    /** No key has been looked up twice by this report. */
    ghost predicate LookedUpOnce()
      reads Footprint()
    {
      Distinct(looked) && (service != null ==> service.Valid() && service.lookups == before + looked)
    }

    ghost predicate Valid()
      reads Footprint()
    {
      && LookedUpOnce()
      && looked == orderedKeys == FirstUses(used)
      && (forall key :: key in resolvedEvidence <==> key in orderedKeys)
      && (forall key :: key in resolvedEvidence ==>
            ResolvedDirectly(Providers(), service != null, key) == Success(resolvedEvidence[key]))
    }

    constructor (service: CurrencyRateService?, base: string)
      requires service != null ==> service.Valid()
      ensures Valid() && this.service == service && this.base == base && used == []
      ensures service != null ==> before == service.lookups
    {
      this.service := service;
      this.base := base;
      resolvedEvidence := map[];
      orderedKeys, used, looked := [], [], [];
      before := if service == null then [] else service.lookups;
    }

    /** The evidence for a request: remembered, or looked up and remembered. */
    method ResolveCrossCurrencyBoundary(request: RateRequest) returns (r: Result<Evidence>)
      requires Valid()
      modifies Footprint()
      ensures r == ResolvedDirectly(Providers(), service != null, request)
      ensures before == old(before) && LookedUpOnce()
      ensures r.Success? ==> Valid() && used == old(used) + [request]
    {
      hide FirstUses, ReportEvidence, ValidRequest, FreshRate, Distinct, CurrencyRateService.Valid;
      FirstUsesStep(used, request);
      FirstUsesAreDistinct(used);
      if !ValidRequest(request) {
        return Failure(InvalidInput);
      }
      if request in resolvedEvidence {
        used := used + [request];
        return Success(resolvedEvidence[request]);
      }
      if service == null {
        return Failure(RateUnavailable);
      }
      DistinctAppend(looked, request);
      var evidence := service.LookupRate(request);
      looked := looked + [request];
      if evidence.Failure? {
        return evidence;
      }
      r := ReportEvidence(evidence.value);
      if r.Failure? {
        return;
      }
      resolvedEvidence := resolvedEvidence[request := r.value];
      orderedKeys := orderedKeys + [request];
      used := used + [request];
    }

    /** Bypasses zero-priced and same-currency rows, converts the others. */
    method ApplyInputReportCurrencyBoundary(group: AssetGroup, input: CalculationInput) returns (r: Result<(CalculationInput, Option<ConversionAudit>)>)
      requires Valid()
      modifies Footprint()
      ensures r == DirectRow(Providers(), service != null, base, group, input)
      ensures before == old(before) && LookedUpOnce()
      ensures r.Success? ==>
                && Valid()
                && used == old(used) + if RequestOf(input, base).Some? then [RequestOf(input, base).value] else []
    {
      hide FirstUses, ConvertInput, AuditEntryOf, Text.TrimSpace, ResolvedDirectly;
      if input.zeroPricedReduction {
        return Success((input.(currency := base), None));
      }
      var source := Text.TrimSpace(input.currency);
      if source == base {
        return Success((input.(conversionStatus := Some(SameCurrency), activityCurrency := source), None));
      }
      var evidence := ResolveCrossCurrencyBoundary(RateRequest(source, base, input.date));
      if evidence.Failure? {
        return Failure(evidence.error);
      }
      var converted := ConvertInput(input, base, evidence.value);
      if converted.Failure? {
        return Failure(converted.error);
      }
      var audit := AuditEntryOf(group, converted.value.0, evidence.value, converted.value.1);
      if audit.Failure? {
        return Failure(audit.error);
      }
      return Success((converted.value.0, Some(audit.value)));
    }

    /** Converts the rows of one group in order. */
    method ApplyGroup(group: AssetGroup, audits: seq<ConversionAudit>) returns (r: Result<(seq<CalculationInput>, seq<ConversionAudit>)>)
      requires Valid()
      modifies Footprint()
      ensures r == DirectInputs(Providers(), service != null, base, group, |group.inputs|, audits)
      ensures before == old(before) && LookedUpOnce()
      ensures r.Success? ==> Valid() && used == old(used) + Needed(group.inputs, |group.inputs|, base)
    {
      hide FirstUses, DirectRow, RequestOf, WithAudit, Valid, LookedUpOnce;
      var inputs: seq<CalculationInput> := [];
      var entries := audits;
      LookedUpOnceWhenValid();
      for i := 0 to |group.inputs|
        invariant Valid() && before == old(before)
        invariant DirectInputs(Providers(), service != null, base, group, i, audits) == Success((inputs, entries))
        invariant used == old(used) + Needed(group.inputs, i, base)
      {
        var row := ApplyInputReportCurrencyBoundary(group, group.inputs[i]);
        if row.Failure? {
          InputFailureStays(Providers(), service != null, base, group, i + 1, |group.inputs|, audits);
          return Failure(row.error);
        }
        inputs := inputs + [row.value.0];
        entries := WithAudit(entries, row.value.1);
      }
      LookedUpOnceWhenValid();
      return Success((inputs, entries));
    }

    lemma LookedUpOnceWhenValid()
      requires Valid()
      ensures LookedUpOnce()
    {
    }

    /** The evidence for the keys used, in first-use order. */
    method RateSources() returns (sources: seq<Evidence>)
      requires Valid()
      ensures |sources| == |FirstUses(used)|
      ensures forall i :: 0 <= i < |sources| ==>
                ResolvedDirectly(Providers(), service != null, FirstUses(used)[i]) == Success(sources[i])
    {
      hide FirstUses, ResolvedDirectly;
      sources := [];
      for i := 0 to |orderedKeys|
        invariant |sources| == i
        invariant forall k :: 0 <= k < i ==> ResolvedDirectly(Providers(), service != null, orderedKeys[k]) == Success(sources[k])
      {
        sources := sources + [resolvedEvidence[orderedKeys[i]]];
      }
    }
  }

  lemma {:induction false} InputFailureStays(providers: map<string, Provider>, configured: bool, base: string, group: AssetGroup, i: nat, j: nat,
                                             audits: seq<ConversionAudit>)
    requires i <= j <= |group.inputs| && DirectInputs(providers, configured, base, group, i, audits).Failure?
    ensures DirectInputs(providers, configured, base, group, j, audits) == DirectInputs(providers, configured, base, group, i, audits)
    decreases j - i
  {
    hide DirectRow;
    if i == j {
    } else {
      InputFailureStays(providers, configured, base, group, i, j - 1, audits);
    }
  }

  lemma {:induction false} GroupFailureStays(providers: map<string, Provider>, configured: bool, base: string, groups: seq<AssetGroup>, i: nat, j: nat)
    requires i <= j <= |groups| && DirectGroups(providers, configured, base, groups, i).Failure?
    ensures DirectGroups(providers, configured, base, groups, j) == DirectGroups(providers, configured, base, groups, i)
    decreases j - i
  {
    hide DirectInputs;
    if i == j {
    } else {
      GroupFailureStays(providers, configured, base, groups, i, j - 1);
    }
  }

  datatype BoundaryResult = BoundaryResult(groups: seq<AssetGroup>, audits: seq<ConversionAudit>, rateSources: seq<Evidence>)

  /** What the memoised boundary must return: the directly converted rows, and one source for each key, in first-use
      order. */
  ghost predicate Refines(r: Result<BoundaryResult>, providers: map<string, Provider>, configured: bool, base: string, groups: seq<AssetGroup>) {
    match DirectGroups(providers, configured, base, groups, |groups|)
    case Failure(e) => r == Failure(e)
    case Success(direct) =>
      var keys := FirstUses(NeededByGroups(groups, |groups|, base));
      && r.Success? && r.value.groups == direct.groups && r.value.audits == direct.audits
      && |r.value.rateSources| == |keys|
      && forall i :: 0 <= i < |keys| ==> ResolvedDirectly(providers, configured, keys[i]) == Success(r.value.rateSources[i])
  }

  /** The boundary over all groups: the same rows and audit entries as a fresh lookup for every row would give, and no
      key looked up more than once in the report, whether it succeeds or fails. */
  method ApplyReportCurrencyBoundary(service: CurrencyRateService?, base: string, groups: seq<AssetGroup>) returns (r: Result<BoundaryResult>)
    requires service != null ==> service.Valid()
    modifies if service == null then {} else {service, service.cache}
    ensures Refines(r, if service == null then map[] else service.providers, service != null, base, groups)
    ensures service != null ==> service.Valid() && |service.lookups| >= |old(service.lookups)|
                                && service.lookups[..|old(service.lookups)|] == old(service.lookups)
                                && Distinct(service.lookups[|old(service.lookups)|..])
    ensures service != null && r.Success? ==>
              service.lookups == old(service.lookups) + FirstUses(NeededByGroups(groups, |groups|, base))
  {
    hide FirstUses, DirectInputs, Needed, ResolvedDirectly, Distinct;
    var boundary := new ReportCurrencyBoundary(service, base);
    var converted: seq<AssetGroup> := [];
    var audits: seq<ConversionAudit> := [];
    for g := 0 to |groups|
      invariant boundary.Valid() && boundary.before == (if service == null then boundary.before else old(service.lookups))
      invariant DirectGroups(boundary.Providers(), service != null, base, groups, g) == Success(Boundary(converted, audits))
      invariant boundary.used == NeededByGroups(groups, g, base)
    {
      var inputs := boundary.ApplyGroup(groups[g], audits);
      if inputs.Failure? {
        GroupFailureStays(boundary.Providers(), service != null, base, groups, g + 1, |groups|);
        return Failure(inputs.error);
      }
      converted := converted + [groups[g].(inputs := inputs.value.0)];
      audits := inputs.value.1;
    }
    var sources := boundary.RateSources();
    return Success(BoundaryResult(converted, audits, sources));
  }
}
