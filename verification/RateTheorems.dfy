/** What the currency boundary guarantees for the report. */
module RateTheorems {
  import opened Outcomes
  import opened Sequences
  import opened Activities
  import opened Decimals
  import opened Reals
  import opened Grouping
  import opened Rates
  import opened CurrencyBoundary
  import opened CurrencyConversion
  import opened YearReport
  import Text

  // -------- amounts --------

  /** A converted amount keeps the sign of the original; dividing by the rate misses the exact amount by at most half a
      unit, multiplying is exact. */
  lemma ConversionIsAccurate(amount: real, rate: real, quote: QuoteDirection)
    requires rate > 0.0 && quote != UnknownDirection
    ensures ConvertAmountToBase(amount, rate, quote).Success?
    ensures quote == BasePerSource ==> ConvertAmountToBase(amount, rate, quote).value == amount * rate
    ensures quote == SourcePerBase ==> -0.5 <= ConvertAmountToBase(amount, rate, quote).value - amount / rate <= 0.5
    ensures amount >= 0.0 ==> ConvertAmountToBase(amount, rate, quote).value >= 0.0
  {
    if amount >= 0.0 {
      MultiplyOrder(0.0, amount, rate);
      DivideOrder(0.0, amount, rate);
      RoundIsMonotone(0.0, amount / rate);
      RoundOfInteger(0);
    }
  }

  predicate NonNegative(amount: Option<real>) {
    amount.Some? ==> amount.value >= 0.0
  }

  /** With usable evidence a row is refused for two reasons only: a negative amount, or no amount at all. */
  lemma RowsAreRefusedOnlyForTheirAmounts(group: AssetGroup, input: CalculationInput, base: string, evidence: Evidence)
    requires ValidEvidence(evidence) && evidence.activityDate == input.date && Text.TrimSpace(input.sourceId) != ""
    ensures ConvertedRow(group, input, base, evidence).Success?
            <==> NonNegative(input.unitPrice) && NonNegative(input.grossValue) && NonNegative(input.feeAmount)
                 && (input.unitPrice.Some? || input.grossValue.Some? || input.feeAmount.Some?)
  {
    hide Text.TrimSpace, ConvertAmountToBase, ValidCode, ExpectedProvider;
    OptionalIsRefusedOnlyForItsSign(input.sourceId, evidence, UnitPrice, input.unitPrice, []);
    var first := if input.unitPrice.Some? then [ConvertedAmount(UnitPrice, input.unitPrice.value, Exactly(input.unitPrice.value, evidence))] else [];
    OptionalIsRefusedOnlyForItsSign(input.sourceId, evidence, GrossValue, input.grossValue, first);
    var second :=
      if input.grossValue.Some? then first + [ConvertedAmount(GrossValue, input.grossValue.value, Exactly(input.grossValue.value, evidence))] else first;
    OptionalIsRefusedOnlyForItsSign(input.sourceId, evidence, FeeAmount, input.feeAmount, second);
  }

  ghost function ExactlyOptional(amount: Option<real>, evidence: Evidence): Option<real> {
    if amount.None? then None else Some(Exactly(amount.value, evidence))
  }

  ghost function Recorded(kind: AmountKind, amount: Option<real>, evidence: Evidence): seq<ConvertedAmount> {
    if amount.None? then [] else [ConvertedAmount(kind, amount.value, Exactly(amount.value, evidence))]
  }

  lemma OptionalSucceeds(sourceId: string, evidence: Evidence, kind: AmountKind, amount: Option<real>, amounts: seq<ConvertedAmount>)
    requires ConvertOptional(sourceId, evidence, kind, amount, amounts).Success?
    ensures ConvertOptional(sourceId, evidence, kind, amount, amounts).value
            == (ExactlyOptional(amount, evidence), amounts + Recorded(kind, amount, evidence))
  {
    hide Text.TrimSpace, ConvertAmountToBase;
    assert amounts + [] == amounts;
  }

  /** A converted row has each of its amounts converted, in its own field, and nothing else of the activity changed; the
      audit entry records every original with its conversion. */
  lemma ConvertedRowsChangeOnlyTheirAmounts(group: AssetGroup, input: CalculationInput, base: string, evidence: Evidence)
    requires ConvertedRow(group, input, base, evidence).Success?
    ensures var (converted, audit) := ConvertedRow(group, input, base, evidence).value;
            && converted == input.(unitPrice := ExactlyOptional(input.unitPrice, evidence),
                                   grossValue := ExactlyOptional(input.grossValue, evidence),
                                   feeAmount := ExactlyOptional(input.feeAmount, evidence),
                                   currency := base, activityCurrency := evidence.source, conversionStatus := Some(Converted))
            && audit.Some?
            && audit.value.amounts == Recorded(UnitPrice, input.unitPrice, evidence) + Recorded(GrossValue, input.grossValue, evidence)
                                      + Recorded(FeeAmount, input.feeAmount, evidence)
            && audit.value.sourceId == input.sourceId && audit.value.activityDate == input.date
            && audit.value.rate == evidence.rate && audit.value.rateDate == evidence.rateDate && audit.value.quote == evidence.quote
  {
    hide Text.TrimSpace, ConvertOptional, Recorded, ExactlyOptional;
    OptionalSucceeds(input.sourceId, evidence, UnitPrice, input.unitPrice, []);
    var first := Recorded(UnitPrice, input.unitPrice, evidence);
    assert [] + first == first;
    OptionalSucceeds(input.sourceId, evidence, GrossValue, input.grossValue, first);
    var second := first + Recorded(GrossValue, input.grossValue, evidence);
    OptionalSucceeds(input.sourceId, evidence, FeeAmount, input.feeAmount, second);
  }

  ghost function Exactly(amount: real, evidence: Evidence): real {
    var r := ConvertAmountToBase(amount, evidence.rate, evidence.quote);
    if r.Success? then r.value else 0.0
  }

  lemma OptionalIsRefusedOnlyForItsSign(sourceId: string, evidence: Evidence, kind: AmountKind, amount: Option<real>, amounts: seq<ConvertedAmount>)
    requires evidence.rate > 0.0 && evidence.quote != UnknownDirection && Text.TrimSpace(sourceId) != ""
    ensures ConvertOptional(sourceId, evidence, kind, amount, amounts)
            == if amount.None? then Success((None, amounts))
               else if amount.value < 0.0 then Failure(RejectedByValidator)
               else Success((Some(Exactly(amount.value, evidence)), amounts + [ConvertedAmount(kind, amount.value, Exactly(amount.value, evidence))]))
  {
    hide Text.TrimSpace, ConvertAmountToBase;
    if amount.Some? {
      ConversionIsAccurate(amount.value, evidence.rate, evidence.quote);
    }
  }

  // -------- conversion changes amounts only --------

  /** The same activity, but for its amounts and currencies. */
  ghost predicate SameActivity(a: CalculationInput, b: CalculationInput) {
    b == a.(unitPrice := b.unitPrice, grossValue := b.grossValue, feeAmount := b.feeAmount, currency := b.currency,
            activityCurrency := b.activityCurrency, conversionStatus := b.conversionStatus)
  }

  ghost predicate SameActivities(a: seq<CalculationInput>, b: seq<CalculationInput>) {
    |a| == |b| && forall i :: 0 <= i < |a| ==> SameActivity(a[i], b[i])
  }

  ghost predicate SameGroup(a: AssetGroup, b: AssetGroup) {
    a.assetKey == b.assetKey && a.displayLabel == b.displayLabel && SameActivities(a.inputs, b.inputs)
  }

  lemma RowKeepsTheActivity(providers: map<string, Provider>, configured: bool, base: string, group: AssetGroup, input: CalculationInput)
    requires DirectRow(providers, configured, base, group, input).Success?
    ensures SameActivity(input, DirectRow(providers, configured, base, group, input).value.0)
  {
    hide Text.TrimSpace, ResolvedDirectly, ConvertedRow;
    if RequestOf(input, base).Some? {
      ConvertedRowsChangeOnlyTheirAmounts(group, input, base, ResolvedDirectly(providers, configured, RequestOf(input, base).value).value);
    }
  }

  lemma {:induction false} InputsKeepTheActivities(providers: map<string, Provider>, configured: bool, base: string, group: AssetGroup, n: nat,
                                                    audits: seq<ConversionAudit>)
    requires n <= |group.inputs| && DirectInputs(providers, configured, base, group, n, audits).Success?
    ensures SameActivities(group.inputs[..n], DirectInputs(providers, configured, base, group, n, audits).value.0)
  {
    hide DirectRow, SameActivity;
    if n == 0 {
    } else {
      InputsKeepTheActivities(providers, configured, base, group, n - 1, audits);
      RowKeepsTheActivity(providers, configured, base, group, group.inputs[n - 1]);
    }
  }

  /** Conversion keeps every group with its key, its label and its activities in their order; only amounts and currencies
      change. */
  lemma {:induction false} ConversionKeepsTheGroups(providers: map<string, Provider>, configured: bool, base: string, groups: seq<AssetGroup>, n: nat)
    requires n <= |groups| && DirectGroups(providers, configured, base, groups, n).Success?
    ensures |DirectGroups(providers, configured, base, groups, n).value.groups| == n
    ensures forall g :: 0 <= g < n ==> SameGroup(groups[g], DirectGroups(providers, configured, base, groups, n).value.groups[g])
  {
    hide DirectInputs, SameActivities;
    if n == 0 {
    } else {
      ConversionKeepsTheGroups(providers, configured, base, groups, n - 1);
      var boundary, group := DirectGroups(providers, configured, base, groups, n - 1).value, groups[n - 1];
      InputsKeepTheActivities(providers, configured, base, group, |group.inputs|, boundary.audits);
      assert group.inputs[..|group.inputs|] == group.inputs;
    }
  }

  // -------- every audit entry is backed by a rate source --------

  /** The check the report makes between audit entries and rate sources. */
  ghost predicate BackedBy(audit: ConversionAudit, source: Evidence) {
    && source.source == audit.sourceCurrency && source.base == audit.baseCurrency
    && source.activityDate == audit.activityDate && source.rateDate == audit.rateDate
    && source.authority == audit.authority && source.rateKind == audit.rateKind
    && source.quote == audit.quote && source.rate == audit.rate
  }

  ghost predicate BackedByRequest(audit: ConversionAudit, providers: map<string, Provider>, configured: bool, request: RateRequest) {
    ResolvedDirectly(providers, configured, request).Success? && BackedBy(audit, ResolvedDirectly(providers, configured, request).value)
  }

  ghost predicate AllBacked(audits: seq<ConversionAudit>, providers: map<string, Provider>, configured: bool, requests: seq<RateRequest>) {
    forall a :: 0 <= a < |audits| ==> BackedAmong(audits[a], providers, configured, requests)
  }

  ghost predicate BackedAmong(audit: ConversionAudit, providers: map<string, Provider>, configured: bool, requests: seq<RateRequest>) {
    exists k :: 0 <= k < |requests| && BackedByRequest(audit, providers, configured, requests[k])
  }

  lemma ResolvedAnswersTheRequest(providers: map<string, Provider>, configured: bool, request: RateRequest)
    requires ResolvedDirectly(providers, configured, request).Success?
    ensures var evidence := ResolvedDirectly(providers, configured, request).value;
            ValidEvidence(evidence) && MatchesRequest(evidence, request)
  {
    hide Text.TrimSpace, ReportEvidence;
    ServiceEvidenceIsReportable(FreshRate(providers, request).value);
  }

  lemma RowIsBacked(providers: map<string, Provider>, configured: bool, base: string, group: AssetGroup, input: CalculationInput)
    requires DirectRow(providers, configured, base, group, input).Success?
    ensures var (converted, audit) := DirectRow(providers, configured, base, group, input).value;
            && (audit.Some? <==> RequestOf(input, base).Some?)
            && (audit.Some? ==> BackedByRequest(audit.value, providers, configured, RequestOf(input, base).value))
            && (Text.TrimSpace(base) == base ==> Text.TrimSpace(converted.currency) == base)
  {
    hide Text.TrimSpace, ReportEvidence, ConvertOptional, ResolvedDirectly, ValidEvidence;
    if RequestOf(input, base).Some? {
      ResolvedAnswersTheRequest(providers, configured, RequestOf(input, base).value);
    }
  }

  lemma MoreRequestsStillBack(audits: seq<ConversionAudit>, providers: map<string, Provider>, configured: bool,
                              requests: seq<RateRequest>, more: seq<RateRequest>)
    requires AllBacked(audits, providers, configured, requests)
    ensures AllBacked(audits, providers, configured, requests + more)
  {
    hide BackedByRequest;
    forall a | 0 <= a < |audits|
      ensures BackedAmong(audits[a], providers, configured, requests + more)
    {
      var k :| 0 <= k < |requests| && BackedByRequest(audits[a], providers, configured, requests[k]);
      assert (requests + more)[k] == requests[k];
    }
  }

  lemma OneMoreBacked(audits: seq<ConversionAudit>, audit: ConversionAudit, providers: map<string, Provider>, configured: bool,
                      requests: seq<RateRequest>, request: RateRequest)
    requires AllBacked(audits, providers, configured, requests) && BackedByRequest(audit, providers, configured, request)
    ensures AllBacked(audits + [audit], providers, configured, requests + [request])
  {
    hide BackedByRequest;
    MoreRequestsStillBack(audits, providers, configured, requests, [request]);
    assert (requests + [request])[|requests|] == request;
  }

  lemma {:induction false} InputsAreBacked(providers: map<string, Provider>, configured: bool, base: string, group: AssetGroup, n: nat,
                                           audits: seq<ConversionAudit>, requests: seq<RateRequest>)
    requires n <= |group.inputs| && DirectInputs(providers, configured, base, group, n, audits).Success?
    requires AllBacked(audits, providers, configured, requests)
    ensures AllBacked(DirectInputs(providers, configured, base, group, n, audits).value.1, providers, configured, requests + Needed(group.inputs, n, base))
    ensures Text.TrimSpace(base) == base ==>
              forall i :: 0 <= i < |DirectInputs(providers, configured, base, group, n, audits).value.0| ==>
                Text.TrimSpace(DirectInputs(providers, configured, base, group, n, audits).value.0[i].currency) == base
  {
    hide AllBacked, BackedByRequest, DirectRow, RequestOf, Text.TrimSpace;
    if n == 0 {
      assert requests + Needed(group.inputs, 0, base) == requests;
    } else {
      InputsAreBacked(providers, configured, base, group, n - 1, audits, requests);
      var input := group.inputs[n - 1];
      var (_, sofar) := DirectInputs(providers, configured, base, group, n - 1, audits).value;
      RowIsBacked(providers, configured, base, group, input);
      var (_, audit) := DirectRow(providers, configured, base, group, input).value;
      var earlier := requests + Needed(group.inputs, n - 1, base);
      if audit.Some? {
        var request := RequestOf(input, base).value;
        OneMoreBacked(sofar, audit.value, providers, configured, earlier, request);
        assert requests + Needed(group.inputs, n, base) == earlier + [request];
      } else {
        assert requests + Needed(group.inputs, n, base) == earlier;
      }
    }
  }

  lemma {:induction false} GroupsAreBacked(providers: map<string, Provider>, configured: bool, base: string, groups: seq<AssetGroup>, n: nat)
    requires n <= |groups| && DirectGroups(providers, configured, base, groups, n).Success?
    ensures AllBacked(DirectGroups(providers, configured, base, groups, n).value.audits, providers, configured, NeededByGroups(groups, n, base))
    ensures Text.TrimSpace(base) == base ==>
              forall g, i :: 0 <= g < |DirectGroups(providers, configured, base, groups, n).value.groups|
                             && 0 <= i < |DirectGroups(providers, configured, base, groups, n).value.groups[g].inputs| ==>
                Text.TrimSpace(DirectGroups(providers, configured, base, groups, n).value.groups[g].inputs[i].currency) == base
  {
    hide AllBacked, DirectInputs, Needed, Text.TrimSpace;
    if n == 0 {
      NothingToBack(providers, configured);
    } else {
      GroupsAreBacked(providers, configured, base, groups, n - 1);
      var boundary := DirectGroups(providers, configured, base, groups, n - 1).value;
      InputsAreBacked(providers, configured, base, groups[n - 1], |groups[n - 1].inputs|, boundary.audits, NeededByGroups(groups, n - 1, base));
    }
  }

  lemma NothingToBack(providers: map<string, Provider>, configured: bool)
    ensures AllBacked([], providers, configured, [])
  {
  }

  /** The report of a memoised boundary: each used key has exactly one rate source, in first-use order and in the report
      base, and every audit entry is backed by one of them. */
  lemma RateSourcesBackTheAudit(r: Result<BoundaryResult>, providers: map<string, Provider>, configured: bool, base: string, groups: seq<AssetGroup>)
    requires Refines(r, providers, configured, base, groups) && r.Success?
    ensures var keys := FirstUses(NeededByGroups(groups, |groups|, base));
            && Distinct(keys) && (forall key :: key in keys <==> key in NeededByGroups(groups, |groups|, base))
            && |r.value.rateSources| == |keys|
            && (forall i :: 0 <= i < |keys| ==> MatchesRequest(r.value.rateSources[i], keys[i]))
    ensures forall a :: 0 <= a < |r.value.audits| ==> HasMatchingSource(r.value.audits[a], r.value.rateSources)
  {
    hide ResolvedDirectly, ValidEvidence, Needed, FirstUses, DirectGroups, AllBacked;
    var needed := NeededByGroups(groups, |groups|, base);
    var keys, sources := FirstUses(needed), r.value.rateSources;
    FirstUsesAreDistinct(needed);
    GroupsAreBacked(providers, configured, base, groups, |groups|);
    forall i | 0 <= i < |keys|
      ensures MatchesRequest(sources[i], keys[i])
    {
      ResolvedAnswersTheRequest(providers, configured, keys[i]);
    }
    forall a | 0 <= a < |r.value.audits|
      ensures HasMatchingSource(r.value.audits[a], sources)
    {
      var k := BackingRequest(r.value.audits, a, providers, configured, needed);
      assert needed[k] in keys;
      var i :| 0 <= i < |keys| && keys[i] == needed[k];
      assert BackedBy(r.value.audits[a], sources[i]);
    }
  }

  ghost predicate HasMatchingSource(audit: ConversionAudit, sources: seq<Evidence>) {
    exists i :: 0 <= i < |sources| && BackedBy(audit, sources[i])
  }

  lemma BackingRequest(audits: seq<ConversionAudit>, a: nat, providers: map<string, Provider>, configured: bool, requests: seq<RateRequest>) returns (k: nat)
    requires AllBacked(audits, providers, configured, requests) && a < |audits|
    ensures k < |requests| && BackedByRequest(audits[a], providers, configured, requests[k])
  {
    assert BackedAmong(audits[a], providers, configured, requests);
    k :| 0 <= k < |requests| && BackedByRequest(audits[a], providers, configured, requests[k]);
  }

  /** After the boundary every asset with activities is calculated in the base currency, so no group is refused for mixed
      currencies. */
  lemma ConvertedGroupsHaveOneCurrency(r: Result<BoundaryResult>, providers: map<string, Provider>, configured: bool, base: string,
                                       groups: seq<AssetGroup>, g: nat)
    requires Refines(r, providers, configured, base, groups) && r.Success? && SupportedBase(base) && g < |r.value.groups|
    ensures !MixedCurrencies(r.value.groups[g].inputs) && GroupCurrency(r.value.groups[g].inputs).Success?
    ensures r.value.groups[g].inputs != [] ==> GroupCurrency(r.value.groups[g].inputs) == Success(base)
  {
    hide DirectGroups, AllBacked, Text.TrimSpace;
    CodesAreTrimmed(base);
    GroupsAreBacked(providers, configured, base, groups, |groups|);
    var inputs := r.value.groups[g].inputs;
    if inputs != [] {
      assert InputCurrency(inputs[0]) == base;
      assert CommonCurrency(inputs, base);
    }
  }
}
