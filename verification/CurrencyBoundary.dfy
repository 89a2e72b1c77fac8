/** Converts the amounts of a report into its base currency, one rate lookup per distinct key. */
module CurrencyBoundary {
  import opened Outcomes
  import opened Activities
  import opened Decimals
  import opened Grouping
  import opened Rates
  import Text

  datatype AmountKind = UnitPrice | GrossValue | FeeAmount

  datatype ConvertedAmount = ConvertedAmount(kind: AmountKind, original: real, converted: real)

  /** The report-visible evidence of one converted activity. */
  datatype ConversionAudit = ConversionAudit(
    sourceId: string,
    assetLabel: string,
    activityDate: int,
    sourceCurrency: string,
    baseCurrency: string,
    rateDate: int,
    authority: Authority,
    rateKind: string,
    quote: QuoteDirection,
    rate: real,
    amounts: seq<ConvertedAmount>)

  // -------- amounts --------

  /** A rate quoted as source per base divides and rounds; one quoted as base per source multiplies exactly. */
  function ConvertAmountToBase(amount: real, rate: real, quote: QuoteDirection): Result<real> {
    if rate <= 0.0 then Failure(NotPositive)
    else
      match quote
      case SourcePerBase => Success(RoundHalfUp(amount / rate) as real)
      case BasePerSource => Success(amount * rate)
      case UnknownDirection => Failure(InvalidInput)
  }

  /** One optional amount: absent stays absent; present is converted, checked and recorded. */
  function ConvertOptional(sourceId: string, evidence: Evidence, kind: AmountKind, amount: Option<real>, amounts: seq<ConvertedAmount>)
    : Result<(Option<real>, seq<ConvertedAmount>)>
  {
    if amount.None? then Success((None, amounts))
    else
      match ConvertAmountToBase(amount.value, evidence.rate, evidence.quote)
      case Failure(e) => Failure(e)
      case Success(converted) =>
        if Text.TrimSpace(sourceId) == "" || amount.value < 0.0 || converted < 0.0 then Failure(RejectedByValidator)
        else Success((Some(converted), amounts + [ConvertedAmount(kind, amount.value, converted)]))
  }

  function ConvertInput(input: CalculationInput, base: string, evidence: Evidence): Result<(CalculationInput, seq<ConvertedAmount>)> {
    match ConvertOptional(input.sourceId, evidence, UnitPrice, input.unitPrice, [])
    case Failure(e) => Failure(e)
    case Success((unitPrice, first)) =>
      match ConvertOptional(input.sourceId, evidence, GrossValue, input.grossValue, first)
      case Failure(e) => Failure(e)
      case Success((grossValue, second)) =>
        match ConvertOptional(input.sourceId, evidence, FeeAmount, input.feeAmount, second)
        case Failure(e) => Failure(e)
        case Success((feeAmount, all)) =>
          Success((input.(unitPrice := unitPrice, grossValue := grossValue, feeAmount := feeAmount, currency := base,
                          activityCurrency := evidence.source, conversionStatus := Some(Converted)), all))
  }

  /** Evidence is checked again before the report shows it. */
  function ReportEvidence(evidence: Evidence): Result<Evidence> {
    if !SupportedBase(Text.TrimSpace(evidence.base)) then Failure(InvalidInput)
    else if
      && Text.TrimSpace(evidence.source) != "" && Text.TrimSpace(evidence.source) != Text.TrimSpace(evidence.base)
      && evidence.activityDate != 0 && evidence.rateDate != 0 && evidence.rateDate <= evidence.activityDate
      && (evidence.provider, evidence.authority) == ExpectedProvider(Text.TrimSpace(evidence.base))
      && Text.TrimSpace(evidence.rateKind) != "" && evidence.quote != UnknownDirection && evidence.rate > 0.0
      && Text.TrimSpace(evidence.dataset) != ""
    then Success(evidence.(base := Text.TrimSpace(evidence.base)))
    else Failure(RejectedByValidator)
  }

  function AssetLabel(group: AssetGroup, input: CalculationInput): (assetLabel: string)
    ensures assetLabel != ""
  {
    if Text.TrimSpace(group.displayLabel) != "" then Text.TrimSpace(group.displayLabel)
    else if Text.TrimSpace(input.displayLabel) != "" then Text.TrimSpace(input.displayLabel)
    else "asset " + Text.TrimSpace(group.assetKey)
  }

  function AuditEntryOf(group: AssetGroup, input: CalculationInput, evidence: Evidence, amounts: seq<ConvertedAmount>): Result<ConversionAudit> {
    if amounts == [] || Text.TrimSpace(input.sourceId) == "" || input.date == 0 || evidence.rateDate > input.date then Failure(RejectedByValidator)
    else
      Success(ConversionAudit(input.sourceId, AssetLabel(group, input), input.date, evidence.source, evidence.base, evidence.rateDate,
                              evidence.authority, evidence.rateKind, evidence.quote, evidence.rate, amounts))
  }

  // -------- direct conversion: a fresh lookup for every row --------

  /** The lookup a row needs; zero-priced and same-currency rows need none. */
  function RequestOf(input: CalculationInput, base: string): Option<RateRequest> {
    if input.zeroPricedReduction || Text.TrimSpace(input.currency) == base then None
    else Some(RateRequest(Text.TrimSpace(input.currency), base, input.date))
  }

  function ResolvedDirectly(providers: map<string, Provider>, configured: bool, request: RateRequest): Result<Evidence> {
    if !ValidRequest(request) then Failure(InvalidInput)
    else if !configured then Failure(RateUnavailable)
    else
      match FreshRate(providers, request)
      case Failure(e) => Failure(e)
      case Success(evidence) => ReportEvidence(evidence)
  }

  function Unconverted(input: CalculationInput, base: string): CalculationInput {
    if input.zeroPricedReduction then input.(currency := base)
    else input.(conversionStatus := Some(SameCurrency), activityCurrency := Text.TrimSpace(input.currency))
  }

  function ConvertedRow(group: AssetGroup, input: CalculationInput, base: string, evidence: Evidence)
    : Result<(CalculationInput, Option<ConversionAudit>)>
  {
    match ConvertInput(input, base, evidence)
    case Failure(e) => Failure(e)
    case Success((converted, amounts)) =>
      match AuditEntryOf(group, converted, evidence, amounts)
      case Failure(e) => Failure(e)
      case Success(audit) => Success((converted, Some(audit)))
  }

  function DirectRow(providers: map<string, Provider>, configured: bool, base: string, group: AssetGroup, input: CalculationInput)
    : Result<(CalculationInput, Option<ConversionAudit>)>
  {
    match RequestOf(input, base)
    case None => Success((Unconverted(input, base), None))
    case Some(request) =>
      match ResolvedDirectly(providers, configured, request)
      case Failure(e) => Failure(e)
      case Success(evidence) => ConvertedRow(group, input, base, evidence)
  }

  datatype Boundary = Boundary(groups: seq<AssetGroup>, audits: seq<ConversionAudit>)

  function WithAudit(audits: seq<ConversionAudit>, audit: Option<ConversionAudit>): seq<ConversionAudit> {
    if audit.Some? then audits + [audit.value] else audits
  }

  /** The first n rows of a group, and the audit entries so far. */
  ghost function DirectInputs(providers: map<string, Provider>, configured: bool, base: string, group: AssetGroup, n: nat, audits: seq<ConversionAudit>)
    : Result<(seq<CalculationInput>, seq<ConversionAudit>)>
    requires n <= |group.inputs|
  {
    if n == 0 then Success(([], audits))
    else
      match DirectInputs(providers, configured, base, group, n - 1, audits)
      case Failure(e) => Failure(e)
      case Success((inputs, sofar)) =>
        match DirectRow(providers, configured, base, group, group.inputs[n - 1])
        case Failure(e) => Failure(e)
        case Success((input, audit)) => Success((inputs + [input], WithAudit(sofar, audit)))
  }

  /** The conversion of the first n groups, with a fresh lookup for every row. */
  ghost function DirectGroups(providers: map<string, Provider>, configured: bool, base: string, groups: seq<AssetGroup>, n: nat): Result<Boundary>
    requires n <= |groups|
  {
    if n == 0 then Success(Boundary([], []))
    else
      match DirectGroups(providers, configured, base, groups, n - 1)
      case Failure(e) => Failure(e)
      case Success(boundary) =>
        match DirectInputs(providers, configured, base, groups[n - 1], |groups[n - 1].inputs|, boundary.audits)
        case Failure(e) => Failure(e)
        case Success((inputs, audits)) => Success(Boundary(boundary.groups + [groups[n - 1].(inputs := inputs)], audits))
  }

  /** The lookups needed by the rows of a group, in order. */
  ghost function Needed(inputs: seq<CalculationInput>, n: nat, base: string): seq<RateRequest>
    requires n <= |inputs|
  {
    if n == 0 then []
    else
      var request := RequestOf(inputs[n - 1], base);
      Needed(inputs, n - 1, base) + if request.Some? then [request.value] else []
  }

  ghost function NeededByGroups(groups: seq<AssetGroup>, n: nat, base: string): seq<RateRequest>
    requires n <= |groups|
  {
    if n == 0 then [] else NeededByGroups(groups, n - 1, base) + Needed(groups[n - 1].inputs, |groups[n - 1].inputs|, base)
  }
}
