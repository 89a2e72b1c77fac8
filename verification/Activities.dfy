/** Synced activity records, and the calculation inputs that grouping, conversion, scoping and replay pass along. */
module Activities {
  import opened Outcomes
  import opened Calendar
  import Text

  datatype ActivityType = Buy | Sell | Unsupported

  datatype ScopeKind = Account | Wallet | OtherKind

  datatype SourceScope = SourceScope(id: string, kind: ScopeKind, reliable: bool)

  datatype ConversionStatus = SameCurrency | Converted

  /** One activity as the calculation sees it.  The date is the calendar day of the record's own offset and the year
      that day's. */
  datatype CalculationInput = CalculationInput(
    sourceId: string,
    date: int,
    year: int,
    activityType: ActivityType,
    assetKey: string,
    displayLabel: string,
    quantity: real,
    unitPrice: Option<real>,
    grossValue: Option<real>,
    feeAmount: Option<real>,
    zeroPricedReduction: bool,
    sourceScope: Option<SourceScope>,
    currency: string,
    activityCurrency: string,
    conversionStatus: Option<ConversionStatus>)

  datatype ResolvedAmounts = ResolvedAmounts(unitPrice: Option<real>, grossValue: Option<real>, feeAmount: Option<real>)

  /** A synced record.  The day is the one its trimmed timestamp denotes in its own offset when it parses; amounts and
      selected are what validation and input selection make of its prices, currencies and scope. */
  datatype ActivityRecord = ActivityRecord(
    sourceId: string,
    occurredAt: string,
    day: Option<int>,
    activityType: string,
    assetKey: string,
    assetSymbol: string,
    assetName: string,
    quantity: real,
    comment: string,
    rawHash: string,
    amounts: Result<ResolvedAmounts>,
    selected: Result<CalculationInput>)

  const BUY := "BUY"
  const SELL := "SELL"

  function TypeOf(name: string): ActivityType {
    if name == BUY then Buy else if name == SELL then Sell else Unsupported
  }

  /** The calendar day of the record's own offset; a blank timestamp has none. */
  function OccurredDay(record: ActivityRecord): Option<int> {
    if Text.TrimSpace(record.occurredAt) == "" then None else record.day
  }

  function DisplayLabel(record: ActivityRecord): string {
    if Text.TrimSpace(record.assetSymbol) != "" then Text.TrimSpace(record.assetSymbol) else Text.TrimSpace(record.assetName)
  }

  /** The calculation input of a record; everything but amounts, currency and scope is the record's own. */
  function SelectInput(record: ActivityRecord): Result<CalculationInput> {
    if OccurredDay(record).None? then Failure(InvalidInput)
    else
      match record.selected
      case Failure(e) => Failure(e)
      case Success(input) =>
        var day := OccurredDay(record).value;
        Success(input.(sourceId := Text.TrimSpace(record.sourceId), date := day, year := YearOf(day),
                       activityType := TypeOf(record.activityType), assetKey := Text.TrimSpace(record.assetKey),
                       displayLabel := DisplayLabel(record), quantity := record.quantity))
  }
}
