/** Replays the activity history of one asset through the selected year. */
module AssetReplay {
  import opened Outcomes
  import opened Activities
  import opened LotOrder
  import opened Lots
  import opened BasisModel
  import opened Fragments
  import Text

  /** One activity with its resolved scope; the year is the one of the record's own offset. */
  datatype ReplayInput = ReplayInput(
    sourceId: string,
    date: int,
    year: int,
    activityType: ActivityType,
    quantity: real,
    grossValue: Option<real>,
    feeAmount: Option<real>,
    zeroPricedReduction: bool,
    scopeKey: string)

  /** What one activity did to the basis state. */
  datatype Application = Application(
    allocatedBasis: Option<real>,
    netProceeds: Option<real>,
    gain: Option<real>,
    matches: seq<BasisMatch>,
    reachedZero: bool)

  const NO_DISPOSAL := Application(None, None, None, [], false)

  datatype Liquidation = Liquidation(
    sourceId: string,
    disposedQuantity: real,
    allocatedBasis: real,
    netProceeds: real,
    gain: real,
    matches: seq<BasisMatch>)

  datatype ActivityRow = ActivityRow(input: ReplayInput, quantityAfter: real, basisAfter: real, liquidation: Option<Liquidation>)

  datatype AuditEntry = AuditEntry(
    input: ReplayInput,
    quantityAfter: real,
    basisAfter: real,
    allocatedBasis: Option<real>,
    netProceeds: Option<real>,
    gain: Option<real>,
    fullLiquidation: bool)

  /** What one replayed activity contributes to the asset's report state. */
  datatype Contribution = Contribution(
    reachedZero: bool,
    liquidation: Option<Liquidation>,
    row: Option<ActivityRow>,
    audit: Option<AuditEntry>,
    yearlyNetDelta: real)

  datatype ReplayState = ReplayState(
    openingCaptured: bool,
    openingQuantity: real,
    openingBasis: real,
    closingQuantity: real,
    closingBasis: real,
    yearlyNet: real,
    fullLiquidations: nat,
    hadInYearFullLiquidation: bool,
    rows: seq<ActivityRow>,
    liquidations: seq<Liquidation>,
    audits: seq<AuditEntry>)

  const NOTHING_REPLAYED := ReplayState(false, 0.0, 0.0, 0.0, 0.0, 0.0, 0, false, [], [], [])

  // -------- one activity --------

  function AcquisitionOf(input: ReplayInput, order: nat): Lot
    requires input.grossValue.Some? && input.feeAmount.Some?
  {
    Lot(input.sourceId, input.date, order, input.quantity, input.grossValue.value + input.feeAmount.value)
  }

  function NetProceeds(input: ReplayInput): real
    requires input.grossValue.Some? && input.feeAmount.Some?
  {
    input.grossValue.value - input.feeAmount.value
  }

  predicate HasAmounts(input: ReplayInput) {
    input.grossValue.Some? && input.feeAmount.Some?
  }

  function AppliedAcquisition(position: Position, input: ReplayInput, order: nat): Result<(Position, Application)> {
    if !HasAmounts(input) then Failure(MissingAmounts)
    else
      match Acquired(position, input.scopeKey, AcquisitionOf(input, order))
      case Failure(e) => Failure(e)
      case Success(after) => Success((after, NO_DISPOSAL))
  }

  function AppliedReduction(position: Position, input: ReplayInput): Result<(Position, Application)>
    requires ValidPosition(position)
  {
    match Disposed(position, input.scopeKey, input.quantity)
    case Failure(e) => Failure(e)
    case Success((after, disposal)) =>
      Success((after, Application(Some(disposal.allocatedBasis), None, None, disposal.matches, disposal.reachedZero)))
  }

  function AppliedLiquidation(position: Position, input: ReplayInput): Result<(Position, Application)>
    requires ValidPosition(position)
  {
    if !HasAmounts(input) then Failure(MissingAmounts)
    else
      match Disposed(position, input.scopeKey, input.quantity)
      case Failure(e) => Failure(e)
      case Success((after, disposal)) =>
        match LiquidationMatches(disposal.matches, input.quantity, NetProceeds(input))
        case Failure(e) => Failure(e)
        case Success(priced) =>
          Success((after, Application(Some(disposal.allocatedBasis), Some(NetProceeds(input)),
                                      Some(NetProceeds(input) - disposal.allocatedBasis), priced, disposal.reachedZero)))
  }

  function Applied(position: Position, input: ReplayInput, order: nat): Result<(Position, Application)>
    requires ValidPosition(position)
  {
    match input.activityType
    case Buy => AppliedAcquisition(position, input, order)
    case Sell => if input.zeroPricedReduction then AppliedReduction(position, input) else AppliedLiquidation(position, input)
    case Unsupported => Failure(UnsupportedActivity)
  }

  /** What a SELL leaves recorded, refused or not. */
  function LeftBySell(position: Position, input: ReplayInput): Position
    requires ValidPosition(position)
  {
    if !input.zeroPricedReduction && !HasAmounts(input) then position
    else
      match Disposed(position, input.scopeKey, input.quantity)
      case Failure(_) => Refused(position, input.scopeKey, input.quantity)
      case Success((after, _)) => after
  }

  /** What an activity leaves recorded, refused or not: nothing that was done is undone. */
  function LeftBehind(position: Position, input: ReplayInput, order: nat): Position
    requires ValidPosition(position)
  {
    match input.activityType
    case Buy =>
      (match AppliedAcquisition(position, input, order)
       case Failure(_) => position
       case Success((after, _)) => after)
    case Sell => LeftBySell(position, input)
    case Unsupported => position
  }

  /** An activity that is applied leaves the position it leads to. */
  lemma AppliedIsLeft(position: Position, input: ReplayInput, order: nat)
    requires ValidPosition(position)
    ensures Applied(position, input, order).Success? ==> LeftBehind(position, input, order) == Applied(position, input, order).value.0
    ensures input.activityType == Buy && AppliedAcquisition(position, input, order).Failure? ==> LeftBehind(position, input, order) == position
    ensures input.activityType == Sell && input.zeroPricedReduction && AppliedReduction(position, input).Failure? ==>
              LeftBehind(position, input, order) == Refused(position, input.scopeKey, input.quantity)
    ensures input.activityType == Sell ==> LeftBehind(position, input, order) == LeftBySell(position, input)
    ensures input.activityType == Unsupported ==> LeftBehind(position, input, order) == position
  {
    hide Disposed, Refused, Acquired, LiquidationMatches;
  }

  // -------- report artifacts --------

  predicate Identified(input: ReplayInput) {
    Text.TrimSpace(input.sourceId) != "" && input.date != ZERO_TIME
  }

  /** The numeric checks of activity rows and audit entries. */
  predicate ValidRow(input: ReplayInput, quantityAfter: real, basisAfter: real) {
    Identified(input) && input.quantity > 0.0 && basisAfter >= 0.0 && quantityAfter >= 0.0
  }

  /** The numeric checks of liquidations and their fragments. */
  predicate ValidLiquidation(liquidation: Liquidation) {
    && Text.TrimSpace(liquidation.sourceId) != ""
    && liquidation.disposedQuantity > 0.0
    && liquidation.allocatedBasis >= 0.0
    && forall i :: 0 <= i < |liquidation.matches| ==> liquidation.matches[i].quantity > 0.0 && liquidation.matches[i].basis >= 0.0
  }

  function LiquidationOf(input: ReplayInput, application: Application): Option<Liquidation> {
    if application.gain.None? || application.netProceeds.None? || application.allocatedBasis.None? then None
    else Some(Liquidation(input.sourceId, input.quantity, application.allocatedBasis.value, application.netProceeds.value,
                          application.gain.value, application.matches))
  }

  function AuditOf(input: ReplayInput, quantityAfter: real, basisAfter: real, application: Application): AuditEntry {
    AuditEntry(input, quantityAfter, basisAfter, application.allocatedBasis, application.netProceeds, application.gain,
               application.reachedZero)
  }

  /** What an applied activity contributes, given the position it left. */
  function Contributed(input: ReplayInput, quantityAfter: real, basisAfter: real, application: Application, selectedYear: int)
    : Result<Contribution>
  {
    if input.year > selectedYear then Success(Contribution(application.reachedZero, None, None, None, 0.0))
    else if !ValidRow(input, quantityAfter, basisAfter) then Failure(RejectedByValidator)
    else
      var audit := Some(AuditOf(input, quantityAfter, basisAfter, application));
      if input.year != selectedYear then Success(Contribution(application.reachedZero, None, None, audit, 0.0))
      else
        var liquidation := LiquidationOf(input, application);
        var row := Some(ActivityRow(input, quantityAfter, basisAfter, liquidation));
        match liquidation
        case None => Success(Contribution(application.reachedZero, None, row, audit, 0.0))
        case Some(l) =>
          if !ValidLiquidation(l) then Failure(RejectedByValidator)
          else Success(Contribution(application.reachedZero, liquidation, row, audit, l.gain))
  }

  ghost function Step(position: Position, input: ReplayInput, order: nat, selectedYear: int): Result<(Position, Contribution)>
    requires ValidPosition(position)
  {
    match Applied(position, input, order)
    case Failure(e) => Failure(e)
    case Success((after, application)) =>
      match Contributed(input, PositionQuantity(after), PositionBasis(after), application, selectedYear)
      case Failure(e) => Failure(e)
      case Success(contribution) => Success((after, contribution))
  }

  /** What an applied activity does to the position: a BUY adds its quantity and its gross value plus fee, a SELL
      removes its quantity and the basis it reports. */
  lemma StepBalances(position: Position, input: ReplayInput, order: nat)
    requires ValidPosition(position) && Applied(position, input, order).Success?
    ensures var (after, application) := Applied(position, input, order).value;
            && ValidPosition(after) && input.quantity > 0.0 && input.activityType != Unsupported
            && (input.activityType == Buy ==>
                  && HasAmounts(input)
                  && PositionQuantity(after) == PositionQuantity(position) + input.quantity
                  && PositionBasis(after) == PositionBasis(position) + input.grossValue.value + input.feeAmount.value
                  && application == NO_DISPOSAL)
            && (input.activityType == Sell ==>
                  && application.allocatedBasis.Some?
                  && PositionQuantity(after) == PositionQuantity(position) - input.quantity
                  && PositionBasis(after) == PositionBasis(position) - application.allocatedBasis.value
                  && (PositionQuantity(after) == 0.0 ==> application.reachedZero)
                  && (application.gain.Some? <==> !input.zeroPricedReduction)
                  && (application.netProceeds.Some? <==> !input.zeroPricedReduction))
            && (input.activityType == Sell && !input.zeroPricedReduction ==>
                  && HasAmounts(input)
                  && application.netProceeds.value == NetProceeds(input)
                  && application.gain.value == NetProceeds(input) - application.allocatedBasis.value)
  {
    hide ValidPosition, Acquired, Disposed, PositionQuantity, PositionBasis, LiquidationMatches;
    match input.activityType
    case Buy => AcquisitionConserves(position, input.scopeKey, AcquisitionOf(input, order));
    case Sell =>
      DisposalIsPositive(position, input.scopeKey, input.quantity);
      DisposalAlwaysBalances(position, input.scopeKey, input.quantity);
    case Unsupported =>
  }

  // -------- the whole history --------

  ghost function Opened(state: ReplayState, position: Position, year: int, selectedYear: int): ReplayState {
    if state.openingCaptured || year != selectedYear then state
    else state.(openingCaptured := true, openingQuantity := PositionQuantity(position), openingBasis := PositionBasis(position))
  }

  function Listed<T>(s: seq<T>, added: Option<T>): seq<T> {
    if added.Some? then s + [added.value] else s
  }

  function Accumulated(state: ReplayState, year: int, contribution: Contribution, selectedYear: int): ReplayState {
    state.(
      fullLiquidations := if contribution.reachedZero then state.fullLiquidations + 1 else state.fullLiquidations,
      hadInYearFullLiquidation := state.hadInYearFullLiquidation || (contribution.reachedZero && year == selectedYear),
      rows := Listed(state.rows, contribution.row),
      liquidations := Listed(state.liquidations, contribution.liquidation),
      audits := Listed(state.audits, contribution.audit),
      yearlyNet := state.yearlyNet + contribution.yearlyNetDelta)
  }

  /** The state with its closing position; without an in-year activity the opening position is the closing one. */
  function Closed(state: ReplayState, quantity: real, basis: real): ReplayState {
    var closed := state.(closingQuantity := quantity, closingBasis := basis);
    if state.openingCaptured then closed else closed.(openingQuantity := quantity, openingBasis := basis)
  }

  ghost function Finalized(position: Position, state: ReplayState): ReplayState {
    Closed(state, PositionQuantity(position), PositionBasis(position))
  }

  /** The position and report state after the first i activities. */
  ghost function ReplayedTo(start: Position, inputs: seq<ReplayInput>, i: nat, selectedYear: int): (r: Result<(Position, ReplayState)>)
    requires ValidPosition(start) && i <= |inputs|
    ensures r.Success? ==> ValidPosition(r.value.0)
  {
    if i == 0 then Success((start, NOTHING_REPLAYED))
    else
      match ReplayedTo(start, inputs, i - 1, selectedYear)
      case Failure(e) => Failure(e)
      case Success((position, state)) =>
        var input := inputs[i - 1];
        match Step(position, input, i, selectedYear)
        case Failure(e) => Failure(e)
        case Success((after, contribution)) =>
          StepBalances(position, input, i);
          Success((after, Accumulated(Opened(state, position, input.year, selectedYear), input.year, contribution, selectedYear)))
  }

  /** The report state of one asset's whole history. */
  ghost function ReplayedGroup(start: Position, inputs: seq<ReplayInput>, selectedYear: int): Result<ReplayState>
    requires ValidPosition(start)
  {
    match ReplayedTo(start, inputs, |inputs|, selectedYear)
    case Failure(e) => Failure(e)
    case Success((position, state)) => Success(Finalized(position, state))
  }

  /** Activity i is the first to be refused, and this is what it left recorded. */
  ghost predicate RefusedAt(start: Position, inputs: seq<ReplayInput>, i: nat, selectedYear: int, left: Position)
    requires ValidPosition(start)
  {
    && i < |inputs| && ReplayedTo(start, inputs, i, selectedYear).Success? && ReplayedTo(start, inputs, i + 1, selectedYear).Failure?
    && left == LeftBehind(ReplayedTo(start, inputs, i, selectedYear).value.0, inputs[i], i + 1)
  }

  lemma {:induction false} FailureStays(start: Position, inputs: seq<ReplayInput>, i: nat, j: nat, selectedYear: int)
    requires ValidPosition(start) && i <= j <= |inputs| && ReplayedTo(start, inputs, i, selectedYear).Failure?
    ensures ReplayedTo(start, inputs, j, selectedYear) == ReplayedTo(start, inputs, i, selectedYear)
    decreases j - i
  {
    hide Step;
    if i == j {
    } else {
      FailureStays(start, inputs, i, j - 1, selectedYear);
    }
  }
}
