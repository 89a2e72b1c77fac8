/** The replay loop over the live basis state, proved against the replayed history. */
module AssetReplayer {
  import opened Outcomes
  import opened Activities
  import opened LotOrder
  import opened BasisModel
  import opened BasisAdapters
  import opened Fragments
  import opened AssetReplay
  import Text

  /** Basis allocation and proceeds of one activity; the method is the branch the activity type selects. */
  method ApplyAcquisition(state: AssetBasisState, input: ReplayInput, order: nat) returns (r: Result<Application>)
    requires state.Valid()
    modifies state.Footprint()
    ensures state.Valid() && fresh(state.Footprint() - old(state.Footprint()))
    ensures match AppliedAcquisition(old(state.Recorded()), input, order)
            case Failure(e) => r == Failure(e) && state.Recorded() == old(state.Recorded())
            case Success((after, application)) => r == Success(application) && state.Recorded() == after
  {
    hide Acquired, AssetBasisState.Valid, AssetBasisState.Recorded;
    if input.grossValue.None? || input.feeAmount.None? {
      return Failure(MissingAmounts);
    }
    var basis := input.grossValue.value + input.feeAmount.value;
    var error := state.AddAcquisition(input.scopeKey, Lot(input.sourceId, input.date, order, input.quantity, basis));
    r := if error.Some? then Failure(error.value) else Success(NO_DISPOSAL);
  }

  method ApplyZeroPricedHoldingReduction(state: AssetBasisState, input: ReplayInput) returns (r: Result<Application>)
    requires state.Valid()
    modifies state.Footprint()
    ensures state.Readable() && fresh(state.Footprint() - old(state.Footprint()))
    ensures r.Success? ==> state.Valid()
    ensures match AppliedReduction(old(state.Recorded()), input)
            case Failure(e) => r == Failure(e) && state.Recorded() == Refused(old(state.Recorded()), input.scopeKey, input.quantity)
            case Success((after, application)) => r == Success(application) && state.Recorded() == after
  {
    hide Disposed, AssetBasisState.Valid, AssetBasisState.Recorded;
    var disposal := state.Dispose(input.scopeKey, input.quantity);
    if disposal.Failure? {
      return Failure(disposal.error);
    }
    r := Success(Application(Some(disposal.value.allocatedBasis), None, None, disposal.value.matches, disposal.value.reachedZero));
  }

  method ApplyPricedLiquidation(state: AssetBasisState, input: ReplayInput) returns (r: Result<Application>)
    requires state.Valid() && !input.zeroPricedReduction
    modifies state.Footprint()
    ensures state.Readable() && fresh(state.Footprint() - old(state.Footprint()))
    ensures r.Success? ==> state.Valid()
    ensures match AppliedLiquidation(old(state.Recorded()), input)
            case Failure(e) => r == Failure(e) && state.Recorded() == LeftBySell(old(state.Recorded()), input)
            case Success((after, application)) => r == Success(application) && state.Recorded() == after
  {
    hide Disposed, LiquidationMatches, AssetBasisState.Valid, AssetBasisState.Recorded;
    if input.grossValue.None? || input.feeAmount.None? {
      return Failure(MissingAmounts);
    }
    var netProceeds := input.grossValue.value - input.feeAmount.value;
    var disposal := state.Dispose(input.scopeKey, input.quantity);
    if disposal.Failure? {
      return Failure(disposal.error);
    }
    var gain := netProceeds - disposal.value.allocatedBasis;
    var matches := BuildPricedLiquidationMatches(disposal.value.matches, input.quantity, netProceeds);
    if matches.Failure? {
      return Failure(matches.error);
    }
    r := Success(Application(Some(disposal.value.allocatedBasis), Some(netProceeds), Some(gain), matches.value, disposal.value.reachedZero));
  }

  method ApplyBasisInput(state: AssetBasisState, input: ReplayInput, order: nat) returns (r: Result<Application>)
    requires state.Valid()
    modifies state.Footprint()
    ensures state.Readable() && fresh(state.Footprint() - old(state.Footprint()))
    ensures r.Success? ==> state.Valid()
    ensures match Applied(old(state.Recorded()), input, order)
            case Failure(e) => r == Failure(e) && state.Recorded() == LeftBehind(old(state.Recorded()), input, order)
            case Success((after, application)) => r == Success(application) && state.Recorded() == after
  {
    hide AppliedAcquisition, AppliedReduction, AppliedLiquidation, LeftBehind, LeftBySell, AssetBasisState.Valid, AssetBasisState.Recorded;
    AppliedIsLeft(state.Recorded(), input, order);
    match input.activityType
    case Buy => r := ApplyAcquisition(state, input, order);
    case Sell =>
      if input.zeroPricedReduction {
        r := ApplyZeroPricedHoldingReduction(state, input);
      } else {
        r := ApplyPricedLiquidation(state, input);
      }
    case Unsupported => r := Failure(UnsupportedActivity);
  }

  /** Applies one activity and builds what the selected year shows of it. */
  method ReplayAssetInput(state: AssetBasisState, input: ReplayInput, order: nat, selectedYear: int) returns (r: Result<Contribution>)
    requires state.Valid()
    modifies state.Footprint()
    ensures state.Readable() && fresh(state.Footprint() - old(state.Footprint()))
    ensures r.Success? ==> state.Valid()
    ensures match Step(old(state.Recorded()), input, order, selectedYear)
            case Failure(e) => r == Failure(e) && state.Recorded() == LeftBehind(old(state.Recorded()), input, order)
            case Success((after, contribution)) => r == Success(contribution) && state.Recorded() == after
  {
    hide Applied, LeftBehind, PositionQuantity, PositionBasis, AssetBasisState.Valid, AssetBasisState.Recorded;
    AppliedIsLeft(state.Recorded(), input, order);
    var application := ApplyBasisInput(state, input, order);
    if application.Failure? {
      return Failure(application.error);
    }
    var quantityAfter := state.OpenQuantity();
    var basisAfter := state.OpenBasis();
    var applied := application.value;
    if input.year > selectedYear {
      return Success(Contribution(applied.reachedZero, None, None, None, 0.0));
    }
    if !ValidRow(input, quantityAfter, basisAfter) {
      return Failure(RejectedByValidator);
    }
    var audit := Some(AuditEntry(input, quantityAfter, basisAfter, applied.allocatedBasis, applied.netProceeds, applied.gain, applied.reachedZero));
    if input.year != selectedYear {
      return Success(Contribution(applied.reachedZero, None, None, audit, 0.0));
    }
    if applied.gain.None? || applied.netProceeds.None? || applied.allocatedBasis.None? {
      return Success(Contribution(applied.reachedZero, None, Some(ActivityRow(input, quantityAfter, basisAfter, None)), audit, 0.0));
    }
    var liquidation := Liquidation(input.sourceId, input.quantity, applied.allocatedBasis.value, applied.netProceeds.value,
                                   applied.gain.value, applied.matches);
    if !ValidLiquidation(liquidation) {
      return Failure(RejectedByValidator);
    }
    return Success(Contribution(applied.reachedZero, Some(liquidation),
                                Some(ActivityRow(input, quantityAfter, basisAfter, Some(liquidation))), audit, applied.gain.value));
  }

  /** One asset's evolving holdings and report artifacts. */
  class AssetReplayState {
    var openingCaptured: bool
    var openingQuantity: real
    var openingBasis: real
    var closingQuantity: real
    var closingBasis: real
    var yearlyNet: real
    var fullLiquidationCount: nat
    var hadInYearFullLiquidation: bool
    var activityRows: seq<ActivityRow>
    var liquidationSummaries: seq<Liquidation>
    var auditEntries: seq<AuditEntry>

    constructor ()
      ensures Contents() == NOTHING_REPLAYED
    {
      openingCaptured, hadInYearFullLiquidation, fullLiquidationCount := false, false, 0;
      openingQuantity, openingBasis, closingQuantity, closingBasis, yearlyNet := 0.0, 0.0, 0.0, 0.0, 0.0;
      activityRows, liquidationSummaries, auditEntries := [], [], [];
    }

    function Contents(): ReplayState
      reads this
    {
      ReplayState(openingCaptured, openingQuantity, openingBasis, closingQuantity, closingBasis, yearlyNet, fullLiquidationCount,
                  hadInYearFullLiquidation, activityRows, liquidationSummaries, auditEntries)
    }

    /** Keeps the position carried into the selected year, at its first activity. */
    method CaptureOpeningPositionIfNeeded(basisState: AssetBasisState, sourceYear: int, selectedYear: int)
      requires basisState.Valid() && this !in basisState.Footprint()
      modifies this
      ensures basisState.Valid() && basisState.Footprint() == old(basisState.Footprint())
      ensures basisState.Recorded() == old(basisState.Recorded())
      ensures Contents() == Opened(old(Contents()), old(basisState.Recorded()), sourceYear, selectedYear)
    {
      hide PositionQuantity, PositionBasis, AssetBasisState.Valid, AssetBasisState.Recorded;
      if openingCaptured || sourceYear != selectedYear {
        return;
      }
      var quantity := basisState.OpenQuantity();
      var basis := basisState.OpenBasis();
      openingCaptured, openingQuantity, openingBasis := true, quantity, basis;
    }

    method ApplyReplayResult(year: int, result: Contribution, selectedYear: int)
      modifies this
      ensures Contents() == Accumulated(old(Contents()), year, result, selectedYear)
    {
      if result.reachedZero {
        fullLiquidationCount := fullLiquidationCount + 1;
        if year == selectedYear {
          hadInYearFullLiquidation := true;
        }
      }
      if result.row.Some? {
        activityRows := activityRows + [result.row.value];
      }
      if result.liquidation.Some? {
        liquidationSummaries := liquidationSummaries + [result.liquidation.value];
      }
      if result.audit.Some? {
        auditEntries := auditEntries + [result.audit.value];
      }
      yearlyNet := yearlyNet + result.yearlyNetDelta;
    }

    method FinalizeReplayState(basisState: AssetBasisState)
      requires basisState.Valid() && this !in basisState.Footprint()
      modifies this
      ensures basisState.Valid() && basisState.Footprint() == old(basisState.Footprint())
      ensures basisState.Recorded() == old(basisState.Recorded())
      ensures Contents() == Finalized(old(basisState.Recorded()), old(Contents()))
    {
      hide PositionQuantity, PositionBasis, AssetBasisState.Valid, AssetBasisState.Recorded;
      var quantity := basisState.OpenQuantity();
      var basis := basisState.OpenBasis();
      Close(quantity, basis);
    }

    method Close(quantity: real, basis: real)
      modifies this
      ensures Contents() == Closed(old(Contents()), quantity, basis)
    {
      closingQuantity, closingBasis := quantity, basis;
      if !openingCaptured {
        openingQuantity, openingBasis := closingQuantity, closingBasis;
      }
    }
  }

  /** Replays the whole history; the first refused activity ends it. */
  method ReplayAssetGroup(basisState: AssetBasisState, inputs: seq<ReplayInput>, selectedYear: int) returns (r: Result<ReplayState>)
    requires basisState.Valid()
    modifies basisState.Footprint()
    ensures basisState.Readable()
    ensures r == ReplayedGroup(old(basisState.Recorded()), inputs, selectedYear)
    ensures r.Success? ==> basisState.Recorded() == ReplayedTo(old(basisState.Recorded()), inputs, |inputs|, selectedYear).value.0
    ensures r.Failure? ==> exists i :: RefusedAt(old(basisState.Recorded()), inputs, i, selectedYear, basisState.Recorded())
  {
    hide Step, LeftBehind, Opened, Accumulated, Finalized, AssetBasisState.Valid, AssetBasisState.Recorded;
    ghost var start := basisState.Recorded();
    var replayState := new AssetReplayState();
    for i := 0 to |inputs|
      invariant basisState.Valid() && fresh(basisState.Footprint() - old(basisState.Footprint()))
      invariant replayState !in basisState.Footprint()
      invariant ReplayedTo(start, inputs, i, selectedYear) == Success((basisState.Recorded(), replayState.Contents()))
    {
      replayState.CaptureOpeningPositionIfNeeded(basisState, inputs[i].year, selectedYear);
      var result := ReplayAssetInput(basisState, inputs[i], i + 1, selectedYear);
      if result.Failure? {
        FailureStays(start, inputs, i + 1, |inputs|, selectedYear);
        assert RefusedAt(start, inputs, i, selectedYear, basisState.Recorded());
        return Failure(result.error);
      }
      replayState.ApplyReplayResult(inputs[i].year, result.value, selectedYear);
    }
    replayState.FinalizeReplayState(basisState);
    return Success(replayState.Contents());
  }
}
