/** What the replayed year adds up to: the bridge from the opening to the closing position, and the yearly net. */
module YearBridge {
  import opened Outcomes
  import opened Activities
  import opened Sums
  import opened Lots
  import opened BasisModel
  import opened Fragments
  import opened AssetReplay

  predicate PricedSell(input: ReplayInput) {
    input.activityType == Sell && !input.zeroPricedReduction
  }

  /** What one step does to the position and what it contributes. */
  ghost predicate StepEffect(position: Position, input: ReplayInput, after: Position, c: Contribution, selectedYear: int) {
    && ValidPosition(after) && input.quantity > 0.0 && input.activityType != Unsupported
    && (input.activityType == Buy ==>
          && HasAmounts(input)
          && PositionQuantity(after) == PositionQuantity(position) + input.quantity
          && PositionBasis(after) == PositionBasis(position) + input.grossValue.value + input.feeAmount.value)
    && (input.activityType == Sell ==>
          && PositionQuantity(after) == PositionQuantity(position) - input.quantity
          && (PositionQuantity(after) == 0.0 ==> c.reachedZero))
    && (c.audit.Some? <==> input.year <= selectedYear)
    && (c.audit.Some? ==>
          && c.audit.value.input == input
          && c.audit.value.quantityAfter == PositionQuantity(after)
          && c.audit.value.basisAfter == PositionBasis(after) >= 0.0
          && (c.audit.value.allocatedBasis.Some? <==> input.activityType == Sell)
          && (input.activityType == Sell ==> PositionBasis(after) == PositionBasis(position) - c.audit.value.allocatedBasis.value))
    && (c.row.Some? <==> input.year == selectedYear)
    && (c.row.Some? ==> c.row.value.input == input && c.row.value.liquidation == c.liquidation)
    && (c.liquidation.Some? <==> input.year == selectedYear && PricedSell(input))
    && c.yearlyNetDelta == (if c.liquidation.Some? then c.liquidation.value.gain else 0.0)
    && (c.liquidation.Some? ==> c.audit.Some? && c.audit.value.allocatedBasis.Some? && Reports(c.liquidation.value, input)
                                && c.liquidation.value.allocatedBasis == c.audit.value.allocatedBasis.value)
  }

  /** A liquidation summary of a priced SELL. */
  ghost predicate Reports(liquidation: Liquidation, input: ReplayInput) {
    && HasAmounts(input)
    && liquidation.sourceId == input.sourceId
    && liquidation.disposedQuantity == input.quantity
    && liquidation.netProceeds == NetProceeds(input)
    && liquidation.gain == NetProceeds(input) - liquidation.allocatedBasis
  }

  lemma StepHasEffect(position: Position, input: ReplayInput, order: nat, selectedYear: int)
    requires ValidPosition(position) && Step(position, input, order, selectedYear).Success?
    ensures var (after, c) := Step(position, input, order, selectedYear).value;
            StepEffect(position, input, after, c, selectedYear)
  {
    hide ValidPosition, Applied, PositionQuantity, PositionBasis;
    StepBalances(position, input, order);
  }

  // -------- sums over the inputs and over the report --------

  ghost function InYearBought(inputs: seq<ReplayInput>, i: nat, year: int): real
    requires i <= |inputs|
  {
    if i == 0 then 0.0
    else InYearBought(inputs, i - 1, year)
         + if inputs[i - 1].year == year && inputs[i - 1].activityType == Buy then inputs[i - 1].quantity else 0.0
  }

  ghost function InYearSold(inputs: seq<ReplayInput>, i: nat, year: int): real
    requires i <= |inputs|
  {
    if i == 0 then 0.0
    else InYearSold(inputs, i - 1, year)
         + if inputs[i - 1].year == year && inputs[i - 1].activityType == Sell then inputs[i - 1].quantity else 0.0
  }

  ghost function Cost(input: ReplayInput): real {
    if HasAmounts(input) then input.grossValue.value + input.feeAmount.value else 0.0
  }

  ghost function InYearCost(inputs: seq<ReplayInput>, i: nat, year: int): real
    requires i <= |inputs|
  {
    if i == 0 then 0.0
    else InYearCost(inputs, i - 1, year)
         + if inputs[i - 1].year == year && inputs[i - 1].activityType == Buy then Cost(inputs[i - 1]) else 0.0
  }

  /** The basis the audit entries of a year allocate. */
  ghost function InYearAllocated(audits: seq<AuditEntry>, year: int): real {
    if audits == [] then 0.0
    else
      var last := audits[|audits| - 1];
      InYearAllocated(audits[..|audits| - 1], year)
      + if last.input.year == year && last.allocatedBasis.Some? then last.allocatedBasis.value else 0.0
  }

  lemma AllocatedListed(audits: seq<AuditEntry>, added: AuditEntry, year: int)
    ensures InYearAllocated(audits + [added], year)
            == InYearAllocated(audits, year) + if added.input.year == year && added.allocatedBasis.Some? then added.allocatedBasis.value else 0.0
  {
    assert (audits + [added])[..|audits|] == audits;
  }

  ghost function InYearPricedSells(inputs: seq<ReplayInput>, i: nat, year: int): seq<ReplayInput>
    requires i <= |inputs|
  {
    if i == 0 then []
    else InYearPricedSells(inputs, i - 1, year)
         + if inputs[i - 1].year == year && PricedSell(inputs[i - 1]) then [inputs[i - 1]] else []
  }

  ghost function InYear(inputs: seq<ReplayInput>, i: nat, year: int): seq<ReplayInput>
    requires i <= |inputs|
  {
    if i == 0 then [] else InYear(inputs, i - 1, year) + if inputs[i - 1].year == year then [inputs[i - 1]] else []
  }

  ghost function InputsOf(rows: seq<ActivityRow>): (s: seq<ReplayInput>)
    ensures |s| == |rows| && forall i :: 0 <= i < |rows| ==> s[i] == rows[i].input
  {
    seq(|rows|, i requires 0 <= i < |rows| => rows[i].input)
  }

  ghost function NetsOf(liquidations: seq<Liquidation>): (s: seq<real>)
    ensures |s| == |liquidations|
    ensures forall i :: 0 <= i < |liquidations| ==> s[i] == liquidations[i].netProceeds - liquidations[i].allocatedBasis
  {
    seq(|liquidations|, i requires 0 <= i < |liquidations| => liquidations[i].netProceeds - liquidations[i].allocatedBasis)
  }

  /** The source years never go back in replay order, and stop at the selected year. */
  ghost predicate YearsInOrder(inputs: seq<ReplayInput>, selectedYear: int) {
    && (forall i, j :: 0 <= i < j < |inputs| ==> inputs[i].year <= inputs[j].year)
    && forall i :: 0 <= i < |inputs| ==> inputs[i].year <= selectedYear
  }

  // -------- one more activity --------

  ghost function Next(state: ReplayState, position: Position, input: ReplayInput, c: Contribution, selectedYear: int): ReplayState {
    Accumulated(Opened(state, position, input.year, selectedYear), input.year, c, selectedYear)
  }

  // -------- the yearly net, whatever the order of years --------

  ghost predicate NetSoFar(inputs: seq<ReplayInput>, i: nat, state: ReplayState, year: int)
    requires i <= |inputs|
  {
    var sells := InYearPricedSells(inputs, i, year);
    && |state.liquidations| == |sells|
    && (forall k :: 0 <= k < |sells| ==> Reports(state.liquidations[k], sells[k]))
    && state.yearlyNet == Sum(NetsOf(state.liquidations))
    && InputsOf(state.rows) == InYear(inputs, i, year)
  }

  lemma NetAppend(liquidations: seq<Liquidation>, added: Liquidation)
    ensures Sum(NetsOf(liquidations + [added])) == Sum(NetsOf(liquidations)) + added.netProceeds - added.allocatedBasis
  {
    assert NetsOf(liquidations + [added]) == NetsOf(liquidations) + [added.netProceeds - added.allocatedBasis];
    SumAppend(NetsOf(liquidations), added.netProceeds - added.allocatedBasis);
  }

  lemma NetStep(inputs: seq<ReplayInput>, i: nat, position: Position, state: ReplayState, after: Position, c: Contribution, year: int)
    requires i < |inputs| && NetSoFar(inputs, i, state, year) && StepEffect(position, inputs[i], after, c, year)
    ensures NetSoFar(inputs, i + 1, Next(state, position, inputs[i], c, year), year)
  {
    hide ValidPosition, PositionQuantity, PositionBasis, Reports;
    if c.row.Some? {
      assert InputsOf(state.rows + [c.row.value]) == InputsOf(state.rows) + [inputs[i]];
    }
    if c.liquidation.Some? {
      NetAppend(state.liquidations, c.liquidation.value);
      GainIsNet(c.liquidation.value, inputs[i]);
    }
  }

  lemma {:induction false} NetAfter(start: Position, inputs: seq<ReplayInput>, i: nat, selectedYear: int)
    requires ValidPosition(start) && i <= |inputs| && ReplayedTo(start, inputs, i, selectedYear).Success?
    ensures NetSoFar(inputs, i, ReplayedTo(start, inputs, i, selectedYear).value.1, selectedYear)
  {
    hide ValidPosition, Step, PositionQuantity, PositionBasis, StepEffect, Opened, Accumulated;
    if i == 0 {
      assert NetsOf([]) == [] && InputsOf([]) == [];
    } else {
      hide NetSoFar;
      NetAfter(start, inputs, i - 1, selectedYear);
      var (position, state) := ReplayedTo(start, inputs, i - 1, selectedYear).value;
      StepHasEffect(position, inputs[i - 1], i, selectedYear);
      var (after, c) := Step(position, inputs[i - 1], i, selectedYear).value;
      NetStep(inputs, i - 1, position, state, after, c, selectedYear);
    }
  }

  lemma GainIsNet(liquidation: Liquidation, input: ReplayInput)
    requires Reports(liquidation, input)
    ensures liquidation.gain == liquidation.netProceeds - liquidation.allocatedBasis
  {
  }

  /** An asset's yearly net is the sum, over its in-year priced SELLs and nothing else, of net proceeds minus
      allocated basis; the liquidation summaries list those SELLs in order, the detail rows all in-year activities. */
  lemma YearlyNetIsRealizedGain(start: Position, inputs: seq<ReplayInput>, selectedYear: int)
    requires ValidPosition(start) && ReplayedGroup(start, inputs, selectedYear).Success?
    ensures var state := ReplayedGroup(start, inputs, selectedYear).value;
            var sells := InYearPricedSells(inputs, |inputs|, selectedYear);
            && |state.liquidations| == |sells|
            && (forall k :: 0 <= k < |sells| ==> Reports(state.liquidations[k], sells[k]))
            && state.yearlyNet == Sum(NetsOf(state.liquidations))
            && InputsOf(state.rows) == InYear(inputs, |inputs|, selectedYear)
  {
    NetAfter(start, inputs, |inputs|, selectedYear);
  }

  // -------- the bridge --------

  ghost predicate BridgedSoFar(inputs: seq<ReplayInput>, i: nat, position: Position, state: ReplayState, year: int)
    requires i <= |inputs|
  {
    && (state.openingCaptured <==> exists k :: 0 <= k < i && inputs[k].year == year)
    && (state.openingCaptured ==>
          && PositionQuantity(position) == state.openingQuantity + InYearBought(inputs, i, year) - InYearSold(inputs, i, year)
          && PositionBasis(position) == state.openingBasis + InYearCost(inputs, i, year) - InYearAllocated(state.audits, year))
    && (!state.openingCaptured ==>
          && InYearBought(inputs, i, year) == InYearSold(inputs, i, year) == InYearCost(inputs, i, year) == 0.0
          && InYearAllocated(state.audits, year) == 0.0)
  }

  lemma BridgeStep(inputs: seq<ReplayInput>, i: nat, position: Position, state: ReplayState, after: Position, c: Contribution, year: int)
    requires i < |inputs| && YearsInOrder(inputs, year)
    requires BridgedSoFar(inputs, i, position, state, year) && StepEffect(position, inputs[i], after, c, year)
    ensures BridgedSoFar(inputs, i + 1, after, Next(state, position, inputs[i], c, year), year)
  {
    hide ValidPosition, PositionQuantity, PositionBasis, Reports, InYearAllocated;
    AllocatedListed(state.audits, c.audit.value, year);
    var next := Next(state, position, inputs[i], c, year);
    assert next.audits == state.audits + [c.audit.value];
    if inputs[i].year == year {
      assert next.openingCaptured;
      if !state.openingCaptured {
        assert next.openingQuantity == PositionQuantity(position) && next.openingBasis == PositionBasis(position);
      }
    } else {
      assert next.openingCaptured == state.openingCaptured;
    }
  }

  lemma {:induction false} BridgedAfter(start: Position, inputs: seq<ReplayInput>, i: nat, selectedYear: int)
    requires ValidPosition(start) && i <= |inputs| && YearsInOrder(inputs, selectedYear)
    requires ReplayedTo(start, inputs, i, selectedYear).Success?
    ensures var (position, state) := ReplayedTo(start, inputs, i, selectedYear).value;
            BridgedSoFar(inputs, i, position, state, selectedYear)
  {
    hide ValidPosition, Step, PositionQuantity, PositionBasis, StepEffect, Opened, Accumulated;
    if i == 0 {
      assert InYearBought(inputs, 0, selectedYear) == InYearSold(inputs, 0, selectedYear) == InYearCost(inputs, 0, selectedYear) == 0.0;
    } else {
      hide BridgedSoFar, YearsInOrder;
      BridgedAfter(start, inputs, i - 1, selectedYear);
      var (position, state) := ReplayedTo(start, inputs, i - 1, selectedYear).value;
      StepHasEffect(position, inputs[i - 1], i, selectedYear);
      var (after, c) := Step(position, inputs[i - 1], i, selectedYear).value;
      BridgeStep(inputs, i - 1, position, state, after, c, selectedYear);
    }
  }

  /** With source years nondecreasing: opening plus what the year acquired minus what the year took is closing, for
      quantity and exactly so for basis. */
  lemma YearBridgeHolds(start: Position, inputs: seq<ReplayInput>, selectedYear: int)
    requires ValidPosition(start) && YearsInOrder(inputs, selectedYear)
    requires ReplayedGroup(start, inputs, selectedYear).Success?
    ensures var state := ReplayedGroup(start, inputs, selectedYear).value;
            var n := |inputs|;
            && state.closingQuantity
               == state.openingQuantity + InYearBought(inputs, n, selectedYear) - InYearSold(inputs, n, selectedYear)
            && state.closingBasis
               == state.openingBasis + InYearCost(inputs, n, selectedYear) - InYearAllocated(state.audits, selectedYear)
  {
    BridgedAfter(start, inputs, |inputs|, selectedYear);
  }

  // -------- the audit trail --------

  ghost function QuantityBeforeEntry(start: Position, audits: seq<AuditEntry>, k: nat): real
    requires k < |audits|
  {
    if k == 0 then PositionQuantity(start) else audits[k - 1].quantityAfter
  }

  ghost function BasisBeforeEntry(start: Position, audits: seq<AuditEntry>, k: nat): real
    requires k < |audits|
  {
    if k == 0 then PositionBasis(start) else audits[k - 1].basisAfter
  }

  /** Every entry continues from the one before it. */
  ghost predicate Continues(start: Position, audits: seq<AuditEntry>, k: nat)
    requires k < |audits|
  {
    var entry := audits[k];
    && entry.basisAfter >= 0.0 && entry.quantityAfter >= 0.0
    && (entry.input.activityType == Buy ==>
          && entry.quantityAfter == QuantityBeforeEntry(start, audits, k) + entry.input.quantity
          && entry.basisAfter == BasisBeforeEntry(start, audits, k) + Cost(entry.input))
    && (entry.input.activityType == Sell ==>
          && entry.allocatedBasis.Some?
          && entry.quantityAfter == QuantityBeforeEntry(start, audits, k) - entry.input.quantity
          && entry.basisAfter == BasisBeforeEntry(start, audits, k) - entry.allocatedBasis.value)
  }

  ghost predicate TrailSoFar(start: Position, inputs: seq<ReplayInput>, i: nat, position: Position, state: ReplayState)
    requires i <= |inputs|
  {
    && |state.audits| == i
    && (forall k :: 0 <= k < i ==> state.audits[k].input == inputs[k] && Continues(start, state.audits, k))
    && (if i == 0 then position == start
        else PositionQuantity(position) == state.audits[i - 1].quantityAfter && PositionBasis(position) == state.audits[i - 1].basisAfter)
  }

  lemma TrailGrows(start: Position, audits: seq<AuditEntry>, added: AuditEntry, k: nat)
    requires k < |audits| && Continues(start, audits, k)
    ensures Continues(start, audits + [added], k)
  {
    var longer := audits + [added];
    assert longer[k] == audits[k] && (k > 0 ==> longer[k - 1] == audits[k - 1]);
  }

  lemma TrailStep(start: Position, inputs: seq<ReplayInput>, i: nat, position: Position, state: ReplayState, after: Position, c: Contribution, year: int)
    requires i < |inputs| && inputs[i].year <= year && PositionQuantity(after) >= 0.0
    requires TrailSoFar(start, inputs, i, position, state) && StepEffect(position, inputs[i], after, c, year)
    ensures TrailSoFar(start, inputs, i + 1, after, Next(state, position, inputs[i], c, year))
  {
    hide ValidPosition, PositionQuantity, PositionBasis, Reports, Continues;
    var next := Next(state, position, inputs[i], c, year);
    assert next.audits == state.audits + [c.audit.value];
    forall k | 0 <= k < i
      ensures next.audits[k].input == inputs[k] && Continues(start, next.audits, k)
    {
      TrailGrows(start, state.audits, c.audit.value, k);
    }
    EntryContinues(start, inputs[i], i, position, next.audits, after, c, year);
  }

  lemma EntryContinues(start: Position, input: ReplayInput, i: nat, position: Position, audits: seq<AuditEntry>, after: Position, c: Contribution, year: int)
    requires input.year <= year && PositionQuantity(after) >= 0.0 && StepEffect(position, input, after, c, year)
    requires i < |audits| && audits[i] == c.audit.value
    requires PositionQuantity(position) == QuantityBeforeEntry(start, audits, i) && PositionBasis(position) == BasisBeforeEntry(start, audits, i)
    ensures Continues(start, audits, i)
  {
    hide ValidPosition, PositionQuantity, PositionBasis, Reports;
  }

  lemma {:induction false} TrailAfter(start: Position, inputs: seq<ReplayInput>, i: nat, selectedYear: int)
    requires ValidPosition(start) && i <= |inputs| && ReplayedTo(start, inputs, i, selectedYear).Success?
    requires forall k :: 0 <= k < i ==> inputs[k].year <= selectedYear
    ensures var (position, state) := ReplayedTo(start, inputs, i, selectedYear).value;
            TrailSoFar(start, inputs, i, position, state)
  {
    hide ValidPosition, Step, PositionQuantity, PositionBasis, StepEffect, Opened, Accumulated, Continues;
    if i == 0 {
    } else {
      hide TrailSoFar;
      TrailAfter(start, inputs, i - 1, selectedYear);
      var (position, state) := ReplayedTo(start, inputs, i - 1, selectedYear).value;
      StepHasEffect(position, inputs[i - 1], i, selectedYear);
      var (after, c) := Step(position, inputs[i - 1], i, selectedYear).value;
      StepLeavesNonNegative(position, inputs[i - 1], after, c, selectedYear);
      TrailStep(start, inputs, i - 1, position, state, after, c, selectedYear);
    }
  }

  lemma StepLeavesNonNegative(position: Position, input: ReplayInput, after: Position, c: Contribution, selectedYear: int)
    requires StepEffect(position, input, after, c, selectedYear)
    ensures PositionQuantity(after) >= 0.0
  {
    hide PositionQuantity, ValidPosition;
    PositionIsNotNegative(after);
  }

  lemma PositionIsNotNegative(position: Position)
    requires ValidPosition(position)
    ensures PositionQuantity(position) >= 0.0
  {
    match position
    case LotPosition(_, lots) => SumIsNonNegative(OpenQuantities(lots));
    case PoolPosition(_) =>
    case ScopedPosition(scopes) => HybridMachine.TotalQuantityIsPositive(scopes);
  }

  /** The audit annex accounts for every activity up to the selected year, in order: each entry's quantity and basis
      are those of the entry before it plus the acquisition or minus the disposal, the last entry is the closing
      position, and no entry shows a negative quantity or basis. */
  lemma AuditTrailIsUnbroken(start: Position, inputs: seq<ReplayInput>, selectedYear: int)
    requires ValidPosition(start) && ReplayedGroup(start, inputs, selectedYear).Success?
    requires forall k :: 0 <= k < |inputs| ==> inputs[k].year <= selectedYear
    ensures var state := ReplayedGroup(start, inputs, selectedYear).value;
            && |state.audits| == |inputs|
            && (forall k :: 0 <= k < |inputs| ==> state.audits[k].input == inputs[k] && Continues(start, state.audits, k))
            && (inputs != [] ==> state.closingQuantity == state.audits[|inputs| - 1].quantityAfter
                                 && state.closingBasis == state.audits[|inputs| - 1].basisAfter)
  {
    TrailAfter(start, inputs, |inputs|, selectedYear);
  }

  // -------- what the numeric validators can reject --------

  /** Once an activity of the selected year or earlier has been applied, the numeric validators refuse it for one
      reason only: the rounded allocations have driven the open basis below zero. */
  lemma ValidatorsRejectOnlyNegativeBasis(position: Position, input: ReplayInput, order: nat, selectedYear: int)
    requires ValidPosition(position) && Applied(position, input, order).Success?
    requires Identified(input) && input.year <= selectedYear
    ensures Step(position, input, order, selectedYear).Failure?
            <==> PositionBasis(Applied(position, input, order).value.0) < 0.0
    ensures Step(position, input, order, selectedYear).Failure? ==>
              Step(position, input, order, selectedYear) == Failure(RejectedByValidator)
  {
    hide ValidPosition, PositionQuantity, PositionBasis, Acquired, Disposed, ProceedsPerUnit;
    StepBalances(position, input, order);
    PositionIsNotNegative(Applied(position, input, order).value.0);
    if input.activityType == Sell {
      FragmentsAreSound(position, input.scopeKey, input.quantity);
    }
  }
}
