/** Every figure a replayed asset shows: its audit entries, its rows beside them, its liquidations and their fragments. */
module ReplayFigures {
  import opened Outcomes
  import opened Activities
  import opened Sums
  import opened BasisModel
  import opened Fragments
  import opened AssetReplay
  import opened YearBridge

  // -------- one activity --------

  /** The fragments of a liquidation: together its quantity and its basis, their proceeds its net proceeds but for half a unit
      for each unit sold, and each gain what the fragment fetched more than it cost. */
  ghost predicate PricedFragments(l: Liquidation) {
    && (forall m :: m in l.matches ==> m.proceeds.Some? && m.gain.Some? && m.gain.value == m.proceeds.value - m.basis)
    && Sum(MatchQuantities(l.matches)) == l.disposedQuantity
    && Sum(MatchBases(l.matches)) == l.allocatedBasis
    && -0.5 * l.disposedQuantity <= Sum(Proceeds(l.matches)) - l.netProceeds <= 0.5 * l.disposedQuantity
    && Sum(Gains(l.matches)) == Sum(Proceeds(l.matches)) - l.allocatedBasis
  }

  /** What an audit entry shows: a BUY allocates nothing; a SELL allocates basis, and a priced one carries its net proceeds and
      what they exceed that basis by. */
  ghost predicate EntryFigures(entry: AuditEntry) {
    && (entry.input.activityType == Sell <==> entry.allocatedBasis.Some?)
    && (PricedSell(entry.input) <==> entry.netProceeds.Some?) && (PricedSell(entry.input) <==> entry.gain.Some?)
    && (PricedSell(entry.input) ==>
          && HasAmounts(entry.input)
          && entry.netProceeds.value == entry.input.grossValue.value - entry.input.feeAmount.value
          && entry.gain.value == entry.netProceeds.value - entry.allocatedBasis.value)
  }

  /** A liquidation repeats the figures of its audit entry. */
  ghost predicate ShowsEntry(l: Liquidation, entry: AuditEntry) {
    && l.sourceId == entry.input.sourceId && l.disposedQuantity == entry.input.quantity
    && Some(l.allocatedBasis) == entry.allocatedBasis && Some(l.netProceeds) == entry.netProceeds && Some(l.gain) == entry.gain
    && PricedFragments(l)
  }

  /** A row shows the activity and the position of its audit entry, and the liquidation of a priced SELL. */
  ghost predicate RowShows(row: ActivityRow, entry: AuditEntry) {
    && row.input == entry.input && row.quantityAfter == entry.quantityAfter && row.basisAfter == entry.basisAfter
    && (row.liquidation.Some? <==> PricedSell(entry.input))
    && (row.liquidation.Some? ==> ShowsEntry(row.liquidation.value, entry))
  }

  /** What one activity contributes, beside its audit entry. */
  ghost predicate StepFigures(input: ReplayInput, c: Contribution, year: int) {
    && (c.audit.Some? <==> input.year <= year)
    && (c.audit.Some? ==> c.audit.value.input == input && EntryFigures(c.audit.value))
    && (c.row.Some? <==> input.year == year)
    && (c.row.Some? ==> c.audit.Some? && RowShows(c.row.value, c.audit.value))
    && (c.liquidation.Some? <==> input.year == year && PricedSell(input))
    && (c.liquidation.Some? ==> c.audit.Some? && ShowsEntry(c.liquidation.value, c.audit.value))
  }

  lemma PricedMatchesKeepTheirParts(perUnit: real, matches: seq<BasisMatch>)
    ensures MatchQuantities(PricedMatches(perUnit, matches)) == MatchQuantities(matches)
    ensures MatchBases(PricedMatches(perUnit, matches)) == MatchBases(matches)
    ensures forall m :: m in PricedMatches(perUnit, matches) ==> m.proceeds.Some? && m.gain.Some? && m.gain.value == m.proceeds.value - m.basis
  {
  }

  lemma LiquidationIsPriced(position: Position, input: ReplayInput)
    requires ValidPosition(position) && AppliedLiquidation(position, input).Success?
    ensures var application := AppliedLiquidation(position, input).value.1;
            LiquidationOf(input, application).Some? && PricedFragments(LiquidationOf(input, application).value)
  {
    hide ValidPosition, Disposed, MatchedProceeds, ProceedsPerUnit;
    FragmentProceedsBound(position, input.scopeKey, input.quantity, NetProceeds(input));
    DisposalAlwaysBalances(position, input.scopeKey, input.quantity);
    var disposal := Disposed(position, input.scopeKey, input.quantity).value.1;
    PricedMatchesKeepTheirParts(ProceedsPerUnit(NetProceeds(input), input.quantity), disposal.matches);
  }

  lemma StepHasFigures(position: Position, input: ReplayInput, order: nat, year: int)
    requires ValidPosition(position) && Step(position, input, order, year).Success?
    ensures StepFigures(input, Step(position, input, order, year).value.1, year)
  {
    hide ValidPosition, AppliedLiquidation, PricedFragments, PositionQuantity, PositionBasis, Disposed, Acquired, ValidLiquidation;
    StepBalances(position, input, order);
    if PricedSell(input) {
      LiquidationIsPriced(position, input);
    }
  }

  // -------- the whole history --------

  /** The activities among the first n that are in the year. */
  ghost function InYearAt(inputs: seq<ReplayInput>, n: nat, year: int): (at: seq<nat>)
    requires n <= |inputs|
    ensures forall k :: 0 <= k < |at| ==> at[k] < n
  {
    if n == 0 then [] else InYearAt(inputs, n - 1, year) + if inputs[n - 1].year == year then [n - 1] else []
  }

  /** The priced SELLs among them. */
  ghost function PricedAt(inputs: seq<ReplayInput>, n: nat, year: int): (at: seq<nat>)
    requires n <= |inputs|
    ensures forall k :: 0 <= k < |at| ==> at[k] < n
  {
    if n == 0 then [] else PricedAt(inputs, n - 1, year) + if inputs[n - 1].year == year && PricedSell(inputs[n - 1]) then [n - 1] else []
  }

  ghost predicate RowsShow(rows: seq<ActivityRow>, audits: seq<AuditEntry>, at: seq<nat>) {
    |rows| == |at| && forall k :: 0 <= k < |at| ==> at[k] < |audits| && RowShows(rows[k], audits[at[k]])
  }

  ghost predicate LiquidationsShow(liquidations: seq<Liquidation>, audits: seq<AuditEntry>, at: seq<nat>) {
    |liquidations| == |at| && forall k :: 0 <= k < |at| ==> at[k] < |audits| && ShowsEntry(liquidations[k], audits[at[k]])
  }

  /** Rows and liquidations are those of the year's activities, in order, each beside its audit entry. */
  ghost predicate FiguresSoFar(inputs: seq<ReplayInput>, i: nat, state: ReplayState, year: int)
    requires i <= |inputs|
  {
    && |state.audits| == i
    && (forall k :: 0 <= k < i ==> state.audits[k].input == inputs[k] && EntryFigures(state.audits[k]))
    && RowsShow(state.rows, state.audits, InYearAt(inputs, i, year))
    && LiquidationsShow(state.liquidations, state.audits, PricedAt(inputs, i, year))
  }

  lemma MoreAudits(rows: seq<ActivityRow>, liquidations: seq<Liquidation>, audits: seq<AuditEntry>, added: AuditEntry,
                   inYear: seq<nat>, priced: seq<nat>)
    requires RowsShow(rows, audits, inYear) && LiquidationsShow(liquidations, audits, priced)
    ensures RowsShow(rows, audits + [added], inYear) && LiquidationsShow(liquidations, audits + [added], priced)
  {
    hide RowShows, ShowsEntry;
  }

  lemma FigureStep(inputs: seq<ReplayInput>, i: nat, position: Position, state: ReplayState, c: Contribution, year: int)
    requires i < |inputs| && inputs[i].year <= year && FiguresSoFar(inputs, i, state, year) && StepFigures(inputs[i], c, year)
    ensures FiguresSoFar(inputs, i + 1, Next(state, position, inputs[i], c, year), year)
  {
    hide PositionQuantity, PositionBasis, RowShows, ShowsEntry, EntryFigures;
    MoreAudits(state.rows, state.liquidations, state.audits, c.audit.value, InYearAt(inputs, i, year), PricedAt(inputs, i, year));
    var next := Next(state, position, inputs[i], c, year);
    assert next.audits == state.audits + [c.audit.value];
  }

  /** After a whole replay through the year every audit entry carries its figures, and the year's rows and liquidations repeat
      those of their entries. */
  lemma {:induction false} FiguresAfter(start: Position, inputs: seq<ReplayInput>, i: nat, year: int)
    requires ValidPosition(start) && i <= |inputs| && ReplayedTo(start, inputs, i, year).Success?
    requires forall k :: 0 <= k < i ==> inputs[k].year <= year
    ensures FiguresSoFar(inputs, i, ReplayedTo(start, inputs, i, year).value.1, year)
  {
    hide ValidPosition, Step, StepFigures, Opened, Accumulated;
    if i == 0 {
    } else {
      hide FiguresSoFar;
      FiguresAfter(start, inputs, i - 1, year);
      var (position, state) := ReplayedTo(start, inputs, i - 1, year).value;
      StepHasFigures(position, inputs[i - 1], i, year);
      FigureStep(inputs, i - 1, position, state, Step(position, inputs[i - 1], i, year).value.1, year);
    }
  }
}
