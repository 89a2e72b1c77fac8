/** What the full-liquidation count and the in-year full-liquidation flag count. */
module LiquidationCounts {
  import opened BasisModel
  import opened AssetReplay

  ghost function FullLiquidations(audits: seq<AuditEntry>): nat {
    if audits == [] then 0
    else FullLiquidations(audits[..|audits| - 1]) + if audits[|audits| - 1].fullLiquidation then 1 else 0
  }

  ghost predicate HasFullLiquidationIn(audits: seq<AuditEntry>, year: int) {
    exists k :: 0 <= k < |audits| && audits[k].fullLiquidation && audits[k].input.year == year
  }

  ghost predicate Counted(state: ReplayState, selectedYear: int) {
    && state.fullLiquidations == FullLiquidations(state.audits)
    && (state.hadInYearFullLiquidation <==> HasFullLiquidationIn(state.audits, selectedYear))
  }

  /** An audited step lists whether it reached zero. */
  lemma StepIsListed(position: Position, input: ReplayInput, order: nat, selectedYear: int)
    requires ValidPosition(position) && Step(position, input, order, selectedYear).Success? && input.year <= selectedYear
    ensures var c := Step(position, input, order, selectedYear).value.1;
            c.audit.Some? && c.audit.value.input == input && c.audit.value.fullLiquidation == c.reachedZero
  {
    hide ValidPosition, Applied, PositionQuantity, PositionBasis;
  }

  lemma ListedOnce(audits: seq<AuditEntry>, added: AuditEntry, year: int)
    ensures FullLiquidations(audits + [added]) == FullLiquidations(audits) + if added.fullLiquidation then 1 else 0
    ensures HasFullLiquidationIn(audits + [added], year)
            <==> HasFullLiquidationIn(audits, year) || (added.fullLiquidation && added.input.year == year)
  {
    var more := audits + [added];
    assert more[..|audits|] == audits;
    if HasFullLiquidationIn(audits, year) {
      var k :| 0 <= k < |audits| && audits[k].fullLiquidation && audits[k].input.year == year;
      assert more[k] == audits[k];
    }
    assert more[|audits|] == added;
  }

  lemma CountStep(state: ReplayState, position: Position, input: ReplayInput, c: Contribution, selectedYear: int)
    requires Counted(state, selectedYear)
    requires c.audit.Some? && c.audit.value.input == input && c.audit.value.fullLiquidation == c.reachedZero
    ensures Counted(Accumulated(Opened(state, position, input.year, selectedYear), input.year, c, selectedYear), selectedYear)
  {
    hide PositionQuantity, PositionBasis, FullLiquidations, HasFullLiquidationIn;
    ListedOnce(state.audits, c.audit.value, selectedYear);
  }

  lemma {:induction false} CountedAfter(start: Position, inputs: seq<ReplayInput>, i: nat, selectedYear: int)
    requires ValidPosition(start) && i <= |inputs| && ReplayedTo(start, inputs, i, selectedYear).Success?
    requires forall k :: 0 <= k < i ==> inputs[k].year <= selectedYear
    ensures Counted(ReplayedTo(start, inputs, i, selectedYear).value.1, selectedYear)
  {
    hide ValidPosition, Step, Opened, Accumulated;
    if i == 0 {
    } else {
      CountedAfter(start, inputs, i - 1, selectedYear);
      var (position, state) := ReplayedTo(start, inputs, i - 1, selectedYear).value;
      StepIsListed(position, inputs[i - 1], i, selectedYear);
      var (_, c) := Step(position, inputs[i - 1], i, selectedYear).value;
      CountStep(state, position, inputs[i - 1], c, selectedYear);
    }
  }

  /** The count shown in the reference section is that of the activities that took the asset or a scope to zero, and the
      inclusion flag says whether one of them was in the selected year. */
  lemma FullLiquidationsAreCounted(start: Position, inputs: seq<ReplayInput>, selectedYear: int)
    requires ValidPosition(start) && ReplayedGroup(start, inputs, selectedYear).Success?
    requires forall k :: 0 <= k < |inputs| ==> inputs[k].year <= selectedYear
    ensures Counted(ReplayedGroup(start, inputs, selectedYear).value, selectedYear)
  {
    hide ValidPosition, ReplayedTo, FullLiquidations, HasFullLiquidationIn, PositionQuantity, PositionBasis;
    CountedAfter(start, inputs, |inputs|, selectedYear);
  }
}
