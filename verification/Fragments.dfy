/** How the proceeds of a priced liquidation are spread over its matched fragments. */
module Fragments {
  import opened Outcomes
  import opened Reals
  import opened Decimals
  import opened Proportions
  import opened Sums
  import opened LotOrder
  import opened Lots
  import opened LotProperties
  import opened LotTheorems
  import opened Pools
  import opened HybridScopes
  import opened BasisModel
  import Text

  /** The rounded proceeds of one unit, the intermediate the report rules ask for. */
  function ProceedsPerUnit(netProceeds: real, quantity: real): real
    requires quantity != 0.0
  {
    RoundHalfUp(netProceeds / quantity) as real
  }

  function MatchedProceeds(perUnit: real, m: BasisMatch): real {
    Product(perUnit, m.quantity)
  }

  function PricedMatch(perUnit: real, m: BasisMatch): BasisMatch {
    m.(proceeds := Some(MatchedProceeds(perUnit, m)), gain := Some(MatchedProceeds(perUnit, m) - m.basis))
  }

  function PricedMatches(perUnit: real, matches: seq<BasisMatch>): (s: seq<BasisMatch>)
    ensures |s| == |matches| && forall i :: 0 <= i < |matches| ==> s[i] == PricedMatch(perUnit, matches[i])
  {
    seq(|matches|, i requires 0 <= i < |matches| => PricedMatch(perUnit, matches[i]))
  }

  function LiquidationMatches(matches: seq<BasisMatch>, disposedQuantity: real, netProceeds: real): Result<seq<BasisMatch>> {
    if matches == [] then Success([])
    else if disposedQuantity <= 0.0 then Failure(NotPositive)
    else Success(PricedMatches(ProceedsPerUnit(netProceeds, disposedQuantity), matches))
  }

  method BuildPricedLiquidationMatches(matches: seq<BasisMatch>, disposedQuantity: real, netProceeds: real)
    returns (r: Result<seq<BasisMatch>>)
    ensures r == LiquidationMatches(matches, disposedQuantity, netProceeds)
  {
    hide Product;
    if |matches| == 0 {
      return Success([]);
    }
    if disposedQuantity <= 0.0 {
      return Failure(NotPositive);
    }
    var perUnit := ProceedsPerUnit(netProceeds, disposedQuantity);
    var enriched: seq<BasisMatch> := [];
    for i := 0 to |matches|
      invariant |enriched| == i && forall j :: 0 <= j < i ==> enriched[j] == PricedMatch(perUnit, matches[j])
    {
      var matchedProceeds := Product(perUnit, matches[i].quantity);
      var matchedGain := matchedProceeds - matches[i].basis;
      enriched := enriched + [matches[i].(proceeds := Some(matchedProceeds), gain := Some(matchedGain))];
    }
    assert enriched == PricedMatches(perUnit, matches);
    return Success(enriched);
  }

  // -------- what the fragments of a liquidation add up to --------

  ghost function Proceeds(matches: seq<BasisMatch>): (s: seq<real>)
    requires forall m :: m in matches ==> m.proceeds.Some?
    ensures |s| == |matches| && forall i :: 0 <= i < |matches| ==> s[i] == matches[i].proceeds.value
  {
    seq(|matches|, i requires 0 <= i < |matches| => matches[i].proceeds.value)
  }

  ghost function Gains(matches: seq<BasisMatch>): (s: seq<real>)
    requires forall m :: m in matches ==> m.gain.Some?
    ensures |s| == |matches| && forall i :: 0 <= i < |matches| ==> s[i] == matches[i].gain.value
  {
    seq(|matches|, i requires 0 <= i < |matches| => matches[i].gain.value)
  }

  ghost function Scaled(factor: real, s: seq<real>): (t: seq<real>)
    ensures |t| == |s| && forall i :: 0 <= i < |s| ==> t[i] == Product(factor, s[i])
  {
    seq(|s|, i requires 0 <= i < |s| => Product(factor, s[i]))
  }

  lemma {:induction false} SumScaled(factor: real, s: seq<real>)
    ensures Sum(Scaled(factor, s)) == Product(factor, Sum(s))
  {
    hide Product;
    ProductDistributes(factor, 0.0, 0.0);
    if s == [] {
    } else {
      SumScaled(factor, s[1..]);
      ProductDistributes(factor, s[0], Sum(s[1..]));
      assert Scaled(factor, s)[1..] == Scaled(factor, s[1..]);
    }
  }

  /** The rounded unit price times the quantity misses the proceeds by at most half a unit for each unit disposed. */
  lemma PerUnitIsNear(netProceeds: real, quantity: real)
    requires quantity > 0.0
    ensures -0.5 * quantity <= Product(ProceedsPerUnit(netProceeds, quantity), quantity) - netProceeds <= 0.5 * quantity
  {
    DivideThenMultiply(netProceeds, quantity);
    assert Product(netProceeds / quantity, quantity) == netProceeds;
    NearProduct(netProceeds / quantity, RoundHalfUp(netProceeds / quantity) as real, quantity);
  }

  /** What the fragments of a priced liquidation add up to, given fragments that make up the disposal. */
  lemma PricedMatchesAddUp(matches: seq<BasisMatch>, quantity: real, allocatedBasis: real, netProceeds: real)
    requires quantity > 0.0 && Sum(MatchQuantities(matches)) == quantity && Sum(MatchBases(matches)) == allocatedBasis
    ensures var priced := PricedMatches(ProceedsPerUnit(netProceeds, quantity), matches);
            && (forall m :: m in priced ==> m.proceeds.Some? && m.gain.Some?)
            && Sum(Proceeds(priced)) == Product(ProceedsPerUnit(netProceeds, quantity), quantity)
            && -0.5 * quantity <= Sum(Proceeds(priced)) - netProceeds <= 0.5 * quantity
            && Sum(Gains(priced)) == Sum(Proceeds(priced)) - allocatedBasis
  {
    hide ProceedsPerUnit, Product;
    var perUnit := ProceedsPerUnit(netProceeds, quantity);
    var priced := PricedMatches(perUnit, matches);
    assert Proceeds(priced) == Scaled(perUnit, MatchQuantities(matches));
    SumScaled(perUnit, MatchQuantities(matches));
    SumDifference(Proceeds(priced), MatchBases(matches), Gains(priced));
    PerUnitIsNear(netProceeds, quantity);
  }

  /** For every priced liquidation, from lots, pool and scopes alike and whatever the sign of the net proceeds. */
  lemma FragmentProceedsBound(position: Position, scopeKey: string, quantity: real, netProceeds: real)
    requires ValidPosition(position) && Disposed(position, scopeKey, quantity).Success?
    ensures quantity > 0.0
    ensures var disposal := Disposed(position, scopeKey, quantity).value.1;
            var priced := LiquidationMatches(disposal.matches, quantity, netProceeds);
            && priced.Success? && |priced.value| == |disposal.matches| > 0
            && (forall m :: m in priced.value ==> m.proceeds.Some? && m.gain.Some?)
            && -0.5 * quantity <= Sum(Proceeds(priced.value)) - netProceeds <= 0.5 * quantity
            && Sum(Gains(priced.value)) == Sum(Proceeds(priced.value)) - disposal.allocatedBasis
  {
    hide ValidPosition, Disposed, ProceedsPerUnit;
    DisposalIsPositive(position, scopeKey, quantity);
    DisposalAlwaysBalances(position, scopeKey, quantity);
    var disposal := Disposed(position, scopeKey, quantity).value.1;
    PricedMatchesAddUp(disposal.matches, quantity, disposal.allocatedBasis, netProceeds);
  }

  lemma DisposalIsPositive(position: Position, scopeKey: string, quantity: real)
    requires ValidPosition(position) && Disposed(position, scopeKey, quantity).Success?
    ensures quantity > 0.0
  {
  }

  // -------- no fragment is empty or has negative basis --------

  ghost predicate SoundMatches(matches: seq<LotMatch>) {
    forall i :: 0 <= i < |matches| ==> matches[i].quantity > 0.0 && matches[i].basis >= 0.0
  }

  lemma {:induction false} ConsumeKeepsSoundMatches(c: Consumption, order: seq<nat>)
    requires WellFormed(c.lots) && OpenDistinct(order, c.lots) && c.remaining >= 0.0
    requires SoundMatches(c.matches) && c.allocatedBasis >= 0.0
    ensures SoundMatches(Consume(c, order).matches) && Consume(c, order).allocatedBasis >= 0.0
    decreases |order|
  {
    hide TakeFromLot;
    if order == [] || c.remaining == 0.0 || c.error.Some? {
    } else {
      var next := TakeFromLot(c, order[0]);
      TakeConserves(c, order[0]);
      TakeKeepsSoundMatches(c, order[0]);
      TailIsOpen(c.lots, order, next.lots);
      ConsumeKeepsSoundMatches(next, order[1..]);
    }
  }

  lemma TakeKeepsSoundMatches(c: Consumption, index: nat)
    requires index < |c.lots| && c.lots[index].quantity > 0.0 && c.remaining > 0.0
    requires SoundMatches(c.matches) && c.allocatedBasis >= 0.0
    ensures SoundMatches(TakeFromLot(c, index).matches) && TakeFromLot(c, index).allocatedBasis >= 0.0
  {
    hide Share;
    var lot := c.lots[index];
    var matched := Minimum(lot.quantity, c.remaining);
    AllocationIsShare(lot.basis, lot.quantity, matched);
    if lot.basis >= 0.0 {
      ShareIsNonNegative(lot.basis, lot.quantity, matched);
    }
  }

  lemma LotFragmentsAreSound(lotMethod: LotMethod, lots: seq<Lot>, quantity: real)
    requires WellFormed(lots) && DisposalResult(lotMethod, lots, quantity).Success?
    ensures SoundMatches(DisposalResult(lotMethod, lots, quantity).value.matches)
    ensures DisposalResult(lotMethod, lots, quantity).value.allocatedBasis >= 0.0
  {
    hide DisposalOrder, Consume;
    DisposalOrderIsOpen(lotMethod, lots);
    ConsumeKeepsSoundMatches(Begin(lots, quantity), DisposalOrder(lotMethod, lots));
  }

  lemma PoolAllocationIsSound(pool: Pool, quantity: real)
    requires WellFormedPool(pool) && PoolDisposalResult(pool, quantity).Success?
    ensures PoolDisposalResult(pool, quantity).value.allocatedBasis >= 0.0
  {
    hide Share;
    PoolDisposalConserves(pool, quantity);
    ShareIsNonNegative(pool.basis, pool.quantity, quantity);
  }

  ghost predicate SoundFragments(disposal: BasisDisposal) {
    && disposal.allocatedBasis >= 0.0
    && forall i :: 0 <= i < |disposal.matches| ==> disposal.matches[i].quantity > 0.0 && disposal.matches[i].basis >= 0.0
  }

  lemma ScopeFragmentsAreSound(scope: ScopeState, quantity: real)
    requires OpenScope(scope)
    ensures scope.Exact? ==> NonNegativeQuantities(scope.lots)
    ensures ScopeDisposal(scope, quantity).Success? ==>
              && SoundMatches(ScopeDisposal(scope, quantity).value.1.matches)
              && ScopeDisposal(scope, quantity).value.1.allocatedBasis >= 0.0
  {
    hide DisposalOrder, DisposalResult, LotsAfter, OpenLots, PoolDisposalResult, PoolAfter, Activated;
    match scope
    case Fallback(pool, provenance) =>
      if PoolDisposalResult(pool, quantity).Success? { PoolAllocationIsSound(pool, quantity); }
    case Exact(lots) =>
      if |OpenLots(lots)| == 1 {
        if DisposalResult(FIFO, lots, quantity).Success? { LotFragmentsAreSound(FIFO, lots, quantity); }
      } else {
        ActivationKeepsTotals(lots);
        if Activated(lots).Success? {
          var pool := Activated(lots).value.pool;
          if PoolDisposalResult(pool, quantity).Success? { PoolAllocationIsSound(pool, quantity); }
        }
      }
  }

  /** Under every method the fragments of a disposal have positive quantities and no negative basis. */
  lemma FragmentsAreSound(position: Position, scopeKey: string, quantity: real)
    requires ValidPosition(position) && Disposed(position, scopeKey, quantity).Success?
    ensures SoundFragments(Disposed(position, scopeKey, quantity).value.1)
  {
    hide DisposalResult, LotsAfter, PoolDisposalResult, PoolAfter, ScopeDisposal, OpenScope, TotalOpenQuantity, WellFormed;
    match position
    case LotPosition(lotMethod, lots) => LotFragmentsAreSound(lotMethod, lots, quantity);
    case PoolPosition(pool) =>
      PoolAllocationIsSound(pool, quantity);
      PoolDisposalConserves(pool, quantity);
      DisposalIsPositive(position, scopeKey, quantity);
    case ScopedPosition(scopes) => ScopeFragmentsAreSound(scopes[Text.TrimSpace(scopeKey)], quantity);
  }
}
