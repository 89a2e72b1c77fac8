/** The five cost-basis methods behind one interface, as functions of the recorded position. */
module BasisModel {
  import opened Outcomes
  import opened Proportions
  import opened Sums
  import opened LotOrder
  import opened Lots
  import opened LotProperties
  import opened LotTheorems
  import opened Pools
  import opened HybridScopes
  import opened HybridTheorems
  import opened HybridMachine
  import Text

  datatype CostBasisMethod = Fifo | Lifo | Hifo | AverageCost | ScopeLocalHybrid

  /** One matched acquisition fragment; proceeds and gain are filled in for priced liquidations. */
  datatype BasisMatch = BasisMatch(sourceId: string, quantity: real, basis: real, proceeds: Option<real>, gain: Option<real>)

  datatype BasisDisposal = BasisDisposal(allocatedBasis: real, matches: seq<BasisMatch>, reachedZero: bool)

  /** What the state of each method records. */
  datatype Position =
    | LotPosition(lotMethod: LotMethod, lots: seq<Lot>)
    | PoolPosition(pool: Pool)
    | ScopedPosition(scopes: Scopes)

  const POOL_SOURCE := "AVERAGE_COST_POOL"

  function Initial(costBasisMethod: CostBasisMethod): Position {
    match costBasisMethod
    case Fifo => LotPosition(FIFO, [])
    case Lifo => LotPosition(LIFO, [])
    case Hifo => LotPosition(HIFO, [])
    case AverageCost => PoolPosition(EMPTY_POOL)
    case ScopeLocalHybrid => ScopedPosition(map[])
  }

  ghost predicate ValidPosition(position: Position) {
    match position
    case LotPosition(_, lots) => WellFormed(lots)
    case PoolPosition(pool) => WellFormedPool(pool)
    case ScopedPosition(scopes) => OpenScopes(scopes)
  }

  ghost function PositionQuantity(position: Position): real {
    match position
    case LotPosition(_, lots) => TotalOpenQuantity(lots)
    case PoolPosition(pool) => pool.quantity
    case ScopedPosition(scopes) => TotalQuantity(scopes)
  }

  ghost function PositionBasis(position: Position): real {
    match position
    case LotPosition(_, lots) => TotalOpenBasis(lots)
    case PoolPosition(pool) => pool.basis
    case ScopedPosition(scopes) => TotalBasis(scopes)
  }

  function PlainMatch(m: LotMatch): BasisMatch {
    BasisMatch(Text.TrimSpace(m.sourceId), m.quantity, m.basis, None, None)
  }

  function PlainMatches(matches: seq<LotMatch>): (s: seq<BasisMatch>)
    ensures |s| == |matches| && forall i :: 0 <= i < |matches| ==> s[i] == PlainMatch(matches[i])
  {
    seq(|matches|, i requires 0 <= i < |matches| => PlainMatch(matches[i]))
  }

  /** The pool method looks at quantity and basis alone; the others validate the lot. */
  function Acquired(position: Position, scopeKey: string, lot: Lot): Result<Position> {
    match position
    case LotPosition(lotMethod, lots) =>
      var error := ValidateAcquisition(lot);
      if error.Some? then Failure(error.value) else Success(LotPosition(lotMethod, lots + [Stored(lot)]))
    case PoolPosition(pool) =>
      (match PoolAcquisition(pool, lot.quantity, lot.basis)
       case Failure(e) => Failure(e)
       case Success(larger) => Success(PoolPosition(larger)))
    case ScopedPosition(scopes) =>
      (match HybridAcquisition(scopes, scopeKey, lot)
       case Failure(e) => Failure(e)
       case Success(next) => Success(ScopedPosition(next)))
  }

  /** What a refused disposal leaves: lots already taken from stay so, a pool is untouched, a scope keeps what its stages
      did. */
  function Refused(position: Position, scopeKey: string, quantity: real): Position
    requires ValidPosition(position)
  {
    match position
    case LotPosition(lotMethod, lots) => LotPosition(lotMethod, LotsAfter(lotMethod, lots, quantity))
    case PoolPosition(pool) => position
    case ScopedPosition(scopes) => ScopedPosition(RefusedHybrid(scopes, scopeKey, quantity))
  }

  function Disposed(position: Position, scopeKey: string, quantity: real): Result<(Position, BasisDisposal)>
    requires ValidPosition(position)
  {
    match position
    case LotPosition(lotMethod, lots) =>
      (match DisposalResult(lotMethod, lots, quantity)
       case Failure(e) => Failure(e)
       case Success(d) =>
         var after := LotsAfter(lotMethod, lots, quantity);
         Success((LotPosition(lotMethod, after),
                  BasisDisposal(d.allocatedBasis, PlainMatches(d.matches), TotalOpenQuantity(after) == 0.0))))
    case PoolPosition(pool) =>
      (match PoolDisposalResult(pool, quantity)
       case Failure(e) => Failure(e)
       case Success(d) =>
         Success((PoolPosition(PoolAfter(pool, quantity)),
                  BasisDisposal(d.allocatedBasis, [BasisMatch(POOL_SOURCE, d.disposed, d.allocatedBasis, None, None)], d.remainingQuantity == 0.0))))
    case ScopedPosition(scopes) =>
      (match HybridDisposalResult(scopes, scopeKey, quantity)
       case Failure(e) => Failure(e)
       case Success((next, d)) =>
         var matches := if d.matches == [] then [BasisMatch(Text.TrimSpace(scopeKey), quantity, d.allocatedBasis, None, None)]
                        else PlainMatches(d.matches);
         Success((ScopedPosition(next), BasisDisposal(d.allocatedBasis, matches, d.reachedZero))))
  }

  // -------- what every method keeps --------

  ghost function MatchQuantities(matches: seq<BasisMatch>): (s: seq<real>)
    ensures |s| == |matches| && forall i :: 0 <= i < |matches| ==> s[i] == matches[i].quantity
  {
    seq(|matches|, i requires 0 <= i < |matches| => matches[i].quantity)
  }

  ghost function MatchBases(matches: seq<BasisMatch>): (s: seq<real>)
    ensures |s| == |matches| && forall i :: 0 <= i < |matches| ==> s[i] == matches[i].basis
  {
    seq(|matches|, i requires 0 <= i < |matches| => matches[i].basis)
  }

  lemma PlainMatchesKeepSums(matches: seq<LotMatch>)
    ensures Sum(MatchQuantities(PlainMatches(matches))) == Sum(MatchedQuantities(matches))
    ensures Sum(MatchBases(PlainMatches(matches))) == Sum(MatchedBases(matches))
  {
    assert MatchQuantities(PlainMatches(matches)) == MatchedQuantities(matches);
    assert MatchBases(PlainMatches(matches)) == MatchedBases(matches);
  }

  lemma SingleMatchSums(m: BasisMatch)
    ensures Sum(MatchQuantities([m])) == m.quantity && Sum(MatchBases([m])) == m.basis
  {
    assert MatchQuantities([m])[1..] == [] && MatchBases([m])[1..] == [];
  }

  lemma InitialIsEmpty(costBasisMethod: CostBasisMethod)
    ensures ValidPosition(Initial(costBasisMethod))
    ensures PositionQuantity(Initial(costBasisMethod)) == 0.0 && PositionBasis(Initial(costBasisMethod)) == 0.0
  {
    assert OpenQuantities([]) == [] && OpenBases([]) == [];
  }

  /** Under every method an acquisition adds exactly its quantity and basis to the position. */
  lemma AcquisitionConserves(position: Position, scopeKey: string, lot: Lot)
    requires ValidPosition(position) && Acquired(position, scopeKey, lot).Success?
    ensures lot.quantity > 0.0 && lot.basis >= 0.0
    ensures var after := Acquired(position, scopeKey, lot).value;
            && ValidPosition(after)
            && PositionQuantity(after) == PositionQuantity(position) + lot.quantity
            && PositionBasis(after) == PositionBasis(position) + lot.basis
  {
    hide OpenScope;
    match position
    case LotPosition(lotMethod, lots) => TotalsAppend(lots, Stored(lot));
    case PoolPosition(pool) =>
    case ScopedPosition(scopes) => AcquisitionKeepsScopes(scopes, scopeKey, lot);
  }

  /** Hybrid disposals that list fragments list exactly the disposed units. */
  lemma HybridMatchesAddUp(scope: ScopeState, quantity: real)
    requires OpenScope(scope)
    ensures scope.Exact? ==> NonNegativeQuantities(scope.lots)
    ensures ScopeDisposal(scope, quantity).Success? && ScopeDisposal(scope, quantity).value.1.matches != [] ==>
              var disposal := ScopeDisposal(scope, quantity).value.1;
              && Sum(MatchedQuantities(disposal.matches)) == quantity
              && Sum(MatchedBases(disposal.matches)) == disposal.allocatedBasis
  {
    hide DisposalOrder, DisposalResult, LotsAfter, OpenLots, FallbackDisposal;
    match scope
    case Fallback(pool, provenance) =>
      FallbackDisposalKeeps(pool, provenance, quantity);
    case Exact(lots) =>
      if |OpenLots(lots)| == 1 {
        if DisposalResult(FIFO, lots, quantity).Success? {
          DisposalConserves(FIFO, lots, quantity);
        }
      } else {
        ActivationKeepsTotals(lots);
        if Activated(lots).Success? {
          var fallback := Activated(lots).value;
          FallbackDisposalKeeps(fallback.pool, fallback.provenance, quantity);
        }
      }
  }

  /** What a successful disposal keeps, whichever method: it takes exactly the quantity and exactly the basis it
      reports, and its fragments add up to both. */
  ghost predicate DisposalBalances(position: Position, quantity: real, after: Position, disposal: BasisDisposal) {
    && ValidPosition(after)
    && PositionQuantity(after) == PositionQuantity(position) - quantity
    && PositionBasis(after) == PositionBasis(position) - disposal.allocatedBasis
    && Sum(MatchQuantities(disposal.matches)) == quantity
    && Sum(MatchBases(disposal.matches)) == disposal.allocatedBasis
    && (PositionQuantity(after) == 0.0 ==> disposal.reachedZero && PositionBasis(after) == 0.0)
    && (!after.ScopedPosition? && disposal.reachedZero ==> PositionQuantity(after) == 0.0)
  }

  lemma PoolBalances(pool: Pool, scopeKey: string, quantity: real)
    requires ValidPosition(PoolPosition(pool)) && Disposed(PoolPosition(pool), scopeKey, quantity).Success?
    ensures var (after, disposal) := Disposed(PoolPosition(pool), scopeKey, quantity).value;
            DisposalBalances(PoolPosition(pool), quantity, after, disposal)
  {
    hide Share;
    PoolDisposalConserves(pool, quantity);
    SingleMatchSums(Disposed(PoolPosition(pool), scopeKey, quantity).value.1.matches[0]);
  }

  lemma LotsBalance(lotMethod: LotMethod, lots: seq<Lot>, scopeKey: string, quantity: real)
    requires ValidPosition(LotPosition(lotMethod, lots)) && Disposed(LotPosition(lotMethod, lots), scopeKey, quantity).Success?
    ensures var (after, disposal) := Disposed(LotPosition(lotMethod, lots), scopeKey, quantity).value;
            DisposalBalances(LotPosition(lotMethod, lots), quantity, after, disposal)
  {
    hide DisposalResult, LotsAfter, TotalOpenQuantity, TotalOpenBasis;
    DisposalConserves(lotMethod, lots, quantity);
    PlainMatchesKeepSums(DisposalResult(lotMethod, lots, quantity).value.matches);
    if TotalOpenQuantity(LotsAfter(lotMethod, lots, quantity)) == 0.0 {
      NothingOpenNoBasis(LotsAfter(lotMethod, lots, quantity));
    }
  }

  lemma ScopesBalance(scopes: Scopes, scopeKey: string, quantity: real)
    requires ValidPosition(ScopedPosition(scopes)) && Disposed(ScopedPosition(scopes), scopeKey, quantity).Success?
    ensures var (after, disposal) := Disposed(ScopedPosition(scopes), scopeKey, quantity).value;
            DisposalBalances(ScopedPosition(scopes), quantity, after, disposal)
  {
    hide OpenScope, ScopeDisposal;
    DisposalKeepsScopes(scopes, scopeKey, quantity);
    var key := Text.TrimSpace(scopeKey);
    HybridMatchesAddUp(scopes[key], quantity);
    var (next, d) := HybridDisposalResult(scopes, scopeKey, quantity).value;
    if d.matches == [] {
      SingleMatchSums(BasisMatch(key, quantity, d.allocatedBasis, None, None));
    } else {
      PlainMatchesKeepSums(d.matches);
    }
    TotalQuantityIsPositive(next);
  }

  lemma DisposalAlwaysBalances(position: Position, scopeKey: string, quantity: real)
    requires ValidPosition(position) && Disposed(position, scopeKey, quantity).Success?
    ensures var (after, disposal) := Disposed(position, scopeKey, quantity).value;
            DisposalBalances(position, quantity, after, disposal)
  {
    match position
    case LotPosition(lotMethod, lots) => LotsBalance(lotMethod, lots, scopeKey, quantity);
    case PoolPosition(pool) => PoolBalances(pool, scopeKey, quantity);
    case ScopedPosition(scopes) => ScopesBalance(scopes, scopeKey, quantity);
  }
}
