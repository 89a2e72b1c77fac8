/** One applicable scope of the hybrid method: exact while a disposal can be identified, average cost after. */
module HybridScopes {
  import opened Outcomes
  import opened Sums
  import opened StableSorting
  import opened LotOrder
  import opened Lots
  import opened LotProperties
  import opened Pools

  datatype ProvenanceLot = ProvenanceLot(sourceId: string, acquiredAt: int, order: int, quantity: real)

  datatype ScopeState =
    | Exact(lots: seq<Lot>)
    | Fallback(pool: Pool, provenance: seq<ProvenanceLot>)

  datatype HybridDisposal = HybridDisposal(allocatedBasis: real, matches: seq<LotMatch>, reachedZero: bool)

  function AsLot(p: ProvenanceLot): Lot {
    Lot(p.sourceId, p.acquiredAt, p.order, 0.0, 0.0)
  }

  function ProvenanceOf(lot: Lot): ProvenanceLot {
    ProvenanceLot(lot.sourceId, lot.acquiredAt, lot.order, lot.quantity)
  }

  function OlderProvenance(): (ProvenanceLot, ProvenanceLot) -> bool {
    (a: ProvenanceLot, b: ProvenanceLot) => CompareChronology(AsLot(a), AsLot(b)) < 0
  }

  function OlderLot(): (Lot, Lot) -> bool {
    (a: Lot, b: Lot) => CompareChronology(a, b) < 0
  }

  function SortProvenance(provenance: seq<ProvenanceLot>): seq<ProvenanceLot> {
    StableSort(OlderProvenance(), provenance)
  }

  function SortLots(lots: seq<Lot>): seq<Lot> {
    StableSort(OlderLot(), lots)
  }

  // -------- acquisitions --------

  function ScopeAcquisition(scope: Option<ScopeState>, lot: Lot): Result<ScopeState> {
    var error := ValidateAcquisition(lot);
    if error.Some? then Failure(error.value)
    else
      match scope
      case None => Success(Exact([Stored(lot)]))
      case Some(Exact(lots)) => Success(Exact(lots + [Stored(lot)]))
      case Some(Fallback(pool, provenance)) =>
        match PoolAcquisition(pool, lot.quantity, lot.basis)
        case Failure(e) => Failure(e)
        case Success(larger) => Success(Fallback(larger, SortProvenance(provenance + [ProvenanceOf(lot)])))
  }

  // -------- fallback --------

  function PoolLots(pool: Pool, lots: seq<Lot>): Result<Pool>
    decreases |lots|
  {
    if lots == [] then Success(pool)
    else
      match PoolAcquisition(pool, lots[0].quantity, lots[0].basis)
      case Failure(e) => Failure(e)
      case Success(larger) => PoolLots(larger, lots[1..])
  }

  function ProvenanceOfLots(lots: seq<Lot>): (s: seq<ProvenanceLot>)
    ensures |s| == |lots| && forall i :: 0 <= i < |lots| ==> s[i] == ProvenanceOf(lots[i])
  {
    seq(|lots|, i requires 0 <= i < |lots| => ProvenanceOf(lots[i]))
  }

  /** Pools the open lots, oldest first, and remembers where the units came from. */
  function Activated(lots: seq<Lot>): Result<ScopeState> {
    var open := OpenLots(lots);
    if open == [] then Failure(NothingOpen)
    else
      match PoolLots(EMPTY_POOL, SortLots(open))
      case Failure(e) => Failure(e)
      case Success(pool) => Success(Fallback(pool, ProvenanceOfLots(SortLots(open))))
  }

  /** Pooling as far as it goes: up to the first lot the pool refuses. */
  function PooledSoFar(pool: Pool, provenance: seq<ProvenanceLot>, lots: seq<Lot>): ScopeState
    decreases |lots|
  {
    if lots == [] then Fallback(pool, provenance)
    else
      match PoolAcquisition(pool, lots[0].quantity, lots[0].basis)
      case Failure(_) => Fallback(pool, provenance)
      case Success(larger) => PooledSoFar(larger, provenance + [ProvenanceOf(lots[0])], lots[1..])
  }

  /** What an activation leaves, refused or not: without open lots nothing has happened, otherwise the scope is in
      fallback with what was pooled. */
  function ActivationLeaves(lots: seq<Lot>): ScopeState {
    if OpenLots(lots) == [] then Exact(lots) else PooledSoFar(EMPTY_POOL, [], SortLots(OpenLots(lots)))
  }

  /** Takes a quantity off the front of the provenance queue; entries that are already used up are passed over. */
  function ConsumeProvenance(provenance: seq<ProvenanceLot>, quantity: real): (r: (seq<ProvenanceLot>, real))
    ensures |r.0| == |provenance|
  {
    if provenance == [] || quantity == 0.0 then (provenance, quantity)
    else
      var matched := Minimum(provenance[0].quantity, quantity);
      var (rest, left) := ConsumeProvenance(provenance[1..], quantity - matched);
      ([provenance[0].(quantity := provenance[0].quantity - matched)] + rest, left)
  }

  function FallbackDisposal(pool: Pool, provenance: seq<ProvenanceLot>, quantity: real): Result<(Option<ScopeState>, HybridDisposal)> {
    match PoolDisposalResult(pool, quantity)
    case Failure(e) => Failure(e)
    case Success(d) =>
      var (rest, left) := ConsumeProvenance(provenance, quantity);
      if left != 0.0 then Failure(ExceedsProvenance)
      else if d.remainingQuantity == 0.0 then Success((None, HybridDisposal(d.allocatedBasis, [], true)))
      else Success((Some(Fallback(PoolAfter(pool, quantity), rest)), HybridDisposal(d.allocatedBasis, [], false)))
  }

  // -------- disposals --------

  /** The scope after the disposal, None when it is used up, and what was taken. */
  function ScopeDisposal(scope: ScopeState, quantity: real): Result<(Option<ScopeState>, HybridDisposal)>
    requires scope.Exact? ==> NonNegativeQuantities(scope.lots)
  {
    match scope
    case Fallback(pool, provenance) => FallbackDisposal(pool, provenance, quantity)
    case Exact(lots) =>
      if |OpenLots(lots)| == 1 then
        match DisposalResult(FIFO, lots, quantity)
        case Failure(e) => Failure(e)
        case Success(d) =>
          var after := LotsAfter(FIFO, lots, quantity);
          if TotalOpenQuantity(after) == 0.0 then Success((None, HybridDisposal(d.allocatedBasis, d.matches, true)))
          else Success((Some(Exact(after)), HybridDisposal(d.allocatedBasis, d.matches, false)))
      else
        match Activated(lots)
        case Failure(e) => Failure(e)
        case Success(fallback) => FallbackDisposal(fallback.pool, fallback.provenance, quantity)
  }

  function RefusedFallback(pool: Pool, provenance: seq<ProvenanceLot>, quantity: real): ScopeState {
    if PoolDisposalResult(pool, quantity).Failure? then Fallback(pool, provenance)
    else Fallback(PoolAfter(pool, quantity), ConsumeProvenance(provenance, quantity).0)
  }

  /** What a refused disposal leaves of a scope: nothing is undone. */
  function RefusedScope(scope: ScopeState, quantity: real): ScopeState
    requires scope.Exact? ==> NonNegativeQuantities(scope.lots)
  {
    match scope
    case Fallback(pool, provenance) => RefusedFallback(pool, provenance, quantity)
    case Exact(lots) =>
      if |OpenLots(lots)| == 1 then Exact(LotsAfter(FIFO, lots, quantity))
      else
        match Activated(lots)
        case Failure(_) => ActivationLeaves(lots)
        case Success(fallback) => RefusedFallback(fallback.pool, fallback.provenance, quantity)
  }

  function ScopeQuantity(scope: ScopeState): real {
    match scope
    case Exact(lots) => TotalOpenQuantity(lots)
    case Fallback(pool, _) => pool.quantity
  }

  function ScopeBasis(scope: ScopeState): real {
    match scope
    case Exact(lots) => TotalOpenBasis(lots)
    case Fallback(pool, _) => pool.basis
  }

  // -------- the invariant of an open scope --------

  ghost function ProvenanceQuantities(provenance: seq<ProvenanceLot>): (s: seq<real>)
    ensures |s| == |provenance| && forall i :: 0 <= i < |provenance| ==> s[i] == provenance[i].quantity
  {
    seq(|provenance|, i requires 0 <= i < |provenance| => provenance[i].quantity)
  }

  ghost predicate OldestFirst(provenance: seq<ProvenanceLot>) {
    forall i, j :: 0 <= i < j < |provenance| ==> CompareChronology(AsLot(provenance[i]), AsLot(provenance[j])) <= 0
  }

  /** An open scope holds a positive quantity; in fallback the provenance adds up to the pool, oldest first. */
  ghost predicate OpenScope(scope: ScopeState) {
    && ScopeQuantity(scope) > 0.0
    && match scope
       case Exact(lots) => WellFormed(lots)
       case Fallback(pool, provenance) =>
         && NonNegativeProvenance(provenance)
         && Sum(ProvenanceQuantities(provenance)) == pool.quantity
         && OldestFirst(provenance)
  }

  // -------- provenance --------

  lemma {:induction false} ProvenanceInsert(sorted: seq<ProvenanceLot>, x: ProvenanceLot)
    ensures Sum(ProvenanceQuantities(Insert(OlderProvenance(), sorted, x))) == Sum(ProvenanceQuantities(sorted)) + x.quantity
  {
    var r := Insert(OlderProvenance(), sorted, x);
    if sorted == [] {
      assert ProvenanceQuantities([x])[1..] == [];
    } else if OlderProvenance()(x, sorted[0]) {
      assert ProvenanceQuantities(r)[1..] == ProvenanceQuantities(sorted);
    } else {
      ProvenanceInsert(sorted[1..], x);
      assert ProvenanceQuantities(r)[1..] == ProvenanceQuantities(Insert(OlderProvenance(), sorted[1..], x));
      assert ProvenanceQuantities(sorted)[1..] == ProvenanceQuantities(sorted[1..]);
    }
  }

  lemma {:induction false} SortKeepsProvenanceTotal(provenance: seq<ProvenanceLot>)
    ensures Sum(ProvenanceQuantities(SortProvenance(provenance))) == Sum(ProvenanceQuantities(provenance))
  {
    if provenance == [] {
    } else {
      var init, last := provenance[..|provenance| - 1], provenance[|provenance| - 1];
      SortKeepsProvenanceTotal(init);
      ProvenanceInsert(SortProvenance(init), last);
      assert ProvenanceQuantities(provenance) == ProvenanceQuantities(init) + [last.quantity];
      SumAppend(ProvenanceQuantities(init), last.quantity);
    }
  }

  lemma SortedProvenanceIsOldestFirst(provenance: seq<ProvenanceLot>)
    ensures OldestFirst(SortProvenance(provenance))
  {
    hide CompareChronology;
    var before := OlderProvenance();
    forall a, b | a in provenance && b in provenance && before(a, b)
      ensures !before(b, a)
    {
      ChronologyIsTotal(AsLot(a), AsLot(b));
    }
    forall a, b, c | a in provenance && b in provenance && c in provenance && !before(b, a) && !before(c, b)
      ensures !before(c, a)
    {
      ChronologyIsTotal(AsLot(a), AsLot(b));
      ChronologyIsTotal(AsLot(b), AsLot(c));
      ChronologyIsTotal(AsLot(a), AsLot(c));
      ChronologyIsTransitive(AsLot(a), AsLot(b), AsLot(c));
    }
    StableSortSorts(before, provenance);
    var s := SortProvenance(provenance);
    forall i, j | 0 <= i < j < |s|
      ensures CompareChronology(AsLot(s[i]), AsLot(s[j])) <= 0
    {
      assert !before(s[j], s[i]);
      ChronologyIsTotal(AsLot(s[i]), AsLot(s[j]));
    }
  }

  lemma SortKeepsNonNegative(provenance: seq<ProvenanceLot>)
    requires forall i :: 0 <= i < |provenance| ==> provenance[i].quantity >= 0.0
    ensures forall i :: 0 <= i < |SortProvenance(provenance)| ==> SortProvenance(provenance)[i].quantity >= 0.0
  {
    StableSortElements(OlderProvenance(), provenance);
    var s := SortProvenance(provenance);
    forall i | 0 <= i < |s|
      ensures s[i].quantity >= 0.0
    {
      assert s[i] in provenance;
    }
  }

  ghost predicate NonNegativeProvenance(provenance: seq<ProvenanceLot>) {
    forall i :: 0 <= i < |provenance| ==> provenance[i].quantity >= 0.0
  }

  lemma ProvenanceTotal(provenance: seq<ProvenanceLot>)
    requires provenance != []
    ensures Sum(ProvenanceQuantities(provenance)) == provenance[0].quantity + Sum(ProvenanceQuantities(provenance[1..]))
  {
    assert ProvenanceQuantities(provenance)[1..] == ProvenanceQuantities(provenance[1..]);
  }

  /** Consuming the queue takes the asked quantity, as far as it goes. */
  lemma {:induction false} ConsumingProvenance(provenance: seq<ProvenanceLot>, quantity: real)
    requires quantity >= 0.0 && NonNegativeProvenance(provenance)
    ensures var (rest, left) := ConsumeProvenance(provenance, quantity);
            && left == Maximum(0.0, quantity - Sum(ProvenanceQuantities(provenance)))
            && Sum(ProvenanceQuantities(rest)) == Sum(ProvenanceQuantities(provenance)) - (quantity - left)
            && NonNegativeProvenance(rest)
    decreases |provenance|
  {
    hide ProvenanceQuantities;
    SumIsNonNegative(ProvenanceQuantities(provenance));
    if provenance == [] || quantity == 0.0 {
    } else {
      var tail := provenance[1..];
      var matched := Minimum(provenance[0].quantity, quantity);
      ConsumingProvenance(tail, quantity - matched);
      SumIsNonNegative(ProvenanceQuantities(tail));
      ProvenanceTotal(provenance);
      var all := ConsumeProvenance(provenance, quantity).0;
      assert all[1..] == ConsumeProvenance(tail, quantity - matched).0;
      ProvenanceTotal(all);
    }
  }

  /** Consuming the queue changes quantities only: the entries keep their places and identities. */
  lemma {:induction false} ConsumingKeepsPlaces(provenance: seq<ProvenanceLot>, quantity: real)
    ensures var rest := ConsumeProvenance(provenance, quantity).0;
            forall i :: 0 <= i < |rest| ==> AsLot(rest[i]) == AsLot(provenance[i])
    decreases |provenance|
  {
    if provenance == [] || quantity == 0.0 {
    } else {
      ConsumingKeepsPlaces(provenance[1..], quantity - Minimum(provenance[0].quantity, quantity));
    }
  }

  // -------- activation --------

  lemma {:induction false} LotsInsert(sorted: seq<Lot>, x: Lot)
    ensures TotalOpenQuantity(Insert(OlderLot(), sorted, x)) == TotalOpenQuantity(sorted) + x.quantity
    ensures TotalOpenBasis(Insert(OlderLot(), sorted, x)) == TotalOpenBasis(sorted) + OpenBasis(x)
  {
    var r := Insert(OlderLot(), sorted, x);
    if sorted == [] {
      TotalsAppend([], x);
      assert [] + [x] == r;
    } else if OlderLot()(x, sorted[0]) {
      assert OpenQuantities(r)[1..] == OpenQuantities(sorted);
      assert OpenBases(r)[1..] == OpenBases(sorted);
    } else {
      LotsInsert(sorted[1..], x);
      assert OpenQuantities(r)[1..] == OpenQuantities(Insert(OlderLot(), sorted[1..], x));
      assert OpenBases(r)[1..] == OpenBases(Insert(OlderLot(), sorted[1..], x));
      assert OpenQuantities(sorted)[1..] == OpenQuantities(sorted[1..]);
      assert OpenBases(sorted)[1..] == OpenBases(sorted[1..]);
    }
  }

  lemma {:induction false} SortKeepsLotTotals(lots: seq<Lot>)
    ensures TotalOpenQuantity(SortLots(lots)) == TotalOpenQuantity(lots)
    ensures TotalOpenBasis(SortLots(lots)) == TotalOpenBasis(lots)
  {
    if lots == [] {
    } else {
      var init, last := lots[..|lots| - 1], lots[|lots| - 1];
      SortKeepsLotTotals(init);
      LotsInsert(SortLots(init), last);
      TotalsAppend(init, last);
      assert lots == init + [last];
    }
  }

  /** Pooling open lots with no negative basis adds up their quantities and bases. */
  ghost predicate AllBasesNonNegative(lots: seq<Lot>) {
    forall i :: 0 <= i < |lots| ==> lots[i].basis >= 0.0
  }

  lemma {:induction false} PoolingAddsUp(pool: Pool, lots: seq<Lot>)
    requires forall i :: 0 <= i < |lots| ==> lots[i].quantity > 0.0
    ensures PoolLots(pool, lots).Success? <==> AllBasesNonNegative(lots)
    ensures PoolLots(pool, lots).Success? ==>
              PoolLots(pool, lots).value == Pool(pool.quantity + TotalOpenQuantity(lots), pool.basis + TotalOpenBasis(lots))
    ensures PoolLots(pool, lots).Failure? ==> PoolLots(pool, lots).error == NegativeAmount
    decreases |lots|
  {
    if lots == [] || lots[0].basis < 0.0 {
    } else {
      PoolingAddsUp(PoolAcquisition(pool, lots[0].quantity, lots[0].basis).value, lots[1..]);
      assert OpenQuantities(lots)[1..] == OpenQuantities(lots[1..]);
      assert OpenBases(lots)[1..] == OpenBases(lots[1..]);
      assert forall i :: 0 < i < |lots| ==> lots[i] == lots[1..][i - 1];
    }
  }

  lemma SortKeepsPositive(lots: seq<Lot>)
    requires forall i :: 0 <= i < |lots| ==> lots[i].quantity > 0.0
    ensures forall i :: 0 <= i < |SortLots(lots)| ==> SortLots(lots)[i].quantity > 0.0
  {
    StableSortElements(OlderLot(), lots);
    var s := SortLots(lots);
    forall i | 0 <= i < |s|
      ensures s[i].quantity > 0.0
    {
      assert s[i] in lots;
    }
  }

  lemma AgeIgnoresQuantity(a: Lot, b: Lot)
    ensures CompareChronology(AsLot(ProvenanceOf(a)), AsLot(ProvenanceOf(b))) == CompareChronology(a, b)
  {
  }

  lemma ProvenanceOfSortedLots(lots: seq<Lot>)
    requires forall i :: 0 <= i < |lots| ==> lots[i].quantity > 0.0
    ensures var provenance := ProvenanceOfLots(SortLots(lots));
            && OldestFirst(provenance) && NonNegativeProvenance(provenance)
            && Sum(ProvenanceQuantities(provenance)) == TotalOpenQuantity(lots)
  {
    hide CompareChronology, SortLots;
    var s := SortLots(lots);
    SortKeepsPositive(lots);
    SortKeepsLotTotals(lots);
    assert ProvenanceQuantities(ProvenanceOfLots(s)) == OpenQuantities(s);
    SortedLotsAreOldestFirst(lots);
    forall i, j | 0 <= i < j < |s|
      ensures CompareChronology(AsLot(ProvenanceOf(s[i])), AsLot(ProvenanceOf(s[j]))) <= 0
    {
      AgeIgnoresQuantity(s[i], s[j]);
    }
  }

  lemma SortedLotsAreOldestFirst(lots: seq<Lot>)
    ensures forall i, j :: 0 <= i < j < |SortLots(lots)| ==> CompareChronology(SortLots(lots)[i], SortLots(lots)[j]) <= 0
  {
    hide CompareChronology;
    var before := OlderLot();
    forall a, b | a in lots && b in lots && before(a, b)
      ensures !before(b, a)
    {
      ChronologyIsTotal(a, b);
    }
    forall a, b, c | a in lots && b in lots && c in lots && !before(b, a) && !before(c, b)
      ensures !before(c, a)
    {
      ChronologyIsTotal(a, b);
      ChronologyIsTotal(b, c);
      ChronologyIsTotal(a, c);
      ChronologyIsTransitive(a, b, c);
    }
    StableSortSorts(before, lots);
    var s := SortLots(lots);
    forall i, j | 0 <= i < j < |s|
      ensures CompareChronology(s[i], s[j]) <= 0
    {
      assert !before(s[j], s[i]);
      ChronologyIsTotal(s[i], s[j]);
    }
  }

  ghost predicate OpenBasesNonNegative(lots: seq<Lot>) {
    forall i :: 0 <= i < |lots| && lots[i].quantity != 0.0 ==> lots[i].basis >= 0.0
  }

  lemma {:induction false} OpenLotsOf(lots: seq<Lot>)
    requires NonNegativeQuantities(lots)
    ensures forall i :: 0 <= i < |OpenLots(lots)| ==> OpenLots(lots)[i].quantity > 0.0
    ensures forall i :: 0 <= i < |lots| && lots[i].quantity != 0.0 ==> lots[i] in OpenLots(lots)
  {
    if lots == [] {
    } else {
      var init, last := lots[..|lots| - 1], lots[|lots| - 1];
      OpenLotsOf(init);
      assert forall i :: 0 <= i < |init| ==> lots[i] == init[i];
    }
  }

  lemma SortKeepsElements(lots: seq<Lot>)
    ensures forall lot :: lot in SortLots(lots) <==> lot in lots
  {
    StableSortElements(OlderLot(), lots);
  }

  lemma OpenBasesSorted(lots: seq<Lot>)
    requires NonNegativeQuantities(lots)
    ensures OpenBasesNonNegative(lots) <==> AllBasesNonNegative(SortLots(OpenLots(lots)))
  {
    hide SortLots, OpenLots;
    var sorted := SortLots(OpenLots(lots));
    OpenLotsOf(lots);
    SortKeepsElements(OpenLots(lots));
    if OpenBasesNonNegative(lots) {
      forall i | 0 <= i < |sorted|
        ensures sorted[i].basis >= 0.0
      {
        OpenLotStandsAt(lots, sorted[i]);
      }
    } else {
      var i :| 0 <= i < |lots| && lots[i].quantity != 0.0 && lots[i].basis < 0.0;
      assert lots[i] in sorted;
      var k :| 0 <= k < |sorted| && sorted[k] == lots[i];
      assert sorted[k].basis < 0.0;
    }
  }

  lemma OpenLotStandsAt(lots: seq<Lot>, lot: Lot)
    requires lot in SortLots(OpenLots(lots))
    ensures exists i :: 0 <= i < |lots| && lots[i].quantity != 0.0 && lots[i] == lot
  {
    hide SortLots, OpenLots;
    SortKeepsElements(OpenLots(lots));
    var k :| 0 <= k < |OpenLots(lots)| && OpenLots(lots)[k] == lot;
    assert OpenLots(lots)[k] in lots;
  }

  lemma OpenQuantityNeedsLots(lots: seq<Lot>)
    requires TotalOpenQuantity(lots) > 0.0
    ensures OpenLots(lots) != []
  {
    OpenLotsCarryTheTotals(lots);
    assert OpenQuantities([]) == [];
  }

  /** Activation moves the whole open quantity and basis into the pool; it is refused only for a negative basis. */
  lemma ActivationKeepsTotals(lots: seq<Lot>)
    requires OpenScope(Exact(lots))
    ensures Activated(lots).Success? <==> OpenBasesNonNegative(lots)
    ensures Activated(lots).Success? ==>
              && Activated(lots).value.Fallback? && OpenScope(Activated(lots).value)
              && Activated(lots).value.pool == Pool(TotalOpenQuantity(lots), TotalOpenBasis(lots))
    ensures Activated(lots).Failure? ==> Activated(lots).error == NegativeAmount
  {
    hide OldestFirst, SortLots, OpenLots, OpenBasesNonNegative, PoolLots, TotalOpenQuantity, TotalOpenBasis;
    var open := OpenLots(lots);
    OpenQuantityNeedsLots(lots);
    OpenLotsOf(lots);
    OpenLotsCarryTheTotals(lots);
    SortKeepsPositive(open);
    PoolingAddsUp(EMPTY_POOL, SortLots(open));
    SortKeepsLotTotals(open);
    ProvenanceOfSortedLots(open);
    OpenBasesSorted(lots);
  }
}
