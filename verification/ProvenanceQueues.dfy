/** The provenance of a scope in fallback: whose units the pool holds, and that they leave it oldest first. */
module ProvenanceQueues {
  import opened Outcomes
  import opened Sums
  import opened StableSorting
  import opened LotOrder
  import opened Lots
  import opened Pools
  import opened HybridScopes

  // -------- whose units are pooled --------

  /** The entry remembers the lot: its identifier, day and place, and its quantity. */
  ghost predicate Remembers(entry: ProvenanceLot, lot: Lot) {
    entry.sourceId == lot.sourceId && entry.acquiredAt == lot.acquiredAt && entry.order == lot.order && entry.quantity == lot.quantity
  }

  lemma OpenLotAt(lots: seq<Lot>, k: nat)
    requires k < |OpenLots(lots)|
    ensures |OpenLots(lots)| == |OpenIndexes(lots, |lots|)| && OpenLots(lots)[k] == lots[OpenIndexes(lots, |lots|)[k]]
  {
    OpenLotsByIndex(lots, |lots|);
    assert lots[..|lots|] == lots;
  }

  lemma {:induction false} OpenLotsByIndex(lots: seq<Lot>, n: nat)
    requires n <= |lots|
    ensures |OpenLots(lots[..n])| == |OpenIndexes(lots, n)|
    ensures forall k :: 0 <= k < |OpenLots(lots[..n])| ==> OpenLots(lots[..n])[k] == lots[OpenIndexes(lots, n)[k]]
  {
    if n == 0 {
    } else {
      OpenLotsByIndex(lots, n - 1);
      assert lots[..n][..n - 1] == lots[..n - 1];
    }
  }

  /** A fallback started from lots acquired one after the other remembers exactly the open ones, in their order. */
  lemma ActivationRemembersTheOpenLots(lots: seq<Lot>)
    requires Chronological(lots) && Activated(lots).Success?
    ensures var open := OpenIndexes(lots, |lots|);
            && Activated(lots).value.Fallback? && |Activated(lots).value.provenance| == |open|
            && forall k :: 0 <= k < |open| ==> Remembers(Activated(lots).value.provenance[k], lots[open[k]])
  {
    hide PoolLots, CompareChronology;
    var listed, indexes := OpenLots(lots), OpenIndexes(lots, |lots|);
    forall k | 0 <= k < |listed|
      ensures |listed| == |indexes| && listed[k] == lots[indexes[k]]
    {
      OpenLotAt(lots, k);
    }
    if listed != [] {
      OpenLotAt(lots, 0);
    }
    forall i, j | 0 <= i < j < |listed|
      ensures !OlderLot()(listed[j], listed[i])
    {
      LaterIsNotOlder(lots[indexes[i]], lots[indexes[j]]);
    }
    StableSortOfSorted(OlderLot(), listed);
  }

  lemma LaterIsNotOlder(earlier: Lot, later: Lot)
    requires earlier.acquiredAt <= later.acquiredAt && earlier.order < later.order
    ensures !OlderLot()(later, earlier)
  {
  }

  /** An acquisition in fallback adds one entry, which remembers it, and loses none. */
  lemma FallbackRemembersTheAcquisition(pool: Pool, provenance: seq<ProvenanceLot>, lot: Lot) returns (entry: ProvenanceLot)
    requires ScopeAcquisition(Some(Fallback(pool, provenance)), lot).Success?
    ensures Remembers(entry, lot)
    ensures var next := ScopeAcquisition(Some(Fallback(pool, provenance)), lot).value;
            next.Fallback? && multiset(next.provenance) == multiset(provenance) + multiset{entry}
  {
    hide ValidateAcquisition, CompareChronology;
    entry := ProvenanceOf(lot);
    StableSortElements(OlderProvenance(), provenance + [entry]);
  }

  // -------- which units leave first --------

  /** The quantity of the first k entries. */
  ghost function InFront(provenance: seq<ProvenanceLot>, k: nat): real
    requires k <= |provenance|
  {
    Sum(ProvenanceQuantities(provenance[..k]))
  }

  lemma InFrontStep(provenance: seq<ProvenanceLot>, k: nat)
    requires k < |provenance|
    ensures InFront(provenance, k + 1) == InFront(provenance, k) + provenance[k].quantity
  {
    assert ProvenanceQuantities(provenance[..k + 1]) == ProvenanceQuantities(provenance[..k]) + [provenance[k].quantity];
    SumAppend(ProvenanceQuantities(provenance[..k]), provenance[k].quantity);
  }

  lemma InFrontOfTail(provenance: seq<ProvenanceLot>, k: nat)
    requires 0 < k <= |provenance|
    ensures InFront(provenance, k) == provenance[0].quantity + InFront(provenance[1..], k - 1)
  {
    var all, tail := ProvenanceQuantities(provenance[..k]), ProvenanceQuantities(provenance[1..][..k - 1]);
    assert all[1..] == tail;
  }

  /** Consuming takes the units in front: entry by entry, what is left is what lies behind the consumed quantity, and nothing
      else of an entry changes. */
  lemma {:induction false} ConsumptionCutsTheFront(provenance: seq<ProvenanceLot>, quantity: real, k: nat)
    requires quantity >= 0.0 && NonNegativeProvenance(provenance) && k < |provenance|
    ensures var rest := ConsumeProvenance(provenance, quantity).0;
            && rest[k] == provenance[k].(quantity := rest[k].quantity)
            && rest[k].quantity == Maximum(0.0, InFront(provenance, k + 1) - quantity) - Maximum(0.0, InFront(provenance, k) - quantity)
    decreases |provenance|
  {
    hide InFront;
    InFrontStep(provenance, k);
    InFrontIsNonNegative(provenance, k);
    if quantity == 0.0 {
    } else {
      var matched := Minimum(provenance[0].quantity, quantity);
      InFrontOfTail(provenance, k + 1);
      if k == 0 {
        NothingInFront(provenance);
      } else {
        InFrontOfTail(provenance, k);
        InFrontIsNonNegative(provenance[1..], k - 1);
        InFrontIsNonNegative(provenance[1..], k);
        ConsumptionCutsTheFront(provenance[1..], quantity - matched, k - 1);
      }
    }
  }

  lemma NothingInFront(provenance: seq<ProvenanceLot>)
    ensures InFront(provenance, 0) == 0.0
  {
    assert ProvenanceQuantities(provenance[..0]) == [];
  }

  lemma InFrontIsNonNegative(provenance: seq<ProvenanceLot>, k: nat)
    requires NonNegativeProvenance(provenance) && k <= |provenance|
    ensures InFront(provenance, k) >= 0.0
  {
    SumIsNonNegative(ProvenanceQuantities(provenance[..k]));
  }
}
