/** Acquisition lots and the order in which a disposal takes them. */
module LotOrder {
  import opened Reals
  import opened Sequences
  import opened StableSorting
  import Text

  datatype LotMethod = FIFO | LIFO | HIFO

  /** A lot: its date is a day number, day 0 being the zero time. */
  datatype Lot = Lot(sourceId: string, acquiredAt: int, order: int, quantity: real, basis: real)

  function Sign(n: int): int {
    if n < 0 then -1 else if n > 0 then 1 else 0
  }

  /** Acquisition day, then replay order, then source ID. */
  function CompareChronology(left: Lot, right: Lot): int {
    if left.acquiredAt != right.acquiredAt then Sign(left.acquiredAt - right.acquiredAt)
    else if left.order != right.order then Sign(left.order - right.order)
    else Text.Compare(Text.TrimSpace(left.sourceId), Text.TrimSpace(right.sourceId))
  }

  /** Compares unit costs by exact cross multiplication, never by division. */
  function CompareUnitCosts(left: Lot, right: Lot): int {
    var leftCross, rightCross := left.basis * right.quantity, right.basis * left.quantity;
    if leftCross < rightCross then -1 else if leftCross > rightCross then 1 else 0
  }

  /** Highest unit cost first, then chronology. */
  function CompareHighestCost(left: Lot, right: Lot): int {
    var comparison := CompareUnitCosts(left, right);
    if comparison != 0 then -comparison else CompareChronology(left, right)
  }

  function CompareFor(lotMethod: LotMethod, left: Lot, right: Lot): int {
    match lotMethod
    case FIFO => CompareChronology(left, right)
    case LIFO => -CompareChronology(left, right)
    case HIFO => CompareHighestCost(left, right)
  }

  predicate SortsBefore(lotMethod: LotMethod, left: Lot, right: Lot) {
    CompareFor(lotMethod, left, right) < 0
  }

  // -------- the comparisons are weak orders --------

  lemma ChronologyIsTotal(a: Lot, b: Lot)
    ensures CompareChronology(a, b) == -CompareChronology(b, a)
  {
    Text.CompareIsTotal(Text.TrimSpace(a.sourceId), Text.TrimSpace(b.sourceId));
  }

  lemma ChronologyIsTransitive(a: Lot, b: Lot, c: Lot)
    requires CompareChronology(a, b) <= 0 && CompareChronology(b, c) <= 0
    ensures CompareChronology(a, c) <= 0
  {
    if a.acquiredAt == b.acquiredAt == c.acquiredAt && a.order == b.order == c.order {
      Text.CompareIsTransitive(Text.TrimSpace(a.sourceId), Text.TrimSpace(b.sourceId), Text.TrimSpace(c.sourceId));
    }
  }

  /** Acquired earlier: on an earlier day, or the same day in an earlier place, or there under a smaller source ID. */
  ghost predicate Earlier(a: Lot, b: Lot) {
    || a.acquiredAt < b.acquiredAt
    || (a.acquiredAt == b.acquiredAt && a.order < b.order)
    || (a.acquiredAt == b.acquiredAt && a.order == b.order && Text.Precedes(Text.TrimSpace(a.sourceId), Text.TrimSpace(b.sourceId)))
  }

  lemma ChronologyIsEarlier(a: Lot, b: Lot)
    ensures CompareChronology(a, b) < 0 <==> Earlier(a, b)
  {
    hide Text.Precedes, Text.Compare;
    Text.CompareIsLexicographic(Text.TrimSpace(a.sourceId), Text.TrimSpace(b.sourceId));
  }

  ghost function UnitCost(lot: Lot): real
    requires lot.quantity != 0.0
  {
    lot.basis / lot.quantity
  }

  lemma CrossProducts(p: real, b: real, q: real, r: real)
    requires p * q == b
    ensures b * r == p * (q * r)
  {
  }

  /** On open lots the cross-multiplied comparison is the comparison of unit costs. */
  lemma CrossMultiplicationComparesUnitCosts(left: Lot, right: Lot)
    requires left.quantity > 0.0 && right.quantity > 0.0
    ensures CompareUnitCosts(left, right) == (if UnitCost(left) < UnitCost(right) then -1 else if UnitCost(left) > UnitCost(right) then 1 else 0)
  {
    var p, r := UnitCost(left), UnitCost(right);
    DivideThenMultiply(left.basis, left.quantity);
    DivideThenMultiply(right.basis, right.quantity);
    var both := left.quantity * right.quantity;
    CrossProducts(p, left.basis, left.quantity, right.quantity);
    CrossProducts(r, right.basis, right.quantity, left.quantity);
    CancelOrder(p, r, both);
    CancelOrder(r, p, both);
  }

  lemma ComparisonIsTotal(lotMethod: LotMethod, a: Lot, b: Lot)
    requires a.quantity > 0.0 && b.quantity > 0.0
    ensures CompareFor(lotMethod, a, b) == -CompareFor(lotMethod, b, a)
  {
    ChronologyIsTotal(a, b);
    CrossMultiplicationComparesUnitCosts(a, b);
    CrossMultiplicationComparesUnitCosts(b, a);
  }

  lemma ComparisonIsTransitive(lotMethod: LotMethod, a: Lot, b: Lot, c: Lot)
    requires a.quantity > 0.0 && b.quantity > 0.0 && c.quantity > 0.0
    requires CompareFor(lotMethod, a, b) <= 0 && CompareFor(lotMethod, b, c) <= 0
    ensures CompareFor(lotMethod, a, c) <= 0
  {
    match lotMethod
    case FIFO => ChronologyIsTransitive(a, b, c);
    case LIFO =>
      ChronologyIsTotal(a, b);
      ChronologyIsTotal(b, c);
      ChronologyIsTotal(a, c);
      ChronologyIsTransitive(c, b, a);
    case HIFO =>
      CrossMultiplicationComparesUnitCosts(a, b);
      CrossMultiplicationComparesUnitCosts(b, c);
      CrossMultiplicationComparesUnitCosts(a, c);
      if CompareUnitCosts(a, b) == 0 && CompareUnitCosts(b, c) == 0 {
        ChronologyIsTransitive(a, b, c);
      }
  }

  // -------- the disposal order --------

  ghost predicate NonNegativeQuantities(lots: seq<Lot>) {
    forall i :: 0 <= i < |lots| ==> lots[i].quantity >= 0.0
  }

  /** The open positions before the given one, in increasing order. */
  function OpenIndexes(lots: seq<Lot>, upTo: nat): (indexes: seq<nat>)
    requires upTo <= |lots|
    ensures forall i :: i in indexes <==> 0 <= i < upTo && lots[i].quantity != 0.0
    ensures forall j :: 0 <= j < |indexes| ==> indexes[j] < upTo
    ensures forall j, k :: 0 <= j < k < |indexes| ==> indexes[j] < indexes[k]
  {
    if upTo == 0 then []
    else if lots[upTo - 1].quantity == 0.0 then OpenIndexes(lots, upTo - 1)
    else OpenIndexes(lots, upTo - 1) + [upTo - 1]
  }

  function PositionBefore(lotMethod: LotMethod, lots: seq<Lot>): (nat, nat) -> bool {
    (i: nat, j: nat) => i < |lots| && j < |lots| && SortsBefore(lotMethod, lots[i], lots[j])
  }

  /** The open positions in disposal order. */
  function DisposalOrder(lotMethod: LotMethod, lots: seq<Lot>): seq<nat> {
    StableSort(PositionBefore(lotMethod, lots), OpenIndexes(lots, |lots|))
  }

  lemma DistinctByMultiset(s: seq<nat>, r: seq<nat>)
    requires Distinct(s) && multiset(s) == multiset(r)
    ensures Distinct(r)
  {
    forall i, j | 0 <= i < j < |r|
      ensures r[i] != r[j]
    {
      if r[i] == r[j] {
        TwiceInMultiset(r, i, j);
        OnceInMultiset(s, r[i]);
      }
    }
  }

  lemma TwiceInMultiset(r: seq<nat>, i: nat, j: nat)
    requires i < j < |r| && r[i] == r[j]
    ensures multiset(r)[r[i]] >= 2
  {
    assert r == r[..j] + r[j..];
    assert r[..j][i] in multiset(r[..j]);
    assert r[j..][0] in multiset(r[j..]);
  }

  lemma {:induction false} OnceInMultiset(s: seq<nat>, x: nat)
    requires Distinct(s)
    ensures multiset(s)[x] <= 1
  {
    if s == [] {
    } else {
      var init, last := s[..|s| - 1], s[|s| - 1];
      OnceInMultiset(init, x);
      assert s == init + [last];
      if x == last { assert x !in multiset(init); }
    }
  }

  lemma PositionsAreWeaklyOrdered(lotMethod: LotMethod, lots: seq<Lot>)
    requires NonNegativeQuantities(lots)
    ensures StrictWeakOrder(PositionBefore(lotMethod, lots), OpenIndexes(lots, |lots|))
  {
    var s, before := OpenIndexes(lots, |lots|), PositionBefore(lotMethod, lots);
    forall a, b | a in s && b in s && before(a, b)
      ensures !before(b, a)
    {
      ComparisonIsTotal(lotMethod, lots[a], lots[b]);
    }
    forall a, b, c | a in s && b in s && c in s && !before(b, a) && !before(c, b)
      ensures !before(c, a)
    {
      ComparisonIsTotal(lotMethod, lots[a], lots[b]);
      ComparisonIsTotal(lotMethod, lots[b], lots[c]);
      ComparisonIsTotal(lotMethod, lots[a], lots[c]);
      ComparisonIsTransitive(lotMethod, lots[a], lots[b], lots[c]);
    }
  }

  /** Every open lot appears exactly once. */
  lemma DisposalOrderIsPermutation(lotMethod: LotMethod, lots: seq<Lot>)
    requires NonNegativeQuantities(lots)
    ensures Distinct(DisposalOrder(lotMethod, lots))
    ensures forall i :: i in DisposalOrder(lotMethod, lots) <==> 0 <= i < |lots| && lots[i].quantity > 0.0
  {
    var s, before := OpenIndexes(lots, |lots|), PositionBefore(lotMethod, lots);
    StableSortElements(before, s);
    DistinctByMultiset(s, DisposalOrder(lotMethod, lots));
  }

  /** No lot stands behind one it must precede. */
  lemma DisposalOrderIsSorted(lotMethod: LotMethod, lots: seq<Lot>, j: nat, k: nat)
    requires NonNegativeQuantities(lots)
    requires j < k < |DisposalOrder(lotMethod, lots)|
    ensures DisposalOrder(lotMethod, lots)[j] < |lots| && DisposalOrder(lotMethod, lots)[k] < |lots|
    ensures CompareFor(lotMethod, lots[DisposalOrder(lotMethod, lots)[j]], lots[DisposalOrder(lotMethod, lots)[k]]) <= 0
  {
    var before, o := PositionBefore(lotMethod, lots), DisposalOrder(lotMethod, lots);
    DisposalOrderIsPermutation(lotMethod, lots);
    PositionsAreWeaklyOrdered(lotMethod, lots);
    StableSortSorts(before, OpenIndexes(lots, |lots|));
    assert o[j] in o && o[k] in o;
    assert !before(o[k], o[j]);
    ComparisonIsTotal(lotMethod, lots[o[j]], lots[o[k]]);
  }

  // -------- chronological histories --------

  /** Each lot was acquired no earlier than the one before it and with a larger replay order. */
  ghost predicate Chronological(lots: seq<Lot>) {
    forall i, j :: 0 <= i < j < |lots| ==> lots[i].acquiredAt <= lots[j].acquiredAt && lots[i].order < lots[j].order
  }

  lemma ChronologicalPair(earlier: Lot, later: Lot)
    requires earlier.acquiredAt <= later.acquiredAt && earlier.order < later.order
    ensures !SortsBefore(FIFO, later, earlier)
    ensures SortsBefore(LIFO, later, earlier)
  {
    hide CompareHighestCost;
  }

  lemma ChronologicalFifoOrder(lots: seq<Lot>)
    requires Chronological(lots)
    ensures DisposalOrder(FIFO, lots) == OpenIndexes(lots, |lots|)
  {
    hide SortsBefore;
    var s, before := OpenIndexes(lots, |lots|), PositionBefore(FIFO, lots);
    forall i, j | 0 <= i < j < |s|
      ensures !before(s[j], s[i])
    {
      ChronologicalPair(lots[s[i]], lots[s[j]]);
    }
    StableSortOfSorted(before, s);
  }

  lemma ChronologicalLifoOrder(lots: seq<Lot>)
    requires Chronological(lots)
    ensures DisposalOrder(LIFO, lots) == Reversed(OpenIndexes(lots, |lots|))
  {
    hide SortsBefore;
    var s, before := OpenIndexes(lots, |lots|), PositionBefore(LIFO, lots);
    forall i, j | 0 <= i < j < |s|
      ensures before(s[j], s[i])
    {
      ChronologicalPair(lots[s[i]], lots[s[j]]);
    }
    StableSortOfReversed(before, s);
  }
}
