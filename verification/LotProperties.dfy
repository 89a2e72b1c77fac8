/** What a lot disposal takes, from which lots, and what it conserves. */
module LotProperties {
  import opened Sequences
  import opened Outcomes
  import opened Proportions
  import opened Sums
  import opened LotOrder
  import opened Lots
  import Text

  /** No quantity is negative, and a closed lot carries no basis. */
  ghost predicate WellFormed(lots: seq<Lot>) {
    && NonNegativeQuantities(lots)
    && forall i :: 0 <= i < |lots| && lots[i].quantity == 0.0 ==> lots[i].basis == 0.0
  }

  /** The same lot, apart from how much of it is left. */
  ghost predicate SameIdentity(a: Lot, b: Lot) {
    a.sourceId == b.sourceId && a.acquiredAt == b.acquiredAt && a.order == b.order
  }

  ghost predicate SameIdentities(a: seq<Lot>, b: seq<Lot>) {
    |a| == |b| && forall i :: 0 <= i < |a| ==> SameIdentity(a[i], b[i])
  }

  ghost function MatchedQuantities(matches: seq<LotMatch>): (s: seq<real>)
    ensures |s| == |matches| && forall i :: 0 <= i < |matches| ==> s[i] == matches[i].quantity
  {
    seq(|matches|, i requires 0 <= i < |matches| => matches[i].quantity)
  }

  ghost function MatchedBases(matches: seq<LotMatch>): (s: seq<real>)
    ensures |s| == |matches| && forall i :: 0 <= i < |matches| ==> s[i] == matches[i].basis
  {
    seq(|matches|, i requires 0 <= i < |matches| => matches[i].basis)
  }

  // -------- conservation, step by step --------

  ghost predicate OpenDistinct(order: seq<nat>, lots: seq<Lot>) {
    && Distinct(order) && InRange(order, lots)
    && forall k :: 0 <= k < |order| ==> lots[order[k]].quantity > 0.0
  }

  /** What two moments of one disposal have in common. */
  ghost predicate Conserved(a: Consumption, b: Consumption) {
    && SameIdentities(a.lots, b.lots)
    && TotalOpenQuantity(b.lots) - b.remaining == TotalOpenQuantity(a.lots) - a.remaining
    && TotalOpenBasis(b.lots) + b.allocatedBasis == TotalOpenBasis(a.lots) + a.allocatedBasis
    && Sum(MatchedQuantities(b.matches)) + b.remaining == Sum(MatchedQuantities(a.matches)) + a.remaining
    && Sum(MatchedBases(b.matches)) - b.allocatedBasis == Sum(MatchedBases(a.matches)) - a.allocatedBasis
  }

  lemma MatchesAppend(matches: seq<LotMatch>, m: LotMatch)
    ensures Sum(MatchedQuantities(matches + [m])) == Sum(MatchedQuantities(matches)) + m.quantity
    ensures Sum(MatchedBases(matches + [m])) == Sum(MatchedBases(matches)) + m.basis
  {
    assert MatchedQuantities(matches + [m]) == MatchedQuantities(matches) + [m.quantity];
    assert MatchedBases(matches + [m]) == MatchedBases(matches) + [m.basis];
    SumAppend(MatchedQuantities(matches), m.quantity);
    SumAppend(MatchedBases(matches), m.basis);
  }

  lemma AllocationIsShare(total: real, quantity: real, portion: real)
    requires 0.0 < portion <= quantity
    ensures AllocateProportional(total, quantity, portion) == (if total < 0.0 then Failure(NegativeAmount) else Success(Share(total, quantity, portion)))
    ensures Share(total, quantity, quantity) == total
  {
  }

  /** Taking from an open lot moves quantity and basis from the lot to the disposal, and nothing else. */
  lemma TakeConserves(c: Consumption, index: nat)
    requires index < |c.lots| && c.lots[index].quantity > 0.0 && c.remaining > 0.0
    requires WellFormed(c.lots)
    ensures WellFormed(TakeFromLot(c, index).lots) && Conserved(c, TakeFromLot(c, index))
    ensures 0.0 <= TakeFromLot(c, index).remaining <= c.remaining
    ensures forall i :: 0 <= i < |c.lots| && i != index ==> TakeFromLot(c, index).lots[i] == c.lots[i]
  {
    var lot := c.lots[index];
    var matched := Minimum(lot.quantity, c.remaining);
    AllocationIsShare(lot.basis, lot.quantity, matched);
    if lot.basis >= 0.0 {
      hide Share;
      var basis := Share(lot.basis, lot.quantity, matched);
      var left := lot.(quantity := lot.quantity - matched, basis := lot.basis - basis);
      TotalsUpdate(c.lots, index, left);
      MatchesAppend(c.matches, LotMatch(Text.TrimSpace(lot.sourceId), matched, basis));
    }
  }

  lemma {:induction false} ConsumeConserves(c: Consumption, order: seq<nat>)
    requires WellFormed(c.lots) && OpenDistinct(order, c.lots) && c.remaining >= 0.0
    ensures WellFormed(Consume(c, order).lots) && Conserved(c, Consume(c, order))
    ensures 0.0 <= Consume(c, order).remaining <= c.remaining
    decreases |order|
  {
    hide TakeFromLot;
    if order == [] || c.remaining == 0.0 || c.error.Some? {
    } else {
      TakeConserves(c, order[0]);
      ConsumeConserves(TakeFromLot(c, order[0]), order[1..]);
    }
  }

  // -------- exactly which lots give how much --------

  /** The quantity of the lots that stand before position k of the order. */
  ghost function QuantityBefore(lots: seq<Lot>, order: seq<nat>, k: nat): real
    requires InRange(order, lots) && k <= |order|
    decreases k
  {
    if k == 0 then 0.0 else lots[order[0]].quantity + QuantityBefore(lots, order[1..], k - 1)
  }

  /** What the lot at position k of the order gives to a disposal of the given quantity. */
  ghost function Taken(lots: seq<Lot>, order: seq<nat>, quantity: real, k: nat): real
    requires InRange(order, lots) && k < |order|
  {
    Clip(quantity - QuantityBefore(lots, order, k), lots[order[k]].quantity)
  }

  /** The disposal reaches the lot at position k of the order. */
  ghost predicate Reached(lots: seq<Lot>, order: seq<nat>, quantity: real, k: nat)
    requires InRange(order, lots) && k < |order|
  {
    QuantityBefore(lots, order, k) < quantity
  }

  ghost predicate ReachedBasesNonNegative(lots: seq<Lot>, order: seq<nat>, quantity: real)
    requires InRange(order, lots)
  {
    forall k :: 0 <= k < |order| && Reached(lots, order, quantity, k) ==> lots[order[k]].basis >= 0.0
  }

  ghost function LotWithout(lot: Lot, taken: real): Lot
    requires lot.quantity != 0.0
  {
    if taken == 0.0 then lot
    else lot.(quantity := lot.quantity - taken, basis := lot.basis - Share(lot.basis, lot.quantity, taken))
  }

  ghost function MatchOf(lot: Lot, taken: real): LotMatch
    requires lot.quantity != 0.0
  {
    LotMatch(Text.TrimSpace(lot.sourceId), taken, Share(lot.basis, lot.quantity, taken))
  }

  lemma {:induction false} QuantityBeforeFrame(a: seq<Lot>, b: seq<Lot>, order: seq<nat>, k: nat)
    requires InRange(order, a) && InRange(order, b) && k <= |order|
    requires forall j :: 0 <= j < |order| ==> a[order[j]].quantity == b[order[j]].quantity
    ensures QuantityBefore(a, order, k) == QuantityBefore(b, order, k)
    decreases k
  {
    if k == 0 {
    } else {
      QuantityBeforeFrame(a, b, order[1..], k - 1);
    }
  }

  lemma {:induction false} QuantityBeforeStep(lots: seq<Lot>, order: seq<nat>, k: nat)
    requires InRange(order, lots) && k < |order|
    ensures QuantityBefore(lots, order, k + 1) == QuantityBefore(lots, order, k) + lots[order[k]].quantity
    decreases k
  {
    if k == 0 {
    } else {
      QuantityBeforeStep(lots, order[1..], k - 1);
    }
  }

  lemma {:induction false} QuantityBeforeIsMonotone(lots: seq<Lot>, order: seq<nat>, j: nat, k: nat)
    requires OpenDistinct(order, lots) && j <= k <= |order|
    ensures QuantityBefore(lots, order, j) <= QuantityBefore(lots, order, k)
    ensures j < k ==> QuantityBefore(lots, order, j) + lots[order[j]].quantity <= QuantityBefore(lots, order, k)
    decreases k - j
  {
    if j == k {
    } else {
      QuantityBeforeStep(lots, order, j);
      QuantityBeforeIsMonotone(lots, order, j + 1, k);
    }
  }

  ghost predicate LotsConsumedExactly(c: Consumption, order: seq<nat>, r: Consumption)
    requires OpenDistinct(order, c.lots)
  {
    && |r.lots| == |c.lots|
    && (forall i :: 0 <= i < |c.lots| && i !in order ==> r.lots[i] == c.lots[i])
    && (forall k :: 0 <= k < |order| ==> r.lots[order[k]] == LotWithout(c.lots[order[k]], Taken(c.lots, order, c.remaining, k)))
  }

  ghost predicate MatchesConsumedExactly(c: Consumption, order: seq<nat>, r: Consumption)
    requires OpenDistinct(order, c.lots)
  {
    && |c.matches| <= |r.matches| <= |c.matches| + |order|
    && (forall k :: 0 <= k < |order| ==> (Reached(c.lots, order, c.remaining, k) <==> k < |r.matches| - |c.matches|))
    && (forall j :: 0 <= j < |c.matches| ==> r.matches[j] == c.matches[j])
    && (forall k :: 0 <= k < |r.matches| - |c.matches| ==>
          r.matches[|c.matches| + k] == MatchOf(c.lots[order[k]], Taken(c.lots, order, c.remaining, k)))
  }

  /** The state a disposal of quantity along the order must reach, written without recursion. */
  ghost predicate ConsumedExactly(c: Consumption, order: seq<nat>, r: Consumption)
    requires OpenDistinct(order, c.lots)
  {
    && r.error.None?
    && r.remaining == Maximum(0.0, c.remaining - QuantityBefore(c.lots, order, |order|))
    && LotsConsumedExactly(c, order, r)
    && MatchesConsumedExactly(c, order, r)
  }

  lemma ConsumeNothing(c: Consumption, order: seq<nat>)
    requires OpenDistinct(order, c.lots) && c.error.None? && c.remaining == 0.0
    ensures ConsumedExactly(c, order, c)
  {
    forall k | 0 <= k < |order|
      ensures QuantityBefore(c.lots, order, k) >= 0.0
    {
      QuantityBeforeIsMonotone(c.lots, order, 0, k);
    }
    QuantityBeforeIsMonotone(c.lots, order, 0, |order|);
  }

  /** The first lot of the order gives what it can, up to what is asked. */
  lemma TakeFirst(c: Consumption, order: seq<nat>)
    requires OpenDistinct(order, c.lots) && order != [] && c.error.None? && c.remaining > 0.0
    requires c.lots[order[0]].basis >= 0.0
    ensures var taken := Minimum(c.lots[order[0]].quantity, c.remaining);
            && taken == Taken(c.lots, order, c.remaining, 0)
            && TakeFromLot(c, order[0])
               == Consumption(c.lots[order[0] := LotWithout(c.lots[order[0]], taken)], c.remaining - taken,
                              c.matches + [MatchOf(c.lots[order[0]], taken)],
                              c.allocatedBasis + Share(c.lots[order[0]].basis, c.lots[order[0]].quantity, taken), None)
  {
    var lot := c.lots[order[0]];
    AllocationIsShare(lot.basis, lot.quantity, Minimum(lot.quantity, c.remaining));
  }

  lemma TailIsOpen(lots: seq<Lot>, order: seq<nat>, next: seq<Lot>)
    requires OpenDistinct(order, lots) && order != []
    requires |next| == |lots| && forall i :: 0 <= i < |lots| && i != order[0] ==> next[i] == lots[i]
    ensures OpenDistinct(order[1..], next)
    ensures forall k :: 0 <= k < |order| - 1 ==> order[1..][k] == order[k + 1] && next[order[k + 1]] == lots[order[k + 1]]
  {
    var tail := order[1..];
    forall k | 0 <= k < |tail|
      ensures tail[k] < |next| && next[tail[k]] == lots[order[k + 1]]
    {
      assert tail[k] == order[k + 1] && order[0] != order[k + 1];
    }
    forall i, j | 0 <= i < j < |tail|
      ensures tail[i] != tail[j]
    {
      assert tail[i] == order[i + 1] && tail[j] == order[j + 1];
    }
  }

  lemma TailQuantityBefore(lots: seq<Lot>, order: seq<nat>, next: seq<Lot>, k: nat)
    requires OpenDistinct(order, lots) && 0 < k <= |order|
    requires |next| == |lots| && forall i :: 0 <= i < |lots| && i != order[0] ==> next[i] == lots[i]
    ensures InRange(order[1..], next)
    ensures QuantityBefore(next, order[1..], k - 1) == QuantityBefore(lots, order, k) - lots[order[0]].quantity
  {
    TailIsOpen(lots, order, next);
    QuantityBeforeFrame(lots, next, order[1..], k - 1);
  }

  lemma ConsumeLastLot(c: Consumption, order: seq<nat>)
    requires OpenDistinct(order, c.lots) && order != [] && c.error.None? && c.remaining > 0.0
    requires c.lots[order[0]].basis >= 0.0 && c.remaining <= c.lots[order[0]].quantity
    ensures ConsumedExactly(c, order, TakeFromLot(c, order[0]))
  {
    hide TakeFromLot;
    hide Share;
    TakeFirst(c, order);
    forall k | 0 < k <= |order|
      ensures QuantityBefore(c.lots, order, k) >= c.remaining
    {
      QuantityBeforeIsMonotone(c.lots, order, 0, k);
    }
  }

  lemma TailTaken(lots: seq<Lot>, order: seq<nat>, next: seq<Lot>, quantity: real, k: nat)
    requires OpenDistinct(order, lots) && 0 < k < |order|
    requires |next| == |lots| && forall i :: 0 <= i < |lots| && i != order[0] ==> next[i] == lots[i]
    ensures InRange(order[1..], next) && order[1..][k - 1] == order[k] && next[order[k]] == lots[order[k]]
    ensures var rest := quantity - lots[order[0]].quantity;
            && Taken(next, order[1..], rest, k - 1) == Taken(lots, order, quantity, k)
            && Reached(next, order[1..], rest, k - 1) == Reached(lots, order, quantity, k)
  {
    TailIsOpen(lots, order, next);
    TailQuantityBefore(lots, order, next, k);
  }

  lemma WholeLotLots(c: Consumption, order: seq<nat>, next: Consumption, r: Consumption)
    requires OpenDistinct(order, c.lots) && order != []
    requires c.remaining > c.lots[order[0]].quantity
    requires next.lots == c.lots[order[0] := LotWithout(c.lots[order[0]], c.lots[order[0]].quantity)]
    requires next.remaining == c.remaining - c.lots[order[0]].quantity
    requires OpenDistinct(order[1..], next.lots) && LotsConsumedExactly(next, order[1..], r)
    ensures LotsConsumedExactly(c, order, r)
  {
    hide Reached, LotWithout, QuantityBefore;
    var first := order[0];
    assert order == [first] + order[1..];
    assert first !in order[1..];
    FirstIsTakenWhole(c.lots, order, c.remaining);
    forall k | 0 < k < |order|
      ensures r.lots[order[k]] == LotWithout(c.lots[order[k]], Taken(c.lots, order, c.remaining, k))
    {
      TailTaken(c.lots, order, next.lots, c.remaining, k);
    }
  }

  lemma WholeLotMatches(c: Consumption, order: seq<nat>, next: Consumption, r: Consumption)
    requires OpenDistinct(order, c.lots) && order != []
    requires c.remaining > c.lots[order[0]].quantity
    requires next.lots == c.lots[order[0] := LotWithout(c.lots[order[0]], c.lots[order[0]].quantity)]
    requires next.matches == c.matches + [MatchOf(c.lots[order[0]], c.lots[order[0]].quantity)]
    requires next.remaining == c.remaining - c.lots[order[0]].quantity
    requires OpenDistinct(order[1..], next.lots) && MatchesConsumedExactly(next, order[1..], r)
    ensures MatchesConsumedExactly(c, order, r)
  {
    hide Reached, Taken, LotWithout, QuantityBefore, MatchOf;
    FirstIsTakenWhole(c.lots, order, c.remaining);
    forall k | 0 < k < |order|
      ensures Reached(c.lots, order, c.remaining, k) <==> k < |r.matches| - |c.matches|
    {
      TailTaken(c.lots, order, next.lots, c.remaining, k);
    }
    forall k | 0 < k < |r.matches| - |c.matches|
      ensures r.matches[|c.matches| + k] == MatchOf(c.lots[order[k]], Taken(c.lots, order, c.remaining, k))
    {
      TailTaken(c.lots, order, next.lots, c.remaining, k);
      assert r.matches[|next.matches| + (k - 1)] == MatchOf(next.lots[order[1..][k - 1]], Taken(next.lots, order[1..], next.remaining, k - 1));
    }
    assert r.matches[|c.matches|] == next.matches[|c.matches|];
  }

  lemma FirstIsTakenWhole(lots: seq<Lot>, order: seq<nat>, quantity: real)
    requires OpenDistinct(order, lots) && order != [] && quantity > lots[order[0]].quantity
    ensures Reached(lots, order, quantity, 0) && Taken(lots, order, quantity, 0) == lots[order[0]].quantity
  {
  }

  lemma ConsumeWholeLot(c: Consumption, order: seq<nat>, next: Consumption, r: Consumption)
    requires OpenDistinct(order, c.lots) && order != [] && c.error.None?
    requires c.lots[order[0]].basis >= 0.0 && c.remaining > c.lots[order[0]].quantity
    requires next == TakeFromLot(c, order[0])
    requires OpenDistinct(order[1..], next.lots) && ConsumedExactly(next, order[1..], r)
    ensures ConsumedExactly(c, order, r)
  {
    hide TakeFromLot, Share, Taken, Reached, LotWithout, MatchOf, QuantityBefore, LotsConsumedExactly, MatchesConsumedExactly;
    TakeFirst(c, order);
    WholeLotLots(c, order, next, r);
    WholeLotMatches(c, order, next, r);
    TailQuantityBefore(c.lots, order, next.lots, |order|);
  }

  /** As long as no lot with a negative basis is reached, a disposal takes from each lot exactly the part of
      the asked quantity that falls on it along the order. */
  lemma {:induction false} ConsumeTakesExactly(c: Consumption, order: seq<nat>)
    requires OpenDistinct(order, c.lots) && c.error.None? && c.remaining >= 0.0
    requires ReachedBasesNonNegative(c.lots, order, c.remaining)
    ensures ConsumedExactly(c, order, Consume(c, order))
    decreases |order|
  {
    if order == [] {
    } else {
      if c.remaining == 0.0 {
        ConsumeNothing(c, order);
      } else {
        assert Reached(c.lots, order, c.remaining, 0);
        var next := TakeFromLot(c, order[0]);
        TakeFirst(c, order);
        TailIsOpen(c.lots, order, next.lots);
        if c.remaining <= c.lots[order[0]].quantity {
          ConsumeLastLot(c, order);
          assert Consume(next, order[1..]) == next;
        } else {
          forall k | 0 <= k < |order[1..]| && Reached(next.lots, order[1..], next.remaining, k)
            ensures next.lots[order[1..][k]].basis >= 0.0
          {
            TailTaken(c.lots, order, next.lots, c.remaining, k + 1);
            assert Reached(c.lots, order, c.remaining, k + 1);
          }
          ConsumeTakesExactly(next, order[1..]);
          ConsumeWholeLot(c, order, next, Consume(next, order[1..]));
        }
      }
    }
  }
}
