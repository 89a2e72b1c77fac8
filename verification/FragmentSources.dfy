/** Where the fragments of a disposal come from: each is what one lot lost, or the whole of a pool's or a scope's. */
module FragmentSources {
  import opened Outcomes
  import opened Proportions
  import opened LotOrder
  import opened Lots
  import opened LotProperties
  import opened LotTheorems
  import opened SingleOpenLot
  import opened Pools
  import opened HybridScopes
  import opened HybridTheorems
  import opened HybridMachine
  import opened BasisModel
  import Text

  /** The fragment is what a lot lost, under the lot's trimmed identifier; it is not priced yet. */
  ghost predicate LostBy(m: BasisMatch, lot: Lot, after: Lot) {
    && m.sourceId == Text.TrimSpace(lot.sourceId) && m.quantity == lot.quantity - after.quantity > 0.0
    && m.basis == lot.basis - after.basis && m.proceeds == None && m.gain == None
  }

  /** The fragments follow the disposal order, each what its lot lost, and every lot that lost anything has one. */
  ghost predicate FragmentsOfLots(lots: seq<Lot>, after: seq<Lot>, order: seq<nat>, matches: seq<BasisMatch>)
    requires InRange(order, lots) && |after| == |lots|
  {
    && |matches| <= |order|
    && (forall k :: 0 <= k < |matches| ==> LostBy(matches[k], lots[order[k]], after[order[k]]))
    && forall i :: 0 <= i < |lots| && i !in order[..|matches|] ==> after[i] == lots[i]
  }

  lemma PartIsLost(lot: Lot, taken: real)
    requires lot.quantity > 0.0 && 0.0 < taken <= lot.quantity
    ensures LostBy(PlainMatch(MatchOf(lot, taken)), lot, LotWithout(lot, taken))
  {
    hide Share, Text.TrimSpace;
    Text.TrimSpaceTrims(lot.sourceId);
  }

  lemma TakenIsPart(lots: seq<Lot>, order: seq<nat>, quantity: real, k: nat)
    requires OpenDistinct(order, lots) && k < |order|
    ensures Reached(lots, order, quantity, k) ==> 0.0 < Taken(lots, order, quantity, k) <= lots[order[k]].quantity
    ensures !Reached(lots, order, quantity, k) ==> LotWithout(lots[order[k]], Taken(lots, order, quantity, k)) == lots[order[k]]
  {
    hide Share, QuantityBefore;
  }

  /** The fragments of a disposal from lots. */
  lemma LotFragmentsAreWhatLotsLost(lotMethod: LotMethod, lots: seq<Lot>, scopeKey: string, quantity: real)
    requires WellFormed(lots) && Disposed(LotPosition(lotMethod, lots), scopeKey, quantity).Success?
    ensures InRange(DisposalOrder(lotMethod, lots), lots)
    ensures var (after, disposal) := Disposed(LotPosition(lotMethod, lots), scopeKey, quantity).value;
            && after == LotPosition(lotMethod, after.lots) && |after.lots| == |lots|
            && FragmentsOfLots(lots, after.lots, DisposalOrder(lotMethod, lots), disposal.matches)
  {
    hide DisposalOrder, Consume, QuantityBefore, Reached, Taken, LotWithout, MatchOf, PlainMatch, LostBy;
    var order := DisposalOrder(lotMethod, lots);
    DisposalSucceedsExactlyWhen(lotMethod, lots, quantity);
    ConsumeAllTakesExactly(lotMethod, lots, quantity);
    var matches := Disposed(LotPosition(lotMethod, lots), scopeKey, quantity).value.1.matches;
    forall k | 0 <= k < |order|
      ensures Reached(lots, order, quantity, k) ==> LostBy(PlainMatch(MatchOf(lots[order[k]], Taken(lots, order, quantity, k))), lots[order[k]],
                                                           LotWithout(lots[order[k]], Taken(lots, order, quantity, k)))
      ensures !Reached(lots, order, quantity, k) ==> LotWithout(lots[order[k]], Taken(lots, order, quantity, k)) == lots[order[k]]
    {
      TakenIsPart(lots, order, quantity, k);
      if Reached(lots, order, quantity, k) {
        PartIsLost(lots[order[k]], Taken(lots, order, quantity, k));
      }
    }
    forall k | 0 <= k < |matches|
      ensures order[k] in order[..|matches|]
    {
      assert order[..|matches|][k] == order[k];
    }
    forall i | 0 <= i < |lots| && i !in order[..|matches|]
      ensures LotsAfter(lotMethod, lots, quantity)[i] == lots[i]
    {
      if i in order {
        var k :| 0 <= k < |order| && order[k] == i;
      }
    }
  }

  /** A pool reports one fragment under its own name, for all that was disposed of. */
  lemma PoolFragmentIsTheWhole(pool: Pool, scopeKey: string, quantity: real)
    requires WellFormedPool(pool) && Disposed(PoolPosition(pool), scopeKey, quantity).Success?
    ensures Disposed(PoolPosition(pool), scopeKey, quantity).value.1.matches
            == [BasisMatch("AVERAGE_COST_POOL", quantity, Share(pool.basis, pool.quantity, quantity), None, None)]
  {
    hide Share;
    PoolDisposalConserves(pool, quantity);
  }

  /** So does a scope, under its key, unless it is exact with a single open lot. */
  lemma ScopeFragmentIsTheWhole(scopes: Scopes, scopeKey: string, quantity: real)
    requires OpenScopes(scopes) && Disposed(ScopedPosition(scopes), scopeKey, quantity).Success?
    requires var scope := scopes[Text.TrimSpace(scopeKey)]; scope.Exact? ==> |OpenLots(scope.lots)| != 1
    ensures var scope := scopes[Text.TrimSpace(scopeKey)];
            Disposed(ScopedPosition(scopes), scopeKey, quantity).value.1.matches
            == [BasisMatch(Text.TrimSpace(scopeKey), quantity, Share(ScopeBasis(scope), ScopeQuantity(scope), quantity), None, None)]
  {
    hide Share, FallbackDisposal, Activated, Text.TrimSpace, OpenLots;
    match scopes[Text.TrimSpace(scopeKey)]
    case Fallback(pool, provenance) => FallbackDisposalKeeps(pool, provenance, quantity);
    case Exact(lots) =>
      ActivationKeepsTotals(lots);
      FallbackDisposalKeeps(Activated(lots).value.pool, Activated(lots).value.provenance, quantity);
  }

  /** Such a scope reports one fragment, under the identifier of that lot, with what the lot lost. */
  lemma SingleLotFragmentIsItsOwn(scopes: Scopes, scopeKey: string, quantity: real, i: nat)
    requires OpenScopes(scopes) && Disposed(ScopedPosition(scopes), scopeKey, quantity).Success?
    requires scopes[Text.TrimSpace(scopeKey)].Exact?
    requires var lots := scopes[Text.TrimSpace(scopeKey)].lots; OnlyOpen(lots, i)
    ensures var lot := scopes[Text.TrimSpace(scopeKey)].lots[i];
            Disposed(ScopedPosition(scopes), scopeKey, quantity).value.1.matches
            == [BasisMatch(Text.TrimSpace(lot.sourceId), quantity, Share(lot.basis, lot.quantity, quantity), None, None)]
  {
    hide Share, DisposalResult, LotsAfter, Activated, Text.TrimSpace, OpenLots;
    var lots := scopes[Text.TrimSpace(scopeKey)].lots;
    OnlyOpenIsListed(lots, i);
    OnlyOpenDisposal(FIFO, lots, i, quantity);
    Text.TrimSpaceTrims(lots[i].sourceId);
  }

  lemma OnlyOpenIsListed(lots: seq<Lot>, i: nat)
    requires OnlyOpen(lots, i)
    ensures |OpenLots(lots)| == 1
  {
    OpenLotsListsThemAll(lots);
    assert OpenPositions(lots) == {i};
  }
}
