/** When lots never overlap, the choice of method makes no difference. */
module Agreement {
  import opened Outcomes
  import opened Proportions
  import opened Sums
  import opened LotOrder
  import opened Lots
  import opened LotProperties
  import opened LotTheorems
  import opened SingleOpenLot
  import opened Pools
  import opened HybridTheorems
  import opened HybridMachine
  import opened BasisModel
  import opened MethodRuns
  import Text

  // -------- the relation between the five positions --------

  ghost predicate NothingOpenIn(lots: seq<Lot>) {
    forall j :: 0 <= j < |lots| ==> lots[j].quantity == 0.0
  }

  lemma {:induction false} OpenLotsOfClosed(lots: seq<Lot>)
    requires NothingOpenIn(lots)
    ensures OpenLots(lots) == []
  {
    if lots == [] {
    } else {
      OpenLotsOfClosed(lots[..|lots| - 1]);
    }
  }

  lemma {:induction false} OpenLotsOfSingle(lots: seq<Lot>, i: nat)
    requires i < |lots| && lots[i].quantity != 0.0 && forall j :: 0 <= j < |lots| && j != i ==> lots[j].quantity == 0.0
    ensures OpenLots(lots) == [lots[i]]
    decreases |lots|
  {
    var init := lots[..|lots| - 1];
    if i < |lots| - 1 {
      OpenLotsOfSingle(init, i);
    } else {
      OpenLotsOfClosed(init);
    }
  }

  lemma FindOpen(lots: seq<Lot>) returns (i: nat)
    requires WellFormed(lots) && |OpenLots(lots)| == 1
    ensures OnlyOpen(lots, i) && OpenLots(lots) == [lots[i]]
  {
    SingleOpenPosition(lots);
    i :| i < |lots| && lots[i].quantity != 0.0;
    OpenLotsOfSingle(lots, i);
  }

  lemma NoneOpen(lots: seq<Lot>)
    requires WellFormed(lots) && OpenLots(lots) == []
    ensures NothingOpenIn(lots) && TotalOpenQuantity(lots) == 0.0 && TotalOpenBasis(lots) == 0.0
  {
    forall j | 0 <= j < |lots|
      ensures lots[j].quantity == 0.0
    {
      if lots[j].quantity != 0.0 {
        OpenLotsNonEmpty(lots, j);
      }
    }
    SumOfZeros(OpenQuantities(lots));
    SumOfZeros(OpenBases(lots));
  }

  /** The same open position as the first-in-first-out lots, as each method records it in one scope. */
  ghost predicate SamePosition(lots: seq<Lot>, position: Position, key: string) {
    match position
    case LotPosition(_, own) => own == lots
    case PoolPosition(pool) => pool == Pool(TotalOpenQuantity(lots), TotalOpenBasis(lots))
    case ScopedPosition(scopes) =>
      if OpenLots(lots) == [] then scopes == map[]
      else
        && scopes.Keys == {key} && scopes[key].Exact?
        && OpenLots(scopes[key].lots) == OpenLots(lots)
  }

  ghost predicate SameReport(a: BasisDisposal, b: BasisDisposal) {
    a.allocatedBasis == b.allocatedBasis && a.reachedZero == b.reachedZero
  }

  lemma SameAcquisition(lots: seq<Lot>, position: Position, key: string, lot: Lot)
    requires WellFormed(lots) && ValidPosition(position) && SamePosition(lots, position, Text.TrimSpace(key))
    requires Text.TrimSpace(key) != "" && ValidateAcquisition(lot).None?
    ensures Acquired(position, key, lot).Success?
    ensures SamePosition(lots + [Stored(lot)], Acquired(position, key, lot).value, Text.TrimSpace(key))
  {
    TotalsAppend(lots, Stored(lot));
    assert (lots + [Stored(lot)])[..|lots|] == lots;
    match position
    case LotPosition(_, _) =>
    case PoolPosition(_) =>
    case ScopedPosition(scopes) =>
      if OpenLots(lots) == [] {
        assert [Stored(lot)][..0] == [];
      } else {
        var own := scopes[Text.TrimSpace(key)].lots;
        assert (own + [Stored(lot)])[..|own|] == own;
      }
  }

  /** With at most one open lot, every method refuses the same disposals, and reports the same basis and the same
      transition to zero for the others. */
  lemma SameDisposal(lots: seq<Lot>, position: Position, key: string, quantity: real)
    requires WellFormed(lots) && ValidPosition(position) && SamePosition(lots, position, Text.TrimSpace(key))
    requires Text.TrimSpace(key) != "" && |OpenLots(lots)| <= 1
    ensures ValidPosition(LotPosition(FIFO, lots))
    ensures Disposed(position, key, quantity).Success? <==> Disposed(LotPosition(FIFO, lots), key, quantity).Success?
    ensures Disposed(position, key, quantity).Success? ==>
              var (after, disposal) := Disposed(position, key, quantity).value;
              var (reference, report) := Disposed(LotPosition(FIFO, lots), key, quantity).value;
              && SameReport(disposal, report)
              && reference.LotPosition? && SamePosition(reference.lots, after, Text.TrimSpace(key))
  {
    if OpenLots(lots) == [] {
      NothingToDispose(lots, position, key, quantity);
    } else {
      var i := FindOpen(lots);
      match position
      case LotPosition(lotMethod, own) => SameLotDisposal(lotMethod, lots, i, key, quantity);
      case PoolPosition(pool) => SamePoolDisposal(pool, lots, i, key, quantity);
      case ScopedPosition(scopes) => SameScopeDisposal(scopes, lots, i, key, quantity);
    }
  }

  lemma NothingToDispose(lots: seq<Lot>, position: Position, key: string, quantity: real)
    requires WellFormed(lots) && ValidPosition(position) && SamePosition(lots, position, Text.TrimSpace(key))
    requires OpenLots(lots) == []
    ensures Disposed(position, key, quantity).Failure?
    ensures Disposed(LotPosition(FIFO, lots), key, quantity).Failure?
  {
    hide DisposalResult, LotsAfter, ReachedBasesNonNegative;
    NoneOpen(lots);
    DisposalSucceedsExactlyWhen(FIFO, lots, quantity);
    match position
    case LotPosition(lotMethod, own) => DisposalSucceedsExactlyWhen(lotMethod, own, quantity);
    case PoolPosition(pool) =>
    case ScopedPosition(scopes) =>
  }

  /** The first-in-first-out disposal of the one open lot. */
  lemma ReferenceDisposal(lotMethod: LotMethod, lots: seq<Lot>, i: nat, key: string, quantity: real)
    requires OnlyOpen(lots, i)
    ensures var lot := lots[i];
            var r := Disposed(LotPosition(lotMethod, lots), key, quantity);
            && (r.Success? <==> 0.0 < quantity <= lot.quantity && lot.basis >= 0.0)
            && (r.Success? ==>
                  && r.value.0 == LotPosition(lotMethod, lots[i := LotWithout(lot, quantity)])
                  && r.value.1.allocatedBasis == Share(lot.basis, lot.quantity, quantity)
                  && (r.value.1.reachedZero <==> quantity == lot.quantity)
                  && TotalOpenQuantity(lots[i := LotWithout(lot, quantity)]) == lot.quantity - quantity)
  {
    hide DisposalResult, LotsAfter, TotalOpenQuantity, Share;
    OnlyOpenDisposal(lotMethod, lots, i, quantity);
    OnlyOpenTotals(lots, i);
    if DisposalResult(lotMethod, lots, quantity).Success? {
      DisposalConserves(lotMethod, lots, quantity);
    }
  }

  lemma SameLotDisposal(lotMethod: LotMethod, lots: seq<Lot>, i: nat, key: string, quantity: real)
    requires OnlyOpen(lots, i)
    ensures Disposed(LotPosition(lotMethod, lots), key, quantity).Success? <==> Disposed(LotPosition(FIFO, lots), key, quantity).Success?
    ensures Disposed(LotPosition(lotMethod, lots), key, quantity).Success? ==>
              var (after, disposal) := Disposed(LotPosition(lotMethod, lots), key, quantity).value;
              var (reference, report) := Disposed(LotPosition(FIFO, lots), key, quantity).value;
              && SameReport(disposal, report)
              && reference.LotPosition? && SamePosition(reference.lots, after, Text.TrimSpace(key))
  {
    hide Disposed, Share, LotWithout, TotalOpenQuantity;
    ReferenceDisposal(lotMethod, lots, i, key, quantity);
    ReferenceDisposal(FIFO, lots, i, key, quantity);
  }

  lemma AfterTotals(lots: seq<Lot>, i: nat, quantity: real)
    requires OnlyOpen(lots, i) && 0.0 < quantity <= lots[i].quantity
    ensures var after := lots[i := LotWithout(lots[i], quantity)];
            && TotalOpenQuantity(after) == lots[i].quantity - quantity
            && TotalOpenBasis(after) == lots[i].basis - Share(lots[i].basis, lots[i].quantity, quantity)
            && OpenLots(after) == if quantity == lots[i].quantity then [] else [LotWithout(lots[i], quantity)]
  {
    var after := lots[i := LotWithout(lots[i], quantity)];
    WithoutLot(lots, i, quantity);
    AllocationIsShare(lots[i].basis, lots[i].quantity, quantity);
    hide Share;
    if quantity == lots[i].quantity {
      OpenLotsOfClosed(after);
      SumOfZeros(OpenQuantities(after));
      SumOfZeros(OpenBases(after));
    } else {
      OnlyOpenTotals(after, i);
      OpenLotsOfSingle(after, i);
    }
  }

  lemma SamePoolDisposal(pool: Pool, lots: seq<Lot>, i: nat, key: string, quantity: real)
    requires OnlyOpen(lots, i) && ValidPosition(PoolPosition(pool)) && SamePosition(lots, PoolPosition(pool), Text.TrimSpace(key))
    ensures Disposed(PoolPosition(pool), key, quantity).Success? <==> Disposed(LotPosition(FIFO, lots), key, quantity).Success?
    ensures Disposed(PoolPosition(pool), key, quantity).Success? ==>
              var (after, disposal) := Disposed(PoolPosition(pool), key, quantity).value;
              var (reference, report) := Disposed(LotPosition(FIFO, lots), key, quantity).value;
              && SameReport(disposal, report)
              && reference.LotPosition? && SamePosition(reference.lots, after, Text.TrimSpace(key))
  {
    hide Share, LotWithout, TotalOpenQuantity, TotalOpenBasis, DisposalResult, LotsAfter, PoolDisposalResult, PoolAfter;
    OnlyOpenTotals(lots, i);
    ReferenceDisposal(FIFO, lots, i, key, quantity);
    PoolDisposalConserves(pool, quantity);
    if 0.0 < quantity <= lots[i].quantity {
      AfterTotals(lots, i, quantity);
    }
  }

  lemma SameScopeDisposal(scopes: Scopes, lots: seq<Lot>, i: nat, scopeKey: string, quantity: real)
    requires OnlyOpen(lots, i) && OpenLots(lots) == [lots[i]] && Text.TrimSpace(scopeKey) != ""
    requires ValidPosition(ScopedPosition(scopes)) && SamePosition(lots, ScopedPosition(scopes), Text.TrimSpace(scopeKey))
    ensures Disposed(ScopedPosition(scopes), scopeKey, quantity).Success? <==> Disposed(LotPosition(FIFO, lots), scopeKey, quantity).Success?
    ensures Disposed(ScopedPosition(scopes), scopeKey, quantity).Success? ==>
              var (after, disposal) := Disposed(ScopedPosition(scopes), scopeKey, quantity).value;
              var (reference, report) := Disposed(LotPosition(FIFO, lots), scopeKey, quantity).value;
              && SameReport(disposal, report)
              && reference.LotPosition? && SamePosition(reference.lots, after, Text.TrimSpace(scopeKey))
  {
    hide Share, LotWithout, TotalOpenQuantity, TotalOpenBasis, DisposalResult, LotsAfter, OpenLots;
    var key := Text.TrimSpace(scopeKey);
    var own := scopes[key].lots;
    ReferenceDisposal(FIFO, lots, i, scopeKey, quantity);
    var j := FindOpen(own);
    ReferenceDisposal(FIFO, own, j, scopeKey, quantity);
    OnlyOpenDisposal(FIFO, own, j, quantity);
    if 0.0 < quantity <= lots[i].quantity {
      AfterTotals(lots, i, quantity);
      AfterTotals(own, j, quantity);
    }
  }

  // -------- whole histories --------

  /** All events name the same scope and acquire valid lots. */
  ghost predicate SingleScope(events: seq<ScopedEvent>, key: string) {
    forall k :: 0 <= k < |events| ==>
      && Text.TrimSpace(events[k].scopeKey) == key
      && (events[k].Acquire? ==> ValidateAcquisition(events[k].lot).None?)
  }

  /** No disposal ever finds more than one lot open. */
  ghost predicate NonOverlapping(events: seq<ScopedEvent>) {
    events == [] ||
    (var init, last := events[..|events| - 1], events[|events| - 1];
     && NonOverlapping(init)
     && (last.Remove? && Replay(Fifo, init).Success? && Replay(Fifo, init).value.position.LotPosition? ==>
           |OpenLots(Replay(Fifo, init).value.position.lots)| <= 1))
  }

  ghost predicate SameLedgers(reference: Ledger, ledger: Ledger, key: string) {
    && reference.position.LotPosition? && reference.position.lotMethod == FIFO
    && SamePosition(reference.position.lots, ledger.position, key)
    && |ledger.disposals| == |reference.disposals|
    && forall k :: 0 <= k < |ledger.disposals| ==> SameReport(ledger.disposals[k], reference.disposals[k])
  }

  lemma SameStep(reference: Ledger, ledger: Ledger, key: string, event: ScopedEvent)
    requires ValidPosition(reference.position) && ValidPosition(ledger.position) && SameLedgers(reference, ledger, key)
    requires key != "" && Text.TrimSpace(event.scopeKey) == key
    requires event.Acquire? ==> ValidateAcquisition(event.lot).None?
    requires event.Remove? ==> |OpenLots(reference.position.lots)| <= 1
    ensures LedgerStep(ledger, event).Success? <==> LedgerStep(reference, event).Success?
    ensures LedgerStep(ledger, event).Success? ==> SameLedgers(LedgerStep(reference, event).value, LedgerStep(ledger, event).value, key)
  {
    hide SamePosition, OpenLots, ValidateAcquisition;
    match event
    case Acquire(scopeKey, lot) =>
      SameAcquisition(reference.position.lots, ledger.position, scopeKey, lot);
      hide Acquired;
      AcquiredLots(FIFO, reference.position.lots, scopeKey, lot);
    case Remove(scopeKey, quantity) =>
      hide Disposed;
      SameDisposal(reference.position.lots, ledger.position, scopeKey, quantity);
      DisposedLots(FIFO, reference.position.lots, scopeKey, quantity);
  }

  lemma AcquiredLots(lotMethod: LotMethod, lots: seq<Lot>, scopeKey: string, lot: Lot)
    requires ValidateAcquisition(lot).None?
    ensures Acquired(LotPosition(lotMethod, lots), scopeKey, lot) == Success(LotPosition(lotMethod, lots + [Stored(lot)]))
  {
  }

  lemma DisposedLots(lotMethod: LotMethod, lots: seq<Lot>, scopeKey: string, quantity: real)
    requires WellFormed(lots)
    ensures Disposed(LotPosition(lotMethod, lots), scopeKey, quantity).Success? ==>
              var after := Disposed(LotPosition(lotMethod, lots), scopeKey, quantity).value.0;
              after.LotPosition? && after.lotMethod == lotMethod
  {
  }

  /** On a single-scope history whose lots never overlap at a disposal, every method succeeds exactly when
      first-in-first-out does, and every disposal reports the same allocated basis and the same transition to
      zero, so every gain is the same too. */
  lemma {:induction false} MethodsAgreeWithoutOverlap(costBasisMethod: CostBasisMethod, events: seq<ScopedEvent>, key: string)
    requires key != "" && SingleScope(events, key) && NonOverlapping(events)
    ensures Replay(costBasisMethod, events).Success? <==> Replay(Fifo, events).Success?
    ensures Replay(Fifo, events).Success? ==>
              SameLedgers(Replay(Fifo, events).value, Replay(costBasisMethod, events).value, key)
    decreases |events|
  {
    if events == [] {
      assert OpenQuantities([]) == [] && OpenBases([]) == [];
    } else {
      hide LedgerStep, SameLedgers;
      var init, last := events[..|events| - 1], events[|events| - 1];
      MethodsAgreeWithoutOverlap(costBasisMethod, init, key);
      if Replay(Fifo, init).Success? {
        LedgersShape(Replay(Fifo, init).value, Replay(costBasisMethod, init).value, key);
        SameStep(Replay(Fifo, init).value, Replay(costBasisMethod, init).value, key, last);
      }
    }
  }

  lemma LedgersShape(reference: Ledger, ledger: Ledger, key: string)
    requires SameLedgers(reference, ledger, key)
    ensures reference.position.LotPosition?
  {
  }
}
