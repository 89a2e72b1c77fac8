/** Whole hybrid histories, over all scopes at once: when rounding can refuse a disposal, and how far a scope drifts. */
module HybridRefusals {
  import opened LotOrder
  import opened LotRefusals
  import opened QueueRuns
  import opened PoolHistories
  import opened PoolRefusals
  import opened HybridDecomposition
  import opened ScopePools
  import HybridMachine
  import Text

  type ScopedEvent = HybridMachine.ScopedEvent

  function AsLotEvent(event: ScopeEvent): LotEvent {
    match event
    case Add(lot) => Acquire(lot)
    case Take(quantity) => Remove(quantity)
  }

  function AsLotEvents(events: seq<ScopeEvent>): (s: seq<LotEvent>)
    ensures |s| == |events| && forall i :: 0 <= i < |s| ==> s[i] == AsLotEvent(events[i])
  {
    seq(|events|, i requires 0 <= i < |events| => AsLotEvent(events[i]))
  }

  lemma EventsAreTheSame(events: seq<ScopeEvent>, lotEvents: seq<LotEvent>)
    ensures AsScopeEvents(AsLotEvents(events)) == events && AsLotEvents(AsScopeEvents(lotEvents)) == lotEvents
  {
  }

  /** What a history acquires into and removes from one scope. */
  function HistoryOf(events: seq<ScopedEvent>, key: string): seq<LotEvent> {
    AsLotEvents(Project(events, key))
  }

  ghost predicate KeysAreNotBlank(events: seq<ScopedEvent>) {
    forall i :: 0 <= i < |events| ==> EventKey(events[i]) != ""
  }

  // -------- drift --------

  /** After every successful history each scope, in whatever mode, holds the quantity of the unrounded average-cost pool
      of its own acquisitions and removals, and a basis within half a unit for each removal since it was last empty. */
  lemma HybridDriftIsBounded(events: seq<ScopedEvent>, key: string)
    requires KeysAreNotBlank(events) && HybridMachine.HybridRun(events).Success?
    ensures WithinRounding(ScopePool(HybridMachine.ScopeOf(HybridMachine.HybridRun(events).value.scopes, key)),
                           Unrounded(HistoryOf(events, key)), RemovalsSinceEmpty(HistoryOf(events, key)) as real / 2.0)
  {
    hide ScopeRun, Project, ScopePool, WithinRounding, Unrounded, RemovalsSinceEmpty, HybridMachine.HybridRun, HybridMachine.ScopeOf;
    HybridDecomposes(events);
    EventsAreTheSame(Project(events, key), []);
    assert AgreesOn(events, HybridMachine.HybridRun(events).value, key);
    ScopeDriftIsBounded(HistoryOf(events, key));
  }

  // -------- histories over given acquisitions --------

  /** The lots to be acquired into each scope, in order; a scope without an entry acquires none. */
  type Acquired = map<string, seq<Lot>>

  ghost function LotsOf(acquired: Acquired, key: string): seq<Lot> {
    if key in acquired then acquired[key] else []
  }

  ghost predicate ValidScopes(acquired: Acquired) {
    forall key :: key in acquired ==> key != "" && Text.TrimSpace(key) == key && ValidLots(acquired[key])
  }

  ghost predicate ScopeHistoryOver(events: seq<ScopedEvent>, acquired: Acquired, key: string) {
    HistoryOver(HistoryOf(events, key), LotsOf(acquired, key), |LotsOf(acquired, key)|)
  }

  /** A history in which every scope acquires its given lots in order, and never removes more than it then holds. */
  ghost predicate HybridHistoryOver(events: seq<ScopedEvent>, acquired: Acquired) {
    KeysAreNotBlank(events) && forall key :: ScopeHistoryOver(events, acquired, key)
  }

  ghost predicate SmallScopes(acquired: Acquired) {
    forall key :: key in acquired ==> SmallStretches(Bases(acquired[key]))
  }

  lemma SmallScopeIsAccepted(events: seq<ScopedEvent>, acquired: Acquired, key: string)
    requires ValidScopes(acquired) && SmallScopes(acquired) && ScopeHistoryOver(events, acquired, key)
    ensures ScopeRun(Project(events, key)).Success?
  {
    hide ScopeRun, Project, HistoryOver, SmallStretch, ValidLots;
    var lots := LotsOf(acquired, key);
    assert ValidLots(lots) && SmallStretches(Bases(lots)) by {
      if key !in acquired { NothingAcquired(); }
    }
    ScopeHistoriesAreNeverRefusedExactlyWhen(lots);
    EventsAreTheSame(Project(events, key), []);
    assert ScopeRun(AsScopeEvents(HistoryOf(events, key))).Success?;
  }

  lemma NothingAcquired()
    ensures ValidLots([]) && SmallStretches(Bases([]))
  {
  }

  // -------- a history that gets stuck --------

  function WithKey(event: LotEvent, key: string): ScopedEvent {
    match event
    case Acquire(lot) => HybridMachine.Acquire(key, lot)
    case Remove(quantity) => HybridMachine.Remove(key, quantity)
  }

  /** The events of one scope, as a history of all. */
  function Keyed(events: seq<LotEvent>, key: string): (s: seq<ScopedEvent>)
    ensures |s| == |events| && forall i :: 0 <= i < |s| ==> s[i] == WithKey(events[i], key)
  {
    seq(|events|, i requires 0 <= i < |events| => WithKey(events[i], key))
  }

  lemma {:induction false} KeyedBelongsToItsScope(events: seq<LotEvent>, key: string, other: string)
    requires Text.TrimSpace(key) == key
    ensures Project(Keyed(events, key), other) == if other == key then AsScopeEvents(events) else []
  {
    if events == [] {
    } else {
      hide Project, Text.TrimSpace;
      var init, last := events[..|events| - 1], events[|events| - 1];
      assert Keyed(events, key) == Keyed(init, key) + [WithKey(last, key)];
      assert AsScopeEvents(events) == AsScopeEvents(init) + [AsScopeEvent(last)];
      KeyedBelongsToItsScope(init, key, other);
      ProjectStep(Keyed(init, key), WithKey(last, key), other);
    }
  }

  lemma {:induction false} ProjectAppends(events: seq<ScopedEvent>, more: seq<ScopedEvent>, key: string)
    ensures Project(events + more, key) == Project(events, key) + Project(more, key)
    decreases |more|
  {
    if more == [] {
      assert events + more == events;
    } else {
      hide Project, EventKey;
      var init, last := more[..|more| - 1], more[|more| - 1];
      assert events + more == (events + init) + [last] && more == init + [last];
      ProjectAppends(events, init, key);
      ProjectStep(events + init, last, key);
      ProjectStep(init, last, key);
    }
  }

  /** A scope acquires its lots, removing each at once, after a history that leaves it alone. */
  lemma ScopeFollows(before: seq<ScopedEvent>, acquired: Acquired, own: string) returns (events: seq<ScopedEvent>)
    requires ValidScopes(acquired) && own in acquired && KeysAreNotBlank(before) && Project(before, own) == []
    ensures KeysAreNotBlank(events) && ScopeHistoryOver(events, acquired, own)
    ensures forall key :: key != own ==> Project(events, key) == Project(before, key)
  {
    hide Project, HistoryOver, ValidLots, Cleared;
    var cleared := Cleared(acquired[own], |acquired[own]|);
    ClearedIsClosed(FIFO, acquired[own], |acquired[own]|);
    EventsAreTheSame([], cleared);
    events := before + Keyed(cleared, own);
    forall key
      ensures Project(events, key) == if key == own then AsScopeEvents(cleared) else Project(before, key)
    {
      ProjectAppends(before, Keyed(cleared, own), key);
      KeyedBelongsToItsScope(cleared, own, key);
    }
  }

  lemma {:induction false} OtherScopesFollow(start: seq<ScopedEvent>, acquired: Acquired, keys: set<string>) returns (events: seq<ScopedEvent>)
    requires ValidScopes(acquired) && keys <= acquired.Keys && KeysAreNotBlank(start)
    requires forall key :: key in keys ==> Project(start, key) == []
    ensures KeysAreNotBlank(events)
    ensures forall key :: key in keys ==> ScopeHistoryOver(events, acquired, key)
    ensures forall key :: key !in keys ==> Project(events, key) == Project(start, key)
    decreases |keys|
  {
    hide Project, HistoryOver, ValidScopes, AsLotEvents, KeysAreNotBlank;
    if keys == {} {
      events := start;
    } else {
      var own :| own in keys;
      var before := OtherScopesFollow(start, acquired, keys - {own});
      events := ScopeFollows(before, acquired, own);
      forall key | key in keys && key != own
        ensures ScopeHistoryOver(events, acquired, key)
      {
        assert ScopeHistoryOver(before, acquired, key);
      }
    }
  }

  /** One scope refuses its history, and the others come after it. */
  lemma LargeScopeIsRefused(acquired: Acquired, key: string) returns (events: seq<ScopedEvent>)
    requires ValidScopes(acquired) && key in acquired && !SmallStretches(Bases(acquired[key]))
    ensures HybridHistoryOver(events, acquired) && ScopeRun(Project(events, key)).Failure?
  {
    hide Project, HistoryOver, ValidLots, SmallStretches, ScopeRun;
    ScopeHistoriesAreNeverRefusedExactlyWhen(acquired[key]);
    var refused :| HistoryOver(refused, acquired[key], |acquired[key]|) && ScopeRun(AsScopeEvents(refused)).Failure?;
    EventsAreTheSame([], refused);
    forall other
      ensures Project(Keyed(refused, key), other) == if other == key then AsScopeEvents(refused) else []
    {
      KeyedBelongsToItsScope(refused, key, other);
    }
    events := OtherScopesFollow(Keyed(refused, key), acquired, acquired.Keys - {key});
    forall other
      ensures ScopeHistoryOver(events, acquired, other)
    {
      if other !in acquired { NothingIsClosed(FIFO, []); }
    }
  }

  /** For the hybrid over all its scopes: no history over the given acquisitions is refused for rounding if and only if,
      in every scope, the bases of every run of consecutive acquisitions add up to a fraction of a policy unit of at most
      one half. */
  lemma HybridHistoriesAreNeverRefusedExactlyWhen(acquired: Acquired)
    requires ValidScopes(acquired)
    ensures (forall events :: HybridHistoryOver(events, acquired) ==> HybridMachine.HybridRun(events).Success?) <==> SmallScopes(acquired)
  {
    hide HybridMachine.HybridRun, ScopeRun, Project, ScopeHistoryOver, ValidScopes;
    if SmallScopes(acquired) {
      forall events | HybridHistoryOver(events, acquired)
        ensures HybridMachine.HybridRun(events).Success?
      {
        forall key
          ensures ScopeRun(Project(events, key)).Success?
        {
          SmallScopeIsAccepted(events, acquired, key);
        }
        HybridDecomposes(events);
      }
    } else {
      var key :| key in acquired && !SmallStretches(Bases(acquired[key]));
      var events := LargeScopeIsRefused(acquired, key);
      HybridDecomposes(events);
    }
  }
}
