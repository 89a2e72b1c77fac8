/** Sorts a synced history, drops exact duplicates and derives its years; validation accepts the order it gives. */
module HistoryNormalization {
  import opened Outcomes
  import opened StableSorting
  import opened Calendar
  import opened Activities
  import opened ActivityOrdering
  import opened HistoryValidation
  import Text

  datatype NormalizedHistory = NormalizedHistory(activities: seq<ActivityRecord>, years: seq<int>)

  type RecordHash = ActivityRecord -> Result<string>

  /** The record with its duplicate hash, when its timestamp can be read and it can be hashed. */
  function Hashed(record: ActivityRecord, hash: RecordHash): Result<ActivityRecord> {
    match KeyOf(record)
    case Failure(e) => Failure(e)
    case Success(_) =>
      match hash(record)
      case Failure(e) => Failure(e)
      case Success(rawHash) => Success(record.(rawHash := rawHash))
  }

  ghost predicate AllHashed(records: seq<ActivityRecord>, hash: RecordHash, hashed: seq<ActivityRecord>) {
    |hashed| == |records| && forall i :: 0 <= i < |records| ==> Hashed(records[i], hash) == Success(hashed[i])
  }

  method HashRecords(records: seq<ActivityRecord>, hash: RecordHash) returns (r: Result<seq<ActivityRecord>>)
    ensures r.Success? ==> AllHashed(records, hash, r.value)
    ensures r.Failure? ==> exists i :: 0 <= i < |records| && Hashed(records[i], hash) == Failure(r.error)
  {
    hide KeyOf;
    var hashed: seq<ActivityRecord> := [];
    for i := 0 to |records|
      invariant |hashed| == i && forall k :: 0 <= k < i ==> Hashed(records[k], hash) == Success(hashed[k])
    {
      var one := Hashed(records[i], hash);
      if one.Failure? {
        return Failure(one.error);
      }
      hashed := hashed + [one.value];
    }
    return Success(hashed);
  }

  // -------- the sort --------

  ghost predicate AllKeyed(records: seq<ActivityRecord>) {
    forall i :: 0 <= i < |records| ==> KeyOf(records[i]).Success?
  }

  function KeyBeforeOf(): (ActivityRecord, ActivityRecord) -> bool {
    (a: ActivityRecord, b: ActivityRecord) =>
      KeyOf(a).Success? && KeyOf(b).Success? && CompareKeys(KeyOf(a).value, KeyOf(b).value) < 0
  }

  lemma HashedHaveKeys(records: seq<ActivityRecord>, hash: RecordHash, hashed: seq<ActivityRecord>)
    requires AllHashed(records, hash, hashed)
    ensures AllKeyed(hashed)
  {
    forall i | 0 <= i < |hashed|
      ensures KeyOf(hashed[i]).Success?
    {
      assert Hashed(records[i], hash) == Success(hashed[i]);
    }
  }

  lemma KeysAreWeaklyOrdered(records: seq<ActivityRecord>)
    requires AllKeyed(records)
    ensures StrictWeakOrder(KeyBeforeOf(), records)
  {
    hide KeyOf, CompareKeys;
    var before := KeyBeforeOf();
    forall a, b | a in records && b in records && before(a, b)
      ensures !before(b, a)
    {
      KeysAreTotal(KeyOf(a).value, KeyOf(b).value);
    }
    forall a, b, c | a in records && b in records && c in records && !before(b, a) && !before(c, b)
      ensures !before(c, a)
    {
      KeysAreTotal(KeyOf(a).value, KeyOf(b).value);
      KeysAreTotal(KeyOf(b).value, KeyOf(c).value);
      KeysAreTotal(KeyOf(a).value, KeyOf(c).value);
      KeysAreTransitive(KeyOf(a).value, KeyOf(b).value, KeyOf(c).value);
    }
  }

  ghost predicate SortedByKey(records: seq<ActivityRecord>) {
    && AllKeyed(records)
    && forall i, j :: 0 <= i < j < |records| ==> CompareKeys(KeyOf(records[i]).value, KeyOf(records[j]).value) <= 0
  }

  lemma SortingSortsByKey(records: seq<ActivityRecord>)
    requires AllKeyed(records)
    ensures SortedByKey(StableSort(KeyBeforeOf(), records))
    ensures multiset(StableSort(KeyBeforeOf(), records)) == multiset(records)
  {
    hide KeyOf, CompareKeys;
    var before := KeyBeforeOf();
    var sorted := StableSort(before, records);
    KeysAreWeaklyOrdered(records);
    StableSortElements(before, records);
    StableSortSorts(before, records);
    forall i | 0 <= i < |sorted|
      ensures KeyOf(sorted[i]).Success?
    {
      assert sorted[i] in records;
    }
    forall i, j | 0 <= i < j < |sorted|
      ensures CompareKeys(KeyOf(sorted[i]).value, KeyOf(sorted[j]).value) <= 0
    {
      assert !before(sorted[j], sorted[i]);
      KeysAreTotal(KeyOf(sorted[i]).value, KeyOf(sorted[j]).value);
    }
  }

  // -------- ambiguity and duplicates --------

  /** No record is ambiguous against the one before it. */
  ghost predicate Unambiguous(sorted: seq<ActivityRecord>)
    requires AllKeyed(sorted)
  {
    forall i :: 0 < i < |sorted| ==> !Ambiguous(KeyOf(sorted[i - 1]).value, KeyOf(sorted[i]).value)
  }

  method EnsureStableOrdering(sorted: seq<ActivityRecord>) returns (stable: bool)
    requires AllKeyed(sorted)
    ensures stable <==> Unambiguous(sorted)
  {
    hide KeyOf, Ambiguous;
    var i := 1;
    while i < |sorted|
      invariant 1 <= i
      invariant forall k :: 0 < k < i && k < |sorted| ==> !Ambiguous(KeyOf(sorted[k - 1]).value, KeyOf(sorted[k]).value)
    {
      if Ambiguous(KeyOf(sorted[i - 1]).value, KeyOf(sorted[i]).value) {
        return false;
      }
      i := i + 1;
    }
    return true;
  }

  /** Each record unless it has the hash of the last one kept. */
  function Deduplicated(sorted: seq<ActivityRecord>): (kept: seq<ActivityRecord>)
    ensures sorted != [] ==> kept != [] && kept[|kept| - 1].rawHash == sorted[|sorted| - 1].rawHash
  {
    if sorted == [] then []
    else
      var before, last := Deduplicated(sorted[..|sorted| - 1]), sorted[|sorted| - 1];
      if before != [] && before[|before| - 1].rawHash == last.rawHash then before else before + [last]
  }

  ghost predicate HasHash(records: seq<ActivityRecord>, rawHash: string) {
    exists i :: 0 <= i < |records| && records[i].rawHash == rawHash
  }

  lemma DeduplicatedStep(sorted: seq<ActivityRecord>)
    requires sorted != []
    ensures var before, last := Deduplicated(sorted[..|sorted| - 1]), sorted[|sorted| - 1];
            Deduplicated(sorted) == if before != [] && before[|before| - 1].rawHash == last.rawHash then before else before + [last]
  {
  }

  /** Nothing is invented. */
  lemma {:induction false} KeptAreThere(sorted: seq<ActivityRecord>, i: nat)
    requires i < |Deduplicated(sorted)|
    ensures Deduplicated(sorted)[i] in sorted
  {
    hide Deduplicated;
    if sorted == [] {
      NothingKept();
    } else {
      DeduplicatedStep(sorted);
      if i < |Deduplicated(sorted[..|sorted| - 1])| {
        KeptAreThere(sorted[..|sorted| - 1], i);
      }
    }
  }

  lemma NothingKept()
    ensures Deduplicated([]) == []
  {
  }

  /** Nothing is lost but duplicates. */
  lemma {:induction false} EveryHashIsKept(sorted: seq<ActivityRecord>, i: nat)
    requires i < |sorted|
    ensures HasHash(Deduplicated(sorted), sorted[i].rawHash)
  {
    var kept := Deduplicated(sorted);
    if i == |sorted| - 1 {
      assert kept[|kept| - 1].rawHash == sorted[i].rawHash;
    } else {
      var init := sorted[..|sorted| - 1];
      EveryHashIsKept(init, i);
      var k :| 0 <= k < |Deduplicated(init)| && Deduplicated(init)[k].rawHash == init[i].rawHash;
      assert kept[k] == Deduplicated(init)[k];
    }
  }

  /** No two neighbours are duplicates. */
  lemma {:induction false} NoNeighboursAlike(sorted: seq<ActivityRecord>, i: nat)
    requires 0 < i < |Deduplicated(sorted)|
    ensures Deduplicated(sorted)[i - 1].rawHash != Deduplicated(sorted)[i].rawHash
  {
    if i < |Deduplicated(sorted[..|sorted| - 1])| {
      NoNeighboursAlike(sorted[..|sorted| - 1], i);
    }
  }

  /** The records whose hash is not that of the one before. */
  ghost function RunHeads(sorted: seq<ActivityRecord>): seq<ActivityRecord> {
    if sorted == [] then []
    else
      var n := |sorted| - 1;
      RunHeads(sorted[..n]) + if n == 0 || sorted[n - 1].rawHash != sorted[n].rawHash then [sorted[n]] else []
  }

  /** Of each run of duplicates exactly the first record is kept. */
  lemma {:induction false} RunHeadsAreKept(sorted: seq<ActivityRecord>)
    ensures Deduplicated(sorted) == RunHeads(sorted)
  {
    if sorted == [] {
    } else {
      RunHeadsAreKept(sorted[..|sorted| - 1]);
    }
  }

  /** A record known to be a BUY or a SELL. */
  ghost predicate Supported(records: seq<ActivityRecord>) {
    forall i :: 0 <= i < |records| ==> TypeOf(records[i].activityType) != Unsupported
  }

  ghost predicate InOrderThroughout(records: seq<ActivityRecord>) {
    && AllKeyed(records)
    && forall i :: 0 < i < |records| ==> InOrder(records[i - 1], records[i])
  }

  lemma LastKeptInOrder(kept: ActivityRecord, duplicate: ActivityRecord, next: ActivityRecord)
    requires KeyOf(kept).Success? && KeyOf(duplicate).Success? && KeyOf(next).Success?
    requires CompareKeys(KeyOf(kept).value, KeyOf(duplicate).value) <= 0 && kept.rawHash == duplicate.rawHash
    requires CompareKeys(KeyOf(duplicate).value, KeyOf(next).value) <= 0 && !Ambiguous(KeyOf(duplicate).value, KeyOf(next).value)
    requires TypeOf(kept.activityType) != Unsupported
    ensures InOrder(kept, next)
  {
    hide CompareKeys, TypeOf;
    OrderChains(KeyOf(kept).value, KeyOf(duplicate).value, KeyOf(next).value);
  }

  lemma InOrderAppend(records: seq<ActivityRecord>, last: ActivityRecord)
    requires InOrderThroughout(records) && KeyOf(last).Success? && (records != [] ==> InOrder(records[|records| - 1], last))
    ensures InOrderThroughout(records + [last])
  {
    hide KeyOf, InOrder;
  }

  lemma SortedPrefix(sorted: seq<ActivityRecord>)
    requires sorted != [] && SortedByKey(sorted) && Unambiguous(sorted) && Supported(sorted)
    ensures var init := sorted[..|sorted| - 1];
            && SortedByKey(init) && Unambiguous(init) && Supported(init)
            && KeyOf(sorted[|sorted| - 1]).Success?
            && (init != [] ==>
                  && CompareKeys(KeyOf(init[|init| - 1]).value, KeyOf(sorted[|sorted| - 1]).value) <= 0
                  && !Ambiguous(KeyOf(init[|init| - 1]).value, KeyOf(sorted[|sorted| - 1]).value))
  {
    hide KeyOf, CompareKeys, Ambiguous, TypeOf;
  }

  /** The records kept so far are in order and end no later than the last record seen. */
  ghost predicate KeptTo(kept: seq<ActivityRecord>, last: ActivityRecord) {
    && kept != [] && InOrderThroughout(kept) && KeyOf(last).Success?
    && CompareKeys(KeyOf(kept[|kept| - 1]).value, KeyOf(last).value) <= 0
    && kept[|kept| - 1].rawHash == last.rawHash
  }

  lemma OneMoreSeen(kept: seq<ActivityRecord>, duplicate: ActivityRecord, last: ActivityRecord)
    requires KeptTo(kept, duplicate) && KeyOf(last).Success?
    requires CompareKeys(KeyOf(duplicate).value, KeyOf(last).value) <= 0 && !Ambiguous(KeyOf(duplicate).value, KeyOf(last).value)
    requires TypeOf(kept[|kept| - 1].activityType) != Unsupported
    ensures KeptTo(if kept[|kept| - 1].rawHash == last.rawHash then kept else kept + [last], last)
  {
    hide KeyOf, CompareKeys, Ambiguous, TypeOf, InOrder, InOrderThroughout;
    InOrderThroughoutHasKeys(kept);
    KeysAreTransitive(KeyOf(kept[|kept| - 1]).value, KeyOf(duplicate).value, KeyOf(last).value);
    KeysAreTotal(KeyOf(last).value, KeyOf(last).value);
    LastKeptInOrder(kept[|kept| - 1], duplicate, last);
    InOrderAppend(kept, last);
  }

  lemma FirstSeen(first: ActivityRecord)
    requires KeyOf(first).Success?
    ensures KeptTo([first], first)
  {
    hide KeyOf, CompareKeys;
    KeysAreTotal(KeyOf(first).value, KeyOf(first).value);
  }

  /** Dropping duplicates from a sorted, unambiguous history leaves neighbours in order and unambiguous. */
  lemma {:induction false} DeduplicationKeepsTheOrder(sorted: seq<ActivityRecord>)
    requires sorted != [] && SortedByKey(sorted) && Unambiguous(sorted) && Supported(sorted)
    ensures KeptTo(Deduplicated(sorted), sorted[|sorted| - 1])
  {
    hide KeyOf, CompareKeys, Ambiguous, TypeOf, KeptTo, Deduplicated, SortedByKey, Unambiguous, Supported;
    var init, last := sorted[..|sorted| - 1], sorted[|sorted| - 1];
    SortedPrefix(sorted);
    DeduplicatedStep(sorted);
    if init == [] {
      NothingKept();
      FirstSeen(last);
      assert [] + [last] == [last];
    } else {
      DeduplicationKeepsTheOrder(init);
      var kept := Deduplicated(init);
      KeptIsSupported(init, |kept| - 1);
      OneMoreSeen(kept, init[|init| - 1], last);
    }
  }

  lemma KeptIsSupported(sorted: seq<ActivityRecord>, i: nat)
    requires Supported(sorted) && i < |Deduplicated(sorted)|
    ensures TypeOf(Deduplicated(sorted)[i].activityType) != Unsupported
  {
    hide Deduplicated, TypeOf;
    KeptAreThere(sorted, i);
  }

  lemma InOrderThroughoutHasKeys(records: seq<ActivityRecord>)
    requires InOrderThroughout(records)
    ensures forall i :: 0 <= i < |records| ==> KeyOf(records[i]).Success?
  {
    hide KeyOf, InOrder;
  }

  // -------- the whole normalization --------

  ghost predicate HasYear(records: seq<ActivityRecord>, year: int)
    requires AllKeyed(records)
  {
    exists i :: 0 <= i < |records| && YearOf(KeyOf(records[i]).value.day) == year
  }

  /** The years of the activities, each once, in increasing order. */
  ghost predicate YearsOf(years: seq<int>, records: seq<ActivityRecord>)
    requires AllKeyed(records)
  {
    && (forall i, j :: 0 <= i < j < |years| ==> years[i] < years[j])
    && (forall year :: year in years <==> HasYear(records, year))
  }

  method DeriveYears(records: seq<ActivityRecord>) returns (years: seq<int>)
    requires AllKeyed(records)
    ensures YearsOf(years, records)
  {
    hide KeyOf, CompareKeys, YearOf;
    var found: set<int> := {};
    for i := 0 to |records|
      invariant forall year :: year in found <==> HasYear(records[..i], year)
    {
      var year := YearOf(KeyOf(records[i]).value.day);
      OneMoreYear(records, i);
      found := found + {year};
    }
    assert records[..|records|] == records;
    years := SortedYears(found);
  }

  lemma OneMoreYear(records: seq<ActivityRecord>, i: nat)
    requires AllKeyed(records) && i < |records|
    ensures forall year :: HasYear(records[..i + 1], year) <==> HasYear(records[..i], year) || year == YearOf(KeyOf(records[i]).value.day)
  {
    hide KeyOf, YearOf;
    forall year
      ensures HasYear(records[..i + 1], year) <==> HasYear(records[..i], year) || year == YearOf(KeyOf(records[i]).value.day)
    {
      if HasYear(records[..i], year) {
        var k :| 0 <= k < i && YearOf(KeyOf(records[..i][k]).value.day) == year;
        assert records[..i + 1][k] == records[..i][k];
      }
      if year == YearOf(KeyOf(records[i]).value.day) {
        assert records[..i + 1][i] == records[i];
      }
      if HasYear(records[..i + 1], year) {
        var k :| 0 <= k < i + 1 && YearOf(KeyOf(records[..i + 1][k]).value.day) == year;
        if k < i {
          assert records[..i][k] == records[..i + 1][k];
        }
      }
    }
  }

  /** The elements of a set of years in increasing order. */
  method SortedYears(found: set<int>) returns (years: seq<int>)
    ensures forall i, j :: 0 <= i < j < |years| ==> years[i] < years[j]
    ensures forall year :: year in years <==> year in found
  {
    years := [];
    var rest := found;
    while rest != {}
      invariant rest <= found
      invariant forall i, j :: 0 <= i < j < |years| ==> years[i] < years[j]
      invariant forall i, year :: 0 <= i < |years| && year in rest ==> years[i] < year
      invariant forall year :: year in found <==> year in rest || year in years
      decreases rest
    {
      var least := Least(rest);
      years := years + [least];
      rest := rest - {least};
    }
  }

  lemma SomeElement(s: set<int>)
    ensures s != {} ==> exists x: int :: x in s
  {
    if forall x: int :: x !in s {
      assert s == {};
    }
  }

  method Least(rest: set<int>) returns (least: int)
    requires rest != {}
    ensures least in rest && forall year :: year in rest ==> least <= year
  {
    assert exists year: int :: year in rest by { SomeElement(rest); }
    least :| least in rest;
    var others := rest - {least};
    while others != {}
      invariant least in rest && others <= rest && forall year :: year in rest ==> least <= year || year in others
      decreases others
    {
      assert exists year: int :: year in others by { SomeElement(others); }
      var year :| year in others;
      if year < least {
        least := year;
      }
      others := others - {year};
    }
  }

  /** What a successful normalization returns. */
  ghost predicate Normalized(records: seq<ActivityRecord>, hash: RecordHash, sorted: seq<ActivityRecord>, history: NormalizedHistory) {
    && (exists hashed :: AllHashed(records, hash, hashed) && multiset(hashed) == multiset(sorted))
    && SortedByKey(sorted) && Unambiguous(sorted)
    && history.activities == Deduplicated(sorted)
    && AllKeyed(history.activities) && YearsOf(history.years, history.activities)
  }

  method Normalize(records: seq<ActivityRecord>, hash: RecordHash) returns (r: Result<NormalizedHistory>)
    ensures r.Success? ==> exists sorted :: Normalized(records, hash, sorted, r.value)
    ensures r.Failure? ==>
              || (exists i :: 0 <= i < |records| && Hashed(records[i], hash) == Failure(r.error))
              || (exists hashed :: AllHashed(records, hash, hashed) && !Stable(StableSort(KeyBeforeOf(), hashed)))
  {
    hide KeyOf, CompareKeys, Ambiguous, YearOf, StableSort, Deduplicated;
    var hashed := HashRecords(records, hash);
    if hashed.Failure? {
      return Failure(hashed.error);
    }
    HashedHaveKeys(records, hash, hashed.value);
    SortingSortsByKey(hashed.value);
    var sorted := StableSort(KeyBeforeOf(), hashed.value);
    var stable := EnsureStableOrdering(sorted);
    if !stable {
      return Failure(AmbiguousOrder);
    }
    var activities := Deduplicate(sorted);
    KeptAreSorted(sorted);
    var years := DeriveYears(activities);
    assert Normalized(records, hash, sorted, NormalizedHistory(activities, years));
    return Success(NormalizedHistory(activities, years));
  }

  ghost predicate Stable(sorted: seq<ActivityRecord>) {
    AllKeyed(sorted) && Unambiguous(sorted)
  }

  method Deduplicate(sorted: seq<ActivityRecord>) returns (kept: seq<ActivityRecord>)
    ensures kept == Deduplicated(sorted)
  {
    kept := [];
    for i := 0 to |sorted|
      invariant kept == Deduplicated(sorted[..i])
    {
      assert sorted[..i + 1][..i] == sorted[..i];
      if kept == [] || kept[|kept| - 1].rawHash != sorted[i].rawHash {
        kept := kept + [sorted[i]];
      }
    }
    assert sorted[..|sorted|] == sorted;
  }

  lemma {:induction false} KeptAreSorted(sorted: seq<ActivityRecord>)
    requires SortedByKey(sorted)
    ensures SortedByKey(Deduplicated(sorted))
  {
    hide KeyOf, CompareKeys;
    if sorted == [] {
    } else {
      var init, last := sorted[..|sorted| - 1], sorted[|sorted| - 1];
      KeptAreSorted(init);
      forall i | 0 <= i < |Deduplicated(init)|
        ensures CompareKeys(KeyOf(Deduplicated(init)[i]).value, KeyOf(last).value) <= 0
      {
        KeptAreThere(init, i);
      }
    }
  }

  /** Normalization and validation agree on the order: of a normalized history of BUYs and SELLs, validation never refuses
      a record for its order. */
  lemma NormalizedHistoriesPassTheOrder(records: seq<ActivityRecord>, hash: RecordHash, sorted: seq<ActivityRecord>, history: NormalizedHistory)
    requires Normalized(records, hash, sorted, history) && Supported(sorted)
    ensures forall i :: 0 <= i < |history.activities| ==> OrderError(KeyBefore(history.activities, i), history.activities[i]).None?
  {
    hide KeyOf, CompareKeys, Ambiguous, TypeOf;
    var activities := history.activities;
    if sorted != [] {
      DeduplicationKeepsTheOrder(sorted);
    }
    forall i | 0 <= i < |activities|
      ensures OrderError(KeyBefore(activities, i), activities[i]).None?
    {
      if i > 0 {
        assert InOrder(activities[i - 1], activities[i]);
        KeysAreTotal(KeyOf(activities[i - 1]).value, KeyOf(activities[i]).value);
      }
    }
  }
}
