/** Normalized and accepted histories in terms of days and symbols, and when a normalized history is accepted. */
module DailyHoldings {
  import opened Outcomes
  import opened Activities
  import opened ActivityOrdering
  import opened HistoryValidation
  import opened HistoryNormalization
  import Text

  // -------- the order --------

  /** Every record is dated, and none stands behind one it precedes. */
  ghost predicate InRecordOrder(records: seq<ActivityRecord>) {
    && (forall i :: 0 <= i < |records| ==> OccurredDay(records[i]).Some?)
    && forall i, j :: 0 <= i < j < |records| ==> !RecordPrecedes(records[j], records[i])
  }

  lemma NotPreceding(a: ActivityRecord, b: ActivityRecord)
    requires KeyOf(a).Success? && KeyOf(b).Success? && CompareKeys(KeyOf(a).value, KeyOf(b).value) <= 0
    ensures OccurredDay(a).Some? && OccurredDay(b).Some? && !RecordPrecedes(b, a)
  {
    hide CompareKeys, RecordPrecedes;
    KeysAreTotal(KeyOf(a).value, KeyOf(b).value);
    KeyComparisonIsPrecedence(b, a);
  }

  /** A normalized history is in order. */
  lemma NormalizedStandsInOrder(records: seq<ActivityRecord>, hash: RecordHash, sorted: seq<ActivityRecord>, history: NormalizedHistory)
    requires Normalized(records, hash, sorted, history)
    ensures InRecordOrder(history.activities)
  {
    hide KeyOf, CompareKeys, RecordPrecedes, Deduplicated, YearsOf, Unambiguous;
    var kept := history.activities;
    KeptAreSorted(sorted);
    forall i, j | 0 <= i < j < |kept|
      ensures OccurredDay(kept[i]).Some? && OccurredDay(kept[j]).Some? && !RecordPrecedes(kept[j], kept[i])
    {
      NotPreceding(kept[i], kept[j]);
    }
    forall i | 0 <= i < |kept|
      ensures OccurredDay(kept[i]).Some?
    {
      KeysAreTotal(KeyOf(kept[i]).value, KeyOf(kept[i]).value);
      NotPreceding(kept[i], kept[i]);
    }
  }

  ghost predicate AlikeButForHash(a: ActivityRecord, b: ActivityRecord) {
    && OccurredDay(a) == OccurredDay(b) && a.assetSymbol == b.assetSymbol && a.activityType == b.activityType
    && a.sourceId == b.sourceId && a.rawHash != b.rawHash
  }

  /** So is an accepted one, and no two of its records agree in day, symbol, type and source but not in hash. */
  lemma AcceptedStandsInOrder(records: seq<ActivityRecord>)
    requires Accepted(records)
    ensures InRecordOrder(records)
    ensures forall i, j :: 0 <= i < j < |records| ==> !AlikeButForHash(records[i], records[j])
  {
    hide Accepted, CompareKeys, RecordPrecedes;
    forall i, j | 0 <= i < j < |records|
      ensures OccurredDay(records[i]).Some? && OccurredDay(records[j]).Some? && !RecordPrecedes(records[j], records[i])
      ensures !AlikeButForHash(records[i], records[j])
    {
      AcceptedIsOrdered(records, i, j);
      NotPreceding(records[i], records[j]);
    }
    forall i | 0 <= i < |records|
      ensures OccurredDay(records[i]).Some?
    {
      AcceptedStep(records, i);
    }
  }

  /** No SELL stands before a BUY of its day and symbol. */
  lemma BuysComeFirst(records: seq<ActivityRecord>, i: nat, j: nat)
    requires InRecordOrder(records) && i < j < |records|
    requires OccurredDay(records[i]) == OccurredDay(records[j]) && records[i].assetSymbol == records[j].assetSymbol
    ensures !(records[i].activityType == SELL && records[j].activityType == BUY)
  {
    hide Text.Precedes, Text.TrimSpace;
    assert !RecordPrecedes(records[j], records[i]);
  }

  // -------- holdings at the end of a day --------

  /** What the first n records bought minus sold of a symbol, up to and including a day. */
  ghost function HeldAtEndOf(records: seq<ActivityRecord>, n: nat, symbol: string, day: int): real
    requires n <= |records| && forall i :: 0 <= i < |records| ==> OccurredDay(records[i]).Some?
  {
    if n == 0 then 0.0
    else
      var record := records[n - 1];
      HeldAtEndOf(records, n - 1, symbol, day)
      + if record.assetSymbol != symbol || OccurredDay(record).value > day then 0.0
        else if record.activityType == BUY then record.quantity
        else if record.activityType == SELL then -record.quantity
        else 0.0
  }

  /** No day ends with more sold of a symbol than bought. */
  ghost predicate NoDayEndsShort(records: seq<ActivityRecord>) {
    && (forall i :: 0 <= i < |records| ==> OccurredDay(records[i]).Some?)
    && forall symbol, day :: HeldAtEndOf(records, |records|, symbol, day) >= 0.0
  }

  /** Up to the last record of a day, what is held at its end is the running quantity. */
  lemma {:induction false} HeldIsRunning(records: seq<ActivityRecord>, n: nat, m: nat, symbol: string, day: int)
    requires InRecordOrder(records) && m <= n <= |records|
    requires forall i :: 0 <= i < |records| ==> (OccurredDay(records[i]).value <= day <==> i < m)
    ensures HeldAtEndOf(records, n, symbol, day) == Holdings(records, m, symbol)
    decreases n
  {
    hide OccurredDay, RecordPrecedes;
    if n == 0 {
    } else if n == m {
      HeldIsRunningBefore(records, n, m, symbol, day);
    } else {
      HeldIsRunning(records, n - 1, m, symbol, day);
    }
  }

  lemma {:induction false} HeldIsRunningBefore(records: seq<ActivityRecord>, n: nat, m: nat, symbol: string, day: int)
    requires InRecordOrder(records) && n <= m <= |records|
    requires forall i :: 0 <= i < |records| ==> (OccurredDay(records[i]).value <= day <==> i < m)
    ensures HeldAtEndOf(records, n, symbol, day) == Holdings(records, n, symbol)
  {
    hide OccurredDay, RecordPrecedes;
    if n == 0 {
    } else {
      HeldIsRunningBefore(records, n - 1, m, symbol, day);
    }
  }

  lemma DaysInOrder(records: seq<ActivityRecord>, i: nat, j: nat)
    requires InRecordOrder(records) && i <= j < |records|
    ensures OccurredDay(records[i]).value <= OccurredDay(records[j]).value
  {
    hide OccurredDay;
    if i < j {
      assert !RecordPrecedes(records[j], records[i]);
    }
  }

  /** How many records there are up to and including a day. */
  lemma {:induction false} EndOfDay(records: seq<ActivityRecord>, n: nat, day: int) returns (m: nat)
    requires InRecordOrder(records) && n <= |records|
    requires forall i :: n <= i < |records| ==> OccurredDay(records[i]).value > day
    ensures m <= n && forall i :: 0 <= i < |records| ==> (OccurredDay(records[i]).value <= day <==> i < m)
  {
    hide OccurredDay, RecordPrecedes;
    if n == 0 || OccurredDay(records[n - 1]).value <= day {
      m := n;
      forall i | 0 <= i < n
        ensures OccurredDay(records[i]).value <= day
      {
        DaysInOrder(records, i, n - 1);
      }
    } else {
      m := EndOfDay(records, n - 1, day);
    }
  }

  // -------- when a history is accepted --------

  /** After a SELL only SELLs of its day and symbol can follow before the day ends. */
  lemma {:induction false} SellsOnlyLower(records: seq<ActivityRecord>, i: nat, n: nat)
    requires InRecordOrder(records) && i < n <= |records| && records[i].activityType == SELL
    requires forall k :: 0 <= k < |records| ==> records[k].quantity > 0.0
    requires OccurredDay(records[n - 1]) == OccurredDay(records[i])
    ensures Holdings(records, i + 1, records[i].assetSymbol) >= Holdings(records, n, records[i].assetSymbol)
    decreases n
  {
    hide OccurredDay, RecordPrecedes;
    if n == i + 1 {
    } else {
      DaysInOrder(records, i, n - 2);
      DaysInOrder(records, n - 2, n - 1);
      SellsOnlyLower(records, i, n - 1);
      if records[n - 1].assetSymbol == records[i].assetSymbol {
        BuysComeFirst(records, i, n - 1);
      }
    }
  }

  /** A BUY at a positive price, or a SELL at a positive price or, with a comment, for nothing; nothing in it is blank,
      nothing negative. */
  ghost predicate Sound(record: ActivityRecord) {
    && Text.TrimSpace(record.sourceId) != "" && Text.TrimSpace(record.assetSymbol) != "" && Text.TrimSpace(record.assetKey) != ""
    && record.quantity > 0.0 && record.amounts.Success?
    && var amounts := record.amounts.value;
       && (amounts.grossValue == None || amounts.grossValue.value >= 0.0)
       && (amounts.feeAmount == None || amounts.feeAmount.value >= 0.0)
       && amounts.unitPrice.Some? && amounts.unitPrice.value >= 0.0
       && (record.activityType == BUY || record.activityType == SELL)
       && (amounts.unitPrice.value == 0.0 ==> record.activityType == SELL && Text.TrimSpace(record.comment) != "")
  }

  /** Exactly the sound records pass the field checks. */
  lemma SoundPassExactly(record: ActivityRecord)
    ensures FieldError(record).None? <==> Sound(record)
  {
    hide Text.TrimSpace;
  }

  ghost predicate FieldsPass(records: seq<ActivityRecord>) {
    forall i :: 0 <= i < |records| ==> FieldError(records[i]).None?
  }

  lemma FieldsThatPass(record: ActivityRecord)
    requires FieldError(record).None?
    ensures record.quantity > 0.0 && (record.activityType == BUY || record.activityType == SELL)
  {
    hide Text.TrimSpace;
  }

  lemma EndsCoveredSells(records: seq<ActivityRecord>, i: nat)
    requires InRecordOrder(records) && FieldsPass(records) && NoDayEndsShort(records) && i < |records| && records[i].activityType == SELL
    ensures Holdings(records, i + 1, records[i].assetSymbol) >= 0.0
  {
    hide OccurredDay, RecordPrecedes, FieldError, Holdings, HeldAtEndOf;
    forall k | 0 <= k < |records|
      ensures records[k].quantity > 0.0
    {
      FieldsThatPass(records[k]);
    }
    var day := OccurredDay(records[i]).value;
    var m := EndOfDay(records, |records|, day);
    DaysInOrder(records, i, m - 1);
    SellsOnlyLower(records, i, m);
    HeldIsRunning(records, |records|, m, records[i].assetSymbol, day);
    assert HeldAtEndOf(records, |records|, records[i].assetSymbol, day) >= 0.0;
  }

  lemma CoveredSellsPass(records: seq<ActivityRecord>, i: nat)
    requires InRecordOrder(records) && FieldsPass(records) && NoDayEndsShort(records) && i < |records|
    requires OrderError(KeyBefore(records, i), records[i]).None?
    ensures RecordError(records, i).None?
  {
    hide OccurredDay, RecordPrecedes, OrderError, FieldError, Holdings, NoDayEndsShort, InRecordOrder;
    if records[i].activityType == SELL {
      EndsCoveredSells(records, i);
    }
  }

  lemma OrderedRecordsPass(records: seq<ActivityRecord>, i: nat)
    requires InRecordOrder(records) && i < |records| && forall k :: 0 <= k < |records| ==> KeyOf(records[k]).Success?
    requires i > 0 ==> !AlikeButForHash(records[i - 1], records[i])
    ensures OrderError(KeyBefore(records, i), records[i]).None?
  {
    hide CompareKeys, RecordPrecedes, Text.TrimSpace;
    if i > 0 {
      assert !RecordPrecedes(records[i], records[i - 1]);
      KeyComparisonIsPrecedence(records[i], records[i - 1]);
    }
  }

  lemma AcceptedCoversEveryDay(records: seq<ActivityRecord>)
    requires Accepted(records) && InRecordOrder(records)
    ensures NoDayEndsShort(records)
  {
    hide Accepted, RecordPrecedes, Holdings, HeldAtEndOf, OccurredDay;
    forall symbol, day
      ensures HeldAtEndOf(records, |records|, symbol, day) >= 0.0
    {
      var m := EndOfDay(records, |records|, day);
      HeldIsRunning(records, |records|, m, symbol, day);
      AcceptedNeverOversells(records, m, symbol);
    }
  }

  /** A normalized history whose records pass their field checks is accepted if and only if no day ends with more sold of a
      symbol than bought. */
  lemma NormalizedIsAcceptedExactlyWhen(records: seq<ActivityRecord>, hash: RecordHash, sorted: seq<ActivityRecord>, history: NormalizedHistory)
    requires Normalized(records, hash, sorted, history) && Supported(sorted) && FieldsPass(history.activities)
    ensures Accepted(history.activities) <==> NoDayEndsShort(history.activities)
  {
    hide Normalized, Supported, RecordPrecedes, OrderError, FieldError, NoDayEndsShort, InRecordOrder, Holdings;
    var activities := history.activities;
    NormalizedStandsInOrder(records, hash, sorted, history);
    NormalizedHistoriesPassTheOrder(records, hash, sorted, history);
    if Accepted(activities) {
      AcceptedCoversEveryDay(activities);
    }
    if NoDayEndsShort(activities) {
      forall i | 0 <= i < |activities|
        ensures RecordError(activities, i).None?
      {
        CoveredSellsPass(activities, i);
      }
    }
  }

  /** What an acceptable history is, without the loop that checks it: its timestamps are trimmed dates, its records sound, in
      order and told apart by more than their hashes, and no day ends with more sold of a symbol than bought. */
  ghost predicate Acceptable(records: seq<ActivityRecord>) {
    && (forall i :: 0 <= i < |records| ==> Sound(records[i]) && Text.TrimSpace(records[i].occurredAt) == records[i].occurredAt)
    && InRecordOrder(records)
    && (forall i, j :: 0 <= i < j < |records| ==> !AlikeButForHash(records[i], records[j]))
    && NoDayEndsShort(records)
  }

  /** Validation accepts exactly the acceptable histories. */
  lemma AcceptedExactlyWhen(records: seq<ActivityRecord>)
    ensures Accepted(records) <==> Acceptable(records)
  {
    hide RecordPrecedes, OrderError, FieldError, Sound, AlikeButForHash, NoDayEndsShort, InRecordOrder, Holdings, Text.TrimSpace;
    forall i | 0 <= i < |records|
      ensures FieldError(records[i]).None? <==> Sound(records[i])
    {
      SoundPassExactly(records[i]);
    }
    if Accepted(records) {
      AcceptedStandsInOrder(records);
      AcceptedCoversEveryDay(records);
      forall i | 0 <= i < |records|
        ensures Sound(records[i]) && Text.TrimSpace(records[i].occurredAt) == records[i].occurredAt
      {
        assert RecordError(records, i).None?;
        AcceptedStep(records, i);
      }
    }
    if Acceptable(records) {
      DatedInOrder(records);
      forall i | 0 <= i < |records|
        ensures RecordError(records, i).None?
      {
        OrderedRecordsPass(records, i);
        CoveredSellsPass(records, i);
      }
    }
  }

  lemma DatedInOrder(records: seq<ActivityRecord>)
    requires InRecordOrder(records) && forall i :: 0 <= i < |records| ==> Text.TrimSpace(records[i].occurredAt) == records[i].occurredAt
    ensures forall i :: 0 <= i < |records| ==> KeyOf(records[i]).Success?
  {
  }
}
