/** The checks a synced history passes before it is stored, and what an accepted history is known to keep. */
module HistoryValidation {
  import opened Outcomes
  import opened Activities
  import opened ActivityOrdering
  import Text

  // -------- one record --------

  /** The order of a record against the one before it. */
  function OrderError(previous: Option<OrderingKey>, record: ActivityRecord): Option<Error> {
    match KeyOf(record)
    case Failure(e) => Some(e)
    case Success(key) =>
      if previous.None? then None
      else if CompareKeys(key, previous.value) < 0 then Some(OutOfOrder)
      else if Ambiguous(previous.value, key) then Some(AmbiguousOrder)
      else None
  }

  function TypeError(record: ActivityRecord, amounts: ResolvedAmounts): Option<Error> {
    if amounts.unitPrice.None? then Some(MissingAmounts)
    else
      match TypeOf(record.activityType)
      case Buy => if amounts.unitPrice.value <= 0.0 then Some(NotPositive) else None
      case Sell =>
        if amounts.unitPrice.value < 0.0 then Some(NegativeAmount)
        else if amounts.unitPrice.value == 0.0 && Text.TrimSpace(record.comment) == "" then Some(InvalidInput)
        else None
      case Unsupported => Some(UnsupportedActivity)
  }

  function FieldError(record: ActivityRecord): Option<Error> {
    if Text.TrimSpace(record.sourceId) == "" || Text.TrimSpace(record.assetSymbol) == "" then Some(InvalidInput)
    else if Text.TrimSpace(record.assetKey) == "" then Some(MissingAssetKey)
    else if record.quantity <= 0.0 then Some(NotPositive)
    else
      match record.amounts
      case Failure(e) => Some(e)
      case Success(amounts) =>
        if amounts.grossValue.Some? && amounts.grossValue.value < 0.0 then Some(NegativeAmount)
        else if amounts.feeAmount.Some? && amounts.feeAmount.value < 0.0 then Some(NegativeAmount)
        else TypeError(record, amounts)
  }

  // -------- the running quantity --------

  /** What a record adds to the holdings of its asset. */
  function Movement(record: ActivityRecord): real {
    match TypeOf(record.activityType)
    case Buy => record.quantity
    case Sell => -record.quantity
    case Unsupported => 0.0
  }

  /** What the first n records bought of an asset minus what they sold. */
  ghost function Holdings(records: seq<ActivityRecord>, n: nat, symbol: string): real
    requires n <= |records|
  {
    if n == 0 then 0.0
    else Holdings(records, n - 1, symbol) + if records[n - 1].assetSymbol == symbol then Movement(records[n - 1]) else 0.0
  }

  // -------- the whole history --------

  function KeyBefore(records: seq<ActivityRecord>, i: nat): Option<OrderingKey>
    requires i <= |records|
  {
    if i > 0 && KeyOf(records[i - 1]).Success? then Some(KeyOf(records[i - 1]).value) else None
  }

  /** The first check record i fails. */
  ghost function RecordError(records: seq<ActivityRecord>, i: nat): Option<Error>
    requires i < |records|
  {
    var order := OrderError(KeyBefore(records, i), records[i]);
    if order.Some? then order
    else if FieldError(records[i]).Some? then FieldError(records[i])
    else if TypeOf(records[i].activityType) == Sell && Holdings(records, i + 1, records[i].assetSymbol) < 0.0 then Some(ExceedsOpenQuantity)
    else None
  }

  /** The first n records pass every check. */
  ghost predicate AcceptedTo(records: seq<ActivityRecord>, n: nat)
    requires n <= |records|
  {
    forall i :: 0 <= i < n ==> RecordError(records, i).None?
  }

  ghost predicate Accepted(records: seq<ActivityRecord>) {
    AcceptedTo(records, |records|)
  }

  ghost predicate FirstRefused(records: seq<ActivityRecord>, i: nat, error: Error) {
    i < |records| && AcceptedTo(records, i) && RecordError(records, i) == Some(error)
  }

  function RunningOf(running: map<string, real>, symbol: string): real {
    if symbol in running then running[symbol] else 0.0
  }

  /** Accepts exactly the histories of the announced length whose every record passes its checks, and otherwise reports
      what the first refused record fails. */
  method ValidateHistory(activityCount: int, records: seq<ActivityRecord>) returns (error: Option<Error>)
    ensures error.None? <==> activityCount == |records| && Accepted(records)
    ensures error.Some? ==> (activityCount != |records| && error == Some(InvalidInput)) || exists i :: FirstRefused(records, i, error.value)
  {
    hide OrderError, FieldError, KeyOf, Movement;
    if activityCount != |records| {
      return Some(InvalidInput);
    }
    var previous: Option<OrderingKey> := None;
    var running: map<string, real> := map[];
    for i := 0 to |records|
      invariant AcceptedTo(records, i) && previous == KeyBefore(records, i)
      invariant forall symbol :: RunningOf(running, symbol) == Holdings(records, i, symbol)
    {
      var record := records[i];
      error := OrderError(previous, record);
      if error.None? {
        error := FieldError(record);
      }
      var held := RunningOf(running, record.assetSymbol) + Movement(record);
      if error.None? && TypeOf(record.activityType) == Sell && held < 0.0 {
        error := Some(ExceedsOpenQuantity);
      }
      if error.Some? {
        assert FirstRefused(records, i, error.value);
        return;
      }
      PassedOrder(previous, record);
      running := running[record.assetSymbol := held];
      previous := Some(KeyOf(record).value);
    }
    return None;
  }

  lemma PassedOrder(previous: Option<OrderingKey>, record: ActivityRecord)
    requires OrderError(previous, record).None?
    ensures KeyOf(record).Success?
    ensures previous.Some? ==> CompareKeys(previous.value, KeyOf(record).value) <= 0 && !Ambiguous(previous.value, KeyOf(record).value)
  {
    if previous.Some? {
      KeysAreTotal(previous.value, KeyOf(record).value);
    }
  }

  // -------- what an accepted history keeps --------

  ghost predicate InOrder(a: ActivityRecord, b: ActivityRecord) {
    && KeyOf(a).Success? && KeyOf(b).Success?
    && CompareKeys(KeyOf(a).value, KeyOf(b).value) <= 0
    && !Ambiguous(KeyOf(a).value, KeyOf(b).value)
  }

  lemma AcceptedStep(records: seq<ActivityRecord>, j: nat)
    requires Accepted(records) && j < |records|
    ensures KeyOf(records[j]).Success? && TypeOf(records[j].activityType) != Unsupported
    ensures j > 0 ==> InOrder(records[j - 1], records[j])
  {
    hide KeyOf, CompareKeys, Ambiguous, OrderError;
    assert RecordError(records, j).None?;
    PassedOrder(KeyBefore(records, j), records[j]);
    if j > 0 {
      assert RecordError(records, j - 1).None?;
      PassedOrder(KeyBefore(records, j - 1), records[j - 1]);
    }
  }

  lemma RankDecidesType(a: string, b: string)
    requires TypeOf(a) != Unsupported && TypeRank(a) == TypeRank(b)
    ensures a == b
  {
  }

  lemma OrderChains(a: OrderingKey, b: OrderingKey, c: OrderingKey)
    requires CompareKeys(a, b) <= 0 && CompareKeys(b, c) <= 0 && !Ambiguous(a, b) && !Ambiguous(b, c)
    requires TypeOf(a.activityType) != Unsupported
    ensures CompareKeys(a, c) <= 0 && !Ambiguous(a, c)
  {
    hide CompareKeys, TypeRank, TypeOf;
    KeysAreTransitive(a, b, c);
    if Ambiguous(a, c) {
      BetweenAlikeKeys(a, b, c);
      RankDecidesType(a.activityType, b.activityType);
    }
  }

  /** Checking each record against the one before it orders them all: any two stand in the order of their keys, and no
      two anywhere are ambiguous. */
  lemma {:induction false} AcceptedIsOrdered(records: seq<ActivityRecord>, i: nat, j: nat)
    requires Accepted(records) && i < j < |records|
    ensures InOrder(records[i], records[j])
    decreases j - i
  {
    hide Accepted, CompareKeys, Ambiguous, TypeOf;
    AcceptedStep(records, i);
    AcceptedStep(records, j);
    if i + 1 == j {
    } else {
      AcceptedIsOrdered(records, i, j - 1);
      OrderChains(KeyOf(records[i]).value, KeyOf(records[j - 1]).value, KeyOf(records[j]).value);
    }
  }

  /** The source calendar days never go back. */
  lemma AcceptedDaysInOrder(records: seq<ActivityRecord>, i: nat, j: nat)
    requires Accepted(records) && i < j < |records|
    ensures OccurredDay(records[i]).Some? && OccurredDay(records[j]).Some?
    ensures OccurredDay(records[i]).value <= OccurredDay(records[j]).value
  {
    hide Accepted;
    AcceptedIsOrdered(records, i, j);
  }

  /** At no point has more of an asset been sold than bought. */
  lemma {:induction false} AcceptedNeverOversells(records: seq<ActivityRecord>, n: nat, symbol: string)
    requires Accepted(records) && n <= |records|
    ensures Holdings(records, n, symbol) >= 0.0
  {
    hide OrderError;
    if n == 0 {
    } else {
      AcceptedNeverOversells(records, n - 1, symbol);
      assert RecordError(records, n - 1).None?;
    }
  }
}
