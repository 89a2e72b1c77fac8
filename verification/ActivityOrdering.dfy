/** The deterministic order of synced activities: source calendar date, asset, type, source, timestamp and hash. */
module ActivityOrdering {
  import opened Outcomes
  import opened Activities
  import Text

  datatype OrderingKey = OrderingKey(
    day: int,
    assetSymbol: string,
    activityType: string,
    sourceId: string,
    occurredAt: string,
    rawHash: string)

  /** The key of a record; its timestamp is parsed as it stands, without trimming. */
  function KeyOf(record: ActivityRecord): Result<OrderingKey> {
    if OccurredDay(record).None? || Text.TrimSpace(record.occurredAt) != record.occurredAt then Failure(InvalidInput)
    else
      Success(OrderingKey(record.day.value, record.assetSymbol, record.activityType, record.sourceId, record.occurredAt, record.rawHash))
  }

  /** BUY before SELL before anything else. */
  function TypeRank(activityType: string): int {
    match TypeOf(activityType)
    case Buy => 0
    case Sell => 1
    case Unsupported => 2
  }

  function CompareNumbers(a: int, b: int): int {
    if a < b then -1 else if b < a then 1 else 0
  }

  /** Negative when left sorts first, zero when the keys tie. */
  function CompareKeys(left: OrderingKey, right: OrderingKey): int {
    if left.day != right.day then CompareNumbers(left.day, right.day)
    else if left.assetSymbol != right.assetSymbol then Text.Compare(left.assetSymbol, right.assetSymbol)
    else if TypeRank(left.activityType) != TypeRank(right.activityType) then
      CompareNumbers(TypeRank(left.activityType), TypeRank(right.activityType))
    else if left.sourceId != right.sourceId then Text.Compare(left.sourceId, right.sourceId)
    else if left.occurredAt != right.occurredAt then Text.Compare(left.occurredAt, right.occurredAt)
    else Text.Compare(left.rawHash, right.rawHash)
  }

  /** Two activities that the order cannot tell apart although they are not duplicates. */
  predicate Ambiguous(left: OrderingKey, right: OrderingKey) {
    && left.day == right.day && left.assetSymbol == right.assetSymbol && left.activityType == right.activityType
    && left.sourceId == right.sourceId && left.rawHash != right.rawHash
  }

  lemma KeysAreTotal(a: OrderingKey, b: OrderingKey)
    ensures CompareKeys(a, b) == -CompareKeys(b, a)
    ensures CompareKeys(a, b) == 0 ==> a.(activityType := b.activityType) == b && TypeRank(a.activityType) == TypeRank(b.activityType)
  {
    hide Text.Compare, TypeRank;
    Text.CompareIsTotal(a.assetSymbol, b.assetSymbol);
    Text.CompareIsTotal(a.sourceId, b.sourceId);
    Text.CompareIsTotal(a.occurredAt, b.occurredAt);
    Text.CompareIsTotal(a.rawHash, b.rawHash);
  }

  lemma TextTransitive(a: string, b: string, c: string)
    ensures Text.Compare(a, b) <= 0 && Text.Compare(b, c) <= 0 ==> Text.Compare(a, c) <= 0
    ensures Text.Compare(a, b) <= 0 && Text.Compare(b, c) <= 0 && a == c ==> a == b
  {
    hide Text.Compare;
    if Text.Compare(a, b) <= 0 && Text.Compare(b, c) <= 0 {
      Text.CompareIsTransitive(a, b, c);
      Text.CompareIsTotal(a, b);
      Text.CompareIsTotal(b, c);
      Text.CompareIsTotal(a, c);
    }
  }

  lemma KeysAreTransitive(a: OrderingKey, b: OrderingKey, c: OrderingKey)
    requires CompareKeys(a, b) <= 0 && CompareKeys(b, c) <= 0
    ensures CompareKeys(a, c) <= 0
  {
    hide Text.Compare, TypeRank;
    TextTransitive(a.assetSymbol, b.assetSymbol, c.assetSymbol);
    TextTransitive(a.sourceId, b.sourceId, c.sourceId);
    TextTransitive(a.occurredAt, b.occurredAt, c.occurredAt);
    TextTransitive(a.rawHash, b.rawHash, c.rawHash);
    Text.CompareIsTotal(a.assetSymbol, c.assetSymbol);
    Text.CompareIsTotal(a.sourceId, c.sourceId);
    Text.CompareIsTotal(a.occurredAt, c.occurredAt);
  }

  /** What stands between two keys that agree up to the source agrees with both. */
  lemma BetweenAlikeKeys(a: OrderingKey, b: OrderingKey, c: OrderingKey)
    requires CompareKeys(a, b) <= 0 && CompareKeys(b, c) <= 0
    requires a.day == c.day && a.assetSymbol == c.assetSymbol && TypeRank(a.activityType) == TypeRank(c.activityType) && a.sourceId == c.sourceId
    ensures b.day == a.day && b.assetSymbol == a.assetSymbol && TypeRank(b.activityType) == TypeRank(a.activityType) && b.sourceId == a.sourceId
  {
    hide Text.Compare, TypeRank;
    TextTransitive(a.assetSymbol, b.assetSymbol, c.assetSymbol);
    TextTransitive(a.sourceId, b.sourceId, c.sourceId);
  }

  // -------- the order written out --------

  /** BUYs come before everything else, SELLs before what is neither. */
  predicate TypePrecedes(a: string, b: string) {
    (a == BUY && b != BUY) || (a == SELL && b != BUY && b != SELL)
  }

  /** Of two dated records: the earlier day; on one day the smaller symbol; of one symbol the BUY; then the smaller source,
      timestamp and hash. */
  ghost predicate RecordPrecedes(a: ActivityRecord, b: ActivityRecord)
    requires OccurredDay(a).Some? && OccurredDay(b).Some?
  {
    if OccurredDay(a) != OccurredDay(b) then OccurredDay(a).value < OccurredDay(b).value
    else if a.assetSymbol != b.assetSymbol then Text.Precedes(a.assetSymbol, b.assetSymbol)
    else if TypePrecedes(a.activityType, b.activityType) || TypePrecedes(b.activityType, a.activityType) then
      TypePrecedes(a.activityType, b.activityType)
    else if a.sourceId != b.sourceId then Text.Precedes(a.sourceId, b.sourceId)
    else if a.occurredAt != b.occurredAt then Text.Precedes(a.occurredAt, b.occurredAt)
    else Text.Precedes(a.rawHash, b.rawHash)
  }

  /** Comparing the keys of two records finds that order. */
  lemma KeyComparisonIsPrecedence(a: ActivityRecord, b: ActivityRecord)
    requires KeyOf(a).Success? && KeyOf(b).Success?
    ensures OccurredDay(a).Some? && OccurredDay(b).Some?
    ensures CompareKeys(KeyOf(a).value, KeyOf(b).value) < 0 <==> RecordPrecedes(a, b)
  {
    hide Text.Compare, Text.Precedes, Text.TrimSpace;
    Text.CompareIsLexicographic(a.assetSymbol, b.assetSymbol);
    Text.CompareIsLexicographic(a.sourceId, b.sourceId);
    Text.CompareIsLexicographic(a.occurredAt, b.occurredAt);
    Text.CompareIsLexicographic(a.rawHash, b.rawHash);
  }
}
