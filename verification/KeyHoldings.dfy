/** Holdings are validated by asset symbol but replayed by asset identity key: when no key is oversold. */
module KeyHoldings {
  import opened Calendar
  import opened Activities
  import opened HistoryValidation
  import opened Grouping
  import Text

  /** What an activity adds to the holdings of its asset. */
  function InputMovement(input: CalculationInput): real {
    match input.activityType
    case Buy => input.quantity
    case Sell => -input.quantity
    case Unsupported => 0.0
  }

  /** What the inputs bought minus what they sold. */
  ghost function NetBought(inputs: seq<CalculationInput>): real {
    if inputs == [] then 0.0 else NetBought(inputs[..|inputs| - 1]) + InputMovement(inputs[|inputs| - 1])
  }

  lemma NetBoughtStep(inputs: seq<CalculationInput>, input: CalculationInput)
    ensures NetBought(inputs + [input]) == NetBought(inputs) + InputMovement(input)
  {
    assert (inputs + [input])[..|inputs|] == inputs;
  }

  /** What the first n records bought minus sold of one key, through the year. */
  ghost function KeyNet(records: seq<ActivityRecord>, n: nat, key: string, selectedYear: int): real
    requires n <= |records|
  {
    NetBought(OfAsset(Kept(records, n, selectedYear), key))
  }

  /** At no point has more been sold of a key than bought. */
  ghost predicate NoKeyOversells(records: seq<ActivityRecord>, selectedYear: int) {
    forall key, n: nat :: n <= |records| ==> KeyNet(records, n, key, selectedYear) >= 0.0
  }

  lemma KeptOfAssetStep(records: seq<ActivityRecord>, n: nat, key: string, selectedYear: int)
    requires 0 < n <= |records|
    ensures var selection, before := Select(records[n - 1], selectedYear), OfAsset(Kept(records, n - 1, selectedYear), key);
            OfAsset(Kept(records, n, selectedYear), key)
            == if selection.Take? && selection.input.assetKey == key then before + [selection.input] else before
  {
    hide Select;
    var selection, before := Select(records[n - 1], selectedYear), Kept(records, n - 1, selectedYear);
    if selection.Take? {
      OneMoreOfAsset(before, selection.input, key);
    } else {
      assert Kept(records, n, selectedYear) == before;
    }
  }

  lemma KeyNetStep(records: seq<ActivityRecord>, n: nat, key: string, selectedYear: int)
    requires 0 < n <= |records|
    ensures var selection := Select(records[n - 1], selectedYear);
            KeyNet(records, n, key, selectedYear)
            == KeyNet(records, n - 1, key, selectedYear)
               + if selection.Take? && selection.input.assetKey == key then InputMovement(selection.input) else 0.0
  {
    hide Select, Kept, OfAsset, InputMovement, NetBought;
    KeptOfAssetStep(records, n, key, selectedYear);
    var selection := Select(records[n - 1], selectedYear);
    if selection.Take? && selection.input.assetKey == key {
      NetBoughtStep(OfAsset(Kept(records, n - 1, selectedYear), key), selection.input);
    }
  }

  lemma NothingNets(records: seq<ActivityRecord>, key: string, selectedYear: int)
    ensures KeyNet(records, 0, key, selectedYear) == 0.0
  {
  }

  // -------- accepted histories whose symbols decide the key --------

  /** Records of one symbol have one key. */
  ghost predicate SymbolsDecideKeys(records: seq<ActivityRecord>) {
    forall i, j :: 0 <= i < j < |records| && records[i].assetSymbol == records[j].assetSymbol ==>
      Text.TrimSpace(records[i].assetKey) == Text.TrimSpace(records[j].assetKey)
  }

  /** What the first n records bought minus sold of any of the symbols. */
  ghost function HoldingsAmong(records: seq<ActivityRecord>, n: nat, symbols: set<string>): real
    requires n <= |records|
  {
    if n == 0 then 0.0
    else HoldingsAmong(records, n - 1, symbols) + if records[n - 1].assetSymbol in symbols then Movement(records[n - 1]) else 0.0
  }

  lemma {:induction false} OneSymbolLess(records: seq<ActivityRecord>, n: nat, symbols: set<string>, symbol: string)
    requires n <= |records| && symbol in symbols
    ensures HoldingsAmong(records, n, symbols) == HoldingsAmong(records, n, symbols - {symbol}) + Holdings(records, n, symbol)
  {
    hide Movement;
    if n == 0 {
    } else {
      OneSymbolLess(records, n - 1, symbols, symbol);
    }
  }

  lemma {:induction false} NothingAmong(records: seq<ActivityRecord>, n: nat)
    requires n <= |records|
    ensures HoldingsAmong(records, n, {}) == 0.0
  {
    if n == 0 {
    } else {
      NothingAmong(records, n - 1);
    }
  }

  lemma {:induction false} HoldingsAmongAreCovered(records: seq<ActivityRecord>, n: nat, symbols: set<string>)
    requires Accepted(records) && n <= |records|
    ensures HoldingsAmong(records, n, symbols) >= 0.0
    decreases |symbols|
  {
    hide Accepted, Holdings, HoldingsAmong;
    if symbols == {} {
      NothingAmong(records, n);
    } else {
      var symbol :| symbol in symbols;
      OneSymbolLess(records, n, symbols, symbol);
      HoldingsAmongAreCovered(records, n, symbols - {symbol});
      AcceptedNeverOversells(records, n, symbol);
    }
  }

  ghost function SymbolsOf(records: seq<ActivityRecord>, key: string): set<string> {
    set i | 0 <= i < |records| && Text.TrimSpace(records[i].assetKey) == key :: records[i].assetSymbol
  }

  lemma SymbolBelongsToKey(records: seq<ActivityRecord>, i: nat, key: string)
    requires SymbolsDecideKeys(records) && i < |records|
    ensures records[i].assetSymbol in SymbolsOf(records, key) <==> Text.TrimSpace(records[i].assetKey) == key
  {
    hide Text.TrimSpace;
  }

  lemma TakenMovement(record: ActivityRecord, selectedYear: int)
    requires Select(record, selectedYear).Take?
    ensures InputMovement(Select(record, selectedYear).input) == Movement(record)
    ensures Select(record, selectedYear).input.assetKey == Text.TrimSpace(record.assetKey)
  {
    hide Text.TrimSpace, YearOf;
  }

  /** With the days in order, what is taken is preceded by nothing that is skipped. */
  lemma EarlierIsTaken(records: seq<ActivityRecord>, n: nat, selectedYear: int)
    requires Accepted(records) && NoRefusal(records, |records|, selectedYear)
    requires 1 < n <= |records| && Select(records[n - 1], selectedYear).Take?
    ensures Select(records[n - 2], selectedYear).Take?
  {
    hide Accepted, YearOf, OccurredDay, SelectInput, Text.TrimSpace;
    AcceptedDaysInOrder(records, n - 2, n - 1);
    YearIsMonotone(OccurredDay(records[n - 2]).value, OccurredDay(records[n - 1]).value);
    assert !Select(records[n - 2], selectedYear).Refuse?;
  }

  /** Up to a record that is taken, a key nets what its symbols hold. */
  lemma {:induction false} KeyNetIsHeld(records: seq<ActivityRecord>, n: nat, key: string, selectedYear: int)
    requires Accepted(records) && SymbolsDecideKeys(records) && NoRefusal(records, |records|, selectedYear)
    requires n <= |records| && (n > 0 ==> Select(records[n - 1], selectedYear).Take?)
    ensures KeyNet(records, n, key, selectedYear) == HoldingsAmong(records, n, SymbolsOf(records, key))
  {
    hide Accepted, SymbolsDecideKeys, Select, Movement, InputMovement, SymbolsOf, KeyNet;
    if n == 0 {
      NothingNets(records, key, selectedYear);
    } else {
      if n > 1 {
        EarlierIsTaken(records, n, selectedYear);
      }
      KeyNetIsHeld(records, n - 1, key, selectedYear);
      KeyNetStep(records, n, key, selectedYear);
      TakenMovement(records[n - 1], selectedYear);
      SymbolBelongsToKey(records, n - 1, key);
    }
  }

  lemma {:induction false} KeyIsCovered(records: seq<ActivityRecord>, n: nat, key: string, selectedYear: int)
    requires Accepted(records) && SymbolsDecideKeys(records) && NoRefusal(records, |records|, selectedYear) && n <= |records|
    ensures KeyNet(records, n, key, selectedYear) >= 0.0
  {
    hide Accepted, SymbolsDecideKeys, NoRefusal, Select, SymbolsOf, HoldingsAmong, KeyNet;
    if n == 0 {
      NothingNets(records, key, selectedYear);
    } else if Select(records[n - 1], selectedYear).Take? {
      KeyNetIsHeld(records, n, key, selectedYear);
      HoldingsAmongAreCovered(records, n, SymbolsOf(records, key));
    } else {
      KeyIsCovered(records, n - 1, key, selectedYear);
      KeyNetStep(records, n, key, selectedYear);
    }
  }

  /** When records of one symbol have one key, an accepted history oversells no key. */
  lemma AcceptedKeysAreCovered(records: seq<ActivityRecord>, selectedYear: int)
    requires Accepted(records) && SymbolsDecideKeys(records) && NoRefusal(records, |records|, selectedYear)
    ensures NoKeyOversells(records, selectedYear)
  {
    hide Accepted, SymbolsDecideKeys, NoRefusal, KeyNet;
    forall key, n: nat | n <= |records|
      ensures KeyNet(records, n, key, selectedYear) >= 0.0
    {
      KeyIsCovered(records, n, key, selectedYear);
    }
  }
}
