/** Selects the records through a year and groups them by asset, in replay order. */
module Grouping {
  import opened Outcomes
  import opened Sequences
  import opened Calendar
  import opened Activities
  import Text

  datatype AssetGroup = AssetGroup(assetKey: string, displayLabel: string, inputs: seq<CalculationInput>)

  datatype Selection = Skip | Refuse(error: Error) | Take(input: CalculationInput)

  /** What becomes of one record, the checks in their order. */
  function Select(record: ActivityRecord, selectedYear: int): Selection {
    if OccurredDay(record).None? then Refuse(InvalidInput)
    else if YearOf(OccurredDay(record).value) > selectedYear then Skip
    else if Text.TrimSpace(record.assetKey) == "" then Refuse(MissingAssetKey)
    else
      match SelectInput(record)
      case Failure(e) => Refuse(e)
      case Success(input) => Take(input)
  }

  ghost predicate NoRefusal(records: seq<ActivityRecord>, n: nat, selectedYear: int)
    requires n <= |records|
  {
    forall i :: 0 <= i < n ==> !Select(records[i], selectedYear).Refuse?
  }

  /** The inputs taken from the first n records. */
  ghost function Kept(records: seq<ActivityRecord>, n: nat, selectedYear: int): seq<CalculationInput>
    requires n <= |records|
  {
    if n == 0 then []
    else
      var selection := Select(records[n - 1], selectedYear);
      Kept(records, n - 1, selectedYear) + if selection.Take? then [selection.input] else []
  }

  /** The inputs of one asset, in order. */
  ghost function OfAsset(inputs: seq<CalculationInput>, key: string): seq<CalculationInput> {
    if inputs == [] then []
    else
      var last := inputs[|inputs| - 1];
      OfAsset(inputs[..|inputs| - 1], key) + if last.assetKey == key then [last] else []
  }

  /** The asset keys in the order they first appear. */
  ghost function FirstSeen(inputs: seq<CalculationInput>): seq<string> {
    FirstUses(AssetKeys(inputs))
  }

  ghost function AssetKeys(inputs: seq<CalculationInput>): (keys: seq<string>)
    ensures |keys| == |inputs| && forall i :: 0 <= i < |keys| ==> keys[i] == inputs[i].assetKey
  {
    seq(|inputs|, i requires 0 <= i < |inputs| => inputs[i].assetKey)
  }

  lemma OneMoreSeen(inputs: seq<CalculationInput>, input: CalculationInput)
    ensures FirstSeen(inputs + [input]) == if input.assetKey in FirstSeen(inputs) then FirstSeen(inputs) else FirstSeen(inputs) + [input.assetKey]
  {
    assert AssetKeys(inputs + [input]) == AssetKeys(inputs) + [input.assetKey];
    FirstUsesStep(AssetKeys(inputs), input.assetKey);
  }

  /** The first label that is not blank; the first one of all when every label is. */
  ghost function LabelOf(inputs: seq<CalculationInput>): string {
    if inputs == [] then ""
    else
      var init, last := inputs[..|inputs| - 1], inputs[|inputs| - 1];
      if init == [] then last.displayLabel
      else if LabelOf(init) == "" && Text.TrimSpace(last.displayLabel) != "" then last.displayLabel
      else LabelOf(init)
  }

  ghost function GroupOf(inputs: seq<CalculationInput>, key: string): AssetGroup {
    AssetGroup(key, LabelOf(OfAsset(inputs, key)), OfAsset(inputs, key))
  }

  ghost function GroupsOf(inputs: seq<CalculationInput>): (groups: seq<AssetGroup>)
    ensures |groups| == |FirstSeen(inputs)|
    ensures forall g :: 0 <= g < |groups| ==> groups[g] == GroupOf(inputs, FirstSeen(inputs)[g])
  {
    seq(|FirstSeen(inputs)|, g requires 0 <= g < |FirstSeen(inputs)| => GroupOf(inputs, FirstSeen(inputs)[g]))
  }

  /** What the loop has built from the inputs taken so far. */
  ghost predicate Grouped(orderedKeys: seq<string>, groupsByKey: map<string, AssetGroup>, inputs: seq<CalculationInput>) {
    && orderedKeys == FirstSeen(inputs)
    && (forall key :: key in groupsByKey <==> key in orderedKeys)
    && forall key :: key in groupsByKey ==> groupsByKey[key] == GroupOf(inputs, key)
  }

  lemma OneMoreOfAsset(inputs: seq<CalculationInput>, input: CalculationInput, key: string)
    ensures OfAsset(inputs + [input], key) == if input.assetKey == key then OfAsset(inputs, key) + [input] else OfAsset(inputs, key)
  {
    assert (inputs + [input])[..|inputs|] == inputs;
  }

  lemma {:induction false} FirstSeenKeys(inputs: seq<CalculationInput>, key: string)
    ensures key in FirstSeen(inputs) <==> OfAsset(inputs, key) != []
  {
    hide FirstUses;
    if inputs == [] {
      FirstUsesAreDistinct(AssetKeys(inputs));
    } else {
      var init, last := inputs[..|inputs| - 1], inputs[|inputs| - 1];
      assert inputs == init + [last];
      FirstSeenKeys(init, key);
      OneMoreSeen(init, last);
    }
  }

  /** A group with one more activity. */
  function Extended(existing: Option<AssetGroup>, input: CalculationInput): AssetGroup {
    var group := if existing.Some? then existing.value else AssetGroup(input.assetKey, input.displayLabel, []);
    var displayLabel := if group.displayLabel == "" && Text.TrimSpace(input.displayLabel) != "" then input.displayLabel else group.displayLabel;
    AssetGroup(group.assetKey, displayLabel, group.inputs + [input])
  }

  lemma OneMoreLabel(inputs: seq<CalculationInput>, input: CalculationInput)
    ensures LabelOf(inputs + [input])
            == if inputs == [] then input.displayLabel
               else if LabelOf(inputs) == "" && Text.TrimSpace(input.displayLabel) != "" then input.displayLabel
               else LabelOf(inputs)
  {
    assert (inputs + [input])[..|inputs|] == inputs;
  }

  lemma ExtendedGroup(inputs: seq<CalculationInput>, input: CalculationInput)
    ensures var existing := if input.assetKey in FirstSeen(inputs) then Some(GroupOf(inputs, input.assetKey)) else None;
            Extended(existing, input) == GroupOf(inputs + [input], input.assetKey)
  {
    hide Text.TrimSpace, OfAsset, FirstSeen, LabelOf;
    FirstSeenKeys(inputs, input.assetKey);
    OneMoreOfAsset(inputs, input, input.assetKey);
    OneMoreSeen(inputs, input);
    OneMoreLabel(OfAsset(inputs, input.assetKey), input);
  }

  lemma OneMoreInput(orderedKeys: seq<string>, groupsByKey: map<string, AssetGroup>, inputs: seq<CalculationInput>, input: CalculationInput)
    requires Grouped(orderedKeys, groupsByKey, inputs)
    ensures var key := input.assetKey;
            var existing := if key in groupsByKey then Some(groupsByKey[key]) else None;
            Grouped(if existing.Some? then orderedKeys else orderedKeys + [key], groupsByKey[key := Extended(existing, input)], inputs + [input])
  {
    hide OfAsset, FirstSeen, LabelOf, Extended;
    ExtendedGroup(inputs, input);
    OneMoreOfAsset(inputs, input, input.assetKey);
    OneMoreSeen(inputs, input);
    forall other | other in groupsByKey && other != input.assetKey
      ensures GroupOf(inputs + [input], other) == GroupOf(inputs, other)
    {
      OneMoreOfAsset(inputs, input, other);
    }
  }

  method SelectAssetInputGroupsThroughYear(records: seq<ActivityRecord>, selectedYear: int) returns (r: Result<seq<AssetGroup>>)
    ensures r.Success? <==> NoRefusal(records, |records|, selectedYear)
    ensures r.Success? ==> r.value == GroupsOf(Kept(records, |records|, selectedYear))
    ensures r.Failure? ==> exists i :: 0 <= i < |records| && NoRefusal(records, i, selectedYear) && Select(records[i], selectedYear) == Refuse(r.error)
  {
    hide Text.TrimSpace, FirstSeen, OfAsset, LabelOf, Extended, Select;
    var orderedKeys: seq<string> := [];
    var groupsByKey: map<string, AssetGroup> := map[];
    NothingGrouped();
    for i := 0 to |records|
      invariant NoRefusal(records, i, selectedYear)
      invariant Grouped(orderedKeys, groupsByKey, Kept(records, i, selectedYear))
    {
      var selection := Select(records[i], selectedYear);
      if selection.Refuse? {
        return Failure(selection.error);
      }
      assert Kept(records, i + 1, selectedYear)
             == if selection.Take? then Kept(records, i, selectedYear) + [selection.input] else Kept(records, i, selectedYear);
      if selection.Take? {
        var input := selection.input;
        OneMoreInput(orderedKeys, groupsByKey, Kept(records, i, selectedYear), input);
        var existing := if input.assetKey in groupsByKey then Some(groupsByKey[input.assetKey]) else None;
        if existing.None? {
          orderedKeys := orderedKeys + [input.assetKey];
        }
        groupsByKey := groupsByKey[input.assetKey := Extended(existing, input)];
      }
    }
    var groups: seq<AssetGroup> := [];
    ghost var kept := Kept(records, |records|, selectedYear);
    for g := 0 to |orderedKeys|
      invariant |groups| == g && forall h :: 0 <= h < g ==> groups[h] == GroupOf(kept, orderedKeys[h])
    {
      groups := groups + [groupsByKey[orderedKeys[g]]];
    }
    assert groups == GroupsOf(kept);
    return Success(groups);
  }

  lemma NothingGrouped()
    ensures Grouped([], map[], [])
  {
  }

  // -------- what grouping keeps --------

  lemma {:induction false} OfAssetHasKey(inputs: seq<CalculationInput>, key: string)
    ensures forall i :: 0 <= i < |OfAsset(inputs, key)| ==> OfAsset(inputs, key)[i].assetKey == key && OfAsset(inputs, key)[i] in inputs
  {
    if inputs == [] {
    } else {
      OfAssetHasKey(inputs[..|inputs| - 1], key);
    }
  }

  ghost predicate Appears(inputs: seq<CalculationInput>, key: string) {
    exists i :: 0 <= i < |inputs| && inputs[i].assetKey == key
  }

  lemma SeenAppears(inputs: seq<CalculationInput>, key: string)
    ensures key in FirstSeen(inputs) <==> Appears(inputs, key)
  {
    hide FirstUses;
    FirstUsesAreDistinct(AssetKeys(inputs));
    if key in AssetKeys(inputs) {
      var i :| 0 <= i < |inputs| && AssetKeys(inputs)[i] == key;
      assert inputs[i].assetKey == key;
    }
  }

  lemma FirstSeenAreDistinct(inputs: seq<CalculationInput>)
    ensures Distinct(FirstSeen(inputs))
  {
    FirstUsesAreDistinct(AssetKeys(inputs));
  }

  /** The position at which a key first appears. */
  ghost function FirstAt(inputs: seq<CalculationInput>, key: string): nat {
    if inputs == [] || inputs[0].assetKey == key then 0 else 1 + FirstAt(inputs[1..], key)
  }

  lemma {:induction false} FirstAtPrefix(inputs: seq<CalculationInput>, added: CalculationInput, key: string)
    ensures Appears(inputs, key) ==> FirstAt(inputs + [added], key) == FirstAt(inputs, key) < |inputs|
    ensures !Appears(inputs, key) && added.assetKey == key ==> FirstAt(inputs + [added], key) == |inputs|
  {
    if inputs == [] || inputs[0].assetKey == key {
    } else {
      var rest := inputs[1..];
      assert (inputs + [added])[1..] == rest + [added];
      FirstAtPrefix(rest, added, key);
      if Appears(inputs, key) {
        var i :| 0 <= i < |inputs| && inputs[i].assetKey == key;
        assert rest[i - 1].assetKey == key;
      }
    }
  }

  lemma {:induction false} FirstSeenIsOrdered(inputs: seq<CalculationInput>)
    ensures forall g, h :: 0 <= g < h < |FirstSeen(inputs)| ==> FirstAt(inputs, FirstSeen(inputs)[g]) < FirstAt(inputs, FirstSeen(inputs)[h])
  {
    if inputs == [] {
    } else {
      hide FirstSeen, FirstAt, Appears;
      var init, last := inputs[..|inputs| - 1], inputs[|inputs| - 1];
      assert inputs == init + [last];
      FirstSeenIsOrdered(init);
      OneMoreSeen(init, last);
      forall g, h | 0 <= g < h < |FirstSeen(inputs)|
        ensures FirstAt(inputs, FirstSeen(inputs)[g]) < FirstAt(inputs, FirstSeen(inputs)[h])
      {
        SeenAppears(init, FirstSeen(inputs)[g]);
        SeenAppears(init, FirstSeen(inputs)[h]);
        FirstAtPrefix(init, last, FirstSeen(inputs)[g]);
        FirstAtPrefix(init, last, FirstSeen(inputs)[h]);
      }
    }
  }

  ghost function TotalInputs(groups: seq<AssetGroup>): nat {
    if groups == [] then 0 else TotalInputs(groups[..|groups| - 1]) + |groups[|groups| - 1].inputs|
  }

  ghost function TotalOf(inputs: seq<CalculationInput>, keys: seq<string>): nat {
    if keys == [] then 0 else TotalOf(inputs, keys[..|keys| - 1]) + |OfAsset(inputs, keys[|keys| - 1])|
  }

  lemma {:induction false} TotalOfGrows(inputs: seq<CalculationInput>, added: CalculationInput, keys: seq<string>)
    requires Distinct(keys)
    ensures TotalOf(inputs + [added], keys) == TotalOf(inputs, keys) + if added.assetKey in keys then 1 else 0
  {
    assert (inputs + [added])[..|inputs|] == inputs;
    if keys == [] {
    } else {
      TotalOfGrows(inputs, added, keys[..|keys| - 1]);
      assert keys == keys[..|keys| - 1] + [keys[|keys| - 1]];
    }
  }

  lemma {:induction false} TotalOfFirstSeen(inputs: seq<CalculationInput>)
    ensures TotalOf(inputs, FirstSeen(inputs)) == |inputs|
  {
    if inputs == [] {
    } else {
      hide FirstSeen;
      var init, last := inputs[..|inputs| - 1], inputs[|inputs| - 1];
      assert inputs == init + [last];
      TotalOfFirstSeen(init);
      FirstSeenAreDistinct(init);
      OneMoreSeen(init, last);
      var keys := FirstSeen(init);
      TotalOfGrows(init, last, keys);
      if last.assetKey !in keys {
        FirstSeenKeys(init, last.assetKey);
        assert (keys + [last.assetKey])[..|keys|] == keys;
        assert OfAsset(inputs, last.assetKey) == OfAsset(init, last.assetKey) + [last];
      }
    }
  }

  lemma {:induction false} TotalOfGroups(inputs: seq<CalculationInput>, keys: seq<string>, groups: seq<AssetGroup>)
    requires |groups| == |keys| && forall g :: 0 <= g < |keys| ==> groups[g].inputs == OfAsset(inputs, keys[g])
    ensures TotalInputs(groups) == TotalOf(inputs, keys)
  {
    if keys == [] {
    } else {
      TotalOfGroups(inputs, keys[..|keys| - 1], groups[..|groups| - 1]);
    }
  }

  lemma {:induction false} KeptAreOfYear(records: seq<ActivityRecord>, n: nat, selectedYear: int)
    requires n <= |records|
    ensures forall i :: 0 <= i < |Kept(records, n, selectedYear)| ==>
              Kept(records, n, selectedYear)[i].year <= selectedYear && Kept(records, n, selectedYear)[i].assetKey != ""
  {
    if n == 0 {
    } else {
      KeptAreOfYear(records, n - 1, selectedYear);
    }
  }

  lemma GroupHoldsItsAsset(kept: seq<CalculationInput>, g: nat)
    requires g < |GroupsOf(kept)|
    ensures var group := GroupsOf(kept)[g];
            && group.inputs == OfAsset(kept, group.assetKey) != []
            && forall i :: 0 <= i < |group.inputs| ==> group.inputs[i].assetKey == group.assetKey && group.inputs[i] in kept
  {
    FirstSeenKeys(kept, FirstSeen(kept)[g]);
    OfAssetHasKey(kept, FirstSeen(kept)[g]);
  }

  ghost predicate BlankBefore(inputs: seq<CalculationInput>, i: nat)
    requires i <= |inputs|
  {
    forall j :: 0 <= j < i ==> inputs[j].displayLabel == ""
  }

  /** With trimmed labels a group is labelled by the first that is not blank, and unlabelled only when all are blank. */
  lemma {:induction false} LabelIsFirstNonBlank(inputs: seq<CalculationInput>)
    requires forall i :: 0 <= i < |inputs| ==> Text.TrimSpace(inputs[i].displayLabel) == inputs[i].displayLabel
    ensures LabelOf(inputs) == "" ==> BlankBefore(inputs, |inputs|)
    ensures LabelOf(inputs) != "" ==> exists i :: 0 <= i < |inputs| && inputs[i].displayLabel == LabelOf(inputs) && BlankBefore(inputs, i)
  {
    hide Text.TrimSpace;
    if inputs == [] {
    } else {
      var init, last := inputs[..|inputs| - 1], |inputs| - 1;
      LabelIsFirstNonBlank(init);
      if LabelOf(init) != "" {
        var i :| 0 <= i < |init| && init[i].displayLabel == LabelOf(init) && BlankBefore(init, i);
        assert inputs[i].displayLabel == LabelOf(inputs) && BlankBefore(inputs, i);
      } else if LabelOf(inputs) != "" {
        assert inputs[last].displayLabel == LabelOf(inputs) && BlankBefore(inputs, last);
      }
    }
  }

  ghost predicate HasGroup(groups: seq<AssetGroup>, key: string) {
    exists g :: 0 <= g < |groups| && groups[g].assetKey == key
  }

  /** Every kept activity is in the group of its asset, and together the groups are as many as were kept: grouping
      loses and duplicates nothing. */
  lemma GroupsHoldEverything(kept: seq<CalculationInput>)
    ensures TotalInputs(GroupsOf(kept)) == |kept|
    ensures forall i :: 0 <= i < |kept| ==> HasGroup(GroupsOf(kept), kept[i].assetKey)
  {
    hide FirstSeen, OfAsset, LabelOf, TotalInputs, TotalOf;
    var groups, keys := GroupsOf(kept), FirstSeen(kept);
    TotalOfFirstSeen(kept);
    TotalOfGroups(kept, keys, groups);
    forall i | 0 <= i < |kept|
      ensures HasGroup(groups, kept[i].assetKey)
    {
      assert Appears(kept, kept[i].assetKey);
      SeenAppears(kept, kept[i].assetKey);
      var g :| 0 <= g < |keys| && keys[g] == kept[i].assetKey;
      assert groups[g].assetKey == kept[i].assetKey;
    }
  }

  /** Groups have distinct nonblank keys in first-seen order and hold, in record order, exactly the activities of
      their asset through the selected year. */
  lemma GroupsPartitionTheRecords(records: seq<ActivityRecord>, selectedYear: int)
    ensures var kept := Kept(records, |records|, selectedYear);
            var groups := GroupsOf(kept);
            && (forall g :: 0 <= g < |groups| ==> groups[g].inputs == OfAsset(kept, groups[g].assetKey) != [] && groups[g].assetKey != "")
            && (forall g, i :: 0 <= g < |groups| && 0 <= i < |groups[g].inputs| ==>
                  groups[g].inputs[i].assetKey == groups[g].assetKey && groups[g].inputs[i].year <= selectedYear)
            && (forall g, h :: 0 <= g < h < |groups| ==>
                  groups[g].assetKey != groups[h].assetKey && FirstAt(kept, groups[g].assetKey) < FirstAt(kept, groups[h].assetKey))
            && TotalInputs(groups) == |kept|
  {
    hide FirstSeen, OfAsset, Kept, FirstAt, TotalInputs, LabelOf;
    var kept := Kept(records, |records|, selectedYear);
    var groups := GroupsOf(kept);
    FirstSeenAreDistinct(kept);
    FirstSeenIsOrdered(kept);
    KeptAreOfYear(records, |records|, selectedYear);
    GroupsHoldEverything(kept);
    forall g | 0 <= g < |groups|
      ensures groups[g].inputs == OfAsset(kept, groups[g].assetKey) != [] && groups[g].assetKey != ""
      ensures forall i :: 0 <= i < |groups[g].inputs| ==>
                groups[g].inputs[i].assetKey == groups[g].assetKey && groups[g].inputs[i].year <= selectedYear
    {
      GroupHoldsItsAsset(kept, g);
      assert groups[g].inputs[0] in kept;
    }
  }

  // -------- what a record becomes --------

  /** The input carries the record's own identity, day, type and quantity, and the amounts, currency and scope selected for it. */
  ghost predicate CarriesRecord(input: CalculationInput, record: ActivityRecord) {
    && OccurredDay(record) == Some(input.date) && input.year == YearOf(input.date)
    && input.sourceId == Text.TrimSpace(record.sourceId) && input.assetKey == Text.TrimSpace(record.assetKey) && input.assetKey != ""
    && input.quantity == record.quantity
    && (input.activityType == Buy <==> record.activityType == "BUY") && (input.activityType == Sell <==> record.activityType == "SELL")
    && input.displayLabel == Text.TrimSpace(if Text.TrimSpace(record.assetSymbol) != "" then record.assetSymbol else record.assetName)
    && record.selected.Success?
    && var selected := record.selected.value;
       && input.unitPrice == selected.unitPrice && input.grossValue == selected.grossValue && input.feeAmount == selected.feeAmount
       && input.zeroPricedReduction == selected.zeroPricedReduction && input.sourceScope == selected.sourceScope
       && input.currency == selected.currency
  }

  /** Those of the first n records that are dated in the selected year or before. */
  ghost function Through(records: seq<ActivityRecord>, n: nat, selectedYear: int): seq<ActivityRecord>
    requires n <= |records|
  {
    if n == 0 then []
    else
      var day := OccurredDay(records[n - 1]);
      Through(records, n - 1, selectedYear) + if day.Some? && YearOf(day.value) <= selectedYear then [records[n - 1]] else []
  }

  lemma SelectionCarriesTheRecord(record: ActivityRecord, selectedYear: int)
    ensures Select(record, selectedYear).Take?
            <==> && OccurredDay(record).Some? && YearOf(OccurredDay(record).value) <= selectedYear
                 && Text.TrimSpace(record.assetKey) != "" && record.selected.Success?
    ensures Select(record, selectedYear).Skip? <==> OccurredDay(record).Some? && YearOf(OccurredDay(record).value) > selectedYear
    ensures Select(record, selectedYear).Take? ==> CarriesRecord(Select(record, selectedYear).input, record)
  {
    hide YearOf, OccurredDay, Text.TrimSpace;
  }

  /** What is kept is exactly the records through the year, in order, each as it was selected. */
  lemma {:induction false} KeptCarryTheirRecords(records: seq<ActivityRecord>, n: nat, selectedYear: int)
    requires n <= |records| && NoRefusal(records, n, selectedYear)
    ensures |Kept(records, n, selectedYear)| == |Through(records, n, selectedYear)|
    ensures forall k :: 0 <= k < |Kept(records, n, selectedYear)| ==>
              CarriesRecord(Kept(records, n, selectedYear)[k], Through(records, n, selectedYear)[k])
  {
    hide Select, CarriesRecord, YearOf, OccurredDay;
    if n == 0 {
    } else {
      KeptCarryTheirRecords(records, n - 1, selectedYear);
      SelectionCarriesTheRecord(records[n - 1], selectedYear);
      assert !Select(records[n - 1], selectedYear).Refuse?;
    }
  }
}
