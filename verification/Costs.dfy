/**
 What a value costs of the byte budget when there is enough of it: a sum over the
 value as given, without running the walk that cuts it.
 */
module Costs {
  import opened Wrappers
  import opened Json
  import opened StructPaths
  import opened Sanitizer

  function ValueCost(v: Json, level: nat, at: At): nat
    decreases LevelsLeft(level), 2, 0
  {
    if v.Array? && at.IsStruct() then ScalarLen(Redact(v)) + 1
    else if v.Object? && level <= MAX_DEPTH then ObjectCost(v.entries, level, at)
    else if v.Array? && level <= MAX_DEPTH then ArrayCost(v.items, level, at)
    else if v.Object? || v.Array? then JsonStringLen("[nested]") + 1
    else if v.Str? then JsonStringLen(Truncate(v.s)) + 1
    else ScalarLen(v) + 1
  }

  /** The brackets, the first 20 elements, and the marker when there are more. */
  function ArrayCost(items: seq<Json>, level: nat, at: At): nat
    requires level <= MAX_DEPTH
    decreases LevelsLeft(level), 1, 0
  {
    3 + ItemsCost(items, 0, level, at.Down(None))
      + if |items| > MAX_ARRAY_ITEMS then JsonStringLen(MoreMarker(|items| - MAX_ARRAY_ITEMS)) + 1 else 0
  }

  function ItemsCost(items: seq<Json>, i: nat, level: nat, at: At): nat
    requires level <= MAX_DEPTH && i <= |items|
    decreases LevelsLeft(level), 0, |items| - i
  {
    if i == |items| || i >= MAX_ARRAY_ITEMS then 0
    else ValueCost(items[i], level + 1, at) + ItemsCost(items, i + 1, level, at)
  }

  /** The braces, the first 64 names that differ, and the marker when keys are missing. */
  function ObjectCost(entries: seq<Entry>, level: nat, at: At): nat
    requires level <= MAX_DEPTH
    decreases LevelsLeft(level), 1, 0
  {
    var keys := KeysCost(TakingOrder(entries, []), 0, level, at, []);
    3 + keys.1 + if |entries| > |keys.0| then JsonStringLen(KeysMarker(|entries| - |keys.0|)) + 6 else 0
  }

  /** The names kept, and what those after `names` cost. */
  function KeysCost(order: seq<Entry>, i: nat, level: nat, at: At, names: seq<string>): (seq<string>, nat)
    requires level <= MAX_DEPTH && i <= |order|
    decreases LevelsLeft(level), 0, |order| - i + 2
  {
    if i == |order| || |names| == MAX_OBJECT_KEYS then (names, 0)
    else
      var name := Truncate(order[i].key);
      if name in names || IsKeysMarker(name) then KeysCost(order, i + 1, level, at, names)
      else
        var rest := KeysCost(order, i + 1, level, at, names + [name]);
        (rest.0, rest.1 + EntryCost(order[i], level, at))
  }

  /** A key and its value. */
  function EntryCost(e: Entry, level: nat, at: At): nat
    requires level <= MAX_DEPTH
    decreases LevelsLeft(level), 0, 0
  {
    JsonStringLen(Truncate(e.key)) + 1
    + if IsRedacted(e.key) then ScalarLen(Redact(e.value)) + 1
      else ValueCost(e.value, level + 1, at.Down(Some(e.key)))
  }

  // ---- It is what is charged -----------------------------------------------------------

  ghost predicate SameNames(kept: seq<Entry>, names: seq<string>) {
    |kept| == |names| && forall name :: HasKey(kept, name) <==> name in names
  }

  /** A value whose cost the budget covers is recorded, and charged exactly that. */
  lemma {:induction false} CostIsCharged(v: Json, level: nat, at: At, budget: nat)
    requires ValueCost(v, level, at) <= budget
    ensures var r := SanitizedValue(v, level, at, budget);
      r.value.Some? && r.left == budget - ValueCost(v, level, at)
    decreases LevelsLeft(level), 2, 0
  {
    hide JsonStringLen, Truncate, Redact, SanitizedObject, SanitizedArray, ObjectCost, ArrayCost;
    if v.Array? && at.IsStruct() {
    } else if v.Object? && level <= MAX_DEPTH {
      ObjectCostIsCharged(v.entries, level, at, budget);
    } else if v.Array? && level <= MAX_DEPTH {
      ArrayCostIsCharged(v.items, level, at, budget);
    }
  }

  lemma {:induction false} ArrayCostIsCharged(items: seq<Json>, level: nat, at: At, budget: nat)
    requires level <= MAX_DEPTH && ArrayCost(items, level, at) <= budget
    ensures var r := SanitizedArray(items, level, at, budget);
      r.value.Some? && r.left == budget - ArrayCost(items, level, at)
    decreases LevelsLeft(level), 1, 0
  {
    hide JsonStringLen, MoreMarker, ItemsFrom, ItemsCost;
    ItemsCostIsCharged(items, 0, level, at.Down(None), [], budget - 3);
  }

  lemma {:induction false} ItemsCostIsCharged(items: seq<Json>, i: nat, level: nat, at: At, kept: seq<Json>, budget: nat)
    requires level <= MAX_DEPTH && i <= |items| && i <= MAX_ARRAY_ITEMS && |kept| == i
    requires ItemsCost(items, i, level, at) <= budget
    ensures var r := ItemsFrom(items, i, level, at, kept, budget);
      && |r.kept| == (if |items| <= MAX_ARRAY_ITEMS then |items| else MAX_ARRAY_ITEMS)
      && r.left == budget - ItemsCost(items, i, level, at)
    decreases LevelsLeft(level), 0, |items| - i
  {
    hide SanitizedValue, ValueCost;
    if i < |items| && i < MAX_ARRAY_ITEMS {
      CostIsCharged(items[i], level + 1, at, budget);
      var r := SanitizedValue(items[i], level + 1, at, budget);
      ItemsCostIsCharged(items, i + 1, level, at, kept + [r.value.value], r.left);
    }
  }

  lemma {:induction false} ObjectCostIsCharged(entries: seq<Entry>, level: nat, at: At, budget: nat)
    requires level <= MAX_DEPTH && ObjectCost(entries, level, at) <= budget
    ensures var r := SanitizedObject(entries, level, [], at, budget);
      r.value.Some? && r.left == budget - ObjectCost(entries, level, at)
    decreases LevelsLeft(level), 1, 0
  {
    hide JsonStringLen, KeysMarker, EntriesFrom, KeysCost, TakingOrder;
    KeysCostIsCharged(TakingOrder(entries, []), 0, level, at, [], [], budget - 3);
  }

  lemma {:induction false} KeysCostIsCharged(order: seq<Entry>, i: nat, level: nat, at: At,
                                             kept: seq<Entry>, names: seq<string>, budget: nat)
    requires level <= MAX_DEPTH && i <= |order| && SameNames(kept, names)
    requires KeysCost(order, i, level, at, names).1 <= budget
    ensures var r := EntriesFrom(order, i, level, at, kept, budget);
      && |r.kept| == |KeysCost(order, i, level, at, names).0|
      && r.left == budget - KeysCost(order, i, level, at, names).1
    decreases LevelsLeft(level), 0, |order| - i + 2
  {
    hide JsonStringLen, IsKeysMarker, Truncate, EntryValue, EntryCost, HasKey;
    if i < |order| && |names| != MAX_OBJECT_KEYS {
      var e := order[i];
      var name := Truncate(e.key);
      if name in names || IsKeysMarker(name) {
        assert Take(e, level, at, kept, budget) == Skip;
        KeysCostIsCharged(order, i + 1, level, at, kept, names, budget);
      } else {
        EntryCostIsCharged(e, level, at, kept, budget);
        var t := Take(e, level, at, kept, budget);
        OneMoreName(kept, names, name, t.value);
        KeysCostIsCharged(order, i + 1, level, at, Put(kept, name, t.value), names + [name], t.left);
      }
    }
  }

  lemma {:induction false} EntryCostIsCharged(e: Entry, level: nat, at: At, kept: seq<Entry>, budget: nat)
    requires level <= MAX_DEPTH && EntryCost(e, level, at) <= budget
    requires !HasKey(kept, Truncate(e.key)) && !IsKeysMarker(Truncate(e.key))
    ensures var t := Take(e, level, at, kept, budget);
      t.Keep? && t.name == Truncate(e.key) && t.left == budget - EntryCost(e, level, at)
    decreases LevelsLeft(level), 0, 0
  {
    hide JsonStringLen, Truncate, IsKeysMarker, HasKey, Redact, IsRedacted, SanitizedValue, ValueCost;
    var rest := budget - (JsonStringLen(Truncate(e.key)) + 1);
    if !IsRedacted(e.key) {
      CostIsCharged(e.value, level + 1, at.Down(Some(e.key)), rest);
    }
  }

  lemma OneMoreName(kept: seq<Entry>, names: seq<string>, name: string, v: Json)
    requires SameNames(kept, names) && name !in names
    ensures SameNames(Put(kept, name, v), names + [name])
  {
    hide HasKey;
    PutAppends(kept, name, v);
    var put := Put(kept, name, v);
    forall x
      ensures HasKey(put, x) <==> x in names + [name]
    {
      LookupFinds(kept, x);
      LookupFinds(put, x);
      if i :| 0 <= i < |kept| && kept[i].key == x {
        assert put[i].key == x;
      }
      assert put[|kept|].key == name;
    }
  }
}
