/**
 What a recorded value shows of the value it was made from, told from the two alone:
 single values as they are, strings cut, redacted values and structs by their size,
 arrays and objects by some of their members and a count of the others.
 */
module Shows {
  import opened Wrappers
  import opened Json
  import opened StructPaths
  import opened Sanitizer
  import opened SanitizerBound
  import opened KeptKeys
  import Utf8

  /** Up to 200 bytes as they are; else what fits before a character boundary, and the length. */
  ghost predicate IsCut(s: string, out: string) {
    if |s| <= 200 then out == s
    else
      exists n: nat :: n <= 200 && Utf8.IsCharBoundary(s, n) && (forall j :: n < j <= 200 ==> !Utf8.IsCharBoundary(s, j))
                       && out == s[..n] + ("...[truncated " + Decimal(|s|) + " bytes]")
  }

  /** The kind of a hidden value, and its size if it has one. */
  ghost predicate IsStandIn(v: Json, out: Json) {
    match v
    case Str(s) => out == Str("[redacted: " + Decimal(|s|) + " bytes]")
    case Array(items) => out == Str("[redacted: " + Decimal(|items|) + " items]")
    case _ => out == Str("[redacted]")
  }

  ghost predicate IsHiddenKey(key: string) {
    key in ["content", "file_content", "csv_content", "csv_data", "data", "rows", "text", "value",
            "values", "old_value", "new_value", "filter_value", "replacement", "base64", "image", "binary"]
  }

  /** `out` is what an entry may show of `v`, at a container level and a place. */
  ghost predicate ShowsValue(v: Json, out: Json, level: nat, at: At)
    decreases LevelsLeft(level), 2
  {
    match v
    case Array(items) =>
      if at.IsStruct() then IsStandIn(v, out)
      else if level > 4 then out == Str("[nested]")
      else out.Array? && ShowsItems(items, out.items, level, at.Down(None))
    case Object(entries) =>
      if level > 4 then out == Str("[nested]") else out.Object? && ShowsEntries(entries, out.entries, level, at)
    case Str(s) => out.Str? && IsCut(s, out.s)
    case _ => out == v
  }

  /** The first elements, and the number of the others if there are any. */
  ghost predicate ShowsItems(items: seq<Json>, out: seq<Json>, level: nat, at: At)
    requires level <= MAX_DEPTH
    decreases LevelsLeft(level), 1
  {
    exists n: nat :: CountsItems(items, out, n) && forall k :: 0 <= k < n ==> ShowsValue(items[k], out[k], level + 1, at)
  }

  predicate CountsItems(items: seq<Json>, out: seq<Json>, n: nat) {
    && n <= |items| && n <= 20 && |out| == n + (if n < |items| then 1 else 0)
    && (n < |items| ==> out[n] == Str("[+" + Decimal(|items| - n) + " more]"))
  }

  /** Some of the keys, each under its cut name and no name twice, and the number of the others if there are any. */
  ghost predicate ShowsEntries(entries: seq<Entry>, out: seq<Entry>, level: nat, at: At)
    requires level <= MAX_DEPTH
    decreases LevelsLeft(level), 1
  {
    && (forall j, k :: 0 <= j < k < |out| ==> out[j].key != out[k].key)
    && exists n: nat :: CountsEntries(entries, out, n)
         && forall k :: 0 <= k < n ==> ShowsOneOf(entries, out[k], level, at)
  }

  ghost predicate ShowsOneOf(entries: seq<Entry>, out: Entry, level: nat, at: At)
    requires level <= MAX_DEPTH
    decreases LevelsLeft(level), 0, 1
  {
    exists i :: 0 <= i < |entries| && ShowsEntry(entries[i], out, level, at)
  }

  predicate CountsEntries(entries: seq<Entry>, out: seq<Entry>, n: nat) {
    && n <= |entries| && n <= 64 && |out| == n + (if n < |entries| then 1 else 0)
    && (n < |entries| ==> out[n] == Entry("[+" + Decimal(|entries| - n) + " more keys]", Null))
  }

  ghost predicate ShowsEntry(e: Entry, out: Entry, level: nat, at: At)
    requires level <= MAX_DEPTH
    decreases LevelsLeft(level), 0, 0
  {
    && IsCut(e.key, out.key)
    && if IsHiddenKey(e.key) then IsStandIn(e.value, out.value)
       else ShowsValue(e.value, out.value, level + 1, at.Down(Some(e.key)))
  }

  // ---- The sanitiser's results show it --------------------------------------------------------

  lemma CutIsCut(s: string)
    ensures IsCut(s, Truncate(s))
  {
    if |s| > 200 {
      var n := LargestBoundary(s, 200);
      assert Utf8.IsCharBoundary(s, n);
    }
  }

  lemma RedactIsStandIn(v: Json)
    ensures IsStandIn(v, Redact(v))
  {
  }

  lemma HiddenKeys(key: string)
    ensures IsRedacted(key) <==> IsHiddenKey(key)
  {
  }

  /** A value taken at all shows the value it was made from. */
  lemma {:induction false} TakenValueShows(v: Json, level: nat, at: At, budget: nat)
    requires SanitizedValue(v, level, at, budget).value.Some?
    ensures ShowsValue(v, SanitizedValue(v, level, at, budget).value.value, level, at)
    decreases LevelsLeft(level), 2
  {
    hide Truncate, Redact, SanitizedObject, SanitizedArray, IsCut, IsStandIn, ShowsItems, ShowsEntries, ScalarLen;
    match v
    case Array(items) =>
      RedactIsStandIn(v);
      if !at.IsStruct() && level <= MAX_DEPTH {
        ArrayShows(items, level, at, budget);
      }
    case Object(entries) =>
      if level <= MAX_DEPTH {
        ObjectShows(entries, level, [], at, budget);
      }
    case Str(s) =>
      CutIsCut(s);
    case _ =>
  }

  lemma {:induction false} ArrayShows(items: seq<Json>, level: nat, at: At, budget: nat)
    requires level <= MAX_DEPTH && SanitizedArray(items, level, at, budget).value.Some?
    ensures var out := SanitizedArray(items, level, at, budget).value.value;
      out.Array? && ShowsItems(items, out.items, level, at.Down(None))
    decreases LevelsLeft(level), 1
  {
    hide SanitizedValue, ShowsValue;
    assert budget >= 3;
    var kept := ArrayKeepsAPrefix(items, level, at, budget);
    var n := |kept|;
    var out := SanitizedArray(items, level, at, budget).value.value.items;
    assert CountsItems(items, out, n);
    forall k | 0 <= k < n
      ensures ShowsValue(items[k], out[k], level + 1, at.Down(None))
    {
      ItemShows(items[k], level + 1, at.Down(None), kept[k], level);
    }
  }

  lemma {:induction false} ItemShows(v: Json, level: nat, at: At, out: Json, outer: nat)
    requires IsItemImage(v, level, at, out) && outer <= MAX_DEPTH && level == outer + 1
    ensures ShowsValue(v, out, level, at)
    decreases LevelsLeft(outer), 0
  {
    hide SanitizedValue, ShowsValue;
    var budget: nat :| SanitizedValue(v, level, at, budget).value == Some(out);
    TakenValueShows(v, level, at, budget);
  }

  lemma {:induction false} EntryShows(e: Entry, level: nat, at: At, name: string, v: Json)
    requires level <= MAX_DEPTH && IsImage(e, level, at, v) && name == Truncate(e.key)
    ensures ShowsEntry(e, Entry(name, v), level, at)
    decreases LevelsLeft(level), 0
  {
    hide SanitizedValue, ShowsValue, Truncate, IsCut, Redact, IsStandIn, IsRedacted, IsHiddenKey;
    CutIsCut(e.key);
    HiddenKeys(e.key);
    RedactIsStandIn(e.value);
    var budget: nat :| EntryValue(e, level, at, budget).value == Some(v);
    if !IsRedacted(e.key) {
      TakenValueShows(e.value, level + 1, at.Down(Some(e.key)), budget);
    }
  }

  lemma {:induction false} ObjectShows(entries: seq<Entry>, level: nat, declared: seq<string>, at: At, budget: nat)
    requires level <= MAX_DEPTH && SanitizedObject(entries, level, declared, at, budget).value.Some?
    ensures var out := SanitizedObject(entries, level, declared, at, budget).value.value;
      out.Object? && ShowsEntries(entries, out.entries, level, at)
    decreases LevelsLeft(level), 1
  {
    hide TakingOrder, EntriesFrom, IsImage, ShowsEntry, Truncate, StopsAt, IsKeysMarker;
    assert budget >= 3;
    var order := TakingOrder(entries, declared);
    var n, kept := ObjectKeepsAPrefix(entries, level, declared, at, budget);
    var p := Admitted(order, n);
    var out := SanitizedObject(entries, level, declared, at, budget).value.value.entries;
    AdmittedNamesDiffer(order, n);
    if |kept| < |entries| {
      NoKeptMarker(order, 0, level, at, [], budget - 3);
      MarkerIsNew(kept, |entries| - |kept|);
    }
    assert CountsEntries(entries, out, |kept|) by {
      assert out == if |kept| == |entries| then kept else kept + [Entry(KeysMarker(|entries| - |kept|), Null)];
    }
    NamesAreDistinct(kept, out);
    OrderIsFromEntries(entries, declared);
    forall k | 0 <= k < |kept|
      ensures ShowsOneOf(entries, out[k], level, at)
    {
      var e := order[p[k]];
      EntryShows(e, level, at, kept[k].key, kept[k].value);
      assert e in order;
      var i :| 0 <= i < |entries| && entries[i] == e;
      assert ShowsEntry(entries[i], out[k], level, at);
    }
  }

  lemma NamesAreDistinct(kept: seq<Entry>, out: seq<Entry>)
    requires forall j, k :: 0 <= j < k < |kept| ==> kept[j].key != kept[k].key
    requires out == kept || (|out| == |kept| + 1 && out[..|kept|] == kept && !HasKey(kept, out[|kept|].key))
    ensures forall j, k :: 0 <= j < k < |out| ==> out[j].key != out[k].key
  {
    hide HasKey;
    if out != kept {
      LookupFinds(kept, out[|kept|].key);
    }
  }

  /** What an entry holds of a call's arguments. */
  ghost predicate ShowsArguments(args: Json, out: Json, structs: seq<string>) {
    match args
    case Object(entries) => out.Object? && ShowsEntries(entries, out.entries, 1, At(structs, Some("")))
    case Null => out == Null
    case _ => IsStandIn(args, out)
  }

  /** Every entry shows the arguments of its call and nothing else, whatever they are and whatever the schema declares. */
  lemma {:induction false} RecordedArgumentsShow(args: Json, declared: seq<string>, structs: seq<string>)
    ensures ShowsArguments(args, SanitizedArguments(args, declared, structs), structs)
  {
    hide SanitizedObject, ShowsEntries, Redact, IsStandIn;
    match args
    case Object(entries) =>
      ObjectIsTaken(entries, 1, declared, At(structs, Some("")), MAX_ARGUMENT_BYTES);
      ObjectShows(entries, 1, declared, At(structs, Some("")), MAX_ARGUMENT_BYTES);
    case Null =>
    case _ =>
      RedactIsStandIn(args);
  }

  lemma ObjectIsTaken(entries: seq<Entry>, level: nat, declared: seq<string>, at: At, budget: nat)
    requires level <= MAX_DEPTH && budget >= 3
    ensures SanitizedObject(entries, level, declared, at, budget).value.Some?
  {
  }
}
