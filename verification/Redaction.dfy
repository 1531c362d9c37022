/**
 Redaction as noninterference: what the sanitiser returns, and what it charges,
 does not depend on the values it must not record.
 */
module Redaction {
  import opened Wrappers
  import opened Json
  import opened StructPaths
  import opened Sanitizer
  import StableSort

  predicate IsContainer(v: Json) {
    v.Array? || v.Object?
  }

  /**
   Two values at the same place that agree on everything an entry may show: they may
   differ in the values under a redacted key (with equal size stand-ins), inside
   arrays of equal length at a struct path, below the depth cap, past the kept
   elements of an array and past the cut of a string.
   */
  predicate Alike(v: Json, w: Json, level: nat, at: At)
    decreases LevelsLeft(level), 2
  {
    if v.Array? && w.Array? && at.IsStruct() then |v.items| == |w.items|
    else if level > MAX_DEPTH && IsContainer(v) && IsContainer(w) then
      at.IsStruct() ==> v.Object? && w.Object?
    else if v.Object? && w.Object? then AlikeEntries(v.entries, w.entries, level, at)
    else if v.Array? && w.Array? then
      && |v.items| == |w.items|
      && forall i :: 0 <= i < |v.items| && i < MAX_ARRAY_ITEMS ==>
                       Alike(v.items[i], w.items[i], level + 1, at.Down(None))
    else if v.Str? && w.Str? then Truncate(v.s) == Truncate(w.s)
    else v == w
  }

  predicate AlikeEntries(a: seq<Entry>, b: seq<Entry>, level: nat, at: At)
    requires level <= MAX_DEPTH
    decreases LevelsLeft(level), 1
  {
    |a| == |b| && forall i :: 0 <= i < |a| ==> AlikeEntry(a[i], b[i], level, at)
  }

  predicate AlikeEntry(e: Entry, f: Entry, level: nat, at: At)
    requires level <= MAX_DEPTH
    decreases LevelsLeft(level), 0
  {
    && e.key == f.key
    && if IsRedacted(e.key) then Redact(e.value) == Redact(f.value)
       else Alike(e.value, f.value, level + 1, at.Down(Some(e.key)))
  }

  // ---- What a stand-in shows ------------------------------------------------------------

  /** A stand-in is its two words around the count. */
  lemma StandInText(n: nat, word: string, m: nat, word': string)
    requires word in ["bytes", "items"] && word' in ["bytes", "items"]
    requires "[redacted: " + Decimal(n) + " " + word + "]" == "[redacted: " + Decimal(m) + " " + word' + "]"
    ensures n == m && word == word'
  {
    hide Decimal;
    var a, b := "[redacted: " + Decimal(n) + " " + word + "]", "[redacted: " + Decimal(m) + " " + word' + "]";
    assert |word| == 5 && |word'| == 5;
    assert a[|a| - 6..|a| - 1] == word && b[|b| - 6..|b| - 1] == word';
    assert a[11..|a| - 7] == Decimal(n) && b[11..|b| - 7] == Decimal(m);
    DecimalReadsBack(n);
    DecimalReadsBack(m);
  }

  lemma LongStandIn(n: nat, word: string)
    requires word in ["bytes", "items"]
    ensures "[redacted: " + Decimal(n) + " " + word + "]" != "[redacted]"
  {
    var a := "[redacted: " + Decimal(n) + " " + word + "]";
    assert a[9] == ':';
  }

  lemma StandIn(v: Json)
    ensures v.Str? ==> Redact(v) == Str("[redacted: " + Decimal(|v.s|) + " " + "bytes" + "]")
    ensures v.Array? ==> Redact(v) == Str("[redacted: " + Decimal(|v.items|) + " " + "items" + "]")
    ensures !v.Str? && !v.Array? ==> Redact(v) == Str("[redacted]")
  {
    hide Decimal;
    if v.Str? {
      assert "[redacted: " + Decimal(|v.s|) + " bytes]" == "[redacted: " + Decimal(|v.s|) + " " + "bytes" + "]";
    } else if v.Array? {
      assert "[redacted: " + Decimal(|v.items|) + " items]" == "[redacted: " + Decimal(|v.items|) + " " + "items" + "]";
    }
  }

  /** The stand-in of a value shows whether it is a string or an array, and its size; of others, nothing. */
  lemma StandInsAgreeIff(v: Json, w: Json)
    ensures Redact(v) == Redact(w) <==>
      || (v.Str? && w.Str? && |v.s| == |w.s|)
      || (v.Array? && w.Array? && |v.items| == |w.items|)
      || (!v.Str? && !v.Array? && !w.Str? && !w.Array?)
  {
    hide Redact, Decimal;
    StandIn(v);
    StandIn(w);
    var n := if v.Str? then |v.s| else if v.Array? then |v.items| else 0;
    var m := if w.Str? then |w.s| else if w.Array? then |w.items| else 0;
    var x := if v.Str? then "bytes" else "items";
    var y := if w.Str? then "bytes" else "items";
    LongStandIn(n, x);
    LongStandIn(m, y);
    if Redact(v) == Redact(w) && (v.Str? || v.Array?) && (w.Str? || w.Array?) {
      StandInText(n, x, m, y);
    }
  }

  // ---- Alike objects are taken in the same order ----------------------------------

  lemma AlikeRank(e: Entry, f: Entry, level: nat, at: At)
    requires level <= MAX_DEPTH && AlikeEntry(e, f, level, at)
    ensures KeyRank(e) == KeyRank(f)
  {
    hide IsRedacted, Redact;
  }

  lemma {:induction false} AlikeLookup(a: seq<Entry>, b: seq<Entry>, key: string, level: nat, at: At)
    requires level <= MAX_DEPTH && AlikeEntries(a, b, level, at)
    ensures HasKey(a, key) == HasKey(b, key)
    ensures HasKey(a, key) ==> AlikeEntry(Lookup(a, key).value, Lookup(b, key).value, level, at)
  {
    hide IsRedacted, Redact, Alike;
    if a != [] {
      assert AlikeEntry(a[0], b[0], level, at);
      AlikeLookup(a[1..], b[1..], key, level, at);
    }
  }

  lemma {:induction false} AlikeDeclared(a: seq<Entry>, b: seq<Entry>, declared: seq<string>, level: nat, at: At)
    requires level <= MAX_DEPTH && AlikeEntries(a, b, level, at)
    ensures AlikeEntries(Declared(a, declared), Declared(b, declared), level, at)
  {
    hide AlikeEntry;
    if declared != [] {
      AlikeLookup(a, b, declared[0], level, at);
      AlikeDeclared(a, b, declared[1..], level, at);
    }
  }

  lemma {:induction false} AlikeRest(a: seq<Entry>, b: seq<Entry>, declared: seq<string>, level: nat, at: At)
    requires level <= MAX_DEPTH && AlikeEntries(a, b, level, at)
    ensures AlikeEntries(Rest(a, declared), Rest(b, declared), level, at)
  {
    hide IsRedacted, Redact, Alike;
    if a != [] {
      assert AlikeEntry(a[0], b[0], level, at);
      AlikeRest(a[1..], b[1..], declared, level, at);
    }
  }

  lemma {:induction false} AlikeInsert(e: Entry, f: Entry, a: seq<Entry>, b: seq<Entry>, level: nat, at: At)
    requires level <= MAX_DEPTH && AlikeEntry(e, f, level, at) && AlikeEntries(a, b, level, at)
    ensures AlikeEntries(StableSort.Insert(e, a, HeadLe), StableSort.Insert(f, b, HeadLe), level, at)
  {
    hide AlikeEntries, AlikeEntry, HeadLe;
    AlikeSlices(a, b, level, at);
    if a == [] {
      AlikeConcat([e], [f], a, b, level, at);
    } else {
      AlikeHeadLe(e, f, a[0], b[0], level, at);
      if HeadLe(e, a[0]) {
        AlikeConcat([e], [f], a, b, level, at);
      } else {
        AlikeInsert(e, f, a[1..], b[1..], level, at);
        AlikeConcat([a[0]], [b[0]],
                    StableSort.Insert(e, a[1..], HeadLe), StableSort.Insert(f, b[1..], HeadLe), level, at);
      }
    }
  }

  lemma AlikeConcat(a: seq<Entry>, b: seq<Entry>, a': seq<Entry>, b': seq<Entry>, level: nat, at: At)
    requires level <= MAX_DEPTH && AlikeEntries(a', b', level, at)
    requires AlikeEntries(a, b, level, at) || (|a| == |b| == 1 && AlikeEntry(a[0], b[0], level, at))
    ensures AlikeEntries(a + a', b + b', level, at)
  {
    hide AlikeEntry;
  }

  lemma AlikeSlices(a: seq<Entry>, b: seq<Entry>, level: nat, at: At)
    requires level <= MAX_DEPTH && AlikeEntries(a, b, level, at)
    ensures |a| == |b|
    ensures a != [] ==> AlikeEntry(a[0], b[0], level, at) && AlikeEntries(a[1..], b[1..], level, at)
  {
    hide AlikeEntry;
  }

  lemma AlikeHeadLe(e: Entry, f: Entry, e': Entry, f': Entry, level: nat, at: At)
    requires level <= MAX_DEPTH && AlikeEntry(e, f, level, at) && AlikeEntry(e', f', level, at)
    ensures HeadLe(e, e') == HeadLe(f, f')
  {
    hide IsRedacted, Redact, Alike, KeyRank;
    AlikeRank(e, f, level, at);
    AlikeRank(e', f', level, at);
  }

  lemma {:induction false} AlikeSort(a: seq<Entry>, b: seq<Entry>, level: nat, at: At)
    requires level <= MAX_DEPTH && AlikeEntries(a, b, level, at)
    ensures AlikeEntries(StableSort.Sort(a, HeadLe), StableSort.Sort(b, HeadLe), level, at)
  {
    hide AlikeEntry;
    if a != [] {
      AlikeSort(a[1..], b[1..], level, at);
      AlikeInsert(a[0], b[0], StableSort.Sort(a[1..], HeadLe), StableSort.Sort(b[1..], HeadLe), level, at);
    }
  }

  lemma AlikeOrder(a: seq<Entry>, b: seq<Entry>, declared: seq<string>, level: nat, at: At)
    requires level <= MAX_DEPTH && AlikeEntries(a, b, level, at)
    ensures AlikeEntries(TakingOrder(a, declared), TakingOrder(b, declared), level, at)
  {
    hide AlikeEntry;
    AlikeDeclared(a, b, declared, level, at);
    AlikeSort(Declared(a, declared), Declared(b, declared), level, at);
    AlikeRest(a, b, declared, level, at);
  }

  // ---- Alike values are sanitised alike ---------------------------------------------

  lemma {:induction false} AlikeValues(v: Json, w: Json, level: nat, at: At, budget: nat)
    requires Alike(v, w, level, at)
    ensures SanitizedValue(v, level, at, budget) == SanitizedValue(w, level, at, budget)
    decreases LevelsLeft(level), 2, 0
  {
    hide Scalar, Truncate, SanitizedObject;
    if v.Array? && w.Array? && at.IsStruct() {
      assert Redact(v) == Redact(w);
    } else if level <= MAX_DEPTH && v.Object? && w.Object? {
      AlikeObjects(v.entries, w.entries, level, [], at, budget);
    } else if level <= MAX_DEPTH && v.Array? && w.Array? {
      if budget >= 3 {
        AlikeItems(v.items, w.items, 0, level, at.Down(None), [], budget - 3);
      }
    }
  }

  lemma {:induction false} AlikeItems(a: seq<Json>, b: seq<Json>, i: nat, level: nat, at: At, kept: seq<Json>, budget: nat)
    requires level <= MAX_DEPTH && i <= |a| == |b|
    requires forall k :: 0 <= k < |a| && k < MAX_ARRAY_ITEMS ==> Alike(a[k], b[k], level + 1, at)
    ensures ItemsFrom(a, i, level, at, kept, budget) == ItemsFrom(b, i, level, at, kept, budget)
    decreases LevelsLeft(level), 0, |a| - i
  {
    hide SanitizedValue;
    if i < |a| && i < MAX_ARRAY_ITEMS {
      AlikeValues(a[i], b[i], level + 1, at, budget);
      var r := SanitizedValue(a[i], level + 1, at, budget);
      if r.value.Some? {
        AlikeItems(a, b, i + 1, level, at, kept + [r.value.value], r.left);
      }
    }
  }

  lemma {:induction false} AlikeObjects(a: seq<Entry>, b: seq<Entry>, level: nat, declared: seq<string>, at: At, budget: nat)
    requires level <= MAX_DEPTH && AlikeEntries(a, b, level, at)
    ensures SanitizedObject(a, level, declared, at, budget) == SanitizedObject(b, level, declared, at, budget)
    decreases LevelsLeft(level), 1, 0
  {
    hide AlikeEntry, TakingOrder, WithKeysMarker, EntriesFrom;
    AlikeOrder(a, b, declared, level, at);
    if budget >= 3 {
      AlikeTaken(TakingOrder(a, declared), TakingOrder(b, declared), 0, level, at, [], budget - 3);
    }
  }

  lemma {:induction false} AlikeTaken(a: seq<Entry>, b: seq<Entry>, i: nat, level: nat, at: At, kept: seq<Entry>, budget: nat)
    requires level <= MAX_DEPTH && i <= |a| && AlikeEntries(a, b, level, at)
    ensures EntriesFrom(a, i, level, at, kept, budget) == EntriesFrom(b, i, level, at, kept, budget)
    decreases LevelsLeft(level), 0, |a| - i + 2
  {
    hide Take, AlikeEntry;
    if i < |a| && |kept| != MAX_OBJECT_KEYS {
      assert AlikeEntry(a[i], b[i], level, at);
      AlikeTake(a[i], b[i], level, at, kept, budget);
      match Take(a[i], level, at, kept, budget)
      case Skip => AlikeTaken(a, b, i + 1, level, at, kept, budget);
      case Stop =>
      case Keep(name, v, left) => AlikeTaken(a, b, i + 1, level, at, Put(kept, name, v), left);
    }
  }

  lemma AlikeTake(e: Entry, f: Entry, level: nat, at: At, kept: seq<Entry>, budget: nat)
    requires level <= MAX_DEPTH && AlikeEntry(e, f, level, at)
    ensures Take(e, level, at, kept, budget) == Take(f, level, at, kept, budget)
    decreases LevelsLeft(level), 0, 1
  {
    hide Truncate, IsKeysMarker, IsRedacted, Redact, SanitizedValue, Alike, Scalar, HasKey;
    var keyCharge := JsonStringLen(Truncate(e.key)) + 1;
    if !IsRedacted(e.key) && budget >= keyCharge {
      AlikeValues(e.value, f.value, level + 1, at.Down(Some(e.key)), budget - keyCharge);
    }
  }

  /** Arguments that agree on everything an entry may show. */
  predicate AlikeArguments(a: Json, b: Json, structs: seq<string>) {
    if a.Object? && b.Object? then AlikeEntries(a.entries, b.entries, 1, At(structs, Some("")))
    else !a.Object? && !b.Object? && a.Null? == b.Null? && Redact(a) == Redact(b)
  }

  /** Noninterference: the log entry of alike arguments is the same. */
  lemma {:induction false} RedactedValuesDoNotShow(a: Json, b: Json, declared: seq<string>, structs: seq<string>)
    requires AlikeArguments(a, b, structs)
    ensures SanitizedArguments(a, declared, structs) == SanitizedArguments(b, declared, structs)
  {
    hide Redact, AlikeEntries, SanitizedObject;
    if a.Object? {
      AlikeObjects(a.entries, b.entries, 1, declared, At(structs, Some("")), MAX_ARGUMENT_BYTES);
    }
  }

  // ---- Replacing a hidden value -------------------------------------------------------

  /** The tree with the value at `path`, a sequence of child positions, replaced. */
  function Replaced(v: Json, path: seq<nat>, secret: Json): Json
    decreases |path|
  {
    if path == [] then secret
    else if v.Array? && path[0] < |v.items| then
      Array(v.items[path[0] := Replaced(v.items[path[0]], path[1..], secret)])
    else if v.Object? && path[0] < |v.entries| then
      var e := v.entries[path[0]];
      Object(v.entries[path[0] := Entry(e.key, Replaced(e.value, path[1..], secret))])
    else v
  }

  /**
   The replacement must not show: it lies under a redacted key and leaves that key's
   size stand-in alone, or replaces an array by one of the same length at a place whose
   whole rule path is a declared struct path the sanitiser does not lose, which only an
   empty key at the top can do. `steps` lead to `v`.
   */
  predicate IsHidden(v: Json, path: seq<nat>, secret: Json, structs: seq<string>, steps: Steps)
    decreases |path|
  {
    if path == [] then
      v.Array? && secret.Array? && |v.items| == |secret.items| && RulePath(steps) in structs && IsTracked(structs, steps)
    else if v.Array? && path[0] < |v.items| then
      IsHidden(v.items[path[0]], path[1..], secret, structs, steps + [None])
    else if v.Object? && path[0] < |v.entries| then
      var e := v.entries[path[0]];
      if IsRedacted(e.key) then Redact(e.value) == Redact(Replaced(e.value, path[1..], secret))
      else IsHidden(e.value, path[1..], secret, structs, steps + [Some(e.key)])
    else true
  }

  predicate IsTracked(structs: seq<string>, steps: Steps) {
    steps == [] || steps[0] != Some("") || RootContinues(structs)
  }

  lemma ReachChild(structs: seq<string>, steps: Steps, key: Option<string>)
    ensures Reach(structs, steps + [key]) == Reach(structs, steps).Down(key)
  {
    assert (steps + [key])[..|steps|] == steps;
  }

  lemma {:induction false} HiddenIsAlike(v: Json, path: seq<nat>, secret: Json, level: nat, structs: seq<string>, steps: Steps)
    requires IsHidden(v, path, secret, structs, steps)
    ensures Alike(v, Replaced(v, path, secret), level, Reach(structs, steps))
    decreases |path|
  {
    hide IsRedacted, Redact, Truncate, Reach, RulePath, IsTracked, AlikeEntries;
    var at := Reach(structs, steps);
    if path == [] {
      HiddenStruct(v, secret, structs, steps);
    } else if v.Array? && path[0] < |v.items| {
      ReachChild(structs, steps, None);
      HiddenIsAlike(v.items[path[0]], path[1..], secret, level + 1, structs, steps + [None]);
      OneItemAlike(v.items, path[0], Replaced(v.items[path[0]], path[1..], secret), level, at);
    } else if v.Object? && path[0] < |v.entries| {
      var e := v.entries[path[0]];
      var e' := Entry(e.key, Replaced(e.value, path[1..], secret));
      if !IsRedacted(e.key) {
        ReachChild(structs, steps, Some(e.key));
        HiddenIsAlike(e.value, path[1..], secret, level + 1, structs, steps + [Some(e.key)]);
      }
      if level <= MAX_DEPTH {
        OneEntryAlike(v.entries, path[0], e', level, at);
      }
    } else {
      AlikeIsReflexive(v, level, at);
    }
  }

  lemma HiddenStruct(v: Json, secret: Json, structs: seq<string>, steps: Steps)
    requires IsTracked(structs, steps) && RulePath(steps) in structs
    ensures Reach(structs, steps).IsStruct()
  {
    if RootContinues(structs) {
      ExactWhenRootContinues(structs, steps);
    } else {
      ExactBelowANamedKey(structs, steps);
    }
  }

  lemma OneItemAlike(items: seq<Json>, i: nat, item: Json, level: nat, at: At)
    requires i < |items| && Alike(items[i], item, level + 1, at.Down(None))
    ensures Alike(Array(items), Array(items[i := item]), level, at)
  {
    hide IsRedacted, Redact, Truncate;
    forall k | 0 <= k < |items|
      ensures Alike(items[k], items[i := item][k], level + 1, at.Down(None))
    {
      if k != i {
        AlikeIsReflexive(items[k], level + 1, at.Down(None));
      }
    }
  }

  lemma OneEntryAlike(entries: seq<Entry>, i: nat, e: Entry, level: nat, at: At)
    requires i < |entries| && level <= MAX_DEPTH && AlikeEntry(entries[i], e, level, at)
    ensures AlikeEntries(entries, entries[i := e], level, at)
  {
    hide IsRedacted, Redact;
    forall k | 0 <= k < |entries|
      ensures AlikeEntry(entries[k], entries[i := e][k], level, at)
    {
      if k != i {
        AlikeIsReflexive(entries[k].value, level + 1, at.Down(Some(entries[k].key)));
      }
    }
  }

  /**
   Whatever stands at a hidden place, at any depth, the log entry is the same: values
   under a redacted key show their size only, and so do structs given by position.
   */
  lemma HiddenValuesDoNotShow(entries: seq<Entry>, path: seq<nat>, secret: Json, declared: seq<string>, structs: seq<string>)
    requires IsHidden(Object(entries), path, secret, structs, [])
    ensures SanitizedArguments(Replaced(Object(entries), path, secret), declared, structs)
         == SanitizedArguments(Object(entries), declared, structs)
  {
    hide IsHidden, Alike, SanitizedArguments, AlikeEntries;
    var args := Object(entries);
    HiddenIsAlike(args, path, secret, 1, structs, []);
    HiddenIsInside(entries, path, secret, structs);
    assert Reach(structs, []) == At(structs, Some(""));
    AlikeAtTop(args, Replaced(args, path, secret), structs);
    RedactedValuesDoNotShow(args, Replaced(args, path, secret), declared, structs);
  }

  lemma HiddenIsInside(entries: seq<Entry>, path: seq<nat>, secret: Json, structs: seq<string>)
    requires IsHidden(Object(entries), path, secret, structs, [])
    ensures path != []
  {
  }

  lemma AlikeAtTop(a: Json, b: Json, structs: seq<string>)
    requires a.Object? && b.Object? && Alike(a, b, 1, At(structs, Some("")))
    ensures AlikeArguments(a, b, structs)
  {
  }

  lemma {:induction false} AlikeIsReflexive(v: Json, level: nat, at: At)
    ensures Alike(v, v, level, at)
    decreases LevelsLeft(level), 1
  {
    hide IsRedacted, Redact, Truncate;
    if v.Object? && level <= MAX_DEPTH {
      forall i | 0 <= i < |v.entries|
        ensures AlikeEntry(v.entries[i], v.entries[i], level, at)
      {
        AlikeIsReflexive(v.entries[i].value, level + 1, at.Down(Some(v.entries[i].key)));
      }
    } else if v.Array? && level <= MAX_DEPTH {
      forall i | 0 <= i < |v.items|
        ensures Alike(v.items[i], v.items[i], level + 1, at.Down(None))
      {
        AlikeIsReflexive(v.items[i], level + 1, at.Down(None));
      }
    }
  }
}
