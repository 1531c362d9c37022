/**
 What the sanitiser keeps of an object or an array: a prefix of the order it takes
 them in, each with its own value, the rest counted.
 */
module KeptKeys {
  import opened Wrappers
  import opened Json
  import opened StructPaths
  import opened Sanitizer
  import opened SanitizerBound

  // ---- The keys of a prefix of the order that get in ------------------------------

  function NameAt(order: seq<Entry>, k: nat): string
    requires k < |order|
  {
    Truncate(order[k].key)
  }

  ghost predicate HasName(order: seq<Entry>, p: seq<nat>, name: string) {
    exists k :: 0 <= k < |p| && p[k] < |order| && NameAt(order, p[k]) == name
  }

  /**
   The positions below `n` whose cut name is new and not spelled like the marker:
   the first key of each name, in order.
   */
  ghost function Admitted(order: seq<Entry>, n: nat): (p: seq<nat>)
    requires n <= |order|
    ensures |p| <= n
    ensures forall k :: 0 <= k < |p| ==> p[k] < n
    ensures forall j, k :: 0 <= j < k < |p| ==> p[j] < p[k]
  {
    if n == 0 then []
    else
      var p := Admitted(order, n - 1);
      var name := NameAt(order, n - 1);
      if IsKeysMarker(name) || HasName(order, p, name) then p else p + [n - 1]
  }

  ghost predicate NamesDiffer(order: seq<Entry>, p: seq<nat>)
    requires forall k :: 0 <= k < |p| ==> p[k] < |order|
  {
    forall j, k :: 0 <= j < k < |p| ==> NameAt(order, p[j]) != NameAt(order, p[k])
  }

  lemma {:induction false} AdmittedNamesDiffer(order: seq<Entry>, n: nat)
    requires n <= |order|
    ensures NamesDiffer(order, Admitted(order, n))
  {
    hide IsKeysMarker, NameAt;
    if n > 0 {
      AdmittedNamesDiffer(order, n - 1);
    }
  }

  /** Every key of the prefix is admitted, shares its cut name with an admitted key, or looks like the marker. */
  lemma {:induction false} NothingElseIsDropped(order: seq<Entry>, n: nat, i: nat)
    requires i < n <= |order|
    ensures IsKeysMarker(NameAt(order, i)) || HasName(order, Admitted(order, n), NameAt(order, i))
  {
    hide IsKeysMarker, NameAt;
    var before, p := Admitted(order, n - 1), Admitted(order, n);
    if i < n - 1 {
      NothingElseIsDropped(order, n - 1, i);
      if HasName(order, before, NameAt(order, i)) {
        var k :| 0 <= k < |before| && before[k] < |order| && NameAt(order, before[k]) == NameAt(order, i);
        assert p[k] == before[k];
      }
    } else if !IsKeysMarker(NameAt(order, i)) && !HasName(order, before, NameAt(order, i)) {
      assert p[|before|] == i;
    }
  }

  // ---- The key loop -------------------------------------------------------------------

  /** `v` is what the sanitiser makes of the value of `e`. */
  ghost predicate IsImage(e: Entry, level: nat, at: At, v: Json)
    requires level <= MAX_DEPTH
  {
    exists budget: nat :: EntryValue(e, level, at, budget).value == Some(v)
  }

  /** `kept` holds the admitted keys below `n`, each under its cut name and with its own value. */
  ghost predicate KeepsAdmitted(order: seq<Entry>, n: nat, level: nat, at: At, kept: seq<Entry>)
    requires n <= |order| && level <= MAX_DEPTH
  {
    var p := Admitted(order, n);
    && |kept| == |p|
    && forall k :: 0 <= k < |p| ==>
                     kept[k].key == NameAt(order, p[k]) && IsImage(order[p[k]], level, at, kept[k].value)
  }

  /** Why a walk that stopped before key `n` stopped: the order or the key cap ended, or the key does not fit. */
  predicate StopsAt(order: seq<Entry>, n: nat, level: nat, at: At, r: Entries)
    requires n <= |order| && level <= MAX_DEPTH
  {
    n == |order| || |r.kept| == MAX_OBJECT_KEYS || Take(order[n], level, at, r.kept, r.left).Stop?
  }

  lemma {:induction false} WalkKeepsAPrefix(order: seq<Entry>, i: nat, level: nat, at: At, kept: seq<Entry>, left: nat)
    returns (n: nat)
    requires level <= MAX_DEPTH && i <= |order|
    requires |kept| <= MAX_OBJECT_KEYS && KeepsAdmitted(order, i, level, at, kept)
    ensures i <= n <= |order|
    ensures var r := EntriesFrom(order, i, level, at, kept, left);
      && |r.kept| <= MAX_OBJECT_KEYS
      && KeepsAdmitted(order, n, level, at, r.kept)
      && StopsAt(order, n, level, at, r)
    decreases |order| - i
  {
    hide KeepsAdmitted, Take;
    var r := EntriesFrom(order, i, level, at, kept, left);
    n := i;
    if i < |order| && |kept| != MAX_OBJECT_KEYS {
      var t := Take(order[i], level, at, kept, left);
      if t.Skip? {
        SkipKeepsAdmitted(order, i, level, at, kept, left);
        n := WalkKeepsAPrefix(order, i + 1, level, at, kept, left);
      } else if t.Keep? {
        KeepKeepsAdmitted(order, i, level, at, kept, left);
        n := WalkKeepsAPrefix(order, i + 1, level, at, Put(kept, t.name, t.value), t.left);
      }
    }
  }

  lemma NothingKeptYet(order: seq<Entry>, level: nat, at: At)
    requires level <= MAX_DEPTH
    ensures KeepsAdmitted(order, 0, level, at, [])
  {
  }

  lemma KeptNames(order: seq<Entry>, n: nat, level: nat, at: At, kept: seq<Entry>, name: string)
    requires n <= |order| && level <= MAX_DEPTH && KeepsAdmitted(order, n, level, at, kept)
    ensures HasKey(kept, name) <==> HasName(order, Admitted(order, n), name)
  {
    hide HasKey, NameAt, IsImage;
    LookupFinds(kept, name);
    var p := Admitted(order, n);
    if HasKey(kept, name) {
      var k :| 0 <= k < |kept| && kept[k].key == name;
      assert NameAt(order, p[k]) == name;
    }
    if HasName(order, p, name) {
      var k :| 0 <= k < |p| && p[k] < |order| && NameAt(order, p[k]) == name;
      assert kept[k].key == name;
    }
  }

  lemma SkipKeepsAdmitted(order: seq<Entry>, i: nat, level: nat, at: At, kept: seq<Entry>, left: nat)
    requires level <= MAX_DEPTH && i < |order| && KeepsAdmitted(order, i, level, at, kept)
    requires Take(order[i], level, at, kept, left).Skip?
    ensures KeepsAdmitted(order, i + 1, level, at, kept)
  {
    hide IsKeysMarker, Truncate, HasKey, EntryValue, IsImage, JsonStringLen, HasName;
    KeptNames(order, i, level, at, kept, NameAt(order, i));
    assert Admitted(order, i + 1) == Admitted(order, i);
  }

  lemma KeepKeepsAdmitted(order: seq<Entry>, i: nat, level: nat, at: At, kept: seq<Entry>, left: nat)
    requires level <= MAX_DEPTH && i < |order| && KeepsAdmitted(order, i, level, at, kept)
    requires Take(order[i], level, at, kept, left).Keep?
    ensures var t := Take(order[i], level, at, kept, left);
      && KeepsAdmitted(order, i + 1, level, at, Put(kept, t.name, t.value))
      && |Put(kept, t.name, t.value)| == |kept| + 1
  {
    hide IsKeysMarker, Truncate, HasKey, EntryValue, JsonStringLen, HasName;
    var t := Take(order[i], level, at, kept, left);
    KeptNames(order, i, level, at, kept, t.name);
    PutAppends(kept, t.name, t.value);
    assert Admitted(order, i + 1) == Admitted(order, i) + [i];
    assert IsImage(order[i], level, at, t.value);
  }

  // ---- Counts ---------------------------------------------------------------------------

  ghost function Keys(entries: seq<Entry>): set<string> {
    set e | e in entries :: e.key
  }

  lemma {:induction false} KeysAtMost(entries: seq<Entry>)
    ensures |Keys(entries)| <= |entries|
  {
    if entries != [] {
      KeysAtMost(entries[1..]);
      assert entries == [entries[0]] + entries[1..];
      assert Keys(entries) == {entries[0].key} + Keys(entries[1..]);
    }
  }

  /** The source keys of the admitted positions. */
  ghost function SourceKeys(order: seq<Entry>, p: seq<nat>): set<string>
    requires forall k :: 0 <= k < |p| ==> p[k] < |order|
  {
    set k | 0 <= k < |p| :: order[p[k]].key
  }

  lemma {:induction false} SourceKeysAreDistinct(order: seq<Entry>, p: seq<nat>)
    requires forall k :: 0 <= k < |p| ==> p[k] < |order|
    requires NamesDiffer(order, p)
    ensures |SourceKeys(order, p)| == |p|
  {
    hide Truncate;
    if p != [] {
      var front, last := p[..|p| - 1], order[p[|p| - 1]].key;
      SourceKeysAreDistinct(order, front);
      assert SourceKeys(order, p) == SourceKeys(order, front) + {last};
      assert last !in SourceKeys(order, front);
    }
  }

  lemma KeptFitsTheMap(entries: seq<Entry>, declared: seq<string>, n: nat, level: nat, at: At, kept: seq<Entry>)
    requires level <= MAX_DEPTH && n <= |TakingOrder(entries, declared)|
    requires KeepsAdmitted(TakingOrder(entries, declared), n, level, at, kept)
    ensures |kept| <= |entries|
  {
    hide TakingOrder, NameAt, IsImage;
    var order := TakingOrder(entries, declared);
    var p := Admitted(order, n);
    AdmittedNamesDiffer(order, n);
    SourceKeysAreDistinct(order, p);
    OrderIsFromEntries(entries, declared);
    forall key | key in SourceKeys(order, p)
      ensures key in Keys(entries)
    {
      var k :| 0 <= k < |p| && order[p[k]].key == key;
      assert order[p[k]] in order;
    }
    SubsetSize(SourceKeys(order, p), Keys(entries));
    KeysAtMost(entries);
  }

  lemma {:induction false} SubsetSize<T>(a: set<T>, b: set<T>)
    requires a <= b
    ensures |a| <= |b|
  {
    if a != {} {
      var x :| x in a;
      SubsetSize(a - {x}, b - {x});
    }
  }

  // ---- What comes out ---------------------------------------------------------------------

  /**
   A sanitised object is a prefix of the taking order without the keys that collide
   or look like the marker, each value its own key's; what is missing is exactly
   what the marker counts, and the marker replaces nothing.
   */
  lemma {:induction false} ObjectKeepsAPrefix(entries: seq<Entry>, level: nat, declared: seq<string>, at: At, budget: nat)
    returns (n: nat, kept: seq<Entry>)
    requires level <= MAX_DEPTH && budget >= 3
    ensures var order := TakingOrder(entries, declared);
      && n <= |order|
      && KeepsAdmitted(order, n, level, at, kept)
      && StopsAt(order, n, level, at, EntriesFrom(order, 0, level, at, [], budget - 3))
      && kept == EntriesFrom(order, 0, level, at, [], budget - 3).kept
    ensures |kept| <= |entries| && |kept| <= MAX_OBJECT_KEYS
    ensures SanitizedObject(entries, level, declared, at, budget).value == Some(Object(
      if |kept| == |entries| then kept else kept + [Entry(KeysMarker(|entries| - |kept|), Null)]))
  {
    hide TakingOrder, KeysMarker, IsKeysMarker, EntriesFrom, StopsAt, HasKey, KeepsAdmitted;
    NothingKeptYet(TakingOrder(entries, declared), level, at);
    var order := TakingOrder(entries, declared);
    var r := EntriesFrom(order, 0, level, at, [], budget - 3);
    n := WalkKeepsAPrefix(order, 0, level, at, [], budget - 3);
    kept := r.kept;
    KeptFitsTheMap(entries, declared, n, level, at, kept);
    if |kept| < |entries| {
      NoKeptMarker(order, 0, level, at, [], budget - 3);
      MarkerIsNew(kept, |entries| - |kept|);
      PutAppends(kept, KeysMarker(|entries| - |kept|), Null);
    }
  }

  ghost predicate IsItemImage(v: Json, level: nat, at: At, out: Json) {
    exists budget: nat :: SanitizedValue(v, level, at, budget).value == Some(out)
  }

  /** A sanitised array holds the images of a prefix of at most 20 elements, and a count of the rest. */
  lemma ArrayKeepsAPrefix(items: seq<Json>, level: nat, at: At, budget: nat) returns (kept: seq<Json>)
    requires level <= MAX_DEPTH && budget >= 3
    ensures |kept| <= |items| && |kept| <= MAX_ARRAY_ITEMS
    ensures forall k :: 0 <= k < |kept| ==> IsItemImage(items[k], level + 1, at.Down(None), kept[k])
    ensures SanitizedArray(items, level, at, budget).value == Some(Array(
      if |kept| == |items| then kept else kept + [Str(MoreMarker(|items| - |kept|))]))
  {
    hide SanitizedValue, MoreMarker;
    ItemsArePrefix(items, 0, level, at.Down(None), [], budget - 3);
    kept := ItemsFrom(items, 0, level, at.Down(None), [], budget - 3).kept;
  }

  lemma {:induction false} ItemsArePrefix(items: seq<Json>, i: nat, level: nat, at: At, kept: seq<Json>, left: nat)
    requires level <= MAX_DEPTH && i <= |items| && i <= MAX_ARRAY_ITEMS && |kept| == i
    requires forall k :: 0 <= k < |kept| ==> IsItemImage(items[k], level + 1, at, kept[k])
    ensures var r := ItemsFrom(items, i, level, at, kept, left);
      && |r.kept| <= |items| && |r.kept| <= MAX_ARRAY_ITEMS
      && forall k :: 0 <= k < |r.kept| ==> IsItemImage(items[k], level + 1, at, r.kept[k])
    decreases |items| - i
  {
    hide SanitizedValue;
    if i < |items| && i < MAX_ARRAY_ITEMS {
      var r := SanitizedValue(items[i], level + 1, at, left);
      if r.value.Some? {
        assert IsItemImage(items[i], level + 1, at, r.value.value);
        ItemsArePrefix(items, i + 1, level, at, kept + [r.value.value], r.left);
      }
    }
  }
}
