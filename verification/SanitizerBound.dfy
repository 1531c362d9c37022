/**
 The size of a sanitised entry: what the budget pays for, and how far the markers
 can take the text past it.
 */
module SanitizerBound {
  import opened Wrappers
  import opened Json
  import opened StructPaths
  import opened Sanitizer

  /** Bytes of the longest marker with its separator: 20 digits, quotes, `:null`. */
  const MARKER_BYTES: nat := 41

  /** Every size in the tree is one a 64-bit `usize` can count. */
  predicate Addressable(v: Json) {
    match v
    case Str(s) => |s| < USIZE_LIMIT
    case Array(items) => |items| < USIZE_LIMIT && forall i :: 0 <= i < |items| ==> Addressable(items[i])
    case Object(entries) => |entries| < USIZE_LIMIT && forall i :: 0 <= i < |entries| ==> Addressable(entries[i].value)
    case _ => true
  }

  /** How far past its budget a value at `level` may go: one marker for each level open in it. */
  function Overshoot(level: nat): nat {
    LevelsLeft(level) * MARKER_BYTES
  }

  /**
   A result is paid for: its text and a separator fit in what was charged, unless
   the budget ended at 0, where the markers of the open levels may go past it. A
   value that does not fit charges nothing, and nothing fits in an empty budget.
   */
  predicate Paid(r: Charged, level: nat, budget: nat) {
    match r.value
    case None => r.left == budget
    case Some(j) =>
      && r.left < budget
      && |Render(j)| + 1 <= budget - r.left + (if r.left == 0 then Overshoot(level) else 0)
  }

  lemma ScalarIsPaid(v: Json, level: nat, budget: nat)
    ensures Paid(Scalar(v, budget), level, budget)
  {
    if v.Str? {
      JsonStringLenIsExact(v.s);
    }
  }

  lemma MarkersAreShort(n: nat)
    requires n < USIZE_LIMIT
    ensures JsonStringLen(MoreMarker(n)) + 1 <= MARKER_BYTES
    ensures JsonStringLen(KeysMarker(n)) + 6 <= MARKER_BYTES
    ensures |Render(Str(MoreMarker(n)))| == JsonStringLen(MoreMarker(n))
    ensures |RenderString(KeysMarker(n))| == JsonStringLen(KeysMarker(n))
  {
    UsizeDigits(n);
    forall c | c in Decimal(n) ensures ByteLen(c) == 1 {
    }
    assert forall i :: 0 <= i < |Decimal(n)| ==> Decimal(n)[i] in Decimal(n);
    PlainLen(MoreMarker(n));
    PlainLen(KeysMarker(n));
    JsonStringLenIsExact(MoreMarker(n));
    JsonStringLenIsExact(KeysMarker(n));
  }

  lemma ItemsLenAppend(kept: seq<Json>, v: Json)
    ensures ItemsLen(kept + [v]) == ItemsLen(kept) + |Render(v)| + 1
  {
    assert (kept + [v])[..|kept|] == kept;
  }

  lemma EntriesLenAppend(kept: seq<Entry>, e: Entry)
    ensures EntriesLen(kept + [e]) == EntriesLen(kept) + |RenderString(e.key)| + |Render(e.value)| + 2
  {
    assert (kept + [e])[..|kept|] == kept;
  }

  /** What a container has charged so far covers what it holds so far. */
  predicate Covered(bytes: nat, left: nat, budget: nat, level: nat) {
    left < budget && bytes + 3 <= budget - left + (if left == 0 then Overshoot(level + 1) else 0)
  }

  lemma {:induction false} ValueIsPaid(v: Json, level: nat, at: At, budget: nat)
    requires Addressable(v)
    ensures Paid(SanitizedValue(v, level, at, budget), level, budget)
    decreases LevelsLeft(level), 2, 0
  {
    if v.Array? && at.IsStruct() {
      ScalarIsPaid(Redact(v), level, budget);
    } else if v.Object? && level <= MAX_DEPTH {
      ObjectIsPaid(v.entries, level, [], at, budget);
    } else if v.Array? && level <= MAX_DEPTH {
      if budget >= 3 {
        var r := ItemsFrom(v.items, 0, level, at.Down(None), [], budget - 3);
        ItemsAreCovered(v.items, 0, level, at.Down(None), [], budget - 3, budget);
        MoreMarkerIsPaid(r, |v.items|, level, budget);
      }
    } else if v.Object? || v.Array? {
      ScalarIsPaid(Str("[nested]"), level, budget);
    } else if v.Str? {
      ScalarIsPaid(Str(Truncate(v.s)), level, budget);
    } else {
      ScalarIsPaid(v, level, budget);
    }
  }

  lemma {:induction false} ItemsAreCovered(items: seq<Json>, i: nat, level: nat, at: At, kept: seq<Json>, left: nat, budget: nat)
    requires level <= MAX_DEPTH && i <= |items| && |kept| == i
    requires forall k :: 0 <= k < |items| ==> Addressable(items[k])
    requires Covered(ItemsLen(kept), left, budget, level)
    ensures var r := ItemsFrom(items, i, level, at, kept, left);
      Covered(ItemsLen(r.kept), r.left, budget, level)
    decreases LevelsLeft(level), 0, |items| - i
  {
    if i < |items| && i < MAX_ARRAY_ITEMS {
      ValueIsPaid(items[i], level + 1, at, left);
      var r := SanitizedValue(items[i], level + 1, at, left);
      if r.value.Some? {
        ItemsLenAppend(kept, r.value.value);
        ItemsAreCovered(items, i + 1, level, at, kept + [r.value.value], r.left, budget);
        assert ItemsFrom(items, i, level, at, kept, left)
            == ItemsFrom(items, i + 1, level, at, kept + [r.value.value], r.left);
      } else {
        assert ItemsFrom(items, i, level, at, kept, left) == Items(kept, left);
      }
    }
  }

  lemma MoreMarkerIsPaid(r: Items, total: nat, level: nat, budget: nat)
    requires level <= MAX_DEPTH && total < USIZE_LIMIT
    requires Covered(ItemsLen(r.kept), r.left, budget, level)
    ensures Paid(WithMoreMarker(r, total), level, budget)
  {
    ContainerLen(Array(r.kept));
    if |r.kept| < total {
      var n := total - |r.kept|;
      MarkersAreShort(n);
      ItemsLenAppend(r.kept, Str(MoreMarker(n)));
      ContainerLen(Array(r.kept + [Str(MoreMarker(n))]));
    }
  }

  lemma {:induction false} ObjectIsPaid(entries: seq<Entry>, level: nat, declared: seq<string>, at: At, budget: nat)
    requires level <= MAX_DEPTH && |entries| < USIZE_LIMIT
    requires forall k :: 0 <= k < |entries| ==> Addressable(entries[k].value)
    ensures Paid(SanitizedObject(entries, level, declared, at, budget), level, budget)
    decreases LevelsLeft(level), 1, 0
  {
    hide EntriesFrom, TakingOrder, WithKeysMarker, IsKeysMarker;
    if budget >= 3 {
      var order := TakingOrder(entries, declared);
      var r := EntriesFrom(order, 0, level, at, [], budget - 3);
      assert SanitizedObject(entries, level, declared, at, budget) == WithKeysMarker(r, |entries|);
      assert Covered(EntriesLen(r.kept), r.left, budget, level) by {
        OrderIsAddressable(entries, declared);
        EntriesAreCovered(order, 0, level, at, [], budget - 3, budget);
      }
      NoKeptMarker(order, 0, level, at, [], budget - 3);
      KeysMarkerIsPaid(r, |entries|, level, budget);
    }
  }

  lemma {:induction false} EntriesAreCovered(order: seq<Entry>, i: nat, level: nat, at: At, kept: seq<Entry>, left: nat, budget: nat)
    requires level <= MAX_DEPTH && i <= |order|
    requires forall k :: 0 <= k < |order| ==> Addressable(order[k].value)
    requires Covered(EntriesLen(kept), left, budget, level)
    ensures var r := EntriesFrom(order, i, level, at, kept, left);
      Covered(EntriesLen(r.kept), r.left, budget, level)
    decreases LevelsLeft(level), 0, |order| - i + 2
  {
    hide Truncate, IsKeysMarker, EntryValue, JsonStringLen, EntriesLen, Covered;
    var r := EntriesFrom(order, i, level, at, kept, left);
    if i == |order| || |kept| == MAX_OBJECT_KEYS {
      assert r == Entries(kept, left);
    } else {
      var t := Take(order[i], level, at, kept, left);
      if t.Skip? {
        assert r == EntriesFrom(order, i + 1, level, at, kept, left);
        EntriesAreCovered(order, i + 1, level, at, kept, left, budget);
      } else if t.Keep? {
        EntryIsPaid(order[i], level, at, kept, left, budget);
        var kept' := Put(kept, t.name, t.value);
        assert r == EntriesFrom(order, i + 1, level, at, kept', t.left);
        EntriesAreCovered(order, i + 1, level, at, kept', t.left, budget);
      } else {
        assert r == Entries(kept, left);
      }
    }
  }

  lemma KeptIsCovered(kept: seq<Entry>, name: string, v: Json, left: nat, rest: nat, budget: nat, level: nat)
    requires Covered(EntriesLen(kept), left, budget, level) && rest < left
    requires !HasKey(kept, name)
    requires |RenderString(name)| + |Render(v)| + 2 <= left - rest + (if rest == 0 then Overshoot(level + 1) else 0)
    ensures Covered(EntriesLen(Put(kept, name, v)), rest, budget, level)
  {
    PutAppends(kept, name, v);
    EntriesLenAppend(kept, Entry(name, v));
  }

  /** No kept key passes for the marker. */
  lemma {:induction false} NoKeptMarker(order: seq<Entry>, i: nat, level: nat, at: At, kept: seq<Entry>, left: nat)
    requires level <= MAX_DEPTH && i <= |order|
    requires forall e :: e in kept ==> !IsKeysMarker(e.key)
    ensures forall e :: e in EntriesFrom(order, i, level, at, kept, left).kept ==> !IsKeysMarker(e.key)
    decreases |order| - i
  {
    hide Truncate, IsKeysMarker, EntryValue, JsonStringLen;
    if i < |order| && |kept| != MAX_OBJECT_KEYS {
      var taken := Take(order[i], level, at, kept, left);
      match taken
      case Skip =>
        NoKeptMarker(order, i + 1, level, at, kept, left);
      case Stop =>
      case Keep(name, v, rest) =>
        PutAppends(kept, name, v);
        NoKeptMarker(order, i + 1, level, at, Put(kept, name, v), rest);
    }
  }

  lemma EntryIsPaid(e: Entry, level: nat, at: At, kept: seq<Entry>, left: nat, budget: nat)
    requires level <= MAX_DEPTH && Addressable(e.value)
    requires Take(e, level, at, kept, left).Keep?
    requires Covered(EntriesLen(kept), left, budget, level)
    ensures var t := Take(e, level, at, kept, left);
      Covered(EntriesLen(Put(kept, t.name, t.value)), t.left, budget, level)
    decreases LevelsLeft(level), 0, 1
  {
    hide Truncate, IsKeysMarker, IsRedacted, Redact, SanitizedValue;
    var name := Truncate(e.key);
    JsonStringLenIsExact(name);
    var rest := left - (JsonStringLen(name) + 1);
    var r := EntryValue(e, level, at, rest);
    if IsRedacted(e.key) {
      ScalarIsPaid(Redact(e.value), level + 1, rest);
    } else {
      ValueIsPaid(e.value, level + 1, at.Down(Some(e.key)), rest);
    }
    KeptIsCovered(kept, name, r.value.value, left, r.left, budget, level);
  }

  lemma KeysMarkerIsPaid(r: Entries, total: nat, level: nat, budget: nat)
    requires level <= MAX_DEPTH && total < USIZE_LIMIT
    requires Covered(EntriesLen(r.kept), r.left, budget, level)
    requires forall e :: e in r.kept ==> !IsKeysMarker(e.key)
    ensures Paid(WithKeysMarker(r, total), level, budget)
  {
    if |r.kept| < total {
      MarkersAreShort(total - |r.kept|);
      MarkerIsNew(r.kept, total - |r.kept|);
      NullEntryIsPaid(r, KeysMarker(total - |r.kept|), level, budget);
    } else {
      ContainerLen(Object(r.kept));
    }
  }

  lemma NullEntryIsPaid(r: Entries, name: string, level: nat, budget: nat)
    requires level <= MAX_DEPTH && !HasKey(r.kept, name)
    requires Covered(EntriesLen(r.kept), r.left, budget, level)
    requires |RenderString(name)| == JsonStringLen(name) && JsonStringLen(name) + 6 <= MARKER_BYTES
    ensures Paid(Charged(Some(Object(Put(r.kept, name, Null))), SatSub(r.left, JsonStringLen(name) + 6)), level, budget)
  {
    PutAppends(r.kept, name, Null);
    EntriesLenAppend(r.kept, Entry(name, Null));
    ContainerLen(Object(r.kept + [Entry(name, Null)]));
    assert Overshoot(level) == Overshoot(level + 1) + MARKER_BYTES;
  }

  lemma MarkerIsNew(kept: seq<Entry>, n: nat)
    requires forall e :: e in kept ==> !IsKeysMarker(e.key)
    ensures !HasKey(kept, KeysMarker(n))
  {
    KeysMarkerIsMarker(n);
    LookupFinds(kept, KeysMarker(n));
  }

  lemma KeysMarkerIsMarker(n: nat)
    ensures IsKeysMarker(KeysMarker(n))
  {
    var m := KeysMarker(n);
    assert m == "[+" + (Decimal(n) + " more keys]");
    assert m[|m| - 11..] == " more keys]";
  }

  // ---- The taking order holds the object's own entries ----------------------------

  lemma {:induction false} OrderIsFromEntries(entries: seq<Entry>, declared: seq<string>)
    ensures forall e :: e in TakingOrder(entries, declared) ==> e in entries
  {
    DeclaredIsFromEntries(entries, declared);
    RestIsFromEntries(entries, declared);
    var head := Head(entries, declared);
    forall e | e in head ensures e in entries {
      assert e in multiset(head);
      assert e in Declared(entries, declared);
    }
  }

  lemma {:induction false} DeclaredIsFromEntries(entries: seq<Entry>, declared: seq<string>)
    ensures forall e :: e in Declared(entries, declared) ==> e in entries && e.key in declared
  {
    if declared != [] {
      LookupFinds(entries, declared[0]);
      DeclaredIsFromEntries(entries, declared[1..]);
    }
  }

  lemma {:induction false} RestIsFromEntries(entries: seq<Entry>, declared: seq<string>)
    ensures forall e :: e in Rest(entries, declared) ==> e in entries && e.key !in declared
  {
    if entries != [] {
      RestIsFromEntries(entries[1..], declared);
    }
  }

  lemma OrderIsAddressable(entries: seq<Entry>, declared: seq<string>)
    requires forall k :: 0 <= k < |entries| ==> Addressable(entries[k].value)
    ensures var order := TakingOrder(entries, declared);
      forall k :: 0 <= k < |order| ==> Addressable(order[k].value)
  {
    OrderIsFromEntries(entries, declared);
    var order := TakingOrder(entries, declared);
    forall k | 0 <= k < |order|
      ensures Addressable(order[k].value)
    {
      assert order[k] in entries;
    }
  }

  // ---- The bound --------------------------------------------------------------------

  lemma RedactTextIsPlain(v: Json)
    requires Addressable(v)
    ensures Redact(v).Str? && IsPlain(Redact(v).s) && |Redact(v).s| <= 38
  {
    hide Decimal;
    var n := match v case Str(s) => |s| case Array(items) => |items| case _ => 0;
    UsizeDigits(n);
    assert forall i :: 0 <= i < |Decimal(n)| ==> Decimal(n)[i] in Decimal(n);
  }

  lemma RedactedIsShort(v: Json)
    requires Addressable(v)
    ensures |Render(Redact(v))| <= 40
  {
    hide IsPlain, Redact;
    RedactTextIsPlain(v);
    PlainLen(Redact(v).s);
    JsonStringLenIsExact(Redact(v).s);
  }

  /**
   Whatever a call carries, its arguments take at most 16 KiB of the entry and one
   marker for each of the four levels that can be open when the budget runs out; an
   object is recorded as an object.
   */
  lemma SanitizedArgumentsAreBounded(args: Json, declared: seq<string>, structs: seq<string>)
    requires Addressable(args)
    ensures |Render(SanitizedArguments(args, declared, structs))| < MAX_ARGUMENT_BYTES + 4 * MARKER_BYTES
    ensures args.Object? ==> SanitizedArguments(args, declared, structs).Object?
  {
    match args
    case Object(entries) =>
      ObjectIsPaid(entries, 1, declared, At(structs, Some("")), MAX_ARGUMENT_BYTES);
      assert Overshoot(1) == 4 * MARKER_BYTES;
    case Null =>
    case _ =>
      RedactedIsShort(args);
  }
}
