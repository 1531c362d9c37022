/**
 Declared parameters come first: the key cap and the byte budget fall on the other
 keys before them, and a declared `query` or `pattern` string is kept unless the
 other one, given as an object or array, has used the budget up.
 */
module DeclaredFirst {
  import opened Wrappers
  import opened Json
  import opened StructPaths
  import opened Sanitizer
  import opened SanitizerBound
  import opened KeptKeys
  import opened Costs
  import StableSort

  // ---- The order of the declared keys ------------------------------------------------

  lemma {:induction false} LexLeIsTotal(s: string, t: string)
    ensures LexLe(s, t) || LexLe(t, s)
  {
    if s != [] && t != [] && s[0] == t[0] {
      LexLeIsTotal(s[1..], t[1..]);
    }
  }

  lemma {:induction false} LexLeIsTransitive(s: string, t: string, u: string)
    requires LexLe(s, t) && LexLe(t, u)
    ensures LexLe(s, u)
  {
    if s != [] && t != [] && u != [] && s[0] == t[0] == u[0] {
      LexLeIsTransitive(s[1..], t[1..], u[1..]);
    }
  }

  /** Byte order: the first byte that differs decides, and a prefix comes before what continues it. */
  lemma {:induction false} LexLeIs(s: string, t: string)
    ensures LexLe(s, t) <==> s <= t || exists i :: 0 <= i < |s| && i < |t| && s[..i] == t[..i] && s[i] < t[i]
  {
    forall i | 0 < i <= |s| && i <= |t| && s[..i] == t[..i] ensures s[0] == t[0] {
      assert s[..i][0] == s[0] && t[..i][0] == t[0];
    }
    if s != [] && t != [] {
      if s[0] == t[0] {
        LexLeIs(s[1..], t[1..]);
        if i :| 0 <= i < |s[1..]| && i < |t[1..]| && s[1..][..i] == t[1..][..i] && s[1..][i] < t[1..][i] {
          assert s[..i + 1] == [s[0]] + s[1..][..i] && t[..i + 1] == [t[0]] + t[1..][..i];
          assert s[i + 1] < t[i + 1];
        }
        if i :| 0 <= i < |s| && i < |t| && s[..i] == t[..i] && s[i] < t[i] {
          assert s[1..][..i - 1] == s[..i][1..] && t[1..][..i - 1] == t[..i][1..];
          assert s[1..][i - 1] < t[1..][i - 1];
        }
      } else if s[0] < t[0] {
        assert s[..0] == t[..0];
      }
    }
  }

  /** The other keys follow in the order of the map. */
  lemma {:induction false} OthersKeepTheirOrder(a: seq<Entry>, b: seq<Entry>, declared: seq<string>)
    ensures Rest(a + b, declared) == Rest(a, declared) + Rest(b, declared)
  {
    if a == [] {
      assert a + b == b;
    } else {
      var head := if a[0].key in declared then [] else [a[0]];
      assert (a + b)[1..] == a[1..] + b;
      OthersKeepTheirOrder(a[1..], b, declared);
      assert head + (Rest(a[1..], declared) + Rest(b, declared)) == head + Rest(a[1..], declared) + Rest(b, declared);
    }
  }

  lemma {:induction false} OneOther(e: Entry, declared: seq<string>)
    ensures Rest([e], declared) == if e.key in declared then [] else [e]
  {
    assert [e][1..] == [];
  }

  lemma HeadLeIsAPreorder()
    ensures StableSort.TotalPreorder(HeadLe)
  {
    hide KeyRank, LexLe;
    forall x, y ensures HeadLe(x, y) || HeadLe(y, x) {
      LexLeIsTotal(x.key, y.key);
    }
    forall x, y, z | HeadLe(x, y) && HeadLe(y, z) ensures HeadLe(x, z) {
      if LexLe(x.key, y.key) && LexLe(y.key, z.key) {
        LexLeIsTransitive(x.key, y.key, z.key);
      }
    }
  }

  /** The declared keys present, and only they, stand at the head of the order, by rank and then by name. */
  lemma HeadHoldsTheDeclared(entries: seq<Entry>, declared: seq<string>)
    ensures forall i, j :: 0 <= i < j < |Head(entries, declared)| ==>
                             HeadLe(Head(entries, declared)[i], Head(entries, declared)[j])
    ensures forall e :: e in Head(entries, declared) <==>
                          e.key in declared && HasKey(entries, e.key) && e == Lookup(entries, e.key).value
  {
    hide HeadLe, HasKey;
    var given, head := Declared(entries, declared), Head(entries, declared);
    HeadLeIsAPreorder();
    StableSort.SortIsSorted(given, HeadLe);
    DeclaredHolds(entries, declared);
    forall e ensures e in head <==> e in given {
      assert e in multiset(head) <==> e in head;
      assert e in multiset(given) <==> e in given;
    }
  }

  lemma {:induction false} DeclaredHolds(entries: seq<Entry>, declared: seq<string>)
    ensures forall e :: e in Declared(entries, declared) <==>
                          e.key in declared && HasKey(entries, e.key) && e == Lookup(entries, e.key).value
  {
    if declared != [] {
      DeclaredHolds(entries, declared[1..]);
      LookupFinds(entries, declared[0]);
    }
  }

  /** An object or array that is not redacted, under an ordinary name. */
  predicate IsBulky(e: Entry) {
    (e.value.Object? || e.value.Array?) && !IsRedacted(e.key) && e.key != "query" && e.key != "pattern"
  }

  /** Declared objects and arrays come after every declared single value; names decide among those of one kind. */
  lemma BulkyKeysComeLast(entries: seq<Entry>, declared: seq<string>, i: nat, j: nat)
    requires i < j < |Head(entries, declared)|
    ensures var e, f := Head(entries, declared)[i], Head(entries, declared)[j];
      && (IsBulky(e) ==> IsBulky(f))
      && (IsBulky(e) && IsBulky(f) ==> LexLe(e.key, f.key))
      && (f.key == "query" ==> e.key == "query" || e.key == "pattern")
  {
    hide Head, IsRedacted, LexLe;
    HeadHoldsTheDeclared(entries, declared);
    var e, f := Head(entries, declared)[i], Head(entries, declared)[j];
    assert HeadLe(e, f);
    RankZero(e);
    RankZero(f);
  }

  /** Once a key from outside the head is in, every declared key present is in under its cut name, or its name looks like the marker. */
  lemma {:induction false} HeadComesFirst(entries: seq<Entry>, declared: seq<string>, n: nat, level: nat, at: At,
                               kept: seq<Entry>, k: nat, name: string)
    requires level <= MAX_DEPTH && n <= |TakingOrder(entries, declared)|
    requires KeepsAdmitted(TakingOrder(entries, declared), n, level, at, kept)
    requires k < |kept| && Admitted(TakingOrder(entries, declared), n)[k] >= |Head(entries, declared)|
    requires name in declared && HasKey(entries, name)
    ensures HasKey(kept, Truncate(name)) || IsKeysMarker(Truncate(name))
  {
    hide Truncate, IsKeysMarker, IsImage, Head, HasName;
    var order, head := TakingOrder(entries, declared), Head(entries, declared);
    LookupFinds(entries, name);
    HeadHoldsTheDeclared(entries, declared);
    var i :| 0 <= i < |head| && head[i] == Lookup(entries, name).value;
    assert order[i] == head[i];
    NothingElseIsDropped(order, n, i);
    KeptNames(order, n, level, at, kept, Truncate(name));
  }

  // ---- `pattern` and `query` -----------------------------------------------------------

  /** The budget the keys of a top-level object start from. */
  const TOP_BUDGET: nat := MAX_ARGUMENT_BYTES - 3

  function Root(structs: seq<string>): At {
    At(structs, Some(""))
  }

  predicate Gives(entries: seq<Entry>, declared: seq<string>, key: string) {
    key in declared && HasKey(entries, key)
  }

  lemma ShortKeys()
    ensures Truncate("pattern") == "pattern" && !IsKeysMarker("pattern") && !IsRedacted("pattern")
    ensures Truncate("query") == "query" && !IsKeysMarker("query") && !IsRedacted("query")
    ensures JsonStringLen("pattern") == 9 && JsonStringLen("query") == 7
  {
    PlainLen("pattern");
    PlainLen("query");
  }

  lemma RankZero(e: Entry)
    ensures KeyRank(e) == 0 <==> e.key == "query" || e.key == "pattern"
  {
  }

  lemma QueryAfterPattern()
    ensures !LexLe("query", "pattern")
  {
    assert "query"[0] == 'q' && "pattern"[0] == 'p';
  }

  /** A declared `pattern` comes before everything. */
  lemma PatternIsFirst(entries: seq<Entry>, declared: seq<string>)
    requires Gives(entries, declared, "pattern")
    ensures Head(entries, declared) != []
    ensures Head(entries, declared)[0] == Lookup(entries, "pattern").value
  {
    hide Head, KeyRank, LexLe;
    var head := Head(entries, declared);
    HeadHoldsTheDeclared(entries, declared);
    LookupFinds(entries, "pattern");
    var i :| 0 <= i < |head| && head[i] == Lookup(entries, "pattern").value;
    RankZero(head[0]);
    RankZero(head[i]);
    QueryAfterPattern();
  }

  /** Only `pattern` comes before a declared `query`. */
  lemma QueryIsNext(entries: seq<Entry>, declared: seq<string>) returns (k: nat)
    requires Gives(entries, declared, "query")
    ensures k < |Head(entries, declared)| && Head(entries, declared)[k] == Lookup(entries, "query").value
    ensures forall j :: 0 <= j < k ==> Head(entries, declared)[j].key == "pattern"
    ensures k > 0 <==> Gives(entries, declared, "pattern")
  {
    hide Head, KeyRank, LexLe;
    var head := Head(entries, declared);
    HeadHoldsTheDeclared(entries, declared);
    LookupFinds(entries, "query");
    var i :| 0 <= i < |head| && head[i] == Lookup(entries, "query").value;
    k := FirstWithKey(head, i);
    forall j | 0 <= j < k ensures head[j].key == "pattern" {
      RankZero(head[j]);
      RankZero(head[k]);
    }
    LookupFinds(entries, "pattern");
    if Gives(entries, declared, "pattern") {
      PatternIsFirst(entries, declared);
    }
    assert head[0] in head;
  }

  lemma {:induction false} FirstWithKey(es: seq<Entry>, i: nat) returns (k: nat)
    requires i < |es|
    ensures k <= i && es[k].key == es[i].key && forall j :: 0 <= j < k ==> es[j].key != es[i].key
  {
    k := i;
    if j :| 0 <= j < i && es[j].key == es[i].key {
      k := FirstWithKey(es, j);
    }
  }

  /** Keys already kept are passed over without a charge. */
  lemma {:induction false} PassOver(order: seq<Entry>, i: nat, k: nat, kept: seq<Entry>, left: nat, at: At)
    requires i <= k <= |order| && |kept| != MAX_OBJECT_KEYS
    requires forall j :: i <= j < k ==> HasKey(kept, NameAt(order, j))
    ensures EntriesFrom(order, i, 1, at, kept, left) == EntriesFrom(order, k, 1, at, kept, left)
    decreases k - i
  {
    hide HasKey, IsKeysMarker, EntryValue, JsonStringLen, Truncate;
    if i < k {
      assert HasKey(kept, NameAt(order, i));
      assert Take(order[i], 1, at, kept, left) == Skip;
      PassOver(order, i + 1, k, kept, left, at);
    }
  }

  /** What is kept stays kept. */
  lemma {:induction false} KeptStays(order: seq<Entry>, i: nat, kept: seq<Entry>, left: nat, at: At, key: string)
    requires i <= |order| && HasKey(kept, key)
    ensures var r := EntriesFrom(order, i, 1, at, kept, left);
      HasKey(r.kept, key) && Lookup(r.kept, key) == Lookup(kept, key)
    decreases |order| - i
  {
    hide IsKeysMarker, EntryValue, JsonStringLen, Truncate;
    if i < |order| && |kept| != MAX_OBJECT_KEYS {
      var t := Take(order[i], 1, at, kept, left);
      if t.Skip? {
        KeptStays(order, i + 1, kept, left, at, key);
      } else if t.Keep? {
        PutKeeps(kept, t.name, t.value, key);
        KeptStays(order, i + 1, Put(kept, t.name, t.value), t.left, at, key);
      }
    }
  }

  lemma {:induction false} PutKeeps(kept: seq<Entry>, name: string, v: Json, key: string)
    requires HasKey(kept, key) && !HasKey(kept, name)
    ensures HasKey(Put(kept, name, v), key) && Lookup(Put(kept, name, v), key) == Lookup(kept, key)
  {
    if kept[0].key != key {
      PutKeeps(kept[1..], name, v, key);
    }
  }

  /** What `pattern` leaves: the entries kept and the budget, or `None` when it did not fit. */
  function AfterPattern(entries: seq<Entry>, declared: seq<string>, structs: seq<string>): Option<Entries> {
    if !Gives(entries, declared, "pattern") then Some(Entries([], TOP_BUDGET))
    else
      match Take(Lookup(entries, "pattern").value, 1, Root(structs), [], TOP_BUDGET)
      case Keep(name, v, left) => Some(Entries([Entry(name, v)], left))
      case _ => None
  }

  function Kept(entries: seq<Entry>, declared: seq<string>, structs: seq<string>): seq<Entry> {
    EntriesFrom(TakingOrder(entries, declared), 0, 1, Root(structs), [], TOP_BUDGET).kept
  }

  lemma TakeQuery(sql: string, kept: seq<Entry>, left: nat, at: At)
    requires !HasKey(kept, "query")
    ensures var charge := JsonStringLen(Truncate(sql)) + 9;
      Take(Entry("query", Str(sql)), 1, at, kept, left)
      == if left < charge then Stop else Keep("query", Str(Truncate(sql)), left - charge)
  {
    hide Truncate, IsKeysMarker, IsRedacted, JsonStringLen, HasKey;
    ShortKeys();
  }

  lemma WalkFromQuery(order: seq<Entry>, k: nat, kept: seq<Entry>, left: nat, at: At, sql: string)
    requires k < |order| && order[k] == Entry("query", Str(sql))
    requires !HasKey(kept, "query") && |kept| != MAX_OBJECT_KEYS
    ensures var r := EntriesFrom(order, k, 1, at, kept, left);
      && (HasKey(r.kept, "query") <==> left >= JsonStringLen(Truncate(sql)) + 9)
      && (HasKey(r.kept, "query") ==> Lookup(r.kept, "query").value.value == Str(Truncate(sql)))
  {
    hide Truncate, Take, JsonStringLen;
    TakeQuery(sql, kept, left, at);
    var t := Take(order[k], 1, at, kept, left);
    if t.Keep? {
      var kept' := Put(kept, "query", t.value);
      PutAppends(kept, "query", t.value);
      LookupAppended(kept, Entry("query", t.value));
      KeptStays(order, k + 1, kept', t.left, at, "query");
    }
  }

  lemma {:induction false} LookupAppended(kept: seq<Entry>, e: Entry)
    requires !HasKey(kept, e.key)
    ensures Lookup(kept + [e], e.key) == Some(e)
  {
    if kept != [] {
      LookupAppended(kept[1..], e);
      assert (kept + [e])[1..] == kept[1..] + [e];
    }
  }

  lemma WalkKeepsQueryIff(entries: seq<Entry>, declared: seq<string>, structs: seq<string>, sql: string)
    requires Gives(entries, declared, "query") && Lookup(entries, "query").value.value == Str(sql)
    ensures var after := AfterPattern(entries, declared, structs);
      var kept := Kept(entries, declared, structs);
      && (HasKey(kept, "query") <==> after.Some? && after.value.left >= JsonStringLen(Truncate(sql)) + 9)
      && (HasKey(kept, "query") ==> Lookup(kept, "query").value.value == Str(Truncate(sql)))
  {
    hide Truncate, Take, JsonStringLen, Head, IsKeysMarker;
    var order, at := TakingOrder(entries, declared), Root(structs);
    var k := QueryIsNext(entries, declared);
    LookupFinds(entries, "query");
    assert order[k] == Entry("query", Str(sql));
    if k == 0 {
      WalkFromQuery(order, 0, [], TOP_BUDGET, at, sql);
    } else {
      PatternIsFirst(entries, declared);
      LookupFinds(entries, "pattern");
      ShortKeys();
      TakeFirst(order[0], at, TOP_BUDGET);
      var t := Take(order[0], 1, at, [], TOP_BUDGET);
      if t.Keep? {
        var kept := [Entry("pattern", t.value)];
        LookupBefore([], kept[0], "query");
        assert [] + [kept[0]] == kept;
        PassOver(order, 1, k, kept, t.left, at);
        WalkFromQuery(order, k, kept, t.left, at, sql);
      }
    }
  }

  lemma TakeFirst(e: Entry, at: At, left: nat)
    ensures var t := Take(e, 1, at, [], left);
      && (t.Keep? ==> t.name == Truncate(e.key) && Put([], t.name, t.value) == [Entry(t.name, t.value)])
      && (t.Skip? ==> IsKeysMarker(Truncate(e.key)))
  {
    hide Truncate, IsKeysMarker, EntryValue, JsonStringLen;
  }

  lemma {:induction false} LookupBefore(kept: seq<Entry>, e: Entry, key: string)
    requires e.key != key
    ensures Lookup(kept + [e], key) == Lookup(kept, key)
  {
    if kept != [] {
      LookupBefore(kept[1..], e, key);
      assert (kept + [e])[1..] == kept[1..] + [e];
    }
  }

  /** The entry records under a parameter's name what the walk kept under it. */
  lemma RecordedAsKept(entries: seq<Entry>, declared: seq<string>, structs: seq<string>, key: string)
    requires !IsKeysMarker(key)
    ensures SanitizedArguments(Object(entries), declared, structs).Object?
    ensures Lookup(SanitizedArguments(Object(entries), declared, structs).entries, key)
         == Lookup(Kept(entries, declared, structs), key)
  {
    hide TakingOrder, KeepsAdmitted, StopsAt, EntriesFrom, KeysMarker, IsKeysMarker, SanitizedObject;
    var n, kept := ObjectKeepsAPrefix(entries, 1, declared, Root(structs), MAX_ARGUMENT_BYTES);
    if |kept| < |entries| {
      KeysMarkerIsMarker(|entries| - |kept|);
      LookupBefore(kept, Entry(KeysMarker(|entries| - |kept|), Null), key);
    }
  }

  // ---- Declared parameters before others, in what is recorded ----------------------------

  /** The name stands for a declared key that was given. */
  ghost predicate IsDeclaredName(entries: seq<Entry>, declared: seq<string>, name: string) {
    exists key :: key in declared && HasKey(entries, key) && Truncate(key) == name
  }

  /**
   No undeclared key is recorded while a declared one is dropped for the cap or the
   budget: when the recorded arguments have a name of no declared key, the count of
   what is missing apart, they have the cut name of every declared key given, unless
   it looks like that count.
   */
  lemma {:induction false} UndeclaredKeysComeLast(entries: seq<Entry>, declared: seq<string>, structs: seq<string>, name: string, key: string)
    requires SanitizedArguments(Object(entries), declared, structs).Object?
    requires HasKey(SanitizedArguments(Object(entries), declared, structs).entries, name)
    requires !IsDeclaredName(entries, declared, name) && !IsKeysMarker(name)
    requires Gives(entries, declared, key)
    ensures IsKeysMarker(Truncate(key)) || HasKey(SanitizedArguments(Object(entries), declared, structs).entries, Truncate(key))
  {
    hide KeepsAdmitted, StopsAt, IsKeysMarker, Truncate, TakingOrder, EntriesFrom, SanitizedArguments, Kept, IsDeclaredName;
    var at := Root(structs);
    RecordedAsKept(entries, declared, structs, name);
    KeptIsTheWalk(entries, declared, structs);
    var n, kept := ObjectKeepsAPrefix(entries, 1, declared, at, MAX_ARGUMENT_BYTES);
    var k := KeptFromRest(entries, declared, n, at, kept, name);
    HeadComesFirst(entries, declared, n, 1, at, kept, k, key);
    if !IsKeysMarker(Truncate(key)) {
      RecordedAsKept(entries, declared, structs, Truncate(key));
    }
  }

  lemma KeptIsTheWalk(entries: seq<Entry>, declared: seq<string>, structs: seq<string>)
    ensures Kept(entries, declared, structs)
         == EntriesFrom(TakingOrder(entries, declared), 0, 1, Root(structs), [], MAX_ARGUMENT_BYTES - 3).kept
  {
  }

  lemma {:induction false} KeptFromRest(entries: seq<Entry>, declared: seq<string>, n: nat, at: At, kept: seq<Entry>, name: string)
    returns (k: nat)
    requires n <= |TakingOrder(entries, declared)| && KeepsAdmitted(TakingOrder(entries, declared), n, 1, at, kept)
    requires HasKey(kept, name) && !IsDeclaredName(entries, declared, name)
    ensures k < |kept| && Admitted(TakingOrder(entries, declared), n)[k] >= |Head(entries, declared)|
  {
    hide Truncate, IsImage, HasKey, Head, HasName, Admitted;
    var order, head := TakingOrder(entries, declared), Head(entries, declared);
    var p := Admitted(order, n);
    LookupFinds(kept, name);
    k :| 0 <= k < |kept| && kept[k].key == name;
    assert NameAt(order, p[k]) == name;
    forall j | 0 <= j < |head|
      ensures IsDeclaredName(entries, declared, NameAt(order, j))
    {
      HeadHoldsTheDeclared(entries, declared);
      assert order[j] == head[j] && head[j] in head;
    }
  }

  // ---- When `query` is recorded ----------------------------------------------------------

  /** What a declared `pattern` costs, its name included. */
  function PatternCost(entries: seq<Entry>, declared: seq<string>, structs: seq<string>): nat {
    if !Gives(entries, declared, "pattern") then 0 else EntryCost(Lookup(entries, "pattern").value, 1, Root(structs))
  }

  function QueryCost(sql: string): nat {
    JsonStringLen(Truncate(sql)) + 9
  }

  lemma {:induction false} PatternLeaves(entries: seq<Entry>, declared: seq<string>, structs: seq<string>)
    requires PatternCost(entries, declared, structs) <= TOP_BUDGET
    ensures var after := AfterPattern(entries, declared, structs);
      after.Some? && after.value.left == TOP_BUDGET - PatternCost(entries, declared, structs)
  {
    hide EntryCost, Take, IsKeysMarker, Truncate;
    if Gives(entries, declared, "pattern") {
      ShortKeys();
      LookupFinds(entries, "pattern");
      EntryCostIsCharged(Lookup(entries, "pattern").value, 1, Root(structs), [], TOP_BUDGET);
    }
  }

  /**
   A declared `query` string is recorded, cut like any string, if and only if it fits
   beside the cost of `pattern`; when that cost alone is over the budget, if and only if
   it fits in what the part of `pattern` that was recorded has left.
   */
  lemma {:induction false} QueryIsRecordedIff(entries: seq<Entry>, declared: seq<string>, structs: seq<string>, sql: string)
    requires Gives(entries, declared, "query") && Lookup(entries, "query").value.value == Str(sql)
    ensures SanitizedArguments(Object(entries), declared, structs).Object?
    ensures var out := SanitizedArguments(Object(entries), declared, structs).entries;
      var cost := PatternCost(entries, declared, structs);
      var after := AfterPattern(entries, declared, structs);
      && (HasKey(out, "query") ==> Lookup(out, "query").value.value == Str(Truncate(sql)))
      && (cost <= TOP_BUDGET ==> (HasKey(out, "query") <==> cost + QueryCost(sql) <= TOP_BUDGET))
      && (cost > TOP_BUDGET ==> (HasKey(out, "query") <==> after.Some? && after.value.left >= QueryCost(sql)))
  {
    hide Truncate, JsonStringLen, Kept, AfterPattern, PatternCost, SanitizedArguments;
    ShortKeys();
    WalkKeepsQueryIff(entries, declared, structs, sql);
    RecordedAsKept(entries, declared, structs, "query");
    if PatternCost(entries, declared, structs) <= TOP_BUDGET {
      PatternLeaves(entries, declared, structs);
    }
  }

  lemma CutStringsAreSmall(s: string)
    requires |s| < USIZE_LIMIT
    ensures JsonStringLen(Truncate(s)) <= 1500
  {
    hide EscapedLen;
    UsizeDigits(|s|);
    EscapedLenAtMost(Truncate(s));
  }

  lemma TakePattern(regex: string, left: nat, at: At)
    ensures var charge := JsonStringLen(Truncate(regex)) + 11;
      Take(Entry("pattern", Str(regex)), 1, at, [], left)
      == if left < charge then Stop else Keep("pattern", Str(Truncate(regex)), left - charge)
  {
    hide Truncate, IsKeysMarker, IsRedacted, JsonStringLen;
    ShortKeys();
  }

  /** So it is always recorded beside a `pattern` that costs at most 14872 bytes, whatever the query. */
  lemma {:induction false} QueryFitsBesideSmallPattern(entries: seq<Entry>, declared: seq<string>, structs: seq<string>, sql: string)
    requires Gives(entries, declared, "query") && Lookup(entries, "query").value.value == Str(sql) && |sql| < USIZE_LIMIT
    requires PatternCost(entries, declared, structs) <= 14872
    ensures SanitizedArguments(Object(entries), declared, structs).Object?
    ensures Lookup(SanitizedArguments(Object(entries), declared, structs).entries, "query")
         == Some(Entry("query", Str(Truncate(sql))))
  {
    hide Truncate, JsonStringLen, SanitizedArguments, PatternCost, AfterPattern;
    CutStringsAreSmall(sql);
    QueryIsRecordedIff(entries, declared, structs, sql);
    LookupFinds(SanitizedArguments(Object(entries), declared, structs).entries, "query");
  }

  /** In particular when no `pattern` is declared and given, as for every request that has a `query`, or when it is a string too. */
  lemma {:induction false} QueryStringsAreRecorded(entries: seq<Entry>, declared: seq<string>, structs: seq<string>, sql: string)
    requires Gives(entries, declared, "query") && Lookup(entries, "query").value.value == Str(sql)
    requires Gives(entries, declared, "pattern") ==> Lookup(entries, "pattern").value.value.Str?
    requires Addressable(Object(entries))
    ensures SanitizedArguments(Object(entries), declared, structs).Object?
    ensures Lookup(SanitizedArguments(Object(entries), declared, structs).entries, "query")
         == Some(Entry("query", Str(Truncate(sql))))
  {
    hide Truncate, JsonStringLen, SanitizedArguments;
    LookupFinds(entries, "query");
    LookupFinds(entries, "pattern");
    if Gives(entries, declared, "pattern") {
      CutStringsAreSmall(Lookup(entries, "pattern").value.value.s);
      ShortKeys();
    }
    QueryFitsBesideSmallPattern(entries, declared, structs, sql);
  }

  /** A request that declares `query` and no `pattern` always has its `query` string recorded. */
  lemma {:induction false} QueryAloneIsRecorded(entries: seq<Entry>, declared: seq<string>, structs: seq<string>, sql: string)
    requires "pattern" !in declared
    requires Gives(entries, declared, "query") && Lookup(entries, "query").value.value == Str(sql) && |sql| < USIZE_LIMIT
    ensures SanitizedArguments(Object(entries), declared, structs).Object?
    ensures Lookup(SanitizedArguments(Object(entries), declared, structs).entries, "query")
         == Some(Entry("query", Str(Truncate(sql))))
  {
    hide Truncate, JsonStringLen, SanitizedArguments;
    QueryFitsBesideSmallPattern(entries, declared, structs, sql);
  }

  /** A declared `pattern` string is always recorded. */
  lemma PatternStringsAreRecorded(entries: seq<Entry>, declared: seq<string>, structs: seq<string>, regex: string)
    requires Gives(entries, declared, "pattern") && Lookup(entries, "pattern").value.value == Str(regex)
    requires |regex| < USIZE_LIMIT
    ensures SanitizedArguments(Object(entries), declared, structs).Object?
    ensures Lookup(SanitizedArguments(Object(entries), declared, structs).entries, "pattern")
         == Some(Entry("pattern", Str(Truncate(regex))))
  {
    hide Truncate, JsonStringLen, SanitizedArguments, Take, Head, IsKeysMarker;
    var order, at := TakingOrder(entries, declared), Root(structs);
    LookupFinds(entries, "pattern");
    CutStringsAreSmall(regex);
    TakePattern(regex, TOP_BUDGET, at);
    PatternIsFirst(entries, declared);
    ShortKeys();
    var kept := [Entry("pattern", Str(Truncate(regex)))];
    var left := TOP_BUDGET - (JsonStringLen(Truncate(regex)) + 11);
    assert EntriesFrom(order, 0, 1, at, [], TOP_BUDGET) == EntriesFrom(order, 1, 1, at, kept, left);
    KeptStays(order, 1, kept, left, at, "pattern");
    RecordedAsKept(entries, declared, structs, "pattern");
  }

  // ---- Where it fails -----------------------------------------------------------------------

  const CONTROL: char := 1 as char

  /** 200 control characters, 1200 bytes of escapes. */
  const LONG: string := seq(200, _ => CONTROL)

  const HUGE_PATTERN: Json := Array(seq(20, _ => Str(LONG)))

  lemma {:induction false} ControlLen(s: string)
    requires forall i :: 0 <= i < |s| ==> s[i] == CONTROL
    ensures EscapedLen(s) == 6 * |s|
  {
    if s != [] {
      ControlLen(s[..|s| - 1]);
    }
  }

  lemma LongStringCharge(level: nat, at: At, budget: nat)
    ensures SanitizedValue(Str(LONG), level, at, budget)
         == if budget < 1203 then Charged(None, budget) else Charged(Some(Str(LONG)), budget - 1203)
  {
    ControlLen(LONG);
    assert |LONG| == 200;
  }

  /** Elements that cost 1203 bytes each are kept while 1203 bytes are left. */
  lemma {:induction false} HugeItems(i: nat, kept: seq<Json>, left: nat, at: At)
    requires i <= 20 && |kept| == i && left < (20 - i) * 1203
    ensures var r := ItemsFrom(HUGE_PATTERN.items, i, 2, at, kept, left);
      && |r.kept| == i + left / 1203 && r.left == left % 1203
    decreases 20 - i
  {
    hide SanitizedValue;
    LongStringCharge(3, at, left);
    assert HUGE_PATTERN.items[i] == Str(LONG);
    if left >= 1203 {
      HugeItems(i + 1, kept + [Str(LONG)], left - 1203, at);
    }
  }

  /**
   A schema that declared both names would not have its SQL text kept in this call:
   `pattern` as an array of twenty such strings leaves too little for a `query` of
   another.
   */
  lemma QueryCanBeDropped()
    ensures var entries := [Entry("pattern", HUGE_PATTERN), Entry("query", Str(LONG))];
      var r := SanitizedArguments(Object(entries), ["pattern", "query"], []);
      r.Object? && !HasKey(r.entries, "query")
  {
    hide Truncate, JsonStringLen, SanitizedArguments, Take, IsKeysMarker, PatternCost;
    var entries := [Entry("pattern", HUGE_PATTERN), Entry("query", Str(LONG))];
    var declared := ["pattern", "query"];
    assert declared[0] == "pattern" && declared[1] == "query";
    LookupBefore([], entries[0], "query");
    assert [] + [entries[0]] == [entries[0]] && [entries[0]] + [entries[1]] == entries;
    LookupAppended([entries[0]], entries[1]);
    HugePatternLeaves(Root([]));
    LongCut();
    if PatternCost(entries, declared, []) <= TOP_BUDGET {
      PatternLeaves(entries, declared, []);
    }
    QueryIsRecordedIff(entries, declared, [], LONG);
  }

  lemma LongCut()
    ensures Truncate(LONG) == LONG && JsonStringLen(LONG) == 1202
  {
    ControlLen(LONG);
    assert |LONG| == 200;
  }

  lemma HugePatternLeaves(at: At)
    requires at.structs == []
    ensures var t := Take(Entry("pattern", HUGE_PATTERN), 1, at, [], TOP_BUDGET);
      t.Keep? && t.left == 717
  {
    hide Truncate, IsKeysMarker, IsRedacted, ItemsFrom;
    ShortKeys();
    var down := at.Down(Some("pattern"));
    HugeItems(0, [], TOP_BUDGET - 10 - 3, down.Down(None));
    assert Decimal(7) == "7";
    PlainLen(MoreMarker(7));
  }
}
