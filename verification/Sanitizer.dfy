/**
 The audit sanitiser: a JSON tree cut down to what one audit entry may hold.

 The functions say what each call returns and what it leaves of the byte budget;
 the methods below them loop and charge the budget in place, as the program does.
 */
module Sanitizer {
  import opened Wrappers
  import opened Json
  import opened StructPaths
  import StableSort
  import Utf8

  const MAX_STRING_BYTES: nat := 200
  const MAX_ARRAY_ITEMS: nat := 20
  const MAX_OBJECT_KEYS: nat := 64
  const MAX_DEPTH: nat := 4
  const MAX_ARGUMENT_BYTES: nat := 16384

  const REDACT_KEYS: seq<string> := [
    "content", "file_content", "csv_content", "csv_data", "data", "rows", "text", "value",
    "values", "old_value", "new_value", "filter_value", "replacement", "base64", "image", "binary"]

  const KEEP_FIRST_KEYS: seq<string> := ["query", "pattern"]

  predicate IsRedacted(key: string) {
    key in REDACT_KEYS
  }

  // ---- Single values ----------------------------------------------------------

  /** The largest character boundary of `s` at or below `max`. */
  function LargestBoundary(s: string, max: nat): (r: nat)
    requires max <= |s|
    ensures r <= max && Utf8.IsCharBoundary(s, r)
    ensures forall j :: r < j <= max ==> !Utf8.IsCharBoundary(s, j)
  {
    if Utf8.IsCharBoundary(s, max) then max else LargestBoundary(s, max - 1)
  }

  method FloorCharBoundary(s: string, max: nat) returns (r: nat)
    ensures r == if max >= |s| then |s| else LargestBoundary(s, max)
  {
    if max >= |s| {
      return |s|;
    }
    r := max;
    while !Utf8.IsCharBoundary(s, r)
      invariant r <= max
      invariant LargestBoundary(s, max) == LargestBoundary(s, r)
      decreases r
    {
      r := r - 1;
    }
  }

  /** `s` cut to at most 200 bytes at a boundary, its length appended when it was cut. */
  function Truncate(s: string): string {
    if |s| <= MAX_STRING_BYTES then s
    else s[..LargestBoundary(s, MAX_STRING_BYTES)] + CutMark(|s|)
  }

  /** What follows a cut string, its whole length in it. */
  function CutMark(len: nat): string {
    "...[truncated " + Decimal(len) + " bytes]"
  }

  /** What is recorded in place of a value under a redacted key: its kind and size. */
  function Redact(v: Json): Json {
    Str(match v
        case Str(s) => "[redacted: " + Decimal(|s|) + " bytes]"
        case Array(items) => "[redacted: " + Decimal(|items|) + " items]"
        case _ => "[redacted]")
  }

  predicate IsKeysMarker(name: string) {
    "[+" <= name && |name| >= 11 && name[|name| - 11..] == " more keys]"
  }

  function MoreMarker(n: nat): string {
    "[+" + Decimal(n) + " more]"
  }

  function KeysMarker(n: nat): string {
    "[+" + Decimal(n) + " more keys]"
  }

  /** A result, and the budget left after it. */
  datatype Charged = Charged(value: Option<Json>, left: nat)

  function ScalarLen(v: Json): nat {
    match v
    case Str(s) => JsonStringLen(s)
    case Number(text) => |text|
    case Bool(b) => if b then 4 else 5
    case Null => 4
    case _ => |Render(v)|
  }

  /** A value is taken whole, with one byte for what separates it from the next, or not at all and for nothing. */
  function Scalar(v: Json, budget: nat): Charged {
    var charge := ScalarLen(v) + 1;
    if budget < charge then Charged(None, budget) else Charged(Some(v), budget - charge)
  }

  // ---- The order an object's keys are taken in ----------------------------------

  function KeyRank(e: Entry): nat {
    if e.key in KEEP_FIRST_KEYS then 0
    else if IsRedacted(e.key) || !(e.value.Object? || e.value.Array?) then 1
    else 2
  }

  /** Byte order of strings. */
  predicate LexLe(s: string, t: string) {
    if s == [] then true
    else if t == [] then false
    else if s[0] != t[0] then s[0] < t[0]
    else LexLe(s[1..], t[1..])
  }

  predicate HeadLe(a: Entry, b: Entry) {
    KeyRank(a) < KeyRank(b) || (KeyRank(a) == KeyRank(b) && LexLe(a.key, b.key))
  }

  /** The declared keys present, in declaration order. */
  function Declared(entries: seq<Entry>, declared: seq<string>): seq<Entry> {
    if declared == [] then []
    else
      var rest := Declared(entries, declared[1..]);
      match Lookup(entries, declared[0])
      case Some(e) => [e] + rest
      case None => rest
  }

  function Head(entries: seq<Entry>, declared: seq<string>): seq<Entry> {
    StableSort.Sort(Declared(entries, declared), HeadLe)
  }

  /** The keys not declared, in map order. */
  function Rest(entries: seq<Entry>, declared: seq<string>): seq<Entry> {
    if entries == [] then []
    else (if entries[0].key in declared then [] else [entries[0]]) + Rest(entries[1..], declared)
  }

  function TakingOrder(entries: seq<Entry>, declared: seq<string>): seq<Entry> {
    Head(entries, declared) + Rest(entries, declared)
  }

  // ---- The walk -----------------------------------------------------------------

  datatype Items = Items(kept: seq<Json>, left: nat)

  datatype Entries = Entries(kept: seq<Entry>, left: nat)

  /** Container levels still open below `level`. */
  function LevelsLeft(level: nat): nat {
    if level <= MAX_DEPTH then MAX_DEPTH + 1 - level else 0
  }

  function SanitizedValue(v: Json, level: nat, at: At, budget: nat): Charged
    decreases LevelsLeft(level), 2, 0
  {
    if v.Array? && at.IsStruct() then Scalar(Redact(v), budget)
    else if v.Object? && level <= MAX_DEPTH then SanitizedObject(v.entries, level, [], at, budget)
    else if v.Array? && level <= MAX_DEPTH then SanitizedArray(v.items, level, at, budget)
    else if v.Object? || v.Array? then Scalar(Str("[nested]"), budget)
    else if v.Str? then Scalar(Str(Truncate(v.s)), budget)
    else Scalar(v, budget)
  }

  function SanitizedArray(items: seq<Json>, level: nat, at: At, budget: nat): Charged
    requires level <= MAX_DEPTH
    decreases LevelsLeft(level), 1, 0
  {
    if budget < 3 then Charged(None, budget)
    else
      WithMoreMarker(ItemsFrom(items, 0, level, at.Down(None), [], budget - 3), |items|)
  }

  /** The array of the elements kept of `total`, the rest counted by a marker. */
  function WithMoreMarker(r: Items, total: nat): Charged {
    if |r.kept| < total then
      var marker := MoreMarker(total - |r.kept|);
      Charged(Some(Array(r.kept + [Str(marker)])), SatSub(r.left, JsonStringLen(marker) + 1))
    else
      Charged(Some(Array(r.kept)), r.left)
  }

  /** The element loop from element `i` on. */
  function ItemsFrom(items: seq<Json>, i: nat, level: nat, at: At, kept: seq<Json>, budget: nat): Items
    requires level <= MAX_DEPTH && i <= |items|
    decreases LevelsLeft(level), 0, |items| - i
  {
    if i == |items| || i >= MAX_ARRAY_ITEMS then Items(kept, budget)
    else
      var r := SanitizedValue(items[i], level + 1, at, budget);
      match r.value
      case None => Items(kept, r.left)
      case Some(v) => ItemsFrom(items, i + 1, level, at, kept + [v], r.left)
  }

  function SanitizedObject(entries: seq<Entry>, level: nat, declared: seq<string>, at: At, budget: nat): Charged
    requires level <= MAX_DEPTH
    decreases LevelsLeft(level), 1, 0
  {
    if budget < 3 then Charged(None, budget)
    else
      WithKeysMarker(EntriesFrom(TakingOrder(entries, declared), 0, level, at, [], budget - 3), |entries|)
  }

  /** The object of the entries kept of `total`, the rest counted by a marker. */
  function WithKeysMarker(r: Entries, total: nat): Charged {
    if total > |r.kept| then
      var marker := KeysMarker(total - |r.kept|);
      Charged(Some(Object(Put(r.kept, marker, Null))), SatSub(r.left, JsonStringLen(marker) + 6))
    else
      Charged(Some(Object(r.kept)), r.left)
  }

  /** What a key's value becomes, the key itself already charged. */
  function EntryValue(e: Entry, level: nat, at: At, budget: nat): Charged
    requires level <= MAX_DEPTH
    decreases LevelsLeft(level), 0, 0
  {
    if IsRedacted(e.key) then Scalar(Redact(e.value), budget)
    else SanitizedValue(e.value, level + 1, at.Down(Some(e.key)), budget)
  }

  /** What the key loop does with its next key. */
  datatype Taken = Skip | Stop | Keep(name: string, value: Json, left: nat)

  /** A key already kept, or spelled like the marker, is left out; nothing is charged unless key and value fit. */
  function Take(e: Entry, level: nat, at: At, kept: seq<Entry>, budget: nat): Taken
    requires level <= MAX_DEPTH
    decreases LevelsLeft(level), 0, 1
  {
    var name := Truncate(e.key);
    var keyCharge := JsonStringLen(name) + 1;
    if HasKey(kept, name) || IsKeysMarker(name) then Skip
    else if budget < keyCharge then Stop
    else
      var r := EntryValue(e, level, at, budget - keyCharge);
      if r.value.None? then Stop else Keep(name, r.value.value, r.left)
  }

  /** The key loop from the `i`th key of the taking order on. */
  function EntriesFrom(order: seq<Entry>, i: nat, level: nat, at: At, kept: seq<Entry>, budget: nat): Entries
    requires level <= MAX_DEPTH && i <= |order|
    decreases LevelsLeft(level), 0, |order| - i + 2
  {
    if i == |order| || |kept| == MAX_OBJECT_KEYS then Entries(kept, budget)
    else
      match Take(order[i], level, at, kept, budget)
      case Skip => EntriesFrom(order, i + 1, level, at, kept, budget)
      case Stop => Entries(kept, budget)
      case Keep(name, v, left) => EntriesFrom(order, i + 1, level, at, Put(kept, name, v), left)
  }

  /** What the audit log records of a call's arguments. */
  function SanitizedArguments(args: Json, declared: seq<string>, structs: seq<string>): Json {
    match args
    case Object(entries) =>
      (match SanitizedObject(entries, 1, declared, At(structs, Some("")), MAX_ARGUMENT_BYTES).value
       case Some(v) => v
       case None => Null)
    case Null => Null
    case _ => Redact(args)
  }

  // ---- The loops ------------------------------------------------------------------

  method SanitizeValue(v: Json, level: nat, at: At, budget: nat) returns (value: Option<Json>, left: nat)
    ensures Charged(value, left) == SanitizedValue(v, level, at, budget)
    decreases LevelsLeft(level), 1
  {
    if v.Array? && at.IsStruct() {
      var r := Scalar(Redact(v), budget);
      return r.value, r.left;
    } else if v.Object? && level <= MAX_DEPTH {
      value, left := SanitizeObject(v.entries, level, [], at, budget);
    } else if v.Array? && level <= MAX_DEPTH {
      value, left := SanitizeArray(v.items, level, at, budget);
    } else if v.Object? || v.Array? {
      var r := Scalar(Str("[nested]"), budget);
      return r.value, r.left;
    } else if v.Str? {
      var r := Scalar(Str(Truncate(v.s)), budget);
      return r.value, r.left;
    } else {
      var r := Scalar(v, budget);
      return r.value, r.left;
    }
  }

  method SanitizeArray(items: seq<Json>, level: nat, at: At, budget: nat) returns (value: Option<Json>, left: nat)
    requires level <= MAX_DEPTH
    ensures Charged(value, left) == SanitizedArray(items, level, at, budget)
    decreases LevelsLeft(level), 0
  {
    hide MoreMarker, JsonStringLen, SanitizedValue;
    if budget < 3 {
      return None, budget;
    }
    left := budget - 3;
    var element := at.Down(None);
    ghost var all := ItemsFrom(items, 0, level, element, [], budget - 3);
    var kept: seq<Json> := [];
    var i := 0;
    while i < |items| && i < MAX_ARRAY_ITEMS
      invariant i <= |items| && i <= MAX_ARRAY_ITEMS
      invariant all == ItemsFrom(items, i, level, element, kept, left)
    {
      var item;
      item, left := SanitizeValue(items[i], level + 1, element, left);
      if item.None? {
        break;
      }
      kept := kept + [item.value];
      i := i + 1;
    }
    assert all == Items(kept, left);
    if |kept| < |items| {
      var marker := MoreMarker(|items| - |kept|);
      left := SatSub(left, JsonStringLen(marker) + 1);
      kept := kept + [Str(marker)];
    }
    value := Some(Array(kept));
  }

  method SanitizeObject(entries: seq<Entry>, level: nat, declared: seq<string>, at: At, budget: nat)
    returns (value: Option<Json>, left: nat)
    requires level <= MAX_DEPTH
    ensures Charged(value, left) == SanitizedObject(entries, level, declared, at, budget)
    decreases LevelsLeft(level), 0, 1
  {
    hide TakingOrder, Take, KeysMarker, HasKey;
    if budget < 3 {
      return None, budget;
    }
    left := budget - 3;
    var order := TakingOrder(entries, declared);
    ghost var all := EntriesFrom(order, 0, level, at, [], budget - 3);
    var kept: seq<Entry> := [];
    var i := 0;
    while i < |order| && |kept| != MAX_OBJECT_KEYS
      invariant i <= |order|
      invariant all == EntriesFrom(order, i, level, at, kept, left)
    {
      var taken := TakeEntry(order[i], level, at, kept, left);
      if taken.Stop? {
        break;
      } else if taken.Keep? {
        left := taken.left;
        kept := Put(kept, taken.name, taken.value);
      }
      i := i + 1;
    }
    assert all == Entries(kept, left);
    if |entries| > |kept| {
      var marker := KeysMarker(|entries| - |kept|);
      left := SatSub(left, JsonStringLen(marker) + 6);
      kept := Put(kept, marker, Null);
    }
    value := Some(Object(kept));
  }

  method TakeEntry(e: Entry, level: nat, at: At, kept: seq<Entry>, budget: nat) returns (taken: Taken)
    requires level <= MAX_DEPTH
    ensures taken == Take(e, level, at, kept, budget)
    decreases LevelsLeft(level), 0, 0
  {
    var name := Truncate(e.key);
    if HasKey(kept, name) || IsKeysMarker(name) {
      return Skip;
    }
    var keyCharge := JsonStringLen(name) + 1;
    if budget < keyCharge {
      return Stop;
    }
    var left := budget - keyCharge;
    var v;
    if IsRedacted(e.key) {
      var r := Scalar(Redact(e.value), left);
      v, left := r.value, r.left;
    } else {
      v, left := SanitizeValue(e.value, level + 1, at.Down(Some(e.key)), left);
    }
    taken := if v.None? then Stop else Keep(name, v.value, left);
  }

  method SanitizeArguments(args: Json, declared: seq<string>, structs: seq<string>) returns (r: Json)
    ensures r == SanitizedArguments(args, declared, structs)
  {
    if args.Object? {
      var value, left := SanitizeObject(args.entries, 1, declared, At(structs, Some("")), MAX_ARGUMENT_BYTES);
      r := if value.Some? then value.value else Null;
    } else if args.Null? {
      r := Null;
    } else {
      r := Redact(args);
    }
  }

  // ---- Cut text is still text --------------------------------------------------------

  /** A cut string stays well-formed UTF-8, and the cut gives up at most the bytes of one character. */
  lemma {:induction false} CutTextIsUtf8(s: string)
    requires Utf8.Valid(s)
    ensures Utf8.Valid(Truncate(s))
    ensures |s| > MAX_STRING_BYTES ==>
      var n := LargestBoundary(s, MAX_STRING_BYTES);
      MAX_STRING_BYTES - 3 <= n <= MAX_STRING_BYTES && s[..n] <= Truncate(s)
  {
    if |s| > MAX_STRING_BYTES {
      var n := LargestBoundary(s, MAX_STRING_BYTES);
      Utf8.BoundaryWithinFour(s, MAX_STRING_BYTES);
      Utf8.CutAtBoundary(s, n);
      CutMarkIsUtf8(|s|);
      Utf8.ValidConcat(s[..n], CutMark(|s|));
    }
  }

  lemma CutMarkIsUtf8(len: nat)
    ensures Utf8.Valid(CutMark(len))
  {
    hide Utf8.Valid, Decimal;
    DecimalIsAscii(len);
    var digits := Decimal(len);
    Utf8.AsciiIsValid("...[truncated ");
    Utf8.AsciiIsValid(digits);
    Utf8.AsciiIsValid(" bytes]");
    Utf8.ValidConcat("...[truncated ", digits);
    Utf8.ValidConcat("...[truncated " + digits, " bytes]");
  }

  lemma {:induction false} DecimalIsAscii(n: nat)
    ensures forall i :: 0 <= i < |Decimal(n)| ==> Decimal(n)[i] as int < 0x80
  {
    if n >= 10 {
      DecimalIsAscii(n / 10);
    }
  }
}
