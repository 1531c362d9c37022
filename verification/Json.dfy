/**
 JSON values as the audit log handles them, and the text serde_json writes for
 them (compact form, section 7 of RFC 8259 for the string escapes).

 Text is UTF-8: one `char` below 256 stands for one byte.
 */
module Json {
  import opened Wrappers

  /** An object keeps its keys in the order the map iterates in. */
  datatype Json =
    | Null
    | Bool(b: bool)
    | Number(text: string)  // the text of `Number::to_string`
    | Str(s: string)
    | Array(items: seq<Json>)
    | Object(entries: seq<Entry>)

  datatype Entry = Entry(key: string, value: Json)

  // ---- Object maps --------------------------------------------------------------

  /** `Map::get_key_value`. */
  function Lookup(entries: seq<Entry>, key: string): Option<Entry> {
    if entries == [] then None
    else if entries[0].key == key then Some(entries[0])
    else Lookup(entries[1..], key)
  }

  /** `Map::contains_key`. */
  predicate HasKey(entries: seq<Entry>, key: string) {
    Lookup(entries, key).Some?
  }

  /** `Map::insert`: replaces the value of a key already there. */
  function Put(kept: seq<Entry>, key: string, v: Json): seq<Entry> {
    if kept == [] then [Entry(key, v)]
    else if kept[0].key == key then [Entry(key, v)] + kept[1..]
    else [kept[0]] + Put(kept[1..], key, v)
  }

  lemma {:induction false} LookupFinds(entries: seq<Entry>, key: string)
    ensures HasKey(entries, key) <==> exists i :: 0 <= i < |entries| && entries[i].key == key
    ensures HasKey(entries, key) ==> Lookup(entries, key).value in entries && Lookup(entries, key).value.key == key
  {
    if entries != [] && entries[0].key != key {
      LookupFinds(entries[1..], key);
      if HasKey(entries[1..], key) {
        var i :| 0 <= i < |entries[1..]| && entries[1..][i].key == key;
        assert entries[i + 1].key == key;
      }
      if exists i :: 0 <= i < |entries| && entries[i].key == key {
        var i :| 0 <= i < |entries| && entries[i].key == key;
        assert entries[1..][i - 1].key == key;
      }
    }
  }

  /** A new key goes to the end, and nothing already there changes. */
  lemma {:induction false} PutAppends(kept: seq<Entry>, key: string, v: Json)
    requires !HasKey(kept, key)
    ensures Put(kept, key, v) == kept + [Entry(key, v)]
  {
    if kept != [] {
      PutAppends(kept[1..], key, v);
    }
  }

  // ---- Decimal numbers ----------------------------------------------------

  /** The decimal text of `n`. */
  function Decimal(n: nat): string {
    if n < 10 then [Digit(n)] else Decimal(n / 10) + [Digit(n % 10)]
  }

  function Digit(d: nat): char
    requires d < 10
  {
    ('0' as int + d) as char
  }

  /** The number a decimal text stands for. */
  function Value(text: string): int {
    if text == "" then 0 else 10 * Value(text[..|text| - 1]) + (text[|text| - 1] as int - '0' as int)
  }

  lemma {:induction false} DecimalReadsBack(n: nat)
    ensures Value(Decimal(n)) == n
  {
    if n < 10 {
      assert Decimal(n)[..0] == "";
    } else {
      DecimalReadsBack(n / 10);
      assert Decimal(n)[..|Decimal(n)| - 1] == Decimal(n / 10);
    }
  }

  function Pow10(k: nat): nat {
    if k == 0 then 1 else 10 * Pow10(k - 1)
  }

  lemma {:induction false} DecimalLength(n: nat, k: nat)
    requires k >= 1 && n < Pow10(k)
    ensures 1 <= |Decimal(n)| <= k
    ensures forall c :: c in Decimal(n) ==> '0' <= c <= '9'
  {
    if n >= 10 {
      DecimalLength(n / 10, k - 1);
    }
  }

  /** The sizes a 64-bit `usize` can count have at most 20 digits. */
  const USIZE_LIMIT: nat := 0x1_0000_0000_0000_0000

  lemma UsizeDigits(n: nat)
    requires n < USIZE_LIMIT
    ensures |Decimal(n)| <= 20
    ensures forall c :: c in Decimal(n) ==> '0' <= c <= '9'
  {
    assert Pow10(20) == 100_000_000_000_000_000_000 by {
      assert Pow10(5) == 100_000;
      assert Pow10(10) == 10_000_000_000;
      assert Pow10(15) == 1_000_000_000_000_000;
    }
    DecimalLength(n, 20);
  }

  // ---- Strings --------------------------------------------------------------

  /** `json_string_len`: the bytes of `s` as a JSON string, counted without writing it. */
  function JsonStringLen(s: string): nat {
    2 + EscapedLen(s)
  }

  function EscapedLen(s: string): nat {
    if s == [] then 0 else EscapedLen(s[..|s| - 1]) + ByteLen(s[|s| - 1])
  }

  function ByteLen(b: char): nat {
    if b == '\"' || b == '\\' || b == '\n' || b == '\r' || b == '\t' || b == 8 as char || b == 12 as char then 2
    else if b < 0x20 as char then 6
    else 1
  }

  /** The text serde_json writes for one byte of a string. */
  function Escape(b: char): string {
    match b
    case '\"' => "\\\""
    case '\\' => "\\\\"
    case '\n' => "\\n"
    case '\r' => "\\r"
    case '\t' => "\\t"
    case _ =>
      if b == 8 as char then "\\b"
      else if b == 12 as char then "\\f"
      else if b < 0x20 as char then "\\u00" + [HexDigit(b as int / 16), HexDigit(b as int % 16)]
      else [b]
  }

  function Escaped(s: string): string {
    if s == [] then "" else Escaped(s[..|s| - 1]) + Escape(s[|s| - 1])
  }

  function RenderString(s: string): string {
    "\"" + Escaped(s) + "\""
  }

  /** The count `json_string_len` makes is the length of the text written. */
  lemma {:induction false} EscapedLenIsExact(s: string)
    ensures |Escaped(s)| == EscapedLen(s)
  {
    if s != [] {
      EscapedLenIsExact(s[..|s| - 1]);
    }
  }

  lemma JsonStringLenIsExact(s: string)
    ensures JsonStringLen(s) == |RenderString(s)|
  {
    EscapedLenIsExact(s);
  }

  lemma {:induction false} EscapedLenConcat(s: string, t: string)
    ensures EscapedLen(s + t) == EscapedLen(s) + EscapedLen(t)
  {
    if t == [] {
      assert s + t == s;
    } else {
      assert (s + t)[..|s + t| - 1] == s + t[..|t| - 1];
      EscapedLenConcat(s, t[..|t| - 1]);
    }
  }

  lemma {:induction false} EscapedLenAtMost(s: string)
    ensures |s| <= EscapedLen(s) <= 6 * |s|
  {
    if s != [] {
      EscapedLenAtMost(s[..|s| - 1]);
    }
  }

  predicate IsPlain(s: string) {
    forall i :: 0 <= i < |s| ==> ByteLen(s[i]) == 1
  }

  lemma {:induction false} PlainLen(s: string)
    requires IsPlain(s)
    ensures EscapedLen(s) == |s|
  {
    if s != [] {
      PlainLen(s[..|s| - 1]);
    }
  }

  // ---- Values ---------------------------------------------------------------

  /** `serde_json::to_string`. */
  function Render(j: Json): string
    decreases j, 1
  {
    match j
    case Null => "null"
    case Bool(b) => if b then "true" else "false"
    case Number(text) => text
    case Str(s) => RenderString(s)
    case Array(items) => "[" + RenderItems(items) + "]"
    case Object(entries) => "{" + RenderEntries(entries) + "}"
  }

  function RenderItems(items: seq<Json>): string
    decreases items, 0
  {
    if items == [] then ""
    else
      var last := Render(items[|items| - 1]);
      if |items| == 1 then last else RenderItems(items[..|items| - 1]) + "," + last
  }

  function RenderEntry(e: Entry): string
    decreases e, 2
  {
    RenderString(e.key) + ":" + Render(e.value)
  }

  function RenderEntries(entries: seq<Entry>): string
    decreases entries, 0
  {
    if entries == [] then ""
    else
      var last := RenderEntry(entries[|entries| - 1]);
      if |entries| == 1 then last else RenderEntries(entries[..|entries| - 1]) + "," + last
  }

  /** The bytes of the elements, a separator counted after each. */
  function ItemsLen(items: seq<Json>): nat {
    if items == [] then 0 else ItemsLen(items[..|items| - 1]) + |Render(items[|items| - 1])| + 1
  }

  function EntriesLen(entries: seq<Entry>): nat {
    if entries == [] then 0 else EntriesLen(entries[..|entries| - 1]) + |RenderEntry(entries[|entries| - 1])| + 1
  }

  lemma {:induction false} ItemsLenIsExact(items: seq<Json>)
    requires items != []
    ensures |RenderItems(items)| + 1 == ItemsLen(items)
  {
    if |items| > 1 {
      ItemsLenIsExact(items[..|items| - 1]);
    }
  }

  lemma {:induction false} EntriesLenIsExact(entries: seq<Entry>)
    requires entries != []
    ensures |RenderEntries(entries)| + 1 == EntriesLen(entries)
  {
    if |entries| > 1 {
      EntriesLenIsExact(entries[..|entries| - 1]);
    }
  }

  /** A container takes its brackets and its elements; the last element has no separator. */
  lemma ContainerLen(j: Json)
    requires j.Array? || j.Object?
    ensures j.Array? ==> |Render(j)| <= 2 + ItemsLen(j.items)
    ensures j.Object? ==> |Render(j)| <= 2 + EntriesLen(j.entries)
  {
    if j.Array? && j.items != [] {
      ItemsLenIsExact(j.items);
    }
    if j.Object? && j.entries != [] {
      EntriesLenIsExact(j.entries);
    }
  }
}
