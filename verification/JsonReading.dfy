/**
 Reading JSON text back: what serde_json writes for a value determines the value.

 The reader takes the compact form of RFC 8259, strings as in its section 7 with `\u`
 escapes below 256 (one `char` stands for one byte here), and numbers as texts.
 */
module JsonReading {
  import opened Wrappers
  import opened Json

  // ---- Strings --------------------------------------------------------------------------------

  /** The byte an escape stands for, and its length. */
  function ReadEscape(s: string): (r: Option<(char, nat)>)
    requires s != ""
    ensures r.Some? ==> 2 <= r.value.1 <= |s|
  {
    if |s| < 2 then None
    else if s[1] == '\"' || s[1] == '\\' || s[1] == '/' then Some((s[1], 2))
    else if s[1] == 'b' then Some((8 as char, 2))
    else if s[1] == 'f' then Some((12 as char, 2))
    else if s[1] == 'n' then Some(('\n', 2))
    else if s[1] == 'r' then Some(('\r', 2))
    else if s[1] == 't' then Some(('\t', 2))
    else if |s| >= 6 && s[1] == 'u' && s[2] == '0' && s[3] == '0' then
      var high, low := HexValue(s[4]), HexValue(s[5]);
      if high.Some? && low.Some? then Some(((16 * high.value + low.value) as char, 6)) else None
    else None
  }

  /** The string up to its closing quote, and what follows that. */
  function ReadBody(s: string): (r: Option<(string, string)>)
    ensures r.Some? ==> |r.value.1| < |s|
  {
    if s == "" || s[0] < 0x20 as char then None
    else if s[0] == '\"' then Some(("", s[1..]))
    else if s[0] == '\\' then
      var escape := ReadEscape(s);
      if escape.None? then None
      else
        var more := ReadBody(s[escape.value.1..]);
        if more.None? then None else Some(([escape.value.0] + more.value.0, more.value.1))
    else
      var more := ReadBody(s[1..]);
      if more.None? then None else Some(([s[0]] + more.value.0, more.value.1))
  }

  // ---- Values ---------------------------------------------------------------------------------

  predicate IsNumberChar(c: char) {
    '0' <= c <= '9' || c in "-+.eE"
  }

  predicate IsNumber(text: string) {
    text != "" && (text[0] == '-' || '0' <= text[0] <= '9') && forall i :: 0 <= i < |text| ==> IsNumberChar(text[i])
  }

  /** The number characters `s` starts with. */
  function NumberLength(s: string): (n: nat)
    ensures n <= |s|
  {
    if s == "" || !IsNumberChar(s[0]) then 0 else 1 + NumberLength(s[1..])
  }

  predicate HasFirst(s: string, c: char) {
    s != "" && s[0] == c
  }

  /** A value, and the text behind it. */
  function ReadValue(s: string): (r: Option<(Json, string)>)
    ensures r.Some? ==> |r.value.1| < |s|
    decreases |s|, 0
  {
    if "null" <= s then Some((Null, s[4..]))
    else if "true" <= s then Some((Bool(true), s[4..]))
    else if "false" <= s then Some((Bool(false), s[5..]))
    else if HasFirst(s, '\"') then
      var body := ReadBody(s[1..]);
      if body.None? then None else Some((Str(body.value.0), body.value.1))
    else if HasFirst(s, '[') then
      if HasFirst(s[1..], ']') then Some((Array([]), s[2..]))
      else
        var items := ReadItems(s[1..]);
        if items.None? then None else Some((Array(items.value.0), items.value.1))
    else if HasFirst(s, '{') then
      if HasFirst(s[1..], '}') then Some((Object([]), s[2..]))
      else
        var entries := ReadEntries(s[1..]);
        if entries.None? then None else Some((Object(entries.value.0), entries.value.1))
    else
      var n := NumberLength(s);
      if IsNumber(s[..n]) then Some((Number(s[..n]), s[n..])) else None
  }

  function ReadItems(s: string): (r: Option<(seq<Json>, string)>)
    ensures r.Some? ==> |r.value.1| < |s|
    decreases |s|, 1
  {
    var first := ReadValue(s);
    if first.None? then None
    else if HasFirst(first.value.1, ']') then Some(([first.value.0], first.value.1[1..]))
    else if HasFirst(first.value.1, ',') then
      var more := ReadItems(first.value.1[1..]);
      if more.None? then None else Some(([first.value.0] + more.value.0, more.value.1))
    else None
  }

  function ReadEntry(s: string): (r: Option<(Entry, string)>)
    ensures r.Some? ==> |r.value.1| < |s|
    decreases |s|, 1
  {
    if !HasFirst(s, '\"') then None
    else
      var key := ReadBody(s[1..]);
      if key.None? || !HasFirst(key.value.1, ':') then None
      else
        var v := ReadValue(key.value.1[1..]);
        if v.None? then None else Some((Entry(key.value.0, v.value.0), v.value.1))
  }

  function ReadEntries(s: string): (r: Option<(seq<Entry>, string)>)
    ensures r.Some? ==> |r.value.1| < |s|
    decreases |s|, 2
  {
    var first := ReadEntry(s);
    if first.None? then None
    else if HasFirst(first.value.1, '}') then Some(([first.value.0], first.value.1[1..]))
    else if HasFirst(first.value.1, ',') then
      var more := ReadEntries(first.value.1[1..]);
      if more.None? then None else Some(([first.value.0] + more.value.0, more.value.1))
    else None
  }

  // ---- What is written reads back ---------------------------------------------------------------

  /** An escape is read as its byte; every other byte stands for itself. */
  lemma {:induction false} EscapeIsRead(c: char, rest: string)
    ensures Escape(c) == [c] ==> c >= 0x20 as char && c != '\"' && c != '\\'
    ensures Escape(c) != [c] ==>
      && Escape(c)[0] == '\\' && ReadEscape(Escape(c) + rest) == Some((c, |Escape(c)|))
  {
    var s := Escape(c) + rest;
    if c < 0x20 as char && |Escape(c)| == 6 {
      HexReadsBack(c as int / 16);
      HexReadsBack(c as int % 16);
      assert s[4] == HexDigit(c as int / 16) && s[5] == HexDigit(c as int % 16);
    }
  }

  lemma {:induction false} EscapeReadsBack(c: char, rest: string)
    ensures ReadBody(Escape(c) + rest) ==
      (var more := ReadBody(rest); if more.None? then None else Some(([c] + more.value.0, more.value.1)))
  {
    hide Escape, ReadEscape;
    EscapeIsRead(c, rest);
    assert Escape(c) != [] by {
      SomeEscape(c);
    }
    assert (Escape(c) + rest)[|Escape(c)|..] == rest;
  }

  lemma SomeEscape(c: char)
    ensures Escape(c) != []
  {
  }

  lemma HexReadsBack(d: nat)
    requires d < 16
    ensures HexValue(HexDigit(d)) == Some(d)
  {
  }

  lemma {:induction false} BodyReadsBack(s: string, rest: string)
    ensures ReadBody(Escaped(s) + rest) ==
      (var more := ReadBody(rest); if more.None? then None else Some((s + more.value.0, more.value.1)))
  {
    hide Escape, ReadBody;
    if s == "" {
      assert Escaped(s) + rest == rest;
      var more := ReadBody(rest);
      assert more.Some? ==> s + more.value.0 == more.value.0;
    } else {
      var front, last := s[..|s| - 1], s[|s| - 1];
      BodyReadsBack(front, Escape(last) + rest);
      EscapeReadsBack(last, rest);
      assert Escaped(s) + rest == Escaped(front) + (Escape(last) + rest);
      var more := ReadBody(rest);
      assert more.Some? ==> front + ([last] + more.value.0) == s + more.value.0;
    }
  }

  lemma {:induction false} StringReadsBack(s: string, rest: string)
    ensures RenderString(s) + rest != "" && (RenderString(s) + rest)[0] == '\"'
    ensures ReadBody((RenderString(s) + rest)[1..]) == Some((s, rest))
  {
    hide ReadBody, Escaped;
    BodyReadsBack(s, "\"" + rest);
    assert (RenderString(s) + rest)[1..] == Escaped(s) + ("\"" + rest);
    assert ReadBody("\"" + rest) == Some(("", rest)) by {
      ClosingQuote(rest);
    }
    assert s + "" == s;
  }

  lemma ClosingQuote(rest: string)
    ensures ReadBody("\"" + rest) == Some(("", rest))
  {
    assert ("\"" + rest)[1..] == rest;
  }

  /** Every number in `j` is written as one. */
  predicate HasNumbers(j: Json) {
    match j
    case Number(text) => IsNumber(text)
    case Array(items) => forall i :: 0 <= i < |items| ==> HasNumbers(items[i])
    case Object(entries) => forall i :: 0 <= i < |entries| ==> HasNumbers(entries[i].value)
    case _ => true
  }

  predicate EndsHere(rest: string) {
    rest == "" || !IsNumberChar(rest[0])
  }

  lemma {:induction false} NumberReadsBack(text: string, rest: string)
    requires EndsHere(rest) && forall i :: 0 <= i < |text| ==> IsNumberChar(text[i])
    ensures NumberLength(text + rest) == |text|
  {
    if text == "" {
      assert text + rest == rest;
    } else {
      assert (text + rest)[1..] == text[1..] + rest;
      NumberReadsBack(text[1..], rest);
    }
  }

  lemma {:induction false} ItemsFromFirst(items: seq<Json>)
    requires items != []
    ensures RenderItems(items) == Render(items[0]) + if |items| == 1 then "" else "," + RenderItems(items[1..])
  {
    hide Render;
    if |items| > 1 {
      var front, last := items[..|items| - 1], items[|items| - 1];
      ItemsFromFirst(front);
      var tail := items[1..];
      assert tail[..|tail| - 1] == front[1..] && tail[|tail| - 1] == last;
      if |items| == 2 {
        assert RenderItems(tail) == Render(last);
      } else {
        assert RenderItems(tail) == RenderItems(front[1..]) + "," + Render(last);
        assert Render(items[0]) + ("," + RenderItems(front[1..])) + "," + Render(last)
            == Render(items[0]) + ("," + (RenderItems(front[1..]) + "," + Render(last)));
      }
    }
  }

  lemma {:induction false} EntriesFromFirst(entries: seq<Entry>)
    requires entries != []
    ensures RenderEntries(entries) == RenderEntry(entries[0]) + if |entries| == 1 then "" else "," + RenderEntries(entries[1..])
  {
    hide RenderEntry;
    if |entries| > 1 {
      var front, last := entries[..|entries| - 1], entries[|entries| - 1];
      EntriesFromFirst(front);
      var tail := entries[1..];
      assert tail[..|tail| - 1] == front[1..] && tail[|tail| - 1] == last;
      if |entries| == 2 {
        assert RenderEntries(tail) == RenderEntry(last);
      } else {
        assert RenderEntries(tail) == RenderEntries(front[1..]) + "," + RenderEntry(last);
        assert RenderEntry(entries[0]) + ("," + RenderEntries(front[1..])) + "," + RenderEntry(last)
            == RenderEntry(entries[0]) + ("," + (RenderEntries(front[1..]) + "," + RenderEntry(last)));
      }
    }
  }

  /** The text of a value begins like no other kind of value, nor like the end of an array or object. */
  lemma FirstChar(j: Json)
    requires HasNumbers(j)
    ensures Render(j) != "" && Render(j)[0] != ']' && Render(j)[0] != '}'
  {
    hide RenderItems, RenderEntries, Escaped;
  }

  lemma OpensArray(inner: string)
    ensures ReadValue("[" + inner) ==
      if HasFirst(inner, ']') then Some((Array([]), inner[1..]))
      else if ReadItems(inner).None? then None
      else Some((Array(ReadItems(inner).value.0), ReadItems(inner).value.1))
  {
    hide ReadItems, ReadEntries, ReadBody, NumberLength;
    var s := "[" + inner;
    assert s[0] == '[' && s[1..] == inner;
    assert inner != "" ==> s[2..] == inner[1..];
  }

  lemma OpensObject(inner: string)
    ensures ReadValue("{" + inner) ==
      if HasFirst(inner, '}') then Some((Object([]), inner[1..]))
      else if ReadEntries(inner).None? then None
      else Some((Object(ReadEntries(inner).value.0), ReadEntries(inner).value.1))
  {
    hide ReadItems, ReadEntries, ReadBody, NumberLength;
    var s := "{" + inner;
    assert s[0] == '{' && s[1..] == inner;
    assert inner != "" ==> s[2..] == inner[1..];
  }

  lemma {:induction false} SingleReadsBack(j: Json, rest: string)
    requires HasNumbers(j) && EndsHere(rest) && !j.Array? && !j.Object?
    ensures ReadValue(Render(j) + rest) == Some((j, rest))
  {
    hide ReadItems, ReadEntries, RenderString, ReadBody;
    var s := Render(j) + rest;
    match j
    case Null => assert s[..4] == "null" && s[4..] == rest;
    case Bool(b) =>
      if b {
        assert s[0] == 't' && s[..4] == "true" && s[4..] == rest;
      } else {
        assert s[0] == 'f' && s[..5] == "false" && s[5..] == rest;
      }
    case Number(text) =>
      NumberReadsBack(text, rest);
      assert s[0] == text[0] && s[..|text|] == text && s[|text|..] == rest;
    case Str(str) =>
      StringReadsBack(str, rest);
  }

  /** What is written for a value reads back as that value, whatever follows it. */
  lemma {:induction false} TextReadsBack(j: Json, rest: string)
    requires HasNumbers(j) && EndsHere(rest)
    ensures ReadValue(Render(j) + rest) == Some((j, rest))
    decreases j, 1
  {
    hide ReadValue, ReadItems, ReadEntries, RenderItems, RenderEntries, RenderString, ReadBody, NumberLength;
    EmptyTexts();
    if j.Array? {
      var inner := RenderItems(j.items) + ("]" + rest);
      assert Render(j) + rest == "[" + inner;
      OpensArray(inner);
      if j.items == [] {
        assert inner == "]" + rest && inner[1..] == rest;
      } else {
        ItemsReadBack(j.items, rest);
      }
    } else if j.Object? {
      var inner := RenderEntries(j.entries) + ("}" + rest);
      assert Render(j) + rest == "{" + inner;
      OpensObject(inner);
      if j.entries == [] {
        assert inner == "}" + rest && inner[1..] == rest;
      } else {
        EntriesReadBack(j.entries, rest);
      }
    } else {
      SingleReadsBack(j, rest);
    }
  }

  lemma EmptyTexts()
    ensures RenderItems([]) == "" && RenderEntries([]) == ""
  {
  }

  lemma {:induction false} ItemsReadBack(items: seq<Json>, rest: string)
    requires items != [] && forall i :: 0 <= i < |items| ==> HasNumbers(items[i])
    ensures ReadItems(RenderItems(items) + ("]" + rest)) == Some((items, rest))
    ensures !HasFirst(RenderItems(items) + ("]" + rest), ']')
    decreases items, 0
  {
    hide ReadValue, Render, RenderItems, HasNumbers;
    ItemsFromFirst(items);
    FirstChar(items[0]);
    var tail := (if |items| == 1 then "" else "," + RenderItems(items[1..])) + ("]" + rest);
    assert RenderItems(items) + ("]" + rest) == Render(items[0]) + tail;
    TextReadsBack(items[0], tail);
    if |items| > 1 {
      ItemsReadBack(items[1..], rest);
      assert tail[1..] == RenderItems(items[1..]) + ("]" + rest);
      assert [items[0]] + items[1..] == items;
    } else {
      assert tail == "]" + rest && tail[1..] == rest && items == [items[0]];
    }
  }

  lemma {:induction false} EntryReadsBack(e: Entry, rest: string)
    requires HasNumbers(e.value) && EndsHere(rest)
    ensures ReadEntry(RenderEntry(e) + rest) == Some((e, rest))
    ensures RenderEntry(e) != "" && RenderEntry(e)[0] == '\"'
    decreases e, 2
  {
    hide ReadValue, Render, RenderString, ReadBody, HasNumbers;
    var tail := ":" + Render(e.value) + rest;
    assert RenderEntry(e) + rest == RenderString(e.key) + tail;
    StringReadsBack(e.key, tail);
    StringReadsBack(e.key, "");
    assert RenderString(e.key) + "" == RenderString(e.key);
    assert tail[1..] == Render(e.value) + rest;
    TextReadsBack(e.value, rest);
  }

  lemma {:induction false} EntriesReadBack(entries: seq<Entry>, rest: string)
    requires entries != [] && forall i :: 0 <= i < |entries| ==> HasNumbers(entries[i].value)
    ensures ReadEntries(RenderEntries(entries) + ("}" + rest)) == Some((entries, rest))
    ensures !HasFirst(RenderEntries(entries) + ("}" + rest), '}')
    decreases entries, 0
  {
    hide ReadEntry, RenderEntry, RenderEntries, HasNumbers;
    EntriesFromFirst(entries);
    var tail := (if |entries| == 1 then "" else "," + RenderEntries(entries[1..])) + ("}" + rest);
    assert RenderEntries(entries) + ("}" + rest) == RenderEntry(entries[0]) + tail;
    EntryReadsBack(entries[0], tail);
    if |entries| > 1 {
      EntriesReadBack(entries[1..], rest);
      assert tail[1..] == RenderEntries(entries[1..]) + ("}" + rest);
      assert [entries[0]] + entries[1..] == entries;
    } else {
      assert tail == "}" + rest && tail[1..] == rest && entries == [entries[0]];
    }
  }
}
