/**
 Quoting a recorded command for a shell, and the shell that reads it back.

 Arguments are sequences of characters; a shell hands the program the bytes of each
 word, UTF-8 here. `Read` follows sections 2.2.1 to 2.2.3, 2.3, 2.6.2 and 2.6.7 of the
 POSIX.1-2017 Shell Command Language, and the `$'...'` quoting of bash.
 */
module Shell {
  import opened Wrappers

  /** Bytes, and `SESSION_FILE` where the value of that variable goes. */
  type Word = seq<nat>

  const SESSION_FILE: nat := 256

  // ---- Bytes ----------------------------------------------------------------------------

  /** The UTF-8 bytes of a character. */
  function Encode(c: char): Word {
    var n := c as int;
    if n < 0x80 then [n]
    else if n < 0x800 then [0xC0 + n / 0x40, 0x80 + n % 0x40]
    else if n < 0x1_0000 then [0xE0 + n / 0x1000, 0x80 + n / 0x40 % 0x40, 0x80 + n % 0x40]
    else [0xF0 + n / 0x4_0000, 0x80 + n / 0x1000 % 0x40, 0x80 + n / 0x40 % 0x40, 0x80 + n % 0x40]
  }

  function Bytes(s: string): Word {
    if s == [] then [] else Encode(s[0]) + Bytes(s[1..])
  }

  function AllBytes(args: seq<string>): seq<Word> {
    seq(|args|, i requires 0 <= i < |args| => Bytes(args[i]))
  }

  // ---- The programs' quoting ----------------------------------------------------------------

  predicate IsAlphanumeric(c: char) {
    'a' <= c <= 'z' || 'A' <= c <= 'Z' || '0' <= c <= '9'
  }

  predicate IsSafe(c: char) {
    IsAlphanumeric(c) || c in "@%+=:,./-_"
  }

  predicate AllSafe(s: string) {
    s != [] && forall i :: 0 <= i < |s| ==> IsSafe(s[i])
  }

  /** The inside of single quotes; a single quote ends them, stands escaped, and starts them again. */
  function SingleQuotedBody(s: string): string {
    if s == [] then "" else (if s[0] == '\'' then "'\\''" else [s[0]]) + SingleQuotedBody(s[1..])
  }

  /** `shell_quote`. */
  function ShellQuoted(s: string): string {
    if AllSafe(s) then s else "'" + SingleQuotedBody(s) + "'"
  }

  method ShellQuote(s: string) returns (out: string)
    ensures out == ShellQuoted(s)
  {
    if AllSafe(s) {
      return s;
    }
    out := "'";
    for i := 0 to |s|
      invariant out + SingleQuotedBody(s[i..]) == "'" + SingleQuotedBody(s)
    {
      assert s[i..][1..] == s[i + 1..];
      if s[i] == '\'' {
        out := out + "'\\''";
      } else {
        out := out + [s[i]];
      }
    }
    out := out + "'";
  }

  /** `char::is_control`. */
  predicate IsControl(c: char) {
    c as int < 0x20 || 0x7F <= c as int < 0xA0
  }

  predicate HasControl(s: string) {
    exists i :: 0 <= i < |s| && IsControl(s[i])
  }

  /** `\xHH` for each byte. */
  function HexEscapes(bytes: Word): string
    requires forall i :: 0 <= i < |bytes| ==> bytes[i] < 256
  {
    if bytes == [] then ""
    else "\\x" + [HexDigit(bytes[0] / 16), HexDigit(bytes[0] % 16)] + HexEscapes(bytes[1..])
  }

  lemma EncodeInBytes(c: char)
    ensures forall i :: 0 <= i < |Encode(c)| ==> Encode(c)[i] < 256
  {
  }

  function AnsiEscape(c: char): string {
    if c == '\\' then "\\\\"
    else if c == '\'' then "\\'"
    else if c == '\n' then "\\n"
    else if c == '\r' then "\\r"
    else if c == '\t' then "\\t"
    else if IsControl(c) then (EncodeInBytes(c); HexEscapes(Encode(c)))
    else [c]
  }

  function AnsiBody(s: string): string {
    if s == [] then "" else AnsiEscape(s[0]) + AnsiBody(s[1..])
  }

  /** `script_quote`. */
  function ScriptQuoted(s: string): string {
    if HasControl(s) then "$'" + AnsiBody(s) + "'" else ShellQuoted(s)
  }

  method ScriptQuote(s: string) returns (out: string)
    ensures out == ScriptQuoted(s)
  {
    hide HasControl, AnsiEscape, ShellQuoted;
    if !HasControl(s) {
      out := ShellQuote(s);
      return;
    }
    out := "$'";
    for i := 0 to |s|
      invariant out + AnsiBody(s[i..]) == "$'" + AnsiBody(s)
    {
      assert s[i..][1..] == s[i + 1..];
      out := out + AnsiEscape(s[i]);
    }
    out := out + "'";
  }

  /** Words joined by single spaces. */
  function Joined(words: seq<string>): string {
    if words == [] then ""
    else if |words| == 1 then words[0]
    else words[0] + " " + Joined(words[1..])
  }

  function ShellJoin(args: seq<string>): string {
    Joined(seq(|args|, i requires 0 <= i < |args| => ShellQuoted(args[i])))
  }

  function ScriptJoin(args: seq<string>): string {
    Joined(seq(|args|, i requires 0 <= i < |args| => ScriptQuoted(args[i])))
  }

  // ---- The shell's reading --------------------------------------------------------------------

  datatype Mode = Unquoted | Single | Ansi | Double

  /** Characters a shell gives a meaning of its own outside quotes, none of them in a quoted word here. */
  predicate IsSpecial(c: char) {
    c in "|&;<>()$`\"*?[#~" || c == '\n' || c == NUL
  }

  const NUL: char := 0 as char

  function WordOf(word: Option<Word>): Word {
    if word.Some? then word.value else []
  }

  /**
   The words of a command line, `None` for anything but plain words and `$SESSION_FILE`
   in double quotes, where its value is not split: any other expansion, an operator, a
   comment, an unfinished quote, a NUL.
   */
  function Read(s: string): Option<seq<Word>> {
    ReadFrom(s, Unquoted, [], None)
  }

  function ReadFrom(s: string, mode: Mode, words: seq<Word>, word: Option<Word>): Option<seq<Word>>
    decreases |s|
  {
    match mode
    case Unquoted =>
      if s == [] then Some(words + if word.Some? then [word.value] else [])
      else if s[0] == ' ' || s[0] == '\t' then
        ReadFrom(s[1..], Unquoted, words + (if word.Some? then [word.value] else []), None)
      else if s[0] == '\'' then ReadFrom(s[1..], Single, words, Some(WordOf(word)))
      else if s[0] == '\\' then
        if |s| < 2 || s[1] == NUL then None
        else if s[1] == '\n' then ReadFrom(s[2..], Unquoted, words, word)
        else ReadFrom(s[2..], Unquoted, words, Some(WordOf(word) + Encode(s[1])))
      else if s[0] == '$' && |s| >= 2 && s[1] == '\'' then ReadFrom(s[2..], Ansi, words, Some(WordOf(word)))
      else if s[0] == '"' then ReadFrom(s[1..], Double, words, Some(WordOf(word)))
      else if IsSpecial(s[0]) then None
      else ReadFrom(s[1..], Unquoted, words, Some(WordOf(word) + Encode(s[0])))
    case Single =>
      if s == [] || s[0] == NUL then None
      else if s[0] == '\'' then ReadFrom(s[1..], Unquoted, words, word)
      else ReadFrom(s[1..], Single, words, Some(WordOf(word) + Encode(s[0])))
    case Ansi =>
      if s == [] || s[0] == NUL then None
      else if s[0] == '\'' then ReadFrom(s[1..], Unquoted, words, word)
      else if s[0] != '\\' then ReadFrom(s[1..], Ansi, words, Some(WordOf(word) + Encode(s[0])))
      else
        (match AnsiByte(s)
         case Some((byte, width)) => ReadFrom(s[width..], Ansi, words, Some(WordOf(word) + [byte]))
         case None => None)
    case Double =>
      if s == [] || s[0] == NUL || s[0] == '`' || s[0] == '\\' then None
      else if s[0] == '"' then ReadFrom(s[1..], Unquoted, words, word)
      else if s[0] != '$' then ReadFrom(s[1..], Double, words, Some(WordOf(word) + Encode(s[0])))
      else if IsVariable(s) then ReadFrom(s[|VARIABLE|..], Double, words, Some(WordOf(word) + [SESSION_FILE]))
      else None
  }

  const VARIABLE: string := "$SESSION_FILE"

  /** `s` begins with the variable, its name being the longest one there. */
  predicate IsVariable(s: string) {
    VARIABLE <= s && (|s| > |VARIABLE| ==> !IsAlphanumeric(s[|VARIABLE|]) && s[|VARIABLE|] != '_')
  }

  /** The byte a backslash sequence stands for, and its length. */
  function AnsiByte(s: string): (r: Option<(nat, nat)>)
    requires s != []
    ensures r.Some? ==> 2 <= r.value.1 <= |s|
  {
    if |s| < 2 then None
    else if s[1] == '\\' || s[1] == '\'' then Some((s[1] as int, 2))
    else if s[1] == 'n' then Some((10, 2))
    else if s[1] == 'r' then Some((13, 2))
    else if s[1] == 't' then Some((9, 2))
    else if s[1] == 'x' && |s| >= 4 then
      var high, low := HexValue(s[2]), HexValue(s[3]);
      if high.Some? && low.Some? && 16 * high.value + low.value != 0
      then Some((16 * high.value + low.value, 4)) else None
    else None
  }

  // ---- A quoted argument reads back ----------------------------------------------------------------

  predicate NulFree(s: string) {
    forall i :: 0 <= i < |s| ==> s[i] != NUL
  }

  lemma NulFreeHead(s: string)
    requires s != []
    ensures NulFree(s) <==> s[0] != NUL && NulFree(s[1..])
  {
    if s[0] != NUL && NulFree(s[1..]) {
      forall i | 0 <= i < |s| ensures s[i] != NUL {
        assert i > 0 ==> s[i] == s[1..][i - 1];
      }
    }
  }

  lemma PlainStep(c: char, rest: string, words: seq<Word>, word: Word)
    requires IsSafe(c)
    ensures ReadFrom([c] + rest, Unquoted, words, Some(word)) == ReadFrom(rest, Unquoted, words, Some(word + Encode(c)))
  {
    hide Encode, AnsiByte, WordOf;
    assert ([c] + rest)[1..] == rest;
    assert WordOf(Some(word)) == word by { WordOfSome(word); }
  }

  lemma WordOfSome(word: Word)
    ensures WordOf(Some(word)) == word
  {
  }

  lemma SingleStep(c: char, rest: string, words: seq<Word>, word: Word)
    ensures ReadFrom([c] + rest, Single, words, Some(word)) ==
      if c == NUL then None
      else if c == '\'' then ReadFrom(rest, Unquoted, words, Some(word))
      else ReadFrom(rest, Single, words, Some(word + Encode(c)))
  {
    assert ([c] + rest)[1..] == rest;
  }

  lemma OpenSingle(rest: string, words: seq<Word>, word: Option<Word>)
    ensures ReadFrom("'" + rest, Unquoted, words, word) == ReadFrom(rest, Single, words, Some(WordOf(word)))
  {
    assert ("'" + rest)[1..] == rest;
  }

  lemma BackslashQuote(rest: string, words: seq<Word>, word: Word)
    ensures ReadFrom("\\'" + rest, Unquoted, words, Some(word))
         == ReadFrom(rest, Unquoted, words, Some(word + Encode('\'')))
  {
    assert ("\\'" + rest)[2..] == rest;
  }

  /** A single quote inside single quotes, as the programs write it. */
  lemma EscapedQuoteStep(rest: string, words: seq<Word>, word: Word)
    ensures ReadFrom("'\\''" + rest, Single, words, Some(word))
         == ReadFrom(rest, Single, words, Some(word + Encode('\'')))
  {
    hide ReadFrom;
    SingleStep('\'', "\\''" + rest, words, word);
    assert "'\\''" + rest == ['\''] + ("\\''" + rest);
    BackslashQuote("'" + rest, words, word);
    assert "\\''" + rest == "\\'" + ("'" + rest);
    OpenSingle(rest, words, Some(word + Encode('\'')));
  }

  /** Reading `quoted` in front of `rest` adds the bytes of `s` to the word, or fails when `s` holds a NUL. */
  ghost predicate ReadsAs(quoted: string, rest: string, mode: Mode, s: string, words: seq<Word>, word: Word) {
    ReadFrom(quoted + rest, mode, words, Some(word))
      == if NulFree(s) then ReadFrom(rest, Unquoted, words, Some(word + Bytes(s))) else None
  }

  lemma {:induction false} SafeReads(s: string, rest: string, words: seq<Word>, word: Word)
    requires forall i :: 0 <= i < |s| ==> IsSafe(s[i])
    ensures ReadsAs(s, rest, Unquoted, s, words, word)
  {
    hide ReadFrom, IsSafe, Encode, NulFree;
    if s == [] {
      assert s + rest == rest && word + Bytes(s) == word;
      EmptyIsNulFree();
    } else {
      SafeIsNotNul(s[0]);
      NulFreeHead(s);
      PlainStep(s[0], s[1..] + rest, words, word);
      SafeReads(s[1..], rest, words, word + Encode(s[0]));
      assert s + rest == [s[0]] + (s[1..] + rest);
      assert word + Encode(s[0]) + Bytes(s[1..]) == word + Bytes(s);
    }
  }

  lemma EmptyIsNulFree()
    ensures NulFree("")
  {
  }

  lemma SafeIsNotNul(c: char)
    requires IsSafe(c)
    ensures c != NUL
  {
  }

  lemma {:induction false} SingleReads(s: string, rest: string, words: seq<Word>, word: Word)
    ensures ReadsAs(SingleQuotedBody(s) + "'", rest, Single, s, words, word)
  {
    hide ReadFrom, Encode, NulFree;
    if s == [] {
      EmptyIsNulFree();
      SingleStep('\'', rest, words, word);
      assert SingleQuotedBody(s) + "'" + rest == ['\''] + rest && word + Bytes(s) == word;
    } else {
      var more := SingleQuotedBody(s[1..]) + "'" + rest;
      NulFreeHead(s);
      SingleReads(s[1..], rest, words, word + Encode(s[0]));
      assert word + Encode(s[0]) + Bytes(s[1..]) == word + Bytes(s);
      if s[0] == '\'' {
        EscapedQuoteStep(more, words, word);
        assert SingleQuotedBody(s) + "'" + rest == "'\\''" + more;
      } else {
        SingleStep(s[0], more, words, word);
        assert SingleQuotedBody(s) + "'" + rest == [s[0]] + more;
      }
    }
  }

  // ---- ANSI-C quoting --------------------------------------------------------------------------

  lemma AnsiPlainStep(c: char, rest: string, words: seq<Word>, word: Word)
    requires c != '\\'
    ensures ReadFrom([c] + rest, Ansi, words, Some(word)) ==
      if c == NUL then None
      else if c == '\'' then ReadFrom(rest, Unquoted, words, Some(word))
      else ReadFrom(rest, Ansi, words, Some(word + Encode(c)))
  {
    assert ([c] + rest)[1..] == rest;
  }

  lemma AnsiTwoStep(c: char, byte: nat, rest: string, words: seq<Word>, word: Word)
    requires (c, byte) in {('\\', 92), ('\'', 39), ('n', 10), ('r', 13), ('t', 9)}
    ensures ReadFrom(['\\', c] + rest, Ansi, words, Some(word)) == ReadFrom(rest, Ansi, words, Some(word + [byte]))
  {
    var s := ['\\', c] + rest;
    assert s[2..] == rest;
    assert AnsiByte(s) == Some((byte, 2));
  }

  lemma HexDigitValue(d: nat)
    requires d < 16
    ensures HexValue(HexDigit(d)) == Some(d)
  {
  }

  lemma AnsiHexStep(byte: nat, rest: string, words: seq<Word>, word: Word)
    requires byte < 256
    ensures ReadFrom("\\x" + [HexDigit(byte / 16), HexDigit(byte % 16)] + rest, Ansi, words, Some(word))
         == if byte == 0 then None else ReadFrom(rest, Ansi, words, Some(word + [byte]))
  {
    hide HexDigit, HexValue;
    var s := "\\x" + [HexDigit(byte / 16), HexDigit(byte % 16)] + rest;
    HexDigitValue(byte / 16);
    HexDigitValue(byte % 16);
    assert s[0] == '\\' && s[1] == 'x' && s[4..] == rest;
    assert AnsiByte(s) == if byte == 0 then None else Some((byte, 4));
  }

  lemma {:induction false} AnsiHexReads(bytes: Word, rest: string, words: seq<Word>, word: Word)
    requires forall i :: 0 <= i < |bytes| ==> 0 < bytes[i] < 256
    ensures ReadFrom(HexEscapes(bytes) + rest, Ansi, words, Some(word)) == ReadFrom(rest, Ansi, words, Some(word + bytes))
  {
    hide ReadFrom, HexDigit;
    if bytes == [] {
      assert HexEscapes(bytes) + rest == rest && word + bytes == word;
    } else {
      var escape := "\\x" + [HexDigit(bytes[0] / 16), HexDigit(bytes[0] % 16)];
      AnsiHexStep(bytes[0], HexEscapes(bytes[1..]) + rest, words, word);
      AnsiHexReads(bytes[1..], rest, words, word + [bytes[0]]);
      assert HexEscapes(bytes) + rest == escape + (HexEscapes(bytes[1..]) + rest);
      assert word + [bytes[0]] + bytes[1..] == word + bytes;
    }
  }

  lemma AnsiEscapeReads(c: char, rest: string, words: seq<Word>, word: Word)
    ensures ReadFrom(AnsiEscape(c) + rest, Ansi, words, Some(word))
         == if c == NUL then None else ReadFrom(rest, Ansi, words, Some(word + Encode(c)))
  {
    hide ReadFrom, AnsiByte, HexDigit;
    EncodeInBytes(c);
    if c == '\\' || c == '\'' {
      AnsiTwoStep(c, c as int, rest, words, word);
    } else if c == '\n' {
      AnsiTwoStep('n', 10, rest, words, word);
    } else if c == '\r' {
      AnsiTwoStep('r', 13, rest, words, word);
    } else if c == '\t' {
      AnsiTwoStep('t', 9, rest, words, word);
    } else if c == NUL {
      AnsiHexStep(0, rest, words, word);
      assert HexEscapes([0]) == "\\x" + [HexDigit(0), HexDigit(0)];
    } else if IsControl(c) {
      AnsiHexReads(Encode(c), rest, words, word);
    } else {
      AnsiPlainStep(c, rest, words, word);
    }
  }

  lemma {:induction false} AnsiReads(s: string, rest: string, words: seq<Word>, word: Word)
    ensures ReadsAs(AnsiBody(s) + "'", rest, Ansi, s, words, word)
  {
    hide ReadFrom, Encode, NulFree, AnsiEscape;
    if s == [] {
      EmptyIsNulFree();
      AnsiPlainStep('\'', rest, words, word);
      assert AnsiBody(s) + "'" + rest == ['\''] + rest && word + Bytes(s) == word;
    } else {
      var more := AnsiBody(s[1..]) + "'" + rest;
      NulFreeHead(s);
      AnsiEscapeReads(s[0], more, words, word);
      AnsiReads(s[1..], rest, words, word + Encode(s[0]));
      assert AnsiBody(s) + "'" + rest == AnsiEscape(s[0]) + more;
      assert word + Encode(s[0]) + Bytes(s[1..]) == word + Bytes(s);
    }
  }

  // ---- Command lines ----------------------------------------------------------------------------

  /** `quoted` is one word of the line, with the bytes of `arg`; with a NUL in `arg` the line is refused. */
  ghost predicate IsWordFor(quoted: string, arg: string) {
    forall rest, words :: ReadFrom(quoted + rest, Unquoted, words, None)
      == if NulFree(arg) then ReadFrom(rest, Unquoted, words, Some(Bytes(arg))) else None
  }

  lemma NoWordYet(s: string, words: seq<Word>)
    requires s != [] && IsSafe(s[0])
    ensures ReadFrom(s, Unquoted, words, None) == ReadFrom(s, Unquoted, words, Some([]))
  {
  }

  lemma OpenAnsi(rest: string, words: seq<Word>)
    ensures ReadFrom("$'" + rest, Unquoted, words, None) == ReadFrom(rest, Ansi, words, Some([]))
  {
    assert ("$'" + rest)[2..] == rest;
  }

  lemma ShellQuotedIsAWord(arg: string)
    ensures IsWordFor(ShellQuoted(arg), arg)
  {
    hide ReadFrom, IsSafe, Bytes, NulFree, SingleQuotedBody;
    forall rest, words
      ensures ReadFrom(ShellQuoted(arg) + rest, Unquoted, words, None)
           == if NulFree(arg) then ReadFrom(rest, Unquoted, words, Some(Bytes(arg))) else None
    {
      assert [] + Bytes(arg) == Bytes(arg);
      if AllSafe(arg) {
        NoWordYet(arg + rest, words);
        SafeReads(arg, rest, words, []);
      } else {
        var body := SingleQuotedBody(arg) + "'";
        OpenSingle(body + rest, words, None);
        SingleReads(arg, rest, words, []);
        assert ShellQuoted(arg) + rest == "'" + (body + rest);
      }
    }
  }

  lemma ScriptQuotedIsAWord(arg: string)
    ensures IsWordFor(ScriptQuoted(arg), arg)
  {
    hide ReadFrom, Bytes, NulFree, AnsiBody, ShellQuoted, HasControl;
    ShellQuotedIsAWord(arg);
    if HasControl(arg) {
      forall rest, words
        ensures ReadFrom(ScriptQuoted(arg) + rest, Unquoted, words, None)
             == if NulFree(arg) then ReadFrom(rest, Unquoted, words, Some(Bytes(arg))) else None
      {
        var body := AnsiBody(arg) + "'";
        assert [] + Bytes(arg) == Bytes(arg);
        OpenAnsi(body + rest, words);
        AnsiReads(arg, rest, words, []);
        assert ScriptQuoted(arg) + rest == "$'" + (body + rest);
      }
    }
  }

  predicate AllNulFree(args: seq<string>) {
    forall i :: 0 <= i < |args| ==> NulFree(args[i])
  }

  lemma WordEnds(rest: string, words: seq<Word>, word: Word)
    ensures ReadFrom(" " + rest, Unquoted, words, Some(word)) == ReadFrom(rest, Unquoted, words + [word], None)
    ensures ReadFrom("", Unquoted, words, Some(word)) == Some(words + [word])
    ensures ReadFrom("", Unquoted, words, None) == Some(words)
  {
    assert (" " + rest)[1..] == rest;
    var none: seq<Word> := [];
    assert words + none == words;
  }

  lemma {:induction false} JoinedReads(quoted: seq<string>, args: seq<string>, words: seq<Word>)
    requires |quoted| == |args|
    requires forall i :: 0 <= i < |args| ==> IsWordFor(quoted[i], args[i])
    ensures ReadFrom(Joined(quoted), Unquoted, words, None)
         == if AllNulFree(args) then Some(words + AllBytes(args)) else None
  {
    hide ReadFrom, IsWordFor, NulFree, Bytes;
    if args == [] {
      WordEnds("", words, []);
      assert words + AllBytes(args) == words;
    } else {
      var rest := if |args| == 1 then "" else " " + Joined(quoted[1..]);
      assert Joined(quoted) == quoted[0] + rest;
      FirstWord(quoted[0], args[0], rest, words);
      AllNulFreeHead(args);
      assert words + AllBytes(args) == words + [Bytes(args[0])] + AllBytes(args[1..]);
      if |args| == 1 {
        WordEnds("", words, Bytes(args[0]));
        assert AllBytes(args) == [Bytes(args[0])] && AllNulFree(args[1..]);
      } else {
        WordEnds(Joined(quoted[1..]), words, Bytes(args[0]));
        JoinedReads(quoted[1..], args[1..], words + [Bytes(args[0])]);
      }
    }
  }

  lemma FirstWord(quoted: string, arg: string, rest: string, words: seq<Word>)
    requires IsWordFor(quoted, arg)
    ensures ReadFrom(quoted + rest, Unquoted, words, None)
         == if NulFree(arg) then ReadFrom(rest, Unquoted, words, Some(Bytes(arg))) else None
  {
  }

  lemma AllNulFreeHead(args: seq<string>)
    requires args != []
    ensures AllNulFree(args) <==> NulFree(args[0]) && AllNulFree(args[1..])
  {
    if NulFree(args[0]) && AllNulFree(args[1..]) {
      forall i | 0 <= i < |args| ensures NulFree(args[i]) {
        assert i > 0 ==> args[i] == args[1..][i - 1];
      }
    }
  }

  /** A shell reads the joined line back as exactly the arguments, and refuses it exactly when one holds a NUL. */
  lemma ShellJoinReadsBack(args: seq<string>)
    ensures Read(ShellJoin(args)) == if AllNulFree(args) then Some(AllBytes(args)) else None
  {
    hide ReadFrom, IsWordFor;
    var quoted := seq(|args|, i requires 0 <= i < |args| => ShellQuoted(args[i]));
    forall i | 0 <= i < |args| ensures IsWordFor(quoted[i], args[i]) {
      ShellQuotedIsAWord(args[i]);
    }
    JoinedReads(quoted, args, []);
    assert [] + AllBytes(args) == AllBytes(args);
  }

  /** So does bash with the line of an exported script. */
  lemma ScriptJoinReadsBack(args: seq<string>)
    ensures Read(ScriptJoin(args)) == if AllNulFree(args) then Some(AllBytes(args)) else None
  {
    hide ReadFrom, IsWordFor;
    var quoted := seq(|args|, i requires 0 <= i < |args| => ScriptQuoted(args[i]));
    forall i | 0 <= i < |args| ensures IsWordFor(quoted[i], args[i]) {
      ScriptQuotedIsAWord(args[i]);
    }
    JoinedReads(quoted, args, []);
    assert [] + AllBytes(args) == AllBytes(args);
  }

  // ---- The whole line ----------------------------------------------------------------------------

  /** The line of an exported script that replays a command. */
  function ScriptLine(args: seq<string>): string {
    "p2a --session \"$SESSION_FILE\" " + ScriptJoin(args)
  }

  /** The words with the variable's value put in. */
  function Expanded(words: seq<Word>, value: Word): seq<Word> {
    seq(|words|, i requires 0 <= i < |words| => ExpandedWord(words[i], value))
  }

  function ExpandedWord(word: Word, value: Word): Word {
    if word == [] then []
    else (if word[0] == SESSION_FILE then value else [word[0]]) + ExpandedWord(word[1..], value)
  }

  lemma VariableReads(rest: string, words: seq<Word>)
    ensures ReadFrom("\"$SESSION_FILE\"" + rest, Unquoted, words, None)
         == ReadFrom(rest, Unquoted, words, Some([SESSION_FILE]))
  {
    var s := "\"$SESSION_FILE\"" + rest;
    assert s[1..] == "$SESSION_FILE" + ("\"" + rest);
    QuotedVariable("\"" + rest, words);
    assert ("\"" + rest)[1..] == rest;
  }

  lemma QuotedVariable(rest: string, words: seq<Word>)
    requires rest != "" && rest[0] == '"'
    ensures ReadFrom("$SESSION_FILE" + rest, Double, words, Some([])) == ReadFrom(rest, Double, words, Some([SESSION_FILE]))
  {
    var s := VARIABLE + rest;
    assert s[0] == '$' && s[|VARIABLE|] == rest[0] && s[|VARIABLE|..] == rest;
    assert [] + [SESSION_FILE] == [SESSION_FILE];
  }

  /** A plain word and the blank after it. */
  lemma WordReads(arg: string, rest: string, words: seq<Word>)
    requires AllSafe(arg) && NulFree(arg)
    ensures ReadFrom(arg + " " + rest, Unquoted, words, None) == ReadFrom(rest, Unquoted, words + [Bytes(arg)], None)
  {
    hide ReadFrom, IsSafe, Bytes, NulFree;
    ShellQuotedIsAWord(arg);
    FirstWord(ShellQuoted(arg), arg, " " + rest, words);
    assert ShellQuoted(arg) + (" " + rest) == arg + " " + rest;
    WordEnds(rest, words, Bytes(arg));
  }

  function LineWords(args: seq<string>): seq<Word> {
    [Bytes("p2a"), Bytes("--session"), [SESSION_FILE]] + AllBytes(args)
  }

  lemma LineHead(rest: string)
    ensures "p2a --session \"$SESSION_FILE\" " + rest
         == "p2a" + " " + ("--session" + " " + ("\"$SESSION_FILE\"" + (" " + rest)))
  {
    assert "p2a --session \"$SESSION_FILE\" " == "p2a" + " " + "--session" + " " + "\"$SESSION_FILE\"" + " ";
  }

  lemma HeadReads(rest: string)
    ensures ReadFrom("p2a --session \"$SESSION_FILE\" " + rest, Unquoted, [], None)
         == ReadFrom(rest, Unquoted, LineWords([]), None)
  {
    hide ReadFrom, Bytes;
    LineHead(rest);
    var tail := "\"$SESSION_FILE\"" + (" " + rest);
    var one, two := [Bytes("p2a")], [Bytes("p2a"), Bytes("--session")];
    WordReads("p2a", "--session" + " " + tail, []);
    WordReads("--session", tail, one);
    assert [] + one == one && one + [Bytes("--session")] == two;
    VariableReads(" " + rest, two);
    WordEnds(rest, two, [SESSION_FILE]);
    assert two + [[SESSION_FILE]] == LineWords([]);
  }

  /** bash reads the whole line as the program, its session option with the variable, and exactly the arguments. */
  lemma {:induction false} ScriptLineReadsBack(args: seq<string>)
    ensures Read(ScriptLine(args)) == if AllNulFree(args) then Some(LineWords(args)) else None
  {
    hide ReadFrom, IsWordFor, Bytes, ScriptQuoted, Joined, LineWords;
    HeadReads(ScriptJoin(args));
    var quoted := seq(|args|, i requires 0 <= i < |args| => ScriptQuoted(args[i]));
    forall i | 0 <= i < |args| ensures IsWordFor(quoted[i], args[i]) {
      ScriptQuotedIsAWord(args[i]);
    }
    JoinedReads(quoted, args, LineWords([]));
    LineWordsSplit(args);
  }

  lemma LineWordsSplit(args: seq<string>)
    ensures LineWords([]) + AllBytes(args) == LineWords(args)
  {
    hide Bytes;
  }

  lemma {:induction false} BytesExpandToThemselves(s: string, value: Word)
    ensures ExpandedWord(Bytes(s), value) == Bytes(s)
  {
    if s != [] {
      BytesExpandToThemselves(s[1..], value);
      EncodeInBytes(s[0]);
      ExpandedPlain(Encode(s[0]), Bytes(s[1..]), value);
    }
  }

  lemma {:induction false} ExpandedPlain(plain: Word, rest: Word, value: Word)
    requires forall i :: 0 <= i < |plain| ==> plain[i] < 256
    ensures ExpandedWord(plain + rest, value) == plain + ExpandedWord(rest, value)
  {
    if plain == [] {
      assert plain + rest == rest;
    } else {
      assert (plain + rest)[1..] == plain[1..] + rest;
      ExpandedPlain(plain[1..], rest, value);
    }
  }

  /** With the variable's value in, they are the words of the replay. */
  lemma {:induction false} LineWordsExpand(args: seq<string>, session: string)
    ensures Expanded(LineWords(args), Bytes(session)) == AllBytes(["p2a", "--session", session] + args)
  {
    hide Bytes, ExpandedWord;
    var words, all := LineWords(args), ["p2a", "--session", session] + args;
    assert ExpandedWord([SESSION_FILE], Bytes(session)) == Bytes(session) by {
      OneVariable(Bytes(session));
    }
    forall i | 0 <= i < |words|
      ensures ExpandedWord(words[i], Bytes(session)) == Bytes(all[i])
    {
      if i != 2 {
        assert words[i] == Bytes(all[i]);
        BytesExpandToThemselves(all[i], Bytes(session));
      }
    }
  }

  lemma OneVariable(value: Word)
    ensures ExpandedWord([SESSION_FILE], value) == value
  {
    assert [SESSION_FILE][1..] == [];
    assert ExpandedWord([], value) == [] && value + [] == value;
  }

  // ---- One line ------------------------------------------------------------------------------------

  lemma {:induction false} SingleBodyHasNoControl(s: string)
    requires !HasControl(s)
    ensures !HasControl(SingleQuotedBody(s))
  {
    if s != [] {
      assert !IsControl(s[0]);
      assert forall i :: 0 <= i < |s[1..]| ==> s[1..][i] == s[i + 1];
      SingleBodyHasNoControl(s[1..]);
    }
  }

  lemma {:induction false} HexEscapesHaveNoControl(bytes: Word)
    requires forall i :: 0 <= i < |bytes| ==> bytes[i] < 256
    ensures !HasControl(HexEscapes(bytes))
  {
    if bytes != [] {
      HexEscapesHaveNoControl(bytes[1..]);
      HexDigitIsNoControl(bytes[0] / 16);
      HexDigitIsNoControl(bytes[0] % 16);
    }
  }

  lemma HexDigitIsNoControl(d: nat)
    requires d < 16
    ensures !IsControl(HexDigit(d))
  {
  }

  lemma AnsiEscapeHasNoControl(c: char)
    ensures !HasControl(AnsiEscape(c))
  {
    hide HexEscapes;
    EncodeInBytes(c);
    HexEscapesHaveNoControl(Encode(c));
  }

  lemma {:induction false} AnsiBodyHasNoControl(s: string)
    ensures !HasControl(AnsiBody(s))
  {
    hide AnsiEscape;
    if s != [] {
      AnsiEscapeHasNoControl(s[0]);
      AnsiBodyHasNoControl(s[1..]);
    }
  }

  lemma {:induction false} JoinedHasNoControl(words: seq<string>)
    requires forall i :: 0 <= i < |words| ==> !HasControl(words[i])
    ensures !HasControl(Joined(words))
  {
    if |words| > 1 {
      JoinedHasNoControl(words[1..]);
    }
  }

  /** The command of an exported script stays on its line, whatever the arguments hold. */
  lemma ScriptCommandIsOneLine(args: seq<string>)
    ensures !HasControl(ScriptJoin(args))
  {
    hide HasControl, AnsiBody, SingleQuotedBody, Joined;
    forall i | 0 <= i < |args| ensures !HasControl(ScriptQuoted(args[i])) {
      QuotedHasNoControl(args[i]);
    }
    JoinedHasNoControl(seq(|args|, i requires 0 <= i < |args| => ScriptQuoted(args[i])));
  }

  lemma QuotedHasNoControl(s: string)
    ensures !HasControl(ScriptQuoted(s))
  {
    hide AnsiBody, SingleQuotedBody, AllSafe;
    AnsiBodyHasNoControl(s);
    if !HasControl(s) {
      SingleBodyHasNoControl(s);
    }
  }

  // ---- Bytes determine the arguments -----------------------------------------------------------------

  /** No character's bytes begin another's. */
  lemma EncodeIsPrefixFree(c: char, d: char, x: Word, y: Word)
    requires Encode(c) + x == Encode(d) + y
    ensures c == d && x == y
  {
    var e, f := Encode(c), Encode(d);
    assert (e + x)[0] == e[0] && (f + y)[0] == f[0];
    assert |e| == |f|;
    assert e == (e + x)[..|e|] && f == (f + y)[..|f|];
    assert x == (e + x)[|e|..] && y == (f + y)[|f|..];
    SameBytes(c, d);
  }

  lemma SameBytes(c: char, d: char)
    requires Encode(c) == Encode(d)
    ensures c == d
  {
    hide Encode, Decode;
    DecodeEncoded(c);
    DecodeEncoded(d);
  }

  function Decode(w: Word): int {
    var b := (i: nat) requires i < |w| => w[i] as int;
    match |w|
    case 1 => b(0)
    case 2 => (b(0) - 0xC0) * 0x40 + (b(1) - 0x80)
    case 3 => (b(0) - 0xE0) * 0x1000 + (b(1) - 0x80) * 0x40 + (b(2) - 0x80)
    case 4 => (b(0) - 0xF0) * 0x4_0000 + (b(1) - 0x80) * 0x1000 + (b(2) - 0x80) * 0x40 + (b(3) - 0x80)
    case _ => -1
  }

  lemma DecodeEncoded(c: char)
    ensures Decode(Encode(c)) == c as int
  {
    var n := c as int;
    assert n == n / 0x40 * 0x40 + n % 0x40;
    assert n / 0x40 == n / 0x1000 * 0x40 + n / 0x40 % 0x40;
    assert n / 0x1000 == n / 0x4_0000 * 0x40 + n / 0x1000 % 0x40;
  }

  lemma SomeBytes(s: string)
    requires s != ""
    ensures Bytes(s) != []
  {
  }

  lemma {:induction false} BytesAreInjective(s: string, t: string)
    requires Bytes(s) == Bytes(t)
    ensures s == t
  {
    if s != [] && t != [] {
      EncodeIsPrefixFree(s[0], t[0], Bytes(s[1..]), Bytes(t[1..]));
      BytesAreInjective(s[1..], t[1..]);
      assert s == [s[0]] + s[1..] && t == [t[0]] + t[1..];
    } else if s != [] {
      SomeBytes(s);
    } else if t != [] {
      SomeBytes(t);
    }
  }

  /** Two argument lists with the same words are the same. */
  lemma AllBytesAreInjective(a: seq<string>, b: seq<string>)
    requires AllBytes(a) == AllBytes(b)
    ensures a == b
  {
    forall i | 0 <= i < |a| ensures a[i] == b[i] {
      assert AllBytes(a)[i] == Bytes(a[i]) && AllBytes(b)[i] == Bytes(b[i]);
      BytesAreInjective(a[i], b[i]);
    }
  }
}
