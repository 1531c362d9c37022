/**
 Recording a command and running it again: the part of the process's arguments that
 a session keeps, the line it is written as, and what a replay of that line keeps.
 */
module CommandLine {
  import opened Wrappers
  import opened Shell

  /** A global flag: its long name, its short one, and whether it takes a value. */
  datatype GlobalFlag = GlobalFlag(long: string, short: Option<char>, takesValue: bool)

  const GLOBAL_FLAGS: seq<GlobalFlag> := [
    GlobalFlag("format", Some('F'), true),
    GlobalFlag("session", None, true),
    GlobalFlag("quiet", None, false),
    GlobalFlag("verbose", None, false),
    GlobalFlag("max-memory", None, true)]

  function FindLong(flags: seq<GlobalFlag>, long: string): Option<GlobalFlag> {
    if flags == [] then None
    else if flags[0].long == long then Some(flags[0])
    else FindLong(flags[1..], long)
  }

  function FindShort(flags: seq<GlobalFlag>, short: char): Option<GlobalFlag> {
    if flags == [] then None
    else if flags[0].short == Some(short) then Some(flags[0])
    else FindShort(flags[1..], short)
  }

  /** `str::split_once('=')`: what stands before the first `=`, or `None` without one. */
  function BeforeEquals(s: string): Option<string> {
    if s == "" then None
    else if s[0] == '=' then Some("")
    else match BeforeEquals(s[1..])
      case None => None
      case Some(rest) => Some([s[0]] + rest)
  }

  /** The tokens a global flag occupies when `tok` is one. */
  function GlobalFlagWidth(tok: string): Option<nat> {
    if "--" <= tok then
      var rest := tok[2..];
      var long := BeforeEquals(rest);
      var flag := FindLong(GLOBAL_FLAGS, if long.Some? then long.value else rest);
      if flag.None? then None
      else if flag.value.takesValue then Some(if long.Some? then 1 else 2)
      else if long.Some? then None else Some(1)
    else if "-" <= tok && |tok| > 1 then
      var flag := FindShort(GLOBAL_FLAGS, tok[1]);
      if flag.None? then None
      else if flag.value.takesValue then Some(if |tok| == 2 then 2 else 1)
      else if |tok| == 2 then Some(1) else None
    else None
  }

  lemma WidthIsPositive(tok: string)
    ensures GlobalFlagWidth(tok).Some? ==> 1 <= GlobalFlagWidth(tok).value <= 2
  {
  }

  // ---- `command_argv` ------------------------------------------------------------------------

  /** The first token from `i` on that is neither a global flag nor the value of one. */
  function SkipGlobals(tokens: seq<string>, i: nat): (r: nat)
    ensures r >= i
    ensures r < |tokens| ==> GlobalFlagWidth(tokens[r]).None?
    decreases |tokens| - i
  {
    if i >= |tokens| then i
    else
      match GlobalFlagWidth(tokens[i])
      case None => i
      case Some(width) => (WidthIsPositive(tokens[i]); SkipGlobals(tokens, i + width))
  }

  function From(tokens: seq<string>, i: nat): (r: seq<string>)
    ensures |r| == if i <= |tokens| then |tokens| - i else 0
  {
    if i <= |tokens| then tokens[i..] else []
  }

  /** The tokens without `--session` and its value, in both forms, up to a `--`. */
  function WithoutSession(tokens: seq<string>): seq<string>
    decreases |tokens|
  {
    if tokens == [] then []
    else if tokens[0] == "--" then tokens
    else if tokens[0] == "--session" then WithoutSession(From(tokens, 2))
    else if "--session=" <= tokens[0] then WithoutSession(tokens[1..])
    else [tokens[0]] + WithoutSession(tokens[1..])
  }

  /** What a session records of the process's arguments. */
  function CommandArgv(raw: seq<string>): seq<string> {
    WithoutSession(From(raw, SkipGlobals(raw, 1)))
  }

  method ExtractCommandArgv(raw: seq<string>) returns (out: seq<string>)
    ensures out == CommandArgv(raw)
  {
    hide GlobalFlagWidth, WithoutSession, From;
    var i := 1;
    while i < |raw|
      invariant SkipGlobals(raw, 1) == SkipGlobals(raw, i)
      decreases |raw| - i
    {
      var width := GlobalFlagWidth(raw[i]);
      if width.None? {
        break;
      }
      WidthIsPositive(raw[i]);
      i := i + width.value;
    }
    assert SkipGlobals(raw, 1) == i;
    out := [];
    assert CommandArgv(raw) == out + WithoutSession(From(raw, i));
    while i < |raw|
      invariant CommandArgv(raw) == out + WithoutSession(From(raw, i))
      decreases |raw| - i
    {
      var tok := raw[i];
      NextToken(raw, i);
      i := i + 1;
      if tok == "--" {
        out := out + [tok] + raw[i..];
        assert [tok] + raw[i..] == raw[i - 1..];
        return;
      }
      if tok == "--session" {
        i := i + 1;
      } else if !("--session=" <= tok) {
        out := out + [tok];
      }
    }
    NoTokenLeft(raw, i);
  }

  lemma NoTokenLeft(raw: seq<string>, i: nat)
    requires i >= |raw|
    ensures WithoutSession(From(raw, i)) == []
  {
  }

  lemma NextToken(raw: seq<string>, i: nat)
    requires i < |raw|
    ensures WithoutSession(From(raw, i)) ==
      if raw[i] == "--" then raw[i..]
      else if raw[i] == "--session" then WithoutSession(From(raw, i + 2))
      else if "--session=" <= raw[i] then WithoutSession(From(raw, i + 1))
      else [raw[i]] + WithoutSession(From(raw, i + 1))
  {
    assert From(raw, i)[0] == raw[i] && From(raw, i)[1..] == From(raw, i + 1);
    assert From(From(raw, i), 2) == From(raw, i + 2);
  }

  // ---- The normal form ---------------------------------------------------------------------------

  /** No `--session` in either form before the first `--`. */
  predicate IsSessionFree(tokens: seq<string>) {
    tokens == [] || tokens[0] == "--"
    || (tokens[0] != "--session" && !("--session=" <= tokens[0]) && IsSessionFree(tokens[1..]))
  }

  predicate IsSubsequence(s: seq<string>, t: seq<string>) {
    s == [] || (t != [] && ((s[0] == t[0] && IsSubsequence(s[1..], t[1..])) || IsSubsequence(s, t[1..])))
  }

  lemma {:induction false} WholeIsSubsequence(t: seq<string>)
    ensures IsSubsequence(t, t)
  {
    if t != [] {
      WholeIsSubsequence(t[1..]);
    }
  }

  lemma {:induction false} SubsequenceOfLonger(s: seq<string>, t: seq<string>, i: nat)
    requires IsSubsequence(s, From(t, i))
    ensures IsSubsequence(s, t)
    decreases i
  {
    if 0 < i && t != [] {
      assert From(t[1..], i - 1) == From(t, i);
      SubsequenceOfLonger(s, t[1..], i - 1);
    } else if i == 0 {
      assert From(t, 0) == t;
    }
  }

  lemma {:induction false} WithoutSessionIsClean(tokens: seq<string>)
    ensures IsSessionFree(WithoutSession(tokens)) && IsSubsequence(WithoutSession(tokens), tokens)
    decreases |tokens|
  {
    if tokens == [] {
    } else if tokens[0] == "--" {
      WholeIsSubsequence(tokens);
    } else if tokens[0] == "--session" {
      WithoutSessionIsClean(From(tokens, 2));
      SubsequenceOfLonger(WithoutSession(tokens), tokens, 2);
    } else {
      WithoutSessionIsClean(tokens[1..]);
    }
  }

  lemma {:induction false} CleanStays(tokens: seq<string>)
    requires IsSessionFree(tokens)
    ensures WithoutSession(tokens) == tokens
  {
    if tokens != [] && tokens[0] != "--" {
      CleanStays(tokens[1..]);
    }
  }

  lemma SessionFlagWidths(tok: string)
    ensures GlobalFlagWidth("--session") == Some(2)
    ensures "--session=" <= tok ==> GlobalFlagWidth(tok) == Some(1)
  {
    hide FindLong, BeforeEquals;
    SessionIsAGlobal();
    NoEquals("session");
    assert "--session"[2..] == "session";
    if "--session=" <= tok {
      SplitsAtEquals("session", tok[10..]);
      assert tok[2..] == "session" + "=" + tok[10..];
    }
  }

  lemma SessionIsAGlobal()
    ensures FindLong(GLOBAL_FLAGS, "session") == Some(GlobalFlag("session", None, true))
  {
    assert |"format"| == 6 && |"session"| == 7;
  }

  lemma {:induction false} NoEquals(s: string)
    requires forall i :: 0 <= i < |s| ==> s[i] != '='
    ensures BeforeEquals(s) == None
  {
    if s != "" {
      NoEquals(s[1..]);
    }
  }

  lemma {:induction false} SplitsAtEquals(s: string, value: string)
    requires forall i :: 0 <= i < |s| ==> s[i] != '='
    ensures BeforeEquals(s + "=" + value) == Some(s)
  {
    var whole := s + "=" + value;
    if s != "" {
      SplitsAtEquals(s[1..], value);
      assert whole[1..] == s[1..] + "=" + value;
      assert s == [s[0]] + s[1..];
    }
  }

  /** `tok` is a way of writing `flag` that takes `width` tokens. */
  predicate IsForm(tok: string, flag: GlobalFlag, width: nat) {
    || (tok == "--" + flag.long && width == (if flag.takesValue then 2 else 1))
    || (flag.takesValue && ("--" + flag.long + "=") <= tok && width == 1)
    || (flag.short.Some? && tok == ['-', flag.short.value] && width == (if flag.takesValue then 2 else 1))
    || (flag.short.Some? && flag.takesValue && ['-', flag.short.value] < tok && width == 1)
  }

  lemma {:induction false} FindLongIff(flags: seq<GlobalFlag>, long: string)
    ensures FindLong(flags, long).Some? ==> FindLong(flags, long).value in flags && FindLong(flags, long).value.long == long
    ensures FindLong(flags, long).None? ==> forall f :: f in flags ==> f.long != long
  {
    if flags != [] {
      FindLongIff(flags[1..], long);
    }
  }

  lemma {:induction false} FindShortIff(flags: seq<GlobalFlag>, short: char)
    ensures FindShort(flags, short).Some? ==> FindShort(flags, short).value in flags && FindShort(flags, short).value.short == Some(short)
    ensures FindShort(flags, short).None? ==> forall f :: f in flags ==> f.short != Some(short)
  {
    if flags != [] {
      FindShortIff(flags[1..], short);
    }
  }

  lemma {:induction false} EqualsSplits(s: string)
    ensures BeforeEquals(s).Some? ==> BeforeEquals(s).value + "=" <= s && '=' !in BeforeEquals(s).value
    ensures BeforeEquals(s).None? ==> '=' !in s
  {
    if s != "" && s[0] != '=' {
      EqualsSplits(s[1..]);
      assert s == [s[0]] + s[1..];
      if BeforeEquals(s[1..]).Some? {
        var rest := BeforeEquals(s[1..]).value;
        assert [s[0]] + rest + "=" == [s[0]] + (rest + "=");
      }
    }
  }

  /** A token recognised as a global flag is one of its documented forms. */
  lemma WidthIsAForm(tok: string)
    requires GlobalFlagWidth(tok).Some?
    ensures exists flag :: flag in GLOBAL_FLAGS && IsForm(tok, flag, GlobalFlagWidth(tok).value)
  {
    if "--" <= tok {
      var rest := tok[2..];
      assert tok == "--" + rest;
      EqualsSplits(rest);
      var long := BeforeEquals(rest);
      FindLongIff(GLOBAL_FLAGS, if long.Some? then long.value else rest);
      hide BeforeEquals;
      var flag := FindLong(GLOBAL_FLAGS, if long.Some? then long.value else rest).value;
      if long.Some? {
        assert "--" + flag.long + "=" == "--" + (long.value + "=");
      }
      assert IsForm(tok, flag, GlobalFlagWidth(tok).value);
    } else {
      FindShortIff(GLOBAL_FLAGS, tok[1]);
      var flag := FindShort(GLOBAL_FLAGS, tok[1]).value;
      assert tok[..2] == ['-', tok[1]];
      assert IsForm(tok, flag, GlobalFlagWidth(tok).value);
    }
  }

  lemma TableFinds(flag: GlobalFlag)
    requires flag in GLOBAL_FLAGS
    ensures FindLong(GLOBAL_FLAGS, flag.long) == Some(flag) && '=' !in flag.long
    ensures flag.short.Some? ==> FindShort(GLOBAL_FLAGS, flag.short.value) == Some(flag) && flag.short.value != '-'
  {
    assert |"format"| == 6 && |"session"| == 7 && |"quiet"| == 5 && |"verbose"| == 7 && |"max-memory"| == 10;
    assert "session"[0] == 's' && "verbose"[0] == 'v';
  }

  /** And every documented form of a global flag is recognised, with its width. */
  lemma {:induction false} FormIsRecognised(tok: string, flag: GlobalFlag, width: nat)
    requires flag in GLOBAL_FLAGS && IsForm(tok, flag, width)
    ensures GlobalFlagWidth(tok) == Some(width)
  {
    hide BeforeEquals, FindLong, FindShort;
    TableFinds(flag);
    if tok == "--" + flag.long {
      assert tok[2..] == flag.long && tok[1] == '-';
      assert |"--" + flag.long + "="| > |tok|;
      NoEquals(flag.long);
    } else if flag.takesValue && ("--" + flag.long + "=") <= tok {
      var value := tok[|flag.long| + 3..];
      assert tok[2..] == flag.long + "=" + value;
      SplitsAtEquals(flag.long, value);
    } else {
      assert tok[1] == flag.short.value && tok[0] == '-';
      assert !("--" <= tok) && tok[..1] == "-";
    }
  }

  /** The forms with a value in the same token. */
  predicate HasInlineValue(tok: string) {
    "--format=" <= tok || "--session=" <= tok || "--max-memory=" <= tok || "-F" < tok
  }

  /** So the global flags are these, letter by letter. */
  lemma {:induction false} GlobalTokens(tok: string)
    ensures GlobalFlagWidth(tok) == Some(2) <==> tok in ["--format", "--session", "--max-memory", "-F"]
    ensures GlobalFlagWidth(tok) == Some(1) <==> tok in ["--quiet", "--verbose"] || HasInlineValue(tok)
    ensures GlobalFlagWidth(tok).None? || GlobalFlagWidth(tok).value in [1, 2]
  {
    hide GlobalFlagWidth, IsForm, HasInlineValue;
    if GlobalFlagWidth(tok).Some? {
      WidthIsAForm(tok);
      var flag :| flag in GLOBAL_FLAGS && IsForm(tok, flag, GlobalFlagWidth(tok).value);
      FormIsAToken(tok, flag, GlobalFlagWidth(tok).value);
    }
    if tok in ["--format", "--session", "--max-memory", "-F"] {
      TokenIsRecognised(tok, 2);
    }
    if tok in ["--quiet", "--verbose"] || HasInlineValue(tok) {
      TokenIsRecognised(tok, 1);
    }
  }

  lemma {:induction false} TokenIsRecognised(tok: string, width: nat)
    requires (width == 2 && tok in ["--format", "--session", "--max-memory", "-F"])
             || (width == 1 && (tok in ["--quiet", "--verbose"] || HasInlineValue(tok)))
    ensures GlobalFlagWidth(tok) == Some(width)
  {
    hide GlobalFlagWidth, IsForm;
    TokenForms(tok);
    var flag :| flag in GLOBAL_FLAGS && IsForm(tok, flag, width);
    FormIsRecognised(tok, flag, width);
  }

  lemma {:induction false} FormIsAToken(tok: string, flag: GlobalFlag, width: nat)
    requires flag in GLOBAL_FLAGS && IsForm(tok, flag, width)
    ensures (width == 2 && tok in ["--format", "--session", "--max-memory", "-F"])
            || (width == 1 && (tok in ["--quiet", "--verbose"] || HasInlineValue(tok)))
  {
    assert "--" + "format" == "--format" && "--" + "format" + "=" == "--format=" && ['-', 'F'] == "-F";
    assert "--" + "session" == "--session" && "--" + "session" + "=" == "--session=";
    assert "--" + "max-memory" == "--max-memory" && "--" + "max-memory" + "=" == "--max-memory=";
    assert "--" + "quiet" == "--quiet" && "--" + "verbose" == "--verbose";
  }

  lemma TokenForms(tok: string)
    ensures tok in ["--format", "-F"] ==> IsForm(tok, GlobalFlag("format", Some('F'), true), 2)
    ensures tok == "--session" ==> IsForm(tok, GlobalFlag("session", None, true), 2)
    ensures tok == "--max-memory" ==> IsForm(tok, GlobalFlag("max-memory", None, true), 2)
    ensures tok == "--quiet" ==> IsForm(tok, GlobalFlag("quiet", None, false), 1)
    ensures tok == "--verbose" ==> IsForm(tok, GlobalFlag("verbose", None, false), 1)
    ensures "--format=" <= tok || "-F" < tok ==> IsForm(tok, GlobalFlag("format", Some('F'), true), 1)
    ensures "--session=" <= tok ==> IsForm(tok, GlobalFlag("session", None, true), 1)
    ensures "--max-memory=" <= tok ==> IsForm(tok, GlobalFlag("max-memory", None, true), 1)
  {
    assert "--" + "format" == "--format" && "--" + "format" + "=" == "--format=" && ['-', 'F'] == "-F";
    assert "--" + "session" == "--session" && "--" + "session" + "=" == "--session=";
    assert "--" + "max-memory" == "--max-memory" && "--" + "max-memory" + "=" == "--max-memory=";
    assert "--" + "quiet" == "--quiet" && "--" + "verbose" == "--verbose";
  }

  lemma {:induction false} KeptUpTo(a: seq<string>, rest: seq<string>)
    requires IsSessionFree(a) && "--" !in a
    ensures WithoutSession(a + rest) == a + WithoutSession(rest)
  {
    if a == [] {
      assert a + rest == rest;
    } else {
      KeptUpTo(a[1..], rest);
      assert (a + rest)[1..] == a[1..] + rest;
      assert [a[0]] + (a[1..] + WithoutSession(rest)) == a + WithoutSession(rest);
    }
  }

  /** Nothing but `--session` and its value is left out, up to a `--`; all of the rest is kept as typed. */
  lemma OnlySessionIsLeftOut(a: seq<string>, v: string, b: seq<string>)
    requires IsSessionFree(a) && "--" !in a
    ensures WithoutSession(a) == a
    ensures WithoutSession(a + (["--session", v] + b)) == a + WithoutSession(b)
    ensures WithoutSession(a + (["--session=" + v] + b)) == a + WithoutSession(b)
    ensures WithoutSession(a + (["--"] + b)) == a + (["--"] + b)
    ensures WithoutSession(a + ["--session"]) == a
  {
    hide IsSessionFree;
    KeptUpTo(a, ["--session"]);
    assert WithoutSession(["--session"]) == [] && a + [] == a;
    CleanStays(a);
    var x, y, z := ["--session", v] + b, ["--session=" + v] + b, ["--"] + b;
    KeptUpTo(a, x);
    KeptUpTo(a, y);
    KeptUpTo(a, z);
    assert From(x, 2) == b && y[1..] == b;
  }

  /** Global flags with their values, and nothing else. */
  predicate IsGlobals(tokens: seq<string>)
    decreases |tokens|
  {
    tokens == [] || (var width := GlobalFlagWidth(tokens[0]);
                     width.Some? && 0 < width.value <= |tokens| && IsGlobals(tokens[width.value..]))
  }

  lemma {:induction false} SkipsGlobals(before: seq<string>, globals: seq<string>, command: seq<string>)
    requires IsGlobals(globals) && (command != [] ==> GlobalFlagWidth(command[0]).None?)
    ensures SkipGlobals(before + globals + command, |before|) == |before| + |globals|
    decreases |globals|
  {
    hide GlobalFlagWidth;
    var all := before + globals + command;
    if globals == [] {
      assert all == before + command;
    } else {
      var width := GlobalFlagWidth(globals[0]).value;
      var next := before + globals[..width];
      SkipsGlobals(next, globals[width..], command);
      assert next + globals[width..] + command == all;
      assert all[|before|] == globals[0];
    }
  }

  /** The globals before the command are left out with their values, and only they. */
  lemma {:induction false} LeadingGlobalsAreLeftOut(program: string, globals: seq<string>, command: seq<string>)
    requires IsGlobals(globals) && (command != [] ==> GlobalFlagWidth(command[0]).None?)
    ensures CommandArgv([program] + globals + command) == WithoutSession(command)
  {
    hide GlobalFlagWidth, WithoutSession;
    SkipsGlobals([program], globals, command);
    assert From([program] + globals + command, 1 + |globals|) == command;
  }

  /** The recorded arguments start with the command: never with a global flag. */
  lemma RecordedStartsWithCommand(raw: seq<string>)
    ensures CommandArgv(raw) != [] ==> GlobalFlagWidth(CommandArgv(raw)[0]).None?
  {
    hide GlobalFlagWidth;
    var i := SkipGlobals(raw, 1);
    if i < |raw| {
      SessionFlagWidths(raw[i]);
    }
  }

  /**
   What is recorded survives its replay: run again as `p2a --session S` and the
   recorded arguments, for any `S`, the program records the same arguments.
   */
  lemma {:induction false} ReplayRecordsTheSame(raw: seq<string>, session: string)
    ensures var argv := CommandArgv(raw);
      && CommandArgv(["p2a", "--session", session] + argv) == argv
      && IsSessionFree(argv) && IsSubsequence(argv, raw)
  {
    hide GlobalFlagWidth;
    var argv := CommandArgv(raw);
    var replay := ["p2a", "--session", session] + argv;
    var i := SkipGlobals(raw, 1);
    RecordedStartsWithCommand(raw);
    SessionFlagWidths("");
    assert SkipGlobals(replay, 1) == SkipGlobals(replay, 3);
    assert SkipGlobals(replay, 3) == 3;
    assert From(replay, 3) == argv;
    WithoutSessionIsClean(From(raw, i));
    CleanStays(argv);
    SubsequenceOfLonger(argv, raw, i);
  }

  /**
   The whole way round: bash reads the line a script holds for a recorded command as
   words that, with the session variable's value in, can only be the program, the
   session option and the recorded arguments; running them records them again.
   */
  lemma {:induction false} ExportedScriptReplays(raw: seq<string>, session: string, replayed: seq<string>)
    requires AllNulFree(raw)
    ensures var argv := CommandArgv(raw);
      var words := Read(ScriptLine(argv));
      && Read(ScriptJoin(argv)) == Some(AllBytes(argv)) && !HasControl(ScriptJoin(argv))
      && words.Some?
      && Expanded(words.value, Bytes(session)) == AllBytes(["p2a", "--session", session] + argv)
      && (Expanded(words.value, Bytes(session)) == AllBytes(replayed) ==>
            replayed == ["p2a", "--session", session] + argv && CommandArgv(replayed) == argv)
  {
    hide Read, ScriptJoin, ScriptLine, AllBytes, CommandArgv, NulFree, HasControl, Expanded, LineWords, Bytes;
    var argv := CommandArgv(raw);
    ReplayRecordsTheSame(raw, session);
    SubsequenceIsNulFree(argv, raw);
    ScriptJoinReadsBack(argv);
    ScriptLineReadsBack(argv);
    LineWordsExpand(argv, session);
    ScriptCommandIsOneLine(argv);
    if Expanded(LineWords(argv), Bytes(session)) == AllBytes(replayed) {
      AllBytesAreInjective(replayed, ["p2a", "--session", session] + argv);
    }
  }

  lemma {:induction false} SubsequenceIsNulFree(s: seq<string>, t: seq<string>)
    requires IsSubsequence(s, t) && AllNulFree(t)
    ensures AllNulFree(s)
  {
    hide NulFree;
    if s != [] {
      AllNulFreeHead(s);
      AllNulFreeHead(t);
      if s[0] == t[0] && IsSubsequence(s[1..], t[1..]) {
        SubsequenceIsNulFree(s[1..], t[1..]);
      } else {
        SubsequenceIsNulFree(s, t[1..]);
      }
    }
  }

  // ---- The session -----------------------------------------------------------------------------------

  datatype CommandRecord = CommandRecord(
    commandLine: string,
    category: string,
    subcommand: string,
    argv: seq<string>,
    success: bool,
    error: Option<string>,
    durationMs: nat)

  /** `slice::get`, the empty string when there is none. */
  function TokenAt(argv: seq<string>, i: nat): string {
    if i < |argv| then argv[i] else ""
  }

  class SessionManager {
    var commands: seq<CommandRecord>
    var commandStart: Option<nat>

    constructor ()
      ensures commands == [] && commandStart == None
    {
      commands, commandStart := [], None;
    }

    method StartCommand(now: nat)
      modifies this
      ensures commandStart == Some(now) && commands == old(commands)
    {
      commandStart := Some(now);
    }

    /** An empty argument list records nothing and leaves the timer running. */
    method RecordInvocation(argv: seq<string>, success: bool, error: Option<string>, now: nat)
      requires commandStart.Some? ==> commandStart.value <= now
      modifies this
      ensures argv == [] ==> commands == old(commands) && commandStart == old(commandStart)
      ensures argv != [] ==> commandStart == None
      ensures argv != [] ==>
        && |commands| == |old(commands)| + 1 && commands[..|old(commands)|] == old(commands)
        && var record := commands[|old(commands)|];
        && record.argv == argv && record.commandLine == ShellJoin(argv)
        && record.category == argv[0] && record.subcommand == TokenAt(argv, SkipGlobals(argv, 1))
        && record.success == success && record.error == error
        && record.durationMs == if old(commandStart).Some? then now - old(commandStart).value else 0
    {
      hide GlobalFlagWidth, ShellJoin;
      if argv == [] {
        return;
      }
      var durationMs := if commandStart.Some? then now - commandStart.value else 0;
      var i := 1;
      while i < |argv| && GlobalFlagWidth(argv[i]).Some?
        invariant SkipGlobals(argv, 1) == SkipGlobals(argv, i)
        invariant commands == old(commands)
        decreases |argv| - i
      {
        WidthIsPositive(argv[i]);
        i := i + GlobalFlagWidth(argv[i]).value;
      }
      assert SkipGlobals(argv, i) == i;
      var record := CommandRecord(ShellJoin(argv), argv[0], TokenAt(argv, i), argv, success, error, durationMs);
      commands := commands + [record];
      commandStart := None;
    }
  }

  /** The recorded line reads back to the recorded arguments, whose first token after the category that is no global is the subcommand. */
  lemma {:induction false} RecordReadsBack(raw: seq<string>)
    requires AllNulFree(raw) && CommandArgv(raw) != []
    ensures var argv := CommandArgv(raw);
      var subcommand := TokenAt(argv, SkipGlobals(argv, 1));
      && Read(ShellJoin(argv)) == Some(AllBytes(argv))
      && GlobalFlagWidth(argv[0]).None?
      && (subcommand != "" ==> subcommand in argv[1..] && GlobalFlagWidth(subcommand).None?)
  {
    hide Read, ShellJoin, AllBytes, NulFree, GlobalFlagWidth, CommandArgv;
    var argv := CommandArgv(raw);
    ReplayRecordsTheSame(raw, "");
    SubsequenceIsNulFree(argv, raw);
    ShellJoinReadsBack(argv);
    RecordedStartsWithCommand(raw);
    var i := SkipGlobals(argv, 1);
    if i < |argv| {
      assert argv[1..][i - 1] == argv[i];
    }
  }
}
