/**
 The linter's search for test functions: each match of `fn test_*` in the scanned code
 is paired with the block of braces that follows it.

 `find` stands for the regular expression; what a match of it looks like plays no part.
 */
module TestBodies {
  import opened Wrappers
  import opened RustScanner
  import opened RustRescan

  datatype Match = Match(name: string, start: nat, end: nat)

  datatype Test = Test(name: string, line: nat, brace: nat, end: nat)

  function Newlines(s: string): nat {
    if s == "" then 0 else Newlines(s[..|s| - 1]) + (if s[|s| - 1] == '\n' then 1 else 0)
  }

  function Before(s: string, p: nat): string {
    if p <= |s| then s[..p] else s
  }

  function Brace(c: char): int {
    if c == '{' then 1 else if c == '}' then -1 else 0
  }

  /** How many more braces open than close. */
  function Depth(s: string): int {
    if s == "" then 0 else Depth(s[..|s| - 1]) + Brace(s[|s| - 1])
  }

  /** Where the block ends, `depth` braces being open before `j`; the length when it never does. */
  function Close(code: string, j: nat, depth: nat): (r: nat)
    requires j <= |code|
    ensures j <= r <= |code|
    decreases |code| - j
  {
    if j == |code| then j
    else
      var after := depth + Brace(code[j]);
      if after <= 0 then j + 1 else Close(code, j + 1, after)
  }

  function TestAt(code: string, m: Match): Option<Test> {
    var brace, semi := Find(code, m.end, "{"), Find(code, m.end, ";");
    if brace == |code| || semi < brace then None
    else Some(Test(m.name, Newlines(Before(code, m.start)) + 1, brace, Close(code, brace, 0)))
  }

  function Tests(code: string, matches: seq<Match>): seq<Test> {
    if matches == [] then []
    else
      var last := TestAt(code, matches[|matches| - 1]);
      Tests(code, matches[..|matches| - 1]) + (if last.Some? then [last.value] else [])
  }

  // ---- The program ------------------------------------------------------------------------

  /** The loop over the braces. */
  method BodyEnd(code: string, brace: nat) returns (end: nat)
    requires brace < |code| && code[brace] == '{'
    ensures end == Close(code, brace, 0)
  {
    var depth, j := 0, brace;
    end := |code|;
    while j < |code|
      invariant brace <= j <= |code| && end == |code| && depth >= 0
      invariant j > brace ==> depth > 0
      invariant Close(code, brace, 0) == Close(code, j, depth)
    {
      if code[j] == '{' || code[j] == '}' {
        depth := depth + if code[j] == '{' then 1 else -1;
        if depth == 0 {
          end := j + 1;
          break;
        }
      }
      j := j + 1;
    }
  }

  /** `test_functions`. */
  method TestFunctions(text: string, find: string -> seq<Match>)
    returns (tests: seq<Test>, keep: string, comments: seq<(nat, nat)>)
    ensures exists code :: IsScan(text, code, keep, comments) && tests == Tests(code, find(code))
  {
    hide TestAt, Blanked, Segments, LineComments;
    var code;
    code, keep, comments := ScanRust(text);
    assert IsScan(text, code, keep, comments);
    var matches := find(code);
    tests := [];
    for i := 0 to |matches|
      invariant tests == Tests(code, matches[..i])
    {
      var m := matches[i];
      assert matches[..i + 1][..i] == matches[..i];
      assert Tests(code, matches[..i + 1]) == tests + (if TestAt(code, m).Some? then [TestAt(code, m).value] else []);
      var test := FindBody(code, m);
      if test.Some? {
        tests := tests + [test.value];
      }
    }
    assert matches[..|matches|] == matches;
  }

  lemma FindChar(code: string, from: nat, c: char)
    ensures var r := Find(code, from, [c]);
      && (r < |code| ==> from <= r && code[r] == c)
      && forall k :: from <= k < r && k < |code| ==> code[k] != c
  {
    forall k | 0 <= k < |code|
      ensures StartsAt(code, k, [c]) <==> code[k] == c
    {
      assert code[k..k + 1] == [code[k]];
    }
  }

  method FindBody(code: string, m: Match) returns (test: Option<Test>)
    ensures test == TestAt(code, m)
  {
    var brace, semi := Find(code, m.end, "{"), Find(code, m.end, ";");
    if brace == |code| || semi < brace {
      return None;
    }
    FindChar(code, m.end, '{');
    var end := BodyEnd(code, brace);
    test := Some(Test(m.name, Newlines(Before(code, m.start)) + 1, brace, end));
  }

  // ---- What a body is ---------------------------------------------------------------------

  /** Every brace opened at or after `brace` is closed at `end` and not before, or the code ends first. */
  ghost predicate IsBody(code: string, brace: nat, end: nat) {
    && brace < end <= |code|
    && (end == |code| || Depth(code[brace..end]) == 0)
    && forall k :: brace < k < end ==> Depth(code[brace..k]) > 0
  }

  lemma DepthNext(code: string, i: nat, j: nat)
    requires i <= j < |code|
    ensures Depth(code[i..j + 1]) == Depth(code[i..j]) + Brace(code[j])
  {
    assert code[i..j + 1][..j - i] == code[i..j];
  }

  lemma {:induction false} DepthSplits(code: string, i: nat, j: nat, k: nat)
    requires i <= j <= k <= |code|
    ensures Depth(code[i..k]) == Depth(code[i..j]) + Depth(code[j..k])
    decreases k - j
  {
    if j < k {
      DepthSplits(code, i, j, k - 1);
      DepthNext(code, i, k - 1);
      DepthNext(code, j, k - 1);
    }
  }

  lemma {:induction false} CloseIsABody(code: string, brace: nat, j: nat)
    requires brace < |code| && code[brace] == '{' && brace <= j <= |code|
    requires forall k :: brace < k <= j ==> Depth(code[brace..k]) > 0
    ensures IsBody(code, brace, Close(code, j, if j == brace then 0 else Depth(code[brace..j])))
    decreases |code| - j
  {
    hide Depth;
    if j < |code| {
      DepthNext(code, brace, j);
      assert Depth(code[brace..brace]) == 0 by {
        assert code[brace..brace] == "";
        NoDepth();
      }
      if Depth(code[brace..j + 1]) > 0 {
        CloseIsABody(code, brace, j + 1);
      }
    }
  }

  lemma NoDepth()
    ensures Depth("") == 0
  {
  }

  /** A body's end is the one place where its braces balance for the first time. */
  lemma {:induction false} BodyIsUnique(code: string, brace: nat, end: nat)
    requires brace < |code| && code[brace] == '{'
    ensures end == Close(code, brace, 0) <==> IsBody(code, brace, end)
  {
    hide Depth, Close;
    CloseIsABody(code, brace, brace);
  }

  /** A match is a test exactly when a block opens before the next semicolon. */
  lemma {:induction false} TestHasABody(code: string, m: Match)
    ensures TestAt(code, m).Some? <==>
      exists b :: m.end <= b < |code| && code[b] == '{' && forall k :: m.end <= k < b ==> code[k] != ';'
    ensures TestAt(code, m).Some? ==>
      var t := TestAt(code, m).value;
      && m.end <= t.brace < |code| && code[t.brace] == '{' && IsBody(code, t.brace, t.end)
      && forall k :: m.end <= k < t.brace ==> code[k] != '{' && code[k] != ';'
  {
    hide IsBody, Close;
    FindChar(code, m.end, '{');
    FindChar(code, m.end, ';');
    if TestAt(code, m).Some? {
      var t := TestAt(code, m).value;
      BodyIsUnique(code, t.brace, t.end);
    }
  }

  /** A block opens behind the match before the next semicolon. */
  ghost predicate OpensBlock(code: string, m: Match) {
    exists b :: m.end <= b < |code| && code[b] == '{' && forall k :: m.end <= k < b ==> code[k] != ';'
  }

  /** The positions of the matches that have a block, in order. */
  ghost function WithBlock(code: string, matches: seq<Match>): (r: seq<nat>)
    ensures forall k :: 0 <= k < |r| ==> r[k] < |matches| && OpensBlock(code, matches[r[k]])
    ensures forall j, k :: 0 <= j < k < |r| ==> r[j] < r[k]
    ensures forall i :: 0 <= i < |matches| && OpensBlock(code, matches[i]) ==> i in r
  {
    if matches == [] then []
    else
      var n := |matches| - 1;
      WithBlock(code, matches[..n]) + if OpensBlock(code, matches[n]) then [n] else []
  }

  /** The test of a match: its name and line, and the first block behind it. */
  ghost predicate IsTestOf(code: string, m: Match, t: Test) {
    && t.name == m.name && t.line == Newlines(Before(code, m.start)) + 1
    && m.end <= t.brace < |code| && code[t.brace] == '{' && IsBody(code, t.brace, t.end)
    && forall k :: m.end <= k < t.brace ==> code[k] != '{' && code[k] != ';'
  }

  /** Exactly the matches with a block are reported, each once, in the order of the matches. */
  lemma {:induction false} TestsAreTheMatchesWithBlocks(code: string, matches: seq<Match>)
    ensures var tests, places := Tests(code, matches), WithBlock(code, matches);
      && |tests| == |places|
      && forall k :: 0 <= k < |tests| ==> IsTestOf(code, matches[places[k]], tests[k])
  {
    hide OpensBlock, IsTestOf, TestAt;
    if matches != [] {
      var n := |matches| - 1;
      TestsAreTheMatchesWithBlocks(code, matches[..n]);
      OneTest(code, matches[n]);
    }
  }

  lemma {:induction false} OneTest(code: string, m: Match)
    ensures TestAt(code, m).Some? <==> OpensBlock(code, m)
    ensures TestAt(code, m).Some? ==> IsTestOf(code, m, TestAt(code, m).value)
  {
    hide IsBody;
    TestHasABody(code, m);
  }

  lemma {:induction false} TestsHaveBodies(code: string, matches: seq<Match>)
    ensures forall t :: t in Tests(code, matches) ==>
      t.brace < |code| && code[t.brace] == '{' && IsBody(code, t.brace, t.end)
  {
    hide IsBody, TestAt;
    if matches != [] {
      TestsHaveBodies(code, matches[..|matches| - 1]);
      TestHasABody(code, matches[|matches| - 1]);
    }
  }

  /** Two test bodies never overlap in part: they are the same, one holds the other, or they stand apart. */
  lemma {:induction false} BodiesNestOrStandApart(code: string, matches: seq<Match>, t: Test, u: Test)
    requires t in Tests(code, matches) && u in Tests(code, matches) && t.brace <= u.brace
    ensures (u.brace == t.brace && u.end == t.end) || t.brace < u.brace < u.end <= t.end || t.end <= u.brace
  {
    hide Depth, Close;
    TestsHaveBodies(code, matches);
    if t.brace == u.brace {
      BodyIsUnique(code, t.brace, t.end);
      BodyIsUnique(code, t.brace, u.end);
    } else if u.brace < t.end < u.end {
      DepthSplits(code, t.brace, u.brace, t.end);
    }
  }

  // ---- In terms of the text -----------------------------------------------------------------

  /** The braces of the text between two places, those in comments and literals apart. */
  ghost function PlainDepth(text: string, i: nat, j: nat): int
    requires i <= j <= |text|
  {
    if i == j then 0
    else PlainDepth(text, i, j - 1) + (if Covers(Segments(text, 0), j - 1, false) then 0 else Brace(text[j - 1]))
  }

  /** Only the braces outside comments and literals count. */
  lemma {:induction false} PlainBracesCount(
    text: string, code: string, keep: string, comments: seq<(nat, nat)>, i: nat, j: nat)
    requires IsScan(text, code, keep, comments) && i <= j <= |text|
    ensures |code| == |text| && Depth(code[i..j]) == PlainDepth(text, i, j)
  {
    hide Covers, Segments;
    if i < j {
      PlainBracesCount(text, code, keep, comments, i, j - 1);
      DepthNext(code, i, j - 1);
    } else {
      assert code[i..j] == "";
      NoDepth();
    }
  }

  lemma {:induction false} NewlinesAreCounted(s: string)
    ensures Newlines(s) == |set k | 0 <= k < |s| && s[k] == '\n'|
  {
    if s != "" {
      var front := s[..|s| - 1];
      NewlinesAreCounted(front);
      var all, fewer := set k | 0 <= k < |s| && s[k] == '\n', set k | 0 <= k < |front| && front[k] == '\n';
      assert all == fewer + if s[|s| - 1] == '\n' then {|s| - 1} else {};
    }
  }

  lemma {:induction false} SameNewlines(s: string, t: string)
    requires |s| == |t| && forall k :: 0 <= k < |s| ==> (s[k] == '\n' <==> t[k] == '\n')
    ensures Newlines(s) == Newlines(t)
  {
    if s != "" {
      SameNewlines(s[..|s| - 1], t[..|t| - 1]);
    }
  }

  /** Line numbers are those of the text. */
  lemma {:induction false} LinesAreTheTexts(text: string, code: string, keep: string, comments: seq<(nat, nat)>, m: Match)
    requires IsScan(text, code, keep, comments) && TestAt(code, m).Some?
    ensures TestAt(code, m).value.line == Newlines(Before(text, m.start)) + 1
  {
    hide IsScan;
    ScanKeepsOffsets(text, code, keep, comments);
    SameNewlines(Before(code, m.start), Before(text, m.start));
  }
}
