/**
 Edit distance, as the library and the command line each compute it: two rows of a
 dynamic program, overwritten and swapped. Both are the length of the shortest edit
 script, whence the laws of a metric.

 The two strings are given in lower case, as sequences of characters.
 */
module EditDistance {

  function Min3(x: nat, y: nat, z: nat): nat {
    var m := if x < y then x else y;
    if m < z then m else z
  }

  function Cost(x: char, y: char): nat {
    if x == y then 0 else 1
  }

  /** The recursion behind the table, on the last characters. */
  function Distance(a: seq<char>, b: seq<char>): nat
    decreases |a| + |b|
  {
    if a == [] then |b|
    else if b == [] then |a|
    else
      var a', b' := a[..|a| - 1], b[..|b| - 1];
      Min3(Distance(a', b) + 1, Distance(a, b') + 1, Distance(a', b') + Cost(a[|a| - 1], b[|b| - 1]))
  }

  // ---- Edit scripts --------------------------------------------------------------------

  /** Edits from left to right: `before` comes first. */
  datatype Script =
    | Done
    | Keep(before: Script, c: char)
    | Insert(before: Script, c: char)
    | Delete(before: Script, c: char)
    | Substitute(before: Script, c: char, d: char)

  function Source(s: Script): seq<char> {
    match s
    case Done => []
    case Keep(s', c) => Source(s') + [c]
    case Insert(s', _) => Source(s')
    case Delete(s', c) => Source(s') + [c]
    case Substitute(s', c, _) => Source(s') + [c]
  }

  function Target(s: Script): seq<char> {
    match s
    case Done => []
    case Keep(s', c) => Target(s') + [c]
    case Insert(s', c) => Target(s') + [c]
    case Delete(s', _) => Target(s')
    case Substitute(s', _, d) => Target(s') + [d]
  }

  /** The edits of a script; keeping a character is none. */
  function Edits(s: Script): nat {
    match s
    case Done => 0
    case Keep(s', _) => Edits(s')
    case _ => Edits(s.before) + 1
  }

  /** A shortest script. */
  function Best(a: seq<char>, b: seq<char>): Script
    decreases |a| + |b|
  {
    if a == [] && b == [] then Done
    else if a == [] then Insert(Best(a, b[..|b| - 1]), b[|b| - 1])
    else if b == [] then Delete(Best(a[..|a| - 1], b), a[|a| - 1])
    else
      var a', x, b', y := a[..|a| - 1], a[|a| - 1], b[..|b| - 1], b[|b| - 1];
      if Distance(a, b) == Distance(a', b) + 1 then Delete(Best(a', b), x)
      else if Distance(a, b) == Distance(a, b') + 1 then Insert(Best(a, b'), y)
      else if x == y then Keep(Best(a', b'), x)
      else Substitute(Best(a', b'), x, y)
  }

  /** Some script turns `a` into `b` in `Distance(a, b)` edits. */
  lemma {:induction false} BestIsAScript(a: seq<char>, b: seq<char>)
    ensures Source(Best(a, b)) == a && Target(Best(a, b)) == b
    ensures Edits(Best(a, b)) == Distance(a, b)
    decreases |a| + |b|
  {
    hide Distance;
    EmptyDistance(a, b);
    if a == [] && b == [] {
    } else if a == [] {
      BestIsAScript(a, b[..|b| - 1]);
      EmptyDistance(a, b[..|b| - 1]);
    } else if b == [] {
      BestIsAScript(a[..|a| - 1], b);
      EmptyDistance(a[..|a| - 1], b);
    } else {
      var a', b' := a[..|a| - 1], b[..|b| - 1];
      assert a == a' + [a[|a| - 1]] && b == b' + [b[|b| - 1]];
      BestIsAScript(a', b);
      BestIsAScript(a, b');
      BestIsAScript(a', b');
      ThreeWays(a, b);
    }
  }

  lemma EmptyDistance(a: seq<char>, b: seq<char>)
    ensures a == [] ==> Distance(a, b) == |b|
    ensures b == [] ==> Distance(a, b) == |a|
  {
  }

  lemma ThreeWays(a: seq<char>, b: seq<char>)
    requires a != [] && b != []
    ensures var a', b' := a[..|a| - 1], b[..|b| - 1];
      || Distance(a, b) == Distance(a', b) + 1
      || Distance(a, b) == Distance(a, b') + 1
      || Distance(a, b) == Distance(a', b') + Cost(a[|a| - 1], b[|b| - 1])
  {
  }

  /** No script between the two takes fewer. */
  lemma {:induction false} NoScriptIsShorter(s: Script)
    ensures Distance(Source(s), Target(s)) <= Edits(s)
  {
    if s != Done {
      var a, b := Source(s.before), Target(s.before);
      NoScriptIsShorter(s.before);
      match s
      case Keep(_, c) => LastColumn(a, b, c, c);
      case Insert(_, c) => LastInsert(a, b, c);
      case Delete(_, c) => LastDelete(a, b, c);
      case Substitute(_, c, d) => LastColumn(a, b, c, d);
    }
  }

  lemma LastColumn(a: seq<char>, b: seq<char>, c: char, d: char)
    ensures Distance(a + [c], b + [d]) <= Distance(a, b) + Cost(c, d)
  {
    assert (a + [c])[..|a|] == a && (b + [d])[..|b|] == b;
  }

  lemma LastInsert(a: seq<char>, b: seq<char>, c: char)
    ensures Distance(a, b + [c]) <= Distance(a, b) + 1
  {
    assert (b + [c])[..|b|] == b;
  }

  lemma LastDelete(a: seq<char>, b: seq<char>, c: char)
    ensures Distance(a + [c], b) <= Distance(a, b) + 1
  {
    assert (a + [c])[..|a|] == a;
  }

  /** `n` is the fewest edits that turn `a` into `b`. */
  ghost predicate IsFewestEdits(a: seq<char>, b: seq<char>, n: nat) {
    && (exists s :: Source(s) == a && Target(s) == b && Edits(s) == n)
    && (forall s :: Source(s) == a && Target(s) == b ==> n <= Edits(s))
  }

  lemma DistanceIsFewestEdits(a: seq<char>, b: seq<char>, n: nat)
    ensures IsFewestEdits(a, b, n) <==> n == Distance(a, b)
  {
    BestIsAScript(a, b);
    forall s | Source(s) == a && Target(s) == b ensures Distance(a, b) <= Edits(s) {
      NoScriptIsShorter(s);
    }
  }

  // ---- A metric ------------------------------------------------------------------------------

  function Reverse(s: Script): Script {
    match s
    case Done => Done
    case Keep(s', c) => Keep(Reverse(s'), c)
    case Insert(s', c) => Delete(Reverse(s'), c)
    case Delete(s', c) => Insert(Reverse(s'), c)
    case Substitute(s', c, d) => Substitute(Reverse(s'), d, c)
  }

  lemma {:induction false} ReverseSwaps(s: Script)
    ensures Source(Reverse(s)) == Target(s) && Target(Reverse(s)) == Source(s) && Edits(Reverse(s)) == Edits(s)
  {
    if s != Done {
      ReverseSwaps(s.before);
    }
  }

  lemma {:induction false} DistanceIsSymmetric(a: seq<char>, b: seq<char>)
    ensures Distance(a, b) == Distance(b, a)
  {
    BestIsAScript(a, b);
    ReverseSwaps(Best(a, b));
    NoScriptIsShorter(Reverse(Best(a, b)));
    BestIsAScript(b, a);
    ReverseSwaps(Best(b, a));
    NoScriptIsShorter(Reverse(Best(b, a)));
  }

  lemma {:induction false} NoEditsNoChange(s: Script)
    requires Edits(s) == 0
    ensures Source(s) == Target(s)
  {
    if s != Done {
      NoEditsNoChange(s.before);
    }
  }

  lemma {:induction false} SameStrings(a: seq<char>)
    ensures Distance(a, a) == 0
  {
    if a != [] {
      SameStrings(a[..|a| - 1]);
    }
  }

  lemma {:induction false} ZeroOnlyOnEqual(a: seq<char>, b: seq<char>)
    ensures Distance(a, b) == 0 <==> a == b
  {
    if a == b {
      SameStrings(a);
    } else if Distance(a, b) == 0 {
      BestIsAScript(a, b);
      NoEditsNoChange(Best(a, b));
    }
  }

  /** Doing one script after another takes no more edits than both together. */
  lemma {:induction false} ScriptsCompose(s: Script, t: Script)
    requires Target(s) == Source(t)
    ensures Distance(Source(s), Target(t)) <= Edits(s) + Edits(t)
    decreases s, t
  {
    if t.Insert? {
      ScriptsCompose(s, t.before);
      LastInsert(Source(s), Target(t.before), t.c);
    } else if s.Delete? {
      ScriptsCompose(s.before, t);
      LastDelete(Source(s.before), Target(t), s.c);
    } else if s != Done && t != Done {
      var m, m' := Target(s.before), Source(t.before);
      assert Target(s)[..|m|] == m && Source(t)[..|m'|] == m';
      assert Target(s)[|m|] == Source(t)[|m'|];
      ScriptsCompose(s.before, t.before);
      var a, b := Source(s.before), Target(t.before);
      if s.Insert? && !t.Delete? {
        LastInsert(a, b, Target(t)[|b|]);
      } else if t.Delete? && !s.Insert? {
        LastDelete(a, b, Source(s)[|a|]);
      } else if !s.Insert? {
        LastColumn(a, b, Source(s)[|a|], Target(t)[|b|]);
      }
    }
  }

  lemma {:induction false} TriangleInequality(a: seq<char>, b: seq<char>, c: seq<char>)
    ensures Distance(a, c) <= Distance(a, b) + Distance(b, c)
  {
    BestIsAScript(a, b);
    BestIsAScript(b, c);
    ScriptsCompose(Best(a, b), Best(b, c));
  }

  // ---- The two programs -----------------------------------------------------------------------

  /** The distance of the prefixes of lengths `i` and `j`. */
  function Table(a: seq<char>, b: seq<char>, i: nat, j: nat): nat
    requires i <= |a| && j <= |b|
  {
    Distance(a[..i], b[..j])
  }

  lemma TableEdges(a: seq<char>, b: seq<char>, i: nat, j: nat)
    requires i <= |a| && j <= |b|
    ensures Table(a, b, 0, j) == j && Table(a, b, i, 0) == i
  {
  }

  lemma TableStep(a: seq<char>, b: seq<char>, i: nat, j: nat)
    requires 0 < i <= |a| && 0 < j <= |b|
    ensures Table(a, b, i, j) ==
      Min3(Table(a, b, i - 1, j) + 1, Table(a, b, i, j - 1) + 1, Table(a, b, i - 1, j - 1) + Cost(a[i - 1], b[j - 1]))
  {
    assert a[..i][..i - 1] == a[..i - 1] && b[..j][..j - 1] == b[..j - 1];
  }

  /** `row` holds row `i` of the table up to column `m`. */
  ghost predicate HoldsRow(row: array<nat>, a: seq<char>, b: seq<char>, i: nat, m: nat)
    requires i <= |a| && m <= |b| && row.Length == |b| + 1
    reads row
  {
    forall j :: 0 <= j <= m ==> row[j] == Table(a, b, i, j)
  }

  /** `levenshtein_distance` of the library, by index. */
  method LibraryDistance(a: seq<char>, b: seq<char>) returns (d: nat)
    ensures IsFewestEdits(a, b, d)
    ensures d == Distance(a, b)
  {
    DistanceIsFewestEdits(a, b, Distance(a, b));
    hide Distance, IsFewestEdits;
    var m, n := |a|, |b|;
    assert a[..m] == a && b[..n] == b;
    TableEdges(a, b, m, n);
    if m == 0 {
      return n;
    }
    if n == 0 {
      return m;
    }
    var prev := new nat[n + 1](j => j);
    var curr := new nat[n + 1](_ => 0);
    forall j | 0 <= j <= n ensures prev[j] == Table(a, b, 0, j) {
      TableEdges(a, b, 0, j);
    }
    for i := 1 to m + 1
      invariant fresh(prev) && fresh(curr) && prev != curr && prev.Length == curr.Length == n + 1
      invariant HoldsRow(prev, a, b, i - 1, n)
    {
      TableEdges(a, b, i, 0);
      curr[0] := i;
      for j := 1 to n + 1
        invariant HoldsRow(prev, a, b, i - 1, n) && HoldsRow(curr, a, b, i, j - 1)
      {
        TableStep(a, b, i, j);
        var cost := if a[i - 1] == b[j - 1] then 0 else 1;
        curr[j] := Min3(prev[j] + 1, curr[j - 1] + 1, prev[j - 1] + cost);
      }
      prev, curr := curr, prev;
    }
    d := prev[n];
  }

  /** `levenshtein_distance` of the command line, by iterator, into the column after. */
  method CommandLineDistance(a: seq<char>, b: seq<char>) returns (d: nat)
    ensures IsFewestEdits(a, b, d)
    ensures d == Distance(a, b)
  {
    DistanceIsFewestEdits(a, b, Distance(a, b));
    hide Distance, IsFewestEdits;
    assert a[..|a|] == a && b[..|b|] == b;
    TableEdges(a, b, |a|, |b|);
    if a == [] {
      return |b|;
    }
    if b == [] {
      return |a|;
    }
    var prevRow := new nat[|b| + 1](j => j);
    var currRow := new nat[|b| + 1](_ => 0);
    forall j | 0 <= j <= |b| ensures prevRow[j] == Table(a, b, 0, j) {
      TableEdges(a, b, 0, j);
    }
    for i := 0 to |a|
      invariant fresh(prevRow) && fresh(currRow) && prevRow != currRow
      invariant prevRow.Length == currRow.Length == |b| + 1
      invariant HoldsRow(prevRow, a, b, i, |b|)
    {
      TableEdges(a, b, i + 1, 0);
      currRow[0] := i + 1;
      for j := 0 to |b|
        invariant HoldsRow(prevRow, a, b, i, |b|) && HoldsRow(currRow, a, b, i + 1, j)
      {
        TableStep(a, b, i + 1, j + 1);
        var cost := if a[i] == b[j] then 0 else 1;
        currRow[j + 1] := Min3(prevRow[j + 1] + 1, currRow[j] + 1, prevRow[j] + cost);
      }
      prevRow, currRow := currRow, prevRow;
    }
    d := prevRow[|b|];
  }
}
