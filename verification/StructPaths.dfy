/**
 Where a value sits in the arguments, for the struct check of the audit
 sanitiser: `At` follows a value's rule path only while a declared struct path
 is or continues it.
 */
module StructPaths {
  import opened Wrappers

  /** The struct paths, and the value's own path, or `None` once no struct path continues it. */
  datatype At = At(structs: seq<string>, path: Option<string>) {

    /** One step down: into an object under a key, or for `None` into an array. */
    function Child(key: Option<string>): Option<string> {
      if path.None? then None
      else if exists i :: 0 <= i < |structs| && OnTheWay(structs[i], path.value, key)
      then Some(Extend(path.value, key))
      else None
    }

    /** The position of that child. */
    function Down(key: Option<string>): At {
      At(structs, Child(key))
    }

    predicate IsStruct() {
      path.Some? && path.value in structs
    }
  }

  function Separator(path: string, key: Option<string>): string {
    match key
    case Some(_) => if path == "" then "" else "."
    case None => "[]"
  }

  function Extend(path: string, key: Option<string>): string {
    path + Separator(path, key) + (if key.Some? then key.value else "")
  }

  /** `rest` of a struct path after a whole step: nothing, or another step. */
  predicate StepEnds(rest: string) {
    rest == "" || rest[0] == '.' || rest[0] == '['
  }

  /** `str::strip_prefix`. */
  function StripPrefix(s: string, prefix: string): Option<string> {
    if prefix <= s then Some(s[|prefix|..]) else None
  }

  /** The struct path `s` is the child's path or goes on from it. */
  predicate OnTheWay(s: string, path: string, key: Option<string>) {
    var afterPath := StripPrefix(s, path);
    if afterPath.None? then false else
    var afterSep := StripPrefix(afterPath.value, Separator(path, key));
    if afterSep.None? then false else
    var afterKey := StripPrefix(afterSep.value, if key.Some? then key.value else "");
    afterKey.Some? && StepEnds(afterKey.value)
  }

  // ---- Exactness ---------------------------------------------------------------

  /** A value's steps from the root: `Some(key)` into an object, `None` into an array. */
  type Steps = seq<Option<string>>

  /** The position the sanitiser reaches by `steps`. */
  function Reach(structs: seq<string>, steps: Steps): At {
    if steps == [] then At(structs, Some("")) else Reach(structs, steps[..|steps| - 1]).Down(steps[|steps| - 1])
  }

  /** The whole rule path of `steps`, never abandoned. */
  function RulePath(steps: Steps): string {
    if steps == [] then "" else Extend(RulePath(steps[..|steps| - 1]), steps[|steps| - 1])
  }

  /** The pruned tracking decides at `steps` what the whole path decides. */
  predicate Exact(structs: seq<string>, steps: Steps) {
    Reach(structs, steps).IsStruct() <==> RulePath(steps) in structs
  }

  /** Some struct path is the root's or starts with a separator. */
  predicate RootContinues(structs: seq<string>) {
    exists i :: 0 <= i < |structs| && StepEnds(structs[i])
  }

  lemma PrefixInTwoSteps(s: string, a: string, b: string)
    ensures a + b <= s <==> a <= s && b <= s[|a|..]
    ensures a + b <= s ==> s[|a + b|..] == s[|a|..][|b|..]
  {
    if a <= s && b <= s[|a|..] {
      assert s == a + s[|a|..];
    }
    if a + b <= s {
      assert s == a + b + s[|a + b|..];
    }
  }

  lemma OnTheWayIsPrefix(s: string, path: string, key: Option<string>)
    ensures OnTheWay(s, path, key) <==> var p := Extend(path, key); p <= s && StepEnds(s[|p|..])
  {
    var sep := Separator(path, key);
    PrefixInTwoSteps(s, path, sep);
    PrefixInTwoSteps(s, path + sep, if key.Some? then key.value else "");
  }

  /** A kept path is the whole path; the tracking never invents one. */
  lemma {:induction false} ReachedPathIsRulePath(structs: seq<string>, steps: Steps)
    ensures Reach(structs, steps).structs == structs
    ensures Reach(structs, steps).path.Some? ==> Reach(structs, steps).path.value == RulePath(steps)
  {
    if steps != [] {
      ReachedPathIsRulePath(structs, steps[..|steps| - 1]);
    }
  }

  /** Below the root every step adds a separator, so what continues a longer path continues a shorter one. */
  lemma {:induction false} PrefixContinues(steps: Steps, n: nat, s: string)
    requires n <= |steps| && RulePath(steps[..n]) != ""
    requires RulePath(steps) <= s && StepEnds(s[|RulePath(steps)|..])
    ensures RulePath(steps[..n]) <= s && StepEnds(s[|RulePath(steps[..n])|..])
    decreases |steps| - n
  {
    if n == |steps| {
      assert steps[..n] == steps;
    } else {
      PrefixGrows(steps, n + 1);
      PrefixContinues(steps, n + 1, s);
      assert steps[..n + 1][..n] == steps[..n];
      var p, q := RulePath(steps[..n]), RulePath(steps[..n + 1]);
      assert q == Extend(p, steps[n]);
      assert s[|p|..][0] == q[|p|];
    }
  }

  lemma PrefixGrows(steps: Steps, n: nat)
    requires 0 < n <= |steps| && RulePath(steps[..n - 1]) != ""
    ensures RulePath(steps[..n]) != ""
  {
    assert steps[..n][..n - 1] == steps[..n - 1];
  }

  /** The path of a non-empty walk is empty only through empty keys. */
  lemma {:induction false} NonEmptyFirstStep(steps: Steps, n: nat)
    requires 0 < n <= |steps| && steps[0] != Some("")
    ensures RulePath(steps[..n]) != ""
  {
    if n == 1 {
      assert steps[..1][..0] == [];
      assert RulePath(steps[..1]) == Extend("", steps[0]);
    } else {
      NonEmptyFirstStep(steps, n - 1);
      PrefixGrows(steps, n);
    }
  }

  /** While a struct path continues every prefix of the walk, the path is kept. */
  lemma {:induction false} PathIsKept(structs: seq<string>, steps: Steps, s: string)
    requires s in structs
    requires forall n :: 0 < n <= |steps| ==> RulePath(steps[..n]) <= s && StepEnds(s[|RulePath(steps[..n])|..])
    ensures Reach(structs, steps) == At(structs, Some(RulePath(steps)))
  {
    if steps != [] {
      var before := steps[..|steps| - 1];
      forall n | 0 < n <= |before|
        ensures RulePath(before[..n]) <= s && StepEnds(s[|RulePath(before[..n])|..])
      {
        assert before[..n] == steps[..n];
      }
      PathIsKept(structs, before, s);
      assert steps[..|steps|] == steps;
      OnTheWayIsPrefix(s, RulePath(before), steps[|steps| - 1]);
    }
  }

  /** The tracking is exact at every value whose first key is not empty. */
  lemma ExactBelowANamedKey(structs: seq<string>, steps: Steps)
    requires steps == [] || steps[0] != Some("")
    ensures Exact(structs, steps)
  {
    ReachedPathIsRulePath(structs, steps);
    var p := RulePath(steps);
    if p in structs {
      forall n | 0 < n <= |steps|
        ensures RulePath(steps[..n]) <= p && StepEnds(p[|RulePath(steps[..n])|..])
      {
        NonEmptyFirstStep(steps, n);
        PrefixContinues(steps, n, p);
      }
      PathIsKept(structs, steps, p);
    }
  }

  /** An empty key at the top is left behind when some struct path continues the root. */
  lemma {:induction false} ExactWhenRootContinues(structs: seq<string>, steps: Steps)
    requires RootContinues(structs)
    ensures Exact(structs, steps)
    ensures steps != [] && steps[0] == Some("") ==> Reach(structs, steps) == Reach(structs, steps[1..])
    decreases |steps|
  {
    if steps == [] || steps[0] != Some("") {
      ExactBelowANamedKey(structs, steps);
    } else {
      EmptyKeyAtRoot(structs, steps);
      ExactWhenRootContinues(structs, steps[1..]);
    }
  }

  lemma {:induction false} EmptyKeyAtRoot(structs: seq<string>, steps: Steps)
    requires RootContinues(structs) && steps != [] && steps[0] == Some("")
    ensures Reach(structs, steps) == Reach(structs, steps[1..])
    ensures RulePath(steps) == RulePath(steps[1..])
  {
    var n := |steps| - 1;
    if n == 0 {
      assert steps[..0] == [] && steps[1..] == [];
      var i :| 0 <= i < |structs| && StepEnds(structs[i]);
      OnTheWayIsPrefix(structs[i], "", Some(""));
      assert structs[i][0..] == structs[i];
    } else {
      EmptyKeyAtRoot(structs, steps[..n]);
      assert steps[..n][1..] == steps[1..][..n - 1];
    }
  }

  /** One empty key at the top hides every struct path that no longer continues the root. */
  lemma EmptyKeyHides(structs: seq<string>, s: string)
    requires s in structs && !RootContinues(structs)
    ensures !Exact(structs, [Some(""), Some(s)])
  {
    var steps: Steps := [Some(""), Some(s)];
    assert steps[..1] == [Some("")] && steps[..1][..0] == [];
    forall i | 0 <= i < |structs|
      ensures !OnTheWay(structs[i], "", Some(""))
    {
      OnTheWayIsPrefix(structs[i], "", Some(""));
      assert structs[i][0..] == structs[i];
    }
    assert Reach(structs, []) == At(structs, Some(""));
    assert Reach(structs, steps[..1]).path == None;
    assert RulePath([]) == "" && RulePath(steps[..1]) == Extend("", Some(""));
    assert RulePath(steps) == Extend("", Some(s)) == s;
    assert Reach(structs, steps) == Reach(structs, steps[..1]).Down(Some(s));
  }

  /** Exact at every value of every tree, empty keys included, exactly for these struct lists. */
  lemma ExactEverywhere(structs: seq<string>)
    ensures (forall steps :: Exact(structs, steps)) <==> structs == [] || RootContinues(structs)
  {
    if structs == [] {
      forall steps ensures Exact(structs, steps) {
        ReachedPathIsRulePath(structs, steps);
      }
    } else if RootContinues(structs) {
      forall steps ensures Exact(structs, steps) {
        ExactWhenRootContinues(structs, steps);
      }
    } else {
      EmptyKeyHides(structs, structs[0]);
    }
  }

  /** A rule path joins keys by dots and writes `[]` for an array. */
  lemma {:induction false} RulePathIs(steps: Steps, key: string)
    ensures RulePath([]) == ""
    ensures RulePath(steps + [None]) == RulePath(steps) + "[]"
    ensures RulePath(steps + [Some(key)]) == if RulePath(steps) == "" then key else RulePath(steps) + "." + key
  {
    assert (steps + [None])[..|steps|] == steps && (steps + [Some(key)])[..|steps|] == steps;
    assert RulePath(steps) + "[]" + "" == RulePath(steps) + "[]";
    assert "" + "" + key == key;
  }
}
