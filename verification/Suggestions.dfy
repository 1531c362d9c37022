/**
 "Did you mean": the column names the library and the command line offer for a name
 they do not know. `lower` stands for `str::to_lowercase`.
 */
module Suggestions {
  import opened EditDistance
  import StableSort

  datatype Scored = Scored(distance: nat, name: string)

  predicate Closer(x: Scored, y: Scored) {
    x.distance <= y.distance
  }

  function Score(target: string, name: string, lower: string -> seq<char>): nat {
    Distance(lower(target), lower(name))
  }

  /** The names whose distance is from `least` to `most`, in the order given. */
  function InRange(target: string, names: seq<string>, least: nat, most: nat, lower: string -> seq<char>): seq<Scored> {
    if names == [] then []
    else
      var d := Score(target, names[0], lower);
      (if least <= d <= most then [Scored(d, names[0])] else []) + InRange(target, names[1..], least, most, lower)
  }

  function Ranked(target: string, names: seq<string>, least: nat, most: nat, lower: string -> seq<char>): seq<Scored> {
    StableSort.Sort(InRange(target, names, least, most, lower), Closer)
  }

  function Names(scored: seq<Scored>): seq<string> {
    seq(|scored|, i requires 0 <= i < |scored| => scored[i].name)
  }

  function Take<T>(s: seq<T>, k: nat): seq<T> {
    if k < |s| then s[..k] else s
  }

  /** `suggest_similar_columns`. */
  function SuggestSimilarColumns(target: string, available: seq<string>, maxDistance: nat, maxSuggestions: nat,
                                 lower: string -> seq<char>): seq<string> {
    Names(Take(Ranked(target, available, 1, maxDistance, lower), maxSuggestions))
  }

  /** `find_similar_columns`, which measures from the column to the target. */
  function FindSimilarColumns(columns: seq<string>, target: string, maxResults: nat, lower: string -> seq<char>): seq<string> {
    Names(Take(StableSort.Sort(InRangeFrom(columns, target, lower), Closer), maxResults))
  }

  function InRangeFrom(columns: seq<string>, target: string, lower: string -> seq<char>): seq<Scored> {
    if columns == [] then []
    else
      var d := Score(columns[0], target, lower);
      (if d <= 3 then [Scored(d, columns[0])] else []) + InRangeFrom(columns[1..], target, lower)
  }

  // ---- The closest names --------------------------------------------------------------------

  lemma CloserIsAPreorder()
    ensures StableSort.TotalPreorder(Closer)
  {
  }

  lemma {:induction false} InRangeHolds(target: string, names: seq<string>, least: nat, most: nat, lower: string -> seq<char>)
    ensures forall x :: x in InRange(target, names, least, most, lower) <==>
                          x.name in names && x.distance == Score(target, x.name, lower) && least <= x.distance <= most
  {
    hide Score;
    if names != [] {
      InRangeHolds(target, names[1..], least, most, lower);
    }
  }

  lemma RankedHolds(target: string, names: seq<string>, least: nat, most: nat, lower: string -> seq<char>)
    ensures StableSort.IsSorted(Ranked(target, names, least, most, lower), Closer)
    ensures forall x :: x in Ranked(target, names, least, most, lower) <==>
                          x.name in names && x.distance == Score(target, x.name, lower) && least <= x.distance <= most
  {
    hide Score;
    var given := InRange(target, names, least, most, lower);
    var ranked := Ranked(target, names, least, most, lower);
    CloserIsAPreorder();
    StableSort.SortIsSorted(given, Closer);
    InRangeHolds(target, names, least, most, lower);
    forall x ensures x in ranked <==> x in given {
      assert x in multiset(ranked) <==> x in ranked;
      assert x in multiset(given) <==> x in given;
    }
  }

  /**
   The first `k` of the names in range, closest first: each is in range, no name in
   range that is left out is closer than one returned, and none is left out before
   `k` are returned.
   */
  lemma ClosestNamesComeFirst(target: string, names: seq<string>, least: nat, most: nat, k: nat, lower: string -> seq<char>)
    ensures var r := Names(Take(Ranked(target, names, least, most, lower), k));
      && |r| <= k
      && (forall n :: n in r ==> n in names && least <= Score(target, n, lower) <= most)
      && (forall i, j :: 0 <= i < j < |r| ==> Score(target, r[i], lower) <= Score(target, r[j], lower))
      && (forall n, m :: n in r && m in names && m !in r && least <= Score(target, m, lower) <= most ==>
                           Score(target, n, lower) <= Score(target, m, lower))
      && (|r| < k ==> forall m :: m in names && least <= Score(target, m, lower) <= most ==> m in r)
  {
    hide Score, Ranked;
    var ranked := Ranked(target, names, least, most, lower);
    var r := Names(Take(ranked, k));
    RankedHolds(target, names, least, most, lower);
    forall i | 0 <= i < |r| ensures ranked[i] == Scored(Score(target, r[i], lower), r[i]) {
      assert ranked[i] in ranked;
    }
    forall m | m in names && least <= Score(target, m, lower) <= most && m !in r
      ensures |r| == k && forall i :: 0 <= i < |r| ==> Score(target, r[i], lower) <= Score(target, m, lower)
    {
      assert Scored(Score(target, m, lower), m) in ranked;
      var j :| 0 <= j < |ranked| && ranked[j] == Scored(Score(target, m, lower), m);
      assert forall i :: 0 <= i < |r| ==> ranked[i].name == r[i] && r[i] in r;
    }
  }

  /** Every name is scored, one given twice too, in the order given. */
  lemma {:induction false} InRangeConcat(target: string, a: seq<string>, b: seq<string>, least: nat, most: nat, lower: string -> seq<char>)
    ensures InRange(target, a + b, least, most, lower)
         == InRange(target, a, least, most, lower) + InRange(target, b, least, most, lower)
  {
    hide Score;
    if a == [] {
      assert a + b == b;
    } else {
      assert (a + b)[1..] == a[1..] + b;
      InRangeConcat(target, a[1..], b, least, most, lower);
    }
  }

  lemma {:induction false} OneInRange(target: string, name: string, least: nat, most: nat, lower: string -> seq<char>)
    ensures var d := Distance(lower(target), lower(name));
      InRange(target, [name], least, most, lower) == if least <= d <= most then [Scored(d, name)] else []
  {
    hide Distance;
    assert [name][1..] == [];
  }

  /**
   The library's suggestions: at most `k` names that differ from the target in more than
   case and by at most `most` edits, closest first, none closer left out, and as many
   as there are up to `k`.
   */
  lemma {:induction false} LibrarySuggestions(target: string, names: seq<string>, most: nat, k: nat, lower: string -> seq<char>)
    ensures var r := SuggestSimilarColumns(target, names, most, k, lower);
      var d := (n: string) => Distance(lower(target), lower(n));
      && |r| == (var all := |InRange(target, names, 1, most, lower)|; if k < all then k else all)
      && (forall n :: n in r ==> n in names && 1 <= d(n) <= most)
      && (forall i, j :: 0 <= i < j < |r| ==> d(r[i]) <= d(r[j]))
      && (forall n, m :: n in r && m in names && m !in r && 1 <= d(m) <= most ==> d(n) <= d(m))
      && (|r| < k ==> forall m :: m in names && 1 <= d(m) <= most ==> m in r)
  {
    hide Distance, InRange;
    ClosestNamesComeFirst(target, names, 1, most, k, lower);
    StableSort.SortIsSorted(InRange(target, names, 1, most, lower), Closer) by {
      CloserIsAPreorder();
    }
  }

  /** Names at the same distance come in the order they were given. */
  lemma {:induction false} TiesKeepTheirOrder(target: string, names: seq<string>, least: nat, most: nat, z: Scored, lower: string -> seq<char>)
    ensures StableSort.Ties(Ranked(target, names, least, most, lower), z, Closer)
         == StableSort.Ties(InRange(target, names, least, most, lower), z, Closer)
  {
    CloserIsAPreorder();
    StableSort.SortIsStable(InRange(target, names, least, most, lower), z, Closer);
  }

  // ---- The library and the command line ---------------------------------------------------------

  predicate IsKnown(target: string, names: seq<string>, lower: string -> seq<char>) {
    exists i :: 0 <= i < |names| && lower(names[i]) == lower(target)
  }

  lemma {:induction false} SameRange(target: string, names: seq<string>, lower: string -> seq<char>)
    ensures InRangeFrom(names, target, lower) == InRange(target, names, 0, 3, lower)
    ensures !IsKnown(target, names, lower) ==>
      InRange(target, names, 0, 3, lower) == InRange(target, names, 1, 3, lower)
  {
    hide Distance;
    if names != [] {
      SameRange(target, names[1..], lower);
      DistanceIsSymmetric(lower(target), lower(names[0]));
      ZeroOnlyOnEqual(lower(target), lower(names[0]));
      if !IsKnown(target, names, lower) {
        assert lower(names[0]) != lower(target);
        forall i | 0 <= i < |names[1..]| ensures lower(names[1..][i]) != lower(target) {
          assert names[1..][i] == names[i + 1];
        }
      }
    }
  }

  /**
   The two programs offer the same names for every target exactly when none is asked
   for or no name differs from the target in case only: the library leaves those out.
   */
  lemma ProgramsAgreeIff(target: string, names: seq<string>, k: nat, lower: string -> seq<char>)
    ensures FindSimilarColumns(names, target, k, lower) == SuggestSimilarColumns(target, names, 3, k, lower)
            <==> k == 0 || !IsKnown(target, names, lower)
  {
    hide Distance, Score, Ranked;
    SameRange(target, names, lower);
    var found := FindSimilarColumns(names, target, k, lower);
    var suggested := SuggestSimilarColumns(target, names, 3, k, lower);
    FoundIsRanked(target, names, k, lower);
    if k > 0 && IsKnown(target, names, lower) {
      var i :| 0 <= i < |names| && lower(names[i]) == lower(target);
      KnownScoresZero(target, names[i], lower);
      ClosestNamesComeFirst(target, names, 0, 3, k, lower);
      ClosestNamesComeFirst(target, names, 1, 3, k, lower);
      var n := if names[i] in found || found == [] then names[i] else found[0];
      assert n in found && n !in suggested;
    } else if k == 0 {
      assert found == [] == suggested;
    } else {
      SameRankedNames(target, names, lower);
    }
  }

  lemma KnownScoresZero(target: string, name: string, lower: string -> seq<char>)
    requires lower(name) == lower(target)
    ensures Score(target, name, lower) == 0
  {
    ZeroOnlyOnEqual(lower(target), lower(name));
  }

  lemma FoundIsRanked(target: string, names: seq<string>, k: nat, lower: string -> seq<char>)
    ensures FindSimilarColumns(names, target, k, lower) == Names(Take(Ranked(target, names, 0, 3, lower), k))
  {
    SameRange(target, names, lower);
  }

  lemma SameRankedNames(target: string, names: seq<string>, lower: string -> seq<char>)
    requires !IsKnown(target, names, lower)
    ensures Ranked(target, names, 0, 3, lower) == Ranked(target, names, 1, 3, lower)
  {
    SameRange(target, names, lower);
  }
}
