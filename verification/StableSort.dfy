/**
 `slice::sort_by_key`: the stable sort of a sequence under a total preorder, and
 what determines it (a sorted rearrangement that keeps ties in order).
 */
module StableSort {

  ghost predicate TotalPreorder<T(!new)>(le: (T, T) -> bool) {
    && (forall x, y :: le(x, y) || le(y, x))
    && (forall x, y, z :: le(x, y) && le(y, z) ==> le(x, z))
  }

  function Insert<T>(x: T, sorted: seq<T>, le: (T, T) -> bool): (r: seq<T>)
    ensures multiset(r) == multiset{x} + multiset(sorted)
    ensures |r| == |sorted| + 1
  {
    if sorted == [] || le(x, sorted[0]) then
      assert [x] + sorted == [x] + sorted[..];
      [x] + sorted
    else
      assert sorted == [sorted[0]] + sorted[1..];
      [sorted[0]] + Insert(x, sorted[1..], le)
  }

  function Sort<T>(xs: seq<T>, le: (T, T) -> bool): (r: seq<T>)
    ensures multiset(r) == multiset(xs)
    ensures |r| == |xs|
  {
    if xs == [] then []
    else
      assert xs == [xs[0]] + xs[1..];
      Insert(xs[0], Sort(xs[1..], le), le)
  }

  ghost predicate IsSorted<T>(xs: seq<T>, le: (T, T) -> bool) {
    forall i, j :: 0 <= i < j < |xs| ==> le(xs[i], xs[j])
  }

  lemma {:induction false} InsertIsSorted<T(!new)>(x: T, sorted: seq<T>, le: (T, T) -> bool)
    requires TotalPreorder(le) && IsSorted(sorted, le)
    ensures IsSorted(Insert(x, sorted, le), le)
  {
    if sorted != [] && !le(x, sorted[0]) {
      var tail := Insert(x, sorted[1..], le);
      InsertIsSorted(x, sorted[1..], le);
      forall j | 0 <= j < |tail|
        ensures le(sorted[0], tail[j])
      {
        assert tail[j] in multiset(tail);
        assert tail[j] == x || tail[j] in sorted[1..];
      }
    }
  }

  lemma {:induction false} SortIsSorted<T(!new)>(xs: seq<T>, le: (T, T) -> bool)
    requires TotalPreorder(le)
    ensures IsSorted(Sort(xs, le), le)
  {
    if xs != [] {
      SortIsSorted(xs[1..], le);
      InsertIsSorted(xs[0], Sort(xs[1..], le), le);
    }
  }

  // ---- Ties keep their order -------------------------------------------------

  /** The elements of `xs` that tie with `z`, in order. */
  function Ties<T>(xs: seq<T>, z: T, le: (T, T) -> bool): seq<T> {
    if xs == [] then []
    else (if le(xs[0], z) && le(z, xs[0]) then [xs[0]] else []) + Ties(xs[1..], z, le)
  }

  lemma {:induction false} InsertKeepsTies<T(!new)>(x: T, sorted: seq<T>, z: T, le: (T, T) -> bool)
    requires TotalPreorder(le)
    ensures Ties(Insert(x, sorted, le), z, le) == Ties([x] + sorted, z, le)
  {
    assert ([x] + sorted)[1..] == sorted;
    if sorted != [] && !le(x, sorted[0]) {
      InsertKeepsTies(x, sorted[1..], z, le);
      assert ([x] + sorted[1..])[1..] == sorted[1..];
      var r := Insert(x, sorted, le);
      assert r[0] == sorted[0] && r[1..] == Insert(x, sorted[1..], le);
    }
  }

  lemma {:induction false} SortIsStable<T(!new)>(xs: seq<T>, z: T, le: (T, T) -> bool)
    requires TotalPreorder(le)
    ensures Ties(Sort(xs, le), z, le) == Ties(xs, z, le)
  {
    if xs != [] {
      SortIsStable(xs[1..], z, le);
      InsertKeepsTies(xs[0], Sort(xs[1..], le), z, le);
      assert ([xs[0]] + Sort(xs[1..], le))[1..] == Sort(xs[1..], le);
    }
  }
}
