/**
 What an operator finds: the files read from the oldest to the log itself, and what
 one failing step of a rotation leaves at their names.
 */
module AuditReading {
  import opened Wrappers
  import opened AuditWriter
  import opened AuditRuns
  import opened AuditRotation

  /** The lines a name leads to. */
  function LinesAt(d: Disk, k: nat): seq<Line> {
    if k in d.names && d.names[k] < |d.files| then d.files[d.names[k]] else []
  }

  /** The files from `.k` down to the log itself. */
  function Reading(d: Disk, k: nat): seq<Line> {
    LinesAt(d, k) + if k == 0 then [] else Reading(d, k - 1)
  }

  /** All an operator can read, and what a flush would add to it. */
  function Visible(s: Log, keep: nat): seq<Line> {
    Reading(s.disk, keep) + s.buffer
  }

  // ---- Undisturbed runs: the log is a suffix of everything -------------------------------

  predicate Undisturbed(steps: seq<Step>) {
    forall i :: 0 <= i < |steps| ==> CalmStep(steps[i]) && (steps[i].Write? || steps[i].Flush?)
  }

  /** The names `.keep` to the log lead to the latest inodes, without a gap. */
  ghost predicate Contiguous(s: Log, keep: nat) {
    forall k: nat :: InodeAt(s.disk.names, k) == Latest(s.handle, keep, k)
  }

  function Latest(handle: nat, keep: nat, k: nat): Option<nat> {
    if k <= Min(keep, handle) then Some(handle - k) else None
  }

  lemma RotatedContiguous(s: Log, keep: nat, r: Log)
    requires s.Valid() && RotatesTo(s, keep, r) && Contiguous(s, keep)
    ensures Contiguous(r, keep)
  {
    forall k: nat
      ensures InodeAt(r.disk.names, k) == Latest(r.handle, keep, k)
    {
      if k > 0 {
        assert InodeAt(r.disk.names, k) == BeforeRotation(s.disk.names, keep, k);
        assert InodeAt(s.disk.names, k) == Latest(s.handle, keep, k);
        assert InodeAt(s.disk.names, k - 1) == Latest(s.handle, keep, k - 1);
      }
    }
  }

  lemma SpillKeepsNames(s: Log, k: nat)
    requires s.Valid()
    ensures Spilled(s, k).disk.names == s.disk.names && Spilled(s, k).handle == s.handle
  {
  }

  lemma NextContiguous(s: Log, p: Policy, step: Step)
    requires s.Valid() && Sound(s) && Contiguous(s, p.keep)
    requires CalmStep(step) && (step.Write? || step.Flush?)
    ensures Contiguous(Next(s, p, step), p.keep)
  {
    hide NewestFirst, Accounted, Rotated, Spilled;
    assert InodeAt(s.disk.names, 0) == Latest(s.handle, p.keep, 0);
    match step
    case Write(line, o) =>
      var s2 := if RotationIsDue(s.size, line, p.maxBytes) then Rotated(s, p.keep, o.rotate) else s;
      if RotationIsDue(s.size, line, p.maxBytes) {
        CalmRotation(s, p.keep, o.rotate);
        RotatedContiguous(s, p.keep, s2);
      }
      SpillKeepsNames(s2.(buffer := s2.buffer + [line], size := s2.size + |line|), o.spill);
    case Flush(o) =>
      SpillKeepsNames(s, |s.buffer|);
  }

  lemma {:induction false} RunContiguous(s: Log, p: Policy, steps: seq<Step>)
    requires s.Valid() && Sound(s) && Contiguous(s, p.keep) && Undisturbed(steps)
    ensures Contiguous(Run(s, p, steps), p.keep)
  {
    hide Contiguous, Next, Sound, CalmStep;
    if steps != [] {
      var front := steps[..|steps| - 1];
      RunContiguous(s, p, front);
      RunFollows(s, p, front);
      NextContiguous(Run(s, p, front), p, steps[|steps| - 1]);
    }
  }

  lemma {:induction false} ConcatSplit(a: seq<seq<Line>>, b: seq<seq<Line>>)
    ensures Concat(a + b) == Concat(a) + Concat(b)
  {
    if b == [] {
      assert a + b == a;
    } else {
      var front, last := b[..|b| - 1], b[|b| - 1];
      assert (a + b)[..|a + b| - 1] == a + front;
      ConcatSplit(a, front);
      assert Concat(a) + Concat(front) + last == Concat(a) + (Concat(front) + last);
    }
  }

  lemma ConcatCut(files: seq<seq<Line>>, n: nat)
    requires n <= |files|
    ensures Concat(files) == Concat(files[..n]) + Concat(files[n..])
  {
    assert files == files[..n] + files[n..];
    ConcatSplit(files[..n], files[n..]);
  }

  lemma ConcatFrom(files: seq<seq<Line>>, n: nat)
    requires n < |files|
    ensures Concat(files[n..]) == files[n] + Concat(files[n + 1..])
  {
    assert files[n..] == [files[n]] + files[n + 1..];
    ConcatSplit([files[n]], files[n + 1..]);
    ConcatOne(files[n]);
  }

  lemma ConcatOne(file: seq<Line>)
    ensures Concat([file]) == file
  {
    assert Concat([file]) == Concat([file][..0]) + file;
  }

  lemma {:induction false} ReadingIsTheLatest(s: Log, keep: nat, k: nat)
    requires s.handle + 1 == |s.disk.files| && Contiguous(s, keep)
    ensures Reading(s.disk, k) == Concat(s.disk.files[s.handle - Min(k, Min(keep, s.handle))..])
  {
    hide Contiguous, Concat, LinesAt;
    var h, files := s.handle, s.disk.files;
    NameLeadsTo(s, keep, k);
    if k == 0 {
      assert files[h..] == [files[h]];
      ConcatOne(files[h]);
    } else {
      ReadingIsTheLatest(s, keep, k - 1);
      assert Reading(s.disk, k) == LinesAt(s.disk, k) + Reading(s.disk, k - 1);
      var m := Min(keep, h);
      if k <= m {
        assert Min(k, m) == k && Min(k - 1, m) == k - 1;
        ConcatFrom(files, h - k);
      } else {
        assert Min(k, m) == Min(k - 1, m);
        assert LinesAt(s.disk, k) == [];
      }
    }
  }

  lemma NameLeadsTo(s: Log, keep: nat, k: nat)
    requires s.handle + 1 == |s.disk.files| && Contiguous(s, keep)
    ensures LinesAt(s.disk, k) == if k <= Min(keep, s.handle) then s.disk.files[s.handle - k] else []
  {
    assert InodeAt(s.disk.names, k) == Latest(s.handle, keep, k);
  }

  lemma NoFilesNoLines(files: seq<seq<Line>>)
    ensures Concat(files[..0]) == []
  {
  }

  /**
   Without outside changes and IO errors the log, read from `.keep` to the buffer, is
   the end of the whole logged sequence: nothing reordered, repeated or lost but the
   oldest files, and nothing at all while no more than `keep` rotations happened.
   */
  lemma {:induction false} LogIsTheEndOfEverything(s: Log, p: Policy, steps: seq<Step>)
    requires s.Valid() && Sound(s) && Contiguous(s, p.keep) && Undisturbed(steps)
    ensures var r := Run(s, p, steps);
      var gone := r.handle - Min(p.keep, r.handle);
      && Everything(s) + Accepted(steps) == Concat(r.disk.files[..gone]) + Visible(r, p.keep)
      && (r.handle <= p.keep ==> Visible(r, p.keep) == Everything(s) + Accepted(steps))
  {
    hide Contiguous, NewestFirst, Accounted, Run, Concat, Reading, Accepted;
    var r := Run(s, p, steps);
    RunFollows(s, p, steps);
    RunContiguous(s, p, steps);
    var gone := r.handle - Min(p.keep, r.handle);
    ReadingIsTheLatest(r, p.keep, p.keep);
    ConcatCut(r.disk.files, gone);
    NoFilesNoLines(r.disk.files);
    assert Concat(r.disk.files[..gone]) + Concat(r.disk.files[gone..]) + r.buffer
        == Concat(r.disk.files[..gone]) + (Concat(r.disk.files[gone..]) + r.buffer);
  }

  // ---- Any run: the log is everything with whole files left out -----------------------------

  /** The lines of the files in `inodes`, in creation order. */
  function Selected(files: seq<seq<Line>>, inodes: set<nat>): seq<Line> {
    if files == [] then []
    else
      var n := |files| - 1;
      Selected(files[..n], inodes) + (if n in inodes then files[n] else [])
  }

  /** The inodes at the names up to `.k`. */
  ghost function NamedUpTo(names: map<nat, nat>, k: nat): set<nat> {
    set j | j in names && j <= k :: names[j]
  }

  lemma {:induction false} SelectedOldest(files: seq<seq<Line>>, oldest: nat, inodes: set<nat>)
    requires oldest < |files| && forall i :: i in inodes ==> oldest < i
    ensures Selected(files, {oldest} + inodes) == files[oldest] + Selected(files, inodes)
  {
    var n := |files| - 1;
    if oldest == n {
      NoneSelected(files[..n], {oldest} + inodes);
      NoneSelected(files[..n], inodes);
    } else {
      SelectedOldest(files[..n], oldest, inodes);
      assert files[..n][oldest] == files[oldest];
      var tail := if n in inodes then files[n] else [];
      assert files[oldest] + Selected(files[..n], inodes) + tail == files[oldest] + (Selected(files[..n], inodes) + tail);
    }
  }

  lemma {:induction false} NoneSelected(files: seq<seq<Line>>, inodes: set<nat>)
    requires forall i :: i in inodes ==> i >= |files|
    ensures Selected(files, inodes) == []
  {
    if files != [] {
      NoneSelected(files[..|files| - 1], inodes);
    }
  }

  /** In every sound state reading the names from `.k` down keeps the order of creation. */
  lemma {:induction false} ReadingKeepsTheOrder(d: Disk, k: nat)
    requires NewestFirst(d.names) && Accounted(d)
    ensures Reading(d, k) == Selected(d.files, NamedUpTo(d.names, k))
  {
    hide Selected;
    if k in d.names {
      assert d.names[k] in d.names.Values;
      assert d.names[k] in Inodes(|d.files|);
    }
    if k == 0 {
      assert NamedUpTo(d.names, 0) == (if 0 in d.names then {d.names[0]} + {} else {});
      NoneSelected(d.files, {});
      if 0 in d.names {
        SelectedOldest(d.files, d.names[0], {});
      }
    } else {
      ReadingKeepsTheOrder(d, k - 1);
      if k in d.names {
        assert NamedUpTo(d.names, k) == {d.names[k]} + NamedUpTo(d.names, k - 1);
        SelectedOldest(d.files, d.names[k], NamedUpTo(d.names, k - 1));
      } else {
        assert NamedUpTo(d.names, k) == NamedUpTo(d.names, k - 1);
      }
    }
  }

  // ---- Where runs start ---------------------------------------------------------------------

  /** A writer just started on a log it found: the files made from then on are known to fit. */
  lemma {:induction false} FoundLogIsCalm(s: Log, p: Policy)
    requires s.Valid() && Sound(s) && s.buffer == [] && s.size == Bytes(s.disk.files[s.handle]) && s.disk.evicted == {}
    ensures CalmInvariant(s, p, s.handle + 1)
  {
    assert Current(s) == s.disk.files[s.handle];
  }

  /** And on a log it made, everything the runs above ask for holds. */
  lemma {:induction false} NewLogIsCalm(p: Policy)
    ensures NewLog().Valid() && Sound(NewLog()) && CalmInvariant(NewLog(), p, 0) && Contiguous(NewLog(), p.keep)
  {
    var s := NewLog();
    NewLogIsSound();
    assert Current(s) == [];
    forall k: nat
      ensures InodeAt(s.disk.names, k) == Latest(s.handle, p.keep, k)
    {
    }
  }

  // ---- What a failing step leaves --------------------------------------------------------------

  /**
   With `keep` at least 1 no failing step of a rotation loses the current file: it
   stays at the path or becomes `.1`, and the file written to next, which gets the
   buffered entries, is at one of the two names as well.
   */
  lemma RotationKeepsTheCurrentFile(s: Log, keep: nat, o: RotateOutcome)
    requires s.Valid() && Sound(s) && keep >= 1 && 0 in s.disk.names
    ensures var r := Rotated(s, keep, o);
      && (InodeAt(r.disk.names, 0) == Some(s.handle) || InodeAt(r.disk.names, 1) == Some(s.handle))
      && (InodeAt(r.disk.names, 0) == Some(r.handle) || InodeAt(r.disk.names, 1) == Some(r.handle))
      && Everything(r) == Everything(s)
  {
    hide NewestFirst, Accounted, Everything, Spilled, NumberedShifted;
    RotateFollows(s, keep, o);
    assert Everything(s) + [] == Everything(s);
    if !o.statFails {
      var f := FlushedBuffer(s, o.stuck);
      SpillKeepsNames(s, |s.buffer| - Min(o.stuck, |s.buffer|));
      var shifted := NumberedShifted(f.disk, keep, o);
      FlushBufferFollows(s, o.stuck);
      NumberedShiftKeepsAccount(f.disk, keep, o);
      if !o.moveFails {
        var m := f.(disk := LogMoved(shifted.0, keep), errors := f.errors + shifted.1);
        assert Rotated(s, keep, o) == Reopened(m, o.reopen);
        ReopenLeavesTheOthers(m, o.reopen);
      }
    }
  }

  /**
   Making a new file at an empty path touches no other name and no line of another
   file; the buffered entries are the new file's first, in order, and all it counts.
   */
  lemma ReopenLeavesTheOthers(s: Log, o: ReopenOutcome)
    requires s.Valid()
    ensures var r := Reopened(s, o);
      && (forall k: nat :: k > 0 ==> InodeAt(r.disk.names, k) == InodeAt(s.disk.names, k))
      && r.disk.files[..|s.disk.files|] == s.disk.files
      && (!o.createFails && 0 !in s.disk.names ==>
            && InodeAt(r.disk.names, 0) == Some(r.handle) && r.handle == |s.disk.files|
            && r.disk.files[r.handle] + r.buffer == s.buffer
            && r.size == Bytes(s.buffer) && r.errors == s.errors)
      && (o.createFails || 0 in s.disk.names ==>
            r == s.(size := 0, errors := s.errors + 1))
  {
    if !o.createFails && 0 !in s.disk.names {
      var n := Min(o.spill, |s.buffer|);
      var none: seq<Line> := [];
      assert none + s.buffer[..n] == s.buffer[..n];
      assert s.buffer[..n] + s.buffer[n..] == s.buffer;
    }
  }

  /** A flush without errors empties the buffer into the file at the path, a new one when the path was empty. */
  lemma FlushReachesThePath(s: Log, o: FlushOutcome)
    requires s.Valid() && Sound(s) && s.buffer != [] && CalmReopen(o.check) && o.stuck == 0
    ensures var r := Flushed(s, o);
      && r.buffer == [] && InodeAt(r.disk.names, 0) == Some(r.handle)
      && r.disk.files[r.handle] == (if 0 in s.disk.names then s.disk.files[s.handle] else []) + s.buffer
  {
    hide NewestFirst, Accounted, Reopened;
    var s1 := ReopenedIfRemoved(s, o.check);
    if 0 !in s.disk.names {
      ReopenLeavesTheOthers(s, o.check);
    }
    WholeBufferSpills(s1);
    var none: seq<Line> := [];
    assert none + s.buffer == s.buffer;
  }
}
