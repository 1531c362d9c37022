/**
 What every run of the audit writer keeps: entries are never reordered, repeated or
 lost on the way to the files, whatever fails and whatever an operator does to the
 files between two calls.
 */
module AuditRuns {
  import opened AuditWriter

  // ---- Runs ---------------------------------------------------------------------------

  /** A call of the writer, or an operator's `rm` or `mv` of the log (name 0) or of a numbered file. */
  datatype Step =
    | Write(line: Line, write: WriteOutcome)
    | Flush(flush: FlushOutcome)
    | OperatorRemoves(name: nat)
    | OperatorMoves(name: nat)

  function NameRemoved(d: Disk, k: nat): Disk {
    if k in d.names then d.(names := d.names - {k}, removed := d.removed + {d.names[k]}) else d
  }

  function NameMoved(d: Disk, k: nat): Disk {
    if k in d.names then d.(names := d.names - {k}, away := d.away + {d.names[k]}) else d
  }

  function Next(s: Log, p: Policy, step: Step): (r: Log)
    requires s.Valid()
    ensures r.Valid()
  {
    match step
    case Write(line, o) => Written(s, line, p, o)
    case Flush(o) => Flushed(s, o)
    case OperatorRemoves(k) => s.(disk := NameRemoved(s.disk, k))
    case OperatorMoves(k) => s.(disk := NameMoved(s.disk, k))
  }

  function Run(s: Log, p: Policy, steps: seq<Step>): (r: Log)
    requires s.Valid()
    ensures r.Valid()
  {
    if steps == [] then s else Next(Run(s, p, steps[..|steps| - 1]), p, steps[|steps| - 1])
  }

  /** The entries the writer took in: all but those whose own write was refused. */
  function Accepted(steps: seq<Step>): seq<Line> {
    if steps == [] then []
    else
      var last := steps[|steps| - 1];
      Accepted(steps[..|steps| - 1]) + (if last.Write? && !last.write.refused then [last.line] else [])
  }

  // ---- Everything logged ----------------------------------------------------------------

  function Concat(files: seq<seq<Line>>): seq<Line> {
    if files == [] then [] else Concat(files[..|files| - 1]) + files[|files| - 1]
  }

  /** All that ever reached an inode, in creation order, and what is still buffered. */
  function Everything(s: Log): seq<Line> {
    Concat(s.disk.files) + s.buffer
  }

  // ---- The invariant ----------------------------------------------------------------------

  ghost predicate NewestFirst(names: map<nat, nat>) {
    forall j, k :: j in names && k in names && j < k ==> names[k] < names[j]
  }

  ghost function Inodes(n: nat): (r: set<nat>)
    ensures forall i: nat :: i in r <==> i < n
  {
    if n == 0 then {} else Inodes(n - 1) + {n - 1}
  }

  /** Every inode is at a name, or was removed, moved away or evicted; exactly one of these. */
  ghost predicate Accounted(d: Disk) {
    && Inodes(|d.files|) == d.names.Values + d.removed + d.away + d.evicted
    && d.names.Values !! d.removed !! d.away !! d.evicted
  }

  ghost predicate Sound(s: Log) {
    && s.handle + 1 == |s.disk.files|
    && (0 in s.disk.names ==> s.disk.names[0] == s.handle)
    && NewestFirst(s.disk.names)
    && Accounted(s.disk)
  }

  /** A log made just now. */
  function NewLog(): Log {
    Log(Disk(map[0 := 0], [[]], {}, {}, {}), 0, [], 0, 0)
  }

  lemma NewLogIsSound()
    ensures NewLog().Valid() && Sound(NewLog())
  {
    var d := NewLog().disk;
    assert d.names[0] == 0;
    assert d.names.Values == {0};
    assert Inodes(1) == Inodes(0) + {0} == {0};
  }

  // ---- Each step keeps it -----------------------------------------------------------------

  /** `r` follows `s`: `line` is new, and what was in a file is still there, in front. */
  ghost predicate Follows(s: Log, r: Log, lines: seq<Line>) {
    && Sound(r)
    && Everything(r) == Everything(s) + lines
    && |s.disk.files| <= |r.disk.files|
    && forall i :: 0 <= i < |s.disk.files| ==> s.disk.files[i] <= r.disk.files[i]
  }

  lemma FollowsTransitive(s: Log, t: Log, r: Log, a: seq<Line>, b: seq<Line>)
    requires Follows(s, t, a) && Follows(t, r, b)
    ensures Follows(s, r, a + b)
    ensures a == [] ==> Follows(s, r, b)
    ensures b == [] ==> Follows(s, r, a)
  {
    hide Sound, Everything;
    assert Everything(s) + a + b == Everything(s) + (a + b);
    assert a == [] ==> a + b == b;
    assert b == [] ==> a + b == a;
  }

  lemma ConcatAppend(files: seq<seq<Line>>, lines: seq<Line>)
    requires files != []
    ensures var h := |files| - 1; Concat(files[h := files[h] + lines]) == Concat(files) + lines
  {
    var h := |files| - 1;
    var files' := files[h := files[h] + lines];
    assert files'[..h] == files[..h];
    assert Concat(files[..h]) + (files[h] + lines) == Concat(files[..h]) + files[h] + lines;
  }

  lemma SpillFollows(s: Log, k: nat)
    requires s.Valid() && Sound(s)
    ensures Follows(s, Spilled(s, k), [])
  {
    var n := Min(k, |s.buffer|);
    ConcatAppend(s.disk.files, s.buffer[..n]);
    assert Concat(s.disk.files) + s.buffer[..n] + s.buffer[n..] == Concat(s.disk.files) + s.buffer;
  }

  lemma FlushBufferFollows(s: Log, stuck: nat)
    requires s.Valid() && Sound(s)
    ensures Follows(s, FlushedBuffer(s, stuck), [])
  {
    hide Sound, Spilled;
    SpillFollows(s, |s.buffer| - Min(stuck, |s.buffer|));
    SoundIgnoresCounts(s, stuck);
  }

  lemma SoundIgnoresCounts(s: Log, stuck: nat)
    requires s.Valid()
    ensures Sound(FlushedBuffer(s, stuck)) == Sound(Spilled(s, |s.buffer| - Min(stuck, |s.buffer|)))
  {
  }

  lemma ReopenFollows(s: Log, o: ReopenOutcome)
    requires s.Valid() && Sound(s)
    ensures Follows(s, Reopened(s, o), [])
  {
    if !o.createFails && 0 !in s.disk.names {
      var inode := |s.disk.files|;
      var d := s.disk.(names := s.disk.names[0 := inode], files := s.disk.files + [[]]);
      var s' := s.(disk := d, handle := inode, size := Bytes(s.buffer));
      NewNameAccounted(s.disk, inode);
      assert (s.disk.files + [[]])[..inode] == s.disk.files;
      assert Concat(s.disk.files) + [] == Concat(s.disk.files);
      SpillFollows(s', o.spill);
    }
  }

  lemma NewNameAccounted(d: Disk, inode: nat)
    requires Accounted(d) && NewestFirst(d.names) && 0 !in d.names && inode == |d.files|
    ensures var d' := d.(names := d.names[0 := inode], files := d.files + [[]]);
      Accounted(d') && NewestFirst(d'.names)
  {
    var names' := d.names[0 := inode];
    forall k | k in d.names ensures d.names[k] < inode {
      assert d.names[k] in d.names.Values;
    }
    assert names'.Values == d.names.Values + {inode} by {
      assert names'[0] == inode;
      forall i | i in d.names.Values ensures i in names'.Values {
        var k :| k in d.names && d.names[k] == i;
        assert names'[k] == i;
      }
    }
  }

  lemma DropNameAccounted(d: Disk, k: nat)
    requires Accounted(d) && NewestFirst(d.names) && k in d.names
    ensures (d.names - {k}).Values == d.names.Values - {d.names[k]}
    ensures NewestFirst(d.names - {k})
  {
    var names' := d.names - {k};
    forall i | i in d.names.Values && i != d.names[k] ensures i in names'.Values {
      var j :| j in d.names && d.names[j] == i;
      assert names'[j] == i;
    }
  }

  lemma RemoveKeepsAccount(d: Disk, k: nat)
    requires Accounted(d) && NewestFirst(d.names) && k in d.names
    ensures Accounted(RemoveName(d, k)) && NewestFirst(RemoveName(d, k).names)
  {
    DropNameAccounted(d, k);
    var d' := RemoveName(d, k);
    assert d'.names.Values + d'.removed + d'.away + d'.evicted == d.names.Values + d.removed + d.away + d.evicted;
  }

  lemma OperatorKeepsAccount(d: Disk, k: nat)
    requires Accounted(d) && NewestFirst(d.names)
    ensures Accounted(NameRemoved(d, k)) && NewestFirst(NameRemoved(d, k).names)
    ensures Accounted(NameMoved(d, k)) && NewestFirst(NameMoved(d, k).names)
  {
    if k in d.names {
      DropNameAccounted(d, k);
      var a, b := NameRemoved(d, k), NameMoved(d, k);
      assert a.names.Values + a.removed + a.away + a.evicted == d.names.Values + d.removed + d.away + d.evicted;
      assert b.names.Values + b.removed + b.away + b.evicted == d.names.Values + d.removed + d.away + d.evicted;
    }
  }

  lemma RenameKeepsAccount(d: Disk, k: nat)
    requires Accounted(d) && NewestFirst(d.names) && k in d.names
    ensures Accounted(Rename(d, k, k + 1)) && NewestFirst(Rename(d, k, k + 1).names)
  {
    var d1 := if k + 1 in d.names then RemoveName(d, k + 1) else d;
    if k + 1 in d.names {
      RemoveKeepsAccount(d, k + 1);
    }
    MoveNameAccounted(d1, k);
    assert (d.names - {k})[k + 1 := d.names[k]] == (d1.names - {k})[k + 1 := d1.names[k]];
  }

  /** The name after `k` takes over what `k` leads to. */
  lemma MoveNameAccounted(d: Disk, k: nat)
    requires NewestFirst(d.names) && k in d.names && k + 1 !in d.names
    ensures var names' := (d.names - {k})[k + 1 := d.names[k]];
      names'.Values == d.names.Values && NewestFirst(names')
  {
    var names' := (d.names - {k})[k + 1 := d.names[k]];
    assert names'[k + 1] == d.names[k];
    forall i | i in d.names.Values ensures i in names'.Values {
      var j :| j in d.names && d.names[j] == i;
      assert names'[if j == k then k + 1 else j] == i;
    }
  }

  lemma {:induction false} ShiftKeepsAccount(d: Disk, k: nat, fails: set<nat>)
    requires Accounted(d) && NewestFirst(d.names)
    ensures var d' := Shifted(d, k, fails).0;
      && Accounted(d') && NewestFirst(d'.names)
      && (0 in d'.names <==> 0 in d.names) && (0 in d.names ==> d'.names[0] == d.names[0])
    decreases k
  {
    hide Accounted, NewestFirst;
    if k > 0 {
      if k !in fails && k in d.names {
        RenameKeepsAccount(d, k);
        ShiftKeepsAccount(Rename(d, k, k + 1), k - 1, fails);
      } else {
        ShiftKeepsAccount(d, k - 1, fails);
      }
    }
  }

  lemma NumberedShiftKeepsAccount(d: Disk, keep: nat, o: RotateOutcome)
    requires keep > 0 && Accounted(d) && NewestFirst(d.names)
    ensures var d' := NumberedShifted(d, keep, o).0;
      && Accounted(d') && NewestFirst(d'.names)
      && (0 in d'.names <==> 0 in d.names) && (0 in d.names ==> d'.names[0] == d.names[0])
  {
    hide Accounted, NewestFirst;
    if !o.removeFails && keep in d.names {
      RemoveKeepsAccount(d, keep);
      ShiftKeepsAccount(RemoveName(d, keep), keep - 1, o.renameFails);
    } else {
      ShiftKeepsAccount(d, keep - 1, o.renameFails);
    }
  }

  /** The writer's state up to the names and counts, which a rotation changes without touching a line. */
  lemma SameLinesFollow(s: Log, r: Log)
    requires s.disk.files == r.disk.files && s.buffer == r.buffer && Sound(r)
    ensures Follows(s, r, [])
  {
  }

  lemma RotateFollows(s: Log, keep: nat, o: RotateOutcome)
    requires s.Valid() && Sound(s)
    ensures Follows(s, Rotated(s, keep, o), [])
  {
    hide Accounted, NewestFirst, Everything, Reopened, FlushedBuffer, NumberedShifted;
    if o.statFails {
      SameLinesFollow(s, s.(size := 0, errors := s.errors + 1));
    } else if 0 !in s.disk.names {
      ReopenFollows(s, o.reopen);
    } else {
      var f := FlushedBuffer(s, o.stuck);
      FlushBufferFollows(s, o.stuck);
      FlushKeepsNames(s, o.stuck);
      var shifted := if keep == 0 then (f.disk, 0) else NumberedShifted(f.disk, keep, o);
      if keep > 0 {
        NumberedShiftKeepsAccount(f.disk, keep, o);
      }
      var s' := f.(disk := shifted.0, errors := f.errors + shifted.1);
      SameLinesFollow(f, s');
      FollowsTransitive(s, f, s', [], []);
      if o.moveFails {
        SameLinesFollow(s', s'.(size := 0, errors := s'.errors + 1));
        FollowsTransitive(s, s', s'.(size := 0, errors := s'.errors + 1), [], []);
      } else {
        if keep == 0 {
          RemoveKeepsAccount(s'.disk, 0);
        } else {
          RenameKeepsAccount(s'.disk, 0);
        }
        var m := s'.(disk := LogMoved(s'.disk, keep));
        SameLinesFollow(s', m);
        ReopenFollows(m, o.reopen);
        FollowsTransitive(s, s', m, [], []);
        FollowsTransitive(s, m, Reopened(m, o.reopen), [], []);
      }
    }
  }

  lemma FlushKeepsNames(s: Log, stuck: nat)
    requires s.Valid()
    ensures FlushedBuffer(s, stuck).disk.names == s.disk.names && FlushedBuffer(s, stuck).handle == s.handle
  {
  }

  lemma ReopenIfRemovedFollows(s: Log, o: ReopenOutcome)
    requires s.Valid() && Sound(s)
    ensures Follows(s, ReopenedIfRemoved(s, o), [])
  {
    hide Accounted, NewestFirst, Everything, Reopened;
    if !o.statFails && 0 !in s.disk.names {
      ReopenFollows(s, o);
    }
  }

  lemma PutFollows(s: Log, line: Line)
    requires s.Valid() && Sound(s)
    ensures Follows(s, s.(buffer := s.buffer + [line], size := s.size + |line|), [line])
  {
    assert Concat(s.disk.files) + s.buffer + [line] == Concat(s.disk.files) + (s.buffer + [line]);
  }

  lemma WriteFollows(s: Log, line: Line, p: Policy, o: WriteOutcome)
    requires s.Valid() && Sound(s)
    ensures Follows(s, Written(s, line, p, o), if o.refused then [] else [line])
  {
    hide Sound, Everything, Reopened, Rotated, Spilled;
    var s1 := ReopenedIfRemoved(s, o.check);
    ReopenIfRemovedFollows(s, o.check);
    var s2 := if RotationIsDue(s1.size, line, p.maxBytes) then Rotated(s1, p.keep, o.rotate) else s1;
    if RotationIsDue(s1.size, line, p.maxBytes) {
      RotateFollows(s1, p.keep, o.rotate);
      FollowsTransitive(s, s1, s2, [], []);
    }
    if o.refused {
      SpillFollows(s2, o.spill);
      FollowsTransitive(s, s2, Spilled(s2, o.spill), [], []);
      CountsDoNotMatter(s, Spilled(s2, o.spill), [], s2.errors + 1);
    } else {
      var s3 := s2.(buffer := s2.buffer + [line], size := s2.size + |line|);
      PutFollows(s2, line);
      SpillFollows(s3, o.spill);
      FollowsTransitive(s, s2, s3, [], [line]);
      FollowsTransitive(s, s3, Spilled(s3, o.spill), [line], []);
    }
  }

  lemma CountsDoNotMatter(s: Log, r: Log, lines: seq<Line>, errors: nat)
    requires Follows(s, r, lines)
    ensures Follows(s, r.(errors := errors), lines)
  {
  }

  lemma NextFollows(s: Log, p: Policy, step: Step)
    requires s.Valid() && Sound(s)
    ensures Follows(s, Next(s, p, step), Accepted([step]))
  {
    hide Written, Everything, Accounted, NewestFirst, FlushedBuffer, Reopened;
    assert [step][..0] == [];
    match step
    case Write(line, o) =>
      WriteFollows(s, line, p, o);
      assert [] + [line] == [line];
    case Flush(o) =>
      var s1 := if s.buffer == [] then s else ReopenedIfRemoved(s, o.check);
      if s.buffer == [] {
        SameLinesFollow(s, s);
      } else {
        ReopenIfRemovedFollows(s, o.check);
      }
      FlushBufferFollows(s1, o.stuck);
      FollowsTransitive(s, s1, FlushedBuffer(s1, o.stuck), [], []);
    case OperatorRemoves(k) =>
      OperatorKeepsAccount(s.disk, k);
      SameLinesFollow(s, Next(s, p, step));
    case OperatorMoves(k) =>
      OperatorKeepsAccount(s.disk, k);
      SameLinesFollow(s, Next(s, p, step));
  }

  /** Whatever fails and whatever is removed or moved away. */
  lemma {:induction false} RunFollows(s: Log, p: Policy, steps: seq<Step>)
    requires s.Valid() && Sound(s)
    ensures Follows(s, Run(s, p, steps), Accepted(steps))
  {
    hide Next, Sound, Everything;
    if steps == [] {
      SameLinesFollow(s, s);
    } else {
      var front, last := steps[..|steps| - 1], steps[|steps| - 1];
      RunFollows(s, p, front);
      var t := Run(s, p, front);
      NextFollows(t, p, last);
      FollowsTransitive(s, t, Next(t, p, last), Accepted(front), Accepted([last]));
      assert [last][..0] == [];
      assert Accepted(steps) == Accepted(front) + Accepted([last]);
    }
  }
}
