/**
 Losing the log to an operator: when an entry is lost with a file it had already
 reached, and when one still goes to a file removed, moved away or evicted before it,
 which takes a look at the path that fails or a file that cannot be made. Otherwise the
 lines still buffered go to the files made afterwards, first and in order.
 */
module AuditRecovery {
  import opened Wrappers
  import opened AuditWriter
  import opened AuditRuns
  import opened AuditRotation
  import opened AuditReading

  /** The inodes at no name of the log. */
  function Gone(d: Disk): set<nat> {
    d.removed + d.away + d.evicted
  }

  /** The look at the path worked, and making a file there if nothing was found. */
  predicate SeesThePath(step: Step) {
    match step
    case Write(_, o) => CalmReopen(o.check)
    case Flush(o) => CalmReopen(o.check)
    case _ => true
  }

  predicate AllSeeThePath(steps: seq<Step>) {
    forall i :: 0 <= i < |steps| ==> SeesThePath(steps[i])
  }

  /** Nothing is written to a file but the one at hand, which is another one than before if a file was made. */
  ghost predicate TouchesOnly(s: Log, r: Log, inodes: set<nat>)
    requires s.Valid() && r.Valid()
  {
    && |s.disk.files| <= |r.disk.files|
    && (r.handle == s.handle || r.handle >= |s.disk.files|)
    && (forall i :: 0 <= i < |s.disk.files| && i !in inodes ==> r.disk.files[i] == s.disk.files[i])
    && Gone(s.disk) <= Gone(r.disk)
    && (0 !in s.disk.names ==> 0 !in r.disk.names || r.handle >= |s.disk.files|)
  }

  lemma SpillTouches(s: Log, k: nat)
    requires s.Valid()
    ensures TouchesOnly(s, Spilled(s, k), {s.handle})
    ensures s.buffer == [] ==> TouchesOnly(s, Spilled(s, k), {})
  {
    if s.buffer == [] {
      assert s.buffer[..Min(k, 0)] == [];
    }
  }

  lemma FlushTouches(s: Log, stuck: nat)
    requires s.Valid()
    ensures TouchesOnly(s, FlushedBuffer(s, stuck), {s.handle})
    ensures s.buffer == [] ==> TouchesOnly(s, FlushedBuffer(s, stuck), {})
    ensures FlushedBuffer(s, stuck).disk.names == s.disk.names
  {
    hide Spilled, Gone;
    SpillTouches(s, |s.buffer| - Min(stuck, |s.buffer|));
    SpillKeepsNames(s, |s.buffer| - Min(stuck, |s.buffer|));
  }

  /** Making a file leaves every other as it is. */
  lemma ReopenTouches(s: Log, o: ReopenOutcome)
    requires s.Valid()
    ensures TouchesOnly(s, Reopened(s, o), {})
    ensures CalmReopen(o) && 0 !in s.disk.names ==>
      0 in Reopened(s, o).disk.names && Reopened(s, o).handle >= |s.disk.files|
  {
    ReopenLeavesTheOthers(s, o);
  }

  lemma {:induction false} ShiftKeepsGone(d: Disk, k: nat, fails: set<nat>)
    ensures Gone(d) <= Gone(Shifted(d, k, fails).0)
    decreases k
  {
    if k > 0 {
      ShiftKeepsGone(if k in fails || k !in d.names then d else Rename(d, k, k + 1), k - 1, fails);
    }
  }

  lemma RotateTouches(s: Log, keep: nat, o: RotateOutcome)
    requires s.Valid()
    ensures TouchesOnly(s, Rotated(s, keep, o), {s.handle})
    ensures 0 !in s.disk.names ==> TouchesOnly(s, Rotated(s, keep, o), {})
  {
    hide Reopened, FlushedBuffer, NumberedShifted, LogMoved, Gone;
    if !o.statFails && 0 !in s.disk.names {
      ReopenTouches(s, o.reopen);
    } else if !o.statFails {
      FlushTouches(s, o.stuck);
      var f := FlushedBuffer(s, o.stuck);
      var shifted := if keep == 0 then (f.disk, 0) else NumberedShifted(f.disk, keep, o);
      if keep > 0 {
        NumberedShiftKeepsGone(f.disk, keep, o);
      }
      LogMovedKeepsGone(shifted.0, keep);
      if !o.moveFails {
        var m := f.(disk := LogMoved(shifted.0, keep), errors := f.errors + shifted.1);
        ReopenTouches(m, o.reopen);
      }
    }
  }

  lemma NumberedShiftKeepsGone(d: Disk, keep: nat, o: RotateOutcome)
    requires keep > 0
    ensures Gone(d) <= Gone(NumberedShifted(d, keep, o).0)
  {
    hide Shifted;
    ShiftKeepsGone(if o.removeFails || keep !in d.names then d else RemoveName(d, keep), keep - 1, o.renameFails);
  }

  lemma LogMovedKeepsGone(d: Disk, keep: nat)
    ensures Gone(d) <= Gone(LogMoved(d, keep))
  {
  }

  /** A step writes to the file at hand only, and not even there when the path was found empty. */
  lemma StepTouches(s: Log, p: Policy, step: Step)
    requires s.Valid()
    ensures TouchesOnly(s, Next(s, p, step), {s.handle})
    ensures 0 !in s.disk.names && SeesThePath(step) ==> TouchesOnly(s, Next(s, p, step), {})
  {
    hide Rotated, Reopened, Spilled, FlushedBuffer, Gone;
    match step
    case Write(line, o) =>
      WriteTouches(s, line, p, o);
    case Flush(o) =>
      if s.buffer != [] && !o.check.statFails && 0 !in s.disk.names {
        ReopenTouches(s, o.check);
      }
      FlushTouches(if s.buffer == [] then s else ReopenedIfRemoved(s, o.check), o.stuck);
    case OperatorRemoves(k) =>
      OperatorTouches(s, k);
    case OperatorMoves(k) =>
      OperatorTouches(s, k);
  }

  lemma OperatorTouches(s: Log, k: nat)
    requires s.Valid()
    ensures Gone(s.disk) <= Gone(NameRemoved(s.disk, k)) && Gone(s.disk) <= Gone(NameMoved(s.disk, k))
  {
  }

  lemma WriteTouches(s: Log, line: Line, p: Policy, o: WriteOutcome)
    requires s.Valid()
    ensures TouchesOnly(s, Written(s, line, p, o), {s.handle})
    ensures 0 !in s.disk.names && CalmReopen(o.check) ==> TouchesOnly(s, Written(s, line, p, o), {})
  {
    hide Rotated, Reopened, Spilled, Gone;
    var s1 := ReopenedIfRemoved(s, o.check);
    if !o.check.statFails && 0 !in s.disk.names {
      ReopenTouches(s, o.check);
    }
    var s2 := if RotationIsDue(s1.size, line, p.maxBytes) then Rotated(s1, p.keep, o.rotate) else s1;
    if RotationIsDue(s1.size, line, p.maxBytes) {
      RotateTouches(s1, p.keep, o.rotate);
    }
    var s3 := if o.refused then s2 else s2.(buffer := s2.buffer + [line], size := s2.size + |line|);
    SpillTouches(s3, o.spill);
    SpillKeepsNames(s3, o.spill);
  }

  // ---- Files that are gone ------------------------------------------------------------------

  lemma GoneIsNotNamed(s: Log)
    requires s.Valid() && Sound(s)
    ensures s.handle in Gone(s.disk) ==> 0 !in s.disk.names
    ensures s.handle + 1 == |s.disk.files| && forall i :: i in Gone(s.disk) ==> i < |s.disk.files|
  {
    hide NewestFirst;
    if 0 in s.disk.names {
      assert s.disk.names[0] in s.disk.names.Values;
    }
    assert forall i :: i in Gone(s.disk) ==> i in Inodes(|s.disk.files|);
  }

  /** With any step failing: a file that is gone grows only when it is the one at hand and the look at the path failed. */
  lemma {:induction false} GoneFilesGrowOnlyUnseen(s: Log, p: Policy, step: Step, i: nat)
    requires s.Valid() && Sound(s) && i in Gone(s.disk)
    ensures var r := Next(s, p, step);
      && i in Gone(r.disk) && i < |s.disk.files| <= |r.disk.files|
      && (r.disk.files[i] != s.disk.files[i] ==> i == s.handle && !SeesThePath(step))
  {
    hide Next, Gone, Sound, SeesThePath;
    GoneIsNotNamed(s);
    StepTouches(s, p, step);
  }

  lemma {:induction false} GoneFilesStay(s: Log, p: Policy, steps: seq<Step>, i: nat)
    requires s.Valid() && Sound(s) && i in Gone(s.disk) && AllSeeThePath(steps)
    ensures var r := Run(s, p, steps);
      i in Gone(r.disk) && i < |s.disk.files| <= |r.disk.files| && r.disk.files[i] == s.disk.files[i]
  {
    hide Next, Gone, Sound, SeesThePath;
    if steps == [] {
      GoneIsNotNamed(s);
    } else {
      var front := steps[..|steps| - 1];
      GoneFilesStay(s, p, front, i);
      RunFollows(s, p, front);
      GoneFilesGrowOnlyUnseen(Run(s, p, front), p, steps[|steps| - 1], i);
    }
  }

  /** What is gone in `t` is gone in `r`, with the same lines. */
  ghost predicate LinesStay(t: Log, r: Log) {
    && Gone(t.disk) <= Gone(r.disk)
    && forall i :: i in Gone(t.disk) ==> i < |t.disk.files| <= |r.disk.files| && r.disk.files[i] == t.disk.files[i]
  }

  lemma {:induction false} RunSplits(s: Log, p: Policy, steps: seq<Step>, n: nat)
    requires s.Valid() && n <= |steps|
    ensures Run(s, p, steps) == Run(Run(s, p, steps[..n]), p, steps[n..])
  {
    hide Next;
    if n == |steps| {
      assert steps[..n] == steps;
    } else {
      var front := steps[..|steps| - 1];
      RunSplits(s, p, front, n);
      assert front[..n] == steps[..n];
      assert steps[n..][..|steps[n..]| - 1] == front[n..];
    }
  }

  /** Between calls, while the looks at the path work. */
  lemma {:induction false} LinesStayWhileSeen(s: Log, p: Policy, steps: seq<Step>, n: nat)
    requires s.Valid() && Sound(s) && n <= |steps| && AllSeeThePath(steps[n..])
    ensures var t, r := Run(s, p, steps[..n]), Run(s, p, steps);
      LinesStay(t, r) && Everything(r) == Everything(t) + Accepted(steps[n..])
  {
    hide Run, Gone, Sound, SeesThePath, Accepted, Everything;
    var t := Run(s, p, steps[..n]);
    RunFollows(s, p, steps[..n]);
    RunFollows(t, p, steps[n..]);
    RunSplits(s, p, steps, n);
    forall i | i in Gone(t.disk)
      ensures i in Gone(Run(s, p, steps).disk) && i < |t.disk.files| <= |Run(s, p, steps).disk.files|
      ensures Run(s, p, steps).disk.files[i] == t.disk.files[i]
    {
      GoneFilesStay(t, p, steps[n..], i);
    }
  }

  lemma {:induction false} GoneOnlyGrows(s: Log, p: Policy, steps: seq<Step>)
    requires s.Valid()
    ensures Gone(s.disk) <= Gone(Run(s, p, steps).disk)
  {
    hide Next, Gone;
    if steps != [] {
      var front := steps[..|steps| - 1];
      GoneOnlyGrows(s, p, front);
      StepTouches(Run(s, p, front), p, steps[|steps| - 1]);
    }
  }

  /**
   Over every run, whatever fails and whatever is removed or moved away: the lines in
   the inodes in creation order, then the buffer, are exactly the entries taken in, in
   order. A line in an inode stays there; the inode is at a name, or an operator
   removed it or moved it away, or the rotation evicted it, which is for good; and a
   file that was gone before the run takes no line in it while the looks at the path work.
   */
  lemma {:induction false} NothingIsLostOnTheWay(s: Log, p: Policy, steps: seq<Step>)
    requires s.Valid() && Sound(s)
    ensures var r := Run(s, p, steps);
      && Sound(r)
      && Everything(r) == Everything(s) + Accepted(steps)
      && (forall i :: 0 <= i < |s.disk.files| ==> i < |r.disk.files| && s.disk.files[i] <= r.disk.files[i])
      && Gone(s.disk) <= Gone(r.disk)
      && (AllSeeThePath(steps) ==> LinesStay(s, r))
  {
    hide Run, Gone, Sound, SeesThePath, Accepted, Everything;
    RunFollows(s, p, steps);
    GoneOnlyGrows(s, p, steps);
    if AllSeeThePath(steps) {
      forall i | i in Gone(s.disk)
        ensures i < |s.disk.files| <= |Run(s, p, steps).disk.files|
        ensures Run(s, p, steps).disk.files[i] == s.disk.files[i]
      {
        GoneFilesStay(s, p, steps, i);
      }
    }
  }

  /**
   After any run, with failing steps and with files removed or moved away between the
   calls: the log read from `.keep` down is the whole logged sequence in order with
   whole files left out, and every file left out was removed, moved away, evicted or
   stands at a name above `.keep`. From the end of the call in which it went, a file
   got no more lines while the looks at the path worked.
   */
  lemma {:induction false} LogIsEverythingButWholeFiles(s: Log, p: Policy, steps: seq<Step>)
    requires s.Valid() && Sound(s)
    ensures var r := Run(s, p, steps);
      var shown := NamedUpTo(r.disk.names, p.keep);
      && Everything(s) + Accepted(steps) == Concat(r.disk.files) + r.buffer
      && Visible(r, p.keep) == Selected(r.disk.files, shown) + r.buffer
      && (forall i: nat :: i < |r.disk.files| && i !in shown ==>
            || i in Gone(r.disk)
            || exists k :: k > p.keep && k in r.disk.names && r.disk.names[k] == i)
    ensures forall n :: 0 <= n <= |steps| && AllSeeThePath(steps[n..]) ==>
      LinesStay(Run(s, p, steps[..n]), Run(s, p, steps))
  {
    hide Run, Reading, Selected, Concat, NewestFirst, LinesStay, AllSeeThePath;
    var r := Run(s, p, steps);
    RunFollows(s, p, steps);
    ReadingKeepsTheOrder(r.disk, p.keep);
    forall i: nat | i < |r.disk.files| && i !in NamedUpTo(r.disk.names, p.keep)
      ensures i in Gone(r.disk) || exists k :: k > p.keep && k in r.disk.names && r.disk.names[k] == i
    {
      assert i in Inodes(|r.disk.files|);
      if i in r.disk.names.Values {
        var k :| k in r.disk.names && r.disk.names[k] == i;
        assert k > p.keep;
      }
    }
    forall n | 0 <= n <= |steps| && AllSeeThePath(steps[n..])
      ensures LinesStay(Run(s, p, steps[..n]), r)
    {
      LinesStayWhileSeen(s, p, steps, n);
    }
  }

  // ---- Lines that arrive late ------------------------------------------------------------------

  /** The state in which a step last writes lines out: the path looked at, the rotation over, the entry taken in. */
  function Ready(s: Log, p: Policy, step: Step): (r: Log)
    requires s.Valid()
    ensures r.Valid()
  {
    match step
    case Write(line, o) =>
      var t := Turned(s, line, p, o);
      if o.refused then t else t.(buffer := t.buffer + [line], size := t.size + |line|)
    case Flush(o) => if s.buffer == [] then s else ReopenedIfRemoved(s, o.check)
    case _ => s
  }

  /** A write up to there, before it takes the entry in. */
  function Turned(s: Log, line: Line, p: Policy, o: WriteOutcome): (r: Log)
    requires s.Valid()
    ensures r.Valid()
  {
    var s1 := ReopenedIfRemoved(s, o.check);
    if RotationIsDue(s1.size, line, p.maxBytes) then Rotated(s1, p.keep, o.rotate) else s1
  }

  /** How many lines it then writes out. */
  function GoOut(s: Log, p: Policy, step: Step): nat
    requires s.Valid()
  {
    var n := |Ready(s, p, step).buffer|;
    match step
    case Write(_, o) => Min(o.spill, n)
    case Flush(o) => n - Min(o.stuck, n)
    case _ => 0
  }

  /** Lines go to a file that is gone already. */
  predicate ArrivesLate(s: Log, p: Policy, step: Step)
    requires s.Valid()
  {
    var t := Ready(s, p, step);
    t.handle in Gone(t.disk) && GoOut(s, p, step) > 0
  }

  /** The last part of a step. */
  lemma LastPart(s: Log, p: Policy, step: Step)
    requires s.Valid() && (step.Write? || step.Flush?)
    ensures var r := Next(s, p, step);
      r == Spilled(Ready(s, p, step), GoOut(s, p, step)).(errors := r.errors)
  {
    hide Rotated, ReopenedIfRemoved;
  }

  lemma NamedIsNotGone(s: Log, k: nat)
    requires Sound(s) && k in s.disk.names
    ensures s.disk.names[k] !in Gone(s.disk)
  {
    hide NewestFirst;
    assert s.disk.names[k] in s.disk.names.Values;
  }

  /** The state when a rotation has written the buffer out and has touched no name yet. */
  function BeforeMoving(s: Log, o: RotateOutcome): (r: Log)
    requires s.Valid()
    ensures r.Valid()
  {
    if o.statFails then s else FlushedBuffer(s, o.stuck)
  }

  /** A rotation sends no line to a file it has evicted: what is gone after it has the lines it had when the names were still in place. */
  lemma {:induction false} RotationEvictsWhatWasWritten(s: Log, keep: nat, o: RotateOutcome)
    requires s.Valid() && Sound(s) && 0 in s.disk.names
    ensures var f, r := BeforeMoving(s, o), Rotated(s, keep, o);
      && f.disk.names == s.disk.names && Gone(f.disk) == Gone(s.disk)
      && |s.disk.files| == |f.disk.files| <= |r.disk.files|
      && forall i :: 0 <= i < |s.disk.files| ==> r.disk.files[i] == f.disk.files[i]
    ensures forall i :: i in Gone(Rotated(s, keep, o).disk) ==> i < |s.disk.files|
  {
    hide Reopened, NumberedShifted, LogMoved, Sound;
    FlushKeepsDisk(s, o.stuck);
    RotateFollows(s, keep, o);
    GoneIsNotNamed(Rotated(s, keep, o));
    if !o.statFails && !o.moveFails {
      var f := FlushedBuffer(s, o.stuck);
      var shifted := if keep == 0 then (f.disk, 0) else NumberedShifted(f.disk, keep, o);
      var m := f.(disk := LogMoved(shifted.0, keep), errors := f.errors + shifted.1);
      ReopenLeavesTheOthers(m, o.reopen);
      if Rotated(s, keep, o).handle == |s.disk.files| {
        SoundAtPath(Rotated(s, keep, o));
        NamedIsNotGone(Rotated(s, keep, o), 0);
      }
    }
  }

  lemma FlushKeepsDisk(s: Log, stuck: nat)
    requires s.Valid()
    ensures var r := FlushedBuffer(s, stuck);
      && r.disk == s.disk.(files := r.disk.files) && |r.disk.files| == |s.disk.files| && r.handle == s.handle
      && |r.buffer| == Min(stuck, |s.buffer|)
  {
  }

  /** When the file at hand is gone after a rotation, with the log at its path before. */
  lemma {:induction false} RotatedHandIsGoneIff(s: Log, keep: nat, o: RotateOutcome)
    requires s.Valid() && Sound(s) && 0 in s.disk.names
    ensures var r := Rotated(s, keep, o);
      && (r.handle in Gone(r.disk) <==> keep == 0 && !o.statFails && !o.moveFails && o.reopen.createFails)
      && (r.handle in Gone(r.disk) ==> |r.buffer| == Min(o.stuck, |s.buffer|))
  {
    hide Reopened, NumberedShifted, FlushedBuffer, Sound, Gone;
    var r := Rotated(s, keep, o);
    RotateFollows(s, keep, o);
    FlushKeepsDisk(s, o.stuck);
    FlushBufferFollows(s, o.stuck);
    if !o.reopen.createFails {
      RotateStaysAtPath(s, keep, o);
      SoundAtPath(r);
      NamedIsNotGone(r, 0);
    } else if keep >= 1 {
      RotationKeepsTheCurrentFile(s, keep, o);
      NamedIsNotGone(r, if InodeAt(r.disk.names, 0) == Some(r.handle) then 0 else 1);
    } else if o.statFails || o.moveFails {
      SoundAtPath(r);
      NamedIsNotGone(r, 0);
    } else {
      var f := FlushedBuffer(s, o.stuck);
      SoundAtPath(f);
      LogIsEvicted(f.disk);
      var m := f.(disk := LogMoved(f.disk, 0), errors := f.errors + 0);
      assert r == Reopened(m, o.reopen);
      ReopenLeavesTheOthers(m, o.reopen);
    }
  }

  lemma LogIsEvicted(d: Disk)
    requires 0 in d.names
    ensures d.names[0] in Gone(LogMoved(d, 0)) && 0 !in LogMoved(d, 0).names
  {
  }

  /** And with nothing at the path. */
  lemma {:induction false} ReopenedHandIsGoneIff(s: Log, looks: bool, o: ReopenOutcome)
    requires s.Valid() && Sound(s) && 0 !in s.disk.names
    ensures var r := if looks then Reopened(s, o) else s;
      && Sound(r)
      && (r.handle in Gone(r.disk) <==> s.handle in Gone(s.disk) && (!looks || o.createFails))
      && (r.handle in Gone(r.disk) ==> r.buffer == s.buffer)
  {
    hide Sound;
    var r := Reopened(s, o);
    ReopenFollows(s, o);
    ReopenLeavesTheOthers(s, o);
    if looks && !o.createFails {
      NamedIsNotGone(r, 0);
    }
  }

  /** Whether the file at hand is gone when a step last writes out, from the state before it and what fails. */
  predicate HandIsGone(s: Log, p: Policy, step: Step) {
    match step
    case Write(line, o) =>
      if 0 in s.disk.names || CalmReopen(o.check) then
        // the rotation removed the log and could make no file
        && RotationIsDue(if 0 in s.disk.names then s.size else Bytes(s.buffer), line, p.maxBytes)
        && p.keep == 0 && !o.rotate.statFails && !o.rotate.moveFails && o.rotate.reopen.createFails
      else
        // the log was gone before, and neither the check nor a rotation made a file
        && s.handle in Gone(s.disk)
        && !(o.check.statFails && RotationIsDue(s.size, line, p.maxBytes) && CalmReopen(RotationsLook(o.rotate)))
    case Flush(o) => s.handle in Gone(s.disk) && (s.buffer == [] || !CalmReopen(o.check))
    case _ => s.handle in Gone(s.disk)
  }

  function RotationsLook(o: RotateOutcome): ReopenOutcome {
    o.reopen.(statFails := o.statFails)
  }

  /** The lines of the buffer a write still finds ahead of its own when the file at hand is gone. */
  function Ahead(s: Log, o: WriteOutcome): nat {
    if 0 in s.disk.names then Min(o.rotate.stuck, |s.buffer|)
    else if CalmReopen(o.check) then Min(o.rotate.stuck, |s.buffer| - Min(o.check.spill, |s.buffer|))
    else |s.buffer|
  }

  lemma {:induction false} TurnedHandIsGoneIff(s: Log, line: Line, p: Policy, o: WriteOutcome)
    requires s.Valid() && Sound(s)
    ensures var t := Turned(s, line, p, o);
      && Sound(t)
      && (t.handle in Gone(t.disk) <==> HandIsGone(s, p, Write(line, o)))
      && (t.handle in Gone(t.disk) ==> |t.buffer| == Ahead(s, o))
  {
    hide Sound, Rotated, Reopened, Gone;
    var s1 := ReopenedIfRemoved(s, o.check);
    ReopenIfRemovedFollows(s, o.check);
    if 0 !in s.disk.names {
      ReopenedHandIsGoneIff(s, !o.check.statFails, o.check);
      ReopenedSize(s, o.check);
    }
    if RotationIsDue(s1.size, line, p.maxBytes) {
      RotateFollows(s1, p.keep, o.rotate);
      if 0 in s1.disk.names {
        RotatedHandIsGoneIff(s1, p.keep, o.rotate);
      } else {
        ReopenedHandIsGoneIff(s1, !o.rotate.statFails, o.rotate.reopen);
        RotatedAway(s1, p.keep, o.rotate);
      }
    } else if 0 in s1.disk.names {
      SoundAtPath(s1);
      NamedIsNotGone(s1, 0);
    }
  }

  lemma ReopenedSize(s: Log, o: ReopenOutcome)
    requires s.Valid() && 0 !in s.disk.names
    ensures var r := Reopened(s, o);
      if o.createFails then r == s.(size := 0, errors := s.errors + 1)
      else r.size == Bytes(s.buffer) && 0 in r.disk.names && |r.buffer| == |s.buffer| - Min(o.spill, |s.buffer|)
  {
  }

  lemma RotatedAway(s: Log, keep: nat, o: RotateOutcome)
    requires s.Valid() && 0 !in s.disk.names
    ensures Rotated(s, keep, o) == if o.statFails then s.(size := 0, errors := s.errors + 1) else Reopened(s, o.reopen)
  {
  }

  /** Lines arrive late exactly in these steps, whatever else fails. */
  lemma {:induction false} ArrivesLateIff(s: Log, p: Policy, step: Step)
    requires s.Valid() && Sound(s)
    ensures ArrivesLate(s, p, step) <==>
      HandIsGone(s, p, step) && match step
                                case Write(_, o) => o.spill > 0 && (!o.refused || Ahead(s, o) > 0)
                                case Flush(o) => |s.buffer| > o.stuck
                                case _ => false
  {
    hide Sound, Turned, Gone, Reopened;
    match step
    case Write(line, o) =>
      TurnedHandIsGoneIff(s, line, p, o);
    case Flush(o) =>
      if s.buffer != [] && 0 !in s.disk.names {
        ReopenedHandIsGoneIff(s, !o.check.statFails, o.check);
      } else if 0 in s.disk.names {
        SoundAtPath(s);
        NamedIsNotGone(s, 0);
      }
    case _ =>
  }

  /** The entry of a write itself is lost with its call, in a file gone by then, exactly when it is let through there. */
  lemma {:induction false} NewLineIsLostIff(s: Log, line: Line, p: Policy, o: WriteOutcome)
    requires s.Valid() && Sound(s) && !o.refused
    ensures var r := Written(s, line, p, o);
      && Current(r) != [] && Current(r)[|Current(r)| - 1] == line
      && (r.handle in Gone(r.disk) && r.buffer == [] <==> HandIsGone(s, p, Write(line, o)) && o.spill > Ahead(s, o))
  {
    hide Sound, Turned, Gone, HandIsGone, Ahead, Spilled;
    var t := Turned(s, line, p, o);
    TurnedHandIsGoneIff(s, line, p, o);
    var u := t.(buffer := t.buffer + [line], size := t.size + |line|);
    assert Written(s, line, p, o) == Spilled(u, o.spill) by {
      WrittenIsTurned(s, line, p, o);
    }
    assert Current(u) == Current(t) + [line];
    SpillKeepsCurrent(u, o.spill);
    SpillLeaves(u, o.spill);
  }

  lemma WrittenIsTurned(s: Log, line: Line, p: Policy, o: WriteOutcome)
    requires s.Valid() && !o.refused
    ensures var t := Turned(s, line, p, o);
      Written(s, line, p, o) == Spilled(t.(buffer := t.buffer + [line], size := t.size + |line|), o.spill)
  {
    hide Rotated, ReopenedIfRemoved, Spilled;
  }

  lemma SpillLeaves(s: Log, k: nat)
    requires s.Valid()
    ensures var r := Spilled(s, k);
      r.handle == s.handle && Gone(r.disk) == Gone(s.disk) && |r.buffer| == |s.buffer| - Min(k, |s.buffer|)
  {
  }

  // ---- Exactly what is lost -----------------------------------------------------------------------

  /** Until a step last writes out it sends nothing to a file that was gone before it. */
  lemma {:induction false} ReadyKeepsGone(s: Log, p: Policy, step: Step)
    requires s.Valid() && Sound(s)
    ensures LinesStay(s, Ready(s, p, step)) && Sound(Ready(s, p, step))
  {
    hide Sound, Rotated, Reopened, Gone;
    GoneIsNotNamed(s);
    match step
    case Write(line, o) =>
      ReopenIfRemovedFollows(s, o.check);
      if 0 !in s.disk.names {
        ReopenTouches(s, o.check);
      }
      var s1 := ReopenedIfRemoved(s, o.check);
      var t := Turned(s, line, p, o);
      if RotationIsDue(s1.size, line, p.maxBytes) {
        RotateTouches(s1, p.keep, o.rotate);
        RotateFollows(s1, p.keep, o.rotate);
      }
      PutFollows(t, line);
    case Flush(o) =>
      ReopenIfRemovedFollows(s, o.check);
      if 0 !in s.disk.names {
        ReopenTouches(s, o.check);
      }
    case _ =>
  }

  /** Then it sends something to such a file exactly when lines arrive late. */
  lemma {:induction false} LinesStayIff(s: Log, p: Policy, step: Step)
    requires s.Valid() && Sound(s)
    ensures LinesStay(Ready(s, p, step), Next(s, p, step)) <==> !ArrivesLate(s, p, step)
    ensures ArrivesLate(s, p, step) ==>
      var t, r := Ready(s, p, step), Next(s, p, step);
      && t.handle < |t.disk.files| <= |r.disk.files|
      && t.handle in Gone(t.disk) && |t.disk.files[t.handle]| < |r.disk.files[t.handle]|
  {
    hide Sound, Ready, Gone, Written, Flushed;
    ReadyKeepsGone(s, p, step);
    var t := Ready(s, p, step);
    GoneIsNotNamed(t);
    if step.Write? || step.Flush? {
      LastPart(s, p, step);
      SpillLeaves(t, GoOut(s, p, step));
    } else {
      StepTouches(s, p, step);
      OperatorIsReady(s, p, step);
    }
  }

  lemma OperatorIsReady(s: Log, p: Policy, step: Step)
    requires s.Valid() && !step.Write? && !step.Flush?
    ensures Ready(s, p, step) == s && !ArrivesLate(s, p, step)
    ensures Next(s, p, step).disk.files == s.disk.files && Next(s, p, step).buffer == s.buffer
  {
  }

  /** From step `n` on no line arrives late. */
  ghost predicate NoneLate(s: Log, p: Policy, steps: seq<Step>, n: nat)
    requires s.Valid()
  {
    forall k :: n <= k < |steps| ==> !ArrivesLate(Run(s, p, steps[..k]), p, steps[k])
  }

  /** In the middle of step `k` and at the end of the run the files gone hold the same. */
  ghost predicate StaysFromStep(s: Log, p: Policy, steps: seq<Step>, k: nat)
    requires s.Valid() && k < |steps|
  {
    LinesStay(Ready(Run(s, p, steps[..k]), p, steps[k]), Run(s, p, steps))
  }

  lemma LinesStayOn(t: Log, m: Log, r: Log)
    requires LinesStay(t, m) && LinesStay(m, r)
    ensures LinesStay(t, r)
  {
    hide Gone;
  }

  lemma {:induction false} NoneLateStays(s: Log, p: Policy, steps: seq<Step>, n: nat)
    requires s.Valid() && Sound(s) && n <= |steps| && NoneLate(s, p, steps, n)
    ensures LinesStay(Run(s, p, steps[..n]), Run(s, p, steps))
    ensures forall k :: n <= k < |steps| ==> StaysFromStep(s, p, steps, k)
    decreases |steps|
  {
    hide Next, Ready, LinesStay, ArrivesLate, Sound, Run;
    RunFollows(s, p, steps[..n]);
    if n == |steps| {
      assert steps[..n] == steps;
      StaysAtOnce(Run(s, p, steps));
    } else {
      var front, last := steps[..|steps| - 1], steps[|steps| - 1];
      var t := Run(s, p, front);
      OneStepOn(s, p, steps);
      RunFollows(s, p, front);
      forall k | n <= k < |front| ensures !ArrivesLate(Run(s, p, front[..k]), p, front[k]) {
        assert front[..k] == steps[..k];
      }
      NoneLateStays(s, p, front, n);
      ReadyKeepsGone(t, p, last);
      LinesStayIff(t, p, last);
      assert front[..n] == steps[..n] && steps[..|front|] == front;
      LinesStayOn(t, Ready(t, p, last), Run(s, p, steps));
      LinesStayOn(Run(s, p, steps[..n]), t, Run(s, p, steps));
      forall k | n <= k < |steps| ensures StaysFromStep(s, p, steps, k) {
        if k < |front| {
          assert StaysFromStep(s, p, front, k) && front[..k] == steps[..k];
          LinesStayOn(Ready(Run(s, p, steps[..k]), p, steps[k]), t, Run(s, p, steps));
        }
      }
    }
  }

  lemma StaysAtOnce(s: Log)
    requires s.Valid() && Sound(s)
    ensures LinesStay(s, s)
  {
    GoneIsNotNamed(s);
  }

  lemma {:induction false} LateIsForGood(s: Log, p: Policy, steps: seq<Step>, k: nat)
    requires s.Valid() && Sound(s) && k < |steps| && ArrivesLate(Run(s, p, steps[..k]), p, steps[k])
    ensures !StaysFromStep(s, p, steps, k)
  {
    hide Next, Ready, ArrivesLate, Sound, Run, Gone, Everything;
    var t := Run(s, p, steps[..k]);
    RunFollows(s, p, steps[..k]);
    LinesStayIff(t, p, steps[k]);
    var m := Next(t, p, steps[k]);
    assert m == Run(s, p, steps[..k + 1]) by {
      assert steps[..k + 1][..k] == steps[..k];
      OneStepOn(s, p, steps[..k + 1]);
    }
    RunFollows(s, p, steps[..k + 1]);
    RunSplits(s, p, steps, k + 1);
    RunFollows(m, p, steps[k + 1..]);
  }

  lemma OneStepOn(s: Log, p: Policy, steps: seq<Step>)
    requires s.Valid() && steps != []
    ensures Run(s, p, steps) == Next(Run(s, p, steps[..|steps| - 1]), p, steps[|steps| - 1])
  {
  }

  /**
   Over every run, whatever fails: from step `n` on, and in the middle of its steps,
   files that are gone keep the very lines they had when they went, if and only if no
   line arrives late (`ArrivesLateIff` says in which steps one does). What an operator
   takes away or a rotation evicts is then all that is lost.
   */
  lemma {:induction false} OnlyWhatReachedAGoneFileIsLost(s: Log, p: Policy, steps: seq<Step>, n: nat)
    requires s.Valid() && Sound(s) && n <= |steps|
    ensures NoneLate(s, p, steps, n) <==> forall k :: n <= k < |steps| ==> StaysFromStep(s, p, steps, k)
    ensures NoneLate(s, p, steps, n) ==> LinesStay(Run(s, p, steps[..n]), Run(s, p, steps))
    ensures Everything(Run(s, p, steps)) == Everything(Run(s, p, steps[..n])) + Accepted(steps[n..])
  {
    hide Run, Sound, ArrivesLate, StaysFromStep, LinesStay, Accepted, Everything;
    RunFollows(s, p, steps[..n]);
    RunFollows(Run(s, p, steps[..n]), p, steps[n..]);
    RunSplits(s, p, steps, n);
    if NoneLate(s, p, steps, n) {
      NoneLateStays(s, p, steps, n);
    } else {
      var k :| n <= k < |steps| && ArrivesLate(Run(s, p, steps[..k]), p, steps[k]);
      LateIsForGood(s, p, steps, k);
    }
  }

  /** With `keep` at least 1 it is enough that the look at the path works. */
  lemma {:induction false} KeepingOneIsEnough(s: Log, p: Policy, step: Step)
    requires s.Valid() && Sound(s) && p.keep >= 1 && SeesThePath(step)
    ensures !ArrivesLate(s, p, step)
  {
    hide Sound, ArrivesLate;
    GoneIsNotNamed(s);
    ArrivesLateIff(s, p, step);
  }

  /** With `keep` 0 it is not: the file is removed, no new one can be made, and the entry goes where nobody finds it. */
  lemma {:induction false} LineCanArriveLate(a: Line, b: Line) returns (p: Policy, steps: seq<Step>)
    ensures p.keep == 0 && |steps| == 2 && AllSeeThePath(steps) && Accepted(steps) == [a, b]
    ensures var t, r := Run(NewLog(), p, steps[..1]), Run(NewLog(), p, steps);
      && ArrivesLate(t, p, steps[1])
      && Gone(t.disk) == {} && r.handle in Gone(r.disk) && r.buffer == []
      && Current(r) != [] && Current(r)[|Current(r)| - 1] == b
  {
    p := Policy(Some(1), 0);
    var s, calm := NewLog(), ReopenOutcome(false, false, 0);
    var rotate := RotateOutcome(false, 0, false, {}, false, calm);
    var first := WriteOutcome(calm, rotate, 0, false);
    var second := first.(rotate := rotate.(reopen := calm.(createFails := true)), spill := 1);
    steps := [Write(a, first), Write(b, second)];
    NewLogIsSound();
    var none: seq<Step> := [];
    assert steps[..1] == [Write(a, first)] && steps[..1][..0] == none && steps[..2] == steps;
    var t := Run(s, p, steps[..1]);
    RunFollows(s, p, steps[..1]);
    assert t == Written(s, a, p, first) by {
      OneStepOn(s, p, steps[..1]);
    }
    FirstWriteIsBuffered(a, p, first);
    ArrivesLateIff(t, p, steps[1]);
    NewLineIsLostIff(t, b, p, second);
    OneStepOn(s, p, steps);
  }

  lemma FirstWriteIsBuffered(line: Line, p: Policy, o: WriteOutcome)
    requires CalmReopen(o.check) && !o.refused && o.spill == 0
    ensures var s := NewLog();
      Written(s, line, p, o) == s.(buffer := [line], size := |line|)
  {
    var s, none: seq<Line> := NewLog(), [];
    assert none + [line] == [line] && [line][0..] == [line] && [line][..0] == none;
    assert s.disk.files[0] + none == s.disk.files[0];
    assert s.disk.files[0 := s.disk.files[0] + none] == s.disk.files;
  }

  // ---- What is buffered when the log goes ---------------------------------------------------------

  lemma {:induction false} FilesBeforeStay(s: Log, p: Policy, steps: seq<Step>)
    requires s.Valid() && Sound(s) && 0 !in s.disk.names && AllSeeThePath(steps)
    ensures var n, r := |s.disk.files|, Run(s, p, steps);
      && Sound(r) && n <= |r.disk.files| && r.disk.files[..n] == s.disk.files
      && (0 !in r.disk.names || r.handle >= n)
  {
    hide Next, Gone, Accounted, NewestFirst, SeesThePath;
    if steps != [] {
      var front, last := steps[..|steps| - 1], steps[|steps| - 1];
      FilesBeforeStay(s, p, front);
      var t := Run(s, p, front);
      StepTouches(t, p, last);
      NextFollows(t, p, last);
      forall i | 0 <= i < |s.disk.files|
        ensures Next(t, p, last).disk.files[i] == s.disk.files[i]
      {
        assert t.disk.files[..|s.disk.files|][i] == t.disk.files[i];
      }
    }
  }

  /**
   The log is gone with lines still buffered: they and the lines taken in afterwards
   are exactly what the files made since and the buffer hold, in order, over any run
   that sees the path, with further removals and all other failures.
   */
  lemma {:induction false} BufferedLinesGoOn(s: Log, p: Policy, steps: seq<Step>)
    requires s.Valid() && Sound(s) && 0 !in s.disk.names && AllSeeThePath(steps)
    ensures var n, r := |s.disk.files|, Run(s, p, steps);
      && n <= |r.disk.files|
      && Concat(r.disk.files[n..]) + r.buffer == s.buffer + Accepted(steps)
  {
    hide Run, Sound, Accepted, Concat, SeesThePath;
    var n, r := |s.disk.files|, Run(s, p, steps);
    FilesBeforeStay(s, p, steps);
    RunFollows(s, p, steps);
    ConcatCut(r.disk.files, n);
    var before := Concat(s.disk.files);
    assert before + (Concat(r.disk.files[n..]) + r.buffer) == Everything(r) == before + (s.buffer + Accepted(steps));
    SamePrefix(before, Concat(r.disk.files[n..]) + r.buffer, s.buffer + Accepted(steps));
  }

  lemma SamePrefix(a: seq<Line>, b: seq<Line>, c: seq<Line>)
    requires a + b == a + c
    ensures b == c
  {
    assert (a + b)[|a|..] == b && (a + c)[|a|..] == c;
  }

  /** An entry taken in ends at the path or in the buffer bound for it, unless no file could be made there. */
  lemma {:induction false} WrittenLineIsAtThePath(s: Log, line: Line, p: Policy, o: WriteOutcome)
    requires s.Valid() && Sound(s) && (0 in s.disk.names || CalmReopen(o.check)) && !o.rotate.reopen.createFails && !o.refused
    ensures var r := Written(s, line, p, o);
      && InodeAt(r.disk.names, 0) == Some(r.handle)
      && Current(r) != [] && Current(r)[|Current(r)| - 1] == line
  {
    hide Sound, Rotated, Reopened, Spilled;
    var s1 := ReopenedIfRemoved(s, o.check);
    ReopenIfRemovedFollows(s, o.check);
    if 0 !in s.disk.names {
      ReopenLeavesTheOthers(s, o.check);
    }
    var s2 := if RotationIsDue(s1.size, line, p.maxBytes) then Rotated(s1, p.keep, o.rotate) else s1;
    if RotationIsDue(s1.size, line, p.maxBytes) {
      RotateFollows(s1, p.keep, o.rotate);
      RotateStaysAtPath(s1, p.keep, o.rotate);
    }
    var s3 := s2.(buffer := s2.buffer + [line], size := s2.size + |line|);
    assert Current(s3) == Current(s2) + [line];
    SoundAtPath(s2);
    SpillKeepsCurrent(s3, o.spill);
  }

  lemma SoundAtPath(s: Log)
    requires Sound(s) && 0 in s.disk.names
    ensures InodeAt(s.disk.names, 0) == Some(s.handle)
  {
  }

  lemma RotateStaysAtPath(s: Log, keep: nat, o: RotateOutcome)
    requires s.Valid() && Sound(s) && 0 in s.disk.names && !o.reopen.createFails
    ensures 0 in Rotated(s, keep, o).disk.names
  {
    hide Sound, Reopened, FlushedBuffer, NumberedShifted, Accounted, NewestFirst;
    FlushTouches(s, o.stuck);
    var f := FlushedBuffer(s, o.stuck);
    FlushBufferFollows(s, o.stuck);
    if keep > 0 {
      FlushedAccount(f);
      NumberedShiftKeepsAccount(f.disk, keep, o);
    }
    var shifted := if keep == 0 then (f.disk, 0) else NumberedShifted(f.disk, keep, o);
    if !o.statFails && !o.moveFails {
      var m := f.(disk := LogMoved(shifted.0, keep), errors := f.errors + shifted.1);
      ReopenLeavesTheOthers(m, o.reopen);
    }
  }

  lemma FlushedAccount(s: Log)
    requires Sound(s)
    ensures Accounted(s.disk) && NewestFirst(s.disk.names)
  {
  }

  /** A write or flush without errors, the log at its path. */
  lemma CalmStepAtPath(s: Log, p: Policy, step: Step)
    requires s.Valid() && Sound(s) && 0 in s.disk.names && CalmStep(step) && (step.Write? || step.Flush?)
    ensures var r := Next(s, p, step);
      && 0 in r.disk.names && |s.disk.files| <= |r.disk.files|
      && (r.handle == s.handle ==> Current(s) <= Current(r))
      && (r.handle != s.handle ==> Current(s) == r.disk.files[s.handle])
  {
    hide NewestFirst, Accounted, Rotated, Spilled;
    match step
    case Write(line, o) =>
      var s2 := if RotationIsDue(s.size, line, p.maxBytes) then Rotated(s, p.keep, o.rotate) else s;
      if RotationIsDue(s.size, line, p.maxBytes) {
        CalmRotation(s, p.keep, o.rotate);
        assert s2.disk.files[s.handle] == Current(s);
      }
      var s3 := s2.(buffer := s2.buffer + [line], size := s2.size + |line|);
      assert s2.handle == s.handle ==> Current(s3) == Current(s) + [line];
      SpillKeepsCurrent(s3, o.spill);
    case Flush(o) =>
      SpillKeepsCurrent(s, |s.buffer|);
      assert FlushedBuffer(s, 0) == Spilled(s, |s.buffer|);
  }

  lemma SpillKeepsCurrent(s: Log, k: nat)
    requires s.Valid()
    ensures var r := Spilled(s, k);
      Current(r) == Current(s) && r.disk.names == s.disk.names && r.handle == s.handle && r.errors == s.errors
      && |r.disk.files| == |s.disk.files|
      && forall i :: 0 <= i < |s.disk.files| && i != s.handle ==> r.disk.files[i] == s.disk.files[i]
  {
    var n := Min(k, |s.buffer|);
    assert s.disk.files[s.handle] + s.buffer[..n] + s.buffer[n..] == s.disk.files[s.handle] + s.buffer;
  }

  /** What of the buffered lines is in the next file, or still to go there. */
  ghost predicate HeadsNextFile(s: Log, r: Log)
    requires r.Valid()
  {
    var n := |s.disk.files|;
    && n <= r.handle && 0 in r.disk.names
    && s.buffer <= if r.handle == n then Current(r) else r.disk.files[n]
  }

  function LookOf(step: Step): ReopenOutcome {
    match step
    case Write(_, o) => o.check
    case Flush(o) => o.check
    case _ => ReopenOutcome(false, false, 0)
  }

  lemma CalmLook(step: Step)
    requires CalmStep(step)
    ensures CalmReopen(LookOf(step))
  {
  }

  lemma SameStep(s: Log, p: Policy, step: Step)
    requires s.Valid() && 0 !in s.disk.names && CalmStep(step) && 0 in Reopened(s, LookOf(step)).disk.names
    requires step.Write? || (step.Flush? && s.buffer != [])
    ensures Next(s, p, step) == Next(Reopened(s, LookOf(step)), p, step)
  {
    hide Reopened, Written, Flushed;
    if step.Write? {
      SameWrite(s, step.line, p, step.write);
    } else {
      SameFlush(s, step.flush);
    }
  }

  lemma SameWrite(s: Log, line: Line, p: Policy, o: WriteOutcome)
    requires s.Valid() && 0 !in s.disk.names && CalmReopen(o.check) && 0 in Reopened(s, o.check).disk.names
    ensures Written(s, line, p, o) == Written(Reopened(s, o.check), line, p, o)
  {
    hide Reopened, Rotated, Spilled;
  }

  lemma SameFlush(s: Log, o: FlushOutcome)
    requires s.Valid() && 0 !in s.disk.names && s.buffer != [] && CalmReopen(o.check) && o.stuck == 0
    requires 0 in Reopened(s, o.check).disk.names
    ensures Flushed(s, o) == Flushed(Reopened(s, o.check), o)
  {
    hide Reopened, FlushedBuffer;
  }

  /** Until then nothing changes. */
  lemma EmptyFlushWaits(s: Log, p: Policy, step: Step)
    requires s.Valid() && step.Flush? && step.flush.stuck == 0 && s.buffer == []
    ensures Next(s, p, step) == s
  {
    var none: seq<Line> := [];
    assert none[..0] == none && none[0..] == none;
    assert s.disk.files[s.handle] + none == s.disk.files[s.handle];
    assert s.disk.files[s.handle := s.disk.files[s.handle] + none] == s.disk.files;
    assert FlushedBuffer(s, 0) == s;
  }

  /** And without further disturbance the lines buffered when the log went are the first of the next file, in order. */
  lemma {:induction false} BufferedLinesComeFirst(s: Log, p: Policy, steps: seq<Step>)
    requires s.Valid() && Sound(s) && 0 !in s.disk.names && Undisturbed(steps)
    ensures var r := Run(s, p, steps); HeadsNextFile(s, r) || (r == s && (steps == [] || s.buffer == []))
  {
    hide Accounted, NewestFirst, Next, CalmStep, Reopened;
    if steps != [] {
      var front, last := steps[..|steps| - 1], steps[|steps| - 1];
      BufferedLinesComeFirst(s, p, front);
      var t := Run(s, p, front);
      RunFollows(s, p, front);
      if !HeadsNextFile(s, t) {
        if last.Flush? && s.buffer == [] {
          CalmFlush(last);
          EmptyFlushWaits(s, p, last);
        } else {
          // the first step makes the file and goes on as if it had been there
          CalmLook(last);
          var u := Reopened(s, LookOf(last));
          ReopenLeavesTheOthers(s, LookOf(last));
          ReopenFollows(s, LookOf(last));
          assert Current(u) == s.buffer;
          SameStep(s, p, last);
          CalmStepAtPath(u, p, last);
          StepTouches(u, p, last);
        }
      } else {
        CalmStepAtPath(t, p, last);
        StepTouches(t, p, last);
      }
    }
  }

  lemma CalmFlush(step: Step)
    requires CalmStep(step) && step.Flush?
    ensures step.flush.stuck == 0
  {
  }
}
