/**
 What rotation does to the numbered files: in runs without IO errors the log reads,
 from the oldest file to the buffer, as the last entries taken in, every file holds
 what its size allows, and only the oldest file is ever evicted; and what a failing
 step of a rotation leaves in place.
 */
module AuditRotation {
  import opened Wrappers
  import opened AuditWriter
  import opened AuditRuns

  // ---- Runs without IO errors --------------------------------------------------------

  predicate CalmReopen(o: ReopenOutcome) {
    !o.statFails && !o.createFails
  }

  predicate CalmRotate(o: RotateOutcome) {
    !o.statFails && o.stuck == 0 && !o.removeFails && o.renameFails == {} && !o.moveFails && CalmReopen(o.reopen)
  }

  predicate CalmStep(step: Step) {
    match step
    case Write(_, o) => CalmReopen(o.check) && CalmRotate(o.rotate) && !o.refused
    case Flush(o) => CalmReopen(o.check) && o.stuck == 0
    case _ => true
  }

  predicate Calm(steps: seq<Step>) {
    forall i :: 0 <= i < |steps| ==> CalmStep(steps[i])
  }

  // ---- One rotation --------------------------------------------------------------------

  /** What a name leads to. */
  function InodeAt(names: map<nat, nat>, k: nat): Option<nat> {
    if k in names then Some(names[k]) else None
  }

  /** Every file up to `.k` moves up by one name. */
  ghost predicate MovedUp(before: map<nat, nat>, after: map<nat, nat>, k: nat) {
    forall j: nat :: InodeAt(after, j) == UpFrom(before, j, k)
  }

  function UpFrom(before: map<nat, nat>, j: nat, k: nat): Option<nat> {
    if j == 1 then None else if 2 <= j <= k + 1 then InodeAt(before, j - 1) else InodeAt(before, j)
  }

  /** With the name after `k` free, a shift without errors moves every file up to `.k`. */
  lemma {:induction false} CalmShift(d: Disk, k: nat)
    requires k + 1 !in d.names
    ensures MovedUp(d.names, Shifted(d, k, {}).0.names, k)
    ensures Shifted(d, k, {}) == (d.(names := Shifted(d, k, {}).0.names), 0)
    decreases k
  {
    if k > 0 {
      var d1 := if k in d.names then Rename(d, k, k + 1) else d;
      assert d1.evicted == d.evicted;
      CalmShift(d1, k - 1);
      MoveOneUp(d, d1, k, Shifted(d1, k - 1, {}).0.names);
    }
  }

  lemma MoveOneUp(d: Disk, d1: Disk, k: nat, names: map<nat, nat>)
    requires k > 0 && k + 1 !in d.names && d1 == if k in d.names then Rename(d, k, k + 1) else d
    requires MovedUp(d1.names, names, k - 1)
    ensures MovedUp(d.names, names, k)
  {
    forall j: nat
      ensures InodeAt(names, j) == UpFrom(d.names, j, k)
    {
      assert InodeAt(names, j) == UpFrom(d1.names, j, k - 1);
    }
  }

  /**
   A rotation: the current file with its buffer becomes `.1`, `.k` becomes `.k+1`,
   `.keep` is evicted, names above `.keep` stay, and the new file is empty.
   */
  ghost predicate RotatesTo(s: Log, keep: nat, r: Log)
    requires s.Valid()
  {
    && r.handle == s.handle + 1 && r.buffer == [] && r.size == 0 && r.errors == s.errors
    && InodeAt(r.disk.names, 0) == Some(r.handle)
    && (forall j: nat :: j > 0 ==> InodeAt(r.disk.names, j) == BeforeRotation(s.disk.names, keep, j))
    && r.disk.evicted == s.disk.evicted + (if keep in s.disk.names then {s.disk.names[keep]} else {})
    && r.disk.files == s.disk.files[s.handle := s.disk.files[s.handle] + s.buffer] + [[]]
  }

  /** What a numbered name leads to after a rotation, in terms of the names before. */
  function BeforeRotation(names: map<nat, nat>, keep: nat, j: nat): Option<nat>
    requires j > 0
  {
    if j <= keep then InodeAt(names, j - 1) else InodeAt(names, j)
  }

  lemma CalmRotation(s: Log, keep: nat, o: RotateOutcome)
    requires s.Valid() && Sound(s) && 0 in s.disk.names && CalmRotate(o)
    ensures RotatesTo(s, keep, Rotated(s, keep, o))
  {
    hide NewestFirst, Accounted, Shifted;
    var f := FlushedBuffer(s, 0);
    WholeBufferSpills(s);
    var d := CalmlyMoved(f.disk, keep, o);
    var moved := f.(disk := d);
    var r := Rotated(s, keep, o);
    assert r == Reopened(moved, o.reopen);
    ReopenEmpty(moved, o.reopen);
    forall j: nat | j > 0
      ensures InodeAt(r.disk.names, j) == BeforeRotation(s.disk.names, keep, j)
    {
      assert InodeAt(r.disk.names, j) == InodeAt(moved.disk.names, j);
    }
  }

  /** The names just before the new file is made. */
  lemma CalmlyMoved(d: Disk, keep: nat, o: RotateOutcome) returns (moved: Disk)
    requires 0 in d.names && CalmRotate(o)
    ensures moved == LogMoved(if keep == 0 then d else NumberedShifted(d, keep, o).0, keep)
    ensures keep > 0 ==> NumberedShifted(d, keep, o).1 == 0
    ensures moved.files == d.files && 0 !in moved.names
    ensures moved.evicted == d.evicted + (if keep in d.names then {d.names[keep]} else {})
    ensures forall j: nat :: j > 0 ==> InodeAt(moved.names, j) == BeforeRotation(d.names, keep, j)
  {
    hide Shifted;
    if keep == 0 {
      moved := RemoveName(d, 0);
    } else {
      var d1 := if keep in d.names then RemoveName(d, keep) else d;
      CalmShift(d1, keep - 1);
      var d2 := Shifted(d1, keep - 1, {}).0;
      assert InodeAt(d2.names, 0) == InodeAt(d1.names, 0) && InodeAt(d2.names, 1) == None;
      moved := Rename(d2, 0, 1);
      forall j: nat | j > 0
        ensures InodeAt(moved.names, j) == BeforeRotation(d.names, keep, j)
      {
        assert InodeAt(d2.names, j) == UpFrom(d1.names, j, keep - 1);
      }
    }
  }

  lemma WholeBufferSpills(s: Log)
    requires s.Valid()
    ensures FlushedBuffer(s, 0) == s.(disk := Append(s.disk, s.handle, s.buffer), buffer := [])
  {
    assert s.buffer[..|s.buffer|] == s.buffer && s.buffer[|s.buffer|..] == [];
  }

  lemma ReopenEmpty(s: Log, o: ReopenOutcome)
    requires s.Valid() && s.buffer == [] && 0 !in s.disk.names && CalmReopen(o)
    ensures Reopened(s, o) == Log(
      s.disk.(names := s.disk.names[0 := |s.disk.files|], files := s.disk.files + [[]]), |s.disk.files|, [], 0, s.errors)
  {
    var files, h, none: seq<Line> := s.disk.files + [[]], |s.disk.files|, [];
    assert files[h] + none == files[h];
    assert files[h := files[h] + none] == files;
    assert Bytes(none) == 0;
  }

  // ---- Sizes -------------------------------------------------------------------------------

  lemma {:induction false} BytesConcat(a: seq<Line>, b: seq<Line>)
    ensures Bytes(a + b) == Bytes(a) + Bytes(b)
  {
    if b == [] {
      assert a + b == a;
    } else {
      assert (a + b)[..|a + b| - 1] == a + b[..|b| - 1];
      BytesConcat(a, b[..|b| - 1]);
    }
  }

  lemma {:induction false} OnlyEmptyHasNoBytes(lines: seq<Line>)
    ensures Bytes(lines) == 0 <==> lines == []
  {
  }

  /** The lines of the current file, the buffered ones included. */
  function Current(s: Log): seq<Line>
    requires s.Valid()
  {
    s.disk.files[s.handle] + s.buffer
  }

  predicate Fits(lines: seq<Line>, max: nat) {
    Bytes(lines) <= max || |lines| <= 1
  }

  /** Every file from inode `first` on is within the limit or holds a single entry. */
  ghost predicate FilesFit(s: Log, max: nat, first: nat)
    requires s.Valid()
  {
    && (forall i :: first <= i < s.handle ==> Fits(s.disk.files[i], max))
    && (first <= s.handle ==> Fits(Current(s), max))
    && Fits(s.buffer, max)
  }

  /** The rotation evicted nothing newer than a file it still keeps. */
  ghost predicate OldestEvicted(s: Log, keep: nat) {
    forall e, k :: e in s.disk.evicted && k in s.disk.names && k <= keep ==> e < s.disk.names[k]
  }

  ghost predicate CalmInvariant(s: Log, p: Policy, first: nat)
    requires s.Valid()
  {
    && Sound(s)
    && s.size == Bytes(Current(s))
    && (p.maxBytes.Some? ==> FilesFit(s, p.maxBytes.value, first))
    && OldestEvicted(s, p.keep)
  }

  lemma CalmSpill(s: Log, k: nat, p: Policy, first: nat)
    requires s.Valid() && CalmInvariant(s, p, first)
    ensures CalmInvariant(Spilled(s, k), p, first)
    ensures Current(Spilled(s, k)) == Current(s)
  {
    hide NewestFirst, Accounted, Fits, Bytes;
    SpillFollows(s, k);
    var n := Min(k, |s.buffer|);
    assert s.disk.files[s.handle] + s.buffer[..n] + s.buffer[n..] == s.disk.files[s.handle] + s.buffer;
    if p.maxBytes.Some? {
      assert s.buffer[..n] + s.buffer[n..] == s.buffer;
      FitsPart(s.buffer[..n], s.buffer[n..], p.maxBytes.value);
    }
  }

  lemma FitsPart(a: seq<Line>, b: seq<Line>, max: nat)
    requires Fits(a + b, max)
    ensures Fits(a, max) && Fits(b, max)
  {
    BytesConcat(a, b);
  }

  lemma CalmReopened(s: Log, o: ReopenOutcome, p: Policy, first: nat)
    requires s.Valid() && CalmInvariant(s, p, first) && CalmReopen(o) && 0 !in s.disk.names
    ensures CalmInvariant(Reopened(s, o), p, first)
  {
    hide NewestFirst, Accounted, Fits, Bytes;
    var inode := |s.disk.files|;
    var d := s.disk.(names := s.disk.names[0 := inode], files := s.disk.files + [[]]);
    var t := s.(disk := d, handle := inode, size := Bytes(s.buffer));
    NewNameAccounted(s.disk, inode);
    assert Current(t) == s.buffer;
    if p.maxBytes.Some? && first <= s.handle {
      FitsPart(s.disk.files[s.handle], s.buffer, p.maxBytes.value);
    }
    if p.maxBytes.Some? {
      NewFileFits(s, t, p.maxBytes.value, first);
    }
    EvictedAreOlder(s.disk);
    CalmSpill(t, o.spill, p, first);
  }

  lemma EvictedAreOlder(d: Disk)
    requires Accounted(d)
    ensures forall e :: e in d.evicted ==> e < |d.files|
  {
    assert forall e :: e in d.evicted ==> e in Inodes(|d.files|);
  }

  lemma NewFileFits(s: Log, t: Log, max: nat, first: nat)
    requires s.Valid() && t.Valid() && FilesFit(s, max, first)
    requires t.handle == s.handle + 1 && t.disk.files == s.disk.files + [[]] && t.buffer == s.buffer
    requires s.handle + 1 == |s.disk.files|
    requires first <= s.handle ==> Fits(s.disk.files[s.handle], max)
    ensures FilesFit(t, max, first)
  {
    hide Fits;
    assert Current(t) == s.buffer;
  }

  lemma RotatedFits(s: Log, keep: nat, r: Log, max: nat, first: nat)
    requires s.Valid() && r.Valid() && Sound(s) && RotatesTo(s, keep, r) && FilesFit(s, max, first)
    ensures FilesFit(r, max, first)
  {
    hide Fits, NewestFirst, Accounted;
    assert Current(r) == [];
    assert forall i :: 0 <= i < s.handle ==> r.disk.files[i] == s.disk.files[i];
    assert r.disk.files[s.handle] == Current(s);
    NoLinesFit(max);
  }

  lemma NoLinesFit(max: nat)
    ensures Fits([], max)
  {
  }

  lemma RotatedEvictsOldest(s: Log, keep: nat, r: Log)
    requires s.Valid() && Sound(s) && RotatesTo(s, keep, r) && OldestEvicted(s, keep)
    ensures OldestEvicted(r, keep)
  {
    EvictedAreOlder(s.disk);
    forall e, k | e in r.disk.evicted && k in r.disk.names && k <= keep
      ensures e < r.disk.names[k]
    {
      if k == 0 {
        assert InodeAt(r.disk.names, 0) == Some(r.handle);
        assert keep in s.disk.names ==> s.disk.names[keep] in s.disk.names.Values;
        assert e in Inodes(|s.disk.files|);
      } else {
        assert InodeAt(r.disk.names, k) == BeforeRotation(s.disk.names, keep, k);
        assert k - 1 in s.disk.names;
      }
    }
  }

  lemma CalmRotated(s: Log, p: Policy, o: RotateOutcome, first: nat)
    requires s.Valid() && CalmInvariant(s, p, first) && 0 in s.disk.names && CalmRotate(o)
    ensures var r := Rotated(s, p.keep, o);
      CalmInvariant(r, p, first) && Current(r) == [] && r.buffer == []
  {
    hide NewestFirst, Accounted, Fits, Rotated, FilesFit, OldestEvicted;
    var r := Rotated(s, p.keep, o);
    CalmRotation(s, p.keep, o);
    RotateFollows(s, p.keep, o);
    RotatedEvictsOldest(s, p.keep, r);
    if p.maxBytes.Some? {
      RotatedFits(s, p.keep, r, p.maxBytes.value, first);
    }
  }

  lemma CalmPut(s: Log, line: Line, p: Policy, first: nat)
    requires s.Valid() && CalmInvariant(s, p, first) && !RotationIsDue(s.size, line, p.maxBytes)
    ensures CalmInvariant(s.(buffer := s.buffer + [line], size := s.size + |line|), p, first)
  {
    hide NewestFirst, Accounted;
    var r := s.(buffer := s.buffer + [line], size := s.size + |line|);
    assert Current(r) == Current(s) + [line];
    PutFollows(s, line);
    BytesConcat(Current(s), [line]);
    BytesConcat(s.disk.files[s.handle], s.buffer);
    BytesConcat(s.buffer, [line]);
    assert [line][..0] == [];
    OnlyEmptyHasNoBytes(Current(s));
    if p.maxBytes.Some? && s.size == 0 {
      assert s.buffer == [];
    }
  }

  lemma CalmWritten(s: Log, line: Line, p: Policy, o: WriteOutcome, first: nat)
    requires s.Valid() && CalmInvariant(s, p, first)
    requires CalmReopen(o.check) && CalmRotate(o.rotate) && !o.refused
    ensures CalmInvariant(Written(s, line, p, o), p, first)
  {
    hide CalmInvariant, Rotated, Spilled, Reopened;
    var s1 := ReopenedIfRemoved(s, o.check);
    if 0 !in s.disk.names {
      CalmReopened(s, o.check, p, first);
      ReopenTakesThePath(s, o.check);
    }
    var s2 := s1;
    if RotationIsDue(s1.size, line, p.maxBytes) {
      CalmRotated(s1, p, o.rotate, first);
      s2 := Rotated(s1, p.keep, o.rotate);
      SizeIsExact(s2, p, first);
    }
    CalmPut(s2, line, p, first);
    CalmSpill(s2.(buffer := s2.buffer + [line], size := s2.size + |line|), o.spill, p, first);
  }

  lemma SizeIsExact(s: Log, p: Policy, first: nat)
    requires s.Valid() && CalmInvariant(s, p, first)
    ensures s.size == Bytes(Current(s))
  {
  }

  lemma ReopenTakesThePath(s: Log, o: ReopenOutcome)
    requires s.Valid() && CalmReopen(o) && 0 !in s.disk.names
    ensures 0 in Reopened(s, o).disk.names
  {
  }

  /**
   Without IO errors a write to the log at its path starts a new file exactly when the
   current one holds something and the entry would take it past the limit.
   */
  lemma WriteRotatesIffFull(s: Log, line: Line, p: Policy, o: WriteOutcome, first: nat)
    requires s.Valid() && CalmInvariant(s, p, first) && 0 in s.disk.names
    requires CalmReopen(o.check) && CalmRotate(o.rotate) && !o.refused
    ensures Written(s, line, p, o).handle == s.handle +
      if p.maxBytes.Some? && Current(s) != [] && Bytes(Current(s)) + |line| > p.maxBytes.value then 1 else 0
  {
    hide NewestFirst, Accounted, Rotated, FilesFit;
    OnlyEmptyHasNoBytes(Current(s));
    if RotationIsDue(s.size, line, p.maxBytes) {
      CalmRotation(s, p.keep, o.rotate);
    }
  }

  lemma CalmNext(s: Log, p: Policy, step: Step, first: nat)
    requires s.Valid() && CalmInvariant(s, p, first) && CalmStep(step)
    ensures CalmInvariant(Next(s, p, step), p, first)
  {
    hide NewestFirst, Accounted, FilesFit, Written, Bytes;
    match step
    case Write(line, o) =>
      CalmWritten(s, line, p, o, first);
    case Flush(o) =>
      if s.buffer != [] && 0 !in s.disk.names {
        CalmReopened(s, o.check, p, first);
      }
      var s1 := if s.buffer == [] then s else ReopenedIfRemoved(s, o.check);
      CalmSpill(s1, |s1.buffer|, p, first);
      assert FlushedBuffer(s1, 0) == Spilled(s1, |s1.buffer|);
    case OperatorRemoves(k) =>
      OperatorKeepsAccount(s.disk, k);
      OperatorFits(s, Next(s, p, step), p, first);
    case OperatorMoves(k) =>
      OperatorKeepsAccount(s.disk, k);
      OperatorFits(s, Next(s, p, step), p, first);
  }

  lemma OperatorFits(s: Log, r: Log, p: Policy, first: nat)
    requires s.Valid() && r.Valid()
    requires r.handle == s.handle && r.buffer == s.buffer && r.disk.files == s.disk.files
    requires p.maxBytes.Some? ==> FilesFit(s, p.maxBytes.value, first)
    ensures p.maxBytes.Some? ==> FilesFit(r, p.maxBytes.value, first)
    ensures Current(r) == Current(s)
  {
  }

  /**
   Over every run without IO errors, removals and moves of the log and of numbered
   files included: the size count is the bytes of the current file and the buffer,
   every file made is within `max_bytes` or holds a single entry, and whatever was
   evicted is older than every file still kept. `first` is the first inode whose size
   is known to be right, the next one to be made if need be.
   */
  lemma {:induction false} CalmRunsKeepSizes(s: Log, p: Policy, steps: seq<Step>, first: nat)
    requires s.Valid() && CalmInvariant(s, p, first) && Calm(steps)
    ensures CalmInvariant(Run(s, p, steps), p, first)
  {
    hide CalmInvariant, Next, CalmStep;
    if steps != [] {
      var front, last := steps[..|steps| - 1], steps[|steps| - 1];
      CalmRunsKeepSizes(s, p, front, first);
      CalmNext(Run(s, p, front), p, last, first);
    }
  }

  // ---- After a rotation that made no file -------------------------------------------------------

  lemma {:induction false} CountIsAtMost(s: Log, p: Policy, step: Step)
    requires s.Valid()
    ensures var r := Next(s, p, step);
      r.handle >= s.handle && (r.handle == s.handle ==> r.size <= s.size + Bytes(Accepted([step])))
  {
    hide Spilled, NumberedShifted, LogMoved, FlushedBuffer;
    assert [step][..0] == [];
    if step.Write? {
      assert [step.line][..0] == [];
      WriteCounts(s, step.line, p, step.write);
    } else if step.Flush? {
      var s1 := if s.buffer == [] then s else ReopenedIfRemoved(s, step.flush.check);
      CountOfReopened(s, step.flush.check);
      CountOfFlushed(s1, step.flush.stuck);
    }
  }

  lemma CountOfSpilled(s: Log, k: nat)
    requires s.Valid()
    ensures Spilled(s, k).size == s.size && Spilled(s, k).handle == s.handle
  {
  }

  lemma CountOfFlushed(s: Log, stuck: nat)
    requires s.Valid()
    ensures FlushedBuffer(s, stuck).size == s.size && FlushedBuffer(s, stuck).handle == s.handle
    ensures |FlushedBuffer(s, stuck).disk.files| == |s.disk.files|
  {
  }

  lemma CountOfReopened(s: Log, o: ReopenOutcome)
    requires s.Valid()
    ensures var r := Reopened(s, o);
      (r.handle == s.handle && r.size == 0) || (r.handle == |s.disk.files| && r.size == Bytes(s.buffer))
  {
  }

  /** The count starts again whenever a rotation makes no file. */
  lemma {:induction false} CountOfRotated(s: Log, keep: nat, o: RotateOutcome)
    requires s.Valid()
    ensures var r := Rotated(s, keep, o); r.handle >= s.handle && (r.handle == s.handle ==> r.size == 0)
  {
    hide Reopened, NumberedShifted, LogMoved, FlushedBuffer;
    CountOfReopened(s, o.reopen);
    CountOfFlushed(s, o.stuck);
    if !o.statFails && !o.moveFails && 0 in s.disk.names {
      var f := FlushedBuffer(s, o.stuck);
      var shifted := if keep == 0 then (f.disk, 0) else NumberedShifted(f.disk, keep, o);
      CountOfReopened(f.(disk := LogMoved(shifted.0, keep), errors := f.errors + shifted.1), o.reopen);
    }
  }

  lemma {:induction false} WriteCounts(s: Log, line: Line, p: Policy, o: WriteOutcome)
    requires s.Valid()
    ensures var r := Written(s, line, p, o);
      r.handle >= s.handle && (r.handle == s.handle ==> r.size <= s.size + if o.refused then 0 else |line|)
  {
    hide Reopened, Rotated, Spilled;
    var s1 := ReopenedIfRemoved(s, o.check);
    CountOfReopened(s, o.check);
    CountOfRotated(s1, p.keep, o.rotate);
    var s2 := if RotationIsDue(s1.size, line, p.maxBytes) then Rotated(s1, p.keep, o.rotate) else s1;
    CountOfSpilled(s2, o.spill);
    CountOfSpilled(s2.(buffer := s2.buffer + [line], size := s2.size + |line|), o.spill);
  }

  lemma {:induction false} RunCounts(s: Log, p: Policy, steps: seq<Step>)
    requires s.Valid()
    ensures var r := Run(s, p, steps);
      r.handle >= s.handle && (r.handle == s.handle ==> r.size <= s.size + Bytes(Accepted(steps)))
  {
    hide Next, Bytes;
    if steps == [] {
      NoBytes();
    } else {
      var front, last := steps[..|steps| - 1], steps[|steps| - 1];
      RunCounts(s, p, front);
      CountIsAtMost(Run(s, p, front), p, last);
      BytesConcat(Accepted(front), Accepted([last]));
      assert [last][..0] == [];
      assert Accepted(steps) == Accepted(front) + Accepted([last]);
    }
  }

  lemma NoBytes()
    ensures Bytes([]) == 0
  {
  }

  /**
   A rotation that made no file, whatever failed in it, is not tried again before another
   `max_bytes` were taken in: the numbered files are not shifted on every entry.
   */
  lemma {:induction false} FailedRotationWaits(s: Log, p: Policy, o: RotateOutcome, steps: seq<Step>, line: Line)
    requires s.Valid() && p.maxBytes.Some?
    requires var r := Rotated(s, p.keep, o);
      r.handle == s.handle && Run(r, p, steps).handle == s.handle
    ensures RotationIsDue(Run(Rotated(s, p.keep, o), p, steps).size, line, p.maxBytes) ==>
      Bytes(Accepted(steps)) + |line| > p.maxBytes.value
  {
    hide Rotated, Run, Bytes, Accepted;
    CountOfRotated(s, p.keep, o);
    RunCounts(Rotated(s, p.keep, o), p, steps);
  }

  // ---- Failing steps ------------------------------------------------------------------------------

  /** What a numbered name leads to after the renames from `.k` down, some failing: what moved up to it, nothing when it moved away, else what it led to. */
  function ShiftedTo(names: map<nat, nat>, k: nat, fails: set<nat>, j: nat): Option<nat> {
    if 2 <= j <= k + 1 && j - 1 in names && j - 1 !in fails then Some(names[j - 1])
    else if 1 <= j <= k && j !in fails then None
    else InodeAt(names, j)
  }

  lemma {:induction false} ShiftedNames(d: Disk, k: nat, fails: set<nat>)
    ensures forall j: nat :: InodeAt(Shifted(d, k, fails).0.names, j) == ShiftedTo(d.names, k, fails, j)
    decreases k
  {
    if k > 0 {
      var d1 := if k in fails || k !in d.names then d else Rename(d, k, k + 1);
      ShiftedNames(d1, k - 1, fails);
      forall j: nat
        ensures InodeAt(Shifted(d, k, fails).0.names, j) == ShiftedTo(d.names, k, fails, j)
      {
        assert InodeAt(Shifted(d1, k - 1, fails).0.names, j) == ShiftedTo(d1.names, k - 1, fails, j);
      }
    }
  }

  /** A rotation's numbered files, whichever of its steps fail: `.keep` goes unless its removal fails, the others as `ShiftedTo` says. */
  lemma {:induction false} NumberedNames(d: Disk, keep: nat, o: RotateOutcome, j: nat)
    requires keep > 0
    ensures InodeAt(NumberedShifted(d, keep, o).0.names, j)
         == ShiftedTo(if o.removeFails then d.names else d.names - {keep}, keep - 1, o.renameFails, j)
  {
    hide Shifted;
    var d1 := if o.removeFails || keep !in d.names then d else RemoveName(d, keep);
    ShiftedNames(d1, keep - 1, o.renameFails);
    assert keep !in d.names ==> d.names - {keep} == d.names;
  }

  ghost function FailuresUpTo(fails: set<nat>, k: nat): nat {
    |set j: nat | 1 <= j <= k && j in fails|
  }

  lemma {:induction false} ShiftCountsFailures(d: Disk, k: nat, fails: set<nat>)
    ensures Shifted(d, k, fails).1 == FailuresUpTo(fails, k)
    decreases k
  {
    if k > 0 {
      ShiftCountsFailures(if k in fails || k !in d.names then d else Rename(d, k, k + 1), k - 1, fails);
      var all, fewer := set j: nat | 1 <= j <= k && j in fails, set j: nat | 1 <= j <= k - 1 && j in fails;
      assert all == fewer + if k in fails then {k} else {};
    }
  }

  /** The errors of one rotation: one for each step that failed. */
  ghost function RotationErrors(s: Log, keep: nat, o: RotateOutcome): nat {
    if o.statFails then 1
    else if 0 !in s.disk.names then (if o.reopen.createFails then 1 else 0)
    else
      (if o.stuck > 0 && s.buffer != [] then 1 else 0)
      + (if keep > 0 && o.removeFails then 1 else 0)
      + (if keep > 0 then FailuresUpTo(o.renameFails, keep - 1) else 0)
      + (if o.moveFails || o.reopen.createFails then 1 else 0)
  }

  lemma {:induction false} RotationCountsErrors(s: Log, keep: nat, o: RotateOutcome)
    requires s.Valid() && Sound(s)
    ensures Rotated(s, keep, o).errors == s.errors + RotationErrors(s, keep, o)
  {
    hide Shifted, Sound, FailuresUpTo;
    if !o.statFails && 0 in s.disk.names {
      var f := FlushedBuffer(s, o.stuck);
      FlushBufferFollows(s, o.stuck);
      FlushKeepsNames(s, o.stuck);
      SoundNames(f);
      if keep > 0 {
        ShiftCountsFailures(if o.removeFails || keep !in f.disk.names then f.disk else RemoveName(f.disk, keep), keep - 1, o.renameFails);
        NumberedShiftKeepsAccount(f.disk, keep, o);
      }
    }
  }

  lemma SoundNames(s: Log)
    requires Sound(s)
    ensures Accounted(s.disk) && NewestFirst(s.disk.names)
  {
  }

  /** Every step counts its failures, and nothing else. */
  lemma {:induction false} StepsCountErrors(s: Log, p: Policy, step: Step)
    requires s.Valid() && Sound(s)
    ensures Next(s, p, step).errors == s.errors +
      match step
      case Write(line, o) =>
        var s1 := ReopenedIfRemoved(s, o.check);
        (if !o.check.statFails && 0 !in s.disk.names && o.check.createFails then 1 else 0)
        + (if RotationIsDue(s1.size, line, p.maxBytes) then RotationErrors(s1, p.keep, o.rotate) else 0)
        + (if o.refused then 1 else 0)
      case Flush(o) =>
        var s1 := if s.buffer == [] then s else ReopenedIfRemoved(s, o.check);
        (if s.buffer != [] && !o.check.statFails && 0 !in s.disk.names && o.check.createFails then 1 else 0)
        + (if o.stuck > 0 && s1.buffer != [] then 1 else 0)
      case _ => 0
  {
    hide Sound, Rotated, RotationErrors;
    match step
    case Write(line, o) =>
      var s1 := ReopenedIfRemoved(s, o.check);
      ReopenIfRemovedFollows(s, o.check);
      if RotationIsDue(s1.size, line, p.maxBytes) {
        RotationCountsErrors(s1, p.keep, o.rotate);
      }
    case Flush(o) =>
    case _ =>
  }
}
