/**
 Where a line is when it is written out: what the files that are gone held when they
 went, and what a flush finds and leaves at the path.
 */
module AuditPlaces {
  import opened AuditWriter
  import opened AuditRuns
  import opened AuditRotation
  import opened AuditReading
  import opened AuditRecovery

  // ---- Files that went ----------------------------------------------------------------------

  function FileLines(d: Disk, i: nat): seq<Line> {
    if i < |d.files| then d.files[i] else []
  }

  /** For each file that is gone, its lines when it went; `ready` is the disk before the lines a step last writes out. */
  function WentAfter(went: map<nat, seq<Line>>, ready: Disk, next: Disk): map<nat, seq<Line>> {
    map i | i in Gone(next) :: if i in went then went[i] else FileLines(ready, i)
  }

  /** Every line in a file that is gone was there when the file went. */
  predicate InPlace(went: map<nat, seq<Line>>, d: Disk) {
    forall i :: i in went ==> FileLines(d, i) == went[i]
  }

  /** Files that are gone only grew since, and did so if and only if some line arrived late. */
  ghost predicate WentSound(went: map<nat, seq<Line>>, late: bool, s: Log) {
    && went.Keys == Gone(s.disk)
    && (forall i :: i in went ==> i < |s.disk.files| && went[i] <= s.disk.files[i])
    && (late ==> exists i :: i in went && i < |s.disk.files| && |went[i]| < |s.disk.files[i]|)
    && (!late ==> InPlace(went, s.disk))
  }

  lemma {:induction false} InPlaceIff(went: map<nat, seq<Line>>, late: bool, s: Log)
    requires WentSound(went, late, s)
    ensures InPlace(went, s.disk) <==> !late
  {
    if late {
      var i :| i in went && i < |s.disk.files| && |went[i]| < |s.disk.files[i]|;
      assert FileLines(s.disk, i) != went[i];
    }
  }

  /** The files gone before the first step, as they are. */
  lemma WentAtFirst(s: Log)
    requires s.Valid() && Sound(s)
    ensures WentSound(WentAfter(map[], s.disk, s.disk), false, s)
  {
    hide Sound;
    GoneIsNotNamed(s);
  }

  lemma {:induction false} WentStep(went: map<nat, seq<Line>>, late: bool, s: Log, p: Policy, step: Step)
    requires s.Valid() && Sound(s) && WentSound(went, late, s)
    ensures var r := Next(s, p, step);
      WentSound(WentAfter(went, Ready(s, p, step).disk, r.disk), late || ArrivesLate(s, p, step), r)
  {
    hide Sound, Ready, Gone, Next, ArrivesLate, Everything;
    var t, r := Ready(s, p, step), Next(s, p, step);
    var went' := WentAfter(went, t.disk, r.disk);
    ReadyKeepsGone(s, p, step);
    LinesStayIff(s, p, step);
    NextFollows(s, p, step);
    StepTouches(s, p, step);
    GoneIsNotNamed(r);
    NewlyGone(s, p, step);
    forall i | i in went'
      ensures i < |r.disk.files| && went'[i] <= r.disk.files[i]
      ensures !late && !ArrivesLate(s, p, step) ==> FileLines(r.disk, i) == went'[i]
    {
      if i in went {
        assert s.disk.files[i] <= r.disk.files[i];
        assert FileLines(s.disk, i) == s.disk.files[i];
      }
    }
    if ArrivesLate(s, p, step) {
      var h := t.handle;
      assert h in went' && |went'[h]| < |r.disk.files[h]| by {
        if h in went {
          assert t.disk.files[h] == s.disk.files[h];
        }
      }
    } else if late {
      var i :| i in went && i < |s.disk.files| && |went[i]| < |s.disk.files[i]|;
      assert i in went' && s.disk.files[i] <= r.disk.files[i];
    }
  }

  /** A file that goes in a step has, before the lines last written out, at most what it has after. */
  lemma {:induction false} NewlyGone(s: Log, p: Policy, step: Step)
    requires s.Valid() && Sound(s)
    ensures var t, r := Ready(s, p, step), Next(s, p, step);
      && Gone(t.disk) <= Gone(r.disk)
      && (forall i :: i in Gone(r.disk) ==> i < |t.disk.files| && i < |r.disk.files| && t.disk.files[i] <= r.disk.files[i])
      && (!ArrivesLate(s, p, step) ==> forall i :: i in Gone(r.disk) ==> t.disk.files[i] == r.disk.files[i])
  {
    hide Sound, Ready, Gone, Written, Flushed;
    ReadyKeepsGone(s, p, step);
    NextFollows(s, p, step);
    var t, r := Ready(s, p, step), Next(s, p, step);
    GoneIsNotNamed(r);
    if step.Write? || step.Flush? {
      LastPart(s, p, step);
      SpillLeaves(t, GoOut(s, p, step));
      SpillGrows(t, GoOut(s, p, step));
    } else {
      OperatorIsReady(s, p, step);
      StepTouches(s, p, step);
    }
  }

  lemma SpillGrows(s: Log, k: nat)
    requires s.Valid()
    ensures var r := Spilled(s, k);
      && |r.disk.files| == |s.disk.files|
      && (forall i :: 0 <= i < |s.disk.files| ==> s.disk.files[i] <= r.disk.files[i])
      && (forall i :: 0 <= i < |s.disk.files| && (i != s.handle || Min(k, |s.buffer|) == 0) ==> s.disk.files[i] == r.disk.files[i])
  {
  }

  // ---- What a flush does ------------------------------------------------------------------------

  /** A flush: what it had to write out, what the file at the path held after it, and what went wrong. */
  datatype FlushRecord = FlushRecord(due: seq<Line>, atPath: seq<Line>, failed: bool, missed: bool)

  /** Lines stay behind: some are stuck, and they did not all go to a new file at once. */
  predicate WriteOutFails(s: Log, f: FlushOutcome) {
    f.stuck > 0 && |s.buffer| > if CalmReopen(f.check) && 0 !in s.disk.names then f.check.spill else 0
  }

  /** There is something to write out and nothing at the path, and the look there or making a file fails. */
  predicate PathIsMissed(s: Log, f: FlushOutcome) {
    s.buffer != [] && 0 !in s.disk.names && !CalmReopen(f.check)
  }

  function Recorded(s: Log, f: FlushOutcome): FlushRecord
    requires s.Valid()
  {
    FlushRecord(s.buffer, LinesAt(Flushed(s, f).disk, 0), WriteOutFails(s, f), PathIsMissed(s, f))
  }

  predicate EndsWith(lines: seq<Line>, end: seq<Line>) {
    |end| <= |lines| && lines[|lines| - |end|..] == end
  }

  /** What was due is in the file at the path. */
  predicate ReachesThePath(f: FlushRecord) {
    EndsWith(f.atPath, f.due)
  }

  predicate FlushSound(f: FlushRecord) {
    !f.failed ==> (ReachesThePath(f) <==> !f.missed)
  }

  lemma {:induction false} FlushLeavesNothingIff(s: Log, f: FlushOutcome)
    requires s.Valid()
    ensures Flushed(s, f).buffer == [] <==> !WriteOutFails(s, f)
  {
    var s1 := if s.buffer == [] then s else ReopenedIfRemoved(s, f.check);
    var n := Min(f.stuck, |s1.buffer|);
    assert Flushed(s, f).buffer == s1.buffer[|s1.buffer| - n..];
  }

  /** A flush that writes everything out does so to the file at the path, unless it missed the path. */
  lemma {:induction false} FlushReachesThePathIff(s: Log, f: FlushOutcome)
    requires s.Valid() && Sound(s)
    ensures FlushSound(Recorded(s, f))
  {
    hide Sound, Reopened, FlushedBuffer, WriteOutFails;
    var s1 := if s.buffer == [] then s else ReopenedIfRemoved(s, f.check);
    var r := Flushed(s, f);
    FlushLeavesNothingIff(s, f);
    FlushKeepsDisk(s1, f.stuck);
    FlushKeepsCurrent(s1, f.stuck);
    if s.buffer == [] {
      assert EndsWith(LinesAt(r.disk, 0), []);
    } else if 0 in s.disk.names {
      SoundAtPath(s);
    } else {
      ReopenLeavesTheOthers(s, f.check);
    }
    if r.buffer == [] {
      assert Current(r) == r.disk.files[r.handle] && Current(r) == s1.disk.files[s1.handle] + s1.buffer;
    }
  }

  lemma FlushKeepsCurrent(s: Log, stuck: nat)
    requires s.Valid()
    ensures FlushedBuffer(s, stuck).Valid() && Current(FlushedBuffer(s, stuck)) == Current(s)
  {
    hide Spilled;
    SpillKeepsCurrent(s, |s.buffer| - Min(stuck, |s.buffer|));
  }
}
