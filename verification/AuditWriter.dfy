/**
 The audit log's writer: a buffered file that rotates by size over numbered files,
 and makes a new file when the log was removed or moved away.

 A file system is a map from names to inodes and what has reached each inode. Name
 0 is the log's path and name `k` is `<path>.k`; inodes are numbered in creation
 order and keep their lines when their last name goes. The functions give the state
 after each call; the methods of `Writer` change the fields as the program does.
 */
module AuditWriter {
  import opened Wrappers

  /** One entry as JSON, its newline included. */
  type Line = s: string | s != "" witness "\n"

  datatype Disk = Disk(
    names: map<nat, nat>,   // what each name leads to
    files: seq<seq<Line>>,  // what has reached each inode
    removed: set<nat>,      // inodes an operator removed
    away: set<nat>,         // inodes an operator moved to a name of his own
    evicted: set<nat>)      // inodes the rotation unlinked

  datatype Policy = Policy(maxBytes: Option<nat>, keep: nat)

  /** The writer's fields, and the disk they are about. */
  datatype Log = Log(disk: Disk, handle: nat, buffer: seq<Line>, size: nat, errors: nat) {
    predicate Valid() {
      handle < |disk.files|
    }
  }

  function Bytes(lines: seq<Line>): nat {
    if lines == [] then 0 else Bytes(lines[..|lines| - 1]) + |lines[|lines| - 1]|
  }

  function Min(a: nat, b: nat): nat {
    if a < b then a else b
  }

  // ---- What the file system decides ---------------------------------------------------

  /** Which steps of a call fail, other than for a missing file, and how many buffered lines a write spills. */
  datatype ReopenOutcome = ReopenOutcome(statFails: bool, createFails: bool, spill: nat)

  datatype RotateOutcome = RotateOutcome(
    statFails: bool,
    stuck: nat,             // lines a failing flush leaves in the buffer
    removeFails: bool,
    renameFails: set<nat>,  // the `k` whose rename to `k + 1` fails
    moveFails: bool,        // removing or renaming the log itself
    reopen: ReopenOutcome)

  datatype WriteOutcome = WriteOutcome(check: ReopenOutcome, rotate: RotateOutcome, spill: nat, refused: bool)

  datatype FlushOutcome = FlushOutcome(check: ReopenOutcome, stuck: nat)

  // ---- File system steps ----------------------------------------------------------------

  function Append(d: Disk, inode: nat, lines: seq<Line>): Disk
    requires inode < |d.files|
  {
    d.(files := d.files[inode := d.files[inode] + lines])
  }

  /** `remove_file` of a name that is there. */
  function RemoveName(d: Disk, k: nat): Disk
    requires k in d.names
  {
    d.(names := d.names - {k}, evicted := d.evicted + {d.names[k]})
  }

  /** `rename` of a name that is there; what the target led to loses its name. */
  function Rename(d: Disk, k: nat, target: nat): Disk
    requires k in d.names && k != target
  {
    d.(names := (d.names - {k})[target := d.names[k]],
       evicted := d.evicted + (if target in d.names then {d.names[target]} else {}))
  }

  // ---- The writer's calls -------------------------------------------------------------------

  /** The first `k` buffered lines reach the file. */
  function Spilled(s: Log, k: nat): (r: Log)
    requires s.Valid()
    ensures r.Valid()
  {
    var n := Min(k, |s.buffer|);
    s.(disk := Append(s.disk, s.handle, s.buffer[..n]), buffer := s.buffer[n..])
  }

  function FlushedBuffer(s: Log, stuck: nat): (r: Log)
    requires s.Valid()
    ensures r.Valid()
  {
    var n := Min(stuck, |s.buffer|);
    Spilled(s, |s.buffer| - n).(errors := s.errors + (if n > 0 then 1 else 0))
  }

  /** The buffered lines go to a new file at the path, unless it cannot be created. */
  function Reopened(s: Log, o: ReopenOutcome): (r: Log)
    requires s.Valid()
    ensures r.Valid()
  {
    if o.createFails || 0 in s.disk.names then s.(size := 0, errors := s.errors + 1)
    else
      var inode := |s.disk.files|;
      var d := s.disk.(names := s.disk.names[0 := inode], files := s.disk.files + [[]]);
      Spilled(s.(disk := d, handle := inode, size := Bytes(s.buffer)), o.spill)
  }

  function ReopenedIfRemoved(s: Log, o: ReopenOutcome): (r: Log)
    requires s.Valid()
    ensures r.Valid()
  {
    if !o.statFails && 0 !in s.disk.names then Reopened(s, o) else s
  }

  /** `.k` becomes `.k+1`, from `k` down to 1; the disk, and the renames that failed. */
  function Shifted(d: Disk, k: nat, fails: set<nat>): (r: (Disk, nat))
    ensures r.0.files == d.files
    decreases k
  {
    if k == 0 then (d, 0)
    else
      var d' := if k in fails || k !in d.names then d else Rename(d, k, k + 1);
      var r := Shifted(d', k - 1, fails);
      (r.0, r.1 + (if k in fails then 1 else 0))
  }

  function NumberedShifted(d: Disk, keep: nat, o: RotateOutcome): (r: (Disk, nat))
    requires keep > 0
    ensures r.0.files == d.files
  {
    var d' := if o.removeFails || keep !in d.names then d else RemoveName(d, keep);
    var r := Shifted(d', keep - 1, o.renameFails);
    (r.0, r.1 + (if o.removeFails then 1 else 0))
  }

  function Rotated(s: Log, keep: nat, o: RotateOutcome): (r: Log)
    requires s.Valid()
    ensures r.Valid()
  {
    if o.statFails then s.(size := 0, errors := s.errors + 1)
    else if 0 !in s.disk.names then Reopened(s, o.reopen)
    else
      var flushed := FlushedBuffer(s, o.stuck);
      var shifted := if keep == 0 then (flushed.disk, 0) else NumberedShifted(flushed.disk, keep, o);
      var s' := flushed.(disk := shifted.0, errors := flushed.errors + shifted.1);
      if o.moveFails then s'.(size := 0, errors := s'.errors + 1)
      else Reopened(s'.(disk := LogMoved(s'.disk, keep)), o.reopen)
  }

  /** The log itself is removed or becomes `.1`, when it is still there. */
  function LogMoved(d: Disk, keep: nat): (r: Disk)
    ensures r.files == d.files
  {
    if 0 !in d.names then d
    else if keep == 0 then RemoveName(d, 0)
    else Rename(d, 0, 1)
  }

  predicate RotationIsDue(size: nat, line: Line, max: Option<nat>) {
    max.Some? && size > 0 && size + |line| > max.value
  }

  function Written(s: Log, line: Line, p: Policy, o: WriteOutcome): (r: Log)
    requires s.Valid()
    ensures r.Valid()
  {
    var s1 := ReopenedIfRemoved(s, o.check);
    var s2 := if RotationIsDue(s1.size, line, p.maxBytes) then Rotated(s1, p.keep, o.rotate) else s1;
    if o.refused then Spilled(s2, o.spill).(errors := s2.errors + 1)
    else Spilled(s2.(buffer := s2.buffer + [line], size := s2.size + |line|), o.spill)
  }

  function Flushed(s: Log, o: FlushOutcome): (r: Log)
    requires s.Valid()
    ensures r.Valid()
  {
    FlushedBuffer(if s.buffer == [] then s else ReopenedIfRemoved(s, o.check), o.stuck)
  }

  // ---- The class ----------------------------------------------------------------------------

  class Writer {
    const policy: Policy
    var disk: Disk
    var handle: nat
    var buffer: seq<Line>
    var size: nat
    var ioErrors: nat

    function State(): Log
      reads this
    {
      Log(disk, handle, buffer, size, ioErrors)
    }

    predicate Valid()
      reads this
    {
      State().Valid()
    }

    /** A writer of the file at the path, which was opened or created and is `length` bytes long. */
    constructor (disk: Disk, handle: nat, length: nat, policy: Policy)
      requires handle < |disk.files|
      ensures Valid() && State() == Log(disk, handle, [], length, 0) && this.policy == policy
    {
      this.disk, this.handle, this.buffer, this.size, this.ioErrors := disk, handle, [], length, 0;
      this.policy := policy;
    }

    /** A write or flush lets the first `k` buffered lines through. */
    method Spill(k: nat)
      requires Valid()
      modifies this
      ensures Valid() && State() == Spilled(old(State()), k)
    {
      var n := Min(k, |buffer|);
      disk := Append(disk, handle, buffer[..n]);
      buffer := buffer[n..];
    }

    method IoError()
      modifies `ioErrors
      ensures ioErrors == old(ioErrors) + 1
    {
      ioErrors := ioErrors + 1;
    }

    method FlushBuffer(stuck: nat)
      requires Valid()
      modifies this
      ensures Valid() && State() == FlushedBuffer(old(State()), stuck)
    {
      var n := Min(stuck, |buffer|);
      Spill(|buffer| - n);
      if n > 0 {
        IoError();
      }
    }

    method Reopen(o: ReopenOutcome) returns (made: bool)
      requires Valid()
      modifies this
      ensures Valid() && State() == Reopened(old(State()), o)
      ensures made <==> !o.createFails && 0 !in old(disk).names
    {
      made := !o.createFails && 0 !in disk.names;
      if made {
        handle := |disk.files|;
        disk := disk.(names := disk.names[0 := handle], files := disk.files + [[]]);
        size := Bytes(buffer);
        Spill(o.spill);
      } else {
        IoError();
        size := 0;
      }
    }

    method ReopenIfRemoved(o: ReopenOutcome)
      requires Valid()
      modifies this
      ensures Valid() && State() == ReopenedIfRemoved(old(State()), o)
    {
      var gone := !o.statFails && 0 !in disk.names;
      if gone {
        var _ := Reopen(o);
      }
    }

    method Rotate(o: RotateOutcome)
      requires Valid()
      modifies this
      ensures Valid() && State() == Rotated(old(State()), policy.keep, o)
    {
      hide FlushedBuffer, NumberedShifted, LogMoved, Reopened, Spilled;
      if o.statFails {
        IoError();
        size := 0;
        return;
      }
      if 0 !in disk.names {
        var _ := Reopen(o.reopen);
        return;
      }
      FlushBuffer(o.stuck);
      var keep := policy.keep;
      if keep > 0 {
        ShiftNumbered(keep, o);
      }
      if o.moveFails {
        IoError();
        size := 0;
      } else {
        disk := LogMoved(disk, keep);
        var _ := Reopen(o.reopen);
      }
    }

    method ShiftNumbered(keep: nat, o: RotateOutcome)
      requires keep > 0
      modifies `disk, `ioErrors
      ensures (disk, ioErrors - old(ioErrors)) == NumberedShifted(old(disk), keep, o)
    {
      if o.removeFails {
        IoError();
      } else if keep in disk.names {
        disk := RemoveName(disk, keep);
      }
      ghost var d0, e0 := disk, ioErrors;
      var k := keep - 1;
      while k > 0
        invariant Shifted(d0, keep - 1, o.renameFails)
               == (Shifted(disk, k, o.renameFails).0, Shifted(disk, k, o.renameFails).1 + (ioErrors - e0))
        invariant ioErrors >= e0
      {
        if k in o.renameFails {
          IoError();
        } else if k in disk.names {
          disk := Rename(disk, k, k + 1);
        }
        k := k - 1;
      }
    }

    method WriteEntry(line: Line, o: WriteOutcome)
      requires Valid()
      modifies this
      ensures Valid() && State() == Written(old(State()), line, policy, o)
    {
      ReopenIfRemoved(o.check);
      if RotationIsDue(size, line, policy.maxBytes) {
        Rotate(o.rotate);
      }
      if o.refused {
        Spill(o.spill);
        IoError();
      } else {
        buffer := buffer + [line];
        size := size + |line|;
        Spill(o.spill);
      }
    }

    method Flush(o: FlushOutcome)
      requires Valid()
      modifies this
      ensures Valid() && State() == Flushed(old(State()), o)
    {
      if buffer != [] {
        ReopenIfRemoved(o.check);
      }
      FlushBuffer(o.stuck);
    }
  }
}
