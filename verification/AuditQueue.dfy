/**
 The queue between the callers of the audit log and its writer thread: every
 interleaving of callers that send entries and flush requests, clone and drop
 handles, of the writer's steps, and of an operator who removes or moves the files.
 */
module AuditQueue {
  import opened Wrappers
  import opened AuditWriter
  import opened AuditRuns
  import opened AuditRotation
  import opened AuditReading
  import opened AuditRecovery
  import opened AuditPlaces

  const QUEUE_CAPACITY: nat := 1024

  datatype Msg = Entry(line: Line) | FlushRequest

  /** Where the writer thread stands in `run` and `handle`. */
  datatype Pc =
    | Receiving           // waits in `blocking_recv`
    | Handling(msg: Msg)  // has taken `msg`
    | Replying            // has flushed for a request, not answered yet
    | Polling             // about to `try_recv`
    | Flushing            // the queue ran empty
    | LastFlush           // every handle is gone and the queue is drained
    | Done

  /**
   What an answer stands for: what all files held, whether each line was in a file still
   in place when it reached it, and whether any arrived late; and the flush before it.
   */
  datatype Answer = Answer(held: seq<Line>, inPlace: bool, late: bool, flush: FlushRecord)

  /** The shared state; the fields from `history` on are kept to speak about, the writer never reads them. */
  datatype System = System(
    handles: nat,
    queue: seq<Msg>,
    pc: Pc,
    log: Log,
    history: seq<Msg>,           // every message sent, in queue order
    refused: set<nat>,           // positions of the entries whose write was refused
    went: map<nat, seq<Line>>,   // the files that are gone, with their lines when they went
    late: bool,                  // some line arrived in a file that was gone
    latest: FlushRecord,
    answered: map<nat, Answer>)  // positions of the answered flush requests

  /** Messages the writer has taken. */
  function Taken(s: System): int {
    |s.history| - |s.queue|
  }

  /** The position of the latest of them. */
  function LatestTaken(s: System): nat {
    if Taken(s) > 0 then Taken(s) - 1 else 0
  }

  datatype Action =
    | Send(msg: Msg)
    | CloneHandle
    | DropHandle
    | WriterStep(write: WriteOutcome, flush: FlushOutcome)
    | Operator(step: Step)

  /** A send waits while the queue is full; the writer waits for a message or the last handle. */
  predicate Enabled(s: System, a: Action) {
    match a
    case Send(_) => s.handles > 0 && |s.queue| < QUEUE_CAPACITY
    case CloneHandle => s.handles > 0
    case DropHandle => s.handles > 0
    case WriterStep(_, _) => WriterEnabled(s)
    case Operator(step) => step.OperatorRemoves? || step.OperatorMoves?
  }

  predicate WriterEnabled(s: System) {
    !s.pc.Done? && (s.pc.Receiving? ==> s.queue != [] || s.handles == 0)
  }

  function After(s: System, p: Policy, a: Action): System
    requires s.log.Valid() && Enabled(s, a)
  {
    match a
    case Send(msg) => s.(queue := s.queue + [msg], history := s.history + [msg])
    case CloneHandle => s.(handles := s.handles + 1)
    case DropHandle => s.(handles := s.handles - 1)
    case WriterStep(w, f) => WriterAfter(s, p, w, f)
    case Operator(step) => Logged(s, p, step)
  }

  /** A step of the log, and what is kept of it. */
  function Logged(s: System, p: Policy, step: Step): (r: System)
    requires s.log.Valid()
    ensures r.log.Valid()
  {
    var log := Next(s.log, p, step);
    s.(log := log, went := WentAfter(s.went, Ready(s.log, p, step).disk, log.disk), late := s.late || ArrivesLate(s.log, p, step))
  }

  function WriterAfter(s: System, p: Policy, w: WriteOutcome, f: FlushOutcome): (r: System)
    requires s.log.Valid() && WriterEnabled(s)
    ensures r.log.Valid() && r.history == s.history && r.handles == s.handles && Work(r) < Work(s)
  {
    match s.pc
    case Receiving =>
      if s.queue != [] then s.(pc := Handling(s.queue[0]), queue := s.queue[1..]) else s.(pc := LastFlush)
    case Handling(msg) =>
      (match msg
       case Entry(line) =>
         Logged(s, p, Write(line, w)).(refused := s.refused + (if w.refused then {LatestTaken(s)} else {}), pc := Polling)
       case FlushRequest => FlushAt(s, p, f, Replying))
    case Replying => s.(answered := s.answered[LatestTaken(s) := AnswerNow(s)], pc := Polling)
    case Polling =>
      if s.queue != [] then s.(pc := Handling(s.queue[0]), queue := s.queue[1..]) else s.(pc := Flushing)
    case Flushing => FlushAt(s, p, f, Receiving)
    case LastFlush => FlushAt(s, p, f, Done)
  }

  function FlushAt(s: System, p: Policy, f: FlushOutcome, pc: Pc): (r: System)
    requires s.log.Valid()
    ensures r.log.Valid()
  {
    Logged(s, p, Flush(f)).(latest := Recorded(s.log, f), pc := pc)
  }

  function AnswerNow(s: System): Answer {
    Answer(Concat(s.log.disk.files), InPlace(s.went, s.log.disk), s.late, s.latest)
  }

  // ---- Runs ------------------------------------------------------------------------------

  ghost predicate IsRun(s: System, p: Policy, actions: seq<Action>, r: System) {
    if actions == [] then r == s
    else exists m :: IsRun(s, p, actions[..|actions| - 1], m) && m.log.Valid()
                     && Enabled(m, actions[|actions| - 1]) && After(m, p, actions[|actions| - 1]) == r
  }

  /** The entries among `msgs`, in order. */
  function Lines(msgs: seq<Msg>): seq<Line> {
    LinesBut(msgs, {})
  }

  /** Without those at the positions in `refused`. */
  function LinesBut(msgs: seq<Msg>, refused: set<nat>): seq<Line> {
    if msgs == [] then []
    else
      var n := |msgs| - 1;
      LinesBut(msgs[..n], refused) + (if msgs[n].Entry? && n !in refused then [msgs[n].line] else [])
  }

  /** Messages the writer is done with. */
  function Handled(s: System): int {
    Taken(s) - (if s.pc.Handling? then 1 else 0)
  }

  // ---- The invariant -----------------------------------------------------------------------

  /** The queue is the end of the history, and exactly the handled requests were answered. */
  ghost predicate QueueSound(s: System) {
    && |s.queue| <= QUEUE_CAPACITY && |s.queue| <= |s.history|
    && s.queue == s.history[Taken(s)..]
    && (s.pc.Handling? ==> Taken(s) > 0 && s.history[Taken(s) - 1] == s.pc.msg)
    && (s.pc.Replying? ==> Taken(s) > 0 && s.history[Taken(s) - 1] == FlushRequest)
    && (s.pc.LastFlush? || s.pc.Done? ==> s.handles == 0 && s.queue == [])
    && (forall i: nat :: i in s.answered <==>
          i < Taken(s) && s.history[i] == FlushRequest && !(i == Taken(s) - 1 && (s.pc.Handling? || s.pc.Replying?)))
    && (forall i :: i in s.refused ==> i < Handled(s) && s.history[i].Entry?)
  }

  /** The writer has handled a flush last, or nothing. */
  predicate IsClean(pc: Pc) {
    pc.Receiving? || pc.Replying? || pc.LastFlush? || pc.Done?
  }

  /** The answer to the request at `i`. */
  ghost predicate AnswerSound(s: System, base: seq<Line>, i: nat)
    requires i in s.answered && i <= |s.history|
  {
    var a := s.answered[i];
    && a.held <= Concat(s.log.disk.files)
    && (!a.flush.failed ==> a.held == base + LinesBut(s.history[..i], s.refused))
    && (a.flush.failed ==> |a.held| < |base| + |LinesBut(s.history[..i], s.refused)|)
    && (a.inPlace <==> !a.late)
    && FlushSound(a.flush)
  }

  /** Whatever fails, the files and the buffer are what was taken in, the buffer is as the latest flush left it, and the answers stand. */
  ghost predicate LogSound(s: System, base: seq<Line>)
    requires QueueSound(s)
  {
    && Sound(s.log)
    && Everything(s.log) == base + LinesBut(s.history[..Handled(s)], s.refused)
    && (IsClean(s.pc) ==> (s.log.buffer == [] <==> !s.latest.failed))
    && FlushSound(s.latest)
    && WentSound(s.went, s.late, s.log)
    && forall i :: i in s.answered ==> AnswerSound(s, base, i)
  }

  ghost predicate Invariant(s: System, base: seq<Line>) {
    s.log.Valid() && QueueSound(s) && LogSound(s, base)
  }

  // ---- Every step keeps it -------------------------------------------------------------------

  lemma QueueStep(s: System, p: Policy, a: Action)
    requires s.log.Valid() && QueueSound(s) && Enabled(s, a)
    ensures QueueSound(After(s, p, a))
  {
    hide WriterAfter, Logged;
    match a
    case Send(msg) =>
      var r := After(s, p, a);
      assert r.history[Taken(r)..] == s.history[Taken(s)..] + [msg];
    case WriterStep(w, f) =>
      if s.pc.Receiving? || s.pc.Polling? {
        TakeStep(s, p, w, f);
      } else {
        HandleStep(s, p, w, f);
      }
    case Operator(step) => LoggedKeeps(s, p, step);
    case _ =>
  }

  lemma TakeStep(s: System, p: Policy, w: WriteOutcome, f: FlushOutcome)
    requires s.log.Valid() && QueueSound(s) && WriterEnabled(s) && (s.pc.Receiving? || s.pc.Polling?)
    ensures QueueSound(WriterAfter(s, p, w, f))
  {
    hide Logged, Recorded, AnswerNow, FlushAt;
    if s.queue != [] {
      assert s.queue[1..] == s.history[Taken(s) + 1..];
    }
  }

  lemma HandleStep(s: System, p: Policy, w: WriteOutcome, f: FlushOutcome)
    requires s.log.Valid() && QueueSound(s) && WriterEnabled(s) && !s.pc.Receiving? && !s.pc.Polling?
    ensures QueueSound(WriterAfter(s, p, w, f))
  {
    hide Logged, Recorded, QueueSound, AnswerNow;
    var r := WriterAfter(s, p, w, f);
    LoggedKeeps(s, p, if s.pc.Handling? && s.pc.msg.Entry? then Write(s.pc.msg.line, w) else Flush(f));
    if s.pc.Replying? {
      ReplyStep(s, r, AnswerNow(s));
    } else if s.pc.Handling? && s.pc.msg.Entry? {
      EntryStep(s, r, w.refused);
    } else {
      FlushStep(s, r);
    }
  }

  lemma LoggedKeeps(s: System, p: Policy, step: Step)
    requires s.log.Valid()
    ensures var r := Logged(s, p, step);
      r == s.(log := r.log, went := r.went, late := r.late) && r.log == Next(s.log, p, step)
  {
    hide Next, Ready, ArrivesLate, WentAfter;
  }

  lemma ReplyStep(s: System, r: System, answer: Answer)
    requires QueueSound(s) && s.pc.Replying?
    requires r == s.(answered := s.answered[LatestTaken(s) := answer], pc := Polling)
    ensures QueueSound(r)
  {
    assert r.answered.Keys == s.answered.Keys + {LatestTaken(s)};
  }

  lemma EntryStep(s: System, r: System, refused: bool)
    requires QueueSound(s) && s.pc.Handling? && s.pc.msg.Entry?
    requires r == s.(log := r.log, went := r.went, late := r.late, pc := Polling,
                     refused := s.refused + (if refused then {LatestTaken(s)} else {}))
    ensures QueueSound(r)
  {
  }

  lemma FlushStep(s: System, r: System)
    requires QueueSound(s)
    requires (s.pc.Handling? && s.pc.msg == FlushRequest) || s.pc.Flushing? || s.pc.LastFlush?
    requires r == s.(log := r.log, went := r.went, late := r.late, latest := r.latest, pc := r.pc)
    requires r.pc == if s.pc.Handling? then Replying else if s.pc.Flushing? then Receiving else Done
    ensures QueueSound(r)
  {
  }

  /** What is in the files stays there, ahead of what follows. */
  lemma FilesOnlyGrow(s: Log, r: Log, lines: seq<Line>, settled: seq<Line>)
    requires Follows(s, r, lines) && settled <= Concat(s.disk.files)
    ensures settled <= Concat(r.disk.files)
  {
    hide Sound;
    ConcatLength(s.disk.files, r.disk.files);
    assert Concat(s.disk.files) <= Everything(s) <= Everything(r);
    assert Concat(r.disk.files) <= Everything(r);
    assert |settled| <= |Concat(r.disk.files)|;
    assert settled == Everything(r)[..|settled|] == Concat(r.disk.files)[..|settled|];
  }

  lemma {:induction false} ConcatLength(files: seq<seq<Line>>, files': seq<seq<Line>>)
    requires |files| <= |files'|
    requires forall i :: 0 <= i < |files| ==> files[i] <= files'[i]
    ensures |Concat(files)| <= |Concat(files')|
    decreases |files'|
  {
    if |files| < |files'| {
      ConcatLength(files, files'[..|files'| - 1]);
    } else if files != [] {
      var n := |files| - 1;
      ConcatLength(files[..n], files'[..n]);
    }
  }

  lemma LinesNext(history: seq<Msg>, n: nat, refused: set<nat>)
    requires n < |history|
    ensures LinesBut(history[..n + 1], refused) == LinesBut(history[..n], refused)
      + (if history[n].Entry? && n !in refused then [history[n].line] else [])
  {
    assert history[..n + 1][..n] == history[..n];
  }

  /** Only the positions of the messages themselves matter. */
  lemma {:induction false} RefusedLater(msgs: seq<Msg>, a: set<nat>, b: set<nat>)
    requires forall j :: 0 <= j < |msgs| ==> (j in a <==> j in b)
    ensures LinesBut(msgs, a) == LinesBut(msgs, b)
  {
    if msgs != [] {
      RefusedLater(msgs[..|msgs| - 1], a, b);
    }
  }

  /** A refused entry is missing for good: nothing else can stand in for it. */
  lemma {:induction false} RefusedAreMissing(msgs: seq<Msg>, refused: set<nat>)
    ensures |LinesBut(msgs, refused)| <= |Lines(msgs)|
    ensures (exists j :: j in refused && j < |msgs| && msgs[j].Entry?) ==> |LinesBut(msgs, refused)| < |Lines(msgs)|
    ensures !(exists j :: j in refused && j < |msgs| && msgs[j].Entry?) ==> LinesBut(msgs, refused) == Lines(msgs)
  {
    if msgs != [] {
      var n := |msgs| - 1;
      var front := msgs[..n];
      RefusedAreMissing(front, refused);
      if j :| j in refused && j < |msgs| && msgs[j].Entry? {
        assert j < n ==> front[j] == msgs[j];
      } else {
        assert forall j :: j in refused && j < n ==> front[j] == msgs[j];
      }
    }
  }

  lemma {:induction false} LogStep(s: System, p: Policy, a: Action, base: seq<Line>)
    requires Invariant(s, base) && Enabled(s, a)
    ensures Invariant(After(s, p, a), base)
  {
    hide LogSound, QueueSound, WriterAfter, Next;
    QueueStep(s, p, a);
    match a
    case Send(msg) => SendKeepsLog(s, p, msg, base);
    case CloneHandle => HandlesDoNotMatter(s, s.handles + 1, base);
    case DropHandle => HandlesDoNotMatter(s, s.handles - 1, base);
    case WriterStep(w, f) => WriterKeepsLog(s, p, w, f, base);
    case Operator(step) => OperatorKeepsLog(s, p, step, base);
  }

  lemma HandlesDoNotMatter(s: System, handles: nat, base: seq<Line>)
    requires Invariant(s, base) && QueueSound(s.(handles := handles))
    ensures LogSound(s.(handles := handles), base)
  {
    hide Sound, Everything, Concat, LinesBut, WentSound;
    var r := s.(handles := handles);
    forall i | i in r.answered
      ensures AnswerSound(r, base, i)
    {
      assert AnswerSound(s, base, i);
    }
  }

  /** Answers given stand, whatever comes after. */
  lemma {:induction false} AnswersStay(s: System, r: System, lines: seq<Line>, base: seq<Line>)
    requires QueueSound(s) && QueueSound(r) && LogSound(s, base) && Follows(s.log, r.log, lines)
    requires s.history <= r.history && r.answered == s.answered
    requires forall j :: j < Handled(s) ==> (j in r.refused <==> j in s.refused)
    ensures forall i :: i in r.answered ==> AnswerSound(r, base, i)
  {
    hide Sound, Concat, LinesBut, Everything, Follows;
    forall i | i in r.answered
      ensures AnswerSound(r, base, i)
    {
      assert AnswerSound(s, base, i);
      assert r.history[..i] == s.history[..i];
      RefusedLater(s.history[..i], s.refused, r.refused);
      FilesOnlyGrow(s.log, r.log, lines, s.answered[i].held);
    }
  }

  lemma {:induction false} SendKeepsLog(s: System, p: Policy, msg: Msg, base: seq<Line>)
    requires Invariant(s, base) && Enabled(s, Send(msg)) && QueueSound(After(s, p, Send(msg)))
    ensures LogSound(After(s, p, Send(msg)), base)
  {
    hide Sound, Everything, Concat, LinesBut, AnswerSound, WentSound;
    var r := After(s, p, Send(msg));
    SameLinesFollow(s.log, s.log);
    AnswersStay(s, r, [], base);
    assert r.history[..Handled(s)] == s.history[..Handled(s)];
  }

  lemma LoggedIsSound(s: System, p: Policy, step: Step)
    requires s.log.Valid() && Sound(s.log) && WentSound(s.went, s.late, s.log)
    ensures var r := Logged(s, p, step); WentSound(r.went, r.late, r.log)
  {
    hide Sound, WentSound, WentAfter, Ready, ArrivesLate, Next;
    WentStep(s.went, s.late, s.log, p, step);
  }

  lemma {:induction false} OperatorKeepsLog(s: System, p: Policy, step: Step, base: seq<Line>)
    requires Invariant(s, base) && Enabled(s, Operator(step)) && QueueSound(After(s, p, Operator(step)))
    ensures LogSound(After(s, p, Operator(step)), base)
  {
    hide Sound, Concat, LinesBut, AnswerSound, Everything, WentSound, Logged, Next;
    LoggedKeeps(s, p, step);
    LoggedIsSound(s, p, step);
    OperatorIsReady(s.log, p, step);
    NextFollows(s.log, p, step);
    assert Accepted([step]) == [] by {
      assert [step][..0] == [];
    }
    AnswersStay(s, After(s, p, Operator(step)), [], base);
    assert Everything(s.log) + [] == Everything(s.log);
  }

  lemma {:induction false} WriterKeepsLog(s: System, p: Policy, w: WriteOutcome, f: FlushOutcome, base: seq<Line>)
    requires Invariant(s, base) && WriterEnabled(s) && QueueSound(WriterAfter(s, p, w, f))
    ensures LogSound(WriterAfter(s, p, w, f), base)
  {
    hide WriterAfter, LogSound, QueueSound;
    match s.pc
    case Handling(msg) =>
      if msg.Entry? {
        EntryKeepsLog(s, p, w, f, base);
      } else {
        FlushKeepsLog(s, p, w, f, base);
      }
    case Flushing => FlushKeepsLog(s, p, w, f, base);
    case LastFlush => FlushKeepsLog(s, p, w, f, base);
    case Replying => ReplyKeepsLog(s, p, w, f, base);
    case Receiving => TakeKeepsLog(s, p, w, f, base);
    case Polling => TakeKeepsLog(s, p, w, f, base);
  }

  lemma {:induction false} TakeKeepsLog(s: System, p: Policy, w: WriteOutcome, f: FlushOutcome, base: seq<Line>)
    requires Invariant(s, base) && WriterEnabled(s) && (s.pc.Receiving? || s.pc.Polling?)
    requires QueueSound(WriterAfter(s, p, w, f))
    ensures LogSound(WriterAfter(s, p, w, f), base)
  {
    hide Sound, Concat, LinesBut, AnswerSound, Everything, Logged, Follows, QueueSound, WentSound, Recorded;
    var r := WriterAfter(s, p, w, f);
    SameLinesFollow(s.log, r.log);
    AnswersStay(s, r, [], base);
    assert Handled(r) == Handled(s);
  }

  lemma {:induction false} ReplyKeepsLog(s: System, p: Policy, w: WriteOutcome, f: FlushOutcome, base: seq<Line>)
    requires Invariant(s, base) && s.pc.Replying? && QueueSound(WriterAfter(s, p, w, f))
    ensures LogSound(WriterAfter(s, p, w, f), base)
  {
    hide Sound, Concat, LinesBut, WentSound, InPlace;
    var r := WriterAfter(s, p, w, f);
    var i := LatestTaken(s);
    InPlaceIff(s.went, s.late, s.log);
    LinesNext(s.history, i, s.refused);
    var lines := LinesBut(s.history[..i], s.refused);
    assert lines + [] == lines;
    assert Concat(s.log.disk.files) + s.log.buffer == base + lines;
    assert s.log.buffer == [] ==> Concat(s.log.disk.files) + [] == Concat(s.log.disk.files);
    assert i !in s.answered;
    forall k | k in r.answered
      ensures AnswerSound(r, base, k)
    {
      assert k != i ==> AnswerSound(s, base, k);
    }
  }

  lemma {:induction false} EntryKeepsLog(s: System, p: Policy, w: WriteOutcome, f: FlushOutcome, base: seq<Line>)
    requires Invariant(s, base) && s.pc.Handling? && s.pc.msg.Entry? && QueueSound(WriterAfter(s, p, w, f))
    ensures LogSound(WriterAfter(s, p, w, f), base)
  {
    hide Sound, Concat, LinesBut, Written, Everything, AnswerSound, WentSound, Logged;
    var line := s.pc.msg.line;
    var r := WriterAfter(s, p, w, f);
    var n := Handled(s);
    var lines := if w.refused then [] else [line];
    LoggedKeeps(s, p, Write(line, w));
    LoggedIsSound(s, p, Write(line, w));
    WriteFollows(s.log, line, p, w);
    AnswersStay(s, r, lines, base);
    LinesNext(s.history, n, r.refused);
    RefusedLater(s.history[..n], s.refused, r.refused);
    assert base + LinesBut(s.history[..n], s.refused) + lines == base + (LinesBut(s.history[..n], s.refused) + lines);
  }

  lemma FlushFollows(s: Log, p: Policy, f: FlushOutcome)
    requires s.Valid() && Sound(s)
    ensures Follows(s, Flushed(s, f), [])
  {
    hide Sound, Concat, Flushed, Everything;
    NextFollows(s, p, Flush(f));
    assert Accepted([Flush(f)]) == [] by {
      assert [Flush(f)][..0] == [];
    }
  }

  lemma {:induction false} FlushKeepsLog(s: System, p: Policy, w: WriteOutcome, f: FlushOutcome, base: seq<Line>)
    requires (s.pc.Handling? && s.pc.msg == FlushRequest) || s.pc.Flushing? || s.pc.LastFlush?
    requires Invariant(s, base) && QueueSound(WriterAfter(s, p, w, f))
    ensures LogSound(WriterAfter(s, p, w, f), base)
  {
    hide Sound, Concat, LinesBut, Flushed, Everything, AnswerSound, WriteOutFails, WentSound, Logged, FlushSound;
    var r := WriterAfter(s, p, w, f);
    LoggedKeeps(s, p, Flush(f));
    LoggedIsSound(s, p, Flush(f));
    FlushReachesThePathIff(s.log, f);
    FlushFollows(s.log, p, f);
    FlushLeavesNothingIff(s.log, f);
    AnswersStay(s, r, [], base);
    if s.pc.Handling? {
      LinesNext(s.history, Handled(s), s.refused);
      assert LinesBut(s.history[..Handled(s)], s.refused) + [] == LinesBut(s.history[..Handled(s)], s.refused);
    }
    assert Everything(s.log) + [] == Everything(s.log);
  }

  lemma {:induction false} RunsKeepTheInvariant(s: System, p: Policy, actions: seq<Action>, r: System, base: seq<Line>)
    requires Invariant(s, base) && IsRun(s, p, actions, r)
    ensures Invariant(r, base)
  {
    hide Invariant, After;
    if actions != [] {
      var front, last := actions[..|actions| - 1], actions[|actions| - 1];
      var m :| IsRun(s, p, front, m) && m.log.Valid() && Enabled(m, last) && After(m, p, last) == r;
      RunsKeepTheInvariant(s, p, front, m, base);
      LogStep(m, p, last, base);
    }
  }

  // ---- What the callers did ----------------------------------------------------------------

  /** The handles the callers hold: the first one, and one for each clone that was not dropped. */
  function Out(actions: seq<Action>): int {
    if actions == [] then 1
    else
      var last := actions[|actions| - 1];
      Out(actions[..|actions| - 1]) + if last.CloneHandle? then 1 else if last.DropHandle? then -1 else 0
  }

  /** What they sent, in order. */
  function Sent(actions: seq<Action>): seq<Msg> {
    if actions == [] then []
    else
      var last := actions[|actions| - 1];
      Sent(actions[..|actions| - 1]) + if last.Send? then [last.msg] else []
  }

  lemma {:induction false} StepCounts(s: System, p: Policy, a: Action)
    requires s.log.Valid() && Enabled(s, a)
    ensures After(s, p, a).history == s.history + if a.Send? then [a.msg] else []
    ensures After(s, p, a).handles == s.handles + if a.CloneHandle? then 1 else if a.DropHandle? then -1 else 0
  {
    hide Logged, Recorded, AnswerNow;
    if a.WriterStep? {
      LoggedKeeps(s, p, Flush(a.flush));
      if s.pc.Handling? && s.pc.msg.Entry? {
        LoggedKeeps(s, p, Write(s.pc.msg.line, a.write));
      }
    } else if a.Operator? {
      LoggedKeeps(s, p, a.step);
    }
    assert s.history + [] == s.history;
  }

  /** In every run the writer sees exactly what was sent, and the handles that are out. */
  lemma {:induction false} RunsCount(s: System, p: Policy, actions: seq<Action>, r: System)
    requires Started(s) && IsRun(s, p, actions, r)
    ensures r.history == Sent(actions) && r.handles == Out(actions)
  {
    hide After, Enabled;
    if actions != [] {
      var front, last := actions[..|actions| - 1], actions[|actions| - 1];
      var m :| IsRun(s, p, front, m) && m.log.Valid() && Enabled(m, last) && After(m, p, last) == r;
      RunsCount(s, p, front, m);
      StepCounts(m, p, last);
    }
  }

  /**
   The writer stops only after the last handle was dropped, so a caller that holds one
   can always send, as soon as there is room in the queue; and nobody else can.
   */
  lemma {:induction false} WriterOutlivesTheHandles(s: System, p: Policy, actions: seq<Action>, r: System, msg: Msg)
    requires Started(s) && IsRun(s, p, actions, r)
    ensures r.pc.LastFlush? || r.pc.Done? ==> Out(actions) == 0 && r.queue == []
    ensures Enabled(r, Send(msg)) <==> Out(actions) > 0 && |r.queue| < 1024
    ensures Out(actions) > 0 ==> Enabled(r, CloneHandle) && Enabled(r, DropHandle)
  {
    hide Started, IsRun, Out, LogSound;
    StartedIsSound(s);
    RunsKeepTheInvariant(s, p, actions, r, Everything(s.log));
    RunsCount(s, p, actions, r);
  }

  // ---- What callers may rely on --------------------------------------------------------------

  /** The writer just started on a sound log, one handle out. */
  ghost predicate Started(s: System) {
    && s.handles == 1 && s.queue == [] && s.history == [] && s.pc == Receiving
    && s.refused == {} && s.answered == map[] && !s.late && s.went == WentAfter(map[], s.log.disk, s.log.disk)
    && s.latest == FlushRecord([], [], false, false)
    && s.log.Valid() && Sound(s.log) && s.log.buffer == []
  }

  lemma StartedIsSound(s: System)
    requires Started(s)
    ensures Invariant(s, Everything(s.log))
  {
    hide Sound, WentSound, WentAfter, Everything;
    WentAtFirst(s.log);
    assert Everything(s.log) + LinesBut(s.history[..0], {}) == Everything(s.log);
  }

  /**
   What a flush promises its caller: the files hold every entry queued before it, in
   queue order after what was there, each line was in a file still in place when it
   reached it, and what the flush had to write out is in the file at the path.
   */
  predicate KeepsItsPromise(a: Answer, base: seq<Line>, before: seq<Msg>) {
    a.held == base + Lines(before) && a.inPlace && ReachesThePath(a.flush)
  }

  /**
   In every interleaving, whatever fails and whatever the operator does: the answer to a
   flush request keeps its promise if and only if no entry before it was refused, no line
   arrived late so far (`ArrivesLateIff` says in which steps one does), and the flush
   neither failed to write the buffer out nor missed the path. What the files hold then
   they hold for good.
   */
  lemma {:induction false} AnsweredMeansWrittenIff(s: System, p: Policy, actions: seq<Action>, r: System, i: nat)
    requires Started(s) && IsRun(s, p, actions, r) && i in r.answered
    ensures i < |Sent(actions)| && Sent(actions)[i] == FlushRequest
    ensures var a := r.answered[i];
      && a.held <= Concat(r.log.disk.files)
      && (a.held == Everything(s.log) + Lines(Sent(actions)[..i]) <==> !a.flush.failed && forall j :: j in r.refused ==> j >= i)
      && (a.inPlace <==> !a.late)
      && (!a.flush.failed ==> (ReachesThePath(a.flush) <==> !a.flush.missed))
      && (KeepsItsPromise(a, Everything(s.log), Sent(actions)[..i]) <==>
            !a.flush.failed && !a.flush.missed && !a.late && forall j :: j in r.refused ==> j >= i)
  {
    hide Started, IsRun, Sound, Concat, LinesBut, Everything, Lines, WentSound, ReachesThePath, Sent, Out;
    var base := Everything(s.log);
    RunsCount(s, p, actions, r);
    StartedIsSound(s);
    RunsKeepTheInvariant(s, p, actions, r, base);
    assert AnswerSound(r, base, i);
    var before := r.history[..i];
    RefusedAreMissing(before, r.refused);
    if j :| j in r.refused && j < i {
      assert before[j].Entry?;
    }
    forall j | j in r.refused && j < |before| && before[j].Entry?
      ensures j < i
    {
    }
  }

  /** The file system fails nothing of what the writer does in this step. */
  predicate IsCalm(a: Action) {
    a.WriterStep? ==> CalmReopen(a.write.check) && CalmRotate(a.write.rotate) && !a.write.refused
                      && CalmReopen(a.flush.check) && a.flush.stuck == 0
  }

  ghost predicate NothingWrong(s: System) {
    && s.refused == {} && !s.late && !s.latest.failed && !s.latest.missed
    && forall i :: i in s.answered ==> !s.answered[i].late && !s.answered[i].flush.failed && !s.answered[i].flush.missed
  }

  lemma {:induction false} CalmStepIsFine(s: System, p: Policy, a: Action)
    requires s.log.Valid() && Sound(s.log) && Enabled(s, a) && IsCalm(a) && NothingWrong(s)
    ensures NothingWrong(After(s, p, a))
  {
    hide Sound, Next, Ready, ArrivesLate, WentAfter, Concat, InPlace, CalmRotate;
    match a
    case WriterStep(w, f) =>
      CalmIsNotLate(s.log, p, Flush(f));
      if s.pc.Handling? && s.pc.msg.Entry? {
        CalmIsNotLate(s.log, p, Write(s.pc.msg.line, w));
      }
    case Operator(step) =>
      CalmIsNotLate(s.log, p, step);
    case _ =>
  }

  lemma CalmIsNotLate(s: Log, p: Policy, step: Step)
    requires s.Valid() && Sound(s) && CalmStep(step)
    ensures !ArrivesLate(s, p, step)
  {
    hide Sound, ArrivesLate;
    ArrivesLateIff(s, p, step);
  }

  lemma {:induction false} CalmRunsAreFine(s: System, p: Policy, actions: seq<Action>, r: System)
    requires Started(s) && IsRun(s, p, actions, r) && forall i :: 0 <= i < |actions| ==> IsCalm(actions[i])
    ensures NothingWrong(r)
  {
    hide After, Enabled, IsCalm, NothingWrong;
    if actions == [] {
      StartsFine(s);
    } else {
      var front, last := actions[..|actions| - 1], actions[|actions| - 1];
      var m :| IsRun(s, p, front, m) && m.log.Valid() && Enabled(m, last) && After(m, p, last) == r;
      CalmRunsAreFine(s, p, front, m);
      StartedIsSound(s);
      RunsKeepTheInvariant(s, p, front, m, Everything(s.log));
      CalmStepIsFine(m, p, last);
    }
  }

  lemma StartsFine(s: System)
    requires Started(s)
    ensures NothingWrong(s)
  {
  }

  /** Where the file system fails nothing, every answer keeps its promise, whatever the callers and the operator do. */
  lemma {:induction false} CalmAnswersKeepTheirPromise(s: System, p: Policy, actions: seq<Action>, r: System, i: nat)
    requires Started(s) && IsRun(s, p, actions, r) && forall k :: 0 <= k < |actions| ==> IsCalm(actions[k])
    requires i in r.answered
    ensures i < |Sent(actions)| && KeepsItsPromise(r.answered[i], Everything(s.log), Sent(actions)[..i])
  {
    hide Started, IsRun, IsCalm, Everything, KeepsItsPromise, Sent;
    CalmRunsAreFine(s, p, actions, r);
    AnsweredMeansWrittenIff(s, p, actions, r, i);
  }

  /** An answer is final: no later step changes what it stood for, or takes a line out of the files. */
  lemma {:induction false} AnswersAreFinal(s: System, p: Policy, actions: seq<Action>, r: System, base: seq<Line>, i: nat)
    requires Invariant(s, base) && IsRun(s, p, actions, r) && i in s.answered
    ensures i in r.answered && r.answered[i] == s.answered[i]
    ensures s.answered[i].held <= Concat(r.log.disk.files)
    ensures forall j :: j < i ==> (j in r.refused <==> j in s.refused)
  {
    hide Invariant, After, Concat;
    if actions == [] {
      AnswerIsInTheFiles(s, base, i);
    } else {
      var front, last := actions[..|actions| - 1], actions[|actions| - 1];
      var m :| IsRun(s, p, front, m) && m.log.Valid() && Enabled(m, last) && After(m, p, last) == r;
      AnswersAreFinal(s, p, front, m, base, i);
      RunsKeepTheInvariant(s, p, front, m, base);
      StepKeepsAnswer(m, p, last, base, i);
      LogStep(m, p, last, base);
      AnswerIsInTheFiles(r, base, i);
    }
  }

  lemma AnswerIsInTheFiles(s: System, base: seq<Line>, i: nat)
    requires Invariant(s, base) && i in s.answered
    ensures s.answered[i].held <= Concat(s.log.disk.files)
  {
    hide Sound, Concat, LinesBut, Everything, WentSound;
    assert AnswerSound(s, base, i);
  }

  lemma {:induction false} StepKeepsAnswer(s: System, p: Policy, a: Action, base: seq<Line>, i: nat)
    requires Invariant(s, base) && Enabled(s, a) && i in s.answered
    ensures var r := After(s, p, a);
      && i in r.answered && r.answered[i] == s.answered[i]
      && forall j :: j < i ==> (j in r.refused <==> j in s.refused)
  {
    hide LogSound, AnswerNow, Next, Recorded, WentAfter, Ready, ArrivesLate;
  }

  /**
   The thread ends only with every handle gone. Whenever it ends or waits on an empty
   queue, every flush request is answered; the files and the buffer are the entries
   not refused, in queue order; every entry is in the files if and only if none was
   refused and the latest flush did write the buffer out; and each line was in a file
   still in place when it reached it if and only if none arrived late.
   */
  lemma {:induction false} NothingPendingAtRest(s: System, p: Policy, actions: seq<Action>, r: System)
    requires Started(s) && IsRun(s, p, actions, r)
    requires r.pc.Done? || (r.pc.Receiving? && r.queue == [])
    ensures r.pc.Done? ==> Out(actions) == 0
    ensures r.queue == [] && forall i: nat :: i < |Sent(actions)| && Sent(actions)[i] == FlushRequest ==> i in r.answered
    ensures Concat(r.log.disk.files) + r.log.buffer == Everything(s.log) + LinesBut(Sent(actions), r.refused)
    ensures r.log.buffer == [] <==> !r.latest.failed
    ensures Concat(r.log.disk.files) == Everything(s.log) + Lines(Sent(actions)) <==> !r.latest.failed && r.refused == {}
    ensures InPlace(r.went, r.log.disk) <==> !r.late
  {
    hide Started, IsRun, Sent, Out, LinesBut, Sound, Concat, Lines, WentSound, InPlace;
    RunsCount(s, p, actions, r);
    StartedIsSound(s);
    RunsKeepTheInvariant(s, p, actions, r, Everything(s.log));
    InPlaceIff(r.went, r.late, r.log);
    assert Handled(r) == |r.history|;
    assert r.history[..|r.history|] == r.history;
    RefusedAreMissing(r.history, r.refused);
    if j :| j in r.refused {
      assert r.history[j].Entry?;
    }
    assert r.log.buffer == [] ==> Concat(r.log.disk.files) + [] == Concat(r.log.disk.files);
    assert |Concat(r.log.disk.files)| + |r.log.buffer| == |Everything(s.log)| + |LinesBut(r.history, r.refused)|;
  }

  // ---- Progress ----------------------------------------------------------------------------------

  function Work(s: System): nat {
    5 * |s.queue| + match s.pc
                    case Done => 0
                    case LastFlush => 1
                    case Receiving => 2
                    case Flushing => 3
                    case Polling => 4
                    case Replying => 5
                    case Handling(_) => 6
  }

  /** The writer left alone until it waits or ends, the file system deciding each step. */
  function WriterAlone(s: System, p: Policy, decide: nat -> (WriteOutcome, FlushOutcome)): (r: System)
    requires s.log.Valid()
    ensures r.log.Valid() && !WriterEnabled(r)
    decreases Work(s)
  {
    if !WriterEnabled(s) then s
    else
      var o := decide(Work(s));
      WriterAlone(WriterAfter(s, p, o.0, o.1), p, decide)
  }

  lemma RestIsAnswered(s: System)
    requires s.log.Valid() && QueueSound(s) && !WriterEnabled(s)
    ensures s.queue == [] && forall i: nat :: i < |s.history| && s.history[i] == FlushRequest ==> i in s.answered
    ensures s.pc.Done? <==> s.handles == 0
  {
  }

  /**
   From every reachable state the writer on its own drains the queue and answers every
   flush request in it; and it ends exactly when no handle is out.
   */
  lemma {:induction false} EveryFlushIsAnswered(s: System, p: Policy, decide: nat -> (WriteOutcome, FlushOutcome), base: seq<Line>)
    requires Invariant(s, base)
    ensures var r := WriterAlone(s, p, decide);
      && r.history == s.history && r.handles == s.handles && r.queue == [] && Invariant(r, base)
      && (r.pc.Done? <==> r.handles == 0)
      && forall i: nat :: i < |r.history| && r.history[i] == FlushRequest ==> i in r.answered
    decreases Work(s)
  {
    hide LogSound, QueueSound, WriterAfter, WriterEnabled;
    if WriterEnabled(s) {
      var o := decide(Work(s));
      LogStep(s, p, WriterStep(o.0, o.1), base);
      EveryFlushIsAnswered(WriterAfter(s, p, o.0, o.1), p, decide, base);
    } else {
      RestIsAnswered(s);
    }
  }

  // ---- Broken promises ---------------------------------------------------------------------------

  lemma RunSnoc(s: System, p: Policy, actions: seq<Action>, m: System, a: Action)
    requires IsRun(s, p, actions, m) && m.log.Valid() && Enabled(m, a)
    ensures IsRun(s, p, actions + [a], After(m, p, a))
  {
    hide After;
    assert (actions + [a])[..|actions|] == actions;
  }

  /** What goes wrong between an entry and the answer to the flush behind it. */
  datatype Trouble = Refused | FlushFails | LookFails | CreateFails

  /** The file system and the operator of one such run. */
  function WriteIn(trouble: Trouble): WriteOutcome {
    var calm := ReopenOutcome(false, false, 0);
    WriteOutcome(calm, RotateOutcome(false, 0, false, {}, false, calm), 0, trouble.Refused?)
  }

  function FlushIn(trouble: Trouble): FlushOutcome {
    FlushOutcome(ReopenOutcome(trouble.LookFails?, trouble.CreateFails?, 0), if trouble.FlushFails? then 1 else 0)
  }

  predicate LogIsRemoved(trouble: Trouble) {
    trouble.LookFails? || trouble.CreateFails?
  }

  /**
   The promise fails, with the default `keep` of 3, with the first entry refused, the
   first flush that fails, and the first flush of a removed log whose look at the path
   or new file fails: the request is answered and no file of the log holds the entry.
   */
  lemma {:induction false} AnsweredThoughNotWritten(line: Line, trouble: Trouble) returns (s: System, actions: seq<Action>, r: System)
    ensures Started(s) && IsRun(s, Policy(None, 3), actions, r)
    ensures r.history == [Entry(line), FlushRequest] && 1 in r.answered
    ensures r.refused == (if trouble.Refused? then {0} else {})
    ensures var a := r.answered[1];
      && (a.flush.failed <==> trouble.FlushFails?)
      && (a.flush.missed <==> LogIsRemoved(trouble)) && (a.late <==> LogIsRemoved(trouble))
    ensures Reading(r.log.disk, 3) == []
  {
    hide IsRun, Next, Recorded, WriteOutFails, Concat, Started, Ready, ArrivesLate, AnswerNow, WentAfter, Reading;
    var p := Policy(None, 3);
    var w, f := WriteIn(trouble), FlushIn(trouble);
    var step := WriterStep(w, f);
    s := EmptyStart();
    var s1 := After(s, p, Send(Entry(line)));
    var s2 := After(s1, p, Send(FlushRequest));
    var s3 := After(s2, p, step);
    var s4 := After(s3, p, step);
    var operator := Operator(if LogIsRemoved(trouble) then OperatorRemoves(0) else OperatorRemoves(1));
    var s5 := After(s4, p, operator);
    var s6 := After(s5, p, step);
    var s7 := After(s6, p, step);
    TroubledLog(line, p, trouble);
    AnswerIs(s7);
    r := After(s7, p, step);
    OneRun(s, p, s);
    var a1: seq<Action> := [] + [Send(Entry(line))];
    RunSnoc(s, p, [], s, Send(Entry(line)));
    RunSnoc(s, p, a1, s1, Send(FlushRequest));
    var a2 := a1 + [Send(FlushRequest)];
    RunSnoc(s, p, a2, s2, step);
    RunSnoc(s, p, a2 + [step], s3, step);
    RunSnoc(s, p, a2 + [step] + [step], s4, operator);
    var a5 := a2 + [step] + [step] + [operator];
    RunSnoc(s, p, a5, s5, step);
    RunSnoc(s, p, a5 + [step], s6, step);
    RunSnoc(s, p, a5 + [step] + [step], s7, step);
    actions := a5 + [step] + [step] + [step];
  }

  lemma AnswerIs(s: System)
    ensures AnswerNow(s).flush == s.latest && AnswerNow(s).late == s.late
  {
  }

  lemma OneRun(s: System, p: Policy, r: System)
    requires r == s
    ensures IsRun(s, p, [], r)
  {
  }

  /** A writer started on a new, empty log. */
  lemma EmptyStart() returns (s: System)
    ensures s == System(1, [], Receiving, NewLog(), [], {}, map[], false, FlushRecord([], [], false, false), map[])
    ensures Started(s)
  {
    s := System(1, [], Receiving, NewLog(), [], {}, map[], false, FlushRecord([], [], false, false), map[]);
    NewLogIsSound();
  }

  /** The log in those runs, after the write and after the operator. */
  function WrittenLog(line: Line, trouble: Trouble): Log {
    if trouble.Refused? then NewLog().(errors := 1) else NewLog().(buffer := [line], size := |line|)
  }

  function FoundLog(line: Line, trouble: Trouble): Log {
    var t := WrittenLog(line, trouble);
    if LogIsRemoved(trouble) then t.(disk := t.disk.(names := map[], removed := {0})) else t
  }

  lemma WritesInTrouble(line: Line, p: Policy, trouble: Trouble)
    requires p.maxBytes.None?
    ensures Written(NewLog(), line, p, WriteIn(trouble)) == WrittenLog(line, trouble)
  {
    var s, none: seq<Line> := NewLog(), [];
    assert none + [line] == [line] && [line][0..] == [line] && [line][..0] == none && none[..0] == none && none[0..] == none;
    assert s.disk.files[0] + none == s.disk.files[0];
    assert s.disk.files[0 := s.disk.files[0] + none] == s.disk.files;
  }

  lemma {:induction false} FlushesInTrouble(line: Line, trouble: Trouble)
    ensures Reading(Flushed(FoundLog(line, trouble), FlushIn(trouble)).disk, 3) == []
  {
    hide Reading, Flushed;
    var u, f := FoundLog(line, trouble), FlushIn(trouble);
    if LogIsRemoved(trouble) {
      FlushFindsNoPath(u, f);
    } else {
      FlushSticks(u, f);
    }
    EmptyReads(Flushed(u, f).disk, 3);
  }

  lemma {:induction false} FlushFindsNoPath(s: Log, f: FlushOutcome)
    requires s.Valid() && 0 !in s.disk.names && !CalmReopen(f.check)
    ensures Flushed(s, f).disk.names == s.disk.names
  {
  }

  lemma {:induction false} FlushSticks(s: Log, f: FlushOutcome)
    requires s.Valid() && 0 in s.disk.names && |s.buffer| <= f.stuck
    ensures Flushed(s, f).disk == s.disk
  {
    var none: seq<Line> := [];
    assert s.buffer[..0] == none;
    assert s.disk.files[s.handle] + none == s.disk.files[s.handle];
    assert s.disk.files[s.handle := s.disk.files[s.handle] + none] == s.disk.files;
  }

  lemma {:induction false} TroubledLog(line: Line, p: Policy, trouble: Trouble)
    requires p.maxBytes.None?
    ensures var step := Write(line, WriteIn(trouble));
      var t := Next(NewLog(), p, step);
      var operator := OperatorRemoves(if LogIsRemoved(trouble) then 0 else 1);
      var u := Next(t, p, operator);
      var f := FlushIn(trouble);
      && !ArrivesLate(NewLog(), p, step) && !ArrivesLate(t, p, operator)
      && (ArrivesLate(u, p, Flush(f)) <==> LogIsRemoved(trouble))
      && (Recorded(u, f).failed <==> trouble.FlushFails?) && (Recorded(u, f).missed <==> LogIsRemoved(trouble))
      && Reading(Next(u, p, Flush(f)).disk, 3) == []
  {
    hide Reading, Sound, Written, Flushed, ArrivesLate;
    hide WriteOutFails, WrittenLog, FoundLog;
    var t, u, f := WrittenLog(line, trouble), FoundLog(line, trouble), FlushIn(trouble);
    WritesInTrouble(line, p, trouble);
    OperatorInTrouble(line, p, trouble);
    LateInTrouble(line, p, trouble);
    FlushesInTrouble(line, trouble);
    FlushFailsInTrouble(line, trouble);
  }

  lemma OperatorInTrouble(line: Line, p: Policy, trouble: Trouble)
    ensures Next(WrittenLog(line, trouble), p, OperatorRemoves(if LogIsRemoved(trouble) then 0 else 1)) == FoundLog(line, trouble)
  {
    var t := WrittenLog(line, trouble);
    assert t.disk.names - {0} == map[] && {} + {0} == {0};
  }

  lemma FlushFailsInTrouble(line: Line, trouble: Trouble)
    ensures var u, f := FoundLog(line, trouble), FlushIn(trouble);
      && (WriteOutFails(u, f) <==> trouble.FlushFails?) && (PathIsMissed(u, f) <==> LogIsRemoved(trouble))
  {
  }

  lemma {:induction false} LateInTrouble(line: Line, p: Policy, trouble: Trouble)
    requires p.maxBytes.None?
    ensures !ArrivesLate(NewLog(), p, Write(line, WriteIn(trouble)))
    ensures !ArrivesLate(WrittenLog(line, trouble), p, OperatorRemoves(if LogIsRemoved(trouble) then 0 else 1))
    ensures ArrivesLate(FoundLog(line, trouble), p, Flush(FlushIn(trouble))) <==> LogIsRemoved(trouble)
  {
    hide Sound, Written, ArrivesLate;
    var s, t, u := NewLog(), WrittenLog(line, trouble), FoundLog(line, trouble);
    var write, operator := Write(line, WriteIn(trouble)), OperatorRemoves(if LogIsRemoved(trouble) then 0 else 1);
    NewLogIsSound();
    WritesInTrouble(line, p, trouble);
    ArrivesLateIff(s, p, write);
    NextFollows(s, p, write);
    ArrivesLateIff(t, p, operator);
    NextFollows(t, p, operator);
    OperatorInTrouble(line, p, trouble);
    ArrivesLateIff(u, p, Flush(FlushIn(trouble)));
  }

  lemma {:induction false} EmptyReads(d: Disk, k: nat)
    requires forall j: nat :: LinesAt(d, j) == []
    ensures Reading(d, k) == []
  {
    if k > 0 {
      EmptyReads(d, k - 1);
    }
  }
}
