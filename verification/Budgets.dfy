/**
 The guards for long computations: a budget and an allocation ceiling held in the
 thread's own cells, replaced for the length of a call and put back afterwards, and
 tokens shared by every copy of a budget.

 A program is any nesting of these calls with checks, cancellations, the passing of
 time, early returns of errors and panics.
 */
module Budgets {
  import opened Wrappers

  /** `Budget`: an optional deadline, and the token its copies share. */
  datatype Budget = Budget(deadline: Option<nat>, token: nat)

  const ISIZE_MAX: nat := 0x7FFF_FFFF_FFFF_FFFF
  const USIZE_MAX: nat := 0xFFFF_FFFF_FFFF_FFFF

  datatype Program =
    | Skip
    | Then(first: Program, second: Program)
    | Checkpoint                                    // `checkpoint()?`
    | CheckAlloc(bytes: nat)                        // `check_alloc(..)?`
    | Cancel(token: nat)
    | Pass(time: nat)
    | SetCeiling(limit: Option<nat>)                // the process-wide ceiling
    | Panic
    | WithBudget(budget: Budget, body: Program)
    | WithCeiling(limit: Option<nat>, body: Program)
    | Ignore(body: Program)                         // an error is looked at and dropped
    | CatchUnwind(body: Program)

  datatype Outcome = Returned | Failed | Panicked

  /** What a program did that others can see, and what each of its checks was asked of and said. */
  datatype Event =
    | Cancelled(token: nat)
    | Passed(time: nat)
    | CeilingSet(limit: Option<nat>)
    | BudgetCheck(budget: Option<Budget>, ok: bool)
    | AllocCheck(override: Option<Option<nat>>, bytes: nat, ok: bool)

  /** What all threads share, and what was done so far. */
  datatype World = World(cancelled: set<nat>, now: nat, ceiling: nat, events: seq<Event>)

  /** `Budget::check`: a cancelled token or a deadline that has come. */
  predicate CheckPasses(b: Option<Budget>, w: World) {
    b.None? || (b.value.token !in w.cancelled && (b.value.deadline.None? || w.now < b.value.deadline.value))
  }

  /** `alloc_ceiling_bytes`: the thread's override, or else the process-wide value. */
  function Ceiling(override: Option<Option<nat>>, w: World): Option<nat> {
    if override.Some? then override.value
    else if w.ceiling == USIZE_MAX then None else Some(w.ceiling)
  }

  predicate AllocPasses(limit: Option<nat>, bytes: nat) {
    bytes <= ISIZE_MAX && (limit.None? || bytes <= limit.value)
  }

  // ---- Lexical scope -------------------------------------------------------------------------

  /** The same programs without cells: each check is asked of what encloses it. */
  function Scoped(p: Program, budget: Option<Budget>, override: Option<Option<nat>>, w: World): (World, Outcome) {
    match p
    case Skip => (w, Returned)
    case Then(first, second) =>
      var r := Scoped(first, budget, override, w);
      if r.1 == Returned then Scoped(second, budget, override, r.0) else r
    case Checkpoint =>
      var ok := CheckPasses(budget, w);
      (w.(events := w.events + [BudgetCheck(budget, ok)]), if ok then Returned else Failed)
    case CheckAlloc(bytes) =>
      var limit := Ceiling(override, w);
      var ok := AllocPasses(limit, bytes);
      (w.(events := w.events + [AllocCheck(override, bytes, ok)]), if ok then Returned else Failed)
    case Cancel(token) => (w.(cancelled := w.cancelled + {token}, events := w.events + [Cancelled(token)]), Returned)
    case Pass(time) => (w.(now := w.now + time, events := w.events + [Passed(time)]), Returned)
    case SetCeiling(limit) =>
      (w.(ceiling := if limit.Some? then limit.value else USIZE_MAX, events := w.events + [CeilingSet(limit)]), Returned)
    case Panic => (w, Panicked)
    case WithBudget(b, body) => Scoped(body, Some(b), override, w)
    case WithCeiling(limit, body) => Scoped(body, budget, Some(limit), w)
    case Ignore(body) =>
      var r := Scoped(body, budget, override, w);
      (r.0, if r.1 == Failed then Returned else r.1)
    case CatchUnwind(body) =>
      var r := Scoped(body, budget, override, w);
      (r.0, if r.1 == Panicked then Returned else r.1)
  }

  // ---- The thread's stack and cells -----------------------------------------------------------

  /** What waits on the stack for a call to leave: guards whose drop puts a cell back among it. */
  datatype Frame =
    | Second(second: Program)
    | RestoreBudget(budget: Option<Budget>)
    | RestoreCeiling(override: Option<Option<nat>>)
    | DropsErrors
    | CatchesPanics

  /** What the thread is about to do: enter a program, or leave one, up the stack. */
  datatype Control = Enter(p: Program) | Leave(o: Outcome)

  function Size(p: Program): nat {
    match p
    case Then(first, second) => 1 + Size(first) + Size(second)
    case WithBudget(_, body) => 1 + Size(body)
    case WithCeiling(_, body) => 1 + Size(body)
    case Ignore(body) => 1 + Size(body)
    case CatchUnwind(body) => 1 + Size(body)
    case _ => 1
  }

  function StackSize(stack: seq<Frame>): nat {
    if stack == [] then 0
    else
      var top := stack[|stack| - 1];
      StackSize(stack[..|stack| - 1]) + 1 + if top.Second? then 2 * Size(top.second) else 0
  }

  function Left(control: Control, stack: seq<Frame>): nat {
    StackSize(stack) + if control.Enter? then 2 * Size(control.p) else 0
  }

  /** How a thread ends: its cells, the world, and the outcome. */
  datatype End = End(budget: Option<Budget>, override: Option<Option<nat>>, world: World, outcome: Outcome)

  /** The end of a thread that leaves a program with outcome `o`, its stack still to be unwound. */
  function Unwound(stack: seq<Frame>, budget: Option<Budget>, override: Option<Option<nat>>, w: World, o: Outcome): End {
    if stack == [] then End(budget, override, w, o)
    else
      var rest := stack[..|stack| - 1];
      match stack[|stack| - 1]
      case Second(p) =>
        if o != Returned then Unwound(rest, budget, override, w, o)
        else
          var r := Scoped(p, budget, override, w);
          Unwound(rest, budget, override, r.0, r.1)
      case RestoreBudget(prev) => Unwound(rest, prev, override, w, o)
      case RestoreCeiling(prev) => Unwound(rest, budget, prev, w, o)
      case DropsErrors => Unwound(rest, budget, override, w, if o == Failed then Returned else o)
      case CatchesPanics => Unwound(rest, budget, override, w, if o == Panicked then Returned else o)
  }

  /** The end of a thread as it stands. */
  function Meant(control: Control, stack: seq<Frame>, budget: Option<Budget>, override: Option<Option<nat>>, w: World): End {
    match control
    case Leave(o) => Unwound(stack, budget, override, w, o)
    case Enter(p) =>
      var r := Scoped(p, budget, override, w);
      Unwound(stack, budget, override, r.0, r.1)
  }

  lemma Pushed(stack: seq<Frame>, frame: Frame)
    ensures (stack + [frame])[..|stack + [frame]| - 1] == stack
    ensures StackSize(stack + [frame]) == StackSize(stack) + 1 + if frame.Second? then 2 * Size(frame.second) else 0
  {
    assert (stack + [frame])[..|stack|] == stack;
  }

  class Thread {
    var budget: Option<Budget>
    var override: Option<Option<nat>>
    var world: World

    constructor (world: World)
      ensures budget == None && override == None && this.world == world
    {
      budget, override, this.world := None, None, world;
    }

    /**
     The program run on a stack. A guard only puts its cell back when it is popped, which
     a return, an error and a panic all do on their way up.
     */
    method Execute(p: Program) returns (o: Outcome)
      modifies this
      ensures budget == old(budget) && override == old(override)
      ensures Scoped(p, old(budget), old(override), old(world)) == (world, o)
    {
      hide Scoped;
      var control, stack: seq<Frame> := Enter(p), [];
      ghost var end := Meant(control, stack, budget, override, world);
      while control.Enter? || stack != []
        invariant Meant(control, stack, budget, override, world) == end
        decreases Left(control, stack)
      {
        if control.Enter? {
          control, stack := Push(control.p, stack);
        } else {
          var top := stack[|stack| - 1];
          stack := stack[..|stack| - 1];
          control := Pop(top, control.o);
        }
      }
      o := control.o;
    }

    /** One call entered: a leaf is carried out, anything else leaves a frame behind. */
    method Push(p: Program, stack: seq<Frame>) returns (control: Control, stack': seq<Frame>)
      modifies this
      ensures Meant(control, stack', budget, override, world)
           == Meant(Enter(p), stack, old(budget), old(override), old(world))
      ensures Left(control, stack') < Left(Enter(p), stack)
    {
      stack' := stack;
      match p {
        case Then(first, second) =>
          Pushed(stack, Second(second));
          control, stack' := Enter(first), stack + [Second(second)];
        case WithBudget(b, body) =>
          Pushed(stack, RestoreBudget(budget));
          control, stack' := Enter(body), stack + [RestoreBudget(budget)];
          budget := Some(b);
        case WithCeiling(limit, body) =>
          Pushed(stack, RestoreCeiling(override));
          control, stack' := Enter(body), stack + [RestoreCeiling(override)];
          override := Some(limit);
        case Ignore(body) =>
          Pushed(stack, DropsErrors);
          control, stack' := Enter(body), stack + [DropsErrors];
        case CatchUnwind(body) =>
          Pushed(stack, CatchesPanics);
          control, stack' := Enter(body), stack + [CatchesPanics];
        case _ =>
          var o := Leaf(p);
          control := Leave(o);
      }
    }

    /** A frame popped with outcome `o`. */
    method Pop(top: Frame, o: Outcome) returns (control: Control)
      modifies this
      ensures world == old(world)
      ensures budget == (if top.RestoreBudget? then top.budget else old(budget))
      ensures override == (if top.RestoreCeiling? then top.override else old(override))
      ensures control == match top
                         case Second(p) => if o == Returned then Enter(p) else Leave(o)
                         case DropsErrors => Leave(if o == Failed then Returned else o)
                         case CatchesPanics => Leave(if o == Panicked then Returned else o)
                         case _ => Leave(o)
    {
      control := Leave(o);
      match top {
        case Second(p) =>
          if o == Returned {
            control := Enter(p);
          }
        case RestoreBudget(prev) => budget := prev;
        case RestoreCeiling(prev) => override := prev;
        case DropsErrors =>
          if o == Failed {
            control := Leave(Returned);
          }
        case CatchesPanics =>
          if o == Panicked {
            control := Leave(Returned);
          }
      }
    }

    method Leaf(p: Program) returns (o: Outcome)
      requires !p.Then? && !p.WithBudget? && !p.WithCeiling? && !p.Ignore? && !p.CatchUnwind?
      modifies `world
      ensures (world, o) == Scoped(p, budget, override, old(world))
    {
      match p {
        case Checkpoint =>
          var ok := CheckPasses(budget, world);
          world := world.(events := world.events + [BudgetCheck(budget, ok)]);
          o := if ok then Returned else Failed;
        case CheckAlloc(bytes) =>
          var limit := Ceiling(override, world);
          var ok := AllocPasses(limit, bytes);
          world := world.(events := world.events + [AllocCheck(override, bytes, ok)]);
          o := if ok then Returned else Failed;
        case Cancel(token) =>
          world := world.(cancelled := world.cancelled + {token}, events := world.events + [Cancelled(token)]);
          o := Returned;
        case Pass(time) =>
          world := world.(now := world.now + time, events := world.events + [Passed(time)]);
          o := Returned;
        case SetCeiling(limit) =>
          world := world.(ceiling := if limit.Some? then limit.value else USIZE_MAX, events := world.events + [CeilingSet(limit)]);
          o := Returned;
        case _ => o := if p.Panic? then Panicked else Returned;
      }
    }
  }

  // ---- What a program does ------------------------------------------------------------------------

  /**
   The events of a program run under `budget` and `override`, and how it ends: in order,
   nothing after a call that did not return, every check asked of what encloses it, errors
   and panics kept from going on only where they are dropped or caught.
   */
  ghost predicate IsTrace(p: Program, budget: Option<Budget>, override: Option<Option<nat>>, events: seq<Event>, o: Outcome) {
    match p
    case Skip => events == [] && o == Returned
    case Then(first, second) =>
      || (o != Returned && IsTrace(first, budget, override, events, o))
      || exists n :: 0 <= n <= |events| && IsTrace(first, budget, override, events[..n], Returned)
                     && IsTrace(second, budget, override, events[n..], o)
    case Checkpoint => |events| == 1 && events[0] == BudgetCheck(budget, o == Returned) && o != Panicked
    case CheckAlloc(bytes) => |events| == 1 && events[0] == AllocCheck(override, bytes, o == Returned) && o != Panicked
    case Cancel(token) => events == [Cancelled(token)] && o == Returned
    case Pass(time) => events == [Passed(time)] && o == Returned
    case SetCeiling(limit) => events == [CeilingSet(limit)] && o == Returned
    case Panic => events == [] && o == Panicked
    case WithBudget(b, body) => IsTrace(body, Some(b), override, events, o)
    case WithCeiling(limit, body) => IsTrace(body, budget, Some(limit), events, o)
    case Ignore(body) =>
      o != Failed && (IsTrace(body, budget, override, events, o) || (o == Returned && IsTrace(body, budget, override, events, Failed)))
    case CatchUnwind(body) =>
      o != Panicked && (IsTrace(body, budget, override, events, o) || (o == Returned && IsTrace(body, budget, override, events, Panicked)))
  }

  // ---- What the checks say --------------------------------------------------------------------------

  predicate IsCancelledIn(events: seq<Event>, token: nat) {
    exists i :: 0 <= i < |events| && events[i] == Cancelled(token)
  }

  function TimeIn(events: seq<Event>): nat {
    if events == [] then 0
    else
      var last := events[|events| - 1];
      TimeIn(events[..|events| - 1]) + if last.Passed? then last.time else 0
  }

  /** The process-wide limit set last, `first` when none was. */
  function LimitIn(events: seq<Event>, first: Option<nat>): Option<nat> {
    if events == [] then first
    else
      var last := events[|events| - 1];
      if last.CeilingSet? then last.limit else LimitIn(events[..|events| - 1], first)
  }

  /**
   A check says no exactly when its budget's token was cancelled before it or its deadline
   has come, or when the bytes are more than an allocation or the limit in force allows:
   the innermost override or else the process-wide limit set last.
   */
  ghost predicate IsRight(w: World, events: seq<Event>, i: nat)
    requires i < |events|
  {
    var before := events[..i];
    match events[i]
    case BudgetCheck(b, ok) =>
      ok <==> b.None?
              || (&& b.value.token !in w.cancelled && !IsCancelledIn(before, b.value.token)
                  && (b.value.deadline.None? || w.now + TimeIn(before) < b.value.deadline.value))
    case AllocCheck(override, bytes, ok) =>
      var limit := if override.Some? then override.value else LimitIn(before, Some(w.ceiling));
      ok <==> bytes <= 0x7FFF_FFFF_FFFF_FFFF && (limit.None? || bytes <= limit.value)
    case _ => true
  }

  /** `r` is the world after `events`. */
  ghost predicate Moves(w: World, events: seq<Event>, r: World) {
    && r.events == w.events + events
    && (forall t :: t in r.cancelled <==> t in w.cancelled || IsCancelledIn(events, t))
    && r.now == w.now + TimeIn(events)
    && r.ceiling == (var limit := LimitIn(events, Some(w.ceiling)); if limit.Some? then limit.value else USIZE_MAX)
  }

  lemma {:induction false} TimeConcat(a: seq<Event>, b: seq<Event>)
    ensures TimeIn(a + b) == TimeIn(a) + TimeIn(b)
  {
    if b == [] {
      assert a + b == a;
    } else {
      assert (a + b)[..|a + b| - 1] == a + b[..|b| - 1];
      TimeConcat(a, b[..|b| - 1]);
    }
  }

  lemma {:induction false} LimitConcat(a: seq<Event>, b: seq<Event>, first: Option<nat>)
    ensures LimitIn(a + b, first) == LimitIn(b, LimitIn(a, first))
  {
    if b == [] {
      assert a + b == a;
    } else {
      assert (a + b)[..|a + b| - 1] == a + b[..|b| - 1];
      LimitConcat(a, b[..|b| - 1], first);
    }
  }

  lemma CancelledConcat(a: seq<Event>, b: seq<Event>, token: nat)
    ensures IsCancelledIn(a + b, token) <==> IsCancelledIn(a, token) || IsCancelledIn(b, token)
  {
    if IsCancelledIn(a, token) {
      var i :| 0 <= i < |a| && a[i] == Cancelled(token);
      assert (a + b)[i] == Cancelled(token);
    }
    if IsCancelledIn(b, token) {
      var i :| 0 <= i < |b| && b[i] == Cancelled(token);
      assert (a + b)[|a| + i] == Cancelled(token);
    }
  }

  /** The limit an unlimited process has, as a number, is no limit for any allocation. */
  lemma {:induction false} SameLimit(events: seq<Event>, first: Option<nat>)
    ensures var limit, number := LimitIn(events, first), LimitIn(events, Some(if first.Some? then first.value else USIZE_MAX));
      limit == number || (limit.None? && number == Some(USIZE_MAX))
  {
    if events != [] {
      SameLimit(events[..|events| - 1], first);
    }
  }

  lemma {:induction false} MovesOn(w: World, a: seq<Event>, m: World, b: seq<Event>, r: World)
    requires Moves(w, a, m) && Moves(m, b, r)
    ensures Moves(w, a + b, r)
  {
    hide IsCancelledIn, TimeIn, LimitIn;
    assert w.events + a + b == w.events + (a + b);
    forall t ensures t in r.cancelled <==> t in w.cancelled || IsCancelledIn(a + b, t) {
      CancelledConcat(a, b, t);
    }
    TimeConcat(a, b);
    LimitConcat(a, b, Some(w.ceiling));
    SameLimit(b, LimitIn(a, Some(w.ceiling)));
  }

  lemma {:induction false} RightLater(w: World, a: seq<Event>, m: World, b: seq<Event>, i: nat)
    requires Moves(w, a, m) && i < |b| && IsRight(m, b, i)
    ensures IsRight(w, a + b, |a| + i)
  {
    hide IsCancelledIn, TimeIn, LimitIn;
    assert (a + b)[|a| + i] == b[i] && (a + b)[..|a| + i] == a + b[..i];
    if b[i].BudgetCheck? && b[i].budget.Some? {
      CancelledConcat(a, b[..i], b[i].budget.value.token);
    }
    TimeConcat(a, b[..i]);
    LimitConcat(a, b[..i], Some(w.ceiling));
    SameLimit(b[..i], LimitIn(a, Some(w.ceiling)));
  }

  lemma {:induction false} RightEarlier(w: World, a: seq<Event>, b: seq<Event>, i: nat)
    requires i < |a| && IsRight(w, a, i)
    ensures IsRight(w, a + b, i)
  {
    assert (a + b)[i] == a[i] && (a + b)[..i] == a[..i];
  }

  ghost predicate AllRight(w: World, events: seq<Event>) {
    forall i :: 0 <= i < |events| ==> IsRight(w, events, i)
  }

  /**
   Every program does what it says and every check in it says what it should, whatever
   the nesting, the panics and the errors, and whatever the world was before.
   */
  lemma {:induction false} ProgramsDoWhatTheySay(p: Program, budget: Option<Budget>, override: Option<Option<nat>>, w: World)
    returns (events: seq<Event>)
    ensures var r := Scoped(p, budget, override, w);
      IsTrace(p, budget, override, events, r.1) && Moves(w, events, r.0) && AllRight(w, events)
  {
    hide Moves, IsRight, AllRight;
    match p
    case Then(first, second) =>
      var m := Scoped(first, budget, override, w);
      events := ProgramsDoWhatTheySay(first, budget, override, w);
      if m.1 == Returned {
        var later := ProgramsDoWhatTheySay(second, budget, override, m.0);
        var r := Scoped(second, budget, override, m.0);
        assert (events + later)[..|events|] == events && (events + later)[|events|..] == later;
        MovesOn(w, events, m.0, later, r.0);
        AllRightOn(w, events, m.0, later);
        events := events + later;
      }
    case WithBudget(b, body) => events := ProgramsDoWhatTheySay(body, Some(b), override, w);
    case WithCeiling(limit, body) => events := ProgramsDoWhatTheySay(body, budget, Some(limit), w);
    case Ignore(body) => events := ProgramsDoWhatTheySay(body, budget, override, w);
    case CatchUnwind(body) => events := ProgramsDoWhatTheySay(body, budget, override, w);
    case _ => events := LeafDoesWhatItSays(p, budget, override, w);
  }

  lemma {:induction false} AllRightOn(w: World, a: seq<Event>, m: World, b: seq<Event>)
    requires Moves(w, a, m) && AllRight(w, a) && AllRight(m, b)
    ensures AllRight(w, a + b)
  {
    hide Moves, IsRight;
    forall i | 0 <= i < |a + b| ensures IsRight(w, a + b, i) {
      if i < |a| {
        RightEarlier(w, a, b, i);
      } else {
        RightLater(w, a, m, b, i - |a|);
      }
    }
  }

  lemma {:induction false} LeafDoesWhatItSays(p: Program, budget: Option<Budget>, override: Option<Option<nat>>, w: World)
    returns (events: seq<Event>)
    requires !p.Then? && !p.WithBudget? && !p.WithCeiling? && !p.Ignore? && !p.CatchUnwind?
    ensures var r := Scoped(p, budget, override, w);
      IsTrace(p, budget, override, events, r.1) && Moves(w, events, r.0) && AllRight(w, events)
  {
    var r := Scoped(p, budget, override, w);
    events := r.0.events[|w.events|..];
    assert r.0.events == w.events + events;
    if !p.Skip? && !p.Panic? {
      assert events == [r.0.events[|w.events|]];
      assert events[..0] == [];
    }
  }

  /**
   Once a token is cancelled or a deadline has come, every later check of any budget
   that shares the token or has the deadline fails, wherever in the program it is made.
   */
  lemma {:induction false} ExpiredStaysExpired(p: Program, budget: Option<Budget>, override: Option<Option<nat>>, w: World)
    ensures var r := Scoped(p, budget, override, w).0;
      && w.events <= r.events
      && forall i :: |w.events| <= i < |r.events| && r.events[i].BudgetCheck? && r.events[i].budget.Some? ==>
           var b := r.events[i].budget.value;
           b.token in w.cancelled || (b.deadline.Some? && b.deadline.value <= w.now) ==> !r.events[i].ok
  {
    hide Scoped;
    var events := ProgramsDoWhatTheySay(p, budget, override, w);
    var r := Scoped(p, budget, override, w).0;
    forall i | |w.events| <= i < |r.events|
      ensures IsRight(w, events, i - |w.events|) && r.events[i] == events[i - |w.events|]
    {
    }
  }

  /** The work between two checks of a loop that checks every `checkpoint_stride(work)` iterations. */
  function CheckpointStride(work: nat): nat {
    var stride := 65536 / (if work == 0 then 1 else work);
    if stride == 0 then 1 else stride
  }

  lemma StrideBoundsTheWork(work: nat)
    ensures CheckpointStride(work) >= 1
    ensures CheckpointStride(work) * work <= if work > 65536 then work else 65536
    ensures work > 0 ==> (CheckpointStride(work) + 1) * work > 65536
  {
    if work > 0 {
      var q := 65536 / work;
      assert 65536 == q * work + 65536 % work;
    }
  }
}
