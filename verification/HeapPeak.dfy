/**
 The tracking allocator: three shared counters, updated by any number of threads one
 atomic step at a time, and a compare-exchange loop that keeps their peak.

 A state follows a reset with every thread outside the allocator; steps on different
 threads interleave in every order, as if on one memory.
 */
module HeapPeak {
  import opened Wrappers

  /** Where a thread stands in `alloc` or `dealloc`, with the locals it still needs. */
  datatype Pc =
    | Outside
    | Allocating(size: nat)             // tracking was on; before the `fetch_add`
    | Added(current: nat)               // before the load of `HEAP_FREED`
    | Measured(live: nat)               // before the load of `HEAP_PEAK`
    | Comparing(live: nat, peak: nat)   // in the loop
    | Freeing(size: nat)                // tracking was on; before the `fetch_add`

  type Thread = nat

  /** The counters and the threads; the last two fields are kept to speak about. */
  datatype State = State(
    threads: map<Thread, Pc>,
    heapAllocated: nat,
    heapFreed: nat,
    peak: nat,
    enabled: bool,
    most: nat,           // the most ever allocated less freed
    finished: seq<nat>)  // the live size of each allocation that returned

  datatype Action =
    | Alloc(t: Thread, size: nat)
    | Dealloc(t: Thread, size: nat)
    | Step(t: Thread, spurious: bool)  // one atomic step; `spurious`: a compare-exchange fails for no reason
    | Stop

  function Max(a: nat, b: nat): nat {
    if a < b then b else a
  }

  function Next(s: State, a: Action): State {
    match a
    case Alloc(t, size) =>
      if t in s.threads && s.threads[t] == Outside && s.enabled then s.(threads := s.threads[t := Allocating(size)]) else s
    case Dealloc(t, size) =>
      if t in s.threads && s.threads[t] == Outside && s.enabled then s.(threads := s.threads[t := Freeing(size)]) else s
    case Step(t, spurious) => if t in s.threads then Stepped(s, t, spurious) else s
    case Stop => s.(enabled := false)
  }

  function Stepped(s: State, t: Thread, spurious: bool): State
    requires t in s.threads
  {
    match s.threads[t]
    case Outside => s
    case Allocating(size) =>
      var current := s.heapAllocated + size;
      s.(threads := s.threads[t := Added(current)], heapAllocated := current, most := Max(s.most, SatSub(current, s.heapFreed)))
    case Added(current) => s.(threads := s.threads[t := Measured(SatSub(current, s.heapFreed))])
    case Measured(live) => s.(threads := s.threads[t := Comparing(live, s.peak)])
    case Comparing(live, peak) =>
      if live <= peak then s.(threads := s.threads[t := Outside], finished := s.finished + [live])
      else if s.peak == peak && !spurious then
        s.(threads := s.threads[t := Outside], finished := s.finished + [live], peak := live)
      else s.(threads := s.threads[t := Comparing(live, s.peak)])
    case Freeing(size) => s.(threads := s.threads[t := Outside], heapFreed := s.heapFreed + size)
  }

  function Run(s: State, actions: seq<Action>): State {
    if actions == [] then s else Next(Run(s, actions[..|actions| - 1]), actions[|actions| - 1])
  }

  ghost predicate AllOutside(s: State) {
    forall t :: t in s.threads ==> s.threads[t] == Outside
  }

  /** Just after `heap_tracking_reset`. */
  ghost predicate IsReset(s: State) {
    && s.heapAllocated == s.heapFreed == s.peak == s.most == 0 && s.finished == [] && s.enabled
    && AllOutside(s)
  }

  function MaxOf(xs: seq<nat>): nat {
    if xs == [] then 0 else Max(MaxOf(xs[..|xs| - 1]), xs[|xs| - 1])
  }

  // ---- Any number of threads --------------------------------------------------------------

  /** What a thread holds is not above the most ever live, nor its copy of the peak above the peak. */
  predicate Bounded(s: State, pc: Pc) {
    match pc
    case Added(current) => SatSub(current, s.heapFreed) <= s.most
    case Measured(live) => live <= s.most
    case Comparing(live, peak) => live <= s.most && peak <= s.peak
    case _ => true
  }

  ghost predicate Invariant(s: State) {
    && s.peak <= s.most && SatSub(s.heapAllocated, s.heapFreed) <= s.most
    && s.peak == MaxOf(s.finished)
    && forall t :: t in s.threads ==> Bounded(s, s.threads[t])
  }

  lemma MaxOfAppend(xs: seq<nat>, x: nat)
    ensures MaxOf(xs + [x]) == Max(MaxOf(xs), x)
  {
    assert (xs + [x])[..|xs|] == xs;
  }

  /** Counters that only grow keep what the other threads hold in bounds. */
  lemma OthersStayBounded(s: State, r: State, t: Thread)
    requires forall u :: u in s.threads ==> Bounded(s, s.threads[u])
    requires t in s.threads && t in r.threads && r.threads == s.threads[t := r.threads[t]] && Bounded(r, r.threads[t])
    requires s.most <= r.most && s.peak <= r.peak && s.heapFreed <= r.heapFreed
    ensures forall u :: u in r.threads ==> Bounded(r, r.threads[u])
  {
    forall u | u in r.threads ensures Bounded(r, r.threads[u]) {
      if u != t {
        assert Bounded(s, s.threads[u]);
      }
    }
  }

  lemma StepKeepsInvariant(s: State, a: Action)
    requires Invariant(s)
    ensures Invariant(Next(s, a)) && s.peak <= Next(s, a).peak && s.most <= Next(s, a).most
  {
    var r := Next(s, a);
    if a != Stop && a.t in s.threads && r != s {
      ThreadStaysBounded(s, a);
      OthersStayBounded(s, r, a.t);
    }
  }

  lemma ThreadStaysBounded(s: State, a: Action)
    requires Invariant(s) && a != Stop && a.t in s.threads
    ensures var r := Next(s, a);
      && a.t in r.threads && r.threads == s.threads[a.t := r.threads[a.t]] && Bounded(r, r.threads[a.t])
      && s.most <= r.most && s.peak <= r.peak && s.heapFreed <= r.heapFreed
      && r.peak <= r.most && SatSub(r.heapAllocated, r.heapFreed) <= r.most && r.peak == MaxOf(r.finished)
  {
    hide MaxOf;
    var pc := s.threads[a.t];
    assert Bounded(s, pc);
    if pc.Comparing? {
      MaxOfAppend(s.finished, pc.live);
    }
  }

  lemma {:induction false} InvariantHolds(s: State, actions: seq<Action>)
    requires IsReset(s)
    ensures Invariant(Run(s, actions))
    ensures forall i :: 0 <= i <= |actions| ==> Run(s, actions[..i]).peak <= Run(s, actions).peak
  {
    hide Invariant, Next;
    if actions == [] {
      ResetIsInvariant(s);
      assert actions[..0] == actions;
    } else {
      var front := actions[..|actions| - 1];
      InvariantHolds(s, front);
      StepKeepsInvariant(Run(s, front), actions[|actions| - 1]);
      forall i | 0 <= i <= |actions|
        ensures Run(s, actions[..i]).peak <= Run(s, actions).peak
      {
        if i < |actions| {
          assert front[..i] == actions[..i];
        } else {
          assert actions[..i] == actions;
        }
      }
    }
  }

  lemma ResetIsInvariant(s: State)
    requires IsReset(s)
    ensures Invariant(s)
  {
  }

  lemma {:induction false} MaxOfIsUpperBound(xs: seq<nat>, i: nat)
    requires i < |xs|
    ensures xs[i] <= MaxOf(xs)
  {
    if i < |xs| - 1 {
      MaxOfIsUpperBound(xs[..|xs| - 1], i);
    }
  }

  // ---- One thread ---------------------------------------------------------------------------

  /** Nothing but the thread's own last allocation separates the peak from the most ever live. */
  predicate ExactAlone(s: State, pc: Pc) {
    match pc
    case Added(current) => current == s.heapAllocated && s.most == Max(s.peak, SatSub(current, s.heapFreed))
    case Measured(live) => s.most == Max(s.peak, live)
    case Comparing(live, peak) => s.most == Max(s.peak, live) && peak == s.peak
    case _ => s.most == s.peak
  }

  ghost predicate Alone(s: State, t: Thread) {
    s.threads.Keys == {t} && ExactAlone(s, s.threads[t])
  }

  lemma StepAlone(s: State, t: Thread, a: Action)
    requires Alone(s, t) && Invariant(s)
    ensures Alone(Next(s, a), t)
  {
    hide MaxOf, Bounded;
    var r := Next(s, a);
    assert t in s.threads;
    if a.Stop? || a.t == t {
      assert r.threads.Keys == {t};
    }
  }

  lemma {:induction false} RunAlone(s: State, t: Thread, actions: seq<Action>)
    requires IsReset(s) && s.threads.Keys == {t}
    ensures Alone(Run(s, actions), t)
  {
    hide Next, Invariant;
    if actions != [] {
      var front := actions[..|actions| - 1];
      RunAlone(s, t, front);
      InvariantHolds(s, front);
      StepAlone(Run(s, front), t, actions[|actions| - 1]);
    }
  }

  lemma MissingRun(s: State, t: Thread, u: Thread) returns (actions: seq<Action>)
    requires IsReset(s) && t in s.threads && u in s.threads && t != u
    ensures AllOutside(Run(s, actions)) && Run(s, actions).peak < Run(s, actions).most
  {
    var s1 := Next(s, Alloc(t, 8));
    var s2 := Next(s1, Step(t, false));
    var s3 := Next(s2, Dealloc(u, 8));
    var s4 := Next(s3, Step(u, false));
    var s5 := Next(s4, Step(t, false));
    var s6 := Next(s5, Step(t, false));
    var s7 := Next(s6, Step(t, false));
    assert s7.peak == 0 && s7.most == 8 && AllOutside(s7);
    var none: seq<Action> := [];
    assert Run(s, none) == s;
    RunSnoc(s, [], Alloc(t, 8));
    RunSnoc(s, [] + [Alloc(t, 8)], Step(t, false));
    RunSnoc(s, [] + [Alloc(t, 8)] + [Step(t, false)], Dealloc(u, 8));
    var a3 := [] + [Alloc(t, 8)] + [Step(t, false)] + [Dealloc(u, 8)];
    RunSnoc(s, a3, Step(u, false));
    RunSnoc(s, a3 + [Step(u, false)], Step(t, false));
    RunSnoc(s, a3 + [Step(u, false)] + [Step(t, false)], Step(t, false));
    RunSnoc(s, a3 + [Step(u, false)] + [Step(t, false)] + [Step(t, false)], Step(t, false));
    actions := a3 + [Step(u, false)] + [Step(t, false)] + [Step(t, false)] + [Step(t, false)];
  }

  lemma RunSnoc(s: State, actions: seq<Action>, a: Action)
    ensures Run(s, actions + [a]) == Next(Run(s, actions), a)
  {
    assert (actions + [a])[..|actions|] == actions;
  }

  // ---- When the peak is exact -----------------------------------------------------------------

  lemma {:induction false} MaxOfIsAttained(xs: seq<nat>)
    ensures MaxOf(xs) == 0 || MaxOf(xs) in xs
  {
    if xs != [] {
      MaxOfIsAttained(xs[..|xs| - 1]);
    }
  }

  lemma {:induction false} NobodyNothing(s: State, actions: seq<Action>)
    requires IsReset(s) && s.threads == map[]
    ensures var r := Run(s, actions); r.threads == map[] && r.peak == r.most == 0
  {
    if actions != [] {
      NobodyNothing(s, actions[..|actions| - 1]);
    }
  }

  // ---- What happened, from the calls and the steps alone ---------------------------------------------

  ghost predicate Tracked(actions: seq<Action>) {
    forall i :: 0 <= i < |actions| ==> actions[i] != Stop
  }

  /** Where thread `t` stands after `actions`. */
  function PcAt(s: State, actions: seq<Action>, t: Thread): Pc {
    var r := Run(s, actions);
    if t in r.threads then r.threads[t] else Outside
  }

  /** The call that thread `t` made last: one it makes inside the allocator, or untracked, is none. */
  ghost function Call(s: State, actions: seq<Action>, t: Thread): Option<Action> {
    if actions == [] then None
    else
      var front, last := actions[..|actions| - 1], actions[|actions| - 1];
      if (last.Alloc? || last.Dealloc?) && last.t == t && Tracked(front) && PcAt(s, front, t).Outside?
      then Some(last) else Call(s, front, t)
  }

  ghost function CallSize(s: State, actions: seq<Action>, t: Thread): nat {
    match Call(s, actions, t)
    case Some(Alloc(_, size)) => size
    case Some(Dealloc(_, size)) => size
    case _ => 0
  }

  /** The sizes of the allocations whose `fetch_add` has run. */
  ghost function Allocated(s: State, actions: seq<Action>): nat {
    if actions == [] then 0
    else
      var front, last := actions[..|actions| - 1], actions[|actions| - 1];
      Allocated(s, front)
      + if last.Step? && PcAt(s, front, last.t).Allocating? then CallSize(s, front, last.t) else 0
  }

  /** The sizes of the frees whose `fetch_add` has run. */
  ghost function Freed(s: State, actions: seq<Action>): nat {
    if actions == [] then 0
    else
      var front, last := actions[..|actions| - 1], actions[|actions| - 1];
      Freed(s, front)
      + if last.Step? && PcAt(s, front, last.t).Freeing? then CallSize(s, front, last.t) else 0
  }

  /** The most ever allocated less freed. */
  ghost function MostLive(s: State, actions: seq<Action>): nat {
    if actions == [] then 0
    else
      Max(MostLive(s, actions[..|actions| - 1]), SatSub(Allocated(s, actions), Freed(s, actions)))
  }

  /** What was allocated when the `fetch_add` of the latest allocation of `t` ran, its own size included. */
  ghost function AllocatedAt(s: State, actions: seq<Action>, t: Thread): nat {
    if actions == [] then 0
    else
      var front, last := actions[..|actions| - 1], actions[|actions| - 1];
      if last.Step? && last.t == t && PcAt(s, front, t).Allocating? then Allocated(s, actions)
      else AllocatedAt(s, front, t)
  }

  /** The live size that allocation saw: less what was freed when it looked. */
  ghost function LiveAt(s: State, actions: seq<Action>, t: Thread): nat {
    if actions == [] then 0
    else
      var front, last := actions[..|actions| - 1], actions[|actions| - 1];
      if last.Step? && last.t == t && PcAt(s, front, t).Added?
      then SatSub(AllocatedAt(s, front, t), Freed(s, front))
      else LiveAt(s, front, t)
  }

  /** The live sizes of the allocations that returned, in that order. */
  ghost function Lives(s: State, actions: seq<Action>): seq<nat> {
    if actions == [] then []
    else
      var front, last := actions[..|actions| - 1], actions[|actions| - 1];
      if last.Step? && PcAt(s, front, last.t).Comparing? && PcAt(s, actions, last.t).Outside?
      then Lives(s, front) + [LiveAt(s, front, last.t)]
      else Lives(s, front)
  }

  /** What a thread holds is what happened to it. */
  ghost predicate Holds(s: State, actions: seq<Action>, t: Thread, pc: Pc) {
    match pc
    case Outside => true
    case Allocating(size) => Call(s, actions, t) == Some(Alloc(t, size))
    case Added(current) => current == AllocatedAt(s, actions, t)
    case Measured(live) => live == LiveAt(s, actions, t)
    case Comparing(live, _) => live == LiveAt(s, actions, t)
    case Freeing(size) => Call(s, actions, t) == Some(Dealloc(t, size))
  }

  ghost predicate Happened(s: State, actions: seq<Action>) {
    var r := Run(s, actions);
    && (r.enabled <==> Tracked(actions))
    && r.heapAllocated == Allocated(s, actions) && r.heapFreed == Freed(s, actions)
    && r.most == MostLive(s, actions) && r.finished == Lives(s, actions)
    && forall t :: t in r.threads ==> Holds(s, actions, t, r.threads[t])
  }

  lemma {:induction false} CountersAreWhatHappened(s: State, actions: seq<Action>)
    requires IsReset(s)
    ensures Happened(s, actions)
  {
    hide Run, Next;
    if actions == [] {
      assert Run(s, actions) == s by {
        NoRun(s);
      }
    } else {
      var front, last := actions[..|actions| - 1], actions[|actions| - 1];
      CountersAreWhatHappened(s, front);
      InvariantHolds(s, front);
      OneStep(s, actions);
      StepHappened(s, front, last, actions);
    }
  }

  lemma NoRun(s: State)
    ensures Run(s, []) == s
  {
  }

  lemma OneStep(s: State, actions: seq<Action>)
    requires actions != []
    ensures Run(s, actions) == Next(Run(s, actions[..|actions| - 1]), actions[|actions| - 1])
  {
  }

  lemma {:induction false} StepHappened(s: State, front: seq<Action>, last: Action, actions: seq<Action>)
    requires actions != [] && front == actions[..|actions| - 1] && last == actions[|actions| - 1]
    requires Happened(s, front) && Invariant(Run(s, front)) && Run(s, actions) == Next(Run(s, front), last)
    ensures Happened(s, actions)
  {
    hide Run, Next, Invariant, Holds, Allocated, Freed, MostLive, Lives;
    TotalsHappened(s, front, last, actions);
    forall t | t in Run(s, actions).threads
      ensures Holds(s, actions, t, Run(s, actions).threads[t])
    {
      SameThreads(Run(s, front), last);
      assert Holds(s, front, t, Run(s, front).threads[t]);
      ThreadHappened(s, front, last, actions, t);
    }
  }

  lemma SameThreads(s: State, a: Action)
    ensures forall t :: t in Next(s, a).threads <==> t in s.threads
  {
  }

  lemma {:induction false} TotalsHappened(s: State, front: seq<Action>, last: Action, actions: seq<Action>)
    requires actions != [] && front == actions[..|actions| - 1] && last == actions[|actions| - 1]
    requires Happened(s, front) && Invariant(Run(s, front)) && Run(s, actions) == Next(Run(s, front), last)
    ensures var r := Run(s, actions);
      && (r.enabled <==> Tracked(actions))
      && r.heapAllocated == Allocated(s, actions) && r.heapFreed == Freed(s, actions)
      && r.most == MostLive(s, actions) && r.finished == Lives(s, actions)
  {
    hide Run, MaxOf, Bounded, Call, LiveAt, AllocatedAt;
    assert Tracked(actions) <==> Tracked(front) && last != Stop;
    if last.Step? && last.t in Run(s, front).threads {
      assert Holds(s, front, last.t, Run(s, front).threads[last.t]);
    }
  }

  lemma {:induction false} ThreadHappened(s: State, front: seq<Action>, last: Action, actions: seq<Action>, t: Thread)
    requires actions != [] && front == actions[..|actions| - 1] && last == actions[|actions| - 1]
    requires Happened(s, front) && Run(s, actions) == Next(Run(s, front), last)
    requires Run(s, actions).heapAllocated == Allocated(s, actions)
    requires t in Run(s, front).threads && t in Run(s, actions).threads && Holds(s, front, t, Run(s, front).threads[t])
    ensures Holds(s, actions, t, Run(s, actions).threads[t])
  {
    hide Run, MostLive, Lives, Allocated, Freed;
  }

  // ---- What a benchmark may rely on --------------------------------------------------------------

  /**
   In every interleaving, spurious failures included, the peak never falls, and it is
   exactly the largest live size that an allocation that returned had seen.
   */
  lemma {:induction false} PeakIsTheLargestLive(s: State, actions: seq<Action>)
    requires IsReset(s)
    ensures Run(s, actions).peak == MaxOf(Lives(s, actions))
    ensures forall i :: 0 <= i <= |actions| ==> Run(s, actions[..i]).peak <= Run(s, actions).peak
  {
    hide Run, Lives, MaxOf, Bounded;
    InvariantHolds(s, actions);
    CountersAreWhatHappened(s, actions);
  }

  /** It is at least what each of them saw, and never above the most that was ever live. */
  lemma {:induction false} PeakBounds(s: State, actions: seq<Action>)
    requires IsReset(s)
    ensures forall i :: 0 <= i < |Lives(s, actions)| ==> Lives(s, actions)[i] <= Run(s, actions).peak
    ensures Run(s, actions).peak <= MostLive(s, actions)
  {
    hide Run, Lives, MostLive, MaxOf, Bounded, Holds;
    InvariantHolds(s, actions);
    CountersAreWhatHappened(s, actions);
    forall i | 0 <= i < |Lives(s, actions)| ensures Lives(s, actions)[i] <= Run(s, actions).peak {
      MaxOfIsUpperBound(Lives(s, actions), i);
    }
  }

  /** With one thread it is the most that was ever live, whenever the thread is outside the allocator. */
  lemma {:induction false} OneThreadIsExact(s: State, t: Thread, actions: seq<Action>)
    requires IsReset(s) && s.threads.Keys == {t} && AllOutside(Run(s, actions))
    ensures Run(s, actions).peak == MostLive(s, actions)
  {
    hide Run, MostLive, Lives, Holds;
    RunAlone(s, t, actions);
    CountersAreWhatHappened(s, actions);
  }

  /** Any two threads can miss it: what one frees between the other's two loads is not counted as live. */
  lemma {:induction false} TwoThreadsCanMissIt(s: State, t: Thread, u: Thread) returns (actions: seq<Action>)
    requires IsReset(s) && t in s.threads && u in s.threads && t != u
    ensures AllOutside(Run(s, actions)) && Run(s, actions).peak < MostLive(s, actions)
  {
    hide Run, MostLive, Lives, Holds, IsReset, AllOutside;
    actions := MissingRun(s, t, u);
    CountersAreWhatHappened(s, actions);
  }

  /** In one run: exactly when an allocation that returned saw the most that was ever live. */
  lemma {:induction false} PeakIsExactIff(s: State, actions: seq<Action>)
    requires IsReset(s)
    ensures Run(s, actions).peak == MostLive(s, actions) <==> MostLive(s, actions) == 0 || MostLive(s, actions) in Lives(s, actions)
  {
    hide Run, MostLive, Lives, MaxOf;
    var lives, most := Lives(s, actions), MostLive(s, actions);
    PeakIsTheLargestLive(s, actions);
    PeakBounds(s, actions);
    MaxOfIsAttained(lives);
    if i :| 0 <= i < |lives| && lives[i] == most {
      MaxOfIsUpperBound(lives, i);
    }
  }

  lemma {:induction false} FewThreadsAreExact(s: State, actions: seq<Action>)
    requires IsReset(s) && |s.threads.Keys| <= 1 && AllOutside(Run(s, actions))
    ensures Run(s, actions).peak == MostLive(s, actions)
  {
    hide Run, IsReset, MostLive, Lives, Holds, AllOutside;
    if t :| t in s.threads {
      assert s.threads.Keys == {t} by {
        assert |s.threads.Keys - {t}| == 0;
      }
      OneThreadIsExact(s, t, actions);
    } else {
      assert s.threads == map[];
      NobodyNothing(s, actions);
      CountersAreWhatHappened(s, actions);
    }
  }

  /**
   Whatever the threads do, the peak found with all of them outside the allocator is the
   most that was ever live, if and only if there is at most one thread.
   */
  lemma {:induction false} ExactForAllRunsIff(s: State)
    requires IsReset(s)
    ensures (forall actions :: AllOutside(Run(s, actions)) ==> Run(s, actions).peak == MostLive(s, actions))
            <==> |s.threads.Keys| <= 1
  {
    hide Run, IsReset, AllOutside, MostLive;
    if |s.threads.Keys| <= 1 {
      forall actions | AllOutside(Run(s, actions))
        ensures Run(s, actions).peak == MostLive(s, actions)
      {
        FewThreadsAreExact(s, actions);
      }
    } else {
      var t :| t in s.threads.Keys;
      var others := s.threads.Keys - {t};
      assert |others| > 0;
      var u :| u in others;
      var actions := TwoThreadsCanMissIt(s, t, u);
    }
  }

  /** Left alone, without spurious failures, the loop ends after at most two rounds, with the peak no less than what it came with. */
  lemma {:induction false} LoopEndsUndisturbed(s: State, t: Thread)
    requires t in s.threads && s.threads[t].Comparing?
    ensures var r := Next(s, Step(t, false));
      var r' := if r.threads[t].Comparing? then Next(r, Step(t, false)) else r;
      && t in r'.threads && r'.threads[t] == Outside && r'.finished == s.finished + [s.threads[t].live]
      && (s.threads[t].peak <= s.peak ==> r'.peak == Max(s.peak, s.threads[t].live))
  {
  }
}
