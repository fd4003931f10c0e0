/**
 The guards of function-local static objects in cxx_guards.cpp: any number of tasks and guards
 share one mutex, one counting semaphore and one count of waiting tasks.  Each function is cut at
 every operation on these, so a task can be preempted between any two of them.
 */
module StaticInit {
  import opened Bytes

  type Guard = nat
  type Task = nat

  /** Where a task is. */
  datatype Pc =
    | User                               // outside the library
    | Entering(g: Guard)                 // acquire: takes the mutex next
    | Checking(g: Guard)                 // acquire: tests whether the guard is pending
    | Parking(g: Guard)                  // wait loop: gives the mutex next
    | Waiting(g: Guard)                  // wait loop: takes the semaphore next
    | Woken(g: Guard)                    // wait loop: takes the mutex next
    | Rechecking(g: Guard)               // wait loop: tests the guard again
    | Deciding(g: Guard)                 // acquire: tests whether the guard is ready
    | Closing(g: Guard, done: bool)      // release or abort: takes the mutex next
    | Publishing(g: Guard, done: bool)   // release or abort: updates the guard
    | Signalling(left: nat)              // release or abort: gives the semaphore `left` times
    | Leaving                            // gives the mutex and returns
  {
    predicate HoldsMutex() {
      Checking? || Parking? || Rechecking? || Deciding? || Publishing? || Signalling? || Leaving?
    }

    predicate InWaitLoop() {
      Parking? || Waiting? || Woken? || Rechecking?
    }

    /** In the wait loop, with the semaphore yet to take. */
    predicate Needy() {
      Parking? || Waiting?
    }
  }

  /** What the callers see: acquire returning 1 or 0, and a completed release or abort. */
  datatype Event =
    | Won(t: Task, g: Guard)
    | Passed(t: Task, g: Guard)
    | Released(t: Task, g: Guard)
    | Aborted(t: Task, g: Guard)

  datatype State = State(
    ready: set<Guard>, pending: set<Guard>,
    mutex: Option<Task>, waitSem: nat, waitingCount: nat,
    pc: seq<Pc>, owned: seq<set<Guard>>, history: seq<Event>)

  /** A task calls acquire, ends an initialisation it has won, or goes on inside the library. */
  datatype Action = Acquire(g: Guard) | Finish(g: Guard, done: bool) | Proceed

  function Goto(s: State, t: Task, pc: Pc): State
    requires t < |s.pc|
  {
    s.(pc := s.pc[t := pc])
  }

  /** The step that a task takes inside the library, unless it has to wait for the mutex or the
      semaphore. */
  function Advance(s: State, t: Task): (r: Option<State>)
    requires t < |s.pc| == |s.owned|
    ensures r.Some? ==> |r.value.pc| == |s.pc| == |r.value.owned| && r.value.pc == s.pc[t := r.value.pc[t]]
  {
    match s.pc[t]
    case User => None
    case Entering(g) =>
      if s.mutex.None? then Some(Goto(s, t, Checking(g)).(mutex := Some(t))) else None
    case Checking(g) =>
      Some(if g in s.pending then Goto(s, t, Parking(g)).(waitingCount := s.waitingCount + 1)
           else Goto(s, t, Deciding(g)))
    case Parking(g) =>
      Some(Goto(s, t, Waiting(g)).(mutex := None))
    case Waiting(g) =>
      if s.waitSem > 0 then Some(Goto(s, t, Woken(g)).(waitSem := s.waitSem - 1)) else None
    case Woken(g) =>
      if s.mutex.None? then Some(Goto(s, t, Rechecking(g)).(mutex := Some(t))) else None
    case Rechecking(g) =>
      Some(if g in s.pending then Goto(s, t, Parking(g))
           else Goto(s, t, Deciding(g)).(waitingCount := if s.waitingCount > 0 then s.waitingCount - 1 else 0))
    case Deciding(g) =>
      Some(if g in s.ready then Goto(s, t, Leaving).(history := s.history + [Passed(t, g)])
           else Goto(s, t, Leaving).(pending := s.pending + {g}, owned := s.owned[t := s.owned[t] + {g}],
                                     history := s.history + [Won(t, g)]))
    case Closing(g, done) =>
      if s.mutex.None? then Some(Goto(s, t, Publishing(g, done)).(mutex := Some(t))) else None
    case Publishing(g, done) =>
      Some(Goto(s, t, Signalling(s.waitingCount)).(
             pending := s.pending - {g}, owned := s.owned[t := s.owned[t] - {g}],
             ready := if done then s.ready + {g} else s.ready,
             history := s.history + [if done then Released(t, g) else Aborted(t, g)]))
    case Signalling(left) =>
      Some(if left > 0 then Goto(s, t, Signalling(left - 1)).(waitSem := s.waitSem + 1)
           else Goto(s, t, Leaving))
    case Leaving =>
      Some(Goto(s, t, User).(mutex := None))
  }

  /** A step of task `t`.  Only an initialisation that `t` has won can be ended by it. */
  function Step(s: State, t: Task, a: Action): (r: Option<State>)
    requires |s.pc| == |s.owned|
    ensures r.Some? ==> t < |s.pc| == |r.value.pc| == |r.value.owned| && r.value.pc == s.pc[t := r.value.pc[t]]
  {
    if t >= |s.pc| then None
    else match a
      case Acquire(g) => if s.pc[t].User? then Some(Goto(s, t, Entering(g))) else None
      case Finish(g, done) =>
        if s.pc[t].User? && g in s.owned[t] then Some(Goto(s, t, Closing(g, done))) else None
      case Proceed => Advance(s, t)
  }

  function Init(tasks: nat): State {
    State({}, {}, None, 0, 0, seq(tasks, _ => User), seq(tasks, _ => {}), [])
  }

  /** The state after a schedule; a step that is not possible is skipped. */
  function Run(s: State, schedule: seq<(Task, Action)>): State
    requires |s.pc| == |s.owned|
    decreases |schedule|
  {
    if schedule == [] then s
    else
      var next := Step(s, schedule[0].0, schedule[0].1);
      Run(if next.Some? then next.value else s, schedule[1..])
  }

  // ---------------------------------------------------------------- counting

  function Sum(pcs: seq<Pc>, f: Pc -> nat): nat {
    if pcs == [] then 0 else f(pcs[0]) + Sum(pcs[1..], f)
  }

  lemma {:induction false} SumUpdate(pcs: seq<Pc>, f: Pc -> nat, t: nat, pc: Pc)
    requires t < |pcs|
    ensures Sum(pcs[t := pc], f) == Sum(pcs, f) - f(pcs[t]) + f(pc)
    ensures Sum(pcs, f) >= f(pcs[t])
  {
    if t == 0 {
      assert pcs[0 := pc][1..] == pcs[1..];
    } else {
      SumUpdate(pcs[1..], f, t - 1, pc);
      assert pcs[t := pc][1..] == pcs[1..][t - 1 := pc];
    }
  }

  lemma {:induction false} SumMonotone(pcs: seq<Pc>, f: Pc -> nat, h: Pc -> nat)
    requires forall pc :: f(pc) <= h(pc)
    ensures Sum(pcs, f) <= Sum(pcs, h)
  {
    if pcs != [] {
      SumMonotone(pcs[1..], f, h);
    }
  }

  lemma {:induction false} SumZero(pcs: seq<Pc>, f: Pc -> nat)
    requires forall pc | pc in pcs :: f(pc) == 0
    ensures Sum(pcs, f) == 0
  {
    if pcs != [] {
      SumZero(pcs[1..], f);
    }
  }

  function LoopWeight(pc: Pc): nat {
    if pc.InWaitLoop() then 1 else 0
  }

  function NeedWeight(pc: Pc): nat {
    if pc.Needy() then 1 else 0
  }

  function PromiseWeight(pc: Pc): nat {
    if pc.Signalling? then pc.left else 0
  }

  /** The tasks inside the wait loop. */
  function Waiters(s: State): nat {
    Sum(s.pc, LoopWeight)
  }

  /** The tasks inside the wait loop that have yet to take the semaphore. */
  function NeedyWaiters(s: State): nat {
    Sum(s.pc, NeedWeight)
  }

  /** The semaphore tokens that a release or abort in progress has yet to give. */
  function Promised(s: State): nat {
    Sum(s.pc, PromiseWeight)
  }

  // ---------------------------------------------------------------- the once automaton

  /** What the history of a guard amounts to. */
  datatype Phase = Fresh | Running(t: Task) | Done

  function PhaseAfter(p: Phase, e: Event, g: Guard): Phase {
    if e.g != g then p
    else match e
      case Won(t, _) => Running(t)
      case Passed(_, _) => p
      case Released(_, _) => Done
      case Aborted(_, _) => Fresh
  }

  function PhaseOf(h: seq<Event>, g: Guard): Phase {
    if h == [] then Fresh else PhaseAfter(PhaseOf(h[..|h| - 1], g), h[|h| - 1], g)
  }

  /** `e` is possible after `h`: a guard is won only when no initialisation of it is running or
      completed, is ended only by its winner, and is passed only when completed. */
  ghost predicate Allowed(h: seq<Event>, e: Event) {
    match e
    case Won(t, g) => PhaseOf(h, g) == Fresh
    case Passed(t, g) => PhaseOf(h, g) == Done
    case Released(t, g) => PhaseOf(h, g) == Running(t)
    case Aborted(t, g) => PhaseOf(h, g) == Running(t)
  }

  ghost predicate OnceEach(h: seq<Event>) {
    forall i | 0 <= i < |h| :: Allowed(h[..i], h[i])
  }

  // ---------------------------------------------------------------- the invariant

  ghost predicate MutexInv(s: State) {
    && (forall t | 0 <= t < |s.pc| :: s.pc[t].HoldsMutex() <==> s.mutex == Some(t))
    && (s.mutex.Some? ==> s.mutex.value < |s.pc|)
  }

  /** A guard is pending exactly while one task owns its initialisation, and ready once one has
      completed; the history of each guard is one the once automaton accepts. */
  ghost predicate OwnerInv(ready: set<Guard>, pending: set<Guard>, owned: seq<set<Guard>>, h: seq<Event>) {
    && ready !! pending
    && (forall t, g | 0 <= t < |owned| && g in owned[t] :: g in pending && PhaseOf(h, g) == Running(t))
    && (forall g :: g in pending <==> PhaseOf(h, g).Running?)
    && (forall g | g in pending :: PhaseOf(h, g).t < |owned| && g in owned[PhaseOf(h, g).t])
    && (forall g :: g in ready <==> PhaseOf(h, g) == Done)
    && OnceEach(h)
  }

  /** What a task between two steps relies on. */
  ghost predicate PcFits(pc: Pc, pending: set<Guard>, owned: set<Guard>) {
    match pc
    case Parking(g) => g in pending
    case Deciding(g) => g !in pending
    case Closing(g, done) => g in owned
    case Publishing(g, done) => g in owned
    case _ => true
  }

  ghost predicate PcInv(s: State)
    requires |s.pc| == |s.owned|
  {
    forall t | 0 <= t < |s.pc| :: PcFits(s.pc[t], s.pending, s.owned[t])
  }

  /** With no guard pending, there is a token, given or promised, for every task that needs one. */
  ghost predicate TokenInv(s: State) {
    && s.waitingCount == Waiters(s)
    && (s.pending == {} ==> NeedyWaiters(s) <= s.waitSem + Promised(s))
  }

  ghost predicate Inv(s: State) {
    && |s.pc| == |s.owned|
    && MutexInv(s)
    && OwnerInv(s.ready, s.pending, s.owned, s.history)
    && PcInv(s)
    && TokenInv(s)
  }

  lemma InitInv(tasks: nat)
    ensures Inv(Init(tasks))
  {
    var s := Init(tasks);
    SumZero(s.pc, LoopWeight);
    SumZero(s.pc, NeedWeight);
  }

  lemma StepMutex(s: State, t: Task, a: Action)
    requires |s.pc| == |s.owned| && MutexInv(s) && Step(s, t, a).Some?
    ensures MutexInv(Step(s, t, a).value)
  {
    var n := Step(s, t, a).value;
    assert forall u | 0 <= u < |s.pc| && u != t :: n.pc[u] == s.pc[u];
  }

  lemma StepPc(s: State, t: Task, a: Action)
    requires |s.pc| == |s.owned| && MutexInv(s) && PcInv(s) && Step(s, t, a).Some?
    ensures PcInv(Step(s, t, a).value)
  {
    var n := Step(s, t, a).value;
    forall u | 0 <= u < |n.pc|
      ensures PcFits(n.pc[u], n.pending, n.owned[u])
    {
      assert PcFits(s.pc[u], s.pending, s.owned[u]);
      assert u != t ==> n.pc[u] == s.pc[u] && n.owned[u] == s.owned[u];
      assert u != t ==> !s.pc[u].HoldsMutex() || !s.pc[t].HoldsMutex();
    }
  }

  /** The effect of a step on the three sums. */
  lemma StepSums(s: State, t: Task, pc: Pc)
    requires t < |s.pc|
    ensures Sum(s.pc[t := pc], LoopWeight) == Waiters(s) - LoopWeight(s.pc[t]) + LoopWeight(pc)
    ensures Sum(s.pc[t := pc], NeedWeight) == NeedyWaiters(s) - NeedWeight(s.pc[t]) + NeedWeight(pc)
    ensures Sum(s.pc[t := pc], PromiseWeight) == Promised(s) - PromiseWeight(s.pc[t]) + PromiseWeight(pc)
    ensures LoopWeight(s.pc[t]) <= Waiters(s) && NeedyWaiters(s) <= Waiters(s)
  {
    SumUpdate(s.pc, LoopWeight, t, pc);
    SumUpdate(s.pc, NeedWeight, t, pc);
    SumUpdate(s.pc, PromiseWeight, t, pc);
    SumMonotone(s.pc, NeedWeight, LoopWeight);
  }

  lemma StepTokens(s: State, t: Task, a: Action)
    requires |s.pc| == |s.owned| && PcInv(s) && TokenInv(s) && Step(s, t, a).Some?
    ensures TokenInv(Step(s, t, a).value)
  {
    hide Sum;
    assert PcFits(s.pc[t], s.pending, s.owned[t]);
    StepSums(s, t, Step(s, t, a).value.pc[t]);
  }

  lemma PhaseSnoc(h: seq<Event>, e: Event, g: Guard)
    ensures PhaseOf(h + [e], g) == PhaseAfter(PhaseOf(h, g), e, g)
  {
    assert (h + [e])[..|h|] == h;
  }

  lemma OnceSnoc(h: seq<Event>, e: Event)
    requires OnceEach(h) && Allowed(h, e)
    ensures OnceEach(h + [e])
  {
    forall i | 0 <= i < |h + [e]|
      ensures Allowed((h + [e])[..i], (h + [e])[i])
    {
      assert (h + [e])[..i] == h[..i];
      assert i == |h| ==> h[..i] == h;
    }
  }

  lemma HistorySnoc(h: seq<Event>, e: Event)
    requires OnceEach(h)
    ensures forall g :: PhaseOf(h + [e], g) == PhaseAfter(PhaseOf(h, g), e, g)
    ensures Allowed(h, e) ==> OnceEach(h + [e])
  {
    forall g ensures PhaseOf(h + [e], g) == PhaseAfter(PhaseOf(h, g), e, g) {
      PhaseSnoc(h, e, g);
    }
    if Allowed(h, e) {
      OnceSnoc(h, e);
    }
  }

  /** Winning a guard, ending its initialisation and passing it each keep the guards, the owners and
      the history in step. */
  lemma WonOwner(ready: set<Guard>, pending: set<Guard>, owned: seq<set<Guard>>, h: seq<Event>, t: Task, g: Guard)
    requires OwnerInv(ready, pending, owned, h) && t < |owned| && g !in pending && g !in ready
    ensures OwnerInv(ready, pending + {g}, owned[t := owned[t] + {g}], h + [Won(t, g)])
  {
    hide PhaseOf, OnceEach;
    HistorySnoc(h, Won(t, g));
  }

  lemma EndedOwner(ready: set<Guard>, pending: set<Guard>, owned: seq<set<Guard>>, h: seq<Event>, t: Task, g: Guard,
                   done: bool)
    requires OwnerInv(ready, pending, owned, h) && t < |owned| && g in owned[t]
    ensures OwnerInv(if done then ready + {g} else ready, pending - {g}, owned[t := owned[t] - {g}],
                     h + [if done then Released(t, g) else Aborted(t, g)])
  {
    hide PhaseOf, OnceEach;
    HistorySnoc(h, if done then Released(t, g) else Aborted(t, g));
  }

  lemma PassedOwner(ready: set<Guard>, pending: set<Guard>, owned: seq<set<Guard>>, h: seq<Event>, t: Task, g: Guard)
    requires OwnerInv(ready, pending, owned, h) && g in ready
    ensures OwnerInv(ready, pending, owned, h + [Passed(t, g)])
  {
    hide PhaseOf, OnceEach;
    HistorySnoc(h, Passed(t, g));
  }

  lemma StepOwner(s: State, t: Task, a: Action)
    requires |s.pc| == |s.owned| && PcInv(s) && Step(s, t, a).Some?
    requires OwnerInv(s.ready, s.pending, s.owned, s.history)
    ensures var n := Step(s, t, a).value; OwnerInv(n.ready, n.pending, n.owned, n.history)
    ensures var n := Step(s, t, a).value; s.ready <= n.ready && s.history <= n.history
  {
    hide OwnerInv;
    assert PcFits(s.pc[t], s.pending, s.owned[t]);
    match s.pc[t] {
      case Deciding(g) =>
        if g in s.ready {
          PassedOwner(s.ready, s.pending, s.owned, s.history, t, g);
        } else {
          WonOwner(s.ready, s.pending, s.owned, s.history, t, g);
        }
      case Publishing(g, done) =>
        EndedOwner(s.ready, s.pending, s.owned, s.history, t, g, done);
      case _ =>
    }
  }

  lemma StepInv(s: State, t: Task, a: Action)
    requires Inv(s) && Step(s, t, a).Some?
    ensures Inv(Step(s, t, a).value)
    ensures s.ready <= Step(s, t, a).value.ready && s.history <= Step(s, t, a).value.history
  {
    hide Step, MutexInv, OwnerInv, PcInv, TokenInv;
    StepMutex(s, t, a);
    StepPc(s, t, a);
    StepTokens(s, t, a);
    StepOwner(s, t, a);
  }

  lemma {:induction false} RunInv(s: State, schedule: seq<(Task, Action)>)
    requires Inv(s)
    ensures Inv(Run(s, schedule))
    ensures |Run(s, schedule).pc| == |s.pc|
    ensures s.ready <= Run(s, schedule).ready && s.history <= Run(s, schedule).history
    decreases |schedule|
  {
    hide Step, MutexInv, OwnerInv, PcInv, TokenInv;
    if schedule != [] {
      var next := Step(s, schedule[0].0, schedule[0].1);
      if next.Some? {
        StepInv(s, schedule[0].0, schedule[0].1);
      }
      RunInv(if next.Some? then next.value else s, schedule[1..]);
    }
  }

  // ---------------------------------------------------------------- what every run keeps

  /** In every reachable state the count is the number of tasks in the wait loop; and while no guard
      is pending and no release or abort is signalling, every waiter that has yet to take the
      semaphore has a token to take. */
  lemma NoStrandedWaiter(tasks: nat, schedule: seq<(Task, Action)>)
    ensures var s := Run(Init(tasks), schedule);
      && s.waitingCount == Waiters(s)
      && (s.pending == {} ==> NeedyWaiters(s) <= s.waitSem + Promised(s))
      && (s.pending == {} && (forall pc | pc in s.pc :: !pc.Signalling?) ==> NeedyWaiters(s) <= s.waitSem)
  {
    InitInv(tasks);
    RunInv(Init(tasks), schedule);
    var s := Run(Init(tasks), schedule);
    if forall pc | pc in s.pc :: !pc.Signalling? {
      SumZero(s.pc, PromiseWeight);
    }
  }

  /** In every reachable state the history of each guard is one of wins, each ended by its winner and
      followed by another only after an abort; a guard is never both ready and pending; at most one
      task owns it; and the assertions of release and abort hold. */
  lemma InitialisedOnce(tasks: nat, schedule: seq<(Task, Action)>)
    ensures var s := Run(Init(tasks), schedule);
      && OnceEach(s.history)
      && s.ready !! s.pending
      && |s.pc| == |s.owned|
      && (forall g :: g in s.ready <==> PhaseOf(s.history, g) == Done)
      && (forall t, u, g | 0 <= t < |s.owned| && 0 <= u < |s.owned| && g in s.owned[t] && g in s.owned[u] :: t == u)
      && (forall t | 0 <= t < |s.pc| && s.pc[t].Publishing? :: s.pc[t].g in s.pending - s.ready)
  {
    hide PhaseOf, OnceEach, Run, Init, MutexInv, TokenInv;
    InitInv(tasks);
    RunInv(Init(tasks), schedule);
    var s := Run(Init(tasks), schedule);
    forall t, u, g | 0 <= t < |s.owned| && 0 <= u < |s.owned| && g in s.owned[t] && g in s.owned[u]
      ensures t == u
    {
      assert PhaseOf(s.history, g) == Running(t);
      assert PhaseOf(s.history, g) == Running(u);
    }
    forall t | 0 <= t < |s.pc| && s.pc[t].Publishing?
      ensures s.pc[t].g in s.pending - s.ready
    {
      assert PcFits(s.pc[t], s.pending, s.owned[t]);
    }
  }

  /** Once an initialisation of a guard has completed, only passes of it follow. */
  lemma {:induction false} DoneForGood(h: seq<Event>, i: nat, j: nat, g: Guard)
    requires OnceEach(h) && i <= j <= |h| && PhaseOf(h[..i], g) == Done
    ensures PhaseOf(h[..j], g) == Done
    ensures forall k | i <= k < j && h[k].g == g :: h[k].Passed?
  {
    if i < j {
      DoneForGood(h, i, j - 1, g);
      assert h[..j][..j - 1] == h[..j - 1];
      assert Allowed(h[..j - 1], h[j - 1]);
    }
  }

  /** Whatever tasks do after a guard is ready, it stays ready and acquire never returns 1 for it. */
  lemma ReadyForGood(tasks: nat, schedule: seq<(Task, Action)>, more: seq<(Task, Action)>, g: Guard)
    requires g in Run(Init(tasks), schedule).ready
    ensures var s := Run(Init(tasks), schedule);
      |s.pc| == |s.owned| &&
      var n := Run(s, more);
      && g in n.ready
      && s.history <= n.history
      && forall e | e in n.history[|s.history|..] && e.g == g :: e.Passed?
  {
    InitInv(tasks);
    RunInv(Init(tasks), schedule);
    var s := Run(Init(tasks), schedule);
    RunInv(s, more);
    var n := Run(s, more);
    assert n.history[..|s.history|] == s.history;
    DoneForGood(n.history, |s.history|, |n.history|, g);
  }

  // ---------------------------------------------------------------- calls and what they do

  /** A call of acquire, and a call of release (`done`) or abort. */
  datatype Call = Asked(g: Guard) | Ended(g: Guard, done: bool)

  /** The call that an action of task t makes for task u.  A task makes calls only from outside the library, and ends
      only an initialisation that it owns. */
  function CallOf(s: State, t: Task, a: Action, u: Task): seq<Call>
    requires |s.pc| == |s.owned|
  {
    if t != u || u >= |s.pc| || s.pc[u] != User then []
    else match a
      case Acquire(g) => [Asked(g)]
      case Finish(g, done) => if g in s.owned[u] then [Ended(g, done)] else []
      case Proceed => []
  }

  /** All calls of task u in a run. */
  function CallsOf(s: State, schedule: seq<(Task, Action)>, u: Task): seq<Call>
    requires |s.pc| == |s.owned|
    decreases |schedule|
  {
    if schedule == [] then []
    else
      var next := Step(s, schedule[0].0, schedule[0].1);
      CallOf(s, schedule[0].0, schedule[0].1, u) + CallsOf(if next.Some? then next.value else s, schedule[1..], u)
  }

  /** The calls of task u that have had their effect: acquire has won or passed the guard, release has published the
      object, abort has given it back. */
  function Effect(e: Event, u: Task): seq<Call> {
    if e.t != u then []
    else match e
      case Won(_, g) => [Asked(g)]
      case Passed(_, g) => [Asked(g)]
      case Released(_, g) => [Ended(g, true)]
      case Aborted(_, g) => [Ended(g, false)]
  }

  function Effects(h: seq<Event>, u: Task): seq<Call> {
    if h == [] then [] else Effects(h[..|h| - 1], u) + Effect(h[|h| - 1], u)
  }

  /** Task u has made such a call, and it has had its effect. */
  ghost predicate CarriedOut(h: seq<Event>, u: Task, c: Call) {
    c in Effects(h, u)
  }

  /** The call of a task that has yet to have its effect. */
  function InProgress(pc: Pc): seq<Call> {
    match pc
    case User => []
    case Closing(g, done) => [Ended(g, done)]
    case Publishing(g, done) => [Ended(g, done)]
    case Signalling(_) => []
    case Leaving => []
    case _ => [Asked(pc.g)]
  }

  lemma EffectsSnoc(h: seq<Event>, e: Event, u: Task)
    ensures Effects(h + [e], u) == Effects(h, u) + Effect(e, u)
  {
    assert (h + [e])[..|h|] == h;
  }

  /** What a step adds to the history of task u is what its call in progress loses. */
  lemma StepEffects(s: State, t: Task, a: Action, u: Task)
    requires |s.pc| == |s.owned| && u < |s.pc|
    ensures var n := Step(s, t, a); var now := if n.Some? then n.value else s;
      Effects(now.history, u) + InProgress(now.pc[u]) == (Effects(s.history, u) + InProgress(s.pc[u])) + CallOf(s, t, a, u)
  {
    hide Effects;
    var before := Effects(s.history, u) + InProgress(s.pc[u]);
    assert before + [] == before;
    if t == u && Step(s, t, a).Some? {
      if a.Proceed? {
        ProceedEffects(s, t);
      } else {
        assert InProgress(s.pc[u]) == [];
      }
    } else if Step(s, t, a).Some? {
      hide InProgress;
      OthersEffects(s, t, a, u);
    }
  }

  lemma ProceedEffects(s: State, t: Task)
    requires t < |s.pc| == |s.owned| && Advance(s, t).Some?
    ensures var n := Advance(s, t).value;
      Effects(n.history, t) + InProgress(n.pc[t]) == Effects(s.history, t) + InProgress(s.pc[t])
  {
    hide Effects;
    var n := Advance(s, t).value;
    if n.history != s.history {
      EffectsSnoc(s.history, n.history[|s.history|], t);
    }
  }

  lemma OthersEffects(s: State, t: Task, a: Action, u: Task)
    requires |s.pc| == |s.owned| && u < |s.pc| && t != u && Step(s, t, a).Some?
    ensures Effects(Step(s, t, a).value.history, u) == Effects(s.history, u)
    ensures Step(s, t, a).value.pc[u] == s.pc[u]
  {
    hide Effects;
    var n := Step(s, t, a).value;
    if n.history != s.history {
      EffectsSnoc(s.history, n.history[|s.history|], u);
      assert Effects(s.history, u) + [] == Effects(s.history, u);
    }
  }

  /** Over every run the calls of each task are, in order, those that have had their effect, and then the one in
      progress: a release publishes, an abort gives back, and an acquire wins or passes just the guard that the
      task has named. */
  lemma {:induction false} RunEffects(s: State, schedule: seq<(Task, Action)>, u: Task)
    requires |s.pc| == |s.owned| && u < |s.pc|
    ensures var n := Run(s, schedule);
      && |n.pc| == |s.pc|
      && Effects(n.history, u) + InProgress(n.pc[u]) ==
           (Effects(s.history, u) + InProgress(s.pc[u])) + CallsOf(s, schedule, u)
    decreases |schedule|
  {
    hide Step, Effects, InProgress, CallOf;
    var before := Effects(s.history, u) + InProgress(s.pc[u]);
    if schedule == [] {
      assert before + [] == before;
    } else {
      var t, a := schedule[0].0, schedule[0].1;
      var next := Step(s, t, a);
      var now := if next.Some? then next.value else s;
      StepEffects(s, t, a, u);
      RunEffects(now, schedule[1..], u);
      Associative(before, CallOf(s, t, a, u), CallsOf(now, schedule[1..], u));
    }
  }

  lemma InitIs(tasks: nat)
    ensures var s := Init(tasks);
      |s.pc| == |s.owned| == tasks && s.history == [] && forall u | 0 <= u < tasks :: s.pc[u] == User
  {
  }

  /** Over every run of some tasks: the calls of each. */
  lemma CallsReturn(tasks: nat, schedule: seq<(Task, Action)>, u: Task)
    requires u < tasks
    ensures var s := Run(Init(tasks), schedule);
      && |s.pc| == tasks
      && Effects(s.history, u) + InProgress(s.pc[u]) == CallsOf(Init(tasks), schedule, u)
  {
    hide Run, Step, Effects, CallsOf, Init, InProgress;
    InitIs(tasks);
    RunEffects(Init(tasks), schedule, u);
    NoEffects(u);
    var calls := CallsOf(Init(tasks), schedule, u);
    assert ([] + []) + calls == calls;
  }

  ghost predicate ReleasedIn(h: seq<Event>, g: Guard) {
    exists i :: 0 <= i < |h| && h[i].Released? && h[i].g == g
  }

  lemma ReleasedSnoc(h: seq<Event>, e: Event, g: Guard)
    ensures ReleasedIn(h + [e], g) <==> ReleasedIn(h, g) || (e.Released? && e.g == g)
  {
    if ReleasedIn(h, g) {
      var i :| 0 <= i < |h| && h[i].Released? && h[i].g == g;
      assert (h + [e])[i] == h[i];
    } else if e.Released? && e.g == g {
      assert (h + [e])[|h|] == e;
    }
  }

  lemma {:induction false} DoneMeansReleased(h: seq<Event>, g: Guard)
    requires OnceEach(h)
    ensures PhaseOf(h, g) == Done <==> ReleasedIn(h, g)
    decreases |h|
  {
    if h != [] {
      var n := |h| - 1;
      assert forall i | 0 <= i < n :: h[..n][i] == h[i] && h[..n][..i] == h[..i];
      assert Allowed(h[..n], h[n]);
      DoneMeansReleased(h[..n], g);
      hide ReleasedIn;
      ReleasedSnoc(h[..n], h[n], g);
      assert h == h[..n] + [h[n]];
    }
  }

  lemma {:induction false} ReleaseIsEffect(h: seq<Event>, g: Guard, tasks: nat)
    requires Known(h, tasks)
    ensures ReleasedIn(h, g) <==> exists u: Task :: u < tasks && CarriedOut(h, u, Ended(g, true))
  {
    if ReleasedIn(h, g) {
      var i :| 0 <= i < |h| && h[i].Released? && h[i].g == g;
      var u := h[i].t;
      EffectAt(h, i, u);
      assert Ended(g, true) in Effect(h[i], u);
      assert CarriedOut(h, u, Ended(g, true));
    } else if u: Task :| u < tasks && CarriedOut(h, u, Ended(g, true)) {
      EffectFrom(h, u, Ended(g, true));
    }
  }

  /** In every reachable state a guard is ready if and only if some task has called release for it and that call has
      had its effect. */
  lemma ReadyMeansReleased(tasks: nat, schedule: seq<(Task, Action)>, g: Guard)
    ensures var s := Run(Init(tasks), schedule);
      g in s.ready <==> exists u: Task :: u < tasks && CarriedOut(s.history, u, Ended(g, true))
  {
    hide PhaseOf, Run, Step, Effects, MutexInv, TokenInv, PcInv, OnceEach;
    InitInv(tasks);
    RunInv(Init(tasks), schedule);
    RunKnown(Init(tasks), schedule);
    var s := Run(Init(tasks), schedule);
    DoneMeansReleased(s.history, g);
    ReleaseIsEffect(s.history, g, tasks);
  }

  lemma NoEffects(u: Task)
    ensures Effects([], u) == [] && InProgress(User) == []
  {
  }

  lemma {:induction false} EffectAt(h: seq<Event>, i: nat, u: Task)
    requires i < |h|
    ensures forall c | c in Effect(h[i], u) :: c in Effects(h, u)
    decreases |h|
  {
    var n := |h| - 1;
    if i < n {
      EffectAt(h[..n], i, u);
    }
  }

  lemma {:induction false} EffectFrom(h: seq<Event>, u: Task, c: Call)
    requires c in Effects(h, u)
    ensures exists i :: 0 <= i < |h| && c in Effect(h[i], u)
    decreases |h|
  {
    var n := |h| - 1;
    if c in Effects(h[..n], u) {
      EffectFrom(h[..n], u, c);
      var i :| 0 <= i < |h[..n]| && c in Effect(h[..n][i], u);
      assert h[..n][i] == h[i];
    } else {
      assert c in Effect(h[n], u);
    }
  }

  ghost predicate Known(h: seq<Event>, tasks: nat) {
    forall i | 0 <= i < |h| :: h[i].t < tasks
  }

  lemma {:induction false} RunKnown(s: State, schedule: seq<(Task, Action)>)
    requires |s.pc| == |s.owned| && Known(s.history, |s.pc|)
    ensures Known(Run(s, schedule).history, |s.pc|)
    decreases |schedule|
  {
    if schedule != [] {
      var next := Step(s, schedule[0].0, schedule[0].1);
      RunKnown(if next.Some? then next.value else s, schedule[1..]);
    }
  }

  // ---------------------------------------------------------------- progress

  /** What a task may still do inside the library without another call, with `n` tasks in all. */
  function Weight(n: nat, pc: Pc): nat {
    match pc
    case User => 0
    case Entering(_) => 4
    case Checking(_) => 3
    case Parking(_) => 1
    case Waiting(_) => 0
    case Woken(_) => 4
    case Rechecking(_) => 3
    case Deciding(_) => 2
    case Closing(_, _) => 4 + 6 * n
    case Publishing(_, _) => 3 + 6 * n
    case Signalling(left) => 2 + 6 * left
    case Leaving => 1
  }

  function WeightWith(n: nat): Pc -> nat {
    pc => Weight(n, pc)
  }

  function Rank(s: State): nat {
    5 * s.waitSem + Sum(s.pc, WeightWith(|s.pc|))
  }

  lemma {:induction false} SumAtMost(pcs: seq<Pc>, f: Pc -> nat)
    requires forall pc :: f(pc) <= 1
    ensures Sum(pcs, f) <= |pcs|
  {
    if pcs != [] {
      SumAtMost(pcs[1..], f);
    }
  }

  /** Every step inside the library brings the tasks closer to rest, so with no further calls there
      are at most `Rank` such steps. */
  lemma StepProgress(s: State, t: Task)
    requires Inv(s) && Step(s, t, Proceed).Some?
    ensures Rank(Step(s, t, Proceed).value) < Rank(s)
  {
    hide Sum, MutexInv, OwnerInv, PcInv;
    var n := Step(s, t, Proceed).value;
    SumUpdate(s.pc, WeightWith(|s.pc|), t, n.pc[t]);
    SumAtMost(s.pc, LoopWeight);
  }

  lemma HolderCanGo(s: State, t: Task)
    requires |s.pc| == |s.owned| && MutexInv(s) && s.mutex == Some(t)
    ensures Advance(s, t).Some?
  {
    assert s.pc[t].HoldsMutex();
  }

  /** When no task can go on inside the library, the mutex is free and every task is outside or waits
      for a guard; with no guard pending, every task is outside. */
  lemma RestMeansDone(s: State)
    requires Inv(s)
    requires forall t | 0 <= t < |s.pc| :: Advance(s, t).None?
    ensures s.mutex.None?
    ensures forall t | 0 <= t < |s.pc| :: s.pc[t].User? || s.pc[t].Waiting?
    ensures s.pending == {} ==> forall t | 0 <= t < |s.pc| :: s.pc[t].User?
    ensures forall g | g in s.pending :: exists t :: 0 <= t < |s.owned| && g in s.owned[t]
  {
    hide Sum, PhaseOf, OnceEach;
    if s.mutex.Some? {
      HolderCanGo(s, s.mutex.value);
    }
    SumZero(s.pc, PromiseWeight);
    forall t | 0 <= t < |s.pc|
      ensures s.pc[t].User? || s.pc[t].Waiting?
      ensures s.pending == {} ==> s.pc[t].User?
    {
      assert Advance(s, t).None?;
      SumUpdate(s.pc, NeedWeight, t, s.pc[t]);
    }
  }
}
