/**
 The transmit side of can.c: one application task and the interrupt handler share a TX buffer, a TX
 queue and a counter.  Every critical section is one method; between two of them the other side may
 run.
 */
module CanTransmit {
  import opened Bytes

  type Frame = seq<byte>

  /** Flags and counter of the driver object. */
  datatype Control = Control(stopped: bool, busOff: bool, recovering: bool, occupied: bool, msgCount: int)

  /** Where the application task is inside can_transmit. */
  datatype Pc =
    | Idle                   // in no call
    | Sending(f: Frame)      // before xQueueSend
    | Queued                 // behind xQueueSend, before its second critical section

  /** What the application and the hardware do. */
  datatype Action =
    | Transmit(f: Frame) | QueueSend | SendTimeout | QueueSent
    | Start | Stop | InitiateRecovery | ClearTransmitQueue
    | TxInterrupt | BusOffInterrupt(aborted: bool) | ErrorWarnInterrupt

  /** The actions that drop frames or may lead to dropping them. */
  predicate Disturbs(a: Action) {
    a.Stop? || a.InitiateRecovery? || a.ClearTransmitQueue? || a.BusOffInterrupt?
  }

  // ---------------------------------------------------------------- subsequences

  /** `a` is `b` with some elements left out. */
  predicate Subseq<T(==)>(a: seq<T>, b: seq<T>) {
    if a == [] then true
    else if b == [] then false
    else (a[|a| - 1] == b[|b| - 1] && Subseq(a[..|a| - 1], b[..|b| - 1])) || Subseq(a, b[..|b| - 1])
  }

  lemma SubseqSnoc<T>(a: seq<T>, b: seq<T>, x: T)
    requires Subseq(a, b)
    ensures Subseq(a + [x], b + [x])
  {
    assert (a + [x])[..|a|] == a && (b + [x])[..|b|] == b;
  }

  lemma {:induction false} SubseqSkip<T>(a: seq<T>, b: seq<T>, i: nat, j: nat)
    requires Subseq(a, b) && i <= j <= |a|
    ensures Subseq(a[..i] + a[j..], b)
    decreases |b|
  {
    var c := a[..i] + a[j..];
    if i == j {
      assert c == a;
    } else if c != [] {
      var b' := b[..|b| - 1];
      if Subseq(a, b') {
        SubseqSkip(a, b', i, j);
      } else {
        var a' := a[..|a| - 1];
        if j < |a| {
          SubseqSkip(a', b', i, j);
          assert c[..|c| - 1] == a'[..i] + a'[j..];
        } else {
          SubseqSkip(a', b', i, j - 1);
          assert a'[..i] + a'[j - 1..] == c;
        }
      }
    }
  }

  // ---------------------------------------------------------------- the driver as a machine

  /** The length of the TX queue, 0 when it is disabled, and listen-only mode. */
  datatype Config = Config(queueLen: nat, listenOnly: bool)

  /** The driver, the frame that the controller is transmitting, all frames handed to it, and the frames that
      can_transmit has put into the buffer or the queue. */
  datatype State = State(
    control: Control, queue: seq<Frame>, pc: Pc, buffer: Option<Frame>, sent: seq<Frame>, accepted: seq<Frame>)

  const START := State(Control(true, false, false, false, 0), [], Idle, None, [], [])

  predicate Possible(cfg: Config, s: State, a: Action) {
    match a
    case QueueSend => s.pc.Sending? && |s.queue| < cfg.queueLen
    case SendTimeout => s.pc.Sending?
    case QueueSent => s.pc.Queued?
    case TxInterrupt => s.buffer.Some?
    case BusOffInterrupt(_) => true
    case ErrorWarnInterrupt => true
    case _ => s.pc.Idle?
  }

  /** The frame goes to the controller. */
  function Hand(s: State, f: Frame): State {
    s.(buffer := Some(f), sent := s.sent + [f])
  }

  function HandFront(s: State): State
    requires s.queue != []
  {
    Hand(s, s.queue[0]).(queue := s.queue[1..])
  }

  function Occupy(c: Control): Control {
    c.(msgCount := c.msgCount + 1, occupied := true)
  }

  /** What an action makes of the state; an action that is not possible is skipped. */
  function Next(cfg: Config, s: State, a: Action): State {
    var c := s.control;
    if !Possible(cfg, s, a) then s
    else match a
      case Transmit(f) =>
        if cfg.listenOnly || c.stopped || c.busOff then s
        else if c.msgCount == 0 && !c.occupied then
          Hand(s, f).(control := Occupy(c), accepted := s.accepted + [f])
        else if cfg.queueLen > 0 then s.(pc := Sending(f)) else s
      case QueueSend =>
        s.(queue := s.queue + [s.pc.f], accepted := s.accepted + [s.pc.f], pc := Queued)
      case SendTimeout => s.(pc := Idle)
      case QueueSent =>
        if s.queue == [] then s
        else if c.stopped || c.busOff then s.(queue := s.queue[1..], pc := Idle)
        else if c.msgCount == 0 && !c.occupied then HandFront(s).(control := Occupy(c), pc := Idle)
        else s.(control := c.(msgCount := c.msgCount + 1), pc := Idle)
      case Start => if c.stopped then s.(control := c.(stopped := false)) else s
      case Stop =>
        if c.stopped || c.busOff then s
        else s.(control := c.(occupied := false, stopped := true, msgCount := 0), queue := [], buffer := None)
      case InitiateRecovery =>
        if !c.busOff || c.recovering then s
        else s.(control := c.(occupied := false, recovering := true, msgCount := 0), queue := [], buffer := None)
      case ClearTransmitQueue =>
        if cfg.queueLen == 0 then s
        else s.(control := c.(msgCount := if c.occupied then 1 else 0), queue := [])
      case TxInterrupt =>
        var d := c.(msgCount := c.msgCount - 1);
        if d.msgCount > 0 && cfg.queueLen > 0 && s.queue != [] then HandFront(s).(control := d)
        else s.(control := d.(occupied := false), buffer := None)
      case BusOffInterrupt(aborted) =>
        s.(control := c.(busOff := true), buffer := if aborted then None else s.buffer)
      case ErrorWarnInterrupt =>
        if c.recovering then
          s.(control := c.(recovering := false, busOff := false, occupied := false, stopped := true), buffer := None)
        else s
  }

  /** The states of a schedule, and the one that it ends in. */
  function Run(cfg: Config, s: State, schedule: seq<Action>): State {
    if schedule == [] then s
    else Next(cfg, Run(cfg, s, schedule[..|schedule| - 1]), schedule[|schedule| - 1])
  }

  // ---------------------------------------------------------------- what every run keeps

  /** The frames handed to the controller, then the queued ones. */
  function Line(s: State): seq<Frame> {
    s.sent + s.queue
  }

  /** The counter counts the frame in the buffer and the queued ones, except one that its sender has yet
      to count; without a frame in the buffer nothing is counted. */
  ghost predicate Counted(c: Control, queued: nat, pc: Pc) {
    && c.msgCount == (if c.occupied then 1 else 0) + queued - (if pc.Queued? then 1 else 0)
    && (!c.occupied ==> c.msgCount == 0)
    && (c.recovering ==> !c.occupied && c.busOff)
    && (pc.Queued? ==> queued > 0)
  }

  /** Nothing is queued or being transmitted, and no call is in progress. */
  ghost predicate AtRest(s: State) {
    s.queue == [] && s.pc == Idle && s.buffer == None && !s.control.occupied
  }

  ghost predicate Valid(cfg: Config, s: State) {
    && Counted(s.control, |s.queue|, s.pc) && |s.queue| <= cfg.queueLen
    && (s.buffer.Some? ==> s.control.occupied)
    && (s.control.occupied && !s.control.busOff ==> s.buffer.Some?)
    && Subseq(Line(s), s.accepted)
    && (s.control.stopped || s.control.recovering ==> AtRest(s))
  }

  /** No frame has been dropped, and none will be by the call in progress. */
  ghost predicate Calm(s: State) {
    Line(s) == s.accepted && !s.control.busOff && (s.pc != Idle ==> !s.control.stopped)
  }

  /** The assertions of the second critical section and of the interrupt handler: the counter does not become
      negative, and xQueueReceive finds a frame. */
  ghost predicate AssertionsHold(cfg: Config, s: State, a: Action) {
    && (a.QueueSent? && Possible(cfg, s, a) ==> s.queue != [])
    && (a.TxInterrupt? && Possible(cfg, s, a) ==>
          s.control.msgCount >= 1 && (s.control.msgCount > 1 && cfg.queueLen > 0 ==> s.queue != []))
  }

  lemma NextAsserts(cfg: Config, s: State, a: Action)
    requires Valid(cfg, s)
    ensures AssertionsHold(cfg, s, a)
  {
    hide Subseq;
  }

  /** What an action does to the line of frames. */
  lemma NextLine(cfg: Config, s: State, a: Action)
    requires Counted(s.control, |s.queue|, s.pc)
    ensures var t := Next(cfg, s, a);
      && |s.accepted| <= |t.accepted| && t.accepted[..|s.accepted|] == s.accepted
      && (t.accepted == s.accepted ==>
            Line(t) == Line(s) || (Line(t) == s.sent + s.queue[1..] && s.queue != []) || Line(t) == s.sent)
      && (t.accepted != s.accepted ==>
            |t.accepted| == |s.accepted| + 1 && Line(t) == Line(s) + [t.accepted[|s.accepted|]])
      && (Calm(s) && !Disturbs(a) && t.accepted == s.accepted ==> Line(t) == Line(s))
  {
    var t := Next(cfg, s, a);
    if s.queue != [] {
      assert (s.sent + [s.queue[0]]) + s.queue[1..] == s.sent + s.queue;
    }
    match a {
      case Transmit(f) => assert s.queue == [] ==> (s.sent + [f]) + s.queue == (s.sent + s.queue) + [f];
      case QueueSend => assert s.pc.Sending? ==> s.sent + (s.queue + [s.pc.f]) == (s.sent + s.queue) + [s.pc.f];
      case _ => assert s.sent + [] == s.sent;
    }
  }

  lemma NextCounted(cfg: Config, s: State, a: Action)
    requires Valid(cfg, s)
    ensures var t := Next(cfg, s, a);
      && Counted(t.control, |t.queue|, t.pc) && |t.queue| <= cfg.queueLen
      && (t.buffer.Some? ==> t.control.occupied)
      && (t.control.occupied && !t.control.busOff ==> t.buffer.Some?)
    ensures Calm(s) && !Disturbs(a) ==>
      !Next(cfg, s, a).control.busOff && (Next(cfg, s, a).pc != Idle ==> !Next(cfg, s, a).control.stopped)
  {
    hide Subseq;
    NextAsserts(cfg, s, a);
  }

  lemma NextAtRest(cfg: Config, s: State, a: Action)
    requires Valid(cfg, s)
    ensures var t := Next(cfg, s, a); t.control.stopped || t.control.recovering ==> AtRest(t)
  {
    hide Subseq;
  }

  lemma NextOrdered(cfg: Config, s: State, a: Action)
    requires Valid(cfg, s)
    ensures Subseq(Line(Next(cfg, s, a)), Next(cfg, s, a).accepted)
    ensures Calm(s) && !Disturbs(a) ==> Line(Next(cfg, s, a)) == Next(cfg, s, a).accepted
  {
    hide Subseq, Next;
    NextLine(cfg, s, a);
    var t := Next(cfg, s, a);
    if t.accepted != s.accepted {
      var f := t.accepted[|s.accepted|];
      assert t.accepted == s.accepted + [f] by {
        assert t.accepted == t.accepted[..|s.accepted|] + [f];
      }
      SubseqSnoc(Line(s), s.accepted, f);
    } else {
      if s.queue != [] {
        SubseqDrop(s, 1);
      }
      SubseqDrop(s, |s.queue|);
      assert s.sent + s.queue[|s.queue|..] == s.sent;
    }
  }

  /** Leaving out the first k queued frames. */
  lemma SubseqDrop(s: State, k: nat)
    requires Subseq(Line(s), s.accepted) && k <= |s.queue|
    ensures Subseq(s.sent + s.queue[k..], s.accepted)
  {
    hide Subseq;
    SubseqSkip(Line(s), s.accepted, |s.sent|, |s.sent| + k);
    assert Line(s)[..|s.sent|] + Line(s)[|s.sent| + k..] == s.sent + s.queue[k..];
  }

  lemma NextValid(cfg: Config, s: State, a: Action)
    requires Valid(cfg, s)
    ensures Valid(cfg, Next(cfg, s, a)) && AssertionsHold(cfg, s, a)
    ensures Calm(s) && !Disturbs(a) ==> Calm(Next(cfg, s, a))
  {
    hide Subseq, Next, Line, Counted, AtRest;
    NextAsserts(cfg, s, a);
    NextAtRest(cfg, s, a);
    NextCounted(cfg, s, a);
    NextOrdered(cfg, s, a);
  }

  lemma {:induction false} RunValid(cfg: Config, s: State, schedule: seq<Action>)
    requires Valid(cfg, s)
    ensures Valid(cfg, Run(cfg, s, schedule))
    ensures Calm(s) && (forall i | 0 <= i < |schedule| :: !Disturbs(schedule[i])) ==> Calm(Run(cfg, s, schedule))
    decreases |schedule|
  {
    hide Next, Valid, Calm;
    if schedule != [] {
      RunValid(cfg, s, schedule[..|schedule| - 1]);
      NextValid(cfg, Run(cfg, s, schedule[..|schedule| - 1]), schedule[|schedule| - 1]);
    }
  }

  /** Over every run the counter stays exact, the assertions of the next step hold, and the frames reach the
      controller in the order in which they were accepted, all of them, then those in the queue, if there was
      no stop, clearing or bus-off.  A queued frame that is counted never lacks the transmission whose end will
      fetch it. */
  lemma Accounting(cfg: Config, schedule: seq<Action>, next: Action)
    ensures var s := Run(cfg, START, schedule);
      && s.control.msgCount == (if s.control.occupied then 1 else 0) + |s.queue| - (if s.pc.Queued? then 1 else 0)
      && AssertionsHold(cfg, s, next)
      && Subseq(s.sent, s.accepted)
      && ((forall i | 0 <= i < |schedule| :: !Disturbs(schedule[i])) ==> s.sent + s.queue == s.accepted)
      && (s.pc != Queued && s.queue != [] && !s.control.busOff ==> s.buffer.Some?)
  {
    hide Next;
    var s := Run(cfg, START, schedule);
    RunValid(cfg, START, schedule);
    NextAsserts(cfg, s, next);
    SubseqDrop(s, |s.queue|);
    assert s.sent + s.queue[|s.queue|..] == s.sent;
  }

  // ---------------------------------------------------------------- stopped and started

  ghost predicate Without(schedule: seq<Action>, a: Action) {
    forall i | 0 <= i < |schedule| :: schedule[i] != a
  }

  lemma StoppedNext(cfg: Config, s: State, a: Action)
    requires Valid(cfg, s) && s.control.stopped && a != Start
    ensures var t := Next(cfg, s, a); t.control.stopped && t.sent == s.sent && t.accepted == s.accepted
  {
    hide Subseq;
  }

  /** A stopped driver stays stopped until it is started, and accepts and sends nothing. */
  lemma {:induction false} StoppedStays(cfg: Config, s: State, schedule: seq<Action>)
    requires Valid(cfg, s) && s.control.stopped && Without(schedule, Start)
    ensures var t := Run(cfg, s, schedule); t.control.stopped && t.sent == s.sent && t.accepted == s.accepted
    decreases |schedule|
  {
    hide Next, Valid;
    if schedule != [] {
      var front := schedule[..|schedule| - 1];
      StoppedStays(cfg, s, front);
      RunValid(cfg, s, front);
      StoppedNext(cfg, Run(cfg, s, front), schedule[|schedule| - 1]);
    }
  }

  /** Behind a stop that has been granted, and behind the end of a bus recovery, no schedule without a start hands a
      frame to the controller. */
  lemma StopSendsNothing(cfg: Config, s: State, schedule: seq<Action>)
    requires Valid(cfg, s) && s.pc == Idle && !s.control.stopped && !s.control.busOff && Without(schedule, Start)
    ensures var t := Run(cfg, Next(cfg, s, Stop), schedule);
      t.control.stopped && t.sent == s.sent && t.accepted == s.accepted
  {
    NextValid(cfg, s, Stop);
    StoppedStays(cfg, Next(cfg, s, Stop), schedule);
    hide Run, Valid;
  }

  lemma RecoverySendsNothing(cfg: Config, s: State, schedule: seq<Action>)
    requires Valid(cfg, s) && s.control.recovering && Without(schedule, Start)
    ensures var t := Run(cfg, Next(cfg, s, ErrorWarnInterrupt), schedule);
      t.control.stopped && t.sent == s.sent && t.accepted == s.accepted
  {
    NextValid(cfg, s, ErrorWarnInterrupt);
    StoppedStays(cfg, Next(cfg, s, ErrorWarnInterrupt), schedule);
    hide Run, Valid;
  }

  /** A start ends that, and so does a bus recovery followed by a start: the next frame goes out at once. */
  lemma StartSends(cfg: Config, s: State, f: Frame)
    requires Valid(cfg, s) && s.control.stopped && !s.control.busOff && !cfg.listenOnly
    ensures Next(cfg, Next(cfg, s, Start), Transmit(f)).sent == s.sent + [f]
  {
    hide Subseq;
  }

  lemma RecoverySends(cfg: Config, s: State, f: Frame)
    requires Valid(cfg, s) && s.pc == Idle && s.control.busOff && !s.control.recovering && !cfg.listenOnly
    ensures var t := Next(cfg, Next(cfg, s, InitiateRecovery), ErrorWarnInterrupt);
      && t.control.stopped && !t.control.busOff && t.sent == s.sent
      && Next(cfg, Next(cfg, t, Start), Transmit(f)).sent == s.sent + [f]
  {
    hide Next, Valid;
    var r := Next(cfg, s, InitiateRecovery);
    RecoveryBegins(cfg, s);
    RecoveryEnds(cfg, r);
    StartSends(cfg, Next(cfg, r, ErrorWarnInterrupt), f);
  }

  lemma RecoveryBegins(cfg: Config, s: State)
    requires Valid(cfg, s) && s.pc == Idle && s.control.busOff && !s.control.recovering
    ensures var r := Next(cfg, s, InitiateRecovery); Valid(cfg, r) && r.control.recovering && r.sent == s.sent
  {
    hide Valid;
    NextValid(cfg, s, InitiateRecovery);
  }

  lemma RecoveryEnds(cfg: Config, s: State)
    requires Valid(cfg, s) && s.control.recovering
    ensures var t := Next(cfg, s, ErrorWarnInterrupt);
      Valid(cfg, t) && t.control.stopped && !t.control.busOff && t.sent == s.sent
  {
    hide Valid;
    NextValid(cfg, s, ErrorWarnInterrupt);
  }

  /** Bus-off lasts until a recovery has ended, and with no call in progress nothing is accepted in it. */
  lemma {:induction false} BusOffStays(cfg: Config, s: State, schedule: seq<Action>)
    requires s.control.busOff && s.pc == Idle && Without(schedule, ErrorWarnInterrupt)
    ensures var t := Run(cfg, s, schedule); t.control.busOff && t.pc == Idle && t.accepted == s.accepted
    decreases |schedule|
  {
    hide Next;
    if schedule != [] {
      var front := schedule[..|schedule| - 1];
      BusOffStays(cfg, s, front);
      BusOffNext(cfg, Run(cfg, s, front), schedule[|schedule| - 1]);
    }
  }

  lemma BusOffNext(cfg: Config, s: State, a: Action)
    requires s.control.busOff && s.pc == Idle && a != ErrorWarnInterrupt
    ensures var t := Next(cfg, s, a); t.control.busOff && t.pc == Idle && t.accepted == s.accepted
  {
  }

  /** While the controller is busy a frame waits behind the others. */
  lemma BusyQueues(cfg: Config, s: State, f: Frame)
    requires Valid(cfg, s) && s.pc == Idle && s.control.occupied && !s.control.stopped && !s.control.busOff
    requires !cfg.listenOnly && |s.queue| < cfg.queueLen
    ensures var t := Next(cfg, Next(cfg, Next(cfg, s, Transmit(f)), QueueSend), QueueSent);
      t.pc == Idle && t.sent == s.sent && t.queue == s.queue + [f] && t.accepted == s.accepted + [f]
  {
    hide Subseq;
  }

  function Interrupts(n: nat): (schedule: seq<Action>)
    ensures |schedule| == n
  {
    if n == 0 then [] else Interrupts(n - 1) + [TxInterrupt]
  }

  lemma InterruptSends(cfg: Config, s: State)
    requires Valid(cfg, s) && !s.control.busOff && s.pc != Queued && s.control.occupied
    ensures var t := Next(cfg, s, TxInterrupt);
      && t.pc == s.pc && !t.control.busOff
      && if s.queue == [] then t.sent == s.sent && t.queue == [] && t.buffer == None
         else t.control.occupied && t.sent == s.sent + [s.queue[0]] && t.queue == s.queue[1..]
  {
    hide Subseq;
  }

  /** And the interrupts of the frames before it bring all of them to the controller, in order. */
  lemma {:induction false} InterruptsSendAll(cfg: Config, s: State, k: nat)
    requires Valid(cfg, s) && !s.control.busOff && s.pc != Queued && s.control.occupied && k <= |s.queue|
    ensures var t := Run(cfg, s, Interrupts(k));
      && t.pc == s.pc && !t.control.busOff && t.control.occupied
      && t.sent == s.sent + s.queue[..k] && t.queue == s.queue[k..]
    decreases k
  {
    hide Next, Valid, Run, Interrupts;
    if k == 0 {
      NoInterrupts(cfg, s);
      assert s.sent + s.queue[..0] == s.sent && s.queue[0..] == s.queue;
    } else {
      InterruptsSendAll(cfg, s, k - 1);
      RunValid(cfg, s, Interrupts(k - 1));
      InterruptSends(cfg, Run(cfg, s, Interrupts(k - 1)));
      InterruptsRun(cfg, s, k);
      OneMore(s.sent, s.queue, k);
    }
  }

  lemma NoInterrupts(cfg: Config, s: State)
    ensures Run(cfg, s, Interrupts(0)) == s
  {
  }

  lemma InterruptsRun(cfg: Config, s: State, k: nat)
    requires k > 0
    ensures Run(cfg, s, Interrupts(k)) == Next(cfg, Run(cfg, s, Interrupts(k - 1)), TxInterrupt)
  {
    hide Next;
    assert Interrupts(k)[..k - 1] == Interrupts(k - 1);
  }

  lemma OneMore(sent: seq<Frame>, queue: seq<Frame>, k: nat)
    requires 0 < k <= |queue|
    ensures (sent + queue[..k - 1]) + [queue[k - 1..][0]] == sent + queue[..k]
    ensures queue[k - 1..][1..] == queue[k..]
  {
    assert queue[..k - 1] + [queue[k - 1]] == queue[..k];
    Associative(sent, queue[..k - 1], [queue[k - 1]]);
  }

  // ---------------------------------------------------------------- bus-off

  /** Behind a stop or bus-off the frame taken out of the queue is the foremost one; what stays is the same as if
      the frame just put in had been taken out if and only if all queued frames are equal. */
  lemma BusOffTakesForemost(cfg: Config, s: State)
    requires Valid(cfg, s) && s.pc.Queued? && (s.control.busOff || s.control.stopped)
    ensures s.queue != [] && Next(cfg, s, QueueSent).queue == s.queue[1..]
    ensures Next(cfg, s, QueueSent).queue == s.queue[..|s.queue| - 1] <==> forall f | f in s.queue :: f == s.queue[0]
  {
    var q := s.queue;
    if q[1..] == q[..|q| - 1] {
      forall i: nat | i < |q| ensures q[i] == q[0] {
        AllSame(q, i);
      }
    }
    if forall f | f in q :: f == q[0] {
      var back: seq<Frame>, front: seq<Frame> := q[1..], q[..|q| - 1];
      assert forall i | 0 <= i < |q| :: q[i] in q;
      assert forall i | 0 <= i < |back| :: back[i] == front[i];
    }
  }

  lemma {:induction false} AllSame(q: seq<Frame>, i: nat)
    requires q != [] && q[1..] == q[..|q| - 1] && i < |q|
    ensures q[i] == q[0]
  {
    if i > 0 {
      AllSame(q, i - 1);
      assert q[1..][i - 1] == q[..|q| - 1][i - 1];
    }
  }

  /** A run in which it is another one: `b` is queued and counted, and goes instead of `c`. */
  lemma ForeignFrame(cfg: Config, a: Frame, b: Frame, c: Frame)
    requires cfg.queueLen >= 2 && !cfg.listenOnly
    ensures var schedule :=
        [Start, Transmit(a), Transmit(b), QueueSend, QueueSent, Transmit(c), QueueSend, BusOffInterrupt(true), QueueSent];
      Run(cfg, START, schedule).queue == [c]
  {
    var s1 := Next(cfg, Next(cfg, START, Start), Transmit(a));
    var s2 := Next(cfg, Next(cfg, Next(cfg, s1, Transmit(b)), QueueSend), QueueSent);
    var s3 := Next(cfg, Next(cfg, s2, Transmit(c)), QueueSend);
    assert s2.queue == [b] && s3.queue == [b, c];
    var schedule :=
      [Start, Transmit(a), Transmit(b), QueueSend, QueueSent, Transmit(c), QueueSend, BusOffInterrupt(true), QueueSent];
    RunSteps(cfg, schedule);
  }

  lemma RunSteps(cfg: Config, schedule: seq<Action>)
    requires |schedule| == 9
    ensures Run(cfg, START, schedule) ==
      Next(cfg, Next(cfg, Next(cfg, Next(cfg, Next(cfg, Next(cfg, Next(cfg, Next(cfg, Next(cfg, START,
        schedule[0]), schedule[1]), schedule[2]), schedule[3]), schedule[4]), schedule[5]), schedule[6]), schedule[7]),
        schedule[8])
  {
    hide Next;
    forall k | 1 <= k <= 9
      ensures Run(cfg, START, schedule[..k]) == Next(cfg, Run(cfg, START, schedule[..k - 1]), schedule[k - 1])
    {
      assert schedule[..k][..k - 1] == schedule[..k - 1];
    }
    assert schedule[..9] == schedule && schedule[..0] == [];
  }

  // ---------------------------------------------------------------- the driver

  datatype Ret = OK | INVALID_STATE | NOT_SUPPORTED | FAIL | TIMEOUT

  class CanDriver {
    const cfg: Config

    var control: Control
    var queue: seq<Frame>
    var pc: Pc
    var buffer: Option<Frame>
    var sent: seq<Frame>

    ghost var accepted: seq<Frame>

    ghost function Now(): State
      reads this
    {
      State(control, queue, pc, buffer, sent, accepted)
    }

    constructor (cfg: Config)
      ensures this.cfg == cfg && Now() == START
    {
      this.cfg := cfg;
      control, queue, pc, buffer, sent, accepted := START.control, [], Idle, None, [], [];
    }

    /** can_set_tx_buffer_and_transmit. */
    method SetTxBuffer(f: Frame)
      modifies `buffer, `sent
      ensures buffer == Some(f) && sent == old(sent) + [f]
    {
      buffer, sent := Some(f), sent + [f];
    }

    /** The first critical section of can_transmit. */
    method Transmit(f: Frame) returns (ret: Ret)
      requires Valid(cfg, Now()) && pc == Idle
      modifies this
      ensures Now() == Next(cfg, old(Now()), Action.Transmit(f))
      ensures ret == NOT_SUPPORTED <==> cfg.listenOnly
      ensures ret == INVALID_STATE <==> !cfg.listenOnly && (old(control).stopped || old(control).busOff)
      ensures ret == OK <==> accepted != old(accepted)
      ensures ret in {OK, FAIL, INVALID_STATE, NOT_SUPPORTED}
    {
      if cfg.listenOnly {
        return NOT_SUPPORTED;
      }
      if control.stopped || control.busOff {
        return INVALID_STATE;
      }
      if control.msgCount == 0 && !control.occupied {
        SetTxBuffer(f);
        control := control.(msgCount := control.msgCount + 1, occupied := true);
        accepted := accepted + [f];
        return OK;
      }
      if cfg.queueLen > 0 {
        pc := Sending(f);
      }
      return FAIL;
    }

    /** xQueueSend finds a place. */
    method QueueSend()
      requires pc.Sending? && |queue| < cfg.queueLen
      modifies this
      ensures Now() == Next(cfg, old(Now()), Action.QueueSend)
    {
      queue, accepted, pc := queue + [pc.f], accepted + [pc.f], Queued;
    }

    /** xQueueSend gives up. */
    method SendTimeout() returns (ret: Ret)
      requires pc.Sending?
      modifies this
      ensures Now() == Next(cfg, old(Now()), Action.SendTimeout) && ret == TIMEOUT
    {
      pc := Idle;
      return TIMEOUT;
    }

    /** The second critical section of can_transmit. */
    method QueueSent() returns (ret: Ret)
      requires Valid(cfg, Now()) && pc == Queued
      modifies this
      ensures Now() == Next(cfg, old(Now()), Action.QueueSent)
      ensures ret == if old(control).stopped || old(control).busOff then INVALID_STATE else OK
    {
      hide Subseq;
      assert queue != [];
      if control.stopped || control.busOff {
        queue, pc := queue[1..], Idle;
        return INVALID_STATE;
      }
      if control.msgCount == 0 && !control.occupied {
        SetTxBuffer(queue[0]);
        queue := queue[1..];
        control := control.(msgCount := control.msgCount + 1, occupied := true);
      } else {
        control := control.(msgCount := control.msgCount + 1);
      }
      pc := Idle;
      return OK;
    }

    method Start() returns (ret: Ret)
      requires pc == Idle
      modifies this
      ensures Now() == Next(cfg, old(Now()), Action.Start)
      ensures ret == if old(control).stopped then OK else INVALID_STATE
    {
      if !control.stopped {
        return INVALID_STATE;
      }
      control := control.(stopped := false);
      return OK;
    }

    method Stop() returns (ret: Ret)
      requires pc == Idle
      modifies this
      ensures Now() == Next(cfg, old(Now()), Action.Stop)
      ensures ret == if old(control).stopped || old(control).busOff then INVALID_STATE else OK
    {
      if control.stopped || control.busOff {
        return INVALID_STATE;
      }
      control := control.(occupied := false, stopped := true);
      buffer, queue := None, [];
      control := control.(msgCount := 0);
      return OK;
    }

    method InitiateRecovery() returns (ret: Ret)
      requires pc == Idle
      modifies this
      ensures Now() == Next(cfg, old(Now()), Action.InitiateRecovery)
      ensures ret == if old(control).busOff && !old(control).recovering then OK else INVALID_STATE
    {
      if !control.busOff || control.recovering {
        return INVALID_STATE;
      }
      queue, buffer := [], None;
      control := control.(occupied := false, recovering := true, msgCount := 0);
      return OK;
    }

    method ClearTransmitQueue() returns (ret: Ret)
      requires pc == Idle
      modifies this
      ensures Now() == Next(cfg, old(Now()), Action.ClearTransmitQueue)
      ensures ret == if cfg.queueLen > 0 then OK else NOT_SUPPORTED
    {
      if cfg.queueLen == 0 {
        return NOT_SUPPORTED;
      }
      control := control.(msgCount := if control.occupied then 1 else 0);
      queue := [];
      return OK;
    }

    /** can_intr_handler_tx: the controller has done with the frame in its buffer. */
    method TxInterrupt()
      requires Valid(cfg, Now()) && buffer.Some?
      modifies this
      ensures Now() == Next(cfg, old(Now()), Action.TxInterrupt)
    {
      hide Subseq;
      control := control.(msgCount := control.msgCount - 1);
      assert control.msgCount >= 0;
      if control.msgCount > 0 && cfg.queueLen > 0 {
        assert queue != [];
        SetTxBuffer(queue[0]);
        queue := queue[1..];
      } else {
        control := control.(occupied := false);
        buffer := None;
      }
    }

    /** can_intr_handler_err_warn with the bus and error bits set; the controller may have aborted its
        transmission. */
    method BusOffInterrupt(aborted: bool)
      modifies this
      ensures Now() == Next(cfg, old(Now()), Action.BusOffInterrupt(aborted))
    {
      control := control.(busOff := true);
      if aborted {
        buffer := None;
      }
    }

    /** can_intr_handler_err_warn with both bits clear: the end of a bus recovery. */
    method ErrorWarnInterrupt()
      modifies this
      ensures Now() == Next(cfg, old(Now()), Action.ErrorWarnInterrupt)
    {
      if control.recovering {
        control := control.(recovering := false, busOff := false, occupied := false, stopped := true);
        buffer := None;
      }
    }

    /** Carries out an action that is possible now. */
    method Act(a: Action)
      requires Valid(cfg, Now())
      modifies this
      ensures Now() == Next(cfg, old(Now()), a)
    {
      hide Valid, Next;
      if !CanAct(a) {
        NotPossible(cfg, Now(), a);
        return;
      }
      match a {
        case Transmit(f) => var _ := Transmit(f);
        case QueueSend => QueueSend();
        case SendTimeout => var _ := SendTimeout();
        case QueueSent => var _ := QueueSent();
        case Start => var _ := Start();
        case Stop => var _ := Stop();
        case InitiateRecovery => var _ := InitiateRecovery();
        case ClearTransmitQueue => var _ := ClearTransmitQueue();
        case TxInterrupt => TxInterrupt();
        case BusOffInterrupt(aborted) => BusOffInterrupt(aborted);
        case ErrorWarnInterrupt => ErrorWarnInterrupt();
      }
    }

    predicate CanAct(a: Action)
      reads this
      ensures CanAct(a) == Possible(cfg, Now(), a)
    {
      match a
      case QueueSend => pc.Sending? && |queue| < cfg.queueLen
      case SendTimeout => pc.Sending?
      case QueueSent => pc.Queued?
      case TxInterrupt => buffer.Some?
      case BusOffInterrupt(_) => true
      case ErrorWarnInterrupt => true
      case _ => pc.Idle?
    }

    /** The driver is that machine under every schedule. */
    method RunSchedule(schedule: seq<Action>)
      requires Valid(cfg, Now())
      modifies this
      ensures Now() == Run(cfg, old(Now()), schedule) && Valid(cfg, Now())
    {
      hide Valid, Next;
      for i := 0 to |schedule|
        invariant Now() == Run(cfg, old(Now()), schedule[..i]) && Valid(cfg, Now())
      {
        NextValid(cfg, Now(), schedule[i]);
        Act(schedule[i]);
        assert schedule[..i + 1][..i] == schedule[..i];
      }
      assert schedule[..|schedule|] == schedule;
    }
  }

  /** After a stop that has been granted, whatever follows but a start, no frame reaches the controller, and each that
      is given to the driver is refused. */
  method StopThenSend(d: CanDriver, schedule: seq<Action>, f: Frame) returns (stopped: Ret, sent: Ret)
    requires Valid(d.cfg, d.Now()) && d.pc == Idle && Without(schedule, Start)
    modifies d
    ensures stopped == OK <==> !old(d.control).stopped && !old(d.control).busOff
    ensures stopped == OK ==>
      d.sent == old(d.sent) && sent == if d.cfg.listenOnly then NOT_SUPPORTED else INVALID_STATE
  {
    hide Next, Valid, Run;
    ghost var s := d.Now();
    StopValid(d.cfg, s);
    stopped := d.Stop();
    sent := FAIL;
    if stopped == OK {
      StopSendsNothing(d.cfg, s, schedule);
      sent := SendStopped(d, schedule, f);
    }
  }

  lemma StopValid(cfg: Config, s: State)
    requires Valid(cfg, s)
    ensures Valid(cfg, Next(cfg, s, Stop)) && Valid(cfg, Next(cfg, s, ErrorWarnInterrupt))
  {
    NextValid(cfg, s, Stop);
    NextValid(cfg, s, ErrorWarnInterrupt);
  }

  method SendStopped(d: CanDriver, schedule: seq<Action>, f: Frame) returns (sent: Ret)
    requires Valid(d.cfg, d.Now()) && Run(d.cfg, d.Now(), schedule).control.stopped
    modifies d
    ensures d.Now() == Run(d.cfg, old(d.Now()), schedule)
    ensures sent == if d.cfg.listenOnly then NOT_SUPPORTED else INVALID_STATE
  {
    hide Run, Subseq;
    d.RunSchedule(schedule);
    sent := d.Transmit(f);
  }

  /** The same at the end of a bus recovery. */
  method RecoverThenSend(d: CanDriver, schedule: seq<Action>, f: Frame) returns (sent: Ret)
    requires Valid(d.cfg, d.Now()) && d.control.recovering && Without(schedule, Start)
    modifies d
    ensures d.sent == old(d.sent) && sent == if d.cfg.listenOnly then NOT_SUPPORTED else INVALID_STATE
  {
    hide Next, Valid, Run;
    ghost var s := d.Now();
    StopValid(d.cfg, s);
    RecoverySendsNothing(d.cfg, s, schedule);
    d.ErrorWarnInterrupt();
    sent := SendStopped(d, schedule, f);
  }

  lemma NotPossible(cfg: Config, s: State, a: Action)
    requires !Possible(cfg, s, a)
    ensures Next(cfg, s, a) == s
  {
  }
}
