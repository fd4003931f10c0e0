/**
 How the DMA engine, the interrupt handler of sdmmc_host.c and the driver of sdmmc_transaction.c take part in
 one transfer, as a machine on values: descriptors are counted, and the events between the three are kept.
 */
module SdmmcEvents {
  import opened Bytes

  const SDMMC_DMA_DESC_CNT := 4
  const SDMMC_EVENT_QUEUE_LENGTH := 32

  /** The status bits that matter: command done, data over, and a descriptor released. */
  datatype Bits = Bits(cmd: bool, over: bool, dma: bool) {
    predicate Any() {
      cmd || over || dma
    }

    function Or(b: Bits): Bits {
      Bits(cmd || b.cmd, over || b.over, dma || b.dma)
    }

    predicate Has(k: Kind) {
      match k
      case CMD => cmd
      case OVER => over
      case DMA => dma
    }
  }

  datatype Kind = CMD | OVER | DMA

  const NONE := Bits(false, false, false)

  /** The states of process_events, after the set-up of the transfer. */
  datatype Phase = SETTING_UP | SENDING_CMD | SENDING_DATA | BUSY | IDLE

  /** Where the driver is: waiting for an event, before it reads the next descriptor but i, or before it fills the
      next descriptor, with `left` to go. */
  datatype Pc = Waiting | Counting(i: nat) | Filling(left: nat)

  /** The controller has done with the command, and has announced the end of the data when so many buffers had been
      processed; the raised status bits; the events queued, and those that found the queue full.  `merged` releases
      were announced by a bit that had been set before. */
  datatype Bus =
    Bus(cmdSent: bool, over: Option<nat>, raised: Bits, queue: seq<Bits>, lost: seq<Bits>, merged: nat)

  /** `evt` are the bits that process_events has yet to clear, between two calls the unhandled ones. */
  datatype Driver = Driver(phase: Phase, pc: Pc, evt: Bits, countdown: int)

  /** How many buffers the engine has processed and the driver has handed over; the engine is suspended when it has
      come to a descriptor that is not its own. */
  datatype State = State(done: nat, handed: nat, suspended: bool, bus: Bus, drv: Driver)

  datatype Action = Release | Suspend | CommandDone | DataOver | Interrupt | Step

  /** The first descriptors are still to be filled, and the engine is still to be started. */
  function Begin(count: nat): State {
    State(0, 0, true, Bus(false, None, NONE, [], [], 0), Driver(SETTING_UP, Filling(SDMMC_DMA_DESC_CNT), NONE, count))
  }

  predicate Possible(count: nat, s: State, a: Action) {
    match a
    case Release => !s.suspended && s.done < s.handed
    case Suspend => !s.suspended && s.done == s.handed && (count == 0 || s.done < count)
    case CommandDone => s.drv.phase != SETTING_UP && !s.bus.cmdSent
    case DataOver => s.drv.phase != SETTING_UP && s.bus.over.None?
    case Interrupt => s.bus.raised.Any()
    case Step => s.drv.pc != Waiting || (s.bus.queue != [] && s.drv.phase != IDLE)
  }

  // ---------------------------------------------------------------- controller and interrupt handler

  function Raise(b: Bus, bits: Bits): Bus {
    b.(raised := b.raised.Or(bits), merged := b.merged + if b.raised.dma && bits.dma then 1 else 0)
  }

  /** sdmmc_isr: the raised bits are cleared and queued as one event. */
  function Queued(b: Bus): Bus {
    if |b.queue| < SDMMC_EVENT_QUEUE_LENGTH then b.(queue := b.queue + [b.raised], raised := NONE)
    else b.(lost := b.lost + [b.raised], raised := NONE)
  }

  // ---------------------------------------------------------------- the driver

  /** The next event joins the unhandled bits. */
  function TakeBus(b: Bus, evt: Bits): Bus
    requires b.queue != []
  {
    b.(queue := b.queue[1..], merged := b.merged + if b.queue[0].dma && evt.dma then 1 else 0)
  }

  /** What is left to do at the end of the data branch behind a DMA event. */
  function Conclude(d: Driver): Driver {
    d.(pc := Waiting, phase := if d.evt.over then IDLE else if d.countdown == 0 then BUSY else d.phase)
  }

  /** The data branch, up to the first look at a descriptor; `more` buffers are to be handed over. */
  function DataBranch(d: Driver, more: bool): Driver {
    if d.evt.dma then
      var c := d.(evt := d.evt.(dma := false), countdown := d.countdown - 1);
      if more then c.(pc := Counting(0)) else Conclude(c)
    else if d.evt.over then d.(phase := IDLE)
    else d
  }

  /** process_events, up to there. */
  function Process(d: Driver, more: bool): Driver {
    match d.phase
    case SENDING_CMD =>
      if d.evt.cmd then DataBranch(d.(phase := SENDING_DATA, evt := d.evt.(cmd := false)), more) else d
    case SENDING_DATA => DataBranch(d, more)
    case BUSY => if d.evt.over then d.(phase := IDLE, evt := d.evt.(over := false)) else d
    case _ => d
  }

  /** The engine is started or resumed. */
  function Resumed(d: Driver): Driver {
    if d.phase == SETTING_UP then d.(phase := SENDING_CMD, pc := Waiting) else Conclude(d)
  }

  /** The look at the descriptor i places behind the next one: the engine owns it if it holds an unprocessed
      buffer. */
  function Looked(s: State, i: nat): Pc {
    if s.handed + i >= s.done + SDMMC_DMA_DESC_CNT then Filling(i)
    else if i + 1 >= SDMMC_DMA_DESC_CNT then Filling(i + 1)
    else Counting(i + 1)
  }

  function DriverStep(count: nat, s: State): State {
    match s.drv.pc
    case Waiting =>
      if s.bus.queue == [] then s
      else
        var evt := s.bus.queue[0].Or(s.drv.evt);
        s.(bus := TakeBus(s.bus, s.drv.evt), drv := Process(s.drv.(evt := evt), s.handed < count))
    case Counting(i) => s.(drv := s.drv.(pc := Looked(s, i)))
    case Filling(left) =>
      if left > 0 && s.handed < count then s.(handed := s.handed + 1, drv := s.drv.(pc := Filling(left - 1)))
      else s.(suspended := false, drv := Resumed(s.drv))
  }

  function Next(count: nat, s: State, a: Action): State {
    if !Possible(count, s, a) then s
    else match a
      case Release => s.(done := s.done + 1, bus := Raise(s.bus, NONE.(dma := true)))
      case Suspend => s.(suspended := true)
      case CommandDone => s.(bus := Raise(s.bus, NONE.(cmd := true)).(cmdSent := true))
      case DataOver => s.(bus := Raise(s.bus, NONE.(over := true)).(over := Some(s.done)))
      case Interrupt => s.(bus := Queued(s.bus))
      case Step => DriverStep(count, s)
  }

  function Run(count: nat, s: State, schedule: seq<Action>): State {
    if schedule == [] then s
    else Next(count, Run(count, s, schedule[..|schedule| - 1]), schedule[|schedule| - 1])
  }

  lemma {:induction false} RunConcat(count: nat, s: State, a: seq<Action>, b: seq<Action>)
    ensures Run(count, s, a + b) == Run(count, Run(count, s, a), b)
    decreases |b|
  {
    hide Next;
    if b == [] {
      assert a + b == a;
    } else {
      var n := |b| - 1;
      RunConcat(count, s, a, b[..n]);
      assert (a + b)[..|a + b| - 1] == a + b[..n];
    }
  }

  lemma RunOne(count: nat, s: State, a: Action)
    ensures Run(count, s, [a]) == Next(count, s, a)
  {
    hide Next;
    assert [a][..0] == [];
  }

  lemma RunTwo(count: nat, s: State, a: Action, b: Action)
    ensures Run(count, s, [a, b]) == Next(count, Next(count, s, a), b)
  {
    hide Next;
    RunOne(count, s, a);
    assert [a, b][..1] == [a];
  }

  // ---------------------------------------------------------------- counting events

  function One(b: bool): nat {
    if b then 1 else 0
  }

  /** How many of the events have the bit. */
  function Tally(events: seq<Bits>, k: Kind): nat {
    if events == [] then 0 else Tally(events[..|events| - 1], k) + One(events[|events| - 1].Has(k))
  }

  lemma TallySnoc(events: seq<Bits>, b: Bits, k: Kind)
    ensures Tally(events + [b], k) == Tally(events, k) + One(b.Has(k))
  {
    assert (events + [b])[..|events|] == events;
  }

  lemma {:induction false} TallyFirst(events: seq<Bits>, k: Kind)
    requires events != []
    ensures Tally(events, k) == One(events[0].Has(k)) + Tally(events[1..], k)
    decreases |events|
  {
    var n := |events| - 1;
    if n > 0 {
      TallyFirst(events[..n], k);
      assert events[..n][1..] == events[1..][..n - 1];
    }
  }

  ghost predicate NonEmpty(events: seq<Bits>) {
    forall i | 0 <= i < |events| :: events[i].Any()
  }

  lemma {:induction false} TallyBounds(events: seq<Bits>)
    requires NonEmpty(events)
    ensures |events| <= Tally(events, CMD) + Tally(events, OVER) + Tally(events, DMA)
    decreases |events|
  {
    if events != [] {
      assert events[|events| - 1].Any();
      TallyBounds(events[..|events| - 1]);
    }
  }

  // ---------------------------------------------------------------- what every step keeps

  ghost predicate Fresh(count: nat, s: State) {
    && s.done == 0 && s.suspended && s.bus == Bus(false, None, NONE, [], [], 0)
    && s.drv.evt == NONE && s.drv.countdown == count
    && s.drv.pc.Filling? && s.handed + s.drv.pc.left == SDMMC_DMA_DESC_CNT
  }

  /** Where the parts can be. */
  ghost predicate Bounds(count: nat, s: State) {
    && s.done <= s.handed <= s.done + SDMMC_DMA_DESC_CNT && s.handed <= count
    && (s.drv.phase == SETTING_UP ==> Fresh(count, s))
    && (s.handed < count && s.drv.phase != SETTING_UP ==> s.handed >= SDMMC_DMA_DESC_CNT)
    && |s.bus.queue| <= SDMMC_EVENT_QUEUE_LENGTH && NonEmpty(s.bus.queue)
    && !s.drv.evt.cmd && s.drv.countdown <= count
    && (s.drv.phase == BUSY ==> s.drv.countdown == 0 && !s.drv.evt.over)
    && (s.drv.phase == SENDING_CMD ==> s.drv.countdown == count)
    && match s.drv.pc
       case Waiting => s.drv.phase != SETTING_UP && (s.drv.phase == SENDING_DATA ==> s.drv.evt == NONE)
       case Counting(i) =>
         && s.drv.phase == SENDING_DATA && !s.drv.evt.dma
         && i < SDMMC_DMA_DESC_CNT && s.handed + i <= s.done + SDMMC_DMA_DESC_CNT && s.handed < count
       case Filling(left) =>
         && (s.drv.phase == SENDING_DATA || s.drv.phase == SETTING_UP) && !s.drv.evt.dma
         && s.handed + left <= s.done + SDMMC_DMA_DESC_CNT
  }

  /** Releases and handled DMA events: what the countdown lacks is on its way, has been merged, or is lost. */
  ghost predicate Balance(count: nat, s: State) {
    s.drv.countdown + s.done ==
      count + One(s.bus.raised.dma) + Tally(s.bus.queue, DMA) + One(s.drv.evt.dma) + s.bus.merged + Tally(s.bus.lost, DMA)
  }

  /** The end of the command, and the end of the data, is announced once, and then is in one place. */
  ghost predicate Tokens(s: State) {
    && One(s.bus.cmdSent) == One(s.bus.raised.cmd) + Tally(s.bus.queue, CMD) + Tally(s.bus.lost, CMD)
         + One(s.drv.phase != SETTING_UP && s.drv.phase != SENDING_CMD)
    && One(s.bus.over.Some?) == One(s.bus.raised.over) + Tally(s.bus.queue, OVER) + Tally(s.bus.lost, OVER)
         + One(s.drv.evt.over || s.drv.phase == IDLE)
    && (s.bus.over.Some? ==> s.bus.over.value <= s.done)
  }

  /** A release that the driver has yet to learn of, if the event is not lost. */
  ghost predicate Announced(s: State) {
    s.bus.raised.dma || Tally(s.bus.queue, DMA) > 0 || s.drv.evt.dma || Tally(s.bus.lost, DMA) > 0
  }

  /** Until all buffers have been handed over, all descriptors are in use, or the driver will fill the free ones; and
      a suspended engine with work to do will be resumed. */
  ghost predicate Fed(count: nat, s: State) {
    && (s.handed < count && s.drv.phase != IDLE ==>
          || s.handed == s.done + SDMMC_DMA_DESC_CNT || Announced(s) || s.drv.pc.Counting?
          || (s.drv.pc.Filling? && s.handed + s.drv.pc.left == s.done + SDMMC_DMA_DESC_CNT))
    && (s.suspended && s.done < s.handed ==> s.drv.pc.Filling?)
  }

  /** Every DMA event handled lets at most four more buffers through. */
  ghost predicate Load(count: nat, s: State) {
    var handled := count - s.drv.countdown;
    match s.drv.pc
    case Waiting => s.handed <= 4 + 4 * handled
    case Counting(_) => s.handed <= 4 * handled
    case Filling(left) => s.handed + left <= 4 + 4 * handled
  }

  ghost predicate Inv(count: nat, s: State) {
    Bounds(count, s) && Balance(count, s) && Tokens(s) && Fed(count, s) && Load(count, s)
  }

  lemma BeginInv(count: nat)
    ensures Inv(count, Begin(count))
  {
  }

  lemma NonEmptyKeeps(b: Bus)
    requires NonEmpty(b.queue)
    ensures b.raised.Any() ==> NonEmpty(Queued(b).queue)
    ensures b.queue != [] ==> NonEmpty(b.queue[1..])
  {
  }

  /** The end of the command is announced once. */
  lemma CommandOnce(s: State)
    requires Tokens(s) && s.bus.queue != [] && s.drv.phase != SETTING_UP && s.drv.phase != SENDING_CMD
    ensures !s.bus.queue[0].cmd
  {
    hide Tally;
    TallyFirst(s.bus.queue, CMD);
  }

  lemma NextBounds(count: nat, s: State, a: Action)
    requires Bounds(count, s) && Tokens(s)
    ensures Bounds(count, Next(count, s, a))
  {
    if a.Step? {
      StepBounds(count, s);
    } else {
      hide NonEmpty, Tally, Tokens, DriverStep;
      NonEmptyKeeps(s.bus);
    }
  }

  lemma StepBounds(count: nat, s: State)
    requires Bounds(count, s) && Tokens(s)
    ensures Bounds(count, Next(count, s, Step))
  {
    hide NonEmpty, Tally, Tokens;
    NonEmptyKeeps(s.bus);
    if s.bus.queue != [] && s.drv.phase != SETTING_UP && s.drv.phase != SENDING_CMD {
      CommandOnce(s);
    }
  }

  /** What an action does to the events. */
  lemma TalliesKeep(count: nat, s: State, a: Action, k: Kind)
    ensures var n := Next(count, s, a);
      if a.Interrupt? && Possible(count, s, a) then
        Tally(n.bus.queue, k) + Tally(n.bus.lost, k) ==
          Tally(s.bus.queue, k) + Tally(s.bus.lost, k) + One(s.bus.raised.Has(k))
      else if a.Step? && s.drv.pc == Waiting && s.bus.queue != [] && s.drv.phase != IDLE then
        Tally(s.bus.queue, k) == One(s.bus.queue[0].Has(k)) + Tally(n.bus.queue, k) && n.bus.lost == s.bus.lost
      else n.bus.queue == s.bus.queue && n.bus.lost == s.bus.lost
  {
    hide Tally, Process, Resumed, Looked;
    TallySnoc(s.bus.queue, s.bus.raised, k);
    TallySnoc(s.bus.lost, s.bus.raised, k);
    if s.bus.queue != [] {
      TallyFirst(s.bus.queue, k);
    }
  }

  lemma NextBalance(count: nat, s: State, a: Action)
    requires Bounds(count, s) && Balance(count, s)
    ensures Balance(count, Next(count, s, a))
  {
    TalliesKeep(count, s, a, DMA);
    hide NonEmpty, Tally;
    if a.Step? {
      StepBalance(count, s);
    } else {
      hide DriverStep;
    }
  }

  lemma StepBalance(count: nat, s: State)
    requires Bounds(count, s) && Balance(count, s)
    ensures Balance(count, Next(count, s, Step))
  {
    hide NonEmpty, Tally;
    TalliesKeep(count, s, Step, DMA);
    if s.drv.pc == Waiting {
      hide Process;
      if s.bus.queue != [] {
        ProcessBalance(s.drv, s.bus.queue[0].Or(s.drv.evt), s.handed < count);
      }
    } else {
      hide Process, Looked;
    }
  }

  /** A DMA bit in the event is counted, or stays unhandled. */
  lemma ProcessBalance(d: Driver, evt: Bits, more: bool)
    ensures var p := Process(d.(evt := evt), more);
      p.countdown + One(evt.dma) == d.countdown + One(p.evt.dma)
  {
  }

  lemma NextTokens(count: nat, s: State, a: Action)
    requires Bounds(count, s) && Tokens(s)
    ensures Tokens(Next(count, s, a))
  {
    hide NonEmpty, Tally;
    if a.Step? {
      StepTokens(count, s);
    } else {
      TalliesKeep(count, s, a, CMD);
      TalliesKeep(count, s, a, OVER);
      hide DriverStep;
    }
  }

  lemma StepTokens(count: nat, s: State)
    requires Bounds(count, s) && Tokens(s)
    ensures Tokens(Next(count, s, Step))
  {
    hide NonEmpty, Tally;
    TalliesKeep(count, s, Step, CMD);
    TalliesKeep(count, s, Step, OVER);
  }

  lemma NextFed(count: nat, s: State, a: Action)
    requires Bounds(count, s) && Balance(count, s) && Fed(count, s)
    ensures Fed(count, Next(count, s, a))
  {
    hide NonEmpty, Tally;
    TalliesKeep(count, s, a, DMA);
  }

  lemma NextLoad(count: nat, s: State, a: Action)
    requires Bounds(count, s) && Load(count, s)
    ensures Load(count, Next(count, s, a))
  {
    hide NonEmpty, Tally;
  }

  lemma NextInv(count: nat, s: State, a: Action)
    requires Inv(count, s)
    ensures Inv(count, Next(count, s, a))
  {
    hide Bounds, Balance, Tokens, Fed, Load, Next;
    NextBounds(count, s, a);
    NextBalance(count, s, a);
    NextTokens(count, s, a);
    NextFed(count, s, a);
    NextLoad(count, s, a);
  }

  lemma {:induction false} RunInv(count: nat, s: State, schedule: seq<Action>)
    requires Inv(count, s)
    ensures Inv(count, Run(count, s, schedule))
    decreases |schedule|
  {
    hide Inv, Next;
    if schedule != [] {
      RunInv(count, s, schedule[..|schedule| - 1]);
      NextInv(count, Run(count, s, schedule[..|schedule| - 1]), schedule[|schedule| - 1]);
    }
  }

  // ---------------------------------------------------------------- the countdown

  /** Under every schedule the countdown never falls below 0; and it is 0 exactly when the engine has processed all
      buffers, no DMA event is on its way, and no two releases share a bit and no event is lost.  Behind the data
      phase everything has been processed. */
  lemma Countdown(count: nat, schedule: seq<Action>)
    ensures var s := Run(count, Begin(count), schedule);
      && s.drv.countdown >= 0
      && (s.drv.countdown == 0 <==>
            && s.done == count && !s.bus.raised.dma && Tally(s.bus.queue, DMA) == 0 && !s.drv.evt.dma
            && s.bus.merged == 0 && Tally(s.bus.lost, DMA) == 0)
      && (s.drv.phase == BUSY ==> s.done == count)
  {
    hide Next, Tally, Tokens, Fed, Load;
    BeginInv(count);
    RunInv(count, Begin(count), schedule);
  }

  /** The driver returns only behind the end of the data; with all buffers processed, if the controller announces the
      end of the data only then. */
  lemma IdleBehindOver(count: nat, schedule: seq<Action>)
    ensures var s := Run(count, Begin(count), schedule);
      s.drv.phase == IDLE ==> s.bus.over.Some? && s.bus.over.value <= s.done
  {
    hide Next, Tally, Bounds, Balance, Fed, Load;
    BeginInv(count);
    RunInv(count, Begin(count), schedule);
  }

  // ---------------------------------------------------------------- every transfer comes to rest

  function Rank(pc: Pc): int {
    match pc
    case Waiting => 0
    case Counting(i) => 12 - i
    case Filling(left) => 2 + left
  }

  function Measure(count: nat, s: State): int {
    34 * (count - s.done) + 34 * One(!s.bus.cmdSent) + 34 * One(s.bus.over.None?)
    + 32 * (One(s.bus.raised.cmd) + One(s.bus.raised.over) + One(s.bus.raised.dma))
    + 30 * |s.bus.queue| + Rank(s.drv.pc) + One(!s.suspended)
  }

  /** Every possible action lowers the measure. */
  lemma ActionLowers(count: nat, s: State, a: Action)
    requires Inv(count, s)
    ensures Measure(count, s) >= 0
    ensures Possible(count, s, a) ==> Measure(count, Next(count, s, a)) < Measure(count, s)
    ensures !Possible(count, s, a) ==> Next(count, s, a) == s
  {
    hide NonEmpty, Tally, Balance, Tokens, Fed, Load;
    RankBounds(count, s);
    if a.Step? {
      StepLowers(count, s);
    } else {
      hide Bounds, DriverStep, Rank;
    }
  }

  lemma RankBounds(count: nat, s: State)
    requires Bounds(count, s)
    ensures 0 <= Rank(s.drv.pc) && s.done <= count
  {
    hide NonEmpty, Fresh;
  }

  lemma StepLowers(count: nat, s: State)
    requires Bounds(count, s)
    ensures Possible(count, s, Step) ==> Measure(count, Next(count, s, Step)) < Measure(count, s)
  {
    match s.drv.pc {
      case Waiting => TakeLowers(count, s);
      case Counting(i) => LookLowers(count, s, i);
      case Filling(left) => FillLowers(count, s, left);
    }
  }

  lemma TakeLowers(count: nat, s: State)
    requires s.drv.pc == Waiting
    ensures Possible(count, s, Step) ==> Measure(count, Next(count, s, Step)) < Measure(count, s)
  {
    hide Process;
    if s.bus.queue != [] {
      ProcessRank(s.drv, s.bus.queue[0].Or(s.drv.evt), s.handed < count);
    }
  }

  lemma ProcessRank(d: Driver, evt: Bits, more: bool)
    requires d.pc == Waiting
    ensures Rank(Process(d.(evt := evt), more).pc) <= 12
  {
  }

  lemma LookLowers(count: nat, s: State, i: nat)
    requires s.drv.pc == Counting(i) && i < SDMMC_DMA_DESC_CNT
    ensures Measure(count, Next(count, s, Step)) < Measure(count, s)
  {
    hide Process, Resumed;
  }

  lemma FillLowers(count: nat, s: State, left: nat)
    requires s.drv.pc == Filling(left)
    ensures Measure(count, Next(count, s, Step)) < Measure(count, s)
  {
    hide Process, Looked, Resumed;
    ResumedWaits(s.drv);
  }

  lemma ResumedWaits(d: Driver)
    ensures Resumed(d).pc == Waiting
  {
  }

  /** Nothing can happen, except perhaps that the end of the data is announced. */
  ghost predicate AtRest(count: nat, s: State) {
    forall a: Action :: a != DataOver ==> !Possible(count, s, a)
  }

  lemma RestIs(count: nat, s: State)
    requires AtRest(count, s) && s.drv.phase != IDLE
    ensures s.drv.pc == Waiting && s.bus.queue == [] && !s.bus.raised.Any()
    ensures s.drv.phase != SETTING_UP ==> s.bus.cmdSent
    ensures s.suspended || s.done >= s.handed
  {
    assert !Possible(count, s, Step) && !Possible(count, s, Interrupt) && !Possible(count, s, CommandDone);
    assert !Possible(count, s, Release);
  }

  /** If no event is lost, the engine is not left without work: when nothing but the end of the data can happen, all
      buffers have been processed, however many releases share an event; and once that end is announced as well,
      the driver has returned.  The countdown then lacks just the releases that share a bit. */
  lemma ComesToRest(count: nat, schedule: seq<Action>)
    requires AtRest(count, Run(count, Begin(count), schedule)) && Run(count, Begin(count), schedule).bus.lost == []
    ensures var s := Run(count, Begin(count), schedule);
      && (s.drv.phase != IDLE ==> s.done == count && s.drv.countdown == s.bus.merged)
      && (s.bus.over.Some? ==> s.drv.phase == IDLE)
  {
    hide Inv, Run, AtRest;
    BeginInv(count);
    RunInv(count, Begin(count), schedule);
    var s := Run(count, Begin(count), schedule);
    if s.drv.phase != IDLE {
      RestDone(count, s);
    }
  }

  lemma RestDone(count: nat, s: State)
    requires Inv(count, s) && AtRest(count, s) && s.bus.lost == [] && s.drv.phase != IDLE
    ensures s.done == count && s.drv.countdown == s.bus.merged && s.bus.over.None?
  {
    RestIs(count, s);
    NothingLost();
    hide AtRest, Possible, Tally, NonEmpty, Load;
  }

  // ---------------------------------------------------------------- the event queue

  /** 41 buffers: in the worst case the driver fills four descriptors for each event that it takes out. */
  const MOST_BUFFERS := 41

  lemma QueueHasRoom(count: nat, s: State)
    requires Inv(count, s) && s.bus.lost == [] && s.bus.raised.Any() && count <= MOST_BUFFERS
    ensures |s.bus.queue| < SDMMC_EVENT_QUEUE_LENGTH
  {
    hide NonEmpty, Tally, Fed;
    TallyBounds(s.bus.queue);
    NothingLost();
    QueueArithmetic(count, s);
  }

  lemma NothingLost()
    ensures Tally([], CMD) == Tally([], OVER) == Tally([], DMA) == 0
  {
  }

  lemma QueueArithmetic(count: nat, s: State)
    requires Bounds(count, s) && Balance(count, s) && Tokens(s) && Load(count, s) && s.bus.raised.Any()
    requires count <= MOST_BUFFERS
    ensures Tally(s.bus.queue, CMD) + Tally(s.bus.queue, OVER) + Tally(s.bus.queue, DMA) < SDMMC_EVENT_QUEUE_LENGTH
  {
    hide NonEmpty, Tally;
  }

  /** A transfer of at most 41 buffers loses no event. */
  lemma {:induction false} NoneLost(count: nat, schedule: seq<Action>)
    requires count <= MOST_BUFFERS
    ensures Run(count, Begin(count), schedule).bus.lost == []
    decreases |schedule|
  {
    hide Next, Inv;
    if schedule != [] {
      var front := schedule[..|schedule| - 1];
      BeginInv(count);
      RunInv(count, Begin(count), front);
      NoneLost(count, front);
      NextNoneLost(count, Run(count, Begin(count), front), schedule[|schedule| - 1]);
    }
  }

  lemma NextNoneLost(count: nat, s: State, a: Action)
    requires Inv(count, s) && s.bus.lost == [] && count <= MOST_BUFFERS
    ensures Next(count, s, a).bus.lost == []
  {
    hide Inv;
    if s.bus.raised.Any() {
      QueueHasRoom(count, s);
    }
  }

  // ---------------------------------------------------------------- a longer transfer

  function Steps(n: nat): (schedule: seq<Action>)
    ensures |schedule| == n
  {
    if n == 0 then [] else Steps(n - 1) + [Step]
  }

  function Pumps(n: nat): seq<Action> {
    if n == 0 then [] else Pumps(n - 1) + [Release, Interrupt]
  }

  function Dmas(n: nat): (events: seq<Bits>)
    ensures |events| == n && forall i | 0 <= i < n :: events[i] == NONE.(dma := true)
  {
    if n == 0 then [] else Dmas(n - 1) + [NONE.(dma := true)]
  }

  /** The driver waits in the data phase with q DMA events queued. */
  function Pumped(done: nat, handed: nat, q: nat, countdown: int): State {
    State(done, handed, false, Bus(true, None, NONE, Dmas(q), [], 0), Driver(SENDING_DATA, Waiting, NONE, countdown))
  }

  lemma RunSteps(count: nat, s: State, n: nat)
    requires n > 0
    ensures Run(count, s, Steps(n)) == Next(count, Run(count, s, Steps(n - 1)), Step)
  {
    hide Next;
    assert Steps(n)[..n - 1] == Steps(n - 1);
  }

  lemma PumpOne(count: nat, done: nat, handed: nat, q: nat, countdown: int)
    requires done < handed && q < SDMMC_EVENT_QUEUE_LENGTH
    ensures Next(count, Next(count, Pumped(done, handed, q, countdown), Release), Interrupt) ==
      Pumped(done + 1, handed, q + 1, countdown)
  {
  }

  /** Releases, each with an interrupt of its own. */
  lemma {:induction false} PumpMore(count: nat, done: nat, handed: nat, q: nat, countdown: int, n: nat)
    requires done + n <= handed && q + n <= SDMMC_EVENT_QUEUE_LENGTH
    ensures Run(count, Pumped(done, handed, q, countdown), Pumps(n)) == Pumped(done + n, handed, q + n, countdown)
    decreases n
  {
    hide Next, Pumped;
    if n > 0 {
      var s := Pumped(done, handed, q, countdown);
      PumpMore(count, done, handed, q, countdown, n - 1);
      PumpOne(count, done + (n - 1), handed, q + (n - 1), countdown);
      RunConcat(count, s, Pumps(n - 1), [Release, Interrupt]);
      RunTwo(count, Pumped(done + (n - 1), handed, q + (n - 1), countdown), Release, Interrupt);
    }
  }

  /** The driver handles the first of the events with all descriptors free, and fills f of them. */
  lemma HandleOne(count: nat, done: nat, q: nat, countdown: int, f: nat)
    requires done < count && f == Min(SDMMC_DMA_DESC_CNT, count - done) && countdown > 1
    ensures Run(count, Pumped(done, done, q + 1, countdown), Steps(6 + f)) == Pumped(done, done + f, q, countdown - 1)
  {
    hide Dmas, Next, Run, Steps;
    var s := Pumped(done, done, q + 1, countdown);
    var t := Pumped(done, done, q, countdown - 1);
    TakeOne(count, done, q, countdown);
    CountSome(count, s, t, 4);
    FillAll(count, s, t, f);
    RunSteps(count, s, 6 + f);
    ResumeOne(count, t.(handed := done + f), 4 - f);
  }

  lemma TakeOne(count: nat, done: nat, q: nat, countdown: int)
    requires done < count
    ensures var t := Pumped(done, done, q, countdown - 1);
      Next(count, Pumped(done, done, q + 1, countdown), Step) == t.(drv := t.drv.(pc := Counting(0)))
  {
    hide Dmas;
    DmasFirst(q);
  }

  lemma ResumeOne(count: nat, t: State, left: nat)
    requires t.drv.pc == Waiting && t.drv.phase == SENDING_DATA && t.drv.evt == NONE && t.drv.countdown != 0
    requires !t.suspended
    requires left == 0 || t.handed >= count
    ensures Next(count, t.(drv := t.drv.(pc := Filling(left))), Step) == t
  {
  }

  lemma {:induction false} DmasFirst(q: nat)
    ensures Dmas(q + 1)[1..] == Dmas(q)
  {
  }

  /** All descriptors are free. */
  function CountingAt(i: nat): Pc {
    if i < SDMMC_DMA_DESC_CNT then Counting(i) else Filling(i)
  }

  lemma LookOne(count: nat, t: State, i: nat)
    requires t.handed == t.done && i < SDMMC_DMA_DESC_CNT
    ensures Next(count, t.(drv := t.drv.(pc := Counting(i))), Step) == t.(drv := t.drv.(pc := CountingAt(i + 1)))
  {
  }

  lemma {:induction false} CountSome(count: nat, s: State, t: State, i: nat)
    requires t.handed == t.done && i <= SDMMC_DMA_DESC_CNT
    requires Next(count, s, Step) == t.(drv := t.drv.(pc := Counting(0)))
    ensures Run(count, s, Steps(1 + i)) == t.(drv := t.drv.(pc := CountingAt(i)))
    decreases i
  {
    hide Next;
    RunSteps(count, s, 1 + i);
    if i == 0 {
      assert Run(count, s, Steps(0)) == s;
    } else {
      CountSome(count, s, t, i - 1);
      LookOne(count, t, i - 1);
    }
  }

  lemma {:induction false} FillAll(count: nat, s: State, t: State, f: nat)
    requires t.drv.pc == Waiting && f <= SDMMC_DMA_DESC_CNT && t.handed + f <= count
    requires Run(count, s, Steps(5)) == t.(drv := t.drv.(pc := Filling(4)))
    ensures Run(count, s, Steps(5 + f)) == t.(handed := t.handed + f, drv := t.drv.(pc := Filling(4 - f)))
    decreases f
  {
    hide Run;
    if f > 0 {
      FillAll(count, s, t, f - 1);
      RunSteps(count, s, 5 + f);
    }
  }

  /** The set-up when f descriptors have been filled. */
  function SettingUp(count: nat, f: nat): State
    requires f <= SDMMC_DMA_DESC_CNT
  {
    Begin(count).(handed := f, drv := Driver(SETTING_UP, Filling(SDMMC_DMA_DESC_CNT - f), NONE, count))
  }

  lemma FillFirst(count: nat, f: nat)
    requires f < SDMMC_DMA_DESC_CNT && f < count
    ensures Next(count, SettingUp(count, f), Step) == SettingUp(count, f + 1)
  {
  }

  lemma {:induction false} SetUp(count: nat, f: nat)
    requires f <= SDMMC_DMA_DESC_CNT && f <= count
    ensures Run(count, Begin(count), Steps(f)) == SettingUp(count, f)
    decreases f
  {
    hide Next, Run, SettingUp;
    if f == 0 {
      NoSteps(count);
    } else {
      SetUp(count, f - 1);
      FillFirst(count, f - 1);
      RunSteps(count, Begin(count), f);
    }
  }

  lemma NoSteps(count: nat)
    ensures Run(count, Begin(count), Steps(0)) == Begin(count) == SettingUp(count, 0)
  {
  }

  function Started(count: nat, f: nat, cmd: Bits, queue: seq<Bits>): State {
    State(0, f, false, Bus(cmd.cmd || queue != [], None, cmd, queue, [], 0), Driver(SENDING_CMD, Waiting, NONE, count))
  }

  lemma StartOne(count: nat, f: nat)
    requires f == Min(SDMMC_DMA_DESC_CNT, count)
    ensures Next(count, SettingUp(count, f), Step) == Started(count, f, NONE, [])
  {
  }

  lemma Start(count: nat, f: nat)
    requires f == Min(SDMMC_DMA_DESC_CNT, count)
    ensures Run(count, Begin(count), Steps(f + 1)) == Started(count, f, NONE, [])
  {
    hide Next, Run, SettingUp, Started;
    SetUp(count, f);
    StartOne(count, f);
    RunSteps(count, Begin(count), f + 1);
  }

  lemma CommandEnds(count: nat, f: nat)
    ensures var cmd := NONE.(cmd := true);
      && Next(count, Started(count, f, NONE, []), CommandDone) == Started(count, f, cmd, [])
      && Next(count, Started(count, f, cmd, []), Interrupt) == Started(count, f, NONE, [cmd])
      && Next(count, Started(count, f, NONE, [cmd]), Step) == Pumped(0, f, 0, count)
  {
    assert [NONE.(cmd := true)][1..] == Dmas(0);
  }

  /** The set-up, and the event for the end of the command. */
  function Prelude(f: nat): seq<Action> {
    Steps(f + 1) + [CommandDone, Interrupt] + [Step]
  }

  lemma PreludeEnds(count: nat, f: nat)
    requires f == Min(SDMMC_DMA_DESC_CNT, count)
    ensures Run(count, Begin(count), Prelude(f)) == Pumped(0, f, 0, count)
  {
    hide Run, Next, Pumped, Started, Steps;
    var s := Begin(count);
    Start(count, f);
    CommandEnds(count, f);
    RunConcat(count, s, Steps(f + 1), [CommandDone, Interrupt]);
    RunConcat(count, s, Steps(f + 1) + [CommandDone, Interrupt], [Step]);
    RunTwo(count, Started(count, f, NONE, []), CommandDone, Interrupt);
    RunOne(count, Started(count, f, NONE, [NONE.(cmd := true)]), Step);
  }

  /** Then, k times: four releases with their interrupts, and one event handled. */
  function Rounds(k: nat): seq<Action> {
    if k == 0 then Prelude(4) + Pumps(4) else Rounds(k - 1) + Steps(10) + Pumps(4)
  }

  lemma {:induction false} RoundsEnd(count: nat, k: nat)
    requires k <= 9 && count > MOST_BUFFERS
    ensures Run(count, Begin(count), Rounds(k)) == Pumped(4 * k + 4, 4 * k + 4, 3 * k + 4, count - k)
    decreases k
  {
    hide Run, Pumped, Prelude;
    var s := Begin(count);
    if k == 0 {
      PreludeEnds(count, 4);
      RunConcat(count, s, Prelude(4), Pumps(4));
      PumpMore(count, 0, 4, 0, count, 4);
    } else {
      RoundsEnd(count, k - 1);
      RunConcat(count, s, Rounds(k - 1), Steps(10));
      RunConcat(count, s, Rounds(k - 1) + Steps(10), Pumps(4));
      HandleOne(count, 4 * k, 3 * k, count - (k - 1), 4);
      PumpMore(count, 4 * k, 4 * k + 4, 3 * k, count - k, 4);
    }
  }

  /** Up to 42 releases with the queue full. */
  function Full(count: nat): seq<Action>
    requires count > MOST_BUFFERS
  {
    Rounds(9) + Steps(6 + Min(4, count - 40)) + Pumps(2)
  }

  lemma FullEnds(count: nat)
    requires count > MOST_BUFFERS
    ensures Run(count, Begin(count), Full(count)) == Pumped(42, 40 + Min(4, count - 40), 32, count - 10)
  {
    hide Run, Pumped, Rounds;
    var s, f := Begin(count), Min(4, count - 40);
    RoundsEnd(count, 9);
    RunConcat(count, s, Rounds(9), Steps(6 + f));
    RunConcat(count, s, Rounds(9) + Steps(6 + f), Pumps(2));
    HandleOne(count, 40, 30, count - 9, f);
    PumpMore(count, 40, 40 + f, 30, count - 10, 2);
  }

  /** A schedule that loses an event: the end of the data, or the next release. */
  function Losing(count: nat): seq<Action>
    requires count > MOST_BUFFERS
  {
    Full(count) + [if count == 42 then DataOver else Release, Interrupt]
  }

  lemma LosingLoses(count: nat)
    requires count > MOST_BUFFERS
    ensures var s := Run(count, Begin(count), Losing(count));
      && s.bus.lost == [if count == 42 then NONE.(over := true) else NONE.(dma := true)]
      && (count == 42 ==> s.done == count)
  {
    hide Run, Full;
    var a := if count == 42 then DataOver else Release;
    FullEnds(count);
    RunConcat(count, Begin(count), Full(count), [a, Interrupt]);
    RunTwo(count, Run(count, Begin(count), Full(count)), a, Interrupt);
  }

  /** An event can be lost exactly in a transfer of more than 41 buffers. */
  lemma LostExactly(count: nat)
    ensures (exists schedule :: Run(count, Begin(count), schedule).bus.lost != []) <==> count > MOST_BUFFERS
  {
    hide Run, Losing;
    if count > MOST_BUFFERS {
      LosingLoses(count);
      assert Run(count, Begin(count), Losing(count)).bus.lost != [];
    } else {
      forall schedule ensures Run(count, Begin(count), schedule).bus.lost == [] {
        NoneLost(count, schedule);
      }
    }
  }

  lemma NextLost(count: nat, s: State, a: Action)
    ensures Tally(s.bus.lost, OVER) <= Tally(Next(count, s, a).bus.lost, OVER)
  {
    hide Process, Resumed, Looked, Tally;
    TallySnoc(s.bus.lost, s.bus.raised, OVER);
  }

  lemma {:induction false} StaysLost(count: nat, s: State, more: seq<Action>)
    requires Inv(count, s) && Tally(s.bus.lost, OVER) > 0
    ensures Run(count, s, more).drv.phase != IDLE && Tally(Run(count, s, more).bus.lost, OVER) > 0
    decreases |more|
  {
    hide Next, Bounds, Balance, Fed, Load, Tally;
    RunInv(count, s, more);
    if more != [] {
      StaysLost(count, s, more[..|more| - 1]);
      NextLost(count, Run(count, s, more[..|more| - 1]), more[|more| - 1]);
    }
  }

  /** With 42 buffers the end of the data can be lost, with all of them processed: but for its timeout the driver
      never returns. */
  lemma NeverReturns(more: seq<Action>)
    ensures var s := Run(42, Begin(42), Losing(42) + more);
      s.done >= 42 && s.drv.phase != IDLE
  {
    hide Run, Losing, Inv;
    LosingLoses(42);
    var s := Run(42, Begin(42), Losing(42));
    BeginInv(42);
    RunInv(42, Begin(42), Losing(42));
    RunConcat(42, Begin(42), Losing(42), more);
    assert Tally(s.bus.lost, OVER) > 0 by {
      OneTally(NONE.(over := true), OVER);
    }
    StaysLost(42, s, more);
    DoneGrows(42, s, more);
  }

  lemma OneTally(b: Bits, k: Kind)
    ensures Tally([b], k) == One(b.Has(k))
  {
    assert [b] == [] + [b];
    TallySnoc([], b, k);
  }

  lemma {:induction false} DoneGrows(count: nat, s: State, more: seq<Action>)
    ensures s.done <= Run(count, s, more).done
    decreases |more|
  {
    if more != [] {
      hide Process, Resumed, Looked, Raise, Queued;
      DoneGrows(count, s, more[..|more| - 1]);
    }
  }

  // ---------------------------------------------------------------- two releases

  /** The driver handles an event behind the last fill. */
  lemma TakeLast(count: nat, q: nat, countdown: int)
    ensures Next(count, Pumped(count, count, q + 1, countdown), Step) ==
      var t := Pumped(count, count, q, countdown - 1);
      if countdown == 1 then t.(drv := t.drv.(phase := BUSY)) else t
  {
    hide Dmas;
    DmasFirst(q);
  }

  /** Two buffers.  With an interrupt for each release both are counted, though both events are queued before the
      driver handles one. */
  lemma TwoInterrupts()
    ensures var s := Run(2, Begin(2), Prelude(2) + Pumps(2) + [Step, Step]);
      s.done == 2 && s.drv.countdown == 0 && s.drv.phase == BUSY
  {
    hide Run, Next, Prelude, Dmas;
    PreludeEnds(2, 2);
    PumpMore(2, 0, 2, 0, 2, 2);
    RunConcat(2, Begin(2), Prelude(2), Pumps(2));
    RunConcat(2, Begin(2), Prelude(2) + Pumps(2), [Step, Step]);
    RunTwo(2, Pumped(2, 2, 2, 2), Step, Step);
    TakeLast(2, 1, 2);
    TakeLast(2, 0, 1);
  }

  /** Two releases share a bit. */
  lemma ReleaseTwice()
    ensures var t := Next(2, Next(2, Pumped(0, 2, 0, 2), Release), Release);
      t == Pumped(2, 2, 0, 2).(bus := t.bus) && t.bus == Bus(true, None, NONE.(dma := true), [], [], 1)
  {
  }

  lemma HandleShared(b: Bus)
    requires b == Bus(true, None, NONE.(dma := true), [], [], 1)
    ensures Next(2, Next(2, Pumped(2, 2, 0, 2).(bus := b), Interrupt), Step) ==
      Pumped(2, 2, 0, 1).(bus := Bus(true, None, NONE, [], [], 1))
  {
  }

  lemma DataEnds()
    ensures var t := Pumped(2, 2, 0, 1).(bus := Bus(true, None, NONE, [], [], 1));
      var u := Next(2, Next(2, Next(2, t, DataOver), Interrupt), Step);
      u.drv.countdown == 1 && u.drv.phase == IDLE
  {
  }

  /** With one interrupt for both only one is counted; the end of the data then ends the transfer. */
  lemma OneInterrupt()
    ensures var s := Run(2, Begin(2), Prelude(2) + [Release, Release] + [Interrupt, Step]);
      s.done == 2 && s.drv.countdown == 1 && s.bus.merged == 1 && s.drv.phase == SENDING_DATA && s.drv.pc == Waiting
    ensures var before := Prelude(2) + [Release, Release] + [Interrupt, Step];
      var s := Run(2, Begin(2), before + [DataOver, Interrupt] + [Step]);
      s.drv.countdown == 1 && s.drv.phase == IDLE
  {
    hide Run, Next, Prelude;
    var s := Begin(2);
    PreludeEnds(2, 2);
    RunConcat(2, s, Prelude(2), [Release, Release]);
    RunTwo(2, Pumped(0, 2, 0, 2), Release, Release);
    ReleaseTwice();
    var t := Run(2, s, Prelude(2) + [Release, Release]);
    RunConcat(2, s, Prelude(2) + [Release, Release], [Interrupt, Step]);
    RunTwo(2, t, Interrupt, Step);
    HandleShared(t.bus);
    var before := Prelude(2) + [Release, Release] + [Interrupt, Step];
    var u := Run(2, s, before);
    RunConcat(2, s, before, [DataOver, Interrupt]);
    RunTwo(2, u, DataOver, Interrupt);
    RunConcat(2, s, before + [DataOver, Interrupt], [Step]);
    RunOne(2, Run(2, u, [DataOver, Interrupt]), Step);
    DataEnds();
  }

  // ---------------------------------------------------------------- following a schedule

  /** The call of process_events in progress comes to its end. */
  function Finish(count: nat, s: State): State
    decreases Rank(s.drv.pc)
  {
    if s.drv.pc == Waiting || (s.drv.pc.Counting? && s.drv.pc.i >= SDMMC_DMA_DESC_CNT) then s
    else Finish(count, DriverStep(count, s))
  }

  /** `s` is the state when `at` actions of the schedule have been carried out, or, when that is all of them, the
      driver is still on its way to the end of its call. */
  ghost predicate Follows(count: nat, s: State, schedule: seq<Action>, at: nat) {
    && at <= |schedule| && Inv(count, s)
    && if at < |schedule| then s == Run(count, Begin(count), schedule[..at])
       else Finish(count, s) == Finish(count, Run(count, Begin(count), schedule))
  }

  lemma FollowsBegin(count: nat, schedule: seq<Action>)
    ensures Follows(count, Begin(count), schedule, 0)
  {
    hide Inv, Finish;
    BeginInv(count);
  }

  lemma FollowsNext(count: nat, s: State, schedule: seq<Action>, at: nat)
    requires Follows(count, s, schedule, at) && at < |schedule|
    ensures Follows(count, Next(count, s, schedule[at]), schedule, at + 1)
  {
    hide Inv, Finish, Next;
    NextInv(count, s, schedule[at]);
    assert schedule[..at + 1][..at] == schedule[..at];
    assert schedule[..|schedule|] == schedule;
  }

  lemma FollowsStep(count: nat, s: State, schedule: seq<Action>, at: nat)
    requires Follows(count, s, schedule, at) && (at < |schedule| ==> schedule[at] == Step) && s.drv.pc != Waiting
    ensures Follows(count, Next(count, s, Step), schedule, Min(at + 1, |schedule|))
  {
    if at < |schedule| {
      FollowsNext(count, s, schedule, at);
    } else {
      hide Balance, Tokens, Fed, Load, DriverStep;
      NextInv(count, s, Step);
    }
  }

  lemma FollowsEnd(count: nat, s: State, schedule: seq<Action>)
    requires Follows(count, s, schedule, |schedule|) && s.drv.pc == Waiting
    ensures s == Finish(count, Run(count, Begin(count), schedule))
  {
    hide Inv, Run;
  }
}
