/**
 Sending items through an RMT channel of rmt.c: the memory block of the channel is refilled one half
 at a time while the transmitter reads it round and round.
 */
module RmtRefill {
  import opened Bytes

  type Item = nat   // an item as a 32-bit word: two 15-bit durations, each with a level bit above it

  /** The transmitter stops at an item with a duration of 0. */
  predicate Ends(w: Item) {
    w % 0x8000 == 0 || w / 0x10000 % 0x8000 == 0
  }

  const HALF_BLOCK_ITEMS := 32

  /** The position at which half number h of an endless stream of halves starts. */
  function Start(h: nat, sub: nat): nat {
    if h == 0 then 0 else Start(h - 1, sub) + sub
  }

  /** Where in memory it lies. */
  function Offset(h: nat, sub: nat): nat {
    if h % 2 == 0 then 0 else sub
  }

  /** Half a memory block. */
  function Part(mem: seq<Item>, offset: nat, sub: nat): (half: seq<Item>)
    requires offset + sub <= |mem|
    ensures |half| == sub
  {
    mem[offset..offset + sub]
  }

  /** `half` holds the words from position `at` on, as far as there are any. */
  ghost predicate Agrees(half: seq<Item>, words: seq<Item>, at: nat) {
    forall i | 0 <= i < |half| && at + i < |words| :: half[i] == words[at + i]
  }

  ghost predicate Holds(mem: seq<Item>, words: seq<Item>, sub: nat, h: nat)
    requires |mem| == 2 * sub
  {
    Agrees(Part(mem, Offset(h, sub), sub), words, Start(h, sub))
  }

  /** The number of items from position `at` on. */
  function Left(items: seq<Item>, at: nat): nat {
    if |items| > at then |items| - at else 0
  }

  /** A half after `data` has been written at word k of it. */
  function Spliced(half: seq<Item>, k: nat, data: seq<Item>): (now: seq<Item>)
    requires k + |data| <= |half|
    ensures |now| == |half|
  {
    half[..k] + data + half[k + |data|..]
  }

  /** The half with the items from position `at` on and, behind the last of them, an end marker. */
  function Refilled(half: seq<Item>, items: seq<Item>, at: nat): (now: seq<Item>)
    requires half != []
    ensures |now| == |half|
  {
    var rem := Left(items, at);
    if rem >= |half| then items[at..at + |half|]
    else items[|items| - rem..] + [0] + half[rem + 1..]
  }

  lemma RefillWhole(half: seq<Item>, items: seq<Item>, at: nat)
    requires half != [] && Left(items, at) >= |half|
    ensures Spliced(half, 0, items[at..at + |half|]) == Refilled(half, items, at)
  {
  }

  lemma RefillNone(half: seq<Item>, items: seq<Item>, at: nat)
    requires half != [] && Left(items, at) == 0
    ensures Spliced(half, 0, [0]) == Refilled(half, items, at)
  {
    assert items[|items|..] == [];
  }

  lemma RefillRest(half: seq<Item>, items: seq<Item>, at: nat)
    requires 0 < Left(items, at) < |half|
    ensures Spliced(Spliced(half, 0, items[at..]), Left(items, at), [0]) == Refilled(half, items, at)
  {
    var rem := Left(items, at);
    var first := Spliced(half, 0, items[at..]);
    assert first[..rem] == items[at..] && first[rem + 1..] == half[rem + 1..];
  }

  /** It agrees with the words to be sent. */
  lemma RefilledAgrees(half: seq<Item>, items: seq<Item>, at: nat)
    requires half != []
    ensures Agrees(Refilled(half, items, at), items + [0], at)
  {
    var now, words, rem := Refilled(half, items, at), items + [0], Left(items, at);
    forall i | 0 <= i < |now| && at + i < |words| ensures now[i] == words[at + i] {
      if i < rem {
        assert rem < |half| ==> now[i] == items[|items| - rem..][i];
      } else {
        assert i == rem && at + i == |items|;
      }
    }
  }

  /** The effect on the two halves of writing into one of them. */
  lemma PartsAfter(was: seq<Item>, now: seq<Item>, offset: nat, sub: nat, k: nat, data: seq<Item>)
    requires |was| == |now| == 2 * sub && offset in {0, sub} && k + |data| <= sub
    requires now == was[..offset + k] + data + was[offset + k + |data|..]
    ensures Part(now, offset, sub) == Spliced(Part(was, offset, sub), k, data)
    ensures Part(now, sub - offset, sub) == Part(was, sub - offset, sub)
  {
    hide Spliced;
    var at := offset + k;
    assert forall i | 0 <= i < |was| :: now[i] == if at <= i < at + |data| then data[i - at] else was[i];
    SplicedAt(Part(was, offset, sub), k, data);
    assert Part(now, offset, sub) == Spliced(Part(was, offset, sub), k, data);
    assert Part(now, sub - offset, sub) == Part(was, sub - offset, sub);
  }

  lemma SplicedAt(half: seq<Item>, k: nat, data: seq<Item>)
    requires k + |data| <= |half|
    ensures forall i | 0 <= i < |half| ::
      Spliced(half, k, data)[i] == if k <= i < k + |data| then data[i - k] else half[i]
  {
  }

  /** Beyond the end marker nothing is asked of memory. */
  lemma NothingLeft(mem: seq<Item>, items: seq<Item>, sub: nat, h: nat)
    requires |mem| == 2 * sub && |items| < 2 * sub
    ensures Holds(mem, items + [0], sub, h + 2)
  {
    assert Start(h + 2, sub) == Start(h, sub) + 2 * sub;
  }

  lemma HalvesAlternate(h: nat, sub: nat)
    ensures Start(h + 3, sub) == Start(h + 2, sub) + sub
    ensures Offset(h, sub) in {0, sub} && Offset(h + 1, sub) == sub - Offset(h, sub)
    ensures Offset(h + 2, sub) == Offset(h, sub)
  {
  }

  lemma StartNext(h: nat, sub: nat)
    ensures Start(h + 1, sub) == Start(h, sub) + sub
  {
  }

  // ---------------------------------------------------------------- transmission as a machine

  /** The halves that the transmitter has read, its place in the next one, the words that it has seen, and the
      number of threshold interrupts that have been handled. */
  datatype Progress = Progress(rounds: nat, index: nat, out: seq<Item>, served: nat)

  const BEGIN := Progress(0, 0, [], 0)

  datatype Action = Threshold | Read

  predicate Stopped(out: seq<Item>) {
    out != [] && Ends(out[|out| - 1])
  }

  /** A threshold interrupt is pending; or the transmitter has not stopped, and need not wait for the driver. */
  predicate Possible(p: Progress, a: Action) {
    match a
    case Threshold => p.served < p.rounds
    case Read => !Stopped(p.out) && p.rounds < p.served + 2
  }

  /** The transmitter sees the items in order, then an end marker. */
  function Next(items: seq<Item>, sub: nat, p: Progress, a: Action): Progress {
    if !Possible(p, a) then p
    else match a
      case Threshold => p.(served := p.served + 1)
      case Read =>
        if |p.out| > |items| then p
        else
          var q := p.(out := p.out + [(items + [0])[|p.out|]]);
          if p.index + 1 == sub then q.(rounds := p.rounds + 1, index := 0) else q.(index := p.index + 1)
  }

  function Run(items: seq<Item>, sub: nat, p: Progress, schedule: seq<Action>): Progress {
    if schedule == [] then p
    else Next(items, sub, Run(items, sub, p, schedule[..|schedule| - 1]), schedule[|schedule| - 1])
  }

  ghost predicate InStep(items: seq<Item>, sub: nat, p: Progress) {
    var words := items + [0];
    && p.index < sub && p.served <= p.rounds <= p.served + 2
    && Start(p.rounds, sub) + p.index <= |words| && p.out == words[..Start(p.rounds, sub) + p.index]
    && forall i | 0 <= i < |p.out| - 1 :: !Ends(words[i])
  }

  lemma ZeroEnds()
    ensures Ends(0)
  {
  }

  lemma BeginInStep(items: seq<Item>, sub: nat)
    requires sub > 0
    ensures InStep(items, sub, BEGIN)
  {
  }

  /** While the transmitter has not stopped there is a word for it. */
  lemma MoreWords(items: seq<Item>, sub: nat, p: Progress)
    requires InStep(items, sub, p) && !Stopped(p.out)
    ensures |p.out| <= |items|
  {
    ZeroEnds();
    assert p.out != [] ==> p.out[|p.out| - 1] == (items + [0])[|p.out| - 1];
  }

  lemma NextInStep(items: seq<Item>, sub: nat, p: Progress, a: Action)
    requires InStep(items, sub, p)
    ensures InStep(items, sub, Next(items, sub, p, a))
  {
    hide Ends, Start;
    if a.Read? && Possible(p, a) {
      MoreWords(items, sub, p);
      StartNext(p.rounds, sub);
      var words, n := items + [0], |p.out|;
      assert words[..n] + [words[n]] == words[..n + 1];
      assert n > 0 ==> p.out[n - 1] == words[n - 1];
    }
  }

  lemma {:induction false} RunInStep(items: seq<Item>, sub: nat, schedule: seq<Action>)
    requires sub > 0
    ensures InStep(items, sub, Run(items, sub, BEGIN, schedule))
    decreases |schedule|
  {
    hide InStep, Next;
    BeginInStep(items, sub);
    if schedule != [] {
      RunInStep(items, sub, schedule[..|schedule| - 1]);
      NextInStep(items, sub, Run(items, sub, BEGIN, schedule[..|schedule| - 1]), schedule[|schedule| - 1]);
    }
  }

  /** The place of the first word with a zero duration: an item's, or that of the end marker. */
  function EndAt(items: seq<Item>): (n: nat)
    ensures n <= |items| && (n < |items| ==> Ends(items[n])) && forall i | 0 <= i < n :: !Ends(items[i])
  {
    if items == [] then 0
    else
      var front := items[..|items| - 1];
      var n := EndAt(front);
      assert forall i | 0 <= i < |front| :: front[i] == items[i];
      if n < |front| || Ends(items[|front|]) then n else |items|
  }

  /** Under every schedule the transmitter sees the items in order, each once, and it stops at the first one
      with a zero duration, or at the end marker; if no item has one, it has then seen all. */
  lemma SeesItems(items: seq<Item>, sub: nat, schedule: seq<Action>)
    requires sub > 0
    ensures var out := Run(items, sub, BEGIN, schedule).out;
      && out <= (items + [0])[..EndAt(items) + 1]
      && (Stopped(out) <==> out == (items + [0])[..EndAt(items) + 1])
      && (Stopped(out) && (forall i | 0 <= i < |items| :: !Ends(items[i])) ==> out == items + [0])
  {
    hide Ends, InStep, Run, EndAt, Stopped;
    RunInStep(items, sub, schedule);
    var p, words, n := Run(items, sub, BEGIN, schedule), items + [0], EndAt(items);
    SeenSoFar(items, sub, p);
    StoppedAt(items, p.out);
    assert words[..n + 1][..|p.out|] == words[..|p.out|];
    assert words[..|words|] == words;
  }

  lemma SeenSoFar(items: seq<Item>, sub: nat, p: Progress)
    requires InStep(items, sub, p)
    ensures |p.out| <= |items| + 1 && p.out == (items + [0])[..|p.out|]
    ensures forall i | 0 <= i < |p.out| - 1 :: !Ends(items[i])
    ensures p.out != [] ==> p.out[|p.out| - 1] == if |p.out| <= |items| then items[|p.out| - 1] else 0
  {
    hide Ends, Start;
    assert forall i | 0 <= i < |items| :: (items + [0])[i] == items[i];
  }

  lemma StoppedAt(items: seq<Item>, out: seq<Item>)
    requires |out| <= |items| + 1
    requires forall i | 0 <= i < |out| - 1 :: !Ends(items[i])
    requires out != [] ==> out[|out| - 1] == if |out| <= |items| then items[|out| - 1] else 0
    ensures |out| <= EndAt(items) + 1
    ensures Stopped(out) <==> |out| == EndAt(items) + 1
  {
    hide Ends, EndAt;
    ZeroEnds();
  }

  lemma ReadPlace(items: seq<Item>, sub: nat, p: Progress)
    requires InStep(items, sub, p) && !Stopped(p.out)
    ensures p.index < sub && |p.out| <= |items| && Offset(p.rounds, sub) + p.index < 2 * sub
    ensures p.served <= p.rounds
  {
    MoreWords(items, sub, p);
  }

  /** The next word that the transmitter reads is the next one wanted. */
  lemma ReadWanted(mem: seq<Item>, items: seq<Item>, sub: nat, p: Progress)
    requires |mem| == 2 * sub && InStep(items, sub, p) && !Stopped(p.out)
    requires Holds(mem, items + [0], sub, p.rounds)
    ensures p.index < sub && |p.out| <= |items|
    ensures mem[Offset(p.rounds, sub) + p.index] == (items + [0])[|p.out|]
  {
    hide Ends, Start;
    MoreWords(items, sub, p);
    assert mem[Offset(p.rounds, sub) + p.index] == Part(mem, Offset(p.rounds, sub), sub)[p.index];
  }

  function Measure(items: seq<Item>, p: Progress): int {
    2 * (|items| + 1 - |p.out|) + p.rounds - p.served
  }

  /** Every step brings the end nearer, and one is possible until the transmitter has stopped and all threshold
      interrupts have been handled. */
  lemma StepLowers(items: seq<Item>, sub: nat, p: Progress, a: Action)
    requires InStep(items, sub, p)
    ensures Measure(items, p) >= 0
    ensures var q := Next(items, sub, p, a);
      if Possible(p, a) then Measure(items, q) < Measure(items, p) else q == p
    ensures !Possible(p, Threshold) && !Possible(p, Read) <==> Stopped(p.out) && p.served == p.rounds
  {
    hide Ends, Start;
    if a.Read? && Possible(p, a) {
      MoreWords(items, sub, p);
    }
  }

  /** How many steps of the schedule are possible when they are due. */
  function Steps(items: seq<Item>, sub: nat, p: Progress, schedule: seq<Action>): nat {
    if schedule == [] then 0
    else
      var front := schedule[..|schedule| - 1];
      var last := Possible(Run(items, sub, p, front), schedule[|schedule| - 1]);
      Steps(items, sub, p, front) + if last then 1 else 0
  }

  /** So a transmission takes a bounded number of steps, however they interleave. */
  lemma {:induction false} StepsBounded(items: seq<Item>, sub: nat, schedule: seq<Action>)
    requires sub > 0
    ensures Steps(items, sub, BEGIN, schedule) + Measure(items, Run(items, sub, BEGIN, schedule)) <= 2 * (|items| + 1)
    ensures Steps(items, sub, BEGIN, schedule) <= 2 * (|items| + 1)
    decreases |schedule|
  {
    hide Next, Possible, InStep, Measure;
    BeginMeasure(items);
    RunInStep(items, sub, schedule);
    if schedule != [] {
      var front := schedule[..|schedule| - 1];
      StepsBounded(items, sub, front);
      RunInStep(items, sub, front);
      StepLowers(items, sub, Run(items, sub, BEGIN, front), schedule[|schedule| - 1]);
    }
    StepLowers(items, sub, Run(items, sub, BEGIN, schedule), Read);
  }

  lemma BeginMeasure(items: seq<Item>)
    ensures Measure(items, BEGIN) == 2 * (|items| + 1)
  {
  }

  /** Once the interrupt and the transmitter have each had as many turns as there are words, one after the
      other, the transmitter has stopped. */
  lemma {:induction false} TurnsEnd(items: seq<Item>, sub: nat, p: Progress, n: nat)
    requires InStep(items, sub, p) && |p.out| + n > |items|
    ensures InStep(items, sub, Turns(items, sub, p, n)) && Stopped(Turns(items, sub, p, n).out)
    decreases n
  {
    hide Ends, Start;
    if Stopped(p.out) {
      StaysStopped(items, sub, p, n);
    } else {
      MoreWords(items, sub, p);
      var q := Next(items, sub, p, Threshold);
      var r := Next(items, sub, q, Read);
      NextInStep(items, sub, p, Threshold);
      NextInStep(items, sub, q, Read);
      assert |r.out| == |p.out| + 1;
      TurnsEnd(items, sub, r, n - 1);
    }
  }

  function Turns(items: seq<Item>, sub: nat, p: Progress, n: nat): Progress
    decreases n
  {
    if n == 0 then p
    else Turns(items, sub, Next(items, sub, Next(items, sub, p, Threshold), Read), n - 1)
  }

  lemma {:induction false} StaysStopped(items: seq<Item>, sub: nat, p: Progress, n: nat)
    requires InStep(items, sub, p) && Stopped(p.out)
    ensures InStep(items, sub, Turns(items, sub, p, n)) && Stopped(Turns(items, sub, p, n).out)
    decreases n
  {
    hide Ends, Start;
    if n > 0 {
      var q := Next(items, sub, p, Threshold);
      NextInStep(items, sub, p, Threshold);
      StaysStopped(items, sub, Next(items, sub, q, Read), n - 1);
    }
  }

  // ---------------------------------------------------------------- the channel

  class Channel {
    const sub: nat              // half the items of the block
    const mem: array<Item>

    // The driver: tx_data is set, and points to item `txNext`.
    var txData: bool
    var txNext: nat
    var txLenRem: nat
    var txOffset: nat

    var progress: Progress

    var items: seq<Item>        // the caller's buffer

    constructor (blocks: nat)
      requires blocks > 0
      ensures Ready() && sub == HALF_BLOCK_ITEMS * blocks
    {
      sub := HALF_BLOCK_ITEMS * blocks;
      mem := new Item[2 * (HALF_BLOCK_ITEMS * blocks)];
      txData, txNext, txLenRem, txOffset := false, 0, 0, 0;
      progress, items := BEGIN, [];
    }

    ghost predicate Ready()
      reads this
    {
      sub > 0 && mem.Length == 2 * sub && !txData && progress == BEGIN
    }

    /** A transmission is going on: memory holds the two halves that the transmitter may read, and the driver
        knows what comes next. */
    ghost predicate Sending()
      reads this, mem
    {
      && sub > 0 && mem.Length == 2 * sub && InStep(items, sub, progress)
      && Holds(mem[..], items + [0], sub, progress.served) && Holds(mem[..], items + [0], sub, progress.served + 1)
      && Follows(progress.served)
    }

    /** The driver's view before the threshold interrupt with number `s`. */
    ghost predicate Follows(s: nat)
      reads this
    {
      if txData then
        txOffset == Offset(s, sub) && txLenRem == Left(items, Start(s + 2, sub)) && txNext == |items| - txLenRem
      else |items| < 2 * sub
    }

    /** rmt_write_items; it refuses an empty list. */
    method WriteItems(txItems: seq<Item>) returns (ok: bool)
      requires Ready()
      modifies this, mem
      ensures ok <==> txItems != []
      ensures if ok then Sending() && progress == BEGIN && items == txItems else Ready()
    {
      if |txItems| == 0 {
        return false;
      }
      Begin(txItems);
      return true;
    }

    method Begin(txItems: seq<Item>)
      requires Ready() && txItems != []
      modifies this, mem
      ensures Sending() && progress == BEGIN && items == txItems
    {
      hide Agrees, Part, InStep;
      items := txItems;
      if |txItems| >= 2 * sub {
        CopyIn(mem, 0, txItems[..2 * sub]);
        assert mem[..] == txItems[..2 * sub];
        txData, txNext, txLenRem, txOffset := true, 2 * sub, |txItems| - 2 * sub, 0;
      } else {
        CopyIn(mem, 0, txItems);
        mem[|txItems|] := 0;
        assert mem[..][..|txItems|] == txItems;
        txLenRem := 0;
      }
      BeginInStep(txItems, sub);
      FilledHolds(mem[..], txItems, sub);
    }

    static lemma FilledHolds(mem: seq<Item>, items: seq<Item>, sub: nat)
      requires |mem| == 2 * sub
      requires if |items| >= 2 * sub then mem == items[..2 * sub] else mem[..|items|] == items && mem[|items|] == 0
      ensures Holds(mem, items + [0], sub, 0) && Holds(mem, items + [0], sub, 1)
    {
      var words := items + [0];
      if |items| < 2 * sub {
        assert forall i | 0 <= i < |items| :: mem[..|items|][i] == items[i];
      }
      assert forall i | 0 <= i < |mem| && i < |words| :: mem[i] == words[i];
      assert Start(1, sub) == sub;
    }

    /** The threshold branch of rmt_driver_isr_default. */
    method ThresholdIsr()
      requires Sending() && Possible(progress, Threshold)
      modifies this, mem
      ensures Sending() && items == old(items) && progress == Next(items, sub, old(progress), Threshold)
    {
      hide Agrees, Part, Left, Start, Offset, InStep;
      HalvesAlternate(progress.served, sub);
      NextInStep(items, sub, progress, Threshold);
      if txData {
        WriteHalf(Start(progress.served + 2, sub));
      } else {
        NothingLeft(mem[..], items, sub, progress.served);
      }
      progress := progress.(served := progress.served + 1);
    }

    /** Writes the half at tx_offset with the words from position `at` on. */
    method WriteHalf(ghost at: nat)
      requires mem.Length == 2 * sub && sub > 0 && txOffset in {0, sub}
      requires txLenRem == Left(items, at) && txNext == |items| - txLenRem
      modifies mem, `txNext, `txLenRem, `txOffset
      ensures Agrees(Part(mem[..], old(txOffset), sub), items + [0], at)
      ensures txOffset == sub - old(txOffset)
      ensures Part(mem[..], txOffset, sub) == old(Part(mem[..], sub - txOffset, sub))
      ensures txLenRem == Left(items, at + sub) && txNext == |items| - txLenRem
    {
      hide Agrees, Part, Refilled, Spliced;
      ghost var half := Part(mem[..], txOffset, sub);
      RefilledAgrees(half, items, at);
      if txLenRem >= sub {
        RefillWhole(half, items, at);
        FillMemory(items[txNext..txNext + sub], 0);
        txNext := txNext + sub;
        txLenRem := txLenRem - sub;
      } else if txLenRem == 0 {
        RefillNone(half, items, at);
        FillMemory([0], 0);
      } else {
        RefillRest(half, items, at);
        FillRest(at);
      }
      txOffset := if txOffset == 0 then sub else 0;
    }

    /** The items that are left, and the end marker behind them. */
    method FillRest(ghost at: nat)
      requires mem.Length == 2 * sub && txOffset in {0, sub}
      requires 0 < txLenRem == Left(items, at) < sub && txNext == |items| - txLenRem
      modifies mem, `txNext, `txLenRem
      ensures Part(mem[..], txOffset, sub) ==
        Spliced(Spliced(old(Part(mem[..], txOffset, sub)), 0, items[at..]), Left(items, at), [0])
      ensures Part(mem[..], sub - txOffset, sub) == old(Part(mem[..], sub - txOffset, sub))
      ensures txLenRem == 0 && txNext == |items|
    {
      hide Part, Spliced;
      assert items[txNext..txNext + txLenRem] == items[at..];
      FillMemory(items[txNext..txNext + txLenRem], 0);
      FillMemory([0], txLenRem);
      txNext := txNext + txLenRem;
      txLenRem := 0;
    }

    /** rmt_fill_memory, from word `k` of the half at tx_offset on. */
    method FillMemory(data: seq<Item>, k: nat)
      requires mem.Length == 2 * sub && txOffset in {0, sub} && k + |data| <= sub
      modifies mem
      ensures Part(mem[..], txOffset, sub) == Spliced(old(Part(mem[..], txOffset, sub)), k, data)
      ensures Part(mem[..], sub - txOffset, sub) == old(Part(mem[..], sub - txOffset, sub))
    {
      hide Part, Spliced;
      ghost var was := mem[..];
      CopyIn(mem, txOffset + k, data);
      PartsAfter(was, mem[..], txOffset, sub, k, data);
    }

    /** The transmitter reads the next word of its memory. */
    method ReadWord()
      requires Sending() && Possible(progress, Read)
      modifies `progress
      ensures Sending() && progress == Next(items, sub, old(progress), Read)
    {
      hide Agrees, Part, Start, Left, InStep, Stopped;
      var p := progress;
      ReadPlace(items, sub, p);
      ReadWanted(mem[..], items, sub, p);
      NextInStep(items, sub, p, Read);
      var w := mem[Offset(p.rounds, sub) + p.index];
      progress := progress.(out := progress.out + [w]);
      if progress.index + 1 == sub {
        progress := progress.(rounds := progress.rounds + 1, index := 0);
      } else {
        progress := progress.(index := progress.index + 1);
      }
    }

    /** The TX END branch of rmt_driver_isr_default. */
    method TxEndIsr()
      requires Sending() && Stopped(progress.out)
      modifies this
      ensures Ready()
    {
      txData, txLenRem, txOffset := false, 0, 0;
      progress := BEGIN;
    }

    /** However the threshold interrupts and the reading interleave, the channel is that machine: what the
        transmitter reads from its memory are the items in order. */
    method Transmit(txItems: seq<Item>, schedule: seq<Action>) returns (ok: bool)
      requires Ready()
      modifies this, mem
      ensures ok <==> txItems != []
      ensures ok ==> Sending() && items == txItems && progress == Run(txItems, sub, BEGIN, schedule)
    {
      hide Sending, Next, Possible;
      ok := WriteItems(txItems);
      if !ok {
        return;
      }
      for i := 0 to |schedule|
        invariant Sending() && items == txItems && progress == Run(txItems, sub, BEGIN, schedule[..i])
      {
        if Possible(progress, schedule[i]) {
          match schedule[i] {
            case Threshold => ThresholdIsr();
            case Read => ReadWord();
          }
        } else {
          NotPossible(txItems, sub, progress, schedule[i]);
        }
        assert schedule[..i + 1][..i] == schedule[..i];
      }
      assert schedule[..|schedule|] == schedule;
    }
  }

  lemma NotPossible(items: seq<Item>, sub: nat, p: Progress, a: Action)
    requires !Possible(p, a)
    ensures Next(items, sub, p, a) == p
  {
  }
}
