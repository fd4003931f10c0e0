/**
 The DMA descriptor ring of sdmmc_transaction.c: a transfer is handed to the DMA engine in buffers of
 up to 4096 bytes through four descriptors, which the driver fills again as the engine releases them.
 */
module SdmmcDma {
  import opened Bytes
  import opened SdmmcEvents

  const SDMMC_DMA_MAX_BUF_LEN := 4096

  datatype Desc = Desc(owned: bool, first: bool, last: bool, ptr: nat, size: nat, next: Option<nat>)

  /** A buffer handed to the engine. */
  datatype Buffer = Buffer(ptr: nat, size: nat, last: bool)

  datatype Err = OK | INVALID_SIZE | INVALID_ARG

  function BufferOf(d: Desc): Buffer {
    Buffer(d.ptr, d.size, d.last)
  }

  /** The bytes of a transfer of `len` bytes that are left after its first k buffers. */
  function Left(len: nat, k: nat): nat {
    if len > k * SDMMC_DMA_MAX_BUF_LEN then len - k * SDMMC_DMA_MAX_BUF_LEN else 0
  }

  /** The number of buffers of a transfer. */
  function BufferCount(len: nat): nat {
    (len + SDMMC_DMA_MAX_BUF_LEN - 1) / SDMMC_DMA_MAX_BUF_LEN
  }

  /** Up to a word. */
  function Rounded(size: nat): nat {
    (size + 3) / 4 * 4
  }

  lemma RoundedIs(size: nat)
    ensures size % 4 == 0 ==> Rounded(size) == size
    ensures 0 < size < 4 ==> Rounded(size) == 4
  {
  }

  /** Buffer number k of a transfer; the engine moves whole words, so the one buffer of a transfer of less
      than a word is rounded up. */
  function Chunk(base: nat, len: nat, k: nat): Buffer {
    Buffer(base + k * SDMMC_DMA_MAX_BUF_LEN, Rounded(Min(Left(len, k), SDMMC_DMA_MAX_BUF_LEN)), Left(len, k + 1) == 0)
  }

  lemma LeftUntil(len: nat, k: nat)
    ensures Left(len, k) > 0 <==> k < BufferCount(len)
  {
  }

  lemma LeftNext(len: nat, k: nat)
    requires len < 4 || len % 4 == 0
    ensures Left(len, 0) == len
    ensures Left(len, k + 1) == Left(len, k) - Min(Left(len, k), SDMMC_DMA_MAX_BUF_LEN)
    ensures Left(len, k + 1) > 0 ==> Left(len, k) > SDMMC_DMA_MAX_BUF_LEN
    ensures Left(len, k) > 0 ==> Left(len, k) == len - k * SDMMC_DMA_MAX_BUF_LEN
    ensures Left(len, k) % 4 == 0 || (k == 0 && len < 4)
  {
    if len % 4 == 0 {
      WholeWords(len / 4, k);
    }
  }

  lemma WholeWords(words: nat, k: nat)
    ensures Left(4 * words, k) % 4 == 0
  {
    assert 4 * words - k * SDMMC_DMA_MAX_BUF_LEN == 4 * (words - 1024 * k);
  }

  /** The buffers follow one another without gap or overlap from `base` on, and end where the transfer
      ends, up to a word; exactly the final one is marked as last. */
  lemma ChunksTile(base: nat, len: nat, k: nat)
    requires len < 4 || len % 4 == 0
    requires k < BufferCount(len)
    ensures Chunk(base, len, 0).ptr == base
    ensures var c := Chunk(base, len, k);
      && 0 < c.size <= SDMMC_DMA_MAX_BUF_LEN
      && (c.last <==> k + 1 == BufferCount(len))
      && c.ptr + c.size == if c.last then base + Rounded(len) else Chunk(base, len, k + 1).ptr
  {
    hide BufferCount, Left, Rounded;
    LeftUntil(len, k);
    LeftUntil(len, k + 1);
    LeftNext(len, k);
    RoundedIs(Min(Left(len, k), SDMMC_DMA_MAX_BUF_LEN));
    RoundedIs(len);
    if Left(len, k + 1) == 0 && len >= 4 {
      assert Rounded(len) == len && Rounded(Left(len, k)) == Left(len, k);
    }
  }

  /** The buffers handed over are the first ones of the transfer. */
  ghost predicate HandedOver(handed: seq<Buffer>, base: nat, len: nat) {
    forall k | 0 <= k < |handed| :: handed[k] == Chunk(base, len, k)
  }

  /** The driver has come so far in dividing the transfer. */
  ghost predicate Progress(handed: seq<Buffer>, base: nat, len: nat, ptr: nat, sizeRemaining: nat) {
    && HandedOver(handed, base, len) && |handed| <= BufferCount(len)
    && sizeRemaining == Left(len, |handed|) && ptr == base + (len - sizeRemaining)
  }

  /** The next buffer that the driver cuts off is the next one of the transfer. */
  lemma ProgressNext(handed: seq<Buffer>, base: nat, len: nat, ptr: nat, sizeRemaining: nat, size: nat)
    requires (len < 4 || len % 4 == 0) && Progress(handed, base, len, ptr, sizeRemaining) && sizeRemaining > 0
    requires size == if sizeRemaining < SDMMC_DMA_MAX_BUF_LEN then sizeRemaining else SDMMC_DMA_MAX_BUF_LEN
    ensures size < 4 || size % 4 == 0
    ensures var b := Buffer(ptr, Rounded(size), size == sizeRemaining);
      b == Chunk(base, len, |handed|) && Progress(handed + [b], base, len, ptr + size, sizeRemaining - size)
  {
    hide BufferCount, Left, Rounded, HandedOver;
    LeftUntil(len, |handed|);
    LeftNext(len, |handed|);
    HandedOneMore(handed, base, len);
  }

  lemma HandedOneMore(handed: seq<Buffer>, base: nat, len: nat)
    requires HandedOver(handed, base, len)
    ensures HandedOver(handed + [Chunk(base, len, |handed|)], base, len)
  {
    hide Chunk;
  }

  // ---------------------------------------------------------------- the ring

  /** The descriptor of buffer number k. */
  function Slot(k: nat): (i: nat)
    ensures i < SDMMC_DMA_DESC_CNT
  {
    k % SDMMC_DMA_DESC_CNT
  }

  lemma SlotsDiffer(a: nat, b: nat)
    requires a < b < a + SDMMC_DMA_DESC_CNT
    ensures Slot(a) != Slot(b)
  {
  }

  lemma SlotsRepeat(a: nat, b: nat)
    ensures Slot(Slot(a) + b) == Slot(a + b) && Slot(a + SDMMC_DMA_DESC_CNT) == Slot(a)
  {
    var i := a % 4 + b;
    assert a + b == i + 4 * (a / 4);
    assert (i + 4 * (a / 4)) % 4 == i % 4;
  }

  /** The descriptors hold the latest buffers that have been handed over, in ring order, and the engine
      owns those that it has not processed. */
  ghost predicate Ring(desc: seq<Desc>, handed: seq<Buffer>, done: nat) {
    && |desc| == SDMMC_DMA_DESC_CNT
    && done <= |handed| <= done + SDMMC_DMA_DESC_CNT
    && (forall k | done <= k < done + SDMMC_DMA_DESC_CNT :: desc[Slot(k)].owned == (k < |handed|))
    && (forall k: nat | |handed| - SDMMC_DMA_DESC_CNT <= k < |handed| :: Holds(desc[Slot(k)], handed, k))
  }

  ghost predicate Holds(d: Desc, handed: seq<Buffer>, k: nat)
    requires k < |handed|
  {
    BufferOf(d) == handed[k] && d.next == if handed[k].last then None else Some(Slot(k + 1))
  }

  lemma HandOver(desc: seq<Desc>, handed: seq<Buffer>, done: nat, d: Desc)
    requires Ring(desc, handed, done) && |handed| < done + SDMMC_DMA_DESC_CNT
    requires d.owned && d.next == if d.last then None else Some(Slot(|handed| + 1))
    ensures Ring(desc[Slot(|handed|) := d], handed + [BufferOf(d)], done)
  {
    hide Slot, Holds;
    var n := |handed|;
    var now, more := desc[Slot(n) := d], handed + [BufferOf(d)];
    forall k: nat | n + 1 - SDMMC_DMA_DESC_CNT <= k < done + SDMMC_DMA_DESC_CNT
      ensures now[Slot(k)] == if k == n then d else desc[Slot(k)]
    {
      if k < n {
        SlotsDiffer(k, n);
      } else if n < k {
        SlotsDiffer(n, k);
      }
    }
    HoldsNew(handed, d);
    forall k: nat | n + 1 - SDMMC_DMA_DESC_CNT <= k < n ensures Holds(now[Slot(k)], more, k) {
      HoldsMore(desc[Slot(k)], handed, k, BufferOf(d));
    }
  }

  lemma HoldsNew(handed: seq<Buffer>, d: Desc)
    requires d.next == if d.last then None else Some(Slot(|handed| + 1))
    ensures Holds(d, handed + [BufferOf(d)], |handed|)
  {
  }

  lemma HoldsMore(d: Desc, handed: seq<Buffer>, k: nat, b: Buffer)
    requires k < |handed| && Holds(d, handed, k)
    ensures Holds(d, handed + [b], k)
  {
  }

  lemma ReleaseKeeps(desc: seq<Desc>, handed: seq<Buffer>, done: nat)
    requires Ring(desc, handed, done) && done < |handed|
    ensures var i := Slot(done);
      desc[i].owned && Holds(desc[i], handed, done) && Ring(desc[i := desc[i].(owned := false)], handed, done + 1)
  {
    hide Slot;
    var i := Slot(done);
    var now := desc[i := desc[i].(owned := false)];
    assert desc[Slot(done)].owned;
    forall k | done < k < done + SDMMC_DMA_DESC_CNT ensures now[Slot(k)] == desc[Slot(k)] {
      SlotsDiffer(done, k);
    }
    SlotsRepeat(done, 0);
  }

  lemma NextIsFree(desc: seq<Desc>, handed: seq<Buffer>, done: nat)
    requires Ring(desc, handed, done) && |handed| < done + SDMMC_DMA_DESC_CNT
    ensures |desc| == SDMMC_DMA_DESC_CNT && !desc[Slot(|handed|)].owned
  {
    hide Slot, Holds;
  }

  /** Descriptor number i from the next one on: free ones first, then those that the engine owns. */
  lemma FreeOrOwned(desc: seq<Desc>, handed: seq<Buffer>, done: nat, i: nat)
    requires Ring(desc, handed, done) && |handed| >= SDMMC_DMA_DESC_CNT && i < SDMMC_DMA_DESC_CNT
    ensures var k := |handed| + i - SDMMC_DMA_DESC_CNT;
      var d := desc[Slot(Slot(|handed|) + i)];
      d.owned == (k >= done) && Holds(d, handed, k)
  {
    hide Slot, Holds;
    var k := |handed| + i - SDMMC_DMA_DESC_CNT;
    SlotsRepeat(|handed|, i);
    SlotsRepeat(k, 0);
  }

  lemma OwnedIsNext(desc: seq<Desc>, handed: seq<Buffer>, done: nat)
    requires Ring(desc, handed, done)
    ensures |desc| == SDMMC_DMA_DESC_CNT && (desc[Slot(done)].owned <==> done < |handed|)
  {
    hide Slot, Holds;
    assert desc[Slot(done)].owned == (done < |handed|);
  }

  // ---------------------------------------------------------------- driver, interrupt handler and engine

  class DmaRing {
    const base: nat
    const len: nat

    // s_dma_desc and s_cur_transfer; desc_remaining is the countdown of `drv`
    const desc: array<Desc>
    var ptr: nat
    var sizeRemaining: nat
    var nextDesc: nat
    var drv: Driver

    // The engine: the descriptor it processes next, the buffers it has processed, and whether it is suspended.
    var current: Option<nat>
    var processed: seq<Buffer>
    var suspended: bool

    /** The status bits and the event queue. */
    var bus: Bus

    /** The buffers handed to the engine. */
    ghost var handed: seq<Buffer>

    ghost function Now(): State
      reads this
    {
      State(|processed|, |handed|, suspended, bus, drv)
    }

    function Total(): nat {
      BufferCount(len)
    }

    ghost predicate Valid()
      reads this, desc
    {
      && (len < 4 || len % 4 == 0)
      && Ring(desc[..], handed, |processed|)
      && processed <= handed
      && Progress(handed, base, len, ptr, sizeRemaining)
      && nextDesc == Slot(|handed|)
      && current == (if len > 0 && |processed| == Total() then None else Some(Slot(|processed|)))
    }

    /** So much of the schedule has been carried out. */
    ghost predicate At(schedule: seq<Action>, at: nat)
      reads this
    {
      Follows(Total(), Now(), schedule, at)
    }

    constructor (base: nat, len: nat)
      requires len < 4 || len % 4 == 0
      ensures Valid() && Now() == Begin(Total()) && this.base == base && this.len == len && fresh(desc)
    {
      this.base, this.len := base, len;
      desc := new Desc[SDMMC_DMA_DESC_CNT](i => Desc(false, i == 0, false, 0, 0, None));
      ptr, sizeRemaining, nextDesc := base, len, 0;
      var total := (len + SDMMC_DMA_MAX_BUF_LEN - 1) / SDMMC_DMA_MAX_BUF_LEN;
      drv := Begin(total).drv;
      bus := Begin(total).bus;
      current, processed, suspended, handed := Some(0), [], true, [];
      new;
      LeftUntil(len, 0);
    }

    // -------------------------------------------------------------- engine, controller, interrupt handler

    /** The engine has done with its current descriptor. */
    method EngineRelease()
      requires Valid() && Possible(Total(), Now(), Release)
      modifies this, desc
      ensures Valid() && Now() == Next(Total(), old(Now()), Release)
      ensures processed == old(processed) + [Chunk(base, len, |old(processed)|)]
      ensures handed == old(handed) && sizeRemaining == old(sizeRemaining) && nextDesc == old(nextDesc)
    {
      hide Ring, Slot, BufferCount, Chunk, Left;
      CurrentIs();
      var i := current.value;
      ghost var was := desc[..];
      var d := desc[i];
      ReleaseKeeps(was, handed, |processed|);
      FinalIsLast(handed, base, len, |processed|);
      processed := processed + [BufferOf(d)];
      desc[i] := d.(owned := false);
      current := d.next;
      bus := Raise(bus, NONE.(dma := true));
      assert desc[..] == was[i := d.(owned := false)];
    }

    /** What the engine finds under its pointer. */
    lemma CurrentIs()
      requires Valid()
      ensures current.Some? ==> current.value == Slot(|processed|) < desc.Length
      ensures current.Some? ==> (desc[current.value].owned <==> |processed| < |handed|)
      ensures current.None? <==> len > 0 && |processed| == Total()
      ensures |processed| <= |handed| <= Total() && (Total() == 0 <==> len == 0)
    {
      hide Slot, Chunk, Left;
      OwnedIsNext(desc[..], handed, |processed|);
      HandedAtMost(handed, base, len, ptr, sizeRemaining);
      RingBounds(desc[..], handed, |processed|);
    }

    /** An action of the engine, the controller or the interrupt handler, if it is possible. */
    method Other(a: Action)
      requires Valid() && a != Step
      modifies this, desc
      ensures Valid() && Now() == Next(Total(), old(Now()), a)
      ensures drv == old(drv) && handed == old(handed) && sizeRemaining == old(sizeRemaining) && nextDesc == old(nextDesc)
      ensures |old(processed)| <= |processed|
    {
      hide Ring, Slot, BufferCount, Chunk, Left, Progress;
      CurrentIs();
      match a {
        case Release =>
          if !suspended && current.Some? && desc[current.value].owned {
            EngineRelease();
          }
        case Suspend =>
          if !suspended && current.Some? && !desc[current.value].owned {
            suspended := true;
          }
        case CommandDone =>
          if drv.phase != SETTING_UP && !bus.cmdSent {
            bus := Raise(bus, NONE.(cmd := true)).(cmdSent := true);
          }
        case DataOver =>
          if drv.phase != SETTING_UP && bus.over.None? {
            bus := Raise(bus, NONE.(over := true)).(over := Some(|processed|));
          }
        case Interrupt =>
          if bus.raised.Any() {
            bus := Queued(bus);
          }
        case Step =>
      }
    }

    /** All that happens before the driver's next step. */
    method Others(schedule: seq<Action>, at: nat) returns (next: nat)
      requires Valid() && At(schedule, at)
      modifies this, desc
      ensures Valid() && At(schedule, next) && next >= at && (next < |schedule| ==> schedule[next] == Step)
      ensures drv == old(drv) && handed == old(handed) && sizeRemaining == old(sizeRemaining) && nextDesc == old(nextDesc)
      ensures |old(processed)| <= |processed|
    {
      hide Valid, Follows, Next, BufferCount;
      AtMost(schedule, at);
      next := at;
      while next < |schedule| && schedule[next] != Step
        invariant Valid() && At(schedule, next) && at <= next <= |schedule| && |old(processed)| <= |processed|
        invariant drv == old(drv) && handed == old(handed)
        invariant sizeRemaining == old(sizeRemaining) && nextDesc == old(nextDesc)
      {
        FollowsNext(Total(), Now(), schedule, next);
        Other(schedule[next]);
        next := next + 1;
      }
    }

    lemma AtMost(schedule: seq<Action>, at: nat)
      requires At(schedule, at)
      ensures at <= |schedule|
    {
    }

    // -------------------------------------------------------------- filling descriptors

    method FillOne()
      requires Valid() && |handed| < |processed| + SDMMC_DMA_DESC_CNT && sizeRemaining > 0
      modifies desc, `ptr, `sizeRemaining, `nextDesc, `handed
      ensures Valid() && handed == old(handed) + [Chunk(base, len, |old(handed)|)]
    {
      hide Ring, BufferCount, Chunk, Progress, Slot, Rounded;
      ghost var was := desc[..];
      NextIsFree(was, handed, |processed|);
      var next := nextDesc;
      assert !desc[next].owned;
      var size := if sizeRemaining < SDMMC_DMA_MAX_BUF_LEN then sizeRemaining else SDMMC_DMA_MAX_BUF_LEN;
      ProgressNext(handed, base, len, ptr, sizeRemaining, size);
      var last := size == sizeRemaining;
      assert size < 4 || size % 4 == 0;
      SlotsRepeat(|handed|, 1);
      var d := Desc(true, desc[next].first, last, ptr, Rounded(size), if last then None else Some(Slot(next + 1)));
      HandOver(was, handed, |processed|, d);
      desc[next] := d;
      sizeRemaining, ptr, nextDesc := sizeRemaining - size, ptr + size, Slot(nextDesc + 1);
      handed := handed + [BufferOf(d)];
      assert desc[..] == was[next := d];
    }

    /** fill_dma_descriptors, with everything that happens between two fills. */
    method FillDescriptors(num: nat, schedule: seq<Action>, at: nat) returns (next: nat)
      requires Valid() && At(schedule, at) && drv.pc == Filling(num)
      modifies this, desc
      ensures Valid() && At(schedule, next) && next >= at && drv.pc.Filling? && drv == old(drv).(pc := drv.pc)
      ensures drv.pc.left == 0 || sizeRemaining == 0
      ensures |handed| == Min(old(|handed|) + num, Total())
    {
      hide Valid, Follows, Next, BufferCount;
      next := at;
      for i := 0 to num
        invariant Valid() && At(schedule, next) && next >= at && drv == old(drv).(pc := Filling(num - i))
        invariant |handed| == old(|handed|) + i
      {
        if sizeRemaining == 0 {
          LeftToFill(schedule, next);
          return;
        }
        next := Others(schedule, next);
        next := FillNext(schedule, next);
      }
      LeftToFill(schedule, next);
    }

    lemma LeftToFill(schedule: seq<Action>, at: nat)
      requires Valid() && At(schedule, at)
      ensures |processed| <= |handed| <= Total() && (sizeRemaining > 0 <==> |handed| < Total())
      ensures at <= |schedule|
      ensures drv.pc.Filling? && drv.pc.left > 0 ==> |handed| < |processed| + SDMMC_DMA_DESC_CNT
    {
      hide Ring, Slot, Chunk, Left, Finish;
      LeftUntil(len, |handed|);
      RingBounds(desc[..], handed, |processed|);
    }

    /** One fill, as a step of the driver. */
    method FillNext(schedule: seq<Action>, at: nat) returns (next: nat)
      requires Valid() && At(schedule, at) && (at < |schedule| ==> schedule[at] == Step)
      requires drv.pc.Filling? && drv.pc.left > 0 && sizeRemaining > 0
      modifies this, desc
      ensures Valid() && At(schedule, next) && next >= at && drv == old(drv).(pc := Filling(old(drv).pc.left - 1))
      ensures |handed| == |old(handed)| + 1
    {
      hide Ring, Slot, BufferCount, Chunk, Left, Progress, Follows;
      LeftToFill(schedule, at);
      FollowsStep(Total(), Now(), schedule, at);
      FillOne();
      drv := drv.(pc := Filling(drv.pc.left - 1));
      next := Min(at + 1, |schedule|);
    }

    // -------------------------------------------------------------- counting free descriptors

    /** get_free_descriptors_count: the engine may release descriptors while it counts, so the number lies between
        those free at the beginning and those free at the end. */
    method GetFreeDescriptorsCount(schedule: seq<Action>, at: nat) returns (count: nat, next: nat)
      requires Valid() && At(schedule, at) && drv.pc == Counting(0)
      modifies this, desc
      ensures Valid() && At(schedule, next) && next >= at && drv == old(drv).(pc := Filling(count))
      ensures handed == old(handed) && sizeRemaining == old(sizeRemaining)
      ensures old(|processed|) + SDMMC_DMA_DESC_CNT - |handed| <= count <= |processed| + SDMMC_DMA_DESC_CNT - |handed|
    {
      hide Valid, Follows, Next, BufferCount;
      count, next := 0, at;
      for i := 0 to SDMMC_DMA_DESC_CNT
        invariant Valid() && At(schedule, next) && next >= at && i == count && handed == old(handed)
        invariant drv == old(drv).(pc := if i < SDMMC_DMA_DESC_CNT then Counting(i) else Filling(i))
        invariant sizeRemaining == old(sizeRemaining) && |old(processed)| <= |processed|
      {
        next := Others(schedule, next);
        var owned, final;
        owned, final, next := Look(i, schedule, next);
        if owned {
          break;
        }
        count := count + 1;
        if final {
          break;
        }
      }
      FreeCount(schedule, next);
    }

    lemma FreeCount(schedule: seq<Action>, at: nat)
      requires Valid() && At(schedule, at) && drv.pc.Filling?
      ensures drv.pc.left <= |processed| + SDMMC_DMA_DESC_CNT - |handed| <= SDMMC_DMA_DESC_CNT
    {
      hide Ring, Slot, Chunk, Left, Finish;
    }

    /** One look at a descriptor, as a step of the driver. */
    method Look(i: nat, schedule: seq<Action>, at: nat) returns (owned: bool, final: bool, next: nat)
      requires Valid() && At(schedule, at) && (at < |schedule| ==> schedule[at] == Step) && drv.pc == Counting(i)
      modifies `drv
      ensures Valid() && At(schedule, next) && next >= at && drv == old(drv).(pc := Looked(old(Now()), i)) && !final
      ensures owned <==> |handed| + i >= |processed| + SDMMC_DMA_DESC_CNT
    {
      hide Ring, Slot, BufferCount, Chunk, Left, Follows;
      LookBounds(i, schedule, at);
      FreeOrOwned(desc[..], handed, |processed|, i);
      NotFinal(handed, base, len, |handed| + i - SDMMC_DMA_DESC_CNT);
      FollowsStep(Total(), Now(), schedule, at);
      var d := desc[Slot(nextDesc + i)];
      assert d == desc[..][Slot(nextDesc + i)];
      owned, final := d.owned, d.next == None;
      var more := i + 1 < SDMMC_DMA_DESC_CNT;
      drv := drv.(pc := if owned then Filling(i) else if more then Counting(i + 1) else Filling(i + 1));
      next := Min(at + 1, |schedule|);
    }

    lemma LookBounds(i: nat, schedule: seq<Action>, at: nat)
      requires Valid() && At(schedule, at) && drv.pc == Counting(i)
      ensures i < SDMMC_DMA_DESC_CNT <= |handed| < Total() && sizeRemaining > 0 && desc.Length == SDMMC_DMA_DESC_CNT
      ensures Left(len, |handed|) > 0 && at <= |schedule|
    {
      hide Ring, Slot, Chunk, Finish;
      LeftUntil(len, |handed|);
      RingBounds(desc[..], handed, |processed|);
    }

    // -------------------------------------------------------------- events

    /** process_events for the next event, up to the first look at a descriptor. */
    method TakeEvent(schedule: seq<Action>, at: nat) returns (next: nat)
      requires Valid() && At(schedule, at) && at < |schedule| && schedule[at] == Step
      requires drv.pc == Waiting && bus.queue != [] && drv.phase != IDLE
      modifies `drv, `bus
      ensures Valid() && At(schedule, next) && next == at + 1
      ensures Now() == Next(Total(), old(Now()), Step)
      ensures drv.pc == Waiting || drv.pc == Counting(0)
    {
      hide Ring, Slot, BufferCount, Chunk, Left, Follows, Progress;
      LeftToFill(schedule, at);
      FollowsNext(Total(), Now(), schedule, at);
      var evt := bus.queue[0].Or(drv.evt);
      bus := TakeBus(bus, drv.evt);
      drv := drv.(evt := evt);
      if drv.phase == SENDING_CMD && drv.evt.cmd {
        drv := drv.(phase := SENDING_DATA, evt := drv.evt.(cmd := false));
      }
      if drv.phase == SENDING_DATA {
        if drv.evt.dma {
          drv := drv.(evt := drv.evt.(dma := false), countdown := drv.countdown - 1);
          drv := if sizeRemaining > 0 then drv.(pc := Counting(0)) else Conclude(drv);
        } else if drv.evt.over {
          drv := drv.(phase := IDLE);
        }
      } else if drv.phase == BUSY && drv.evt.over {
        drv := drv.(phase := IDLE, evt := drv.evt.(over := false));
      }
      next := at + 1;
    }

    /** Starting or resuming the engine, and what follows it without another look at memory. */
    method Resume(schedule: seq<Action>, at: nat) returns (next: nat)
      requires Valid() && At(schedule, at) && (at < |schedule| ==> schedule[at] == Step)
      requires drv.pc.Filling? && (drv.pc.left == 0 || sizeRemaining == 0)
      modifies `drv, `suspended
      ensures Valid() && At(schedule, next) && next >= at && drv.pc == Waiting
    {
      hide Ring, Slot, BufferCount, Chunk, Left, Follows, Progress;
      LeftToFill(schedule, at);
      FollowsStep(Total(), Now(), schedule, at);
      suspended := false;
      drv := Resumed(drv);
      next := Min(at + 1, |schedule|);
    }

    /** One call of handle_event, together with everything that happens in between. */
    method HandleEvent(schedule: seq<Action>, at: nat) returns (next: nat)
      requires Valid() && At(schedule, at) && at < |schedule| && schedule[at] == Step && drv.pc == Waiting
      modifies this, desc
      ensures Valid() && At(schedule, next) && drv.pc == Waiting && next > at
    {
      hide Valid, Follows, BufferCount;
      if |bus.queue| == 0 || drv.phase == IDLE {
        FollowsNext(Total(), Now(), schedule, at);
        return at + 1;
      }
      next := TakeEvent(schedule, at);
      if drv.pc != Waiting {
        var n;
        n, next := GetFreeDescriptorsCount(schedule, next);
        next := FillDescriptors(n, schedule, next);
        next := Others(schedule, next);
        next := Resume(schedule, next);
      }
    }

    /** The transfer of sdmmc_host_do_transaction: the set-up, and then any interleaving of the driver, the engine,
        the controller and the interrupt handler, also within the driver's loops.  The engine moves the buffers of
        the transfer in order, and the whole is in the state that the actions lead to, at the end of the call
        of process_events in progress. */
    static method Transfer(base: nat, len: nat, schedule: seq<Action>) returns (err: Err, ring: DmaRing?)
      ensures err == if len >= 4 && len % 4 != 0 then INVALID_SIZE else if base % 4 != 0 then INVALID_ARG else OK
      ensures err == OK <==> ring != null
      ensures ring != null ==> HandedOver(ring.processed, base, len)
      ensures ring != null ==>
        var total := BufferCount(len);
        ring.Now() == Finish(total, Run(total, Begin(total), schedule))
    {
      if len >= 4 && len % 4 != 0 {
        return INVALID_SIZE, null;
      }
      if base % 4 != 0 {
        return INVALID_ARG, null;
      }
      ring := Drive(base, len, schedule);
      err := OK;
    }

    static method Drive(base: nat, len: nat, schedule: seq<Action>) returns (r: DmaRing)
      requires len < 4 || len % 4 == 0
      ensures HandedOver(r.processed, base, len)
      ensures var total := BufferCount(len); r.Now() == Finish(total, Run(total, Begin(total), schedule))
    {
      hide BufferCount, Run, Finish, Follows, DmaRing.Valid;
      r := new DmaRing(base, len);
      FollowsBegin(BufferCount(len), schedule);
      var at := r.FillDescriptors(SDMMC_DMA_DESC_CNT, schedule, 0);
      at := r.Others(schedule, at);
      at := r.Resume(schedule, at);
      r.AtMost(schedule, at);
      while at < |schedule|
        invariant at <= |schedule| && r.Valid() && r.At(schedule, at) && r.drv.pc == Waiting
        invariant fresh(r) && fresh(r.desc) && r.base == base && r.len == len
      {
        at := r.Others(schedule, at);
        r.AtMost(schedule, at);
        if at < |schedule| {
          at := r.HandleEvent(schedule, at);
          r.AtMost(schedule, at);
        }
      }
      FollowsEnd(BufferCount(len), r.Now(), schedule);
      r.ProcessedInOrder();
    }

    lemma ProcessedInOrder()
      requires Valid()
      ensures HandedOver(processed, base, len)
    {
      hide Ring, Slot, BufferCount, Chunk, Left;
    }
  }

  lemma RingBounds(desc: seq<Desc>, handed: seq<Buffer>, done: nat)
    requires Ring(desc, handed, done)
    ensures |desc| == SDMMC_DMA_DESC_CNT && done <= |handed| <= done + SDMMC_DMA_DESC_CNT
  {
    hide Slot, Holds;
  }

  lemma HandedAtMost(handed: seq<Buffer>, base: nat, len: nat, ptr: nat, sizeRemaining: nat)
    requires Progress(handed, base, len, ptr, sizeRemaining)
    ensures |handed| <= BufferCount(len) && (BufferCount(len) > 0 ==> len > 0)
  {
  }

  /** Of the buffers handed over exactly the final one of the transfer is marked as last. */
  lemma FinalIsLast(handed: seq<Buffer>, base: nat, len: nat, k: nat)
    requires (len < 4 || len % 4 == 0) && HandedOver(handed, base, len) && k < |handed| <= BufferCount(len)
    ensures handed[k] == Chunk(base, len, k) && len > 0
    ensures handed[k].last <==> k + 1 == BufferCount(len)
  {
    hide Chunk;
    ChunksTile(base, len, k);
  }

  lemma NotFinal(handed: seq<Buffer>, base: nat, len: nat, k: nat)
    requires (len < 4 || len % 4 == 0) && HandedOver(handed, base, len) && k < |handed| <= BufferCount(len)
    requires Left(len, |handed|) > 0
    ensures !handed[k].last
  {
    hide Chunk, BufferCount, Left;
    FinalIsLast(handed, base, len, k);
    LeftUntil(len, |handed|);
  }
}
