/**
 The block protocol of app_trace.c in streaming mode: the target fills one trace memory block
 while the host reads the other one.
 */
module TraceTransport {
  import opened Bytes
  import opened TraceInflow
  import opened TraceLog
  import opened TracePending
  import opened TraceRing
  import opened TraceWait

  /** The number of the input block and the filling levels of the two blocks. */
  datatype TraxState = TraxState(inBlock: nat, markers: seq<nat>)

  /** The control register: number and length of the exposed block, and the host-data flag. */
  datatype CtrlReg = CtrlReg(blockId: nat, blockLen: nat, hostData: bool)

  /** The transport state and the control register agree with the log. */
  ghost predicate Agree(st: TraxState, ctrl: CtrlReg, l: Log) {
    && |st.markers| == 2
    && st.markers[st.inBlock % 2] == |Wire(l.input)|
    && ctrl.blockLen == |Wire(l.exposed)|
    && ctrl.blockId == st.inBlock % 0x80
    && (ctrl.hostData ==> ctrl.blockLen == 0)
  }

  /** The block being filled and the block shown to the host hold the bytes of the log, and the
      host has received the earlier ones. */
  ghost predicate Hold(filled: seq<byte>, shown: seq<byte>, ctrl: CtrlReg, host: Host, l: Log) {
    && |filled| == |shown| == BLOCK_SIZE
    && Wire(l.input) <= filled
    && Wire(l.exposed) <= shown
    && host.pos <= |Wire(l.exposed)|
    && host.stream == Wire(l.host) + Wire(l.exposed)[..host.pos]
  }

  /** The block shown to the host holds what it has posted for the target, behind a two-byte header. */
  ghost predicate Posting(ctrl: CtrlReg, shown: seq<byte>, posted: Option<seq<byte>>) {
    && (ctrl.hostData <==> posted.Some?)
    && (posted.Some? ==>
          && |posted.value| + 2 <= BLOCK_SIZE == |shown|
          && FromLe16(shown[..2]) == |posted.value| && shown[2..2 + |posted.value|] == posted.value)
  }

  function BytesOf(bytes: Option<seq<byte>>): seq<byte> {
    if bytes.Some? then bytes.value else []
  }

  class TraceBuffer {
    const block0: array<byte>
    const block1: array<byte>
    const pend: PendingStore
    const down: RingBuffer

    var state: TraxState
    var ctrl: CtrlReg

    var host: Host
    ghost var log: Log
    ghost var inflow: Inflow

    function Block(i: nat): array<byte> {
      if i % 2 == 0 then block0 else block1
    }

    ghost function Repr(): set<object> {
      {this, block0, block1, down, down.data} + pend.Repr()
    }

    /** The parts are distinct objects. */
    ghost predicate Shape() {
      && block0 != block1 && block0.Length == block1.Length == BLOCK_SIZE
      && block0 !in pend.Repr() && block1 !in pend.Repr() && this !in pend.Repr()
      && down !in pend.Repr() && down.data !in pend.Repr()
      && block0 != down.data && block1 != down.data
    }

    ghost predicate DownValid()
      reads down, down.data
    {
      down.Valid() && down.curSize == down.data.Length
    }

    ghost function Now(): View
      reads this, down, pend.rbPend
    {
      View(log, host, inflow, down.contents, pend.rbPend.At())
    }

    /** The number of bytes that the down ring can hold. */
    ghost function Capacity(): nat {
      Max(down.data.Length - 1, 0)
    }

    ghost predicate Valid()
      reads Repr()
    {
      && Shape() && DownValid()
      && pend.Valid() && pend.backlog == log.pending
      && log.Valid()
      && Agree(state, ctrl, log)
      && Hold(Block(state.inBlock)[..], Block(state.inBlock + 1)[..], ctrl, host, log)
      && Posting(ctrl, Block(state.inBlock + 1)[..], inflow.posted) && inflow.Valid(down.contents, Capacity())
    }

    /** esp_apptrace_trax_dest_init with the storage of the two rings given. */
    constructor (pend: PendingStore, down: RingBuffer)
      requires pend.Valid() && pend.backlog == Backlog([], [])
      requires down.Valid() && down.curSize == down.data.Length && down.contents == []
      requires down !in pend.Repr() && down.data !in pend.Repr()
      ensures Valid() && log == Log([], [], [], Backlog([], []))
      ensures host == Host(0, []) && inflow == Inflow([], None, [], []) && this.pend == pend && this.down == down
      ensures fresh(block0) && fresh(block1)
    {
      hide PendingStore.Valid, RingBuffer.Valid, Agree, Hold, Posting, Inflow.Valid, Wire, Log.Valid;
      block0 := new byte[BLOCK_SIZE];
      block1 := new byte[BLOCK_SIZE];
      this.pend := pend;
      this.down := down;
      state, ctrl := TraxState(0, [0, 0]), CtrlReg(0, 0, false);
      host, log, inflow := Host(0, []), Log([], [], [], Backlog([], [])), Inflow([], None, [], []);
      new;
      InitialState(block0[..], block1[..]);
    }

    lemma BlocksAlternate(i: nat)
      requires Shape()
      ensures (Block(i) == block0 && Block(i + 1) == block1) || (Block(i) == block1 && Block(i + 1) == block0)
      ensures Block(i + 2) == Block(i)
    {
    }

    /** Store the host's data, which lies in `b`, in the down ring; what does not fit is lost. */
    method ReceiveHostData(b: array<byte>)
      requires DownValid() && b != down.data && b.Length == BLOCK_SIZE
      requires Posting(ctrl, b[..], inflow.posted) && inflow.Valid(down.contents, Capacity())
      modifies down, down.data, b, `inflow
      ensures DownValid()
      ensures down.contents == old(down.contents) + old(inflow).Added(old(down.contents), Capacity())
      ensures inflow == old(inflow).Take(old(down.contents), Capacity()) && inflow.Valid(down.contents, Capacity())
    {
      hide RingBuffer.Valid, FromLe16, Inflow.Valid;
      down.LengthBound();
      TakeKeeps(inflow, down.contents, Capacity());
      var size := FromLe16(b[..2]);
      if ctrl.hostData && size > 0 {
        assert b[..][2..2 + size] == b[2..2 + size] && b[..][..2] == b[..2];
        var total := down.WriteAll(b[2..2 + size]);
        b[0], b[1] := 0, 0;
      } else if ctrl.hostData {
        assert b[..][..2] == b[..2];
      }
      assert old(down.contents) + [] == old(down.contents);
      inflow := inflow.Take(old(down.contents), Capacity());
    }

    /** esp_apptrace_trax_block_switch with a connected host. */
    method BlockSwitch() returns (ok: bool)
      requires Valid()
      modifies Repr()
      ensures Valid()
      ensures ok <==> old(log.exposed) == []
      ensures Now() == if ok then Switched(old(Now()), Capacity()) else old(Now())
      ensures state.inBlock == old(state).inBlock + if ok then 1 else 0
      ensures ok ==> !ctrl.hostData
    {
      hide Wire, Hold, Posting, Inflow.Valid, Block, PendingStore.Valid, RingBuffer.Valid, Log.Valid;
      hide SwitchedPend, RingBuffer.At, Inflow.Added, Log.Switch;
      WireEmpty(log.exposed);
      if ctrl.blockLen != 0 || ctrl.blockId != state.inBlock % 0x80 {
        return false;
      }
      BlocksAlternate(state.inBlock);
      SwitchKeeps(log);
      SwitchBlocks(Block(state.inBlock), Block(state.inBlock + 1));
      ok := true;
    }

    /** The part of esp_apptrace_trax_block_switch behind its check: from filling `src` while the
        host has done with `dst`, to filling `dst` while `src` is shown to the host. */
    method SwitchBlocks(src: array<byte>, dst: array<byte>)
      requires Shape() && DownValid() && pend.Valid() && pend.backlog == log.pending
      requires Agree(state, ctrl, log) && Hold(src[..], dst[..], ctrl, host, log)
      requires Posting(ctrl, dst[..], inflow.posted) && inflow.Valid(down.contents, Capacity())
      requires log.Valid() && log.exposed == []
      requires (src == block0 && dst == block1) || (src == block1 && dst == block0)
      modifies this, dst, pend.Repr(), down, down.data
      ensures DownValid() && pend.Valid() && pend.backlog == log.pending
      ensures Agree(state, ctrl, log) && Hold(dst[..], src[..], ctrl, host, log)
      ensures Posting(ctrl, src[..], inflow.posted) && inflow.Valid(down.contents, Capacity())
      ensures log == old(log).Switch() && host == old(host).(pos := 0)
      ensures pend.rbPend.At() == SwitchedPend(old(log), old(pend.rbPend.At()))
      ensures state.inBlock == old(state).inBlock + 1 && !ctrl.hostData
      ensures inflow == old(inflow).Take(old(down.contents), Capacity())
      ensures down.contents == old(down.contents) + old(inflow).Added(old(down.contents), Capacity())
    {
      hide Wire, Hold, Agree, DownValid, Inflow.Valid, PendingStore.Valid, Log.Valid, FromLe16, Pumped, RingBuffer.At;
      NothingUnread(ctrl, host, log, src[..], dst[..], state);
      ghost var filled := src[..];
      ReceiveHostData(dst);
      var marker := pend.PumpChunk(dst);
      FinishSwitch(marker, filled, dst[..]);
      assert src[..] == filled;
    }

    /** The markers, the control register and the log after the bytes have been moved. */
    method FinishSwitch(marker: nat, ghost filled: seq<byte>, ghost shown: seq<byte>)
      requires Agree(state, ctrl, log) && marker == |Wire(log.pending.Front())|
      requires host.stream == Wire(log.host) && |filled| == |shown| == BLOCK_SIZE && log.Valid()
      requires Wire(log.input) <= filled && Wire(log.pending.Front()) <= shown
      modifies this`state, this`ctrl, this`log, this`host
      ensures Agree(state, ctrl, log) && Hold(shown, filled, ctrl, host, log)
      ensures log == old(log).Switch() && host == old(host).(pos := 0)
      ensures state.inBlock == old(state).inBlock + 1 && !ctrl.hostData
    {
      hide Wire, Agree, Hold, Log.Switch, Backlog.Front;
      SwitchAgrees(state, ctrl, log, marker);
      var prev := state.inBlock % 2;
      var next := if prev == 1 then 0 else 1;
      state := TraxState(state.inBlock + 1, state.markers[next := marker]);
      ctrl := CtrlReg(state.inBlock % 0x80, state.markers[prev] % 0x8000, false);
      log, host := log.Switch(), host.(pos := 0);
      SwitchHolds(old(host), old(log), filled, shown, ctrl);
    }

    /** Step of the host: read the next `n` bytes of the exposed block. */
    method HostRead(n: nat)
      requires Valid() && host.pos + n <= ctrl.blockLen
      modifies this`host
      ensures Valid() && host.pos == old(host).pos + n
      ensures host.stream == old(host).stream + Wire(log.exposed)[old(host).pos..host.pos]
      ensures host.stream == old(host).stream + Block(state.inBlock + 1)[old(host).pos..host.pos]
    {
      hide Wire, Block, Posting, Inflow.Valid, PendingStore.Valid, RingBuffer.Valid, Log.Valid, Agree, Hold;
      ReadHolds(Block(state.inBlock)[..], Block(state.inBlock + 1)[..], state, ctrl, host, log, n);
      host := Host(host.pos + n, host.stream + Block(state.inBlock + 1)[host.pos..host.pos + n]);
    }

    /** Step of the host: having read the whole exposed block, write data for the target into it if there
        are any and its last ones have been taken, and clear the block length. */
    method HostAck(payload: Option<seq<byte>>)
      requires Valid() && host.pos == ctrl.blockLen
      requires payload.Some? ==> |payload.value| + 2 <= BLOCK_SIZE && !ctrl.hostData
      modifies this`ctrl, this`host, this`log, this`inflow, Block(state.inBlock + 1)
      ensures Valid() && log == old(log).Ack() && host == old(host).(pos := 0)
      ensures ctrl.hostData == (old(ctrl).hostData || payload.Some?)
      ensures inflow == if payload.Some? then old(inflow).Post(payload.value) else old(inflow)
    {
      hide Wire, Block, PendingStore.Valid, RingBuffer.Valid, FromLe16, Le16, Agree, Hold, Posting, Inflow.Valid, Log.Valid;
      PostingMeans(ctrl, Block(state.inBlock + 1)[..], inflow.posted);
      BlocksAlternate(state.inBlock);
      AckKeeps(log);
      AckHolds(Block(state.inBlock)[..], Block(state.inBlock + 1)[..], state, ctrl, host, log, payload);
      AckPosts(Block(state.inBlock + 1)[..], ctrl, inflow.posted, payload);
      if payload.Some? {
        WriteHostData(Block(state.inBlock + 1), payload.value);
        PostKeeps(inflow, payload.value, down.contents, Capacity());
        inflow := inflow.Post(payload.value);
      }
      ctrl := ctrl.(blockLen := 0, hostData := ctrl.hostData || payload.Some?);
      log, host := log.Ack(), host.(pos := 0);
    }

    /** The header with the length, and the data. */
    static method WriteHostData(b: array<byte>, payload: seq<byte>)
      requires b.Length == BLOCK_SIZE && |payload| + 2 <= BLOCK_SIZE
      modifies b
      ensures b[..] == Le16(|payload|) + payload + old(b[..])[2 + |payload|..]
    {
      hide Le16;
      HeaderRoundTrip(|payload|);
      CopyIn(b, 0, Le16(|payload|) + payload);
    }

    /** A step of the host, if it is possible. */
    method HostDo(s: HostStep)
      requires Valid()
      modifies this`ctrl, this`host, this`log, this`inflow, Block(state.inBlock + 1)
      ensures Valid() && Now() == HostDoes(old(Now()), s)
    {
      hide TraceBuffer.Valid, Wire, RingBuffer.At, Log.Ack;
      Bounds();
      match s {
        case Read(n) =>
          HostRead(Min(n, ctrl.blockLen - host.pos));
        case Ack(payload) =>
          if host.pos == ctrl.blockLen && (payload.Some? ==> |payload.value| + 2 <= BLOCK_SIZE && !ctrl.hostData) {
            HostAck(payload);
          }
      }
    }

    lemma Bounds()
      requires Valid()
      ensures host.pos <= ctrl.blockLen == |Wire(log.exposed)| <= BLOCK_SIZE
      ensures ctrl.hostData <==> inflow.posted.Some?
      ensures InBlock(Now()) && Orderly(Now()) && log.Valid()
    {
      hide Wire, Log.All, Backlog.Valid, FromLe16, RingBuffer.Valid, PendingStore.Valid, Inflow.Valid;
      WireEmpty(log.exposed);
    }

    /** What the host does during a poll. */
    method HostActs(steps: seq<HostStep>)
      requires Valid()
      modifies this`ctrl, this`host, this`log, this`inflow, Block(state.inBlock + 1)
      ensures Valid() && Now() == HostDoesAll(old(Now()), steps)
    {
      hide TraceBuffer.Valid, HostDoes;
      for i := 0 to |steps|
        invariant Valid() && Now() == HostDoesAll(old(Now()), steps[..i])
      {
        HostDo(steps[i]);
        assert steps[..i + 1][..i] == steps[..i];
      }
      assert steps[..|steps|] == steps;
    }

    /** esp_apptrace_trax_block_switch_waitus: poll until the switch succeeds or `tmo` polls of the
        timeout have passed; the host acts between two polls. */
    method BlockSwitchWait(polls: Polls, from: nat, tmo: nat) returns (ok: bool, left: nat)
      requires Valid()
      modifies Repr()
      ensures Valid() && left <= tmo
      ensures ok <==> FirstFree(old(Now()), polls, from, tmo).Some?
      ensures left == if ok then tmo - FirstFree(old(Now()), polls, from, tmo).value else 0
      ensures Now() == Waited(old(Now()), polls, from, tmo, Capacity())
      ensures ok <==> exists k: nat :: k <= tmo && AfterPolls(old(Now()), polls, from, k).log.exposed == []
      ensures forall k: nat | k <= tmo && (old(log).exposed == [] || Acknowledges(StepsOf(polls, from, k))) ::
        ok && left >= tmo - k
    {
      hide TraceBuffer.Valid, Switched, HostDoesAll, AfterPolls, FirstFree, Acknowledges;
      ghost var v := Now();
      Bounds();
      forall k: nat | k <= tmo && (log.exposed == [] || Acknowledges(StepsOf(polls, from, k)))
        ensures FirstFree(v, polls, from, tmo).Some? && FirstFree(v, polls, from, tmo).value <= k
      {
        WaitsForHost(v, polls, from, tmo, k);
      }
      NoPolls(v, polls, from);
      left := tmo;
      ok := BlockSwitch();
      while !ok && left > 0
        invariant Valid() && left <= tmo
        invariant forall j: nat | j < tmo - left :: AfterPolls(v, polls, from, j).log.exposed != []
        invariant ok <==> AfterPolls(v, polls, from, tmo - left).log.exposed == []
        invariant Now() ==
          var w := AfterPolls(v, polls, from, tmo - left); if ok then Switched(w, Capacity()) else w
        decreases left
      {
        OneMorePoll(v, polls, from, tmo - left);
        HostActs(During(polls, from + (tmo - left)));
        left := left - 1;
        ok := BlockSwitch();
      }
      if ok {
        FreeAt(v, polls, from, tmo, tmo - left);
      } else {
        NeverFree(v, polls, from, tmo);
      }
    }

    /** The filling level of the input block. */
    method Marker() returns (n: nat)
      requires Valid()
      ensures n == |Wire(log.input)|
    {
      n := state.markers[state.inBlock % 2];
    }

    /** Put a completed user block into the pending ring, if there is room. */
    method AllocPending(m: Msg) returns (ok: bool)
      requires Valid() && log.input != []
      modifies pend.Repr(), this`log
      ensures Valid()
      ensures ok <==> old(pend.rbPend.At()).Fits(|UserBlock(m)|)
      ensures log == if ok then old(log).Pend(m) else old(log)
      ensures ok ==> old(pend.rbPend.At()).Grant(|UserBlock(m)|).Some?
      ensures pend.rbPend.At() ==
        if ok then old(pend.rbPend.At()).Grant(|UserBlock(m)|).value.0 else old(pend.rbPend.At())
    {
      hide Wire, Block, Posting, Inflow.Valid, PendingStore.Valid, RingBuffer.Valid, Log.Valid, Agree, Hold, Cursor.Fits;
      BlocksAlternate(state.inBlock);
      PendKeeps(log, m);
      PendElsewhere(Block(state.inBlock)[..], Block(state.inBlock + 1)[..], state, ctrl, host, log, m);
      ok := pend.Alloc(m);
      if ok {
        log := log.Pend(m);
      }
    }

    /** Put a completed user block into the input block. */
    method AllocInBlock(m: Msg)
      requires Valid() && FitsBlock(log, m)
      modifies Block(state.inBlock), this`log, this`state
      ensures Valid() && log == old(log).Store(m)
    {
      hide Wire, Block, Posting, Inflow.Valid, PendingStore.Valid, RingBuffer.Valid, Log.Valid, UserBlock, Agree, Hold;
      BlocksAlternate(state.inBlock);
      StoreKeeps(log, m);
      var marker := Marker();
      StoreHolds(Block(state.inBlock)[..], Block(state.inBlock + 1)[..], state, ctrl, host, log, m);
      CopyIn(Block(state.inBlock), marker, UserBlock(m));
      state := state.(markers := state.markers[state.inBlock % 2 := marker + |UserBlock(m)|]);
      log := log.Store(m);
    }

    /** Find a place for a user block in the input block, or in the pending ring; there is one exactly if
        either has room. */
    method Place(m: Msg) returns (ok: bool)
      requires Valid()
      modifies Repr()
      ensures Valid()
      ensures ok <==> Room(old(log), old(pend.rbPend.At()), m)
      ensures Now() == if ok then PlacedView(old(Now()), m) else old(Now())
    {
      hide Wire, Block, Posting, Inflow.Valid, PendingStore.Valid, RingBuffer.Valid, UserBlock, Agree, Hold;
      hide Log.Valid, Backlog.All, Backlog.Valid, Cursor.Fits, RingBuffer.At;
      BlocksAlternate(state.inBlock);
      var empty := pend.IsEmpty();
      var marker := Marker();
      if !empty || marker + |UserBlock(m)| > BLOCK_SIZE {
        PlaceNonempty(log, m);
        ok := AllocPending(m);
      } else {
        AllocInBlock(m);
        ok := true;
      }
    }

    /** esp_apptrace_trax_wait4buf: if the switch succeeds, the message is placed exactly if there is room then. */
    method Wait4Buf(m: Msg, polls: Polls, tmo: nat) returns (ok: bool)
      requires Valid()
      modifies Repr()
      ensures Valid()
      ensures var w := Waited(old(Now()), polls, 0, tmo, Capacity());
        && (ok <==> FirstFree(old(Now()), polls, 0, tmo).Some? && Room(w.log, w.pend, m))
        && Now() == if ok then PlacedView(w, m) else w
    {
      hide TraceBuffer.Valid, Wire, UserBlock, Room, PlacedView, RingBuffer.At, Waited, FirstFree, Acknowledges, AfterPolls;
      var switched, _ := BlockSwitchWait(polls, 0, tmo);
      if switched {
        ok := Place(m);
      } else {
        ok := false;
      }
    }

    /** esp_apptrace_trax_get_buffer, the user's filling of the buffer, and
        esp_apptrace_trax_put_buffer, as one event, while the host does `polls`. */
    method Write(core: nat, data: seq<byte>, polls: Polls, tmo: nat) returns (ok: bool)
      requires Valid() && core < 2
      modifies Repr()
      ensures Valid()
      ensures |data| > USR_DATA_LEN_MAX ==> !ok && Now() == old(Now())
      ensures |data| <= USR_DATA_LEN_MAX ==>
        && (ok <==> Accepts(old(Now()), RawMsg(core, data), polls, tmo, Capacity()))
        && Now() == Sent(old(Now()), RawMsg(core, data), polls, tmo, Capacity())
      ensures log.All() == old(log).All() + (if ok then [RawMsg(core, data)] else [])
      ensures (|data| <= USR_DATA_LEN_MAX && old(log).pending.All() != [] && old(log).exposed == []) ==>
        old(log).host + old(log).input <= log.host + log.exposed
      ensures (|data| <= USR_DATA_LEN_MAX && old(log).pending.All() == []
               && (old(log).exposed == [] || Acknowledges(StepsOf(polls, 0, tmo)))) ==> ok
    {
      hide TraceBuffer.Valid, Wire, UserBlock, Accepts, Sent, RingBuffer.At, Acknowledges, Backlog.All, Log.All;
      Bounds();
      if |data| > USR_DATA_LEN_MAX {
        assert log.All() + [] == log.All();
        return false;
      }
      var m: Msg := RawMsg(core, data);
      ghost var v := Now();
      SentKeeps(v, m, polls, tmo, Capacity());
      if log.pending.All() != [] && log.exposed == [] {
        FirstShows(v, m, polls, tmo, Capacity());
      }
      if log.pending.All() == [] && (log.exposed == [] || Acknowledges(StepsOf(polls, 0, tmo))) {
        AcceptedInTime(v, m, polls, tmo, Capacity());
      }
      ok := GetAndPut(m, polls, tmo);
    }

    /** The first try, and the wait for a buffer if there is no room. */
    method GetAndPut(m: Msg, polls: Polls, tmo: nat) returns (ok: bool)
      requires Valid()
      modifies Repr()
      ensures Valid()
      ensures ok <==> Accepts(old(Now()), m, polls, tmo, Capacity())
      ensures Now() == Sent(old(Now()), m, polls, tmo, Capacity())
    {
      hide TraceBuffer.Valid, Wire, UserBlock, Room, PlacedView, RingBuffer.At, Waited, FirstFree, Switched, Backlog.All;
      hide Log.Valid, Log.Ack, Log.Switch, SwitchedPend;
      ghost var v := Now();
      Bounds();
      TryFirstKeeps(v, Capacity());
      var empty := PendingIsEmpty();
      if !empty {
        var switched := BlockSwitch();
      }
      ghost var first := Now();
      assert first == TryFirst(v, Capacity());
      ok := Place(m);
      if !ok {
        WaitedLog(first, polls, 0, tmo, Capacity());
        AfterRefusal(first.log, first.pend, m);
        ok := Wait4Buf(m, polls, tmo);
      }
    }

    method PendingIsEmpty() returns (empty: bool)
      requires Valid()
      ensures empty <==> log.pending.All() == []
    {
      empty := pend.IsEmpty();
    }

    /** esp_apptrace_trax_flush: switch blocks until the input block is empty, while the host does `polls`. */
    method Flush(minSz: nat, polls: Polls, tmo: nat) returns (ok: bool)
      requires Valid()
      modifies Repr()
      ensures Valid() && log.All() == old(log).All()
      ensures |Wire(old(log).input)| < minSz ==> ok && Now() == old(Now())
      ensures |Wire(old(log).input)| >= minSz ==> (Now(), ok) == Flushed(old(Now()), polls, 0, tmo, Capacity())
      ensures |Wire(old(log).input)| >= minSz && ok ==> log.input == [] && log.pending.All() == []
      ensures !ok ==> log.exposed != []
      ensures Blocks(old(log)) <= tmo && (forall i | 0 <= i < tmo :: Acknowledges(During(polls, i))) ==> ok
    {
      hide TraceBuffer.Valid, Log.All, Wire, Backlog.All, Blocks, Acknowledges, Switched, AfterPolls, FirstFree;
      Bounds();
      ok := true;
      var marker := Marker();
      if marker < minSz {
        return;
      }
      ghost var v := Now();
      FlushedKeeps(v, polls, 0, tmo, Capacity());
      if Blocks(log) <= tmo && forall i | 0 <= i < tmo :: Acknowledges(During(polls, i)) {
        FlushedInTime(v, polls, 0, tmo, Capacity());
      }
      ok := FlushBlocks(polls, tmo);
      SameAll(v, Flushed(v, polls, 0, tmo, Capacity()).0);
    }

    method FlushBlocks(polls: Polls, tmo: nat) returns (ok: bool)
      requires Valid()
      modifies Repr()
      ensures Valid() && (Now(), ok) == Flushed(old(Now()), polls, 0, tmo, Capacity())
    {
      hide TraceBuffer.Valid, Wire, Switched, AfterPolls, FirstFree, Acknowledges, Log.Unsent;
      ok := true;
      var marker := Marker();
      var left: nat := tmo;
      while marker > 0
        invariant Valid() && marker == |Wire(log.input)| && ok && left <= tmo
        invariant Flushed(Now(), polls, tmo - left, left, Capacity()) == Flushed(old(Now()), polls, 0, tmo, Capacity())
        decreases log.Unsent()
      {
        ghost var k := FirstFree(Now(), polls, tmo - left, left);
        if k.Some? {
          UnsentShrinks(Now(), polls, tmo - left, k.value, Capacity());
        }
        ok, left := BlockSwitchWait(polls, tmo - left, left);
        if !ok {
          return;
        }
        marker := Marker();
      }
    }

    /** esp_apptrace_trax_down_buffer_get: the oldest bytes that the host has sent, after as many block
        switches and polls as it takes to get some, while the host does `polls`. */
    method DownBufferGet(size: nat, polls: Polls, tmo: nat) returns (bytes: Option<seq<byte>>)
      requires Valid()
      modifies Repr()
      ensures Valid() && log.All() == old(log).All()
      ensures var w := DataWaited(old(Now()), polls, 0, tmo, Capacity());
        && (bytes.Some? <==> w.queued != []) && BytesOf(bytes) + down.contents == w.queued
        && Now() == w.(queued := down.contents, inflow := if bytes.Some? then w.inflow.Deliver(bytes.value) else w.inflow)
      ensures bytes.Some? ==> |bytes.value| <= size && (size > 0 ==> bytes.value != [])
      ensures bytes.Some? && |bytes.value| < size ==> down.contents == [] || down.rd == 0
      ensures forall k: nat | Posts(old(Now()), polls, tmo, k, Capacity()) :: bytes.Some?
    {
      hide TraceBuffer.Valid, Log.All, Wire, Posts, SameLog, DataWaited, RingBuffer.At;
      ghost var v := Now();
      Bounds();
      DataKeeps(v, polls, 0, tmo, Capacity());
      forall k: nat | Posts(v, polls, tmo, k, Capacity())
        ensures DataWaited(v, polls, 0, tmo, Capacity()).queued != []
      {
        PostedArrives(v, polls, tmo, k, Capacity());
      }
      WaitForData(polls, tmo);
      SameAll(v, Now());
      var n := DownSize();
      bytes := None;
      if n != 0 {
        bytes := DownTake(Min(size, n));
      }
    }

    method WaitForData(polls: Polls, tmo: nat)
      requires Valid()
      modifies Repr()
      ensures Valid() && Now() == DataWaited(old(Now()), polls, 0, tmo, Capacity())
    {
      hide TraceBuffer.Valid, Wire, Switched, HostDoesAll, AfterPolls, FirstFree, Acknowledges, RingBuffer.At, DataWaited;
      hide InBlock, Waited, Log.Valid;
      var left: nat := tmo;
      var n := DownSize();
      while n == 0
        invariant Valid() && left <= tmo && (n == 0 <==> down.contents == [])
        invariant
          DataWaited(Now(), polls, tmo - left, left, Capacity()) == DataWaited(old(Now()), polls, 0, tmo, Capacity())
        decreases left, ctrl.hostData, n == 0
      {
        Bounds();
        if ctrl.hostData {
          SwitchAtOnce(Now(), polls, tmo - left, left, Capacity());
          TakesPosted(Now(), Capacity());
          DataSwitch(Now(), polls, tmo - left, left, Capacity());
          var _, rest := BlockSwitchWait(polls, tmo - left, left);
          left := rest;
          Bounds();
        } else {
          if left == 0 {
            DataDone(Now(), polls, tmo - left, left, Capacity());
            return;
          }
          DataLater(Now(), polls, tmo - left, left, Capacity());
          HostActs(During(polls, tmo - left));
          left := left - 1;
        }
        n := DownSize();
      }
      DataDone(Now(), polls, tmo - left, left, Capacity());
    }

    method DownSize() returns (n: nat)
      requires Valid()
      ensures (n == 0 <==> down.contents == []) && n == down.At().Run()
    {
      n := down.ReadSizeGet();
    }

    method DownTake(n: nat) returns (bytes: Option<seq<byte>>)
      requires Valid() && n <= down.At().Run()
      modifies down, `inflow
      ensures Valid()
      ensures bytes.Some? && |bytes.value| == n && bytes.value + down.contents == old(down.contents)
      ensures n == old(down.At()).Run() ==> down.contents == [] || down.rd == 0
      ensures Now() == old(Now()).(queued := down.contents, inflow := old(inflow).Deliver(bytes.value))
    {
      hide Wire, Block, Posting, Inflow.Valid, PendingStore.Valid, RingBuffer.Valid, Log.Valid, Agree, Hold;
      BlocksAlternate(state.inBlock);
      bytes := down.Take(n);
      DeliverKeeps(inflow, bytes.value, down.contents, Capacity());
      inflow := inflow.Deliver(bytes.value);
    }

    /** Lossless, ordered streaming.  In every state the host's bytes, what it has yet to read of
        the exposed block, the input block up to its marker and the pending ring are, in this
        order, the bytes of all accepted messages. */
    lemma Lossless()
      requires Valid()
      ensures host.pos <= ctrl.blockLen <= BLOCK_SIZE && state.markers[state.inBlock % 2] <= BLOCK_SIZE
      ensures host.stream
              + Block(state.inBlock + 1)[host.pos..ctrl.blockLen]
              + Block(state.inBlock)[..state.markers[state.inBlock % 2]]
              + pend.rbPend.contents
              == Wire(log.All())
    {
      hide Wire, Block, Posting, Inflow.Valid, RingBuffer.Valid, Backlog.All, Backlog.Valid, Agree, Hold;
      StreamOf(Block(state.inBlock)[..], Block(state.inBlock + 1)[..], state, ctrl, host, log);
    }

    /** In the other direction: the bytes that the target has fetched and those in the down ring are what has
        been kept of the payloads taken in, in order, and all of them as long as they fit the ring together. */
    lemma HostData()
      requires Valid()
      ensures inflow.delivered + down.contents == Kept(inflow.taken)
      ensures var sent := Concat(inflow.sent[..|inflow.taken|]);
        && (inflow.delivered + down.contents == sent <==>
              forall i | 0 <= i < |inflow.taken| :: |inflow.sent[i]| <= RoomAt(inflow.taken, i, Capacity()))
        && (|sent| <= Capacity() ==> inflow.delivered + down.contents == sent)
      ensures |inflow.sent| == |inflow.taken| + if ctrl.hostData then 1 else 0
    {
      HostStream(inflow, down.contents, Capacity());
    }

    /** Whenever the host is not in the middle of a block, what it has received decodes to a prefix
        of the accepted messages, none of them cut or incomplete. */
    lemma HostDecodesPrefix()
      requires Valid() && (host.pos == 0 || host.pos == ctrl.blockLen)
      ensures Parse(host.stream) == Some(if host.pos == 0 then log.host else log.host + log.exposed)
      ensures log.host + log.exposed <= log.All()
    {
      hide Wire, Block, Log.Valid, RingBuffer.Valid, PendingStore.Valid, Parse;
      WireConcat(log.host, log.exposed);
      ParseWire(log.host);
      ParseWire(log.host + log.exposed);
      if host.pos == 0 {
        assert host.stream == Wire(log.host);
      } else {
        assert Wire(log.exposed)[..host.pos] == Wire(log.exposed);
      }
    }
  }

  lemma HeaderRoundTrip(v: nat)
    requires v < 0x1_0000
    ensures FromLe16(Le16(v)) == v && |Le16(v)| == 2
  {
  }

  lemma InitialState(filled: seq<byte>, shown: seq<byte>)
    requires |filled| == |shown| == BLOCK_SIZE
    ensures var l := Log([], [], [], Backlog([], []));
            && l.Valid() && Agree(TraxState(0, [0, 0]), CtrlReg(0, 0, false), l)
            && Hold(filled, shown, CtrlReg(0, 0, false), Host(0, []), l)
    ensures Posting(CtrlReg(0, 0, false), shown, None)
    ensures forall cap :: Inflow([], None, [], []).Valid([], cap)
  {
  }

  /** What the host has, what it has yet to read, the filled part of the other block and the pending bytes. */
  lemma StreamOf(filled: seq<byte>, shown: seq<byte>, st: TraxState, ctrl: CtrlReg, host: Host, l: Log)
    requires Agree(st, ctrl, l) && Hold(filled, shown, ctrl, host, l)
    ensures host.pos <= ctrl.blockLen <= BLOCK_SIZE && |st.markers| == 2 && st.markers[st.inBlock % 2] <= BLOCK_SIZE
    ensures |filled| == |shown| == BLOCK_SIZE
    ensures host.stream + shown[host.pos..ctrl.blockLen] + filled[..st.markers[st.inBlock % 2]] + Wire(l.pending.All())
         == Wire(l.All())
  {
    hide Wire, Backlog.All;
    WireConcat(l.host, l.exposed);
    WireConcat(l.host + l.exposed, l.input);
    WireConcat(l.host + l.exposed + l.input, l.pending.All());
    var w := Wire(l.exposed);
    var unread := shown[host.pos..ctrl.blockLen];
    assert shown[..|w|] == w && unread == w[host.pos..];
    assert w[..host.pos] + unread == w;
    assert (Wire(l.host) + w[..host.pos]) + unread == Wire(l.host) + (w[..host.pos] + unread);
    assert filled[..st.markers[st.inBlock % 2]] == Wire(l.input);
  }

  /** Reading on within the exposed block. */
  lemma ReadHolds(filled: seq<byte>, shown: seq<byte>, st: TraxState, ctrl: CtrlReg, host: Host, l: Log, n: nat)
    requires Agree(st, ctrl, l) && Hold(filled, shown, ctrl, host, l) && host.pos + n <= ctrl.blockLen
    ensures host.pos + n <= |Wire(l.exposed)| && host.pos + n <= |shown|
    ensures shown[host.pos..host.pos + n] == Wire(l.exposed)[host.pos..host.pos + n]
    ensures Hold(filled, shown, ctrl, Host(host.pos + n, host.stream + shown[host.pos..host.pos + n]), l)
  {
    hide Wire;
    var w := Wire(l.exposed);
    var i := host.pos;
    assert shown[..|w|] == w && shown[i..i + n] == shown[..|w|][i..i + n];
    assert w[..i] + w[i..i + n] == w[..i + n];
    assert (Wire(l.host) + w[..i]) + w[i..i + n] == Wire(l.host) + w[..i + n];
  }

  lemma AckHolds(filled: seq<byte>, shown: seq<byte>, st: TraxState, ctrl: CtrlReg, host: Host, l: Log,
                 payload: Option<seq<byte>>)
    requires Agree(st, ctrl, l) && Hold(filled, shown, ctrl, host, l) && host.pos == ctrl.blockLen
    requires payload.Some? ==> |payload.value| + 2 <= BLOCK_SIZE
    ensures |shown| == BLOCK_SIZE
    ensures var shown' := if payload.None? then shown
                          else Le16(|payload.value|) + payload.value + shown[2 + |payload.value|..];
            var ctrl' := ctrl.(blockLen := 0, hostData := ctrl.hostData || payload.Some?);
            Agree(st, ctrl', l.Ack()) && Hold(filled, shown', ctrl', host.(pos := 0), l.Ack())
  {
    WireConcat(l.host, l.exposed);
    hide Wire, FromLe16, Le16;
    WireEmpty([]);
    if payload.Some? {
      HeaderRoundTrip(|payload.value|);
      assert (Le16(|payload.value|) + payload.value + shown[2 + |payload.value|..])[..2] == Le16(|payload.value|);
    }
  }

  lemma PostingMeans(ctrl: CtrlReg, shown: seq<byte>, posted: Option<seq<byte>>)
    requires Posting(ctrl, shown, posted)
    ensures ctrl.hostData <==> posted.Some?
  {
  }

  /** What the host posts is what the next switch will find. */
  lemma AckPosts(shown: seq<byte>, ctrl: CtrlReg, posted: Option<seq<byte>>, payload: Option<seq<byte>>)
    requires |shown| == BLOCK_SIZE && Posting(ctrl, shown, posted)
    requires payload.Some? ==> |payload.value| + 2 <= BLOCK_SIZE && !ctrl.hostData
    ensures var shown' := if payload.None? then shown
                          else Le16(|payload.value|) + payload.value + shown[2 + |payload.value|..];
            var ctrl' := ctrl.(blockLen := 0, hostData := ctrl.hostData || payload.Some?);
            Posting(ctrl', shown', if payload.Some? then payload else posted)
  {
    hide FromLe16, Le16;
    if payload.Some? {
      HeaderRoundTrip(|payload.value|);
      var now := Le16(|payload.value|) + payload.value + shown[2 + |payload.value|..];
      assert now[..2] == Le16(|payload.value|) && now[2..2 + |payload.value|] == payload.value;
    }
  }

  /** Pending messages touch neither the blocks nor the registers. */
  lemma PendElsewhere(filled: seq<byte>, shown: seq<byte>, st: TraxState, ctrl: CtrlReg, host: Host, l: Log, m: Msg)
    requires Agree(st, ctrl, l) && Hold(filled, shown, ctrl, host, l)
    ensures Agree(st, ctrl, l.Pend(m)) && Hold(filled, shown, ctrl, host, l.Pend(m))
  {
  }

  lemma StoreHolds(filled: seq<byte>, shown: seq<byte>, st: TraxState, ctrl: CtrlReg, host: Host, l: Log, m: Msg)
    requires Agree(st, ctrl, l) && Hold(filled, shown, ctrl, host, l)
    requires |Wire(l.input)| + |UserBlock(m)| <= BLOCK_SIZE
    ensures |st.markers| == 2 && |filled| == |shown| == BLOCK_SIZE
    ensures var n := |Wire(l.input)|;
            var filled' := filled[..n] + UserBlock(m) + filled[n + |UserBlock(m)|..];
            && Hold(filled', shown, ctrl, host, l.Store(m))
            && Agree(st.(markers := st.markers[st.inBlock % 2 := n + |UserBlock(m)|]), ctrl, l.Store(m))
  {
    hide Wire, UserBlock;
    WireConcat(l.input, [m]);
    WireOne(m);
  }

  lemma SentKeeps(v: View, m: Msg, polls: Polls, tmo: nat, cap: nat)
    requires v.log.Valid()
    ensures SameSent(v, Sent(v, m, polls, tmo, cap), if Accepts(v, m, polls, tmo, cap) then [m] else [])
    ensures Sent(v, m, polls, tmo, cap).log.All() == v.log.All() + if Accepts(v, m, polls, tmo, cap) then [m] else []
  {
    hide Room, Attempted, Log.All, Log.Valid;
    var at := Attempted(v, m, polls, tmo, cap);
    AttemptedKeeps(v, m, polls, tmo, cap);
    PlacedKeeps(at.log, m);
    assert v.log.All() + [] == v.log.All();
  }

  /** What has been accepted, and more. */
  ghost predicate SameSent(v: View, w: View, more: seq<Msg>) {
    && w.log.All() == v.log.All() + more && v.host.stream <= w.host.stream && w.inflow.delivered == v.inflow.delivered
  }

  lemma SameAll(v: View, w: View)
    requires SameLog(v, w)
    ensures w.log.All() == v.log.All() && w.inflow.delivered == v.inflow.delivered && v.host.stream <= w.host.stream
  {
  }

  lemma OneMorePoll(v: View, polls: Polls, from: nat, k: nat)
    ensures AfterPolls(v, polls, from, k + 1) == HostDoesAll(AfterPolls(v, polls, from, k), During(polls, from + k))
  {
    hide HostDoesAll;
  }

  /** With host data posted the exposed block has been acknowledged. */
  lemma SwitchAtOnce(v: View, polls: Polls, from: nat, tmo: nat, cap: nat)
    requires v.log.exposed == []
    ensures FirstFree(v, polls, from, tmo) == Some(0) && Waited(v, polls, from, tmo, cap) == Switched(v, cap)
  {
    NoPolls(v, polls, from);
    FreeAt(v, polls, from, tmo, 0);
  }

  /** The ring has no bytes for the target, and the host posts some behind k polls. */
  ghost predicate Posts(v: View, polls: Polls, tmo: nat, k: nat, cap: nat) {
    && v.queued == [] && cap > 0 && k <= tmo
    && AfterPolls(v, polls, 0, k).inflow.posted.Some? && AfterPolls(v, polls, 0, k).inflow.posted.value != []
    && forall j: nat | j < k :: AfterPolls(v, polls, 0, j).inflow.posted.None?
  }

  lemma PostedArrives(v: View, polls: Polls, tmo: nat, k: nat, cap: nat)
    requires Posts(v, polls, tmo, k, cap)
    ensures DataWaited(v, polls, 0, tmo, cap).queued != []
  {
    hide AfterPolls, DataWaited;
    DataInTime(v, polls, 0, tmo, cap, k);
  }

  lemma NothingUnread(ctrl: CtrlReg, host: Host, l: Log, filled: seq<byte>, shown: seq<byte>, st: TraxState)
    requires Hold(filled, shown, ctrl, host, l) && Agree(st, ctrl, l) && l.exposed == []
    ensures host.stream == Wire(l.host) && Wire(l.input) <= filled && |st.markers| == 2
    ensures |filled| == |shown| == BLOCK_SIZE
  {
  }

  lemma SwitchAgrees(st: TraxState, ctrl: CtrlReg, l: Log, marker: nat)
    requires Agree(st, ctrl, l) && |Wire(l.input)| <= BLOCK_SIZE && marker == |Wire(l.pending.Front())|
    ensures |st.markers| == 2
    ensures var prev, next := st.inBlock % 2, if st.inBlock % 2 == 1 then 0 else 1;
            var st' := TraxState(st.inBlock + 1, st.markers[next := marker]);
            Agree(st', CtrlReg(st'.inBlock % 0x80, st'.markers[prev] % 0x8000, false), l.Switch())
  {
    hide Wire, Backlog.Front;
    var prev, next := st.inBlock % 2, if st.inBlock % 2 == 1 then 0 else 1;
    BlockAfter(st.inBlock);
    assert st.markers[next := marker][prev] == |Wire(l.input)|;
  }

  lemma BlockAfter(i: nat)
    ensures (i + 1) % 2 == if i % 2 == 1 then 0 else 1
  {
  }

  lemma SwitchHolds(host: Host, l: Log, src: seq<byte>, dst: seq<byte>, ctrl: CtrlReg)
    requires host.stream == Wire(l.host) && !ctrl.hostData && |src| == |dst| == BLOCK_SIZE
    requires Wire(l.input) <= src && Wire(l.pending.Front()) <= dst
    ensures Hold(dst, src, ctrl, host.(pos := 0), l.Switch())
  {
  }

  // ---------------------------------------------------------------- runs

  type AnyMsg = m: RawMsg | m.core < 2 witness RawMsg(0, [])

  /** One event of a run: a call of the target, with what the host does meanwhile, or a step of the host. */
  datatype Event =
    | Send(msg: AnyMsg, polls: Polls, tmo: nat)
    | FlushAll(minSz: nat, polls: Polls, tmo: nat)
    | Get(size: nat, polls: Polls, tmo: nat)
    | HostAction(step: HostStep)

  /** What it returns. */
  datatype Reply = SentMsg(ok: bool) | FlushedAll(ok: bool) | Got(bytes: Option<seq<byte>>) | Stepped

  /** The event leads from v to w, with a down ring that holds `cap` bytes. */
  ghost predicate Did(e: Event, r: Reply, v: View, w: View, cap: nat) {
    match e
    case Send(m, polls, tmo) => r.SentMsg? && DidSend(m, polls, tmo, r.ok, v, w, cap)
    case FlushAll(minSz, polls, tmo) => r.FlushedAll? && DidFlush(minSz, polls, tmo, r.ok, v, w, cap)
    case Get(size, polls, tmo) => r.Got? && DidGet(size, polls, tmo, r.bytes, v, w, cap)
    case HostAction(step) => r.Stepped? && w == HostDoes(v, step)
  }

  ghost predicate DidSend(m: AnyMsg, polls: Polls, tmo: nat, ok: bool, v: View, w: View, cap: nat) {
    if |m.data| > USR_DATA_LEN_MAX then !ok && w == v
    else (ok <==> Accepts(v, m, polls, tmo, cap)) && w == Sent(v, m, polls, tmo, cap)
  }

  ghost predicate DidFlush(minSz: nat, polls: Polls, tmo: nat, ok: bool, v: View, w: View, cap: nat) {
    if |Wire(v.log.input)| < minSz then ok && w == v else (w, ok) == Flushed(v, polls, 0, tmo, cap)
  }

  ghost predicate DidGet(size: nat, polls: Polls, tmo: nat, bytes: Option<seq<byte>>, v: View, w: View, cap: nat) {
    var u := DataWaited(v, polls, 0, tmo, cap);
    && (bytes.Some? <==> u.queued != []) && BytesOf(bytes) + w.queued == u.queued
    && w == u.(queued := w.queued, inflow := if bytes.Some? then u.inflow.Deliver(bytes.value) else u.inflow)
    && (bytes.Some? ==> |bytes.value| <= size && (size > 0 ==> bytes.value != []))
  }

  /** The views before, between and behind the events. */
  ghost predicate Path(events: seq<Event>, replies: seq<Reply>, views: seq<View>, cap: nat) {
    && |replies| == |events| && |views| == |events| + 1
    && forall i | 0 <= i < |events| :: Did(events[i], replies[i], views[i], views[i + 1], cap)
  }

  /** The message that an event accepts, and the bytes that it fetches. */
  function AcceptedOne(e: Event, r: Reply): seq<Msg> {
    if e.Send? && r.SentMsg? && r.ok && |e.msg.data| <= USR_DATA_LEN_MAX then [e.msg] else []
  }

  function FetchedOne(r: Reply): seq<byte> {
    if r.Got? then BytesOf(r.bytes) else []
  }

  /** The messages of the successful calls, and the bytes that the target has fetched. */
  function Accepted(events: seq<Event>, replies: seq<Reply>): seq<Msg>
    requires |replies| == |events|
  {
    if events == [] then []
    else
      var n := |events| - 1;
      Accepted(events[..n], replies[..n]) + AcceptedOne(events[n], replies[n])
  }

  function Fetched(replies: seq<Reply>): seq<byte> {
    if replies == [] then []
    else Fetched(replies[..|replies| - 1]) + FetchedOne(replies[|replies| - 1])
  }

  /** One event accepts what its reply says. */
  lemma DidStream(e: Event, r: Reply, v: View, w: View, cap: nat)
    requires Did(e, r, v, w, cap) && Orderly(v)
    ensures w.log.All() == v.log.All() + AcceptedOne(e, r)
    ensures w.inflow.delivered == v.inflow.delivered + FetchedOne(r)
    ensures v.host.stream <= w.host.stream
  {
    hide Wire, Log.Valid, Log.All, Sent, Accepts, Flushed, DataWaited, HostDoes, Polled, SameLog;
    assert v.log.All() + [] == v.log.All() && v.inflow.delivered + [] == v.inflow.delivered;
    match e {
      case Send(m, polls, tmo) =>
        if |m.data| <= USR_DATA_LEN_MAX {
          SentKeeps(v, m, polls, tmo, cap);
        }
      case FlushAll(minSz, polls, tmo) =>
        FlushedKeeps(v, polls, 0, tmo, cap);
        SameAll(v, Flushed(v, polls, 0, tmo, cap).0);
      case Get(size, polls, tmo) =>
        DataKeeps(v, polls, 0, tmo, cap);
        SameAll(v, DataWaited(v, polls, 0, tmo, cap));
      case HostAction(step) =>
        DoesPolled(v, step);
        PolledKeeps(v, w);
        SameAll(v, w);
    }
  }

  lemma DoesPolled(v: View, s: HostStep)
    ensures Polled(v, HostDoes(v, s))
  {
    hide HostDoes, Wire;
    DoesLog(v, s);
  }

  /** Over every path the log grows by exactly the accepted messages, and what the target fetches by exactly
      what the calls return. */
  lemma {:induction false} PathStream(events: seq<Event>, replies: seq<Reply>, views: seq<View>, cap: nat)
    requires Path(events, replies, views, cap) && forall i | 0 <= i < |views| :: Orderly(views[i])
    ensures views[|events|].log.All() == views[0].log.All() + Accepted(events, replies)
    ensures views[|events|].inflow.delivered == views[0].inflow.delivered + Fetched(replies)
    ensures views[0].host.stream <= views[|events|].host.stream
    decreases |events|
  {
    hide Did, Log.All, Orderly, Accepted, Fetched;
    if events == [] {
      NoEvents(views[0]);
    } else {
      var n := |events| - 1;
      var v := views[..n + 1];
      assert v[0] == views[0] && v[n] == views[n];
      PathStream(events[..n], replies[..n], v, cap);
      LastEvent(events, replies);
      DidStream(events[n], replies[n], views[n], views[n + 1], cap);
      Associative(views[0].log.All(), Accepted(events[..n], replies[..n]), AcceptedOne(events[n], replies[n]));
      Associative(views[0].inflow.delivered, Fetched(replies[..n]), FetchedOne(replies[n]));
    }
  }

  lemma NoEvents(v: View)
    ensures v.log.All() + Accepted([], []) == v.log.All()
    ensures v.inflow.delivered + Fetched([]) == v.inflow.delivered
  {
  }

  lemma LastEvent(events: seq<Event>, replies: seq<Reply>)
    requires |replies| == |events| > 0
    ensures var n := |events| - 1;
      && Accepted(events, replies) == Accepted(events[..n], replies[..n]) + AcceptedOne(events[n], replies[n])
      && Fetched(replies) == Fetched(replies[..n]) + FetchedOne(replies[n])
  {
  }

  /** Run the target and the host in any interleaving. */
  method Run(t: TraceBuffer, events: seq<Event>) returns (replies: seq<Reply>, ghost views: seq<View>)
    requires t.Valid()
    modifies t.Repr()
    ensures t.Valid()
    ensures Path(events, replies, views, t.Capacity()) && views[0] == old(t.Now()) && views[|events|] == t.Now()
    ensures t.log.All() == old(t.log).All() + Accepted(events, replies)
    ensures t.inflow.delivered == old(t.inflow).delivered + Fetched(replies)
  {
    hide TraceBuffer.Valid, Log.All, Orderly, InBlock, Did, Wire;
    replies, views := [], [t.Now()];
    t.Bounds();
    for i := 0 to |events|
      invariant t.Valid() && |replies| == i && |views| == i + 1 && views[0] == old(t.Now()) && views[i] == t.Now()
      invariant forall j | 0 <= j < i :: Did(events[j], replies[j], views[j], views[j + 1], t.Capacity())
      invariant forall j | 0 <= j <= i :: Orderly(views[j])
    {
      var r := RunOne(t, events[i]);
      t.Bounds();
      replies, views := replies + [r], views + [t.Now()];
    }
    PathStream(events, replies, views, t.Capacity());
  }

  method RunOne(t: TraceBuffer, e: Event) returns (r: Reply)
    requires t.Valid()
    modifies t.Repr()
    ensures t.Valid() && Did(e, r, old(t.Now()), t.Now(), t.Capacity())
  {
    hide TraceBuffer.Valid, Wire, Log.All, RingBuffer.At, Accepts, Sent, Flushed, DataWaited, HostDoes;
    hide Acknowledges, Blocks, Posts, Backlog.All;
    match e {
      case Send(m, polls, tmo) =>
        var ok := t.Write(m.core, m.data, polls, tmo);
        r := SentMsg(ok);
      case FlushAll(minSz, polls, tmo) =>
        var ok := t.Flush(minSz, polls, tmo);
        r := FlushedAll(ok);
      case Get(size, polls, tmo) =>
        var bytes := t.DownBufferGet(size, polls, tmo);
        r := Got(bytes);
      case HostAction(step) =>
        t.HostDo(step);
        r := Stepped;
    }
  }
}
