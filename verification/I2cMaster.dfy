/**
 Master transfers of i2c.c: a list of commands is carried out in batches that fit the command
 registers and the FIFOs of the controller, one batch for each interrupt.
 */
module I2cMaster {
  import opened Bytes

  const I2C_FIFO_LEN := 32
  const COMMAND_REGISTERS := 16
  const MAX_BYTE_NUM := 255

  /** One link of the command list: a start or stop condition; bytes to write, `immediate` for one that is
      kept in the command itself; or `len` bytes to read to address `at` and the ack value to send. */
  datatype Cmd =
    | Plain(stop: bool)
    | Write(data: seq<byte>, ackEn: bool, immediate: bool)
    | Read(at: nat, len: nat, ack: bool)

  datatype AckType = ACK | NACK | LAST_NACK

  /** A command register. */
  datatype HwCmd =
    | HwPlain(stop: bool)
    | HwWrite(n: nat, ackEn: bool)
    | HwRead(n: nat, ack: bool)
    | HwEnd

  /** What happens on the bus. */
  datatype BusOp =
    | Edge(stop: bool)
    | Sent(b: byte, ackEn: bool)
    | Received(ack: bool)

  function SentAll(data: seq<byte>, ackEn: bool): (ops: seq<BusOp>)
    ensures |ops| == |data|
  {
    seq(|data|, i requires 0 <= i < |data| => Sent(data[i], ackEn))
  }

  function ReceivedAll(n: nat, ack: bool): (ops: seq<BusOp>)
    ensures |ops| == n
  {
    seq(n, _ => Received(ack))
  }

  function AddressesOf(at: nat, n: nat): (addresses: seq<nat>)
    ensures |addresses| == n
  {
    seq(n, i requires i >= 0 => at + i)
  }

  function OpsOf(c: Cmd): seq<BusOp> {
    match c
    case Plain(stop) => [Edge(stop)]
    case Write(data, ackEn, _) => SentAll(data, ackEn)
    case Read(_, len, ack) => ReceivedAll(len, ack)
  }

  function TargetsOf(c: Cmd): seq<nat> {
    if c.Read? then AddressesOf(c.at, c.len) else []
  }

  /** The bus operations of a command list, and the addresses of the bytes that it reads. */
  function Ops(cmds: seq<Cmd>): seq<BusOp> {
    if cmds == [] then [] else OpsOf(cmds[0]) + Ops(cmds[1..])
  }

  function Targets(cmds: seq<Cmd>): seq<nat> {
    if cmds == [] then [] else TargetsOf(cmds[0]) + Targets(cmds[1..])
  }

  /** As i2c.c builds command lists: no byte count is 0. */
  predicate Proper(c: Cmd) {
    match c
    case Plain(_) => true
    case Write(data, _, immediate) => 0 < |data| <= MAX_BYTE_NUM && (immediate ==> |data| == 1)
    case Read(_, len, _) => 0 < len <= MAX_BYTE_NUM
  }

  ghost predicate AllProper(cmds: seq<Cmd>) {
    forall i | 0 <= i < |cmds| :: Proper(cmds[i])
  }

  lemma Unfolded(a: seq<Cmd>, b: seq<Cmd>)
    requires a != []
    ensures Ops(a) == OpsOf(a[0]) + Ops(a[1..]) && Ops(a + b) == OpsOf(a[0]) + Ops(a[1..] + b)
    ensures Targets(a) == TargetsOf(a[0]) + Targets(a[1..]) && Targets(a + b) == TargetsOf(a[0]) + Targets(a[1..] + b)
  {
    hide OpsOf, TargetsOf;
    assert (a + b)[0] == a[0] && (a + b)[1..] == a[1..] + b;
  }

  lemma {:induction false} OpsConcat(a: seq<Cmd>, b: seq<Cmd>)
    ensures Ops(a + b) == Ops(a) + Ops(b)
  {
    if a == [] {
      assert a + b == b;
    } else {
      hide Ops, OpsOf, Targets, TargetsOf;
      OpsConcat(a[1..], b);
      Unfolded(a, b);
      Associative(OpsOf(a[0]), Ops(a[1..]), Ops(b));
    }
  }

  lemma {:induction false} TargetsConcat(a: seq<Cmd>, b: seq<Cmd>)
    ensures Targets(a + b) == Targets(a) + Targets(b)
  {
    if a == [] {
      assert a + b == b;
    } else {
      hide Ops, OpsOf, Targets, TargetsOf;
      TargetsConcat(a[1..], b);
      Unfolded(a, b);
      Associative(TargetsOf(a[0]), Targets(a[1..]), Targets(b));
    }
  }

  lemma SingleOps(c: Cmd)
    ensures Ops([c]) == OpsOf(c) && Targets([c]) == TargetsOf(c)
  {
    hide OpsOf, TargetsOf;
  }

  lemma SplitSent(data: seq<byte>, n: nat, m: nat, ackEn: bool)
    requires n <= m <= |data|
    ensures SentAll(data[..m], ackEn) == SentAll(data[..n], ackEn) + SentAll(data[n..m], ackEn)
  {
  }

  lemma SplitReceived(at: nat, n: nat, m: nat, ack: bool)
    ensures ReceivedAll(n + m, ack) == ReceivedAll(n, ack) + ReceivedAll(m, ack)
    ensures AddressesOf(at, n + m) == AddressesOf(at, n) + AddressesOf(at + n, m)
  {
  }

  lemma SentNone(ackEn: bool)
    ensures SentAll([], ackEn) == []
  {
  }

  lemma ReceivedNone(at: nat, ack: bool)
    ensures ReceivedAll(0, ack) == [] && AddressesOf(at, 0) == []
  {
  }

  /** Byte i of a read is answered with NACK if it is to be for all bytes, or for the last one. */
  function Acknowledged(len: nat, ack: AckType): seq<BusOp> {
    seq(len, i => Received(ack == NACK || (ack == LAST_NACK && i == len - 1)))
  }

  lemma LastNacked(at: nat, len: nat, ack: AckType)
    requires len > 0
    ensures Acknowledged(len, ack) ==
      if ack == LAST_NACK then ReceivedAll(len - 1, false) + ReceivedAll(1, true) else ReceivedAll(len, ack == NACK)
    ensures AddressesOf(at, len) == AddressesOf(at, len - 1) + AddressesOf(at + (len - 1), 1)
    ensures ReceivedAll(0, false) == [] && AddressesOf(at, 0) == []
  {
  }

  lemma WriteProper(c: Cmd)
    requires c.Write? && 0 < |c.data| <= MAX_BYTE_NUM && (c.immediate ==> |c.data| == 1)
    ensures Proper(c) && OpsOf(c) == SentAll(c.data, c.ackEn) && TargetsOf(c) == []
  {
  }

  lemma ReadProper(c: Cmd)
    requires c.Read? && 0 < c.len <= MAX_BYTE_NUM
    ensures Proper(c) && OpsOf(c) == ReceivedAll(c.len, c.ack) && TargetsOf(c) == AddressesOf(c.at, c.len)
  {
  }

  // ---------------------------------------------------------------- building a list

  class CmdLink {
    var cmds: seq<Cmd>

    constructor ()
      ensures cmds == []
    {
      cmds := [];
    }

    method Append(c: Cmd)
      requires Proper(c)
      requires AllProper(cmds)
      modifies this
      ensures AllProper(cmds)
      ensures cmds == old(cmds) + [c]
      ensures Ops(cmds) == old(Ops(cmds)) + OpsOf(c) && Targets(cmds) == old(Targets(cmds)) + TargetsOf(c)
    {
      hide Ops, OpsOf, Targets, TargetsOf;
      OpsConcat(cmds, [c]);
      TargetsConcat(cmds, [c]);
      SingleOps(c);
      cmds := cmds + [c];
    }

    method WriteBytes(data: seq<byte>, ackEn: bool)
      requires AllProper(cmds)
      modifies this
      ensures AllProper(cmds)
      ensures Ops(cmds) == old(Ops(cmds)) + SentAll(data, ackEn) && Targets(cmds) == old(Targets(cmds))
    {
      hide Ops, OpsOf, Targets, TargetsOf, SentAll, Proper;
      SentNone(ackEn);
      var offset := 0;
      assert data[..0] == [];
      while offset < |data|
        invariant offset <= |data|
        invariant AllProper(cmds)
        invariant Ops(cmds) == old(Ops(cmds)) + SentAll(data[..offset], ackEn) && Targets(cmds) == old(Targets(cmds))
      {
        var len := Min(|data| - offset, MAX_BYTE_NUM);
        var c := Write(data[offset..offset + len], ackEn, false);
        WriteProper(c);
        Append(c);
        SplitSent(data, offset, offset + len, ackEn);
        offset := offset + len;
      }
      assert data[..offset] == data;
    }

    method WriteByte(b: byte, ackEn: bool)
      requires AllProper(cmds)
      modifies this
      ensures AllProper(cmds)
      ensures Ops(cmds) == old(Ops(cmds)) + [Sent(b, ackEn)] && Targets(cmds) == old(Targets(cmds))
    {
      Append(Write([b], ackEn, true));
    }

    method ReadStatic(at: nat, len: nat, ack: bool)
      requires AllProper(cmds)
      modifies this
      ensures AllProper(cmds)
      ensures Ops(cmds) == old(Ops(cmds)) + ReceivedAll(len, ack)
      ensures Targets(cmds) == old(Targets(cmds)) + AddressesOf(at, len)
    {
      hide Ops, OpsOf, Targets, TargetsOf, ReceivedAll, AddressesOf, Proper;
      ReceivedNone(at, ack);
      var offset := 0;
      while offset < len
        invariant offset <= len
        invariant AllProper(cmds)
        invariant Ops(cmds) == old(Ops(cmds)) + ReceivedAll(offset, ack)
        invariant Targets(cmds) == old(Targets(cmds)) + AddressesOf(at, offset)
      {
        var n := Min(len - offset, MAX_BYTE_NUM);
        var c := Read(at + offset, n, ack);
        ReadProper(c);
        Append(c);
        SplitReceived(at, offset, n, ack);
        offset := offset + n;
      }
    }

    /** i2c_master_start and i2c_master_stop. */
    method Condition(stop: bool)
      requires AllProper(cmds)
      modifies this
      ensures AllProper(cmds)
      ensures Ops(cmds) == old(Ops(cmds)) + [Edge(stop)] && Targets(cmds) == old(Targets(cmds))
    {
      Append(Plain(stop));
    }

    /** i2c_master_read: with LAST_NACK all bytes but the last are acknowledged (ack value 0). */
    method ReadBytes(at: nat, len: nat, ack: AckType) returns (ok: bool)
      requires AllProper(cmds)
      modifies this
      ensures AllProper(cmds)
      ensures ok <==> len > 0
      ensures !ok ==> cmds == old(cmds)
      ensures ok ==> Ops(cmds) == old(Ops(cmds)) + Acknowledged(len, ack)
      ensures ok ==> Targets(cmds) == old(Targets(cmds)) + AddressesOf(at, len)
    {
      hide Ops, OpsOf, Targets, TargetsOf, ReceivedAll, AddressesOf, Acknowledged, Proper;
      if len == 0 {
        return false;
      }
      LastNacked(at, len, ack);
      ok := true;
      if ack != LAST_NACK {
        ReadStatic(at, len, ack == NACK);
        return;
      }
      if len > 1 {
        ReadStatic(at, len - 1, false);
      }
      var c := Read(at + (len - 1), 1, true);
      ReadProper(c);
      Append(c);
    }
  }

  // ---------------------------------------------------------------- carrying out a list

  datatype Status = IDLE | WRITING | READING

  /** The driver's fields; `rxCnt` bytes of the first command are on their way. */
  datatype Driver = Driver(link: seq<Cmd>, status: Status, cmdIdx: nat, rxCnt: int, txRemain: nat, rxRemain: nat)

  /** The controller: command registers, of which the batch uses those below `limit`, and FIFOs. */
  datatype Hw = Hw(command: seq<HwCmd>, limit: nat, txFifo: seq<byte>, rxFifo: seq<byte>)

  /** What has happened: bus operations, the number of bytes received, bytes stored and where. */
  datatype Trace = Trace(bus: seq<BusOp>, received: nat, storedAt: seq<nat>, stored: seq<byte>)

  /** What a transfer gets wrong: conditions that the bus sees once more, and conditions left out. */
  datatype Faults = Faults(strays: nat, skips: nat) {
    function Add(more: nat, missing: nat): Faults {
      Faults(strays + more, skips + missing)
    }
  }

  /** Behind a batch of 15 conditions that follows a read, the driver takes another condition for the
      read, and drops it. */
  predicate SkipsHead(link: seq<Cmd>, afterRead: bool) {
    afterRead && link != [] && link[0].Plain?
  }

  /** The faults of a list: a read of up to 32 bytes right behind conditions leaves these, `idx` of them,
      in the first registers, where the next batch repeats them. */
  function FaultsOf(cmds: seq<Cmd>, idx: nat, afterRead: bool): Faults {
    if cmds == [] then Faults(0, 0)
    else match cmds[0]
      case Plain(_) =>
        if idx + 1 < 15 then FaultsOf(cmds[1..], idx + 1, afterRead)
        else if SkipsHead(cmds[1..], afterRead) then FaultsOf(cmds[2..], 0, afterRead).Add(0, 1)
        else FaultsOf(cmds[1..], 0, afterRead)
      case Write(_, _, _) => FaultsOf(cmds[1..], 0, false)
      case Read(_, len, _) =>
        if len > I2C_FIFO_LEN then FaultsOf(cmds[1..], 0, true)
        else FaultsOf(cmds[1..], idx, true).Add(if cmds[1..] == [] then 0 else idx, 0)
  }

  /** What the controller does for a list when `held` conditions lie in the first registers: the conditions up to the
      next transfer, or to the end of the registers or the list, make a batch with them; and a read of up to 32
      bytes leaves them there for the next batch. */
  function Bus(cmds: seq<Cmd>, held: seq<BusOp>, afterRead: bool): seq<BusOp>
    decreases |cmds|
  {
    if cmds == [] then []
    else match cmds[0]
      case Plain(stop) =>
        var all := held + [Edge(stop)];
        if |all| < 15 && cmds[1..] != [] then Bus(cmds[1..], all, afterRead)
        else if |all| >= 15 && SkipsHead(cmds[1..], afterRead) then all + Bus(cmds[2..], [], afterRead)
        else all + Bus(cmds[1..], [], afterRead)
      case Write(_, _, _) => (held + OpsOf(cmds[0])) + Bus(cmds[1..], [], false)
      case Read(_, len, _) =>
        (held + OpsOf(cmds[0])) + Bus(cmds[1..], if len > I2C_FIFO_LEN then [] else held, true)
  }

  ghost predicate PlainBelow(command: seq<HwCmd>, k: nat) {
    k <= |command| && forall i | 0 <= i < k :: command[i].HwPlain?
  }

  function Edges(command: seq<HwCmd>, k: nat): (ops: seq<BusOp>)
    requires PlainBelow(command, k)
    ensures |ops| == k
  {
    seq(k, i requires 0 <= i < k => Edge(command[i].stop))
  }

  lemma EdgesSnoc(command: seq<HwCmd>, k: nat)
    requires PlainBelow(command, k + 1)
    ensures PlainBelow(command, k) && Edges(command, k + 1) == Edges(command, k) + [Edge(command[k].stop)]
  {
  }

  /** The bytes that the slaves send, from the one with number `first` on. */
  function FromSlave(slave: nat -> byte, first: nat, n: nat): (bytes: seq<byte>)
    ensures |bytes| == n
  {
    seq(n, i requires i >= 0 => slave(first + i))
  }

  /** A programmed batch: `k` conditions, then at most one transfer. */
  ghost predicate Batch(hw: Hw, k: nat) {
    && |hw.command| == COMMAND_REGISTERS && k < COMMAND_REGISTERS
    && PlainBelow(hw.command, k)
    && (hw.limit == k || (hw.limit == k + 2 && k + 2 <= COMMAND_REGISTERS && hw.command[k + 1].HwEnd?))
    && (hw.limit == k + 2 && hw.command[k].HwWrite? ==> hw.command[k].n == |hw.txFifo|)
    && (hw.limit == k + 2 && !hw.command[k].HwWrite? ==> hw.command[k].HwRead? && hw.command[k].n <= I2C_FIFO_LEN)
    && (hw.limit == k || !hw.command[k].HwWrite? ==> hw.txFifo == []) && |hw.txFifo| <= I2C_FIFO_LEN
    && hw.rxFifo == []
  }

  /** The bus operations of a batch, and the number of bytes that it receives. */
  ghost function Due(hw: Hw, k: nat): seq<BusOp>
    requires Batch(hw, k)
  {
    Edges(hw.command, k) +
    if hw.limit == k then []
    else if hw.command[k].HwWrite? then SentAll(hw.txFifo, hw.command[k].ackEn)
    else ReceivedAll(hw.command[k].n, hw.command[k].ack)
  }

  ghost function Arriving(hw: Hw, k: nat): nat
    requires Batch(hw, k)
  {
    if hw.limit == k || hw.command[k].HwWrite? then 0 else hw.command[k].n
  }

  // ---------------------------------------------------------------- the state between two batches

  /** The byte count of a command. */
  function ByteNum(c: Cmd): nat {
    match c
    case Plain(_) => 0
    case Write(data, _, _) => |data|
    case Read(_, len, _) => len
  }

  /** Before a batch is programmed: registers below cmdIdx hold conditions of an earlier batch. */
  ghost predicate Prepared(d: Driver, h: Hw) {
    && |h.command| == COMMAND_REGISTERS && PlainBelow(h.command, d.cmdIdx) && d.cmdIdx < 15
    && h.txFifo == [] && h.rxFifo == []
    && d.txRemain == d.rxRemain == I2C_FIFO_LEN && d.rxCnt <= 0
    && AllProper(d.link)
  }

  /** After a batch has been programmed, up to the end of its execution: `n` bytes of a read are on
      their way. */
  ghost predicate Programmed(d: Driver, h: Hw, n: nat) {
    && |h.command| == COMMAND_REGISTERS && PlainBelow(h.command, d.cmdIdx) && d.cmdIdx < 15
    && d.txRemain == d.rxRemain == I2C_FIFO_LEN
    && (if n > 0 then
          d.rxCnt == n && d.status == READING && d.link != [] && d.link[0].Read? && d.link[0].len <= MAX_BYTE_NUM &&
          AllProper(d.link[1..])
        else d.rxCnt <= 0 && d.cmdIdx == 0 && AllProper(d.link))
  }

  /** The addresses that are still to be filled. */
  ghost function TargetsLeft(d: Driver, n: nat): seq<nat>
    requires n > 0 ==> d.link != [] && d.link[0].Read?
  {
    if n > 0 then AddressesOf(d.link[0].at, n + d.link[0].len) + Targets(d.link[1..]) else Targets(d.link)
  }

  /** The link and the index with which the next batch is programmed. */
  function NextLink(d: Driver): seq<Cmd> {
    if d.status == READING && d.link != [] && ByteNum(d.link[0]) == 0 then d.link[1..] else d.link
  }

  function NextIdx(d: Driver): nat {
    if d.status == READING && d.link != [] && ByteNum(d.link[0]) > 0 then 0 else d.cmdIdx
  }

  /** What is still to come on the bus. */
  ghost function BusLeft(d: Driver, h: Hw): seq<BusOp>
    requires PlainBelow(h.command, d.cmdIdx)
  {
    Bus(NextLink(d), Edges(h.command, NextIdx(d)), d.status == READING)
  }

  /** The link once n bytes of its read have been stored. */
  function Advanced(link: seq<Cmd>, n: nat): seq<Cmd>
    requires n > 0 ==> link != [] && link[0].Read?
  {
    if n > 0 then link[0 := link[0].(at := link[0].at + n)] else link
  }

  lemma AdvanceKeeps(link: seq<Cmd>, n: nat, held: seq<BusOp>, afterRead: bool)
    requires n > 0 ==> link != [] && link[0].Read?
    ensures var a := Advanced(link, n);
      && |a| == |link| && (link != [] ==> a[1..] == link[1..] && ByteNum(a[0]) == ByteNum(link[0]))
      && Ops(a) == Ops(link)
      && Bus(a, held, afterRead) == Bus(link, held, afterRead)
  {
    if n > 0 {
      assert Advanced(link, n)[1..] == link[1..];
    }
  }

  lemma EmptyOps(link: seq<Cmd>)
    requires link != [] && !link[0].Plain? && ByteNum(link[0]) == 0
    ensures Ops(link) == Ops(link[1..])
  {
    hide SentAll, ReceivedAll;
    assert |OpsOf(link[0])| == 0;
  }

  lemma AdvanceTargets(link: seq<Cmd>, n: nat)
    requires n > 0 && link != [] && link[0].Read?
    ensures var c := link[0];
      AddressesOf(c.at, n + c.len) + Targets(link[1..]) ==
      AddressesOf(c.at, n) + (if c.len == 0 then Targets(link[1..]) else Targets(Advanced(link, n)))
  {
    hide AddressesOf;
    var c := link[0];
    SplitReceived(c.at, n, c.len, c.ack);
    ReceivedNone(c.at + n, c.ack);
    assert Advanced(link, n)[1..] == link[1..];
    assert Targets(Advanced(link, n)) == AddressesOf(c.at + n, c.len) + Targets(link[1..]);
  }

  /** Storing the bytes received changes what is left by just these. */
  lemma DrainKeeps(d: Driver, h: Hw, n: nat)
    requires n > 0 ==> d.link != [] && d.link[0].Read? && d.status == READING
    requires d.link != [] && d.link[0].Write? ==> d.link[0].data != []
    requires n == 0 && d.link != [] && d.link[0].Read? ==> d.link[0].len > 0
    requires PlainBelow(h.command, d.cmdIdx)
    ensures var l := NextLink(d.(link := Advanced(d.link, n)));
      && |Ops(l)| <= |Ops(d.link)|
      && TargetsLeft(d, n) == (if n > 0 then AddressesOf(d.link[0].at, n) else []) + Targets(l)
      && BusLeft(d, h) == Bus(l, Edges(h.command, NextIdx(d)), d.status == READING)
  {
    hide Ops, Targets, Bus, AddressesOf, Edges;
    AdvanceKeeps(d.link, n, Edges(h.command, NextIdx(d)), d.status == READING);
    if n > 0 {
      AdvanceTargets(d.link, n);
      if d.link[0].len == 0 {
        EmptyOps(d.link);
      }
    } else if d.link != [] && d.link[0].Plain? {
      PlainKeeps(d.link);
    }
  }

  // ---------------------------------------------------------------- programming a batch

  /** What is to come on the bus before a batch is programmed. */
  ghost function ToDo(d: Driver, h: Hw): seq<BusOp>
    requires PlainBelow(h.command, d.cmdIdx)
  {
    Bus(d.link, Edges(h.command, d.cmdIdx), d.status == READING)
  }

  /** Programming has come from the state d0, h0 to the state d, h by passing over conditions only. */
  ghost predicate Passed(d0: Driver, h0: Hw, d: Driver, h: Hw)
    requires Prepared(d0, h0)
  {
    && Prepared(d, h) && d.status == d0.status
    && Bus(d.link, Edges(h.command, d.cmdIdx), d.status == READING) == ToDo(d0, h0)
    && Targets(d.link) == Targets(d0.link)
    && |Ops(d.link)| <= |Ops(d0.link)|
  }

  /** Programming has come to an end with a batch of k conditions that lets n bytes arrive. */
  ghost predicate BatchReady(d: Driver, h: Hw, k: nat, n: nat) {
    && Batch(h, k) && Arriving(h, k) == n && Programmed(d, h, n)
  }

  /** The batch, and what is to come behind it, is what was to come. */
  ghost predicate OpsReady(d0: Driver, h0: Hw, d: Driver, h: Hw, k: nat)
    requires Prepared(d0, h0) && Batch(h, k) && PlainBelow(h.command, d.cmdIdx)
  {
    && Due(h, k) + BusLeft(d, h) == ToDo(d0, h0)
    && |Ops(d.link)| < |Ops(d0.link)|
  }

  ghost predicate TargetsReady(d0: Driver, d: Driver, n: nat)
    requires n > 0 ==> d.link != [] && d.link[0].Read?
  {
    TargetsLeft(d, n) == Targets(d0.link)
  }

  ghost predicate Ready(d0: Driver, h0: Hw, d: Driver, h: Hw, k: nat, n: nat)
    requires Prepared(d0, h0)
  {
    BatchReady(d, h, k, n) && OpsReady(d0, h0, d, h, k) && TargetsReady(d0, d, n)
  }

  lemma EdgesPrefix(a: seq<HwCmd>, b: seq<HwCmd>, k: nat)
    requires PlainBelow(a, k) && k <= |b| && a[..k] == b[..k]
    ensures PlainBelow(b, k) && Edges(a, k) == Edges(b, k)
  {
    assert forall i | 0 <= i < k :: a[i] == a[..k][i] == b[..k][i] == b[i];
  }

  lemma PassPlain(d0: Driver, h0: Hw, d: Driver, h: Hw)
    requires Prepared(d0, h0) && Passed(d0, h0, d, h) && |d.link| > 1 && d.link[0].Plain? && d.cmdIdx + 1 < 15
    ensures Passed(d0, h0, d.(link := d.link[1..], cmdIdx := d.cmdIdx + 1),
                   h.(command := h.command[d.cmdIdx := HwPlain(d.link[0].stop)]))
  {
    hide Ops, Targets;
    var command := h.command[d.cmdIdx := HwPlain(d.link[0].stop)];
    EdgesPrefix(h.command, command, d.cmdIdx);
    EdgesSnoc(command, d.cmdIdx);
    PlainKeeps(d.link);
  }

  lemma PlainKeeps(link: seq<Cmd>)
    requires link != [] && link[0].Plain?
    ensures Ops(link) == [Edge(link[0].stop)] + Ops(link[1..])
    ensures Targets(link) == Targets(link[1..])
  {
    hide OpsOf, TargetsOf;
    PlainOps(link[0]);
  }

  lemma PlainOps(c: Cmd)
    requires c.Plain?
    ensures OpsOf(c) == [Edge(c.stop)] && TargetsOf(c) == []
  {
  }

  /** The batch ends because the list does, or because the registers are used up. */
  lemma EndPlain(d0: Driver, h0: Hw, d: Driver, h: Hw)
    requires Prepared(d0, h0) && Passed(d0, h0, d, h) && d.link != [] && d.link[0].Plain?
    requires d.cmdIdx + 1 == 15 || |d.link| == 1
    ensures Ready(d0, h0, d.(link := d.link[1..], cmdIdx := 0),
                  h.(command := h.command[d.cmdIdx := HwPlain(d.link[0].stop)], limit := d.cmdIdx + 1), d.cmdIdx + 1, 0)
  {
    PlainBatch(d, h);
    PlainBus(d.link, Edges(h.command, d.cmdIdx), d.status == READING);
    hide Ops, Targets, Bus, ToDo, BatchReady, Due, Batch;
    PlainKeeps(d.link);
  }

  lemma PlainBatch(d: Driver, h: Hw)
    requires Prepared(d, h) && d.link != [] && d.link[0].Plain?
    ensures var h' := h.(command := h.command[d.cmdIdx := HwPlain(d.link[0].stop)], limit := d.cmdIdx + 1);
      && BatchReady(d.(link := d.link[1..], cmdIdx := 0), h', d.cmdIdx + 1, 0)
      && Due(h', d.cmdIdx + 1) == Edges(h.command, d.cmdIdx) + [Edge(d.link[0].stop)]
  {
    var command := h.command[d.cmdIdx := HwPlain(d.link[0].stop)];
    EdgesPrefix(h.command, command, d.cmdIdx);
    EdgesSnoc(command, d.cmdIdx);
    hide Edges;
  }

  /** The link behind a batch of conditions. */
  function BehindPlain(link: seq<Cmd>, afterRead: bool): seq<Cmd>
    requires link != []
  {
    if afterRead && link[1..] != [] && ByteNum(link[1]) == 0 then link[1..][1..] else link[1..]
  }

  lemma PlainBus(link: seq<Cmd>, held: seq<BusOp>, afterRead: bool)
    requires link != [] && link[0].Plain? && AllProper(link) && |held| < 15 && (|held| + 1 == 15 || |link| == 1)
    ensures Bus(link, held, afterRead) ==
      (held + [Edge(link[0].stop)]) + Bus(BehindPlain(link, afterRead), [], afterRead)
  {
    assert |link| > 1 ==> Proper(link[1]) && link[1..][1..] == link[2..];
    if |link| == 1 {
      assert link[1..] == [];
    }
  }

  /** The link behind the first `n` bytes of a write. */
  function Written(link: seq<Cmd>, n: nat): seq<Cmd>
    requires link != [] && link[0].Write? && n <= |link[0].data|
  {
    if n == |link[0].data| then link[1..] else link[0 := link[0].(data := link[0].data[n..])]
  }

  lemma WrittenKeeps(link: seq<Cmd>, n: nat)
    requires link != [] && link[0].Write? && n <= |link[0].data|
    ensures Ops(link) == SentAll(link[0].data[..n], link[0].ackEn) + Ops(Written(link, n))
    ensures Targets(Written(link, n)) == Targets(link)
  {
    hide SentAll;
    var c := link[0];
    SplitSent(c.data, n, |c.data|, c.ackEn);
    SentNone(c.ackEn);
    assert c.data[..|c.data|] == c.data && c.data[n..|c.data|] == c.data[n..];
    assert link[0 := c.(data := c.data[n..])][1..] == link[1..];
  }

  lemma WriteBus(link: seq<Cmd>, held: seq<BusOp>, afterRead: bool, n: nat)
    requires link != [] && link[0].Write? && n <= |link[0].data|
    ensures Bus(link, held, afterRead) ==
      (held + SentAll(link[0].data[..n], link[0].ackEn)) + Bus(Written(link, n), [], false)
  {
    hide SentAll;
    var c := link[0];
    var first, rest := SentAll(c.data[..n], c.ackEn), SentAll(c.data[n..], c.ackEn);
    SplitSent(c.data, n, |c.data|, c.ackEn);
    assert c.data[..|c.data|] == c.data && c.data[n..|c.data|] == c.data[n..];
    var tail := Bus(link[1..], [], false);
    if n == |c.data| {
      SentNone(c.ackEn);
      assert c.data[n..] == [] && first + [] == first;
    } else {
      var l := Written(link, n);
      assert l[1..] == link[1..];
      assert Bus(l, [], false) == ([] + rest) + tail;
      assert [] + rest == rest;
      Associative(held, first, rest);
      Associative(held + first, rest, tail);
    }
  }

  lemma EndWrite(d0: Driver, h0: Hw, d: Driver, h: Hw, n: nat)
    requires Prepared(d0, h0) && Passed(d0, h0, d, h) && d.link != [] && d.link[0].Write?
    requires n == Min(|d.link[0].data|, I2C_FIFO_LEN)
    ensures var c := d.link[0];
      Ready(d0, h0, d.(link := Written(d.link, n), cmdIdx := 0, status := WRITING),
            h.(command := h.command[d.cmdIdx := HwWrite(n, c.ackEn)][d.cmdIdx + 1 := HwEnd],
               limit := d.cmdIdx + 2, txFifo := c.data[..n]), d.cmdIdx, 0)
  {
    hide Ops, Targets, Bus, ToDo;
    assert Proper(d.link[0]);
    var c := d.link[0];
    var command := h.command[d.cmdIdx := HwWrite(n, c.ackEn)][d.cmdIdx + 1 := HwEnd];
    EdgesPrefix(h.command, command, d.cmdIdx);
    WrittenKeeps(d.link, n);
    WriteBus(d.link, Edges(h.command, d.cmdIdx), d.status == READING, n);
  }

  lemma EndRead(d0: Driver, h0: Hw, d: Driver, h: Hw, n: nat)
    requires Prepared(d0, h0) && Passed(d0, h0, d, h) && d.link != [] && d.link[0].Read?
    requires n == Min(d.link[0].len, I2C_FIFO_LEN)
    ensures var c := d.link[0];
      Ready(d0, h0, d.(link := d.link[0 := c.(len := c.len - n)], rxCnt := n, status := READING),
            h.(command := h.command[d.cmdIdx := HwRead(n, c.ack)][d.cmdIdx + 1 := HwEnd], limit := d.cmdIdx + 2),
            d.cmdIdx, n)
  {
    hide Ops, Targets, Bus, ReceivedAll, AddressesOf, TargetsReady, ToDo;
    assert Proper(d.link[0]);
    var c := d.link[0];
    var command := h.command[d.cmdIdx := HwRead(n, c.ack)][d.cmdIdx + 1 := HwEnd];
    EdgesPrefix(h.command, command, d.cmdIdx);
    ReadKeeps(d.link, n);
    ReadTargets(d0, d, n);
    ReadBus(d.link, Edges(h.command, d.cmdIdx), d.status == READING, n);
  }

  lemma ReadKeeps(link: seq<Cmd>, n: nat)
    requires link != [] && link[0].Read? && n <= link[0].len
    ensures Ops(link) == ReceivedAll(n, link[0].ack) + Ops(link[0 := link[0].(len := link[0].len - n)])
  {
    hide ReceivedAll, AddressesOf;
    var c := link[0];
    SplitReceived(c.at, n, c.len - n, c.ack);
    assert link[0 := c.(len := c.len - n)][1..] == link[1..];
  }

  lemma ReadUnfold(link: seq<Cmd>, held: seq<BusOp>, afterRead: bool)
    requires link != [] && link[0].Read?
    ensures Bus(link, held, afterRead) ==
      (held + ReceivedAll(link[0].len, link[0].ack)) +
        Bus(link[1..], if link[0].len > I2C_FIFO_LEN then [] else held, true)
  {
    hide ReceivedAll;
  }

  /** A read of more than 32 bytes goes on with the registers free; another one leaves the conditions there. */
  lemma ReadBus(link: seq<Cmd>, held: seq<BusOp>, afterRead: bool, n: nat)
    requires link != [] && link[0].Read? && n == Min(link[0].len, I2C_FIFO_LEN)
    ensures var l := link[0 := link[0].(len := link[0].len - n)];
      && l[1..] == link[1..]
      && Bus(link, held, afterRead) == (held + ReceivedAll(n, link[0].ack)) +
           if link[0].len > n then Bus(l, [], true) else Bus(link[1..], held, true)
  {
    hide ReceivedAll, Bus;
    var c := link[0];
    HeadChanged(link, c.(len := c.len - n));
    ReadUnfold(link, held, afterRead);
    if c.len > n {
      ReadUnfold(link[0 := c.(len := c.len - n)], [], true);
      ReceivedSplit(held, n, c.len - n, c.ack, Bus(link[1..], [], true));
    }
  }

  lemma HeadChanged(link: seq<Cmd>, c: Cmd)
    requires link != []
    ensures link[0 := c][0] == c && link[0 := c][1..] == link[1..]
  {
  }

  lemma ReceivedSplit(held: seq<BusOp>, n: nat, m: nat, ack: bool, tail: seq<BusOp>)
    ensures (held + ReceivedAll(n + m, ack)) + tail == (held + ReceivedAll(n, ack)) + (([] + ReceivedAll(m, ack)) + tail)
  {
    hide ReceivedAll, AddressesOf;
    var first, rest := ReceivedAll(n, ack), ReceivedAll(m, ack);
    SplitReceived(0, n, m, ack);
    NothingHeld(rest);
    Associative(held, first, rest);
    Associative(held + first, rest, tail);
  }

  lemma NothingHeld(ops: seq<BusOp>)
    ensures [] + ops == ops
  {
  }

  lemma ReadTargets(d0: Driver, d: Driver, n: nat)
    requires d.link != [] && d.link[0].Read? && 0 < n == Min(d.link[0].len, I2C_FIFO_LEN)
    requires Targets(d.link) == Targets(d0.link)
    ensures
      TargetsReady(d0, d.(link := d.link[0 := d.link[0].(len := d.link[0].len - n)], rxCnt := n, status := READING), n)
  {
    hide AddressesOf;
    assert d.link[0 := d.link[0].(len := d.link[0].len - n)][1..] == d.link[1..];
  }

  // ---------------------------------------------------------------- the whole transfer

  /** A transfer of `all` is under way. */
  ghost predicate Going(all: seq<Cmd>, slave: nat -> byte, d: Driver, h: Hw, t: Trace, n: nat) {
    && Programmed(d, h, n) && h.txFifo == [] && |h.rxFifo| == n
    && OnTrack(all, slave, t.(stored := t.stored + h.rxFifo), BusLeft(d, h), TargetsLeft(d, n))
    && |t.storedAt| + n == t.received
  }

  /** `left` is to come on the bus behind `t`, and `targets` are to be filled. */
  ghost predicate OnTrack(all: seq<Cmd>, slave: nat -> byte, t: Trace, left: seq<BusOp>, targets: seq<nat>) {
    && t.bus + left == Bus(all, [], false)
    && t.stored == FromSlave(slave, 0, t.received)
    && t.storedAt + targets == Targets(all)
  }

  /** The bytes received have been stored. */
  lemma DrainTrack(all: seq<Cmd>, slave: nat -> byte, t: Trace, left: seq<BusOp>, first: seq<nat>, rest: seq<nat>)
    requires OnTrack(all, slave, t, left, first + rest)
    ensures OnTrack(all, slave, t.(storedAt := t.storedAt + first), left, rest)
  {
    Associative(t.storedAt, first, rest);
  }

  lemma ToDoIs(d: Driver, h: Hw)
    requires PlainBelow(h.command, d.cmdIdx)
    ensures ToDo(d, h) == Bus(d.link, Edges(h.command, d.cmdIdx), d.status == READING)
  {
    hide Bus, Edges;
  }

  lemma SameRegisters(d: Driver, h: Hw, h': Hw)
    requires PlainBelow(h.command, d.cmdIdx) && h'.command == h.command
    ensures BusLeft(d, h') == BusLeft(d, h)
  {
  }

  /** A batch has been carried out. */
  lemma BatchTrack(all: seq<Cmd>, slave: nat -> byte, t: Trace, targets: seq<nat>, due: seq<BusOp>,
                   left: seq<BusOp>, n: nat)
    requires OnTrack(all, slave, t, due + left, targets)
    ensures OnTrack(all, slave,
                    t.(bus := t.bus + due, received := t.received + n,
                       stored := t.stored + FromSlave(slave, t.received, n)),
                    left, targets)
  {
    hide FromSlave, Bus, Targets;
    Associative(t.bus, due, left);
    FromSlaveConcat(slave, t.received, n);
  }

  lemma FromSlaveConcat(slave: nat -> byte, m: nat, n: nat)
    ensures FromSlave(slave, 0, m) + FromSlave(slave, m, n) == FromSlave(slave, 0, m + n)
  {
  }

  lemma NothingToDo(held: seq<BusOp>, afterRead: bool)
    ensures Ops([]) == [] && Targets([]) == [] && Bus([], held, afterRead) == []
  {
  }

  // ---------------------------------------------------------------- which conditions are repeated or left out

  /** What becomes of an operation of the list: it is done, a condition is done once more, or it is left out. */
  datatype Fate = Once(op: BusOp) | Again(op: BusOp) | Never(op: BusOp)

  function Onces(ops: seq<BusOp>): (story: seq<Fate>)
    ensures |story| == |ops| && forall i | 0 <= i < |ops| :: story[i] == Once(ops[i])
  {
    seq(|ops|, i requires 0 <= i < |ops| => Once(ops[i]))
  }

  function Agains(held: seq<Fate>): (story: seq<Fate>)
    ensures |story| == |held| && forall i | 0 <= i < |held| :: story[i] == Again(held[i].op)
  {
    seq(|held|, i requires 0 <= i < |held| => Again(held[i].op))
  }

  /** The story of a list; `held` are the conditions in the first registers, new ones and ones to be repeated. */
  function Story(cmds: seq<Cmd>, held: seq<Fate>, afterRead: bool): seq<Fate>
    decreases |cmds|
  {
    if cmds == [] then []
    else match cmds[0]
      case Plain(stop) =>
        var all := held + [Once(Edge(stop))];
        if |all| < 15 && cmds[1..] != [] then Story(cmds[1..], all, afterRead)
        else if |all| >= 15 && SkipsHead(cmds[1..], afterRead) then
          all + ([Never(Edge(cmds[1].stop))] + Story(cmds[2..], [], afterRead))
        else all + Story(cmds[1..], [], afterRead)
      case Write(_, _, _) => held + (Onces(OpsOf(cmds[0])) + Story(cmds[1..], [], false))
      case Read(_, len, _) =>
        held + (Onces(OpsOf(cmds[0])) + Story(cmds[1..], if len > I2C_FIFO_LEN then [] else Agains(held), true))
  }

  /** What the bus sees of a story, what the list has asked for, and how often conditions are repeated and left out. */
  function Seen(story: seq<Fate>): seq<BusOp> {
    if story == [] then [] else (if story[0].Never? then [] else [story[0].op]) + Seen(story[1..])
  }

  function Wanted(story: seq<Fate>): seq<BusOp> {
    if story == [] then [] else (if story[0].Again? then [] else [story[0].op]) + Wanted(story[1..])
  }

  function FaultsIn(story: seq<Fate>): Faults {
    if story == [] then Faults(0, 0)
    else FaultsIn(story[1..]).Add(if story[0].Again? then 1 else 0, if story[0].Never? then 1 else 0)
  }

  lemma {:induction false} StoryConcat(a: seq<Fate>, b: seq<Fate>)
    ensures Seen(a + b) == Seen(a) + Seen(b) && Wanted(a + b) == Wanted(a) + Wanted(b)
    ensures FaultsIn(a + b) == FaultsIn(a).Add(FaultsIn(b).strays, FaultsIn(b).skips)
    decreases |a|
  {
    if a == [] {
      assert a + b == b;
    } else {
      StoryConcat(a[1..], b);
      assert (a + b)[0] == a[0] && (a + b)[1..] == a[1..] + b;
      Associative(if a[0].Never? then [] else [a[0].op], Seen(a[1..]), Seen(b));
      Associative(if a[0].Again? then [] else [a[0].op], Wanted(a[1..]), Wanted(b));
    }
  }

  lemma {:induction false} OncesTold(ops: seq<BusOp>)
    ensures Seen(Onces(ops)) == ops && Wanted(Onces(ops)) == ops && FaultsIn(Onces(ops)) == Faults(0, 0)
  {
    if ops != [] {
      OncesTold(ops[1..]);
      assert Onces(ops)[1..] == Onces(ops[1..]);
    }
  }

  ghost predicate NoneLeftOut(held: seq<Fate>) {
    forall i | 0 <= i < |held| :: !held[i].Never?
  }

  lemma {:induction false} AgainsTold(held: seq<Fate>)
    requires NoneLeftOut(held)
    ensures Seen(Agains(held)) == Seen(held) && Wanted(Agains(held)) == [] && FaultsIn(Agains(held)) == Faults(|held|, 0)
    ensures |Seen(held)| == |held| && FaultsIn(held).skips == 0
    decreases |held|
  {
    if held != [] {
      AgainsTold(held[1..]);
      assert Agains(held)[1..] == Agains(held[1..]);
    }
  }

  lemma OneTold(f: Fate)
    ensures Seen([f]) == (if f.Never? then [] else [f.op]) && Wanted([f]) == (if f.Again? then [] else [f.op])
    ensures FaultsIn([f]) == Faults(if f.Again? then 1 else 0, if f.Never? then 1 else 0)
  {
  }

  lemma HeldMore(held: seq<Fate>, e: BusOp)
    requires NoneLeftOut(held)
    ensures var all := held + [Once(e)];
      && NoneLeftOut(all) && |Seen(held)| == |held|
      && Seen(all) == Seen(held) + [e] && Wanted(all) == Wanted(held) + [e] && FaultsIn(all) == FaultsIn(held)
  {
    hide Seen, Wanted, FaultsIn;
    AgainsTold(held);
    StoryConcat(held, [Once(e)]);
    OneTold(Once(e));
  }

  /** A transfer behind `held`. */
  lemma TransferTold(held: seq<Fate>, ops: seq<BusOp>, tail: seq<Fate>)
    ensures Seen(held + (Onces(ops) + tail)) == (Seen(held) + ops) + Seen(tail)
    ensures Wanted(held + (Onces(ops) + tail)) == (Wanted(held) + ops) + Wanted(tail)
    ensures FaultsIn(held + (Onces(ops) + tail)) == FaultsIn(held).Add(FaultsIn(tail).strays, FaultsIn(tail).skips)
  {
    hide Seen, Wanted, FaultsIn, Onces;
    StoryConcat(held, Onces(ops) + tail);
    StoryConcat(Onces(ops), tail);
    OncesTold(ops);
    Associative(Seen(held), ops, Seen(tail));
    Associative(Wanted(held), ops, Wanted(tail));
  }

  /** A condition left out. */
  lemma NeverTold(all: seq<Fate>, e: BusOp, tail: seq<Fate>)
    ensures Seen(all + ([Never(e)] + tail)) == Seen(all) + Seen(tail)
    ensures Wanted(all + ([Never(e)] + tail)) == Wanted(all) + ([e] + Wanted(tail))
    ensures FaultsIn(all + ([Never(e)] + tail)) == FaultsIn(all).Add(FaultsIn(tail).strays, FaultsIn(tail).skips + 1)
  {
    hide Seen, Wanted, FaultsIn;
    StoryConcat(all, [Never(e)] + tail);
    StoryConcat([Never(e)], tail);
    OneTold(Never(e));
    assert [] + Seen(tail) == Seen(tail);
  }

  /** The bus sees the story. */
  lemma {:induction false} StoryBus(cmds: seq<Cmd>, held: seq<Fate>, afterRead: bool)
    requires NoneLeftOut(held)
    ensures Seen(Story(cmds, held, afterRead)) == Bus(cmds, Seen(held), afterRead)
    decreases |cmds|
  {
    hide Seen, Wanted, FaultsIn, Agains, OpsOf, NoneLeftOut;
    EmptyTold();
    if cmds != [] {
      match cmds[0] {
        case Plain(stop) =>
          var all := held + [Once(Edge(stop))];
          HeldMore(held, Edge(stop));
          StoryBus(cmds[1..], all, afterRead);
          StoryBus(cmds[1..], [], afterRead);
          StoryConcat(all, Story(cmds[1..], [], afterRead));
          if SkipsHead(cmds[1..], afterRead) {
            StoryBus(cmds[2..], [], afterRead);
            NeverTold(all, Edge(cmds[1].stop), Story(cmds[2..], [], afterRead));
          }
        case Write(_, _, _) =>
          StoryBus(cmds[1..], [], false);
          TransferTold(held, OpsOf(cmds[0]), Story(cmds[1..], [], false));
        case Read(_, len, _) =>
          var left := if len > I2C_FIFO_LEN then [] else Agains(held);
          AgainsTold(held);
          AgainsHeld(held);
          StoryBus(cmds[1..], left, true);
          TransferTold(held, OpsOf(cmds[0]), Story(cmds[1..], left, true));
      }
    }
  }

  lemma EmptyTold()
    ensures Seen([]) == Wanted([]) == [] && FaultsIn([]) == Faults(0, 0) && NoneLeftOut([])
  {
  }

  lemma AgainsHeld(held: seq<Fate>)
    ensures NoneLeftOut(Agains(held)) && |Agains(held)| == |held|
  {
  }

  /** Without what is repeated, and with what is left out, the story is what the list says. */
  lemma {:induction false} StoryWanted(cmds: seq<Cmd>, held: seq<Fate>, afterRead: bool)
    requires NoneLeftOut(held) && cmds != []
    ensures Wanted(Story(cmds, held, afterRead)) == Wanted(held) + Ops(cmds)
    decreases |cmds|, 1
  {
    hide Seen, Wanted, FaultsIn, Agains, OpsOf, NoneLeftOut, Ops;
    EmptyTold();
    OpsUnfold(cmds);
    var tail := cmds[1..];
    match cmds[0] {
      case Plain(stop) =>
        var e := Edge(stop);
        var all := held + [Once(e)];
        HeldMore(held, e);
        PlainOps(cmds[0]);
        Associative(Wanted(held), [e], Ops(tail));
        if |all| < 15 && tail != [] {
          StoryWanted(tail, all, afterRead);
        } else if |all| >= 15 && SkipsHead(tail, afterRead) {
          NeverTold(all, Edge(cmds[1].stop), Story(cmds[2..], [], afterRead));
          assert tail[1..] == cmds[2..];
          OpsUnfold(tail);
          PlainOps(tail[0]);
          WantedTail(cmds[2..], afterRead);
        } else {
          StoryConcat(all, Story(tail, [], afterRead));
          WantedTail(tail, afterRead);
        }
      case Write(_, _, _) =>
        TransferTold(held, OpsOf(cmds[0]), Story(tail, [], false));
        Associative(Wanted(held), OpsOf(cmds[0]), Ops(tail));
        WantedTail(tail, false);
      case Read(_, len, _) =>
        var left := if len > I2C_FIFO_LEN then [] else Agains(held);
        AgainsTold(held);
        AgainsHeld(held);
        TransferTold(held, OpsOf(cmds[0]), Story(tail, left, true));
        Associative(Wanted(held), OpsOf(cmds[0]), Ops(tail));
        if tail != [] {
          StoryWanted(tail, left, true);
          assert [] + Ops(tail) == Ops(tail);
        }
    }
  }

  lemma {:induction false} WantedTail(cmds: seq<Cmd>, afterRead: bool)
    ensures Wanted(Story(cmds, [], afterRead)) == Ops(cmds)
    decreases |cmds|, 2
  {
    hide Wanted, NoneLeftOut, Ops;
    EmptyTold();
    if cmds == [] {
      OpsNone();
    } else {
      StoryWanted(cmds, [], afterRead);
      assert [] + Ops(cmds) == Ops(cmds);
    }
  }

  lemma OpsNone()
    ensures Ops([]) == []
  {
  }

  lemma OpsUnfold(cmds: seq<Cmd>)
    requires cmds != []
    ensures Ops(cmds) == OpsOf(cmds[0]) + Ops(cmds[1..])
    ensures |cmds| == 1 ==> Ops(cmds[1..]) == []
  {
    hide OpsOf;
  }

  /** The conditions repeated and left out are as many as counted. */
  lemma {:induction false} StoryFaults(cmds: seq<Cmd>, held: seq<Fate>, afterRead: bool)
    requires NoneLeftOut(held) && |held| < 15 && cmds != []
    ensures FaultsIn(Story(cmds, held, afterRead)) == FaultsOf(cmds, |held|, afterRead).Add(FaultsIn(held).strays, 0)
    decreases |cmds|, 1
  {
    hide Seen, Wanted, FaultsIn, Agains, Onces, OpsOf, NoneLeftOut;
    EmptyTold();
    AgainsTold(held);
    var tail := cmds[1..];
    match cmds[0] {
      case Plain(stop) =>
        var all := held + [Once(Edge(stop))];
        HeldMore(held, Edge(stop));
        if |all| < 15 && tail != [] {
          StoryFaults(tail, all, afterRead);
        } else if |all| >= 15 && SkipsHead(tail, afterRead) {
          NeverTold(all, Edge(cmds[1].stop), Story(cmds[2..], [], afterRead));
          FaultsTail(cmds[2..], 0, afterRead);
        } else {
          StoryConcat(all, Story(tail, [], afterRead));
          FaultsTail(tail, 0, afterRead);
          assert |all| < 15 ==> tail == [] && FaultsOf(tail, |all|, afterRead) == Faults(0, 0);
        }
      case Write(_, _, _) =>
        TransferTold(held, OpsOf(cmds[0]), Story(tail, [], false));
        FaultsTail(tail, 0, false);
      case Read(_, len, _) =>
        var left := if len > I2C_FIFO_LEN then [] else Agains(held);
        AgainsHeld(held);
        TransferTold(held, OpsOf(cmds[0]), Story(tail, left, true));
        if tail != [] {
          StoryFaults(tail, left, true);
        }
    }
  }

  lemma {:induction false} FaultsTail(cmds: seq<Cmd>, idx: nat, afterRead: bool)
    requires idx == 0
    ensures FaultsIn(Story(cmds, [], afterRead)) == FaultsOf(cmds, idx, afterRead)
    decreases |cmds|, 2
  {
    hide FaultsIn, NoneLeftOut;
    EmptyTold();
    if cmds != [] {
      StoryFaults(cmds, [], afterRead);
    }
  }

  lemma {:induction false} NoFaultsSame(story: seq<Fate>)
    ensures FaultsIn(story) == Faults(0, 0) ==> Seen(story) == Wanted(story)
    ensures |Seen(story)| + FaultsIn(story).skips == |Wanted(story)| + FaultsIn(story).strays
  {
    if story != [] {
      NoFaultsSame(story[1..]);
    }
  }

  /** What the bus sees of a list is what it says, with the conditions that its story repeats and without those that
      it leaves out.  So it is just what the list says if there are none; and unless there are both kinds, only
      then. */
  lemma BusTold(cmds: seq<Cmd>)
    ensures var story := Story(cmds, [], false); var f := FaultsOf(cmds, 0, false);
      && Bus(cmds, [], false) == Seen(story) && Ops(cmds) == Wanted(story) && FaultsIn(story) == f
      && |Bus(cmds, [], false)| + f.skips == |Ops(cmds)| + f.strays
      && (f == Faults(0, 0) ==> Bus(cmds, [], false) == Ops(cmds))
      && (f.strays == 0 || f.skips == 0 ==> (Bus(cmds, [], false) == Ops(cmds) <==> f == Faults(0, 0)))
  {
    hide Seen, Wanted, FaultsIn, Story, Bus, Ops, NoneLeftOut, FaultsOf;
    EmptyTold();
    StoryBus(cmds, [], false);
    WantedTail(cmds, false);
    FaultsTail(cmds, 0, false);
    NoFaultsSame(Story(cmds, [], false));
  }

  /** The lists that drivers build: a read follows a write or another read, and no 15 conditions follow
      one another. */
  predicate Usual(cmds: seq<Cmd>, idx: nat) {
    cmds == [] ||
    match cmds[0]
    case Plain(_) => idx + 1 < 15 && Usual(cmds[1..], idx + 1)
    case Write(_, _, _) => Usual(cmds[1..], 0)
    case Read(_, _, _) => idx == 0 && Usual(cmds[1..], 0)
  }

  lemma {:induction false} UsualFine(cmds: seq<Cmd>, idx: nat, afterRead: bool)
    requires Usual(cmds, idx)
    ensures FaultsOf(cmds, idx, afterRead) == Faults(0, 0)
  {
    if cmds != [] {
      match cmds[0] {
        case Plain(_) => UsualFine(cmds[1..], idx + 1, afterRead);
        case Write(_, _, _) => UsualFine(cmds[1..], 0, false);
        case Read(_, _, _) => UsualFine(cmds[1..], 0, true);
      }
    }
  }

  function Stops(n: nat): (cmds: seq<Cmd>)
    ensures |cmds| == n
  {
    if n == 0 then [] else [Plain(true)] + Stops(n - 1)
  }

  /** Of the conditions behind a read every sixteenth is left out. */
  lemma {:induction false} SixteenthSkipped(n: nat, idx: nat)
    requires idx < 15
    ensures FaultsOf(Stops(n), idx, true) == Faults(0, (n + idx) / 16)
    decreases n
  {
    if n > 0 {
      assert Stops(n)[1..] == Stops(n - 1);
      if idx + 1 < 15 {
        SixteenthSkipped(n - 1, idx + 1);
      } else if n > 1 {
        assert Stops(n)[2..] == Stops(n - 1)[1..] == Stops(n - 2);
        SixteenthSkipped(n - 2, 0);
      }
    }
  }

  /** So a read and then 16 stop conditions lose one of them. */
  lemma ReadThenStops(at: nat, len: nat, ack: bool)
    ensures FaultsOf([Read(at, len, ack)] + Stops(16), 0, false) == Faults(0, 1)
  {
    var cmds := [Read(at, len, ack)] + Stops(16);
    assert cmds[0] == Read(at, len, ack) && cmds[1..] == Stops(16);
    SixteenthSkipped(16, 0);
  }

  /** A read of up to 32 bytes right behind a start, and a stop behind it: the start is repeated. */
  lemma StartRead(at: nat, len: nat, ack: bool)
    ensures FaultsOf([Plain(false), Read(at, len, ack), Plain(true)], 0, false) ==
            Faults(if len > I2C_FIFO_LEN then 0 else 1, 0)
  {
    var cmds := [Plain(false), Read(at, len, ack), Plain(true)];
    var tail := [Read(at, len, ack), Plain(true)];
    var last := [Plain(true)];
    assert cmds[1..] == tail && tail[1..] == last && last[1..] == [];
    assert FaultsOf(last, 0, true) == FaultsOf(last, 1, true) == Faults(0, 0);
    assert FaultsOf(tail, 1, false) == Faults(if len > I2C_FIFO_LEN then 0 else 1, 0);
    assert FaultsOf(cmds, 0, false) == FaultsOf(tail, 1, false);
  }

  // ---------------------------------------------------------------- storing what has been received

  /** The driver and the trace when i bytes have been stored. */
  function DriverAfter(d: Driver, i: nat): Driver
    requires d.link != [] && (i > 0 ==> d.link[0].Read?)
  {
    d.(rxCnt := d.rxCnt - 1 - i, link := if i > 0 then d.link[0 := d.link[0].(at := d.link[0].at + i)] else d.link)
  }

  function TraceAfter(t: Trace, d: Driver, h: Hw, i: nat): Trace
    requires d.link != [] && (i > 0 ==> d.link[0].Read?) && i <= |h.rxFifo|
  {
    t.(stored := t.stored + h.rxFifo[..i], storedAt := t.storedAt + if i > 0 then AddressesOf(d.link[0].at, i) else [])
  }

  lemma NoneStored(d: Driver, h: Hw, t: Trace)
    requires d.link != []
    ensures DriverAfter(d, 0) == d.(rxCnt := d.rxCnt - 1) && h.rxFifo[0..] == h.rxFifo && TraceAfter(t, d, h, 0) == t
  {
  }

  lemma StoreOne(d: Driver, h: Hw, t: Trace, i: nat)
    requires d.link != [] && d.link[0].Read? && i < d.rxCnt == |h.rxFifo|
    ensures var e := DriverAfter(d, i); var f := h.rxFifo[i..]; var u := TraceAfter(t, d, h, i);
      && e.link != [] && e.link[0].Read? && f != [] && e.rxCnt == d.rxCnt - 1 - i
      && f[1..] == h.rxFifo[i + 1..]
      && DriverAfter(d, i + 1) == e.(rxCnt := e.rxCnt - 1, link := e.link[0 := e.link[0].(at := e.link[0].at + 1)])
      && TraceAfter(t, d, h, i + 1) == u.(stored := u.stored + [f[0]], storedAt := u.storedAt + [e.link[0].at])
  {
    SplitReceived(d.link[0].at, i, 1, false);
    ReceivedNone(d.link[0].at, false);
    assert h.rxFifo[..i + 1] == h.rxFifo[..i] + [h.rxFifo[i]];
  }

  lemma AllStored(d: Driver, h: Hw, t: Trace)
    requires d.link != []
    requires if d.rxCnt > 0 then d.link[0].Read? && |h.rxFifo| == d.rxCnt else h.rxFifo == []
    ensures var n := Max(d.rxCnt, 0); var e := DriverAfter(d, n); var u := TraceAfter(t, d, h, n);
      && e == d.(rxCnt := e.rxCnt, link := e.link) && e.rxCnt < 0 && h.rxFifo[n..] == []
      && u == t.(stored := t.stored + h.rxFifo, storedAt := u.storedAt)
      && if d.rxCnt > 0 then
           && u.storedAt == t.storedAt + AddressesOf(d.link[0].at, d.rxCnt)
           && e.link == d.link[0 := d.link[0].(at := d.link[0].at + d.rxCnt)]
         else u.storedAt == t.storedAt && e.link == d.link
  {
    hide AddressesOf;
    assert h.rxFifo[..|h.rxFifo|] == h.rxFifo;
  }

  class Master {
    const slave: nat -> byte   // the bytes that the slaves send

    var drv: Driver
    var hw: Hw
    var trace: Trace

    /** The controller carries out its commands up to an END, or to the last one that the driver has
        written. */
    method RunBatch(ghost k: nat)
      requires Batch(hw, k)
      modifies `hw, `trace
      ensures hw == old(hw).(txFifo := [], rxFifo := FromSlave(slave, old(trace).received, Arriving(old(hw), k)))
      ensures trace == old(trace).(bus := old(trace).bus + Due(old(hw), k),
                                   received := old(trace).received + Arriving(old(hw), k))
    {
      hide SentAll, ReceivedAll, FromSlave;
      var i := 0;
      while i < hw.limit && hw.command[i].HwPlain?
        invariant i <= k && hw == old(hw)
        invariant trace == old(trace).(bus := old(trace).bus + Edges(hw.command, i))
      {
        EdgesSnoc(hw.command, i);
        trace := trace.(bus := trace.bus + [Edge(hw.command[i].stop)]);
        i := i + 1;
      }
      if i < hw.limit {
        match hw.command[i] {
          case HwWrite(n, ackEn) =>
            trace := trace.(bus := trace.bus + SentAll(hw.txFifo, ackEn));
            hw := hw.(txFifo := []);
          case HwRead(n, ack) =>
            hw := hw.(rxFifo := FromSlave(slave, trace.received, n));
            trace := trace.(bus := trace.bus + ReceivedAll(n, ack), received := trace.received + n);
          case _ =>
        }
      }
    }

    /** The first part of i2c_master_cmd_begin_static: stores what the last batch has received. */
    method Drain(ghost n: nat)
      requires Programmed(drv, hw, n) && hw.txFifo == [] && |hw.rxFifo| == n
      modifies this
      ensures Prepared(drv, hw) && hw == old(hw).(rxFifo := [])
      ensures drv.status == old(drv).status && drv.cmdIdx == NextIdx(old(drv))
      ensures drv.link == NextLink(old(drv).(link := Advanced(old(drv).link, n)))
      ensures trace == old(trace).(stored := old(trace).stored + old(hw).rxFifo, storedAt := trace.storedAt)
      ensures trace.storedAt == old(trace).storedAt +
        if n > 0 then AddressesOf(old(drv).link[0].at, n) else []
    {
      if drv.status == READING && drv.link != [] {
        StoreReceived();
        if ByteNum(drv.link[0]) > 0 {
          drv := drv.(rxRemain := I2C_FIFO_LEN, cmdIdx := 0);
        } else {
          drv := drv.(link := drv.link[1..]);
        }
      }
    }

    /** Moves `rx_cnt` bytes from the FIFO to memory. */
    method StoreReceived()
      requires drv.link != []
      requires if drv.rxCnt > 0 then drv.link[0].Read? && |hw.rxFifo| == drv.rxCnt else hw.rxFifo == []
      modifies this
      ensures drv == old(drv).(rxCnt := drv.rxCnt, link := drv.link) && drv.rxCnt < 0
      ensures hw == old(hw).(rxFifo := [])
      ensures trace == old(trace).(stored := old(trace).stored + old(hw).rxFifo, storedAt := trace.storedAt)
      ensures if old(drv).rxCnt > 0 then
                && trace.storedAt == old(trace).storedAt + AddressesOf(old(drv).link[0].at, old(drv).rxCnt)
                && drv.link == old(drv).link[0 := old(drv).link[0].(at := old(drv).link[0].at + old(drv).rxCnt)]
              else trace.storedAt == old(trace).storedAt && drv.link == old(drv).link
    {
      hide DriverAfter, TraceAfter, AddressesOf;
      ghost var d, h, t, i := drv, hw, trace, 0;
      NoneStored(d, h, t);
      var go := drv.rxCnt > 0;
      drv := drv.(rxCnt := drv.rxCnt - 1);
      while go
        invariant 0 <= i <= Max(d.rxCnt, 0) && (go <==> i < d.rxCnt)
        invariant drv == DriverAfter(d, i) && hw == h.(rxFifo := h.rxFifo[i..]) && trace == TraceAfter(t, d, h, i)
        decreases d.rxCnt - i
      {
        StoreOne(d, h, t, i);
        var c := drv.link[0];
        trace := trace.(stored := trace.stored + [hw.rxFifo[0]], storedAt := trace.storedAt + [c.at]);
        hw := hw.(rxFifo := hw.rxFifo[1..]);
        drv := drv.(link := drv.link[0 := c.(at := c.at + 1)]);
        go := drv.rxCnt > 0;
        drv := drv.(rxCnt := drv.rxCnt - 1);
        i := i + 1;
      }
      AllStored(d, h, t);
    }

    /** Fills the TX FIFO from the first command. */
    method FillTx() returns (filled: nat)
      requires drv.link != [] && drv.link[0].Write? && Proper(drv.link[0])
      requires drv.txRemain == I2C_FIFO_LEN && hw.txFifo == []
      modifies `drv, `hw
      ensures var data := old(drv).link[0].data;
        && filled == Min(|data|, I2C_FIFO_LEN) && hw == old(hw).(txFifo := data[..filled])
        && drv == old(drv).(txRemain := I2C_FIFO_LEN - filled,
                            link := old(drv).link[0 := old(drv).link[0].(data := data[filled..])])
    {
      filled := 0;
      var c := drv.link[0];
      if !c.immediate {
        while drv.txRemain > 0 && |drv.link[0].data| > 0
          invariant filled <= |c.data| && drv.txRemain == I2C_FIFO_LEN - filled
          invariant drv == old(drv).(txRemain := drv.txRemain, link := old(drv).link[0 := c.(data := c.data[filled..])])
          invariant hw == old(hw).(txFifo := c.data[..filled])
          decreases drv.txRemain
        {
          var data := drv.link[0].data;
          hw := hw.(txFifo := hw.txFifo + [data[0]]);
          drv := drv.(txRemain := drv.txRemain - 1, link := drv.link[0 := drv.link[0].(data := data[1..])]);
          filled := filled + 1;
        }
      } else {
        assert c.data[..1] == [c.data[0]] && c.data[1..] == [];
        hw := hw.(txFifo := hw.txFifo + [c.data[0]]);
        drv := drv.(txRemain := drv.txRemain - 1, link := drv.link[0 := c.(data := [])]);
        filled := 1;
      }
    }

    /** The second part of i2c_master_cmd_begin_static: programs the next batch. */
    method Program() returns (ghost k: nat, ghost n: nat)
      requires Prepared(drv, hw) && drv.link != []
      modifies `drv, `hw
      ensures Ready(old(drv), old(hw), drv, hw, k, n)
    {
      hide Edges, Ops, Targets, Bus, Ready;
      k, n := 0, 0;
      while drv.link != []
        invariant Prepared(drv, hw) && Passed(old(drv), old(hw), drv, hw) && drv.link != []
        decreases |drv.link|
      {
        ghost var d, h := drv, hw;
        k := drv.cmdIdx;
        var c := drv.link[0];
        match c {
          case Write(_, _, _) =>
            assert Proper(c);
            var filled := FillTx();
            hw := hw.(command := hw.command[drv.cmdIdx := HwWrite(filled, c.ackEn)][drv.cmdIdx + 1 := HwEnd],
                      limit := drv.cmdIdx + 2);
            drv := drv.(txRemain := I2C_FIFO_LEN, cmdIdx := 0);
            if |drv.link[0].data| == 0 {
              drv := drv.(link := drv.link[1..]);
            }
            drv := drv.(status := WRITING);
            EndWrite(old(drv), old(hw), d, h, filled);
            return;
          case Read(_, len, ack) =>
            var rx := Min(len, drv.rxRemain);
            hw := hw.(command := hw.command[drv.cmdIdx := HwRead(rx, ack)][drv.cmdIdx + 1 := HwEnd],
                      limit := drv.cmdIdx + 2);
            drv := drv.(rxCnt := rx, link := drv.link[0 := c.(len := len - rx)], status := READING);
            n := rx;
            EndRead(old(drv), old(hw), d, h, rx);
            return;
          case Plain(stop) =>
            hw := hw.(command := hw.command[drv.cmdIdx := HwPlain(stop)], limit := drv.cmdIdx + 1);
            drv := drv.(cmdIdx := drv.cmdIdx + 1, link := drv.link[1..]);
            if drv.link == [] || drv.cmdIdx >= 15 {
              drv := drv.(txRemain := I2C_FIFO_LEN, cmdIdx := 0);
              k := k + 1;
              EndPlain(old(drv), old(hw), d, h);
              return;
            }
            PassPlain(old(drv), old(hw), d, h);
        }
      }
    }

    /** i2c_master_cmd_begin_static, and then the controller up to its next interrupt. */
    method Round(ghost all: seq<Cmd>, ghost n: nat) returns (done: bool, ghost n': nat)
      requires Going(all, slave, drv, hw, trace, n)
      modifies this
      ensures done ==> OnTrack(all, slave, trace, [], []) && |trace.storedAt| == trace.received
      ensures !done ==> Going(all, slave, drv, hw, trace, n') && |Ops(drv.link)| < |Ops(old(drv).link)|
    {
      hide Ops, Targets, Bus, BusLeft, ToDo, OnTrack, TargetsLeft, NextLink, NextIdx, FromSlave, AddressesOf, Edges;
      assert n == 0 && drv.link != [] ==> Proper(drv.link[0]);
      DrainKeeps(drv, hw, n);
      ghost var first := if n > 0 then AddressesOf(drv.link[0].at, n) else [];
      ghost var stored, left := trace.(stored := trace.stored + hw.rxFifo), BusLeft(drv, hw);
      Drain(n);
      DrainTrack(all, slave, stored, left, first, Targets(drv.link));
      n' := 0;
      ToDoIs(drv, hw);
      if drv.link == [] {
        NothingToDo(Edges(hw.command, drv.cmdIdx), drv.status == READING);
        return true, n';
      }
      ghost var d, h, k := drv, hw, 0;
      k, n' := Program();
      BatchTrack(all, slave, trace, Targets(d.link), Due(hw, k), BusLeft(drv, hw), n');
      ghost var programmed := hw;
      RunBatch(k);
      SameRegisters(drv, programmed, hw);
      done := false;
    }

    constructor (slave: nat -> byte)
      ensures |hw.command| == COMMAND_REGISTERS && this.slave == slave
    {
      this.slave := slave;
      drv := Driver([], IDLE, 0, 0, I2C_FIFO_LEN, I2C_FIFO_LEN);
      hw := Hw(seq(COMMAND_REGISTERS, _ => HwEnd), 0, [], []);
      trace := Trace([], 0, [], []);
    }

    /** i2c_master_cmd_begin, without bus errors.  The bytes received always go where the list says, and on the bus
        the controller does what the list makes of it. */
    method CmdBegin(cmds: seq<Cmd>)
      requires |hw.command| == COMMAND_REGISTERS && AllProper(cmds)
      modifies this
      ensures trace.bus == Bus(cmds, [], false)
      ensures trace.storedAt == Targets(cmds)
      ensures trace.stored == FromSlave(slave, 0, |Targets(cmds)|)
    {
      hide Ops, Targets, Bus, FromSlave;
      drv := Driver(cmds, IDLE, 0, 0, I2C_FIFO_LEN, I2C_FIFO_LEN);
      hw := hw.(txFifo := [], rxFifo := []);
      trace := Trace([], 0, [], []);
      ghost var n := 0;
      assert Edges(hw.command, 0) == [];
      var done := false;
      while !done
        invariant if done then OnTrack(cmds, slave, trace, [], []) && |trace.storedAt| == trace.received
                  else Going(cmds, slave, drv, hw, trace, n)
        decreases !done, |Ops(drv.link)|
      {
        done, n := Round(cmds, n);
      }
    }
  }
}
