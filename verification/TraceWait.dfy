/**
 Waiting for the trace host in app_trace.c, as values: what the host does during each poll of the target, and
 what a call makes of the log, the two rings and the host's data when it polls.
 */
module TraceWait {
  import opened Bytes
  import opened TraceInflow
  import opened TraceLog
  import opened TracePending
  import opened TraceRing

  /** A host: how much of the exposed block it has read, and all bytes it has received. */
  datatype Host = Host(pos: nat, stream: seq<byte>)

  /** The transport: log, host, inflow, down ring and the cursor of the pending ring. */
  datatype View = View(log: Log, host: Host, inflow: Inflow, queued: seq<byte>, pend: Cursor)

  // ---------------------------------------------------------------- the host

  /** The host reads on, by up to n bytes; or, having read the whole exposed block, writes data for the target into it
      if there are any and its last ones have been taken, and acknowledges the block. */
  datatype HostStep = Read(n: nat) | Ack(payload: Option<seq<byte>>)

  predicate MayAck(v: View, payload: Option<seq<byte>>) {
    && v.host.pos == |Wire(v.log.exposed)|
    && (payload.Some? ==> |payload.value| + 2 <= BLOCK_SIZE && v.inflow.posted.None?)
  }

  /** A step that is not possible is skipped. */
  function HostDoes(v: View, s: HostStep): View {
    match s
    case Read(n) =>
      var shown := Wire(v.log.exposed);
      if v.host.pos > |shown| then v
      else
        var to := Min(v.host.pos + n, |shown|);
        v.(host := Host(to, v.host.stream + shown[v.host.pos..to]))
    case Ack(payload) =>
      if MayAck(v, payload) then
        v.(log := v.log.Ack(), host := v.host.(pos := 0),
           inflow := if payload.Some? then v.inflow.Post(payload.value) else v.inflow)
      else v
  }

  function HostDoesAll(v: View, steps: seq<HostStep>): View {
    if steps == [] then v else HostDoes(HostDoesAll(v, steps[..|steps| - 1]), steps[|steps| - 1])
  }

  /** What the host does during each poll; nothing behind the last entry. */
  type Polls = seq<seq<HostStep>>

  function During(polls: Polls, i: nat): seq<HostStep> {
    if i < |polls| then polls[i] else []
  }

  /** Behind k polls, from the one with number `from` on. */
  function AfterPolls(v: View, polls: Polls, from: nat, k: nat): View {
    if k == 0 then v else HostDoesAll(AfterPolls(v, polls, from, k - 1), During(polls, from + k - 1))
  }

  /** All steps of the host during these polls. */
  function StepsOf(polls: Polls, from: nat, k: nat): seq<HostStep> {
    if k == 0 then [] else StepsOf(polls, from, k - 1) + During(polls, from + k - 1)
  }

  lemma {:induction false} DoesConcat(v: View, a: seq<HostStep>, b: seq<HostStep>)
    ensures HostDoesAll(v, a + b) == HostDoesAll(HostDoesAll(v, a), b)
    decreases |b|
  {
    hide HostDoes;
    if b == [] {
      assert a + b == a;
    } else {
      DoesConcat(v, a, b[..|b| - 1]);
      assert (a + b)[..|a + b| - 1] == a + b[..|b| - 1];
    }
  }

  lemma {:induction false} AfterSteps(v: View, polls: Polls, from: nat, k: nat)
    ensures AfterPolls(v, polls, from, k) == HostDoesAll(v, StepsOf(polls, from, k))
    decreases k
  {
    hide HostDoes, HostDoesAll;
    if k > 0 {
      AfterSteps(v, polls, from, k - 1);
      DoesConcat(v, StepsOf(polls, from, k - 1), During(polls, from + k - 1));
    } else {
      NoSteps(v);
    }
  }

  lemma NoSteps(v: View)
    ensures HostDoesAll(v, []) == v
  {
  }

  /** The host's steps change the log only by acknowledging. */
  lemma DoesLog(v: View, s: HostStep)
    ensures var w := HostDoes(v, s);
      && (w.log == v.log || w.log == v.log.Ack()) && w.queued == v.queued && w.pend == v.pend
      && w.inflow.taken == v.inflow.taken && w.inflow.delivered == v.inflow.delivered
      && v.host.stream <= w.host.stream
      && (v.host.pos <= |Wire(v.log.exposed)| ==> w.host.pos <= |Wire(w.log.exposed)|)
  {
    hide Wire;
    assert v.host.stream + [] == v.host.stream;
  }

  lemma AckTwice(l: Log)
    ensures l.Ack().Ack() == l.Ack()
    ensures l.exposed == [] ==> l.Ack() == l
    ensures l.Ack().exposed == []
  {
    assert l.host + l.exposed + [] == l.host + l.exposed;
  }

  /** What the steps of the host leave: they acknowledge the log or leave it, and only add to what the host has. */
  ghost predicate Polled(v: View, w: View) {
    && (w.log == v.log || w.log == v.log.Ack()) && w.queued == v.queued && w.pend == v.pend
    && w.inflow.taken == v.inflow.taken && w.inflow.delivered == v.inflow.delivered
    && v.host.stream <= w.host.stream
    && (v.host.pos <= |Wire(v.log.exposed)| ==> w.host.pos <= |Wire(w.log.exposed)|)
  }

  lemma {:induction false} DoesAllLog(v: View, steps: seq<HostStep>)
    ensures Polled(v, HostDoesAll(v, steps))
    decreases |steps|
  {
    hide HostDoes, Log.Ack, Wire;
    AckTwice(v.log);
    if steps != [] {
      DoesAllLog(v, steps[..|steps| - 1]);
      DoesLog(HostDoesAll(v, steps[..|steps| - 1]), steps[|steps| - 1]);
    }
  }

  lemma AfterLog(v: View, polls: Polls, from: nat, k: nat)
    ensures Polled(v, AfterPolls(v, polls, from, k))
  {
    hide Polled;
    AfterSteps(v, polls, from, k);
    DoesAllLog(v, StepsOf(polls, from, k));
  }

  // ---------------------------------------------------------------- waiting

  /** The first poll, of at most tmo, behind which the exposed block has been acknowledged. */
  function FirstFree(v: View, polls: Polls, from: nat, tmo: nat): (k: Option<nat>)
    ensures k.Some? ==> k.value <= tmo && AfterPolls(v, polls, from, k.value).log.exposed == []
    ensures k.Some? ==> forall j: nat | j < k.value :: AfterPolls(v, polls, from, j).log.exposed != []
    ensures k.None? ==> forall j: nat | j <= tmo :: AfterPolls(v, polls, from, j).log.exposed != []
  {
    if tmo == 0 then (if v.log.exposed == [] then Some(0) else None)
    else
      var k := FirstFree(v, polls, from, tmo - 1);
      if k.Some? then k
      else if AfterPolls(v, polls, from, tmo).log.exposed == [] then Some(tmo)
      else None
  }

  lemma FreeAt(v: View, polls: Polls, from: nat, tmo: nat, k: nat)
    requires k <= tmo && AfterPolls(v, polls, from, k).log.exposed == []
    requires forall j: nat | j < k :: AfterPolls(v, polls, from, j).log.exposed != []
    ensures FirstFree(v, polls, from, tmo) == Some(k)
  {
    hide AfterPolls;
    var i := FirstFree(v, polls, from, tmo);
  }

  lemma NeverFree(v: View, polls: Polls, from: nat, tmo: nat)
    requires forall j: nat | j <= tmo :: AfterPolls(v, polls, from, j).log.exposed != []
    ensures FirstFree(v, polls, from, tmo) == None
  {
    hide AfterPolls;
    var i := FirstFree(v, polls, from, tmo);
  }

  /** The pending ring behind a block switch. */
  function SwitchedPend(l: Log, pend: Cursor): Cursor {
    Pumped(pend, |Wire(l.pending.Front())|)
  }

  /** A block switch, with a down ring that holds `cap` bytes. */
  function Switched(v: View, cap: nat): View {
    View(v.log.Switch(), v.host.(pos := 0), v.inflow.Take(v.queued, cap), v.queued + v.inflow.Added(v.queued, cap),
         SwitchedPend(v.log, v.pend))
  }

  /** Polling until the host has acknowledged, and then switching. */
  function Waited(v: View, polls: Polls, from: nat, tmo: nat, cap: nat): View {
    var k := FirstFree(v, polls, from, tmo);
    if k.Some? then Switched(AfterPolls(v, polls, from, k.value), cap) else AfterPolls(v, polls, from, tmo)
  }

  // ---------------------------------------------------------------- a host that reads and acknowledges

  /** A read of a whole block, and later an acknowledgement. */
  ghost predicate Acknowledges(steps: seq<HostStep>) {
    exists i, j :: 0 <= i < j < |steps| && steps[i].Read? && steps[i].n >= BLOCK_SIZE && steps[j] == Ack(None)
  }

  ghost predicate InBlock(v: View) {
    v.host.pos <= |Wire(v.log.exposed)| <= BLOCK_SIZE
  }

  lemma InBlockKept(v: View, steps: seq<HostStep>)
    requires InBlock(v)
    ensures InBlock(HostDoesAll(v, steps))
  {
    hide HostDoesAll;
    DoesAllLog(v, steps);
    WireEmpty([]);
  }

  lemma {:induction false} StaysRead(v: View, steps: seq<HostStep>)
    requires InBlock(v) && (v.log.exposed == [] || v.host.pos == |Wire(v.log.exposed)|)
    ensures var w := HostDoesAll(v, steps); w.log.exposed == [] || w.host.pos == |Wire(w.log.exposed)|
    decreases |steps|
  {
    hide Wire;
    if steps != [] {
      StaysRead(v, steps[..|steps| - 1]);
    }
  }

  lemma {:induction false} StaysFree(v: View, steps: seq<HostStep>)
    requires v.log.exposed == []
    ensures HostDoesAll(v, steps).log.exposed == []
    decreases |steps|
  {
    hide Wire;
    if steps != [] {
      StaysFree(v, steps[..|steps| - 1]);
    }
  }

  lemma AckFrees(v: View)
    requires v.log.exposed == [] || v.host.pos == |Wire(v.log.exposed)|
    ensures HostDoes(v, Ack(None)).log.exposed == []
  {
    hide Wire;
  }

  lemma ReadsAll(v: View, n: nat)
    requires InBlock(v) && n >= BLOCK_SIZE
    ensures var w := HostDoes(v, Read(n)); w.log == v.log && w.host.pos == |Wire(w.log.exposed)|
  {
    hide Wire;
  }

  lemma DoesFrom(v: View, steps: seq<HostStep>, i: nat)
    requires i < |steps|
    ensures HostDoesAll(v, steps[..i + 1]) == HostDoes(HostDoesAll(v, steps[..i]), steps[i])
    ensures HostDoesAll(v, steps) == HostDoesAll(HostDoesAll(v, steps[..i + 1]), steps[i + 1..])
  {
    hide HostDoes;
    assert steps[..i + 1][..i] == steps[..i];
    DoesConcat(v, steps[..i + 1], steps[i + 1..]);
    assert steps[..i + 1] + steps[i + 1..] == steps;
  }

  /** Whoever reads the whole block and acknowledges it frees it, whatever else he does. */
  lemma AcknowledgedIsFree(v: View, steps: seq<HostStep>)
    requires InBlock(v) && Acknowledges(steps)
    ensures HostDoesAll(v, steps).log.exposed == []
  {
    hide HostDoes, HostDoesAll, Wire, InBlock;
    var i, j :| 0 <= i < j < |steps| && steps[i].Read? && steps[i].n >= BLOCK_SIZE && steps[j] == Ack(None);
    DoesFrom(v, steps, i);
    InBlockKept(v, steps[..i]);
    ReadsAll(HostDoesAll(v, steps[..i]), steps[i].n);
    InBlockKept(v, steps[..i + 1]);
    StaysRead(HostDoesAll(v, steps[..i + 1]), steps[i + 1..j]);
    DoesConcat(v, steps[..i + 1], steps[i + 1..j]);
    assert steps[..i + 1] + steps[i + 1..j] == steps[..j];
    DoesFrom(v, steps, j);
    AckFrees(HostDoesAll(v, steps[..j]));
    StaysFree(HostDoesAll(v, steps[..j + 1]), steps[j + 1..]);
  }

  /** A host that reads and acknowledges the exposed block during the first k polls, k at most tmo, is waited for, and
      no longer than that. */
  lemma WaitsForHost(v: View, polls: Polls, from: nat, tmo: nat, k: nat)
    requires InBlock(v) && k <= tmo && (v.log.exposed == [] || Acknowledges(StepsOf(polls, from, k)))
    ensures FirstFree(v, polls, from, tmo).Some? && FirstFree(v, polls, from, tmo).value <= k
  {
    hide AfterPolls, Acknowledges;
    AfterSteps(v, polls, from, k);
    if v.log.exposed == [] {
      StaysFree(v, StepsOf(polls, from, k));
    } else {
      AcknowledgedIsFree(v, StepsOf(polls, from, k));
    }
  }

  // ---------------------------------------------------------------- sending a message

  /** The message fits the input block, with nothing pending before it. */
  predicate FitsBlock(l: Log, m: Msg) {
    l.pending.All() == [] && |Wire(l.input)| + |UserBlock(m)| <= BLOCK_SIZE
  }

  /** There is room for it in the input block or in the pending ring. */
  ghost predicate Room(l: Log, pend: Cursor, m: Msg) {
    FitsBlock(l, m) || pend.Fits(|UserBlock(m)|)
  }

  function Placed(l: Log, m: Msg): Log {
    if FitsBlock(l, m) then l.Store(m) else l.Pend(m)
  }

  /** The pending ring behind a placed message. */
  function PlacedPend(l: Log, pend: Cursor, m: Msg): Cursor {
    var granted := pend.Grant(|UserBlock(m)|);
    if FitsBlock(l, m) || granted.None? then pend else granted.value.0
  }

  function PlacedView(v: View, m: Msg): View {
    v.(log := Placed(v.log, m), pend := PlacedPend(v.log, v.pend, m))
  }

  /** A block switch is tried at once when messages are pending. */
  function TryFirst(v: View, cap: nat): View {
    if v.log.pending.All() != [] && v.log.exposed == [] then Switched(v, cap) else v
  }

  /** Where the message is to be placed in the end: at once if there is room, and otherwise behind a switch that is waited
      for. */
  ghost function Attempted(v: View, m: Msg, polls: Polls, tmo: nat, cap: nat): View {
    var first := TryFirst(v, cap);
    if Room(first.log, first.pend, m) then first else Waited(first, polls, 0, tmo, cap)
  }

  /** A message of permitted size is accepted exactly if there is room there. */
  ghost predicate Accepts(v: View, m: Msg, polls: Polls, tmo: nat, cap: nat) {
    var at := Attempted(v, m, polls, tmo, cap);
    Room(at.log, at.pend, m)
  }

  ghost function Sent(v: View, m: Msg, polls: Polls, tmo: nat, cap: nat): View {
    var at := Attempted(v, m, polls, tmo, cap);
    if Room(at.log, at.pend, m) then PlacedView(at, m) else at
  }

  lemma PlaceNonempty(l: Log, m: Msg)
    requires l.Valid() && (l.pending.All() != [] || |Wire(l.input)| + |UserBlock(m)| > BLOCK_SIZE)
    ensures l.input != []
  {
    WireEmpty(l.input);
  }

  lemma PlacedKeeps(l: Log, m: Msg)
    requires l.Valid()
    ensures Placed(l, m).Valid() && Placed(l, m).All() == l.All() + [m]
  {
    hide Wire, UserBlock, Log.All, Log.Valid, Backlog.All, Backlog.Valid;
    if FitsBlock(l, m) {
      StoreKeeps(l, m);
    } else {
      PlaceNonempty(l, m);
      PendKeeps(l, m);
    }
  }

  lemma NothingPending(l: Log)
    requires l.Valid() && l.pending.All() == []
    ensures l.Switch().pending.All() == [] == l.Switch().input
  {
    RestValid(l.pending);
    FrontIsFirst(l.pending);
  }

  /** A refused message: acknowledging alone makes no room for it, and with nothing pending it will fit the next
      block. */
  lemma AfterRefusal(l: Log, pend: Cursor, m: Msg)
    requires l.Valid() && !Room(l, pend, m)
    ensures !Room(l.Ack(), pend, m)
    ensures l.Ack().Switch().exposed != []
    ensures l.pending.All() == [] ==> forall c: Cursor :: Room(l.Ack().Switch(), c, m)
  {
    hide UserBlock, Backlog.All, Cursor.Fits;
    PlaceNonempty(l, m);
    if l.pending.All() == [] {
      AckKeeps(l);
      NothingPending(l.Ack());
    }
  }

  /** What has been accepted stays what it is. */
  ghost predicate SameLog(v: View, w: View) {
    w.log.Valid() && w.log.All() == v.log.All() && v.host.stream <= w.host.stream
    && v.inflow.taken <= w.inflow.taken && w.inflow.delivered == v.inflow.delivered
  }

  lemma SwitchedKeeps(v: View, cap: nat)
    requires v.log.Valid() && v.log.exposed == []
    ensures SameLog(v, Switched(v, cap))
  {
    hide Wire, Log.All, Log.Valid, Log.Switch, SwitchedPend, Inflow.Added;
    SwitchKeeps(v.log);
  }

  lemma PolledKeeps(v: View, w: View)
    requires v.log.Valid() && Polled(v, w)
    ensures SameLog(v, w)
  {
    hide Wire, Log.All, Log.Valid, Log.Ack;
    AckKeeps(v.log);
  }

  lemma SameTwice(u: View, v: View, w: View)
    requires SameLog(u, v) && SameLog(v, w)
    ensures SameLog(u, w)
  {
    hide Log.All, Log.Valid;
  }

  lemma WaitedKeeps(v: View, polls: Polls, from: nat, tmo: nat, cap: nat)
    requires v.log.Valid()
    ensures SameLog(v, Waited(v, polls, from, tmo, cap))
  {
    hide Polled, Switched, AfterPolls, SameLog, Log.Valid;
    var k := FirstFree(v, polls, from, tmo);
    var n := if k.Some? then k.value else tmo;
    var w := AfterPolls(v, polls, from, n);
    AfterLog(v, polls, from, n);
    PolledKeeps(v, w);
    if k.Some? {
      SameValid(v, w);
      SwitchedKeeps(w, cap);
      SameTwice(v, w, Switched(w, cap));
    }
  }

  lemma SameValid(v: View, w: View)
    requires SameLog(v, w)
    ensures w.log.Valid()
  {
  }

  lemma SameSelf(v: View)
    requires v.log.Valid()
    ensures SameLog(v, v)
  {
  }

  lemma TryFirstKeeps(v: View, cap: nat)
    requires v.log.Valid()
    ensures SameLog(v, TryFirst(v, cap)) && TryFirst(v, cap).log.Valid()
  {
    hide SameLog, Switched, Log.Valid, Backlog.All;
    if v.log.pending.All() != [] && v.log.exposed == [] {
      SwitchedKeeps(v, cap);
      SameValid(v, Switched(v, cap));
    } else {
      SameSelf(v);
    }
  }

  lemma AttemptedKeeps(v: View, m: Msg, polls: Polls, tmo: nat, cap: nat)
    requires v.log.Valid()
    ensures SameLog(v, Attempted(v, m, polls, tmo, cap))
  {
    hide SameLog, Waited, TryFirst, Room, Log.Valid;
    var first := TryFirst(v, cap);
    TryFirstKeeps(v, cap);
    if !Room(first.log, first.pend, m) {
      WaitedKeeps(first, polls, 0, tmo, cap);
      SameTwice(v, first, Waited(first, polls, 0, tmo, cap));
    }
  }

  /** The log behind waiting: as it was, acknowledged and switched, if the host has acknowledged in time. */
  lemma WaitedLog(v: View, polls: Polls, from: nat, tmo: nat, cap: nat)
    ensures var w := Waited(v, polls, from, tmo, cap);
      if FirstFree(v, polls, from, tmo).Some? then
        w.log == v.log.Ack().Switch() && w.pend == SwitchedPend(v.log, v.pend)
      else w.log == v.log && w.pend == v.pend && w.log.exposed != []
  {
    hide AfterPolls, Log.Switch, Wire, SwitchedPend, Inflow.Added;
    var k := FirstFree(v, polls, from, tmo);
    var n := if k.Some? then k.value else tmo;
    AfterLog(v, polls, from, n);
    AckTwice(v.log);
    AckPend(v.log, v.pend);
  }

  lemma AckPend(l: Log, pend: Cursor)
    ensures SwitchedPend(l.Ack(), pend) == SwitchedPend(l, pend)
  {
  }

  /** A message is accepted if there is room for it at once, and otherwise exactly if the host acknowledges in time and
      there is room behind the switch; with nothing pending there is. */
  lemma AcceptsExactly(v: View, m: Msg, polls: Polls, tmo: nat, cap: nat)
    requires v.log.Valid()
    ensures var first := TryFirst(v, cap); var freed := FirstFree(first, polls, 0, tmo).Some?;
      && (Room(first.log, first.pend, m) ==> Accepts(v, m, polls, tmo, cap))
      && (!Room(first.log, first.pend, m) ==>
            && (Accepts(v, m, polls, tmo, cap) <==>
                  freed && Room(first.log.Ack().Switch(), SwitchedPend(first.log, first.pend), m))
            && (freed && first.log.pending.All() == [] ==> Accepts(v, m, polls, tmo, cap)))
  {
    hide Waited, FirstFree, TryFirst, Room, Log.Valid, Log.Ack, Log.Switch, Backlog.All, SwitchedPend;
    var first := TryFirst(v, cap);
    TryFirstKeeps(v, cap);
    if !Room(first.log, first.pend, m) {
      WaitedLog(first, polls, 0, tmo, cap);
      AfterRefusal(first.log, first.pend, m);
    }
  }

  /** With messages pending a free block is used at once: the input block is shown to the host, whatever he does. */
  lemma FirstShows(v: View, m: Msg, polls: Polls, tmo: nat, cap: nat)
    requires v.log.pending.All() != [] && v.log.exposed == []
    ensures var w := Sent(v, m, polls, tmo, cap); v.log.host + v.log.input <= w.log.host + w.log.exposed
  {
    hide Room, Waited, Backlog.All, FirstFree, UserBlock;
    var first := Switched(v, cap);
    assert first.log.host == v.log.host && first.log.exposed == v.log.input;
    WaitedLog(first, polls, 0, tmo, cap);
  }

  /** So whoever has nothing pending and a host that reads and acknowledges within the polls is never refused. */
  lemma AcceptedInTime(v: View, m: Msg, polls: Polls, tmo: nat, cap: nat)
    requires v.log.Valid() && InBlock(v) && v.log.pending.All() == []
    requires v.log.exposed == [] || Acknowledges(StepsOf(polls, 0, tmo))
    ensures Accepts(v, m, polls, tmo, cap)
  {
    hide Accepts, FirstFree, Room, Log.Valid, Acknowledges, Backlog.All, InBlock, Switched;
    WaitsForHost(v, polls, 0, tmo, tmo);
    AcceptsExactly(v, m, polls, tmo, cap);
  }

  // ---------------------------------------------------------------- flushing

  /** Switching blocks until the input block is empty; the result tells whether it came to that. */
  function Flushed(v: View, polls: Polls, from: nat, tmo: nat, cap: nat): (View, bool)
    decreases v.log.Unsent()
  {
    if |Wire(v.log.input)| == 0 then (v, true)
    else
      var k := FirstFree(v, polls, from, tmo);
      if k.None? then (AfterPolls(v, polls, from, tmo), false)
      else
        var w := Switched(AfterPolls(v, polls, from, k.value), cap);
        assert w.log.Unsent() < v.log.Unsent() by {
          UnsentShrinks(v, polls, from, k.value, cap);
        }
        Flushed(w, polls, from + k.value, tmo - k.value, cap)
  }

  lemma UnsentShrinks(v: View, polls: Polls, from: nat, k: nat, cap: nat)
    ensures Switched(AfterPolls(v, polls, from, k), cap).log.Unsent() == v.log.Unsent() - |Wire(v.log.input)|
  {
    hide AfterPolls, Wire, Inflow.Added, SwitchedPend;
    AfterLog(v, polls, from, k);
    SwitchShrinks(AfterPolls(v, polls, from, k).log);
  }

  lemma {:induction false} FlushedKeeps(v: View, polls: Polls, from: nat, tmo: nat, cap: nat)
    requires v.log.Valid()
    ensures var (w, ok) := Flushed(v, polls, from, tmo, cap);
      && SameLog(v, w)
      && (if ok then w.log.input == [] && w.log.pending.All() == [] else w.log.exposed != [])
    decreases v.log.Unsent()
  {
    hide SameLog, AfterPolls, Log.Valid, Log.Unsent, Wire, Backlog.All, Switched;
    if |Wire(v.log.input)| == 0 {
      SameSelf(v);
      EmptyInput(v.log);
    } else {
      var k := FirstFree(v, polls, from, tmo);
      WaitedKeeps(v, polls, from, tmo, cap);
      if k.Some? {
        var w := Waited(v, polls, from, tmo, cap);
        UnsentShrinks(v, polls, from, k.value, cap);
        SameValid(v, w);
        FlushedKeeps(w, polls, from + k.value, tmo - k.value, cap);
        SameTwice(v, w, Flushed(w, polls, from + k.value, tmo - k.value, cap).0);
      }
    }
  }

  lemma EmptyInput(l: Log)
    requires l.Valid() && |Wire(l.input)| == 0
    ensures l.input == [] && l.pending.All() == []
  {
    WireEmpty(l.input);
  }

  /** How many blocks a flush has at most to show. */
  function Blocks(l: Log): nat {
    if l.pending.All() == [] then 1 else 2 + |l.pending.chunks|
  }

  lemma BlocksShrink(l: Log)
    requires l.Valid() && l.input != []
    ensures l.Switch().input == [] || Blocks(l.Switch()) < Blocks(l)
  {
    hide Wire;
    if l.pending.All() == [] {
      NothingPending(l);
    }
  }

  lemma BlocksAcked(l: Log)
    ensures Blocks(l.Ack()) == Blocks(l) >= 1 && l.Ack().input == l.input
  {
  }

  lemma OnePoll(v: View, polls: Polls, from: nat)
    ensures StepsOf(polls, from, 1) == During(polls, from)
  {
    assert StepsOf(polls, from, 0) == [];
    assert [] + During(polls, from) == During(polls, from);
  }

  lemma SwitchedInBlock(v: View, cap: nat)
    requires v.log.Valid()
    ensures InBlock(Switched(v, cap))
  {
  }

  /** A host that reads and acknowledges during each of the polls lets every flush succeed that has a poll for each
      block. */
  lemma {:induction false} FlushedInTime(v: View, polls: Polls, from: nat, tmo: nat, cap: nat)
    requires v.log.Valid() && InBlock(v) && Blocks(v.log) <= tmo
    requires forall i | from <= i < from + tmo :: Acknowledges(During(polls, i))
    ensures Flushed(v, polls, from, tmo, cap).1
    decreases v.log.Unsent()
  {
    hide AfterPolls, Log.Valid, Log.Unsent, Wire, Acknowledges, InBlock, Blocks, SwitchedPend, Inflow.Added;
    if |Wire(v.log.input)| != 0 {
      BlocksAcked(v.log);
      OnePoll(v, polls, from);
      WaitsForHost(v, polls, from, tmo, 1);
      var k := FirstFree(v, polls, from, tmo).value;
      var w := AfterPolls(v, polls, from, k);
      AfterLog(v, polls, from, k);
      PolledKeeps(v, w);
      AckKeeps(v.log);
      SwitchedKeeps(w, cap);
      UnsentShrinks(v, polls, from, k, cap);
      SwitchedInBlock(w, cap);
      WireEmpty(w.log.input);
      BlocksShrink(w.log);
      WireEmpty(w.log.Switch().input);
      if |Wire(w.log.Switch().input)| != 0 {
        FlushedInTime(Switched(w, cap), polls, from + k, tmo - k, cap);
      }
    }
  }

  // ---------------------------------------------------------------- data for the target

  /** Waiting for data from the host: data that it has posted are taken in by a block switch. */
  function DataWaited(v: View, polls: Polls, from: nat, tmo: nat, cap: nat): View
    decreases tmo, v.inflow.posted.Some?
  {
    if v.queued != [] then v
    else if v.inflow.posted.Some? then DataWaited(Switched(v, cap), polls, from, tmo, cap)
    else if tmo == 0 then v
    else DataWaited(HostDoesAll(v, During(polls, from)), polls, from + 1, tmo - 1, cap)
  }

  /** What the target has taken in, and what lies in its block, agree with each other. */
  ghost predicate Orderly(v: View) {
    v.log.Valid() && (v.inflow.posted.Some? ==> v.log.exposed == [])
  }

  lemma DoesOrderly(v: View, s: HostStep)
    requires Orderly(v)
    ensures Orderly(HostDoes(v, s))
  {
    hide Wire, Log.All, Backlog.All;
    AckKeeps(v.log);
  }

  lemma {:induction false} DoesAllOrderly(v: View, steps: seq<HostStep>)
    requires Orderly(v)
    ensures Orderly(HostDoesAll(v, steps))
    decreases |steps|
  {
    hide Orderly, HostDoes;
    if steps != [] {
      DoesAllOrderly(v, steps[..|steps| - 1]);
      DoesOrderly(HostDoesAll(v, steps[..|steps| - 1]), steps[|steps| - 1]);
    }
  }

  lemma SwitchedOrderly(v: View, cap: nat)
    requires Orderly(v) && v.log.exposed == []
    ensures Orderly(Switched(v, cap)) && SameLog(v, Switched(v, cap))
  {
    hide Wire, Log.All, Log.Valid, Log.Switch, SwitchedPend;
    SwitchedKeeps(v, cap);
  }

  lemma {:induction false} DataKeeps(v: View, polls: Polls, from: nat, tmo: nat, cap: nat)
    requires Orderly(v)
    ensures var w := DataWaited(v, polls, from, tmo, cap);
      SameLog(v, w) && Orderly(w) && (w.queued != [] || w.inflow.posted.None?)
    decreases tmo, v.inflow.posted.Some?
  {
    hide SameLog, HostDoesAll, Switched, Log.Valid, Polled;
    if v.queued != [] {
      SameSelf(v);
    } else if v.inflow.posted.Some? {
      TakesPosted(v, cap);
      SwitchedOrderly(v, cap);
      DataKeeps(Switched(v, cap), polls, from, tmo, cap);
      SameTwice(v, Switched(v, cap), DataWaited(Switched(v, cap), polls, from, tmo, cap));
    } else if tmo == 0 {
      SameSelf(v);
    } else {
      var w := HostDoesAll(v, During(polls, from));
      DoesAllLog(v, During(polls, from));
      PolledKeeps(v, w);
      DoesAllOrderly(v, During(polls, from));
      DataKeeps(w, polls, from + 1, tmo - 1, cap);
      SameTwice(v, w, DataWaited(w, polls, from + 1, tmo - 1, cap));
    }
  }

  lemma TakesPosted(v: View, cap: nat)
    requires v.inflow.posted.Some?
    ensures Switched(v, cap).inflow.posted.None?
  {
  }

  /** Data that the host posts behind at most tmo polls arrive: with an empty ring of any size it is not in vain that the
      target waits. */
  lemma {:induction false} DataInTime(v: View, polls: Polls, from: nat, tmo: nat, cap: nat, k: nat)
    requires v.queued == [] && k <= tmo && cap > 0
    requires var p := AfterPolls(v, polls, from, k).inflow.posted; p.Some? && p.value != []
    requires forall j: nat | j < k :: AfterPolls(v, polls, from, j).inflow.posted.None?
    ensures DataWaited(v, polls, from, tmo, cap).queued != []
    decreases k
  {
    hide HostDoesAll, AfterPolls, Polled, Switched, DataWaited;
    NoPolls(v, polls, from);
    if k == 0 {
      DataNow(v, polls, from, tmo, cap);
    } else {
      var w := HostDoesAll(v, During(polls, from));
      DoesAllLog(v, During(polls, from));
      PolledQueue(v, w);
      DataLater(v, polls, from, tmo, cap);
      var next := from + 1;
      forall j: nat | j < k - 1 ensures AfterPolls(w, polls, next, j).inflow.posted.None? {
        AfterFirst(v, polls, from, j);
      }
      AfterFirst(v, polls, from, k - 1);
      DataInTime(w, polls, next, tmo - 1, cap, k - 1);
    }
  }

  lemma NoPolls(v: View, polls: Polls, from: nat)
    ensures AfterPolls(v, polls, from, 0) == v
  {
  }

  lemma PolledQueue(v: View, w: View)
    requires Polled(v, w)
    ensures w.queued == v.queued
  {
  }

  lemma DataLater(v: View, polls: Polls, from: nat, tmo: nat, cap: nat)
    requires v.queued == [] && v.inflow.posted.None? && tmo > 0
    ensures DataWaited(v, polls, from, tmo, cap) ==
      DataWaited(HostDoesAll(v, During(polls, from)), polls, from + 1, tmo - 1, cap)
  {
    hide HostDoesAll, Switched;
  }

  lemma DataSwitch(v: View, polls: Polls, from: nat, tmo: nat, cap: nat)
    requires v.queued == [] && v.inflow.posted.Some?
    ensures DataWaited(v, polls, from, tmo, cap) == DataWaited(Switched(v, cap), polls, from, tmo, cap)
  {
    hide Switched;
  }

  lemma DataDone(v: View, polls: Polls, from: nat, tmo: nat, cap: nat)
    requires v.queued != [] || (v.inflow.posted.None? && tmo == 0)
    ensures DataWaited(v, polls, from, tmo, cap) == v
  {
  }

  lemma DataNow(v: View, polls: Polls, from: nat, tmo: nat, cap: nat)
    requires v.queued == [] && v.inflow.posted.Some? && v.inflow.posted.value != [] && cap > 0
    ensures DataWaited(v, polls, from, tmo, cap).queued != []
  {
    assert Switched(v, cap).queued != [] by {
      hide SwitchedPend, Log.Switch;
    }
    hide Switched, HostDoesAll;
  }

  lemma {:induction false} AfterFirst(v: View, polls: Polls, from: nat, j: nat)
    ensures AfterPolls(HostDoesAll(v, During(polls, from)), polls, from + 1, j) == AfterPolls(v, polls, from, j + 1)
    decreases j
  {
    hide HostDoesAll;
    if j > 0 {
      AfterFirst(v, polls, from, j - 1);
    } else {
      assert AfterPolls(v, polls, from, 0) == v;
    }
  }
}
