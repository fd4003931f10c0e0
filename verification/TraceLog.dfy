/**
 What the trace transport of app_trace.c carries, as values: user messages, their bytes on the
 wire, and where each accepted message currently is.
 */
module TraceLog {
  import opened Bytes

  const BLOCK_SIZE: nat := 0x4000
  const HEADER_SIZE: nat := 4
  const USR_DATA_LEN_MAX: nat := BLOCK_SIZE - HEADER_SIZE

  /** One user message: the core that sent it and its data. */
  datatype RawMsg = RawMsg(core: nat, data: seq<byte>) {
    /** The header word: data length in the low 15 bits, core number in bit 15. */
    function Tag(): nat {
      core * 0x8000 + |data|
    }
  }

  type Msg = m: RawMsg | m.core < 2 && |m.data| <= USR_DATA_LEN_MAX
    witness RawMsg(0, [])

  function Le16(v: nat): seq<byte>
    requires v < 0x1_0000
  {
    assert 0 <= v / 256 < 256;
    [v % 256, v / 256]
  }

  function FromLe16(b: seq<byte>): nat
    requires |b| == 2
  {
    b[0] as int + 256 * (b[1] as int)
  }

  /** A completed user block: allocated size, written size, data. */
  function UserBlock(m: Msg): (r: seq<byte>)
    ensures |r| == HEADER_SIZE + |m.data| <= BLOCK_SIZE
  {
    Le16(m.Tag()) + Le16(m.Tag()) + m.data
  }

  /** The bytes of a list of messages. */
  function Wire(ms: seq<Msg>): seq<byte>
  {
    if ms == [] then [] else UserBlock(ms[0]) + Wire(ms[1..])
  }

  lemma {:induction false} WireConcat(a: seq<Msg>, b: seq<Msg>)
    ensures Wire(a + b) == Wire(a) + Wire(b)
  {
    hide UserBlock, Wire;
    if a == [] {
      assert a + b == b;
      WireUnfold(a);
    } else {
      WireConcat(a[1..], b);
      assert (a + b)[0] == a[0] && (a + b)[1..] == a[1..] + b;
      WireUnfold(a);
      WireUnfold(a + b);
      Associative(UserBlock(a[0]), Wire(a[1..]), Wire(b));
    }
  }

  lemma WireUnfold(ms: seq<Msg>)
    ensures Wire(ms) == if ms == [] then [] else UserBlock(ms[0]) + Wire(ms[1..])
  {
  }

  lemma WireOne(m: Msg)
    ensures Wire([m]) == UserBlock(m)
  {
  }

  lemma WireEmpty(ms: seq<Msg>)
    ensures |Wire(ms)| == 0 <==> ms == []
  {
  }

  /** What a host makes of a block it has read: it stops at the first block whose written size
      differs from its allocated size, or that is cut short. */
  function Parse(b: seq<byte>): Option<seq<RawMsg>> {
    if |b| == 0 then Some([])
    else if |b| < HEADER_SIZE then None
    else
      var tag := FromLe16(b[..2]);
      var len := tag % 0x8000;
      if FromLe16(b[2..4]) != tag || |b| < HEADER_SIZE + len then None
      else
        match Parse(b[HEADER_SIZE + len..])
        case None => None
        case Some(rest) => Some([RawMsg(tag / 0x8000, b[HEADER_SIZE..HEADER_SIZE + len])] + rest)
  }

  /** A block made of whole user blocks is decoded to exactly its messages. */
  lemma {:induction false} ParseWire(ms: seq<Msg>)
    ensures Parse(Wire(ms)) == Some(ms)
  {
    if ms != [] {
      ParseFirst(ms[0], Wire(ms[1..]));
      ParseWire(ms[1..]);
      assert [ms[0]] + ms[1..] == ms;
    }
  }

  lemma ParseFirst(m: Msg, rest: seq<byte>)
    ensures Parse(UserBlock(m) + rest) ==
              match Parse(rest)
              case None => None
              case Some(ms) => Some([m] + ms)
  {
    hide UserBlock, FromLe16, Le16;
    BlockParts(m, rest);
  }

  /** What a reader finds at the start of a user block. */
  lemma BlockParts(m: Msg, rest: seq<byte>)
    ensures var b := UserBlock(m) + rest;
      && |b| >= HEADER_SIZE + |m.data|
      && FromLe16(b[..2]) == FromLe16(b[2..4]) == m.Tag()
      && m.Tag() % 0x8000 == |m.data| && m.Tag() / 0x8000 == m.core
      && b[HEADER_SIZE..HEADER_SIZE + |m.data|] == m.data && b[HEADER_SIZE + |m.data|..] == rest
  {
    hide FromLe16, Le16;
    TagBytes(m);
    var h := Le16(m.Tag());
    assert UserBlock(m) + rest == h + (h + (m.data + rest));
    assert UserBlock(m) + rest == (h + h) + (m.data + rest);
  }

  lemma TagBytes(m: Msg)
    ensures |Le16(m.Tag())| == 2 && FromLe16(Le16(m.Tag())) == m.Tag()
  {
  }

  function Flat(cs: seq<seq<Msg>>): seq<Msg> {
    if cs == [] then [] else cs[0] + Flat(cs[1..])
  }

  lemma {:induction false} FlatSnoc(cs: seq<seq<Msg>>, c: seq<Msg>)
    ensures Flat(cs + [c]) == Flat(cs) + c
  {
    if cs == [] {
      assert cs + [c] == [c];
      assert Flat([c]) == c + Flat([]);
    } else {
      FlatSnoc(cs[1..], c);
      assert (cs + [c])[1..] == cs[1..] + [c];
    }
  }

  /**
   The pending messages, grouped into closed chunks and one open chunk.  A block switch copies one
   chunk to the new input block, so a chunk is made of whole messages and fits one block.
   */
  datatype Backlog = Backlog(chunks: seq<seq<Msg>>, open: seq<Msg>) {

    /** The pending messages in the order of their acceptance. */
    function All(): seq<Msg> {
      Flat(chunks) + open
    }

    ghost predicate Valid() {
      && |Wire(open)| <= BLOCK_SIZE
      && (forall c | c in chunks :: 0 < |Wire(c)| <= BLOCK_SIZE)
      // neighbouring chunks would not have fitted one block together
      && (forall i | 0 <= i < |chunks| - 1 :: |Wire(chunks[i])| + |Wire(chunks[i + 1])| > BLOCK_SIZE)
      && (chunks != [] ==> |Wire(chunks[|chunks| - 1])| + |Wire(open)| > BLOCK_SIZE)
    }

    function Append(m: Msg): Backlog {
      if |Wire(open)| + |UserBlock(m)| <= BLOCK_SIZE then Backlog(chunks, open + [m])
      else Backlog(chunks + [open], [m])
    }

    /** The chunk that the next block switch copies, and what it leaves. */
    function Front(): seq<Msg> {
      if chunks != [] then chunks[0] else open
    }

    function Rest(): Backlog {
      if chunks != [] then Backlog(chunks[1..], open) else Backlog([], [])
    }
  }

  lemma FrontIsFirst(b: Backlog)
    ensures b.All() == b.Front() + b.Rest().All()
  {
    if b.chunks != [] {
      assert b.All() == b.chunks[0] + (Flat(b.chunks[1..]) + b.open);
    }
  }

  lemma FrontWire(b: Backlog)
    ensures Wire(b.All()) == Wire(b.Front()) + Wire(b.Rest().All())
  {
    FrontIsFirst(b);
    WireConcat(b.Front(), b.Rest().All());
  }

  lemma RestValid(b: Backlog)
    requires b.Valid()
    ensures b.Rest().Valid()
    ensures |Wire(b.Front())| <= BLOCK_SIZE
    ensures b.Front() == [] ==> b.All() == [] == b.Rest().All()
  {
    FrontFits(b);
    hide Wire, Backlog.All, Flat;
    if b.chunks != [] {
      var chunks := b.chunks[1..];
      forall i | 0 <= i < |chunks| - 1 ensures |Wire(chunks[i])| + |Wire(chunks[i + 1])| > BLOCK_SIZE {
        assert chunks[i] == b.chunks[i + 1] && chunks[i + 1] == b.chunks[i + 2];
      }
    }
  }

  lemma FrontFits(b: Backlog)
    requires b.Valid()
    ensures |Wire(b.Front())| <= BLOCK_SIZE
    ensures b.Front() == [] ==> b.All() == [] == b.Rest().All()
    ensures |Wire([])| == 0
  {
    WireEmpty([]);
    if b.chunks != [] {
      WireEmpty(b.chunks[0]);
    }
  }

  lemma AppendValid(b: Backlog, m: Msg)
    requires b.Valid()
    ensures b.Append(m).Valid() && b.Append(m).All() == b.All() + [m]
    ensures Wire(b.Append(m).All()) == Wire(b.All()) + UserBlock(m)
    ensures |Wire(b.Append(m).open)| ==
              if |Wire(b.open)| + |UserBlock(m)| <= BLOCK_SIZE
              then |Wire(b.open)| + |UserBlock(m)| else |UserBlock(m)|
  {
    hide Wire, UserBlock, Backlog.All, Backlog.Valid;
    WireOne(m);
    WireConcat(b.open, [m]);
    WireConcat(b.All(), [m]);
    AppendAll(b, m);
    if |Wire(b.open)| + |UserBlock(m)| <= BLOCK_SIZE {
      GrowOpen(b, m);
    } else {
      CloseOpen(b, m);
    }
  }

  lemma AppendAll(b: Backlog, m: Msg)
    ensures b.Append(m).All() == b.All() + [m]
  {
    hide Wire, UserBlock;
    FlatSnoc(b.chunks, b.open);
  }

  lemma GrowOpen(b: Backlog, m: Msg)
    requires b.Valid() && |Wire(b.open + [m])| <= BLOCK_SIZE && |Wire(b.open)| <= |Wire(b.open + [m])|
    ensures Backlog(b.chunks, b.open + [m]).Valid()
  {
    hide Wire, UserBlock;
  }

  lemma CloseOpen(b: Backlog, m: Msg)
    requires b.Valid() && |Wire([m])| == |UserBlock(m)| && |Wire(b.open)| + |UserBlock(m)| > BLOCK_SIZE
    ensures Backlog(b.chunks + [b.open], [m]).Valid()
  {
    hide Wire, UserBlock;
    var n := b.chunks + [b.open];
    forall i | 0 <= i < |n| - 1
      ensures |Wire(n[i])| + |Wire(n[i + 1])| > BLOCK_SIZE
    {
      assert n[i] == b.chunks[i];
    }
  }

  ghost function Total(cs: seq<seq<Msg>>): nat {
    if cs == [] then 0 else |Wire(cs[0])| + Total(cs[1..])
  }

  lemma {:induction false} FlatBytes(cs: seq<seq<Msg>>)
    ensures |Wire(Flat(cs))| == Total(cs)
  {
    if cs != [] {
      FlatBytes(cs[1..]);
      WireConcat(cs[0], Flat(cs[1..]));
    }
  }

  lemma TwoChunks(cs: seq<seq<Msg>>)
    requires |cs| >= 2
    ensures Total(cs) >= |Wire(cs[0])| + |Wire(cs[1])|
  {
    assert cs[1..][0] == cs[1];
  }

  /** With at most two blocks of pending bytes, a message that closes a chunk finds at most one
      closed chunk, so a ring with room for two chunk sizes never overflows. */
  lemma AppendFits(b: Backlog, m: Msg)
    requires b.Valid()
    ensures |Wire(b.All())| + |UserBlock(m)| <= 2 * BLOCK_SIZE < |Wire(b.open)| + |UserBlock(m)| + BLOCK_SIZE
            ==> |b.chunks| <= 1
  {
    FlatBytes(b.chunks);
    WireConcat(Flat(b.chunks), b.open);
    if |b.chunks| >= 2 {
      TwoChunks(b.chunks);
    }
  }

  /**
   Where the accepted messages are: read and acknowledged by the host, in the block exposed to
   the host, in the input block, and pending.
   */
  datatype Log = Log(host: seq<Msg>, exposed: seq<Msg>, input: seq<Msg>, pending: Backlog) {

    /** All accepted messages in the order of their acceptance. */
    function All(): seq<Msg> {
      host + exposed + input + pending.All()
    }

    /** The bytes that no block switch has exposed yet. */
    function Unsent(): nat {
      |Wire(input)| + |Wire(pending.All())|
    }

    /** Both blocks are within their size, and an empty input block leaves nothing pending. */
    ghost predicate Valid() {
      && |Wire(exposed)| <= BLOCK_SIZE && |Wire(input)| <= BLOCK_SIZE && pending.Valid()
      && (input == [] ==> pending.All() == [])
    }

    /** The effect of a block switch. */
    function Switch(): Log {
      Log(host, input, pending.Front(), pending.Rest())
    }

    /** The effect of accepting a message into the input block, or into the backlog. */
    function Store(m: Msg): Log {
      this.(input := input + [m])
    }

    function Pend(m: Msg): Log {
      this.(pending := pending.Append(m))
    }

    /** The effect of the host acknowledging the exposed block. */
    function Ack(): Log {
      Log(host + exposed, [], input, pending)
    }
  }

  /** No step loses, duplicates or reorders a message. */
  lemma SwitchKeeps(l: Log)
    requires l.Valid() && l.exposed == []
    ensures l.Switch().Valid() && l.Switch().All() == l.All()
  {
    hide Wire, Backlog.Valid, Backlog.All, Backlog.Front, Backlog.Rest;
    RestValid(l.pending);
    FrontIsFirst(l.pending);
    assert l.host + [] + l.input + (l.pending.Front() + l.pending.Rest().All())
        == l.host + l.input + l.pending.Front() + l.pending.Rest().All();
  }

  lemma StoreKeeps(l: Log, m: Msg)
    requires l.Valid() && l.pending.All() == [] && |Wire(l.input)| + |UserBlock(m)| <= BLOCK_SIZE
    ensures l.Store(m).Valid() && l.Store(m).All() == l.All() + [m]
    ensures Wire(l.Store(m).input) == Wire(l.input) + UserBlock(m)
  {
    hide Wire, UserBlock;
    WireConcat(l.input, [m]);
    WireOne(m);
  }

  lemma PendKeeps(l: Log, m: Msg)
    requires l.Valid() && l.input != []
    ensures l.Pend(m).Valid() && l.Pend(m).All() == l.All() + [m]
  {
    hide Wire, UserBlock;
    AppendValid(l.pending, m);
  }

  lemma AckKeeps(l: Log)
    requires l.Valid()
    ensures l.Ack().Valid() && l.Ack().All() == l.All()
  {
  }

  /** A block switch hands the input block to the host; what is left to hand over shrinks by it. */
  lemma SwitchShrinks(l: Log)
    ensures l.Switch().Unsent() == l.Unsent() - |Wire(l.input)|
  {
    FrontWire(l.pending);
  }
}
