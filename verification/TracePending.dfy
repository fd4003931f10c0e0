/**
 The pending data of app_trace.c: a byte ring of whole user blocks, and a ring with the sizes of
 the chunks that a block switch may copy.  The configuration is the largest one, with a pending
 size above one memory block; up to two blocks, the chunk-size ring never overflows.
 */
module TracePending {
  import opened Bytes
  import opened TraceLog
  import opened TraceRing

  /** The chunk sizes as they lie in their ring. */
  function Sizes(cs: seq<seq<Msg>>): seq<byte>
    requires forall c | c in cs :: |Wire(c)| <= BLOCK_SIZE
  {
    if cs == [] then [] else Le16(|Wire(cs[0])|) + Sizes(cs[1..])
  }

  class PendingStore {
    const rbPend: RingBuffer
    const rbPendChunkSz: RingBuffer
    var curPendingChunkSz: nat

    ghost var backlog: Backlog

    ghost function Repr(): set<object> {
      {this, rbPend, rbPend.data, rbPendChunkSz, rbPendChunkSz.data}
    }

    /** The two rings have their configured sizes; the chunk-size ring holds two-byte entries at
        even positions and never gives up the tail of its storage. */
    ghost predicate Rings()
      reads rbPend, rbPend.data, rbPendChunkSz, rbPendChunkSz.data
    {
      && rbPend != rbPendChunkSz && rbPend.data != rbPendChunkSz.data
      && BLOCK_SIZE < rbPend.data.Length - 1 <= 2 * BLOCK_SIZE
      && rbPendChunkSz.data.Length == 2 * ((rbPend.data.Length - 1) / BLOCK_SIZE + 2)
      && rbPend.Valid() && rbPendChunkSz.Valid()
      && rbPendChunkSz.curSize == rbPendChunkSz.data.Length
      && rbPendChunkSz.rd % 2 == 0 && rbPendChunkSz.wr % 2 == 0
    }

    ghost predicate Valid()
      reads Repr()
    {
      && Rings()
      && backlog.Valid()
      && curPendingChunkSz == |Wire(backlog.open)|
      && rbPend.contents == Wire(backlog.All())
      && rbPendChunkSz.contents == Sizes(backlog.chunks)
    }

    constructor (pendMax: nat)
      requires BLOCK_SIZE < pendMax <= 2 * BLOCK_SIZE
      ensures Valid() && backlog == Backlog([], [])
      ensures fresh(Repr())
    {
      hide RingBuffer.Valid, Wire, Sizes, Backlog.Valid, Backlog.All;
      EmptyStore();
      rbPend := new RingBuffer(pendMax + 1);
      rbPendChunkSz := new RingBuffer(2 * (pendMax / BLOCK_SIZE + 2));
      curPendingChunkSz := 0;
      backlog := Backlog([], []);
    }

    /** Account for `size` bytes just produced in the pending ring. */
    method ChunkSzUpdate(size: nat)
      requires Rings() && curPendingChunkSz <= BLOCK_SIZE
      requires curPendingChunkSz + size > BLOCK_SIZE ==> |rbPendChunkSz.contents| <= 2
      modifies this`curPendingChunkSz, rbPendChunkSz, rbPendChunkSz.data
      ensures Rings()
      ensures if old(curPendingChunkSz) + size <= BLOCK_SIZE then
                && curPendingChunkSz == old(curPendingChunkSz) + size
                && rbPendChunkSz.contents == old(rbPendChunkSz.contents)
              else
                && curPendingChunkSz == size
                && rbPendChunkSz.contents == old(rbPendChunkSz.contents) + Le16(old(curPendingChunkSz))
    {
      hide RingBuffer.Valid, Cursor.Valid, Cursor.Fits, Cursor.Grant, Cursor.Queued;
      if curPendingChunkSz + size <= BLOCK_SIZE {
        curPendingChunkSz := curPendingChunkSz + size;
      } else {
        rbPendChunkSz.AtValid();
        SlotIsGranted(rbPendChunkSz.At(), rbPendChunkSz.data[..]);
        var ok := rbPendChunkSz.Put(Le16(curPendingChunkSz));
        curPendingChunkSz := size;
      }
    }

    /** The size of the oldest chunk; the open chunk is closed if there is no other. */
    method ChunkSzGet() returns (size: nat)
      requires Rings()
      modifies this`curPendingChunkSz, rbPendChunkSz
      ensures Rings()
      ensures if old(rbPendChunkSz.contents) == [] then
                size == old(curPendingChunkSz) && curPendingChunkSz == 0 && rbPendChunkSz.contents == []
              else
                && |old(rbPendChunkSz.contents)| >= 2
                && size == FromLe16(old(rbPendChunkSz.contents)[..2])
                && curPendingChunkSz == old(curPendingChunkSz)
                && rbPendChunkSz.contents == old(rbPendChunkSz.contents)[2..]
    {
      hide RingBuffer.Valid, Cursor.Drop, Cursor.Run, Cursor.Valid, FromLe16, Sizes;
      rbPendChunkSz.AtValid();
      DropKeepsEven(rbPendChunkSz.At());
      EvenPieces(rbPendChunkSz.At(), rbPendChunkSz.data[..]);
      var ptr := rbPendChunkSz.Consume(2);
      if ptr.None? {
        size := curPendingChunkSz;
        curPendingChunkSz := 0;
      } else {
        size := FromLe16(rbPendChunkSz.data[ptr.value..ptr.value + 2]);
      }
    }

    /** Append a user block, if the pending ring has room for it. */
    method Alloc(m: Msg) returns (ok: bool)
      requires Valid()
      modifies Repr()
      ensures Valid()
      ensures ok <==> old(rbPend.At()).Fits(|UserBlock(m)|)
      ensures backlog == if ok then old(backlog).Append(m) else old(backlog)
      ensures ok ==> old(rbPend.At()).Grant(|UserBlock(m)|).Some?
      ensures rbPend.At() == if ok then old(rbPend.At()).Grant(|UserBlock(m)|).value.0 else old(rbPend.At())
    {
      hide Wire, Sizes, Backlog.All, Backlog.Valid, Backlog.Append, UserBlock, Cursor.Fits, RingBuffer.Valid;
      AppendStep(backlog, m);
      ok := rbPend.Put(UserBlock(m));
      if ok {
        rbPend.LengthBound();
        ChunkSzUpdate(|UserBlock(m)|);
        backlog := backlog.Append(m);
      }
    }

    /** Take the oldest chunk out and copy it to the start of a memory block. */
    method PumpChunk(dst: array<byte>) returns (marker: nat)
      requires Valid() && dst.Length == BLOCK_SIZE && dst !in Repr()
      modifies Repr(), dst
      ensures Valid() && backlog == old(backlog).Rest()
      ensures marker == |Wire(old(backlog).Front())| <= BLOCK_SIZE
      ensures Wire(old(backlog).Front()) <= dst[..]
      ensures rbPend.At() == Pumped(old(rbPend.At()), |Wire(old(backlog).Front())|)
    {
      hide RingBuffer.At, Pumped;
      hide Wire, Sizes, Backlog.All, Backlog.Valid, Backlog.Front, Backlog.Rest, FromLe16, RingBuffer.Valid;
      FrontSize(backlog);
      FrontWire(backlog);
      RestValid(backlog);
      var maxChunk := ChunkSzGet();
      assert maxChunk == |Wire(backlog.Front())|;
      marker := Pump(rbPend, dst, maxChunk);
      backlog := backlog.Rest();
    }

    method IsEmpty() returns (empty: bool)
      requires Valid()
      ensures empty <==> backlog.All() == []
    {
      WireEmpty(backlog.All());
      var size := rbPend.ReadSizeGet();
      empty := size == 0;
    }
  }

  lemma EmptyStore()
    ensures var b := Backlog([], []); b.Valid() && Wire(b.All()) == [] && Wire(b.open) == [] && Sizes(b.chunks) == []
  {
  }

  /** Where the cursor of a ring goes when `n` bytes are taken, piece by piece. */
  function Pumped(c: Cursor, n: nat): Cursor
    decreases n
  {
    if n == 0 || c.Run() <= 0 then c
    else
      var k := Min(c.Run(), n);
      Pumped(c.Drop(k), n - k)
  }

  lemma NothingPumped()
    ensures forall c: Cursor :: Pumped(c, 0) == c
  {
  }

  lemma PumpStep(c: Cursor, room: nat, n: nat)
    requires c.Valid() && n == Min(c.Run(), room)
    ensures Pumped(c, room) == Pumped(c.Drop(n), room - n)
  {
  }

  /** Move at most `room` bytes, lying in one piece, from `ring` to `dst` at offset `at`. */
  method PumpSome(ring: RingBuffer, dst: array<byte>, at: nat, room: nat) returns (n: nat)
    requires ring.Valid() && dst != ring.data && at + room <= dst.Length && 0 < room
    modifies ring, dst
    ensures ring.Valid() && n <= room && n <= |old(ring.contents)|
    ensures n == 0 <==> old(ring.contents) == []
    ensures dst[..at + n] == old(dst[..at]) + old(ring.contents)[..n]
    ensures ring.contents == old(ring.contents)[n..]
    ensures Pumped(old(ring.At()), room) == Pumped(ring.At(), room - n)
  {
    hide Pumped, Gives, Cursor.Queued, Cursor.Whole, Cursor.Drop;
    n := ring.ReadSizeGet();
    if n > room {
      n := room;
    }
    PumpStep(ring.At(), room, n);
    var ptr := ring.Consume(n);
    CopyIn(dst, at, ring.data[ptr.value..ptr.value + n]);
  }

  /** The copy loop of a block switch: `maxChunk` pending bytes go to the start of the block. */
  method Pump(ring: RingBuffer, dst: array<byte>, maxChunk: nat) returns (marker: nat)
    requires ring.Valid() && dst != ring.data
    requires maxChunk <= dst.Length && maxChunk <= |ring.contents|
    modifies ring, dst
    ensures ring.Valid() && marker == maxChunk
    ensures old(ring.contents)[..maxChunk] <= dst[..]
    ensures ring.contents == old(ring.contents)[maxChunk..]
    ensures ring.At() == Pumped(old(ring.At()), maxChunk)
  {
    hide RingBuffer.Valid, RingBuffer.At, Pumped;
    marker := 0;
    ghost var before, c := ring.contents, ring.At();
    NothingPumped();
    while marker < maxChunk
      invariant marker <= maxChunk && ring.Valid()
      invariant ring.contents == before[marker..]
      invariant dst[..marker] == before[..marker]
      invariant Pumped(ring.At(), maxChunk - marker) == Pumped(c, maxChunk)
    {
      var n := PumpSome(ring, dst, marker, maxChunk - marker);
      if n == 0 {
        break;
      }
      assert before[..marker + n] == before[..marker] + before[marker..][..n];
      marker := marker + n;
    }
  }

  /** The first entry of the chunk-size ring is the size of the chunk to pump. */
  lemma FrontSize(b: Backlog)
    requires b.Valid()
    ensures |Wire(b.Front())| <= BLOCK_SIZE
    ensures if b.chunks == [] then
              && Sizes(b.chunks) == [] == Sizes(b.Rest().chunks)
              && b.Front() == b.open && |Wire(b.Rest().open)| == 0
            else
              && Sizes(b.chunks) != [] && b.Rest().open == b.open
              && FromLe16(Sizes(b.chunks)[..2]) == |Wire(b.Front())|
              && Sizes(b.chunks)[2..] == Sizes(b.Rest().chunks)
  {
  }

  lemma {:induction false} SizesSnoc(cs: seq<seq<Msg>>, c: seq<Msg>)
    requires forall d | d in cs + [c] :: |Wire(d)| <= BLOCK_SIZE
    ensures Sizes(cs + [c]) == Sizes(cs) + Le16(|Wire(c)|)
    ensures |Sizes(cs)| == 2 * |cs|
  {
    hide Wire;
    if cs == [] {
      assert cs + [c] == [c];
    } else {
      assert (cs + [c])[1..] == cs[1..] + [c];
      SizesSnoc(cs[1..], c);
    }
  }

  /** The effect of accepting a message on everything that the store keeps. */
  lemma AppendStep(b: Backlog, m: Msg)
    requires b.Valid()
    ensures b.Append(m).Valid() && |Wire(b.open)| <= BLOCK_SIZE
    ensures Wire(b.Append(m).All()) == Wire(b.All()) + UserBlock(m)
    ensures if |Wire(b.open)| + |UserBlock(m)| <= BLOCK_SIZE then
              && |Wire(b.Append(m).open)| == |Wire(b.open)| + |UserBlock(m)|
              && Sizes(b.Append(m).chunks) == Sizes(b.chunks)
            else
              && |Wire(b.Append(m).open)| == |UserBlock(m)|
              && Sizes(b.Append(m).chunks) == Sizes(b.chunks) + Le16(|Wire(b.open)|)
              && (|Wire(b.All()) + UserBlock(m)| <= 2 * BLOCK_SIZE ==> |Sizes(b.chunks)| <= 2)
  {
    hide Wire, UserBlock;
    AppendValid(b, m);
    AppendFits(b, m);
    SizesSnoc(b.chunks, b.open);
  }

  /** A chunk-size ring with at most one queued size always grants a slot, at an even position. */
  lemma SlotIsGranted(c: Cursor, d: seq<byte>)
    requires c.Valid() && |d| == c.size == c.cur && c.size % 2 == 0 && c.size >= 6
    requires c.rd % 2 == 0 && c.wr % 2 == 0 && |c.Queued(d)| <= 2
    ensures c.Fits(2)
    ensures var next := c.Grant(2).value.0; next.cur == next.size && next.rd % 2 == 0 && next.wr % 2 == 0
  {
  }

  lemma QueuedLength(c: Cursor, d: seq<byte>)
    requires c.Valid() && |d| == c.size
    ensures |c.Queued(d)| == if c.rd <= c.wr then c.wr - c.rd else c.cur - c.rd + c.wr
  {
  }

  /** A ring of two-byte entries at even positions lets the first one be read whenever it holds any. */
  lemma EvenPieces(c: Cursor, d: seq<byte>)
    requires c.Valid() && |d| == c.size == c.cur && c.size % 2 == 0 && c.rd % 2 == 0 && c.wr % 2 == 0
    ensures c.Queued(d) != [] <==> 2 <= c.Run()
    ensures c.Queued(d) != [] ==> |c.Queued(d)| >= 2
  {
    hide Cursor.Queued;
    QueuedLength(c, d);
  }

  lemma DropKeepsEven(c: Cursor)
    requires c.Valid() && c.cur == c.size && c.size % 2 == 0 && c.rd % 2 == 0 && c.wr % 2 == 0
    ensures c.Run() % 2 == 0
    ensures var next := c.Drop(2); next.cur == next.size && next.rd % 2 == 0 && next.wr % 2 == 0
  {
  }
}
