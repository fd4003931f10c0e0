/**
 The byte ring of app_trace_util.c.  A producer asks for one contiguous chunk and fills it
 in place; a consumer receives contiguous chunks.  When the tail of the storage is too short
 for a request, the ring gives that tail up (`curSize` shrinks to the write position) and the
 chunk is taken from the start; the full size comes back when the read position wraps.
 */
module TraceRing {
  import opened Bytes

  /** One call made by a user of a ring: fill a fresh chunk, or take bytes from the front. */
  datatype RingOp = Put(bytes: seq<byte>) | Take(size: nat)

  /** The positions of a ring over a storage of `size` bytes. */
  datatype Cursor = Cursor(size: nat, cur: nat, rd: nat, wr: nat) {

    ghost predicate Valid() {
      && (size == 0 ==> rd == wr == 0)
      && (size > 0 ==> wr < size)
      && (rd <= wr ==> cur == size)
      && (wr < rd ==> rd < cur <= size)
    }

    /** Behind a wrap to cell 0 the tail is still there: it is given up only for bytes at the start. */
    ghost predicate Whole() {
      wr == 0 && 0 < rd ==> cur == size
    }

    /** The number of queued bytes, and the cell of the i-th one. */
    function Length(): int {
      if rd <= wr then wr - rd else cur - rd + wr
    }

    function Cell(i: nat): int {
      if rd <= wr || rd + i < cur then rd + i else rd + i - cur
    }

    /** Cell `i` of the storage holds a queued byte. */
    ghost predicate Live(i: int) {
      if rd <= wr then rd <= i < wr else rd <= i < cur || 0 <= i < wr
    }

    /** The live bytes of storage `d`, oldest first. */
    ghost function Queued(d: seq<byte>): seq<byte>
      requires Valid() && |d| == size
    {
      if rd <= wr then d[rd..wr] else d[rd..cur] + d[..wr]
    }

    /** The number of queued bytes that can be read as one piece. */
    function Run(): int {
      if rd <= wr then wr - rd else cur - rd
    }

    /** The number of bytes that can be written as one piece without giving up the tail. */
    function Room(): int {
      if wr < rd then rd - wr - 1
      else if rd == 0 && wr < size then size - wr - 1 else size - wr
    }

    /** There is room for `n` contiguous bytes behind the write position, or at the start of the
        storage, that keeps the write position from catching up with the read position. */
    ghost predicate Fits(n: nat) {
      if wr < rd then wr + n < rd
      else wr + n < size || (wr + n == size && 0 < rd) || n < rd
    }

    /** Where the cursor goes, and where the chunk starts, when `n` bytes are requested. */
    function Grant(n: nat): Option<(Cursor, nat)> {
      if wr < rd then
        if wr + n < rd then Some((this.(wr := wr + n), wr)) else None
      else if wr + n < size then Some((this.(wr := wr + n), wr))
      else if wr + n == size && 0 < rd then Some((this.(wr := 0), wr))
      else if n < rd then Some((if rd == wr then Cursor(size, size, 0, n) else Cursor(size, wr, rd, n), 0))
      else None
    }

    /** Where the cursor goes when the `n` oldest bytes are taken. */
    function Drop(n: nat): Cursor {
      if wr < rd && rd + n == cur then this.(rd := 0, cur := size) else this.(rd := rd + n)
    }

    /** `next` hands out the `n` free bytes at `p`: whatever is then written there, and only
        there, comes out after the bytes that were queued before. */
    ghost predicate Hands(next: Cursor, p: nat, n: nat)
      requires Valid()
    {
      && next.Valid() && next.size == size && p + n <= size
      && (forall i | p <= i < p + n :: !Live(i))
      && forall before: seq<byte>, after: seq<byte>
           {:trigger Queued(before), next.Queued(after)}
           | |before| == |after| == size && (forall i | 0 <= i < size && Live(i) :: before[i] == after[i])
           :: next.Queued(after) == Queued(before) + after[p..p + n]
    }
  }

  /** `next` gives up the `n` oldest bytes, which lie in one piece at `p`. */
  ghost predicate Gives(c: Cursor, next: Cursor, p: nat, n: nat)
    requires c.Valid()
  {
    && next.Valid() && next.size == c.size && p + n <= c.size
    && forall d: seq<byte> | |d| == c.size :: GivesOf(c, next, p, n, d)
  }

  ghost predicate GivesOf(c: Cursor, next: Cursor, p: nat, n: nat, d: seq<byte>)
    requires c.Valid() && |d| == c.size
  {
    && next.Valid() && next.size == c.size && p + n <= c.size
    && n <= |c.Queued(d)| && d[p..p + n] == c.Queued(d)[..n] && next.Queued(d) == c.Queued(d)[n..]
  }

  lemma SameSlice(before: seq<byte>, after: seq<byte>, lo: nat, hi: nat)
    requires |before| == |after| && lo <= hi <= |before| && forall i | lo <= i < hi :: before[i] == after[i]
    ensures before[lo..hi] == after[lo..hi]
  {
  }

  lemma AppendBehind(c: Cursor, n: nat)
    requires c.Valid() && (if c.wr < c.rd then c.wr + n < c.rd else c.wr + n < c.size)
    ensures c.Hands(c.(wr := c.wr + n), c.wr, n)
  {
    forall before: seq<byte>, after: seq<byte>
      | |before| == |after| == c.size && (forall i | 0 <= i < c.size && c.Live(i) :: before[i] == after[i])
      ensures c.(wr := c.wr + n).Queued(after) == c.Queued(before) + after[c.wr..c.wr + n]
    {
      AppendOne(c, n, before, after);
    }
  }

  lemma AppendOne(c: Cursor, n: nat, before: seq<byte>, after: seq<byte>)
    requires c.Valid() && (if c.wr < c.rd then c.wr + n < c.rd else c.wr + n < c.size)
    requires |before| == |after| == c.size && forall i | 0 <= i < c.size && c.Live(i) :: before[i] == after[i]
    ensures c.(wr := c.wr + n).Valid()
    ensures c.(wr := c.wr + n).Queued(after) == c.Queued(before) + after[c.wr..c.wr + n]
  {
    hide Cursor.Queued;
    var next := c.(wr := c.wr + n);
    if c.rd <= c.wr {
      StraightQueue(c, before);
      StraightQueue(next, after);
      SameSlice(before, after, c.rd, c.wr);
      assert after[c.rd..c.wr + n] == after[c.rd..c.wr] + after[c.wr..c.wr + n];
    } else {
      WrappedQueue(c, before);
      WrappedQueue(next, after);
      SameSlice(before, after, c.rd, c.cur);
      SameSlice(before, after, 0, c.wr);
      assert after[..c.wr + n] == after[..c.wr] + after[c.wr..c.wr + n];
      assert after[c.rd..c.cur] + (after[..c.wr] + after[c.wr..c.wr + n])
          == after[c.rd..c.cur] + after[..c.wr] + after[c.wr..c.wr + n];
    }
  }

  lemma AppendToEnd(c: Cursor, n: nat)
    requires c.Valid() && 0 < c.rd <= c.wr && c.wr + n == c.size
    ensures c.Hands(c.(wr := 0), c.wr, n)
  {
    forall before: seq<byte>, after: seq<byte>
      | |before| == |after| == c.size && (forall i | 0 <= i < c.size && c.Live(i) :: before[i] == after[i])
      ensures c.(wr := 0).Queued(after) == c.Queued(before) + after[c.wr..c.wr + n]
    {
      SameSlice(before, after, c.rd, c.wr);
      assert after[c.rd..c.size] == after[c.rd..c.wr] + after[c.wr..c.size];
      assert n > 0 ==> after[c.rd..c.size] + after[..0] == after[c.rd..c.size];
    }
  }

  lemma WrapEarly(c: Cursor, n: nat)
    requires c.Valid() && c.rd <= c.wr && n < c.rd
    ensures c.rd < c.wr ==> c.Hands(Cursor(c.size, c.wr, c.rd, n), 0, n)
    ensures c.rd == c.wr ==> c.Hands(Cursor(c.size, c.size, 0, n), 0, n)
  {
    if c.rd < c.wr {
      forall before: seq<byte>, after: seq<byte>
        | |before| == |after| == c.size && (forall i | 0 <= i < c.size && c.Live(i) :: before[i] == after[i])
        ensures Cursor(c.size, c.wr, c.rd, n).Queued(after) == c.Queued(before) + after[0..n]
      {
        SameSlice(before, after, c.rd, c.wr);
      }
    }
  }

  /** A granted request really hands out free cells, and exactly the requests that fit are granted. */
  lemma GrantHands(c: Cursor, n: nat)
    requires c.Valid()
    ensures c.Fits(n) <==> c.Grant(n).Some?
    ensures c.Fits(n) ==> c.Hands(c.Grant(n).value.0, c.Grant(n).value.1, n)
  {
    if c.Fits(n) {
      if c.wr < c.rd || c.wr + n < c.size {
        AppendBehind(c, n);
      } else if c.wr + n == c.size && 0 < c.rd {
        AppendToEnd(c, n);
      } else {
        WrapEarly(c, n);
      }
    }
  }

  lemma FillHanded(c: Cursor, next: Cursor, p: nat, bytes: seq<byte>, d: seq<byte>)
    requires c.Valid() && |d| == c.size && c.Hands(next, p, |bytes|)
    ensures next.Queued(d[..p] + bytes + d[p + |bytes|..]) == c.Queued(d) + bytes
  {
    var after := d[..p] + bytes + d[p + |bytes|..];
    assert forall i | 0 <= i < c.size && c.Live(i) :: d[i] == after[i];
    assert after[p..p + |bytes|] == bytes;
  }

  // ---------------------------------------------------------------- no request is refused without need

  lemma QueuedAt(c: Cursor, d: seq<byte>)
    requires c.Valid() && |d| == c.size
    ensures |c.Queued(d)| == c.Length()
    ensures forall i | 0 <= i < c.Length() :: 0 <= c.Cell(i) < c.size && c.Queued(d)[i] == d[c.Cell(i)]
  {
  }

  /** Storage with a mark in one cell. */
  function Marked(size: nat, x: nat): (d: seq<byte>)
    requires x < size
    ensures |d| == size && forall i | 0 <= i < size :: d[i] == 1 <==> i == x
  {
    seq(size, i => if i == x then 1 else 0)
  }

  lemma HandsQueue(c: Cursor, next: Cursor, p: nat, n: nat, d: seq<byte>)
    requires c.Valid() && c.Hands(next, p, n) && |d| == c.size
    ensures next.Queued(d) == c.Queued(d) + d[p..p + n]
  {
    hide Cursor.Queued;
    assert c.Queued(d) == c.Queued(d) && next.Queued(d) == next.Queued(d);
  }

  /** Whoever hands out n cells keeps the queued ones in their order and puts the new ones behind them. */
  lemma HandsCells(c: Cursor, next: Cursor, p: nat, n: nat)
    requires c.Valid() && c.Hands(next, p, n) && c.size > 0
    ensures next.Length() == c.Length() + n
    ensures forall i: nat | i < c.Length() :: next.Cell(i) == c.Cell(i)
    ensures forall i: nat | c.Length() <= i < c.Length() + n :: next.Cell(i) == p + i - c.Length()
  {
    hide Cursor.Queued, Cursor.Cell, Cursor.Length, Cursor.Hands;
    HandsBounds(c, next, p, n);
    var zero := Marked(c.size, 0);
    HandsQueue(c, next, p, n, zero);
    QueuedAt(c, zero);
    QueuedAt(next, zero);
    forall i: nat | i < c.Length() ensures next.Cell(i) == c.Cell(i) {
      var d := Marked(c.size, c.Cell(i));
      HandsQueue(c, next, p, n, d);
      QueuedAt(c, d);
      QueuedAt(next, d);
    }
    forall i: nat | c.Length() <= i < c.Length() + n ensures next.Cell(i) == p + i - c.Length() {
      var j := i - c.Length();
      var d := Marked(c.size, p + j);
      HandsQueue(c, next, p, n, d);
      QueuedAt(c, d);
      QueuedAt(next, d);
      assert d[p..p + n][j] == 1;
    }
  }

  lemma HandsBounds(c: Cursor, next: Cursor, p: nat, n: nat)
    requires c.Valid() && c.Hands(next, p, n)
    ensures next.Valid() && next.size == c.size && p + n <= c.size && 0 <= c.Length() && 0 <= next.Length()
  {
  }

  /** So behind queued bytes there is no other place than behind the write position or, when the queue reaches up to
      that from the read position on, at the start of the storage. */
  lemma HandsFits(c: Cursor, next: Cursor, p: nat, n: nat)
    requires c.Valid() && c.Whole() && c.rd != c.wr && c.Hands(next, p, n)
    ensures c.Fits(n)
  {
    HandsCells(c, next, p, n);
    HandsBounds(c, next, p, n);
    hide Cursor.Hands, Cursor.Queued;
    assert next.Cell(0) == c.Cell(0);
    if n > 0 {
      assert next.Cell(c.Length()) == p;
      if next.wr < next.rd {
        var turn := next.cur - next.rd;
        if turn < c.Length() {
          assert next.Cell(turn) == c.Cell(turn);
        } else if turn < c.Length() + n {
          assert next.Cell(turn) == p + turn - c.Length();
        }
      }
      if c.wr < c.rd && c.cur - c.rd < c.Length() {
        assert next.Cell(c.cur - c.rd) == c.Cell(c.cur - c.rd);
      }
    }
  }

  /** A request is refused only if no cursor could hand out n free cells behind the queued bytes. */
  lemma GrantComplete(c: Cursor, n: nat)
    requires c.Valid() && c.Whole() && c.rd != c.wr
    ensures c.Grant(n).Some? <==> exists next: Cursor, p: nat :: c.Hands(next, p, n)
  {
    hide Cursor.Hands, Cursor.Fits, Cursor.Grant;
    GrantHands(c, n);
    if next: Cursor, p: nat :| c.Hands(next, p, n) {
      HandsFits(c, next, p, n);
    }
  }

  /** An empty ring gives the cells behind its position, the last one of the storage unless that is cell 0, or those
      at the start before its position. */
  lemma EmptyGrants(c: Cursor, n: nat)
    requires c.Valid() && c.rd == c.wr
    ensures c.Grant(n).Some? <==> n < c.size - c.wr || (n == c.size - c.wr && 0 < c.wr) || n < c.wr
    ensures c.Grant(n).Some? ==>
      c.Grant(n).value.1 == (if n < c.size - c.wr || (n == c.size - c.wr && 0 < c.wr) then c.wr else 0) &&
      c.Grant(n).value.0.Length() == n
  {
  }

  lemma FitsExactly(c: Cursor, n: nat, d: seq<byte>)
    requires c.Valid() && c.Whole() && |d| == c.size
    ensures c.Queued(d) != [] ==> (c.Fits(n) <==> exists next: Cursor, p: nat :: c.Hands(next, p, n))
    ensures c.Queued(d) == [] ==>
      (c.Fits(n) <==> n < c.size - c.wr || (n == c.size - c.wr && 0 < c.wr) || n < c.wr)
  {
    hide Cursor.Hands, Cursor.Queued;
    QueuedAt(c, d);
    GrantHands(c, n);
    if c.rd != c.wr {
      GrantComplete(c, n);
    } else {
      EmptyGrants(c, n);
    }
  }

  lemma SplitSlice(d: seq<byte>, lo: nat, n: nat, hi: nat)
    requires lo + n <= hi <= |d|
    ensures d[lo..hi][..n] == d[lo..lo + n] && d[lo..hi][n..] == d[lo + n..hi]
  {
  }

  lemma SplitFirst(a: seq<byte>, b: seq<byte>, n: nat)
    requires n <= |a|
    ensures (a + b)[..n] == a[..n] && (a + b)[n..] == a[n..] + b
  {
  }

  lemma SplitWrapped(d: seq<byte>, rd: nat, n: nat, cur: nat, wr: nat)
    requires rd + n <= cur <= |d| && wr <= |d|
    ensures (d[rd..cur] + d[..wr])[..n] == d[rd..rd + n]
    ensures (d[rd..cur] + d[..wr])[n..] == d[rd + n..cur] + d[..wr]
  {
    SplitSlice(d, rd, n, cur);
    SplitFirst(d[rd..cur], d[..wr], n);
  }

  /** Taking n bytes off the front: `d` is the storage of a ring whose live bytes lie in one piece, of one
      that wraps behind them, and of one that wraps right there. */
  lemma TakeStraight(c: Cursor, n: nat, d: seq<byte>)
    requires c.Valid() && |d| == c.size && c.rd <= c.wr && n <= c.wr - c.rd
    ensures GivesOf(c, c.(rd := c.rd + n), c.rd, n, d)
  {
    var next := c.(rd := c.rd + n);
    assert next.Valid();
    hide Cursor.Queued, Cursor.Valid;
    StraightQueue(c, d);
    StraightQueue(next, d);
    SplitSlice(d, c.rd, n, c.wr);
  }

  lemma StraightQueue(c: Cursor, d: seq<byte>)
    requires c.Valid() && |d| == c.size && c.rd <= c.wr
    ensures c.wr <= |d| && c.Queued(d) == d[c.rd..c.wr]
  {
  }

  lemma TakeWrapped(c: Cursor, n: nat, d: seq<byte>)
    requires c.Valid() && |d| == c.size && c.wr < c.rd && c.rd + n < c.cur
    ensures GivesOf(c, c.(rd := c.rd + n), c.rd, n, d)
  {
    var next := c.(rd := c.rd + n);
    assert next.Valid();
    hide Cursor.Queued, Cursor.Valid;
    WrappedQueue(c, d);
    WrappedQueue(next, d);
    SplitWrapped(d, c.rd, n, c.cur, c.wr);
  }

  lemma WrappedQueue(c: Cursor, d: seq<byte>)
    requires c.Valid() && |d| == c.size && c.wr < c.rd
    ensures c.rd < c.cur <= |d| && c.wr <= |d| && c.Queued(d) == d[c.rd..c.cur] + d[..c.wr]
  {
  }

  lemma TakeToEnd(c: Cursor, d: seq<byte>)
    requires c.Valid() && |d| == c.size && c.wr < c.rd
    ensures GivesOf(c, c.(rd := 0, cur := c.size), c.rd, c.cur - c.rd, d)
  {
    SplitWrapped(d, c.rd, c.cur - c.rd, c.cur, c.wr);
    assert d[c.cur..c.cur] + d[..c.wr] == d[0..c.wr];
  }

  lemma TakeFront(c: Cursor, n: nat)
    requires c.Valid() && n <= c.Run()
    ensures Gives(c, c.Drop(n), c.rd, n)
  {
    hide GivesOf;
    forall d: seq<byte> | |d| == c.size
      ensures GivesOf(c, c.Drop(n), c.rd, n, d)
    {
      if c.wr < c.rd && c.rd + n == c.cur {
        TakeToEnd(c, d);
      } else if c.wr < c.rd {
        TakeWrapped(c, n, d);
      } else {
        TakeStraight(c, n, d);
      }
    }
  }

  /** The oldest n bytes lie in one piece exactly if n is at most the contiguous length. */
  lemma TakeComplete(c: Cursor, n: nat)
    requires c.Valid()
    ensures n <= c.Run() <==> exists next: Cursor, p: nat :: Gives(c, next, p, n)
  {
    hide Gives;
    if n <= c.Run() {
      TakeFront(c, n);
    }
    if next: Cursor, p: nat :| Gives(c, next, p, n) {
      PieceIsRun(c, next, p, n);
    }
  }

  lemma PieceIsRun(c: Cursor, next: Cursor, p: nat, n: nat)
    requires c.Valid() && Gives(c, next, p, n)
    ensures n <= c.Run()
  {
    if n > 0 && c.size > 0 {
      var turn := c.cur - c.rd;
      var i := if c.wr < c.rd && turn < n then turn else 0;
      PieceCell(c, next, p, n, 0);
      PieceCell(c, next, p, n, i);
    }
    SomeQueue(c, next, p, n);
  }

  lemma PieceCell(c: Cursor, next: Cursor, p: nat, n: nat, i: nat)
    requires c.Valid() && Gives(c, next, p, n) && i < n && c.size > 0
    ensures p + n <= c.size && n <= c.Length() && c.Cell(i) == p + i
  {
    hide Cursor.Queued;
    var d := Marked(c.size, p + i);
    assert GivesOf(c, next, p, n, d);
    QueuedAt(c, d);
    assert d[p..p + n][i] == c.Queued(d)[..n][i];
  }

  lemma SomeQueue(c: Cursor, next: Cursor, p: nat, n: nat)
    requires c.Valid() && Gives(c, next, p, n)
    ensures n <= c.Length()
  {
    hide Cursor.Queued;
    var d: seq<byte> := seq(c.size, _ => 0);
    assert GivesOf(c, next, p, n, d);
    QueuedAt(c, d);
  }

  lemma TakeOne(c: Cursor, n: nat, d: seq<byte>)
    requires c.Valid() && n <= c.Run() && |d| == c.size
    ensures c.Drop(n).Valid() && c.Drop(n).size == c.size && c.rd + n <= c.size && n <= |c.Queued(d)|
    ensures d[c.rd..c.rd + n] == c.Queued(d)[..n] && c.Drop(n).Queued(d) == c.Queued(d)[n..]
  {
    hide Cursor.Queued, Cursor.Drop;
    TakeFront(c, n);
    assert GivesOf(c, c.Drop(n), c.rd, n, d);
  }

  /** The bytes can be had right behind the write position. */
  predicate Behind(c: Cursor, n: nat) {
    c.Grant(n).Some? && c.Grant(n).value.1 == c.wr
  }

  /** `Room` is the largest number of bytes that can be had there. */
  lemma RoomIsLargest(c: Cursor)
    requires c.Valid()
    ensures c.Room() >= 0
    ensures forall n: nat :: 0 < n ==> (Behind(c, n) <==> n <= c.Room())
  {
  }

  /** A request of at most `Room` bytes is always granted without giving up the tail, and a ring
      that has its tail offers no room only when all cells but one are live. */
  lemma RoomIsGranted(c: Cursor, n: nat, d: seq<byte>)
    requires c.Valid() && n <= c.Room() && |d| == c.size
    ensures 0 < c.Room() ==> c.Fits(n)
    ensures 0 < c.Room() && c.cur == c.size ==> c.Grant(n).value.0.cur == c.size
    ensures c.cur == c.size ==> c.Room() <= Max(c.size - 1, 0) - |c.Queued(d)|
    ensures c.cur == c.size && c.Room() == 0 ==> |c.Queued(d)| == Max(c.size - 1, 0)
  {
  }

  class RingBuffer {
    const data: array<byte>
    var curSize: nat
    var rd: nat
    var wr: nat

    ghost var contents: seq<byte>  // the queued bytes, oldest first

    ghost function At(): Cursor
      reads this
    {
      Cursor(data.Length, curSize, rd, wr)
    }

    ghost predicate Valid()
      reads this, data
    {
      At().Valid() && At().Whole() && contents == At().Queued(data[..])
    }

    constructor (n: nat)
      ensures Valid() && contents == []
      ensures At() == Cursor(n, n, 0, 0)
      ensures fresh(data)
    {
      data := new byte[n];
      curSize := n;
      rd, wr := 0, 0;
      contents := [];
    }

    lemma AtValid()
      requires Valid()
      ensures At().Valid() && contents == At().Queued(data[..])
    {
    }

    /** Queued bytes never fill the storage: one cell always stays free. */
    lemma LengthBound()
      requires Valid()
      ensures |contents| <= Max(data.Length - 1, 0)
    {
    }

    method Produce(size: nat) returns (ptr: Option<nat>)
      requires Valid()
      modifies this
      ensures At().Valid() && At().Whole() && (ptr.None? ==> Valid())
      ensures ptr.Some? <==> old(At()).Fits(size)
      ensures contents != [] ==> (ptr.Some? <==> exists next: Cursor, p: nat :: old(At()).Hands(next, p, size))
      ensures contents == [] ==> (ptr.Some? <==>
        size < data.Length - old(wr) || (size == data.Length - old(wr) && 0 < old(wr)) || size < old(wr))
      ensures ptr.None? ==> At() == old(At())
      ensures contents == old(contents)
      ensures ptr.Some? ==> old(At()).Hands(At(), ptr.value, size)
      ensures ptr.Some? ==> old(At()).Grant(size) == Some((At(), ptr.value))
    {
      ghost var c := At();
      GrantHands(c, size);
      FitsExactly(c, size, data[..]);
      hide Cursor.Queued;
      var start := wr;
      if rd <= wr {
        if wr + size >= data.Length {
          if rd == 0 {
            return None;
          }
          if wr + size == data.Length {
            wr := 0;
          } else {
            if size > rd - 1 {
              return None;
            }
            curSize := wr;
            wr := 0;
            start := 0;
            if rd == curSize {
              rd := 0;
              if curSize < data.Length {
                curSize := data.Length;
              }
            }
            wr := wr + size;
          }
        } else {
          wr := wr + size;
        }
      } else {
        if size > rd - wr - 1 {
          return None;
        }
        wr := wr + size;
      }
      ptr := Some(start);
      assert c.Grant(size) == Some((At(), start));
    }

    method Consume(size: nat) returns (ptr: Option<nat>)
      requires Valid()
      modifies this
      ensures Valid()
      ensures ptr.Some? <==> size <= old(At()).Run()
      ensures ptr.Some? <==> exists next: Cursor, p: nat :: Gives(old(At()), next, p, size)
      ensures ptr.None? ==> At() == old(At()) && contents == old(contents)
      ensures ptr.Some? ==> At() == old(At()).Drop(size)
      ensures ptr.Some? ==>
                && ptr.value + size <= data.Length
                && size <= |old(contents)|
                && data[ptr.value..ptr.value + size] == old(contents)[..size]
                && contents == old(contents)[size..]
    {
      hide Cursor.Queued, GivesOf, Gives;
      ghost var c := At();
      TakeComplete(c, size);
      if size <= c.Run() {
        TakeOne(c, size, data[..]);
        assert data[..][rd..rd + size] == data[rd..rd + size];
      }
      var start := rd;
      if rd <= wr {
        if rd + size > wr {
          return None;
        }
        rd := rd + size;
      } else {
        if rd + size > curSize {
          return None;
        } else if rd + size == curSize {
          if curSize < data.Length {
            curSize := data.Length;
          }
          rd := 0;
        } else {
          rd := rd + size;
        }
      }
      ptr := Some(start);
      assert At() == c.Drop(size);
      contents := contents[size..];
    }

    method ReadSizeGet() returns (size: nat)
      requires Valid()
      ensures size == At().Run() <= |contents|
      ensures size == 0 <==> contents == []
    {
      if rd <= wr {
        size := wr - rd;
      } else {
        size := curSize - rd;
      }
    }

    method WriteSizeGet() returns (size: nat)
      requires Valid()
      ensures size == At().Room()
      ensures forall n: nat :: 0 < n ==> (Behind(At(), n) <==> n <= size)
    {
      RoomIsLargest(At());
      if rd <= wr {
        size := data.Length - wr;
        if size != 0 && rd == 0 {
          size := size - 1;
        }
      } else {
        size := rd - wr - 1;
      }
    }

    /** Produce a chunk and copy `bytes` into it, as every user of the ring does. */
    method Put(bytes: seq<byte>) returns (ok: bool)
      requires Valid()
      modifies this, data
      ensures Valid()
      ensures ok <==> old(At()).Fits(|bytes|)
      ensures !ok ==> At() == old(At()) && data[..] == old(data[..]) && contents == old(contents)
      ensures ok ==> contents == old(contents) + bytes
      ensures ok ==> old(At()).Grant(|bytes|).Some? && At() == old(At()).Grant(|bytes|).value.0
    {
      ghost var c := At();
      ghost var d := data[..];
      var ptr := Produce(|bytes|);
      if ptr.None? {
        return false;
      }
      var start := ptr.value;
      CopyIn(data, start, bytes);
      FillHanded(c, At(), start, bytes, d);
      contents := contents + bytes;
      ok := true;
    }

    /** Take `size` bytes off the front, if they lie in one piece. */
    method Take(size: nat) returns (bytes: Option<seq<byte>>)
      requires Valid()
      modifies this
      ensures Valid()
      ensures bytes.Some? <==> size <= old(At()).Run()
      ensures bytes.None? ==> At() == old(At()) && contents == old(contents)
      ensures bytes.Some? ==> |bytes.value| == size && old(contents) == bytes.value + contents
      ensures bytes.Some? ==> At() == old(At()).Drop(size)
      ensures bytes.Some? && size == old(At()).Run() ==> contents == [] || rd == 0
    {
      var ptr := Consume(size);
      if ptr.None? {
        return None;
      }
      bytes := Some(data[ptr.value..ptr.value + size]);
    }

    /** Store as much of `bytes` as the ring grants in one piece. */
    method WriteSome(bytes: seq<byte>) returns (n: nat)
      requires Valid() && curSize == data.Length && 0 < |bytes|
      modifies this, data
      ensures Valid() && curSize == data.Length && n <= |bytes|
      ensures contents == old(contents) + bytes[..n]
      ensures n <= Max(data.Length - 1, 0) - |old(contents)|
      ensures n == 0 ==> |old(contents)| == Max(data.Length - 1, 0)
    {
      n := WriteSizeGet();
      RoomIsGranted(At(), n, data[..]);
      if n > |bytes| {
        n := |bytes|;
        RoomIsGranted(At(), n, data[..]);
      }
      if n != 0 {
        var ok := Put(bytes[..n]);
      }
    }

    /** The loop of esp_apptrace_trax_down_buffer_write_nolock: as many chunks as the ring grants,
        until all of `bytes` is stored or the ring is full. */
    method WriteAll(bytes: seq<byte>) returns (total: nat)
      requires Valid() && curSize == data.Length
      modifies this, data
      ensures Valid() && curSize == data.Length
      ensures total == Min(|bytes|, Max(data.Length - 1, 0) - |old(contents)|)
      ensures contents == old(contents) + bytes[..total]
    {
      hide RingBuffer.Valid, RingBuffer.At;
      total := 0;
      ghost var before := contents;
      LengthBound();
      while total < |bytes|
        modifies this, data
        invariant Valid() && curSize == data.Length
        invariant total <= |bytes| && total <= Max(data.Length - 1, 0) - |before|
        invariant contents == before + bytes[..total]
      {
        var n := WriteSome(bytes[total..]);
        if n == 0 {
          break;
        }
        assert bytes[..total + n] == bytes[..total] + bytes[total..][..n];
        total := total + n;
      }
    }
  }

  /** The ring grants the call. */
  ghost predicate Grants(c: Cursor, op: RingOp) {
    match op
    case Put(bytes) => c.Fits(|bytes|)
    case Take(size) => size <= c.Run()
  }

  /** Where the cursor is after a call, and after several calls. */
  ghost function Next(c: Cursor, op: RingOp): (next: Cursor)
    requires c.Valid()
    ensures next.Valid() && next.size == c.size
  {
    if !Grants(c, op) then c
    else match op
      case Put(bytes) => GrantHands(c, |bytes|); c.Grant(|bytes|).value.0
      case Take(size) => TakeFront(c, size); c.Drop(size)
  }

  ghost function After(c: Cursor, ops: seq<RingOp>): (next: Cursor)
    requires c.Valid()
    ensures next.Valid() && next.size == c.size
  {
    if ops == [] then c else Next(After(c, ops[..|ops| - 1]), ops[|ops| - 1])
  }

  /** The bytes of the granted `Put`s in order, and the number of bytes that the granted `Take`s take. */
  ghost function Accepted(c: Cursor, ops: seq<RingOp>): seq<byte>
    requires c.Valid()
  {
    if ops == [] then []
    else
      var front, op := ops[..|ops| - 1], ops[|ops| - 1];
      Accepted(c, front) + if op.Put? && Grants(After(c, front), op) then op.bytes else []
  }

  ghost function Taken(c: Cursor, ops: seq<RingOp>): nat
    requires c.Valid()
  {
    if ops == [] then 0
    else
      var front, op := ops[..|ops| - 1], ops[|ops| - 1];
      Taken(c, front) + if op.Take? && Grants(After(c, front), op) then op.size else 0
  }

  /** A new ring is a queue under any sequence of calls.  Each call is granted exactly if the cursor grants
      it; the bytes taken are as many as the granted calls ask for, and together with the bytes still queued
      they are the bytes of the granted chunks, in order. */
  method Replay(n: nat, ops: seq<RingOp>) returns (ring: RingBuffer, granted: seq<bool>, taken: seq<byte>)
    ensures ring.Valid() && |granted| == |ops|
    ensures forall i | 0 <= i < |ops| :: granted[i] == Grants(After(Cursor(n, n, 0, 0), ops[..i]), ops[i])
    ensures taken + ring.contents == Accepted(Cursor(n, n, 0, 0), ops)
    ensures |taken| == Taken(Cursor(n, n, 0, 0), ops)
  {
    hide RingBuffer.Valid, Grants, Next, Cursor.Valid, After, Accepted, Taken;
    ring := new RingBuffer(n);
    granted, taken := [], [];
    ghost var c := ring.At();
    EmptyRing(n);
    for i := 0 to |ops|
      invariant fresh(ring) && fresh(ring.data) && ring.Valid()
      invariant |granted| == i && ring.At() == After(c, ops[..i])
      invariant forall j | 0 <= j < i :: granted[j] == Grants(After(c, ops[..j]), ops[j])
      invariant taken + ring.contents == Accepted(c, ops[..i]) && |taken| == Taken(c, ops[..i])
    {
      AfterSnoc(c, ops, i);
      var ok;
      ok, taken := Apply(ring, ops[i], taken);
      granted := granted + [ok];
    }
    assert ops[..|ops|] == ops;
  }

  lemma EmptyRing(n: nat)
    ensures var c := Cursor(n, n, 0, 0);
      c.Valid() && After(c, []) == c && Accepted(c, []) == [] && Taken(c, []) == 0
  {
  }

  lemma AfterSnoc(c: Cursor, ops: seq<RingOp>, i: nat)
    requires c.Valid() && i < |ops|
    ensures var before := After(c, ops[..i]); var ok := Grants(before, ops[i]);
      && After(c, ops[..i + 1]) == Next(before, ops[i])
      && Accepted(c, ops[..i + 1]) == Accepted(c, ops[..i]) + (if ops[i].Put? && ok then ops[i].bytes else [])
      && Taken(c, ops[..i + 1]) == Taken(c, ops[..i]) + if ops[i].Take? && ok then ops[i].size else 0
  {
    hide Grants, Next;
    assert ops[..i + 1][..i] == ops[..i];
  }

  /** Run one call; bytes taken from the ring are appended to `taken`. */
  method Apply(ring: RingBuffer, op: RingOp, taken: seq<byte>) returns (ok: bool, now: seq<byte>)
    requires ring.Valid() && ring.At().Valid()
    modifies ring, ring.data
    ensures ring.Valid() && ring.At().Valid()
    ensures ok == Grants(old(ring.At()), op) && ring.At() == Next(old(ring.At()), op)
    ensures now + ring.contents == taken + old(ring.contents) + (if op.Put? && ok then op.bytes else [])
    ensures |now| == |taken| + if op.Take? && ok then op.size else 0
  {
    hide RingBuffer.Valid, RingBuffer.At, Cursor.Valid, Cursor.Fits, Cursor.Run, Cursor.Grant, Cursor.Drop;
    now := taken;
    ghost var c := ring.At();
    ghost var next := Next(c, op);
    match op {
      case Put(chunk) =>
        ok := ring.Put(chunk);
        assert ok ==> taken + (old(ring.contents) + chunk) == taken + old(ring.contents) + chunk;
      case Take(size) =>
        var got := ring.Take(size);
        ok := got.Some?;
        if ok {
          now := taken + got.value;
          assert taken + got.value + ring.contents == taken + (got.value + ring.contents);
        }
    }
  }
}
