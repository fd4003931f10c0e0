/**
 Giving the memory of the Bluetooth controller back to the heap: the region loop of
 esp_bt_controller_mem_release in bt.c.
 */
module BtMemory {

  /** Mode masks: bit 0 stands for BLE, bit 1 for Classic BT. */
  type Mode = bv2

  const IDLE: Mode := 0
  const BLE: Mode := 1
  const CLASSIC: Mode := 2
  const BTDM: Mode := 3

  datatype Region = Region(mode: Mode, start: int, end: int)

  datatype Range = Range(start: int, end: int)

  datatype Err = OK | INVALID_STATE

  /** The region is used, and only by modes that are being released. */
  predicate Eligible(r: Region, mode: Mode) {
    r.mode != IDLE && mode & r.mode == r.mode
  }

  /** The region without the modes released. */
  function Cleared(r: Region, mode: Mode): Region {
    r.(mode := r.mode & !mode)
  }

  /** A region goes idle exactly when it is eligible. */
  lemma GoesIdle(r: Region, mode: Mode)
    ensures Eligible(r, mode) <==> r.mode != IDLE && Cleared(r, mode).mode == IDLE
  {
    var m := r.mode;
    assert m & !mode == 0 <==> mode & m == m;
  }

  // ---------------------------------------------------------------- counting

  function Has(start: int, end: int, a: int): nat {
    if start <= a < end then 1 else 0
  }

  /** How many of the ranges contain address a. */
  function Cover(ranges: seq<Range>, a: int): nat {
    if ranges == [] then 0
    else
      var r := ranges[|ranges| - 1];
      Cover(ranges[..|ranges| - 1], a) + Has(r.start, r.end, a)
  }

  /** How many of the eligible regions contain it, and how many of those that are in use. */
  function CoverEligible(regions: seq<Region>, mode: Mode, a: int): nat {
    if regions == [] then 0
    else
      var r := regions[|regions| - 1];
      CoverEligible(regions[..|regions| - 1], mode, a) + if Eligible(r, mode) then Has(r.start, r.end, a) else 0
  }

  function CoverUsed(regions: seq<Region>, a: int): nat {
    if regions == [] then 0
    else
      var r := regions[|regions| - 1];
      CoverUsed(regions[..|regions| - 1], a) + if r.mode != IDLE then Has(r.start, r.end, a) else 0
  }

  /** Region i and the next one are released together. */
  predicate Joined(regions: seq<Region>, mode: Mode, i: nat)
    requires i < |regions|
  {
    && i + 1 < |regions| && Eligible(regions[i], mode) && Eligible(regions[i + 1], mode)
    && regions[i].end == regions[i + 1].start
  }

  /** Behind region n - 1 a run of joined regions is open. */
  predicate Open(regions: seq<Region>, mode: Mode, n: nat)
    requires n <= |regions|
  {
    n > 0 && Joined(regions, mode, n - 1)
  }

  /** The first region of the run that region j belongs to. */
  function RunStart(regions: seq<Region>, mode: Mode, j: nat): (i: nat)
    requires j < |regions|
    ensures i <= j && !Open(regions, mode, i) && forall k | i <= k < j :: Joined(regions, mode, k)
  {
    if Open(regions, mode, j) then RunStart(regions, mode, j - 1) else j
  }

  /** The run of region j, up to that region. */
  function Run(regions: seq<Region>, mode: Mode, j: nat): Range
    requires j < |regions|
  {
    Range(regions[RunStart(regions, mode, j)].start, regions[j].end)
  }

  /** The ranges of the runs that end among the first n regions. */
  function Handed(regions: seq<Region>, mode: Mode, n: nat): seq<Range>
    requires n <= |regions|
  {
    if n == 0 then []
    else if Eligible(regions[n - 1], mode) && !Joined(regions, mode, n - 1) then
      Handed(regions, mode, n - 1) + [Run(regions, mode, n - 1)]
    else Handed(regions, mode, n - 1)
  }

  /** Releasing moves what becomes idle from the regions in use to the heap. */
  ghost predicate Conserved(was: seq<Region>, now: seq<Region>, handed: seq<Range>) {
    forall a :: Cover(handed, a) + CoverUsed(now, a) == CoverUsed(was, a)
  }

  lemma {:induction false} EligibleIsUsedBefore(regions: seq<Region>, now: seq<Region>, mode: Mode, a: int)
    requires |now| == |regions| && forall i | 0 <= i < |now| :: now[i] == Cleared(regions[i], mode)
    ensures CoverEligible(regions, mode, a) + CoverUsed(now, a) == CoverUsed(regions, a)
    decreases |regions|
  {
    if regions != [] {
      var n := |regions| - 1;
      EligibleIsUsedBefore(regions[..n], now[..n], mode, a);
      GoesIdle(regions[n], mode);
    }
  }

  lemma CoverSnoc(ranges: seq<Range>, r: Range, a: int)
    ensures Cover(ranges + [r], a) == Cover(ranges, a) + Has(r.start, r.end, a)
  {
    assert (ranges + [r])[..|ranges|] == ranges;
  }

  lemma EligibleSnoc(regions: seq<Region>, mode: Mode, i: nat, a: int)
    requires i < |regions|
    ensures CoverEligible(regions[..i + 1], mode, a) == CoverEligible(regions[..i], mode, a) +
      if Eligible(regions[i], mode) then Has(regions[i].start, regions[i].end, a) else 0
  {
    assert regions[..i + 1][..i] == regions[..i];
  }

  ghost predicate Ordered(regions: seq<Region>) {
    forall i | 0 <= i < |regions| :: regions[i].start <= regions[i].end
  }

  lemma HandedNext(regions: seq<Region>, mode: Mode, i: nat)
    requires i < |regions|
    ensures Handed(regions, mode, i + 1) ==
      if Eligible(regions[i], mode) && !Open(regions, mode, i + 1) then
        Handed(regions, mode, i) + [Run(regions, mode, i)]
      else Handed(regions, mode, i)
    ensures Open(regions, mode, i) || Open(regions, mode, i + 1) ==> Eligible(regions[i], mode)
    ensures Run(regions, mode, i).end == regions[i].end
    ensures Run(regions, mode, i).start ==
      if Open(regions, mode, i) then Run(regions, mode, i - 1).start else regions[i].start
  {
  }

  /** A run contains what it contained one region before, and that region. */
  lemma RunCover(regions: seq<Region>, mode: Mode, i: nat, a: int)
    requires i < |regions| && Ordered(regions)
    requires Open(regions, mode, i) ==> Run(regions, mode, i - 1).start <= regions[i - 1].end
    ensures var r := Run(regions, mode, i);
      && r.start <= r.end
      && Has(r.start, r.end, a) == Has(regions[i].start, regions[i].end, a) +
          if Open(regions, mode, i) then Has(Run(regions, mode, i - 1).start, regions[i - 1].end, a) else 0
  {
    hide Handed, Run;
    HandedNext(regions, mode, i);
  }

  /** The runs that have ended and the open one contain what the eligible regions contain. */
  lemma {:induction false} HandedCover(regions: seq<Region>, mode: Mode, n: nat, a: int)
    requires n <= |regions| && Ordered(regions)
    ensures Open(regions, mode, n) ==> Run(regions, mode, n - 1).start <= regions[n - 1].end
    ensures CoverEligible(regions[..n], mode, a) == Cover(Handed(regions, mode, n), a) +
      if Open(regions, mode, n) then Has(Run(regions, mode, n - 1).start, regions[n - 1].end, a) else 0
    decreases n
  {
    hide *;
    if n == 0 {
      HandedNone(regions, mode, a);
    } else {
      HandedCover(regions, mode, n - 1, a);
      EligibleSnoc(regions, mode, n - 1, a);
      CoverSnoc(Handed(regions, mode, n - 1), Run(regions, mode, n - 1), a);
      HandedNext(regions, mode, n - 1);
      RunCover(regions, mode, n - 1, a);
    }
  }

  lemma HandedNone(regions: seq<Region>, mode: Mode, a: int)
    ensures Handed(regions, mode, 0) == [] && !Open(regions, mode, 0)
    ensures Cover(Handed(regions, mode, 0), a) == CoverEligible(regions[..0], mode, a) == 0
  {
  }

  // ---------------------------------------------------------------- calls

  /** The region table, and the ranges that the heap has received. */
  datatype Memory = Memory(regions: seq<Region>, heap: seq<Range>)

  function ClearedAll(regions: seq<Region>, mode: Mode): (now: seq<Region>)
    ensures |now| == |regions| && forall i | 0 <= i < |now| :: now[i] == Cleared(regions[i], mode)
  {
    if regions == [] then []
    else ClearedAll(regions[..|regions| - 1], mode) + [Cleared(regions[|regions| - 1], mode)]
  }

  predicate Accepted(first: Mode, idle: bool, mode: Mode) {
    idle && mode & first != IDLE
  }

  function Call(m: Memory, idle: bool, mode: Mode): (n: Memory)
    requires m.regions != []
    ensures |n.regions| == |m.regions|
  {
    if Accepted(m.regions[0].mode, idle, mode) then
      Memory(ClearedAll(m.regions, mode), m.heap + Handed(m.regions, mode, |m.regions|))
    else m
  }

  function Calls(m: Memory, idle: bool, modes: seq<Mode>): (n: Memory)
    requires m.regions != []
    ensures |n.regions| == |m.regions|
  {
    if modes == [] then m
    else Call(Calls(m, idle, modes[..|modes| - 1]), idle, modes[|modes| - 1])
  }

  /** The modes that the table loses in these calls, when its first region has the modes `first`. */
  function Lost(first: Mode, idle: bool, modes: seq<Mode>): Mode {
    if modes == [] then IDLE
    else
      var lost, mode := Lost(first, idle, modes[..|modes| - 1]), modes[|modes| - 1];
      if Accepted(first & !lost, idle, mode) then lost | mode else lost
  }

  /** Every region loses the same modes: those of the calls at which the first region still had one of them. */
  lemma {:induction false} LostInCalls(m: Memory, idle: bool, modes: seq<Mode>, i: nat)
    requires i < |m.regions|
    ensures Calls(m, idle, modes).regions[i] == Cleared(m.regions[i], Lost(m.regions[0].mode, idle, modes))
    decreases |modes|
  {
    hide ClearedAll, Handed;
    var first, r := m.regions[0].mode, m.regions[i];
    if modes == [] {
      assert r.mode & !IDLE == r.mode;
    } else {
      var front, mode := modes[..|modes| - 1], modes[|modes| - 1];
      var lost := Lost(first, idle, front);
      LostInCalls(m, idle, front, i);
      LostInCalls(m, idle, front, 0);
      ClearTwice(r, lost, mode);
    }
  }

  lemma ClearTwice(r: Region, lost: Mode, mode: Mode)
    ensures Cleared(Cleared(r, lost), mode) == Cleared(r, lost | mode)
  {
    var m := r.mode;
    assert m & !lost & !mode == m & !(lost | mode);
  }

  /** The first region itself loses every mode asked for while the controller is idle. */
  lemma {:induction false} FirstLoses(first: Mode, modes: seq<Mode>, k: nat)
    requires k < |modes|
    ensures first & modes[k] & !Lost(first, true, modes) == IDLE
    decreases |modes|
  {
    var front, mode := modes[..|modes| - 1], modes[|modes| - 1];
    var lost := Lost(first, true, front);
    if k < |front| {
      FirstLoses(first, front, k);
      var x := front[k];
      assert first & x & !lost == 0 ==> first & x & !(lost | mode) == 0;
    } else {
      assert first & mode & !(lost | mode) == 0;
      assert mode & (first & !lost) == 0 ==> first & mode & !lost == 0;
    }
  }

  lemma CallConserves(m: Memory, idle: bool, mode: Mode)
    requires m.regions != [] && Ordered(m.regions)
    ensures var n := Call(m, idle, mode);
      && Ordered(n.regions) && m.heap <= n.heap
      && Conserved(m.regions, n.regions, n.heap[|m.heap|..])
      && (Accepted(m.regions[0].mode, idle, mode) ==>
            forall a :: Cover(n.heap[|m.heap|..], a) == CoverEligible(m.regions, mode, a))
  {
    hide Cover, CoverUsed, CoverEligible, Handed;
    var n := Call(m, idle, mode);
    var handed := n.heap[|m.heap|..];
    if Accepted(m.regions[0].mode, idle, mode) {
      assert handed == Handed(m.regions, mode, |m.regions|) && m.regions[..|m.regions|] == m.regions;
      forall a
        ensures Cover(handed, a) == CoverEligible(m.regions, mode, a)
        ensures Cover(handed, a) + CoverUsed(n.regions, a) == CoverUsed(m.regions, a)
      {
        HandedCover(m.regions, mode, |m.regions|, a);
        EligibleIsUsedBefore(m.regions, n.regions, mode, a);
      }
    } else {
      assert handed == [];
      NothingHanded(m.regions);
    }
  }

  /** Over any calls, what leaves the regions in use goes to the heap, each address once. */
  lemma {:induction false} CallsConserve(regions: seq<Region>, idle: bool, modes: seq<Mode>)
    requires regions != [] && Ordered(regions)
    ensures var n := Calls(Memory(regions, []), idle, modes);
      Ordered(n.regions) && Conserved(regions, n.regions, n.heap)
    decreases |modes|
  {
    hide Conserved, Ordered, Call;
    if modes == [] {
      NothingHanded(regions);
    } else {
      var front, mode := modes[..|modes| - 1], modes[|modes| - 1];
      var m := Calls(Memory(regions, []), idle, front);
      CallsConserve(regions, idle, front);
      CallConserves(m, idle, mode);
      var n := Call(m, idle, mode);
      assert n.heap == m.heap + n.heap[|m.heap|..];
      ConservedTwice(regions, m.regions, n.regions, m.heap, n.heap[|m.heap|..]);
    }
  }

  /** And if no two regions overlap, no two ranges that the heap receives do. */
  lemma HeapNoOverlap(regions: seq<Region>, idle: bool, modes: seq<Mode>, i: nat, j: nat, a: int)
    requires regions != [] && Ordered(regions) && NoOverlap(regions)
    requires i < j < |Calls(Memory(regions, []), idle, modes).heap|
    ensures var heap := Calls(Memory(regions, []), idle, modes).heap;
      Has(heap[i].start, heap[i].end, a) + Has(heap[j].start, heap[j].end, a) <= 1
  {
    hide Calls, Cover, CoverUsed, Has;
    var n := Calls(Memory(regions, []), idle, modes);
    CallsConserve(regions, idle, modes);
    assert Cover(n.heap, a) + CoverUsed(n.regions, a) == CoverUsed(regions, a);
    NoOverlapOnce(regions, a);
    CoverPair(n.heap, i, j, a);
  }

  // ---------------------------------------------------------------- both modes at once or one by one

  /** The heap receives the same addresses either way. */
  ghost predicate SameAddresses(r: seq<Range>, s: seq<Range>) {
    forall a :: Cover(r, a) == Cover(s, a)
  }

  /** The first region has both modes or none, or what has a mode that it lacks is empty. */
  ghost predicate FirstDecides(regions: seq<Region>)
    requires regions != []
  {
    || regions[0].mode == BTDM || regions[0].mode == IDLE
    || forall i | 0 <= i < |regions| :: regions[i].mode & !regions[0].mode != IDLE ==> regions[i].start == regions[i].end
  }

  /** Releasing BLE and then Classic BT gives the heap the addresses that releasing both does if and only if the
      first region, which decides whether a call is refused, has both modes or none, or the rest is empty. */
  lemma BleThenClassic(m: Memory, idle: bool)
    requires m.regions != [] && Ordered(m.regions)
    ensures SameAddresses(Call(Call(m, idle, BLE), idle, CLASSIC).heap, Call(m, idle, BTDM).heap) <==>
      !idle || FirstDecides(m.regions)
  {
    hide Handed, Cover, CoverEligible;
    var regions := m.regions;
    var first := regions[0].mode;
    var b := Call(m, idle, BLE);
    var c := Call(b, idle, CLASSIC);
    var d := Call(m, idle, BTDM);
    FirstModes(first);
    if idle && first == BTDM {
      forall a ensures Cover(c.heap, a) == Cover(d.heap, a) {
        CallCovers(m, BLE, a);
        CallCovers(b, CLASSIC, a);
        CallCovers(m, BTDM, a);
        EligibleSplit(regions, b.regions, a);
      }
    } else if idle && first != IDLE {
      assert c == Call(m, idle, first);
      forall a
        ensures Cover(c.heap, a) == Cover(m.heap, a) + CoverEligible(regions, first, a)
        ensures Cover(d.heap, a) == Cover(m.heap, a) + CoverEligible(regions, BTDM, a)
      {
        CallCovers(m, first, a);
        CallCovers(m, BTDM, a);
      }
      OneModeMisses(regions, first);
      if SameAddresses(c.heap, d.heap) {
        forall a ensures CoverEligible(regions, first, a) == CoverEligible(regions, BTDM, a) {
          assert Cover(c.heap, a) == Cover(d.heap, a);
        }
      } else {
        var a :| Cover(c.heap, a) != Cover(d.heap, a);
        assert CoverEligible(regions, first, a) != CoverEligible(regions, BTDM, a);
      }
    } else {
      assert b == m && c == m && d == m;
    }
  }

  lemma FirstModes(first: Mode)
    ensures first == IDLE || first == BLE || first == CLASSIC || first == BTDM
    ensures BLE & BTDM == BLE && CLASSIC & (BTDM & !BLE) == CLASSIC && BTDM & BTDM == BTDM
    ensures BLE & BLE == BLE && CLASSIC & (BLE & !BLE) == IDLE && BTDM & BLE == BLE
    ensures BLE & CLASSIC == IDLE && CLASSIC & CLASSIC == CLASSIC && BTDM & CLASSIC == CLASSIC
    ensures BLE & IDLE == IDLE && CLASSIC & IDLE == IDLE && BTDM & IDLE == IDLE
  {
  }

  lemma CallCovers(m: Memory, mode: Mode, a: int)
    requires m.regions != [] && Ordered(m.regions) && Accepted(m.regions[0].mode, true, mode)
    ensures Cover(Call(m, true, mode).heap, a) == Cover(m.heap, a) + CoverEligible(m.regions, mode, a)
    ensures Ordered(Call(m, true, mode).regions)
  {
    hide Cover, CoverEligible, Call;
    var n := Call(m, true, mode);
    CallConserves(m, true, mode);
    assert n.heap == m.heap + n.heap[|m.heap|..];
    CoverConcat(m.heap, n.heap[|m.heap|..], a);
  }

  lemma {:induction false} EligibleSplit(regions: seq<Region>, now: seq<Region>, a: int)
    requires |now| == |regions| && forall i | 0 <= i < |now| :: now[i] == Cleared(regions[i], BLE)
    ensures CoverEligible(regions, BLE, a) + CoverEligible(now, CLASSIC, a) == CoverEligible(regions, BTDM, a)
    decreases |regions|
  {
    if regions != [] {
      var n := |regions| - 1;
      EligibleSplit(regions[..n], now[..n], a);
      ModesSplit(regions[n]);
    }
  }

  lemma ModesSplit(r: Region)
    ensures Eligible(r, BTDM) <==> Eligible(r, BLE) || Eligible(Cleared(r, BLE), CLASSIC)
    ensures !(Eligible(r, BLE) && Eligible(Cleared(r, BLE), CLASSIC))
  {
    var m := r.mode;
    assert m == 0 || m == 1 || m == 2 || m == 3;
  }

  lemma OneModeMisses(regions: seq<Region>, mode: Mode)
    requires Ordered(regions)
    ensures (forall a :: CoverEligible(regions, mode, a) == CoverEligible(regions, BTDM, a)) <==>
      forall i | 0 <= i < |regions| :: regions[i].mode & !mode != IDLE ==> regions[i].start == regions[i].end
  {
    hide CoverEligible;
    if i: nat :| i < |regions| && regions[i].mode & !mode != IDLE && regions[i].start != regions[i].end {
      EligibleMissed(regions, mode, regions[i].start, i);
    } else {
      forall a ensures CoverEligible(regions, mode, a) == CoverEligible(regions, BTDM, a) {
        EligibleMore(regions, mode, a);
      }
    }
  }

  lemma MissedMode(r: Region, mode: Mode)
    ensures Eligible(r, BTDM) <==> r.mode != IDLE
    ensures Eligible(r, BTDM) && !Eligible(r, mode) <==> r.mode & !mode != IDLE
    ensures Eligible(r, mode) ==> Eligible(r, BTDM)
  {
    var m := r.mode;
    assert 3 & m == m;
    assert m & !mode != 0 <==> m != 0 && mode & m != m;
  }

  lemma {:induction false} EligibleMore(regions: seq<Region>, mode: Mode, a: int)
    ensures CoverEligible(regions, mode, a) <= CoverEligible(regions, BTDM, a)
    ensures (forall i | 0 <= i < |regions| :: regions[i].mode & !mode != IDLE ==> regions[i].start >= regions[i].end) ==>
      CoverEligible(regions, mode, a) == CoverEligible(regions, BTDM, a)
    decreases |regions|
  {
    if regions != [] {
      var n := |regions| - 1;
      EligibleMore(regions[..n], mode, a);
      MissedMode(regions[n], mode);
      assert forall i | 0 <= i < n :: regions[..n][i] == regions[i];
    }
  }

  lemma {:induction false} EligibleMissed(regions: seq<Region>, mode: Mode, a: int, i: nat)
    requires i < |regions| && regions[i].mode & !mode != IDLE && regions[i].start <= a < regions[i].end
    ensures CoverEligible(regions, mode, a) < CoverEligible(regions, BTDM, a)
    decreases |regions|
  {
    var n := |regions| - 1;
    MissedMode(regions[n], mode);
    if i < n {
      EligibleMissed(regions[..n], mode, a, i);
    } else {
      EligibleMore(regions[..n], mode, a);
    }
  }

  /** A table for which it does not: the Classic region never reaches the heap. */
  lemma ClassicStays()
    ensures var m := Memory([Region(BLE, 0, 10), Region(CLASSIC, 20, 30)], []);
      && Call(Call(m, true, BLE), true, CLASSIC).heap == [Range(0, 10)]
      && Call(m, true, BTDM).heap == [Range(0, 10), Range(20, 30)]
      && !FirstDecides(m.regions)
  {
    var r, s := Region(BLE, 0, 10), Region(CLASSIC, 20, 30);
    FirstModes(BLE);
    FirstModes(CLASSIC);
    assert Eligible(r, BLE) && !Eligible(s, BLE) && Eligible(r, BTDM) && Eligible(s, BTDM);
    forall mode: Mode
      ensures Handed([r, s], mode, 2) ==
        (if Eligible(r, mode) then [Range(0, 10)] else []) + (if Eligible(s, mode) then [Range(20, 30)] else [])
    {
      assert !Joined([r, s], mode, 0) && !Joined([r, s], mode, 1);
      assert Handed([r, s], mode, 1) == if Eligible(r, mode) then [Range(0, 10)] else [];
    }
    assert s.mode & !r.mode != IDLE && [r, s][1] == s;
  }

  class Controller {
    const regions: array<Region>
    var idle: bool

    /** The ranges that the heap has received. */
    var heap: seq<Range>

    constructor (regions: array<Region>, idle: bool)
      ensures this.regions == regions && this.idle == idle && heap == []
    {
      this.regions, this.idle, heap := regions, idle, [];
    }

    ghost function Now(): Memory
      reads this, regions
    {
      Memory(regions[..], heap)
    }

    /** esp_bt_controller_mem_release, without the extra sections of the BTDM mode. */
    method MemRelease(mode: Mode) returns (err: Err)
      requires regions.Length > 0
      modifies `heap, regions
      ensures Now() == Call(old(Now()), idle, mode)
      ensures err == OK <==> Accepted(old(regions[0]).mode, idle, mode)
    {
      hide Handed;
      if !idle {
        return INVALID_STATE;
      }
      if mode & regions[0].mode == 0 {
        return INVALID_STATE;
      }
      ReleaseRegions(mode);
      return OK;
    }

    /** The loop over the regions. */
    method ReleaseRegions(mode: Mode)
      modifies `heap, regions
      ensures regions[..] == ClearedAll(old(regions[..]), mode)
      ensures heap == old(heap) + Handed(old(regions[..]), mode, regions.Length)
    {
      hide Handed, Run, Open, ClearedAll, Eligible, Cleared;
      ghost var was := regions[..];
      ghost var before := heap;
      HandedNone(was, mode, 0);
      var update, memStart, memEnd := true, 0, 0;
      for i := 0 to regions.Length
        invariant forall j | 0 <= j < i :: regions[j] == Cleared(was[j], mode)
        invariant forall j | i <= j < regions.Length :: regions[j] == was[j]
        invariant heap == before + Handed(was, mode, i)
        invariant update == !Open(was, mode, i)
        invariant !update ==> 0 < i && memStart == Run(was, mode, i - 1).start
      {
        var r := regions[i];
        HeapNext(before, was, mode, i);
        regions[i] := Cleared(r, mode);
        if !Eligible(r, mode) {
          continue;
        }
        if update {
          memStart, memEnd, update := r.start, r.end, false;
        }
        memEnd := r.end;
        if i < regions.Length - 1 {
          var next := regions[i + 1];
          if Eligible(next, mode) && memEnd == next.start {
            continue;
          }
        }
        heap := heap + [Range(memStart, memEnd)];
        update := true;
      }
    }
  }

  /** The loop step in the terms of the loop. */
  lemma HeapNext(before: seq<Range>, regions: seq<Region>, mode: Mode, i: nat)
    requires i < |regions|
    ensures before + Handed(regions, mode, i + 1) ==
      if Eligible(regions[i], mode) && !Open(regions, mode, i + 1) then
        before + Handed(regions, mode, i) + [Run(regions, mode, i)]
      else before + Handed(regions, mode, i)
    ensures Open(regions, mode, i) || Open(regions, mode, i + 1) ==> Eligible(regions[i], mode)
    ensures Run(regions, mode, i) ==
      Range(if Open(regions, mode, i) then Run(regions, mode, i - 1).start else regions[i].start, regions[i].end)
    ensures Open(regions, mode, i + 1) <==>
      && Eligible(regions[i], mode) && i < |regions| - 1 && Eligible(regions[i + 1], mode)
      && regions[i].end == regions[i + 1].start
  {
    hide Handed, Run, Eligible;
    HandedNext(regions, mode, i);
    var handed := Handed(regions, mode, i);
    assert before + (handed + [Run(regions, mode, i)]) == before + handed + [Run(regions, mode, i)];
  }

  /** What the calls return. */
  function Errors(m: Memory, idle: bool, modes: seq<Mode>): seq<Err>
    requires m.regions != []
  {
    if modes == [] then []
    else
      var front := modes[..|modes| - 1];
      var first := Calls(m, idle, front).regions[0].mode;
      Errors(m, idle, front) + [if Accepted(first, idle, modes[|modes| - 1]) then OK else INVALID_STATE]
  }

  lemma CallsNext(m: Memory, idle: bool, modes: seq<Mode>, k: nat)
    requires m.regions != [] && k < |modes|
    ensures var n := Calls(m, idle, modes[..k]);
      && Calls(m, idle, modes[..k + 1]) == Call(n, idle, modes[k])
      && Errors(m, idle, modes[..k + 1]) == Errors(m, idle, modes[..k]) +
          [if Accepted(n.regions[0].mode, idle, modes[k]) then OK else INVALID_STATE]
  {
    hide Call, Accepted;
    assert modes[..k + 1][..k] == modes[..k];
  }

  /** Any calls. */
  method ReleaseAll(c: Controller, modes: seq<Mode>) returns (errs: seq<Err>)
    requires c.regions.Length > 0
    modifies c`heap, c.regions
    ensures c.Now() == Calls(old(c.Now()), c.idle, modes)
    ensures errs == Errors(old(c.Now()), c.idle, modes)
  {
    hide Call, Accepted, Calls, Errors;
    ghost var m := c.Now();
    errs := [];
    NoCalls(m, c.idle);
    for k := 0 to |modes|
      invariant c.Now() == Calls(m, c.idle, modes[..k]) && errs == Errors(m, c.idle, modes[..k])
    {
      CallsNext(m, c.idle, modes, k);
      var err := c.MemRelease(modes[k]);
      errs := errs + [err];
    }
    assert modes[..|modes|] == modes;
  }

  lemma NoCalls(m: Memory, idle: bool)
    requires m.regions != []
    ensures Calls(m, idle, []) == m && Errors(m, idle, []) == []
  {
  }

  /** The two ways of releasing both modes, on two controllers in the same state. */
  method ReleaseBoth(c: Controller, d: Controller)
    requires c != d && c.regions != d.regions && c.Now() == d.Now() && c.idle == d.idle
    requires c.regions.Length > 0 && Ordered(c.regions[..])
    modifies c`heap, c.regions, d`heap, d.regions
    ensures SameAddresses(c.heap, d.heap) <==> !c.idle || FirstDecides(old(c.regions[..]))
  {
    hide Call, SameAddresses, FirstDecides;
    ghost var m := c.Now();
    var _ := c.MemRelease(BLE);
    var _ := c.MemRelease(CLASSIC);
    var _ := d.MemRelease(BTDM);
    BleThenClassic(m, c.idle);
  }

  ghost predicate NoOverlap(regions: seq<Region>) {
    forall i, j, a | 0 <= i < j < |regions| ::
      Has(regions[i].start, regions[i].end, a) + Has(regions[j].start, regions[j].end, a) <= 1
  }

  lemma NothingHanded(regions: seq<Region>)
    ensures Conserved(regions, regions, [])
  {
  }

  lemma {:induction false} CoverConcat(r: seq<Range>, s: seq<Range>, a: int)
    ensures Cover(r + s, a) == Cover(r, a) + Cover(s, a)
    decreases |s|
  {
    if s == [] {
      assert r + s == r;
    } else {
      var n := |s| - 1;
      CoverConcat(r, s[..n], a);
      assert (r + s)[..|r + s| - 1] == r + s[..n];
    }
  }

  lemma ConservedTwice(was: seq<Region>, mid: seq<Region>, now: seq<Region>, r: seq<Range>, s: seq<Range>)
    requires Conserved(was, mid, r) && Conserved(mid, now, s)
    ensures Conserved(was, now, r + s)
  {
    hide Cover, CoverUsed;
    forall a ensures Cover(r + s, a) + CoverUsed(now, a) == CoverUsed(was, a) {
      CoverConcat(r, s, a);
      assert Cover(r, a) + CoverUsed(mid, a) == CoverUsed(was, a);
    }
  }

  lemma {:induction false} CoverPair(ranges: seq<Range>, i: nat, j: nat, a: int)
    requires i < j < |ranges|
    ensures Has(ranges[i].start, ranges[i].end, a) + Has(ranges[j].start, ranges[j].end, a) <= Cover(ranges, a)
    decreases |ranges|
  {
    var n := |ranges| - 1;
    if j < n {
      CoverPair(ranges[..n], i, j, a);
    } else {
      CoverAtLeast(ranges[..n], i, a);
    }
  }

  lemma {:induction false} CoverAtLeast(ranges: seq<Range>, i: nat, a: int)
    requires i < |ranges|
    ensures Has(ranges[i].start, ranges[i].end, a) <= Cover(ranges, a)
    decreases |ranges|
  {
    var n := |ranges| - 1;
    if i < n {
      CoverAtLeast(ranges[..n], i, a);
    }
  }

  lemma {:induction false} NoOverlapOnce(regions: seq<Region>, a: int)
    requires NoOverlap(regions)
    ensures CoverUsed(regions, a) <= 1
    ensures CoverUsed(regions, a) == 1 ==>
      exists i | 0 <= i < |regions| :: Has(regions[i].start, regions[i].end, a) == 1
    decreases |regions|
  {
    if regions != [] {
      var n := |regions| - 1;
      var front := regions[..n];
      assert forall i | 0 <= i < n :: front[i] == regions[i];
      NoOverlapOnce(front, a);
      if CoverUsed(front, a) == 1 {
        var i :| 0 <= i < n && Has(front[i].start, front[i].end, a) == 1;
        assert Has(regions[i].start, regions[i].end, a) + Has(regions[n].start, regions[n].end, a) <= 1;
      }
    }
  }
}
