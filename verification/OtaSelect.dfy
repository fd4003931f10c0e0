/**
 Which application boots: the two-sector OTA data of esp_ota_ops.c and its helpers in
 bootloader_common.c.
 */
module OtaSelect {
  import opened Bytes

  const ERASED := 0xFFFF_FFFF
  const WORDS := 0x1_0000_0000

  type Word = x: int | 0 <= x < 0x1_0000_0000

  /** esp_ota_select_entry_t, in the order of its fields in flash. */
  datatype Entry = Entry(otaSeq: Word, seqLabel: seq<Word>, otaState: Word, crc: Word)

  /** The two sectors of the OTA data partition. */
  datatype Sectors = Sectors(e0: Entry, e1: Entry) {
    function At(id: nat): Entry {
      if id == 0 then e0 else e1
    }

    function With(id: nat, e: Entry): Sectors {
      if id == 0 then Sectors(e, e1) else Sectors(e0, e)
    }
  }

  const BLANK := Entry(ERASED, [ERASED, ERASED, ERASED, ERASED, ERASED], ERASED, ERASED)

  const IMG_NEW: Word := 0
  const IMG_VALID: Word := 2
  const IMG_INVALID: Word := 3
  const IMG_ABORTED: Word := 4
  const IMG_UNDEFINED: Word := 0xFFFF_FFFF

  // Application partition subtypes.
  const FACTORY := 0x00
  const OTA_MIN := 0x10
  const OTA_MAX := 0x20
  const TEST := 0x20

  /** The subtypes of the application partitions that exist. */
  type Table = set<nat>

  // ---------------------------------------------------------------- crc32 of a sequence number

  /** One bit of the reflected CRC-32; the register is zero afterwards only if it was before. */
  function ShiftBit(r: bv32): (s: bv32)
    ensures s == 0 <==> r == 0
  {
    if r & 1 == 1 then (r >> 1) ^ 0xEDB88320 else r >> 1
  }

  function Shift(r: bv32, k: nat): (s: bv32)
    ensures s == 0 <==> r == 0
    decreases k
  {
    if k == 0 then r else Shift(ShiftBit(r), k - 1)
  }

  /** crc32_le over the four little-endian bytes of a word, started from UINT32_MAX. */
  function SeqCrc(w: Word): Word {
    (0xFFFF_FFFF - Shift(w as bv32, 32)) as int
  }

  /** Only the sequence number 0 has the crc that an erased field shows. */
  lemma CrcIsNotErased(w: Word)
    requires SeqCrc(w) == ERASED
    ensures w == 0
  {
    var r := Shift(w as bv32, 32);
    assert 0xFFFF_FFFF - r == 0xFFFF_FFFF;
  }

  // ---------------------------------------------------------------- selecting an entry

  predicate SelectInvalid(e: Entry) {
    e.otaSeq == ERASED || e.otaState == IMG_INVALID || e.otaState == IMG_ABORTED
  }

  predicate SelectValid(e: Entry) {
    !SelectInvalid(e) && e.crc == SeqCrc(e.otaSeq)
  }

  function SelectOtadata(s: Sectors, valid0: bool, valid1: bool): Option<nat> {
    if valid0 && valid1 then
      var condition := Max(s.e0.otaSeq, s.e1.otaSeq);
      Some(if condition == s.e0.otaSeq then 0 else 1)
    else if valid0 then Some(0)
    else if valid1 then Some(1)
    else None
  }

  /** The valid entry with the larger sequence number; the first one when they are equal. */
  function Active(s: Sectors): (a: Option<nat>)
    ensures a.Some? ==> a.value < 2 && SelectValid(s.At(a.value))
    ensures a.Some? ==> SelectValid(s.At(1 - a.value)) ==> s.At(1 - a.value).otaSeq <= s.At(a.value).otaSeq
    ensures a.None? <==> !SelectValid(s.e0) && !SelectValid(s.e1)
  {
    SelectOtadata(s, SelectValid(s.e0), SelectValid(s.e1))
  }

  /** In terms of the fields: a number other than 0xFFFFFFFF, the right crc, and a state that is neither 3, invalid,
      nor 4, aborted. */
  ghost predicate Bootable(e: Entry) {
    e.otaSeq != 0xFFFF_FFFF && e.crc == SeqCrc(e.otaSeq) && e.otaState != 3 && e.otaState != 4
  }

  ghost predicate Foremost(s: Sectors, a: nat) {
    a < 2 && Bootable(s.At(a)) && forall b: nat | b < 2 && Bootable(s.At(b)) :: s.At(b).otaSeq <= s.At(a).otaSeq
  }

  /** The selected entry is a bootable one with the largest number, and there is one if any is bootable. */
  lemma ActiveIs(s: Sectors)
    ensures Active(s).None? <==> forall a: nat | a < 2 :: !Bootable(s.At(a))
    ensures Active(s).Some? ==> Foremost(s, Active(s).value)
  {
    hide SeqCrc;
    assert s.At(0) == s.e0 && s.At(1) == s.e1;
  }

  /** What boots: the slot of any bootable entry with the largest number, and otherwise the default partition. */
  lemma BootIs(table: Table, s: Sectors)
    ensures var n := SlotsFrom(table, 0);
      && (forall a: nat | Foremost(s, a) && n > 0 ::
            BootPartition(table, s) == Some(OTA_MIN + SlotOf(s.At(a).otaSeq, n)))
      && ((forall a: nat | a < 2 :: !Bootable(s.At(a))) || n == 0 ==> BootPartition(table, s) == DefaultBoot(table))
  {
    hide SeqCrc, SlotsFrom, SlotOf, DefaultBoot;
    ActiveIs(s);
  }

  lemma ShiftFour(r: bv32, s: bv32, k: nat)
    requires k >= 4 && s == ShiftBit(ShiftBit(ShiftBit(ShiftBit(r))))
    ensures Shift(r, k) == Shift(s, k - 4)
  {
    hide ShiftBit;
    var r1 := ShiftBit(r);
    var r2 := ShiftBit(r1);
    assert Shift(r, k) == Shift(r1, k - 1) == Shift(r2, k - 2) == Shift(ShiftBit(r2), k - 3);
  }

  /** The crc of the first sequence number is the one that tools which write OTA data compute. */
  lemma KnownCrc()
    ensures SeqCrc(1) == 0x4743_989A
  {
    hide Shift;
    ShiftFour(0x1, 0x1DB71064, 32);
    ShiftFour(0x1DB71064, 0x77073096, 28);
    ShiftFour(0x77073096, 0x4AC21251, 24);
    ShiftFour(0x4AC21251, 0x191B3141, 20);
    ShiftFour(0x191B3141, 0x1C26A370, 16);
    ShiftFour(0x1C26A370, 0x1C26A37, 12);
    ShiftFour(0x1C26A37, 0x5019579F, 8);
    ShiftFour(0x5019579F, 0xB8BC6765, 4);
    assert Shift(0xB8BC6765, 0) == 0xB8BC6765 by {
      ShiftNone(0xB8BC6765);
    }
  }

  lemma ShiftNone(r: bv32)
    ensures Shift(r, 0) == r
  {
  }

  /** The slot that a sequence number names; the subtraction is on 32 bits. */
  function SlotOf(seqNo: Word, n: nat): nat
    requires n > 0
  {
    (if seqNo == 0 then ERASED else seqNo - 1) % n
  }

  predicate HasSlot(table: Table, i: nat) {
    OTA_MIN + i in table
  }

  /** The number of slots that exist from ota_0 on without a gap. */
  ghost function SlotsFrom(table: Table, i: nat): (n: nat)
    requires i <= 16
    ensures i <= n <= 16
    ensures forall k | i <= k < n :: HasSlot(table, k)
    ensures n < 16 ==> !HasSlot(table, n)
    decreases 16 - i
  {
    if i < 16 && HasSlot(table, i) then SlotsFrom(table, i + 1) else i
  }

  /** The source asserts that a gap exists among the first 17 subtypes. */
  ghost predicate WellFormed(table: Table) {
    SlotsFrom(table, 0) == 16 ==> !HasSlot(table, 16)
  }

  method GetOtaPartitionCount(table: Table) returns (n: nat)
    requires WellFormed(table)
    ensures n == SlotsFrom(table, 0)
  {
    n := 0;
    while HasSlot(table, n)
      invariant n <= 16
      invariant SlotsFrom(table, n) == SlotsFrom(table, 0)
      decreases 16 - n
    {
      n := n + 1;
    }
  }

  ghost function FirstFrom(table: Table, i: nat): (p: Option<nat>)
    requires OTA_MIN <= i <= OTA_MAX
    ensures p.None? <==> (forall k | i <= k < OTA_MAX :: k !in table) && TEST !in table
    ensures p.Some? ==> p.value in table && i <= p.value <= TEST && forall k | i <= k < p.value :: k !in table
    decreases OTA_MAX - i
  {
    if i == OTA_MAX then (if TEST in table then Some(TEST) else None)
    else if i in table then Some(i)
    else FirstFrom(table, i + 1)
  }

  /** What an empty OTA data partition boots: factory, else the first OTA slot, else test. */
  ghost function DefaultBoot(table: Table): Option<nat> {
    if FACTORY in table then Some(FACTORY) else FirstFrom(table, OTA_MIN)
  }

  method FindDefaultBootPartition(table: Table) returns (p: Option<nat>)
    ensures p == DefaultBoot(table)
  {
    if FACTORY in table {
      return Some(FACTORY);
    }
    for s := OTA_MIN to OTA_MAX
      invariant FirstFrom(table, OTA_MIN) == FirstFrom(table, s)
    {
      if s in table {
        return Some(s);
      }
    }
    if TEST in table {
      return Some(TEST);
    }
    return None;
  }

  /** The slot that the OTA data select; `None` stands for the default partition. */
  function Boots(s: Sectors, n: nat): Option<nat> {
    if n == 0 || Active(s).None? then None else Some(SlotOf(s.At(Active(s).value).otaSeq, n))
  }

  ghost function BootPartition(table: Table, s: Sectors): Option<nat> {
    var slot := Boots(s, SlotsFrom(table, 0));
    if slot.Some? then Some(OTA_MIN + slot.value) else DefaultBoot(table)
  }

  // ---------------------------------------------------------------- the next sequence number

  /** The sequence number that a switch to slot `x` of `n` writes over an active one. */
  function NextSeq(seqNo: nat, x: nat, n: nat): nat
    requires n > 0
  {
    seqNo + ((x + 1) % n - seqNo) % n
  }

  lemma ModUnique(a: int, b: int, n: nat, k: int)
    requires 0 <= b < n && a == b + k * n
    ensures a % n == b
  {
    assert (k - a / n) * n == a % n - b;
    Between(k - a / n, n);
    Between(a / n - k, n);
  }

  lemma ModShift(a: int, n: nat, k: int)
    requires n > 0
    ensures (a + k * n) % n == a % n
  {
    assert a + k * n == a % n + (a / n + k) * n;
    ModUnique(a + k * n, a % n, n, a / n + k);
  }

  /** It is the least number from `seqNo` on that is congruent to x + 1. */
  lemma NextSeqIsLeast(seqNo: nat, x: nat, n: nat)
    requires n > 0
    ensures var v := NextSeq(seqNo, x, n);
      && seqNo <= v < seqNo + n
      && v % n == (x + 1) % n
      && forall u | seqNo <= u < v :: u % n != (x + 1) % n
  {
    var r := (x + 1) % n;
    var v := NextSeq(seqNo, x, n);
    var q := (r - seqNo) / n;
    assert v == r + (-q) * n;
    assert 0 <= r < n;
    ModUnique(v, r, n, -q);
    forall u | seqNo <= u < v
      ensures u % n != r
    {
      if u % n == r {
        assert v - u == (-q - u / n) * n;
        assert 0 < v - u < n;
        Between(-q - u / n, n);
      }
    }
  }

  lemma Between(k: int, n: int)
    requires n > 0
    ensures !(0 < k * n < n)
  {
    if k >= 1 {
      assert k * n >= n;
    } else {
      assert k * n <= 0;
    }
  }

  /** A sequence number names slot x exactly when it is congruent to x + 1. */
  lemma NamesSlot(v: int, x: nat, n: nat)
    requires x < n
    ensures (v - 1) % n == x <==> v % n == (x + 1) % n
  {
    if (v - 1) % n == x {
      assert v == x + 1 + (v - 1) / n * n;
      ModShift(x + 1, n, (v - 1) / n);
    }
    if v % n == (x + 1) % n {
      assert v - 1 == x + (v / n - (x + 1) / n) * n by {
        assert (v / n - (x + 1) / n) * n == v / n * n - (x + 1) / n * n;
      }
      ModUnique(v - 1, x, n, v / n - (x + 1) / n);
    }
  }

  /** The candidate that the search tries in its turn `i`, on 32 bits. */
  function Candidate(x: nat, n: nat, i: nat): Word
    requires n > 0
  {
    ((x + 1) % n + i * n) % WORDS
  }

  // ---------------------------------------------------------------- when the search ends

  ghost predicate SearchEnds(seqNo: Word, x: nat, n: nat)
    requires n > 0
  {
    exists i: nat :: seqNo <= Candidate(x, n, i)
  }

  /** The power of two in a number of slots. */
  function TwoPart(n: nat): (g: nat)
    requires 0 < n <= 16
    ensures g > 0 && n % g == 0 && WORDS % g == 0 && n / g <= 15 && n / g % 2 == 1
  {
    if n % 16 == 0 then 16 else if n % 8 == 0 then 8 else if n % 4 == 0 then 4 else if n % 2 == 0 then 2 else 1
  }

  lemma Regroup(i: int, a: int, g: int)
    ensures (i * a) * g == i * (a * g)
  {
  }

  lemma AddMultiple(r: nat, i: nat, n: nat, g: nat)
    requires g > 0 && n % g == 0
    ensures (r + i * n) % g == r % g
  {
    var a := n / g;
    Regroup(i, a, g);
    assert r + i * n == r + (i * a) * g;
    ModShift(r, g, i * a);
  }

  lemma ModMod(t: nat, w: nat, g: nat)
    requires w > 0 && g > 0 && w % g == 0
    ensures t % w % g == t % g
  {
    var b := w / g;
    Regroup(-(t / w), b, g);
    assert t % w == t + (-(t / w) * b) * g;
    ModShift(t, g, -(t / w) * b);
  }

  /** Whatever divides both the number of slots and 2^32 survives the wrap-around. */
  lemma CandidateCongruent(x: nat, n: nat, g: nat, i: nat)
    requires n > 0 && g > 0 && n % g == 0 && WORDS % g == 0
    ensures Candidate(x, n, i) % g == (x + 1) % g
  {
    var r := (x + 1) % n;
    AddMultiple(r, i, n, g);
    ModMod(x + 1, n, g);
    ModMod(r + i * n, WORDS, g);
  }

  /** Modulo 2^32 an odd number has an inverse. */
  lemma InverseOf(m: nat) returns (inv: nat, k: nat)
    requires m % 2 == 1 && m <= 15
    ensures inv * m == 1 + k * WORDS
  {
    match m {
      case 1 => inv, k := 1, 0;
      case 3 => inv, k := 0xAAAA_AAAB, 2;
      case 5 => inv, k := 0xCCCC_CCCD, 4;
      case 7 => inv, k := 0xB6DB_6DB7, 5;
      case 9 => inv, k := 0x38E3_8E39, 2;
      case 11 => inv, k := 0xBA2E_8BA3, 8;
      case 13 => inv, k := 0xC4EC_4EC5, 10;
      case _ => inv, k := 0xEEEE_EEEF, 14;
    }
  }

  lemma Expand(e: int, inv: int, m: int, g: int, k: int, w: int)
    requires inv * m == 1 + k * w
    ensures ((e + w) * inv) * (m * g) == e * g + (g + k * (e + w) * g) * w
  {
    var f := (e + w) * g;
    assert ((e + w) * inv) * (m * g) == (inv * m) * f;
    assert (1 + k * w) * f == f + (k * f) * w;
    assert k * (e + w) * g == k * f;
    assert (g + k * f) * w == g * w + (k * f) * w;
  }

  lemma ReachedBy(v: int, r: int, g: int, m: int, e: int, inv: int, k: int, w: nat)
    requires inv * m == 1 + k * w && v - r == e * g && 0 <= v < w
    ensures (r + ((e + w) * inv) * (m * g)) % w == v
  {
    Expand(e, inv, m, g, k, w);
    ModUnique(r + ((e + w) * inv) * (m * g), v, w, g + k * (e + w) * g);
  }

  lemma SameResidue(v: int, r: int, g: nat)
    requires g > 0 && v % g == r % g
    ensures v - r == (v / g - r / g) * g
  {
  }

  lemma CandidateAt(x: nat, n: nat, i: nat)
    requires n > 0
    ensures Candidate(x, n, i) == ((x + 1) % n + i * n) % WORDS
    ensures n <= 16 ==> Candidate(x, n, 0) == (x + 1) % n
  {
  }

  /** The search reaches every number that is congruent to x + 1 modulo the power of two. */
  lemma Reached(v: Word, x: nat, n: nat) returns (i: nat)
    requires 0 < n <= 16 && v % TwoPart(n) == (x + 1) % TwoPart(n)
    ensures Candidate(x, n, i) == v
  {
    hide TwoPart, Candidate;
    var g, r := TwoPart(n), (x + 1) % n;
    CandidateCongruent(x, n, g, 0);
    CandidateAt(x, n, 0);
    i := ReachedTurn(v, r, n, g);
    CandidateAt(x, n, i);
  }

  lemma ReachedTurn(v: Word, r: Word, n: nat, g: nat) returns (i: nat)
    requires g > 0 && v % g == r % g && n % g == 0 && n / g <= 15 && n / g % 2 == 1
    ensures (r + i * n) % WORDS == v
  {
    SameResidue(v, r, g);
    QuotientAtMost(v, r, g);
    var e := v / g - r / g;
    var inv, k := InverseOf(n / g);
    ReachedBy(v, r, g, n / g, e, inv, k, WORDS);
    i := Times(e + WORDS, inv);
    assert n / g * g == n;
  }

  lemma QuotientAtMost(v: nat, r: nat, g: nat)
    requires g > 0
    ensures v / g >= 0 && r / g <= r
  {
    AtLeast(r / g, g);
  }

  lemma AtLeast(q: int, g: nat)
    requires q >= 0 && g > 0
    ensures q <= q * g
  {
  }

  lemma Times(a: nat, b: nat) returns (i: nat)
    ensures i == a * b
  {
    i := a * b;
  }

  /** The search ends exactly when there is a 32-bit number from the active one on that is congruent to x + 1
      modulo the power of two in the number of slots; with an odd number of slots it always does. */
  lemma SwitchEnds(seqNo: Word, x: nat, n: nat)
    requires 0 < n <= 16
    ensures SearchEnds(seqNo, x, n) <==> NextSeq(seqNo, x, TwoPart(n)) <= ERASED
    ensures n % 2 == 1 ==> SearchEnds(seqNo, x, n)
  {
    hide NextSeq, Candidate, TwoPart;
    var g := TwoPart(n);
    NextSeqIsLeast(seqNo, x, g);
    if i: nat :| seqNo <= Candidate(x, n, i) {
      CandidateCongruent(x, n, g, i);
    }
    if NextSeq(seqNo, x, g) <= ERASED {
      var i := Reached(NextSeq(seqNo, x, g), x, n);
    }
    OddPart(n);
  }

  lemma OddPart(n: nat)
    requires 0 < n <= 16
    ensures n % 2 == 1 ==> TwoPart(n) == 1
  {
  }

  /** A case in which it does not: 4 slots, active number 0xFFFFFFFD, target slot 3. */
  lemma SearchRunsOn(i: nat)
    ensures Candidate(3, 4, i) < 0xFFFF_FFFD
  {
    SwitchEnds(0xFFFF_FFFD, 3, 4);
    assert NextSeq(0xFFFF_FFFD, 3, 4) == WORDS;
  }

  // ---------------------------------------------------------------- what the search finds

  ghost predicate FoundAt(seqNo: Word, x: nat, n: nat, i: nat)
    requires n > 0
  {
    seqNo <= Candidate(x, n, i) && forall j: nat | j < i :: Candidate(x, n, j) < seqNo
  }

  ghost function SearchFrom(seqNo: Word, x: nat, n: nat, k: nat, end: nat): (i: nat)
    requires n > 0 && k <= end && seqNo <= Candidate(x, n, end)
    requires forall j: nat | j < k :: Candidate(x, n, j) < seqNo
    ensures FoundAt(seqNo, x, n, i)
    decreases end - k
  {
    if seqNo <= Candidate(x, n, k) then k else SearchFrom(seqNo, x, n, k + 1, end)
  }

  /** The turn in which the search ends, and the number that it finds. */
  ghost function SearchIndex(seqNo: Word, x: nat, n: nat): (i: nat)
    requires n > 0 && SearchEnds(seqNo, x, n)
    ensures FoundAt(seqNo, x, n, i)
  {
    var end: nat :| seqNo <= Candidate(x, n, end);
    SearchFrom(seqNo, x, n, 0, end)
  }

  ghost function Found(seqNo: Word, x: nat, n: nat): Word
    requires n > 0 && SearchEnds(seqNo, x, n)
  {
    Candidate(x, n, SearchIndex(seqNo, x, n))
  }

  lemma OnWay(v: nat, r: nat, n: nat, i: nat)
    requires 0 < n && v % n == r && i <= v / n
    ensures r + i * n <= v && r + v / n * n == v && (r + i * n) % n == r
  {
    var k := v / n;
    assert (k - i) * n >= 0;
    assert (k - i) * n == k * n - i * n;
    ModUnique(r + i * n, r, n, i);
  }

  lemma CandidateOnWay(seqNo: Word, x: nat, n: nat, i: nat)
    requires n > 0 && NextSeq(seqNo, x, n) <= ERASED && i <= NextTurn(seqNo, x, n)
    ensures Candidate(x, n, i) == (x + 1) % n + i * n <= NextSeq(seqNo, x, n)
    ensures Candidate(x, n, NextTurn(seqNo, x, n)) == NextSeq(seqNo, x, n)
    ensures Candidate(x, n, i) % n == (x + 1) % n
  {
    hide NextSeq, Candidate;
    NextSeqIsLeast(seqNo, x, n);
    var v, r := NextSeq(seqNo, x, n), (x + 1) % n;
    OnWay(v, r, n, i);
    OnWay(v, r, n, v / n);
    CandidateSmall(x, n, i, r + i * n);
    CandidateSmall(x, n, v / n, v);
  }

  lemma CandidateSmall(x: nat, n: nat, i: nat, v: nat)
    requires n > 0 && v == (x + 1) % n + i * n && v <= ERASED
    ensures Candidate(x, n, i) == v
  {
    CandidateAt(x, n, i);
    hide Candidate;
    assert v % WORDS == v;
  }

  /** It is the next number that names slot x when that one fits in 32 bits; otherwise it names another slot. */
  lemma SearchFinds(seqNo: Word, x: nat, n: nat)
    requires x < n <= 16 && SearchEnds(seqNo, x, n)
    ensures var v := Found(seqNo, x, n);
      && seqNo <= v
      && (NextSeq(seqNo, x, n) <= ERASED ==> v == NextSeq(seqNo, x, n))
      && (NextSeq(seqNo, x, n) > ERASED ==> v % n != (x + 1) % n)
  {
    hide NextSeq, Candidate, NextTurn;
    var i, w := SearchIndex(seqNo, x, n), NextSeq(seqNo, x, n);
    NextSeqIsLeast(seqNo, x, n);
    if w <= ERASED {
      CandidateOnWay(seqNo, x, n, NextTurn(seqNo, x, n));
      CandidateOnWay(seqNo, x, n, i);
    }
  }

  /** The turn of the next number, were it not for the wrap-around. */
  function NextTurn(seqNo: nat, x: nat, n: nat): nat
    requires n > 0
  {
    NextSeq(seqNo, x, n) / n
  }

  /** How often the search wraps around. */
  ghost function Wraps(seqNo: Word, x: nat, n: nat): nat
    requires n > 0 && SearchEnds(seqNo, x, n)
  {
    ((x + 1) % n + SearchIndex(seqNo, x, n) * n) / WORDS
  }

  /** The slot that the number names: x less 2^32 for each time the search has wrapped around. */
  lemma FoundSlot(seqNo: Word, x: nat, n: nat)
    requires x < n && SearchEnds(seqNo, x, n) && Found(seqNo, x, n) > 0
    ensures SlotOf(Found(seqNo, x, n), n) == (x - Wraps(seqNo, x, n) * WORDS) % n
  {
    hide Candidate, SlotOf, SearchEnds;
    WrappedSlot(x, n, SearchIndex(seqNo, x, n));
  }

  lemma WrappedSlot(x: nat, n: nat, i: nat)
    requires x < n && Candidate(x, n, i) > 0
    ensures SlotOf(Candidate(x, n, i), n) == (x - ((x + 1) % n + i * n) / WORDS * WORDS) % n
  {
    var p, q := (x + 1) / n, ((x + 1) % n + i * n) / WORDS;
    assert (i - p) * n == i * n - p * n;
    assert Candidate(x, n, i) - 1 == (x - q * WORDS) + (i - p) * n;
    ModShift(x - q * WORDS, n, i - p);
  }

  // ---------------------------------------------------------------- crash images

  /** What an erased sector may hold when power fails while `e` is being written to it from its first
      field on.  Until the crc is reached it still reads as erased, and the bits of a nonzero word that
      are to stay set are never cleared; afterwards only the crc may be half written. */
  ghost predicate Torn(e: Entry, f: Entry) {
    || (f.crc == ERASED && (e.otaSeq != 0 ==> f.otaSeq != 0))
    || f == e.(crc := f.crc)
  }

  /** What the partition may hold when power fails during the rewriting of sector `id`. */
  ghost predicate CrashImage(was: Sectors, id: nat, e: Entry, now: Sectors) {
    now == was || now == was.With(id, BLANK) || (now == was.With(id, now.At(id)) && Torn(e, now.At(id)))
  }

  // ---------------------------------------------------------------- switching slots

  /** The switch to slot x comes to an end. */
  ghost predicate SwitchPossible(s: Sectors, x: nat, n: nat)
    requires n > 0
  {
    Active(s).Some? ==> SearchEnds(s.At(Active(s).value).otaSeq, x, n)
  }

  /** The sequence number and the sector of a switch to slot x. */
  ghost function SwitchSeq(s: Sectors, x: nat, n: nat): Word
    requires x < n <= 16 && SwitchPossible(s, x, n)
  {
    if Active(s).Some? then Found(s.At(Active(s).value).otaSeq, x, n) else x + 1
  }

  /** The next number that names slot x fits in 32 bits and is not the one that reads as erased; and if it is 0,
      its predecessor on 32 bits names slot x. */
  ghost predicate Leads(s: Sectors, x: nat, n: nat)
    requires n > 0
  {
    Active(s).Some? ==>
      var v := NextSeq(s.At(Active(s).value).otaSeq, x, n);
      v < ERASED && (v == 0 ==> ERASED % n == x)
  }

  function SwitchSector(s: Sectors): (id: nat)
    ensures id < 2
  {
    if Active(s).Some? then 1 - Active(s).value else 0
  }

  /** The entry that the library writes over `e`. */
  function NewEntry(e: Entry, seqNo: Word, state: Word): Entry {
    e.(otaSeq := seqNo, otaState := state, crc := SeqCrc(seqNo))
  }

  /** Entries that are not valid do not matter. */
  lemma ReplaceInvalid(s: Sectors, id: nat, f: Entry, n: nat)
    requires id < 2 && !SelectValid(f)
    requires Active(s) != Some(id)
    ensures Boots(s.With(id, f), n) == Boots(s, n)
  {
    hide SeqCrc;
  }

  lemma BlankBootsDefault(n: nat)
    ensures Boots(Sectors(BLANK, BLANK), n) == None
  {
    hide SeqCrc;
  }

  /** The sectors after a switch. */
  ghost function Switched(s: Sectors, x: nat, n: nat, state: Word): Sectors
    requires x < n <= 16 && SwitchPossible(s, x, n)
  {
    var id := SwitchSector(s);
    s.With(id, NewEntry(s.At(id), SwitchSeq(s, x, n), state))
  }

  /** An entry with a number that is not smaller than the active one is selected. */
  lemma NewEntryBoots(s: Sectors, e: Entry, n: nat)
    requires 0 < n && SelectValid(e)
    requires Active(s).Some? ==> s.At(Active(s).value).otaSeq <= e.otaSeq
    ensures Boots(s.With(SwitchSector(s), e), n) == Some(SlotOf(e.otaSeq, n))
  {
    hide SeqCrc;
  }

  /** The slot that boots after a switch is the one that the number found names; a number that reads as erased
      changes nothing.  It is slot x exactly under the condition above. */
  lemma SwitchBoots(s: Sectors, x: nat, n: nat, state: Word)
    requires x < n <= 16 && SwitchPossible(s, x, n)
    requires state != IMG_INVALID && state != IMG_ABORTED
    ensures var v := SwitchSeq(s, x, n); var t := Switched(s, x, n, state);
      && Boots(t, n) == (if v == ERASED then Boots(s, n) else Some(SlotOf(v, n)))
      && (Boots(t, n) == Some(x) <==> Leads(s, x, n))
      && Boots(t, n).Some?
  {
    hide SeqCrc, NextSeq, Found, Boots, SearchEnds;
    var v := SwitchSeq(s, x, n);
    var id := SwitchSector(s);
    var e := NewEntry(s.At(id), v, state);
    NamesSlot(v, x, n);
    if Active(s).Some? {
      var w := s.At(1 - id).otaSeq;
      SearchFinds(w, x, n);
      NextSeqIsLeast(w, x, n);
      ActiveBoots(s, n);
      if v == ERASED {
        ReplaceInvalid(s, id, e, n);
        NamesSlot(w, x, n);
      }
    }
    if v != ERASED {
      NewEntryBoots(s, e, n);
    }
  }

  lemma BootsBelow(s: Sectors, n: nat)
    ensures Boots(s, n).Some? ==> Boots(s, n).value < n
  {
    hide SeqCrc;
  }

  lemma ActiveBoots(s: Sectors, n: nat)
    requires n > 0 && Active(s).Some?
    ensures Boots(s, n) == Some(SlotOf(s.At(Active(s).value).otaSeq, n))
    ensures s.At(Active(s).value).otaSeq != ERASED
  {
    hide SeqCrc;
  }

  /** Wherever power fails during a switch, the old selection or the new one boots. */
  lemma SwitchCrashSafe(s: Sectors, x: nat, n: nat, state: Word, now: Sectors)
    requires x < n <= 16 && SwitchPossible(s, x, n)
    requires state != IMG_INVALID && state != IMG_ABORTED
    requires var id := SwitchSector(s); CrashImage(s, id, NewEntry(s.At(id), SwitchSeq(s, x, n), state), now)
    ensures Boots(now, n) == Boots(s, n) || Boots(now, n) == Boots(Switched(s, x, n, state), n)
  {
    hide SeqCrc, NextSeq, Found, Boots, SearchEnds;
    var id := SwitchSector(s);
    var v := SwitchSeq(s, x, n);
    var e := NewEntry(s.At(id), v, state);
    var f := now.At(id);
    if Active(s).Some? {
      SearchFinds(s.At(1 - id).otaSeq, x, n);
    }
    if now != s && f != e {
      if !SelectValid(f) {
        ReplaceInvalid(s, id, f, n);
      } else {
        TornValid(e, f);
        NewEntryBoots(s, e, n);
        NewEntryBoots(s, f, n);
      }
    }
  }

  /** A torn entry that is valid has the number 0, which shows the crc of an erased field. */
  lemma TornValid(e: Entry, f: Entry)
    requires (f == BLANK || Torn(e, f)) && SelectValid(f) && f != e && e.crc == SeqCrc(e.otaSeq)
    ensures f.otaSeq == e.otaSeq == 0 && e.crc == SeqCrc(0)
  {
    hide SeqCrc;
    if f.crc == ERASED {
      CrcIsNotErased(f.otaSeq);
    }
  }

  // ---------------------------------------------------------------- rollback

  /** The sectors after the active entry has been marked invalid. */
  function Marked(s: Sectors, state: Word): Sectors
    requires Active(s).Some?
  {
    var a := Active(s).value;
    s.With(a, NewEntry(s.At(a), s.At(a).otaSeq, state))
  }

  /** The sectors after the running application has been confirmed or rejected. */
  function Decided(s: Sectors, valid: bool): Sectors
    requires Active(s).Some?
  {
    if !valid then Marked(s, IMG_INVALID)
    else if s.At(Active(s).value).otaState == IMG_VALID then s
    else Marked(s, IMG_VALID)
  }

  /** With the active entry marked invalid the other one is selected if it is valid, and no entry
      otherwise. */
  lemma MarkedInvalid(s: Sectors, n: nat)
    requires Active(s).Some?
    ensures var o := s.At(1 - Active(s).value);
      Boots(Marked(s, IMG_INVALID), n) == if SelectValid(o) && n > 0 then Some(SlotOf(o.otaSeq, n)) else None
  {
    hide SeqCrc;
  }

  /** An entry that is marked aborted, or invalid, never boots, whatever else the partition holds: what boots is as if
      its sector were erased. */
  lemma AbortedNeverBoots(s: Sectors, a: nat, n: nat)
    requires a < 2 && s.At(a).otaState in {3, 4}
    ensures Active(s) != Some(a)
    ensures Boots(s, n) == Boots(s.With(a, BLANK), n)
  {
    hide SeqCrc;
  }

  /** Confirming the active entry does not change what boots. */
  lemma MarkedValid(s: Sectors, n: nat)
    requires Active(s).Some?
    ensures Boots(Marked(s, IMG_VALID), n) == Boots(s, n)
  {
    hide SeqCrc;
  }

  /** Marking the active entry invalid leads to a partition whose image verifies, the one that the
      other entry names or factory. */
  ghost predicate RollbackPossible(table: Table, images: set<nat>, s: Sectors) {
    && SlotsFrom(table, 0) > 0
    && Active(s).Some?
    && var p := BootPartition(table, Marked(s, IMG_INVALID));
       p.Some? && p.value in table && p.value in images
       && (SelectValid(s.At(1 - Active(s).value)) || p.value == FACTORY)
  }

  datatype Err = OK | NOT_FOUND | INVALID_ARG | VALIDATE_FAILED | ROLLBACK_FAILED | FAIL

  /** The OTA data partition of a device.  `images` are the partitions whose image verifies. */
  class OtaData {
    const present: bool    // the partition exists
    const rollback: bool   // CONFIG_BOOTLOADER_APP_ROLLBACK_ENABLE
    const table: Table
    var sectors: Sectors

    /** Every content the partition has had. */
    ghost var durable: seq<Sectors>

    constructor (present: bool, rollback: bool, table: Table, sectors: Sectors)
      ensures this.sectors == sectors && durable == [sectors]
      ensures this.present == present && this.rollback == rollback && this.table == table
    {
      this.present, this.rollback, this.table, this.sectors := present, rollback, table, sectors;
      durable := [sectors];
    }

    /** One change of the flash. */
    method Program(s: Sectors)
      modifies this
      ensures sectors == s && durable == old(durable) + [s]
    {
      sectors := s;
      durable := durable + [s];
    }

    /** Erasing a sector, and writing an entry to an erased one field by field. */
    method EraseRange(id: nat)
      modifies this
      ensures sectors == old(sectors).With(id, BLANK)
      ensures durable == old(durable) + [sectors]
    {
      Program(sectors.With(id, BLANK));
    }

    method Write(id: nat, e: Entry)
      requires sectors.At(id) == BLANK
      modifies this
      ensures sectors == old(sectors).With(id, e)
      ensures old(durable) <= durable
      ensures forall now | now in durable[|old(durable)|..] ::
        now == old(sectors).With(id, now.At(id)) && Torn(e, now.At(id))
    {
      Program(sectors.With(id, BLANK.(otaSeq := e.otaSeq)));
      Program(sectors.With(id, BLANK.(otaSeq := e.otaSeq, seqLabel := e.seqLabel)));
      Program(sectors.With(id, e.(crc := ERASED)));
      Program(sectors.With(id, e));
    }

    method RewriteOtaSeq(two: Sectors, otaSeq: Word, id: nat)
      requires id < 2 && two.At(1 - id) == sectors.At(1 - id)
      modifies this
      ensures sectors == old(sectors).With(id, two.At(id).(otaSeq := otaSeq, crc := SeqCrc(otaSeq)))
      ensures old(durable) <= durable
      ensures forall now | now in durable[|old(durable)|..] ::
        CrashImage(old(sectors), id, two.At(id).(otaSeq := otaSeq, crc := SeqCrc(otaSeq)), now)
    {
      hide SeqCrc, Torn;
      var e := two.At(id).(otaSeq := otaSeq, crc := SeqCrc(otaSeq));
      EraseRange(id);
      Write(id, e);
    }

    /** The search for the new sequence number, on 32 bits. */
    static method SwitchStep(seqNo: Word, x: nat, n: nat) returns (v: Word)
      requires n > 0 && SearchEnds(seqNo, x, n)
      ensures v == Found(seqNo, x, n)
    {
      hide Candidate;
      ghost var end := SearchIndex(seqNo, x, n);
      var i := 0;
      while seqNo > Candidate(x, n, i)
        invariant i <= end
        decreases end - i
      {
        i := i + 1;
      }
      return Candidate(x, n, i);
    }

    function NewState(): (state: Word) {
      if rollback then IMG_NEW else IMG_UNDEFINED
    }

    /** esp_rewrite_ota_data: makes slot x, the low four bits of the subtype, the one to boot.  The search must
        come to an end. */
    method RewriteOtaData(subtype: nat) returns (err: Err)
      requires WellFormed(table)
      requires var n := SlotsFrom(table, 0); subtype % 16 < n ==> SwitchPossible(sectors, subtype % 16, n)
      modifies this
      ensures old(durable) <= durable
      ensures var n := SlotsFrom(table, 0);
        err == if !present then NOT_FOUND else if subtype % 16 >= n then INVALID_ARG else OK
      ensures err != OK ==> sectors == old(sectors) && durable == old(durable)
      ensures err == OK ==> var x := subtype % 16; var n := SlotsFrom(table, 0);
        && sectors == Switched(old(sectors), x, n, NewState())
        && (Boots(sectors, n) == Some(x) <==> Leads(old(sectors), x, n))
        && Boots(sectors, n).Some?
        && (var id := SwitchSector(old(sectors)); var was, now := old(sectors).At(id), sectors.At(id);
            && now.otaState == (if rollback then 0 else 0xFFFF_FFFF) && now.seqLabel == was.seqLabel
            && now.crc == SeqCrc(now.otaSeq) && sectors.At(1 - id) == old(sectors).At(1 - id))
        && forall now | now in durable[|old(durable)|..] ::
             Boots(now, n) == Boots(old(sectors), n) || Boots(now, n) == Boots(sectors, n)
    {
      hide SeqCrc, Boots, Torn, CrashImage, SearchEnds, Found, Leads;
      if !present {
        return NOT_FOUND;
      }
      var n := GetOtaPartitionCount(table);
      var x := subtype % 16;
      if x >= n {
        return INVALID_ARG;
      }
      SwitchTo(x, n);
      return OK;
    }

    method SwitchTo(x: nat, n: nat)
      requires x < n <= 16 && SwitchPossible(sectors, x, n)
      modifies this
      ensures old(durable) <= durable && sectors == Switched(old(sectors), x, n, NewState())
      ensures Boots(sectors, n) == Some(x) <==> Leads(old(sectors), x, n)
      ensures Boots(sectors, n).Some?
      ensures forall now | now in durable[|old(durable)|..] ::
        Boots(now, n) == Boots(old(sectors), n) || Boots(now, n) == Boots(sectors, n)
    {
      hide SeqCrc, Boots, Torn, CrashImage, SearchEnds, Found, Leads;
      ghost var was := sectors;
      var two := sectors;
      var active := Active(two);
      var id, seqNo := 0, x + 1;
      if active.Some? {
        id := 1 - active.value;
        seqNo := SwitchStep(two.At(active.value).otaSeq, x, n);
      }
      two := two.With(id, two.At(id).(otaState := NewState()));
      RewriteOtaSeq(two, seqNo, id);
      SwitchBoots(was, x, n, NewState());
      forall now | now in durable[|old(durable)|..]
        ensures Boots(now, n) == Boots(was, n) || Boots(now, n) == Boots(sectors, n)
      {
        SwitchCrashSafe(was, x, n, NewState(), now);
      }
    }

    /** esp_partition_erase_range over the whole partition. */
    method EraseBoth()
      modifies this
      ensures sectors == Sectors(BLANK, BLANK)
    {
      EraseRange(0);
      EraseRange(1);
    }

    /** esp_ota_set_boot_partition; `app` tells an application partition. */
    method SetBootPartition(app: bool, subtype: nat, images: set<nat>) returns (err: Err)
      requires WellFormed(table) && (app ==> subtype in table)
      requires var n := SlotsFrom(table, 0);
        subtype != FACTORY && subtype % 16 < n ==> SwitchPossible(sectors, subtype % 16, n)
      modifies this
      ensures err != OK ==> sectors == old(sectors) && durable == old(durable)
      ensures err == OK <==>
        (app && subtype in images && present && (subtype == FACTORY || subtype % 16 < SlotsFrom(table, 0)))
      ensures err == OK && subtype == FACTORY ==> BootPartition(table, sectors) == Some(FACTORY)
      ensures err == OK && subtype != FACTORY ==>
        sectors == Switched(old(sectors), subtype % 16, SlotsFrom(table, 0), NewState())
      ensures err == OK && subtype != FACTORY ==> var x := subtype % 16;
        BootPartition(table, sectors) == Some(OTA_MIN + x) <==> Leads(old(sectors), x, SlotsFrom(table, 0))
      ensures err == OK ==> (BootPartition(table, sectors) == Some(subtype) <==>
        subtype == FACTORY ||
        (OTA_MIN <= subtype < OTA_MAX && Leads(old(sectors), subtype % 16, SlotsFrom(table, 0))))
    {
      hide SeqCrc, Boots, SwitchPossible, NewEntry, Leads, Switched, SlotsFrom, FirstFrom, WellFormed;
      if subtype !in images {
        return VALIDATE_FAILED;
      }
      if !app {
        return INVALID_ARG;
      }
      if subtype == FACTORY {
        if !present {
          return NOT_FOUND;
        }
        EraseBoth();
        BlankBootsDefault(SlotsFrom(table, 0));
        return OK;
      }
      err := RewriteOtaData(subtype);
      BootsBelow(sectors, SlotsFrom(table, 0));
    }

    /** esp_partition_find_first for an application partition. */
    method FindFirst(subtype: nat) returns (p: Option<nat>)
      ensures p == if subtype in table then Some(subtype) else None
    {
      p := if subtype in table then Some(subtype) else None;
    }

    method GetBootPartition() returns (p: Option<nat>)
      requires WellFormed(table)
      ensures p == if present then BootPartition(table, sectors) else None
      ensures p.Some? ==> p.value in table
      ensures var n := SlotsFrom(table, 0); present ==>
        && (forall a: nat | Foremost(sectors, a) && n > 0 :: p == Some(OTA_MIN + SlotOf(sectors.At(a).otaSeq, n)))
        && ((forall a: nat | a < 2 :: !Bootable(sectors.At(a))) || n == 0 ==> p == DefaultBoot(table))
    {
      hide SeqCrc, Bootable, Foremost;
      BootIs(table, sectors);
      if !present {
        return None;
      }
      var n := GetOtaPartitionCount(table);
      if (SelectInvalid(sectors.e0) && SelectInvalid(sectors.e1)) || n == 0 {
        p := FindDefaultBootPartition(table);
      } else {
        var active := Active(sectors);
        if active.Some? {
          var slot := SlotOf(sectors.At(active.value).otaSeq, n);
          p := FindFirst(OTA_MIN + slot);
          assert HasSlot(table, slot);
        } else {
          p := FindDefaultBootPartition(table);
        }
      }
    }

    method CheckRollbackIsPossible(images: set<nat>) returns (possible: bool)
      requires WellFormed(table)
      ensures possible <==> present && RollbackPossible(table, images, sectors)
      ensures present && SlotsFrom(table, 0) > 0 && Active(sectors).Some? ==>
        var other := sectors.At(1 - Active(sectors).value);
        possible <==>
          if SelectValid(other) then OTA_MIN + SlotOf(other.otaSeq, SlotsFrom(table, 0)) in images
          else FACTORY in table && FACTORY in images
    {
      hide SeqCrc, Marked, Boots;
      if !present {
        return false;
      }
      var n := GetOtaPartitionCount(table);
      var active := Active(sectors);
      if n == 0 || active.None? {
        return false;
      }
      MarkedInvalid(sectors, n);
      var last := sectors.At(1 - active.value);
      if !SelectValid(last) {
        var p := FindFirst(FACTORY);
        if p.Some? && p.value in images {
          return true;
        }
      }
      if SelectValid(last) {
        var slot := SlotOf(last.otaSeq, n);
        var p := FindFirst(OTA_MIN + slot);
        assert HasSlot(table, slot);
        if p.Some? && p.value in images {
          return true;
        }
      }
      return false;
    }

    /** Confirms the running application, or rejects it and goes back to another one. */
    method CurrentOtaIsWorkable(valid: bool, images: set<nat>) returns (err: Err)
      requires WellFormed(table)
      modifies this
      ensures err == if !present then NOT_FOUND
                     else if Active(old(sectors)).None? || SlotsFrom(table, 0) == 0 then FAIL
                     else if valid || RollbackPossible(table, images, old(sectors)) then OK
                     else ROLLBACK_FAILED
      ensures err != OK ==> sectors == old(sectors)
      ensures err == OK ==> Active(old(sectors)).Some? && sectors == Decided(old(sectors), valid)
      ensures err == OK ==> var a := Active(old(sectors)).value; var was, now := old(sectors).At(a), sectors.At(a);
        && now.otaState == (if valid then 2 else 3) && now.otaSeq == was.otaSeq && now.seqLabel == was.seqLabel
        && now.crc == SeqCrc(now.otaSeq) && sectors.At(1 - a) == old(sectors).At(1 - a)
      ensures err == OK && valid ==> BootPartition(table, sectors) == BootPartition(table, old(sectors))
      ensures err == OK && !valid ==>
        var p := BootPartition(table, sectors); p.Some? && p.value in table && p.value in images
    {
      hide SeqCrc, Boots;
      if !present {
        return NOT_FOUND;
      }
      var two := sectors;
      var active := Active(two);
      var n := GetOtaPartitionCount(table);
      if active.Some? && n != 0 {
        var a := active.value;
        if valid && two.At(a).otaState != IMG_VALID {
          MarkedValid(two, n);
          two := two.With(a, two.At(a).(otaState := IMG_VALID));
          RewriteOtaSeq(two, two.At(a).otaSeq, a);
        } else if !valid {
          var possible := CheckRollbackIsPossible(images);
          if !possible {
            return ROLLBACK_FAILED;
          }
          two := two.With(a, two.At(a).(otaState := IMG_INVALID));
          RewriteOtaSeq(two, two.At(a).otaSeq, a);
        }
      } else {
        return FAIL;
      }
      return OK;
    }
  }

  // ---------------------------------------------------------------- switches that go wrong

  lemma SlotCount(table: Table, i: nat, n: nat)
    requires i <= n < 16 && (forall k | i <= k < n :: HasSlot(table, k)) && !HasSlot(table, n)
    ensures SlotsFrom(table, i) == n
    decreases n - i
  {
    if i < n {
      SlotCount(table, i + 1, n);
    }
  }

  /** A test partition: where ota_0 is present, asking for it boots ota_0. */
  method BootTest() returns (err: Err, p: Option<nat>)
    ensures err == OK && p == Some(OTA_MIN)
  {
    hide SeqCrc;
    var table := {OTA_MIN, TEST};
    SlotCount(table, 0, 1);
    var d := new OtaData(true, false, table, Sectors(BLANK, BLANK));
    err := d.SetBootPartition(true, TEST, {TEST});
    p := d.GetBootPartition();
  }

  /** A valid entry in the first sector. */
  function OnlyFirst(seqNo: Word): Sectors {
    Sectors(Entry(seqNo, BLANK.seqLabel, IMG_VALID, SeqCrc(seqNo)), BLANK)
  }

  lemma OnlyFirstActive(seqNo: Word)
    requires seqNo != ERASED
    ensures Active(OnlyFirst(seqNo)) == Some(0) && OnlyFirst(seqNo).At(0).otaSeq == seqNo
  {
    hide SeqCrc;
  }

  /** Active number 0xFFFFFFFE and slot 2 of 4: the new number reads as erased, and ota_1 goes on booting. */
  method BootErased() returns (err: Err, p: Option<nat>)
    ensures err == OK && p == Some(OTA_MIN + 1)
  {
    hide SeqCrc, Found, Boots, SearchEnds, Active, Foremost, Bootable, DefaultBoot;
    var table := {OTA_MIN, OTA_MIN + 1, OTA_MIN + 2, OTA_MIN + 3};
    SlotCount(table, 0, 4);
    var s := OnlyFirst(0xFFFF_FFFE);
    var d := new OtaData(true, false, table, s);
    OnlyFirstActive(0xFFFF_FFFE);
    SwitchEnds(0xFFFF_FFFE, 2, 4);
    SearchFinds(0xFFFF_FFFE, 2, 4);
    SwitchBoots(s, 2, 4, d.NewState());
    ActiveBoots(s, 4);
    err := d.SetBootPartition(true, OTA_MIN + 2, {OTA_MIN + 2});
    p := d.GetBootPartition();
  }

  /** Active number 0xFFFFFFFD and slot 5 of 7: the search wraps around and finds 0xFFFFFFFE, which names slot 1. */
  lemma WrongSlot(state: Word)
    requires state != IMG_INVALID && state != IMG_ABORTED
    ensures var s := OnlyFirst(0xFFFF_FFFD);
      && Boots(s, 7) == Some(0)
      && SwitchPossible(s, 5, 7) && Boots(Switched(s, 5, 7, state), 7) == Some(1)
  {
    hide SeqCrc, Found, Boots, SearchEnds, Active;
    var s := OnlyFirst(0xFFFF_FFFD);
    OnlyFirstActive(0xFFFF_FFFD);
    SwitchEnds(0xFFFF_FFFD, 5, 7);
    ActiveBoots(s, 7);
    SwitchBoots(s, 5, 7, state);
    FindsWrong();
  }

  lemma FindsWrong()
    ensures SearchEnds(0xFFFF_FFFD, 5, 7) && Found(0xFFFF_FFFD, 5, 7) == 0xFFFF_FFFE
  {
    var end := 0x4924_9248;
    assert Candidate(5, 7, end) == 0xFFFF_FFFE;
    forall j: nat | j < end ensures Candidate(5, 7, j) < 0xFFFF_FFFD {
      if 6 + 7 * j < WORDS {
        assert Candidate(5, 7, j) == 6 + 7 * j;
      } else {
        assert Candidate(5, 7, j) == 6 + 7 * j - WORDS;
      }
    }
    FoundOnce(0xFFFF_FFFD, 5, 7, end);
  }

  lemma FoundOnce(seqNo: Word, x: nat, n: nat, i: nat)
    requires n > 0 && FoundAt(seqNo, x, n, i)
    ensures SearchEnds(seqNo, x, n) && SearchIndex(seqNo, x, n) == i
  {
    hide Candidate;
    var j := SearchIndex(seqNo, x, n);
  }
}
