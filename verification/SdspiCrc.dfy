/** The table-driven CRC-7 of sdspi_crc.c. */
module SdspiCrc {

  /** The table, sixteen entries to a row. */
  const CRC7_TABLE: seq<seq<bv8>> := [
    [0x00, 0x09, 0x12, 0x1b, 0x24, 0x2d, 0x36, 0x3f, 0x48, 0x41, 0x5a, 0x53, 0x6c, 0x65, 0x7e, 0x77],
    [0x19, 0x10, 0x0b, 0x02, 0x3d, 0x34, 0x2f, 0x26, 0x51, 0x58, 0x43, 0x4a, 0x75, 0x7c, 0x67, 0x6e],
    [0x32, 0x3b, 0x20, 0x29, 0x16, 0x1f, 0x04, 0x0d, 0x7a, 0x73, 0x68, 0x61, 0x5e, 0x57, 0x4c, 0x45],
    [0x2b, 0x22, 0x39, 0x30, 0x0f, 0x06, 0x1d, 0x14, 0x63, 0x6a, 0x71, 0x78, 0x47, 0x4e, 0x55, 0x5c],
    [0x64, 0x6d, 0x76, 0x7f, 0x40, 0x49, 0x52, 0x5b, 0x2c, 0x25, 0x3e, 0x37, 0x08, 0x01, 0x1a, 0x13],
    [0x7d, 0x74, 0x6f, 0x66, 0x59, 0x50, 0x4b, 0x42, 0x35, 0x3c, 0x27, 0x2e, 0x11, 0x18, 0x03, 0x0a],
    [0x56, 0x5f, 0x44, 0x4d, 0x72, 0x7b, 0x60, 0x69, 0x1e, 0x17, 0x0c, 0x05, 0x3a, 0x33, 0x28, 0x21],
    [0x4f, 0x46, 0x5d, 0x54, 0x6b, 0x62, 0x79, 0x70, 0x07, 0x0e, 0x15, 0x1c, 0x23, 0x2a, 0x31, 0x38],
    [0x41, 0x48, 0x53, 0x5a, 0x65, 0x6c, 0x77, 0x7e, 0x09, 0x00, 0x1b, 0x12, 0x2d, 0x24, 0x3f, 0x36],
    [0x58, 0x51, 0x4a, 0x43, 0x7c, 0x75, 0x6e, 0x67, 0x10, 0x19, 0x02, 0x0b, 0x34, 0x3d, 0x26, 0x2f],
    [0x73, 0x7a, 0x61, 0x68, 0x57, 0x5e, 0x45, 0x4c, 0x3b, 0x32, 0x29, 0x20, 0x1f, 0x16, 0x0d, 0x04],
    [0x6a, 0x63, 0x78, 0x71, 0x4e, 0x47, 0x5c, 0x55, 0x22, 0x2b, 0x30, 0x39, 0x06, 0x0f, 0x14, 0x1d],
    [0x25, 0x2c, 0x37, 0x3e, 0x01, 0x08, 0x13, 0x1a, 0x6d, 0x64, 0x7f, 0x76, 0x49, 0x40, 0x5b, 0x52],
    [0x3c, 0x35, 0x2e, 0x27, 0x18, 0x11, 0x0a, 0x03, 0x74, 0x7d, 0x66, 0x6f, 0x50, 0x59, 0x42, 0x4b],
    [0x17, 0x1e, 0x05, 0x0c, 0x33, 0x3a, 0x21, 0x28, 0x5f, 0x56, 0x4d, 0x44, 0x7b, 0x72, 0x69, 0x60],
    [0x0e, 0x07, 0x1c, 0x15, 0x2a, 0x23, 0x38, 0x31, 0x46, 0x4f, 0x54, 0x5d, 0x62, 0x6b, 0x70, 0x79]
  ]

  /** One bit of the remainder modulo x^7 + x^3 + 1. */
  function BitStep(crc: bv8, bit: bv8): bv8 {
    var out := ((crc >> 6) ^ bit) & 1;
    ((crc << 1) & 0x7f) ^ (if out == 1 then 0x09 else 0)
  }

  /** The eight bits of a byte, the most significant one first. */
  function ByteStep(crc: bv8, b: bv8): bv8 {
    var c1 := BitStep(crc, (b >> 7) & 1);
    var c2 := BitStep(c1, (b >> 6) & 1);
    var c3 := BitStep(c2, (b >> 5) & 1);
    var c4 := BitStep(c3, (b >> 4) & 1);
    var c5 := BitStep(c4, (b >> 3) & 1);
    var c6 := BitStep(c5, (b >> 2) & 1);
    var c7 := BitStep(c6, (b >> 1) & 1);
    BitStep(c7, b & 1)
  }

  /** The remainder of a message, bit by bit. */
  function Remainder(data: seq<bv8>): (crc: bv8)
    ensures crc < 128
  {
    if data == [] then 0 else ByteStep(Remainder(data[..|data| - 1]), data[|data| - 1])
  }

  /** The table entry with number i. */
  function TableEntry(i: bv8): bv8 {
    CRC7_TABLE[(i >> 4) as int][(i & 15) as int]
  }

  /** Each entry is the remainder of its index. */
  lemma TableIsByteStep(i: bv8)
    ensures TableEntry(i) == ByteStep(0, i)
  {
    if i < 128 {
      LowerHalf(i);
    } else {
      UpperHalf(i);
    }
  }

  lemma LowerHalf(i: bv8)
    requires i < 128
    ensures TableEntry(i) == ByteStep(0, i)
  {
    assert i >> 4 < 8;
  }

  lemma UpperHalf(i: bv8)
    requires i >= 128
    ensures TableEntry(i) == ByteStep(0, i)
  {
    assert 8 <= i >> 4 < 16;
  }

  /** Shifting a remainder and adding a byte: the index stays within the table, and looking it up is what
      the eight bit steps do. */
  lemma TableStep(crc: bv8, b: bv8)
    requires crc < 128
    ensures (crc as bv16 << 1) ^ (b as bv16) == ((crc << 1) ^ b) as bv16 < 256
    ensures TableEntry((crc << 1) ^ b) == ByteStep(crc, b)
  {
    TableIsByteStep((crc << 1) ^ b);
    ByteStepShifts(crc, b);
  }

  /** Four bits, the most significant one first. */
  function HalfStep(crc: bv8, n: bv8): bv8 {
    var c1 := BitStep(crc, (n >> 3) & 1);
    var c2 := BitStep(c1, (n >> 2) & 1);
    var c3 := BitStep(c2, (n >> 1) & 1);
    BitStep(c3, n & 1)
  }

  lemma TwoHalves(crc: bv8, b: bv8)
    ensures ByteStep(crc, b) == HalfStep(HalfStep(crc, b >> 4), b & 15)
  {
  }

  /** The leading bits of a remainder can be added to the input instead, and the others to the result. */
  lemma HalfAdds(crc: bv8, n: bv8)
    requires crc < 128 && n < 16
    ensures HalfStep(0, (crc >> 3) ^ n) < 128 && (crc << 4) & 0x7f < 128
    ensures HalfStep(crc, n) == HalfStep(0, (crc >> 3) ^ n) ^ ((crc << 4) & 0x7f)
  {
  }

  lemma HalfAddsRest(c: bv8, m: bv8, n: bv8)
    requires c < 128 && m < 128 && m & 15 == 0 && n < 16
    ensures HalfStep(c ^ m, n) == HalfStep(c, (m >> 3) ^ n)
  {
  }

  lemma ShiftedHalves(crc: bv8, b: bv8)
    requires crc < 128
    ensures var x := (crc << 1) ^ b; var m := (crc << 4) & 0x7f;
      && x >> 4 == (crc >> 3) ^ (b >> 4) && x & 15 == (m >> 3) ^ (b & 15)
      && b >> 4 < 16 && b & 15 < 16 && m < 128 && m & 15 == 0
  {
  }

  /** The bits of the second half that a remainder adds. */
  function Carried(crc: bv8): bv8 {
    (crc << 4) & 0x7f
  }

  lemma FirstHalf(crc: bv8, b: bv8)
    requires crc < 128
    ensures HalfStep(0, ((crc << 1) ^ b) >> 4) < 128
    ensures HalfStep(crc, b >> 4) == HalfStep(0, ((crc << 1) ^ b) >> 4) ^ Carried(crc)
  {
    hide HalfStep;
    ShiftedHalves(crc, b);
    HalfAdds(crc, b >> 4);
  }

  lemma SecondHalf(crc: bv8, b: bv8, c: bv8)
    requires crc < 128 && c < 128
    ensures HalfStep(c ^ Carried(crc), b & 15) == HalfStep(c, ((crc << 1) ^ b) & 15)
  {
    hide HalfStep;
    ShiftedHalves(crc, b);
    HalfAddsRest(c, (crc << 4) & 0x7f, b & 15);
  }

  lemma ByteStepShifts(crc: bv8, b: bv8)
    requires crc < 128
    ensures ByteStep(0, (crc << 1) ^ b) == ByteStep(crc, b)
  {
    hide BitStep, HalfStep, ByteStep, Carried;
    Shifted(crc, b, (crc << 1) ^ b);
  }

  lemma Shifted(crc: bv8, b: bv8, x: bv8)
    requires crc < 128 && x == (crc << 1) ^ b
    ensures ByteStep(0, x) == ByteStep(crc, b)
  {
    hide *;
    TwoHalves(0, x);
    TwoHalves(crc, b);
    FirstHalf(crc, b);
    SecondHalf(crc, b, HalfStep(0, x >> 4));
  }

  /** sdspi_crc7: the table-driven result is the bit-serial remainder.  The shifted result is computed in a
      wider type, as in the source, and still is an index of the table. */
  method Crc7(data: seq<bv8>) returns (result: bv8)
    ensures result == Remainder(data)
  {
    result := 0;
    for i := 0 to |data|
      invariant result == Remainder(data[..i])
    {
      assert data[..i + 1][..i] == data[..i];
      TableStep(result, data[i]);
      var index: bv16 := (result as bv16 << 1) ^ (data[i] as bv16);
      result := TableEntry(index as bv8);
    }
    assert data[..|data|] == data;
  }

  // ---------------------------------------------------------------- the check of a receiver

  /** The bits of a seven-bit value without the leading one. */
  function Rest(m: bv8): bv8 {
    (m << 1) & 0x7f
  }

  /** The leading n bits of a seven-bit value. */
  function Steps(crc: bv8, m: bv8, n: nat): bv8
    decreases n
  {
    if n == 0 then crc else Steps(BitStep(crc, (m >> 6) & 1), Rest(m), n - 1)
  }

  /** A step without input is reversible. */
  function Shift(r: bv8): (s: bv8)
    requires r < 128
    ensures s < 128 && (s == 0 <==> r == 0)
  {
    BitStep(r, 0)
  }

  /** A step that takes in the leading bit of `m` can as well have all of `m` added beforehand. */
  lemma StepShift(crc: bv8, m: bv8)
    requires crc < 128 && m < 128
    ensures BitStep(crc, (m >> 6) & 1) < 128 && Rest(m) < 128
    ensures BitStep(crc, (m >> 6) & 1) ^ Rest(m) == Shift(crc ^ m)
  {
  }

  function RestAfter(m: bv8, n: nat): bv8
    decreases n
  {
    if n == 0 then m else RestAfter(Rest(m), n - 1)
  }

  lemma {:induction false} StepsZero(crc: bv8, m: bv8, n: nat)
    requires crc < 128 && m < 128
    ensures Steps(crc, m, n) ^ RestAfter(m, n) == 0 <==> crc ^ m == 0
    decreases n
  {
    if n > 0 {
      StepShift(crc, m);
      StepsZero(BitStep(crc, (m >> 6) & 1), Rest(m), n - 1);
    }
  }

  lemma NothingAfterSeven(m: bv8)
    ensures RestAfter(m, 7) == 0
  {
    var m3 := Rest(Rest(Rest(m)));
    assert m3 & 7 == 0;
    assert RestAfter(m, 7) == RestAfter(Rest(m), 6) == RestAfter(Rest(Rest(m)), 5) == RestAfter(m3, 4);
    assert Rest(Rest(Rest(Rest(m3)))) == 0;
    assert RestAfter(m3, 4) == RestAfter(Rest(m3), 3) == RestAfter(Rest(Rest(m3)), 2) == RestAfter(Rest(Rest(Rest(m3))), 1);
  }

  /** A message followed by the seven bits of its CRC leaves no remainder, and followed by any other seven
      bits it leaves one. */
  lemma CheckLeavesNothing(data: seq<bv8>, received: bv8)
    requires received < 128
    ensures Steps(Remainder(data), received, 7) == 0 <==> received == Remainder(data)
  {
    hide BitStep, Steps, Rest, RestAfter, ByteStep, Remainder;
    var crc := Remainder(data);
    StepsZero(crc, received, 7);
    NothingAfterSeven(received);
    assert crc ^ received == 0 <==> received == crc;
  }
}
