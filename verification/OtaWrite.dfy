/**
 Writing an image to a partition in pieces of any size: esp_ota_write and esp_ota_end of esp_ota_ops.c,
 for one open handle.
 */
module OtaWrite {
  import opened Bytes

  const IMAGE_HEADER_MAGIC: byte := 0xE9
  const CIPHER_BLOCK := 16

  datatype Err = OK | INVALID_ARG | INVALID_STATE | VALIDATE_FAILED | WRITE_FAILED

  /** `input` is stored as `flash` followed by the `partial` bytes that are still in memory. */
  ghost predicate Stored(encrypted: bool, input: seq<byte>, flash: seq<byte>, partial: seq<byte>) {
    && input == flash + partial
    && (input != [] ==> input[0] == IMAGE_HEADER_MAGIC)
    && (if encrypted then |flash| % CIPHER_BLOCK == 0 && |partial| < CIPHER_BLOCK else partial == [])
  }

  /** How an image is divided between flash and memory depends on the image alone, not on the pieces in
      which it came. */
  lemma StoredUnique(encrypted: bool, input: seq<byte>, flash: seq<byte>, partial: seq<byte>)
    requires Stored(encrypted, input, flash, partial)
    ensures var n := if encrypted then |input| - |input| % CIPHER_BLOCK else |input|;
      0 <= n <= |input| && flash == input[..n] && partial == input[n..]
  {
    if encrypted {
      assert |input| % CIPHER_BLOCK == |partial|;
    }
    assert input[..|flash|] == flash && input[|flash|..] == partial;
  }

  lemma AppendPartial(input: seq<byte>, flash: seq<byte>, partial: seq<byte>, more: seq<byte>)
    requires Stored(true, input, flash, partial) && input != [] && |partial| + |more| <= CIPHER_BLOCK
    ensures |partial| + |more| < CIPHER_BLOCK ==> Stored(true, input + more, flash, partial + more)
    ensures |partial| + |more| == CIPHER_BLOCK ==> Stored(true, input + more, flash + (partial + more), [])
  {
    assert input + more == flash + (partial + more);
  }

  lemma AppendBulk(encrypted: bool, input: seq<byte>, flash: seq<byte>, bulk: seq<byte>, rest: seq<byte>)
    requires Stored(encrypted, input, flash, [])
    requires input == [] && bulk + rest != [] ==> (bulk + rest)[0] == IMAGE_HEADER_MAGIC
    requires if encrypted then |bulk| % CIPHER_BLOCK == 0 && |rest| < CIPHER_BLOCK else rest == []
    ensures Stored(encrypted, input + (bulk + rest), flash + bulk, rest)
  {
    assert input + (bulk + rest) == (flash + bulk) + rest;
  }

  lemma {:induction false} ConcatPrefix(pieces: seq<seq<byte>>, i: nat)
    requires i < |pieces|
    ensures Concat(pieces[..i]) + pieces[i] <= Concat(pieces)
    decreases |pieces|
  {
    var n := |pieces| - 1;
    if i < n {
      ConcatPrefix(pieces[..n], i);
      assert pieces[..n][..i] == pieces[..i];
    }
  }

  lemma SplitTail(encrypted: bool, data: seq<byte>, tail: nat)
    requires tail == if encrypted then |data| % CIPHER_BLOCK else 0
    ensures tail <= |data| && tail < CIPHER_BLOCK
    ensures var bulk := data[..|data| - tail];
      && data == bulk + data[|bulk|..] && |data[|bulk|..]| == tail
      && (encrypted ==> |bulk| % CIPHER_BLOCK == 0)
  {
  }

  lemma NoPieces()
    ensures Concat([]) == []
  {
  }

  lemma ConcatNext(pieces: seq<seq<byte>>, i: nat)
    requires i < |pieces|
    ensures Concat(pieces[..i + 1]) == Concat(pieces[..i]) + pieces[i]
  {
    assert pieces[..i + 1][..i] == pieces[..i];
  }

  predicate BeginsRight(image: seq<byte>) {
    image == [] || image[0] == IMAGE_HEADER_MAGIC
  }

  class Session {
    const encrypted: bool
    const part: array<byte>
    const partialData: array<byte>

    var wroteSize: nat
    var partialBytes: nat

    /** All bytes accepted so far, and the number of failed flash writes. */
    ghost var input: seq<byte>
    ghost var faults: nat

    ghost predicate Valid()
      reads this, part, partialData
    {
      && part != partialData
      && partialData.Length == CIPHER_BLOCK
      && wroteSize <= part.Length
      && partialBytes <= CIPHER_BLOCK
      && Stored(encrypted, input, part[..wroteSize], partialData[..partialBytes])
    }

    /** esp_ota_begin: the partition is erased and the entry zeroed. */
    constructor (part: array<byte>, encrypted: bool)
      ensures Valid() && input == [] && this.part == part && this.encrypted == encrypted
      ensures fresh(partialData)
    {
      this.part, this.encrypted := part, encrypted;
      partialData := new byte[CIPHER_BLOCK];
      wroteSize, partialBytes, input, faults := 0, 0, [], 0;
    }

    /** esp_partition_write; with encryption on, the flash takes whole cipher blocks only. */
    method PartitionWrite(at: nat, bytes: seq<byte>) returns (ok: bool)
      requires encrypted ==> at % CIPHER_BLOCK == 0 && |bytes| % CIPHER_BLOCK == 0
      requires at <= part.Length
      modifies part, `faults
      ensures faults == old(faults) + if ok then 0 else 1
      ensures part[..at] == old(part[..at])
      ensures ok ==> at + |bytes| <= part.Length && part[..at + |bytes|] == old(part[..at]) + bytes
    {
      ok := *;
      if at + |bytes| > part.Length {
        ok := false;
      }
      if !ok {
        faults := faults + 1;
      } else {
        CopyIn(part, at, bytes);
        assert part[..][..at] == part[..at];
        assert part[..][..at + |bytes|] == part[..at + |bytes|];
      }
    }

    /** Adds bytes to a partly filled cipher block and writes it once it is full. */
    method FillPartial(data: seq<byte>) returns (err: Err, used: nat)
      requires Valid() && encrypted && partialBytes != 0
      modifies this, part, partialData
      ensures used == Min(CIPHER_BLOCK - old(partialBytes), |data|)
      ensures err == OK ==> Valid() && input == old(input) + data[..used] && (partialBytes == 0 || used == |data|)
      ensures err == if faults == old(faults) then OK else WRITE_FAILED
      ensures err != OK ==> wroteSize == old(wroteSize) <= part.Length && part[..wroteSize] == old(part[..wroteSize])
    {
      ghost var flash, partial := part[..wroteSize], partialData[..partialBytes];
      assert input != [] && |partial| < CIPHER_BLOCK;
      hide Stored;
      used := Min(CIPHER_BLOCK - partialBytes, |data|);
      AppendPartial(input, flash, partial, data[..used]);
      CopyIn(partialData, partialBytes, data[..used]);
      partialBytes := partialBytes + used;
      input := input + data[..used];
      assert partialData[..][..partialBytes] == partialData[..partialBytes] == partial + data[..used];
      if partialBytes != CIPHER_BLOCK {
        return OK, used;
      }
      assert partialData[..] == partialData[..CIPHER_BLOCK];
      var ok := PartitionWrite(wroteSize, partialData[..]);
      if !ok {
        return WRITE_FAILED, used;
      }
      partialBytes := 0;
      wroteSize := wroteSize + CIPHER_BLOCK;
      CopyIn(partialData, 0, seq(CIPHER_BLOCK, _ => 0xFF));
      return OK, used;
    }

    /** Writes the whole cipher blocks of `data`, everything without encryption, and keeps the rest. */
    method WriteBulk(data: seq<byte>) returns (err: Err)
      requires Valid() && partialBytes == 0
      requires input == [] && data != [] ==> data[0] == IMAGE_HEADER_MAGIC
      modifies this, part, partialData
      ensures err == OK ==> Valid() && input == old(input) + data
      ensures err == if faults == old(faults) then OK else WRITE_FAILED
      ensures err != OK ==> wroteSize == old(wroteSize) <= part.Length && part[..wroteSize] == old(part[..wroteSize])
    {
      ghost var flash := part[..wroteSize];
      assert partialData[..partialBytes] == [];
      var tail := if encrypted then |data| % CIPHER_BLOCK else 0;
      var bulk := data[..|data| - tail];
      SplitTail(encrypted, data, tail);
      AppendBulk(encrypted, input, flash, bulk, data[|bulk|..]);
      assert encrypted ==> wroteSize % CIPHER_BLOCK == 0;
      hide Stored;
      KeepTail(data[|bulk|..]);
      var ok := PartitionWrite(wroteSize, bulk);
      if !ok {
        return WRITE_FAILED;
      }
      wroteSize := wroteSize + |bulk|;
      input := input + data;
      return OK;
    }

    /** Keeps less than a cipher block in memory. */
    method KeepTail(rest: seq<byte>)
      requires partialData.Length == CIPHER_BLOCK && |rest| < CIPHER_BLOCK
      modifies partialData, `partialBytes
      ensures partialBytes == |rest| && partialData[..partialBytes] == rest
    {
      if |rest| != 0 {
        CopyIn(partialData, 0, rest);
      }
      partialBytes := |rest|;
      assert partialData[..][..partialBytes] == partialData[..partialBytes] == rest;
    }

    method Write(data: seq<byte>) returns (err: Err)
      requires Valid()
      modifies this, part, partialData
      ensures err == VALIDATE_FAILED <==> old(input) == [] && data != [] && data[0] != IMAGE_HEADER_MAGIC
      ensures err == VALIDATE_FAILED ==> Valid() && input == old(input)
      ensures err == OK ==> Valid() && input == old(input) + data
      ensures err == WRITE_FAILED <==> faults != old(faults)
      ensures err in {OK, VALIDATE_FAILED, WRITE_FAILED}
    {
      if wroteSize == 0 && partialBytes == 0 && |data| > 0 && data[0] != IMAGE_HEADER_MAGIC {
        return VALIDATE_FAILED;
      }
      var rest := data;
      if encrypted && partialBytes != 0 {
        var used;
        err, used := FillPartial(data);
        if err != OK || partialBytes != 0 {
          assert data[..|data|] == data;
          return;
        }
        rest := data[used..];
        assert data == data[..used] + rest;
      }
      err := WriteBulk(rest);
    }

    /** Any number of writes: they succeed exactly when the flash takes what it is given and the image, however
        it is cut, is empty or begins with the magic byte. */
    method WriteAll(pieces: seq<seq<byte>>) returns (err: Err)
      requires Valid() && input == []
      modifies this, part, partialData
      ensures err == OK ==> Valid() && input == Concat(pieces)
      ensures err == OK <==> faults == old(faults) && BeginsRight(Concat(pieces))
      ensures err == WRITE_FAILED <==> faults != old(faults)
      ensures err in {OK, VALIDATE_FAILED, WRITE_FAILED}
    {
      hide Stored, Concat;
      ghost var before := faults;
      NoPieces();
      for i := 0 to |pieces|
        invariant Valid() && input == Concat(pieces[..i]) && faults == before
      {
        ConcatPrefix(pieces, i);
        err := Write(pieces[i]);
        if err != OK {
          return;
        }
        ConcatNext(pieces, i);
      }
      assert pieces[..|pieces|] == pieces;
      StoredBegins();
      return OK;
    }

    lemma StoredBegins()
      requires Valid()
      ensures BeginsRight(input)
    {
    }

    /** esp_ota_end; `verified` tells whether the image in the partition verifies. */
    method End(verified: bool) returns (err: Err)
      requires Valid()
      modifies this, part
      ensures err == INVALID_ARG <==> old(wroteSize) == 0
      ensures err == OK ==> verified
      ensures err in {OK, VALIDATE_FAILED} ==>
        && partialBytes == 0
        && |input| <= wroteSize <= part.Length
        && part[..|input|] == input == old(input)
        && wroteSize - |input| < CIPHER_BLOCK
        && (encrypted ==> wroteSize % CIPHER_BLOCK == 0)
        && (!encrypted ==> wroteSize == |input|)
      ensures err == INVALID_STATE <==> faults != old(faults)
      ensures err in {OK, VALIDATE_FAILED, INVALID_ARG, INVALID_STATE}
      ensures err == VALIDATE_FAILED ==> !verified
    {
      if wroteSize == 0 {
        return INVALID_ARG;
      }
      if partialBytes > 0 {
        ghost var flash := part[..wroteSize];
        var ok := PartitionWrite(wroteSize, partialData[..]);
        if !ok {
          return INVALID_STATE;
        }
        assert partialData[..] == partialData[..partialBytes] + partialData[partialBytes..];
        assert part[..wroteSize + CIPHER_BLOCK] == flash + partialData[..];
        assert part[..wroteSize + CIPHER_BLOCK][..|input|] == input;
        wroteSize := wroteSize + CIPHER_BLOCK;
        partialBytes := 0;
      }
      if !verified {
        return VALIDATE_FAILED;
      }
      return OK;
    }
  }
}
