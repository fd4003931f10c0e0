/** Bytes and the optional values shared by the models of the C sources. */
module Bytes {

  type byte = b: int | 0 <= b < 256

  datatype Option<+T> = None | Some(value: T)

  function Min(a: int, b: int): int {
    if a <= b then a else b
  }

  function Max(a: int, b: int): int {
    if a >= b then a else b
  }

  /** The concatenation of the pieces. */
  function Concat(pieces: seq<seq<byte>>): seq<byte> {
    if pieces == [] then [] else Concat(pieces[..|pieces| - 1]) + pieces[|pieces| - 1]
  }

  lemma Associative<T>(a: seq<T>, b: seq<T>, c: seq<T>)
    ensures a + (b + c) == (a + b) + c
  {
  }

  /** memcpy into `dst` at offset `at`. */
  method CopyIn<T>(dst: array<T>, at: nat, bytes: seq<T>)
    requires at + |bytes| <= dst.Length
    modifies dst
    ensures dst[..] == old(dst[..at]) + bytes + old(dst[at + |bytes|..])
  {
    for i := 0 to |bytes|
      invariant forall j | 0 <= j < i :: dst[at + j] == bytes[j]
      invariant forall j | 0 <= j < dst.Length && !(at <= j < at + i) :: dst[j] == old(dst[j])
    {
      dst[at + i] := bytes[i];
    }
  }
}
