/** Bytes, reads at a file cursor and little-endian integers, shared by the
    mesh converter and the cache-envelope stripper. */
module ByteStream {

  /** One byte of a Python `bytes` object. */
  type byte = b: int | 0 <= b < 256

  datatype Option<T> = None | Some(value: T)

  function Min(a: int, b: int): int { if a <= b then a else b }

  /** `f.read(n)` on a file whose cursor is at `pos`: the next `n` bytes, fewer
      when the file ends first, none when the cursor is at or past its end. */
  function ReadAt(data: seq<byte>, pos: nat, n: nat): (r: seq<byte>)
    ensures |r| == (if pos <= |data| then Min(n, |data| - pos) else 0)
  {
    if |data| <= pos then [] else data[pos..Min(pos + n, |data|)]
  }

  /** The bytes from `pos` to the end of the file (none when `pos` is past it). */
  function Drop(data: seq<byte>, pos: nat): (r: seq<byte>)
    ensures pos <= |data| ==> r == data[pos..]
    ensures |data| <= pos ==> r == []
  {
    if pos <= |data| then data[pos..] else []
  }

  function Pow256(k: nat): (p: nat)
    ensures p > 0
  {
    if k == 0 then 1 else 256 * Pow256(k - 1)
  }

  /** `int.from_bytes(bs, byteorder='little')`: unsigned, of any length; no bytes give 0. */
  function FromLE(bs: seq<byte>): (n: nat)
    ensures n < Pow256(|bs|)
  {
    if bs == [] then 0 else bs[0] + 256 * FromLE(bs[1..])
  }

  /** Four little-endian bytes of an unsigned 32-bit value (struct "I", native order on x86). */
  function LE32(x: nat): (r: seq<byte>)
    requires x < 0x1_0000_0000
    ensures |r| == 4 && FromLE(r) == x
  {
    var q1 := x / 256;
    var q2 := q1 / 256;
    var r := [x % 256, q1 % 256, q2 % 256, q2 / 256];
    assert r[1..][1..][1..][1..] == [];
    assert FromLE(r[1..][1..]) == q2 % 256 + 256 * (q2 / 256) == q2;
    assert FromLE(r[1..]) == q1 % 256 + 256 * q2 == q1;
    r
  }

  /** Two little-endian bytes of an unsigned 16-bit value (struct "H"). */
  function LE16(x: nat): (r: seq<byte>)
    requires x < 0x1_0000
    ensures |r| == 2 && FromLE(r) == x
  {
    var r := [x % 256, x / 256];
    assert r[1..][1..] == [];
    r
  }

  /** A byte read as a signed 8-bit integer (struct "b"). */
  function Int8(b: byte): (i: int)
    ensures -128 <= i < 128 && (i - b) % 256 == 0
  {
    if b < 128 then b else b - 256
  }

  /** The byte that stores a signed 8-bit value, the inverse of `Int8`. */
  function Int8Byte(i: int): (b: byte)
    requires -128 <= i < 128
    ensures Int8(b) == i
  {
    if i < 0 then i + 256 else i
  }
}
