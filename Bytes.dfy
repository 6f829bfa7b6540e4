/**
 * Byte-level helpers the payload decoders rely on: Go's
 * `binary.LittleEndian.Uint16` over a two-byte slice and the `int16(...)`
 * conversion that reinterprets a 16-bit word as two's complement.
 */
module Bytes {

  /** Go's `byte`: an unsigned 8-bit value. */
  type Byte = x: int | 0 <= x < 0x100

  const WordModulus: int := 0x1_0000
  const HalfWord: int := 0x8000

  /** `binary.LittleEndian.Uint16(b[i:i+2])`: the byte at `i` is the low byte. */
  function Uint16LE(b: seq<Byte>, i: nat): (w: int)
    requires i + 2 <= |b|
    ensures 0 <= w < WordModulus
    ensures w % 0x100 == b[i] && w / 0x100 == b[i + 1]
  {
    b[i] as int + 0x100 * (b[i + 1] as int)
  }

  /** The two bytes `binary.LittleEndian.PutUint16` writes for `w`. */
  function PutUint16LE(w: int): (bs: seq<Byte>)
    requires 0 <= w < WordModulus
    ensures |bs| == 2 && Uint16LE(bs, 0) == w
  {
    [w % 0x100, w / 0x100]
  }

  /** `int16(w)` for a `uint16` w: the same 16 bits read as two's complement. */
  function ToInt16(w: int): (v: int)
    requires 0 <= w < WordModulus
    ensures -HalfWord <= v < HalfWord
    ensures v % WordModulus == w
  {
    if w < HalfWord then w else w - WordModulus
  }

  /** `uint16(v)` for an `int16` v: the bit pattern that `ToInt16` reads back as `v`. */
  function Int16Bits(v: int): (w: int)
    requires -HalfWord <= v < HalfWord
    ensures 0 <= w < WordModulus && ToInt16(w) == v
  {
    if v < 0 then v + WordModulus else v
  }

  /** Reading a little-endian word loses nothing: writing it back gives the same two bytes. */
  lemma PutUint16LEOfUint16LE(b: seq<Byte>, i: nat)
    requires i + 2 <= |b|
    ensures PutUint16LE(Uint16LE(b, i)) == b[i..i + 2]
  {
  }

  /** The int16 conversion is a bijection on 16-bit words. */
  lemma Int16BitsOfToInt16(w: int)
    requires 0 <= w < WordModulus
    ensures Int16Bits(ToInt16(w)) == w
  {
  }
}
