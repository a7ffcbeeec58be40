/** Byte-level vocabulary shared by the driver: the Rust `u8` used for
    coordinates, the bytes of the framebuffer and of the wire, the `as u8`
    truncation of an `i32`, and the row-address bit reversal (`msb2lsb`). */
module Bits {

  /** A Rust `u8` used as a number: a coordinate, a width, a radius. */
  type U8 = n: nat | n < 256

  /** A Rust `u8` used as a bit pattern: a framebuffer byte or a wire byte. */
  type Byte = bv8

  /** Bit `k` of `b` (bit 0 is the least significant); `k` is a `u8`, as in
      the driver's shifts. */
  predicate BitSet(b: Byte, k: Byte)
    requires k < 8
  {
    (b >> k) & 1 == 1
  }

  /** A byte with only bit `k` set: Rust `1 << k` on a `u8`. */
  function Mask(k: Byte): (m: Byte)
    requires k < 8
  {
    (1 as Byte) << k
  }

  /** The mask has bit `k` set and no other. */
  lemma MaskBits(k: Byte)
    requires k < 8
    ensures forall j: Byte :: j < 8 ==> (BitSet(Mask(k), j) <==> j == k)
  {
  }

  /** Rust `v as u8` for an `i32` value `v`: the low eight bits of its two's
      complement form, which is the Euclidean remainder modulo 256. */
  function TruncU8(v: int): (r: U8)
    ensures 0 <= v < 256 ==> r == v
    ensures -256 <= v < 0 ==> r == v + 256
  {
    v % 256
  }

  /** `reverse_bits::msb2lsb`: the byte with its eight bits in reverse order
      (bit 0 and bit 7 exchanged, bit 1 and bit 6, and so on). The body of
      the original helper is not part of this model; it is assumed to be
      8-bit reversal, as the helper's name and the panel's row addressing
      suggest. */
  function Msb2Lsb(b: Byte): (r: Byte) {
    ((b & 0x01) << 7) | ((b & 0x02) << 5) | ((b & 0x04) << 3) | ((b & 0x08) << 1)
    | ((b & 0x10) >> 1) | ((b & 0x20) >> 3) | ((b & 0x40) >> 5) | ((b & 0x80) >> 7)
  }

  /** Bit `k` of the result is bit `7 - k` of the argument. */
  lemma Msb2LsbBits(b: Byte)
    ensures forall k: Byte :: k < 8 ==> (BitSet(Msb2Lsb(b), k) <==> BitSet(b, 7 - k))
  {
  }

  /** Reversing twice gives the byte back. */
  lemma Msb2LsbInvolution(b: Byte)
    ensures Msb2Lsb(Msb2Lsb(b)) == b
  {
  }

  /** Spot values of the assumed reversal: 1 becomes 0x80, the all-zero and
      all-one bytes are their own reversal, and the first row address (row 1)
      is 0x80 while the last (row 128 = 0x80) is 0x01. */
  lemma Msb2LsbSpotValues()
    ensures Msb2Lsb(0x01) == 0x80 && Msb2Lsb(0x80) == 0x01
    ensures Msb2Lsb(0x00) == 0x00 && Msb2Lsb(0xFF) == 0xFF
  {
  }

  /** Distinct row numbers get distinct address bytes, so no two rows of a
      flush are sent to the same panel line. */
  lemma Msb2LsbInjective(a: Byte, b: Byte)
    requires a != b
    ensures Msb2Lsb(a) != Msb2Lsb(b)
  {
    Msb2LsbInvolution(a);
    Msb2LsbInvolution(b);
  }
}
