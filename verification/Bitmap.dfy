/**
 The byte bitmaps of common/common.c, used by every allocator of the kernel.
 */
module Bitmap {

  type Byte = bv8

  /** The abstract value of a bitmap: is bit `idx` set? */
  predicate Bit(s: seq<Byte>, idx: nat)
    requires idx < 8 * |s|
  {
    (s[idx / 8] >> (idx % 8)) & 1 == 1
  }

  /** `get_bit`: a pure expression over the bitmap. */
  function GetBit(bitmap: array<Byte>, idx: nat): (r: Byte)
    requires idx < 8 * bitmap.Length
    reads bitmap
    ensures r == 1 || r == 0
    ensures r == 1 <==> Bit(bitmap[..], idx)
  {
    (bitmap[idx / 8] >> (idx % 8)) & 1
  }

  /** The byte `set_bit` stores back. */
  function UpdatedByte(b: Byte, i: nat, bit: Byte): Byte
    requires i < 8 && bit <= 1
  {
    (b & !(1 << i)) | (bit << i)
  }

  /** Replacing one bit of a byte leaves the other seven as they were. */
  lemma UpdatedByteBits(b: Byte, i: nat, bit: Byte, j: nat)
    requires i < 8 && j < 8 && bit <= 1
    ensures (UpdatedByte(b, i, bit) >> j) & 1 == if j == i then bit else (b >> j) & 1
  {
  }

  /** `set_bit`: exactly one bit of the bitmap changes. */
  method SetBit(bitmap: array<Byte>, idx: nat, bit: Byte)
    requires idx < 8 * bitmap.Length && bit <= 1
    modifies bitmap
    ensures forall k: nat :: k < 8 * bitmap.Length ==>
              Bit(bitmap[..], k) == if k == idx then bit == 1 else old(Bit(bitmap[..], k))
  {
    ghost var was := bitmap[..];
    bitmap[idx / 8] := UpdatedByte(bitmap[idx / 8], idx % 8, bit);
    forall k: nat | k < 8 * bitmap.Length
      ensures Bit(bitmap[..], k) == if k == idx then bit == 1 else Bit(was, k)
    {
      if k / 8 == idx / 8 {
        UpdatedByteBits(was[idx / 8], idx % 8, bit, k % 8);
      }
    }
  }
}
