/** Bit order shared by the Mortevielle menu encoder and decoder: a menu bitmap byte
    holds eight pixels, the most significant bit first. */
module MenuBits {

  /** The mask selecting the k-th pixel of a byte, counted from the most significant bit. */
  function Mask(k: nat): (m: bv8)
    requires k < 8
    ensures m != 0 && m & (m - 1) == 0
  {
    (0x80 as bv8) >> k
  }

  /** The mask the encoder builds as `1 << (7 - k)` is the one the decoder reaches by
      shifting 0x80 right k times. */
  lemma MaskIsShiftedOne(k: nat)
    requires k < 8
    ensures Mask(k) == (1 as bv8) << (7 - k)
  {
  }

  /** Shifting the mask of pixel k right once gives the mask of pixel k + 1. */
  lemma MaskShift(k: nat)
    requires k < 7
    ensures Mask(k) >> 1 == Mask(k + 1)
  {
  }

  /** Distinct pixels use disjoint masks. */
  lemma MasksDisjoint(j: nat, k: nat)
    requires j < 8 && k < 8 && j != k
    ensures Mask(j) & Mask(k) == 0
  {
  }

  /** The pixel k of byte b is set. */
  predicate PixelSet(b: bv8, k: nat)
    requires k < 8
  {
    b & Mask(k) != 0
  }

  /** The eight pixels of a byte, most significant bit first. */
  function ByteBits(b: bv8): (bits: seq<bool>)
    ensures |bits| == 8
    ensures forall k :: 0 <= k < 8 ==> bits[k] == PixelSet(b, k)
  {
    seq(8, k requires 0 <= k < 8 => PixelSet(b, k))
  }

  /** Two bytes with the same eight pixels are equal. */
  lemma PixelsDetermineByte(a: bv8, b: bv8)
    requires forall k :: 0 <= k < 8 ==> PixelSet(a, k) == PixelSet(b, k)
    ensures a == b
  {
    forall k | 0 <= k < 8
      ensures a & Mask(k) == b & Mask(k)
    {
      SameBit(a, b, k);
    }
    MasksCover(a, b);
  }

  /** Agreeing on a pixel is agreeing on its bit. */
  lemma SameBit(a: bv8, b: bv8, k: nat)
    requires k < 8 && PixelSet(a, k) == PixelSet(b, k)
    ensures a & Mask(k) == b & Mask(k)
  {
  }

  /** The eight masks cover the byte. */
  lemma MasksCover(a: bv8, b: bv8)
    requires forall k :: 0 <= k < 8 ==> a & Mask(k) == b & Mask(k)
    ensures a == b
  {
    assert a & 0x80 == b & 0x80 by { assert Mask(0) == 0x80; }
    assert a & 0x40 == b & 0x40 by { assert Mask(1) == 0x40; }
    assert a & 0x20 == b & 0x20 by { assert Mask(2) == 0x20; }
    assert a & 0x10 == b & 0x10 by { assert Mask(3) == 0x10; }
    assert a & 0x08 == b & 0x08 by { assert Mask(4) == 0x08; }
    assert a & 0x04 == b & 0x04 by { assert Mask(5) == 0x04; }
    assert a & 0x02 == b & 0x02 by { assert Mask(6) == 0x02; }
    assert a & 0x01 == b & 0x01 by { assert Mask(7) == 0x01; }
  }
}
