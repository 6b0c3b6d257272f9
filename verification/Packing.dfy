/**
 Bits packed into bytes, and bytes mixed by xor: what the daemon writes for a given stream of
 debiased bits.
 */
module Packing {
  import opened Extractor

  type Byte = bv8

  function SetBit(byte: Byte, k: nat, b: Bit): Byte
    requires k < 8
  {
    if b == 1 then byte | ((1 as Byte) << k) else byte
  }

  function BitAt(byte: Byte, k: nat): Bit
    requires k < 8
  {
    if (byte >> k) & 1 == 1 then 1 else 0
  }

  lemma {:induction false} SetThenGet(byte: Byte, k: nat, b: Bit, j: nat)
    requires k < 8 && j < 8 && BitAt(byte, k) == 0
    ensures BitAt(SetBit(byte, k, b), j) == if j == k then b else BitAt(byte, j)
  {
  }

  /** Up to eight bits, the first of them the least significant. */
  function PackLsb(bits: seq<Bit>): Byte
    requires |bits| <= 8
  {
    if bits == [] then 0
    else var n := |bits| - 1; SetBit(PackLsb(bits[..n]), n, bits[n])
  }

  /** Up to eight bits, the first of them the most significant. */
  function PackMsb(bits: seq<Bit>): Byte
    requires |bits| <= 8
  {
    if bits == [] then 0
    else var n := |bits| - 1; SetBit(PackMsb(bits[..n]), 7 - n, bits[n])
  }

  lemma {:induction false} PackLsbBits(bits: seq<Bit>, k: nat)
    requires |bits| <= 8 && k < 8
    ensures BitAt(PackLsb(bits), k) == if k < |bits| then bits[k] else 0
  {
    if bits != [] {
      var n := |bits| - 1;
      PackLsbBits(bits[..n], k);
      PackLsbBits(bits[..n], n);
      SetThenGet(PackLsb(bits[..n]), n, bits[n], k);
    }
  }

  lemma {:induction false} PackMsbBits(bits: seq<Bit>, k: nat)
    requires |bits| <= 8 && k < 8
    ensures BitAt(PackMsb(bits), 7 - k) == if k < |bits| then bits[k] else 0
  {
    if bits != [] {
      var n := |bits| - 1;
      PackMsbBits(bits[..n], k);
      PackMsbBits(bits[..n], n);
      SetThenGet(PackMsb(bits[..n]), 7 - n, bits[n], 7 - k);
    }
  }

  function UnpackLsb(byte: Byte): (bits: seq<Bit>)
    ensures |bits| == 8
  {
    [BitAt(byte, 0), BitAt(byte, 1), BitAt(byte, 2), BitAt(byte, 3),
     BitAt(byte, 4), BitAt(byte, 5), BitAt(byte, 6), BitAt(byte, 7)]
  }

  /** Packing eight bits loses nothing. */
  lemma {:induction false} UnpackOfPack(bits: seq<Bit>)
    requires |bits| == 8
    ensures UnpackLsb(PackLsb(bits)) == bits
  {
    forall k | 0 <= k < 8 ensures UnpackLsb(PackLsb(bits))[k] == bits[k] {
      PackLsbBits(bits, k);
    }
  }

  lemma {:induction false} PackOfUnpack(byte: Byte)
    ensures PackLsb(UnpackLsb(byte)) == byte
  {
    var packed := PackLsb(UnpackLsb(byte));
    forall k: nat | k < 8 ensures BitAt(packed, k) == BitAt(byte, k) {
      PackLsbBits(UnpackLsb(byte), k);
    }
    SameBits(packed, byte);
  }

  lemma {:induction false} SameBits(a: Byte, b: Byte)
    requires forall k: nat :: k < 8 ==> BitAt(a, k) == BitAt(b, k)
    ensures a == b
  {
    assert BitAt(a, 0) == BitAt(b, 0) && BitAt(a, 1) == BitAt(b, 1) && BitAt(a, 2) == BitAt(b, 2) &&
           BitAt(a, 3) == BitAt(b, 3);
    assert BitAt(a, 4) == BitAt(b, 4) && BitAt(a, 5) == BitAt(b, 5) && BitAt(a, 6) == BitAt(b, 6) &&
           BitAt(a, 7) == BitAt(b, 7);
  }
}
