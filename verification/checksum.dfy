/**
 * The checksum discipline of BIP-39 ("Generating the mnemonic"): entropy of
 * ENT bits, ENT one of 128, 160, 192, 224 or 256, carries a checksum of the
 * first ENT/32 bits of its SHA-256 digest. Since ENT/32 is at most 8, the
 * checksum always sits in the high bits of the first digest byte and is
 * selected by a byte mask.
 */
module Checksum {

  /** Legal entropy lengths in bytes (128 to 256 bits in 32-bit steps). */
  const ENTROPY_LEN_128: nat := 16
  const ENTROPY_LEN_160: nat := 20
  const ENTROPY_LEN_192: nat := 24
  const ENTROPY_LEN_224: nat := 28
  const ENTROPY_LEN_256: nat := 32

  /** The five entropy lengths the table accepts. */
  predicate IsEntropyLen(len: nat) {
    len in {ENTROPY_LEN_128, ENTROPY_LEN_160, ENTROPY_LEN_192, ENTROPY_LEN_224, ENTROPY_LEN_256}
  }

  /** Number of checksum bits BIP-39 attaches to `len` bytes of entropy: ENT / 32. */
  function ChecksumBits(len: nat): nat {
    len * 8 / 32
  }

  /** The byte whose `k` most significant bits are set and whose other bits are clear. */
  function TopBits(k: nat): bv8
    requires k <= 8
  {
    if k == 0 then 0 else 0x80 | (TopBits(k - 1) >> 1)
  }

  /** Bit `i` of `b`, counted from the most significant bit (i == 0). */
  predicate BitFromTop(b: bv8, i: nat)
    requires i < 8
  {
    (b >> (7 - i)) & 1 == 1
  }

  /**
   * The checksum mask for an entropy length; 0 for every length BIP-39 does
   * not allow, so a nonzero result doubles as length validation.
   */
  function EntropyLenToMask(len: nat): (mask: bv8)
    ensures mask != 0 <==> IsEntropyLen(len)
  {
    if len == ENTROPY_LEN_128 then 0xf0
    else if len == ENTROPY_LEN_160 then 0xf8
    else if len == ENTROPY_LEN_192 then 0xfc
    else if len == ENTROPY_LEN_224 then 0xfe
    else if len == ENTROPY_LEN_256 then 0xff
    else 0
  }

  /** The five lengths are exactly BIP-39's rule: 128 to 256 bits in steps of 32. */
  lemma EntropyLengths(len: nat)
    ensures IsEntropyLen(len) <==> 128 <= len * 8 <= 256 && (len * 8) % 32 == 0
  {
  }

  /** `TopBits(k)` has exactly `k` leading one-bits. */
  lemma {:induction false} TopBitsLeadingOnes(k: nat)
    requires k <= 8
    ensures forall i :: 0 <= i < 8 ==> (BitFromTop(TopBits(k), i) <==> i < k)
  {
    if k > 0 {
      TopBitsLeadingOnes(k - 1);
      var prev := TopBits(k - 1);
      forall i | 0 <= i < 8
        ensures BitFromTop(TopBits(k), i) <==> i < k
      {
        if i > 0 {
          ShiftInFromTop(prev, i);
        }
      }
    }
  }

  /** Shifting right by one and setting the top bit moves bit i-1 to bit i. */
  lemma ShiftInFromTop(b: bv8, i: nat)
    requires 0 < i < 8
    ensures BitFromTop(0x80 | (b >> 1), i) <==> BitFromTop(b, i - 1)
  {
  }

  /**
   * The mask of a legal length has exactly ENT/32 leading one-bits and
   * nothing else: it selects the checksum bits of the first digest byte.
   */
  lemma MaskSelectsChecksumBits(len: nat)
    requires IsEntropyLen(len)
    ensures EntropyLenToMask(len) == TopBits(ChecksumBits(len))
    ensures forall i :: 0 <= i < 8 ==>
      (BitFromTop(EntropyLenToMask(len), i) <==> i < ChecksumBits(len))
  {
    TopBitsLeadingOnes(ChecksumBits(len));
  }

  /** Flipping bit `i` (from the top) of a byte changes it under any mask that selects bit `i`. */
  lemma FlipSelectedBit(b: bv8, mask: bv8, i: nat)
    requires i < 8
    requires BitFromTop(mask, i)
    ensures (b ^ (0x80 >> i)) & mask != b & mask
  {
  }

  /** Flipping one of the checksum bits of a byte changes its masked value. */
  lemma FlipChangesChecksum(b: bv8, len: nat, i: nat)
    requires IsEntropyLen(len)
    requires i < ChecksumBits(len)
    ensures (b ^ (0x80 >> i)) & EntropyLenToMask(len) != b & EntropyLenToMask(len)
  {
    MaskSelectsChecksumBits(len);
    FlipSelectedBit(b, EntropyLenToMask(len), i);
  }
}
