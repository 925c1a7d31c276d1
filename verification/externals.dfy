/**
 * The collaborators the BIP-39 layer calls but does not define: the first
 * byte of a SHA-256 digest, and the packer that turns a byte payload into
 * words of a wordlist and back. Both are parameters of the model; the only
 * thing assumed of the packer is stated as `PackerRoundTrips`.
 */
module Externals {
  import opened Checksum
  import opened Wordlists

  /** The first byte of the SHA-256 digest of a byte sequence. */
  type Sha256First = seq<bv8> -> bv8

  /** Size of the scratch payload buffers: the largest entropy plus one checksum byte. */
  const PAYLOAD_CAPACITY: nat := ENTROPY_LEN_256 + 1

  /**
   * The word packer. `fromBytes(w, payload)` renders a payload as a phrase
   * of words from `w`. `toBytes(w, phrase, cap)` unpacks a phrase into at
   * most `cap` bytes and returns the bytes it wrote; the caller treats an
   * empty result (a length of 0) as failure.
   */
  datatype Packer = Packer(
    fromBytes: (Wordlist, seq<bv8>) -> string,
    toBytes: (Wordlist, string, nat) -> seq<bv8>)

  /**
   * `unpacked` carries everything of `payload` that decoding looks at: the
   * same length, the same entropy bytes, and the same checksum bits under
   * the mask for that entropy length. The low bits of the last byte may be
   * lost, since a phrase of 11-bit words is up to 7 bits shorter than the
   * payload it was packed from.
   */
  predicate RecoversCheckedBits(payload: seq<bv8>, unpacked: seq<bv8>)
    requires 0 < |payload|
  {
    var n := |payload| - 1;
    var mask := EntropyLenToMask(n);
    && |unpacked| == |payload|
    && unpacked[..n] == payload[..n]
    && unpacked[n] & mask == payload[n] & mask
  }

  /**
   * The packer's contract: over an 11-bit wordlist, unpacking (into the
   * scratch capacity) the phrase packed from a payload of a legal entropy
   * length plus one byte recovers the entropy and the checksum bits.
   */
  ghost predicate PackerRoundTrips(p: Packer) {
    forall w: Wordlist, payload: seq<bv8> ::
      w.bits == 11 && 0 < |payload| && IsEntropyLen(|payload| - 1) ==>
        RecoversCheckedBits(payload, p.toBytes(w, p.fromBytes(w, payload), PAYLOAD_CAPACITY))
  }

  /** A packer may zero the bits of the last byte that lie outside the checksum mask. */
  lemma ClearingUncheckedBitsAllowed(payload: seq<bv8>)
    requires 0 < |payload|
    ensures var n := |payload| - 1;
      RecoversCheckedBits(payload, payload[..n] + [payload[n] & EntropyLenToMask(n)])
  {
    var n := |payload| - 1;
    var mask := EntropyLenToMask(n);
    var unpacked := payload[..n] + [payload[n] & mask];
    assert unpacked[..n] == payload[..n];
    MaskIdempotent(payload[n], mask);
  }

  lemma MaskIdempotent(b: bv8, mask: bv8)
    ensures (b & mask) & mask == b & mask
  {
  }
}
