/**
 * The BIP-39 encode/decode/validate layer: entropy is checksummed with the
 * first digest byte, handed to the word packer, and on the way back the
 * unpacked payload is split into entropy and checksum byte and checked
 * under the length's checksum mask.
 */
module Bip39 {
  import opened Wrappers
  import opened Checksum
  import opened Wordlists
  import opened Externals

  /** Entropy followed by one byte holding the first byte of its digest. */
  function ChecksummedPayload(hash: Sha256First, entropy: seq<bv8>): (payload: seq<bv8>)
    ensures |payload| == |entropy| + 1
    ensures payload[..|entropy|] == entropy
    ensures payload[|entropy|] == hash(entropy)
  {
    entropy + [hash(entropy)]
  }

  /**
   * Encodes entropy as a mnemonic. None (a NULL result) exactly when the
   * wordlist is not 11 bits wide or the length is not a BIP-39 entropy
   * length; a missing wordlist means English.
   */
  function MnemonicFromBytes(packer: Packer, hash: Sha256First, w: Option<Wordlist>, bytes: seq<bv8>)
    : (r: Option<string>)
    ensures r.None? <==> Resolve(w).bits != 11 || !IsEntropyLen(|bytes|)
    ensures r.Some? ==> exists payload ::
      && |payload| == |bytes| + 1
      && payload[..|bytes|] == bytes
      && payload[|bytes|] == hash(bytes)
      && r.value == packer.fromBytes(Resolve(w), payload)
  {
    var words := Resolve(w);
    if words.bits != 11 || EntropyLenToMask(|bytes|) == 0 then None
    else Some(packer.fromBytes(words, ChecksummedPayload(hash, bytes)))
  }

  /** Why a decode produced nothing; the C interface reports each as a 0 result. */
  datatype DecodeError =
    | InvalidWordlist   // the wordlist is not 11 bits wide
    | UnpackFailed      // the packer wrote no bytes
    | InvalidWordCount  // the payload less its last byte is not an entropy length
    | BufferTooSmall    // the caller's buffer cannot hold the entropy
    | ChecksumMismatch  // the masked checksum bits differ from the digest's

  /** The checksum condition on a payload whose last byte is the checksum byte. */
  predicate ChecksumMatches(hash: Sha256First, payload: seq<bv8>)
    requires 0 < |payload|
  {
    var n := |payload| - 1;
    var mask := EntropyLenToMask(n);
    payload[n] & mask == hash(payload[..n]) & mask
  }

  /**
   * Checks an unpacked payload against a caller buffer of `len` bytes:
   * nonempty, a legal entropy length before the checksum byte, room for the
   * entropy, and matching masked checksum bits, in that order.
   */
  function VerifyPayload(hash: Sha256First, payload: seq<bv8>, len: nat)
    : (r: Result<seq<bv8>, DecodeError>)
    ensures |payload| == 0 ==> r == Failure(UnpackFailed)
    ensures 0 < |payload| && !IsEntropyLen(|payload| - 1) ==> r == Failure(InvalidWordCount)
    ensures 0 < |payload| && IsEntropyLen(|payload| - 1) && len < |payload| - 1 ==>
      r == Failure(BufferTooSmall)
    ensures 0 < |payload| && IsEntropyLen(|payload| - 1) && |payload| - 1 <= len ==>
      r == if ChecksumMatches(hash, payload) then Success(payload[..|payload| - 1])
           else Failure(ChecksumMismatch)
  {
    if |payload| == 0 then Failure(UnpackFailed)
    else
      var n := |payload| - 1;
      var mask := EntropyLenToMask(n);
      if mask == 0 then Failure(InvalidWordCount)
      else if len < n then Failure(BufferTooSmall)
      else if !ChecksumMatches(hash, payload) then Failure(ChecksumMismatch)
      else Success(payload[..n])
  }

  /** The payload the packer recovers from a phrase, into the scratch buffer. */
  function Unpack(packer: Packer, words: Wordlist, mnemonic: string): seq<bv8> {
    packer.toBytes(words, mnemonic, PAYLOAD_CAPACITY)
  }

  /**
   * The outcome of decoding a phrase for a caller buffer of `len` bytes.
   * A missing wordlist means English. Decoding fails exactly when the list
   * is not 11 bits wide, the packer writes nothing, the payload less one
   * byte is not an entropy length, the buffer is too small, or the checksum
   * bits differ; otherwise the entropy is the payload less its last byte.
   */
  function DecodeStatus(packer: Packer, hash: Sha256First, w: Option<Wordlist>, mnemonic: string, len: nat)
    : (r: Result<seq<bv8>, DecodeError>)
    ensures r == Failure(InvalidWordlist) <==> Resolve(w).bits != 11
    ensures var payload := Unpack(packer, Resolve(w), mnemonic);
      r.Failure? <==>
        || Resolve(w).bits != 11
        || |payload| == 0
        || !IsEntropyLen(|payload| - 1)
        || len < |payload| - 1
        || !ChecksumMatches(hash, payload)
    ensures var payload := Unpack(packer, Resolve(w), mnemonic);
      r.Success? ==> 0 < |payload| && r.value == payload[..|payload| - 1]
  {
    var words := Resolve(w);
    if words.bits != 11 then Failure(InvalidWordlist)
    else VerifyPayload(hash, Unpack(packer, words, mnemonic), len)
  }

  /** What a decode returns: the byte count (0 on failure) and the caller's buffer afterwards. */
  datatype Decoded = Decoded(written: nat, buffer: seq<bv8>)

  /**
   * Decodes a phrase into the caller's buffer `buf`. Returns 0 and leaves
   * `buf` as it was on every failure; on success writes the entropy over
   * the front of `buf`, leaves the rest, and returns the entropy length.
   */
  function MnemonicToBytes(packer: Packer, hash: Sha256First, w: Option<Wordlist>, mnemonic: string, buf: seq<bv8>)
    : (r: Decoded)
    ensures |r.buffer| == |buf|
    ensures r.written == 0 <==> DecodeStatus(packer, hash, w, mnemonic, |buf|).Failure?
    ensures r.written == 0 ==> r.buffer == buf
    ensures r.written != 0 ==> IsEntropyLen(r.written) && r.written <= |buf|
    ensures r.written != 0 ==> |Unpack(packer, Resolve(w), mnemonic)| == r.written + 1
    ensures r.written != 0 ==>
      r.buffer == Unpack(packer, Resolve(w), mnemonic)[..r.written] + buf[r.written..]
  {
    match DecodeStatus(packer, hash, w, mnemonic, |buf|)
    case Failure(_) => Decoded(0, buf)
    case Success(entropy) =>
      assert IsEntropyLen(|entropy|);
      Decoded(|entropy|, entropy + buf[|entropy|..])
  }

  /**
   * A phrase is valid when it decodes into a scratch buffer of the scratch
   * capacity. The scratch contents do not matter; zeros stand in for them.
   */
  function MnemonicIsValid(packer: Packer, hash: Sha256First, w: Option<Wordlist>, mnemonic: string)
    : (ok: bool)
    ensures ok <==> DecodeStatus(packer, hash, w, mnemonic, PAYLOAD_CAPACITY).Success?
  {
    MnemonicToBytes(packer, hash, w, mnemonic, seq(PAYLOAD_CAPACITY, _ => 0 as bv8)).written != 0
  }

  /** Validity is decode into any buffer large enough for the longest entropy. */
  lemma ValidIffDecodes(packer: Packer, hash: Sha256First, w: Option<Wordlist>, mnemonic: string, buf: seq<bv8>)
    requires ENTROPY_LEN_256 <= |buf|
    ensures MnemonicIsValid(packer, hash, w, mnemonic)
      <==> MnemonicToBytes(packer, hash, w, mnemonic, buf).written != 0
  {
    var words := Resolve(w);
    if words.bits == 11 {
      var payload := Unpack(packer, words, mnemonic);
      if 0 < |payload| && IsEntropyLen(|payload| - 1) {
        EntropyLengths(|payload| - 1);
      }
    }
  }

  /**
   * Decode returns 0 exactly when the wordlist is not 11 bits wide, the
   * packer writes nothing, the payload less one byte is not an entropy
   * length, the caller's buffer is too small, or the checksum bits differ.
   */
  lemma DecodeFailsExactlyWhen(packer: Packer, hash: Sha256First, w: Option<Wordlist>, mnemonic: string, buf: seq<bv8>)
    ensures var payload := Unpack(packer, Resolve(w), mnemonic);
      MnemonicToBytes(packer, hash, w, mnemonic, buf).written == 0 <==>
        || Resolve(w).bits != 11
        || |payload| == 0
        || !IsEntropyLen(|payload| - 1)
        || |buf| < |payload| - 1
        || !ChecksumMatches(hash, payload)
  {
  }

  /** The outcome for entropy followed by a checksum byte `x`, case by case. */
  lemma VerifyAppended(hash: Sha256First, entropy: seq<bv8>, x: bv8, len: nat)
    ensures var mask := EntropyLenToMask(|entropy|);
      VerifyPayload(hash, entropy + [x], len) ==
        if !IsEntropyLen(|entropy|) then Failure(InvalidWordCount)
        else if len < |entropy| then Failure(BufferTooSmall)
        else if x & mask == hash(entropy) & mask then Success(entropy)
        else Failure(ChecksumMismatch)
  {
    assert (entropy + [x])[..|entropy|] == entropy;
  }

  /** Bits of the checksum byte outside the mask never change the outcome. */
  lemma MaskedOutBitsIgnored(hash: Sha256First, entropy: seq<bv8>, c1: bv8, c2: bv8, len: nat)
    requires c1 & EntropyLenToMask(|entropy|) == c2 & EntropyLenToMask(|entropy|)
    ensures VerifyPayload(hash, entropy + [c1], len) == VerifyPayload(hash, entropy + [c2], len)
  {
    VerifyAppended(hash, entropy, c1, len);
    VerifyAppended(hash, entropy, c2, len);
  }

  /** An accepted payload's checksum byte agrees with the digest under the mask. */
  lemma AcceptedChecksumAgrees(hash: Sha256First, entropy: seq<bv8>, c: bv8, len: nat)
    requires VerifyPayload(hash, entropy + [c], len).Success?
    ensures IsEntropyLen(|entropy|) && |entropy| <= len
    ensures c & EntropyLenToMask(|entropy|) == hash(entropy) & EntropyLenToMask(|entropy|)
  {
    VerifyAppended(hash, entropy, c, len);
  }

  /** A checksum byte that disagrees with the digest under the mask is rejected. */
  lemma DisagreeingChecksumRejected(hash: Sha256First, entropy: seq<bv8>, c: bv8, len: nat)
    requires IsEntropyLen(|entropy|) && |entropy| <= len
    requires c & EntropyLenToMask(|entropy|) != hash(entropy) & EntropyLenToMask(|entropy|)
    ensures VerifyPayload(hash, entropy + [c], len) == Failure(ChecksumMismatch)
  {
    VerifyAppended(hash, entropy, c, len);
  }

  /** Changing any checksum bit of an accepted payload makes it rejected for its checksum. */
  lemma ChecksumBitFlipDetected(hash: Sha256First, entropy: seq<bv8>, c: bv8, d: bv8, len: nat)
    requires VerifyPayload(hash, entropy + [c], len).Success?
    requires d & EntropyLenToMask(|entropy|) != c & EntropyLenToMask(|entropy|)
    ensures VerifyPayload(hash, entropy + [d], len) == Failure(ChecksumMismatch)
  {
    AcceptedChecksumAgrees(hash, entropy, c, len);
    DisagreeingChecksumRejected(hash, entropy, d, len);
  }

  /**
   * What a packer that keeps its contract gives back for the phrase packed
   * from entropy and a trailing byte `c`: the entropy, then a byte that
   * agrees with `c` under the mask.
   */
  lemma PackedThenUnpacked(packer: Packer, words: Wordlist, entropy: seq<bv8>, c: bv8)
    requires PackerRoundTrips(packer)
    requires words.bits == 11
    requires IsEntropyLen(|entropy|)
    ensures var unpacked := Unpack(packer, words, packer.fromBytes(words, entropy + [c]));
      && |unpacked| == |entropy| + 1
      && unpacked == entropy + [unpacked[|entropy|]]
      && unpacked[|entropy|] & EntropyLenToMask(|entropy|) == c & EntropyLenToMask(|entropy|)
  {
    var payload := entropy + [c];
    var unpacked := Unpack(packer, words, packer.fromBytes(words, payload));
    assert payload[..|entropy|] == entropy;
    assert RecoversCheckedBits(payload, unpacked);
    assert unpacked == unpacked[..|entropy|] + [unpacked[|entropy|]];
  }

  /**
   * Round trip: over an 11-bit wordlist and a packer that keeps its
   * contract, encoding legal entropy succeeds, and decoding the phrase into
   * a buffer that can hold the entropy returns its length and writes it.
   */
  lemma RoundTrip(packer: Packer, hash: Sha256First, w: Option<Wordlist>, entropy: seq<bv8>, buf: seq<bv8>)
    requires PackerRoundTrips(packer)
    requires Resolve(w).bits == 11
    requires IsEntropyLen(|entropy|)
    requires |entropy| <= |buf|
    ensures MnemonicFromBytes(packer, hash, w, entropy).Some?
    ensures MnemonicToBytes(packer, hash, w, MnemonicFromBytes(packer, hash, w, entropy).value, buf)
      == Decoded(|entropy|, entropy + buf[|entropy|..])
  {
    var words := Resolve(w);
    var payload := ChecksummedPayload(hash, entropy);
    assert payload == entropy + [hash(entropy)];
    var mnemonic := packer.fromBytes(words, payload);
    assert MnemonicFromBytes(packer, hash, w, entropy) == Some(mnemonic);
    PackedThenUnpacked(packer, words, entropy, hash(entropy));
    var unpacked := Unpack(packer, words, mnemonic);
    VerifyAppended(hash, entropy, unpacked[|entropy|], |buf|);
    assert VerifyPayload(hash, unpacked, |buf|) == Success(entropy);
  }

  /**
   * A phrase packed from legal entropy and a trailing byte whose checksum
   * bits differ from the digest's is rejected, and the buffer is untouched.
   */
  lemma CorruptedChecksumRejected(packer: Packer, hash: Sha256First, w: Option<Wordlist>, entropy: seq<bv8>, c: bv8, buf: seq<bv8>)
    requires PackerRoundTrips(packer)
    requires Resolve(w).bits == 11
    requires IsEntropyLen(|entropy|)
    requires c & EntropyLenToMask(|entropy|) != hash(entropy) & EntropyLenToMask(|entropy|)
    ensures MnemonicToBytes(packer, hash, w, packer.fromBytes(Resolve(w), entropy + [c]), buf)
      == Decoded(0, buf)
  {
    var words := Resolve(w);
    PackedThenUnpacked(packer, words, entropy, c);
    var unpacked := Unpack(packer, words, packer.fromBytes(words, entropy + [c]));
    var mask := EntropyLenToMask(|entropy|);
    var d := unpacked[|entropy|];
    MaskedDisagreementCarries(d, c, hash(entropy), mask);
    if |entropy| <= |buf| {
      DisagreeingChecksumRejected(hash, entropy, d, |buf|);
    } else {
      VerifyAppended(hash, entropy, d, |buf|);
    }
  }

  /** A byte that agrees with `c` under a mask disagrees wherever `c` does. */
  lemma MaskedDisagreementCarries(d: bv8, c: bv8, h: bv8, mask: bv8)
    requires d & mask == c & mask
    requires c & mask != h & mask
    ensures d & mask != h & mask
  {
  }

  /**
   * Flipping any one checksum bit of the byte an encoding appends makes the
   * phrase packed from it fail to decode, leaving the buffer untouched.
   */
  lemma SingleBitFlipRejected(packer: Packer, hash: Sha256First, w: Option<Wordlist>, entropy: seq<bv8>, i: nat, buf: seq<bv8>)
    requires PackerRoundTrips(packer)
    requires Resolve(w).bits == 11
    requires IsEntropyLen(|entropy|)
    requires i < ChecksumBits(|entropy|)
    ensures var flipped := entropy + [hash(entropy) ^ (0x80 >> i)];
      MnemonicToBytes(packer, hash, w, packer.fromBytes(Resolve(w), flipped), buf) == Decoded(0, buf)
  {
    FlipChangesChecksum(hash(entropy), |entropy|, i);
    CorruptedChecksumRejected(packer, hash, w, entropy, hash(entropy) ^ (0x80 >> i), buf);
  }
}
