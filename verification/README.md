# BIP-39 checksum layer of libwally-core, modelled in Dafny

This project models the checksum layer of the BIP-39 mnemonic code in
`bip39.c`, and proves properties of that model. BIP-39 is Bitcoin
Improvement Proposal 39. Its "Generating the mnemonic" section says that
entropy of ENT bits is followed by the first ENT/32 bits of its SHA-256
digest.

The layer has four parts.

- **Mask table.** `EntropyLenToMask` maps the five legal entropy lengths
  (16, 20, 24, 28 and 32 bytes) to the checksum masks 0xf0 to 0xff. It
  returns 0 for every other length, so it also validates the length.
- **Encode.** `MnemonicFromBytes` rejects a wordlist whose index width is not
  11 bits and any illegal length. Otherwise it appends the first digest byte
  to the entropy and hands that payload to the word packer.
- **Decode.** `MnemonicToBytes` unpacks the phrase into a scratch payload and
  treats its last byte as the checksum byte. It rejects an illegal length or
  a caller buffer that is too small, then compares the checksum bits under
  the mask. Only on success does it write the entropy into the caller's
  buffer.
- **Validity and the language registry.** `MnemonicIsValid` is a decode into a
  33-byte scratch buffer. `GetWordlist` resolves a language code by exact
  match against the `Lookup` table and falls back to English.

The external pieces are parameters of the model:

- the first byte of the SHA-256 digest is a function `Sha256First`;
- the word packer (`mnemonic_from_bytes` / `mnemonic_to_bytes` in
  `mnemonic.c`) is a `Packer` value holding two functions.

The only assumption about the packer is `PackerRoundTrips`. Take a payload
that is a legal entropy length plus one byte. Unpacking the phrase packed
from it must give back a payload of the same length with the same entropy
bytes. The last byte must agree with the original under the checksum mask.
The low bits of that byte outside the mask may be lost. A phrase of 11-bit
words carries ENT + ENT/32 bits, which is fewer than the 8 bits per byte of
the payload. Decoding compares only the masked bits, so losing the others
does no harm (`ClearingUncheckedBitsAllowed` shows a packer may zero them).
The round-trip and corruption theorems take `PackerRoundTrips` as a
precondition.

The files are `wrappers.dfy` (Option/Result), `checksum.dfy` (lengths and
masks), `wordlists.dfy` (the language registry), `externals.dfy` (hash and
packer interfaces) and `bip39.dfy` (encode, decode, validity and their
lemmas).

## Model

| member | source | states |
|---|---|---|
| Checksum.EntropyLenToMask | bip39.c:45-55 | The mask is nonzero exactly for the five legal entropy lengths, so it doubles as the length check. |
| Checksum.EntropyLengths | bip39.c:47-53 | The five accepted lengths are exactly BIP-39's rule: 128 to 256 bits in steps of 32. |
| Checksum.MaskSelectsChecksumBits | bip39.c:48-52 | For each legal length the mask has exactly ENT/32 leading one-bits and no others (0xf0 for 4 bits up to 0xff for 8). |
| Checksum.TopBitsLeadingOnes | bip39.c:48-52 | The reference mask with k top bits set has bit i (from the top) set exactly when i < k. |
| Checksum.FlipChangesChecksum | bip39.c:113 | Flipping any one of the checksum bits of a byte changes the byte's masked value. |
| Wordlists.Resolve | bip39.c:63 | A missing wordlist handle means English (the same fallback is applied again at bip39.c:94); a given handle is used as is. |
| Wordlists.GetWordlist | bip39.c:31-40 | A missing code gives English; a code equal to a `Lookup` name gives that row's wordlist; a code equal to no name gives English. |
| Wordlists.LookupNamesDistinct | bip39.c:19-22 | No two rows of the language table share a code, so an exact match selects one row. |
| Wordlists.GetLanguages | bip39.c:26-29 | The advertised language string is the `Lookup` names in table order, separated by single spaces. |
| Bip39.ChecksummedPayload | bip39.c:68-74 | The payload is the entropy unchanged followed by exactly one byte, the first digest byte. |
| Bip39.MnemonicFromBytes | bip39.c:57-76 | Encode fails exactly when the wordlist (English if none is given) is not 11 bits wide or the length is illegal; on success it packs entropy followed by the first digest byte. |
| Bip39.VerifyPayload | bip39.c:101-117 | An unpacked payload is rejected when it is empty, when its length less one is not an entropy length, when the buffer is too small, or on a masked checksum mismatch, in that order; otherwise the entropy is the payload without its last byte. |
| Bip39.DecodeStatus | bip39.c:94-117 | Decoding fails exactly when the wordlist (English if none is given) is not 11 bits wide, the packer writes nothing, the payload less one byte is not an entropy length, the buffer is too small, or the masked checksums differ; on success the entropy is the payload less its last byte. |
| Bip39.MnemonicToBytes | bip39.c:78-118 | Decode returns 0 and leaves the buffer untouched on every failure; on success it returns a legal entropy length n, overwrites exactly the first n bytes with the payload's entropy and keeps the rest. |
| Bip39.DecodeFailsExactlyWhen | bip39.c:94-114 | Decode returns 0 if and only if the wordlist is not 11 bits wide, the packer writes nothing, the length is illegal, the buffer is too small, or the masked checksums differ. |
| Bip39.MnemonicIsValid | bip39.c:120-124 | A phrase is valid exactly when decoding it into the 33-byte scratch buffer succeeds. |
| Bip39.ValidIffDecodes | bip39.c:120-124 | Validity equals a nonzero decode into any caller buffer of at least 32 bytes, whatever its contents. |
| Bip39.MaskedOutBitsIgnored | bip39.c:113-114 | Two checksum bytes that agree under the mask give the same decode outcome, so bits outside the mask never matter. |
| Bip39.ChecksumBitFlipDetected | bip39.c:113-114 | If a payload is accepted, changing its checksum byte in any masked bit makes it fail with a checksum mismatch. |
| Bip39.CorruptedChecksumRejected | bip39.c:109-114 | A phrase packed from legal entropy and a trailing byte that disagrees with the digest under the mask decodes to 0 and leaves the buffer untouched. |
| Bip39.SingleBitFlipRejected | bip39.c:109-114 | Flipping any one checksum bit of the byte that encode appends makes the packed phrase fail to decode. |
| Bip39.PackedThenUnpacked | bip39.c:99 | A packer that keeps its contract gives back, for the phrase packed from entropy and a trailing byte, the entropy followed by a byte that agrees with the trailing byte under the mask. |
| Bip39.RoundTrip | bip39.c:57-118 | If the packer recovers the entropy and the masked checksum bits, encoding legal entropy over an 11-bit wordlist succeeds, and decoding the result into a buffer of at least that size returns the entropy length and writes exactly the entropy. |

## Left out

- The word packer (`mnemonic.c`) is not part of this model. It is a parameter, and `PackerRoundTrips` is its only assumed property. So unknown words, the word count for each entropy length (12 to 24 words), the 11-bit layout and the published test vectors are not modelled.
- Why the packer fails is not modelled. An empty unpack result is treated as failure, as bip39.c:101 does.
- SHA-256 (`ccan/crypto/sha256`) is a foreign call. It is a parameter that gives the first digest byte of a byte sequence.
- The wordlist data files (bip39.c:7-13) are static data. A wordlist is a handle holding a name and its index width. The built-in lists are taken to be 11 bits wide, because each holds 2048 words.
- The `BIP39_ENTROPY_LEN_*` constants live in `bip39.h`, which is not part of this model. They are taken as 16, 20, 24, 28 and 32 bytes, as BIP-39 requires.
- MnemonicFromBytes: never returns None because of the packer. The packer's NULL result on allocation failure is not modelled, because allocation is out of scope.
- C string handling (`strcmp`, NUL termination, the 4-byte name field), `memcpy` and stack buffers become sequence equality and slicing. A NULL phrase pointer is not modelled.
- The scratch buffer of `bip39_mnemonic_is_valid` is uninitialised in C. The model fills it with zeros, and `ValidIffDecodes` shows its contents never matter.
- Lengths are unbounded naturals, not `size_t`. The only subtraction, `tmp_len - 1`, is reached only after `tmp_len` is known to be nonzero, so nothing wraps.
- The open questions in comments (a `zh` alias, a caller-supplied hash) are not in the code and are not modelled.
- The code reports every failure as NULL or 0. The model's `DecodeError` only names which check failed. A packer that writes nothing is reported as `UnpackFailed`.
- Determinism needs no lemma: every operation is a function of its inputs.
