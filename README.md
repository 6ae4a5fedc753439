# SHA-256 of `shoddy_sha`, modelled in Dafny

This project models the SHA-256 implementation in `shoddy_sha/src/wp_sha256.rs`
(FIPS PUB 180-4, the Secure Hash Standard) and proves properties of it:

- `pad` appends the marker byte `0x80`, the fewest zero bytes that end the
  message on a 64-byte boundary, and the bit length as 8 big-endian bytes.
- `one_shot` walks the padded message in 64-byte chunks. For each chunk it:
  - fills a 64-word schedule array (the chunk's 16 big-endian words, then the
    σ0/σ1 recurrence);
  - runs 64 rounds over the working variables a..h;
  - adds them back into the `hash` array with wrap-around addition.
  At the end it writes the eight hash words out as a 32-byte digest.

Layout, one Dafny module per file:

- `bits.dfy`, module `Bitwise`: `^`, `&`, `!`, `>>` and the pieces of a rotation on the
  low n bits of a natural number, each with a lemma giving every bit of the result.
- `words.dfy`, module `Words`: `u8`/`u32` as `byte`/`Word`, and `wrapping_add`/`wrapping_sub`.
  It also holds `rotate_right`, Ch, Maj, Σ0, Σ1, σ0, σ1, and big-endian conversions between words,
  integers and byte sequences.
- `constants.dfy`, module `Constants`: the round constants and the initial hash value as literal tables.
- `padding.dfy`, module `Padding`: `pad` as written (`PadAsWritten`), `pad` on the
  messages whose bit length fits in 64 bits (`Pad`), and its inverse `Unpad`.
- `sha256_spec.dfy`, module `Sha256Spec`: the hash as functions. It defines the schedule, one round and
  its inverse, the compression, the chaining of blocks as a fold, and the digest.
- `one_shot.dfy`, module `WpSha256`: `one_shot` as the program runs it. It keeps the schedule and
  hash arrays, the eight local working variables and the loops. Each method is proved to
  compute the matching function of `Sha256Spec`.

`usize` is taken to be 64 bits wide, so the length field of line 80 is 8 bytes.
Release-build `usize` arithmetic wraps, and `PadAsWritten` models it modulo 2^64.
The comment on line 74 says the marker is `0x70`; the code appends `0x80` (line 78), and the model follows the code.
Line 73 rounds up with `f64::ceil`; the model uses integer ceiling division, which gives the same value.
The numerator `512 - (8L + 65) mod 512` is at most 512, so the floating-point division by 8 is exact.

## Where each part of the source is modelled

- `pad` (lines 70-83): `Padding.PadAsWritten`. The zero count of lines 72-74 is `Padding.ZeroCount`, built from `RequiredPaddingBits`, `CeilDiv` and `Wrap`.
- The round constants `k` and initial hash value `hash` (lines 6-7): `Constants.K` and `Constants.H0`.
- The chunk loop (line 9): `Sha256Spec.Chain`; as the program runs it, `WpSha256.HashChunks`.
- Copying a chunk into the schedule (lines 13-16): `Words.WordFromBytes` and `Words.WordsOf`; as the program runs it, `WpSha256.LoadChunk`.
- The schedule extension (lines 19-23): `Words.SmallSigma0`, `Words.SmallSigma1`, `Sha256Spec.NextWord` and `Sha256Spec.Schedule`; as the program runs it, `WpSha256.ExtendInPlace`.
- The round body (lines 35-49): `Words.BigSigma1`, `Words.Ch`, `Sha256Spec.Temp1`, `Words.BigSigma0`, `Words.Maj`, `Sha256Spec.Temp2` and `Sha256Spec.Round`.
- The 64 rounds (lines 25-50): `Sha256Spec.Rounds` over `Sha256Spec.Seed`.
- The hash update (lines 52-59): `Sha256Spec.Compress`. The rounds and the update together, as the program runs them: `WpSha256.CompressChunk`.
- The digest (lines 62-67): `Words.WordToBytes` and `Sha256Spec.Digest`; as the program runs it, `WpSha256.SerializeDigest`.
- The operators: `wrapping_add` is `Words.Add`, `rotate_right` is `Words.RotateRight`, `>>` is `Words.ShiftRight`, and `^`, `&`, `!` are `Words.BitXor`, `Words.BitAnd`, `Words.BitNot`. The last three are defined over `Bitwise.Xor`, `Bitwise.And` and `Bitwise.Not`.
- `usize::to_be_bytes` of the length field (line 80): `Words.ToBE`.

`Rounds`, `Temp1`, `Temp2`, the operators and the constants carry no contract of their own. What they promise is stated by the lemmas about them in the table below, for example `RoundsInvertible` for `Rounds` and the `...Bit` lemmas for the operators.

## Model

| member | source | states |
|---|---|---|
| Bitwise.XorBit | shoddy_sha/src/wp_sha256.rs:20 | bit i of `x ^ y` is set exactly when bits i of x and y differ |
| Bitwise.AndBit | shoddy_sha/src/wp_sha256.rs:36 | bit i of `x & y` is set exactly when both bits i are set |
| Bitwise.NotBit | shoddy_sha/src/wp_sha256.rs:36 | bit i of `!x` is the opposite of bit i of x |
| Words.RotateRightBit | shoddy_sha/src/wp_sha256.rs:35 | bit i of `x.rotate_right(n)` is bit (i + n) mod 32 of x |
| Words.WordHighBits | shoddy_sha/src/wp_sha256.rs:20 | a `u32` has no bit set at position 32 or above |
| Words.ShiftRightBit | shoddy_sha/src/wp_sha256.rs:20 | bit i of `x >> n` is bit i + n of x when i + n < 32, and zero otherwise |
| Words.ChBit | shoddy_sha/src/wp_sha256.rs:36 | each bit of Ch(e, f, g) is the bit of f where e's bit is set and the bit of g elsewhere |
| Words.MajBit | shoddy_sha/src/wp_sha256.rs:39 | each bit of Maj(a, b, c) is the majority of the three bits |
| Words.BigSigma1Bit | shoddy_sha/src/wp_sha256.rs:35 | bit i of Σ1(e) is the exclusive or of bits i+6, i+11, i+25 of e, taken round the word |
| Words.BigSigma0Bit | shoddy_sha/src/wp_sha256.rs:38 | bit i of Σ0(a) is the exclusive or of bits i+2, i+13, i+22 of a, taken round the word |
| Words.SmallSigma0Bit | shoddy_sha/src/wp_sha256.rs:20 | bit i of σ0(x) is the exclusive or of bits i+7 and i+18 round the word and of bit i+3, which is zero for i >= 29 |
| Words.SmallSigma1Bit | shoddy_sha/src/wp_sha256.rs:21 | bit i of σ1(x) is the exclusive or of bits i+17 and i+19 round the word and of bit i+10, which is zero for i >= 22 |
| Words.Add | shoddy_sha/src/wp_sha256.rs:22 | `wrapping_add` is addition modulo 2^32 |
| Words.Sub | shoddy_sha/src/wp_sha256.rs:37-49 | `wrapping_sub`, used to run a round backwards, is subtraction modulo 2^32 |
| Words.SubAdd | shoddy_sha/src/wp_sha256.rs:37 | wrapping subtraction undoes wrapping addition, whichever operand is taken away |
| Words.AddSub | shoddy_sha/src/wp_sha256.rs:49 | wrapping addition undoes wrapping subtraction |
| Words.WordBytesRoundTrip | shoddy_sha/src/wp_sha256.rs:64 | reading back the 4 big-endian bytes of a word gives the word |
| Words.BytesWordRoundTrip | shoddy_sha/src/wp_sha256.rs:16 | writing out the word read from 4 bytes gives the bytes |
| Words.WordsOfBytesOf | shoddy_sha/src/wp_sha256.rs:62-67 | words written out one after another can be read back in order |
| Words.BytesOfWordsOf | shoddy_sha/src/wp_sha256.rs:14-16 | a byte sequence cut into 4-byte words and written out again is unchanged |
| Words.FromToBE | shoddy_sha/src/wp_sha256.rs:80 | the k-byte big-endian encoding of a number below 256^k denotes that number |
| Padding.ZeroCount | shoddy_sha/src/wp_sha256.rs:72-74 | fewer than 64 zero bytes, and message, marker, zeros and length field end on a 64-byte boundary |
| Padding.ZeroCountValue | shoddy_sha/src/wp_sha256.rs:72-74 | the zero count is 55 - L mod 64 when L mod 64 <= 55, and 119 - L mod 64 otherwise |
| Padding.ZeroCountIsLeast | shoddy_sha/src/wp_sha256.rs:72-74 | no smaller number of zero bytes ends on a 64-byte boundary |
| Padding.ZeroCountClosedForm | shoddy_sha/src/wp_sha256.rs:72-73 | the byte count rounded up on line 73 is one more than the zero count, so never zero and the subtraction on line 74 cannot underflow |
| Padding.WrapKeepsResidue | shoddy_sha/src/wp_sha256.rs:72 | reducing modulo 2^64 keeps the residue modulo 512, so a wrapped bit length gives the same padding size |
| Padding.PadAsWritten | shoddy_sha/src/wp_sha256.rs:70-83 | `pad` for every message, with the release-build `usize` wrap: a multiple of 64 bytes holding the message, 0x80, fewer than 64 zero bytes, then the bit length reduced modulo 2^64 as 8 big-endian bytes |
| Padding.Pad | shoddy_sha/src/wp_sha256.rs:70-83 | a multiple of 64 bytes: the message unchanged, then 0x80, then only zero bytes, then the bit length as 8 big-endian bytes, with fewer than 64 bytes of zeros |
| Padding.PadRecoversMessage | shoddy_sha/src/wp_sha256.rs:77-80 | the length field of the padded message gives the message back |
| Padding.PadChecked | shoddy_sha/src/wp_sha256.rs:70-83 | succeeds exactly when the bit length fits in 64 bits; then the result is whole blocks and gives the message back, otherwise the error is LengthOverflow |
| Padding.PadAsWrittenLosesLength | shoddy_sha/src/wp_sha256.rs:72-80 | for a message of 2^61 bytes, the padding as written claims to hold the empty message |
| Padding.PadLength | shoddy_sha/src/wp_sha256.rs:72-80 | the padded length is 64 * ((L + 8) / 64 + 1), a positive multiple of 64 |
| Padding.PadBlockBoundaries | shoddy_sha/src/wp_sha256.rs:98-113 | messages of at most 55 bytes pad to 64 bytes, 56 to 119 bytes to 128 |
| Padding.PadHelloWorld | shoddy_sha/src/wp_sha256.rs:115-129 | "hello world" pads to its bytes, 0x80, 44 zero bytes, seven zero bytes and 0x58 |
| Sha256Spec.ExtendSchedule | shoddy_sha/src/wp_sha256.rs:18-23 | extends to 64 words, leaves the words already there unchanged, and every new word follows the recurrence |
| Sha256Spec.Schedule | shoddy_sha/src/wp_sha256.rs:11-23 | 64 words: the first 16 are the block's big-endian words, the rest follow the recurrence |
| Sha256Spec.ScheduleRecoversBlock | shoddy_sha/src/wp_sha256.rs:13-16 | the first 16 schedule words written out give the block back |
| Sha256Spec.ScheduleDetermined | shoddy_sha/src/wp_sha256.rs:11-23 | any 64 words that start with the block's words and follow the recurrence are the schedule |
| Sha256Spec.Round | shoddy_sha/src/wp_sha256.rs:35-49 | one round: b, c, d and f, g, h take the old a, b, c and e, f, g; the new a is T1 on top of T2 and the new e is T1 on top of d |
| Sha256Spec.RoundInvertible | shoddy_sha/src/wp_sha256.rs:34-50 | given Kt and Wt, a round and its inverse undo each other in both orders |
| Sha256Spec.UndoRoundRedoes | shoddy_sha/src/wp_sha256.rs:34-50 | running a round after its inverse gives back the working variables |
| Sha256Spec.RoundsInvertible | shoddy_sha/src/wp_sha256.rs:34-50 | the first n rounds undone in reverse order give back the starting working variables |
| Sha256Spec.CompressUndoesToSeed | shoddy_sha/src/wp_sha256.rs:52-59 | taking the old hash words from the new ones and undoing the 64 rounds gives the old hash value |
| Sha256Spec.Compress | shoddy_sha/src/wp_sha256.rs:52-59 | the updated hash value has eight words |
| Sha256Spec.Chain | shoddy_sha/src/wp_sha256.rs:9-60 | the hash value after every block has eight words |
| Sha256Spec.FoldAppend | shoddy_sha/src/wp_sha256.rs:9 | folding p then q over blocks continues from the value p left |
| Sha256Spec.ChainAppend | shoddy_sha/src/wp_sha256.rs:9 | hashing the blocks of p then q continues from the hash value p left |
| Sha256Spec.ChainLastBlock | shoddy_sha/src/wp_sha256.rs:9 | the last block is compressed into the value the blocks before it left |
| Sha256Spec.ChainNextChunk | shoddy_sha/src/wp_sha256.rs:9 | chunk i compressed into the value after chunks 0 to i-1 gives the value after chunk i |
| Sha256Spec.ChainSharedPrefix | shoddy_sha/src/wp_sha256.rs:9 | two messages that agree on their first n bytes, n a whole number of blocks within both, reach the same hash value after those blocks of their padded forms |
| Sha256Spec.Digest | shoddy_sha/src/wp_sha256.rs:62-67 | 32 bytes that read back as the eight hash words in order |
| Sha256Spec.Sha256 | shoddy_sha/src/wp_sha256.rs:5-68 | 32 bytes that read back as the hash value left by the padded message's blocks, starting from the initial hash value |
| WpSha256.ExpandSchedule | shoddy_sha/src/wp_sha256.rs:11-23 | the schedule array of a chunk holds `Schedule(chunk)` |
| WpSha256.LoadChunk | shoddy_sha/src/wp_sha256.rs:13-16 | the first 16 entries of the array are the chunk's big-endian words; entries 16 to 63 keep their values |
| WpSha256.ExtendInPlace | shoddy_sha/src/wp_sha256.rs:18-23 | given the first 16 words, the loop leaves the whole schedule in the array |
| WpSha256.CompressChunk | shoddy_sha/src/wp_sha256.rs:25-59 | the hash array after the rounds and the update is `Compress` of its old contents |
| WpSha256.SerializeDigest | shoddy_sha/src/wp_sha256.rs:62-67 | the bytes appended are the digest of the hash array |
| WpSha256.HashChunks | shoddy_sha/src/wp_sha256.rs:7-60 | the hash array after all chunks is the chain of the padded message from the initial hash value |
| WpSha256.OneShot | shoddy_sha/src/wp_sha256.rs:5-68 | the SHA-256 digest of the message, or LengthOverflow when its bit length does not fit in 64 bits |

## Left out

- `generate_round_constants` and `generate_initial_hash_values` (shoddy_sha/src/lib.rs:14-29) compute the constants with `f64` roots and the external `primal` crate. The model uses the FIPS PUB 180-4 tables of sections 4.2.2 and 5.3.3 as literals.
- `shoddy_sha/src/cms_sha256.rs` and `shoddy_sha/src/real_sha256.rs` are not part of this model.
- The `Hasher` trait (shoddy_sha/src/lib.rs:9-11) declares `one_shot` and adds nothing to model.
- `shoddy_sha/src/main.rs`, `shoddy_sha/src/inspect.rs` and `playground/src/main.rs` only print floating-point bit layouts and demo output.
- The tests comparing `one_shot` with the `sha2` crate on "hello world" and random input (shoddy_sha/src/wp_sha256.rs:131-143) need a foreign implementation and randomness. Known-answer digests are not proved, because evaluating 64 rounds on literal input is beyond the verifier's budget.
- Debug-build overflow panics: `message_len * 8` panics in a debug build and wraps in a release build. `PadAsWritten` models the release wrap. `OneShot` refuses such messages.
- The `expect` at line 16 cannot fail, because `chunks_exact(4)` on a 64-byte chunk always gives 4-byte pieces. The model reads the words directly.
- `Vec::with_capacity` (lines 62, 76) only reserves memory, so the model builds sequences instead.
- WpSha256.OneShot: returns an error for messages of 2^61 bytes or more, where the source returns a digest of the wrongly padded message (see Findings).
- Padding.Pad: requires a message shorter than 2^61 bytes. `PadAsWritten` covers longer messages as the code treats them.

## Findings

| source | as written | input that shows it | evidently intended | confidence | as-written member | corrected member |
|---|---|---|---|---|---|---|
| shoddy_sha/src/wp_sha256.rs:72-80 | the bit length `message_len * 8` is computed in `usize`; in a release build it wraps modulo 2^64, so the length field records the length modulo 2^61 bytes | any message of 2^61 bytes: its length field is eight zero bytes, the same as for the empty message | refuse messages whose bit length does not fit in the 64-bit length field, as FIPS PUB 180-4 section 5.1.1 requires | not executed | Padding.PadAsWrittenLosesLength | Padding.PadChecked |
