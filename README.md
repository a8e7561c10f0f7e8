# chainrand-js in Dafny

chainrand.js is a deterministic random number generator. `CRNG(seed)` hashes the seed with
SHA-256, after UTF-8-encoding its UTF-16 code units. It expands the 32-byte digest into an
AES-256 key schedule. Each call of the closure `self` then reads 53 bits of an AES keystream and
returns them as a number in [0, 1). On top of `self` sit `random`, `randrange`, `randint`,
`shuffle`, `sample` and `choice`. The whole file is sequential and uses fixed-width arithmetic.
This project models every step and proves the properties below. Where the source multiplies
doubles, the model takes the exact product instead (see "Left out").

The model is split into modules that follow the program:

| module | file | what it models |
|---|---|---|
| `Options` | options.dfy | `null` and absent arguments, as `Option` |
| `Utf8` | utf8.dfy | the UTF-16 to UTF-8 step of `update`; a decoder as its partner |
| `Sha256Spec` | sha256_spec.dfy | FIPS 180-4: padding, schedule, rounds, compression, serialisation |
| `Sha256Blocks` | sha256_blocks.dfy | the 17-word `blocks` buffer, and the padding tail as `finalize` writes it |
| `Sha256` | sha256.dfy | the imperative hasher (`update`, `hash`, `finalize`, `digest`) as the class `Hasher` |
| `StaleBlock` | stale_block.dfy | the `_block` carry-over word through `update` and `finalize` |
| `AesSpec` | aes_spec.dfy | FIPS 197: S-box, xtime, key expansion, round functions, the cipher |
| `Aes` | aes.dfy | the in-place array procedures `expandKey`, `subBytes`, `shiftRows`, `mixColumns`, `addRoundKey` |
| `KeystreamSpec` | keystream_spec.dfy | `self` as a function on the value `Engine` |
| `Chainrand` | chainrand.dfy | the generator as the class `Crng`, with the distribution methods |
| `DistributionSpec` | distribution_spec.dfy | `randrange`, `randint`, `shuffle`, `sample`, `choice` as functions of the draws |

Representation:

- Bytes are `bv8`, SHA-256 words are `bv32` and UTF-16 code units are `bv16`.
- The source's `<< 0` truncations are bit-vector arithmetic modulo 2^32.
- The source's arrays (`_roundKey`, `_iv`, `_counter`, `_buf`, the AES `state`, the SHA-256 `blocks`) are Dafny arrays updated in place.
- The value of one draw is the integer m < 2^53 that `self` builds. The number it returns is the exact real m / 2^53, which a double represents exactly.
- floor(n * u) is taken on the exact product, as (n * m) / 2^53. Lemmas prove this equals the floor of the real product n * m / 2^53 (`DistributionSpec.ScaleIsFloor`, `DistributionSpec.RandintIsFloor`). The source rounds the product to a double first, and the rounding can reach the next integer; "Left out" lists the members this affects.
- Every imperative method is proved against a specification function. The properties are proved as lemmas about those functions. The generator's methods also record their draws in a ghost trace (`Crng.Traced`), so a sequence of calls is tied to `KeystreamSpec.Trace`.

Where the code and its standards differ, the model follows the code:

- **Round order.** `self` runs shiftRows before subBytes in each AES round, the reverse of FIPS 197. The two steps commute (`AesSpec.SubShiftCommute`), so the result is still AES-256 (`Aes.Encrypt`).
- **Surrogates.** A high surrogate at the end of the message reads its missing low half as 0: `charCodeAt` gives NaN there, and `NaN & 0x3ff` is 0. A lone low surrogate is encoded through the four-byte branch together with the unit after it. Both behaviours are modelled as the code has them.
- **randrange sign flip.** `randrange` negates the step whenever stop is below start, whatever the step's sign. So `randrange(10, 0, -2)` moves away from 0. The model keeps this (`DistributionSpec.NegativeStepMovesUp`).

## Model

| member | source | states |
|---|---|---|
| Utf8.Supplementary | chainrand.js:98 | a surrogate pair denotes 0x10000 + ((hi & 0x3ff) << 10 \| (lo & 0x3ff)), a code point in 0x10000..0x10FFFF |
| Utf8.CodePoint | chainrand.js:87-98 | the code point of the character at a position is at most 0x10FFFF |
| Utf8.CharBytes | chainrand.js:88-103 | 1, 2, 3 or 4 bytes for units below 0x80, below 0x800, other non-surrogates and surrogate pairs; lead byte 0xxxxxxx, 110xxxxx, 1110xxxx or 11110xxx, every other byte 10xxxxxx (section 3 of RFC 3629) |
| Utf8.TwoBytes | chainrand.js:91-92 | two bytes: a 110xxxxx lead and a continuation byte |
| Utf8.ThreeBytes | chainrand.js:94-96 | three bytes: a 1110xxxx lead and two continuation bytes |
| Utf8.FourBytes | chainrand.js:99-102 | four bytes: an 11110xxx lead and three continuation bytes |
| Utf8.EncodeFromStep | chainrand.js:86-104 | the bytes from a position on are that character's bytes followed by those of the characters after it |
| Utf8.EncodeLength | chainrand.js:86-104 | each code unit yields one to three bytes, plus one byte for a high surrogate left alone at the end |
| Utf8.EncodeAscii | chainrand.js:88-89 | a message of units below 0x80 is encoded as the same bytes |
| Utf8.SurrogatePair | chainrand.js:97-102 | a surrogate pairs with the next unit, or with 0 at the end of the message, and takes the four-byte branch |
| Utf8.SequenceLength | chainrand.js:88-103 | the length a lead byte announces is at most 4 |
| Utf8.DecodeCharBytes | chainrand.js:88-103 | a decoder reads the length back from the lead byte and recovers the character's code point |
| Utf8.DecodeTwo | chainrand.js:91-92 | decoding the two-byte form of a code point in 0x80..0x7FF gives it back |
| Utf8.DecodeThree | chainrand.js:94-96 | decoding the three-byte form of a code point in 0x800..0xFFFF gives it back |
| Utf8.DecodeFour | chainrand.js:98-102 | decoding the four-byte form of a supplementary code point gives it back |
| Utf8.DecodeEncodeFrom | chainrand.js:86-104 | decoding the bytes of the characters from any position on gives exactly their code points |
| Utf8.DecodeEncode | chainrand.js:86-104 | round trip: a UTF-8 decoder reads back exactly the code points of the input |
| Sha256Spec.SigmasAreRotations | chainrand.js:148-150 | the shift-and-or expressions are the rotations of section 4.1.2 of FIPS 180-4 |
| Sha256Spec.SchedulePrefix | chainrand.js:145-152 | the schedule prefix has exactly n words |
| Sha256Spec.SchedulePrefixExtends | chainrand.js:145-152 | a longer schedule prefix extends a shorter one |
| Sha256Spec.Schedule | chainrand.js:145-152 | the message schedule of a block has 64 words (their values: ScheduleStart, ScheduleRecurrence) |
| Sha256Spec.ScheduleStart | chainrand.js:145-152 | schedule words 0..15 are the block's words |
| Sha256Spec.ScheduleRecurrence | chainrand.js:145-152 | every schedule word from 16 on is σ1(W[t-2]) + W[t-7] + σ0(W[t-15]) + W[t-16] |
| Sha256Spec.Compress | chainrand.js:141-210 | compression gives eight words again |
| Sha256Spec.Words | chainrand.js:89 | the words of a byte string number a quarter of its bytes, each read big-endian |
| Sha256Spec.WordBytes | chainrand.js:219 | a word serialises to four bytes |
| Sha256Spec.LengthBytesWords | chainrand.js:136-137 | the 8-byte length field is the high word of 8L followed by the low word |
| Sha256Spec.PaddedLength | chainrand.js:123-139 | the padded length is a multiple of 64 and between L + 9 and L + 72 |
| Sha256Spec.Pad | chainrand.js:123-139 | the padded message is the message, 0x80, zeros, then the 64-bit big-endian bit length (section 5.1.1 of FIPS 180-4) |
| Sha256Spec.Serialize | chainrand.js:218-227 | the digest of n words is 4n bytes |
| Sha256Spec.HashBytes | chainrand.js:108-111 | the hash value after compressing whole blocks in order is eight words |
| Sha256Spec.HashBytesSnoc | chainrand.js:108-111 | hashing one more 64-byte block compresses it into the hash value of the blocks before it |
| Sha256Spec.Digest | chainrand.js:212-229 | the digest is 32 bytes |
| Sha256Spec.WordBytesRoundTrip | chainrand.js:219 | reading a word's four serialised bytes back gives the word |
| Sha256Spec.WordsAppend | chainrand.js:89 | splitting a byte string at a word boundary splits its words there |
| Sha256Spec.SerializeRoundTrip | chainrand.js:218-227 | the serialised words read back as big-endian words are the words themselves, so the digest determines H0..H7 |
| Sha256.RoundsStep | chainrand.js:155-200 | the working variables after round t + 1 are one round of section 6.2.2 past those after round t |
| Sha256.MajCached | chainrand.js:165-176 | Maj computed from the conjunctions the previous round cached is Maj |
| Sha256.FirstTemporaries | chainrand.js:156-161 | from H(0), a & b is 704751109, T1 is the schedule word minus 210244248, and T2 is 143694565 |
| Sha256.AddInitialD | chainrand.js:159 | adding H(0)'s d is subtracting 1521486534 modulo 2^32 |
| Sha256.FirstRoundRegs | chainrand.js:156-161 | the `_first` shortcut gives the working variables of an ordinary round 0 applied to H(0) |
| Sha256.RoundStep | chainrand.js:163-199 | one unrolled round leaves the registers of the next round and returns x & y for the round after |
| Sha256.FirstStep | chainrand.js:156-161 | the shortcut's new a, new e and a & b are those of round 0 from H(0) |
| Sha256.FourRounds | chainrand.js:155-200 | one pass of the unrolled loop advances the working variables by four rounds and keeps b & c for the next pass |
| Sha256.BitLength | chainrand.js:136-137 | `_hBytes << 3 \| _bytes >>> 29` and `_bytes << 3` are the high and low words of the bit length |
| Sha256.HashOfStep | chainrand.js:108-111 | compressing the full buffer extends the hashed prefix by one block |
| Sha256.SerializeEight | chainrand.js:218-227 | the digest lists the four bytes of H0, then H1, up to H7 |
| Sha256.Hasher.constructor | chainrand.js:56-73 | a fresh hasher holds H(0), an empty buffer and no bytes |
| Sha256.Hasher.Put | chainrand.js:89-102 | `blocks[i >> 2] \|= b << SHIFT[i & 3]` appends byte b to the pending bytes that the buffer words hold |
| Sha256.Hasher.Refill | chainrand.js:79-84 | after a compression, the overflow word becomes word 0 and the buffer is cleared (with `_block` cleared, see Findings) |
| Sha256.Hasher.ResetBlocks | chainrand.js:81-83 | word 0 gets the given word and words 1..16 become zero |
| Sha256.Hasher.PutChar | chainrand.js:87-103 | one character's UTF-8 bytes are appended and the index moves past it |
| Sha256.Hasher.Fill | chainrand.js:86-104 | the inner loop appends the bytes of the characters it passes until the block is full or the message ends |
| Sha256.Hasher.CompressBlock | chainrand.js:108-111 | a full buffer is compressed into h and its overflow bytes stay pending |
| Sha256.Hasher.CompressWords | chainrand.js:141-210 | `hash()` on a buffer holding a block's words extends the hash value by that block |
| Sha256.Hasher.EndBlock | chainrand.js:106-115 | the end of a pass counts its bytes and compresses a full block, keeping the hasher's invariant |
| Sha256.Hasher.UpdateBlock | chainrand.js:78-116 | one outer pass moves the bytes of the characters it consumes into the hashed message |
| Sha256.Hasher.Update | chainrand.js:75-121 | `update` appends the UTF-8 bytes of the message to the hashed message and keeps the invariant |
| Sha256.Hasher.AppendPadByte | chainrand.js:124-127 | the padding byte 0x80 goes right after the pending bytes, at `_lastByteIndex` |
| Sha256.Hasher.LengthBlock | chainrand.js:136-138 | the bit length goes into words 14 and 15 and the last block is compressed |
| Sha256.Hasher.PadBlocks | chainrand.js:128-135 | with 56 or more bytes buffered, the buffer is compressed and a zero block with the length follows |
| Sha256.Hasher.Finalize | chainrand.js:123-139 | h becomes the hash value of the padded message (corrected, see Findings) |
| Sha256.Hasher.ExpandSchedule | chainrand.js:145-152 | the buffer becomes the 64-word message schedule of its first 16 words |
| Sha256.Hasher.Rounds | chainrand.js:154-200 | the loop computes the working variables after the 64 rounds |
| Sha256.Hasher.Hash | chainrand.js:141-210 | h becomes the compression of h with the buffer's first 16 words |
| Sha256.Hasher.Digest | chainrand.js:212-229 | `digest` returns SHA-256 of all bytes fed in (corrected, see Findings) |
| Sha256.Sha256 | chainrand.js:40-233 | `sha256(message)` is SHA-256 of the message's UTF-8 bytes (corrected, see Findings) |
| Sha256Blocks.PutByteWord | chainrand.js:89 | appending a byte changes only word \|p\| / 4, exactly by the OR at slot \|p\| % 4 |
| Sha256Blocks.OverflowWord | chainrand.js:109 | word 16 of a full buffer is word 0 of the bytes past 64 |
| Sha256Blocks.ExtraIsPadByte | chainrand.js:43 | EXTRA[k] is 0x80 shifted into slot k |
| Sha256Blocks.PadTailLength | chainrand.js:128 | the padded tail is one block below 56 pending bytes and two from 56 on |
| Sha256Blocks.PadTailSplit | chainrand.js:123-139 | the padded message is the whole blocks followed by the padded tail |
| Sha256Blocks.PadShape | chainrand.js:123-139 | the padded message starts with the message, then 0x80, then zeros before the length |
| Sha256Blocks.LastBlockLength | chainrand.js:136-137 | words 14 and 15 of the last padded block hold the bit length |
| Sha256Blocks.ShortTail | chainrand.js:124-127 | a one-block tail holds the words of the pending bytes and 0x80 |
| Sha256Blocks.LongTail | chainrand.js:128-135 | a two-block tail has the pending bytes and 0x80 in the first block and zeros before the length in the second |
| Sha256Blocks.Tail | chainrand.js:123-139 | the whole blocks plus the tail that `finalize` writes are the padded message |
| Sha256Blocks.LengthWords | chainrand.js:136-137 | the shifts of `_hBytes` and `_bytes` give the two words of 8L, with L = hBytes * 2^32 + bytes |
| Sha256Blocks.PutWords | chainrand.js:89-102 | after the OR of one byte, the 17 buffer words are those of the pending bytes plus that byte |
| Sha256Blocks.CompressPending | chainrand.js:108-111 | compressing the buffer's first block extends the hash of the blocks before it |
| StaleBlock.ExtraFirstWord | chainrand.js:124-132 | an extra padding block starts exactly when 56 or more bytes are buffered |
| StaleBlock.PassesClear | chainrand.js:79-84 | with `_block` cleared after each compression, it is zero whenever the last pass did not compress |
| StaleBlock.PassesBytes | chainrand.js:78-116 | the passes of `update` keep `_lastByteIndex` equal to the byte count modulo 64: below 64 when uncompressed, 64..67 after a final compression |
| StaleBlock.UpdateBytes | chainrand.js:75-121 | after `update`, `_lastByteIndex` is the UTF-8 length of the message modulo 64 |
| StaleBlock.ClearedExtraWord | chainrand.js:124-132 | corrected: the extra padding block after an uncompressed buffer starts with a zero word |
| StaleBlock.FillPass | chainrand.js:86-104 | three-byte characters that stay below byte 64 only advance the buffer |
| StaleBlock.ExamplePasses | chainrand.js:78-116 | the example message ends its passes uncompressed with 56 bytes buffered, `_block` holding 0xB8AD0000 as written and 0 when cleared |
| StaleBlock.StaleBlockExample | chainrand.js:79-132 | as written, the example's extra padding block starts with 0xB8AD0000 instead of zero |
| AesSpec.XTimeReduces | chainrand.js:346-348 | `xtime` (AesSpec.XTime) is multiplication by x modulo x^8 + x^4 + x^3 + x + 1, taken on 16 bits |
| AesSpec.GfMul2 | chainrand.js:346-348 | xtime is multiplication by {02} in GF(2^8) |
| AesSpec.GfMul3 | chainrand.js:346-348 | multiplication by {03} is xtime plus the byte itself |
| AesSpec.RconPowers | chainrand.js:263 | Rcon[j] is {02}^(j-1), as section 5.2 of FIPS 197 defines it |
| AesSpec.XTimeXor | chainrand.js:346-348 | xtime distributes over XOR |
| AesSpec.SubInverse | chainrand.js:237-255 | the inverse S-box of section 5.3.2 of FIPS 197 undoes the S-box table |
| AesSpec.SubInjective | chainrand.js:237-255 | the S-box table is a permutation: two bytes share an image only when they are equal |
| AesSpec.KeyExpansion | chainrand.js:265-310 | the key schedule is 240 bytes |
| AesSpec.KeyExpansionStartsWithKey | chainrand.js:268-273 | the first 32 schedule bytes are the key |
| AesSpec.SubBytes | chainrand.js:312-315 | SubBytes keeps the 16-byte state size |
| AesSpec.ShiftRows | chainrand.js:322-344 | ShiftRows keeps the 16-byte state size (its bytes: ShiftRowsRule) |
| AesSpec.ShiftRowsRule | chainrand.js:322-344 | row r of column c after ShiftRows is row r of column c + r mod 4; row 0 stays |
| AesSpec.ShiftRowsByteWise | chainrand.js:322-344 | a state holding the row-rotated bytes of s is ShiftRows(s) |
| AesSpec.ShiftRowsInverse | chainrand.js:322-344 | ShiftRows and InvShiftRows undo each other, so ShiftRows permutes the 16 bytes |
| AesSpec.SubShiftCommute | chainrand.js:377-384 | SubBytes commutes with ShiftRows, so the source's order gives the standard rounds |
| AesSpec.AddRoundKey | chainrand.js:317-320 | AddRoundKey needs round key bytes 16r..16r + 15 and keeps the state size |
| AesSpec.AddRoundKeyTwice | chainrand.js:317-320 | adding the same round key twice gives the state back |
| AesSpec.MixRowXTime | chainrand.js:355-358 | one updated byte is xtime(a) ^ xtime(b) ^ b ^ c ^ d |
| AesSpec.MatrixRow | chainrand.js:355-358 | one row of the MixColumns matrix product computed through xtime |
| AesSpec.MixRowStandard | chainrand.js:355-358 | one updated byte (AesSpec.MixRow) is {02}·a ^ {03}·b ^ c ^ d |
| AesSpec.MixColumnStandard | chainrand.js:350-359 | the source's column update (AesSpec.MixColumn) is the circulant matrix product of section 5.1.3 of FIPS 197 |
| AesSpec.MixColumns | chainrand.js:350-360 | MixColumns keeps the 16-byte state size (its columns: MixColumnStandard) |
| AesSpec.Rounds | chainrand.js:374-381 | the initial AddRoundKey and the first r full rounds keep the state size |
| AesSpec.Cipher | chainrand.js:372-385 | AES-256 encryption of a 16-byte block gives 16 bytes |
| Aes.ScheduleStart | chainrand.js:268-273 | schedule words 0..7 are the key's words |
| Aes.ScheduleStep | chainrand.js:275-309 | word i from 8 on is w[i-8] XOR Temp(w[i-1], i) |
| Aes.ExpandedAll | chainrand.js:265-310 | 60 schedule words in place are the 240-byte schedule |
| Aes.SetWord | chainrand.js:305-308 | writing a word sets its four bytes and keeps the bytes before it |
| Aes.ExpandKey | chainrand.js:265-310 | `expandKey` fills roundKey with the AES-256 key schedule of the key (section 5.2 of FIPS 197) |
| Aes.Transform | chainrand.js:276-302 | the four loose bytes are rotated, substituted and XOR-ed with Rcon when i % 8 == 0, substituted when i % 8 == 4, and kept otherwise: the word `temp` of section 5.2 of FIPS 197 (AesSpec.Temp) |
| Aes.NextWord | chainrand.js:275-309 | one iteration of the second loop writes the next schedule word |
| Aes.XorInto | chainrand.js:304-308 | word i becomes word i - 8 XOR the transformed word |
| Aes.ApplySubBytes | chainrand.js:312-315 | `subBytes` turns the state into SubBytes of it |
| Aes.ApplyRoundKey | chainrand.js:317-320 | `addRoundKey` turns the state into AddRoundKey of it; the key array is not written |
| Aes.ApplyShiftRows | chainrand.js:322-344 | `shiftRows` turns the state into ShiftRows of it |
| Aes.RotateLeft | chainrand.js:325-329 | row r moves one column left |
| Aes.RotateRight | chainrand.js:339-343 | row r moves one column right |
| Aes.Swap | chainrand.js:331-337 | two bytes are exchanged |
| Aes.MixedUpTo | chainrand.js:352-359 | the state after n iterations of the column loop |
| Aes.MixedUpToKeeps | chainrand.js:352-359 | mixing the first n columns leaves the bytes from column n on unchanged |
| Aes.MixedUpToNext | chainrand.js:352-359 | iteration n changes only column n |
| Aes.MixedUpToAll | chainrand.js:350-360 | mixing all four columns one at a time is MixColumns |
| Aes.ApplyMixColumns | chainrand.js:350-360 | `mixColumns` turns the state into MixColumns of it |
| Aes.MixColumnLoop | chainrand.js:352-359 | the loop mixes the four columns in turn |
| Aes.MixColumnStep | chainrand.js:352-359 | one iteration extends the mixed prefix by a column |
| Aes.MixColumnAt | chainrand.js:353-358 | iteration i replaces bytes 4i..4i+3 with their mix and keeps every other byte |
| Aes.Encrypt | chainrand.js:374-385 | the block encryption of `self` is AES-256 Cipher with the expanded key |
| Aes.FullRounds | chainrand.js:376-381 | rounds 1..13 of the cipher |
| Aes.FinalRound | chainrand.js:383-385 | the last round without mixColumns |
| Aes.Round | chainrand.js:377-380 | one full round in the source's order |
| KeystreamSpec.LittleEndianBound | chainrand.js:390-396 | n bytes hold a value below 256^n |
| KeystreamSpec.Increment | chainrand.js:390-396 | the carry loop keeps the counter's length |
| KeystreamSpec.IncrementValue | chainrand.js:390-396 | the carry loop adds one to the little-endian value, wrapping 256^n - 1 to 0 |
| KeystreamSpec.CounterIncrement | chainrand.js:390-396 | on the 16-byte counter the carry loop adds one modulo 2^128 |
| KeystreamSpec.Mantissa | chainrand.js:398-406 | the draw integer is below 2^53 |
| KeystreamSpec.MantissaFormula | chainrand.js:398-406 | the source's sum of scaled bytes is the 64-bit little-endian word at the offset without its low 11 bits |
| KeystreamSpec.MantissaSkipsFirstByte | chainrand.js:398-406 | byte `_bufOffset` itself does not reach the draw |
| KeystreamSpec.Uniform | chainrand.js:408 | the returned number is in [0, 1) |
| KeystreamSpec.Init | chainrand.js:257-261 | a new generator has offset 0 and counter 0 |
| KeystreamSpec.NextBlock | chainrand.js:369-396 | a new block keeps the key and the offset, and the feedback equals the new block |
| KeystreamSpec.BlockCounter | chainrand.js:390-396 | each new block moves the counter up by one, modulo 2^128 |
| KeystreamSpec.Step | chainrand.js:364-408 | one call keeps the key, leaves the offset at 8 or 16 and yields an integer below 2^53 |
| KeystreamSpec.Trace | chainrand.js:364-408 | n calls yield n integers below 2^53 and keep the key |
| KeystreamSpec.TraceNext | chainrand.js:364-408 | one more call extends the trace by its state and its integer |
| KeystreamSpec.TwoDrawsPerBlock | chainrand.js:365-407 | two calls read the two halves of one block; only the first makes a block |
| KeystreamSpec.Increments | chainrand.js:390-396 | n runs of the carry loop keep the counter's length |
| KeystreamSpec.IncrementsValue | chainrand.js:390-396 | n blocks move the counter up by n, modulo 2^128 |
| KeystreamSpec.CounterNoRepeat | chainrand.js:390-396 | fewer than 2^128 blocks never bring the counter back to its start |
| Chainrand.Copy | chainrand.js:369-370 | the copy loops make the destination equal to the source |
| Chainrand.KeySchedule | chainrand.js:362 | the round keys are the AES-256 schedule of SHA-256 of the seed's UTF-8 bytes (corrected, see Findings) |
| Chainrand.CarryPrefix | chainrand.js:390-396 | a run of 255s at the front of the counter becomes zeros and carries |
| Chainrand.StopsAt | chainrand.js:391-393 | the carry loop stops at the first byte below 255 and adds one to it |
| Chainrand.AllCarry | chainrand.js:390-396 | a counter of all 255s wraps to zeros |
| Chainrand.Weights | chainrand.js:460-477 | the weights the draw loop uses, and their total |
| Chainrand.ScanLoop | chainrand.js:481-489 | the scan of one draw picks as DistributionSpec.Scan does |
| Chainrand.Pad | chainrand.js:491-495 | the unvisited positions are appended in increasing order, up to k items |
| Chainrand.Complete | chainrand.js:491-495 | the drawn items plus the padding are the items at the corrected collected positions |
| Chainrand.SwapAt | chainrand.js:452-454 | the in-place exchange is Swap on the array's contents |
| Chainrand.Crng.constructor | chainrand.js:257-261 | the new generator's state is Init(seed) (corrected, see Findings) |
| Chainrand.Crng.IncrementCounter | chainrand.js:390-396 | the counter array goes through the carry loop |
| Chainrand.Crng.Refill | chainrand.js:369-396 | a new block is made as NextBlock says |
| Chainrand.Crng.ReadMantissa | chainrand.js:398-406 | the integer built from bytes offset + 1..offset + 7 is Mantissa of the block at the offset |
| Chainrand.Crng.Next | chainrand.js:364-407 | one call of `self` moves the state and yields the integer as Step says |
| Chainrand.Crng.Random | chainrand.js:408-411 | `random()` returns Step's integer over 2^53, a number in [0, 1) |
| Chainrand.Crng.Draw | chainrand.js:364-408 | one call is recorded in the trace of calls since a given state |
| Chainrand.Crng.Randint | chainrand.js:433-447 | no call and null without a number; otherwise one call and Randint of the settled bounds |
| Chainrand.Crng.Randrange | chainrand.js:413-431 | no call and null without a number; otherwise one call and Randrange of the settled range |
| Chainrand.Crng.ShuffleTraced | chainrand.js:450-455 | the loop permutes the array as Shuffled does with its draws, appended to the trace |
| Chainrand.Crng.Shuffle | chainrand.js:449-457 | `shuffle` makes x.length - 1 calls and leaves x as Shuffled of its old contents |
| Chainrand.Crng.DrawLoop | chainrand.js:479-490 | k calls, whose picks and visited marks are those of PickAll |
| Chainrand.Crng.ShuffleItems | chainrand.js:496 | the final shuffle of the collected items |
| Chainrand.Crng.Sample | chainrand.js:459-497 | `sample` returns Sample of its arguments and its draws, with no call for a missing population |
| Chainrand.Crng.Choice | chainrand.js:499-502 | `choice` makes one call and returns Choice of its draw; no call for a missing population |
| DistributionSpec.TimesIsProduct | chainrand.js:430 | repeated addition is the product the source multiplies |
| DistributionSpec.Scale | chainrand.js:430 | floor(n * u) lies in [0, n) for n > 0 |
| DistributionSpec.ScaleIsFloor | chainrand.js:430 | the exact integer quotient is the floor of n times the real draw |
| DistributionSpec.RandintBounds | chainrand.js:433-445 | no number gives null; one number x gives [min(0, x), max(0, x)]; two give the range between them, in either order |
| DistributionSpec.Randint | chainrand.js:446 | the result lies in [lo, hi] |
| DistributionSpec.RandintIsFloor | chainrand.js:446 | the result is floor(lo + (hi + 1 - lo) * u) |
| DistributionSpec.RandintCovers | chainrand.js:446 | every integer of [lo, hi] is reached by some draw when the range has at most 2^53 values |
| DistributionSpec.HitsK | chainrand.js:446 | the smallest draw that reaches k scales to exactly k |
| DistributionSpec.RangeArgs | chainrand.js:413-428 | null only without a number; a single number is the stop from 0; step defaults to 1 and flips sign exactly when stop < start |
| DistributionSpec.Randrange | chainrand.js:429-430 | the result is NaN exactly when the step is 0 |
| DistributionSpec.RandrangeWithin | chainrand.js:413-430 | with a positive or missing step, the result is start plus whole steps towards stop, within the range, and start when the range is shorter than a step |
| DistributionSpec.StepsWithin | chainrand.js:429-430 | the same for a settled range whose step points towards stop |
| DistributionSpec.NegativeStepMovesUp | chainrand.js:426-430 | `randrange(10, 0, -2)` gives 10 plus an even number below 10 |
| DistributionSpec.Swap | chainrand.js:452-454 | a swap keeps the length |
| DistributionSpec.SwapElements | chainrand.js:452-454 | a swap exchanges positions i and j and keeps every other element |
| DistributionSpec.SwapPermutes | chainrand.js:452-454 | a swap is a permutation |
| DistributionSpec.Shuffling | chainrand.js:450-455 | the first rounds of the shuffle loop keep the length |
| DistributionSpec.ShufflingNext | chainrand.js:450-455 | one more round swaps position i with floor((i + 1) * u) |
| DistributionSpec.ShufflingPermutes | chainrand.js:450-455 | every prefix of the shuffle loop is a permutation |
| DistributionSpec.Shuffled | chainrand.js:449-457 | `shuffle` returns a permutation of its input |
| DistributionSpec.ShuffleSingle | chainrand.js:450 | a list of at most one element needs no draw and stays as it is |
| DistributionSpec.ShufflingSettles | chainrand.js:450-455 | round t fixes position n - t for good |
| DistributionSpec.ScanWeights | chainrand.js:460-477 | the first min(n, \|weights\|) weights when they sum above zero, else weight 1 for each item |
| DistributionSpec.SumPositive | chainrand.js:469-472 | the weight total is positive exactly when some weight is, so `weighted` stays true exactly then |
| DistributionSpec.SumBounds | chainrand.js:469-471 | each weight is at most the total |
| DistributionSpec.Scan | chainrand.js:481-489 | the picked item is an unvisited position at or after the scan start |
| DistributionSpec.ScanInterval | chainrand.js:481-489 | item j is picked exactly when it is unvisited and r falls in j's own stretch of the unvisited weight |
| DistributionSpec.ScanFinds | chainrand.js:481-489 | the scan picks something exactly when r is below the remaining weight |
| DistributionSpec.ScanPositive | chainrand.js:481-489 | a picked item has positive weight |
| DistributionSpec.PickOne | chainrand.js:480-489 | one round of the draw loop keeps one visited flag per weight |
| DistributionSpec.PickAll | chainrand.js:479-490 | the draw loop keeps one visited flag per weight |
| DistributionSpec.PickOneKeeps | chainrand.js:480-489 | one round keeps the draw loop's invariant and picks exactly when weight is left |
| DistributionSpec.PickAllPicked | chainrand.js:479-490 | after the draws, the invariant holds, at most one pick per draw, and a draw without a pick means no weight is left |
| DistributionSpec.UnvisitedFacts | chainrand.js:491-495 | the padding positions are exactly the unvisited ones, each once, in increasing order |
| DistributionSpec.Collected | chainrand.js:479-495 | the corrected collected positions are positions of the used weights |
| DistributionSpec.CollectedAsWritten | chainrand.js:491-495 | as written, the collected positions are positions of the used weights |
| DistributionSpec.PaddingApart | chainrand.js:491-495 | padding positions never coincide with drawn ones |
| DistributionSpec.CollectedSize | chainrand.js:479-495 | corrected: exactly min(k, n) distinct positions |
| DistributionSpec.CollectedAsWrittenSize | chainrand.js:491-495 | as written: all n positions whenever fewer than k are drawn, otherwise the corrected result |
| DistributionSpec.NoWeightLeft | chainrand.js:491-495 | no remaining weight means every unvisited position weighs nothing |
| DistributionSpec.PaddingWeighsNothing | chainrand.js:479-495 | a collected position has positive weight exactly when it was drawn rather than padded |
| DistributionSpec.UnweightedNeedsNoPadding | chainrand.js:474-495 | without weights the draws alone pick min(k, n) items, so both paddings agree |
| DistributionSpec.OverfullSample | chainrand.js:491-495 | as written, ['a','b','c'] with k = 2 and weights [1, 0, 0] gives three items; corrected, two |
| DistributionSpec.Elements | chainrand.js:484 | one item per collected position |
| DistributionSpec.WithoutReplacement | chainrand.js:484-486 | items at distinct positions form a sub-multiset of the population |
| DistributionSpec.SamplePositions | chainrand.js:459-495 | the collected positions are positions of the population |
| DistributionSpec.Sample | chainrand.js:459-497 | a sample has min(k, n) items of the population taken without replacement; n is \|population\| without usable weights and min(\|population\|, \|weights\|) with them |
| DistributionSpec.Choice | chainrand.js:499-502 | null exactly for an empty population, otherwise one of its items |
| DistributionSpec.ChoosePosition | chainrand.js:480-489 | position j is chosen exactly when the scaled draw falls in its stretch, so its chance is its weight over the total |
| DistributionSpec.ChoiceUniform | chainrand.js:499-502 | without weights, choice takes the item at floor(n * u) |

## Left out

- `gauss` (chainrand.js:504-528): it needs `Math.sqrt`, `Math.log` and floating-point rejection sampling.
- The UMD wrapper and the `chainrand` export object (chainrand.js:9-21, 533-545): module plumbing.
- `HEX_CHARS` (chainrand.js:42): never used.
- Argument type tests (`isNumber`, `isArray`): each flexible argument is an `Option`, with `None` for anything that is not a number (NaN included) or not an array.
- Non-integer numbers: `randrange`, `randint` and `sample`'s `k` take integers. Weights are natural numbers.
- DistributionSpec.Randint: the value is the floor of the exact product (b + 1 - a) * u. The source rounds the product to a double, and that can reach the next integer even for small ranges: for m = 6004799503160661 = (2^54 - 1) / 3, 3 * u is 2 - 2^-53 exactly, which rounds to 2.0, so `randint(0, 2)` gives 2 where the model gives 1.
- DistributionSpec.Scale: floor((i + 1) * u) and floor(n * u) are taken on the exact product; with the draw above, the rounded double product gives 2 where Scale(3, m) is 1.
- Chainrand.Crng.Randint: inherits the exact product of DistributionSpec.Randint.
- Chainrand.Crng.Shuffle: the swap position floor((i + 1) * u) is exact (DistributionSpec.Scale), so a draw whose rounded product reaches i + 1 swaps a different pair than the source.
- Chainrand.Crng.Sample: the scan value `weightsSum * u` is exact, so a draw whose rounded product crosses a stretch boundary picks the neighbouring item in the source.
- Chainrand.Crng.Choice: as Sample; `choice(['a', 'b', 'c'])` with the draw above gives 'c' in the source and 'b' in the model.
- DistributionSpec.Randrange: the value is exact; the double rounding of `d * u` and of the final sum is not modelled, and the rounded product can reach the next integer as for Randint.
- Chainrand.Crng.Randrange: inherits the exact product of DistributionSpec.Randrange.
- Chainrand.Crng.Sample: the population and the weights are sequences. The final shuffle runs on a fresh array that holds the collected items, so the caller never sees the `collected` array.
- Chainrand.Crng.Sample: the padding stops at k items, the corrected behaviour (see Findings). The as-written padding is modelled and proved about in DistributionSpec.CollectedAsWritten.
- Sha256.Hasher.Refill: clears `_block`, the corrected behaviour (see Findings). The as-written behaviour is modelled in StaleBlock.
- Sha256.Hasher.Finalize: pads as the corrected hasher does. For a message whose passes leave a stale `_block` and 56 or more bytes buffered (such as 40 × U+4E2D), the source's extra block starts with that word, so its digest is not SHA-256.
- Sha256.Hasher.Digest: SHA-256 of the bytes fed in, as the corrected hasher computes it; see Finalize for where the source differs.
- Sha256.Sha256: SHA-256 of the UTF-8 bytes, as the corrected hasher computes it; see Finalize for where the source differs.
- Chainrand.KeySchedule: the key is the corrected SHA-256 of the seed; for a seed that leaves a stale `_block`, the source keys AES with a different digest.
- Chainrand.Crng.constructor: Init(seed) uses the corrected digest; see Chainrand.KeySchedule.
- Sha256.Hasher: only one `update` followed by `digest` is proved to give SHA-256, as `sha256(message)` uses it. `update` after `digest` is not modelled.
- Message lengths: the byte counters are unbounded naturals, so the model holds at any length. The source's counters are doubles, exact up to 2^53 bytes.
- Statistical claims (uniformity, independence) and cryptographic strength: not contracts. `DistributionSpec.ChoosePosition` and `DistributionSpec.RandintCovers` state the exact draw intervals instead.

## Findings

| source | as written | input that shows it | evidently intended | confidence | as-written member | corrected member |
|---|---|---|---|---|---|---|
| chainrand.js:79-132 | after a compression, `update` moves `_block` into word 0 but never clears it; `finalize` later writes it back into word 16 and, with 56 or more bytes buffered, starts the extra padding block with it | seed of 40 × U+4E2D (120 UTF-8 bytes; the 22nd character straddles byte 64): the extra block starts with 0xB8AD0000 instead of 0 | clear `_block` once it has been moved to word 0, so the extra block starts with zeros as section 5.1.1 of FIPS 180-4 requires | high, not executed | StaleBlock.StaleBlockExample | StaleBlock.ClearedExtraWord, Sha256.Hasher.Digest |
| chainrand.js:491-495 | when fewer than k items were drawn, every unvisited item is appended, so the sample can have more than k items | population ['a', 'b', 'c'], k = 2, weights [1, 0, 0]: three items come back | pad with unvisited items only up to k, so the sample has min(k, n) items | medium, not executed | DistributionSpec.OverfullSample | DistributionSpec.CollectedSize, Chainrand.Crng.Sample |
