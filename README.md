# Hamming / Extended Hamming codec — a Dafny model

This project models the core of a bit-level forward-error-correction codec for
the Hamming(2^p − 1, 2^p − 1 − p) codes and their Extended Hamming
(2^(p−1), 2^(p−1) − p) companions, and proves the classic properties of the
code about that model.

- `code.dfy` (module `Codes`): the code descriptor `Code = Hamming(p) | EHamming(p)`,
  its dimensions `BlockBits`, `DataBits`, `ParityBits`, the parser
  `FromBlockSize` and the six named codes.
- `arith.dfy` (module `BitArith`): powers of two, `is_power_of_two`, `ilog2`,
  exclusive or and the single-bit test `v & idx != 0` on unbounded naturals.
- `bitstream.dfy` (module `BitStream`): `BitVec<u8, Lsb0>` as `seq<bool>`, the
  least-significant-bit-first conversions `BytesToBits` / `BitsToBytes`, and
  the three queries the codec makes of a run of bits: the xor of the indices
  of its set bits (`Syndrome`), its overall parity, and a single bit flip.
- `slots.dfy` (module `Slots`): the slot layout of a block — slot 0 and the
  power-of-two slots are parity, every other slot carries data.
- `encode.dfy` (module `Encoder`): `encode`. The method `Encode` runs the loop
  over the input chunks; `EncodeChunk` builds the slot buffer (`LayOut`), runs
  the `while idx < block_bits` parity loop, and drops slot 0 (Hamming) or
  stores the overall parity in it (Extended Hamming). Each method is proved
  equal to a specification function (`EncodedChunk`, `EncodedBits`, `Encoded`).
- `decode.dfy` (module `Decoder`): `decode`. The method `Decode` copies the
  input bits into an array, and `DecodeChunk` corrects each chunk of it in
  place, returning the chunk's data bits, `Err(Decode)` or a panic. The
  specification functions are `DecodedChunk`, `DecodedBits`, `Decoded`.
- `error.dfy` (module `Errors`): the one-variant error type and the outcome
  `Ok | Err | Panic` of a call.
- `codec.dfy` (module `Codec`): the theorems relating encoder and decoder —
  every emitted block is a codeword, byte-level round trip, single-error
  correction, Extended Hamming double-error detection, and when the decoder
  can fail.

Two behaviours of the decoder on a short final chunk (the last `chunks_mut`
slice of a stream whose length is not a whole number of blocks) are modelled
as the code has them:

- A short final chunk whose syndrome names a slot past its end makes
  `get_mut(..).unwrap()` panic (src/decode.rs:23, src/decode.rs:36). The model
  returns `Panic`, distinct from `Err(Decode)`, and proves that it can happen
  (`Codec.ShortChunkMayPanic`).
- A short final chunk is not padded with zeros before decoding: the syndrome
  is the xor over the bits present, and only the data slots that the chunk
  covers are pushed to the output (`Codec.DecodedChunkLength`).

## Model

The table lists the members whose contracts state a property of the source.
The definitions they are stated about are `Codes.BlockBits`
(src/code.rs:35-40), `Codes.DataBits` (src/code.rs:43-48), `Codes.ParityBits`
(src/code.rs:51-54), `Codes.FromBlockSize` (src/code.rs:22-32),
`BitStream.BitsToBytes` (`into_vec`, src/encode.rs:50 and src/decode.rs:56),
`Encoder.EncodedChunk` (one iteration of the loop at src/encode.rs:8-48),
`Encoder.EncodedBits`, `Decoder.DecodedChunk` (one iteration of the loop at
src/decode.rs:8-55) and `Decoder.DecodedBits`.

| member | source | states |
|---|---|---|
| `Codes.Dimensions` | src/code.rs:35-54 | `parity_bits` is the carried `p` for both variants, and `block_bits == data_bits + parity_bits` |
| `Codes.SupportedDimensions` | src/code.rs:35-48 | for Hamming p ≥ 2 and Extended Hamming p ≥ 3, `0 < data_bits < block_bits` |
| `Codes.FamiliesInterleave` | src/code.rs:35-40 | `EHamming(p + 1)` has one more block bit than `Hamming(p)` |
| `Codes.NamedCodes` | src/code.rs:1-6 | the six named codes have (block, data, parity) = (3,1,2), (7,4,3), (15,11,4), (4,1,3), (8,4,4), (16,11,5), as the tests at src/code.rs:74-102 check |
| `Codes.FromBlockSizeSound` | src/code.rs:22-32 | whatever `from_block_size(b)` returns is a supported code whose `block_bits` is `b` |
| `Codes.FromBlockSizeComplete` | src/code.rs:22-32 | parsing the block size of any supported code gives that code back |
| `Codes.ParseAllOnes` | src/code.rs:27-28 | a size `2^p - 1` (p ≥ 2) is not a power of two and parses as `Hamming(p)` |
| `Codes.ParsePowerOfTwo` | src/code.rs:25-26 | a size `2^q` (q ≥ 2) parses as `EHamming(q + 1)` |
| `Codes.FromBlockSizeNone` | src/code.rs:23-31 | `from_block_size(b)` is `None` exactly when no supported code has `b` block bits, in particular for every `b < 3` |
| `Codes.FromBlockSizeExamples` | src/code.rs:61-72 | the parses of 0 to 8 that the source's own tests check |
| `BitArith.PowerOfTwoIsPow2` | src/code.rs:25 | `is_power_of_two(n)` holds exactly when `n` is 2 raised to its `ilog2` |
| `BitArith.HasBitAt` | src/encode.rs:32 | the test `flips & 2^k != 0` reads binary digit `k` of `flips` |
| `BitStream.BitOrder` | src/encode.rs:6 | stream bit `i` is bit `i % 8`, counted from the least significant, of byte `i / 8` |
| `BitStream.BytesToBits` | src/encode.rs:6 | a byte buffer views as eight bits per byte |
| `BitStream.BytesRoundTrip` | src/encode.rs:6 | viewing bytes as bits and packing them back gives the bytes |
| `BitStream.BitsRoundTrip` | src/encode.rs:50 | packing bits into bytes and viewing them again gives the bits followed by the zero padding of the last byte |
| `BitStream.PackWithZeros` | src/decode.rs:56 | bytes' bits followed by zero bits pack to those bytes followed by zero bytes |
| `BitStream.SyndromeFlip` | src/decode.rs:17-24 | flipping bit `i` changes the xor of set indices by exactly `i + base` |
| `BitStream.ParityFlip` | src/decode.rs:42 | flipping any one bit inverts the overall parity fold |
| `BitStream.SyndromeShift` | src/decode.rs:17-21 | the Hamming decoder's `x + 1` indexing of a block equals the encoder's slot indexing with slot 0 dropped |
| `BitStream.SyndromeBelow` | src/decode.rs:17-21 | when every index `i + base` is below 2^k, so is their xor |
| `Slots.DataOfLength` | src/decode.rs:27-31 | a run of bits yields one data bit per data slot it covers |
| `Slots.DataSlotsOfPow2` | src/encode.rs:19-25 | of 2^q slots, all but slot 0 and the q powers of two carry data |
| `Encoder.SlotCount` | src/encode.rs:12-15 | `block_size_pow_2` is `block_bits + 1` for Hamming, `block_bits` for Extended Hamming, and a power of two |
| `Encoder.Encode` | src/encode.rs:5-51 | `encode` returns `Ok` of the packed concatenation of the encoded blocks of the input's chunks |
| `Encoder.EncodeChunk` | src/encode.rs:9-48 | the loop body yields `EncodedChunk` of its chunk: slot layout, parity loop, then dropping or filling slot 0 |
| `Encoder.LayOut` | src/encode.rs:19-26 | the slot loop puts the chunk, padded with `false`, into the data slots and clears the parity slots; the chunk is used up, so the `assert!` holds |
| `Encoder.DataSlotsOfCode` | src/encode.rs:19-26 | the slot buffer has exactly `data_bits` data slots |
| `Encoder.ParityLoopBound` | src/encode.rs:31 | `while idx < block_bits` visits exactly the powers of two below the slot count |
| `Encoder.WithParitySyndrome` | src/encode.rs:30-36 | after visiting 2^0 .. 2^(t-1) the parity loop has xored the low `t` bits of `flips` into the syndrome |
| `Encoder.ParitySlotsSyndrome` | src/encode.rs:29-36 | after the parity loop the xor of the indices of all set slots is 0, and slot 0 is still clear |
| `Encoder.EncodedChunkChecks` | src/encode.rs:29-47 | every emitted block has syndrome 0 and, for Extended Hamming, even overall parity |
| `Encoder.HammingScratchSlot` | src/encode.rs:40-42 | for Hamming the scratch slot 0 is always clear and the emitted block is slots 1 .. m-1 |
| `Encoder.EncodedChunkData` | src/encode.rs:19-25 | reading an encoded block's data slots in ascending order gives the chunk followed by padding zeros |
| `Encoder.EncodedBitsLength` | src/encode.rs:8-48 | the output has ceil(bits / data_bits) blocks of `block_bits` bits; an empty input gives an empty output |
| `Encoder.EncodedLength` | src/encode.rs:5-51 | the output is ceil(ceil(8·len / data_bits)·block_bits / 8) bytes, and empty for an empty input |
| `Encoder.EncodedBitsAppend` | src/encode.rs:8-48 | encoding a message whose length is a whole number of chunks and then more bits is encoding each part and concatenating |
| `Encoder.EncodedBlockOrder` | src/encode.rs:8-48 | block `j` of the output is the encoding of chunk `j` alone |
| `Decoder.Decode` | src/decode.rs:5-57 | `decode` returns `Decoded`: the packed data bits of the corrected chunks, or the first chunk's failure |
| `Decoder.DecodeChunk` | src/decode.rs:15-53 | the loop body flips in place only the bit the syndrome names and returns `DecodedChunk` of the chunk |
| `BitStream.ChunkSyndrome` | src/decode.rs:17-21 | the `iter_ones` xor fold computes the syndrome, 0 for no set bit; with base 0 it is also the encoder's `flips` (src/encode.rs:29) |
| `BitStream.ChunkParity` | src/decode.rs:42 | the `fold` computes the overall parity; it is also the value the encoder stores in slot 0 (src/encode.rs:44) |
| `Decoder.ChunkData` | src/decode.rs:27-31 | the push loop collects exactly the bits outside parity slots, in order |
| `Codec.EncodedIsCodeword` | src/encode.rs:29-47 | every block `encode` emits is a codeword |
| `Codec.ChunkRoundTrip` | src/decode.rs:15-53 | a block `encode` emits decodes to its chunk padded with zeros |
| `Codec.CorrectsSingleError` | src/decode.rs:15-53 | flipping any one bit of a codeword, including Extended Hamming's slot 0, decodes to the codeword's data without error |
| `Codec.EncodedCorrectsSingleError` | src/decode.rs:22-45 | flipping any one bit of an encoded block decodes to the original chunk |
| `Codec.DetectsDoubleError` | src/decode.rs:34-44 | flipping two distinct bits of an Extended Hamming codeword makes the chunk fail with `Err(Decode)` |
| `Codec.EncodedDetectsDoubleError` | src/decode.rs:34-44 | the same for every block `encode` emits |
| `Codec.Rejects` | src/decode.rs:35-44 | a chunk whose syndrome names one of its slots and whose parity is even before the flip is rejected |
| `Codec.FullBlockNeverPanics` | src/decode.rs:22-37 | on a full-length block the syndrome lies inside the block, so `get_mut(..).unwrap()` cannot fail |
| `Codec.ShortChunkMayPanic` | src/decode.rs:8-24 | a short final chunk can name a slot past its end: `[true, true]` under `Hamming(3)` panics |
| `Codec.DecodedChunkLength` | src/decode.rs:27-51 | a chunk yields one bit per covered data position: `i + 1` not a power of two for Hamming, `i` neither 0 nor a power of two for Extended Hamming |
| `Codec.FullBlockLength` | src/decode.rs:27-51 | a full block yields exactly `data_bits` bits |
| `Codec.SyndromeZeroAccepted` | src/decode.rs:34-45 | Extended Hamming accepts a syndrome-0 chunk whatever its overall parity |
| `Codec.HammingNeverErr` | src/decode.rs:16-32 | the Hamming branch never returns `Err` |
| `Codec.WholeBlocksNeverPanic` | src/decode.rs:8-24 | a stream of whole blocks never makes the decoder panic |
| `Codec.DecodedFailures` | src/decode.rs:5-57 | at byte level: Hamming never errs, and an input of whole blocks never panics |
| `Codec.ZerosDecode` | src/decode.rs:8-55 | clear bits decode to clear bits, however they are chunked |
| `Codec.StreamRoundTrip` | src/decode.rs:8-55 | encoded blocks followed by any bits decode to the message, the final chunk's padding, then whatever the rest decodes to |
| `Codec.EncodedAllCodewords` | src/encode.rs:8-48 | the whole encoder output is a run of codewords, one per block |
| `Codec.CodewordsPrefix` | src/decode.rs:8-55 | a run of codewords followed by any bits decodes to the runs' data bits followed by whatever the rest decodes to |
| `Codec.CodewordsCorrectSingleError` | src/decode.rs:8-55 | flipping any one bit of a run of codewords, whatever follows it, leaves the decoder's result unchanged |
| `Codec.CodewordsDetectDoubleError` | src/decode.rs:33-45 | flipping two distinct bits inside one Extended Hamming codeword of a run makes the whole stream fail with `Err(Decode)`, whatever follows it |
| `Codec.StreamCorrectsSingleError` | src/decode.rs:8-55 | flipping any one bit of the encoder's output leaves the decoder's result on it, and on anything appended to it, unchanged |
| `Codec.StreamDetectsDoubleError` | src/decode.rs:33-45 | flipping two distinct bits inside one block of an Extended Hamming encoding makes decoding fail with `Err(Decode)` |
| `Codec.CorrectsSingleErrorBytes` | src/decode.rs:5-57 | at byte level, `decode` of `encode(B)` with any one encoded bit flipped returns what `decode(encode(B))` returns |
| `Codec.DetectsDoubleErrorBytes` | src/decode.rs:5-57 | at byte level, for Extended Hamming, two flips inside one encoded block make `decode` return `Err(Decode)` |
| `Codec.RoundTrip` | src/decode.rs:5-57 | `decode(encode(B))` is `Ok`, its first `len(B)` bytes are `B` and every byte after them is 0 |

## Left out

- The command-line drivers (src/main.rs): standard input and output, argument parsing and `unwrap` on errors are I/O only.
- The bit-flip injector (src/bin/error.rs): random and floating-point driven test tooling, not part of the codec.
- src/lib.rs holds only module wiring and a compiler feature flag.
- The internals of the `bitvec` crate: a `BitVec<u8, Lsb0>` is a `seq<bool>`, and its conversions are the explicit `BytesToBits` / `BitsToBytes`. `BitsToBytes` fills the unused high bits of the last byte with zeros; the model takes this to be what `into_vec` leaves there, which `bitvec` does not guarantee.
- Fixed-width overflow: dimensions are unbounded naturals, so the `u32` overflow of `b + 1` and of `2u32.pow(p)` is not modelled.
- Encoder.Encode: requires a supported code, because `chunks(data_bits)` panics when `data_bits` is 0, which it is for every other well-formed code; the panic itself is not modelled.
- Decoder.Decode: requires `block_bits > 0` and `p >= 1` for Extended Hamming, because `chunks_mut(0)` panics and `p - 1` underflows otherwise; those panics are not modelled.
- Allocation capacities (`with_capacity`) have no observable effect and are not modelled.
