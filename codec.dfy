/** What `encode` and `decode` promise together: every encoded block is a
    codeword, `decode` inverts `encode` up to trailing zeros, one flipped bit
    per block is corrected, and Extended Hamming detects two. */
module Codec {
  import opened BitArith
  import opened BitStream
  import opened Codes
  import opened Errors
  import opened Slots
  import opened Encoder
  import opened Decoder

  /** A full block whose syndrome is 0 and, for Extended Hamming, whose
      overall parity is even: what `encode` emits. */
  predicate IsCodeword(c: Code, block: seq<bool>)
  {
    WellFormed(c) && |block| == BlockBits(c) && Syndrome(block, Base(c)) == 0
    && (c.EHamming? ==> !Parity(block))
  }

  // ---------------------------------------------------------------------
  // One block

  /** Every block `encode` emits is a codeword. */
  lemma EncodedIsCodeword(c: Code, chunk: seq<bool>)
    requires Supported(c)
    ensures IsCodeword(c, EncodedChunk(c, chunk))
  {
    SupportedDimensions(c);
    EncodedChunkChecks(c, chunk);
  }

  /** Decoding an encoded chunk gives the chunk back, padded with zeros to
      `data_bits`. */
  lemma ChunkRoundTrip(c: Code, chunk: seq<bool>)
    requires Supported(c) && |chunk| <= DataBits(c)
    ensures DecodedChunk(c, EncodedChunk(c, chunk)) == Ok(chunk + Zeros(DataBits(c) - |chunk|))
  {
    EncodedIsCodeword(c, chunk);
    EncodedChunkData(c, chunk);
  }

  /** Single-error correction: flipping any one bit of a codeword (for
      Extended Hamming including slot 0, whose syndrome is 0) decodes to the
      codeword's data, without error. */
  lemma CorrectsSingleError(c: Code, block: seq<bool>, i: nat)
    requires IsCodeword(c, block) && i < |block|
    ensures DecodedChunk(c, Flip(block, i)) == Ok(DataOf(block, Base(c)))
  {
    var base := Base(c);
    var received := Flip(block, i);
    if i + base == 0 {
      SyndromeZeroAccepted(c, block);
    } else {
      SyndromeFlip(block, base, i);
      XorZero(i + base);
      assert Flip(received, i) == block;
      FlipsBack(c, received, i, block);
    }
  }

  /** A chunk whose syndrome names its slot `i` is repaired by flipping bit
      `i`; when that gives `block` (of even parity, for Extended Hamming),
      the chunk decodes to the data of `block`. */
  lemma FlipsBack(c: Code, received: seq<bool>, i: nat, block: seq<bool>)
    requires i < |received| && Syndrome(received, Base(c)) == i + Base(c) != 0
    requires Flip(received, i) == block && (c.EHamming? ==> !Parity(block))
    ensures DecodedChunk(c, received) == Ok(DataOf(block, Base(c)))
  {
    assert ErrorSlot(c, received) == i + Base(c);
    assert Repaired(c, received) == block;
  }

  /** The same, for a block that `encode` produced. */
  lemma EncodedCorrectsSingleError(c: Code, chunk: seq<bool>, i: nat)
    requires Supported(c) && |chunk| <= DataBits(c) && i < BlockBits(c)
    ensures DecodedChunk(c, Flip(EncodedChunk(c, chunk), i)) == Ok(chunk + Zeros(DataBits(c) - |chunk|))
  {
    EncodedIsCodeword(c, chunk);
    CorrectsSingleError(c, EncodedChunk(c, chunk), i);
    EncodedChunkData(c, chunk);
  }

  /** Double-error detection: flipping two distinct bits of an Extended
      Hamming codeword makes the chunk fail with `Error::Decode`. The
      syndrome `i xor j` is not 0 and lies inside the block, and after the
      mistaken correction the overall parity is odd. */
  lemma DetectsDoubleError(c: Code, block: seq<bool>, i: nat, j: nat)
    requires c.EHamming? && IsCodeword(c, block) && i < j < |block|
    ensures DecodedChunk(c, Flip(Flip(block, i), j)) == Err(Error.Decode)
  {
    var once := Flip(block, i);
    var twice := Flip(once, j);
    SyndromeFlip(block, 0, i);
    XorZero(i);
    SyndromeFlip(once, 0, j);
    XorZeroOnlyIfEqual(i, j);
    XorBelow(i, j, c.p - 1);
    ParityFlip(block, i);
    ParityFlip(once, j);
    Rejects(c, twice);
  }

  /** An Extended Hamming chunk whose syndrome names one of its own slots and
      whose parity is still odd after that slot is flipped is rejected. */
  lemma Rejects(c: Code, chunk: seq<bool>)
    requires c.EHamming? && 0 < Syndrome(chunk, 0) < |chunk| && !Parity(chunk)
    ensures DecodedChunk(c, chunk) == Err(Error.Decode)
  {
    ParityFlip(chunk, Syndrome(chunk, 0));
  }

  /** The same, for a block that `encode` produced. */
  lemma EncodedDetectsDoubleError(c: Code, chunk: seq<bool>, i: nat, j: nat)
    requires c.EHamming? && Supported(c) && i < j < BlockBits(c)
    ensures DecodedChunk(c, Flip(Flip(EncodedChunk(c, chunk), i), j)) == Err(Error.Decode)
  {
    EncodedIsCodeword(c, chunk);
    DetectsDoubleError(c, EncodedChunk(c, chunk), i, j);
  }

  /** On a full block the syndrome names a slot inside the block, so the
      `get_mut(..).unwrap()` cannot fail. */
  lemma FullBlockNeverPanics(c: Code, chunk: seq<bool>)
    requires WellFormed(c) && |chunk| == BlockBits(c)
    ensures DecodedChunk(c, chunk) != Panic
  {
    match c
    case Hamming(p) =>
      SyndromeBelow(chunk, 1, p);
    case EHamming(p) =>
      SyndromeBelow(chunk, 0, p - 1);
  }

  /** A short final chunk can make `decode` panic: in a two-bit chunk of
      `Hamming(3)` with both bits set, the syndrome 1 xor 2 = 3 names the
      third bit, which the chunk does not have. */
  lemma ShortChunkMayPanic()
    ensures DecodedChunk(H7_4, [true, true]) == Panic
  {
    var s := [true, true];
    assert s[..1] == [true] && s[..1][..0] == [];
    assert Syndrome(s[..1], 1) == 1 by {
      XorZero(1);
    }
    assert Xor(1, 2) == 3;
  }

  /** A decoded chunk holds one bit per data slot it covers: for Hamming the
      positions `i` with `i + 1` not a power of two, for Extended Hamming those
      with `i` neither 0 nor a power of two. */
  lemma DecodedChunkLength(c: Code, chunk: seq<bool>)
    requires DecodedChunk(c, chunk).Ok?
    ensures |DecodedChunk(c, chunk).value| == DataSlotsBelow(|chunk| + Base(c))
  {
    if ErrorSlot(c, chunk) == 0 {
      DataOfLength(chunk, Base(c));
    } else {
      DataOfLength(Repaired(c, chunk), Base(c));
    }
  }

  /** A full block decodes to exactly `data_bits` bits. */
  lemma FullBlockLength(c: Code, chunk: seq<bool>)
    requires WellFormed(c) && |chunk| == BlockBits(c) && DecodedChunk(c, chunk).Ok?
    ensures |DecodedChunk(c, chunk).value| == DataBits(c)
  {
    DecodedChunkLength(c, chunk);
    match c
    case Hamming(p) =>
      DataSlotsOfPow2(p);
    case EHamming(p) =>
      DataSlotsOfPow2(p - 1);
  }

  /** Extended Hamming accepts a chunk whose syndrome is 0 whatever its overall
      parity: the chunk and the chunk with slot 0 flipped decode alike. */
  lemma SyndromeZeroAccepted(c: Code, chunk: seq<bool>)
    requires c.EHamming? && |chunk| >= 1 && Syndrome(chunk, 0) == 0
    ensures DecodedChunk(c, chunk) == Ok(DataOf(chunk, 0))
    ensures DecodedChunk(c, chunk[0 := !chunk[0]]) == Ok(DataOf(chunk, 0))
  {
    SyndromeIgnoresSlotZero(chunk, !chunk[0]);
    DataOfIgnoresParity(chunk, 0, 0, !chunk[0]);
  }

  // ---------------------------------------------------------------------
  // The whole stream

  /** A stream that starts with a full block decodes that block, then the rest. */
  lemma DecodedBitsBlock(c: Code, block: seq<bool>, rest: seq<bool>)
    requires WellFormed(c) && BlockBits(c) > 0 && |block| == BlockBits(c)
    ensures DecodedBits(c, block + rest) == Chain(DecodedChunk(c, block), DecodedBits(c, rest))
  {
    var n := BlockBits(c);
    assert Min(n, |block + rest|) == n;
    assert (block + rest)[..n] == block;
    assert (block + rest)[n..] == rest;
  }

  /** The Hamming decoder never reports an error: it corrects, mis-corrects,
      or panics on a short final chunk. */
  lemma {:induction false} HammingNeverErr(c: Code, bits: seq<bool>)
    requires c.Hamming? && WellFormed(c) && BlockBits(c) > 0
    ensures !DecodedBits(c, bits).Err?
    decreases |bits|
  {
    if bits != [] {
      var m := Min(BlockBits(c), |bits|);
      HammingNeverErr(c, bits[m..]);
    }
  }

  /** A stream of whole blocks never makes the decoder panic. */
  lemma {:induction false} WholeBlocksNeverPanic(c: Code, bits: seq<bool>)
    requires WellFormed(c) && BlockBits(c) > 0 && |bits| % BlockBits(c) == 0
    ensures DecodedBits(c, bits) != Panic
    decreases |bits|
  {
    if bits != [] {
      var n := BlockBits(c);
      MultipleStep(|bits|, n);
      assert Min(n, |bits|) == n;
      FullBlockNeverPanics(c, bits[..n]);
      WholeBlocksNeverPanic(c, bits[n..]);
    }
  }

  /** At byte level: Hamming never fails with an error, and an input whose
      bit count is a multiple of `block_bits` never panics. */
  lemma DecodedFailures(c: Code, input: seq<byte>)
    requires WellFormed(c) && BlockBits(c) > 0
    ensures c.Hamming? ==> !Decoded(c, input).Err?
    ensures (8 * |input|) % BlockBits(c) == 0 ==> Decoded(c, input) != Panic
  {
    var bits := BytesToBits(input);
    if c.Hamming? {
      HammingNeverErr(c, bits);
    }
    if (8 * |input|) % BlockBits(c) == 0 {
      WholeBlocksNeverPanic(c, bits);
    }
  }

  /** The zeros `encode` appends to the final chunk of a `len`-bit message. */
  function ChunkPadding(len: nat, k: nat): nat
    requires k >= 1
  {
    if len == 0 then 0
    else if len <= k then k - len
    else ChunkPadding(len - k, k)
  }

  /** The padding fills the last chunk: it is less than a chunk, and with it
      the message is a whole number of chunks. */
  lemma {:induction false} ChunkPaddingFills(len: nat, k: nat)
    requires k >= 1
    ensures ChunkPadding(len, k) < k
    ensures len + ChunkPadding(len, k) == CeilDiv(len, k) * k
    decreases len
  {
    if len <= k {
      CeilDivSmall(len, k);
    } else {
      ChunkPaddingFills(len - k, k);
      CeilDivStep(len - k, k);
      MulSucc(CeilDiv(len - k, k), k);
    }
  }

  /** Stream round trip: the encoded blocks of a message, followed by any
      bits `rest`, decode to the message and the final chunk's padding,
      followed by whatever `rest` decodes to. */
  lemma {:induction false} StreamRoundTrip(c: Code, bits: seq<bool>, rest: seq<bool>)
    requires Supported(c)
    ensures DataBits(c) >= 1 && BlockBits(c) > 0
    ensures DecodedBits(c, EncodedBits(c, bits) + rest)
         == Prepend(bits + Zeros(ChunkPadding(|bits|, DataBits(c))), DecodedBits(c, rest))
    decreases |bits|
  {
    SupportedDimensions(c);
    var k := DataBits(c);
    if bits == [] {
      assert EncodedBits(c, bits) + rest == rest;
      assert bits + Zeros(0) == [];
      PrependNothing(DecodedBits(c, rest));
    } else if |bits| <= k {
      EncodedBitsUnfold(c, bits, k);
      ChunkRoundTrip(c, bits);
      DecodedBitsBlock(c, EncodedChunk(c, bits), rest);
    } else {
      EncodedBitsUnfold(c, bits, k);
      var head, tail := bits[..k], bits[k..];
      ChunkRoundTrip(c, head);
      StreamRoundTrip(c, tail, rest);
      var e := tail + Zeros(ChunkPadding(|tail|, k));
      PrependBlock(c, EncodedChunk(c, head), head + Zeros(0), EncodedBits(c, tail), rest, e);
      RejoinPadded(bits, k, ChunkPadding(|tail|, k));
    }
  }

  /** The first `k` bits, unpadded, then the rest padded with `z` zeros. */
  lemma RejoinPadded(bits: seq<bool>, k: nat, z: nat)
    requires k <= |bits|
    ensures (bits[..k] + Zeros(0)) + (bits[k..] + Zeros(z)) == bits + Zeros(z)
  {
    assert bits[..k] + Zeros(0) == bits[..k];
    assert bits[..k] + bits[k..] == bits;
  }

  /** A full block that decodes to `d`, then bits that decode to `e` before
      `rest`: together they decode to `d + e` before `rest`. */
  lemma PrependBlock(c: Code, block: seq<bool>, d: seq<bool>, tail: seq<bool>, rest: seq<bool>, e: seq<bool>)
    requires WellFormed(c) && BlockBits(c) > 0 && |block| == BlockBits(c)
    requires DecodedChunk(c, block) == Ok(d)
    requires DecodedBits(c, tail + rest) == Prepend(e, DecodedBits(c, rest))
    ensures DecodedBits(c, (block + tail) + rest) == Prepend(d + e, DecodedBits(c, rest))
  {
    AppendAssoc(block, tail, rest);
    DecodedBitsBlock(c, block, tail + rest);
    PrependTwice(d, e, DecodedBits(c, rest));
  }

  /** The data slots of clear bits are clear. */
  lemma {:induction false} DataOfZeros(n: nat, base: nat)
    ensures DataOf(Zeros(n), base) == Zeros(|DataOf(Zeros(n), base)|)
  {
    if n > 0 {
      ZerosSplit(n, n - 1);
      DataOfZeros(n - 1, base);
    }
  }

  /** Clear bits decode to clear bits, in whatever chunks they fall. */
  lemma {:induction false} ZerosDecode(c: Code, z: nat)
    requires WellFormed(c) && BlockBits(c) > 0
    ensures DecodedBits(c, Zeros(z)).Ok?
    ensures DecodedBits(c, Zeros(z)).value == Zeros(|DecodedBits(c, Zeros(z)).value|)
    decreases z
  {
    if z > 0 {
      var m := Min(BlockBits(c), z);
      ZerosSplit(z, m);
      ZeroChunk(c, m);
      ZerosDecode(c, z - m);
      ChainZeros(DecodedChunk(c, Zeros(m)), DecodedBits(c, Zeros(z - m)));
    }
  }

  /** A chunk of clear bits decodes to clear bits. */
  lemma ZeroChunk(c: Code, m: nat)
    ensures DecodedChunk(c, Zeros(m)).Ok?
    ensures DecodedChunk(c, Zeros(m)).value == Zeros(|DecodedChunk(c, Zeros(m)).value|)
  {
    SyndromeOfZeros(m, Base(c));
    DataOfZeros(m, Base(c));
  }

  /** Clear bits then clear bits are clear bits. */
  lemma ChainZeros(first: Outcome<seq<bool>>, rest: Outcome<seq<bool>>)
    requires first.Ok? && first.value == Zeros(|first.value|)
    requires rest.Ok? && rest.value == Zeros(|rest.value|)
    ensures Chain(first, rest).Ok? && Chain(first, rest).value == Zeros(|Chain(first, rest).value|)
  {
    ZerosJoin(|first.value|, |rest.value|);
  }

  /** The bits the chunk loop collects from an encoded message: the message
      bits followed by zeros (the last chunk's padding and the decoded
      padding of the last byte). */
  lemma DecodedBitsOfEncoded(c: Code, input: seq<byte>)
    requires Supported(c)
    ensures WellFormed(c) && BlockBits(c) > 0
    ensures DecodedBits(c, BytesToBits(Encoded(c, input))).Ok?
    ensures var data := DecodedBits(c, BytesToBits(Encoded(c, input))).value;
      |data| >= 8 * |input| && data == BytesToBits(input) + Zeros(|data| - 8 * |input|)
  {
    SupportedDimensions(c);
    var bits := BytesToBits(input);
    var blocks := EncodedBits(c, bits);
    var tail := PadLength(|blocks|);
    BitsRoundTrip(blocks);
    StreamRoundTrip(c, bits, Zeros(tail));
    DecodedPadded(c, blocks, bits, ChunkPadding(|bits|, DataBits(c)), tail);
  }

  /** Blocks that decode to `bits` and `pad` zeros, followed by `tail` zeros,
      decode to `bits` followed by zeros. */
  lemma DecodedPadded(c: Code, blocks: seq<bool>, bits: seq<bool>, pad: nat, tail: nat)
    requires WellFormed(c) && BlockBits(c) > 0
    requires DecodedBits(c, blocks + Zeros(tail)) == Prepend(bits + Zeros(pad), DecodedBits(c, Zeros(tail)))
    ensures DecodedBits(c, blocks + Zeros(tail)).Ok?
    ensures var data := DecodedBits(c, blocks + Zeros(tail)).value;
      |data| >= |bits| && data == bits + Zeros(|data| - |bits|)
  {
    ZerosDecode(c, tail);
    PaddedJoin(bits, pad, DecodedBits(c, Zeros(tail)).value);
  }

  /** Byte round trip: for a supported code `decode(encode(input))` succeeds,
      its first `|input|` bytes are `input` and every byte after them is 0. */
  lemma RoundTrip(c: Code, input: seq<byte>)
    requires Supported(c)
    ensures WellFormed(c) && BlockBits(c) > 0
    ensures Decoded(c, Encoded(c, input)).Ok?
    ensures var out := Decoded(c, Encoded(c, input)).value;
      |out| >= |input| && out == input + ZeroBytes(|out| - |input|)
  {
    DecodedBitsOfEncoded(c, input);
    var data := DecodedBits(c, BytesToBits(Encoded(c, input))).value;
    var z := |data| - 8 * |input|;
    DecodedOfBits(c, Encoded(c, input), data);
    PackWithZeros(input, z);
    ZeroTail(input, BitsToBytes(data), (z + 7) / 8);
  }

  /** Bytes that are `input` followed by `w` zero bytes. */
  lemma ZeroTail(input: seq<byte>, out: seq<byte>, w: nat)
    requires out == input + ZeroBytes(w)
    ensures |out| >= |input| && out == input + ZeroBytes(|out| - |input|)
  {
  }

  /** `decode` packs the bits the chunk loop collects. */
  lemma DecodedOfBits(c: Code, bytes: seq<byte>, data: seq<bool>)
    requires WellFormed(c) && BlockBits(c) > 0
    requires DecodedBits(c, BytesToBits(bytes)) == Ok(data)
    ensures Decoded(c, bytes) == Ok(BitsToBytes(data))
  {
  }

  /** Padding with zeros and then with more zeros is padding once. */
  lemma PaddedJoin(bits: seq<bool>, a: nat, extra: seq<bool>)
    requires extra == Zeros(|extra|)
    ensures (bits + Zeros(a)) + extra == bits + Zeros(a + |extra|)
  {
    ZerosJoin(a, |extra|);
    AppendAssoc(bits, Zeros(a), extra);
  }

  /** `e` is a run of whole blocks, each of them a codeword. */
  predicate AllCodewords(c: Code, e: seq<bool>)
    decreases |e|
  {
    WellFormed(c) && BlockBits(c) > 0
    && (e == [] || (|e| >= BlockBits(c) && IsCodeword(c, e[..BlockBits(c)]) && AllCodewords(c, e[BlockBits(c)..])))
  }

  /** The bits `encode` emits for a message are a run of codewords. */
  lemma {:induction false} EncodedAllCodewords(c: Code, bits: seq<bool>)
    requires Supported(c)
    ensures AllCodewords(c, EncodedBits(c, bits))
    decreases |bits|
  {
    SupportedDimensions(c);
    var e := EncodedBits(c, bits);
    if e != [] {
      var m := EncodedBitsSplit(c, bits);
      EncodedAllCodewords(c, bits[m..]);
      EncodedIsCodeword(c, bits[..m]);
      assert e[..BlockBits(c)] == EncodedChunk(c, bits[..m]);
      assert e[BlockBits(c)..] == EncodedBits(c, bits[m..]);
    }
  }

  /** A codeword decodes to its data without any repair. */
  lemma CodewordDecodes(c: Code, block: seq<bool>)
    requires IsCodeword(c, block)
    ensures DecodedChunk(c, block) == Ok(DataOf(block, Base(c)))
  {
  }

  /** The data a run of codewords carries, block after block. */
  function RunData(c: Code, e: seq<bool>): seq<bool>
    requires AllCodewords(c, e)
    decreases |e|
  {
    if e == [] then [] else DataOf(e[..BlockBits(c)], Base(c)) + RunData(c, e[BlockBits(c)..])
  }

  /** A run of codewords in front of any bits `x` decodes to its data without
      error, and `x` is then decoded on its own. */
  lemma {:induction false} CodewordsPrefix(c: Code, e: seq<bool>, x: seq<bool>)
    requires AllCodewords(c, e)
    ensures WellFormed(c) && BlockBits(c) > 0
    ensures DecodedBits(c, e + x) == Prepend(RunData(c, e), DecodedBits(c, x))
    decreases |e|
  {
    if e == [] {
      assert e + x == x;
      PrependNothing(DecodedBits(c, x));
    } else {
      var block, tail := e[..BlockBits(c)], e[BlockBits(c)..];
      assert e == block + tail;
      CodewordsPrefix(c, tail, x);
      CodewordDecodes(c, block);
      PrependBlock(c, block, DataOf(block, Base(c)), tail, x, RunData(c, tail));
    }
  }

  /** Cutting a run of codewords after its first `j` blocks leaves two runs. */
  lemma {:induction false} AllCodewordsSplit(c: Code, e: seq<bool>, j: nat)
    requires AllCodewords(c, e) && Times(j, BlockBits(c)) <= |e|
    ensures AllCodewords(c, e[..Times(j, BlockBits(c))]) && AllCodewords(c, e[Times(j, BlockBits(c))..])
    decreases j
  {
    var n := BlockBits(c);
    if j == 0 {
      assert e[..0] == [] && e[0..] == e;
    } else {
      TimesStep(j - 1, n);
      var a, a' := Times(j, n), Times(j - 1, n);
      AllCodewordsSplit(c, e[n..], j - 1);
      var front := e[..a];
      assert front[..n] == e[..n];
      assert front[n..] == e[n..][..a'];
      assert e[n..][a'..] == e[a..];
    }
  }

  /** Every position `pos` lies in some block `j`. */
  lemma {:induction false} BlockOf(pos: nat, n: nat) returns (j: nat)
    requires n > 0
    ensures Times(j, n) <= pos < Times(j, n) + n
    decreases pos
  {
    if pos < n {
      j := 0;
    } else {
      var j' := BlockOf(pos - n, n);
      TimesStep(j', n);
      j := j' + 1;
    }
  }

  /** A single flipped bit anywhere in a run of codewords, with any bits
      `rest` after them, leaves the decoded stream unchanged: the block
      holding it is corrected and every other block is untouched. */
  lemma CodewordsCorrectSingleError(c: Code, e: seq<bool>, rest: seq<bool>, pos: nat)
    requires AllCodewords(c, e) && pos < |e|
    ensures WellFormed(c) && BlockBits(c) > 0
    ensures DecodedBits(c, Flip(e, pos) + rest) == DecodedBits(c, e + rest)
  {
    var j := BlockOf(pos, BlockBits(c));
    var a := Times(j, BlockBits(c));
    var i := pos - a;
    AllCodewordsSplit(c, e, j);
    FlipInFirstCodeword(c, e[a..], rest, i);
    FlipPast(e, a, pos, i, rest);
    SplitAt(e, a, rest);
    CodewordsPrefix(c, e[..a], Flip(e[a..], i) + rest);
    CodewordsPrefix(c, e[..a], e[a..] + rest);
  }

  /** Two flipped bits in the same block (the `j`-th) of a run of Extended
      Hamming codewords make the whole stream fail with a decode error: the
      blocks before it decode, and that block is rejected. */
  lemma CodewordsDetectDoubleError(c: Code, e: seq<bool>, rest: seq<bool>, j: nat, p: nat, q: nat)
    requires c.EHamming? && AllCodewords(c, e) && q < |e|
    requires Times(j, BlockBits(c)) <= p < q < Times(j, BlockBits(c)) + BlockBits(c)
    ensures WellFormed(c) && BlockBits(c) > 0
    ensures DecodedBits(c, Flip(Flip(e, p), q) + rest) == Err(Error.Decode)
  {
    var a := Times(j, BlockBits(c));
    var i, k := p - a, q - a;
    AllCodewordsSplit(c, e, j);
    TwoFlipsInFirstCodeword(c, e[a..], rest, i, k);
    TwoFlipsPast(e, a, p, q, i, k, rest);
    CodewordsPrefix(c, e[..a], Flip(Flip(e[a..], i), k) + rest);
    PrependFailure(RunData(c, e[..a]), DecodedBits(c, Flip(Flip(e[a..], i), k) + rest));
  }

  /** Data in front of a failure is lost: the failure is the result. */
  lemma PrependFailure(d: seq<bool>, rest: Outcome<seq<bool>>)
    requires !rest.Ok?
    ensures Prepend(d, rest) == rest
  {
  }

  /** A flip in the first block of a run of codewords is corrected. */
  lemma FlipInFirstCodeword(c: Code, e: seq<bool>, rest: seq<bool>, i: nat)
    requires AllCodewords(c, e) && i < BlockBits(c) && i < |e|
    ensures WellFormed(c) && BlockBits(c) > 0
    ensures DecodedBits(c, Flip(e, i) + rest) == DecodedBits(c, e + rest)
  {
    DecodedFlipFirst(c, e, rest, i);
    CorrectsSingleError(c, e[..BlockBits(c)], i);
    CodewordDecodes(c, e[..BlockBits(c)]);
    DecodedSplit(c, e, rest);
  }

  /** Two flips in the first block of a run of Extended Hamming codewords
      are rejected. */
  lemma TwoFlipsInFirstCodeword(c: Code, e: seq<bool>, rest: seq<bool>, p: nat, q: nat)
    requires c.EHamming? && AllCodewords(c, e) && p < q < BlockBits(c) && q < |e|
    ensures WellFormed(c) && BlockBits(c) > 0
    ensures DecodedBits(c, Flip(Flip(e, p), q) + rest) == Err(Error.Decode)
  {
    DecodedTwoFlipsFirst(c, e, rest, p, q);
    DetectsDoubleError(c, e[..BlockBits(c)], p, q);
  }

  /** Stream-level single-error correction: one flipped bit anywhere in the
      encoded blocks of a message decodes as the unflipped stream does. */
  lemma StreamCorrectsSingleError(c: Code, bits: seq<bool>, rest: seq<bool>, pos: nat)
    requires Supported(c) && pos < |EncodedBits(c, bits)|
    ensures BlockBits(c) > 0
    ensures DecodedBits(c, Flip(EncodedBits(c, bits), pos) + rest) == DecodedBits(c, EncodedBits(c, bits) + rest)
  {
    EncodedAllCodewords(c, bits);
    CodewordsCorrectSingleError(c, EncodedBits(c, bits), rest, pos);
  }

  /** Stream-level double-error detection: two flipped bits in the same
      encoded block (the `j`-th) of an Extended Hamming stream make it fail
      with a decode error. */
  lemma StreamDetectsDoubleError(c: Code, bits: seq<bool>, rest: seq<bool>, j: nat, p: nat, q: nat)
    requires c.EHamming? && Supported(c) && q < |EncodedBits(c, bits)|
    requires Times(j, BlockBits(c)) <= p < q < Times(j, BlockBits(c)) + BlockBits(c)
    ensures BlockBits(c) > 0
    ensures DecodedBits(c, Flip(Flip(EncodedBits(c, bits), p), q) + rest) == Err(Error.Decode)
  {
    EncodedAllCodewords(c, bits);
    CodewordsDetectDoubleError(c, EncodedBits(c, bits), rest, j, p, q);
  }

  /** Bits that start with a full block, then `rest`: that block decodes
      first, then everything after it. */
  lemma DecodedSplit(c: Code, e: seq<bool>, rest: seq<bool>)
    requires WellFormed(c) && 0 < BlockBits(c) <= |e|
    ensures DecodedBits(c, e + rest) == Chain(DecodedChunk(c, e[..BlockBits(c)]), DecodedBits(c, e[BlockBits(c)..] + rest))
  {
    var n := BlockBits(c);
    assert e + rest == e[..n] + (e[n..] + rest);
    DecodedBitsBlock(c, e[..n], e[n..] + rest);
  }

  /** A flip inside the first full block is decoded with that block. */
  lemma DecodedFlipFirst(c: Code, e: seq<bool>, rest: seq<bool>, pos: nat)
    requires WellFormed(c) && 0 < BlockBits(c) <= |e| && pos < BlockBits(c)
    ensures DecodedBits(c, Flip(e, pos) + rest)
         == Chain(DecodedChunk(c, Flip(e[..BlockBits(c)], pos)), DecodedBits(c, e[BlockBits(c)..] + rest))
  {
    var n := BlockBits(c);
    DecodedSplit(c, Flip(e, pos), rest);
    assert Flip(e, pos)[..n] == Flip(e[..n], pos);
    assert Flip(e, pos)[n..] == e[n..];
  }

  /** Two flips inside the first full block are decoded with that block. */
  lemma DecodedTwoFlipsFirst(c: Code, e: seq<bool>, rest: seq<bool>, p: nat, q: nat)
    requires WellFormed(c) && 0 < BlockBits(c) <= |e| && p < q < BlockBits(c)
    ensures DecodedBits(c, Flip(Flip(e, p), q) + rest)
         == Chain(DecodedChunk(c, Flip(Flip(e[..BlockBits(c)], p), q)), DecodedBits(c, e[BlockBits(c)..] + rest))
  {
    var n := BlockBits(c);
    DecodedSplit(c, Flip(Flip(e, p), q), rest);
    assert Flip(Flip(e, p), q)[..n] == Flip(Flip(e[..n], p), q);
    assert Flip(Flip(e, p), q)[n..] == e[n..];
  }

  /** Byte-level single-error correction: if the bits `received` carries are
      those of `encode(input)` with one bit inside the encoded blocks flipped
      (the final byte's padding bits are outside them), `decode` gives the same
      answer as on `encode(input)` itself. */
  lemma CorrectsSingleErrorBytes(c: Code, input: seq<byte>, received: seq<byte>, pos: nat)
    requires Supported(c) && pos < |EncodedBits(c, BytesToBits(input))|
    requires BytesToBits(received) == Flip(BytesToBits(Encoded(c, input)), pos)
    ensures BlockBits(c) > 0
    ensures Decoded(c, received) == Decoded(c, Encoded(c, input))
  {
    var e := EncodedBits(c, BytesToBits(input));
    var z := Zeros(PadLength(|e|));
    BitsRoundTrip(e);
    FlipLeft(e, z, pos);
    StreamCorrectsSingleError(c, BytesToBits(input), z, pos);
  }

  /** Byte-level double-error detection for an extended code: two flipped
      bits inside the same encoded block (the `j`-th) of `encode(input)` make
      `decode` fail with a decode error. */
  lemma DetectsDoubleErrorBytes(c: Code, input: seq<byte>, received: seq<byte>, j: nat, p: nat, q: nat)
    requires c.EHamming? && Supported(c) && q < |EncodedBits(c, BytesToBits(input))|
    requires Times(j, BlockBits(c)) <= p < q < Times(j, BlockBits(c)) + BlockBits(c)
    requires BytesToBits(received) == Flip(Flip(BytesToBits(Encoded(c, input)), p), q)
    ensures BlockBits(c) > 0
    ensures Decoded(c, received) == Err(Error.Decode)
  {
    var e := EncodedBits(c, BytesToBits(input));
    var z := Zeros(PadLength(|e|));
    BitsRoundTrip(e);
    FlipLeft(e, z, p);
    FlipLeft(Flip(e, p), z, q);
    StreamDetectsDoubleError(c, BytesToBits(input), z, j, p, q);
  }
}
