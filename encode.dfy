/** `encode`: cut the message bits into chunks of `data_bits`, lay each chunk
    into the data slots of a power-of-two slot buffer, set the parity slots
    that cancel the xor of the set slots' indices, and emit the block. */
module Encoder {
  import opened BitArith
  import opened BitStream
  import opened Codes
  import opened Errors
  import opened Slots

  /** log2 of `block_size_pow_2`. */
  function SlotLog(c: Code): nat
    requires WellFormed(c)
  {
    match c
    case Hamming(p) => p
    case EHamming(p) => p - 1
  }

  /** `block_size_pow_2`: `block_bits + 1` slots for Hamming (slot 0 is a
      scratch slot), `block_bits` for Extended Hamming; a power of two. */
  function SlotCount(c: Code): (m: nat)
    requires WellFormed(c)
    ensures m == Pow2(SlotLog(c))
    ensures m == BlockBits(c) + (if c.Hamming? then 1 else 0)
  {
    match c
    case Hamming(_) => BlockBits(c) + 1
    case EHamming(_) => BlockBits(c)
  }

  /** Slot `i` before parity is computed: parity slots clear, the `d`-th data
      slot holding chunk bit `d`, or `false` once the chunk is used up
      (`in_chunk.next().unwrap_or(false)`). */
  function LaidOut(chunk: seq<bool>, i: nat): bool
  {
    if IsParitySlot(i) then false
    else
      var d := DataSlotsBelow(i);
      if d < |chunk| then chunk[d] else false
  }

  /** The first `m` slots of the buffer before parity is computed. */
  function Spread(chunk: seq<bool>, m: nat): (r: seq<bool>)
    ensures |r| == m
  {
    seq(m, i requires 0 <= i < m => LaidOut(chunk, i))
  }

  /** The buffer after the parity loop has visited slots 1, 2, ..., 2^(t-1):
      each visited slot is set when `flips` has that bit. */
  function WithParity(s: seq<bool>, flips: nat, t: nat): (r: seq<bool>)
    requires t == 0 || Pow2(t - 1) < |s|
    ensures |r| == |s|
    decreases t
  {
    if t == 0 then s
    else
      var r := WithParity(s, flips, t - 1);
      if BitAt(flips, t - 1) then r[Pow2(t - 1) := true] else r
  }

  /** The full slot buffer for one chunk once every parity slot is set,
      before slot 0 is filled. */
  function ParitySlots(c: Code, chunk: seq<bool>): (r: seq<bool>)
    requires Supported(c)
    ensures |r| == SlotCount(c)
  {
    var m := SlotCount(c);
    var laid := Spread(chunk, m);
    Pow2StrictlyMonotone(SlotLog(c) - 1, SlotLog(c));
    WithParity(laid, Syndrome(laid, 0), SlotLog(c))
  }

  /** The block `encode` emits for one chunk. */
  function EncodedChunk(c: Code, chunk: seq<bool>): (r: seq<bool>)
    requires Supported(c)
    ensures |r| == BlockBits(c)
  {
    var slots := ParitySlots(c, chunk);
    match c
    case Hamming(_) => slots[1..]
    case EHamming(_) => slots[0 := Parity(slots)]
  }

  /** The concatenated blocks for a message: chunk `j` is bits
      `j * data_bits ..`, the last chunk possibly short. */
  function EncodedBits(c: Code, bits: seq<bool>): seq<bool>
    requires Supported(c)
    decreases |bits|
  {
    if bits == [] then []
    else
      SupportedDimensions(c);
      var k := Min(DataBits(c), |bits|);
      EncodedChunk(c, bits[..k]) + EncodedBits(c, bits[k..])
  }

  /** The output bytes of `encode`. */
  function Encoded(c: Code, input: seq<byte>): seq<byte>
    requires Supported(c)
  {
    BitsToBytes(EncodedBits(c, BytesToBits(input)))
  }

  /** `encode`: never fails for a supported code. */
  method Encode(input: seq<byte>, c: Code) returns (r: Outcome<seq<byte>>)
    requires Supported(c)
    ensures r == Ok(Encoded(c, input))
  {
    var bits := BytesToBits(input);
    var output: seq<bool> := [];
    SupportedDimensions(c);
    var k := DataBits(c);
    var start := 0;
    while start < |bits|
      invariant start <= |bits|
      invariant output + EncodedBits(c, bits[start..]) == EncodedBits(c, bits)
      decreases |bits| - start
    {
      var end := if |bits| - start < k then |bits| else start + k;
      EncodedBitsStep(c, bits, start, end, output);
      var block := EncodeChunk(c, bits[start..end]);
      output := output + block;
      start := end;
    }
    assert bits[start..] == [];
    assert output == EncodedBits(c, bits);
    r := Ok(BitsToBytes(output));
  }

  /** The chunk `bits[start..end]` contributes the next block of the output. */
  lemma EncodedBitsStep(c: Code, bits: seq<bool>, start: nat, end: nat, done: seq<bool>)
    requires Supported(c) && start < |bits|
    requires end == if |bits| - start < DataBits(c) then |bits| else start + DataBits(c)
    ensures start < end <= |bits| && end - start <= DataBits(c)
    ensures EncodedBits(c, bits[start..]) == EncodedChunk(c, bits[start..end]) + EncodedBits(c, bits[end..])
    ensures done + EncodedBits(c, bits[start..]) == (done + EncodedChunk(c, bits[start..end])) + EncodedBits(c, bits[end..])
  {
    var k := DataBits(c);
    EncodedBitsUnfold(c, bits[start..], k);
    NextChunk(bits, start, end, k);
    if |bits| - start <= k {
      assert EncodedChunk(c, bits[start..end]) + [] == EncodedChunk(c, bits[start..end]);
    }
    AppendAssoc(done, EncodedChunk(c, bits[start..end]), EncodedBits(c, bits[end..]));
  }

  /** The body of the loop over `input.chunks(data_bits)`: lay the chunk
      out, set the parity slots, then drop slot 0 (Hamming) or store the
      overall parity in it (Extended Hamming). */
  method EncodeChunk(c: Code, chunk: seq<bool>) returns (block: seq<bool>)
    requires Supported(c) && |chunk| <= DataBits(c)
    ensures block == EncodedChunk(c, chunk)
  {
    var outChunk := LayOut(c, chunk);
    ghost var laid := outChunk;
    var m := |outChunk|;
    // Set the parity slots that cancel the xor of the set slots' indices.
    var flips := ChunkSyndrome(outChunk, 0);
    var idx := 1;
    ghost var t := 0;
    while idx < BlockBits(c)
      invariant idx == Pow2(t) && t <= SlotLog(c) && |laid| == m == SlotCount(c)
      invariant t == 0 || Pow2(t - 1) < m
      invariant outChunk == WithParity(laid, flips, t)
      decreases SlotLog(c) - t
    {
      ParityLoopBound(c, t);
      HasBitAt(flips, t);
      if HasBit(flips, idx) {
        outChunk := outChunk[idx := true];
      }
      idx, t := idx * 2, t + 1;
    }
    ParityLoopBound(c, t);
    ParitySlotsUnfold(c, chunk, laid, flips, t);
    match c {
      case Hamming(_) =>
        block := outChunk[1..];
      case EHamming(_) =>
        var parity := ChunkParity(outChunk);
        outChunk := outChunk[0 := parity];
        block := outChunk;
    }
  }

  /** The first loop of a chunk: one slot per index below `block_size_pow_2`,
      clear at parity slots, the next chunk bit (or `false`) at data slots. */
  method LayOut(c: Code, chunk: seq<bool>) returns (outChunk: seq<bool>)
    requires Supported(c) && |chunk| <= DataBits(c)
    ensures outChunk == Spread(chunk, SlotCount(c))
  {
    var m := SlotCount(c);
    outChunk := [];
    var rest := chunk;
    for i := 0 to m
      invariant outChunk == Spread(chunk, i)
      invariant rest == chunk[Min(DataSlotsBelow(i), |chunk|)..]
    {
      LayoutStep(chunk, i, rest);
      if IsPowerOfTwo(i) || i == 0 {
        outChunk := outChunk + [false];
      } else {
        var x := false;
        if rest != [] {
          x, rest := rest[0], rest[1..];
        }
        outChunk := outChunk + [x];
      }
    }
    DataSlotsOfCode(c);
    assert rest == [];  // the chunk is used up: `in_chunk.next().is_none()`
  }

  /** The buffer the parity loop leaves, in terms of `ParitySlots`. */
  lemma ParitySlotsUnfold(c: Code, chunk: seq<bool>, laid: seq<bool>, flips: nat, t: nat)
    requires Supported(c) && laid == Spread(chunk, SlotCount(c)) && flips == Syndrome(laid, 0)
    requires t == SlotLog(c)
    ensures t == 0 || Pow2(t - 1) < |laid|
    ensures ParitySlots(c, chunk) == WithParity(laid, flips, t)
  {
    Pow2StrictlyMonotone(t - 1, t);
  }

  /** One step of the layout loop: slot `i` takes the next chunk bit exactly
      when it is a data slot and the chunk is not used up. */
  lemma LayoutStep(chunk: seq<bool>, i: nat, rest: seq<bool>)
    requires rest == chunk[Min(DataSlotsBelow(i), |chunk|)..]
    ensures Spread(chunk, i + 1) == Spread(chunk, i) + [LaidOut(chunk, i)]
    ensures IsParitySlot(i) ==> !LaidOut(chunk, i) && rest == chunk[Min(DataSlotsBelow(i + 1), |chunk|)..]
    ensures !IsParitySlot(i) && rest == [] ==> !LaidOut(chunk, i) && rest == chunk[Min(DataSlotsBelow(i + 1), |chunk|)..]
    ensures !IsParitySlot(i) && rest != [] ==> LaidOut(chunk, i) == rest[0] && rest[1..] == chunk[Min(DataSlotsBelow(i + 1), |chunk|)..]
  {
  }

  /** The parity loop `while idx < block_bits` visits exactly the powers of
      two below the slot count. */
  lemma ParityLoopBound(c: Code, t: nat)
    requires Supported(c)
    ensures t < SlotLog(c) <==> Pow2(t) < BlockBits(c)
  {
    var q := SlotLog(c);
    if t < q {
      Pow2Monotone(t, q - 1);
      if c.Hamming? {
        Pow2Monotone(1, q - 1);
      }
    } else {
      Pow2Monotone(q, t);
    }
  }

  /** The slot buffer has exactly `data_bits` data slots, so every chunk fits
      and the iterator is drained (the source's `assert!`). */
  lemma DataSlotsOfCode(c: Code)
    requires Supported(c)
    ensures DataSlotsBelow(SlotCount(c)) == DataBits(c)
  {
    DataSlotsOfPow2(SlotLog(c));
  }

  /** The parity loop leaves every slot it does not visit alone. */
  lemma {:induction false} WithParityKeeps(s: seq<bool>, flips: nat, t: nat, i: nat)
    requires t == 0 || Pow2(t - 1) < |s|
    requires i < |s| && forall j :: 0 <= j < t ==> Pow2(j) != i
    ensures WithParity(s, flips, t)[i] == s[i]
  {
    if t > 0 {
      if t >= 2 { Pow2Monotone(t - 2, t - 1); }
      WithParityKeeps(s, flips, t - 1, i);
    }
  }

  /** After visiting 2^0 .. 2^(t-1) over clear slots, the loop has xored
      exactly the low t bits of `flips` into the syndrome. */
  lemma {:induction false} WithParitySyndrome(s: seq<bool>, flips: nat, t: nat)
    requires t == 0 || Pow2(t - 1) < |s|
    requires forall j :: 0 <= j < t ==> Pow2(j) < |s| && !s[Pow2(j)]
    ensures Syndrome(WithParity(s, flips, t), 0) == Xor(Syndrome(s, 0), LowBits(flips, t))
  {
    if t == 0 {
      XorZero(Syndrome(s, 0));
    } else {
      WithParitySyndrome(s, flips, t - 1);
      WithParityKeepsNext(s, flips, t - 1);
      WithParityStep(s, flips, t, Syndrome(s, 0));
    }
  }

  /** The first `t` visits leave slot 2^t alone. */
  lemma WithParityKeepsNext(s: seq<bool>, flips: nat, t: nat)
    requires Pow2(t) < |s|
    ensures WithParity(s, flips, t)[Pow2(t)] == s[Pow2(t)]
  {
    forall j | 0 <= j < t
      ensures Pow2(j) != Pow2(t)
    {
      Pow2StrictlyMonotone(j, t);
    }
    if t > 0 {
      Pow2Monotone(t - 1, t);
    }
    WithParityKeeps(s, flips, t, Pow2(t));
  }

  /** One visit of the parity loop, at slot 2^(t-1), when that slot is still clear. */
  lemma WithParityStep(s: seq<bool>, flips: nat, t: nat, S: nat)
    requires t > 0 && Pow2(t - 1) < |s|
    requires !WithParity(s, flips, t - 1)[Pow2(t - 1)]
    requires Syndrome(WithParity(s, flips, t - 1), 0) == Xor(S, LowBits(flips, t - 1))
    ensures Syndrome(WithParity(s, flips, t), 0) == Xor(S, LowBits(flips, t))
  {
    var r, low := WithParity(s, flips, t - 1), LowBits(flips, t - 1);
    if BitAt(flips, t - 1) {
      assert LowBits(flips, t) == low + Pow2(t - 1);
      assert WithParity(s, flips, t) == r[Pow2(t - 1) := true];
      SetClearBit(r, Pow2(t - 1), S, low, t - 1);
    } else {
      assert LowBits(flips, t) == low;
      assert WithParity(s, flips, t) == r;
    }
  }

  /** Setting a clear bit at index 2^k, above every bit of `low`, xors 2^k in. */
  lemma SetClearBit(r: seq<bool>, P: nat, S: nat, low: nat, k: nat)
    requires P == Pow2(k) && P < |r| && !r[P] && low < P
    requires Syndrome(r, 0) == Xor(S, low)
    ensures Syndrome(r[P := true], 0) == Xor(S, low + P)
  {
    assert r[P := true] == Flip(r, P);
    SyndromeFlip(r, 0, P);
    XorAssociates(S, low, P);
    XorHighBit(low, k);
  }

  /** The laid-out buffer is clear in every parity slot. */
  lemma SpreadParityClear(chunk: seq<bool>, m: nat, j: nat)
    requires Pow2(j) < m
    ensures !Spread(chunk, m)[Pow2(j)]
  {
    Pow2IsPowerOfTwo(j);
  }

  /** Syndrome of the full slot buffer: 0. */
  lemma ParitySlotsSyndrome(c: Code, chunk: seq<bool>)
    requires Supported(c)
    ensures Syndrome(ParitySlots(c, chunk), 0) == 0
    ensures !ParitySlots(c, chunk)[0]
  {
    var m := SlotCount(c);
    var q := SlotLog(c);
    var laid := Spread(chunk, m);
    var flips := Syndrome(laid, 0);
    Pow2StrictlyMonotone(q - 1, q);
    forall j | 0 <= j < q
      ensures Pow2(j) < m && !laid[Pow2(j)]
    {
      Pow2Monotone(j, q - 1);
      SpreadParityClear(chunk, m, j);
    }
    WithParitySyndrome(laid, flips, q);
    SyndromeBelow(laid, 0, q);
    LowBitsIsMod(flips, q);
    DivModUnique(flips, Pow2(q), 0, flips);
    XorSelf(flips);
    WithParityKeeps(laid, flips, q, 0);
  }

  /** Parity discipline: the xor of the slot indices of an encoded block's set
      bits is 0 (counting from slot 1 for Hamming), and an Extended Hamming
      block has even overall parity. */
  lemma EncodedChunkChecks(c: Code, chunk: seq<bool>)
    requires Supported(c)
    ensures Syndrome(EncodedChunk(c, chunk), if c.Hamming? then 1 else 0) == 0
    ensures c.EHamming? ==> !Parity(EncodedChunk(c, chunk))
  {
    var slots := ParitySlots(c, chunk);
    ParitySlotsSyndrome(c, chunk);
    match c
    case Hamming(_) =>
      SyndromeShift(slots);
    case EHamming(_) =>
      SyndromeIgnoresSlotZero(slots, Parity(slots));
      if Parity(slots) {
        assert slots[0 := true] == Flip(slots, 0);
        ParityFlip(slots, 0);
      } else {
        assert slots[0 := false] == slots;
      }
  }

  /** For Hamming, the scratch slot 0 stays clear, so dropping it loses nothing. */
  lemma HammingScratchSlot(c: Code, chunk: seq<bool>)
    requires Supported(c) && c.Hamming?
    ensures ParitySlots(c, chunk) == [false] + EncodedChunk(c, chunk)
  {
    ParitySlotsSyndrome(c, chunk);
  }

  /** Reading the data slots of the laid-out buffer in ascending order gives
      the chunk followed by padding zeros. */
  lemma {:induction false} SpreadData(chunk: seq<bool>, m: nat)
    ensures DataOf(Spread(chunk, m), 0) == seq(DataSlotsBelow(m), d requires 0 <= d < DataSlotsBelow(m) => if d < |chunk| then chunk[d] else false)
  {
    if m > 0 {
      assert Spread(chunk, m)[..m - 1] == Spread(chunk, m - 1);
      SpreadData(chunk, m - 1);
    }
  }

  /** The parity loop changes parity slots only. */
  lemma {:induction false} WithParityData(s: seq<bool>, flips: nat, t: nat)
    requires t == 0 || Pow2(t - 1) < |s|
    ensures DataOf(WithParity(s, flips, t), 0) == DataOf(s, 0)
  {
    if t > 0 {
      if t >= 2 { Pow2Monotone(t - 2, t - 1); }
      WithParityData(s, flips, t - 1);
      Pow2IsPowerOfTwo(t - 1);
      var r := WithParity(s, flips, t - 1);
      if BitAt(flips, t - 1) {
        DataOfIgnoresParity(r, 0, Pow2(t - 1), true);
      }
    }
  }

  /** The data slots of an encoded block hold the chunk, in order, then zeros. */
  lemma EncodedChunkData(c: Code, chunk: seq<bool>)
    requires Supported(c) && |chunk| <= DataBits(c)
    ensures DataOf(EncodedChunk(c, chunk), if c.Hamming? then 1 else 0) == chunk + Zeros(DataBits(c) - |chunk|)
  {
    var m := SlotCount(c);
    var laid := Spread(chunk, m);
    var slots := ParitySlots(c, chunk);
    Pow2StrictlyMonotone(SlotLog(c) - 1, SlotLog(c));
    WithParityData(laid, Syndrome(laid, 0), SlotLog(c));
    SpreadData(chunk, m);
    DataSlotsOfCode(c);
    assert DataOf(slots, 0) == chunk + Zeros(DataBits(c) - |chunk|);
    match c
    case Hamming(_) =>
      DataOfShift(slots);
    case EHamming(_) =>
      DataOfIgnoresParity(slots, 0, 0, Parity(slots));
  }

  /** A non-empty message encodes as its first chunk's block followed by
      the blocks of the rest; `m` is the first chunk's length. */
  lemma EncodedBitsSplit(c: Code, bits: seq<bool>) returns (m: nat)
    requires Supported(c) && EncodedBits(c, bits) != []
    ensures m == Min(DataBits(c), |bits|) && 0 < m <= |bits|
    ensures EncodedBits(c, bits) == EncodedChunk(c, bits[..m]) + EncodedBits(c, bits[m..])
  {
    var k := DataBits(c);
    EncodedBitsUnfold(c, bits, k);
    m := Min(k, |bits|);
    if |bits| <= k {
      assert bits[..m] == bits && bits[m..] == [];
    }
  }

  /** One step of the chunk iteration: a non-empty message encodes to its
      first chunk's block followed by the rest's blocks. */
  lemma EncodedBitsUnfold(c: Code, bits: seq<bool>, k: nat)
    requires Supported(c) && k == DataBits(c) && bits != []
    ensures k >= 1
    ensures |bits| <= k ==> EncodedBits(c, bits) == EncodedChunk(c, bits)
    ensures |bits| > k ==> EncodedBits(c, bits) == EncodedChunk(c, bits[..k]) + EncodedBits(c, bits[k..])
  {
    SupportedDimensions(c);
    if |bits| <= k {
      assert bits[..|bits|] == bits && bits[|bits|..] == [];
    }
  }

  /** Output length: one `block_bits` block per started chunk of `data_bits`;
      in particular an empty message encodes to nothing. */
  lemma {:induction false} EncodedBitsLength(c: Code, bits: seq<bool>)
    requires Supported(c)
    ensures DataBits(c) >= 1
    ensures |EncodedBits(c, bits)| == CeilDiv(|bits|, DataBits(c)) * BlockBits(c)
    decreases |bits|
  {
    SupportedDimensions(c);
    var k, n := DataBits(c), BlockBits(c);
    if |bits| <= k {
      CeilDivSmall(|bits|, k);
      if bits != [] {
        EncodedBitsUnfold(c, bits, k);
      }
    } else {
      EncodedBitsUnfold(c, bits, k);
      EncodedBitsLength(c, bits[k..]);
      var q := CeilDiv(|bits| - k, k);
      CeilDivStep(|bits| - k, k);
      MulSucc(q, n);
    }
  }

  /** Output bytes: the encoded bits rounded up to whole bytes. */
  lemma EncodedLength(c: Code, input: seq<byte>)
    requires Supported(c)
    ensures DataBits(c) >= 1
    ensures |Encoded(c, input)| == (CeilDiv(8 * |input|, DataBits(c)) * BlockBits(c) + 7) / 8
    ensures input == [] ==> Encoded(c, input) == []
  {
    EncodedBitsLength(c, BytesToBits(input));
  }

  /** Blocks come out in chunk order: block `j` of the output (the
      `block_bits` bits from `b`, `j` blocks in) is the encoding of chunk `j`
      alone (the bits from `a`, `j` chunks in; the last chunk possibly
      short). `Times` is the repeated addition the chunk iteration performs. */
  lemma EncodedBlockOrder(c: Code, bits: seq<bool>, j: nat, a: nat, b: nat)
    requires Supported(c) && a == Times(j, DataBits(c)) && b == Times(j, BlockBits(c))
    requires a < |bits|
    ensures b + BlockBits(c) <= |EncodedBits(c, bits)|
    ensures EncodedBits(c, bits)[b..b + BlockBits(c)]
         == EncodedChunk(c, bits[a..Min(a + DataBits(c), |bits|)])
  {
    EncodedSuffix(c, bits, j, DataBits(c), BlockBits(c));
    EncodedBlockAfter(c, bits, a, b);
  }

  /** Where the output from `b` on is the encoding of the input from `a` on,
      the block at `b` encodes the chunk at `a`. */
  lemma EncodedBlockAfter(c: Code, bits: seq<bool>, a: nat, b: nat)
    requires Supported(c) && a < |bits|
    requires b <= |EncodedBits(c, bits)| && EncodedBits(c, bits)[b..] == EncodedBits(c, bits[a..])
    ensures b + BlockBits(c) <= |EncodedBits(c, bits)|
    ensures EncodedBits(c, bits)[b..b + BlockBits(c)]
         == EncodedChunk(c, bits[a..Min(a + DataBits(c), |bits|)])
  {
    EncodedChunkAt(c, bits, a);
    TakeOfDrop(EncodedBits(c, bits), b, BlockBits(c));
  }

  /** The first block of the output for the bits from `a` on is the encoding
      of the chunk at `a`. */
  lemma EncodedChunkAt(c: Code, bits: seq<bool>, a: nat)
    requires Supported(c) && a < |bits|
    ensures BlockBits(c) <= |EncodedBits(c, bits[a..])|
    ensures EncodedBits(c, bits[a..])[..BlockBits(c)] == EncodedChunk(c, bits[a..Min(a + DataBits(c), |bits|)])
  {
    EncodedFirstBlock(c, bits[a..], DataBits(c), BlockBits(c));
    ChunkOfDrop(bits, a, DataBits(c));
  }

  /** Skipping `j` chunks of the input skips `j` blocks of the output. */
  lemma {:induction false} EncodedSuffix(c: Code, bits: seq<bool>, j: nat, k: nat, n: nat)
    requires Supported(c) && k == DataBits(c) && n == BlockBits(c)
    requires Times(j, k) <= |bits|
    ensures Times(j, n) <= |EncodedBits(c, bits)|
    ensures EncodedBits(c, bits)[Times(j, n)..] == EncodedBits(c, bits[Times(j, k)..])
  {
    if j > 0 {
      EncodedSuffix(c, bits, j - 1, k, n);
      TimesStep(j - 1, k);
      TimesStep(j - 1, n);
      EncodedSuffixStep(c, bits, Times(j - 1, k), Times(j - 1, n));
    }
  }

  /** Where the output from `b` on encodes the input from `a` on, the output
      one block further encodes the input one chunk further. */
  lemma EncodedSuffixStep(c: Code, bits: seq<bool>, a: nat, b: nat)
    requires Supported(c) && a + DataBits(c) <= |bits|
    requires b <= |EncodedBits(c, bits)| && EncodedBits(c, bits)[b..] == EncodedBits(c, bits[a..])
    ensures b + BlockBits(c) <= |EncodedBits(c, bits)|
    ensures EncodedBits(c, bits)[b + BlockBits(c)..] == EncodedBits(c, bits[a + DataBits(c)..])
  {
    EncodedDropChunk(c, bits, a);
    DropTwice(EncodedBits(c, bits), EncodedBits(c, bits[a..]), EncodedBits(c, bits[a + DataBits(c)..]), b, BlockBits(c));
  }

  /** The output for the bits from `a` on, less its first block, is the
      output for the bits from the next chunk on. */
  lemma EncodedDropChunk(c: Code, bits: seq<bool>, a: nat)
    requires Supported(c) && a + DataBits(c) <= |bits|
    ensures BlockBits(c) <= |EncodedBits(c, bits[a..])|
    ensures EncodedBits(c, bits[a..])[BlockBits(c)..] == EncodedBits(c, bits[a + DataBits(c)..])
  {
    EncodedDropFirst(c, bits[a..], DataBits(c), BlockBits(c));
    DropOfDrop(bits, a, DataBits(c));
  }

  /** Dropping the first block of the output is dropping the first chunk. */
  lemma EncodedDropFirst(c: Code, bits: seq<bool>, k: nat, n: nat)
    requires Supported(c) && k == DataBits(c) && n == BlockBits(c) && k <= |bits|
    ensures n <= |EncodedBits(c, bits)|
    ensures EncodedBits(c, bits)[n..] == EncodedBits(c, bits[k..])
  {
    SupportedDimensions(c);
    EncodedBitsUnfold(c, bits, k);
    if |bits| == k {
      assert bits[k..] == [];
    }
  }

  /** Block 0 is the encoding of the first chunk. */
  lemma EncodedFirstBlock(c: Code, bits: seq<bool>, k: nat, n: nat)
    requires Supported(c) && k == DataBits(c) && n == BlockBits(c) && bits != []
    ensures n <= |EncodedBits(c, bits)|
    ensures EncodedBits(c, bits)[..n] == EncodedChunk(c, bits[..Min(k, |bits|)])
  {
    EncodedBitsUnfold(c, bits, k);
    if |bits| > k {
      var head := EncodedChunk(c, bits[..k]);
      assert (head + EncodedBits(c, bits[k..]))[..n] == head;
    } else {
      assert bits[..|bits|] == bits;
    }
  }

  /** A message cut after `j` whole chunks encodes as the two parts encoded
      one after the other. */
  lemma {:induction false} EncodedBitsAppend(c: Code, prefix: seq<bool>, tail: seq<bool>, j: nat)
    requires Supported(c) && |prefix| == Times(j, DataBits(c))
    ensures EncodedBits(c, prefix + tail) == EncodedBits(c, prefix) + EncodedBits(c, tail)
  {
    SupportedDimensions(c);
    var k := DataBits(c);
    if j == 0 {
      assert prefix + tail == tail;
    } else {
      var whole := prefix + tail;
      assert whole[..k] == prefix[..k];
      assert whole[k..] == prefix[k..] + tail;
      EncodedBitsAppend(c, prefix[k..], tail, j - 1);
      EncodedDropFirst(c, prefix, k, BlockBits(c));
      EncodedDropFirst(c, whole, k, BlockBits(c));
      EncodedFirstBlock(c, prefix, k, BlockBits(c));
      EncodedFirstBlock(c, whole, k, BlockBits(c));
      JoinAtBlock(EncodedBits(c, whole), EncodedBits(c, prefix), EncodedBits(c, tail), BlockBits(c));
    }
  }

  /** Sequences that agree on their first `n` elements and whose remainders
      differ only by a common suffix. */
  lemma JoinAtBlock(whole: seq<bool>, prefix: seq<bool>, tail: seq<bool>, n: nat)
    requires n <= |whole| && n <= |prefix| && whole[..n] == prefix[..n]
    requires whole[n..] == prefix[n..] + tail
    ensures whole == prefix + tail
  {
    assert whole == whole[..n] + whole[n..];
    assert prefix == prefix[..n] + prefix[n..];
  }
}
