/** `decode`: cut the received bits into chunks of `block_bits`, locate a
    flipped bit through the xor of the set bits' slot indices, flip it back,
    reject what Extended Hamming's overall parity shows to be uncorrectable,
    and collect the data slots of every chunk. */
module Decoder {
  import opened BitArith
  import opened BitStream
  import opened Codes
  import opened Errors
  import opened Slots

  /** The slot of a chunk's first bit: a Hamming block has no overall parity
      bit, so its bits sit in slots 1, 2, ... (the source's `x + 1`). */
  function Base(c: Code): nat
  {
    if c.Hamming? then 1 else 0
  }

  /** `idx`: the xor of the slot indices of the set bits, 0 when none is set
      (`iter_ones().reduce(bitxor).unwrap_or(0)`). */
  function ErrorSlot(c: Code, chunk: seq<bool>): nat
  {
    Syndrome(chunk, Base(c))
  }

  /** The chunk after the in-place correction: the bit in slot `idx` is
      flipped when `idx` is not 0 and that slot lies inside the chunk. */
  function Repaired(c: Code, chunk: seq<bool>): (r: seq<bool>)
    ensures |r| == |chunk|
  {
    var idx := ErrorSlot(c, chunk);
    if idx != 0 && idx - Base(c) < |chunk| then Flip(chunk, idx - Base(c)) else chunk
  }

  /** What one pass of the loop body makes of a chunk: its data bits once
      corrected, `Err(Decode)` when Extended Hamming's overall parity is still
      odd after the correction, and `Panic` when `idx` names a slot past the
      end of a short final chunk (`get_mut(..).unwrap()` on `None`). */
  function DecodedChunk(c: Code, chunk: seq<bool>): Outcome<seq<bool>>
  {
    var idx := ErrorSlot(c, chunk);
    if idx == 0 then Ok(DataOf(chunk, Base(c)))
    else if idx - Base(c) >= |chunk| then Panic
    else if c.EHamming? && Parity(Repaired(c, chunk)) then Err(Error.Decode)
    else Ok(DataOf(Repaired(c, chunk), Base(c)))
  }

  /** `d` followed by whatever the remaining chunks produce; a failure of the
      remaining chunks is the failure of the whole. */
  function Prepend(d: seq<bool>, rest: Outcome<seq<bool>>): Outcome<seq<bool>>
  {
    match rest
    case Ok(r) => Ok(d + r)
    case Err(e) => Err(e)
    case Panic => Panic
  }

  /** The outcome of a chunk followed by the outcome of the chunks after it:
      the first failure is the result. */
  function Chain(first: Outcome<seq<bool>>, rest: Outcome<seq<bool>>): Outcome<seq<bool>>
  {
    match first
    case Ok(d) => Prepend(d, rest)
    case Err(e) => Err(e)
    case Panic => Panic
  }

  /** The loop over `input.chunks_mut(block_bits)`: chunks are decoded in
      order and the first one that fails ends the decoding. */
  function DecodedBits(c: Code, bits: seq<bool>): Outcome<seq<bool>>
    requires WellFormed(c) && BlockBits(c) > 0
    decreases |bits|
  {
    if bits == [] then Ok([])
    else
      var m := Min(BlockBits(c), |bits|);
      Chain(DecodedChunk(c, bits[..m]), DecodedBits(c, bits[m..]))
  }

  /** The result of `decode`: the collected data bits packed into bytes,
      with the last byte padded with zeros (`output.into_vec()`). */
  function Decoded(c: Code, input: seq<byte>): Outcome<seq<byte>>
    requires WellFormed(c) && BlockBits(c) > 0
  {
    match DecodedBits(c, BytesToBits(input))
    case Ok(bits) => Ok(BitsToBytes(bits))
    case Err(e) => Err(e)
    case Panic => Panic
  }

  /** `decode`. `chunks_mut(0)` panics, so the code must have non-empty
      blocks, and `EHamming(0)` would underflow `p - 1`. */
  method Decode(input: seq<byte>, c: Code) returns (r: Outcome<seq<byte>>)
    requires WellFormed(c) && BlockBits(c) > 0
    ensures r == Decoded(c, input)
  {
    var bits := BytesToBits(input);
    var buf := new bool[|bits|](i requires 0 <= i < |bits| => bits[i]);
    var n := BlockBits(c);
    var output: seq<bool> := [];
    var start := 0;
    PrependNothing(DecodedBits(c, bits));
    while start < buf.Length
      invariant start <= buf.Length == |bits|
      invariant buf[start..] == bits[start..]
      invariant Prepend(output, DecodedBits(c, bits[start..])) == DecodedBits(c, bits)
      decreases buf.Length - start
    {
      var end := if buf.Length - start < n then buf.Length else start + n;
      DecodedBitsStep(c, bits, start, end);
      SameChunk(buf[..], bits, start, end);
      ghost var before := buf[..];
      var out := DecodeChunk(buf, start, end, c);
      SameRest(before, buf[..], bits, start, end);
      match out {
        case Ok(d) =>
          PrependTwice(output, d, DecodedBits(c, bits[end..]));
          output := output + d;
        case Err(e) =>
          return Err(e);
        case Panic =>
          return Panic;
      }
      start := end;
    }
    assert bits[start..] == [];
    assert output + [] == output;
    assert DecodedBits(c, bits) == Ok(output);
    r := Ok(BitsToBytes(output));
  }

  /** The chunk `bits[start..end]` is the next one the loop decodes. */
  lemma DecodedBitsStep(c: Code, bits: seq<bool>, start: nat, end: nat)
    requires WellFormed(c) && BlockBits(c) > 0 && start < |bits|
    requires end == if |bits| - start < BlockBits(c) then |bits| else start + BlockBits(c)
    ensures start < end <= |bits|
    ensures DecodedBits(c, bits[start..]) == Chain(DecodedChunk(c, bits[start..end]), DecodedBits(c, bits[end..]))
  {
    var n := BlockBits(c);
    NextChunk(bits, start, end, n);
    if |bits| - start <= n {
      assert bits[start..][..Min(n, |bits| - start)] == bits[start..];
      assert bits[start..][Min(n, |bits| - start)..] == [];
    }
  }

  /** Two sequences that agree from `start` on agree on the chunk `start..end`. */
  lemma SameChunk(s: seq<bool>, t: seq<bool>, start: nat, end: nat)
    requires start <= end <= |s| == |t| && s[start..] == t[start..]
    ensures s[start..end] == t[start..end]
  {
    assert s[start..end] == s[start..][..end - start];
    assert t[start..end] == t[start..][..end - start];
  }

  /** Rewriting only the chunk `start..end` of `s` keeps its agreement with
      `t` from `end` on. */
  lemma SameRest(s: seq<bool>, s': seq<bool>, t: seq<bool>, start: nat, end: nat)
    requires start <= end <= |s| == |t| && s[start..] == t[start..]
    requires |s'| == |s| && s'[end..] == s[end..]
    ensures s'[end..] == t[end..]
  {
    assert s[end..] == s[start..][end - start..];
    assert t[end..] == t[start..][end - start..];
  }

  /** Collecting nothing first changes nothing. */
  lemma PrependNothing(rest: Outcome<seq<bool>>)
    ensures Prepend([], rest) == rest
  {
    if rest.Ok? {
      assert [] + rest.value == rest.value;
    }
  }

  /** Collecting `a` and then `b` before the rest is collecting `a + b`. */
  lemma PrependTwice(a: seq<bool>, b: seq<bool>, rest: Outcome<seq<bool>>)
    ensures Prepend(a, Prepend(b, rest)) == Prepend(a + b, rest)
  {
    if rest.Ok? {
      assert a + (b + rest.value) == (a + b) + rest.value;
    }
  }

  /** The body of the chunk loop, on the chunk `buf[start..end]` of the
      mutable input: it flips the bit `idx` names in place, and returns the
      chunk's data bits or the way it fails. */
  method DecodeChunk(buf: array<bool>, start: nat, end: nat, c: Code) returns (r: Outcome<seq<bool>>)
    requires start <= end <= buf.Length
    modifies buf
    ensures r == DecodedChunk(c, old(buf[start..end]))
    ensures buf[start..end] == Repaired(c, old(buf[start..end]))
    ensures buf[..start] == old(buf[..start]) && buf[end..] == old(buf[end..])
  {
    ghost var chunk := buf[start..end];
    var base := if c.Hamming? then 1 else 0;
    var idx := ChunkSyndrome(buf[start..end], base);
    if idx != 0 {
      if idx - base >= end - start {
        return Panic;
      }
      var j := start + idx - base;
      buf[j] := !buf[j];
      assert buf[start..end] == Flip(chunk, idx - base);
      if c.EHamming? {
        // Still odd after the flip: at least two bits were in error.
        var parity := ChunkParity(buf[start..end]);
        if parity {
          return Err(Error.Decode);
        }
      }
    }
    var out := ChunkData(buf[start..end], base);
    r := Ok(out);
  }

  /** The loop that pushes into `out_chunk` every bit not in a parity slot. */
  method ChunkData(chunk: seq<bool>, base: nat) returns (out: seq<bool>)
    ensures out == DataOf(chunk, base)
  {
    out := [];
    for i := 0 to |chunk|
      invariant out == DataOf(chunk[..i], base)
    {
      assert chunk[..i + 1] == chunk[..i] + [chunk[i]];
      DataOfSnoc(chunk[..i], chunk[i], base);
      if !(IsPowerOfTwo(i + base) || i + base == 0) {
        out := out + [chunk[i]];
      }
    }
    assert chunk[..|chunk|] == chunk;
  }
}
