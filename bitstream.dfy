/** The logical bit stream the codec works on: `BitVec<u8, Lsb0>` as a
    `seq<bool>`, its conversions from and to bytes (least significant bit
    first), and the three queries the codec asks of a run of bits: the xor of
    the indices of its set bits, its overall parity, and a single bit flip. */
module BitStream {
  import opened BitArith

  type byte = x: int | 0 <= x < 256

  /** `n` clear bits. */
  function Zeros(n: nat): (r: seq<bool>)
    ensures |r| == n && forall i :: 0 <= i < n ==> !r[i]
  {
    seq(n, _ => false)
  }

  /** Cutting clear bits gives clear bits. */
  lemma ZerosSplit(n: nat, m: nat)
    requires m <= n
    ensures Zeros(n)[..m] == Zeros(m) && Zeros(n)[m..] == Zeros(n - m)
  {
  }

  /** Clear bits after clear bits. */
  lemma ZerosJoin(a: nat, b: nat)
    ensures Zeros(a) + Zeros(b) == Zeros(a + b)
  {
  }

  /** The next chunk of `bits` from `start`: at most `k` bits, the rest of
      the input when fewer remain. */
  lemma NextChunk(bits: seq<bool>, start: nat, end: nat, k: nat)
    requires start < |bits| && end == if |bits| - start < k then |bits| else start + k
    ensures |bits[start..]| <= k ==> bits[start..] == bits[start..end] && bits[end..] == []
    ensures |bits[start..]| > k ==> bits[start..][..k] == bits[start..end] && bits[start..][k..] == bits[end..]
  {
  }

  lemma AppendAssoc(a: seq<bool>, b: seq<bool>, c: seq<bool>)
    ensures (a + b) + c == a + (b + c)
  {
  }

  /** `w` zero bytes. */
  function ZeroBytes(w: nat): (r: seq<byte>)
    ensures |r| == w && forall i :: 0 <= i < w ==> r[i] == 0
  {
    seq(w, _ => 0)
  }

  /** The low `w` binary digits of `x`, least significant first. */
  function BitsOf(x: nat, w: nat): (r: seq<bool>)
    ensures |r| == w
  {
    if w == 0 then [] else [x % 2 == 1] + BitsOf(x / 2, w - 1)
  }

  /** The number whose binary digits, least significant first, are `bits`. */
  function ValueOf(bits: seq<bool>): (r: nat)
    ensures r < Pow2(|bits|)
  {
    if bits == [] then 0 else (if bits[0] then 1 else 0) + 2 * ValueOf(bits[1..])
  }

  /** Up to eight bits, least significant first, as one byte. */
  function ByteOf(bits: seq<bool>): (r: byte)
    requires |bits| <= 8
    ensures r == ValueOf(bits)
  {
    Pow2Monotone(|bits|, 8);
    assert Pow2(8) == 256;
    ValueOf(bits)
  }

  /** `BitVec::<u8, Lsb0>::from_slice`: byte `j` supplies stream bits
      `8j .. 8j+7`, its least significant bit first. */
  function BytesToBits(bytes: seq<byte>): (r: seq<bool>)
    ensures |r| == 8 * |bytes|
  {
    if bytes == [] then [] else BitsOf(bytes[0], 8) + BytesToBits(bytes[1..])
  }

  /** `BitVec::into_vec`: consecutive groups of eight bits, the last group
      completed with zero bits. */
  function BitsToBytes(bits: seq<bool>): (r: seq<byte>)
    ensures |r| == (|bits| + 7) / 8
  {
    if |bits| == 0 then []
    else if |bits| <= 8 then [ByteOf(bits)]
    else [ByteOf(bits[..8])] + BitsToBytes(bits[8..])
  }

  /** Number of zero bits `into_vec` adds after `n` stream bits. */
  function PadLength(n: nat): nat
  {
    8 * ((n + 7) / 8) - n
  }

  /** The first `n` bits after position `b`. */
  lemma TakeOfDrop(s: seq<bool>, b: nat, n: nat)
    requires b + n <= |s|
    ensures s[b..][..n] == s[b..b + n]
  {
  }

  /** The bits after position `a + k` are the bits after `k` of the bits after `a`. */
  lemma DropOfDrop(s: seq<bool>, a: nat, k: nat)
    requires a + k <= |s|
    ensures s[a..][k..] == s[a + k..]
  {
  }

  /** `s` from `b` is `r`, and `r` from `n` is `t`: then `s` from `b + n` is `t`. */
  lemma DropTwice(s: seq<bool>, r: seq<bool>, t: seq<bool>, b: nat, n: nat)
    requires b <= |s| && s[b..] == r && n <= |r| && r[n..] == t
    ensures b + n <= |s| && s[b + n..] == t
  {
    DropOfDrop(s, b, n);
  }

  /** The chunk of width `k` at `a`, cut short at the end of `s`. */
  lemma ChunkOfDrop(s: seq<bool>, a: nat, k: nat)
    requires a <= |s|
    ensures s[a..][..Min(k, |s[a..]|)] == s[a..Min(a + k, |s|)]
  {
  }

  /** Bit `i` inverted (`bit.set(!*bit)`). */
  function Flip(s: seq<bool>, i: nat): (r: seq<bool>)
    requires i < |s|
    ensures |r| == |s| && r[i] != s[i]
  {
    s[i := !s[i]]
  }

  /** A flip inside the first part of a concatenation stays there. */
  lemma FlipLeft(a: seq<bool>, b: seq<bool>, i: nat)
    requires i < |a|
    ensures Flip(a + b, i) == Flip(a, i) + b
  {
  }

  /** Bits cut at `a`, then `rest`. */
  lemma SplitAt(e: seq<bool>, a: nat, rest: seq<bool>)
    requires a <= |e|
    ensures e + rest == e[..a] + (e[a..] + rest)
  {
    assert e == e[..a] + e[a..];
    AppendAssoc(e[..a], e[a..], rest);
  }

  /** A flip at position `pos = a + i` happens in the part after `a`, at `i`. */
  lemma FlipPast(e: seq<bool>, a: nat, pos: nat, i: nat, rest: seq<bool>)
    requires pos == a + i && pos < |e|
    ensures Flip(e, pos) + rest == e[..a] + (Flip(e[a..], i) + rest)
  {
    assert Flip(e, pos) == e[..a] + Flip(e[a..], i);
    AppendAssoc(e[..a], Flip(e[a..], i), rest);
  }

  /** Two flips at positions `p = a + i` and `q = a + k` happen in the part
      after `a`, at `i` and `k`. */
  lemma TwoFlipsPast(e: seq<bool>, a: nat, p: nat, q: nat, i: nat, k: nat, rest: seq<bool>)
    requires p == a + i && q == a + k && p < q < |e|
    ensures Flip(Flip(e, p), q) + rest == e[..a] + (Flip(Flip(e[a..], i), k) + rest)
  {
    assert Flip(Flip(e, p), q) == e[..a] + Flip(Flip(e[a..], i), k);
    AppendAssoc(e[..a], Flip(Flip(e[a..], i), k), rest);
  }

  /** `iter_ones().map(|x| x + base).reduce(usize::bitxor).unwrap_or(0)`: the
      xor of `i + base` over the set positions `i`; a clear position adds the
      neutral 0, and an all-clear run gives the `unwrap_or` default 0. */
  function Syndrome(s: seq<bool>, base: nat): nat
  {
    if s == [] then 0
    else Xor(Syndrome(s[..|s| - 1], base), if s[|s| - 1] then |s| - 1 + base else 0)
  }

  /** `iter().fold(false, |a, b| a ^ *b)`: true when an odd number of bits is set. */
  function Parity(s: seq<bool>): bool
  {
    if s == [] then false else Parity(s[..|s| - 1]) != s[|s| - 1]
  }

  /** `iter_ones().map(|x| x + base).reduce(usize::bitxor).unwrap_or(0)` as a
      loop over the bits: the encoder's `flips` (base 0) and the decoder's
      `idx` (base 1 for Hamming, 0 for Extended Hamming). */
  method ChunkSyndrome(chunk: seq<bool>, base: nat) returns (idx: nat)
    ensures idx == Syndrome(chunk, base)
  {
    idx := 0;
    for i := 0 to |chunk|
      invariant idx == Syndrome(chunk[..i], base)
    {
      assert chunk[..i + 1] == chunk[..i] + [chunk[i]];
      SyndromeSnoc(chunk[..i], chunk[i], base);
      if chunk[i] {
        idx := Xor(idx, i + base);
      } else {
        XorZero(idx);
      }
    }
    assert chunk[..|chunk|] == chunk;
  }

  /** `iter().fold(false, |a, b| a ^ *b)` as a loop: the overall parity the
      encoder stores in slot 0 and the decoder checks after a correction. */
  method ChunkParity(chunk: seq<bool>) returns (parity: bool)
    ensures parity == Parity(chunk)
  {
    parity := false;
    for i := 0 to |chunk|
      invariant parity == Parity(chunk[..i])
    {
      assert chunk[..i + 1] == chunk[..i] + [chunk[i]];
      ParitySnoc(chunk[..i], chunk[i]);
      parity := parity != chunk[i];
    }
    assert chunk[..|chunk|] == chunk;
  }

  /** The syndrome of a run grows one position at a time. */
  lemma SyndromeSnoc(s: seq<bool>, x: bool, base: nat)
    ensures Syndrome(s + [x], base) == Xor(Syndrome(s, base), if x then |s| + base else 0)
  {
    assert (s + [x])[..|s|] == s;
  }

  /** So does the overall parity. */
  lemma ParitySnoc(s: seq<bool>, x: bool)
    ensures Parity(s + [x]) == (Parity(s) != x)
  {
    assert (s + [x])[..|s|] == s;
  }

  /** Flipping position `i` changes the syndrome by exactly `i + base`. */
  lemma {:induction false} SyndromeFlip(s: seq<bool>, base: nat, i: nat)
    requires i < |s|
    ensures Syndrome(Flip(s, i), base) == Xor(Syndrome(s, base), i + base)
  {
    var n := |s| - 1;
    if i == n {
      SyndromeFlipLast(s, base);
    } else {
      assert Flip(s, i)[..n] == Flip(s[..n], i);
      SyndromeFlip(s[..n], base, i);
      SyndromeFlipEarlier(s, Flip(s, i), base, i);
    }
  }

  /** Flipping the last position toggles its index in or out. */
  lemma SyndromeFlipLast(s: seq<bool>, base: nat)
    requires |s| >= 1
    ensures Syndrome(Flip(s, |s| - 1), base) == Xor(Syndrome(s, base), |s| - 1 + base)
  {
    var n := |s| - 1;
    var t := Flip(s, n);
    var p := Syndrome(s[..n], base);
    assert t[..n] == s[..n];
    XorZero(p);
    if s[n] {
      XorTwice(p, n + base);
    }
  }

  /** Flipping an earlier position commutes with xoring in the last one. */
  lemma SyndromeFlipEarlier(s: seq<bool>, t: seq<bool>, base: nat, i: nat)
    requires |s| == |t| >= 1 && i < |s| - 1 && t[|s| - 1] == s[|s| - 1]
    requires Syndrome(t[..|s| - 1], base) == Xor(Syndrome(s[..|s| - 1], base), i + base)
    ensures Syndrome(t, base) == Xor(Syndrome(s, base), i + base)
  {
    var n := |s| - 1;
    XorSwap(Syndrome(s[..n], base), i + base, if s[n] then n + base else 0);
  }

  /** Setting bit 0 leaves a 0-based syndrome unchanged: index 0 adds nothing. */
  lemma SyndromeIgnoresSlotZero(s: seq<bool>, x: bool)
    requires |s| >= 1
    ensures Syndrome(s[0 := x], 0) == Syndrome(s, 0)
  {
    if x != s[0] {
      assert s[0 := x] == Flip(s, 0);
      SyndromeFlip(s, 0, 0);
      XorZero(Syndrome(s, 0));
    } else {
      assert s[0 := x] == s;
    }
  }

  /** When every index `i + base` is below 2^k, so is their xor. */
  lemma {:induction false} SyndromeBelow(s: seq<bool>, base: nat, k: nat)
    requires |s| + base <= Pow2(k)
    ensures Syndrome(s, base) < Pow2(k)
  {
    if s != [] {
      SyndromeBelow(s[..|s| - 1], base, k);
      XorBelow(Syndrome(s[..|s| - 1], base), if s[|s| - 1] then |s| - 1 + base else 0, k);
    }
  }

  /** Dropping a leading position 0 and counting from 1 gives the same syndrome:
      the Hamming decoder's `x + 1` matches the encoder's slot numbering. */
  lemma {:induction false} SyndromeShift(s: seq<bool>)
    requires |s| >= 1
    ensures Syndrome(s[1..], 1) == Syndrome(s, 0)
  {
    var n := |s| - 1;
    if n == 0 {
      assert s[1..] == [];
      XorZero(0);
      assert Syndrome(s[..0], 0) == 0;
    } else {
      assert s[1..][..n - 1] == s[..n][1..];
      SyndromeShift(s[..n]);
    }
  }

  /** The syndrome of an all-clear run is 0. */
  lemma {:induction false} SyndromeOfZeros(n: nat, base: nat)
    ensures Syndrome(Zeros(n), base) == 0
  {
    if n > 0 {
      assert Zeros(n)[..n - 1] == Zeros(n - 1);
      SyndromeOfZeros(n - 1, base);
      XorZero(0);
    }
  }

  /** Flipping any one bit inverts the overall parity. */
  lemma {:induction false} ParityFlip(s: seq<bool>, i: nat)
    requires i < |s|
    ensures Parity(Flip(s, i)) == !Parity(s)
  {
    var n := |s| - 1;
    if i == n {
      assert Flip(s, i)[..n] == s[..n];
    } else {
      assert Flip(s, i)[..n] == Flip(s[..n], i);
      ParityFlip(s[..n], i);
    }
  }

  lemma {:induction false} ValueOfBitsOf(x: nat, w: nat)
    requires x < Pow2(w)
    ensures ValueOf(BitsOf(x, w)) == x
  {
    if w > 0 {
      ValueOfBitsOf(x / 2, w - 1);
      assert BitsOf(x, w)[1..] == BitsOf(x / 2, w - 1);
    }
  }

  lemma {:induction false} BitsOfValueOf(bits: seq<bool>, w: nat)
    requires |bits| <= w
    ensures BitsOf(ValueOf(bits), w) == bits + Zeros(w - |bits|)
  {
    if w > 0 {
      var x := ValueOf(bits);
      if bits == [] {
        assert x == 0;
        BitsOfValueOf([], w - 1);
        assert Zeros(w) == [false] + Zeros(w - 1);
      } else {
        var v := ValueOf(bits[1..]);
        var low := if bits[0] then 1 else 0;
        assert x == low + 2 * v;
        DivModUnique(x, 2, v, low);
        BitsOfValueOf(bits[1..], w - 1);
        assert BitsOf(x, w) == [bits[0]] + (bits[1..] + Zeros(w - |bits|));
        assert bits == [bits[0]] + bits[1..];
      }
    }
  }

  /** Stream bit `i` is bit `i % 8` (counting from the least significant) of
      byte `i / 8`: the `Lsb0` ordering. */
  lemma {:induction false} BitOrder(bytes: seq<byte>, i: nat)
    requires i < 8 * |bytes|
    ensures BytesToBits(bytes)[i] == HasBit(bytes[i / 8], Pow2(i % 8))
  {
    if i < 8 {
      BitOfDigits(bytes[0], 8, i);
    } else {
      BitOrder(bytes[1..], i - 8);
      assert (i - 8) / 8 == i / 8 - 1 && (i - 8) % 8 == i % 8;
    }
  }

  lemma {:induction false} BitOfDigits(x: nat, w: nat, j: nat)
    requires j < w
    ensures BitsOf(x, w)[j] == HasBit(x, Pow2(j))
  {
    if j > 0 {
      BitOfDigits(x / 2, w - 1, j - 1);
      HalfThenDivide(x, j);
    }
  }

  /** Packing then unpacking bytes is the identity. */
  lemma {:induction false} BytesRoundTrip(bytes: seq<byte>)
    ensures BitsToBytes(BytesToBits(bytes)) == bytes
  {
    if bytes != [] {
      var bits := BytesToBits(bytes);
      assert bits[..8] == BitsOf(bytes[0], 8);
      assert bits[8..] == BytesToBits(bytes[1..]);
      assert Pow2(8) == 256;
      ValueOfBitsOf(bytes[0], 8);
      BytesRoundTrip(bytes[1..]);
      if |bytes| == 1 {
        assert bits == bits[..8];
      }
    }
  }

  /** Unpacking the packed bytes gives the bits back followed by the zero padding. */
  lemma {:induction false} BitsRoundTrip(bits: seq<bool>)
    ensures BytesToBits(BitsToBytes(bits)) == bits + Zeros(PadLength(|bits|))
    decreases |bits|
  {
    if |bits| == 0 {
    } else if |bits| <= 8 {
      LastByteRoundTrip(bits);
    } else {
      var head, tail := bits[..8], bits[8..];
      BitsRoundTrip(tail);
      PadLengthShift(|tail|);
      BitsToBytesStep(bits);
      FirstByteRoundTrip(head, BitsToBytes(tail));
      assert bits == head + tail;
      AppendAssoc(head, tail, Zeros(PadLength(|bits|)));
    }
  }

  /** The last, possibly partial, group of bits comes back padded to eight. */
  lemma LastByteRoundTrip(bits: seq<bool>)
    requires 1 <= |bits| <= 8
    ensures BytesToBits(BitsToBytes(bits)) == bits + Zeros(PadLength(|bits|))
  {
    BitsOfValueOf(bits, 8);
    DivModUnique(|bits| + 7, 8, 1, |bits| - 1);
    assert BytesToBits([ByteOf(bits)]) == BitsOf(ValueOf(bits), 8) + [];
  }

  /** More than eight bits pack into the byte of the first eight, then the rest. */
  lemma BitsToBytesStep(bits: seq<bool>)
    requires |bits| > 8
    ensures BitsToBytes(bits) == [ByteOf(bits[..8])] + BitsToBytes(bits[8..])
  {
  }

  /** Unpacking a byte made of eight bits gives those bits first. */
  lemma FirstByteRoundTrip(head: seq<bool>, rest: seq<byte>)
    requires |head| == 8
    ensures BytesToBits([ByteOf(head)] + rest) == head + BytesToBits(rest)
  {
    BitsOfValueOf(head, 8);
    assert ([ByteOf(head)] + rest)[1..] == rest;
  }

  /** Eight more bits need the same padding. */
  lemma PadLengthShift(n: nat)
    ensures PadLength(n + 8) == PadLength(n)
  {
    var q, r := (n + 7) / 8, (n + 7) % 8;
    DivModUnique(n + 15, 8, q + 1, r);
  }

  /** Bytes followed by zero bits pack to the same bytes followed by zero bytes. */
  lemma {:induction false} PackWithZeros(bytes: seq<byte>, z: nat)
    ensures BitsToBytes(BytesToBits(bytes) + Zeros(z)) == bytes + ZeroBytes((z + 7) / 8)
  {
    var bits := BytesToBits(bytes) + Zeros(z);
    if bytes == [] {
      assert bits == Zeros(z);
      PackZeros(z);
    } else {
      assert bits[..8] == BitsOf(bytes[0], 8);
      assert bits[8..] == BytesToBits(bytes[1..]) + Zeros(z);
      assert Pow2(8) == 256;
      ValueOfBitsOf(bytes[0], 8);
      PackWithZeros(bytes[1..], z);
    }
  }

  lemma {:induction false} PackZeros(z: nat)
    ensures BitsToBytes(Zeros(z)) == ZeroBytes((z + 7) / 8)
    decreases z
  {
    if z == 0 {
    } else if z <= 8 {
      ValueOfZeros(z);
    } else {
      assert Zeros(z)[..8] == Zeros(8);
      assert Zeros(z)[8..] == Zeros(z - 8);
      ValueOfZeros(8);
      PackZeros(z - 8);
    }
  }

  lemma {:induction false} ValueOfZeros(n: nat)
    ensures ValueOf(Zeros(n)) == 0
  {
    if n > 0 {
      assert Zeros(n)[1..] == Zeros(n - 1);
      ValueOfZeros(n - 1);
    }
  }
}
