/** The code descriptor: which member of the Hamming / Extended Hamming family
    is in use, and the dimensions of its blocks. */
module Codes {
  import opened BitArith

  datatype Option<T> = None | Some(value: T)

  /** `Hamming(p)` is the (2^p - 1, 2^p - 1 - p) code; `EHamming(p)` adds an
      overall parity bit to `Hamming(p - 1)`, giving (2^(p-1), 2^(p-1) - p).
      `p` counts the parity bits (for `EHamming` including the overall one). */
  datatype Code = Hamming(p: nat) | EHamming(p: nat)

  const H3_1: Code := Hamming(2)
  const H7_4: Code := Hamming(3)
  const H15_11: Code := Hamming(4)
  const EH4_1: Code := EHamming(3)
  const EH8_4: Code := EHamming(4)
  const EH16_11: Code := EHamming(5)

  /** The dimension formulas are defined: `p - 1` needs `p >= 1` for `EHamming`. */
  predicate WellFormed(c: Code)
  {
    c.Hamming? || c.p >= 1
  }

  /** The members of the family the codec works with: those whose blocks
      carry at least one data bit, which are the ones `FromBlockSize` yields. */
  predicate Supported(c: Code)
  {
    match c
    case Hamming(p) => p >= 2
    case EHamming(p) => p >= 3
  }

  /** `block_bits`: the length n of an encoded block. */
  function BlockBits(c: Code): nat
    requires WellFormed(c)
  {
    match c
    case Hamming(p) => Pow2(p) - 1
    case EHamming(p) => Pow2(p - 1)
  }

  /** `data_bits`: the number k of message bits in a block. */
  function DataBits(c: Code): nat
    requires WellFormed(c)
  {
    match c
    case Hamming(p) => Pow2Exceeds(p); Pow2(p) - 1 - p
    case EHamming(p) => Pow2Exceeds(p - 1); Pow2(p - 1) - p
  }

  /** `parity_bits`: the parameter both variants carry. */
  function ParityBits(c: Code): nat
  {
    c.p
  }

  /** `from_block_size`: the code whose blocks are `b` bits long, if any. */
  function FromBlockSize(b: nat): Option<Code>
  {
    if b < 3 then None
    else if IsPowerOfTwo(b) then Some(EHamming(Log2(b) + 1))
    else if IsPowerOfTwo(b + 1) then Some(Hamming(Log2(b + 1)))
    else None
  }

  /** Every block splits into its data bits and its parity bits, and
      `parity_bits` is the parameter `p` under both variants. */
  lemma Dimensions(c: Code)
    requires WellFormed(c)
    ensures ParityBits(c) == c.p
    ensures BlockBits(c) == DataBits(c) + ParityBits(c)
  {
  }

  /** A supported code has data bits, and fewer of them than the block has bits. */
  lemma SupportedDimensions(c: Code)
    requires Supported(c)
    ensures WellFormed(c) && 0 < DataBits(c) < BlockBits(c)
  {
    match c
    case Hamming(p) => Pow2ExceedsBy2(p);
    case EHamming(p) => Pow2ExceedsBy2(p - 1);
  }

  /** The two families interleave: `EHamming(p + 1)` is one bit longer than `Hamming(p)`. */
  lemma FamiliesInterleave(p: nat)
    ensures BlockBits(EHamming(p + 1)) == BlockBits(Hamming(p)) + 1
  {
  }

  /** The six named codes have the dimensions their names give. */
  lemma NamedCodes()
    ensures BlockBits(H3_1) == 3 && DataBits(H3_1) == 1 && ParityBits(H3_1) == 2
    ensures BlockBits(H7_4) == 7 && DataBits(H7_4) == 4 && ParityBits(H7_4) == 3
    ensures BlockBits(H15_11) == 15 && DataBits(H15_11) == 11 && ParityBits(H15_11) == 4
    ensures BlockBits(EH4_1) == 4 && DataBits(EH4_1) == 1 && ParityBits(EH4_1) == 3
    ensures BlockBits(EH8_4) == 8 && DataBits(EH8_4) == 4 && ParityBits(EH8_4) == 4
    ensures BlockBits(EH16_11) == 16 && DataBits(EH16_11) == 11 && ParityBits(EH16_11) == 5
  {
    assert Pow2(5) == 32;
  }

  /** The parsed code is supported and has exactly the requested block size. */
  lemma FromBlockSizeSound(b: nat)
    requires FromBlockSize(b).Some?
    ensures Supported(FromBlockSize(b).value)
    ensures BlockBits(FromBlockSize(b).value) == b
  {
    var m := if IsPowerOfTwo(b) then b else b + 1;
    assert IsPowerOfTwo(m) && m >= 4;
    PowerOfTwoIsPow2(m);
    assert Log2(m) == 2 + Log2(m / 4);
  }

  /** Parsing the block size of a supported code gives that code back. */
  lemma FromBlockSizeComplete(c: Code)
    requires Supported(c)
    ensures FromBlockSize(BlockBits(c)) == Some(c)
  {
    match c
    case Hamming(p) => ParseAllOnes(p, Pow2(p) - 1);
    case EHamming(p) => ParsePowerOfTwo(p - 1);
  }

  /** 2^p - 1 (p >= 2) is odd and above 1, so it parses as `Hamming(p)`. */
  lemma ParseAllOnes(p: nat, b: nat)
    requires p >= 2 && b + 1 == Pow2(p)
    ensures FromBlockSize(b) == Some(Hamming(p))
  {
    var h := Pow2(p - 1);
    assert h == 2 * Pow2(p - 2);
    OddIsNotPowerOfTwo(b, h);
    Pow2IsPowerOfTwo(p);
  }

  lemma OddIsNotPowerOfTwo(b: nat, h: nat)
    requires h >= 2 && b == 2 * h - 1
    ensures b >= 3 && !IsPowerOfTwo(b)
  {
  }

  /** 2^q (q >= 2) parses as `EHamming(q + 1)`. */
  lemma ParsePowerOfTwo(q: nat)
    requires q >= 2
    ensures FromBlockSize(Pow2(q)) == Some(EHamming(q + 1))
  {
    Pow2IsPowerOfTwo(q);
    Pow2Monotone(2, q);
    assert Pow2(2) == 4;
  }

  /** `from_block_size` fails exactly on the sizes no supported code has,
      among them every size below 3. */
  lemma FromBlockSizeNone(b: nat)
    ensures FromBlockSize(b).None? <==> forall c :: Supported(c) ==> BlockBits(c) != b
    ensures b < 3 ==> FromBlockSize(b).None?
  {
    if FromBlockSize(b).Some? {
      FromBlockSizeSound(b);
    }
    forall c | Supported(c)
      ensures BlockBits(c) == b ==> FromBlockSize(b) == Some(c)
    {
      FromBlockSizeComplete(c);
    }
  }

  /** The parses checked by the source's own tests. */
  lemma FromBlockSizeExamples()
    ensures FromBlockSize(0) == None && FromBlockSize(1) == None && FromBlockSize(2) == None
    ensures FromBlockSize(3) == Some(Hamming(2)) && FromBlockSize(4) == Some(EHamming(3))
    ensures FromBlockSize(5) == None && FromBlockSize(6) == None
    ensures FromBlockSize(7) == Some(Hamming(3)) && FromBlockSize(8) == Some(EHamming(4))
  {
  }
}
