/** The slot layout shared by the encoder and the decoder. A block occupies
    slots 0, 1, 2, ... (a plain Hamming block starts at slot 1); slot 0 and the
    power-of-two slots hold parity, every other slot holds a data bit. */
module Slots {
  import opened BitArith

  /** `i == 0 || i.is_power_of_two()`. */
  predicate IsParitySlot(i: nat)
  {
    i == 0 || IsPowerOfTwo(i)
  }

  /** How many of the slots 0 .. m-1 hold data. */
  function DataSlotsBelow(m: nat): nat
  {
    if m == 0 then 0 else DataSlotsBelow(m - 1) + (if IsParitySlot(m - 1) then 0 else 1)
  }

  /** The data bits of a run of bits whose first bit sits in slot `base`, in
      ascending slot order: what the decoder pushes into `out_chunk`. */
  function DataOf(s: seq<bool>, base: nat): seq<bool>
  {
    if s == [] then []
    else DataOf(s[..|s| - 1], base) + (if IsParitySlot(|s| - 1 + base) then [] else [s[|s| - 1]])
  }

  /** Reading one more slot appends its bit when it is a data slot. */
  lemma DataOfSnoc(s: seq<bool>, x: bool, base: nat)
    ensures DataOf(s + [x], base) == DataOf(s, base) + (if IsParitySlot(|s| + base) then [] else [x])
  {
    assert (s + [x])[..|s|] == s;
  }

  /** A run starting in slot 0 or 1 yields one data bit per data slot it covers. */
  lemma {:induction false} DataOfLength(s: seq<bool>, base: nat)
    requires base <= 1
    ensures |DataOf(s, base)| == DataSlotsBelow(|s| + base)
  {
    if s == [] {
      assert IsParitySlot(0);
    } else {
      DataOfLength(s[..|s| - 1], base);
    }
  }

  /** Of the 2^q slots 0 .. 2^q - 1, all but q + 1 (slot 0 and the q powers of two) hold data. */
  lemma {:induction false} DataSlotsOfPow2(q: nat)
    ensures DataSlotsBelow(Pow2(q)) == Pow2(q) - q - 1
  {
    if q == 0 {
      assert DataSlotsBelow(1) == 0 by { assert IsParitySlot(0); }
    } else {
      DataSlotsOfPow2(q - 1);
      var P := Pow2(q - 1);
      DataSlotsAbove(q - 1, P);
    }
  }

  /** Slots 2^q + 1 .. 2^q + j - 1 all hold data, slot 2^q is parity. */
  lemma {:induction false} DataSlotsAbove(q: nat, j: nat)
    requires 1 <= j <= Pow2(q)
    ensures DataSlotsBelow(Pow2(q) + j) == DataSlotsBelow(Pow2(q)) + j - 1
  {
    var P := Pow2(q);
    if j == 1 {
      Pow2IsPowerOfTwo(q);
      assert IsParitySlot(P);
    } else {
      DataSlotsAbove(q, j - 1);
      NoPowerOfTwoBetween(q, P + j - 1);
    }
  }

  /** Overwriting a parity slot does not change the data bits. */
  lemma {:induction false} DataOfIgnoresParity(s: seq<bool>, base: nat, i: nat, x: bool)
    requires i < |s| && IsParitySlot(i + base)
    ensures DataOf(s[i := x], base) == DataOf(s, base)
  {
    var n := |s| - 1;
    if i == n {
      assert s[i := x][..n] == s[..n];
    } else {
      assert s[i := x][..n] == s[..n][i := x];
      DataOfIgnoresParity(s[..n], base, i, x);
    }
  }

  /** Dropping a leading slot 0 (always parity) and counting from slot 1
      gives the same data bits. */
  lemma {:induction false} DataOfShift(s: seq<bool>)
    requires |s| >= 1
    ensures DataOf(s[1..], 1) == DataOf(s, 0)
  {
    var n := |s| - 1;
    if n == 0 {
      assert s[1..] == [];
      assert DataOf(s[..0], 0) == [];
    } else {
      assert s[1..][..n - 1] == s[..n][1..];
      DataOfShift(s[..n]);
    }
  }
}
