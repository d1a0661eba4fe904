/** Unbounded-integer models of the bit operations the codec performs on
    `u32` and `usize`: powers of two, `is_power_of_two`, `ilog2`, `^` and the
    single-bit test `v & idx != 0`. */
module BitArith {

  /** 2^k, as `2u32.pow(k)` without the 32-bit overflow. */
  function Pow2(k: nat): (r: nat)
    ensures r >= 1
  {
    if k == 0 then 1 else 2 * Pow2(k - 1)
  }

  /** `n.is_power_of_two()`: 1, 2, 4, ...; false for 0. */
  predicate IsPowerOfTwo(n: nat)
  {
    if n <= 1 then n == 1 else n % 2 == 0 && IsPowerOfTwo(n / 2)
  }

  /** `n.ilog2()`: the exponent of the largest power of two not above n. */
  function Log2(n: nat): (r: nat)
    requires n >= 1
    ensures Pow2(r) <= n < Pow2(r + 1)
  {
    if n == 1 then 0 else 1 + Log2(n / 2)
  }

  /** Bitwise exclusive or `a ^ b`, one binary digit at a time. */
  function Xor(a: nat, b: nat): nat
    decreases a + b
  {
    if a == 0 && b == 0 then 0 else 2 * Xor(a / 2, b / 2) + (if a % 2 == b % 2 then 0 else 1)
  }

  function Min(a: nat, b: nat): nat
  {
    if a <= b then a else b
  }

  /** Division rounded up, as in the number of chunks of width `d` that cover `n` bits. */
  function CeilDiv(n: nat, d: nat): nat
    requires d >= 1
  {
    (n + d - 1) / d
  }

  /** One more chunk's worth of bits needs exactly one more chunk. */
  lemma CeilDivStep(x: nat, d: nat)
    requires d >= 1
    ensures CeilDiv(x + d, d) == CeilDiv(x, d) + 1
  {
    var q, r := (x + d - 1) / d, (x + d - 1) % d;
    DivModUnique(x + d + d - 1, d, q + 1, r);
  }

  /** Between 1 and d bits fit in one chunk; no bits need none. */
  lemma CeilDivSmall(x: nat, d: nat)
    requires d >= 1 && x <= d
    ensures CeilDiv(x, d) == if x == 0 then 0 else 1
  {
    if x == 0 {
      DivModUnique(d - 1, d, 0, d - 1);
    } else {
      DivModUnique(x + d - 1, d, 1, x - 1);
    }
  }

  /** A positive multiple of `n` is at least `n`, and `n` less is a multiple too. */
  lemma MultipleStep(x: nat, n: nat)
    requires n > 0 && x > 0 && x % n == 0
    ensures x >= n && (x - n) % n == 0
  {
    var q := x / n;
    assert x == q * n;
    assert q >= 1;
    MulSucc(q - 1, n);
    DivModUnique(x - n, n, q - 1, 0);
  }

  /** (j + 1) * n == j * n + n. */
  lemma MulSucc(j: nat, n: nat)
    ensures (j + 1) * n == j * n + n
  {
  }

  /** j * n by repeated addition: the offset of the `j`-th chunk of width `n`. */
  function Times(j: nat, n: nat): nat
  {
    if j == 0 then 0 else Times(j - 1, n) + n
  }

  lemma TimesStep(j: nat, n: nat)
    ensures Times(j + 1, n) == Times(j, n) + n
  {
  }

  /** `v & idx != 0` for a power of two `idx`: the bit of weight `idx` is set. */
  predicate HasBit(v: nat, idx: nat)
    requires idx >= 1
  {
    (v / idx) % 2 == 1
  }

  /** Binary digit `k` of `v` (weight 2^k). */
  predicate BitAt(v: nat, k: nat)
  {
    if k == 0 then v % 2 == 1 else BitAt(v / 2, k - 1)
  }

  /** The single-bit test `v & 2^k != 0` reads digit `k`. */
  lemma {:induction false} HasBitAt(v: nat, k: nat)
    ensures HasBit(v, Pow2(k)) == BitAt(v, k)
  {
    if k > 0 {
      HasBitAt(v / 2, k - 1);
      HalfThenDivide(v, k);
    }
  }

  /** The bits of `f` of weight below 2^t, collected one weight at a time. */
  function LowBits(f: nat, t: nat): (r: nat)
    ensures r < Pow2(t)
  {
    if t == 0 then 0 else LowBits(f, t - 1) + (if BitAt(f, t - 1) then Pow2(t - 1) else 0)
  }

  /** Collecting the low `t` bits is reducing modulo 2^t. */
  lemma {:induction false} LowBitsIsMod(f: nat, t: nat)
    ensures LowBits(f, t) == f % Pow2(t)
  {
    if t > 0 {
      LowBitsIsMod(f, t - 1);
      ModDouble(f, Pow2(t - 1));
      HasBitAt(f, t - 1);
    }
  }

  lemma {:induction false} Pow2Monotone(i: nat, j: nat)
    requires i <= j
    ensures Pow2(i) <= Pow2(j)
  {
    if i < j {
      Pow2Monotone(i, j - 1);
    }
  }

  lemma {:induction false} Pow2StrictlyMonotone(i: nat, j: nat)
    requires i < j
    ensures Pow2(i) < Pow2(j)
  {
    if i < j - 1 {
      Pow2StrictlyMonotone(i, j - 1);
    }
  }

  /** 2^k >= k + 2 once k >= 2. */
  lemma {:induction false} Pow2ExceedsBy2(k: nat)
    requires k >= 2
    ensures Pow2(k) >= k + 2
  {
    if k > 2 {
      Pow2ExceedsBy2(k - 1);
    } else {
      assert Pow2(2) == 4;
    }
  }

  /** 2^k >= k + 1: the closed-form dimensions never go negative. */
  lemma {:induction false} Pow2Exceeds(k: nat)
    ensures Pow2(k) >= k + 1
  {
    if k > 0 {
      Pow2Exceeds(k - 1);
    }
  }

  /** A number is a power of two exactly when it is 2 raised to its own `ilog2`. */
  lemma {:induction false} PowerOfTwoIsPow2(n: nat)
    ensures IsPowerOfTwo(n) <==> n >= 1 && n == Pow2(Log2(n))
  {
    if n >= 2 {
      PowerOfTwoIsPow2(n / 2);
    }
  }

  /** Every 2^k is a power of two, and `ilog2` gives k back. */
  lemma {:induction false} Pow2IsPowerOfTwo(k: nat)
    ensures IsPowerOfTwo(Pow2(k)) && Log2(Pow2(k)) == k
  {
    if k > 0 {
      Pow2IsPowerOfTwo(k - 1);
    }
  }

  /** No power of two lies strictly between 2^q and 2^(q+1). */
  lemma NoPowerOfTwoBetween(q: nat, n: nat)
    requires Pow2(q) < n < Pow2(q + 1)
    ensures !IsPowerOfTwo(n)
  {
    if IsPowerOfTwo(n) {
      PowerOfTwoIsPow2(n);
      var j := Log2(n);
      if j <= q {
        Pow2Monotone(j, q);
      } else {
        Pow2Monotone(q + 1, j);
      }
    }
  }

  lemma {:induction false} MulAtLeast(x: int, d: int)
    requires x >= 1 && d > 0
    ensures x * d >= d
    decreases x
  {
    if x > 1 {
      MulAtLeast(x - 1, d);
      assert x * d == (x - 1) * d + d;
    }
  }

  /** Division is determined by any quotient-remainder pair. */
  lemma DivModUnique(f: int, d: int, q: int, r: int)
    requires d > 0 && 0 <= r < d && f == q * d + r
    ensures f / d == q && f % d == r
  {
    var q', r' := f / d, f % d;
    assert f == q' * d + r';
    if q' > q {
      assert (q' - q) * d == r - r';
      MulAtLeast(q' - q, d);
    } else if q' < q {
      assert (q - q') * d == r' - r;
      MulAtLeast(q - q', d);
    }
  }

  /** Dividing by 2 and then by 2^(k-1) is dividing by 2^k. */
  lemma HalfThenDivide(x: nat, k: nat)
    requires k >= 1
    ensures (x / 2) / Pow2(k - 1) == x / Pow2(k)
  {
    var P := Pow2(k - 1);
    var q, r := (x / 2) / P, (x / 2) % P;
    assert x / 2 == q * P + r;
    assert x == q * (2 * P) + (2 * r + x % 2);
    DivModUnique(x, 2 * P, q, 2 * r + x % 2);
  }

  /** The remainder modulo 2P adds the bit of weight P to the remainder modulo P. */
  lemma ModDouble(f: nat, P: nat)
    requires P >= 1
    ensures f % (2 * P) == f % P + (if HasBit(f, P) then P else 0)
  {
    var q, r := f / P, f % P;
    var h, b := q / 2, q % 2;
    assert f == q * P + r;
    assert f == h * (2 * P) + (b * P + r) by {
      assert q == 2 * h + b;
      assert q * P == (2 * h + b) * P == h * (2 * P) + b * P;
    }
    DivModUnique(f, 2 * P, h, b * P + r);
  }

  lemma {:induction false} XorZero(a: nat)
    ensures Xor(a, 0) == a && Xor(0, a) == a
  {
    if a > 0 {
      XorZero(a / 2);
    }
  }

  lemma {:induction false} XorCommutes(a: nat, b: nat)
    ensures Xor(a, b) == Xor(b, a)
    decreases a + b
  {
    if a != 0 || b != 0 {
      XorCommutes(a / 2, b / 2);
    }
  }

  /** The defining recursion, also when both operands are 0. */
  lemma XorUnfold(a: nat, b: nat)
    ensures Xor(a, b) == 2 * Xor(a / 2, b / 2) + (if a % 2 == b % 2 then 0 else 1)
  {
    if a == 0 && b == 0 {
      assert Xor(0, 0) == 0;
    }
  }

  /** The low digit and the remaining digits of `a ^ b`. */
  lemma XorDigits(a: nat, b: nat)
    ensures Xor(a, b) % 2 == (if a % 2 == b % 2 then 0 else 1)
    ensures Xor(a, b) / 2 == Xor(a / 2, b / 2)
  {
    XorUnfold(a, b);
  }

  /** A number is determined by its low digit and the rest. */
  lemma SameDigits(x: nat, y: nat)
    requires x % 2 == y % 2 && x / 2 == y / 2
    ensures x == y
  {
  }

  lemma {:induction false} XorAssociates(a: nat, b: nat, c: nat)
    ensures Xor(Xor(a, b), c) == Xor(a, Xor(b, c))
    decreases a + b + c
  {
    if a + b + c > 0 {
      var ab, bc := Xor(a, b), Xor(b, c);
      XorDigits(a, b);
      XorDigits(b, c);
      XorDigits(ab, c);
      XorDigits(a, bc);
      XorAssociates(a / 2, b / 2, c / 2);
      SameDigits(Xor(ab, c), Xor(a, bc));
    }
  }

  /** The order in which two values are xored in does not matter. */
  lemma XorSwap(p: nat, x: nat, y: nat)
    ensures Xor(Xor(p, x), y) == Xor(Xor(p, y), x)
  {
    XorAssociates(p, x, y);
    XorCommutes(x, y);
    XorAssociates(p, y, x);
  }

  lemma {:induction false} XorSelf(a: nat)
    ensures Xor(a, a) == 0
  {
    if a > 0 {
      XorSelf(a / 2);
    }
  }

  /** Two values cancel under `^` only when they are equal. */
  lemma {:induction false} XorZeroOnlyIfEqual(a: nat, b: nat)
    ensures Xor(a, b) == 0 <==> a == b
    decreases a + b
  {
    if a == b {
      XorSelf(a);
    } else if a != 0 || b != 0 {
      XorZeroOnlyIfEqual(a / 2, b / 2);
    }
  }

  /** `^` of two values below 2^k stays below 2^k. */
  lemma {:induction false} XorBelow(a: nat, b: nat, k: nat)
    requires a < Pow2(k) && b < Pow2(k)
    ensures Xor(a, b) < Pow2(k)
  {
    if k > 0 && (a != 0 || b != 0) {
      XorBelow(a / 2, b / 2, k - 1);
    }
  }

  /** Setting a bit above every set bit of a is adding it. */
  lemma {:induction false} XorHighBit(a: nat, k: nat)
    requires a < Pow2(k)
    ensures Xor(a, Pow2(k)) == a + Pow2(k)
  {
    if k > 0 {
      XorHighBit(a / 2, k - 1);
    }
  }

  /** Applying `^ x` twice gives the value back. */
  lemma XorTwice(a: nat, x: nat)
    ensures Xor(Xor(a, x), x) == a
  {
    XorAssociates(a, x, x);
    XorSelf(x);
    XorZero(a);
  }
}
