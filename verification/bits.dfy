/** Powers of two and integer logarithms, as used by the Huffman table code. */
module Bits {

  /** 2^k (Rust's `1 << k` without the machine width). */
  function Pow2(k: nat): (r: nat)
    ensures r >= 1
  {
    if k == 0 then 1 else 2 * Pow2(k - 1)
  }

  lemma {:induction false} Pow2Add(a: nat, b: nat)
    ensures Pow2(a + b) == Pow2(a) * Pow2(b)
  {
    if a > 0 {
      Pow2Add(a - 1, b);
      assert Pow2(a + b) == 2 * Pow2(a - 1 + b);
    }
  }

  lemma {:induction false} Pow2Monotone(a: nat, b: nat)
    requires a <= b
    ensures Pow2(a) <= Pow2(b)
  {
    if a < b {
      Pow2Monotone(a, b - 1);
    }
  }

  lemma {:induction false} Pow2StrictlyMonotone(a: nat, b: nat)
    requires a < b
    ensures Pow2(a) < Pow2(b)
  {
    Pow2Monotone(a, b - 1);
  }

  /** Rust's `usize::is_power_of_two`: true for 1, 2, 4, ... and false for 0. */
  predicate IsPowerOfTwo(x: nat)
  {
    if x == 0 then false
    else if x == 1 then true
    else x % 2 == 0 && IsPowerOfTwo(x / 2)
  }

  /** Rust's `ilog2`: the floor of the base-2 logarithm of a positive number. */
  function Log2(x: nat): (r: nat)
    requires x >= 1
    ensures Pow2(r) <= x < Pow2(r + 1)
  {
    if x == 1 then 0 else Log2(x / 2) + 1
  }

  /** A power of two is exactly 2^(log2 x). */
  lemma {:induction false} PowerOfTwoIsPow2(x: nat)
    requires IsPowerOfTwo(x)
    ensures x == Pow2(Log2(x))
  {
    if x > 1 {
      PowerOfTwoIsPow2(x / 2);
    }
  }

  lemma {:induction false} Pow2IsPowerOfTwo(k: nat)
    ensures IsPowerOfTwo(Pow2(k)) && Log2(Pow2(k)) == k
  {
    if k > 0 {
      Pow2IsPowerOfTwo(k - 1);
      assert Pow2(k) / 2 == Pow2(k - 1);
    }
  }

  /** The only divisors of a power of two are smaller powers of two. */
  lemma {:induction false} PowerOfTwoFactor(a: nat, k: nat, e: nat)
    requires a >= 1 && a * Pow2(k) == Pow2(e)
    ensures k <= e && a == Pow2(e - k) && IsPowerOfTwo(a)
  {
    if k == 0 {
      Pow2IsPowerOfTwo(e);
    } else {
      assert e > 0;
      assert 2 * (a * Pow2(k - 1)) == 2 * Pow2(e - 1);
      PowerOfTwoFactor(a, k - 1, e - 1);
    }
  }

  /** Log2 is determined by the bracketing powers of two. */
  lemma {:induction false} Log2Unique(x: nat, k: nat)
    requires Pow2(k) <= x < Pow2(k + 1)
    ensures Log2(x) == k
  {
    var r := Log2(x);
    if r < k {
      Pow2Monotone(r + 1, k);
    } else if r > k {
      Pow2Monotone(k + 1, r);
    }
  }
}
