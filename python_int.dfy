/** The arithmetic of Python's arbitrary-precision non-negative integers that the
    compression and encryption programs rely on: powers of two, the right shift and
    `int.bit_length`. */
module PythonInt {

  function Pow2(n: nat): (p: nat)
    ensures p >= 1
  {
    if n == 0 then 1 else 2 * Pow2(n - 1)
  }

  lemma {:induction false} Pow2Monotone(a: nat, b: nat)
    requires a < b
    ensures Pow2(a) < Pow2(b)
    decreases b
  {
    if a < b - 1 {
      Pow2Monotone(a, b - 1);
    }
  }

  /** Eight more binary digits multiply by 256. */
  lemma Pow2Byte(n: nat)
    ensures Pow2(n + 8) == 256 * Pow2(n)
  {
    assert Pow2(n + 8) == 2 * Pow2(n + 7);
    assert Pow2(n + 7) == 2 * Pow2(n + 6);
    assert Pow2(n + 6) == 2 * Pow2(n + 5);
    assert Pow2(n + 5) == 2 * Pow2(n + 4);
    assert Pow2(n + 4) == 2 * Pow2(n + 3);
    assert Pow2(n + 3) == 2 * Pow2(n + 2);
  }

  /** Python's `>>`: the floor of `n` divided by 2 to the power `i`. */
  function Shr(n: nat, i: nat): nat
  {
    if i == 0 then n else Shr(n, i - 1) / 2
  }

  /** Python's `int.bit_length`: the number of binary digits, 0 for 0. */
  function BitLength(n: nat): (len: nat)
    ensures n > 0 ==> len >= 1
  {
    if n == 0 then 0 else 1 + BitLength(n / 2)
  }

  lemma {:induction false} ShrAdd(x: nat, i: nat, k: nat)
    ensures Shr(x, i + k) == Shr(Shr(x, k), i)
  {
    if i > 0 {
      ShrAdd(x, i - 1, k);
    }
  }

  /** A number of `b` binary digits lies in `[2^(b-1), 2^b)`. */
  lemma {:induction false} BitLengthBounds(n: nat)
    ensures n < Pow2(BitLength(n))
    ensures n > 0 ==> Pow2(BitLength(n) - 1) <= n
  {
    if n > 0 {
      BitLengthBounds(n / 2);
    }
  }
}
