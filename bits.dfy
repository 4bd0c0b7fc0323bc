/**
 * Bit-length arithmetic shared by the encoder: powers of two and the number
 * of significant bits of a value (the `log2n` helper of the codec).
 */
module Bits {

  /** 2 to the power k. */
  function Pow2(k: nat): (r: nat)
    ensures r >= 1
  {
    if k == 0 then 1 else 2 * Pow2(k - 1)
  }

  lemma {:induction false} Pow2Monotone(j: nat, k: nat)
    requires j <= k
    ensures Pow2(j) <= Pow2(k)
  {
    if j < k {
      Pow2Monotone(j, k - 1);
    }
  }

  /**
   * Number of significant bits of n: 0 for 0, otherwise the position of the
   * highest set bit plus one.
   */
  function BitLen(n: nat): (r: nat)
    ensures r <= n
    ensures n > 0 ==> r >= 1
  {
    if n == 0 then 0 else 1 + BitLen(n / 2)
  }

  /** BitLen(n) is the unique k with 2^(k-1) <= n < 2^k (and 0 for n = 0). */
  lemma {:induction false} BitLenBounds(n: nat)
    ensures n == 0 <==> BitLen(n) == 0
    ensures n > 0 ==> Pow2(BitLen(n) - 1) <= n < Pow2(BitLen(n))
  {
    if n > 1 {
      BitLenBounds(n / 2);
    }
  }

  /** Fitting in k bits is the same as being below 2^k. */
  lemma BitLenAtMost(n: nat, k: nat)
    ensures BitLen(n) <= k <==> n < Pow2(k)
  {
    BitLenBounds(n);
    if n > 0 {
      if BitLen(n) <= k {
        Pow2Monotone(BitLen(n), k);
      } else {
        Pow2Monotone(k, BitLen(n) - 1);
      }
    }
  }

  /** The bounds of BitLenBounds determine the bit length. */
  lemma BitLenUnique(n: nat, k: nat)
    requires 1 <= k
    requires Pow2(k - 1) <= n < Pow2(k)
    ensures BitLen(n) == k
  {
    BitLenAtMost(n, k);
    BitLenAtMost(n, k - 1);
  }

  /**
   * The source's shift loop: count how often the value can be halved before
   * it reaches zero.
   */
  method Log2n(number: nat) returns (answer: nat)
    ensures answer == BitLen(number)
    ensures number == 0 ==> answer == 0
    ensures number > 0 ==> Pow2(answer - 1) <= number < Pow2(answer)
  {
    answer := 0;
    var n := number;
    while n > 0
      invariant answer + BitLen(n) == BitLen(number)
      decreases n
    {
      answer := answer + 1;
      n := n / 2;
    }
    BitLenBounds(number);
  }
}
