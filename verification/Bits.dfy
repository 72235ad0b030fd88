/** The bit tricks of go/galois: n&(n-1) and bits.LeadingZeros64. */
module Bits {
  import opened ModularArithmetic

  predicate IsPowerOfTwo(n: nat) {
    n == 1 || (n > 0 && n % 2 == 0 && IsPowerOfTwo(n / 2))
  }

  /** Bitwise conjunction. */
  function And(a: nat, b: nat): nat {
    if a == 0 || b == 0 then 0
    else 2 * And(a / 2, b / 2) + (if a % 2 == 1 && b % 2 == 1 then 1 else 0)
  }

  /** 64 - bits.LeadingZeros64(n). */
  function BitLength(n: nat): nat {
    if n == 0 then 0 else 1 + BitLength(n / 2)
  }

  lemma {:induction false} AndSelf(a: nat)
    ensures And(a, a) == a
  {
    if a > 0 {
      AndSelf(a / 2);
    }
  }

  /** n&(n-1) clears the lowest set bit, so it is zero exactly for powers of two. */
  lemma {:induction false} AndPredecessor(n: nat)
    requires n > 0
    ensures And(n, n - 1) == 0 <==> IsPowerOfTwo(n)
  {
    if n % 2 == 1 {
      AndSelf(n / 2);
      assert (n - 1) / 2 == n / 2;
    } else {
      AndPredecessor(n / 2);
      assert (n - 1) / 2 == n / 2 - 1;
    }
  }

  lemma {:induction false} BitLengthBounds(n: nat)
    requires n > 0
    ensures n < Pow(2, BitLength(n)) <= 2 * n
  {
    Doubles(BitLength(n / 2));
    hide Pow;
    if n > 1 {
      BitLengthBounds(n / 2);
    }
  }

  lemma Doubles(e: nat)
    ensures Pow(2, 0) == 1 && Pow(2, e + 1) == 2 * Pow(2, e)
  {
  }

  lemma {:induction false} PowerOfTwoPow(e: nat)
    ensures Pow(2, e) > 0 && IsPowerOfTwo(Pow(2, e))
  {
    if e > 0 {
      PowerOfTwoPow(e - 1);
    }
  }

  /** Distinct powers of two differ at least by a factor of two. */
  lemma {:induction false} PowersOfTwoApart(m: nat, n: nat)
    requires IsPowerOfTwo(m) && IsPowerOfTwo(n) && m < n
    ensures 2 * m <= n
  {
    if m > 1 {
      PowersOfTwoApart(m / 2, n / 2);
    }
  }
}
