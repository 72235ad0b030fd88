/** Finite sums f(0) + ... + f(n-1) of integer terms, with the regrouping laws the transforms need. */
module Summation {
  import opened ModularArithmetic

  ghost function Sum(f: int -> int, n: nat): int {
    if n == 0 then 0 else Sum(f, n - 1) + f(n - 1)
  }

  lemma {:induction false} SumExt(f: int -> int, g: int -> int, n: nat)
    requires forall i :: 0 <= i < n ==> f(i) == g(i)
    ensures Sum(f, n) == Sum(g, n)
  {
    if n > 0 {
      SumExt(f, g, n - 1);
    }
  }

  lemma {:induction false} SumCong(f: int -> int, g: int -> int, n: nat, q: int)
    requires forall i :: 0 <= i < n ==> Cong(f(i), g(i), q)
    ensures Cong(Sum(f, n), Sum(g, n), q)
  {
    if n == 0 {
      CongRefl(0, q);
    } else {
      SumCong(f, g, n - 1, q);
      CongAdd(Sum(f, n - 1), Sum(g, n - 1), f(n - 1), g(n - 1), q);
    }
  }

  lemma {:induction false} SumAdd(f: int -> int, g: int -> int, n: nat)
    ensures Sum(i => f(i) + g(i), n) == Sum(f, n) + Sum(g, n)
  {
    if n > 0 {
      SumAdd(f, g, n - 1);
    }
  }

  lemma {:induction false} SumScale(c: int, f: int -> int, n: nat)
    ensures Sum(i => c * f(i), n) == c * Sum(f, n)
  {
    if n > 0 {
      SumScale(c, f, n - 1);
    }
  }

  /** Terms that are c times those of another sum. */
  lemma SumScaled(c: int, f: int -> int, g: int -> int, n: nat)
    requires forall i :: 0 <= i < n ==> g(i) == c * f(i)
    ensures Sum(g, n) == c * Sum(f, n)
  {
    SumExt(g, i => c * f(i), n);
    SumScale(c, f, n);
  }

  lemma SumCongScaled(c: int, f: int -> int, g: int -> int, n: nat, q: int)
    requires forall i :: 0 <= i < n ==> Cong(g(i), c * f(i), q)
    ensures Cong(Sum(g, n), c * Sum(f, n), q)
  {
    SumCong(g, i => c * f(i), n, q);
    SumScale(c, f, n);
  }

  lemma {:induction false} SumZero(f: int -> int, n: nat)
    requires forall i :: 0 <= i < n ==> f(i) == 0
    ensures Sum(f, n) == 0
  {
    if n > 0 {
      SumZero(f, n - 1);
    }
  }

  /** Only the term at k contributes. */
  lemma {:induction false} SumSingle(f: int -> int, k: nat, n: nat)
    requires k < n
    requires forall i :: 0 <= i < n && i != k ==> f(i) == 0
    ensures Sum(f, n) == f(k)
  {
    if k == n - 1 {
      SumZero(f, n - 1);
    } else {
      SumSingle(f, k, n - 1);
    }
  }

  lemma {:induction false} SumSplit(f: int -> int, m: nat, n: nat)
    ensures Sum(f, m + n) == Sum(f, m) + Sum(i => f(m + i), n)
  {
    if n > 0 {
      SumSplit(f, m, n - 1);
    }
  }

  /** Only the terms from j up to j + m contribute. */
  lemma SumWindow(f: int -> int, j: nat, m: nat, n: nat)
    requires j + m <= n
    requires forall i :: 0 <= i < j || j + m <= i < n ==> f(i) == 0
    ensures Sum(f, n) == Sum(i => f(j + i), m)
  {
    SumSplit(f, j, n - j);
    SumZero(f, j);
    var g := i => f(j + i);
    SumSplit(g, m, n - j - m);
    SumZero(i => g(m + i), n - j - m);
  }

  /** Splitting by parity: the sums that the two halves of a radix-2 step compute. */
  lemma {:induction false} SumEvenOdd(f: int -> int, h: nat)
    ensures Sum(f, 2 * h) == Sum(i => f(2 * i), h) + Sum(i => f(2 * i + 1), h)
  {
    if h > 0 {
      SumEvenOdd(f, h - 1);
      assert Sum(f, 2 * h) == Sum(f, 2 * (h - 1)) + f(2 * (h - 1)) + f(2 * (h - 1) + 1);
    }
  }

  /** Exchanging the order of a double sum. */
  lemma {:induction false} SumSwap(f: (int, int) -> int, m: nat, n: nat)
    ensures Sum(i => Sum(j => f(i, j), n), m) == Sum(j => Sum(i => f(i, j), m), n)
  {
    if m == 0 {
      SumZero(j => Sum(i => f(i, j), m), n);
    } else {
      var prev := (j: int) => Sum(i => f(i, j), m - 1);
      var last := (j: int) => f(m - 1, j);
      SumSwap(f, m - 1, n);
      SumAdd(prev, last, n);
      SumExt(j => Sum(i => f(i, j), m), j => prev(j) + last(j), n);
    }
  }
}
