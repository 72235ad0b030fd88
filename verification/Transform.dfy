/**
 The discrete Fourier transform over the integers modulo q, as the naive sum, and what the radix-2 step
 does to it. Nothing here follows the fast algorithm: Fft.dfy is proved against these definitions.
 */
module Transform {
  import opened ModularArithmetic
  import opened Summation

  ghost function At(x: seq<int>, j: int): int {
    if 0 <= j < |x| then x[j] else 0
  }

  /** w to the power e, where w is an n-th root of unity and e is any integer. */
  ghost function Tw(w: int, n: int, e: int): int
    requires n > 0
  {
    Pow(w, e % n)
  }

  /** The term of degree j, at the point w to the power e. */
  ghost function Monomial(x: seq<int>, w: int, n: int, e: int, j: int): int
    requires n > 0
  {
    At(x, j) * Tw(w, n, e * j)
  }

  /** The polynomial with coefficients x, evaluated at w to the power e. */
  ghost function EvalAt(x: seq<int>, w: int, n: int, e: int): int
    requires n > 0
  {
    Sum(j => Monomial(x, w, n, e, j), |x|)
  }

  /** The naive transform: entry k is the sum of x[j] * w^(-jk), reduced into [0, q). */
  ghost function DFT(x: seq<int>, w: int, q: int): seq<int>
    requires |x| > 0 && q > 0
  {
    seq(|x|, k requires 0 <= k < |x| => EvalMod(x, w, |x|, -k, q))
  }

  lemma DftAt(x: seq<int>, w: int, q: int, k: int)
    requires q > 0 && 0 <= k < |x|
    ensures DFT(x, w, q)[k] == EvalMod(x, w, |x|, -k, q)
  {
  }

  ghost function EvalMod(x: seq<int>, w: int, n: int, e: int, q: int): int
    requires n > 0 && q > 0
  {
    EvalAt(x, w, n, e) % q
  }

  /** What the radix-2 algorithm needs of a root: its (n/2)-th power is -1. */
  ghost predicate Primitive(w: int, n: int, q: int)
    requires n > 0
  {
    if n == 1 then Cong(w, 1, q) else n % 2 == 0 && Cong(Pow(w, n / 2), -1, q)
  }

  lemma PrimitiveIsRoot(w: int, n: int, q: int)
    requires n > 0 && Primitive(w, n, q)
    ensures Cong(Pow(w, n), 1, q)
  {
    hide Pow, Cong;
    if n == 1 {
      FirstPower(w);
    } else {
      SquareOfHalf(w, n / 2, q);
      assert n == n / 2 + n / 2;
    }
  }

  lemma FirstPower(w: int)
    ensures Pow(w, 1) == w
  {
    assert Pow(w, 1) == w * Pow(w, 0);
  }

  lemma SquareOfHalf(w: int, h: nat, q: int)
    requires Cong(Pow(w, h), -1, q)
    ensures Cong(Pow(w, h + h), 1, q)
  {
    hide Pow, Cong;
    PowAdd(w, h, h);
    CongMul(Pow(w, h), -1, Pow(w, h), -1, q);
  }

  lemma TwAdd(w: int, n: int, q: int, a: int, b: int)
    requires n > 0 && Cong(Pow(w, n), 1, q)
    ensures Cong(Tw(w, n, a + b), Tw(w, n, a) * Tw(w, n, b), q)
  {
    hide Cong;
    ModSum(a, b, n);
    var s := a % n + b % n;
    PowAdd(w, a % n, b % n);
    if s < n {
      CongRefl(Pow(w, s), q);
    } else {
      PowAdd(w, s - n, n);
      CongScale(Pow(w, s - n), Pow(w, n), 1, q);
      CongSym(Pow(w, s), Pow(w, s - n), q);
    }
  }

  lemma TwPeriodic(w: int, n: int, e: int, m: int)
    requires n > 0
    ensures Tw(w, n, e + m * n) == Tw(w, n, e)
  {
    assert e + m * n == (e / n + m) * n + e % n by {
      assert e == n * (e / n) + e % n;
    }
    ModOfMultiple(e % n, e / n + m, n);
  }

  lemma CongNegate(x: int, t: int, u: int, q: int)
    requires Cong(x, t * u, q) && Cong(u, -1, q)
    ensures Cong(x, -t, q)
  {
    CongScale(t, u, -1, q);
    CongTrans(x, t * u, t * -1, q);
  }

  lemma TwHalf(w: int, n: int, q: int, e: int)
    requires n > 1 && Primitive(w, n, q)
    ensures Cong(Tw(w, n, e + n / 2), -Tw(w, n, e), q)
  {
    PrimitiveIsRoot(w, n, q);
    TwOfHalf(w, n);
    hide Cong, Tw, Pow;
    TwAdd(w, n, q, e, n / 2);
    CongNegate(Tw(w, n, e + n / 2), Tw(w, n, e), Tw(w, n, n / 2), q);
  }

  lemma TwOfHalf(w: int, n: int)
    requires n > 1
    ensures Tw(w, n, n / 2) == Pow(w, n / 2)
  {
    assert (n / 2) % n == n / 2;
  }

  lemma EvalPeriodic(x: seq<int>, w: int, n: int, e: int, m: int)
    requires n > 0
    ensures EvalAt(x, w, n, e + m * n) == EvalAt(x, w, n, e)
  {
    forall j | 0 <= j < |x|
      ensures Monomial(x, w, n, e + m * n, j) == Monomial(x, w, n, e, j)
    {
      assert (e + m * n) * j == e * j + (m * j) * n;
      TwPeriodic(w, n, e * j, m * j);
    }
    SumExt(j => Monomial(x, w, n, e + m * n, j), j => Monomial(x, w, n, e, j), |x|);
  }

  function Even(x: seq<int>): (y: seq<int>)
    ensures |y| == |x| / 2
  {
    seq(|x| / 2, i requires 0 <= i < |x| / 2 => x[2 * i])
  }

  function Odd(x: seq<int>): (y: seq<int>)
    ensures |y| == |x| / 2
  {
    seq(|x| / 2, i requires 0 <= i < |x| / 2 => x[2 * i + 1])
  }

  lemma OddTerm(c: int, w: int, n: int, q: int, e: int, i: int)
    requires n > 0 && Cong(Pow(w, n), 1, q)
    ensures Cong(c * Tw(w, n, e * (2 * i + 1)), Tw(w, n, e) * (c * Tw(w, n, 2 * e * i)), q)
  {
    hide Cong, Tw;
    var d := 2 * e * i;
    assert e * (2 * i + 1) == e + d;
    TwAdd(w, n, q, e, d);
    CongScale(c, Tw(w, n, e + d), Tw(w, n, e) * Tw(w, n, d), q);
    MulSwap(c, Tw(w, n, e), Tw(w, n, d));
  }

  lemma EvenPart(x: seq<int>, w: int, n: int, e: int, f: int -> int)
    requires n > 0
    requires forall i :: 0 <= i < |x| / 2 ==> f(i) == Monomial(x, w, n, e, 2 * i)
    ensures Sum(f, |x| / 2) == EvalAt(Even(x), w, n, 2 * e)
  {
    var ev := i => Monomial(Even(x), w, n, 2 * e, i);
    forall i | 0 <= i < |x| / 2
      ensures f(i) == ev(i)
    {
      assert e * (2 * i) == 2 * e * i;
    }
    SumExt(f, ev, |x| / 2);
  }

  lemma OddPart(x: seq<int>, w: int, n: int, q: int, e: int, f: int -> int)
    requires n > 0 && Cong(Pow(w, n), 1, q)
    requires forall i :: 0 <= i < |x| / 2 ==> f(i) == Monomial(x, w, n, e, 2 * i + 1)
    ensures Cong(Sum(f, |x| / 2), Tw(w, n, e) * EvalAt(Odd(x), w, n, 2 * e), q)
  {
    var od := i => Monomial(Odd(x), w, n, 2 * e, i);
    var scaled := i => Tw(w, n, e) * od(i);
    forall i | 0 <= i < |x| / 2
      ensures Cong(f(i), scaled(i), q)
    {
      OddTerm(At(Odd(x), i), w, n, q, e, i);
    }
    SumCong(f, scaled, |x| / 2, q);
    SumScale(Tw(w, n, e), od, |x| / 2);
  }

  /** Decimation in time: a polynomial at y is its even part at y^2 plus y times its odd part at y^2. */
  lemma EvalSplit(x: seq<int>, w: int, n: int, q: int, e: int)
    requires n > 0 && Cong(Pow(w, n), 1, q) && |x| % 2 == 0
    ensures Cong(EvalAt(x, w, n, e), EvalAt(Even(x), w, n, 2 * e) + Tw(w, n, e) * EvalAt(Odd(x), w, n, 2 * e), q)
  {
    var h := |x| / 2;
    var f := j => Monomial(x, w, n, e, j);
    var even, odd := i => f(2 * i), i => f(2 * i + 1);
    SumEvenOdd(f, h);
    EvenPart(x, w, n, e, even);
    OddPart(x, w, n, q, e, odd);
    CongRefl(Sum(even, h), q);
    CongAdd(Sum(even, h), Sum(even, h), Sum(odd, h), Tw(w, n, e) * EvalAt(Odd(x), w, n, 2 * e), q);
  }

  lemma CongMinus(x: int, a: int, b: int, t: int, u: int, q: int)
    requires Cong(x, a + t * b, q) && Cong(t, -u, q)
    ensures Cong(x, a - u * b, q)
  {
    CongScale(b, t, -u, q);
    CongRefl(a, q);
    CongAdd(a, a, b * t, b * -u, q);
    assert b * t == t * b && b * -u == -(u * b);
    CongTrans(x, a + t * b, a - u * b, q);
  }

  /** The two outputs of one butterfly. Shifting the exponent by n/2 either way flips the odd part's sign. */
  lemma Butterfly(x: seq<int>, w: int, n: int, q: int, e: int, s: int)
    requires n > 1 && Primitive(w, n, q) && |x| % 2 == 0 && (s == 1 || s == -1)
    ensures Cong(EvalAt(x, w, n, e), EvalAt(Even(x), w, n, 2 * e) + Tw(w, n, e) * EvalAt(Odd(x), w, n, 2 * e), q)
    ensures Cong(EvalAt(x, w, n, e + s * (n / 2)),
                 EvalAt(Even(x), w, n, 2 * e) - Tw(w, n, e) * EvalAt(Odd(x), w, n, 2 * e), q)
  {
    PrimitiveIsRoot(w, n, q);
    EvalSplit(x, w, n, q, e);
    var e' := e + s * (n / 2);
    EvalSplit(x, w, n, q, e');
    assert 2 * e' == 2 * e + s * n;
    EvalPeriodic(Even(x), w, n, 2 * e, s);
    EvalPeriodic(Odd(x), w, n, 2 * e, s);
    TwShift(w, n, q, e, s);
    CongMinus(EvalAt(x, w, n, e'), EvalAt(Even(x), w, n, 2 * e), EvalAt(Odd(x), w, n, 2 * e),
              Tw(w, n, e'), Tw(w, n, e), q);
  }

  lemma TwShift(w: int, n: int, q: int, e: int, s: int)
    requires n > 1 && Primitive(w, n, q) && (s == 1 || s == -1)
    ensures Cong(Tw(w, n, e + s * (n / 2)), -Tw(w, n, e), q)
  {
    TwHalf(w, n, q, e);
    if s == -1 {
      assert e + n / 2 == e - n / 2 + 1 * n;
      TwPeriodic(w, n, e - n / 2, 1);
    }
  }
}
