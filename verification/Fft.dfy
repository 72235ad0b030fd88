/** go/galois/fft.go: the recursive radix-2 transform over one shared table of twiddle factors. */
module Fft {
  import opened ModularArithmetic
  import opened Divisibility
  import opened Transform
  import opened Results
  import opened Field
  import opened Bits

  // ---- What the loops compute, as functions on sequences.

  /** Go's truncated remainder. */
  function GoRem(a: int, b: int): int
    requires b > 0
  {
    if a >= 0 then a % b else -((-a) % b)
  }

  /** The table index of the twiddle factor for output k, negative exponents wrapped around. */
  function RootIndex(k: nat, stride: nat, n: nat, inverse: bool): (i: int)
    requires n > 0
    ensures 0 <= i < n && i == Exponent(k, stride, inverse) % n
  {
    var e := Exponent(k, stride, inverse);
    GoRemWraps(e, n);
    var r := GoRem(e, n);
    if !inverse && r < 0 then r + n else r
  }

  /** The power of the root that output k of a sub-transform with the given stride is evaluated at. */
  function Exponent(k: int, stride: int, inverse: bool): (e: int)
    ensures inverse && k >= 0 && stride >= 0 ==> e >= 0
  {
    if inverse then k * stride else -k * stride
  }

  lemma GoRemWraps(e: int, n: int)
    requires n > 0
    ensures var r := GoRem(e, n); e % n == (if r < 0 then r + n else r) && (e >= 0 ==> r >= 0)
  {
    if e < 0 {
      var r := (-e) % n;
      assert -e == n * (-e / n) + r;
      if r == 0 {
        assert e == -(-e / n) * n + 0;
        ModOfMultiple(0, -(-e / n), n);
      } else {
        assert e == (-(-e / n) - 1) * n + (n - r);
        ModOfMultiple(n - r, -(-e / n) - 1, n);
      }
    }
  }

  /** The result of cooleyTukey: both halves recombined by butterflies, nothing reduced. */
  function Transformed(xs: seq<int>, roots: seq<int>, stride: nat, inverse: bool): (freq: seq<int>)
    requires IsPowerOfTwo(|xs|) && |roots| > 0
    ensures |freq| == |xs|
    decreases |xs|
  {
    if |xs| == 1 then [xs[0]]
    else
      Recombined(Transformed(Even(xs), roots, 2 * stride, inverse),
                 Transformed(Odd(xs), roots, 2 * stride, inverse), roots, stride, inverse)
  }

  lemma TransformedUnfold(xs: seq<int>, roots: seq<int>, stride: nat, inverse: bool)
    requires IsPowerOfTwo(|xs|) && |roots| > 0 && |xs| > 1
    ensures Transformed(xs, roots, stride, inverse) ==
            Recombined(Transformed(Even(xs), roots, 2 * stride, inverse),
                       Transformed(Odd(xs), roots, 2 * stride, inverse), roots, stride, inverse)
  {
  }

  lemma TransformedOne(xs: seq<int>, roots: seq<int>, stride: nat, inverse: bool)
    requires IsPowerOfTwo(|xs|) && |roots| > 0 && |xs| == 1
    ensures Transformed(xs, roots, stride, inverse) == [xs[0]]
  {
  }

  lemma HalvesOfPower(n: nat)
    requires IsPowerOfTwo(n) && n != 1
    ensures n > 1 && 2 * (n / 2) == n && IsPowerOfTwo(n / 2)
  {
  }

  function Twisted(odd: seq<int>, roots: seq<int>, stride: nat, inverse: bool, k: nat): int
    requires k < |odd| && |roots| > 0
  {
    odd[k] * roots[RootIndex(k, stride, |roots|, inverse)]
  }

  function Recombined(even: seq<int>, odd: seq<int>, roots: seq<int>, stride: nat, inverse: bool): (freq: seq<int>)
    requires |even| == |odd| && |roots| > 0
    ensures |freq| == 2 * |even|
  {
    var h := |even|;
    seq(2 * h, k requires 0 <= k < 2 * h =>
      if k < h then even[k] + Twisted(odd, roots, stride, inverse, k)
      else even[k - h] - Twisted(odd, roots, stride, inverse, k - h))
  }

  lemma RecombinedAt(even: seq<int>, odd: seq<int>, roots: seq<int>, stride: nat, inverse: bool, k: nat)
    requires |even| == |odd| && |roots| > 0 && k < |even|
    ensures var freq, t := Recombined(even, odd, roots, stride, inverse), Twisted(odd, roots, stride, inverse, k);
            freq[k] == even[k] + t && freq[k + |even|] == even[k] - t
  {
  }

  /** The checks of twiddleFactors, in their order. */
  function RootError(n: nat, root: int, q: nat): Option<Error>
    requires n > 0 && q > 1
  {
    if And(n, n - 1) != 0 then Some(NotPowerOfTwo)
    else if root == 1 then Some(RootIsOne)
    else if Exp(root, n, q) != 1 then Some(NotRootOfUnity)
    else None
  }

  function RootTable(n: nat, root: int, q: nat): (roots: seq<int>)
    requires q > 1
    ensures |roots| == n
  {
    seq(n, i requires 0 <= i < n => Exp(root, i, q))
  }

  function Reduced(x: seq<int>, q: nat): (y: seq<int>)
    requires q > 0
    ensures |y| == |x|
  {
    seq(|x|, i requires 0 <= i < |x| => x[i] % q)
  }

  /** What fft returns when the root is accepted. */
  function Frequencies(x: seq<int>, root: int, q: nat, inverse: bool): (freq: seq<int>)
    requires q > 1 && IsPowerOfTwo(|x|)
    ensures |freq| == |x|
  {
    Reduced(Transformed(x, RootTable(|x|, root, q), 1, inverse), q)
  }

  function ScaledBy(x: seq<int>, inv: int, q: nat): (y: seq<int>)
    requires q > 0
    ensures |y| == |x|
  {
    seq(|x|, i requires 0 <= i < |x| => Mul(x[i], inv, q))
  }

  // ---- The fast transform is the naive one.

  lemma CongButterfly(a: int, b: int, t: int, A: int, B: int, T: int, q: int)
    requires Cong(a, A, q) && Cong(b, B, q) && Cong(t, T, q)
    ensures Cong(a + b * t, A + T * B, q) && Cong(a - b * t, A - T * B, q)
  {
    CongMul(b, B, t, T, q);
    assert B * T == T * B;
    CongAdd(a, A, b * t, T * B, q);
    CongSub(a, A, b * t, T * B, q);
  }

  /** The shared table, read at any exponent. */
  ghost predicate HoldsPowers(roots: seq<int>, w: int, q: int) {
    forall i :: 0 <= i < |roots| ==> Cong(roots[i], Pow(w, i), q)
  }

  lemma OutputExponents(k: int, h: int, stride: int, n: int, inverse: bool)
    requires 0 <= k && 0 <= h && 0 <= stride && 2 * h * stride == n
    ensures Exponent(k, 2 * stride, inverse) == 2 * Exponent(k, stride, inverse)
    ensures Exponent(k + h, stride, inverse) ==
            Exponent(k, stride, inverse) + (if inverse then 1 else -1) * (n / 2)
  {
    assert n / 2 == h * stride by {
      assert 2 * (h * stride) == n;
    }
    assert (k + h) * stride == k * stride + h * stride;
    assert k * (2 * stride) == 2 * (k * stride);
    assert -k * (2 * stride) == 2 * (-k * stride);
    assert -(k + h) * stride == -k * stride - h * stride;
  }

  lemma HalfStride(m: nat, stride: nat, n: nat)
    requires m * stride == n && m % 2 == 0 && n > 0
    ensures (m / 2) * (2 * stride) == n && 2 * (m / 2) * stride == n && n > 1 && stride > 0
  {
    assert m == 2 * (m / 2);
    assert (m / 2) * (2 * stride) == 2 * (m / 2) * stride;
  }

  /** One level: if a and b are the halves' values at the doubled exponent, the butterfly gives the whole's. */
  lemma LevelEvaluates(xs: seq<int>, roots: seq<int>, stride: nat, inverse: bool, w: int, q: int, k: nat, j: nat,
                       a: int, b: int)
    requires |xs| % 2 == 0 && |xs| * stride == |roots| > 0
    requires Primitive(w, |roots|, q) && HoldsPowers(roots, w, q)
    requires k < |xs| && j == if k < |xs| / 2 then k else k - |xs| / 2
    requires Cong(a, EvalAt(Even(xs), w, |roots|, Exponent(j, 2 * stride, inverse)), q)
    requires Cong(b, EvalAt(Odd(xs), w, |roots|, Exponent(j, 2 * stride, inverse)), q)
    ensures Cong(Combined(a, b, roots[RootIndex(j, stride, |roots|, inverse)], k < |xs| / 2),
                 EvalAt(xs, w, |roots|, Exponent(k, stride, inverse)), q)
  {
    var n, e := |roots|, Exponent(j, stride, inverse);
    HalfStride(|xs|, stride, n);
    OutputExponents(j, |xs| / 2, stride, n, inverse);
    Butterfly(xs, w, n, q, e, if inverse then 1 else -1);
    CombinedCong(a, b, roots[RootIndex(j, stride, n, inverse)],
                 EvalAt(Even(xs), w, n, 2 * e), EvalAt(Odd(xs), w, n, 2 * e), Tw(w, n, e),
                 k < |xs| / 2, EvalAt(xs, w, n, Exponent(k, stride, inverse)), q);
  }

  /** Every sub-transform evaluates its slice of the input at the powers of the root its stride selects. */
  lemma {:induction false} TransformedEvaluates(xs: seq<int>, roots: seq<int>, stride: nat, inverse: bool,
                                                w: int, q: int, k: nat)
    requires IsPowerOfTwo(|xs|) && |xs| * stride == |roots| > 0
    requires Primitive(w, |roots|, q) && HoldsPowers(roots, w, q)
    requires k < |xs|
    ensures Cong(Transformed(xs, roots, stride, inverse)[k],
                 EvalAt(xs, w, |roots|, Exponent(k, stride, inverse)), q)
    decreases |xs|
  {
    if |xs| == 1 {
      EvalSingleton(xs, w, |roots|, Exponent(k, stride, inverse));
      CongRefl(xs[0], q);
    } else {
      var j := if k < |xs| / 2 then k else k - |xs| / 2;
      HalfStride(|xs|, stride, |roots|);
      TransformedEvaluates(Even(xs), roots, 2 * stride, inverse, w, q, j);
      TransformedEvaluates(Odd(xs), roots, 2 * stride, inverse, w, q, j);
      TransformedStep(xs, roots, stride, inverse, k, j);
      LevelEvaluates(xs, roots, stride, inverse, w, q, k, j,
                     Transformed(Even(xs), roots, 2 * stride, inverse)[j],
                     Transformed(Odd(xs), roots, 2 * stride, inverse)[j]);
    }
  }

  lemma EvalSingleton(xs: seq<int>, w: int, n: int, e: int)
    requires n > 0 && |xs| == 1
    ensures EvalAt(xs, w, n, e) == xs[0]
  {
    assert 0 % n == 0;
    assert e * 0 == 0;
    var f := j => Monomial(xs, w, n, e, j);
    Summation.SumSingle(f, 0, 1);
    assert f(0) == xs[0] * Pow(w, 0);
  }

  /** One level of recombination, unfolded at one output. */
  lemma TransformedStep(xs: seq<int>, roots: seq<int>, stride: nat, inverse: bool, k: nat, j: nat)
    requires IsPowerOfTwo(|xs|) && |xs| > 1 && |roots| > 0 && k < |xs|
    requires j == if k < |xs| / 2 then k else k - |xs| / 2
    ensures Transformed(xs, roots, stride, inverse)[k] ==
            Combined(Transformed(Even(xs), roots, 2 * stride, inverse)[j],
                     Transformed(Odd(xs), roots, 2 * stride, inverse)[j],
                     roots[RootIndex(j, stride, |roots|, inverse)], k < |xs| / 2)
  {
    TransformedUnfold(xs, roots, stride, inverse);
    var even, odd := Transformed(Even(xs), roots, 2 * stride, inverse), Transformed(Odd(xs), roots, 2 * stride, inverse);
    hide Recombined, Transformed, RootIndex;
    RecombinedAt(even, odd, roots, stride, inverse, j);
  }

  function Combined(a: int, b: int, t: int, first: bool): int {
    if first then a + b * t else a - b * t
  }

  lemma CombinedCong(a: int, b: int, t: int, A: int, B: int, T: int, first: bool, target: int, q: int)
    requires Cong(a, A, q) && Cong(b, B, q) && Cong(t, T, q)
    requires Cong(target, if first then A + T * B else A - T * B, q)
    ensures Cong(Combined(a, b, t, first), target, q)
  {
    CongButterfly(a, b, t, A, B, T, q);
    CongSym(target, if first then A + T * B else A - T * B, q);
    CongTrans(Combined(a, b, t, first), if first then A + T * B else A - T * B, target, q);
  }

  lemma RootTableHoldsPowers(n: nat, root: int, q: nat)
    requires q > 1
    ensures HoldsPowers(RootTable(n, root, q), root, q)
  {
    forall i | 0 <= i < n
      ensures Cong(RootTable(n, root, q)[i], Pow(root, i), q)
    {
      ModCong(Pow(root, i), q);
    }
  }

  /** Entry k of either transform is the input evaluated at root^(+-k). */
  lemma FrequenciesEvaluate(x: seq<int>, root: int, q: nat, inverse: bool, k: int)
    requires q > 1 && IsPowerOfTwo(|x|) && Primitive(root, |x|, q) && 0 <= k < |x|
    ensures Frequencies(x, root, q, inverse)[k] == EvalMod(x, root, |x|, if inverse then k else -k, q)
  {
    var roots := RootTable(|x|, root, q);
    RootTableHoldsPowers(|x|, root, q);
    TransformedEvaluates(x, roots, 1, inverse, root, q, k);
    var e := if inverse then k else -k;
    assert Exponent(k, 1, inverse) == e;
    var a, b := Transformed(x, roots, 1, inverse)[k], EvalAt(x, root, |x|, e);
    CongIffMod(a, b, q);
  }

  /** Cooley-Tukey computes the naive discrete Fourier transform. */
  lemma FftComputesDft(x: seq<int>, root: int, q: nat)
    requires q > 1 && IsPowerOfTwo(|x|) && Primitive(root, |x|, q)
    ensures Frequencies(x, root, q, false) == DFT(x, root, q)
  {
    var freq, dft := Frequencies(x, root, q, false), DFT(x, root, q);
    forall k | 0 <= k < |x|
      ensures freq[k] == dft[k]
    {
      FrequenciesEvaluate(x, root, q, false, k);
      DftAt(x, root, q, k);
    }
  }

  // ---- When the fast transform is the naive one.

  /** The input that is 1 at index i and 0 elsewhere. */
  function Unit(n: nat, i: nat): (x: seq<int>)
    ensures |x| == n
  {
    seq(n, j => if j == i then 1 else 0)
  }

  lemma EvalUnit(n: nat, i: nat, w: int, m: int, e: int)
    requires i < n && m > 0
    ensures EvalAt(Unit(n, i), w, m, e) == Tw(w, m, e * i)
  {
    Summation.SumSingle(j => Monomial(Unit(n, i), w, m, e, j), i, n);
  }

  lemma {:induction false} TransformedZero(xs: seq<int>, roots: seq<int>, stride: nat, inverse: bool, k: nat)
    requires IsPowerOfTwo(|xs|) && |roots| > 0 && k < |xs|
    requires forall i :: 0 <= i < |xs| ==> xs[i] == 0
    ensures Transformed(xs, roots, stride, inverse)[k] == 0
    decreases |xs|
  {
    if |xs| > 1 {
      var j := if k < |xs| / 2 then k else k - |xs| / 2;
      TransformedZero(Even(xs), roots, 2 * stride, inverse, j);
      TransformedZero(Odd(xs), roots, 2 * stride, inverse, j);
      TransformedStep(xs, roots, stride, inverse, k, j);
    }
  }

  /** Output 0 is the plain sum: its twiddle factor at every level is the table's first entry. */
  lemma {:induction false} TransformedFirst(xs: seq<int>, roots: seq<int>, stride: nat, inverse: bool)
    requires IsPowerOfTwo(|xs|) && |roots| > 0 && roots[0] == 1
    ensures Transformed(xs, roots, stride, inverse)[0] == Summation.Sum(j => At(xs, j), |xs|)
    decreases |xs|
  {
    if |xs| == 1 {
      assert Summation.Sum(j => At(xs, j), 1) == At(xs, 0);
    } else {
      TransformedFirst(Even(xs), roots, 2 * stride, inverse);
      TransformedFirst(Odd(xs), roots, 2 * stride, inverse);
      FirstStep(xs, roots, stride, inverse);
      SumOfHalves(xs);
    }
  }

  lemma FirstStep(xs: seq<int>, roots: seq<int>, stride: nat, inverse: bool)
    requires IsPowerOfTwo(|xs|) && |xs| > 1 && |roots| > 0 && roots[0] == 1
    ensures Transformed(xs, roots, stride, inverse)[0] ==
            Transformed(Even(xs), roots, 2 * stride, inverse)[0] + Transformed(Odd(xs), roots, 2 * stride, inverse)[0]
  {
    TransformedStep(xs, roots, stride, inverse, 0, 0);
    FirstIndex(stride, |roots|, inverse);
  }

  lemma FirstIndex(stride: nat, n: nat, inverse: bool)
    requires n > 0
    ensures RootIndex(0, stride, n, inverse) == 0
  {
    ModOfMultiple(0, 0, n);
  }

  lemma SumOfHalves(xs: seq<int>)
    requires |xs| % 2 == 0
    ensures Summation.Sum(j => At(xs, j), |xs|) ==
            Summation.Sum(j => At(Even(xs), j), |xs| / 2) + Summation.Sum(j => At(Odd(xs), j), |xs| / 2)
  {
    var f := j => At(xs, j);
    Summation.SumEvenOdd(f, |xs| / 2);
    Summation.SumExt(i => f(2 * i), j => At(Even(xs), j), |xs| / 2);
    Summation.SumExt(i => f(2 * i + 1), j => At(Odd(xs), j), |xs| / 2);
  }

  /** On the input 0,1,0,0,... the middle output is -1, whatever the root. */
  lemma MiddleOfUnit(n: nat, root: int, q: nat)
    requires q > 1 && n > 1 && IsPowerOfTwo(n)
    ensures Frequencies(Unit(n, 1), root, q, false)[n / 2] == -1 % q
  {
    var x, roots, h := Unit(n, 1), RootTable(n, root, q), n / 2;
    assert roots[0] == 1;
    TransformedZero(Even(x), roots, 2, false, 0);
    assert Odd(x) == Unit(h, 0);
    TransformedFirst(Odd(x), roots, 2, false);
    Summation.SumSingle(j => At(Unit(h, 0), j), 0, h);
    TransformedStep(x, roots, 1, false, h, 0);
    FirstIndex(1, n, false);
  }

  lemma TwMinusHalf(w: int, n: int)
    requires n > 1 && n % 2 == 0
    ensures Tw(w, n, -(n / 2) * 1) == Pow(w, n / 2)
  {
    assert -(n / 2) * 1 == -1 * n + n / 2;
    ModOfMultiple(n / 2, -1, n);
  }

  /** If the transform of 0,1,0,0,... is the naive one then root^(n/2) is -1. */
  lemma DftForcesPrimitive(n: nat, root: int, q: nat)
    requires q > 1 && n > 0 && IsPowerOfTwo(n) && Cong(Pow(root, n), 1, q)
    requires n > 1 ==> Frequencies(Unit(n, 1), root, q, false) == DFT(Unit(n, 1), root, q)
    ensures Primitive(root, n, q)
  {
    hide Cong, Frequencies, DFT;
    if n == 1 {
      assert Pow(root, 1) == root * Pow(root, 0) == root;
    } else {
      MiddleOfUnit(n, root, q);
      DftAt(Unit(n, 1), root, q, n / 2);
      EvalUnit(n, 1, root, n, -(n / 2));
      TwMinusHalf(root, n);
      CongIffMod(Pow(root, n / 2), -1, q);
    }
  }

  /** FFT is the naive transform on every input of length n. */
  ghost predicate AlwaysDft(n: nat, root: int, q: nat)
    requires q > 1 && IsPowerOfTwo(n)
  {
    forall x: seq<int> :: |x| == n ==> Frequencies(x, root, q, false) == DFT(x, root, q)
  }

  lemma AcceptedRoot(n: nat, root: int, q: nat)
    requires q > 1 && n > 0 && RootError(n, root, q) == None
    ensures IsPowerOfTwo(n) && Cong(Pow(root, n), 1, q)
  {
    hide Cong, IsPowerOfTwo;
    AndPredecessor(n);
    CongOne(Pow(root, n), q);
  }

  /** Other roots pass the checks too; the result is the naive transform exactly when root^(n/2) is -1. */
  lemma FftIsDftExactly(n: nat, root: int, q: nat)
    requires q > 1 && n > 0 && RootError(n, root, q) == None
    ensures IsPowerOfTwo(n)
    ensures AlwaysDft(n, root, q) <==> Primitive(root, n, q)
  {
    hide RootError, Cong, Primitive, Frequencies, DFT, IsPowerOfTwo, Unit, Pow;
    AcceptedRoot(n, root, q);
    forall x: seq<int> | |x| == n && Primitive(root, n, q)
      ensures Frequencies(x, root, q, false) == DFT(x, root, q)
    {
      FftComputesDft(x, root, q);
    }
    if AlwaysDft(n, root, q) {
      DftForcesPrimitive(n, root, q);
    }
  }

  /** 4 is accepted as a fourth root of 1 modulo 5, but its square is 1: on 0,1,0,0 the result is not the transform. */
  lemma AcceptedRootFails()
    ensures RootError(4, 4, 5) == None && !Primitive(4, 4, 5)
    ensures Frequencies(Unit(4, 1), 4, 5, false) != DFT(Unit(4, 1), 4, 5)
  {
    SmallPowers();
    AndPredecessor(4);
    CongIffMod(Pow(4, 2), -1, 5);
    assert IsPowerOfTwo(2);
    if Frequencies(Unit(4, 1), 4, 5, false) == DFT(Unit(4, 1), 4, 5) {
      CongIffMod(Pow(4, 4), 1, 5);
      DftForcesPrimitive(4, 4, 5);
      assert false;
    }
  }

  lemma SmallPowers()
    ensures Pow(4, 2) == 16 && Pow(4, 4) == 256
  {
    assert Pow(4, 1) == 4 * Pow(4, 0);
    assert Pow(4, 2) == 4 * Pow(4, 1);
    assert Pow(4, 3) == 4 * Pow(4, 2);
  }

  // ---- Inversion.

  /** What FFTInverse returns when the root is accepted and inv inverts the length. */
  function Inverted(x: seq<int>, root: int, q: nat, inv: int): (y: seq<int>)
    requires q > 1 && IsPowerOfTwo(|x|)
    ensures |y| == |x|
  {
    ScaledBy(Frequencies(x, root, q, true), inv, q)
  }

  lemma Unscale(v: int, n: int, x: int, inv: int, q: nat)
    requires q > 1 && Cong(v, n * x, q) && Cong(n * inv, 1, q)
    ensures Cong(v * inv, x, q)
  {
    hide Cong;
    CongScale(inv, v, n * x, q);
    UndoFactor(n, inv, x, q);
    CongTrans(inv * v, inv * (n * x), x, q);
  }

  lemma InverseCong(n: int, q: nat, inv: int)
    requires q > 1 && MultInverse(n, q) == Some(inv)
    ensures Cong(n * inv, 1, q)
  {
    hide Cong, ExtendedGcd;
    CongOne(n * inv, q);
  }

  lemma InvertedEntry(v: int, n: int, xi: int, inv: int, q: nat)
    requires q > 1 && Cong(v, n * xi, q) && Cong(n * inv, 1, q)
    ensures Mul(v % q, inv, q) == xi % q
  {
    ModCong(v, q);
    CongTrans(v % q, v, n * xi, q);
    Unscale(v % q, n, xi, inv, q);
    CongIffMod((v % q) * inv, xi, q);
  }

  lemma FrequencyCong(x: seq<int>, root: int, q: nat, inverse: bool, k: nat)
    requires q > 1 && IsPowerOfTwo(|x|) && Primitive(root, |x|, q) && k < |x|
    ensures Cong(Frequencies(x, root, q, inverse)[k], EvalAt(x, root, |x|, (if inverse then 1 else -1) * k), q)
  {
    hide Cong, Primitive, Frequencies, EvalAt, IsPowerOfTwo;
    FrequenciesEvaluate(x, root, q, inverse, k);
    ModCong(EvalAt(x, root, |x|, (if inverse then 1 else -1) * k), q);
  }

  lemma ReducedAt(x: seq<int>, q: nat, i: nat)
    requires q > 0 && i < |x|
    ensures Reduced(x, q)[i] == x[i] % q
  {
  }

  lemma ScaledEntry(v: int, inv: int, q: nat)
    requires q > 1
    ensures Cong(Mul(v % q, inv, q), inv * v, q)
  {
    ModCong(v, q);
    CongScale(inv, v % q, v, q);
    ModCong((v % q) * inv, q);
    CongTrans(Mul(v % q, inv, q), inv * (v % q), inv * v, q);
  }

  /** The length, a power of two, is invertible exactly when it is 1 or q is odd. */
  lemma LengthInvertible(n: nat, q: nat)
    requires q > 1 && IsPowerOfTwo(n)
    ensures MultInverse(n, q).Some? <==> n == 1 || q % 2 == 1
  {
    if n == 1 {
      CongRefl(1, q);
      ModInverseComplete(1, 1, q);
    } else if q % 2 == 1 {
      var y := InverseOfPowerOfTwo(n, q);
      ModInverseComplete(n, y, q);
    } else {
      EvenNotInvertible(n, q);
    }
  }

  lemma EvenNotInvertible(n: nat, q: nat)
    requires q > 1 && n % 2 == 0 && q % 2 == 0
    ensures MultInverse(n, q).None?
  {
    hide ExtendedGcd;
    if MultInverse(n, q).Some? {
      EvenProductParity(n, MultInverse(n, q).value, q);
      assert false;
    }
  }

  lemma EvenProductParity(n: nat, y: int, q: nat)
    requires q > 1 && n % 2 == 0 && q % 2 == 0
    ensures ((n * y) % q) % 2 == 0
  {
    var m := (n * y) / q;
    assert n * y == q * m + (n * y) % q;
    EvenProduct(n / 2, y);
    EvenProduct(q / 2, m);
  }

  lemma EvenProduct(h: int, y: int)
    ensures (2 * h) * y == 2 * (h * y)
  {
  }

  lemma {:induction false} InverseOfPowerOfTwo(n: nat, q: nat) returns (y: int)
    requires q % 2 == 1 && IsPowerOfTwo(n)
    ensures Cong(n * y, 1, q)
  {
    if n == 1 {
      y := 1;
      CongRefl(1, q);
    } else {
      var z := InverseOfPowerOfTwo(n / 2, q);
      var half := (q + 1) / 2;
      y := z * half;
      CongIntro(2 * half, 1, 1, q);
      CongMul((n / 2) * z, 1, 2 * half, 1, q);
      assert ((n / 2) * z) * (2 * half) == n * y;
    }
  }

  // ---- The source's methods.

  method CooleyTukey(xs: array<int>, roots: array<int>, stride: nat, inverse: bool) returns (freq: array<int>)
    requires IsPowerOfTwo(xs.Length) && roots.Length > 0
    ensures fresh(freq)
    ensures freq[..] == Transformed(xs[..], roots[..], stride, inverse)
    decreases xs.Length
  {
    hide Transformed, Recombined, Even, Odd, IsPowerOfTwo;
    if xs.Length == 1 {
      TransformedOne(xs[..], roots[..], stride, inverse);
      freq := new int[1];
      freq[0] := xs[0];
      return;
    }
    HalvesOfPower(xs.Length);
    TransformedUnfold(xs[..], roots[..], stride, inverse);
    var even, odd := Deinterleave(xs);
    var freqEven := CooleyTukey(even, roots, stride * 2, inverse);
    var freqOdd := CooleyTukey(odd, roots, stride * 2, inverse);
    freq := Recombine(freqEven, freqOdd, roots, stride, inverse);
  }

  // The first loop of cooleyTukey.
  method Deinterleave(xs: array<int>) returns (even: array<int>, odd: array<int>)
    ensures fresh(even) && fresh(odd) && even != odd
    ensures even[..] == Even(xs[..]) && odd[..] == Odd(xs[..])
  {
    even := new int[xs.Length / 2];
    odd := new int[even.Length];
    for i := 0 to even.Length
      invariant forall j :: 0 <= j < i ==> even[j] == xs[2 * j] && odd[j] == xs[2 * j + 1]
    {
      even[i] := xs[i * 2];
      odd[i] := xs[i * 2 + 1];
    }
    assert even[..] == Even(xs[..]) && odd[..] == Odd(xs[..]);
  }

  // The second loop of cooleyTukey: the odd half is twisted in place.
  method Recombine(freqEven: array<int>, freqOdd: array<int>, roots: array<int>, stride: nat, inverse: bool)
    returns (freq: array<int>)
    requires freqEven.Length == freqOdd.Length && roots.Length > 0
    requires freqOdd != freqEven && freqOdd != roots
    modifies freqOdd
    ensures fresh(freq)
    ensures freq[..] == Recombined(old(freqEven[..]), old(freqOdd[..]), old(roots[..]), stride, inverse)
  {
    hide Recombined, RootIndex;
    var halfLen := freqEven.Length;
    ghost var odd := freqOdd[..];
    ghost var want := Recombined(freqEven[..], odd, roots[..], stride, inverse);
    freq := new int[2 * halfLen];
    for k := 0 to halfLen
      invariant forall j :: k <= j < halfLen ==> freqOdd[j] == odd[j]
      invariant forall j :: 0 <= j < k || halfLen <= j < halfLen + k ==> freq[j] == want[j]
    {
      var root := RootIndex(k, stride, roots.Length, inverse);
      RecombinedAt(freqEven[..], odd, roots[..], stride, inverse, k);
      assert freqOdd[k] * roots[root] == Twisted(odd, roots[..], stride, inverse, k);
      freqOdd[k] := freqOdd[k] * roots[root];
      freq[k] := freqEven[k] + freqOdd[k];
      freq[k + halfLen] := freqEven[k] - freqOdd[k];
    }
  }

  method TwiddleFactors(q: nat, xs: array<int>, root: int) returns (r: Result<array<int>, Error>)
    requires q > 1 && xs.Length > 0
    ensures match RootError(xs.Length, root, q)
            case Some(e) => r == Err(e)
            case None => r.Ok? && fresh(r.value) && r.value[..] == RootTable(xs.Length, root, q)
    ensures r == Err(NotPowerOfTwo) <==> !IsPowerOfTwo(xs.Length)
    ensures r == Err(RootIsOne) <==> IsPowerOfTwo(xs.Length) && root == 1
    ensures r == Err(NotRootOfUnity) <==> IsPowerOfTwo(xs.Length) && root != 1 && Pow(root, xs.Length) % q != 1
    ensures r.Ok? ==> r.value.Length == xs.Length && forall i :: 0 <= i < xs.Length ==> r.value[i] == Pow(root, i) % q
  {
    var n := xs.Length;
    AndPredecessor(n);
    hide IsPowerOfTwo, Pow;
    if And(n, n - 1) != 0 {
      return Err(NotPowerOfTwo);
    }
    if root == 1 {
      return Err(RootIsOne);
    }
    if Exp(root, n, q) != 1 {
      return Err(NotRootOfUnity);
    }
    var roots := new int[n];
    for i := 0 to n
      invariant forall j :: 0 <= j < i ==> roots[j] == Exp(root, j, q)
    {
      roots[i] := Exp(root, i, q);
    }
    assert roots[..] == RootTable(n, root, q);
    return Ok(roots);
  }

  method Transformation(q: nat, xs: array<int>, root: int, inverse: bool) returns (r: Result<array<int>, Error>)
    requires q > 1 && xs.Length > 0
    ensures match RootError(xs.Length, root, q)
            case Some(e) => r == Err(e)
            case None => IsPowerOfTwo(xs.Length) && r.Ok? && fresh(r.value) &&
                         r.value[..] == Frequencies(xs[..], root, q, inverse)
  {
    var table := TwiddleFactors(q, xs, root);
    if table.Err? {
      return Err(table.error);
    }
    AndPredecessor(xs.Length);
    var freq := CooleyTukey(xs, table.value, 1, inverse);
    ghost var raw := freq[..];
    for i := 0 to freq.Length
      invariant forall j :: 0 <= j < i ==> freq[j] == raw[j] % q
      invariant forall j :: i <= j < freq.Length ==> freq[j] == raw[j]
    {
      freq[i] := freq[i] % q;
    }
    assert freq[..] == Frequencies(xs[..], root, q, inverse);
    return Ok(freq);
  }

  /** FFT: on a root whose (n/2)-th power is -1, the naive transform. */
  method FFT(q: nat, x: array<int>, root: int) returns (r: Result<array<int>, Error>)
    requires q > 1 && x.Length > 0
    ensures match RootError(x.Length, root, q)
            case Some(e) => r == Err(e)
            case None => r.Ok? && fresh(r.value) && IsPowerOfTwo(x.Length) &&
                         r.value[..] == Frequencies(x[..], root, q, false) &&
                         (Primitive(root, x.Length, q) ==> r.value[..] == DFT(x[..], root, q))
  {
    r := Transformation(q, x, root, false);
    if r.Ok? && Primitive(root, x.Length, q) {
      FftComputesDft(x[..], root, q);
    }
  }

  /** FFTInverse: on an accepted root it fails exactly when the length has no inverse. */
  method FFTInverse(q: nat, X: array<int>, root: int) returns (r: Result<array<int>, Error>)
    requires q > 1 && X.Length > 0
    ensures match RootError(X.Length, root, q)
            case Some(e) => r == Err(e)
            case None =>
              IsPowerOfTwo(X.Length) &&
              match MultInverse(X.Length, q)
              case None => r == Err(NoInverse)
              case Some(inv) => r.Ok? && fresh(r.value) && r.value[..] == Inverted(X[..], root, q, inv)
  {
    var time := Transformation(q, X, root, true);
    if time.Err? {
      return Err(time.error);
    }
    var inv := MultInverse(X.Length, q);
    if inv.None? {
      return Err(NoInverse);
    }
    var t := time.value;
    ghost var raw := t[..];
    for i := 0 to t.Length
      invariant forall j :: 0 <= j < i ==> t[j] == Mul(raw[j], inv.value, q)
      invariant forall j :: i <= j < t.Length ==> t[j] == raw[j]
    {
      t[i] := Mul(t[i], inv.value, q);
    }
    assert t[..] == ScaledBy(raw, inv.value, q);
    return Ok(t);
  }
}
