/** go/galois/convolution.go: linear convolution through the transform. */
module Convolution {
  import opened ModularArithmetic
  import opened Summation
  import opened Transform
  import opened Results
  import opened Divisibility
  import opened Field
  import opened Bits
  import opened Fft
  import opened RoundTrip

  /** The coefficients of the product of two polynomials, by the schoolbook formula. */
  ghost function Schoolbook(a: seq<int>, b: seq<int>): (c: seq<int>)
    requires |a| > 0 && |b| > 0
    ensures |c| == |a| + |b| - 1
  {
    seq(|a| + |b| - 1, i => Sum(j => At(a, j) * At(b, i - j), |a|))
  }

  /** More elements than an address space can hold; it keeps 64-bit lengths from wrapping. */
  const MAX_ELEMENTS: nat := 0x4000_0000_0000_0000

  const TWO_TO_THE_64: nat := 0x1_0000_0000_0000_0000

  /** The smallest power of two that holds every coefficient. */
  function ConvolutionSize(la: nat, lb: nat): (size: nat)
    requires la > 0 && lb > 0 && la + lb <= MAX_ELEMENTS
    ensures IsPowerOfTwo(size) && size >= la + lb - 1
    ensures forall m: nat :: IsPowerOfTwo(m) && m >= la + lb - 1 ==> size <= m
  {
    var n := la + lb - 1;
    AndPredecessor(n);
    NextPowerOfTwo(n);
    if And(n, n - 1) == 0 then n else Pow(2, BitLength(n)) % TWO_TO_THE_64
  }

  lemma NextPowerOfTwo(n: nat)
    requires 0 < n <= MAX_ELEMENTS
    ensures Pow(2, BitLength(n)) > 0 && Pow(2, BitLength(n)) % TWO_TO_THE_64 == Pow(2, BitLength(n))
    ensures IsPowerOfTwo(Pow(2, BitLength(n))) && n < Pow(2, BitLength(n))
    ensures forall m: nat :: IsPowerOfTwo(m) && m > n ==> Pow(2, BitLength(n)) <= m
  {
    hide Pow, BitLength, IsPowerOfTwo;
    BitLengthBounds(n);
    PowerOfTwoPow(BitLength(n));
    forall m: nat | IsPowerOfTwo(m) && m > n
      ensures Pow(2, BitLength(n)) <= m
    {
      if m < Pow(2, BitLength(n)) {
        PowersOfTwoApart(m, Pow(2, BitLength(n)));
      }
    }
  }

  function Padded(x: seq<int>, n: nat): (y: seq<int>)
    requires |x| <= n
    ensures |y| == n
  {
    x + seq(n - |x|, _ => 0)
  }

  function Pointwise(x: seq<int>, y: seq<int>): (z: seq<int>)
    requires |x| == |y|
    ensures |z| == |x|
  {
    seq(|x|, i requires 0 <= i < |x| => x[i] * y[i])
  }

  /** What Convolve computes: transform, multiply entry by entry, transform back, cut. */
  function Convolved(a: seq<int>, b: seq<int>, root: int, q: nat, inv: int): (c: seq<int>)
    requires |a| > 0 && |b| > 0 && |a| + |b| <= MAX_ELEMENTS && q > 1
    ensures |c| == |a| + |b| - 1
  {
    var n := ConvolutionSize(|a|, |b|);
    var A := Frequencies(Padded(a, n), root, q, false);
    var B := Frequencies(Padded(b, n), root, q, false);
    Inverted(Pointwise(A, B), root, q, inv)[..|a| + |b| - 1]
  }

  // ---- The convolution theorem.

  lemma EvalPadded(x: seq<int>, n: nat, w: int, m: int, e: int)
    requires |x| <= n && m > 0
    ensures EvalAt(Padded(x, n), w, m, e) == EvalAt(x, w, m, e)
  {
    var f := j => Monomial(Padded(x, n), w, m, e, j);
    SumSplit(f, |x|, n - |x|);
    SumZero(i => f(|x| + i), n - |x|);
    SumExt(f, j => Monomial(x, w, m, e, j), |x|);
  }

  /** The term of a[j] * b[i-j] * y^i, where y is w^e. */
  ghost function CrossTerm(a: seq<int>, b: seq<int>, w: int, n: int, e: int, i: int, j: int): int
    requires n > 0
  {
    At(a, j) * (At(b, i - j) * Tw(w, n, e * i))
  }

  lemma CrossTermCong(a: seq<int>, b: seq<int>, w: int, n: int, q: int, e: int, j: int, l: int)
    requires n > 0 && Cong(Pow(w, n), 1, q)
    ensures Cong(CrossTerm(a, b, w, n, e, j + l, j), Monomial(a, w, n, e, j) * Monomial(b, w, n, e, l), q)
  {
    hide Cong, Tw, At;
    var x, y, t, u := At(a, j), At(b, l), Tw(w, n, e * j), Tw(w, n, e * l);
    assert e * (j + l) == e * j + e * l;
    TwAdd(w, n, q, e * j, e * l);
    CongScale(y, Tw(w, n, e * (j + l)), t * u, q);
    CongScale(x, y * Tw(w, n, e * (j + l)), y * (t * u), q);
    assert x * (y * (t * u)) == (x * t) * (y * u) by {
      MulSwap(y, t, u);
      assert x * (t * (y * u)) == (x * t) * (y * u);
    }
  }

  /** The terms that involve a[j] add up to its monomial times the value of b. */
  lemma CrossColumn(a: seq<int>, b: seq<int>, w: int, n: int, q: int, e: int, j: nat)
    requires j < |a| && |b| > 0 && n > 0 && Cong(Pow(w, n), 1, q)
    ensures Cong(Sum(i => CrossTerm(a, b, w, n, e, i, j), |a| + |b| - 1),
                 Monomial(a, w, n, e, j) * EvalAt(b, w, n, e), q)
  {
    hide Cong, Tw, Monomial, CrossTerm, Sum;
    var own, shifted := l => Monomial(b, w, n, e, l), l => CrossTerm(a, b, w, n, e, j + l, j);
    CrossWindow(a, b, w, n, e, j);
    forall l | 0 <= l < |b|
      ensures Cong(shifted(l), Monomial(a, w, n, e, j) * own(l), q)
    {
      CrossTermCong(a, b, w, n, q, e, j, l);
    }
    SumCongScaled(Monomial(a, w, n, e, j), own, shifted, |b|, q);
  }

  /** Only where b has coefficients do the terms not vanish. */
  lemma CrossWindow(a: seq<int>, b: seq<int>, w: int, n: int, e: int, j: nat)
    requires j < |a| && |b| > 0 && n > 0
    ensures Sum(i => CrossTerm(a, b, w, n, e, i, j), |a| + |b| - 1) ==
            Sum(l => CrossTerm(a, b, w, n, e, j + l, j), |b|)
  {
    hide Sum, Tw;
    var f, shifted := i => CrossTerm(a, b, w, n, e, i, j), l => CrossTerm(a, b, w, n, e, j + l, j);
    SumWindow(f, j, |b|, |a| + |b| - 1);
    SumExt(l => f(j + l), shifted, |b|);
  }

  lemma SchoolbookAt(a: seq<int>, b: seq<int>, i: int, f: int -> int)
    requires |a| > 0 && |b| > 0 && 0 <= i < |a| + |b| - 1
    requires forall j :: f(j) == At(a, j) * At(b, i - j)
    ensures At(Schoolbook(a, b), i) == Sum(f, |a|)
  {
    SumExt(f, j => At(a, j) * At(b, i - j), |a|);
  }

  /** The terms that involve y^i add up to the i-th monomial of the product. */
  lemma CrossRow(a: seq<int>, b: seq<int>, w: int, n: int, e: int, i: int)
    requires |a| > 0 && |b| > 0 && n > 0 && 0 <= i < |a| + |b| - 1
    ensures Monomial(Schoolbook(a, b), w, n, e, i) == Sum(j => CrossTerm(a, b, w, n, e, i, j), |a|)
  {
    hide Tw, At, Schoolbook, Sum;
    var t := Tw(w, n, e * i);
    var f := j => At(a, j) * At(b, i - j);
    SchoolbookAt(a, b, i, f);
    forall j | 0 <= j < |a|
      ensures CrossTerm(a, b, w, n, e, i, j) == t * f(j)
    {
      MulSwap(t, At(a, j), At(b, i - j));
    }
    SumScaled(t, f, j => CrossTerm(a, b, w, n, e, i, j), |a|);
  }

  /** The value of the product is the product of the values. */
  lemma EvalSchoolbook(a: seq<int>, b: seq<int>, w: int, n: int, q: int, e: int)
    requires |a| > 0 && |b| > 0 && n > 0 && Cong(Pow(w, n), 1, q)
    ensures Cong(EvalAt(Schoolbook(a, b), w, n, e), EvalAt(b, w, n, e) * EvalAt(a, w, n, e), q)
  {
    hide Cong, CrossTerm, Monomial, Schoolbook, Sum;
    var total, vb := |a| + |b| - 1, EvalAt(b, w, n, e);
    var term := (i: int, j: int) => CrossTerm(a, b, w, n, e, i, j);
    var rows, columns := i => Sum(j => term(i, j), |a|), j => Sum(i => term(i, j), total);
    var own := j => Monomial(a, w, n, e, j);
    forall i | 0 <= i < total
      ensures Monomial(Schoolbook(a, b), w, n, e, i) == rows(i)
    {
      CrossRow(a, b, w, n, e, i);
      SumExt(j => CrossTerm(a, b, w, n, e, i, j), j => term(i, j), |a|);
    }
    SumExt(i => Monomial(Schoolbook(a, b), w, n, e, i), rows, total);
    SumSwap(term, total, |a|);
    forall j | 0 <= j < |a|
      ensures Cong(columns(j), vb * own(j), q)
    {
      CrossColumn(a, b, w, n, q, e, j);
      SumExt(i => CrossTerm(a, b, w, n, e, i, j), i => term(i, j), total);
    }
    SumCongScaled(vb, own, columns, |a|, q);
  }

  /** Entry k of the product of the two transforms is the product polynomial at root^(-k). */
  lemma ProductOfTransforms(a: seq<int>, b: seq<int>, root: int, q: nat, n: nat, k: nat)
    requires |a| > 0 && |b| > 0 && q > 1 && IsPowerOfTwo(n) && n >= |a| + |b| - 1 && k < n
    requires Primitive(root, n, q)
    ensures var A := Frequencies(Padded(a, n), root, q, false);
            var B := Frequencies(Padded(b, n), root, q, false);
            Cong(A[k] * B[k], EvalAt(Padded(Schoolbook(a, b), n), root, n, -1 * k), q)
  {
    hide *;
    var e := -1 * k;
    var A := Frequencies(Padded(a, n), root, q, false);
    var B := Frequencies(Padded(b, n), root, q, false);
    var va, vb := EvalAt(a, root, n, e), EvalAt(b, root, n, e);
    PrimitiveIsRoot(root, n, q);
    FrequencyCong(Padded(a, n), root, q, false, k);
    FrequencyCong(Padded(b, n), root, q, false, k);
    EvalPadded(a, n, root, n, e);
    EvalPadded(b, n, root, n, e);
    EvalPadded(Schoolbook(a, b), n, root, n, e);
    CongMul(A[k], va, B[k], vb, q);
    EvalSchoolbook(a, b, root, n, q, e);
    CongSym(EvalAt(Schoolbook(a, b), root, n, e), vb * va, q);
    CongTrans(A[k] * B[k], va * vb, EvalAt(Schoolbook(a, b), root, n, e), q);
  }

  /** Convolution through the transform gives the schoolbook product, reduced into [0, q). */
  lemma ConvolutionTheorem(a: seq<int>, b: seq<int>, root: int, q: nat, inv: int)
    requires |a| > 0 && |b| > 0 && |a| + |b| <= MAX_ELEMENTS && q > 1
    requires Primitive(root, ConvolutionSize(|a|, |b|), q)
    requires MultInverse(ConvolutionSize(|a|, |b|), q) == Some(inv)
    ensures Convolved(a, b, root, q, inv) == Reduced(Schoolbook(a, b), q)
  {
    hide Cong, Primitive, EvalAt, Frequencies, Inverted, MultInverse, Schoolbook;
    var n := ConvolutionSize(|a|, |b|);
    var A := Frequencies(Padded(a, n), root, q, false);
    var B := Frequencies(Padded(b, n), root, q, false);
    var c := Padded(Schoolbook(a, b), n);
    forall k | 0 <= k < n
      ensures Cong(Pointwise(A, B)[k], EvalAt(c, root, n, -1 * k), q)
    {
      ProductOfTransforms(a, b, root, q, n, k);
    }
    InvertedRecovers(c, Pointwise(A, B), root, q, inv);
  }

  // ---- Which of the accepted roots convolve.

  /** The unreduced transform of the input that is 1 a quarter of the way in. */
  function Wave(v: int, k: nat): int {
    if k % 4 == 0 then 1 else if k % 4 == 1 then v else if k % 4 == 2 then -1 else -v
  }

  lemma QuarterIndex(n: nat)
    requires n > 0 && n % 4 == 0
    ensures RootIndex(1, n / 4, n, false) == 3 * (n / 4)
  {
    ModOfMultiple(3 * (n / 4), -1, n);
  }

  lemma WaveOfFour(roots: seq<int>, stride: nat, k: nat)
    requires |roots| == 4 * stride > 0 && roots[0] == 1 && k < 4
    ensures Transformed(Unit(4, 1), roots, stride, false)[k] == Wave(roots[3 * stride], k)
  {
    hide Transformed, RootIndex;
    var x := Unit(4, 1);
    var j := if k < 2 then k else k - 2;
    assert IsPowerOfTwo(2) && IsPowerOfTwo(4);
    TransformedZero(Even(x), roots, 2 * stride, false, j);
    assert Odd(x) == Unit(2, 0);
    TransformedStep(Odd(x), roots, 2 * stride, false, j, 0);
    TransformedSingle(1, roots, 4 * stride);
    TransformedSingle(0, roots, 4 * stride);
    assert Even(Odd(x)) == [1] && Odd(Odd(x)) == [0];
    TransformedStep(x, roots, stride, false, k, j);
    FirstIndex(stride, |roots|, false);
    QuarterIndex(|roots|);
  }

  lemma TransformedSingle(x: int, roots: seq<int>, stride: nat)
    requires |roots| > 0
    ensures Transformed([x], roots, stride, false) == [x]
  {
  }

  lemma UnitHalves(m: nat)
    requires IsPowerOfTwo(m) && m > 4
    ensures m % 2 == 0 && (m / 2) % 4 == 0 && IsPowerOfTwo(m / 2)
    ensures Even(Unit(m, m / 4)) == Unit(m / 2, (m / 2) / 4)
    ensures forall i :: 0 <= i < m / 2 ==> Odd(Unit(m, m / 4))[i] == 0
  {
    assert IsPowerOfTwo(m / 2) && IsPowerOfTwo(m / 2 / 2);
  }

  lemma WavePeriodic(v: int, h: nat, k: nat, j: nat)
    requires h % 4 == 0 && k < 2 * h && j == if k < h then k else k - h
    ensures Wave(v, k) == Wave(v, j)
  {
  }

  lemma WaveStep(m: nat, roots: seq<int>, stride: nat, k: nat, j: nat)
    requires IsPowerOfTwo(m) && m > 4 && |roots| > 0 && k < m && j == if k < m / 2 then k else k - m / 2
    ensures IsPowerOfTwo(m / 2) && m % 2 == 0
    ensures Transformed(Unit(m, m / 4), roots, stride, false)[k] ==
            Transformed(Unit(m / 2, (m / 2) / 4), roots, 2 * stride, false)[j]
  {
    hide Transformed, RootIndex, IsPowerOfTwo, Unit;
    UnitHalves(m);
    var x := Unit(m, m / 4);
    TransformedZero(Odd(x), roots, 2 * stride, false, j);
    TransformedStep(x, roots, stride, false, k, j);
  }

  lemma {:induction false} WaveOfUnit(m: nat, roots: seq<int>, stride: nat, k: nat)
    requires IsPowerOfTwo(m) && m >= 4 && m * stride == |roots| > 0 && roots[0] == 1 && k < m
    ensures |roots| % 4 == 0
    ensures Transformed(Unit(m, m / 4), roots, stride, false)[k] == Wave(roots[3 * (|roots| / 4)], k)
  {
    hide Transformed, RootIndex, Wave;
    if m == 4 {
      WaveOfFour(roots, stride, k);
    } else {
      var j := if k < m / 2 then k else k - m / 2;
      HalfStride(m, stride, |roots|);
      UnitHalves(m);
      WaveOfUnit(m / 2, roots, 2 * stride, j);
      WaveStep(m, roots, stride, k, j);
      WavePeriodic(roots[3 * (|roots| / 4)], m / 2, k, j);
    }
  }

  lemma {:induction false} AlternatingSum(f: int -> int, u: int, m: nat)
    requires forall k :: 0 <= k < 2 * m ==> f(k) == if k % 2 == 0 then 1 else u
    ensures Sum(f, 2 * m) == m * (1 + u)
  {
    if m > 0 {
      AlternatingSum(f, u, m - 1);
      assert Sum(f, 2 * m) == Sum(f, 2 * (m - 1)) + f(2 * (m - 1)) + f(2 * (m - 1) + 1);
    }
  }

  /** The third quarter's twiddle factor squares to root^(n/2), whose square is 1. */
  lemma QuarterRoot(n: nat, root: int, q: int, v: int)
    requires n > 0 && n % 4 == 0 && Cong(Pow(root, n), 1, q) && Cong(v, Pow(root, 3 * (n / 4)), q)
    ensures Cong(v * v, Pow(root, n / 2), q)
  {
    hide Cong, Pow;
    var t := Pow(root, 3 * (n / 4));
    CongMul(v, t, v, t, q);
    PowAdd(root, 3 * (n / 4), 3 * (n / 4));
    PowAdd(root, n, n / 2);
    CongScale(Pow(root, n / 2), Pow(root, n), 1, q);
    CongTrans(v * v, Pow(root, n / 2) * Pow(root, n), Pow(root, n / 2), q);
  }

  /** Entry k of the transform of the quarter input, squared. */
  lemma QuarterSquare(n: nat, root: int, q: nat, k: nat)
    requires q > 1 && IsPowerOfTwo(n) && n >= 4 && Cong(Pow(root, n), 1, q) && k < n
    ensures var A := Frequencies(Unit(n, n / 4), root, q, false);
            Cong(A[k] * A[k], if k % 2 == 0 then 1 else Pow(root, n / 2), q)
  {
    hide Cong, Transformed, IsPowerOfTwo, Pow;
    var roots := RootTable(n, root, q);
    QuarterTable(n, root, q);
    WaveOfUnit(n, roots, 1, k);
    var v := roots[3 * (n / 4)];
    var a := Frequencies(Unit(n, n / 4), root, q, false)[k];
    ModCong(Wave(v, k), q);
    CongMul(a, Wave(v, k), a, Wave(v, k), q);
    QuarterRoot(n, root, q, v);
    assert Wave(v, k) * Wave(v, k) == if k % 2 == 0 then 1 else v * v;
    if k % 2 == 1 {
      CongTrans(a * a, v * v, Pow(root, n / 2), q);
    }
  }

  lemma QuarterTable(n: nat, root: int, q: nat)
    requires q > 1 && IsPowerOfTwo(n) && n >= 4
    ensures n % 4 == 0 && RootTable(n, root, q)[0] == 1
    ensures Cong(RootTable(n, root, q)[3 * (n / 4)], Pow(root, 3 * (n / 4)), q)
  {
    assert IsPowerOfTwo(n / 2) && n / 2 != 1;
    assert Pow(root, 0) == 1;
    RootTableHoldsPowers(n, root, q);
  }

  /** Entry 0 of the inverse is the sum of the input over the length. */
  lemma InvertedFirst(x: seq<int>, root: int, q: nat, inv: int)
    requires q > 1 && IsPowerOfTwo(|x|) && |x| > 0
    ensures Cong(Inverted(x, root, q, inv)[0], Sum(j => At(x, j), |x|) * inv, q)
  {
    hide Cong, Transformed, IsPowerOfTwo;
    var roots, s := RootTable(|x|, root, q), Sum(j => At(x, j), |x|);
    assert roots[0] == 1;
    TransformedFirst(x, roots, 1, true);
    ModCong(s, q);
    CongScale(inv, s % q, s, q);
    ModCong((s % q) * inv, q);
    CongTrans(Inverted(x, root, q, inv)[0], (s % q) * inv, s * inv, q);
  }

  /** Squaring the quarter input: coefficient 0 comes out as (1 + root^(n/2)) / 2. */
  lemma QuarterFirstCoefficient(n: nat, root: int, q: nat, inv: int)
    requires q > 1 && IsPowerOfTwo(n) && n >= 4 && Cong(Pow(root, n), 1, q) && Cong(n * inv, 1, q)
    ensures var A := Frequencies(Unit(n, n / 4), root, q, false);
            Cong(2 * Inverted(Pointwise(A, A), root, q, inv)[0], 1 + Pow(root, n / 2), q)
  {
    hide Cong, Inverted, Frequencies, IsPowerOfTwo, Pow, Unit, Sum;
    var A := Frequencies(Unit(n, n / 4), root, q, false);
    var P, u := Pointwise(A, A), Pow(root, n / 2);
    var f, g := j => At(P, j), k => if k % 2 == 0 then 1 else u;
    forall k | 0 <= k < n
      ensures Cong(f(k), g(k), q)
    {
      QuarterSquare(n, root, q, k);
    }
    SumCong(f, g, n, q);
    QuarterLength(n);
    AlternatingSum(g, u, n / 2);
    InvertedFirst(P, root, q, inv);
    hide Pointwise;
    HalfOfAll(Inverted(P, root, q, inv)[0], Sum(f, n), n, inv, u, q);
  }

  lemma HalfOfAll(c: int, s: int, n: int, inv: int, u: int, q: int)
    requires n % 2 == 0 && Cong(c, s * inv, q) && Cong(s, (n / 2) * (1 + u), q) && Cong(n * inv, 1, q)
    ensures Cong(2 * c, 1 + u, q)
  {
    hide Cong;
    CongScale(2, c, s * inv, q);
    CongScale(2 * inv, s, (n / 2) * (1 + u), q);
    CongScale(1 + u, n * inv, 1, q);
    assert 2 * (s * inv) == (2 * inv) * s;
    assert (2 * inv) * ((n / 2) * (1 + u)) == (1 + u) * (n * inv) by {
      assert (2 * inv) * (n / 2) == n * inv;
    }
    CongTrans(2 * c, (2 * inv) * s, (1 + u) * (n * inv), q);
    CongTrans(2 * c, (1 + u) * (n * inv), 1 + u, q);
  }

  /** Convolve returns the product for every pair of inputs that is padded to length n. */
  ghost predicate AlwaysConvolves(n: nat, root: int, q: nat, inv: int)
    requires q > 1
  {
    forall a: seq<int>, b: seq<int> ::
      |a| > 0 && |b| > 0 && |a| + |b| <= MAX_ELEMENTS && ConvolutionSize(|a|, |b|) == n ==>
      Convolved(a, b, root, q, inv) == Reduced(Schoolbook(a, b), q)
  }

  lemma SizeOfQuarters(n: nat)
    requires IsPowerOfTwo(n) && 4 <= n <= MAX_ELEMENTS
    ensures ConvolutionSize(n / 4 + 1, n / 4 + 1) == n
    ensures Padded(Unit(n / 4 + 1, n / 4), n) == Unit(n, n / 4)
  {
    QuarterTable(n, 0, 2);
    var size := ConvolutionSize(n / 4 + 1, n / 4 + 1);
    if size < n {
      PowersOfTwoApart(size, n);
    }
  }

  lemma SchoolbookFirst(m: nat)
    requires m > 0
    ensures Schoolbook(Unit(m + 1, m), Unit(m + 1, m))[0] == 0
  {
    var x := Unit(m + 1, m);
    SumZero(j => At(x, j) * At(x, 0 - j), m + 1);
  }

  lemma ConvolvedQuarters(n: nat, root: int, q: nat, inv: int)
    requires q > 1 && IsPowerOfTwo(n) && 4 <= n <= MAX_ELEMENTS
    requires Cong(Pow(root, n), 1, q) && Cong(n * inv, 1, q)
    ensures var x := Unit(n / 4 + 1, n / 4);
            Cong(2 * Convolved(x, x, root, q, inv)[0], 1 + Pow(root, n / 2), q)
  {
    hide Cong, Inverted, Frequencies, IsPowerOfTwo, Pow, Unit, ConvolutionSize;
    SizeOfQuarters(n);
    QuarterFirstCoefficient(n, root, q, inv);
  }

  lemma MinusOne(u: int, q: int)
    requires Cong(0, 1 + u, q)
    ensures Cong(u, -1, q)
  {
    CongRefl(1, q);
    CongSub(0, 1 + u, 1, 1, q);
    CongSym(-1, u, q);
  }

  lemma ConvolvedQuartersFirst(n: nat, root: int, q: nat, inv: int)
    requires q > 1 && IsPowerOfTwo(n) && 4 <= n <= MAX_ELEMENTS && AlwaysConvolves(n, root, q, inv)
    ensures var x := Unit(n / 4 + 1, n / 4); Convolved(x, x, root, q, inv)[0] == 0
  {
    hide IsPowerOfTwo, Unit, Schoolbook, ConvolutionSize, Convolved;
    var x := Unit(n / 4 + 1, n / 4);
    SizeOfQuarters(n);
    assert Convolved(x, x, root, q, inv) == Reduced(Schoolbook(x, x), q);
    SchoolbookFirst(n / 4);
    ReducedAt(Schoolbook(x, x), q, 0);
  }

  lemma PrimitiveIntro(w: int, n: int, q: int)
    requires n > 1 && n % 2 == 0 && Cong(Pow(w, n / 2), -1, q)
    ensures Primitive(w, n, q)
  {
  }

  lemma ConvolvingForcesPrimitive(n: nat, root: int, q: nat, inv: int)
    requires q > 1 && IsPowerOfTwo(n) && 4 <= n <= MAX_ELEMENTS
    requires Cong(Pow(root, n), 1, q) && Cong(n * inv, 1, q)
    requires AlwaysConvolves(n, root, q, inv)
    ensures Primitive(root, n, q)
  {
    hide *;
    var x := Unit(n / 4 + 1, n / 4);
    ConvolvedQuartersFirst(n, root, q, inv);
    ConvolvedQuarters(n, root, q, inv);
    ForcedMinusOne(Convolved(x, x, root, q, inv)[0], Pow(root, n / 2), q);
    QuarterLength(n);
    PrimitiveIntro(root, n, q);
  }

  lemma ForcedMinusOne(c: int, u: int, q: int)
    requires c == 0 && Cong(2 * c, 1 + u, q)
    ensures Cong(u, -1, q)
  {
    MinusOne(u, q);
  }

  lemma QuarterLength(n: nat)
    requires IsPowerOfTwo(n) && n >= 4
    ensures n % 4 == 0 && n % 2 == 0 && 2 * (n / 2) == n
  {
    assert IsPowerOfTwo(n / 2) && n / 2 != 1;
  }

  /** For length 2 only the root's zeroth power is ever used. */
  lemma LengthTwo(x: seq<int>, root: int, q: nat, inverse: bool)
    requires q > 1 && |x| == 2
    ensures IsPowerOfTwo(2) && Frequencies(x, root, q, inverse) == Frequencies(x, -1, q, inverse)
  {
    assert IsPowerOfTwo(2);
    var r, s := RootTable(2, root, q), RootTable(2, -1, q);
    forall k | 0 <= k < 2
      ensures Transformed(x, r, 1, inverse)[k] == Transformed(x, s, 1, inverse)[k]
    {
      LengthTwoAt(x, r, inverse, k);
      LengthTwoAt(x, s, inverse, k);
    }
    assert Transformed(x, r, 1, inverse) == Transformed(x, s, 1, inverse);
  }

  lemma LengthTwoAt(x: seq<int>, roots: seq<int>, inverse: bool, k: nat)
    requires |x| == 2 && |roots| == 2 && roots[0] == 1 && k < 2
    ensures IsPowerOfTwo(2) && Transformed(x, roots, 1, inverse)[k] == if k == 0 then x[0] + x[1] else x[0] - x[1]
  {
    assert IsPowerOfTwo(2);
    TransformedStep(x, roots, 1, inverse, k, 0);
    FirstIndex(1, 2, inverse);
  }

  lemma LengthTwoConvolves(a: seq<int>, b: seq<int>, root: int, q: nat, inv: int)
    requires |a| > 0 && |b| > 0 && |a| + |b| <= MAX_ELEMENTS && q > 1
    requires ConvolutionSize(|a|, |b|) == 2 && MultInverse(2, q) == Some(inv)
    ensures Convolved(a, b, root, q, inv) == Reduced(Schoolbook(a, b), q)
  {
    hide Frequencies, Schoolbook, ConvolutionSize, MultInverse, Cong;
    assert Primitive(-1, 2, q) by {
      assert Pow(-1, 1) == -1 * Pow(-1, 0);
      CongRefl(-1, q);
    }
    LengthTwo(Padded(a, 2), root, q, false);
    LengthTwo(Padded(b, 2), root, q, false);
    var A, B := Frequencies(Padded(a, 2), root, q, false), Frequencies(Padded(b, 2), root, q, false);
    LengthTwo(Pointwise(A, B), root, q, true);
    ConvolutionTheorem(a, b, -1, q, inv);
  }

  /**
   Convolve asks for "an nth root of unity"; among the roots it accepts it returns the product on all inputs
   exactly when root^(n/2) is -1 or the padded length is at most 2.
   */
  lemma ConvolvesExactly(n: nat, root: int, q: nat, inv: int)
    requires q > 1 && 0 < n <= MAX_ELEMENTS
    requires RootError(n, root, q) == None && MultInverse(n, q) == Some(inv)
    ensures AlwaysConvolves(n, root, q, inv) <==> n <= 2 || Primitive(root, n, q)
  {
    hide RootError, Cong, Convolved, Schoolbook, ConvolutionSize, MultInverse, IsPowerOfTwo, Pow;
    AcceptedRoot(n, root, q);
    InverseCong(n, q, inv);
    forall a: seq<int>, b: seq<int> |
        |a| > 0 && |b| > 0 && |a| + |b| <= MAX_ELEMENTS && ConvolutionSize(|a|, |b|) == n &&
        (n <= 2 || Primitive(root, n, q))
      ensures Convolved(a, b, root, q, inv) == Reduced(Schoolbook(a, b), q)
    {
      if n == 2 {
        LengthTwoConvolves(a, b, root, q, inv);
      } else {
        RootOfLengthOne(n, root, q);
        ConvolutionTheorem(a, b, root, q, inv);
      }
    }
    if AlwaysConvolves(n, root, q, inv) && n > 2 {
      AtLeastFour(n);
      ConvolvingForcesPrimitive(n, root, q, inv);
    }
  }

  lemma RootOfLengthOne(n: nat, root: int, q: nat)
    requires n > 0 && Cong(Pow(root, n), 1, q) && (n == 1 || Primitive(root, n, q))
    ensures Primitive(root, n, q)
  {
    if n == 1 {
      assert Pow(root, 1) == root * Pow(root, 0) == root;
    }
  }

  lemma AtLeastFour(n: nat)
    requires IsPowerOfTwo(n) && n > 2
    ensures n >= 4
  {
  }

  lemma InverseOfFour()
    ensures MultInverse(4, 5) == Some(4)
  {
    hide ExtendedGcd;
    CongIffMod(4 * 4, 1, 5);
    ModInverseComplete(4, 4, 5);
    var v := ModInverse(4, 5).value;
    assert v == 0 || v == 1 || v == 2 || v == 3 || v == 4;
  }

  lemma FirstIsOne(c: int)
    requires 0 <= c < 5 && Cong(2 * c, 17, 5)
    ensures c == 1
  {
    CongIffMod(2 * c, 17, 5);
  }

  lemma ConvolvedRange(a: seq<int>, b: seq<int>, root: int, q: nat, inv: int)
    requires |a| > 0 && |b| > 0 && |a| + |b| <= MAX_ELEMENTS && q > 1
    ensures 0 <= Convolved(a, b, root, q, inv)[0] < q
  {
  }

  /** The accepted root 4 modulo 5 gives a wrong product: x * x is x^2, but coefficient 0 comes out as 1. */
  lemma AcceptedRootMisconvolves()
    ensures ConvolutionSize(2, 2) == 4 && RootError(4, 4, 5) == None && MultInverse(4, 5) == Some(4)
    ensures Schoolbook([0, 1], [0, 1])[0] == 0 && Convolved([0, 1], [0, 1], 4, 5, 4)[0] == 1
  {
    AcceptedRootFails();
    SmallPowers();
    InverseOfFour();
    assert IsPowerOfTwo(2) && IsPowerOfTwo(4);
    CongIffMod(Pow(4, 4), 1, 5);
    CongIffMod(4 * 4, 1, 5);
    SizeOfQuarters(4);
    assert Unit(2, 1) == [0, 1];
    hide Convolved, ConvolutionSize, Frequencies, Schoolbook, Cong, Pow;
    ConvolvedQuarters(4, 4, 5, 4);
    SchoolbookFirst(1);
    ConvolvedRange([0, 1], [0, 1], 4, 5, 4);
    FirstIsOne(Convolved([0, 1], [0, 1], 4, 5, 4)[0]);
  }

  // ---- The source's methods.

  /** A Go slice: part of an array, with room to grow up to its capacity. */
  datatype Slice = Slice(store: array<int>, off: nat, len: nat, cap: nat) {
    ghost predicate Valid() {
      len <= cap && off + cap <= store.Length
    }

    function Contents(): (s: seq<int>)
      requires len <= cap && off + cap <= store.Length
      reads store
      ensures |s| == len
    {
      store[off..off + len]
    }
  }

  /** A store after zeros have been written to the cells from lo to hi. */
  function Zeroed(s: seq<int>, lo: nat, hi: nat): (r: seq<int>)
    requires lo <= hi <= |s|
    ensures |r| == |s|
  {
    s[..lo] + seq(hi - lo, _ => 0) + s[hi..]
  }

  method WriteZeros(store: array<int>, lo: nat, hi: nat)
    requires lo <= hi <= store.Length
    modifies store
    ensures store[..] == Zeroed(old(store[..]), lo, hi)
  {
    for i := lo to hi
      invariant forall j :: 0 <= j < store.Length ==> store[j] == if lo <= j < i then 0 else old(store[j])
    {
      store[i] := 0;
    }
    ghost var was := old(store[..]);
    forall j | 0 <= j < store.Length
      ensures store[j] == Zeroed(was, lo, hi)[j]
    {
    }
  }

  /** What zero-padding a slice to n elements leaves in a store: zeros after the slice, if its capacity suffices. */
  function Padding(s: seq<int>, x: Slice, n: nat): (r: seq<int>)
    requires x.off + x.cap <= |s| && x.len <= n
    ensures |r| == |s|
  {
    if n <= x.cap then Zeroed(s, x.off + x.len, x.off + n) else s
  }

  /** append(x, zeros...): written into the spare capacity of x when there is enough, else into a new store. */
  method ZeroPad(x: Slice, size: nat) returns (padded: Slice)
    requires x.Valid() && x.len <= size
    modifies x.store
    ensures padded.Valid() && padded.Contents() == Padded(old(x.Contents()), size)
    ensures x.store[..] == Padding(old(x.store[..]), x, size)
    ensures if size <= x.cap then padded == x.(len := size) else fresh(padded.store)
  {
    if size <= x.cap {
      ghost var before := x.store[..];
      WriteZeros(x.store, x.off + x.len, x.off + size);
      padded := x.(len := size);
      assert padded.Contents() == x.store[..][x.off..x.off + size] == Padded(before[x.off..x.off + x.len], size);
    } else {
      var grown := Regrown(x, size);
      padded := Slice(grown, 0, size, size);
      assert grown[0..size] == grown[..];
    }
  }

  // The new store of append.
  method Regrown(x: Slice, size: nat) returns (grown: array<int>)
    requires x.Valid() && x.len <= size
    ensures fresh(grown) && grown[..] == Padded(x.Contents(), size)
  {
    grown := new int[size];
    for i := 0 to x.len
      invariant forall j :: 0 <= j < i ==> grown[j] == x.store[x.off + j]
    {
      grown[i] := x.store[x.off + i];
    }
    for i := x.len to size
      invariant forall j :: 0 <= j < x.len ==> grown[j] == x.store[x.off + j]
      invariant forall j :: x.len <= j < i ==> grown[j] == 0
    {
      grown[i] := 0;
    }
    assert grown[..] == Padded(x.Contents(), size);
  }

  /** What a slice of the same store holds once the cells from lo to hi are zeroed. */
  function Seen(s: seq<int>, lo: nat, hi: nat, off: nat, len: nat): (r: seq<int>)
    requires lo <= hi <= |s| && off + len <= |s|
    ensures |r| == len
  {
    Zeroed(s, lo, hi)[off..off + len]
  }

  /** It is unharmed exactly when whatever it has among those cells is zero already. */
  lemma SeenExactly(s: seq<int>, lo: nat, hi: nat, off: nat, len: nat)
    requires lo <= hi <= |s| && off + len <= |s|
    ensures Seen(s, lo, hi, off, len) == s[off..off + len] <==>
            forall i :: lo <= i < hi && off <= i < off + len ==> s[i] == 0
  {
    var seen, was := Seen(s, lo, hi, off, len), s[off..off + len];
    forall i | 0 <= i < len
      ensures seen[i] == if lo <= off + i < hi then 0 else was[i]
    {
    }
    if seen == was {
      forall i | lo <= i < hi && off <= i < off + len
        ensures s[i] == 0
      {
        assert seen[i - off] == was[i - off];
      }
    }
  }

  /** Two halves of one array: padding the first wipes out the second, and the product with it. */
  lemma SharedStoreLosesFactor()
    ensures ConvolutionSize(2, 2) == 4 && Seen([1, 1, 1, 1], 2, 4, 2, 2) == [0, 0]
    ensures Schoolbook([1, 1], [1, 1])[0] == 1 && Schoolbook([1, 1], [0, 0])[0] == 0
  {
    assert IsPowerOfTwo(2) && IsPowerOfTwo(4);
    SizeOfQuarters(4);
    FirstCoefficient([1, 1], [1, 1]);
    FirstCoefficient([1, 1], [0, 0]);
  }

  lemma FirstCoefficient(a: seq<int>, b: seq<int>)
    requires |a| == |b| == 2
    ensures Schoolbook(a, b)[0] == a[0] * b[0]
  {
    SumSingle(j => At(a, j) * At(b, 0 - j), 0, 2);
  }

  /** What b holds when Convolve comes to pad it: a may have been padded over it. */
  ghost function Left(a: Slice, b: Slice, n: nat): (r: seq<int>)
    requires a.Valid() && b.Valid() && a.len <= n
    reads a.store, b.store
    ensures |r| == b.len
    ensures a.store != b.store || n > a.cap ==> r == b.Contents()
  {
    if a.store == b.store && n <= a.cap then Seen(b.store[..], a.off + a.len, a.off + n, b.off, b.len)
    else b.Contents()
  }

  /** What Convolve leaves in a store: a is padded, and then b, unless the transform of a failed. */
  ghost function Remains(s: seq<int>, store: array<int>, a: Slice, b: Slice, n: nat, failed: bool): (r: seq<int>)
    requires a.Valid() && b.Valid() && a.len <= n && b.len <= n && |s| == store.Length
    ensures |r| == |s|
  {
    var padded := if store == a.store then Padding(s, a, n) else s;
    if store == b.store && !failed then Padding(padded, b, n) else padded
  }

  /**
   The caller's own a and b. Of factors in different stores neither is changed; of factors in one store, each is
   changed exactly when padding the other writes to a cell of it that is not zero already.
   */
  lemma FactorsRemainExactly(s: seq<int>, a: Slice, b: Slice, n: nat)
    requires a.Valid() && b.Valid() && a.len <= n && b.len <= n && |s| == a.store.Length
    ensures var r := Remains(s, a.store, a, b, n, false);
            && (r[a.off..a.off + a.len] == s[a.off..a.off + a.len] <==>
                a.store == b.store && n <= b.cap ==>
                  forall i :: b.off + b.len <= i < b.off + n && a.off <= i < a.off + a.len ==> s[i] == 0)
            && (a.store == b.store ==>
                 (r[b.off..b.off + b.len] == s[b.off..b.off + b.len] <==>
                  n <= a.cap ==>
                    forall i :: a.off + a.len <= i < a.off + n && b.off <= i < b.off + b.len ==> s[i] == 0))
  {
    hide Padding;
    var padded := Padding(s, a, n);
    PaddingTouches(s, a, n, a.off, a.len);
    if a.store == b.store {
      PaddingTouches(s, a, n, b.off, b.len);
      PaddingTouches(padded, b, n, b.off, b.len);
      PaddingTouches(padded, b, n, a.off, a.len);
      assert forall i :: a.off <= i < a.off + a.len ==> padded[a.off..a.off + a.len][i - a.off] == padded[i];
      assert forall i :: a.off <= i < a.off + a.len ==> s[a.off..a.off + a.len][i - a.off] == s[i];
    }
  }

  lemma PaddingTouches(s: seq<int>, x: Slice, n: nat, off: nat, len: nat)
    requires x.len <= x.cap && x.off + x.cap <= |s| && x.len <= n && off + len <= |s|
    ensures Padding(s, x, n)[off..off + len] == s[off..off + len] <==>
            n <= x.cap ==> forall i :: x.off + x.len <= i < x.off + n && off <= i < off + len ==> s[i] == 0
  {
    if n <= x.cap {
      SeenExactly(s, x.off + x.len, x.off + n, off, len);
    }
  }

  /**
   Convolve: with a suitable root, the schoolbook product of a and b modulo q. Where b lies in the spare capacity of
   a it is the product with what padding a leaves of b.
   */
  method Convolve(q: nat, a: Slice, b: Slice, root: int) returns (r: Result<array<int>, Error>)
    requires q > 1 && a.Valid() && b.Valid() && a.len > 0 && b.len > 0 && a.len + b.len <= MAX_ELEMENTS
    modifies a.store, b.store
    ensures var n := ConvolutionSize(a.len, b.len);
            match RootError(n, root, q)
            case Some(e) => r == Err(e)
            case None =>
              match MultInverse(n, q)
              case None => r == Err(NoInverse)
              case Some(inv) => r.Ok? && fresh(r.value) &&
                                r.value[..] == Convolved(old(a.Contents()), old(Left(a, b, n)), root, q, inv) &&
                                (Primitive(root, n, q) ==>
                                   r.value[..] == Reduced(Schoolbook(old(a.Contents()), old(Left(a, b, n))), q))
    ensures var n := ConvolutionSize(a.len, b.len);
            var failed := RootError(n, root, q).Some?;
            && a.store[..] == Remains(old(a.store[..]), a.store, a, b, n, failed)
            && b.store[..] == Remains(old(b.store[..]), b.store, a, b, n, failed)
  {
    hide Cong, Frequencies, Primitive, RootError, MultInverse, Inverted, Schoolbook, DFT, IsPowerOfTwo, ConvolutionSize,
         Pointwise, Convolved, Reduced, Padded, Left, Seen, Zeroed;
    var n := ConvolutionSize(a.len, b.len);
    ghost var x, y := a.Contents(), Left(a, b, n);
    var aFreq, bFreq := PadAndTransform(q, a, b, root, n);
    if aFreq.Err? {
      return aFreq;
    }
    if bFreq.Err? {
      return bFreq;
    }
    var product := aFreq.value;
    MultiplyInto(product, bFreq.value);
    var result := FFTInverse(q, product, root);
    if result.Err? {
      return result;
    }
    var cut := Cut(result.value, 0, a.len + b.len - 1);
    ConvolvedIs(x, y, root, q, MultInverse(n, q).value);
    if Primitive(root, n, q) {
      ConvolutionTheorem(x, y, root, q, MultInverse(n, q).value);
    }
    return Ok(cut);
  }

  // The first half of Convolve: b is padded after a has been transformed, unless that failed.
  method PadAndTransform(q: nat, a: Slice, b: Slice, root: int, n: nat)
    returns (aFreq: Result<array<int>, Error>, bFreq: Result<array<int>, Error>)
    requires q > 1 && a.Valid() && b.Valid() && 0 < a.len <= n && 0 < b.len <= n
    modifies a.store, b.store
    ensures match RootError(n, root, q)
            case Some(e) => aFreq == Err(e)
            case None =>
              && IsPowerOfTwo(n) && aFreq.Ok? && bFreq.Ok? && fresh(aFreq.value) && fresh(bFreq.value)
              && aFreq.value != bFreq.value
              && aFreq.value[..] == Frequencies(Padded(old(a.Contents()), n), root, q, false)
              && bFreq.value[..] == Frequencies(Padded(old(Left(a, b, n)), n), root, q, false)
    ensures a.store[..] == Remains(old(a.store[..]), a.store, a, b, n, RootError(n, root, q).Some?)
    ensures b.store[..] == Remains(old(b.store[..]), b.store, a, b, n, RootError(n, root, q).Some?)
  {
    hide Frequencies, RootError, IsPowerOfTwo, Padded, Zeroed;
    var aPadded := PadOver(a, b, n);
    aFreq := FrequenciesOf(q, aPadded, root);
    if aFreq.Err? {
      bFreq := aFreq;
      return;
    }
    hide Left;
    var bPadded := ZeroPad(b, n);
    bFreq := FrequenciesOf(q, bPadded, root);
  }

  // Padding a, with b looking on.
  method PadOver(a: Slice, b: Slice, n: nat) returns (padded: Slice)
    requires a.Valid() && b.Valid() && a.len <= n
    modifies a.store
    ensures padded.Valid() && padded.len == n && padded.Contents() == Padded(old(a.Contents()), n)
    ensures b.Contents() == old(Left(a, b, n)) && a.store[..] == Padding(old(a.store[..]), a, n)
  {
    hide Padded, Zeroed;
    padded := ZeroPad(a, n);
    if a.store == b.store {
      assert b.Contents() == a.store[..][b.off..b.off + b.len];
    }
  }

  lemma ConvolvedIs(a: seq<int>, b: seq<int>, root: int, q: nat, inv: int)
    requires |a| > 0 && |b| > 0 && |a| + |b| <= MAX_ELEMENTS && q > 1
    ensures var n := ConvolutionSize(|a|, |b|);
            Convolved(a, b, root, q, inv) ==
            Inverted(Pointwise(Frequencies(Padded(a, n), root, q, false), Frequencies(Padded(b, n), root, q, false)),
                     root, q, inv)[0..|a| + |b| - 1]
  {
  }

  // product[i] *= other[i], for all i.
  method MultiplyInto(product: array<int>, other: array<int>)
    requires product != other && product.Length == other.Length
    modifies product
    ensures product[..] == Pointwise(old(product[..]), other[..])
  {
    ghost var was := product[..];
    for i := 0 to product.Length
      invariant forall j :: 0 <= j < i ==> product[j] == was[j] * other[j]
      invariant forall j :: i <= j < product.Length ==> product[j] == was[j]
    {
      product[i] := product[i] * other[i];
    }
    assert product[..] == Pointwise(was, other[..]);
  }

  // FFT of a slice, which it only reads.
  method FrequenciesOf(q: nat, x: Slice, root: int) returns (r: Result<array<int>, Error>)
    requires q > 1 && x.Valid() && x.len > 0
    ensures match RootError(x.len, root, q)
            case Some(e) => r == Err(e)
            case None => r.Ok? && fresh(r.value) && IsPowerOfTwo(x.len) &&
                         r.value[..] == Frequencies(x.Contents(), root, q, false)
  {
    hide Frequencies, RootError, DFT, Primitive, IsPowerOfTwo;
    var view := Cut(x.store, x.off, x.off + x.len);
    r := FFT(q, view, root);
  }

  // x[lo:hi], copied.
  method Cut(x: array<int>, lo: nat, hi: nat) returns (y: array<int>)
    requires lo <= hi <= x.Length
    ensures fresh(y) && y[..] == x[lo..hi]
  {
    y := new int[hi - lo];
    for i := 0 to hi - lo
      invariant forall j :: 0 <= j < i ==> y[j] == x[lo + j]
    {
      y[i] := x[lo + i];
    }
  }
}
