/**
 go/galois/fft.go: FFTInverse inverts FFT by undoing its butterflies. Nothing is asked of the root but that its n-th
 power is 1, so this covers every root that passes the checks, primitive or not.
 */
module RoundTrip {
  import opened ModularArithmetic
  import opened Transform
  import opened Results
  import opened Field
  import opened Bits
  import opened Fft

  /** The table of the powers of an n-th root of 1. */
  ghost predicate IsTable(roots: seq<int>, w: int, q: int) {
    |roots| > 0 && HoldsPowers(roots, w, q) && Cong(Pow(w, |roots|), 1, q)
  }

  function Twiddle(roots: seq<int>, k: nat, stride: nat, inverse: bool): int
    requires |roots| > 0
  {
    roots[RootIndex(k, stride, |roots|, inverse)]
  }

  // ---- Twiddle factors.

  lemma TwiddleIsPower(roots: seq<int>, w: int, q: int, k: nat, stride: nat, inverse: bool)
    requires IsTable(roots, w, q)
    ensures Cong(Twiddle(roots, k, stride, inverse), Tw(w, |roots|, Exponent(k, stride, inverse)), q)
  {
  }

  lemma ExponentAdd(j: int, k: int, stride: int, inverse: bool)
    ensures Exponent(j + k, stride, inverse) == Exponent(j, stride, inverse) + Exponent(k, stride, inverse)
    ensures Exponent(k, stride, inverse) + Exponent(k, stride, !inverse) == 0
    ensures Exponent(k, 2 * stride, inverse) == Exponent(2 * k, stride, inverse)
  {
    assert (j + k) * stride == j * stride + k * stride;
    assert -(j + k) * stride == -j * stride + -k * stride;
    assert k * (2 * stride) == (2 * k) * stride;
    assert -k * (2 * stride) == -(2 * k) * stride;
  }

  lemma TwiddleAdd(roots: seq<int>, w: int, q: int, j: nat, k: nat, stride: nat, inverse: bool)
    requires IsTable(roots, w, q)
    ensures Cong(Twiddle(roots, j + k, stride, inverse),
                 Twiddle(roots, j, stride, inverse) * Twiddle(roots, k, stride, inverse), q)
  {
    var n := |roots|;
    var a, b := Exponent(j, stride, inverse), Exponent(k, stride, inverse);
    TwiddleIsPower(roots, w, q, j + k, stride, inverse);
    TwiddleIsPower(roots, w, q, j, stride, inverse);
    TwiddleIsPower(roots, w, q, k, stride, inverse);
    ExponentAdd(j, k, stride, inverse);
    TwAdd(w, n, q, a, b);
    hide *;
    var tj, tk := Twiddle(roots, j, stride, inverse), Twiddle(roots, k, stride, inverse);
    CongMul(tj, Tw(w, n, a), tk, Tw(w, n, b), q);
    CongSym(tj * tk, Tw(w, n, a) * Tw(w, n, b), q);
    CongTrans(Twiddle(roots, j + k, stride, inverse), Tw(w, n, a + b), Tw(w, n, a) * Tw(w, n, b), q);
    CongTrans(Twiddle(roots, j + k, stride, inverse), Tw(w, n, a) * Tw(w, n, b), tj * tk, q);
  }

  lemma TwiddleInverse(roots: seq<int>, w: int, q: int, k: nat, stride: nat, inverse: bool)
    requires IsTable(roots, w, q)
    ensures Cong(Twiddle(roots, k, stride, !inverse) * Twiddle(roots, k, stride, inverse), 1, q)
  {
    var n := |roots|;
    var a, b := Exponent(k, stride, !inverse), Exponent(k, stride, inverse);
    TwiddleIsPower(roots, w, q, k, stride, !inverse);
    TwiddleIsPower(roots, w, q, k, stride, inverse);
    ExponentAdd(0, k, stride, inverse);
    assert a + b == 0;
    TwAdd(w, n, q, a, b);
    assert Tw(w, n, 0) == 1;
    hide *;
    var ta, tb := Twiddle(roots, k, stride, !inverse), Twiddle(roots, k, stride, inverse);
    CongMul(ta, Tw(w, n, a), tb, Tw(w, n, b), q);
    CongSym(1, Tw(w, n, a) * Tw(w, n, b), q);
    CongTrans(ta * tb, Tw(w, n, a) * Tw(w, n, b), 1, q);
  }

  lemma FirstTwiddle(roots: seq<int>, w: int, q: int, stride: nat, inverse: bool)
    requires IsTable(roots, w, q)
    ensures Cong(Twiddle(roots, 0, stride, inverse), 1, q)
  {
    FirstIndex(stride, |roots|, inverse);
    assert Cong(roots[0], Pow(w, 0), q);
  }

  lemma TwiddleDouble(roots: seq<int>, k: nat, stride: nat, inverse: bool)
    requires |roots| > 0
    ensures Twiddle(roots, k, 2 * stride, inverse) == Twiddle(roots, 2 * k, stride, inverse)
  {
    ExponentAdd(0, k, stride, inverse);
  }

  // ---- The transform is linear.

  /** Inputs congruent to c times others give outputs congruent to c times theirs. */
  lemma {:induction false} TransformedScaled(z: seq<int>, x: seq<int>, c: int, roots: seq<int>, stride: nat,
                                             inverse: bool, q: int, k: nat)
    requires IsPowerOfTwo(|x|) && |z| == |x| && |roots| > 0 && k < |x|
    requires forall i :: 0 <= i < |x| ==> Cong(z[i], c * x[i], q)
    ensures Cong(Transformed(z, roots, stride, inverse)[k], c * Transformed(x, roots, stride, inverse)[k], q)
    decreases |x|
  {
    if |x| > 1 {
      var j := if k < |x| / 2 then k else k - |x| / 2;
      TransformedScaled(Even(z), Even(x), c, roots, 2 * stride, inverse, q, j);
      TransformedScaled(Odd(z), Odd(x), c, roots, 2 * stride, inverse, q, j);
      TransformedStep(z, roots, stride, inverse, k, j);
      TransformedStep(x, roots, stride, inverse, k, j);
      CombinedScaled(Transformed(Even(z), roots, 2 * stride, inverse)[j],
                     Transformed(Odd(z), roots, 2 * stride, inverse)[j],
                     Transformed(Even(x), roots, 2 * stride, inverse)[j],
                     Transformed(Odd(x), roots, 2 * stride, inverse)[j],
                     c, roots[RootIndex(j, stride, |roots|, inverse)], k < |x| / 2, q);
    }
  }

  lemma CombinedScaled(a: int, b: int, A: int, B: int, c: int, t: int, first: bool, q: int)
    requires Cong(a, c * A, q) && Cong(b, c * B, q)
    ensures Cong(Combined(a, b, t, first), c * Combined(A, B, t, first), q)
  {
    CongRefl(t, q);
    assert c * (A + B * t) == c * A + t * (c * B);
    assert c * (A - B * t) == c * A - t * (c * B);
    CongRefl(c * Combined(A, B, t, first), q);
    CombinedCong(a, b, t, c * A, c * B, t, first, c * Combined(A, B, t, first), q);
  }

  // ---- The same transform, taken apart by halves of the input instead of by parity.

  function Sums(y: seq<int>): (r: seq<int>)
    requires |y| % 2 == 0
    ensures 2 * |r| == |y|
  {
    seq(|y| / 2, k requires 0 <= k < |y| / 2 => y[k] + y[k + |y| / 2])
  }

  function Diffs(y: seq<int>, roots: seq<int>, stride: nat, inverse: bool): (r: seq<int>)
    requires |y| % 2 == 0 && |roots| > 0
    ensures 2 * |r| == |y|
  {
    seq(|y| / 2, k requires 0 <= k < |y| / 2 => Twiddle(roots, k, stride, inverse) * (y[k] - y[k + |y| / 2]))
  }

  lemma SumAt(y: seq<int>, h: nat, k: nat)
    requires |y| == 2 * h && k < h
    ensures Sums(y)[k] == y[k] + y[k + h]
  {
  }

  lemma DiffAt(y: seq<int>, roots: seq<int>, stride: nat, inverse: bool, h: nat, k: nat)
    requires |y| == 2 * h && k < h && |roots| > 0
    ensures Diffs(y, roots, stride, inverse)[k] == Twiddle(roots, k, stride, inverse) * (y[k] - y[k + h])
  {
  }

  lemma PartsOfSums(y: seq<int>, m: nat)
    requires |y| == 4 * m
    ensures Even(Sums(y)) == Sums(Even(y)) && Odd(Sums(y)) == Sums(Odd(y))
  {
    forall k | 0 <= k < m
      ensures Even(Sums(y))[k] == Sums(Even(y))[k] && Odd(Sums(y))[k] == Sums(Odd(y))[k]
    {
      SumAt(y, 2 * m, 2 * k);
      SumAt(y, 2 * m, 2 * k + 1);
      SumAt(Even(y), m, k);
      SumAt(Odd(y), m, k);
    }
  }

  lemma EvenOfDiffs(y: seq<int>, roots: seq<int>, stride: nat, inverse: bool, m: nat)
    requires |y| == 4 * m && |roots| > 0
    ensures Even(Diffs(y, roots, stride, inverse)) == Diffs(Even(y), roots, 2 * stride, inverse)
  {
    hide Twiddle, Diffs;
    forall k | 0 <= k < m
      ensures Even(Diffs(y, roots, stride, inverse))[k] == Diffs(Even(y), roots, 2 * stride, inverse)[k]
    {
      DiffAt(y, roots, stride, inverse, 2 * m, 2 * k);
      DiffAt(Even(y), roots, 2 * stride, inverse, m, k);
      TwiddleDouble(roots, k, stride, inverse);
    }
  }

  lemma OddOfDiffs(y: seq<int>, roots: seq<int>, stride: nat, inverse: bool, w: int, q: int, m: nat, k: nat)
    requires |y| == 4 * m && IsTable(roots, w, q) && k < m
    ensures Cong(Odd(Diffs(y, roots, stride, inverse))[k],
                 Twiddle(roots, 1, stride, inverse) * Diffs(Odd(y), roots, 2 * stride, inverse)[k], q)
  {
    hide Twiddle, Diffs, Cong, HoldsPowers;
    var d := y[2 * k + 1] - y[2 * k + 1 + 2 * m];
    var t, c, tc := Twiddle(roots, 2 * k, stride, inverse), Twiddle(roots, 1, stride, inverse),
                    Twiddle(roots, 2 * k + 1, stride, inverse);
    DiffAt(y, roots, stride, inverse, 2 * m, 2 * k + 1);
    DiffAt(Odd(y), roots, 2 * stride, inverse, m, k);
    TwiddleDouble(roots, k, stride, inverse);
    TwiddleAdd(roots, w, q, 2 * k, 1, stride, inverse);
    FactorOut(d, tc, t, c, q);
  }

  lemma FactorOut(d: int, tc: int, t: int, c: int, q: int)
    requires Cong(tc, t * c, q)
    ensures Cong(tc * d, c * (t * d), q)
  {
    CongScale(d, tc, t * c, q);
    assert d * (t * c) == c * (t * d);
  }

  /** Even outputs transform the sums of the halves; odd outputs their twisted differences. */
  lemma {:induction false} Decimation(y: seq<int>, roots: seq<int>, stride: nat, inverse: bool, w: int, q: int,
                                      h: nat, i: nat)
    requires IsPowerOfTwo(|y|) && |y| == 2 * h && IsTable(roots, w, q) && i < h
    ensures IsPowerOfTwo(h)
    ensures Cong(Transformed(y, roots, stride, inverse)[2 * i], Transformed(Sums(y), roots, 2 * stride, inverse)[i], q)
    ensures Cong(Transformed(y, roots, stride, inverse)[2 * i + 1],
                 Transformed(Diffs(y, roots, stride, inverse), roots, 2 * stride, inverse)[i], q)
    decreases |y|
  {
    hide Cong, Transformed, HoldsPowers, Sums, Diffs, Even, Odd;
    if h == 1 {
      DecimationOfTwo(y, roots, stride, inverse, w, q);
    } else {
      var m := h / 2;
      var j := if i < m then i else i - m;
      assert h == 2 * m && IsPowerOfTwo(m);
      Decimation(Even(y), roots, 2 * stride, inverse, w, q, m, j);
      Decimation(Odd(y), roots, 2 * stride, inverse, w, q, m, j);
      EvenOutput(y, roots, stride, inverse, q, m, i, j);
      OddOutput(y, roots, stride, inverse, w, q, m, i, j);
    }
  }

  lemma DecimationOfTwo(y: seq<int>, roots: seq<int>, stride: nat, inverse: bool, w: int, q: int)
    requires |y| == 2 && IsTable(roots, w, q)
    ensures Cong(Transformed(y, roots, stride, inverse)[0], Transformed(Sums(y), roots, 2 * stride, inverse)[0], q)
    ensures Cong(Transformed(y, roots, stride, inverse)[1],
                 Transformed(Diffs(y, roots, stride, inverse), roots, 2 * stride, inverse)[0], q)
  {
    var t := Twiddle(roots, 0, stride, inverse);
    TransformedStep(y, roots, stride, inverse, 0, 0);
    TransformedStep(y, roots, stride, inverse, 1, 0);
    FirstTwiddle(roots, w, q, stride, inverse);
    assert Transformed(y, roots, stride, inverse)[0] == Combined(y[0], y[1], t, true);
    assert Transformed(y, roots, stride, inverse)[1] == Combined(y[0], y[1], t, false);
    assert Diffs(y, roots, stride, inverse)[0] == t * (y[0] - y[1]);
    UnitButterfly(y[0], y[1], t, q);
  }

  lemma UnitButterfly(a: int, b: int, t: int, q: int)
    requires Cong(t, 1, q)
    ensures Cong(a + b * t, a + b, q) && Cong(a - b * t, t * (a - b), q)
  {
    CongScale(b, t, 1, q);
    CongRefl(a, q);
    CongAdd(a, a, b * t, b, q);
    CongSub(a, a, b * t, b, q);
    CongScale(a - b, t, 1, q);
    CongSym(t * (a - b), a - b, q);
    CongTrans(a - b * t, a - b, t * (a - b), q);
  }

  lemma EvenOutput(y: seq<int>, roots: seq<int>, stride: nat, inverse: bool, q: int, m: nat, i: nat, j: nat)
    requires IsPowerOfTwo(|y|) && |y| == 4 * m && |roots| > 0 && IsPowerOfTwo(m)
    requires i < 2 * m && j == if i < m then i else i - m
    requires Cong(Transformed(Even(y), roots, 2 * stride, inverse)[2 * j],
                  Transformed(Sums(Even(y)), roots, 4 * stride, inverse)[j], q)
    requires Cong(Transformed(Odd(y), roots, 2 * stride, inverse)[2 * j],
                  Transformed(Sums(Odd(y)), roots, 4 * stride, inverse)[j], q)
    ensures Cong(Transformed(y, roots, stride, inverse)[2 * i], Transformed(Sums(y), roots, 2 * stride, inverse)[i], q)
  {
    hide Cong, Transformed, RootIndex, Combined;
    var t := Twiddle(roots, 2 * j, stride, inverse);
    var A := Transformed(Sums(Even(y)), roots, 4 * stride, inverse)[j];
    var B := Transformed(Sums(Odd(y)), roots, 4 * stride, inverse)[j];
    TransformedStep(y, roots, stride, inverse, 2 * i, 2 * j);
    TransformedStep(Sums(y), roots, 2 * stride, inverse, i, j);
    PartsOfSums(y, m);
    TwiddleDouble(roots, j, stride, inverse);
    SameCombination(Transformed(Even(y), roots, 2 * stride, inverse)[2 * j],
                    Transformed(Odd(y), roots, 2 * stride, inverse)[2 * j], A, B, t, i < m, q);
  }

  lemma SameCombination(a: int, b: int, A: int, B: int, t: int, first: bool, q: int)
    requires Cong(a, A, q) && Cong(b, B, q)
    ensures Cong(Combined(a, b, t, first), Combined(A, B, t, first), q)
  {
    CombinedScaled(a, b, A, B, 1, t, first, q);
  }

  lemma OddDiffsTransformed(y: seq<int>, roots: seq<int>, stride: nat, inverse: bool, w: int, q: int, m: nat, j: nat)
    requires |y| == 4 * m && IsTable(roots, w, q) && IsPowerOfTwo(m) && j < m
    ensures Cong(Transformed(Odd(Diffs(y, roots, stride, inverse)), roots, 4 * stride, inverse)[j],
                 Twiddle(roots, 1, stride, inverse) *
                 Transformed(Diffs(Odd(y), roots, 2 * stride, inverse), roots, 4 * stride, inverse)[j], q)
  {
    hide Cong, Transformed, Diffs, HoldsPowers, Odd, Twiddle, IsPowerOfTwo;
    var z, x := Odd(Diffs(y, roots, stride, inverse)), Diffs(Odd(y), roots, 2 * stride, inverse);
    var c := Twiddle(roots, 1, stride, inverse);
    assert |z| == m && |x| == m;
    forall k | 0 <= k < m
      ensures Cong(z[k], c * x[k], q)
    {
      OddOfDiffs(y, roots, stride, inverse, w, q, m, k);
    }
    TransformedScaled(z, x, c, roots, 4 * stride, inverse, q, j);
  }

  lemma OddOutput(y: seq<int>, roots: seq<int>, stride: nat, inverse: bool, w: int, q: int, m: nat, i: nat,
                  j: nat)
    requires IsPowerOfTwo(|y|) && |y| == 4 * m && IsTable(roots, w, q) && IsPowerOfTwo(2 * m) && IsPowerOfTwo(m)
    requires i < 2 * m && j == if i < m then i else i - m
    requires Cong(Transformed(Even(y), roots, 2 * stride, inverse)[2 * j + 1],
                  Transformed(Diffs(Even(y), roots, 2 * stride, inverse), roots, 4 * stride, inverse)[j], q)
    requires Cong(Transformed(Odd(y), roots, 2 * stride, inverse)[2 * j + 1],
                  Transformed(Diffs(Odd(y), roots, 2 * stride, inverse), roots, 4 * stride, inverse)[j], q)
    ensures Cong(Transformed(y, roots, stride, inverse)[2 * i + 1],
                 Transformed(Diffs(y, roots, stride, inverse), roots, 2 * stride, inverse)[i], q)
  {
    hide Cong, Transformed, RootIndex, Combined, HoldsPowers, Diffs, Even, Odd, Twiddle, IsPowerOfTwo;
    var d := Diffs(y, roots, stride, inverse);
    var t, c := Twiddle(roots, 2 * j, stride, inverse), Twiddle(roots, 1, stride, inverse);
    OutputAt(y, roots, stride, inverse, 2 * m, 2 * i + 1, 2 * j + 1);
    OutputAt(d, roots, 2 * stride, inverse, m, i, j);
    EvenOfDiffs(y, roots, stride, inverse, m);
    OddDiffsTransformed(y, roots, stride, inverse, w, q, m, j);
    TwiddleAdd(roots, w, q, 2 * j, 1, stride, inverse);
    TwiddleDouble(roots, j, stride, inverse);
    ShiftedCombination(Transformed(Even(y), roots, 2 * stride, inverse)[2 * j + 1],
                       Transformed(Odd(y), roots, 2 * stride, inverse)[2 * j + 1],
                       Transformed(Diffs(Even(y), roots, 2 * stride, inverse), roots, 4 * stride, inverse)[j],
                       Transformed(Diffs(Odd(y), roots, 2 * stride, inverse), roots, 4 * stride, inverse)[j],
                       Transformed(Odd(d), roots, 4 * stride, inverse)[j],
                       t, c, Twiddle(roots, 2 * j + 1, stride, inverse), i < m, q);
  }

  lemma OutputAt(y: seq<int>, roots: seq<int>, stride: nat, inverse: bool, h: nat, k: nat, j: nat)
    requires IsPowerOfTwo(|y|) && |y| == 2 * h && IsPowerOfTwo(h) && |roots| > 0
    requires k < 2 * h && j == if k < h then k else k - h
    ensures Transformed(y, roots, stride, inverse)[k] ==
            Combined(Transformed(Even(y), roots, 2 * stride, inverse)[j],
                     Transformed(Odd(y), roots, 2 * stride, inverse)[j], Twiddle(roots, j, stride, inverse), k < h)
  {
    hide Transformed, RootIndex, Combined, Even, Odd;
    TransformedStep(y, roots, stride, inverse, k, j);
  }

  /** Moving a factor of the twiddle to the odd half. */
  lemma ShiftedCombination(a: int, b: int, A: int, B: int, cB: int, t: int, c: int, tc: int, first: bool, q: int)
    requires Cong(a, A, q) && Cong(b, B, q) && Cong(cB, c * B, q) && Cong(tc, t * c, q)
    ensures Cong(Combined(a, b, tc, first), Combined(A, cB, t, first), q)
  {
    var target := Combined(A, cB, t, first);
    CongScale(t, cB, c * B, q);
    assert t * (c * B) == (t * c) * B;
    CongRefl(A, q);
    CongAdd(A, A, t * cB, (t * c) * B, q);
    CongSub(A, A, t * cB, (t * c) * B, q);
    assert cB * t == t * cB;
    CombinedCong(a, b, tc, A, B, t * c, first, target, q);
  }

  // ---- Undoing the butterflies.

  /** Sums and differences of one level's outputs give back its halves, twice. */
  lemma UndoneLevel(even: seq<int>, odd: seq<int>, roots: seq<int>, stride: nat, inverse: bool, w: int, q: int, k: nat)
    requires |even| == |odd| && IsTable(roots, w, q) && k < |even|
    ensures var y := Recombined(even, odd, roots, stride, inverse);
            && Cong(Sums(y)[k], 2 * even[k], q)
            && Cong(Diffs(y, roots, stride, !inverse)[k], 2 * odd[k], q)
  {
    var y := Recombined(even, odd, roots, stride, inverse);
    var t, u := Twiddle(roots, k, stride, inverse), Twiddle(roots, k, stride, !inverse);
    RecombinedAt(even, odd, roots, stride, inverse, k);
    assert y[k] == even[k] + odd[k] * t && y[k + |even|] == even[k] - odd[k] * t;
    assert Diffs(y, roots, stride, !inverse)[k] == u * (y[k] - y[k + |even|]);
    CongRefl(2 * even[k], q);
    TwiddleInverse(roots, w, q, k, stride, inverse);
    CongScale(2 * odd[k], u * t, 1, q);
    DifferenceOfButterfly(even[k], odd[k], t, u);
  }

  lemma DifferenceOfButterfly(a: int, b: int, t: int, u: int)
    ensures u * ((a + b * t) - (a - b * t)) == (2 * b) * (u * t)
  {
    assert (a + b * t) - (a - b * t) == 2 * (b * t);
    assert u * (2 * (b * t)) == (2 * b) * (u * t);
  }

  /** Transforming in one direction and then in the other multiplies by the length. */
  lemma {:induction false} Undone(x: seq<int>, roots: seq<int>, stride: nat, inverse: bool, w: int, q: int, k: nat)
    requires IsPowerOfTwo(|x|) && IsTable(roots, w, q) && k < |x|
    ensures Cong(Transformed(Transformed(x, roots, stride, inverse), roots, stride, !inverse)[k], |x| * x[k], q)
    decreases |x|
  {
    if |x| == 1 {
      CongRefl(x[0], q);
    } else {
      var i := k / 2;
      if k % 2 == 0 {
        Undone(Even(x), roots, 2 * stride, inverse, w, q, i);
      } else {
        Undone(Odd(x), roots, 2 * stride, inverse, w, q, i);
      }
      UndoneStep(x, roots, stride, inverse, w, q, k, i);
    }
  }

  lemma UndoneStep(x: seq<int>, roots: seq<int>, stride: nat, inverse: bool, w: int, q: int, k: nat, i: nat)
    requires IsPowerOfTwo(|x|) && |x| > 1 && IsTable(roots, w, q) && k < |x| && i == k / 2
    requires var part := if k % 2 == 0 then Even(x) else Odd(x);
             Cong(Transformed(Transformed(part, roots, 2 * stride, inverse), roots, 2 * stride, !inverse)[i],
                  |part| * part[i], q)
    ensures Cong(Transformed(Transformed(x, roots, stride, inverse), roots, stride, !inverse)[k], |x| * x[k], q)
  {
    hide Cong, Transformed, HoldsPowers, Diffs, Sums, Twiddle;
    var h := |x| / 2;
    var half := Transformed(if k % 2 == 0 then Even(x) else Odd(x), roots, 2 * stride, inverse);
    var y := Transformed(x, roots, stride, inverse);
    UndoneHalves(x, roots, stride, inverse, w, q, h);
    Decimation(y, roots, stride, !inverse, w, q, h, i);
    if k % 2 == 0 {
      TransformedScaled(Sums(y), half, 2, roots, 2 * stride, !inverse, q, i);
      TwiceTheHalf(Transformed(y, roots, stride, !inverse)[k], Transformed(Sums(y), roots, 2 * stride, !inverse)[i],
                   Transformed(half, roots, 2 * stride, !inverse)[i], h, x[k], q);
    } else {
      var diffs := Diffs(y, roots, stride, !inverse);
      TransformedScaled(diffs, half, 2, roots, 2 * stride, !inverse, q, i);
      TwiceTheHalf(Transformed(y, roots, stride, !inverse)[k], Transformed(diffs, roots, 2 * stride, !inverse)[i],
                   Transformed(half, roots, 2 * stride, !inverse)[i], h, x[k], q);
    }
  }

  /** Sums and differences of the outputs are twice the transformed halves of the input. */
  lemma UndoneHalves(x: seq<int>, roots: seq<int>, stride: nat, inverse: bool, w: int, q: int, h: nat)
    requires IsPowerOfTwo(|x|) && |x| == 2 * h && IsTable(roots, w, q) && IsPowerOfTwo(h)
    ensures var y := Transformed(x, roots, stride, inverse);
            forall j :: 0 <= j < h ==>
              && Cong(Sums(y)[j], 2 * Transformed(Even(x), roots, 2 * stride, inverse)[j], q)
              && Cong(Diffs(y, roots, stride, !inverse)[j], 2 * Transformed(Odd(x), roots, 2 * stride, inverse)[j], q)
  {
    TransformedUnfold(x, roots, stride, inverse);
    hide Cong, Transformed, Recombined, HoldsPowers, Diffs, Sums, Twiddle;
    forall j | 0 <= j < h
      ensures var y := Transformed(x, roots, stride, inverse);
              && Cong(Sums(y)[j], 2 * Transformed(Even(x), roots, 2 * stride, inverse)[j], q)
              && Cong(Diffs(y, roots, stride, !inverse)[j], 2 * Transformed(Odd(x), roots, 2 * stride, inverse)[j], q)
    {
      UndoneLevel(Transformed(Even(x), roots, 2 * stride, inverse), Transformed(Odd(x), roots, 2 * stride, inverse),
                  roots, stride, inverse, w, q, j);
    }
  }

  lemma TwiceTheHalf(a: int, b: int, c: int, h: int, x: int, q: int)
    requires Cong(a, b, q) && Cong(b, 2 * c, q) && Cong(c, h * x, q)
    ensures Cong(a, (2 * h) * x, q)
  {
    CongScale(2, c, h * x, q);
    assert 2 * (h * x) == (2 * h) * x;
    CongTrans(b, 2 * c, (2 * h) * x, q);
    CongTrans(a, b, (2 * h) * x, q);
  }

  // ---- FFT and FFTInverse.

  lemma TableOfRoot(n: nat, root: int, q: nat)
    requires q > 1 && n > 0 && Cong(Pow(root, n), 1, q)
    ensures IsTable(RootTable(n, root, q), root, q)
  {
    RootTableHoldsPowers(n, root, q);
  }

  /** FFTInverse recovers x from anything congruent to its unreduced transform. */
  lemma InvertedUndoes(x: seq<int>, y: seq<int>, root: int, q: nat, inv: int)
    requires q > 1 && IsPowerOfTwo(|x|) && |y| == |x| && Cong(Pow(root, |x|), 1, q) && MultInverse(|x|, q) == Some(inv)
    requires forall k :: 0 <= k < |x| ==> Cong(y[k], Transformed(x, RootTable(|x|, root, q), 1, false)[k], q)
    ensures Inverted(y, root, q, inv) == Reduced(x, q)
  {
    var roots := RootTable(|x|, root, q);
    var freq := Transformed(x, roots, 1, false);
    TableOfRoot(|x|, root, q);
    InverseCong(|x|, q, inv);
    hide Cong, Transformed, RootTable, IsTable, MultInverse, Mul;
    forall k | 0 <= k < |x|
      ensures Inverted(y, root, q, inv)[k] == Reduced(x, q)[k]
    {
      TransformedScaled(y, freq, 1, roots, 1, true, q, k);
      Undone(x, roots, 1, false, root, q, k);
      var v := Transformed(y, roots, 1, true)[k];
      CongTrans(v, Transformed(freq, roots, 1, true)[k], |x| * x[k], q);
      InvertedEntry(v, |x|, x[k], inv, q);
    }
  }

  /** FFTInverse undoes FFT, up to reduction of the input into [0, q). */
  lemma InverseUndoesFft(x: seq<int>, root: int, q: nat, inv: int)
    requires q > 1 && IsPowerOfTwo(|x|) && Cong(Pow(root, |x|), 1, q) && MultInverse(|x|, q) == Some(inv)
    ensures Inverted(Frequencies(x, root, q, false), root, q, inv) == Reduced(x, q)
  {
    hide Cong, Transformed, RootTable, MultInverse, Inverted;
    var freq := Transformed(x, RootTable(|x|, root, q), 1, false);
    forall k | 0 <= k < |x|
      ensures Cong(Reduced(freq, q)[k], freq[k], q)
    {
      ModCong(freq[k], q);
    }
    InvertedUndoes(x, Reduced(freq, q), root, q, inv);
  }

  /** With a primitive root, FFTInverse recovers x from values congruent to its evaluations. */
  lemma InvertedRecovers(x: seq<int>, y: seq<int>, root: int, q: nat, inv: int)
    requires q > 1 && IsPowerOfTwo(|x|) && |y| == |x| && Primitive(root, |x|, q)
    requires MultInverse(|x|, q) == Some(inv)
    requires forall k :: 0 <= k < |x| ==> Cong(y[k], EvalAt(x, root, |x|, -1 * k), q)
    ensures Inverted(y, root, q, inv) == Reduced(x, q)
  {
    hide Cong, Transformed, RootTable, MultInverse, Inverted, EvalAt, Primitive;
    var roots := RootTable(|x|, root, q);
    var freq := Transformed(x, roots, 1, false);
    PrimitiveIsRoot(root, |x|, q);
    RootTableHoldsPowers(|x|, root, q);
    forall k | 0 <= k < |x|
      ensures Cong(y[k], freq[k], q)
    {
      TransformedEvaluates(x, roots, 1, false, root, q, k);
      CongSym(freq[k], EvalAt(x, root, |x|, -1 * k), q);
      CongTrans(y[k], EvalAt(x, root, |x|, -1 * k), freq[k], q);
    }
    InvertedUndoes(x, y, root, q, inv);
  }

  /** FFT undoes FFTInverse. */
  lemma FftUndoesInverse(x: seq<int>, root: int, q: nat, inv: int)
    requires q > 1 && IsPowerOfTwo(|x|) && Cong(Pow(root, |x|), 1, q) && MultInverse(|x|, q) == Some(inv)
    ensures Frequencies(Inverted(x, root, q, inv), root, q, false) == Reduced(x, q)
  {
    var roots := RootTable(|x|, root, q);
    var time, y := Transformed(x, roots, 1, true), Inverted(x, root, q, inv);
    TableOfRoot(|x|, root, q);
    InverseCong(|x|, q, inv);
    hide Cong, Transformed, RootTable, IsTable, MultInverse, Mul;
    forall k | 0 <= k < |x|
      ensures Frequencies(y, root, q, false)[k] == Reduced(x, q)[k]
    {
      forall j | 0 <= j < |x|
        ensures Cong(y[j], inv * time[j], q)
      {
        ScaledEntry(time[j], inv, q);
      }
      TransformedScaled(y, time, inv, roots, 1, false, q, k);
      Undone(x, roots, 1, true, root, q, k);
      var v := Transformed(y, roots, 1, false)[k];
      Unscaled(v, Transformed(time, roots, 1, false)[k], |x|, x[k], inv, q);
      CongIffMod(v, x[k], q);
    }
  }

  lemma Unscaled(v: int, u: int, n: int, x: int, inv: int, q: nat)
    requires q > 1 && Cong(v, inv * u, q) && Cong(u, n * x, q) && Cong(n * inv, 1, q)
    ensures Cong(v, x, q)
  {
    Unscale(u, n, x, inv, q);
    assert inv * u == u * inv;
    CongTrans(v, u * inv, x, q);
  }
}
