/** go/galois/convolution.go: over a prime field a product determines its factors, so a factor that is lost shows. */
module ProductFactors {
  import opened ModularArithmetic
  import opened Summation
  import opened Divisibility
  import opened Transform
  import opened Fft
  import opened Convolution

  ghost predicate Vanishes(x: seq<int>, q: int) {
    forall i :: 0 <= i < |x| ==> Cong(x[i], 0, q)
  }

  ghost predicate Same(x: seq<int>, y: seq<int>, q: int)
    requires |x| == |y|
  {
    forall i :: 0 <= i < |x| ==> Cong(x[i], y[i], q)
  }

  /** Products with two factors agree modulo a prime if and only if the factors do, or the other factor vanishes. */
  lemma SameProductExactly(a: seq<int>, b: seq<int>, c: seq<int>, q: nat)
    requires Prime(q) && |a| > 0 && |b| == |c| > 0
    ensures Reduced(Schoolbook(a, b), q) == Reduced(Schoolbook(a, c), q) <==> Vanishes(a, q) || Same(b, c, q)
  {
    hide Cong, Schoolbook, Reduced, Prime;
    assert q > 1 by {
      PrimeIsAboveOne(q);
    }
    if Vanishes(a, q) || Same(b, c, q) {
      forall k | 0 <= k < |a| + |b| - 1
        ensures Reduced(Schoolbook(a, b), q)[k] == Reduced(Schoolbook(a, c), q)[k]
      {
        SameCoefficient(a, b, c, q, k);
      }
    } else {
      var i := FirstNonZero(a, q);
      var j := FirstDifference(b, c, q);
      DifferentCoefficient(a, b, c, q, i, j);
    }
  }

  lemma PrimeIsAboveOne(q: nat)
    requires Prime(q)
    ensures q > 1
  {
  }

  function Part(a: seq<int>, b: seq<int>, k: int, j: int): int {
    if 0 <= j < |a| && 0 <= k - j < |b| then a[j] * b[k - j] else 0
  }

  lemma CoefficientIs(a: seq<int>, b: seq<int>, q: nat, k: nat)
    requires |a| > 0 && |b| > 0 && k < |a| + |b| - 1 && q > 0
    ensures Reduced(Schoolbook(a, b), q)[k] == Sum(j => Part(a, b, k, j), |a|) % q
  {
    SchoolbookAt(a, b, k, j => At(a, j) * At(b, k - j));
    SumExt(j => At(a, j) * At(b, k - j), j => Part(a, b, k, j), |a|);
  }

  lemma PartsAgree(a: seq<int>, b: seq<int>, c: seq<int>, q: nat, k: int, j: int)
    requires |b| == |c|
    requires 0 <= j < |a| && 0 <= k - j < |b| ==> Cong(a[j], 0, q) || Cong(b[k - j], c[k - j], q)
    ensures Cong(Part(a, b, k, j), Part(a, c, k, j), q)
  {
    if 0 <= j < |a| && 0 <= k - j < |b| {
      var x, y, z := a[j], b[k - j], c[k - j];
      hide Cong;
      if Cong(y, z, q) {
        CongScale(x, y, z, q);
      } else {
        CongScale(y, x, 0, q);
        CongScale(z, x, 0, q);
        CongSym(z * x, 0, q);
        CongTrans(y * x, 0, z * x, q);
      }
    } else {
      CongRefl(0, q);
    }
  }

  lemma SameCoefficient(a: seq<int>, b: seq<int>, c: seq<int>, q: nat, k: nat)
    requires q > 1 && |a| > 0 && |b| == |c| > 0 && k < |a| + |b| - 1
    requires Vanishes(a, q) || Same(b, c, q)
    ensures Reduced(Schoolbook(a, b), q)[k] == Reduced(Schoolbook(a, c), q)[k]
  {
    hide Cong, Schoolbook, Reduced, Part;
    CoefficientIs(a, b, q, k);
    CoefficientIs(a, c, q, k);
    var f, g := j => Part(a, b, k, j), j => Part(a, c, k, j);
    forall j | 0 <= j < |a|
      ensures Cong(f(j), g(j), q)
    {
      PartsAgree(a, b, c, q, k, j);
    }
    SumCong(f, g, |a|, q);
    CongIffMod(Sum(f, |a|), Sum(g, |a|), q);
  }

  lemma {:induction false} FirstNonZero(a: seq<int>, q: nat) returns (i: nat)
    requires !Vanishes(a, q)
    ensures i < |a| && !Cong(a[i], 0, q) && forall k :: 0 <= k < i ==> Cong(a[k], 0, q)
    decreases |a|
  {
    hide Cong;
    var last := |a| - 1;
    if Vanishes(a[..last], q) {
      forall k | 0 <= k < last
        ensures Cong(a[k], 0, q)
      {
        assert a[..last][k] == a[k];
      }
      i := last;
    } else {
      i := FirstNonZero(a[..last], q);
      forall k | 0 <= k < i
        ensures Cong(a[k], 0, q)
      {
        assert a[..last][k] == a[k];
      }
    }
  }

  lemma FirstDifference(b: seq<int>, c: seq<int>, q: nat) returns (i: nat)
    requires |b| == |c| && !Same(b, c, q)
    ensures i < |b| && !Cong(b[i], c[i], q) && forall k :: 0 <= k < i ==> Cong(b[k], c[k], q)
  {
    var d := seq(|b|, k requires 0 <= k < |b| => b[k] - c[k]);
    forall k | 0 <= k < |b|
      ensures Cong(d[k], 0, q) <==> Cong(b[k], c[k], q)
    {
      CongDifference(b[k], c[k], q);
    }
    hide Cong;
    var k :| 0 <= k < |b| && !Cong(b[k], c[k], q);
    assert !Cong(d[k], 0, q);
    i := FirstNonZero(d, q);
  }

  lemma CongDifference(x: int, y: int, q: int)
    ensures Cong(x - y, 0, q) <==> Cong(x, y, q)
  {
    CongRefl(y, q);
    if Cong(x - y, 0, q) {
      CongAdd(x - y, 0, y, y, q);
    }
    if Cong(x, y, q) {
      CongSub(x, y, y, y, q);
    }
  }

  /** The coefficient where the first of both meet has one part in which the products differ. */
  lemma DifferentCoefficient(a: seq<int>, b: seq<int>, c: seq<int>, q: nat, i: nat, j: nat)
    requires Prime(q) && q > 1 && |b| == |c| && i < |a| && j < |b|
    requires !Cong(a[i], 0, q) && forall k :: 0 <= k < i ==> Cong(a[k], 0, q)
    requires !Cong(b[j], c[j], q) && forall k :: 0 <= k < j ==> Cong(b[k], c[k], q)
    ensures Reduced(Schoolbook(a, b), q)[i + j] != Reduced(Schoolbook(a, c), q)[i + j]
  {
    hide Cong, Schoolbook, Reduced, Prime;
    CoefficientIs(a, b, q, i + j);
    CoefficientIs(a, c, q, i + j);
    var f, g := l => Part(a, b, i + j, l), l => Part(a, c, i + j, l);
    forall l | 0 <= l < |a| && l != i
      ensures Cong(f(l), g(l), q)
    {
      PartsAgree(a, b, c, q, i + j, l);
    }
    if Sum(f, |a|) % q == Sum(g, |a|) % q {
      CongIffMod(Sum(f, |a|), Sum(g, |a|), q);
      LastAgrees(f, g, i, |a|, q);
      EqualFactor(a[i], b[j], c[j], q);
      assert false;
    }
  }

  /** If sums agree and so do all terms but one, that one agrees too. */
  lemma LastAgrees(f: int -> int, g: int -> int, i: nat, n: nat, q: int)
    requires i < n && Cong(Sum(f, n), Sum(g, n), q)
    requires forall l :: 0 <= l < n && l != i ==> Cong(f(l), g(l), q)
    ensures Cong(f(i), g(i), q)
  {
    hide Cong, Sum;
    var f', g' := l => if l == i then 0 else f(l), l => if l == i then 0 else g(l);
    forall l | 0 <= l < n
      ensures Cong(f'(l), g'(l), q)
    {
      CongRefl(0, q);
    }
    SumCong(f', g', n, q);
    WithoutOne(f, i, n);
    WithoutOne(g, i, n);
    CongSub(Sum(f, n), Sum(g, n), Sum(f', n), Sum(g', n), q);
  }

  lemma WithoutOne(f: int -> int, i: nat, n: nat)
    requires i < n
    ensures Sum(f, n) == Sum(l => if l == i then 0 else f(l), n) + f(i)
  {
    hide Sum;
    var rest, one := l => if l == i then 0 else f(l), l => if l == i then f(i) else 0;
    SumAdd(rest, one, n);
    SumSingle(one, i, n);
    SumExt(f, l => rest(l) + one(l), n);
  }

  lemma EqualFactor(x: int, y: int, z: int, q: nat)
    requires Prime(q) && Cong(x * y, x * z, q) && !Cong(x, 0, q)
    ensures Cong(y, z, q)
  {
    CongDifference(x * y, x * z, q);
    assert x * y - x * z == x * (y - z);
    NoZeroDivisors(x, y - z, q);
    CongDifference(y, z, q);
  }

  /**
   Where padding a writes zeros over part of b, the product is that of a and the original b if and only if every
   cell lost was zero modulo q, or a is.
   */
  lemma SeenProductExactly(a: seq<int>, s: seq<int>, lo: nat, hi: nat, off: nat, len: nat, q: nat)
    requires Prime(q) && |a| > 0 && len > 0 && lo <= hi <= |s| && off + len <= |s|
    ensures Reduced(Schoolbook(a, Seen(s, lo, hi, off, len)), q) == Reduced(Schoolbook(a, s[off..off + len]), q) <==>
            Vanishes(a, q) || forall i :: lo <= i < hi && off <= i < off + len ==> Cong(s[i], 0, q)
  {
    hide Cong, Schoolbook, Reduced, Prime, Seen;
    var seen, was := Seen(s, lo, hi, off, len), s[off..off + len];
    SameProductExactly(a, seen, was, q);
    forall i | 0 <= i < len
      ensures Cong(seen[i], was[i], q) <==> !(lo <= off + i < hi) || Cong(s[off + i], 0, q)
    {
      SeenAt(s, lo, hi, off, len, i);
      CongRefl(was[i], q);
      if Cong(0, was[i], q) {
        CongSym(0, was[i], q);
      }
      if Cong(was[i], 0, q) {
        CongSym(was[i], 0, q);
      }
    }
    if Same(seen, was, q) {
      forall i | lo <= i < hi && off <= i < off + len
        ensures Cong(s[i], 0, q)
      {
        assert Cong(seen[i - off], was[i - off], q);
      }
    }
  }

  lemma SeenAt(s: seq<int>, lo: nat, hi: nat, off: nat, len: nat, i: nat)
    requires lo <= hi <= |s| && off + len <= |s| && i < len
    ensures Seen(s, lo, hi, off, len)[i] == if lo <= off + i < hi then 0 else s[off + i]
  {
  }
}
