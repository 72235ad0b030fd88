/** Powers and congruences over the unbounded integers, the arithmetic behind go/galois. */
module ModularArithmetic {

  function Pow(b: int, e: nat): int {
    if e == 0 then 1 else b * Pow(b, e - 1)
  }

  // The product is named so that quantifiers over multiples have something to trigger on.
  function Times(k: int, q: int): int {
    k * q
  }

  /** a and b differ by a multiple of q. */
  ghost predicate Cong(a: int, b: int, q: int) {
    exists k :: a - b == Times(k, q)
  }

  lemma CongIntro(a: int, b: int, k: int, q: int)
    requires a - b == k * q
    ensures Cong(a, b, q)
  {
    assert a - b == Times(k, q);
  }

  lemma CongRefl(a: int, q: int)
    ensures Cong(a, a, q)
  {
    CongIntro(a, a, 0, q);
  }

  lemma CongSym(a: int, b: int, q: int)
    requires Cong(a, b, q)
    ensures Cong(b, a, q)
  {
    var k :| a - b == Times(k, q);
    CongIntro(b, a, -k, q);
  }

  lemma CongTrans(a: int, b: int, c: int, q: int)
    requires Cong(a, b, q) && Cong(b, c, q)
    ensures Cong(a, c, q)
  {
    var k :| a - b == Times(k, q);
    var l :| b - c == Times(l, q);
    CongIntro(a, c, k + l, q);
  }

  lemma CongAdd(a: int, b: int, c: int, d: int, q: int)
    requires Cong(a, b, q) && Cong(c, d, q)
    ensures Cong(a + c, b + d, q)
  {
    var k :| a - b == Times(k, q);
    var l :| c - d == Times(l, q);
    CongIntro(a + c, b + d, k + l, q);
  }

  lemma CongSub(a: int, b: int, c: int, d: int, q: int)
    requires Cong(a, b, q) && Cong(c, d, q)
    ensures Cong(a - c, b - d, q)
  {
    var k :| a - b == Times(k, q);
    var l :| c - d == Times(l, q);
    CongIntro(a - c, b - d, k - l, q);
  }

  lemma CongMul(a: int, b: int, c: int, d: int, q: int)
    requires Cong(a, b, q) && Cong(c, d, q)
    ensures Cong(a * c, b * d, q)
  {
    var k :| a - b == Times(k, q);
    var l :| c - d == Times(l, q);
    assert a == b + k * q && c == d + l * q;
    calc {
      a * c - b * d;
      (b + k * q) * (d + l * q) - b * d;
      b * (l * q) + (k * q) * d + (k * q) * (l * q);
      (b * l + k * d + k * l * q) * q;
    }
    CongIntro(a * c, b * d, b * l + k * d + k * l * q, q);
  }

  lemma CongScale(c: int, a: int, b: int, q: int)
    requires Cong(a, b, q)
    ensures Cong(c * a, c * b, q)
  {
    CongRefl(c, q);
    CongMul(c, c, a, b, q);
  }

  lemma {:induction false} ModOfMultiple(r: int, k: int, q: int)
    requires 0 <= r < q
    ensures (k * q + r) % q == r
    decreases if k < 0 then -k else k
  {
    var x := k * q + r;
    var d := x / q - k;
    assert x == q * (x / q) + x % q;
    assert q * d == r - x % q by {
      assert q * (x / q) == q * k + q * d;
    }
    assert d >= 1 ==> q * d >= q;
    assert d <= -1 ==> q * d <= -q;
  }

  lemma ModCong(a: int, q: int)
    requires q > 0
    ensures Cong(a % q, a, q)
  {
    assert a == q * (a / q) + a % q;
    CongIntro(a % q, a, -(a / q), q);
  }

  lemma MulSwap(a: int, b: int, c: int)
    ensures a * (b * c) == b * (a * c)
  {
    assert a * (b * c) == (a * b) * c;
  }

  lemma ModSum(a: int, b: int, n: int)
    requires n > 0
    ensures var s := a % n + b % n; (a + b) % n == if s < n then s else s - n
  {
    var s := a % n + b % n;
    var c := if s < n then 0 else 1;
    assert a == n * (a / n) + a % n && b == n * (b / n) + b % n;
    assert a + b == (a / n + b / n + c) * n + (s - c * n);
    ModOfMultiple(s - c * n, a / n + b / n + c, n);
  }

  /** Congruence is equality of Euclidean remainders. */
  lemma CongIffMod(a: int, b: int, q: int)
    requires q > 0
    ensures Cong(a, b, q) <==> a % q == b % q
  {
    if Cong(a, b, q) {
      var k :| a - b == Times(k, q);
      var l, r := b / q, b % q;
      assert a == (l + k) * q + r by {
        assert b == q * l + r;
      }
      ModOfMultiple(r, l + k, q);
    }
    if a % q == b % q {
      ModCong(a, q);
      ModCong(b, q);
      CongSym(a % q, a, q);
      CongTrans(a, a % q, b, q);
    }
  }

  lemma CongOne(a: int, q: int)
    requires q > 1
    ensures Cong(a, 1, q) <==> a % q == 1
  {
    hide Cong;
    CongIffMod(a, 1, q);
  }

  lemma {:induction false} PowAdd(b: int, m: nat, n: nat)
    ensures Pow(b, m + n) == Pow(b, m) * Pow(b, n)
    decreases m
  {
    if m > 0 {
      PowAdd(b, m - 1, n);
      assert b * (Pow(b, m - 1) * Pow(b, n)) == (b * Pow(b, m - 1)) * Pow(b, n);
    }
  }

  lemma {:induction false} PowPow(b: int, m: nat, n: nat)
    ensures Pow(b, m * n) == Pow(Pow(b, m), n)
    decreases n
  {
    if n > 0 {
      assert m * n == m + m * (n - 1);
      PowAdd(b, m, m * (n - 1));
      PowPow(b, m, n - 1);
    }
  }

  lemma {:induction false} PowOne(e: nat)
    ensures Pow(1, e) == 1
  {
    if e > 0 {
      PowOne(e - 1);
    }
  }

  lemma SwapFactors(a: int, b: int, x: int, y: int)
    ensures (a * b) * (x * y) == (a * x) * (b * y)
  {
    assert (a * b) * (x * y) == a * (b * (x * y));
    assert b * (x * y) == x * (b * y);
    assert a * (x * (b * y)) == (a * x) * (b * y);
  }

  lemma {:induction false} CongPow(a: int, b: int, e: nat, q: int)
    requires Cong(a, b, q)
    ensures Cong(Pow(a, e), Pow(b, e), q)
  {
    if e == 0 {
      CongRefl(1, q);
    } else {
      CongPow(a, b, e - 1, q);
      CongMul(a, b, Pow(a, e - 1), Pow(b, e - 1), q);
    }
  }
}
