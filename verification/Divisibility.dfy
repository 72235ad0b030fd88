/** Extended Euclid, modular inverses and primes. */
module Divisibility {
  import opened ModularArithmetic
  import opened Results

  /** The greatest common divisor with Bezout coefficients. */
  function ExtendedGcd(a: nat, b: nat): (r: (nat, int, int))
    ensures r.1 * a + r.2 * b == r.0
    decreases b
  {
    if b == 0 then (a, 1, 0)
    else
      var (g, s, t) := ExtendedGcd(b, a % b);
      assert a == b * (a / b) + a % b;
      assert t * a + (s - t * (a / b)) * b == s * b + t * (a % b) by {
        assert t * a == t * (b * (a / b)) + t * (a % b);
        assert (s - t * (a / b)) * b == s * b - t * (b * (a / b));
      }
      (g, t, s - t * (a / b))
  }

  ghost predicate Divides(d: int, a: int) {
    Cong(a, 0, d)
  }

  lemma DividesIntro(d: int, a: int, k: int)
    requires a == k * d
    ensures Divides(d, a)
  {
    CongIntro(a, 0, k, d);
  }

  lemma DividesRemainder(g: int, a: nat, b: nat)
    requires b > 0 && Divides(g, b) && Divides(g, a % b)
    ensures Divides(g, a)
  {
    CongScale(a / b, b, 0, g);
    CongAdd((a / b) * b, 0, a % b, 0, g);
  }

  lemma {:induction false} GcdDivides(a: nat, b: nat)
    ensures Divides(ExtendedGcd(a, b).0, a) && Divides(ExtendedGcd(a, b).0, b)
    decreases b
  {
    hide Cong;
    var g := ExtendedGcd(a, b).0;
    if b == 0 {
      DividesIntro(g, a, 1);
      DividesIntro(g, b, 0);
    } else {
      GcdDivides(b, a % b);
      DividesRemainder(g, a, b);
    }
  }

  /** big.Int.ModInverse: the inverse of x in [0, q), or nothing when x and q share a factor. */
  function ModInverse(x: int, q: nat): (r: Option<int>)
    requires q > 1
    ensures r.Some? ==> 0 <= r.value < q && (x * r.value) % q == 1
  {
    var (g, s, t) := ExtendedGcd(x % q, q);
    if g != 1 then None
    else
      InverseFromBezout(x, q, s, t);
      Some(s % q)
  }

  lemma InverseFromBezout(x: int, q: nat, s: int, t: int)
    requires q > 1 && s * (x % q) + t * q == 1
    ensures (x * (s % q)) % q == 1
  {
    hide Cong;
    var r, u := x % q, s % q;
    ModCong(x, q);
    CongSym(r, x, q);
    ModCong(s, q);
    CongMul(x, r, u, s, q);
    assert r * s - 1 == -t * q;
    CongIntro(r * s, 1, -t, q);
    CongTrans(x * u, r * s, 1, q);
    CongIffMod(x * u, 1, q);
  }

  /** ModInverse finds an inverse whenever there is one. */
  lemma ModInverseComplete(x: int, y: int, q: nat)
    requires q > 1 && Cong(x * y, 1, q)
    ensures ModInverse(x, q).Some?
  {
    var g := ExtendedGcd(x % q, q).0;
    GcdDivides(x % q, q);
    DividesUnit(x, y, q, g);
  }

  /** A common divisor of q and of x mod q divides x*y and x*y - 1, hence 1. */
  lemma DividesUnit(x: int, y: int, q: nat, g: nat)
    requires q > 1 && Cong(x * y, 1, q) && Divides(g, x % q) && Divides(g, q)
    ensures g == 1
  {
    var m :| x * y - 1 == Times(m, q);
    var k := DividesCombination(x, y, m, q, g);
    UnitFactor(k, g);
  }

  lemma DividesCombination(x: int, y: int, m: int, q: nat, g: nat) returns (k: int)
    requires q > 1 && Divides(g, x % q) && Divides(g, q)
    ensures x * y - m * q == k * g
  {
    var a :| x % q - 0 == Times(a, g);
    var b :| q - 0 == Times(b, g);
    assert x == q * (x / q) + x % q;
    var c := (x / q) * b + a;
    assert x == c * g by {
      assert q * (x / q) == (x / q) * (b * g) == ((x / q) * b) * g;
    }
    k := c * y - m * b;
    assert x * y == (c * y) * g && m * q == (m * b) * g;
  }

  lemma UnitFactor(k: int, g: nat)
    requires k * g == 1
    ensures g == 1
  {
    assert k >= 1 && g > 1 ==> k * g > 1;
    assert k <= 0 ==> k * g <= 0;
  }

  ghost predicate Prime(p: int) {
    p > 1 && forall d, k :: 1 < d < p ==> Times(k, d) != p
  }

  /** Every number not divisible by a prime is invertible modulo it. */
  lemma PrimeInverse(x: int, p: int)
    requires Prime(p) && x % p != 0
    ensures ModInverse(x, p).Some?
  {
    hide ExtendedGcd;
    var g := ExtendedGcd(x % p, p).0;
    GcdDivides(x % p, p);
    var l :| p - 0 == Times(l, g);
    DivisorAtMost(g, x % p);
  }

  lemma DivisorAtMost(g: nat, a: nat)
    requires a > 0 && Divides(g, a)
    ensures 0 < g <= a
  {
    var k :| a - 0 == Times(k, g);
    assert k >= 1 ==> k * g >= g;
    assert k <= 0 ==> k * g <= 0;
  }

  /** A prime field has no zero divisors. */
  lemma NoZeroDivisors(a: int, b: int, p: int)
    requires Prime(p) && Cong(a * b, 0, p) && !Cong(a, 0, p)
    ensures Cong(b, 0, p)
  {
    hide Cong, ModInverse;
    CongIffMod(a, 0, p);
    PrimeInverse(a, p);
    var y := ModInverse(a, p).value;
    CongIffMod(a * y, 1, p);
    Cancel(a, y, b, 0, p);
  }

  /** Multiplication by an invertible number can be cancelled. */
  lemma Cancel(a: int, y: int, b: int, c: int, q: int)
    requires Cong(a * y, 1, q) && Cong(a * b, a * c, q)
    ensures Cong(b, c, q)
  {
    CongScale(y, a * b, a * c, q);
    UndoFactor(a, y, b, q);
    UndoFactor(a, y, c, q);
    CongSym(y * (a * b), b, q);
    CongTrans(b, y * (a * b), y * (a * c), q);
    CongTrans(b, y * (a * c), c, q);
  }

  lemma UndoFactor(a: int, y: int, b: int, q: int)
    requires Cong(a * y, 1, q)
    ensures Cong(y * (a * b), b, q)
  {
    CongScale(b, a * y, 1, q);
    assert b * (a * y) == y * (a * b);
  }
}
