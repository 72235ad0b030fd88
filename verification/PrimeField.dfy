/** Fermat's little theorem and Lagrange's bound on the roots of a polynomial, for a prime modulus. */
module PrimeField {
  import opened ModularArithmetic
  import opened Divisibility

  // ---- Fermat.

  ghost predicate Unit(x: nat, p: nat) {
    0 < x < p
  }

  ghost function Units(p: nat): set<nat> {
    set x: nat | x < p && Unit(x, p)
  }

  lemma {:induction false} UnitsSize(p: nat)
    requires p > 0
    ensures |Units(p)| == p - 1
  {
    if p == 1 {
      assert Units(1) == {};
    } else {
      UnitsSize(p - 1);
      assert Units(p) == Units(p - 1) + {p - 1};
    }
  }

  ghost function Product(s: set<nat>): int {
    if s == {} then 1 else var x :| x in s; x * Product(s - {x})
  }

  lemma {:induction false} ProductRemove(s: set<nat>, x: nat)
    requires x in s
    ensures Product(s) == x * Product(s - {x})
  {
    var y :| y in s && Product(s) == y * Product(s - {y});
    if y != x {
      ProductRemove(s - {y}, x);
      ProductRemove(s - {x}, y);
      assert s - {y} - {x} == s - {x} - {y};
      MulSwap(y, x, Product(s - {y} - {x}));
    }
  }

  ghost function ScaledSet(s: set<nat>, a: int, p: nat): set<nat>
    requires p > 0
  {
    set x | x in s :: Mod(a * x, p)
  }

  function Mod(x: int, p: int): nat
    requires p > 0
  {
    x % p
  }

  lemma SmallCong(x: nat, y: nat, p: nat)
    requires x < p && y < p && Cong(x, y, p)
    ensures x == y
  {
    CongIffMod(x, y, p);
  }

  lemma ScaleInjective(a: int, x: nat, y: nat, p: nat)
    requires Prime(p) && a % p != 0 && 0 < x < p && 0 < y < p && Mod(a * x, p) == Mod(a * y, p)
    ensures x == y
  {
    hide Cong, Prime, ExtendedGcd;
    CongIffMod(a * x, a * y, p);
    PrimeInverse(a, p);
    var b := ModInverse(a, p).value;
    CongOne(a * b, p);
    Cancel(a, b, x, y, p);
    SmallCong(x, y, p);
  }

  /** Multiplying every member by a multiplies the product by a power of a. */
  lemma {:induction false} ScaledProduct(s: set<nat>, a: int, p: nat)
    requires Prime(p) && a % p != 0 && s <= Units(p)
    ensures |ScaledSet(s, a, p)| == |s|
    ensures Cong(Product(ScaledSet(s, a, p)), Pow(a, |s|) * Product(s), p)
  {
    if s == {} {
      assert ScaledSet(s, a, p) == {};
      CongRefl(1, p);
    } else {
      var x :| x in s;
      var t, ax := s - {x}, Mod(a * x, p);
      ScaledProduct(t, a, p);
      assert ax !in ScaledSet(t, a, p) by {
        if ax in ScaledSet(t, a, p) {
          var y :| y in t && ax == Mod(a * y, p);
          ScaleInjective(a, x, y, p);
        }
      }
      assert ScaledSet(s, a, p) == ScaledSet(t, a, p) + {ax};
      ProductStep(s, t, x, a, ax, ScaledSet(t, a, p), p);
    }
  }

  lemma ProductStep(s: set<nat>, t: set<nat>, x: nat, a: int, ax: nat, image: set<nat>, p: nat)
    requires p > 0 && x in s && t == s - {x} && ax == Mod(a * x, p) && ax !in image
    requires Cong(Product(image), Pow(a, |t|) * Product(t), p)
    ensures Cong(Product(image + {ax}), Pow(a, |s|) * Product(s), p)
  {
    hide Cong, Product;
    ProductRemove(image + {ax}, ax);
    assert image + {ax} - {ax} == image;
    ProductRemove(s, x);
    FactorStep(a, x, Product(image), |t|, Product(t), p);
  }

  lemma FactorStep(a: int, x: nat, image: int, e: nat, rest: int, p: nat)
    requires p > 0 && Cong(image, Pow(a, e) * rest, p)
    ensures Cong(Mod(a * x, p) * image, Pow(a, e + 1) * (x * rest), p)
  {
    hide Cong;
    ModCong(a * x, p);
    CongMul((a * x) % p, a * x, image, Pow(a, e) * rest, p);
    SwapFactors(a, x, Pow(a, e), rest);
  }

  lemma {:induction false} ProductInvertible(s: set<nat>, p: nat)
    requires Prime(p) && s <= Units(p)
    ensures !Cong(Product(s), 0, p)
  {
    if s == {} {
      CongIffMod(1, 0, p);
    } else {
      var x :| x in s;
      ProductRemove(s, x);
      ProductInvertible(s - {x}, p);
      if Cong(x, 0, p) {
        SmallCong(x, 0, p);
      }
      if Cong(x * Product(s - {x}), 0, p) {
        NoZeroDivisors(x, Product(s - {x}), p);
      }
    }
  }

  lemma ScaledSetIsAll(a: int, p: nat)
    requires Prime(p) && a % p != 0
    ensures ScaledSet(Units(p), a, p) == Units(p)
  {
    hide Cong, Product;
    var all, image := Units(p), ScaledSet(Units(p), a, p);
    ScaledProduct(all, a, p);
    forall y | y in image
      ensures y in all
    {
      var x :| x in all && y == Mod(a * x, p);
      ScaledUnit(a, x, p);
    }
    SameSizeSubset(image, all);
  }

  lemma ScaledUnit(a: int, x: nat, p: nat)
    requires Prime(p) && a % p != 0 && Unit(x, p)
    ensures Unit(Mod(a * x, p), p)
  {
    hide Cong;
    if Mod(a * x, p) == 0 {
      CongIffMod(a * x, 0, p);
      CongIffMod(a, 0, p);
      NoZeroDivisors(a, x, p);
      SmallCong(x, 0, p);
    }
  }

  lemma SameSizeSubset(s: set<nat>, t: set<nat>)
    requires s <= t && |s| == |t|
    ensures s == t
  {
    forall x | x in t
      ensures x in s
    {
      if x !in s {
        SubsetSize(s, t - {x});
      }
    }
  }

  lemma {:induction false} SubsetSize(s: set<nat>, t: set<nat>)
    requires s <= t
    ensures |s| <= |t|
  {
    if s != {} {
      var x :| x in s;
      SubsetSize(s - {x}, t - {x});
    }
  }

  /** Fermat's little theorem. */
  lemma Fermat(a: int, p: nat)
    requires Prime(p) && a % p != 0
    ensures Cong(Pow(a, p - 1), 1, p)
  {
    var all := Units(p);
    ScaledProduct(all, a, p);
    ScaledSetIsAll(a, p);
    UnitsSize(p);
    ProductInvertible(all, p);
    FactorOfItself(Product(all), Pow(a, p - 1), p);
  }

  lemma FermatUnit(a: nat, p: nat)
    requires Prime(p) && 0 < a < p
    ensures Cong(Pow(a, p - 1), 1, p)
  {
    Fermat(a, p);
  }

  lemma FactorOfItself(m: int, u: int, p: nat)
    requires Prime(p) && !Cong(m, 0, p) && Cong(m, u * m, p)
    ensures Cong(u, 1, p)
  {
    CongRefl(u * m, p);
    CongSub(u * m, u * m, m, u * m, p);
    assert u * m - m == m * (u - 1);
    CongSym(m, u * m, p);
    CongRefl(m, p);
    CongSub(u * m, m, m, m, p);
    NoZeroDivisors(m, u - 1, p);
    CongRefl(1, p);
    CongAdd(u - 1, 0, 1, 1, p);
  }

  // ---- Lagrange.

  /** A polynomial, lowest coefficient first. */
  ghost function Value(c: seq<int>, x: int): int {
    if c == [] then 0 else c[0] + x * Value(c[1..], x)
  }

  /** The quotient of c on division by (x - r). */
  ghost function Quotient(c: seq<int>, r: int): (d: seq<int>)
    requires |c| > 0
    ensures |d| == |c| - 1 && (|d| > 0 ==> d[|d| - 1] == c[|c| - 1])
  {
    if |c| == 1 then []
    else
      assert |c| == 2 ==> c[1..] == [c[1]] && Value(c[1..], r) == c[1];
      [Value(c[1..], r)] + Quotient(c[1..], r)
  }

  lemma {:induction false} Division(c: seq<int>, r: int, x: int)
    requires |c| > 0
    ensures Value(c, x) == Value(c, r) + (x - r) * Value(Quotient(c, r), x)
  {
    if |c| == 1 {
      assert c[1..] == [];
    } else {
      var tail, d := c[1..], Quotient(c[1..], r);
      Division(tail, r, x);
      assert Quotient(c, r)[1..] == d;
      DivisionStep(c[0], r, x, Value(tail, x), Value(tail, r), Value(d, x));
    }
  }

  lemma DivisionStep(c: int, r: int, x: int, vx: int, vr: int, dx: int)
    requires vx == vr + (x - r) * dx
    ensures c + x * vx == c + r * vr + (x - r) * (vr + x * dx)
  {
    assert x * vx == x * vr + x * ((x - r) * dx);
    assert (x - r) * (vr + x * dx) == (x - r) * vr + (x - r) * (x * dx);
    MulSwap(x, x - r, dx);
  }

  lemma ConstantValue(c: seq<int>, x: int)
    requires |c| == 1
    ensures Value(c, x) == c[0]
  {
    assert c[1..] == [];
  }

  /** A polynomial has at most as many roots modulo a prime as its degree. */
  lemma {:induction false} Lagrange(c: seq<int>, roots: set<nat>, p: nat)
    requires Prime(p) && |c| > 0 && !Cong(c[|c| - 1], 0, p)
    requires forall x :: x in roots ==> 0 <= x < p && Cong(Value(c, x), 0, p)
    ensures |roots| <= |c| - 1
    decreases |c|
  {
    if roots != {} {
      var r :| r in roots;
      if |c| == 1 {
        ConstantValue(c, r);
        assert false;
      }
      var d := Quotient(c, r);
      forall x | x in roots - {r}
        ensures 0 <= x < p && Cong(Value(d, x), 0, p)
      {
        RootOfQuotient(c, r, x, p);
      }
      Lagrange(d, roots - {r}, p);
    }
  }

  lemma RootOfQuotient(c: seq<int>, r: nat, x: nat, p: nat)
    requires Prime(p) && |c| > 0 && r < p && x < p && x != r
    requires Cong(Value(c, r), 0, p) && Cong(Value(c, x), 0, p)
    ensures Cong(Value(Quotient(c, r), x), 0, p)
  {
    hide Value, Quotient, Cong, Prime;
    Division(c, r, x);
    CongSub(Value(c, x), 0, Value(c, r), 0, p);
    if Cong(x - r, 0, p) {
      CongRefl(r, p);
      CongAdd(x - r, 0, r, r, p);
      SmallCong(x, r, p);
    }
    NoZeroDivisors(x - r, Value(Quotient(c, r), x), p);
  }

  /** x^k - u. */
  ghost function PowerMinus(k: nat, u: int): (c: seq<int>)
    requires k > 0
    ensures |c| == k + 1 && c[k] == 1
  {
    [-u] + Monic(k - 1)
  }

  ghost function Monic(k: nat): (c: seq<int>)
    ensures |c| == k + 1 && c[k] == 1
  {
    if k == 0 then [1] else [0] + Monic(k - 1)
  }

  lemma {:induction false} MonicValue(k: nat, x: int)
    ensures Value(Monic(k), x) == Pow(x, k)
  {
    if k == 0 {
      assert Monic(0)[1..] == [];
    } else {
      MonicValue(k - 1, x);
      assert Monic(k)[1..] == Monic(k - 1);
    }
  }

  /** At most k residues have a given k-th power. */
  lemma FewRoots(k: nat, u: int, roots: set<nat>, p: nat)
    requires Prime(p) && k > 0
    requires forall x :: x in roots ==> 0 <= x < p && Cong(Pow(x, k), u, p)
    ensures |roots| <= k
  {
    var c := PowerMinus(k, u);
    forall x | x in roots
      ensures Cong(Value(c, x), 0, p)
    {
      MonicValue(k - 1, x);
      assert c[1..] == Monic(k - 1);
      CongRefl(u, p);
      CongSub(Pow(x, k), u, u, u, p);
    }
    CongIffMod(1, 0, p);
    Lagrange(c, roots, p);
  }
}
