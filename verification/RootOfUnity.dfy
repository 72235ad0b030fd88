/** go/galois/galois.go: the randomised search for a primitive root of unity. */
module RootOfUnity {
  import opened ModularArithmetic
  import opened Divisibility
  import opened PrimeField
  import opened Transform
  import opened Bits
  import opened Results
  import opened Field
  import opened Fft
  import opened Convolution
  import SetSums

  /** (q-1)/n: the power that turns a draw into an n-th root of unity. */
  function Step(n: nat, q: nat): nat
    requires n > 0 && q > 1
  {
    (q - 1) / n
  }

  /** The candidate a draw gives. */
  function Candidate(x: nat, n: nat, q: nat): int
    requires n > 0 && q > 1
  {
    Exp(x, Step(n, q), q)
  }

  predicate Rejected(x: nat, n: nat, q: nat, primitive: bool)
    requires n > 0 && q > 1
  {
    primitive && Exp(Candidate(x, n, q), n / 2, q) == 1
  }

  /**
   The draws stand for the reader: each is a value of rand.Int in [0, q), and the reader fails after the last.
   */
  method FindRoot(q: nat, n: nat, primitive: bool, draws: seq<nat>) returns (r: Result<int, Error>)
    requires q > 1 && forall i :: 0 <= i < |draws| ==> draws[i] < q
    ensures r == Err(OddRoot) <==> n % 2 == 1
    ensures r == Err(ZeroOrder) <==> n == 0
    ensures n % 2 == 0 && n > 0 && (q - 1) % n != 0 ==> r == Ok(1)
    ensures n % 2 == 0 && n > 0 && (q - 1) % n == 0 ==>
      match r
      case Ok(root) => exists i :: 0 <= i < |draws| && root == Candidate(draws[i], n, q) &&
                                   !Rejected(draws[i], n, q, primitive) &&
                                   forall j :: 0 <= j < i ==> Rejected(draws[j], n, q, primitive)
      case Err(e) => e == NoEntropy && forall j :: 0 <= j < |draws| ==> Rejected(draws[j], n, q, primitive)
    ensures !primitive && n % 2 == 0 && n > 0 && (q - 1) % n == 0 ==>
              r == if draws == [] then Err(NoEntropy) else Ok(Candidate(draws[0], n, q))
  {
    if n % 2 == 1 {
      return Err(OddRoot);
    }
    if n == 0 {
      return Err(ZeroOrder);
    }
    if (q - 1) % n != 0 {
      return Ok(1);
    }
    var halfN := n / 2;
    var next := 0;
    while true
      invariant 0 <= next <= |draws|
      invariant forall j :: 0 <= j < next ==> Rejected(draws[j], n, q, primitive)
      decreases |draws| - next
    {
      if next == |draws| {
        return Err(NoEntropy);
      }
      var x := draws[next];
      var root := Exp(x, (q - 1) / n, q);
      if !primitive || Exp(root, halfN, q) != 1 {
        return Ok(root);
      }
      next := next + 1;
    }
  }

  // ---- What an accepted candidate is.

  lemma PowersOfCandidate(x: nat, n: nat, q: nat, e: nat, k: nat)
    requires n > 0 && q > 1 && k == Step(n, q) * e
    ensures Cong(Pow(Candidate(x, n, q), e), Pow(x, k), q)
  {
    hide Cong, Pow, Step;
    ModCong(Pow(x, Step(n, q)), q);
    CongPow(Candidate(x, n, q), Pow(x, Step(n, q)), e, q);
    PowPow(x, Step(n, q), e);
  }

  lemma ExactQuotient(n: nat, q: nat)
    requires n > 0 && n % 2 == 0 && q > 1 && (q - 1) % n == 0
    ensures Step(n, q) * n == q - 1 && Step(n, q) * (n / 2) == (q - 1) / 2 && (q - 1) % 2 == 0 && q > 2
  {
    var m := Step(n, q);
    assert q - 1 == n * m;
    assert n * m == 2 * (m * (n / 2));
  }

  /** The square roots of 1 modulo a prime are 1 and -1. */
  lemma SquareRootsOfOne(u: int, q: nat)
    requires Prime(q) && Cong(u * u, 1, q)
    ensures Cong(u, 1, q) || Cong(u, -1, q)
  {
    hide Cong, Prime;
    CongRefl(1, q);
    CongSub(u * u, 1, 1, 1, q);
    assert u * u - 1 == (u - 1) * (u + 1);
    if Cong(u - 1, 0, q) {
      CongAdd(u - 1, 0, 1, 1, q);
    } else {
      NoZeroDivisors(u - 1, u + 1, q);
      CongSub(u + 1, 0, 1, 1, q);
    }
  }

  lemma OneIsNotMinusOne(u: int, q: nat)
    requires q > 2 && Cong(u, 1, q)
    ensures !Cong(u, -1, q)
  {
    if Cong(u, -1, q) {
      CongSym(u, 1, q);
      CongTrans(1, u, -1, q);
      CongIffMod(1, -1, q);
      ModOfMultiple(q - 1, -1, q);
      assert false;
    }
  }

  /** x to the power (q-1)/2 is 1 or -1. */
  lemma Euler(x: nat, q: nat)
    requires Prime(q) && (q - 1) % 2 == 0 && 0 < x < q
    ensures Cong(Pow(x, (q - 1) / 2), 1, q) || Cong(Pow(x, (q - 1) / 2), -1, q)
  {
    hide Cong, Pow;
    FermatUnit(x, q);
    PowAdd(x, (q - 1) / 2, (q - 1) / 2);
    SquareRootsOfOne(Pow(x, (q - 1) / 2), q);
  }

  /** The candidate's powers that matter, in terms of the draw. */
  lemma CandidatePowers(x: nat, n: nat, q: nat)
    requires n > 0 && n % 2 == 0 && q > 1 && (q - 1) % n == 0
    ensures Cong(Pow(Candidate(x, n, q), n), Pow(x, q - 1), q)
    ensures Cong(Pow(Candidate(x, n, q), n / 2), Pow(x, (q - 1) / 2), q)
  {
    hide Cong, Pow, Candidate, Step;
    ExactQuotient(n, q);
    PowersOfCandidate(x, n, q, n, q - 1);
    PowersOfCandidate(x, n, q, n / 2, (q - 1) / 2);
  }

  /** A non-zero draw always gives an n-th root of 1, accepted exactly when its (n/2)-th power is -1. */
  lemma AcceptedExactly(x: nat, n: nat, q: nat)
    requires Prime(q) && n > 0 && n % 2 == 0 && (q - 1) % n == 0 && 0 < x < q
    ensures Cong(Pow(Candidate(x, n, q), n), 1, q)
    ensures !Rejected(x, n, q, true) <==> Primitive(Candidate(x, n, q), n, q)
    ensures !Rejected(x, n, q, true) <==> Cong(Pow(x, (q - 1) / 2), -1, q)
  {
    hide Cong, Pow, Candidate, Step;
    ExactQuotient(n, q);
    CandidatePowers(x, n, q);
    var w, half := Candidate(x, n, q), Pow(x, (q - 1) / 2);
    FermatUnit(x, q);
    CongTrans(Pow(w, n), Pow(x, q - 1), 1, q);
    Euler(x, q);
    CongOne(Pow(w, n / 2), q);
    CongSym(Pow(w, n / 2), half, q);
    SameSign(half, Pow(w, n / 2), q);
  }

  lemma SameSign(u: int, v: int, q: nat)
    requires q > 2 && Cong(u, v, q) && Cong(v, u, q) && (Cong(u, 1, q) || Cong(u, -1, q))
    ensures !Cong(v, 1, q) <==> Cong(v, -1, q)
    ensures Cong(u, -1, q) <==> Cong(v, -1, q)
  {
    hide Cong;
    if Cong(u, 1, q) {
      CongTrans(v, u, 1, q);
      OneIsNotMinusOne(u, q);
      OneIsNotMinusOne(v, q);
    } else {
      CongTrans(v, u, -1, q);
      if Cong(v, 1, q) {
        OneIsNotMinusOne(v, q);
      }
    }
  }

  /** The non-zero draws that end the search. */
  ghost function AcceptedDraws(n: nat, q: nat): set<nat>
    requires n > 0 && q > 1
  {
    set x | x in Units(q) && !Rejected(x, n, q, true)
  }

  /** Exactly half of the non-zero draws are accepted, whatever n. */
  lemma HalfOfDrawsAccepted(n: nat, q: nat)
    requires Prime(q) && n > 0 && n % 2 == 0 && (q - 1) % n == 0
    ensures 2 * |AcceptedDraws(n, q)| == q - 1
  {
    hide Cong, Pow, Rejected;
    ExactQuotient(n, q);
    var k := (q - 1) / 2;
    var yes, all := AcceptedDraws(n, q), Units(q);
    var no := all - yes;
    forall x | x in yes
      ensures 0 <= x < q && Cong(Pow(x, k), -1, q)
    {
      AcceptedExactly(x, n, q);
    }
    forall x | x in no
      ensures 0 <= x < q && Cong(Pow(x, k), 1, q)
    {
      AcceptedExactly(x, n, q);
      Euler(x, q);
    }
    FewRoots(k, -1, yes, q);
    FewRoots(k, 1, no, q);
    UnitsSize(q);
    assert all == yes + no;
    assert |all| == |yes| + |no|;
  }

  // ---- How often each root is drawn.

  /** The n-th roots of 1. */
  ghost function Roots(n: nat, q: nat): set<nat> {
    set y: nat | y < q && Cong(Pow(y, n), 1, q)
  }

  ghost function CandidateOf(n: nat, q: nat): nat -> int
    requires n > 0 && q > 1
  {
    (x: nat) => Candidate(x, n, q)
  }

  /** The non-zero draws that give a root. */
  ghost function DrawsOf(y: nat, n: nat, q: nat): set<nat>
    requires n > 0 && q > 1
  {
    SetSums.Fiber(Units(q), CandidateOf(n, q), y)
  }

  lemma CandidateIsRoot(x: nat, n: nat, q: nat)
    requires Prime(q) && n > 0 && (q - 1) % n == 0 && 0 < x < q
    ensures Candidate(x, n, q) in Roots(n, q)
  {
    hide Cong, Pow, Step, Candidate;
    QuotientTimes(n, q);
    CandidateRange(x, n, q);
    PowersOfCandidate(x, n, q, n, q - 1);
    FermatUnit(x, q);
    CongTrans(Pow(Candidate(x, n, q), n), Pow(x, q - 1), 1, q);
  }

  lemma FewDraws(y: nat, n: nat, q: nat)
    requires Prime(q) && n > 0 && (q - 1) % n == 0
    ensures |DrawsOf(y, n, q)| <= Step(n, q)
  {
    hide Cong, Pow, Step;
    QuotientTimes(n, q);
    forall x | x in DrawsOf(y, n, q)
      ensures 0 <= x < q && Cong(Pow(x, Step(n, q)), y, q)
    {
      ModCong(Pow(x, Step(n, q)), q);
      CongSym(y, Pow(x, Step(n, q)), q);
    }
    FewRoots(Step(n, q), y, DrawsOf(y, n, q), q);
  }

  /** There are n roots, and each is given by equally many of the non-zero draws. */
  lemma RootsAreEquallyLikely(y: nat, n: nat, q: nat)
    requires Prime(q) && n > 0 && (q - 1) % n == 0 && y in Roots(n, q)
    ensures |Roots(n, q)| == n && |DrawsOf(y, n, q)| == (q - 1) / n
  {
    hide Cong, Pow, Candidate;
    var all, roots, m := Units(q), Roots(n, q), Step(n, q);
    var mine := DrawsOf(y, n, q);
    QuotientTimes(n, q);
    UnitsSize(q);
    FewRoots(n, 1, roots, q);
    FewDraws(y, n, q);
    OtherDraws(y, n, q);
    assert all == (all - mine) + mine;
    Filled(n, |roots|, m, |mine|);
  }

  /** The draws of the other roots are few. */
  lemma OtherDraws(y: nat, n: nat, q: nat)
    requires Prime(q) && n > 0 && (q - 1) % n == 0 && y in Roots(n, q)
    ensures |Units(q) - DrawsOf(y, n, q)| <= (|Roots(n, q)| - 1) * Step(n, q)
  {
    hide Cong, Pow, Candidate, Step;
    var others, roots := Units(q) - DrawsOf(y, n, q), Roots(n, q) - {y};
    forall x | x in others
      ensures CandidateOf(n, q)(x) in roots
    {
      CandidateIsRoot(x, n, q);
    }
    forall z | z in roots
      ensures |SetSums.Fiber(others, CandidateOf(n, q), z)| <= Step(n, q)
    {
      FewDraws(z, n, q);
      assert SetSums.Fiber(others, CandidateOf(n, q), z) == DrawsOf(z, n, q);
    }
    SetSums.FibersBound(others, roots, CandidateOf(n, q), Step(n, q));
  }

  /** Where the upper bounds on both factors only just suffice, they are reached. */
  lemma Filled(n: nat, roots: nat, m: nat, mine: nat)
    requires 0 < roots <= n && mine <= m && m > 0
    requires n * m <= (roots - 1) * m + mine
    ensures roots == n && mine == m
  {
    if roots < n {
      TooFew(n, roots, m, mine);
    }
    assert n * m == (n - 1) * m + m;
  }

  lemma TooFew(n: nat, roots: nat, m: nat, mine: nat)
    requires 0 < roots < n && mine <= m && m > 0
    ensures (roots - 1) * m + mine < n * m
  {
    assert (roots - 1) * m + m == roots * m;
    assert n * m == roots * m + (n - roots) * m;
  }

  // ---- Generating all the roots.

  /** The powers w^0 .. w^(n-1) are pairwise distinct modulo q. */
  ghost predicate DistinctPowers(w: int, n: nat, q: nat) {
    forall i: nat, j: nat :: i < j < n ==> !Cong(Pow(w, i), Pow(w, j), q)
  }

  /** Every n-th root of 1 is one of the powers w^0 .. w^(n-1). */
  ghost predicate GeneratesRoots(w: int, n: nat, q: nat) {
    forall y: nat :: y < q && Cong(Pow(y, n), 1, q) ==> IsPowerOf(y, w, n, q)
  }

  ghost predicate IsPowerOf(y: int, w: int, n: nat, q: nat) {
    exists i: nat :: i < n && Cong(Pow(w, i), y, q)
  }

  function Sign(e: nat): int {
    if e % 2 == 0 then 1 else -1
  }

  lemma {:induction false} MinusOnePow(u: int, e: nat, q: nat)
    requires Cong(u, -1, q)
    ensures Cong(Pow(u, e), Sign(e), q)
  {
    hide Cong;
    if e == 0 {
      CongRefl(1, q);
    } else {
      MinusOnePow(u, e - 1, q);
      CongMul(u, -1, Pow(u, e - 1), Sign(e - 1), q);
      assert -1 * Sign(e - 1) == Sign(e);
    }
  }

  /** No power of w below the n-th is 1 when n is a power of two. */
  lemma {:induction false} NoSmallOrder(w: int, n: nat, q: nat, d: nat)
    requires q > 2 && IsPowerOfTwo(n) && 0 < d < n && Primitive(w, n, q)
    ensures !Cong(Pow(w, d), 1, q)
    decreases n
  {
    hide Cong, Pow;
    var h := n / 2;
    if d % 2 == 1 {
      MinusOnePow(Pow(w, h), d, q);
      PowPow(w, h, d);
      PowPow(w, d, h);
      assert h * d == d * h;
      if Cong(Pow(w, d), 1, q) {
        CongPow(Pow(w, d), 1, h, q);
        PowOne(h);
        OneIsNotMinusOne(Pow(w, d * h), q);
      }
    } else {
      PowPow(w, 2, d / 2);
      PowPow(w, 2, h / 2);
      NoSmallOrder(Pow(w, 2), h, q, d / 2);
    }
  }

  lemma PrimitiveInvertible(w: int, n: nat, q: nat, i: nat)
    requires Prime(q) && n > 0 && Cong(Pow(w, n), 1, q)
    ensures !Cong(Pow(w, i), 0, q)
  {
    hide Cong;
    if Cong(Pow(w, i), 0, q) {
      ZeroPower(w, i, q);
      CongPow(w, 0, n, q);
      CongSym(Pow(w, n), 1, q);
      CongTrans(1, Pow(w, n), Pow(0, n), q);
      SmallCong(1, 0, q);
    }
  }

  lemma {:induction false} ZeroPower(w: int, i: nat, q: nat)
    requires Prime(q) && Cong(Pow(w, i), 0, q)
    ensures Cong(w, 0, q)
  {
    if i == 0 {
      SmallCong(1, 0, q);
    } else if !Cong(w, 0, q) {
      NoZeroDivisors(w, Pow(w, i - 1), q);
      ZeroPower(w, i - 1, q);
    }
  }

  /** A root the search accepts has pairwise distinct powers, for n a power of two. */
  lemma PrimitiveHasDistinctPowers(w: int, n: nat, q: nat)
    requires Prime(q) && q > 2 && IsPowerOfTwo(n) && Primitive(w, n, q)
    ensures DistinctPowers(w, n, q)
  {
    hide Cong, Prime, Primitive, Pow;
    PrimitiveIsRoot(w, n, q);
    forall i: nat, j: nat | i < j < n
      ensures !Cong(Pow(w, i), Pow(w, j), q)
    {
      PrimitiveInvertible(w, n, q, i);
      NoSmallOrder(w, n, q, j - i);
      PowAdd(w, j - i, i);
      if Cong(Pow(w, i), Pow(w, j), q) {
        FactorOfItself(Pow(w, i), Pow(w, j - i), q);
      }
    }
  }

  ghost function PowerSet(w: int, n: nat, q: nat): set<nat>
    requires q > 0
  {
    set i: nat | i < n :: Mod(Pow(w, i), q)
  }

  lemma {:induction false} PowerSetSize(w: int, n: nat, q: nat)
    requires q > 0 && DistinctPowers(w, n, q)
    ensures |PowerSet(w, n, q)| == n
  {
    if n == 0 {
      assert PowerSet(w, 0, q) == {};
    } else {
      PowerSetSize(w, n - 1, q);
      var y := Mod(Pow(w, n - 1), q);
      assert y !in PowerSet(w, n - 1, q) by {
        if y in PowerSet(w, n - 1, q) {
          var i: nat :| i < n - 1 && y == Mod(Pow(w, i), q);
          CongIffMod(Pow(w, i), Pow(w, n - 1), q);
        }
      }
      assert PowerSet(w, n, q) == PowerSet(w, n - 1, q) + {y};
    }
  }

  /** Distinct powers of an n-th root are all the n-th roots there can be. */
  lemma DistinctPowersGenerate(w: int, n: nat, q: nat)
    requires Prime(q) && n > 0 && Cong(Pow(w, n), 1, q) && DistinctPowers(w, n, q)
    ensures GeneratesRoots(w, n, q)
  {
    hide Cong, Pow, DistinctPowers;
    PowerSetSize(w, n, q);
    var powers := PowerSet(w, n, q);
    forall y | y in powers
      ensures y < q && Cong(Pow(y, n), 1, q)
    {
      var i: nat :| i < n && y == Mod(Pow(w, i), q);
      PowerIsRoot(w, n, q, i);
    }
    forall y: nat | y < q && Cong(Pow(y, n), 1, q)
      ensures IsPowerOf(y, w, n, q)
    {
      if y !in powers {
        FewRoots(n, 1, powers + {y}, q);
      }
      var i: nat :| i < n && y == Mod(Pow(w, i), q);
      ModCong(Pow(w, i), q);
      CongSym(y, Pow(w, i), q);
    }
  }

  lemma PowerIsRoot(w: int, n: nat, q: nat, i: nat)
    requires q > 0 && Cong(Pow(w, n), 1, q)
    ensures Cong(Pow(Mod(Pow(w, i), q), n), 1, q)
  {
    hide Cong, Pow;
    ModCong(Pow(w, i), q);
    CongPow(Mod(Pow(w, i), q), Pow(w, i), n, q);
    PowPow(w, i, n);
    PowPow(w, n, i);
    assert i * n == n * i;
    CongPow(Pow(w, n), 1, i, q);
    PowOne(i);
    CongTrans(Pow(Mod(Pow(w, i), q), n), Pow(w, i * n), 1, q);
  }

  // ---- What "primitive" amounts to when n is even but not a power of two.

  ghost function OddPart(n: nat): (m: nat)
    requires n > 0
    ensures m % 2 == 1 && m <= n && (m == 1 <==> IsPowerOfTwo(n))
  {
    if n % 2 == 1 then n else OddPart(n / 2)
  }

  lemma {:induction false} OddPartDivides(n: nat)
    requires n > 0
    ensures n % OddPart(n) == 0 && OddPart(n) * (n / OddPart(n)) == n
  {
    var m := OddPart(n);
    if n % 2 == 1 {
      ModOfMultiple(0, 1, n);
      assert n == n * (n / n) + n % n;
    } else {
      OddPartDivides(n / 2);
      var k := (n / 2) / m;
      assert n == (2 * k) * m + 0 by {
        assert n == 2 * (n / 2) == 2 * (m * k);
      }
      ModOfMultiple(0, 2 * k, m);
      assert n == m * (n / m) + n % m;
    }
  }

  /** Fewer than q-1 residues have k-th power 1 when k < q-1. */
  lemma NonRoot(k: nat, q: nat) returns (z: nat)
    requires Prime(q) && 0 < k < q - 1
    ensures 0 < z < q && !Cong(Pow(z, k), 1, q)
  {
    hide Cong, Pow;
    UnitsSize(q);
    if forall z: nat :: 0 < z < q ==> Cong(Pow(z, k), 1, q) {
      FewRoots(k, 1, Units(q), q);
      assert false;
    }
    z :| 0 < z < q && !Cong(Pow(z, k), 1, q);
  }

  /** An accepted draw whose root has order at most d = n/m, for m the odd part of n. */
  lemma LowOrderDraw(n: nat, q: nat, m: nat, d: nat) returns (x: nat)
    requires Prime(q) && n > 0 && n % 2 == 0 && (q - 1) % n == 0
    requires m % 2 == 1 && m * d == n
    ensures 0 < x < q && !Rejected(x, n, q, true)
    ensures Cong(Pow(Candidate(x, n, q), d), 1, q)
  {
    hide Cong, Pow, Rejected, Candidate, Step;
    HalfOfDrawsAccepted(n, q);
    ExactQuotient(n, q);
    var g: nat :| g in AcceptedDraws(n, q);
    AcceptedExactly(g, n, q);
    x := Mod(Pow(g, m), q);
    ModCong(Pow(g, m), q);
    OddPowerAccepted(g, m, x, n, q);
    var k := SplitExponent(n, q, m, d);
    OddPowerOrder(g, m, x, n, d, k, q);
  }

  lemma OddPowerAccepted(g: nat, m: nat, x: nat, n: nat, q: nat)
    requires Prime(q) && n > 0 && n % 2 == 0 && (q - 1) % n == 0 && m % 2 == 1
    requires x < q && Cong(x, Pow(g, m), q)
    requires Cong(Pow(g, (q - 1) / 2), -1, q)
    ensures 0 < x < q && !Rejected(x, n, q, true)
  {
    hide Cong, Pow, Rejected, Candidate;
    ExactQuotient(n, q);
    var k := (q - 1) / 2;
    DrawPower(g, m, x, k, q);
    MinusOnePow(Pow(g, k), m, q);
    CongTrans(Pow(x, k), Pow(Pow(g, k), m), -1, q);
    NonZeroDraw(x, k, q);
    AcceptedExactly(x, n, q);
  }

  lemma OddPowerOrder(g: nat, m: nat, x: nat, n: nat, d: nat, k: nat, q: nat)
    requires Prime(q) && n > 0 && k == Step(n, q) * d && k * m == q - 1
    requires 0 < g < q && Cong(x, Pow(g, m), q)
    ensures Cong(Pow(Candidate(x, n, q), d), 1, q)
  {
    hide Cong, Pow, Candidate, Prime, Step;
    var w, v := Candidate(x, n, q), Pow(Pow(g, k), m);
    DrawPower(g, m, x, k, q);
    PowersOfCandidate(x, n, q, d, k);
    PowPow(g, k, m);
    FermatUnit(g, q);
    CongTrans(Pow(w, d), Pow(x, k), v, q);
    CongTrans(Pow(w, d), v, 1, q);
  }

  /** (q-1)/m, reached through (q-1)/n and n/m. */
  lemma SplitExponent(n: nat, q: nat, m: nat, d: nat) returns (k: nat)
    requires n > 0 && q > 1 && (q - 1) % n == 0 && m * d == n
    ensures k == Step(n, q) * d && k * m == q - 1
    ensures m > 1 ==> 0 < k < q - 1
  {
    var step := Step(n, q);
    QuotientTimes(n, q);
    k := step * d;
    Regroup(step, m, d);
    if m > 1 {
      ProperFactor(k, m, q - 1);
    }
  }

  lemma ProperFactor(k: nat, m: nat, total: nat)
    requires m > 1 && total > 0 && k * m == total
    ensures 0 < k < total
  {
    assert k > 0;
    assert k * m >= k * 2;
  }

  lemma Regroup(step: nat, m: nat, d: nat)
    ensures (step * d) * m == step * (m * d)
  {
    assert step * (m * d) == (step * d) * m;
  }

  lemma QuotientTimes(n: nat, q: nat)
    requires n > 0 && q > 1 && (q - 1) % n == 0
    ensures Step(n, q) * n == q - 1
  {
  }

  /** Powers of the residue of g^m. */
  lemma DrawPower(g: nat, m: nat, x: nat, k: nat, q: nat)
    requires Cong(x, Pow(g, m), q)
    ensures Cong(Pow(x, k), Pow(Pow(g, k), m), q)
  {
    hide Cong, Pow;
    CongPow(x, Pow(g, m), k, q);
    PowPow(g, m, k);
    PowPow(g, k, m);
    assert m * k == k * m;
  }

  lemma NonZeroDraw(x: nat, k: nat, q: nat)
    requires q > 1 && k > 0 && Cong(Pow(x, k), -1, q)
    ensures x > 0
  {
    if x == 0 {
      assert Pow(0, k) == 0 * Pow(0, k - 1);
      CongIffMod(0, -1, q);
      ModOfMultiple(q - 1, -1, q);
      ModOfMultiple(0, 0, q);
      assert false;
    }
  }

  /** An n-th root of 1 whose d-th power is not 1, for a proper divisor d of n. */
  lemma HighOrderRoot(n: nat, q: nat, m: nat, d: nat) returns (y: nat)
    requires Prime(q) && n > 0 && (q - 1) % n == 0 && m > 1 && m * d == n
    ensures y < q && Cong(Pow(y, n), 1, q) && !Cong(Pow(y, d), 1, q)
  {
    hide Cong, Pow, Candidate, Step;
    var k := SplitExponent(n, q, m, d);
    var z := NonRoot(k, q);
    CandidateRange(z, n, q);
    QuotientTimes(n, q);
    y := Candidate(z, n, q);
    HighOrderCandidate(z, y, n, d, k, q);
  }

  lemma HighOrderCandidate(z: nat, y: nat, n: nat, d: nat, k: nat, q: nat)
    requires Prime(q) && n > 0 && Step(n, q) * n == q - 1 && k == Step(n, q) * d
    requires 0 < z < q && y == Candidate(z, n, q) && !Cong(Pow(z, k), 1, q)
    ensures Cong(Pow(y, n), 1, q) && !Cong(Pow(y, d), 1, q)
  {
    hide Cong, Pow, Candidate, Prime, Step;
    PowersOfCandidate(z, n, q, n, q - 1);
    PowersOfCandidate(z, n, q, d, k);
    FermatUnit(z, q);
    CongTrans(Pow(y, n), Pow(z, q - 1), 1, q);
    if Cong(Pow(y, d), 1, q) {
      CongSym(Pow(y, d), Pow(z, k), q);
      CongTrans(Pow(z, k), Pow(y, d), 1, q);
    }
  }

  lemma CandidateRange(z: nat, n: nat, q: nat)
    requires n > 0 && q > 1
    ensures 0 <= Candidate(z, n, q) < q
  {
  }

  /** If w^d is 1 then every power of w has d-th power 1, so a root without that property is not among them. */
  lemma LowOrderMisses(w: int, n: nat, d: nat, y: nat, q: nat)
    requires q > 0 && Cong(Pow(w, d), 1, q) && !Cong(Pow(y, d), 1, q)
    ensures !IsPowerOf(y, w, n, q)
  {
    hide Cong, Pow;
    forall i: nat | i < n
      ensures !Cong(Pow(w, i), y, q)
    {
      if Cong(Pow(w, i), y, q) {
        CongPow(Pow(w, i), y, d, q);
        PowPow(w, i, d);
        PowPow(w, d, i);
        assert i * d == d * i;
        CongPow(Pow(w, d), 1, i, q);
        PowOne(i);
        CongSym(Pow(w, i * d), Pow(y, d), q);
        CongTrans(Pow(y, d), Pow(w, i * d), 1, q);
      }
    }
  }

  /** Every root the search returns from a non-zero draw generates all the n-th roots. */
  ghost predicate AlwaysGenerates(n: nat, q: nat)
    requires n > 0 && q > 1
  {
    forall x: nat :: 0 < x < q && !Rejected(x, n, q, true) ==> GeneratesRoots(Candidate(x, n, q), n, q)
  }

  /** The documentation promises a generator for every even n; the test applied delivers one exactly for powers of two. */
  lemma GeneratesExactly(n: nat, q: nat)
    requires Prime(q) && n > 0 && n % 2 == 0 && (q - 1) % n == 0
    ensures AlwaysGenerates(n, q) <==> IsPowerOfTwo(n)
  {
    hide Cong, Pow, Rejected, Candidate, GeneratesRoots, Primitive, DistinctPowers;
    ExactQuotient(n, q);
    if IsPowerOfTwo(n) {
      forall x: nat | 0 < x < q && !Rejected(x, n, q, true)
        ensures GeneratesRoots(Candidate(x, n, q), n, q)
      {
        AcceptedExactly(x, n, q);
        PrimitiveHasDistinctPowers(Candidate(x, n, q), n, q);
        DistinctPowersGenerate(Candidate(x, n, q), n, q);
      }
    } else {
      SomeDrawFails(n, q);
    }
  }

  lemma SomeDrawFails(n: nat, q: nat)
    requires Prime(q) && n > 0 && n % 2 == 0 && (q - 1) % n == 0 && !IsPowerOfTwo(n)
    ensures !AlwaysGenerates(n, q)
  {
    hide Cong, Pow, Rejected, Candidate;
    var m := OddPart(n);
    OddPartDivides(n);
    var x := LowOrderDraw(n, q, m, n / m);
    var y := HighOrderRoot(n, q, m, n / m);
    LowOrderMisses(Candidate(x, n, q), n, n / m, y, q);
    assert !GeneratesRoots(Candidate(x, n, q), n, q);
  }

  lemma MinusOneIsAnotherRoot(n: nat, q: nat)
    requires q > 2 && n % 2 == 0
    ensures Exp(q - 1, n, q) == 1 && q - 1 != 1
  {
    hide Cong, Pow;
    CongIntro(q - 1, -1, 1, q);
    MinusOnePow(q - 1, n, q);
    CongOne(Pow(q - 1, n), q);
  }

  /**
   An even n does not divide q-1 for q = 2, nor for many others. The documentation says that 1 is then the only n-th
   root of 1: for even n that is so exactly for q = 2, whether n divides q-1 or not.
   */
  lemma OneIsOnlyRootExactly(n: nat, q: nat)
    requires q > 1 && n > 0 && n % 2 == 0
    ensures (forall y: nat :: y < q && Exp(y, n, q) == 1 ==> y == 1) <==> q == 2
  {
    if q == 2 {
      ZeroPow(n, q);
    } else {
      MinusOneIsAnotherRoot(n, q);
      var y: nat := q - 1;
      assert y < q && Exp(y, n, q) == 1 && y != 1;
    }
  }

  // ---- From the search to the convolution.

  /** The one draw that is accepted without giving a root of 1: the transform rejects what it returns. */
  lemma ZeroDraw(n: nat, q: nat)
    requires q > 2 && n > 0 && n % 2 == 0 && (q - 1) % n == 0 && IsPowerOfTwo(n)
    ensures Candidate(0, n, q) == 0 && !Rejected(0, n, q, true) && RootError(n, 0, q) == Some(NotRootOfUnity)
  {
    ExactQuotient(n, q);
    ZeroPow(Step(n, q), q);
    ZeroPow(n / 2, q);
    ZeroPow(n, q);
    AndPredecessor(n);
  }

  lemma ZeroPow(e: nat, q: nat)
    requires q > 1 && e > 0
    ensures Exp(0, e, q) == 0
  {
    assert Pow(0, e) == 0 * Pow(0, e - 1);
  }

  /** A root from a non-zero draw passes the transform's checks, is primitive, and its length can be inverted. */
  lemma FoundRootIsUsable(x: nat, n: nat, q: nat)
    requires Prime(q) && n > 0 && n % 2 == 0 && (q - 1) % n == 0 && IsPowerOfTwo(n)
    requires 0 < x < q && !Rejected(x, n, q, true)
    ensures var w := Candidate(x, n, q);
            RootError(n, w, q) == None && Primitive(w, n, q) && MultInverse(n, q).Some?
  {
    hide Cong, Pow, Prime, Rejected, Candidate, MultInverse;
    ExactQuotient(n, q);
    AcceptedExactly(x, n, q);
    AndPredecessor(n);
    LengthInvertible(n, q);
    var w := Candidate(x, n, q);
    CongOne(Pow(w, n), q);
    if w == 1 {
      PowOne(n / 2);
      CongRefl(1, q);
      OneIsNotMinusOne(1, q);
    }
  }

  /**
   Over a prime field, a root from the search leads Convolve to the product of a and b, or to an error:
   never to a wrong product.
   */
  lemma FoundRootConvolves(a: seq<int>, b: seq<int>, root: int, draws: seq<nat>, i: nat, q: nat)
    requires Prime(q) && |a| > 0 && |b| > 0 && |a| + |b| <= MAX_ELEMENTS
    requires ConvolutionSize(|a|, |b|) % 2 == 0
    requires var n := ConvolutionSize(|a|, |b|);
             if (q - 1) % n != 0 then root == 1
             else i < |draws| && draws[i] < q && root == Candidate(draws[i], n, q) && !Rejected(draws[i], n, q, true)
    ensures var n := ConvolutionSize(|a|, |b|);
            match RootError(n, root, q)
            case Some(e) => (q - 1) % n != 0 || draws[i] == 0
            case None => (q - 1) % n == 0 && draws[i] > 0 && MultInverse(n, q).Some? &&
                         Convolved(a, b, root, q, MultInverse(n, q).value) == Reduced(Schoolbook(a, b), q)
  {
    hide Cong, Pow, Rejected, Candidate, MultInverse, Convolved, Schoolbook, ConvolutionSize;
    var n := ConvolutionSize(|a|, |b|);
    AndPredecessor(n);
    if (q - 1) % n == 0 {
      ExactQuotient(n, q);
      if draws[i] == 0 {
        ZeroDraw(n, q);
      } else {
        FoundRootIsUsable(draws[i], n, q);
        ConvolutionTheorem(a, b, root, q, MultInverse(n, q).value);
      }
    }
  }
}
