/** Sums of reals over finite sets, in no particular order, and their regrouping. */
module SetSums {

  ghost function SumOver<T(!new)>(s: set<T>, f: T -> real): real {
    if s == {} then 0.0 else var x :| x in s; f(x) + SumOver(s - {x}, f)
  }

  /** The order does not matter: any element may be taken first. */
  lemma {:induction false} SumRemove<T(!new)>(s: set<T>, f: T -> real, x: T)
    requires x in s
    ensures SumOver(s, f) == f(x) + SumOver(s - {x}, f)
    decreases |s|
  {
    var y :| y in s && SumOver(s, f) == f(y) + SumOver(s - {y}, f);
    if y != x {
      SumRemove(s - {y}, f, x);
      SumRemove(s - {x}, f, y);
      assert s - {y} - {x} == s - {x} - {y};
    }
  }

  lemma SumInsert<T(!new)>(s: set<T>, f: T -> real, x: T)
    requires x !in s
    ensures SumOver(s + {x}, f) == SumOver(s, f) + f(x)
  {
    SumRemove(s + {x}, f, x);
    assert s + {x} - {x} == s;
  }

  lemma {:induction false} SumSame<T(!new)>(s: set<T>, f: T -> real, g: T -> real)
    requires forall x :: x in s ==> f(x) == g(x)
    ensures SumOver(s, f) == SumOver(s, g)
    decreases |s|
  {
    if s != {} {
      var x :| x in s;
      SumRemove(s, f, x);
      SumRemove(s, g, x);
      SumSame(s - {x}, f, g);
    }
  }

  lemma {:induction false} SumAdd<T(!new)>(s: set<T>, f: T -> real, g: T -> real, h: T -> real)
    requires forall x :: x in s ==> h(x) == f(x) + g(x)
    ensures SumOver(s, h) == SumOver(s, f) + SumOver(s, g)
    decreases |s|
  {
    if s != {} {
      var x :| x in s;
      SumRemove(s, f, x);
      SumRemove(s, g, x);
      SumRemove(s, h, x);
      SumAdd(s - {x}, f, g, h);
    }
  }

  ghost function Product(c: real, a: real): real {
    c * a
  }

  lemma Distributes(c: real, a: real, b: real)
    ensures Product(c, a + b) == Product(c, a) + Product(c, b) && Product(c, 0.0) == 0.0
  {
  }

  lemma {:induction false} SumScaled<T(!new)>(s: set<T>, c: real, f: T -> real, g: T -> real)
    requires forall x :: x in s ==> g(x) == Product(c, f(x))
    ensures SumOver(s, g) == Product(c, SumOver(s, f))
    decreases |s|
  {
    hide Product;
    Distributes(c, 0.0, 0.0);
    if s != {} {
      var x :| x in s;
      SumRemove(s, f, x);
      SumRemove(s, g, x);
      SumScaled(s - {x}, c, f, g);
      Distributes(c, f(x), SumOver(s - {x}, f));
    }
  }

  ghost function Times(n: nat, v: real): real {
    n as real * v
  }

  lemma TimesStep(n: nat, v: real)
    ensures Times(0, v) == 0.0 && Times(n + 1, v) == Times(n, v) + v
  {
  }

  lemma {:induction false} SumConstant<T(!new)>(s: set<T>, c: real, f: T -> real)
    requires forall x :: x in s ==> f(x) == c
    ensures SumOver(s, f) == Times(|s|, c)
    decreases |s|
  {
    hide Times;
    TimesStep(0, c);
    if s != {} {
      var x :| x in s;
      SumRemove(s, f, x);
      SumConstant(s - {x}, c, f);
      TimesStep(|s - {x}|, c);
    }
  }

  lemma SumZero<T(!new)>(s: set<T>, f: T -> real)
    requires forall x :: x in s ==> f(x) == 0.0
    ensures SumOver(s, f) == 0.0
  {
    SumConstant(s, 0.0, f);
  }

  /** Exchanging the order of a double sum: adding up the row totals or the column totals. */
  lemma {:induction false} SumSwap<S(!new), T(!new)>(s: set<S>, t: set<T>, row: S -> T -> real, column: T -> S -> real,
                                                     rows: S -> real, columns: T -> real)
    requires forall x, y :: x in s && y in t ==> row(x)(y) == column(y)(x)
    requires forall x :: x in s ==> rows(x) == SumOver(t, row(x))
    requires forall y :: y in t ==> columns(y) == SumOver(s, column(y))
    ensures SumOver(s, rows) == SumOver(t, columns)
    decreases |s|
  {
    if s == {} {
      SumZero(t, columns);
    } else {
      var a :| a in s;
      var rest := y => SumOver(s - {a}, column(y));
      SumRemove(s, rows, a);
      SumSwap(s - {a}, t, row, column, rows, rest);
      SumAdd(t, row(a), rest, columns) by {
        forall y | y in t
          ensures columns(y) == row(a)(y) + rest(y)
        {
          SumRemove(s, column(y), a);
        }
      }
    }
  }

  ghost function Fiber<S(!new), K(!new)>(s: set<S>, key: S -> K, k: K): set<S> {
    set x | x in s && key(x) == k
  }

  /** If each key is that of at most m elements, there are at most m times as many elements as keys. */
  lemma {:induction false} FibersBound<S(!new), K(!new)>(s: set<S>, keys: set<K>, key: S -> K, m: nat)
    requires forall x :: x in s ==> key(x) in keys
    requires forall k :: k in keys ==> |Fiber(s, key, k)| <= m
    ensures |s| <= |keys| * m
    decreases |keys|
  {
    if keys == {} {
      assert s == {};
    } else {
      var k :| k in keys;
      var fiber := Fiber(s, key, k);
      var rest := s - fiber;
      forall j | j in keys - {k}
        ensures |Fiber(rest, key, j)| <= m
      {
        assert Fiber(rest, key, j) == Fiber(s, key, j);
      }
      FibersBound(rest, keys - {k}, key, m);
      assert s == rest + fiber;
      OneMoreTime(|keys| - 1, m);
    }
  }

  lemma OneMoreTime(n: nat, m: nat)
    ensures (n + 1) * m == n * m + m
  {
  }

  /** Regrouping by key: a sum of values that depend on the key only counts each key as often as it occurs. */
  lemma {:induction false} SumByKey<S(!new), K(!new)>(s: set<S>, keys: set<K>, key: S -> K, h: K -> real,
                                                      f: S -> real, shares: K -> real)
    requires forall x :: x in s ==> key(x) in keys && f(x) == h(key(x))
    requires forall k :: k in keys ==> shares(k) == Times(|Fiber(s, key, k)|, h(k))
    ensures SumOver(s, f) == SumOver(keys, shares)
    decreases |keys|
  {
    hide SumOver, Times;
    if keys == {} {
      assert s == {};
      SumZero(s, f);
      SumZero(keys, shares);
    } else {
      var k :| k in keys;
      var here := Fiber(s, key, k);
      var others := s - here;
      forall m | m in keys - {k}
        ensures Fiber(others, key, m) == Fiber(s, key, m)
      {
      }
      SumByKey(others, keys - {k}, key, h, f, shares);
      SumRemove(keys, shares, k);
      SumConstant(here, h(k), f);
      SumUnion(here, others, f);
      assert s == here + others;
    }
  }

  lemma {:induction false} SumUnion<T(!new)>(s: set<T>, t: set<T>, f: T -> real)
    requires s !! t
    ensures SumOver(s + t, f) == SumOver(s, f) + SumOver(t, f)
    decreases |s|
  {
    if s == {} {
      assert s + t == t;
    } else {
      var x :| x in s;
      SumRemove(s, f, x);
      SumRemove(s + t, f, x);
      assert s + t - {x} == (s - {x}) + t;
      SumUnion(s - {x}, t, f);
    }
  }

  datatype Pair<S, T> = Pair(first: S, second: T)

  /** The pairs of the elements of s, each with those of its own set. */
  ghost predicate ArePairs<S(!new), T(!new)>(pairs: set<Pair<S, T>>, s: set<S>, t: S -> set<T>) {
    forall p :: p in pairs <==> p.first in s && p.second in t(p.first)
  }

  /** A sum over pairs, row by row. */
  lemma {:induction false} SumNested<S(!new), T(!new)>(s: set<S>, t: S -> set<T>, rows: S -> real, row: S -> T -> real,
                                                       pairs: set<Pair<S, T>>, f: Pair<S, T> -> real)
    requires forall x :: x in s ==> rows(x) == SumOver(t(x), row(x))
    requires ArePairs(pairs, s, t)
    requires forall p :: p in pairs ==> row(p.first)(p.second) == f(p)
    ensures SumOver(s, rows) == SumOver(pairs, f)
    decreases |s|
  {
    hide SumOver;
    if s == {} {
      assert pairs == {};
      SumZero(s, rows);
      SumZero(pairs, f);
    } else {
      var a :| a in s;
      var here := set p | p in pairs && p.first == a;
      SumRemove(s, rows, a);
      SumNested(s - {a}, t, rows, row, pairs - here, f);
      SumOfRow(t(a), a, row(a), here, f);
      SumUnion(here, pairs - here, f);
      assert pairs == here + (pairs - here);
    }
  }

  lemma {:induction false} SumOfRow<S(!new), T(!new)>(t: set<T>, a: S, g: T -> real, here: set<Pair<S, T>>,
                                                      f: Pair<S, T> -> real)
    requires forall p :: p in here <==> p.first == a && p.second in t
    requires forall p :: p in here ==> g(p.second) == f(p)
    ensures SumOver(t, g) == SumOver(here, f)
    decreases |t|
  {
    hide SumOver;
    if t == {} {
      assert here == {};
      SumZero(t, g);
      SumZero(here, f);
    } else {
      var y :| y in t;
      assert Pair(a, y) in here;
      SumRemove(t, g, y);
      SumRemove(here, f, Pair(a, y));
      SumOfRow(t - {y}, a, g, here - {Pair(a, y)}, f);
    }
  }

  /** If what belongs to each key adds up to zero, then so it does after any weighting by key. */
  lemma {:induction false} SumByFibers<S(!new), K(!new)>(s: set<S>, key: S -> K, c: S -> real, g: K -> real, f: S -> real)
    requires forall x :: x in s ==> f(x) == Product(g(key(x)), c(x))
    requires forall k :: SumOver(Fiber(s, key, k), c) == 0.0
    ensures SumOver(s, f) == 0.0
    decreases |s|
  {
    if s != {} {
      var a :| a in s;
      var here, rest := Fiber(s, key, key(a)), s - Fiber(s, key, key(a));
      assert a in here;
      SumScaled(here, g(key(a)), c, f);
      forall k
        ensures SumOver(Fiber(rest, key, k), c) == 0.0
      {
        if k == key(a) {
          assert Fiber(rest, key, k) == {};
        } else {
          assert Fiber(rest, key, k) == Fiber(s, key, k);
        }
      }
      SumByFibers(rest, key, c, g, f);
      SumUnion(here, rest, f);
      assert s == here + rest;
    }
  }

  /** Values that are zero elsewhere add up over one fiber. */
  lemma SumOnFiber<S(!new), K(!new)>(s: set<S>, key: S -> K, k: K, c: S -> real, f: S -> real)
    requires forall x :: x in s ==> f(x) == if key(x) == k then c(x) else 0.0
    ensures SumOver(s, f) == SumOver(Fiber(s, key, k), c)
  {
    var here := Fiber(s, key, k);
    SumSame(here, f, c);
    SumZero(s - here, f);
    SumUnion(here, s - here, f);
    assert s == here + (s - here);
  }
}
