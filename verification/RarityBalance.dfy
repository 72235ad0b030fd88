/**
 go/erc721/rarity.go: when the scores average 1, for any collection, also one in which tokens repeat a trait type. The
 condition is about counts alone: no logarithm appears in it.
 */
module RarityBalance {
  import opened Results
  import opened SetSums
  import opened Rarity

  /** A trait type with one of its values, or with none. */
  type Class = Pair<string, Option<string>>

  ghost function Classes(coll: Labelled): set<Class> {
    set kind, value | kind in Kinds(coll) && value in Options(coll, kind) :: Pair(kind, value)
  }

  ghost function OptionsOf(coll: Labelled): string -> set<Option<string>> {
    kind => Options(coll, kind)
  }

  /** The count that scores and entropy use. */
  ghost function WeightOf(coll: Labelled): Class -> real {
    (c: Class) => Weight(coll, c.first, c.second)
  }

  /** By how much that count exceeds the number of tokens that are scored with it. */
  ghost function Excess(coll: Labelled): Class -> real {
    (c: Class) => ClassExcess(coll, c.first, c.second)
  }

  ghost function ClassExcess(coll: Labelled, kind: string, value: Option<string>): real {
    Weight(coll, kind, value) - Holders(coll, kind, value) as real
  }

  /** What the classes with one weight are counted too often, or too seldom, together. */
  ghost function Imbalance(coll: Labelled, weight: real): real {
    SumOver(Fiber(Classes(coll), WeightOf(coll), weight), Excess(coll))
  }

  /** The share of a class in the difference of the scores and the entropy. */
  ghost function ClassGap(coll: Labelled, log2: real -> real, kind: string, value: Option<string>): real
    requires |coll| > 0
  {
    Product(log2(Fraction(Weight(coll, kind, value), Size(coll))), ClassExcess(coll, kind, value))
  }

  ghost function KindGaps(coll: Labelled, log2: real -> real): string -> Option<string> -> real
    requires |coll| > 0
  {
    kind => value => ClassGap(coll, log2, kind, value)
  }

  ghost function KindGap(coll: Labelled, log2: real -> real): string -> real
    requires |coll| > 0
  {
    kind => SumOver(Options(coll, kind), KindGaps(coll, log2)(kind))
  }

  ghost function Gap(coll: Labelled, log2: real -> real): Class -> real
    requires |coll| > 0
  {
    (c: Class) => ClassGap(coll, log2, c.first, c.second)
  }

  lemma ClassTotal(w: real, h: nat, n: real, log2: real -> real)
    requires n > 0.0
    ensures Times(h, -log2(Fraction(w, n))) ==
            Product(n, NullTerm(log2, Fraction(w, n))) + Product(log2(Fraction(w, n)), w - h as real)
  {
    TermTimesSize(w, n, log2);
    var l := log2(Fraction(w, n));
    assert h as real * -l == w * -l + l * (w - h as real);
  }

  /** The scores of a trait are its entropy, times the size, and its gap. */
  lemma KindTotal(coll: Labelled, log2: real -> real, kind: string)
    requires |coll| > 0
    ensures KindTotals(coll, log2)(kind) ==
            Product(Size(coll), KindEntropy(coll, log2, kind)) + KindGap(coll, log2)(kind)
  {
    hide Weight, Holders, Product, Options, Times, Fraction, KindEntropy, NullTerm, Size;
    var options := Options(coll, kind);
    SizeIsPositive(coll);
    var terms := value => NullTerm(log2, Fraction(Weight(coll, kind, value), Size(coll)));
    var scaled := value => Product(Size(coll), terms(value));
    forall value | value in options
      ensures Groups(coll, log2, kind)(value) == scaled(value) + KindGaps(coll, log2)(kind)(value)
    {
      ClassTotal(Weight(coll, kind, value), Holders(coll, kind, value), Size(coll), log2);
    }
    SumAdd(options, scaled, KindGaps(coll, log2)(kind), Groups(coll, log2, kind));
    SumScaled(options, Size(coll), terms, scaled);
    TermsOfKind(coll, log2, kind, terms);
  }

  lemma SizeIsPositive(coll: Labelled)
    requires |coll| > 0
    ensures Size(coll) > 0.0
  {
  }

  /** For every collection: the scores add up to the size times the entropy and the gaps of all classes. */
  lemma ScoresAndGaps(coll: Labelled, log2: real -> real)
    requires |coll| > 0
    ensures SumOver(coll.Keys, RawScores(coll, log2)) ==
            Product(Size(coll), Entropy(coll, log2)) + SumOver(Classes(coll), Gap(coll, log2))
  {
    hide Kinds, Options, KindEntropy, KindTotals, Product, RawScores, ClassGap, SumOver;
    var kinds := Kinds(coll);
    var scaled := kind => Product(Size(coll), KindEntropies(coll, log2)(kind));
    ScoresByValue(coll, log2);
    forall kind | kind in kinds
      ensures KindTotals(coll, log2)(kind) == scaled(kind) + KindGap(coll, log2)(kind)
    {
      KindTotal(coll, log2, kind);
      assert KindEntropies(coll, log2)(kind) == KindEntropy(coll, log2, kind);
      assert scaled(kind) == Product(Size(coll), KindEntropy(coll, log2, kind));
    }
    SumAdd(kinds, scaled, KindGap(coll, log2), KindTotals(coll, log2));
    SumScaled(kinds, Size(coll), KindEntropies(coll, log2), scaled);
    ClassesArePairs(coll);
    SumNested(kinds, OptionsOf(coll), KindGap(coll, log2), KindGaps(coll, log2), Classes(coll), Gap(coll, log2));
  }

  lemma ClassesArePairs(coll: Labelled)
    ensures ArePairs(Classes(coll), Kinds(coll), OptionsOf(coll))
  {
    hide Kinds, Options;
    forall c: Class
      ensures c in Classes(coll) <==> c.first in Kinds(coll) && c.second in OptionsOf(coll)(c.first)
    {
      assert c == Pair(c.first, c.second);
    }
  }

  /** The scores add up to the size times the entropy, so that they average 1 when scaled by it. */
  ghost predicate IsBalanced(coll: Labelled, log2: real -> real)
    requires |coll| > 0
  {
    SumOver(coll.Keys, RawScores(coll, log2)) == Product(Size(coll), Entropy(coll, log2))
  }

  /** They do so for every logarithm function if and only if the classes of each weight are counted right together. */
  lemma BalancedExactly(coll: Labelled)
    requires |coll| > 0
    ensures (forall log2 :: IsBalanced(coll, log2)) <==> (forall weight :: Imbalance(coll, weight) == 0.0)
  {
    hide Imbalance, IsBalanced;
    if forall log2 :: IsBalanced(coll, log2) {
      forall weight
        ensures Imbalance(coll, weight) == 0.0
      {
        var log2 := IsolatingLog(coll, weight);
        assert IsBalanced(coll, log2);
        ImbalanceShows(coll, weight, log2);
      }
    }
    if forall weight :: Imbalance(coll, weight) == 0.0 {
      forall log2
        ensures IsBalanced(coll, log2)
      {
        EvenIsBalanced(coll, log2);
      }
    }
  }

  /** A function in the place of the logarithm that is 1 for one weight and 0 for all others. */
  ghost function IsolatingLog(coll: Labelled, weight: real): real -> real
    requires |coll| > 0
  {
    SizeIsPositive(coll);
    var p := Fraction(weight, Size(coll));
    x => if x == p then 1.0 else 0.0
  }

  lemma FractionsDiffer(a: real, b: real, n: real)
    requires n > 0.0
    ensures Fraction(a, n) == Fraction(b, n) <==> a == b
  {
    assert Fraction(a, n) * n == a && Fraction(b, n) * n == b;
  }

  lemma ImbalanceShows(coll: Labelled, weight: real, log2: real -> real)
    requires |coll| > 0 && log2 == IsolatingLog(coll, weight) && IsBalanced(coll, log2)
    ensures Imbalance(coll, weight) == 0.0
  {
    hide Classes, ClassExcess, Weight, SumOver, RawScores, Entropy, Fraction;
    ScoresAndGaps(coll, log2);
    SizeIsPositive(coll);
    forall c | c in Classes(coll)
      ensures Gap(coll, log2)(c) == if WeightOf(coll)(c) == weight then Excess(coll)(c) else 0.0
    {
      FractionsDiffer(WeightOf(coll)(c), weight, Size(coll));
    }
    SumOnFiber(Classes(coll), WeightOf(coll), weight, Excess(coll), Gap(coll, log2));
  }

  lemma EvenIsBalanced(coll: Labelled, log2: real -> real)
    requires |coll| > 0 && forall weight :: Imbalance(coll, weight) == 0.0
    ensures IsBalanced(coll, log2)
  {
    hide Classes, ClassExcess, Weight, SumOver, RawScores, Entropy, Product, Fraction, Size;
    ScoresAndGaps(coll, log2);
    SizeIsPositive(coll);
    var g := x => log2(Fraction(x, Size(coll)));
    forall weight
      ensures SumOver(Fiber(Classes(coll), WeightOf(coll), weight), Excess(coll)) == 0.0
    {
      assert Imbalance(coll, weight) == 0.0;
    }
    SumByFibers(Classes(coll), WeightOf(coll), Excess(coll), g, Gap(coll, log2));
  }

  /** Tokens with at most one attribute per trait type are counted right, class by class. */
  lemma OnePerKindIsEven(coll: Labelled, weight: real)
    requires OnePerKind(coll)
    ensures Imbalance(coll, weight) == 0.0
  {
    hide Classes, Weight, Holders;
    forall c: Class
      ensures Excess(coll)(c) == 0.0
    {
      WeightIsHolders(coll, c.first, c.second);
    }
    SumZero(Fiber(Classes(coll), WeightOf(coll), weight), Excess(coll));
  }

  /** Scaled by a positive entropy, the scores average exactly 1 if and only if the raw ones are balanced. */
  lemma AverageIsOneExactly(coll: Labelled, log2: real -> real, scores: TokenID -> real)
    requires |coll| > 0 && Entropy(coll, log2) > 0.0
    requires forall id :: id in coll ==> scores(id) == RawScore(coll, log2, id) / Entropy(coll, log2)
    ensures SumOver(coll.Keys, scores) == Size(coll) <==> IsBalanced(coll, log2)
  {
    hide RawScore, Entropy, Product, SumOver;
    var e, total := Entropy(coll, log2), SumOver(coll.Keys, RawScores(coll, log2));
    forall id | id in coll.Keys
      ensures scores(id) == Product(1.0 / e, RawScores(coll, log2)(id))
    {
      Reciprocal(RawScore(coll, log2, id), e);
    }
    SumScaled(coll.Keys, 1.0 / e, RawScores(coll, log2), scores);
    QuotientIs(total, Size(coll), e);
  }

  lemma QuotientIs(a: real, n: real, e: real)
    requires e != 0.0
    ensures Product(1.0 / e, a) == n <==> a == Product(n, e)
  {
    Reciprocal(a, e);
    assert (a / e) * e == a;
    assert a == n * e ==> a / e == n;
  }
}
