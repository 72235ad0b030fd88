/**
 go/erc721/rarity.go: information-theoretic rarity of the tokens of a collection. Floating-point numbers are
 modelled by reals and the logarithm by an arbitrary function.
 */
module Rarity {
  import opened Results
  import opened SetSums

  /** An attribute as counted: its trait type, and its value as a string. */
  datatype Label = Label(kind: string, value: string)

  datatype Value = Text(s: string) | Other(x: nat)
  datatype Attribute = Attribute(traitType: string, value: Value)

  datatype TokenID = TokenID(num: nat)
  type Labelled = map<TokenID, seq<Label>>

  function LabelOf(attr: Attribute, bucket: nat -> string): Label {
    Label(attr.traitType, match attr.value case Text(s) => s case Other(x) => bucket(x))
  }

  function Labels(attrs: seq<Attribute>, bucket: nat -> string): (labels: seq<Label>)
    ensures |labels| == |attrs|
  {
    seq(|attrs|, i requires 0 <= i < |attrs| => LabelOf(attrs[i], bucket))
  }

  // ---- Counting.

  /** How often a label occurs. */
  function Occurrences(labels: seq<Label>, l: Label): nat {
    if labels == [] then 0
    else
      var n := |labels| - 1;
      Occurrences(labels[..n], l) + if labels[n] == l then 1 else 0
  }

  /** How often a trait type occurs. */
  function KindOccurrences(labels: seq<Label>, kind: string): nat {
    if labels == [] then 0
    else
      var n := |labels| - 1;
      KindOccurrences(labels[..n], kind) + if labels[n].kind == kind then 1 else 0
  }

  /** The value that stays when the labels are written to a map one after the other. */
  function LastValue(labels: seq<Label>, kind: string): Option<string> {
    if labels == [] then None
    else
      var n := |labels| - 1;
      if labels[n].kind == kind then Some(labels[n].value) else LastValue(labels[..n], kind)
  }

  ghost function LabelsOf(coll: Labelled, id: TokenID): seq<Label> {
    if id in coll then coll[id] else []
  }

  /** How many attributes of the collection carry the label. */
  ghost function Number(coll: Labelled, l: Label): real {
    SumOver(coll.Keys, id => Occurrences(LabelsOf(coll, id), l) as real)
  }

  ghost function KindNumber(coll: Labelled, kind: string): real {
    SumOver(coll.Keys, id => KindOccurrences(LabelsOf(coll, id), kind) as real)
  }

  ghost function Kinds(coll: Labelled): set<string> {
    set id, i | id in coll && 0 <= i < |coll[id]| :: coll[id][i].kind
  }

  ghost function Values(coll: Labelled, kind: string): set<string> {
    set id, i | id in coll && 0 <= i < |coll[id]| && coll[id][i].kind == kind :: coll[id][i].value
  }

  // ---- Entropy and scores.

  ghost function Size(coll: Labelled): real {
    |coll| as real
  }

  function Fraction(n: real, size: real): real
    requires size != 0.0
  {
    n / size
  }

  function Term(log2: real -> real, p: real): real {
    -p * log2(p)
  }

  function NullTerm(log2: real -> real, p: real): real {
    if p != 0.0 then Term(log2, p) else 0.0
  }

  /** The term of one value of a trait in the entropy. */
  ghost function ValueTerms(coll: Labelled, log2: real -> real, kind: string): string -> real
    requires |coll| > 0
  {
    v => Term(log2, Fraction(Number(coll, Label(kind, v)), Size(coll)))
  }

  ghost function KindEntropy(coll: Labelled, log2: real -> real, kind: string): real
    requires |coll| > 0
  {
    SumOver(Values(coll, kind), ValueTerms(coll, log2, kind)) +
    NullTerm(log2, Fraction(Size(coll) - KindNumber(coll, kind), Size(coll)))
  }

  ghost function Entropy(coll: Labelled, log2: real -> real): real {
    if |coll| == 0 then 0.0 else SumOver(Kinds(coll), KindEntropies(coll, log2))
  }

  ghost function KindEntropies(coll: Labelled, log2: real -> real): string -> real
    requires |coll| > 0
  {
    kind => KindEntropy(coll, log2, kind)
  }

  /** The numerator of the probability that a score uses: of a value, or of lacking the trait. */
  ghost function Weight(coll: Labelled, kind: string, value: Option<string>): real {
    match value
    case Some(v) => Number(coll, Label(kind, v))
    case None => Size(coll) - KindNumber(coll, kind)
  }

  ghost function Information(coll: Labelled, log2: real -> real, kind: string, value: Option<string>): real
    requires |coll| > 0
  {
    -log2(Fraction(Weight(coll, kind, value), Size(coll)))
  }

  /** The score of a token before it is scaled by the entropy. */
  ghost function RawScore(coll: Labelled, log2: real -> real, id: TokenID): real
    requires |coll| > 0
  {
    SumOver(Kinds(coll), InformationOf(coll, log2, id))
  }

  ghost function RawScores(coll: Labelled, log2: real -> real): TokenID -> real
    requires |coll| > 0
  {
    id => RawScore(coll, log2, id)
  }

  /** What each trait contributes to the score of a token. */
  ghost function InformationOf(coll: Labelled, log2: real -> real, id: TokenID): string -> real
    requires |coll| > 0
  {
    kind => Information(coll, log2, kind, LastValue(LabelsOf(coll, id), kind))
  }

  // ---- Regrouping the scores by value.

  ghost function ValueOf(coll: Labelled, kind: string): TokenID -> Option<string> {
    id => LastValue(LabelsOf(coll, id), kind)
  }

  ghost function Options(coll: Labelled, kind: string): set<Option<string>> {
    (set v | v in Values(coll, kind) :: Some(v)) + {None}
  }

  /** How many tokens end up with a value, or with none. */
  ghost function Holders(coll: Labelled, kind: string, value: Option<string>): nat {
    |Fiber(coll.Keys, ValueOf(coll, kind), value)|
  }

  /** What the tokens with one value of a trait contribute to the sum of all scores. */
  ghost function Group(coll: Labelled, log2: real -> real, kind: string, value: Option<string>): real
    requires |coll| > 0
  {
    Times(Holders(coll, kind, value), Information(coll, log2, kind, value))
  }

  ghost function Groups(coll: Labelled, log2: real -> real, kind: string): Option<string> -> real
    requires |coll| > 0
  {
    value => Group(coll, log2, kind, value)
  }

  /** What each trait contributes to the sum of all scores. */
  ghost function KindTotals(coll: Labelled, log2: real -> real): string -> real
    requires |coll| > 0
  {
    kind => SumOver(Options(coll, kind), Groups(coll, log2, kind))
  }

  lemma {:induction false} LastValueOccurs(labels: seq<Label>, kind: string)
    ensures match LastValue(labels, kind)
            case None => KindOccurrences(labels, kind) == 0
            case Some(v) => exists i :: 0 <= i < |labels| && labels[i] == Label(kind, v)
    decreases |labels|
  {
    if labels != [] {
      var n := |labels| - 1;
      LastValueOccurs(labels[..n], kind);
      if labels[n].kind == kind {
        assert labels[n] == Label(kind, labels[n].value);
      } else if LastValue(labels[..n], kind).Some? {
        var i :| 0 <= i < n && labels[..n][i] == Label(kind, LastValue(labels[..n], kind).value);
        assert labels[i] == labels[..n][i];
      }
    }
  }

  lemma ValueIsAnOption(coll: Labelled, kind: string, id: TokenID)
    requires id in coll
    ensures ValueOf(coll, kind)(id) in Options(coll, kind)
  {
    LastValueOccurs(coll[id], kind);
    if LastValue(coll[id], kind).Some? {
      var v := LastValue(coll[id], kind).value;
      var i :| 0 <= i < |coll[id]| && coll[id][i] == Label(kind, v);
      assert v in Values(coll, kind);
    }
  }

  /** The scores, added over all tokens, are the information of each value times the number of its holders. */
  lemma ScoresByValue(coll: Labelled, log2: real -> real)
    requires |coll| > 0
    ensures SumOver(coll.Keys, RawScores(coll, log2)) == SumOver(Kinds(coll), KindTotals(coll, log2))
  {
    hide Options, Kinds, Groups, SumOver, Information;
    var column := kind => (id: TokenID) => InformationOf(coll, log2, id)(kind);
    forall kind | kind in Kinds(coll)
      ensures KindTotals(coll, log2)(kind) == SumOver(coll.Keys, column(kind))
    {
      KindByValue(coll, log2, kind, column(kind));
    }
    SumSwap(coll.Keys, Kinds(coll), id => InformationOf(coll, log2, id), column, RawScores(coll, log2),
            KindTotals(coll, log2));
  }

  lemma KindByValue(coll: Labelled, log2: real -> real, kind: string, g: TokenID -> real)
    requires |coll| > 0
    requires forall id :: g(id) == InformationOf(coll, log2, id)(kind)
    ensures SumOver(coll.Keys, g) == SumOver(Options(coll, kind), Groups(coll, log2, kind))
  {
    hide Options, SumOver, Information, Fiber, LastValue;
    var key := ValueOf(coll, kind);
    var h := value => Information(coll, log2, kind, value);
    forall id | id in coll.Keys
      ensures key(id) in Options(coll, kind) && g(id) == h(key(id))
    {
      ValueIsAnOption(coll, kind, id);
    }
    SumByKey(coll.Keys, Options(coll, kind), key, h, g, Groups(coll, log2, kind));
  }

  // ---- With at most one attribute per trait type.

  ghost predicate OnePerKind(coll: Labelled) {
    forall id, kind :: id in coll ==> KindOccurrences(coll[id], kind) <= 1
  }

  lemma {:induction false} SingleOccurrence(labels: seq<Label>, kind: string, v: string)
    requires KindOccurrences(labels, kind) <= 1
    ensures Occurrences(labels, Label(kind, v)) == if LastValue(labels, kind) == Some(v) then 1 else 0
    ensures KindOccurrences(labels, kind) == if LastValue(labels, kind) == None then 0 else 1
    decreases |labels|
  {
    if labels != [] {
      SingleOccurrence(labels[..|labels| - 1], kind, v);
      LastValueOccurs(labels[..|labels| - 1], kind);
    }
  }

  function Indicator(b: bool): real {
    if b then 1.0 else 0.0
  }

  /** Counting with an indicator. */
  lemma {:induction false} SumIndicator<T(!new), K(!new)>(s: set<T>, key: T -> K, k: K, f: T -> real)
    requires forall x :: x in s ==> f(x) == Indicator(key(x) == k)
    ensures SumOver(s, f) == |Fiber(s, key, k)| as real
    decreases |s|
  {
    if s == {} {
      assert Fiber(s, key, k) == {};
    } else {
      var x :| x in s;
      SumRemove(s, f, x);
      SumIndicator(s - {x}, key, k, f);
      assert Fiber(s, key, k) == Fiber(s - {x}, key, k) + if key(x) == k then {x} else {};
    }
  }

  /** Then the weight of a value is the number of its holders. */
  lemma WeightIsHolders(coll: Labelled, kind: string, value: Option<string>)
    requires OnePerKind(coll)
    ensures Weight(coll, kind, value) == Holders(coll, kind, value) as real
  {
    match value
    case Some(v) =>
      var f := id => Occurrences(LabelsOf(coll, id), Label(kind, v)) as real;
      forall id | id in coll.Keys
        ensures f(id) == Indicator(ValueOf(coll, kind)(id) == value)
      {
        SingleOccurrence(coll[id], kind, v);
      }
      SumIndicator(coll.Keys, ValueOf(coll, kind), value, f);
    case None =>
      LackingIsComplement(coll, kind);
  }

  lemma LackingIsComplement(coll: Labelled, kind: string)
    requires OnePerKind(coll)
    ensures Size(coll) - KindNumber(coll, kind) == Holders(coll, kind, None) as real
  {
    hide SumOver, Fiber, LastValue;
    var has := id => KindOccurrences(LabelsOf(coll, id), kind) as real;
    var lacks := id => 1.0 - has(id);
    forall id | id in coll.Keys
      ensures lacks(id) == Indicator(ValueOf(coll, kind)(id) == None)
    {
      SingleOccurrence(coll[id], kind, "");
    }
    SumIndicator(coll.Keys, ValueOf(coll, kind), None, lacks);
    SumAdd(coll.Keys, has, lacks, id => 1.0);
    SumConstant(coll.Keys, 1.0, id => 1.0);
    assert |coll.Keys| == |coll|;
  }

  /** One term of the entropy is the group's share of the scores. */
  lemma GroupIsTerm(coll: Labelled, log2: real -> real, kind: string, value: Option<string>)
    requires |coll| > 0 && OnePerKind(coll)
    ensures Group(coll, log2, kind, value) ==
            Product(Size(coll), NullTerm(log2, Fraction(Weight(coll, kind, value), Size(coll))))
  {
    WeightIsHolders(coll, kind, value);
    TermTimesSize(Weight(coll, kind, value), Size(coll), log2);
  }

  lemma TermTimesSize(w: real, n: real, log2: real -> real)
    requires n > 0.0
    ensures w * -log2(Fraction(w, n)) == Product(n, NullTerm(log2, Fraction(w, n)))
    ensures w == 0.0 ==> Term(log2, Fraction(w, n)) == 0.0
    ensures NullTerm(log2, Fraction(w, n)) == Term(log2, Fraction(w, n))
  {
    var p, l := Fraction(w, n), log2(Fraction(w, n));
    assert n * p == w;
    assert n * (-p * l) == (n * p) * -l;
  }

  lemma KindGroups(coll: Labelled, log2: real -> real, kind: string)
    requires |coll| > 0 && OnePerKind(coll)
    ensures SumOver(Options(coll, kind), Groups(coll, log2, kind)) ==
            Product(Size(coll), KindEntropy(coll, log2, kind))
  {
    hide Weight, Group, Product;
    var terms := value => NullTerm(log2, Fraction(Weight(coll, kind, value), Size(coll)));
    forall value | value in Options(coll, kind)
      ensures Group(coll, log2, kind, value) == Product(Size(coll), terms(value))
    {
      GroupIsTerm(coll, log2, kind, value);
    }
    SumScaled(Options(coll, kind), Size(coll), terms, Groups(coll, log2, kind));
    TermsOfKind(coll, log2, kind, terms);
  }

  /** Splitting the terms of a trait into those of its values and that of its absence. */
  lemma TermsOfKind(coll: Labelled, log2: real -> real, kind: string, terms: Option<string> -> real)
    requires |coll| > 0
    requires forall value :: terms(value) == NullTerm(log2, Fraction(Weight(coll, kind, value), Size(coll)))
    ensures SumOver(Options(coll, kind), terms) == KindEntropy(coll, log2, kind)
  {
    var values := Values(coll, kind);
    var f := ValueTerms(coll, log2, kind);
    forall v | v in values
      ensures terms(Some(v)) == f(v)
    {
      TermTimesSize(Weight(coll, kind, Some(v)), Size(coll), log2);
    }
    SumOfSome(values, f, terms);
    SumInsert(set v | v in values :: Some(v), terms, None);
  }

  lemma {:induction false} SumOfSome(values: set<string>, f: string -> real, g: Option<string> -> real)
    requires forall v :: v in values ==> g(Some(v)) == f(v)
    ensures SumOver(set v | v in values :: Some(v), g) == SumOver(values, f)
    decreases |values|
  {
    var options := set v | v in values :: Some(v);
    if values == {} {
      assert options == {};
    } else {
      var x :| x in values;
      SumRemove(values, f, x);
      SumRemove(options, g, Some(x));
      assert options - {Some(x)} == set v | v in values - {x} :: Some(v);
      SumOfSome(values - {x}, f, g);
    }
  }

  /** The un-normalised scores add up to the size of the collection times its entropy. */
  lemma ScoresSumToEntropy(coll: Labelled, log2: real -> real)
    requires |coll| > 0 && OnePerKind(coll)
    ensures SumOver(coll.Keys, RawScores(coll, log2)) == Product(Size(coll), Entropy(coll, log2))
  {
    hide Group, Options, KindEntropy, Kinds, RawScore, Product;
    ScoresByValue(coll, log2);
    forall kind | kind in Kinds(coll)
      ensures KindTotals(coll, log2)(kind) == Product(Size(coll), KindEntropies(coll, log2)(kind))
    {
      KindGroups(coll, log2, kind);
    }
    SumScaled(Kinds(coll), Size(coll), KindEntropies(coll, log2), KindTotals(coll, log2));
  }

  /** Scaled by a positive entropy they add up to the size: on average a token scores exactly 1. */
  lemma AverageScoreIsOne(coll: Labelled, log2: real -> real, scores: TokenID -> real)
    requires |coll| > 0 && OnePerKind(coll) && Entropy(coll, log2) > 0.0
    requires forall id :: id in coll ==> scores(id) == RawScore(coll, log2, id) / Entropy(coll, log2)
    ensures SumOver(coll.Keys, scores) == Size(coll)
  {
    hide RawScore, Entropy, Product;
    var e := Entropy(coll, log2);
    ScoresSumToEntropy(coll, log2);
    forall id | id in coll.Keys
      ensures scores(id) == Product(1.0 / e, RawScores(coll, log2)(id))
    {
      Reciprocal(RawScore(coll, log2, id), e);
    }
    SumScaled(coll.Keys, 1.0 / e, RawScores(coll, log2), scores);
    Reciprocal(Size(coll), e);
  }

  lemma Reciprocal(a: real, e: real)
    requires e != 0.0
    ensures a / e == Product(1.0 / e, a)
    ensures Product(1.0 / e, Product(a, e)) == a
  {
    assert (1.0 / e) * e == 1.0;
    assert (1.0 / e) * (a * e) == a * ((1.0 / e) * e);
    assert (1.0 / e) * a * e == a;
  }

  /** Every probability a score takes the logarithm of is positive and at most 1. */
  lemma LogArgumentsInRange(coll: Labelled, kind: string, id: TokenID)
    requires OnePerKind(coll) && id in coll
    ensures 0.0 < Fraction(Weight(coll, kind, ValueOf(coll, kind)(id)), Size(coll)) <= 1.0
  {
    hide Weight;
    var value := ValueOf(coll, kind)(id);
    var holders := Fiber(coll.Keys, ValueOf(coll, kind), value);
    WeightIsHolders(coll, kind, value);
    assert id in holders;
    FiberSize(coll.Keys, holders);
    assert |coll.Keys| == |coll|;
    RatioInRange(Weight(coll, kind, value), Size(coll));
  }

  lemma {:induction false} OccursAtLeastOnce(labels: seq<Label>, i: nat)
    requires i < |labels|
    ensures Occurrences(labels, labels[i]) >= 1
    decreases |labels|
  {
    if i < |labels| - 1 {
      OccursAtLeastOnce(labels[..|labels| - 1], i);
    }
  }

  /** So is every probability the entropy takes the logarithm of: of each value, and of lacking the trait if not 0. */
  lemma EntropyArgumentsInRange(coll: Labelled, kind: string, v: string)
    requires OnePerKind(coll) && |coll| > 0
    ensures v in Values(coll, kind) ==> 0.0 < Fraction(Number(coll, Label(kind, v)), Size(coll)) <= 1.0
    ensures 0.0 <= Fraction(Size(coll) - KindNumber(coll, kind), Size(coll)) <= 1.0
  {
    if v in Values(coll, kind) {
      var id, i :| id in coll && 0 <= i < |coll[id]| && coll[id][i] == Label(kind, v);
      OccursAtLeastOnce(coll[id], i);
      SingleOccurrence(coll[id], kind, v);
      LogArgumentsInRange(coll, kind, id);
    }
    LackingIsComplement(coll, kind);
    hide KindNumber;
    FiberSize(coll.Keys, Fiber(coll.Keys, ValueOf(coll, kind), None));
    assert |coll.Keys| == |coll|;
    ShareInRange(Holders(coll, kind, None) as real, Size(coll));
  }

  lemma ShareInRange(a: real, b: real)
    requires 0.0 <= a <= b && b != 0.0
    ensures 0.0 <= Fraction(a, b) <= 1.0
  {
  }

  lemma RatioInRange(a: real, b: real)
    requires 0.0 < a <= b
    ensures 0.0 < Fraction(a, b) <= 1.0
  {
  }

  lemma {:induction false} FiberSize<T>(s: set<T>, part: set<T>)
    requires part <= s
    ensures |part| <= |s|
    decreases |part|
  {
    if part != {} {
      var x :| x in part;
      FiberSize(s - {x}, part - {x});
    }
  }

  // ---- The computation.

  /** The tokens of a collection with their attributes. */
  type Collection = map<TokenID, seq<Attribute>>

  ghost function LabelAll(coll: Collection, bucket: nat -> string): Labelled {
    map id | id in coll :: Labels(coll[id], bucket)
  }

  function Lookup<K, V>(m: map<K, V>, k: K): Option<V> {
    if k in m then Some(m[k]) else None
  }

  /** Reading a missing entry of a map of numbers gives zero. */
  function Read<K>(m: map<K, real>, k: K): real {
    if k in m then m[k] else 0.0
  }

  function ReadTwice(m: map<string, map<string, real>>, kind: string, v: string): real {
    if kind in m then Read(m[kind], v) else 0.0
  }

  ghost predicate Counted(seen: Labelled, counts: map<string, real>) {
    && counts.Keys == Kinds(seen)
    && forall kind :: Read(counts, kind) == KindNumber(seen, kind)
  }

  ghost predicate Distributed(seen: Labelled, distributions: map<string, map<string, real>>) {
    && distributions.Keys == Kinds(seen)
    && (forall kind :: kind in distributions ==> distributions[kind].Keys == Values(seen, kind))
    && (forall kind, v :: ReadTwice(distributions, kind, v) == Number(seen, Label(kind, v)))
  }

  ghost predicate Attributed(seen: Labelled, attributes: map<TokenID, map<string, string>>) {
    && attributes.Keys == seen.Keys
    && forall id, kind :: id in seen ==> Lookup(attributes[id], kind) == LastValue(seen[id], kind)
  }

  /** The three maps agree with the labels counted so far. */
  ghost predicate Tallied(seen: Labelled, distributions: map<string, map<string, real>>, counts: map<string, real>,
                          attributes: map<TokenID, map<string, string>>) {
    Counted(seen, counts) && Distributed(seen, distributions) && Attributed(seen, attributes)
  }

  /** A token without attributes counts for nothing yet. */
  lemma CountsOfNewToken(seen: Labelled, id: TokenID, l: Label, kind: string)
    requires id !in seen
    ensures Number(seen[id := []], l) == Number(seen, l)
    ensures KindNumber(seen[id := []], kind) == KindNumber(seen, kind)
    ensures Kinds(seen[id := []]) == Kinds(seen)
    ensures Values(seen[id := []], kind) == Values(seen, kind)
  {
    CountsOfChange(seen, seen[id := []], id, l, kind);
  }

  /** Changing the labels of one token changes the counts by what is counted there. */
  lemma CountsOfChange(seen: Labelled, next: Labelled, id: TokenID, l: Label, kind: string)
    requires id in next && next == seen[id := next[id]]
    ensures Number(next, l) ==
            Number(seen, l) - Occurrences(LabelsOf(seen, id), l) as real + Occurrences(next[id], l) as real
    ensures KindNumber(next, kind) ==
            KindNumber(seen, kind) - KindOccurrences(LabelsOf(seen, id), kind) as real
            + KindOccurrences(next[id], kind) as real
  {
    hide Occurrences, KindOccurrences, SumOver;
    NothingOccurs(l, kind);
    SumChange(seen.Keys, next.Keys, id, x => Occurrences(LabelsOf(seen, x), l) as real,
              x => Occurrences(LabelsOf(next, x), l) as real);
    SumChange(seen.Keys, next.Keys, id, x => KindOccurrences(LabelsOf(seen, x), kind) as real,
              x => KindOccurrences(LabelsOf(next, x), kind) as real);
  }

  lemma NothingOccurs(l: Label, kind: string)
    ensures Occurrences([], l) == 0 && KindOccurrences([], kind) == 0
  {
  }

  lemma SumChange<T(!new)>(s: set<T>, t: set<T>, a: T, f: T -> real, g: T -> real)
    requires t == s + {a}
    requires a !in s ==> f(a) == 0.0
    requires forall x :: x in t && x != a ==> g(x) == f(x)
    ensures SumOver(t, g) == SumOver(s, f) - f(a) + g(a)
  {
    hide SumOver;
    SumRemove(t, g, a);
    assert t - {a} == s - {a};
    SumSame(s - {a}, f, g);
    if a in s {
      SumRemove(s, f, a);
    } else {
      assert s - {a} == s;
    }
  }

  /** One more label on a token. */
  lemma CountsOfNewLabel(seen: Labelled, id: TokenID, added: Label, l: Label, kind: string)
    requires id in seen
    ensures var next := seen[id := seen[id] + [added]];
            && Number(next, l) == Number(seen, l) + Indicator(l == added)
            && KindNumber(next, kind) == KindNumber(seen, kind) + Indicator(kind == added.kind)
            && Kinds(next) == Kinds(seen) + {added.kind}
            && Values(next, kind) == Values(seen, kind) + if kind == added.kind then {added.value} else {}
  {
    var next := seen[id := seen[id] + [added]];
    assert next[id][..|seen[id]|] == seen[id];
    CountsOfChange(seen, next, id, l, kind);
    LabelsGrow(seen, next, id, added, kind);
  }

  lemma LabelsGrow(seen: Labelled, next: Labelled, id: TokenID, added: Label, kind: string)
    requires id in seen && next == seen[id := seen[id] + [added]]
    ensures Kinds(next) == Kinds(seen) + {added.kind}
    ensures Values(next, kind) == Values(seen, kind) + if kind == added.kind then {added.value} else {}
  {
    assert next[id][|seen[id]|] == added;
    forall x, i | x in seen && 0 <= i < |seen[x]|
      ensures x in next && i < |next[x]| && next[x][i] == seen[x][i]
    {
    }
  }

  // ---- The counts, in terms of the attributes as they are.

  /** The value of an attribute as it is counted: its text, or the bucket of what is not text. */
  predicate Reads(attr: Attribute, bucket: nat -> string, v: string) {
    match attr.value case Text(s) => v == s case Other(x) => v == bucket(x)
  }

  /** Where attributes of a trait type stand. */
  ghost function OfKind(attrs: seq<Attribute>, kind: string): set<nat> {
    set i: nat | i < |attrs| && attrs[i].traitType == kind
  }

  /** Where those with a value do. */
  ghost function Carrying(attrs: seq<Attribute>, bucket: nat -> string, kind: string, v: string): set<nat> {
    set i: nat | i < |attrs| && attrs[i].traitType == kind && Reads(attrs[i], bucket, v)
  }

  ghost function AttributesOf(coll: Collection, id: TokenID): seq<Attribute> {
    if id in coll then coll[id] else []
  }

  /** How many attributes of the collection are of a trait type. */
  ghost function KindTotal(coll: Collection, kind: string): real {
    SumOver(coll.Keys, id => |OfKind(AttributesOf(coll, id), kind)| as real)
  }

  /** How many also have a value. */
  ghost function ValueTotal(coll: Collection, bucket: nat -> string, kind: string, v: string): real {
    SumOver(coll.Keys, id => |Carrying(AttributesOf(coll, id), bucket, kind, v)| as real)
  }

  ghost predicate IsLastOfKind(attrs: seq<Attribute>, kind: string, i: nat) {
    i in OfKind(attrs, kind) && forall j :: j in OfKind(attrs, kind) ==> j <= i
  }

  /** The three maps count the attributes of the collection, and keep each token's last value of a trait type. */
  ghost predicate CountsAttributes(coll: Collection, bucket: nat -> string,
                                   distributions: map<string, map<string, real>>, counts: map<string, real>,
                                   attributes: map<TokenID, map<string, string>>) {
    && (forall kind :: Read(counts, kind) == KindTotal(coll, kind))
    && (forall kind, v :: ReadTwice(distributions, kind, v) == ValueTotal(coll, bucket, kind, v))
    && attributes.Keys == coll.Keys
    && (forall id, kind :: id in coll ==> (kind in attributes[id] <==> OfKind(coll[id], kind) != {}))
    && (forall id, kind, i: nat :: id in coll && IsLastOfKind(coll[id], kind, i) ==>
          kind in attributes[id] && Reads(coll[id][i], bucket, attributes[id][kind]))
  }

  lemma {:induction false} LabelsCountAttributes(attrs: seq<Attribute>, bucket: nat -> string, kind: string, v: string)
    ensures Occurrences(Labels(attrs, bucket), Label(kind, v)) == |Carrying(attrs, bucket, kind, v)|
    ensures KindOccurrences(Labels(attrs, bucket), kind) == |OfKind(attrs, kind)|
    decreases |attrs|
  {
    if attrs != [] {
      var n: nat := |attrs| - 1;
      LabelsCountAttributes(attrs[..n], bucket, kind, v);
      assert Labels(attrs, bucket)[..n] == Labels(attrs[..n], bucket);
      OneMoreAttribute(attrs, bucket, kind, v);
    }
  }

  lemma OneMoreAttribute(attrs: seq<Attribute>, bucket: nat -> string, kind: string, v: string)
    requires attrs != []
    ensures var (n, last) := (|attrs| - 1, attrs[|attrs| - 1]);
            && |OfKind(attrs, kind)| == |OfKind(attrs[..n], kind)| + (if last.traitType == kind then 1 else 0)
            && |Carrying(attrs, bucket, kind, v)| == |Carrying(attrs[..n], bucket, kind, v)| +
               (if last.traitType == kind && Reads(last, bucket, v) then 1 else 0)
  {
    hide Reads;
    var n: nat := |attrs| - 1;
    MorePositions(OfKind(attrs[..n], kind), OfKind(attrs, kind), n, attrs[n].traitType == kind);
    MorePositions(Carrying(attrs[..n], bucket, kind, v), Carrying(attrs, bucket, kind, v), n,
                  attrs[n].traitType == kind && Reads(attrs[n], bucket, v));
  }

  lemma MorePositions(before: set<nat>, after: set<nat>, n: nat, isOne: bool)
    requires n !in before && forall i: nat :: i in after <==> i in before || (isOne && i == n)
    ensures |after| == |before| + if isOne then 1 else 0
  {
    if isOne {
      assert after == before + {n};
    } else {
      assert after == before;
    }
  }

  lemma {:induction false} LastValueIsRead(attrs: seq<Attribute>, bucket: nat -> string, kind: string)
    ensures LastValue(Labels(attrs, bucket), kind).Some? <==> OfKind(attrs, kind) != {}
    ensures forall i: nat :: IsLastOfKind(attrs, kind, i) ==>
              LastValue(Labels(attrs, bucket), kind).Some? &&
              Reads(attrs[i], bucket, LastValue(Labels(attrs, bucket), kind).value)
    decreases |attrs|
  {
    if attrs == [] {
      assert OfKind(attrs, kind) == {};
    } else {
      var n := |attrs| - 1;
      LastValueIsRead(attrs[..n], bucket, kind);
      assert Labels(attrs, bucket)[..n] == Labels(attrs[..n], bucket);
      if attrs[n].traitType == kind {
        assert n in OfKind(attrs, kind);
      } else {
        assert OfKind(attrs, kind) == OfKind(attrs[..n], kind);
      }
    }
  }

  lemma TalliedCountsAttributes(coll: Collection, bucket: nat -> string, distributions: map<string, map<string, real>>,
                                counts: map<string, real>, attributes: map<TokenID, map<string, string>>)
    requires Tallied(LabelAll(coll, bucket), distributions, counts, attributes)
    ensures CountsAttributes(coll, bucket, distributions, counts, attributes)
  {
    hide Labels, Occurrences, KindOccurrences, LastValue, Reads, Carrying, SumOver;
    var labelled := LabelAll(coll, bucket);
    forall kind, v
      ensures Number(labelled, Label(kind, v)) == ValueTotal(coll, bucket, kind, v)
      ensures KindNumber(labelled, kind) == KindTotal(coll, kind)
    {
      TotalsOfLabels(coll, bucket, kind, v);
    }
    forall kind
      ensures Read(counts, kind) == KindTotal(coll, kind)
    {
      TotalsOfLabels(coll, bucket, kind, "");
    }
    forall id, kind | id in coll
      ensures kind in attributes[id] <==> OfKind(coll[id], kind) != {}
      ensures forall i: nat :: IsLastOfKind(coll[id], kind, i) ==>
                kind in attributes[id] && Reads(coll[id][i], bucket, attributes[id][kind])
    {
      LastValueIsRead(coll[id], bucket, kind);
      assert Lookup(attributes[id], kind) == LastValue(labelled[id], kind);
    }
  }

  lemma TotalsOfLabels(coll: Collection, bucket: nat -> string, kind: string, v: string)
    ensures Number(LabelAll(coll, bucket), Label(kind, v)) == ValueTotal(coll, bucket, kind, v)
    ensures KindNumber(LabelAll(coll, bucket), kind) == KindTotal(coll, kind)
  {
    hide Labels, Occurrences, KindOccurrences, SumOver, Carrying, OfKind;
    var labelled := LabelAll(coll, bucket);
    assert labelled.Keys == coll.Keys;
    forall id | id in coll
      ensures Occurrences(LabelsOf(labelled, id), Label(kind, v)) == |Carrying(AttributesOf(coll, id), bucket, kind, v)|
      ensures KindOccurrences(LabelsOf(labelled, id), kind) == |OfKind(AttributesOf(coll, id), kind)|
    {
      LabelsCountAttributes(coll[id], bucket, kind, v);
    }
    SumSame(coll.Keys, id => Occurrences(LabelsOf(labelled, id), Label(kind, v)) as real,
            id => |Carrying(AttributesOf(coll, id), bucket, kind, v)| as real);
    SumSame(coll.Keys, id => KindOccurrences(LabelsOf(labelled, id), kind) as real,
            id => |OfKind(AttributesOf(coll, id), kind)| as real);
  }

  /** The labels are those of the attributes, one by one. */
  ghost predicate IsLabelling(coll: Collection, bucket: nat -> string, labelled: Labelled) {
    && labelled.Keys == coll.Keys
    && forall id :: id in coll ==>
         && |labelled[id]| == |coll[id]|
         && forall i :: 0 <= i < |coll[id]| ==>
              labelled[id][i].kind == coll[id][i].traitType && Reads(coll[id][i], bucket, labelled[id][i].value)
  }

  /** The counting loops, over the tokens in any order. */
  method Tally(coll: Collection, bucket: nat -> string)
    returns (distributions: map<string, map<string, real>>, counts: map<string, real>,
             attributes: map<TokenID, map<string, string>>)
    ensures Tallied(LabelAll(coll, bucket), distributions, counts, attributes)
    ensures CountsAttributes(coll, bucket, distributions, counts, attributes)
  {
    hide Tallied, Labels, Read, CountsAttributes;
    distributions, counts, attributes := map[], map[], map[];
    ghost var seen: Labelled := map[];
    NothingTallied();
    var left := coll.Keys;
    while left != {}
      invariant left <= coll.Keys
      invariant seen.Keys == coll.Keys - left
      invariant forall id :: id in seen ==> seen[id] == Labels(coll[id], bucket)
      invariant Tallied(seen, distributions, counts, attributes)
    {
      var id :| id in left;
      left := left - {id};
      ghost var before := seen;
      TokenTallied(seen, distributions, counts, attributes, id);
      attributes := attributes[id := map[]];
      seen := seen[id := []];
      for i := 0 to |coll[id]|
        invariant id in seen && id in attributes && seen == before[id := Labels(coll[id], bucket)[..i]]
        invariant Tallied(seen, distributions, counts, attributes)
      {
        var attr := coll[id][i];
        ghost var added, earlier := LabelOf(attr, bucket), distributions;
        LabelTallied(seen, distributions, counts, attributes, id, added);
        PrefixOfLabels(coll[id], bucket, i);
        counts := counts[attr.traitType := Read(counts, attr.traitType) + 1.0];
        var val := match attr.value case Text(s) => s case Other(x) => bucket(x);
        attributes := attributes[id := attributes[id][attr.traitType := val]];
        if attr.traitType !in distributions {
          distributions := distributions[attr.traitType := map[]];
        }
        var dist := distributions[attr.traitType];
        distributions := distributions[attr.traitType := dist[val := Read(dist, val) + 1.0]];
        assert distributions == IncrementTwice(earlier, added.kind, added.value);
        seen := seen[id := seen[id] + [added]];
      }
    }
    assert seen == LabelAll(coll, bucket) by {
      assert seen.Keys == coll.Keys;
    }
    TalliedCountsAttributes(coll, bucket, distributions, counts, attributes);
  }

  lemma PrefixOfLabels(attrs: seq<Attribute>, bucket: nat -> string, i: nat)
    requires i < |attrs|
    ensures Labels(attrs, bucket)[..i + 1] == Labels(attrs, bucket)[..i] + [LabelOf(attrs[i], bucket)]
    ensures Labels(attrs, bucket)[..0] == []
  {
  }

  lemma NothingTallied()
    ensures Tallied(map[], map[], map[], map[])
  {
    var none: Labelled := map[];
    assert none.Keys == {};
  }

  lemma TokenTallied(seen: Labelled, distributions: map<string, map<string, real>>, counts: map<string, real>,
                     attributes: map<TokenID, map<string, string>>, id: TokenID)
    requires Tallied(seen, distributions, counts, attributes) && id !in seen
    ensures Tallied(seen[id := []], distributions, counts, attributes[id := map[]])
  {
    hide Number, KindNumber, Kinds, Values;
    forall l: Label
      ensures Number(seen[id := []], l) == Number(seen, l)
    {
      CountsOfNewToken(seen, id, l, l.kind);
    }
    forall kind
      ensures KindNumber(seen[id := []], kind) == KindNumber(seen, kind)
      ensures Values(seen[id := []], kind) == Values(seen, kind)
    {
      CountsOfNewToken(seen, id, Label(kind, ""), kind);
    }
    CountsOfNewToken(seen, id, Label("", ""), "");
  }

  function Increment<K>(m: map<K, real>, k: K): map<K, real> {
    m[k := Read(m, k) + 1.0]
  }

  function IncrementTwice(m: map<string, map<string, real>>, kind: string, v: string): map<string, map<string, real>> {
    m[kind := Increment(if kind in m then m[kind] else map[], v)]
  }

  lemma LabelTallied(seen: Labelled, distributions: map<string, map<string, real>>, counts: map<string, real>,
                     attributes: map<TokenID, map<string, string>>, id: TokenID, l: Label)
    requires Tallied(seen, distributions, counts, attributes) && id in seen
    ensures Tallied(seen[id := seen[id] + [l]], IncrementTwice(distributions, l.kind, l.value), Increment(counts, l.kind),
                    attributes[id := attributes[id][l.kind := l.value]])
  {
    hide Counted, Distributed;
    LabelCounted(seen, counts, id, l);
    LabelDistributed(seen, distributions, id, l);
    forall kind
      ensures LastValue(seen[id] + [l], kind) == if kind == l.kind then Some(l.value) else LastValue(seen[id], kind)
    {
      LastOfAppended(seen[id], l, kind);
    }
  }

  lemma LabelCounted(seen: Labelled, counts: map<string, real>, id: TokenID, l: Label)
    requires Counted(seen, counts) && id in seen
    ensures Counted(seen[id := seen[id] + [l]], Increment(counts, l.kind))
  {
    hide KindNumber, Kinds;
    var next := seen[id := seen[id] + [l]];
    forall kind
      ensures Read(Increment(counts, l.kind), kind) == KindNumber(next, kind)
    {
      CountsOfNewLabel(seen, id, l, l, kind);
    }
    CountsOfNewLabel(seen, id, l, l, l.kind);
    assert Counted(next, Increment(counts, l.kind));
  }

  lemma LabelDistributed(seen: Labelled, distributions: map<string, map<string, real>>, id: TokenID, l: Label)
    requires Distributed(seen, distributions) && id in seen
    ensures Distributed(seen[id := seen[id] + [l]], IncrementTwice(distributions, l.kind, l.value))
  {
    hide Number, Kinds, Values, Indicator;
    var next, after := seen[id := seen[id] + [l]], IncrementTwice(distributions, l.kind, l.value);
    forall kind, v
      ensures ReadTwice(after, kind, v) == Number(next, Label(kind, v))
    {
      CountsOfNewLabel(seen, id, l, Label(kind, v), kind);
      ReadIncremented(distributions, l, kind, v);
    }
    forall kind | kind in after
      ensures after[kind].Keys == Values(next, kind)
    {
      CountsOfNewLabel(seen, id, l, l, kind);
      if kind !in distributions {
        NoValuesOfAbsentKind(seen, kind);
      }
    }
    CountsOfNewLabel(seen, id, l, l, l.kind);
    assert after.Keys == Kinds(next);
    assert Distributed(next, after);
  }

  lemma ReadIncremented(distributions: map<string, map<string, real>>, l: Label, kind: string, v: string)
    ensures ReadTwice(IncrementTwice(distributions, l.kind, l.value), kind, v) ==
            ReadTwice(distributions, kind, v) + Indicator(Label(kind, v) == l)
  {
  }

  lemma LastOfAppended(labels: seq<Label>, l: Label, kind: string)
    ensures LastValue(labels + [l], kind) == if kind == l.kind then Some(l.value) else LastValue(labels, kind)
  {
    assert (labels + [l])[..|labels|] == labels;
  }

  lemma NoValuesOfAbsentKind(seen: Labelled, kind: string)
    requires kind !in Kinds(seen)
    ensures Values(seen, kind) == {}
  {
    forall id, i | id in seen && 0 <= i < |seen[id]|
      ensures seen[id][i].kind in Kinds(seen)
    {
    }
  }

  /** What Collection.Rarity returns. */
  datatype Rarity = Rarity(entropy: real, scores: map<TokenID, real>)

  lemma KindsNeedTokens(coll: Labelled)
    requires Kinds(coll) != {}
    ensures |coll| > 0 && Size(coll) > 0.0
  {
    var kind :| kind in Kinds(coll);
    var id :| id in coll;
    assert |coll.Keys| > 0;
  }

  ghost function EntropySoFar(coll: Labelled, log2: real -> real, done: set<string>): real {
    if |coll| == 0 then 0.0 else SumOver(done, KindEntropies(coll, log2))
  }

  lemma EntropyGrows(coll: Labelled, log2: real -> real, done: set<string>, kind: string)
    requires kind !in done && |coll| > 0
    ensures EntropySoFar(coll, log2, {}) == 0.0
    ensures EntropySoFar(coll, log2, done + {kind}) == EntropySoFar(coll, log2, done) + KindEntropy(coll, log2, kind)
  {
    hide KindEntropy;
    SumInsert(done, KindEntropies(coll, log2), kind);
  }

  /** The inner entropy loop, over the values of a trait in any order. */
  method AddValues(ghost coll: Labelled, collSize: real, log2: real -> real, ghost kind: string,
                   dist: map<string, real>, start: real)
    returns (entropy: real)
    requires |coll| > 0 && collSize == Size(coll)
    requires forall v :: v in dist ==> dist[v] == Number(coll, Label(kind, v))
    ensures entropy == start + SumOver(dist.Keys, ValueTerms(coll, log2, kind))
  {
    hide Number, Term, Fraction, SumOver;
    entropy := start;
    var left := dist.Keys;
    ghost var terms := ValueTerms(coll, log2, kind);
    assert left - left == {};
    SumZero({}, terms);
    while left != {}
      invariant left <= dist.Keys
      invariant entropy == start + SumOver(dist.Keys - left, terms)
    {
      var v :| v in left;
      ghost var done := dist.Keys - left;
      SumInsert(done, terms, v);
      left := left - {v};
      assert dist.Keys - left == done + {v};
      var p := Fraction(dist[v], collSize);
      entropy := entropy + Term(log2, p);
    }
    assert dist.Keys - left == dist.Keys;
  }

  /** The outer entropy loop, over the traits in any order. */
  method SumEntropy(ghost coll: Labelled, collSize: real, log2: real -> real,
                    distributions: map<string, map<string, real>>, counts: map<string, real>)
    returns (entropy: real)
    requires Counted(coll, counts) && Distributed(coll, distributions) && collSize == Size(coll)
    ensures entropy == Entropy(coll, log2)
  {
    hide Kinds, Values, Number, KindNumber, Term, EntropySoFar, KindEntropies, ValueTerms, Size, Fraction, SumOver;
    entropy := 0.0;
    var left := distributions.Keys;
    EntropyOfNone(coll, log2);
    assert left - left == {};
    while left != {}
      invariant left <= distributions.Keys
      invariant entropy == EntropySoFar(coll, log2, distributions.Keys - left)
    {
      KindsNeedTokens(coll);
      var attr :| attr in left;
      ghost var done := distributions.Keys - left;
      var dist := distributions[attr];
      forall v | v in dist
        ensures dist[v] == Number(coll, Label(attr, v))
      {
        assert dist[v] == ReadTwice(distributions, attr, v);
      }
      entropy := AddValues(coll, collSize, log2, attr, dist, entropy);
      assert counts[attr] == Read(counts, attr);
      var p := Fraction(collSize - counts[attr], collSize);
      if p != 0.0 {
        entropy := entropy + Term(log2, p);
      }
      EntropyGrows(coll, log2, done, attr);
      left := left - {attr};
      assert distributions.Keys - left == done + {attr};
    }
    assert distributions.Keys - left == Kinds(coll);
  }

  lemma EntropyOfNone(coll: Labelled, log2: real -> real)
    ensures EntropySoFar(coll, log2, {}) == 0.0
    ensures EntropySoFar(coll, log2, Kinds(coll)) == Entropy(coll, log2)
  {
  }

  /** The inner scoring loop, over the traits in any order: an entry appears with the first trait. */
  method AddScore(ghost coll: Labelled, collSize: real, log2: real -> real, id: TokenID,
                  distributions: map<string, map<string, real>>, counts: map<string, real>,
                  attributes: map<TokenID, map<string, string>>, before: map<TokenID, real>)
    returns (scores: map<TokenID, real>)
    requires |coll| > 0 && collSize == Size(coll) && id in coll && id !in before
    requires Tallied(coll, distributions, counts, attributes)
    ensures scores == if counts == map[] then before else before[id := RawScore(coll, log2, id)]
  {
    hide Kinds, Fraction, SumOver, InformationOf, Tallied;
    scores := before;
    var left := counts.Keys;
    ghost var terms := InformationOf(coll, log2, id);
    assert left - left == {};
    SumZero({}, terms);
    while left != {}
      invariant left <= counts.Keys
      invariant scores == if left == counts.Keys then before else before[id := SumOver(counts.Keys - left, terms)]
    {
      var attr :| attr in left;
      ghost var done := counts.Keys - left;
      SumInsert(done, terms, attr);
      KindsTallied(coll, distributions, counts, attributes, id, attr, log2);
      var n;
      if attr in attributes[id] {
        n := distributions[attr][attributes[id][attr]];
      } else {
        n := collSize - counts[attr];
      }
      left := left - {attr};
      assert counts.Keys - left == done + {attr};
      scores := scores[id := Read(scores, id) + -log2(Fraction(n, collSize))];
    }
    assert counts.Keys - left == counts.Keys;
    TalliedParts(coll, distributions, counts, attributes);
  }

  lemma TalliedParts(coll: Labelled, distributions: map<string, map<string, real>>, counts: map<string, real>,
                    attributes: map<TokenID, map<string, string>>)
    requires Tallied(coll, distributions, counts, attributes)
    ensures Counted(coll, counts) && Distributed(coll, distributions) && counts.Keys == Kinds(coll)
  {
  }

  /** What the maps hold for a token and a trait is the weight that its score uses. */
  lemma KindsTallied(coll: Labelled, distributions: map<string, map<string, real>>, counts: map<string, real>,
                     attributes: map<TokenID, map<string, string>>, id: TokenID, kind: string, log2: real -> real)
    requires Tallied(coll, distributions, counts, attributes) && id in coll && kind in counts && |coll| > 0
    ensures id in attributes && kind in distributions
    ensures kind in attributes[id] ==> attributes[id][kind] in distributions[kind]
    ensures var n := if kind in attributes[id] then distributions[kind][attributes[id][kind]]
                     else Size(coll) - counts[kind];
            InformationOf(coll, log2, id)(kind) == -log2(Fraction(n, Size(coll)))
  {
    hide Number, KindNumber, Kinds, Fraction;
    assert Lookup(attributes[id], kind) == LastValue(coll[id], kind);
    if kind in attributes[id] {
      var v := attributes[id][kind];
      ValueIsAnOption(coll, kind, id);
      assert v in Values(coll, kind);
      assert distributions[kind][v] == ReadTwice(distributions, kind, v);
    } else {
      assert counts[kind] == Read(counts, kind);
    }
  }

  /** The scores of all tokens; a collection without any trait has none. */
  method SumScores(coll: Collection, ghost labelled: Labelled, collSize: real, log2: real -> real,
                   distributions: map<string, map<string, real>>, counts: map<string, real>,
                   attributes: map<TokenID, map<string, string>>)
    returns (scores: map<TokenID, real>)
    requires collSize == Size(labelled) && coll.Keys == labelled.Keys
    requires Tallied(labelled, distributions, counts, attributes)
    ensures scores.Keys == if Kinds(labelled) == {} then {} else labelled.Keys
    ensures forall id :: id in scores ==> |labelled| > 0 && scores[id] == RawScore(labelled, log2, id)
  {
    hide Kinds, Tallied, RawScore;
    scores := map[];
    var left := coll.Keys;
    TalliedParts(labelled, distributions, counts, attributes);
    while left != {}
      invariant left <= coll.Keys
      invariant scores.Keys == if Kinds(labelled) == {} then {} else coll.Keys - left
      invariant forall id :: id in scores ==> |labelled| > 0 && scores[id] == RawScore(labelled, log2, id)
    {
      var id :| id in left;
      assert id in labelled && |labelled.Keys| > 0;
      scores := AddScore(labelled, collSize, log2, id, distributions, counts, attributes, scores);
      left := left - {id};
    }
  }

  function Scaled(score: real, entropy: real): real {
    if entropy > 0.0 then score / entropy else score
  }

  /** The last loop divides every score by a positive entropy. */
  method Normalise(raw: map<TokenID, real>, entropy: real) returns (scores: map<TokenID, real>)
    ensures scores.Keys == raw.Keys
    ensures forall id :: id in raw ==> scores[id] == Scaled(raw[id], entropy)
  {
    scores := raw;
    if entropy > 0.0 {
      var left := scores.Keys;
      while left != {}
        invariant left <= raw.Keys && scores.Keys == raw.Keys
        invariant forall id :: id in raw ==> scores[id] == if id in left then raw[id] else Scaled(raw[id], entropy)
      {
        var id :| id in left;
        left := left - {id};
        scores := scores[id := scores[id] / entropy];
      }
    }
  }

  ghost function TotalScore(scores: map<TokenID, real>): real {
    SumOver(scores.Keys, id => Read(scores, id))
  }

  /**
   Collection.Rarity: entropy and scores are those of the labels, scores scaled when the entropy is positive.
   With at most one attribute per trait type the scores then average exactly 1.
   */
  method ComputeRarity(coll: Collection, bucket: nat -> string, log2: real -> real) returns (rarity: Rarity)
    ensures IsLabelling(coll, bucket, LabelAll(coll, bucket))
    ensures rarity.entropy == Entropy(LabelAll(coll, bucket), log2)
    ensures rarity.scores.Keys == if Kinds(LabelAll(coll, bucket)) == {} then {} else coll.Keys
    ensures forall id :: id in rarity.scores ==>
              |LabelAll(coll, bucket)| > 0 &&
              rarity.scores[id] == Scaled(RawScore(LabelAll(coll, bucket), log2, id), rarity.entropy)
    ensures OnePerKind(LabelAll(coll, bucket)) && rarity.entropy > 0.0 ==> TotalScore(rarity.scores) == |coll| as real
  {
    hide Kinds, Tallied, RawScore, Entropy, Scaled, OnePerKind, TotalScore, CountsAttributes;
    ghost var labelled := LabelAll(coll, bucket);
    assert labelled.Keys == coll.Keys;
    assert |labelled.Keys| == |labelled| && |coll.Keys| == |coll|;
    var distributions, counts, attributes := Tally(coll, bucket);
    TalliedParts(labelled, distributions, counts, attributes);
    var collSize := |coll| as real;
    var entropy := SumEntropy(labelled, collSize, log2, distributions, counts);
    var scores := SumScores(coll, labelled, collSize, log2, distributions, counts, attributes);
    scores := Normalise(scores, entropy);
    if OnePerKind(labelled) && entropy > 0.0 {
      TotalIsSize(labelled, log2, scores);
    }
    rarity := Rarity(entropy, scores);
  }

  lemma TotalIsSize(coll: Labelled, log2: real -> real, scores: map<TokenID, real>)
    requires OnePerKind(coll) && Entropy(coll, log2) > 0.0
    requires scores.Keys == if Kinds(coll) == {} then {} else coll.Keys
    requires forall id :: id in scores ==>
               |coll| > 0 && scores[id] == Scaled(RawScore(coll, log2, id), Entropy(coll, log2))
    ensures TotalScore(scores) == Size(coll)
  {
    hide RawScore, SumOver, Entropy, Kinds;
    EntropyNeedsKinds(coll, log2);
    AverageScoreIsOne(coll, log2, id => Read(scores, id));
  }

  lemma EntropyNeedsKinds(coll: Labelled, log2: real -> real)
    requires Entropy(coll, log2) > 0.0
    ensures |coll| > 0 && Kinds(coll) != {}
  {
  }

  // ---- With a repeated trait type.

  /** Four tokens; the first carries a trait twice, the others do not carry it. */
  ghost function Bare(): Labelled {
    map[TokenID(0) := [], TokenID(1) := [], TokenID(2) := [], TokenID(3) := []]
  }

  ghost function Red(): Labelled {
    Bare()[TokenID(0) := Bare()[TokenID(0)] + [Label("fur", "red")]]
  }

  ghost function RedAndBlue(): Labelled {
    Red()[TokenID(0) := Red()[TokenID(0)] + [Label("fur", "blue")]]
  }

  /**
   Without the restriction to one attribute per trait type the average is not 1: the first token is charged for its
   second value alone, so these scores add up to 5 although the size times the entropy is 6.
   */
  lemma RepeatedTraitBreaksTheAverage(log2: real -> real)
    requires log2(0.25) == -2.0 && log2(0.5) == -1.0
    ensures |RedAndBlue()| == 4 && Entropy(RedAndBlue(), log2) == 1.5
    ensures SumOver(RedAndBlue().Keys, RawScores(RedAndBlue(), log2)) == 5.0
  {
    hide RawScore, KindEntropy, Kinds, SumOver;
    SizeOfExample();
    CountsOfExample(Label("fur", "red"));
    SumOfOne("fur", KindEntropies(RedAndBlue(), log2));
    EntropyOfExample(log2);
    ScoreOfExample(TokenID(0), log2);
    ScoreOfExample(TokenID(1), log2);
    ScoreOfExample(TokenID(2), log2);
    ScoreOfExample(TokenID(3), log2);
    SumOfFour(RawScores(RedAndBlue(), log2));
  }

  lemma SizeOfExample()
    ensures |RedAndBlue()| == 4 && RedAndBlue().Keys == {TokenID(0), TokenID(1), TokenID(2), TokenID(3)}
  {
    assert RedAndBlue().Keys == {TokenID(0), TokenID(1), TokenID(2), TokenID(3)};
    assert |RedAndBlue().Keys| == 4;
  }

  lemma SumOfFour(f: TokenID -> real)
    ensures SumOver({TokenID(0), TokenID(1), TokenID(2), TokenID(3)}, f) ==
            f(TokenID(0)) + f(TokenID(1)) + f(TokenID(2)) + f(TokenID(3))
  {
    hide SumOver;
    SumOfTwo(TokenID(0), TokenID(1), f);
    assert {TokenID(0), TokenID(1)} + {TokenID(2)} == {TokenID(0), TokenID(1), TokenID(2)};
    SumInsert({TokenID(0), TokenID(1)}, f, TokenID(2));
    assert {TokenID(0), TokenID(1), TokenID(2)} + {TokenID(3)} == {TokenID(0), TokenID(1), TokenID(2), TokenID(3)};
    SumInsert({TokenID(0), TokenID(1), TokenID(2)}, f, TokenID(3));
  }

  lemma NothingIsBare(l: Label)
    ensures Number(Bare(), l) == 0.0 && KindNumber(Bare(), l.kind) == 0.0
    ensures Kinds(Bare()) == {} && Values(Bare(), l.kind) == {}
  {
    SumZero(Bare().Keys, id => Occurrences(LabelsOf(Bare(), id), l) as real);
    SumZero(Bare().Keys, id => KindOccurrences(LabelsOf(Bare(), id), l.kind) as real);
  }

  lemma CountsOfExample(l: Label)
    ensures Kinds(RedAndBlue()) == {"fur"}
    ensures l.kind == "fur" ==> KindNumber(RedAndBlue(), l.kind) == 2.0 && Values(RedAndBlue(), l.kind) == {"red", "blue"}
    ensures l in {Label("fur", "red"), Label("fur", "blue")} ==> Number(RedAndBlue(), l) == 1.0
  {
    hide Number, KindNumber, Kinds, Values, Bare;
    NothingIsBare(l);
    BareTokens();
    CountsOfNewLabel(Bare(), TokenID(0), Label("fur", "red"), l, l.kind);
    CountsOfNewLabel(Red(), TokenID(0), Label("fur", "blue"), l, l.kind);
  }

  lemma BareTokens()
    ensures TokenID(0) in Bare() && Bare()[TokenID(0)] == []
  {
  }

  lemma EntropyOfExample(log2: real -> real)
    requires log2(0.25) == -2.0 && log2(0.5) == -1.0
    ensures |RedAndBlue()| == 4
    ensures KindEntropy(RedAndBlue(), log2, "fur") == 1.5
  {
    hide Number, KindNumber, Kinds, Values, RedAndBlue, SumOver;
    SizeOfExample();
    CountsOfExample(Label("fur", "red"));
    CountsOfExample(Label("fur", "blue"));
    SumOfTwo("red", "blue", ValueTerms(RedAndBlue(), log2, "fur"));
  }

  lemma ScoreOfExample(id: TokenID, log2: real -> real)
    requires id in RedAndBlue() && log2(0.25) == -2.0 && log2(0.5) == -1.0
    ensures |RedAndBlue()| == 4
    ensures RawScore(RedAndBlue(), log2, id) == if id == TokenID(0) then 2.0 else 1.0
  {
    var value := LastValue(RedAndBlue()[id], "fur");
    assert value == if id == TokenID(0) then Some("blue") else None by {
      LastOfAppended(Red()[TokenID(0)], Label("fur", "blue"), "fur");
    }
    hide Number, KindNumber, Kinds, RedAndBlue, SumOver, LastValue;
    SizeOfExample();
    CountsOfExample(Label("fur", "blue"));
    SumOfOne("fur", InformationOf(RedAndBlue(), log2, id));
  }

  lemma SumOfTwo<T(!new)>(x: T, y: T, f: T -> real)
    requires x != y
    ensures SumOver({x, y}, f) == f(x) + f(y)
  {
    SumOfOne(x, f);
    SumInsert({x}, f, y);
    assert {x} + {y} == {x, y};
  }

  lemma SumOfOne<T(!new)>(x: T, f: T -> real)
    ensures SumOver({x}, f) == f(x)
  {
    SumInsert({}, f, x);
    assert {} + {x} == {x};
  }
}
