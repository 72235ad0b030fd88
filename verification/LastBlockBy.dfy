/** go/eth/eth.go: binary search for the last block mined by a given time, in 64-bit arithmetic. */
module LastBlockBy {
  import opened Bits
  import opened Results

  const TWO_TO_THE_63: nat := 0x8000_0000_0000_0000
  const TWO_TO_THE_64: nat := 0x1_0000_0000_0000_0000

  type uint64 = x: nat | x < TWO_TO_THE_64

  /** The conversion int(x) of a uint64. */
  function ToInt(x: uint64): int {
    if x < TWO_TO_THE_63 then x else x - TWO_TO_THE_64
  }

  /** An int sum, wrapped around. */
  function Wrap(x: int): int {
    (x + TWO_TO_THE_63) % TWO_TO_THE_64 - TWO_TO_THE_63
  }

  datatype Block = Block(number: uint64, time: uint64)
  datatype BlockRange = BlockRange(first: uint64, last: uint64)

  datatype Error =
    | BlockNumberFailed
    | TooLargeForSearch(curr: uint64)
    | FetchFailed(num: int)
    | BlockNotFound
    | BrokenInvariant

  /** The node's answers during the call: by block number, or an error. */
  type Fetch = int -> Option<Block>

  /** No block has a negative number. */
  ghost predicate NoneNegative(fetch: Fetch) {
    forall num :: num < 0 ==> fetch(num).None?
  }

  /** Every block of the range can be fetched under its number, and times strictly increase. */
  ghost predicate IsChain(fetch: Fetch, first: int, last: int) {
    && (forall num :: first <= num <= last ==> fetch(num).Some? && fetch(num).value.number == num)
    && (forall m, n :: first <= m < n <= last ==> TimeOf(fetch, m) < TimeOf(fetch, n))
  }

  /** The same, with times that may stay equal. */
  ghost predicate IsLaxChain(fetch: Fetch, first: int, last: int) {
    && (forall num :: first <= num <= last ==> fetch(num).Some? && fetch(num).value.number == num)
    && (forall m, n :: first <= m < n <= last ==> TimeOf(fetch, m) <= TimeOf(fetch, n))
  }

  ghost function TimeOf(fetch: Fetch, num: int): nat {
    if fetch(num).Some? then fetch(num).value.time else 0
  }

  /** b is the last block of the range mined by the given time. */
  ghost predicate IsLastBy(fetch: Fetch, first: int, last: int, minedBy: nat, b: Block) {
    && first <= b.number <= last && fetch(b.number) == Some(b) && b.time <= minedBy
    && forall num :: b.number < num <= last ==> TimeOf(fetch, num) > minedBy
  }

  ghost predicate NoneBy(fetch: Fetch, first: int, last: int, minedBy: nat) {
    forall num :: first <= num <= last ==> TimeOf(fetch, num) > minedBy
  }

  /** int(last - first + 1), with the uint64 subtraction and addition wrapping. */
  function SearchLength(first: uint64, last: uint64): int {
    ToInt((last - first + 1) % TWO_TO_THE_64)
  }

  /** The conversion is exact if and only if the length of the range fits in an int, whatever its ends. */
  lemma SearchLengthExact(first: uint64, last: uint64)
    ensures SearchLength(first, last) == last - first + 1 <==>
            first - last - 1 <= TWO_TO_THE_63 && last - first + 1 < TWO_TO_THE_63
  {
    if last - first + 1 < 0 {
      assert (last - first + 1) % TWO_TO_THE_64 == last - first + 1 + TWO_TO_THE_64;
    }
  }

  /** A range too long for an int is taken for an empty one. */
  lemma TooLongIsEmpty(first: uint64, last: uint64)
    requires last - first + 1 >= TWO_TO_THE_63
    ensures SearchLength(first, last) <= 0
  {
  }

  // One past the last int wraps around, but the block before it is still the right one.
  lemma WrapOrLast(x: nat)
    requires 0 < x <= TWO_TO_THE_63
    ensures (Wrap(x) - 1) % TWO_TO_THE_64 == x - 1
  {
  }

  lemma WrapIsExact(x: int)
    requires 0 <= x + TWO_TO_THE_63 < TWO_TO_THE_64
    ensures Wrap(x) == x
  {
  }

  lemma {:induction false} BitLengthMonotone(a: nat, b: nat)
    requires a <= b
    ensures BitLength(a) <= BitLength(b)
  {
    if a > 0 {
      BitLengthMonotone(a / 2, b / 2);
    }
  }

  /** Either half left by one probe takes one probe less. */
  lemma HalvesAreShorter(i: nat, j: nat)
    requires i < j
    ensures var h := (i + j) / 2;
            i <= h < j && BitLength(h - i) + 1 <= BitLength(j - i) && BitLength(j - h - 1) + 1 <= BitLength(j - i)
  {
    var h := (i + j) / 2;
    BitLengthMonotone(h - i, (j - i) / 2);
    BitLengthMonotone(j - h - 1, (j - i) / 2);
  }

  // ---- Which blocks the search looks at.

  /** The block at an index of the range, as the closure computes its number. */
  ghost function At(fetch: Fetch, first: uint64, p: int): Option<Block> {
    fetch(Wrap(p + ToInt(first)))
  }

  ghost function TimeAt(fetch: Fetch, first: uint64, p: int): nat {
    match At(fetch, first, p) case Some(b) => b.time case None => 0
  }

  /** The first m blocks of the range are there, in order of time, and no others are. */
  ghost predicate IsOrdered(fetch: Fetch, first: uint64, n: int, m: int) {
    && 0 <= m <= n
    && (forall p :: 0 <= p < m ==> At(fetch, first, p).Some? && At(fetch, first, p).value.number == first + p)
    && (forall p, o :: 0 <= p < o < m ==> TimeAt(fetch, first, p) <= TimeAt(fetch, first, o))
    && (forall p :: m <= p < n ==> At(fetch, first, p).None?)
  }

  /** The index of the last of m blocks mined by the time, or -1. */
  ghost function LastMined(fetch: Fetch, first: uint64, m: int, minedBy: nat): (l: int)
    requires m >= 0
    ensures -1 <= l < m
    decreases m
  {
    if m == 0 then -1
    else if TimeAt(fetch, first, m - 1) <= minedBy then m - 1
    else LastMined(fetch, first, m - 1, minedBy)
  }

  lemma {:induction false} LastMinedSplits(fetch: Fetch, first: uint64, n: int, m: int, k: int, minedBy: nat)
    requires IsOrdered(fetch, first, n, m) && 0 <= k <= m
    ensures forall p :: 0 <= p < k ==>
              (TimeAt(fetch, first, p) <= minedBy <==> p <= LastMined(fetch, first, k, minedBy))
    decreases k
  {
    if k > 0 {
      LastMinedSplits(fetch, first, n, m, k - 1, minedBy);
    }
  }

  /** Whether binary search of [i, j) looks at p when everything up to l is mined in time and nothing after it. */
  predicate IsProbed(i: int, j: int, l: int, p: int)
    decreases j - i
  {
    i < j &&
    var h := i + (j - i) / 2;
    p == h || if h <= l then IsProbed(h + 1, j, l, p) else IsProbed(i, h, l, p)
  }

  /** Of four blocks, the third is looked at first: then the fourth if that is mined in time, else the earlier ones. */
  lemma ProbesOfFour(p: int)
    ensures IsProbed(0, 4, 3, p) <==> p == 2 || p == 3
    ensures IsProbed(0, 4, -1, p) <==> 0 <= p <= 2
    ensures IsProbed(0, 4, 0, p) <==> 0 <= p <= 2
  {
    assert IsProbed(3, 4, 3, p) <==> p == 3;
    assert IsProbed(0, 2, -1, p) <==> p == 1 || p == 0 by {
      assert IsProbed(0, 1, -1, p) <==> p == 0;
    }
    assert IsProbed(0, 2, 0, p) <==> p == 1 || p == 0 by {
      assert IsProbed(0, 1, 0, p) <==> p == 0;
    }
  }

  lemma {:induction false} ProbesAreInside(i: int, j: int, l: int, p: int)
    requires IsProbed(i, j, l, p)
    ensures i <= p < j
    decreases j - i
  {
    var h := i + (j - i) / 2;
    if p != h {
      if h <= l {
        ProbesAreInside(h + 1, j, l, p);
      } else {
        ProbesAreInside(i, h, l, p);
      }
    }
  }

  /** The search looks for a block that is not there. */
  ghost predicate Overruns(n: int, m: int, l: int) {
    exists p :: m <= p < n && IsProbed(0, n, l, p)
  }

  /** Before the last block mined in time, the search looks at one with the same time. */
  ghost predicate Ties(fetch: Fetch, first: uint64, n: int, l: int) {
    exists p :: 0 <= p < l && IsProbed(0, n, l, p) && TimeAt(fetch, first, p) == TimeAt(fetch, first, l)
  }

  /** What the search knows: the probes so far, all of blocks that are there, and the block kept of those mined. */
  ghost predicate Knows(fetch: Fetch, first: uint64, n: int, m: int, l: int, i: int, j: int, result: Option<Block>,
                        sofar: set<int>) {
    && 0 <= i <= l + 1 <= j <= n
    && (forall p :: IsProbed(0, n, l, p) <==> p in sofar || IsProbed(i, j, l, p))
    && (forall p :: p in sofar ==> 0 <= p < m && (p < i || j <= p))
    && (result.None? <==> i == 0)
    && (i > 0 ==> (i - 1) in sofar && exists r :: IsKept(fetch, first, i, result, sofar, r))
  }

  /** The block kept is at index r: the only one of its time that was looked at, or the first of them. */
  ghost predicate IsKept(fetch: Fetch, first: uint64, i: int, result: Option<Block>, sofar: set<int>, r: int) {
    && r in sofar && 0 <= r < i && result == At(fetch, first, r)
    && TimeAt(fetch, first, r) == TimeAt(fetch, first, i - 1)
    && (r < i - 1 <==> exists p :: p in sofar && p < i - 1 && TimeAt(fetch, first, p) == TimeAt(fetch, first, i - 1))
  }

  lemma KnowsMined(fetch: Fetch, first: uint64, n: int, m: int, l: int, i: int, j: int, result: Option<Block>,
                   sofar: set<int>, h: int, next: Option<Block>)
    requires IsOrdered(fetch, first, n, m) && Knows(fetch, first, n, m, l, i, j, result, sofar)
    requires i < j && h == i + (j - i) / 2 && h <= l < m
    requires next == if result.None? || result.value.time < TimeAt(fetch, first, h) then At(fetch, first, h) else result
    ensures Knows(fetch, first, n, m, l, h + 1, j, next, sofar + {h})
  {
    hide IsProbed;
    ProbedNext(i, j, l);
    if i > 0 {
      var r :| IsKept(fetch, first, i, result, sofar, r);
      assert TimeAt(fetch, first, i - 1) <= TimeAt(fetch, first, h);
      assert result.value.time == TimeAt(fetch, first, r);
      if TimeAt(fetch, first, i - 1) == TimeAt(fetch, first, h) {
        assert IsKept(fetch, first, h + 1, next, sofar + {h}, r);
      } else {
        NoEarlierTie(fetch, first, n, m, i, h, sofar);
        assert IsKept(fetch, first, h + 1, next, sofar + {h}, h);
      }
    } else {
      assert IsKept(fetch, first, h + 1, next, sofar + {h}, h);
    }
  }

  lemma NoEarlierTie(fetch: Fetch, first: uint64, n: int, m: int, i: int, h: int, sofar: set<int>)
    requires IsOrdered(fetch, first, n, m) && 0 < i <= h < m
    requires TimeAt(fetch, first, i - 1) < TimeAt(fetch, first, h)
    requires forall p :: p in sofar ==> 0 <= p < m && (p < i || p > h)
    ensures forall p :: p in sofar && p < h ==> TimeAt(fetch, first, p) < TimeAt(fetch, first, h)
  {
    forall p | p in sofar && p < h
      ensures TimeAt(fetch, first, p) < TimeAt(fetch, first, h)
    {
      assert p < i - 1 ==> TimeAt(fetch, first, p) <= TimeAt(fetch, first, i - 1);
    }
  }

  lemma ProbedNext(i: int, j: int, l: int)
    requires i < j
    ensures var h := i + (j - i) / 2;
            forall p :: IsProbed(i, j, l, p) <==>
                        p == h || if h <= l then IsProbed(h + 1, j, l, p) else IsProbed(i, h, l, p)
  {
  }

  lemma KnowsLate(fetch: Fetch, first: uint64, n: int, m: int, l: int, i: int, j: int, result: Option<Block>,
                  sofar: set<int>, h: int)
    requires Knows(fetch, first, n, m, l, i, j, result, sofar)
    requires i < j && h == i + (j - i) / 2 && l < h < m
    ensures Knows(fetch, first, n, m, l, i, h, result, sofar + {h})
  {
    hide IsProbed;
    ProbedNext(i, j, l);
    if i > 0 {
      var r :| IsKept(fetch, first, i, result, sofar, r);
      assert IsKept(fetch, first, i, result, sofar + {h}, r);
    }
  }

  lemma NothingLeft(i: int, j: int, l: int)
    requires i >= j
    ensures forall p :: !IsProbed(i, j, l, p)
  {
  }

  /** When the search is over, what it kept is the last block exactly when there was no tie. */
  lemma KnowsAll(fetch: Fetch, first: uint64, n: int, m: int, l: int, i: int, j: int, result: Option<Block>,
                 sofar: set<int>)
    requires IsOrdered(fetch, first, n, m) && Knows(fetch, first, n, m, l, i, j, result, sofar) && i >= j && l < m
    ensures i == l + 1 && !Overruns(n, m, l) && (result.None? <==> l < 0)
    ensures l >= 0 ==> result.Some? && result.value.time == TimeAt(fetch, first, l) &&
                       (result.value.number == first + l <==> !Ties(fetch, first, n, l)) &&
                       (!Ties(fetch, first, n, l) ==> result == At(fetch, first, l))
  {
    NothingLeft(i, j, l);
    hide IsProbed;
    assert i == l + 1;
    assert forall p :: IsProbed(0, n, l, p) ==> p in sofar;
    if l >= 0 {
      var r :| IsKept(fetch, first, i, result, sofar, r);
      assert result == At(fetch, first, r) && 0 <= r < m;
      assert result.value.number == first + r;
      assert result.value.time == TimeAt(fetch, first, l);
      assert r < l <==> Ties(fetch, first, n, l) by {
        if r < l {
          var p :| p in sofar && p < i - 1 && TimeAt(fetch, first, p) == TimeAt(fetch, first, i - 1);
          assert IsProbed(0, n, l, p) && 0 <= p < l;
        }
        if Ties(fetch, first, n, l) {
          var p :| 0 <= p < l && IsProbed(0, n, l, p) && TimeAt(fetch, first, p) == TimeAt(fetch, first, l);
          assert p in sofar;
        }
      }
    }
  }

  /**
   sort.Search with the closure of LastBlockBy, on a range whose blocks are in order: it fails exactly when it looks
   for a block that is not there, and else ends one past the last block mined in time, with the first of that block's
   time that it looked at.
   */
  method Search(fetch: Fetch, first: uint64, n: int, minedBy: uint64, ghost m: int)
    returns (i: int, result: Option<Block>, failed: Option<int>, fetches: nat)
    ensures n <= 0 ==> i == 0 && result.None? && failed.None? && fetches == 0
    ensures n >= 1 ==> fetches <= BitLength(n)
    ensures result.Some? ==> result.value.time <= minedBy
    ensures failed.Some? ==> fetch(failed.value).None?
    ensures n >= 1 && IsOrdered(fetch, first, n, m) ==>
      var l := LastMined(fetch, first, m, minedBy);
      && (failed.Some? <==> Overruns(n, m, l))
      && (failed.None? ==> i == l + 1 && (result.None? <==> l == -1))
      && (failed.None? && l >= 0 ==>
            && (result.value.number == first + l <==> !Ties(fetch, first, n, l))
            && (!Ties(fetch, first, n, l) ==> result == At(fetch, first, l)))
  {
    hide BitLength, Wrap, IsProbed, Knows, LastMined, Overruns, Ties, IsOrdered;
    var j := n;
    i, result, failed, fetches := 0, None, None, 0;
    ghost var sound := n >= 1 && IsOrdered(fetch, first, n, m);
    ghost var sofar: set<int> := {};
    ghost var l := if sound then SoundLast(fetch, first, n, m, minedBy) else -1;
    if sound {
      KnowsNothing(fetch, first, n, m, minedBy);
    }
    while i < j
      invariant 0 <= i && (n >= 1 ==> i <= j <= n) && (n <= 0 ==> i == 0 && j == n)
      invariant n >= 1 ==> fetches + BitLength(j - i) <= BitLength(n)
      invariant n <= 0 ==> fetches == 0 && result.None?
      invariant failed.None?
      invariant result.Some? ==> result.value.time <= minedBy
      invariant sound ==> Knows(fetch, first, n, m, l, i, j, result, sofar)
      decreases j - i
    {
      var h := i + (j - i) / 2;
      HalvesAreShorter(i, j);
      var num := Wrap(h + ToInt(first));
      fetches := fetches + 1;
      var b := fetch(num);
      if sound {
        ProbeDecides(fetch, first, n, m, minedBy, i, j, result, sofar);
      }
      if b.None? {
        return i, result, Some(num), fetches;
      }
      var mined := b.value.time <= minedBy;
      ghost var before := result;
      if mined && (result.None? || result.value.time < b.value.time) {
        result := b;
      }
      if sound {
        if mined {
          KnowsMined(fetch, first, n, m, l, i, j, before, sofar, h, result);
        } else {
          KnowsLate(fetch, first, n, m, l, i, j, result, sofar, h);
        }
        sofar := sofar + {h};
      }
      if mined {
        i := h + 1;
      } else {
        j := h;
      }
    }
    if sound {
      LastIsInside(fetch, first, n, m, minedBy);
      KnowsAll(fetch, first, n, m, l, i, j, result, sofar);
    }
  }

  ghost function SoundLast(fetch: Fetch, first: uint64, n: int, m: int, minedBy: nat): int
    requires IsOrdered(fetch, first, n, m)
  {
    LastMined(fetch, first, m, minedBy)
  }

  lemma LastIsInside(fetch: Fetch, first: uint64, n: int, m: int, minedBy: nat)
    requires IsOrdered(fetch, first, n, m)
    ensures -1 <= SoundLast(fetch, first, n, m, minedBy) < m <= n
    ensures SoundLast(fetch, first, n, m, minedBy) == LastMined(fetch, first, m, minedBy)
  {
  }

  lemma KnowsNothing(fetch: Fetch, first: uint64, n: int, m: int, minedBy: nat)
    requires n >= 1 && IsOrdered(fetch, first, n, m)
    ensures Knows(fetch, first, n, m, SoundLast(fetch, first, n, m, minedBy), 0, n, None, {})
  {
  }

  /** The next probe: of a block that is not there, of one mined in time, or of a later one. */
  lemma ProbeDecides(fetch: Fetch, first: uint64, n: int, m: int, minedBy: nat, i: int, j: int, result: Option<Block>,
                     sofar: set<int>)
    requires IsOrdered(fetch, first, n, m) && i < j
    requires Knows(fetch, first, n, m, SoundLast(fetch, first, n, m, minedBy), i, j, result, sofar)
    ensures var (h, l) := (i + (j - i) / 2, LastMined(fetch, first, m, minedBy));
            && l == SoundLast(fetch, first, n, m, minedBy) && i <= h < j
            && (At(fetch, first, h).None? ==> Overruns(n, m, l))
            && (At(fetch, first, h).Some? ==> h < m && (At(fetch, first, h).value.time <= minedBy <==> h <= l))
  {
    var h, l := i + (j - i) / 2, LastMined(fetch, first, m, minedBy);
    ProbedNext(i, j, l);
    hide IsProbed, LastMined;
    assert IsProbed(0, n, l, h);
    if h < m {
      LastMinedSplits(fetch, first, n, m, m, minedBy);
      assert TimeAt(fetch, first, h) <= minedBy <==> h <= l;
    } else {
      assert At(fetch, first, h).None?;
    }
  }

  // ---- The range of a hint.

  /** How many blocks of the range have a number that fits in an int. */
  ghost function Present(first: uint64, last: uint64): int {
    if last < TWO_TO_THE_63 then last - first + 1 else if first < TWO_TO_THE_63 then TWO_TO_THE_63 - first else 0
  }

  /** The blocks of the range that an int can number are a chain, and there are none with a negative number. */
  ghost predicate IsRange(fetch: Fetch, first: uint64, last: uint64) {
    && first <= last
    && IsLaxChain(fetch, first, first + Present(first, last) - 1)
    && (last >= TWO_TO_THE_63 ==> NoneNegative(fetch))
  }

  lemma AtIsFetch(fetch: Fetch, first: uint64, p: int)
    requires 0 <= p && first + p < TWO_TO_THE_63
    ensures At(fetch, first, p) == fetch(first + p) && TimeAt(fetch, first, p) == TimeOf(fetch, first + p)
  {
    WrapIsExact(first + p);
  }

  lemma PastIntIsNegative(first: uint64, p: int)
    requires 0 <= p < TWO_TO_THE_63 && TWO_TO_THE_63 <= first + p < TWO_TO_THE_64
    ensures Wrap(p + ToInt(first)) < 0
  {
    if first < TWO_TO_THE_63 {
      assert (p + first + TWO_TO_THE_63) % TWO_TO_THE_64 == p + first - TWO_TO_THE_63;
    } else {
      WrapIsExact(p + first - TWO_TO_THE_64);
    }
  }

  lemma RangeIsOrdered(fetch: Fetch, first: uint64, last: uint64)
    requires IsRange(fetch, first, last) && last - first + 1 < TWO_TO_THE_63
    ensures IsOrdered(fetch, first, last - first + 1, Present(first, last))
  {
    hide Wrap;
    var n, m := last - first + 1, Present(first, last);
    forall p | 0 <= p < m
      ensures At(fetch, first, p) == fetch(first + p) && TimeAt(fetch, first, p) == TimeOf(fetch, first + p)
    {
      AtIsFetch(fetch, first, p);
    }
    forall p | m <= p < n
      ensures At(fetch, first, p).None?
    {
      PastIntIsNegative(first, p);
    }
  }

  /** The last block mined by index is the last one by number. */
  lemma LastIsLast(fetch: Fetch, first: uint64, n: int, m: int, minedBy: nat)
    requires IsOrdered(fetch, first, n, m) && first + m <= TWO_TO_THE_63
    ensures var l := LastMined(fetch, first, m, minedBy);
            && (l < 0 <==> NoneBy(fetch, first, first + m - 1, minedBy))
            && (l >= 0 ==> At(fetch, first, l).Some? && first + l < TWO_TO_THE_63 &&
                           IsLastBy(fetch, first, first + m - 1, minedBy, At(fetch, first, l).value))
  {
    var l := LastMined(fetch, first, m, minedBy);
    LastMinedSplits(fetch, first, n, m, m, minedBy);
    hide LastMined, Wrap, At;
    forall p | 0 <= p < m
      ensures At(fetch, first, p) == fetch(first + p) && TimeAt(fetch, first, p) == TimeOf(fetch, first + p)
    {
      AtIsFetch(fetch, first, p);
    }
    forall num | first <= num < first + m
      ensures TimeOf(fetch, num) <= minedBy <==> num - first <= l
    {
      assert TimeAt(fetch, first, num - first) == TimeOf(fetch, num);
    }
    if l >= 0 {
      assert TimeAt(fetch, first, l) == TimeOf(fetch, first + l);
    }
  }

  /** Where times strictly increase, nothing ties. */
  lemma StrictHasNoTies(fetch: Fetch, first: uint64, last: uint64, l: int)
    requires last < TWO_TO_THE_63 && IsChain(fetch, first, last) && l <= last - first
    ensures IsLaxChain(fetch, first, last) && !Ties(fetch, first, last - first + 1, l)
  {
    hide IsProbed, Wrap, At;
    forall p | 0 <= p < l
      ensures TimeAt(fetch, first, p) != TimeAt(fetch, first, l)
    {
      AtIsFetch(fetch, first, p);
      AtIsFetch(fetch, first, l);
    }
  }

  lemma NegativeOverruns(n: int)
    requires n >= 1
    ensures Overruns(n, 0, -1)
  {
    assert IsProbed(0, n, -1, n / 2);
  }

  lemma FullRangeNeverOverruns(n: int, l: int)
    ensures !Overruns(n, n, l)
  {
  }

  /**
   What LastBlockBy returns of a range of blocks in order: an error of the node exactly when the search looks past the
   last int, otherwise the last block mined in time, unless there is none or the search looked at another of its time.
   */
  ghost predicate IsAnswer(fetch: Fetch, first: uint64, last: uint64, minedBy: uint64, r: Result<Block, Error>) {
    var (n, m) := (last - first + 1, Present(first, last));
    m >= 0 &&
    var l := LastMined(fetch, first, m, minedBy);
    if Overruns(n, m, l) then r.Err? && r.error.FetchFailed?
    else if NoneBy(fetch, first, first + m - 1, minedBy) then r == Err(BlockNotFound)
    else if Ties(fetch, first, n, l) then r == Err(BrokenInvariant)
    else r.Ok? && IsLastBy(fetch, first, first + m - 1, minedBy, r.value)
  }

  lemma RangeIsSearched(fetch: Fetch, first: uint64, last: uint64)
    requires SearchLength(first, last) >= 1 && IsRange(fetch, first, last)
    ensures first <= last && SearchLength(first, last) == last - first + 1 < TWO_TO_THE_63
    ensures IsOrdered(fetch, first, last - first + 1, Present(first, last))
  {
    SearchLengthExact(first, last);
    if last - first + 1 >= TWO_TO_THE_63 {
      TooLongIsEmpty(first, last);
    }
    RangeIsOrdered(fetch, first, last);
  }

  /** How the end of the search turns into the answer. */
  function Conclude(first: uint64, i: int, result: Option<Block>, failed: Option<int>): Result<Block, Error> {
    if failed.Some? then Err(FetchFailed(failed.value))
    else if result.None? then Err(BlockNotFound)
    else if result.value.number != (Wrap(i + ToInt(first)) - 1) % TWO_TO_THE_64 then Err(BrokenInvariant)
    else Ok(result.value)
  }

  lemma Answered(fetch: Fetch, first: uint64, last: uint64, minedBy: uint64, i: int, result: Option<Block>,
                 failed: Option<int>)
    requires first <= last && IsOrdered(fetch, first, last - first + 1, Present(first, last))
    requires
      var (n, m) := (last - first + 1, Present(first, last));
      var l := LastMined(fetch, first, m, minedBy);
      && (failed.Some? <==> Overruns(n, m, l))
      && (failed.None? ==> i == l + 1 && (result.None? <==> l == -1))
      && (failed.None? && l >= 0 ==>
            && (result.value.number == first + l <==> !Ties(fetch, first, n, l))
            && (!Ties(fetch, first, n, l) ==> result == At(fetch, first, l)))
    ensures IsAnswer(fetch, first, last, minedBy, Conclude(first, i, result, failed))
  {
    var (n, m) := (last - first + 1, Present(first, last));
    hide Overruns, Ties, LastMined, IsLastBy, NoneBy, IsOrdered, At, Wrap;
    assert first + m <= TWO_TO_THE_63 || m == 0;
    if first + m <= TWO_TO_THE_63 {
      LastIsLast(fetch, first, n, m, minedBy);
    } else {
      NegativeOverruns(n);
    }
    if failed.None? && i > 0 {
      WrapOrLast(i + first);
    }
  }

  /** With strictly increasing times, the answer is the last block mined by the time, or that there is none. */
  lemma ChainAnswer(fetch: Fetch, first: uint64, last: uint64, minedBy: uint64, r: Result<Block, Error>)
    requires first <= last < TWO_TO_THE_63 && IsChain(fetch, first, last)
    requires IsRange(fetch, first, last) ==> IsAnswer(fetch, first, last, minedBy, r)
    ensures match r
            case Ok(b) => IsLastBy(fetch, first, last, minedBy, b)
            case Err(e) => e == BlockNotFound && NoneBy(fetch, first, last, minedBy)
  {
    hide IsProbed, At, LastMined, IsLastBy, NoneBy, Ties, Overruns, IsChain, IsLaxChain;
    var n := last - first + 1;
    var l := LastMined(fetch, first, n, minedBy);
    StrictHasNoTies(fetch, first, last, l);
    FullRangeNeverOverruns(n, l);
    assert IsRange(fetch, first, last);
  }

  /** In a range that begins past the last int, the first block asked for is missing. */
  lemma FarRangeFails(fetch: Fetch, first: uint64, last: uint64, minedBy: uint64, r: Result<Block, Error>)
    requires TWO_TO_THE_63 <= first <= last && NoneNegative(fetch)
    requires IsRange(fetch, first, last) ==> IsAnswer(fetch, first, last, minedBy, r)
    ensures r.Err? && r.error.FetchFailed?
  {
    NegativeOverruns(last - first + 1);
  }

  lemma Consequences(fetch: Fetch, first: uint64, last: uint64, minedBy: uint64, r: Result<Block, Error>)
    requires first <= last
    requires IsRange(fetch, first, last) ==> IsAnswer(fetch, first, last, minedBy, r)
    ensures last < TWO_TO_THE_63 && IsChain(fetch, first, last) ==>
              match r
              case Ok(b) => IsLastBy(fetch, first, last, minedBy, b)
              case Err(e) => e == BlockNotFound && NoneBy(fetch, first, last, minedBy)
    ensures TWO_TO_THE_63 <= first && NoneNegative(fetch) ==> r.Err? && r.error.FetchFailed?
  {
    hide *;
    if last < TWO_TO_THE_63 && IsChain(fetch, first, last) {
      ChainAnswer(fetch, first, last, minedBy, r);
    }
    if TWO_TO_THE_63 <= first && NoneNegative(fetch) {
      FarRangeFails(fetch, first, last, minedBy, r);
    }
  }

  /** Four blocks, the last two of the same time. */
  ghost function TiedFetch(num: int): Option<Block> {
    if 0 <= num < 3 then Some(Block(num, if num == 2 then 5 else num + 1))
    else if num == 3 then Some(Block(3, 5))
    else None
  }

  /** Block 3 is the last one mined by time 5, but the search keeps block 2, which breaks the invariant. */
  lemma TieBreaksInvariant(r: Result<Block, Error>)
    requires IsAnswer(TiedFetch, 0, 3, 5, r)
    ensures IsRange(TiedFetch, 0, 3) && SearchLength(0, 3) == 4
    ensures IsLastBy(TiedFetch, 0, 3, 5, Block(3, 5)) && r == Err(BrokenInvariant)
  {
    assert LastMined(TiedFetch, 0, 4, 5) == 3 by {
      AtIsFetch(TiedFetch, 0, 3);
    }
    assert Ties(TiedFetch, 0, 4, 3) by {
      AtIsFetch(TiedFetch, 0, 2);
      AtIsFetch(TiedFetch, 0, 3);
      assert IsProbed(0, 4, 3, 2);
    }
    FullRangeNeverOverruns(4, 3);
    assert TimeOf(TiedFetch, 3) == 5;
  }

  /** A range the wrong way round is searched all the same if its ends are far enough apart. */
  lemma ReversedIsSearched(first: uint64, last: uint64)
    requires last < first
    ensures SearchLength(first, last) >= 1 <==> first - last > TWO_TO_THE_63 + 1
    ensures SearchLength(TWO_TO_THE_64 - 1, 1) == 3
  {
    if first - last > 1 {
      assert (last - first + 1) % TWO_TO_THE_64 == last - first + 1 + TWO_TO_THE_64;
    }
  }

  /** All that is promised of the search of the blocks from first to last. */
  ghost predicate Answers(fetch: Fetch, first: uint64, last: uint64, minedBy: uint64, r: Result<Block, Error>,
                          fetches: nat) {
    && (SearchLength(first, last) <= 0 ==> r == Err(BlockNotFound) && fetches == 0)
    && (SearchLength(first, last) >= 1 && IsRange(fetch, first, last) ==>
          IsAnswer(fetch, first, last, minedBy, r) && fetches <= BitLength(last - first + 1))
    && (first <= last < TWO_TO_THE_63 && SearchLength(first, last) >= 1 && IsChain(fetch, first, last) ==>
          match r
          case Ok(b) => IsLastBy(fetch, first, last, minedBy, b)
          case Err(e) => e == BlockNotFound && NoneBy(fetch, first, last, minedBy))
    && (TWO_TO_THE_63 <= first <= last && NoneNegative(fetch) && SearchLength(first, last) >= 1 ==>
          r.Err? && r.error.FetchFailed?)
  }

  /** LastBlockBy: with no hint of the last block up to the latest, with no hint at all from block 0. */
  method Find(fetch: Fetch, head: Option<uint64>, minedBy: uint64, hint: Option<BlockRange>)
    returns (r: Result<Block, Error>, fetches: nat)
    ensures (hint.None? || hint.value.last == 0) && head.None? ==> r == Err(BlockNumberFailed)
    ensures (hint.None? || hint.value.last == 0) && head.Some? && head.value >= TWO_TO_THE_63 - 1 ==>
              r == Err(TooLargeForSearch(head.value))
    ensures r.Ok? ==> r.value.time <= minedBy
    ensures r.Err? && r.error.FetchFailed? ==> fetch(r.error.num).None?
    ensures forall latest: uint64 :: latest < TWO_TO_THE_63 - 1 && head == Some(latest) ==>
              match hint
              case None => Answers(fetch, 0, latest, minedBy, r, fetches)
              case Some(range) => range.last == 0 ==> Answers(fetch, range.first, latest, minedBy, r, fetches)
    ensures hint.Some? && hint.value.last != 0 ==>
              Answers(fetch, hint.value.first, hint.value.last, minedBy, r, fetches)
  {
    hide IsRange, IsAnswer, BitLength, SearchLength, Wrap, IsOrdered, Overruns, Ties, LastMined, At, IsChain, IsLastBy,
      NoneBy, Present;
    fetches := 0;
    var first, last := if hint.Some? then hint.value.first else 0, 0;
    if hint.None? || hint.value.last == 0 {
      if head.None? {
        return Err(BlockNumberFailed), 0;
      }
      if head.value >= TWO_TO_THE_63 - 1 {
        return Err(TooLargeForSearch(head.value)), 0;
      }
      last := head.value;
    } else {
      last := hint.value.last;
    }
    var n := SearchLength(first, last);
    ghost var sound := n >= 1 && IsRange(fetch, first, last);
    if sound {
      RangeIsSearched(fetch, first, last);
    }
    var firstMinedAfter, result, failed;
    firstMinedAfter, result, failed, fetches := Search(fetch, first, n, minedBy, Present(first, last));
    if sound {
      Answered(fetch, first, last, minedBy, firstMinedAfter, result, failed);
    }
    if n >= 1 && first <= last {
      Consequences(fetch, first, last, minedBy, Conclude(first, firstMinedAfter, result, failed));
    }
    if failed.Some? {
      return Err(FetchFailed(failed.value)), fetches;
    }
    if result.None? {
      return Err(BlockNotFound), fetches;
    }
    firstMinedAfter := Wrap(firstMinedAfter + ToInt(first));
    if result.value.number != (firstMinedAfter - 1) % TWO_TO_THE_64 {
      return Err(BrokenInvariant), fetches;
    }
    return Ok(result.value), fetches;
  }
}
