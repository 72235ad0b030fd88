/** go/shuffle/shuffle.go: a Fisher-Yates shuffle whose pool can grow between draws. */
module FisherYates {
  import opened Results
  import opened Sequences

  const TWO_TO_THE_32: nat := 0x1_0000_0000

  // ---- The shuffle as a function of the draws.

  /** s holds each of 0 .. |s|-1 exactly once. */
  ghost predicate IsPermutation(s: seq<nat>) {
    && Distinct(s)
    && (forall i :: 0 <= i < |s| ==> s[i] < |s|)
    && (forall v: nat :: v < |s| ==> v in s)
  }

  function Swapped(s: seq<nat>, a: nat, b: nat): (r: seq<nat>)
    requires a < |s| && b < |s|
    ensures |r| == |s|
  {
    s[a := s[b]][b := s[a]]
  }

  function Grown(s: seq<nat>, delta: nat): (r: seq<nat>)
    ensures |r| == |s| + delta
  {
    s + seq(delta, i => |s| + i)
  }

  /** Growing the pool by some amount, then one draw from [0, number of unshuffled values). */
  datatype Move = Move(growth: nat, draw: nat)

  function Pool(perm: seq<nat>, m: Move): (r: seq<nat>)
    ensures |r| == |perm| + m.growth
  {
    Grown(perm, m.growth)
  }

  ghost predicate Legal(perm: seq<nat>, at: nat, moves: seq<Move>)
    decreases |moves|
  {
    moves == [] ||
    (at + moves[0].draw < |perm| + moves[0].growth &&
     Legal(Swapped(Pool(perm, moves[0]), at, at + moves[0].draw), at + 1, moves[1..]))
  }

  ghost function Play(perm: seq<nat>, at: nat, moves: seq<Move>): (r: seq<nat>)
    requires Legal(perm, at, moves)
    ensures at <= |perm| ==> at + |moves| <= |r|
    ensures |r| >= |perm|
    decreases |moves|
  {
    if moves == [] then perm
    else Play(Swapped(Pool(perm, moves[0]), at, at + moves[0].draw), at + 1, moves[1..])
  }

  /** The values the moves choose, in order. */
  ghost function Chosen(perm: seq<nat>, at: nat, moves: seq<Move>): (r: seq<nat>)
    requires at <= |perm| && Legal(perm, at, moves)
    ensures |r| == |moves|
  {
    Play(perm, at, moves)[at..at + |moves|]
  }

  ghost function Growths(moves: seq<Move>): (r: seq<nat>)
    ensures |r| == |moves|
  {
    seq(|moves|, i requires 0 <= i < |moves| => moves[i].growth)
  }

  // Only the draws, with a pool that keeps its size: what one call of Permute does.
  function Draws(draws: seq<nat>): (r: seq<Move>)
    ensures |r| == |draws|
  {
    seq(|draws|, i requires 0 <= i < |draws| => Move(0, draws[i]))
  }

  lemma SwapKeepsPermutation(s: seq<nat>, a: nat, b: nat)
    requires a < |s| && b < |s| && IsPermutation(s)
    ensures IsPermutation(Swapped(s, a, b))
  {
    var r := Swapped(s, a, b);
    forall v: nat | v < |r|
      ensures v in r
    {
      assert v in s;
      var i :| 0 <= i < |s| && s[i] == v;
      assert r[if i == a then b else if i == b then a else i] == v;
    }
  }

  lemma GrowthKeepsPermutation(s: seq<nat>, delta: nat)
    requires IsPermutation(s)
    ensures IsPermutation(Grown(s, delta))
  {
    var r := Grown(s, delta);
    forall v: nat | v < |r|
      ensures v in r
    {
      if v < |s| {
        assert v in s;
        var i :| 0 <= i < |s| && s[i] == v;
        assert r[i] == v;
      } else {
        assert r[v] == v;
      }
    }
  }

  /** Playing keeps a permutation, and never touches what was chosen before. */
  lemma {:induction false} PlayKeeps(perm: seq<nat>, at: nat, moves: seq<Move>)
    requires at <= |perm| && Legal(perm, at, moves) && IsPermutation(perm)
    ensures IsPermutation(Play(perm, at, moves))
    ensures Play(perm, at, moves)[..at] == perm[..at]
    decreases |moves|
  {
    if moves != [] {
      var pool := Pool(perm, moves[0]);
      var next := Swapped(pool, at, at + moves[0].draw);
      GrowthKeepsPermutation(perm, moves[0].growth);
      SwapKeepsPermutation(pool, at, at + moves[0].draw);
      PlayKeeps(next, at + 1, moves[1..]);
      assert next[..at] == perm[..at];
      assert Play(next, at + 1, moves[1..])[..at] == next[..at + 1][..at];
    }
  }

  /** The first value chosen is the drawn one; the rest are what the remaining moves choose. */
  lemma ChosenStep(perm: seq<nat>, at: nat, moves: seq<Move>)
    requires at <= |perm| && Legal(perm, at, moves) && IsPermutation(perm) && moves != []
    ensures var pool := Pool(perm, moves[0]);
            var next := Swapped(pool, at, at + moves[0].draw);
            IsPermutation(next) &&
            Chosen(perm, at, moves) == [pool[at + moves[0].draw]] + Chosen(next, at + 1, moves[1..])
  {
    hide *;
    PlayFirst(perm, at, moves);
    var pool := Pool(perm, moves[0]);
    var next := Swapped(pool, at, at + moves[0].draw);
    NextPermutation(perm, at, moves[0]);
    NextPlay(next, at, moves, pool[at + moves[0].draw]);
    ChosenIs(perm, at, moves, at + |moves|);
  }

  lemma NextPermutation(perm: seq<nat>, at: nat, m: Move)
    requires at + m.draw < |perm| + m.growth && IsPermutation(perm)
    ensures var pool := Pool(perm, m);
            var next := Swapped(pool, at, at + m.draw);
            IsPermutation(next) && next[at] == pool[at + m.draw]
  {
    hide IsPermutation, Grown;
    GrowthKeepsPermutation(perm, m.growth);
    SwapKeepsPermutation(Pool(perm, m), at, at + m.draw);
  }

  lemma NextPlay(next: seq<nat>, at: nat, moves: seq<Move>, v: nat)
    requires at < |next| && moves != [] && Legal(next, at + 1, moves[1..]) && IsPermutation(next) && next[at] == v
    ensures Play(next, at + 1, moves[1..])[at..at + |moves|] == [v] + Chosen(next, at + 1, moves[1..])
  {
    hide IsPermutation, Play, Legal;
    PlayKeeps(next, at + 1, moves[1..]);
    SliceFrom(Play(next, at + 1, moves[1..]), next, at, |moves|);
  }

  lemma ChosenIs(perm: seq<nat>, at: nat, moves: seq<Move>, end: nat)
    requires at <= |perm| && Legal(perm, at, moves) && end == at + |moves|
    ensures Chosen(perm, at, moves) == Play(perm, at, moves)[at..end]
  {
  }

  lemma FirstChosen(perm: seq<nat>, at: nat, draws: seq<nat>)
    requires at <= |perm| && Legal(perm, at, Draws(draws)) && IsPermutation(perm) && draws != []
    ensures at + draws[0] < |perm| && Chosen(perm, at, Draws(draws)) != []
    ensures Chosen(perm, at, Draws(draws))[0] == perm[at + draws[0]]
  {
    ChosenStep(perm, at, Draws(draws));
  }

  lemma PlayFirst(perm: seq<nat>, at: nat, moves: seq<Move>)
    requires Legal(perm, at, moves) && moves != []
    ensures at + moves[0].draw < |perm| + moves[0].growth
    ensures var next := Swapped(Pool(perm, moves[0]), at, at + moves[0].draw);
            Legal(next, at + 1, moves[1..]) && Play(perm, at, moves) == Play(next, at + 1, moves[1..])
  {
  }

  lemma SliceFrom(final: seq<nat>, next: seq<nat>, at: nat, n: nat)
    requires n > 0 && at + n <= |final| && at < |next| && final[..at + 1] == next[..at + 1]
    ensures final[at..at + n] == [next[at]] + final[at + 1..at + n]
  {
    assert final[at] == final[..at + 1][at] == next[at];
  }

  /** The same growth with different draws chooses different values. */
  lemma {:induction false} DrawsAreDetermined(perm: seq<nat>, at: nat, moves: seq<Move>, others: seq<Move>)
    requires at <= |perm| && IsPermutation(perm)
    requires Legal(perm, at, moves) && Legal(perm, at, others) && Growths(moves) == Growths(others)
    requires Chosen(perm, at, moves) == Chosen(perm, at, others)
    ensures moves == others
    decreases |moves|
  {
    assert |moves| == |Growths(moves)| == |others|;
    if moves != [] {
      var m, o := moves[0], others[0];
      assert m.growth == Growths(moves)[0] == Growths(others)[0] == o.growth;
      ChosenStep(perm, at, moves);
      ChosenStep(perm, at, others);
      var pool := Pool(perm, m);
      GrowthKeepsPermutation(perm, m.growth);
      assert pool[at + m.draw] == Chosen(perm, at, moves)[0] == Chosen(perm, at, others)[0] == pool[at + o.draw];
      assert m == o;
      var next := Swapped(pool, at, at + m.draw);
      assert Chosen(next, at + 1, moves[1..]) == Chosen(perm, at, moves)[1..];
      assert Chosen(next, at + 1, others[1..]) == Chosen(perm, at, others)[1..];
      assert Growths(moves[1..]) == Growths(moves)[1..];
      assert Growths(others[1..]) == Growths(others)[1..];
      DrawsAreDetermined(next, at + 1, moves[1..], others[1..]);
      assert moves == [m] + moves[1..] && others == [o] + others[1..];
    }
  }

  /**
   What may come out: distinct values, none chosen before, each within the pool at the time of its draw.
   */
  ghost predicate Possible(perm: seq<nat>, at: nat, growths: seq<nat>, values: seq<nat>)
    requires at <= |perm| && |values| == |growths|
    decreases |values|
  {
    values == [] ||
    (values[0] in Grown(perm, growths[0])[at..] &&
     values[0] !in values[1..] &&
     Possible(Grown(perm, growths[0]), at, growths[1..], values[1..]))
  }

  /** Possibility depends only on which values are unshuffled; the drawn value may be swapped out of the way. */
  lemma {:induction false} PossibleAfterSwap(pool: seq<nat>, at: nat, b: nat, growths: seq<nat>, values: seq<nat>)
    requires at <= b < |pool| && |values| == |growths| && IsPermutation(pool)
    requires Possible(pool, at, growths, values) && pool[b] !in values
    ensures Possible(Swapped(pool, at, b), at + 1, growths, values)
    decreases |values|
  {
    if values != [] {
      var delta := growths[0];
      var grown, next := Grown(pool, delta), Grown(Swapped(pool, at, b), delta);
      assert next == Swapped(grown, at, b);
      var i :| 0 <= i < |grown[at..]| && grown[at..][i] == values[0];
      assert grown[at + i] == values[0] && at + i != b;
      assert next[at + 1..][(if i == 0 then b else at + i) - (at + 1)] == values[0];
      GrowthKeepsPermutation(pool, delta);
      PossibleAfterSwap(grown, at, b, growths[1..], values[1..]);
    }
  }

  /** Every possible outcome is chosen by some draws. */
  lemma {:induction false} EveryOutcomeHasDraws(perm: seq<nat>, at: nat, growths: seq<nat>, values: seq<nat>)
    returns (moves: seq<Move>)
    requires at <= |perm| && |values| == |growths| && IsPermutation(perm)
    requires Possible(perm, at, growths, values)
    ensures Legal(perm, at, moves) && Growths(moves) == growths && Chosen(perm, at, moves) == values
    decreases |values|
  {
    hide Legal, Chosen, Growths, Swapped, IsPermutation;
    if values == [] {
      moves := [];
      NoMoves(perm, at);
    } else {
      var pool := Grown(perm, growths[0]);
      var d: nat :| d < |pool[at..]| && pool[at..][d] == values[0];
      var m := Move(growths[0], d);
      GrowthKeepsPermutation(perm, growths[0]);
      SwapKeepsPermutation(pool, at, at + d);
      PossibleAfterSwap(pool, at, at + d, growths[1..], values[1..]);
      var rest := EveryOutcomeHasDraws(Swapped(pool, at, at + d), at + 1, growths[1..], values[1..]);
      moves := [m] + rest;
      PrependMove(perm, at, m, rest);
      assert values == [values[0]] + values[1..] && growths == [growths[0]] + growths[1..];
    }
  }

  lemma NoMoves(perm: seq<nat>, at: nat)
    requires at <= |perm|
    ensures Legal(perm, at, []) && Growths([]) == [] && Chosen(perm, at, []) == []
  {
  }

  lemma PrependMove(perm: seq<nat>, at: nat, m: Move, rest: seq<Move>)
    requires at + m.draw < |perm| + m.growth && at <= |perm| && IsPermutation(perm)
    requires Legal(Swapped(Pool(perm, m), at, at + m.draw), at + 1, rest)
    ensures Legal(perm, at, [m] + rest) && Growths([m] + rest) == [m.growth] + Growths(rest)
    ensures Chosen(perm, at, [m] + rest) ==
            [Pool(perm, m)[at + m.draw]] + Chosen(Swapped(Pool(perm, m), at, at + m.draw), at + 1, rest)
  {
    var moves := [m] + rest;
    assert moves[1..] == rest;
    ChosenStep(perm, at, moves);
  }

  /** Only possible outcomes are chosen. */
  lemma {:induction false} ChosenIsPossible(perm: seq<nat>, at: nat, moves: seq<Move>)
    requires at <= |perm| && IsPermutation(perm) && Legal(perm, at, moves)
    ensures Possible(perm, at, Growths(moves), Chosen(perm, at, moves))
    decreases |moves|
  {
    if moves != [] {
      var m, rest := moves[0], moves[1..];
      assert moves == [m] + rest;
      GrowthKeepsPermutation(perm, m.growth);
      SwapKeepsPermutation(Pool(perm, m), at, at + m.draw);
      ChosenIsPossible(Swapped(Pool(perm, m), at, at + m.draw), at + 1, rest);
      PossibleStep(perm, at, m, rest);
    }
  }

  lemma PossibleStep(perm: seq<nat>, at: nat, m: Move, rest: seq<Move>)
    requires at + m.draw < |perm| + m.growth && at <= |perm| && IsPermutation(perm)
    requires Legal(perm, at, [m] + rest)
    requires var next := Swapped(Pool(perm, m), at, at + m.draw);
             Legal(next, at + 1, rest) && Possible(next, at + 1, Growths(rest), Chosen(next, at + 1, rest))
    ensures Possible(perm, at, Growths([m] + rest), Chosen(perm, at, [m] + rest))
  {
    hide Swapped, IsPermutation, Possible, Chosen, Growths, Grown, Play, Legal, Distinct;
    var pool := Pool(perm, m);
    var next := Swapped(pool, at, at + m.draw);
    PrependMove(perm, at, m, rest);
    GrowthKeepsPermutation(perm, m.growth);
    PossibleBeforeSwap(pool, at, at + m.draw, Growths(rest), Chosen(next, at + 1, rest));
    PossiblePrepend(perm, at, m.growth, m.draw, Growths(rest), Chosen(next, at + 1, rest));
  }

  lemma PossiblePrepend(perm: seq<nat>, at: nat, delta: nat, d: nat, growths: seq<nat>, values: seq<nat>)
    requires at <= |perm| && at + d < |perm| + delta && |values| == |growths|
    requires var pool := Grown(perm, delta); Possible(pool, at, growths, values) && pool[at + d] !in values
    ensures Possible(perm, at, [delta] + growths, [Grown(perm, delta)[at + d]] + values)
  {
    var pool := Grown(perm, delta);
    var all := [pool[at + d]] + values;
    assert all[1..] == values && ([delta] + growths)[1..] == growths;
    assert pool[at..][d] == all[0];
  }

  lemma {:induction false} PossibleBeforeSwap(pool: seq<nat>, at: nat, b: nat, growths: seq<nat>, values: seq<nat>)
    requires at <= b < |pool| && |values| == |growths| && IsPermutation(pool)
    requires Possible(Swapped(pool, at, b), at + 1, growths, values)
    ensures Possible(pool, at, growths, values) && pool[b] !in values
    decreases |values|
  {
    if values != [] {
      var delta := growths[0];
      var grown, next := Grown(pool, delta), Grown(Swapped(pool, at, b), delta);
      assert next == Swapped(grown, at, b);
      var i :| 0 <= i < |next[at + 1..]| && next[at + 1..][i] == values[0];
      var j := at + 1 + i;
      assert next[j] == values[0];
      assert grown[at..][(if j == b then at else j) - at] == values[0];
      GrowthKeepsPermutation(pool, delta);
      PossibleBeforeSwap(grown, at, b, growths[1..], values[1..]);
      assert values[0] != pool[b];
      assert values == [values[0]] + values[1..];
    }
  }

  /** One long run is two shorter ones, the second from where the first stopped. */
  lemma {:induction false} PlayComposes(perm: seq<nat>, at: nat, first: seq<Move>, second: seq<Move>)
    requires Legal(perm, at, first)
    ensures Legal(perm, at, first + second) <==> Legal(Play(perm, at, first), at + |first|, second)
    ensures Legal(perm, at, first + second) ==>
            Play(perm, at, first + second) == Play(Play(perm, at, first), at + |first|, second)
    decreases |first|
  {
    hide Swapped, Pool;
    if first == [] {
      assert first + second == second;
    } else {
      assert (first + second)[1..] == first[1..] + second;
      PlayComposes(Swapped(Pool(perm, first[0]), at, at + first[0].draw), at + 1, first[1..], second);
    }
  }

  function Total(growths: seq<nat>): nat {
    if growths == [] then 0 else growths[0] + Total(growths[1..])
  }

  /** Distinct values, none of them shuffled already, each inside the pool at the time of its draw. */
  ghost predicate Outcome(perm: seq<nat>, at: nat, growths: seq<nat>, values: seq<nat>)
    requires at <= |perm| && |values| == |growths|
  {
    && Distinct(values)
    && forall i :: 0 <= i < |values| ==> Fits(perm, at, growths, values, i)
  }

  ghost predicate Fits(perm: seq<nat>, at: nat, growths: seq<nat>, values: seq<nat>, i: nat)
    requires at <= |perm| && i < |values| == |growths|
  {
    values[i] < |perm| + Total(growths[..i + 1]) && values[i] !in perm[..at]
  }

  lemma UnshuffledExactly(perm: seq<nat>, at: nat, delta: nat, v: nat)
    requires at <= |perm| && IsPermutation(perm)
    ensures v in Grown(perm, delta)[at..] <==> v < |perm| + delta && v !in perm[..at]
  {
    var pool := Grown(perm, delta);
    GrowthKeepsPermutation(perm, delta);
    if v < |pool| && v !in perm[..at] {
      assert v in pool;
      var i :| 0 <= i < |pool| && pool[i] == v;
      forall k | 0 <= k < at
        ensures pool[k] != v
      {
        assert perm[..at][k] in perm[..at];
      }
      assert pool[at..][i - at] == v;
    }
    if v in perm[..at] {
      var i :| 0 <= i < at && perm[..at][i] == v;
      assert pool[i] == v;
    }
  }

  lemma {:induction false} PossibleIsOutcome(perm: seq<nat>, at: nat, growths: seq<nat>, values: seq<nat>)
    requires at <= |perm| && |values| == |growths| && IsPermutation(perm)
    ensures Possible(perm, at, growths, values) <==> Outcome(perm, at, growths, values)
    decreases |values|
  {
    if values != [] {
      var delta := growths[0];
      GrowthKeepsPermutation(perm, delta);
      UnshuffledExactly(perm, at, delta, values[0]);
      PossibleIsOutcome(Grown(perm, delta), at, growths[1..], values[1..]);
      OutcomeStep(perm, at, growths, values);
    }
  }

  lemma FitsLater(perm: seq<nat>, at: nat, growths: seq<nat>, values: seq<nat>, i: nat)
    requires at <= |perm| && 0 < i < |values| == |growths|
    ensures Fits(perm, at, growths, values, i) <==>
            Fits(Grown(perm, growths[0]), at, growths[1..], values[1..], i - 1)
  {
    assert Grown(perm, growths[0])[..at] == perm[..at];
    assert growths[..i + 1][1..] == growths[1..][..i];
  }

  lemma FitsFirst(perm: seq<nat>, at: nat, growths: seq<nat>, values: seq<nat>)
    requires at <= |perm| && |values| == |growths| > 0
    ensures Fits(perm, at, growths, values, 0) <==> values[0] < |perm| + growths[0] && values[0] !in perm[..at]
  {
    assert growths[..0 + 1] == [growths[0]];
    assert [growths[0]][1..] == [];
    assert Total([growths[0]]) == growths[0] + Total([]);
  }

  lemma DistinctStep(values: seq<nat>)
    requires |values| > 0
    ensures Distinct(values) <==> values[0] !in values[1..] && Distinct(values[1..])
  {
    if values[0] !in values[1..] && Distinct(values[1..]) {
      forall i, j | 0 <= i < j < |values|
        ensures values[i] != values[j]
      {
        assert values[j] == values[1..][j - 1];
        if i > 0 {
          assert values[i] == values[1..][i - 1];
        }
      }
    }
  }

  lemma OutcomeStep(perm: seq<nat>, at: nat, growths: seq<nat>, values: seq<nat>)
    requires at <= |perm| && |values| == |growths| > 0
    ensures Outcome(perm, at, growths, values) <==>
            values[0] < |perm| + growths[0] && values[0] !in perm[..at] && values[0] !in values[1..] &&
            Outcome(Grown(perm, growths[0]), at, growths[1..], values[1..])
  {
    hide Fits, Distinct, Grown;
    FitsFirst(perm, at, growths, values);
    DistinctStep(values);
    var pool, tail, rest := Grown(perm, growths[0]), growths[1..], values[1..];
    if Outcome(perm, at, growths, values) {
      forall i | 0 <= i < |rest|
        ensures Fits(pool, at, tail, rest, i)
      {
        FitsLater(perm, at, growths, values, i + 1);
      }
    }
    if Fits(perm, at, growths, values, 0) && Outcome(pool, at, tail, rest) {
      forall i | 0 <= i < |values|
        ensures Fits(perm, at, growths, values, i)
      {
        if i > 0 {
          FitsLater(perm, at, growths, values, i);
        }
      }
    }
  }

  /** The choices that some legal draws lead to, for a given schedule of growths. */
  ghost predicate Reachable(perm: seq<nat>, at: nat, growths: seq<nat>, values: seq<nat>)
    requires at <= |perm|
  {
    exists moves :: Legal(perm, at, moves) && Growths(moves) == growths && Chosen(perm, at, moves) == values
  }

  /**
   With DrawsAreDetermined: for every schedule of growths, draws and outcomes correspond one to one, so uniform
   draws give uniform outcomes.
   */
  lemma OutcomesExactly(perm: seq<nat>, at: nat, growths: seq<nat>, values: seq<nat>)
    requires at <= |perm| && |values| == |growths| && IsPermutation(perm)
    ensures Reachable(perm, at, growths, values) <==> Outcome(perm, at, growths, values)
  {
    hide Legal, Chosen, Growths, Outcome, IsPermutation, Possible;
    PossibleIsOutcome(perm, at, growths, values);
    if Reachable(perm, at, growths, values) {
      var moves :| Legal(perm, at, moves) && Growths(moves) == growths && Chosen(perm, at, moves) == values;
      ChosenIsPossible(perm, at, moves);
    }
    if Outcome(perm, at, growths, values) {
      var moves := EveryOutcomeHasDraws(perm, at, growths, values);
    }
  }

  // ---- The shuffler.

  datatype TooMany = TooMany(n: nat, remain: nat)

  ghost predicate InRange(draws: seq<nat>, remain: nat) {
    forall i :: 0 <= i < |draws| ==> i + draws[i] < remain
  }

  lemma {:induction false} DrawsAreLegal(perm: seq<nat>, at: nat, draws: seq<nat>)
    requires at <= |perm| && InRange(draws, |perm| - at)
    ensures Legal(perm, at, Draws(draws))
    ensures |Play(perm, at, Draws(draws))| == |perm|
    decreases |draws|
  {
    if draws != [] {
      assert Draws(draws)[1..] == Draws(draws[1..]);
      assert Grown(perm, 0) == perm;
      forall i | 0 <= i < |draws| - 1
        ensures i + draws[1..][i] < |perm| - at - 1
      {
        assert i + 1 + draws[i + 1] < |perm| - at;
      }
      DrawsAreLegal(Swapped(perm, at, at + draws[0]), at + 1, draws[1..]);
    }
  }

  /** One more draw at the end of a call. */
  lemma PlayOneMore(perm: seq<nat>, at: nat, draws: seq<nat>, k: nat)
    requires at <= |perm| && InRange(draws, |perm| - at) && k < |draws|
    ensures InRange(draws[..k], |perm| - at) && InRange(draws[..k + 1], |perm| - at)
    ensures Legal(perm, at, Draws(draws[..k])) && Legal(perm, at, Draws(draws[..k + 1]))
    ensures |Play(perm, at, Draws(draws[..k]))| == |perm| && at + k + draws[k] < |perm|
    ensures Play(perm, at, Draws(draws[..k + 1])) ==
            Swapped(Play(perm, at, Draws(draws[..k])), at + k, at + k + draws[k])
  {
    var first, last := Draws(draws[..k]), [Move(0, draws[k])];
    DrawsAreLegal(perm, at, draws[..k]);
    DrawsAreLegal(perm, at, draws[..k + 1]);
    assert Draws(draws[..k + 1]) == first + last;
    PlayComposes(perm, at, first, last);
    assert Grown(Play(perm, at, first), 0) == Play(perm, at, first);
  }

  lemma PlayNothing(perm: seq<nat>, at: nat, draws: seq<nat>)
    requires at <= |perm| && InRange(draws, |perm| - at)
    ensures InRange(draws[..0], |perm| - at) && Legal(perm, at, Draws(draws[..0]))
    ensures Play(perm, at, Draws(draws[..0])) == perm
  {
  }

  class Shuffler {
    var perm: array<nat>
    var shuffled: nat

    ghost predicate Valid()
      reads this, perm
    {
      IsPermutation(perm[..]) && shuffled <= perm.Length
    }

    constructor (n: nat)
      requires n < TWO_TO_THE_32
      ensures Valid() && fresh(perm)
      ensures perm.Length == n && shuffled == 0 && Permutation() == []
      ensures forall i :: 0 <= i < n ==> perm[i] == i
    {
      perm := new nat[n](i => i);
      shuffled := 0;
      new;
      assert perm[..] == Grown([], n);
      GrowthKeepsPermutation([], n);
    }

    /** The values chosen so far, in order. */
    function Permutation(): (r: seq<nat>)
      requires shuffled <= perm.Length
      reads this, perm
    {
      perm[..shuffled]
    }

    function Size(): nat
      reads this
    {
      perm.Length
    }

    /** uint32(len - shuffled): exact below 2^32. */
    function Remaining(): (r: nat)
      requires shuffled <= perm.Length
      reads this
      ensures r <= perm.Length - shuffled
      ensures r == perm.Length - shuffled <==> perm.Length - shuffled < TWO_TO_THE_32
    {
      (perm.Length - shuffled) % TWO_TO_THE_32
    }

    /** The i-th draw is what Intn(len - shuffled - i) returned; no draws are made when n is too large. */
    method Permute(n: nat, draws: seq<nat>) returns (r: Result<seq<nat>, TooMany>)
      requires Valid() && n < TWO_TO_THE_32
      requires n <= Remaining() ==> |draws| == n && InRange(draws, perm.Length - shuffled)
      modifies this, perm
      ensures Valid() && perm == old(perm)
      ensures r.Err? <==> n > old(Remaining())
      ensures r.Err? ==> r.error == TooMany(n, old(Remaining())) && perm[..] == old(perm[..]) && shuffled == old(shuffled)
      ensures r.Ok? ==>
        && shuffled == old(shuffled) + n
        && Legal(old(perm[..]), old(shuffled), Draws(draws))
        && perm[..] == Play(old(perm[..]), old(shuffled), Draws(draws))
        && r.value == Chosen(old(perm[..]), old(shuffled), Draws(draws))
        && Permutation() == old(Permutation()) + r.value
      ensures r.Ok? && n > 0 ==> old(shuffled) + draws[0] < perm.Length
                                 && r.value[0] == old(perm[..])[old(shuffled) + draws[0]]
    {
      hide Play, Legal, Draws, IsPermutation, InRange, Swapped;
      var remain := Remaining();
      if n > remain {
        return Err(TooMany(n, remain));
      }
      ghost var before, at := perm[..], shuffled;
      PlayNothing(before, at, draws);
      for k := 0 to n
        invariant shuffled == at && perm == old(perm)
        invariant InRange(draws[..k], perm.Length - at) && Legal(before, at, Draws(draws[..k]))
        invariant perm[..] == Play(before, at, Draws(draws[..k]))
      {
        PlayOneMore(before, at, draws, k);
        Swap(shuffled + k, shuffled + k + draws[k]);
      }
      assert draws[..n] == draws;
      PlayKeeps(before, at, Draws(draws));
      if n > 0 {
        FirstChosen(before, at, draws);
      }
      var max := shuffled + n;
      var chosen := perm[shuffled..max];
      shuffled := max;
      assert perm[..max] == perm[..max][..at] + chosen;
      return Ok(chosen);
    }

    method Swap(a: nat, b: nat)
      requires a < perm.Length && b < perm.Length
      modifies perm
      ensures perm[..] == Swapped(old(perm[..]), a, b)
    {
      perm[a], perm[b] := perm[b], perm[a];
    }

    /** Permute of as many values as there are, never an error. */
    method PermuteUpTo(n: nat, draws: seq<nat>) returns (chosen: seq<nat>)
      requires Valid() && n < TWO_TO_THE_32
      requires |draws| == (if n > Remaining() then Remaining() else n) && InRange(draws, perm.Length - shuffled)
      modifies this, perm
      ensures Valid() && perm == old(perm)
      ensures |chosen| == if n > old(Remaining()) then old(Remaining()) else n
      ensures Legal(old(perm[..]), old(shuffled), Draws(draws))
      ensures chosen == Chosen(old(perm[..]), old(shuffled), Draws(draws))
      ensures perm[..] == Play(old(perm[..]), old(shuffled), Draws(draws))
      ensures Permutation() == old(Permutation()) + chosen
    {
      var k := if n > Remaining() then Remaining() else n;
      var r := Permute(k, draws);
      chosen := r.value;
    }

    /** Appends the next indices to the pool; nothing chosen changes. */
    method Grow(delta: nat)
      requires Valid() && delta < TWO_TO_THE_32
      modifies this
      ensures Valid() && fresh(perm)
      ensures perm[..] == Grown(old(perm[..]), delta) && shuffled == old(shuffled)
      ensures Permutation() == old(Permutation())
    {
      var pool, size := perm, perm.Length;
      var grown := new nat[size + delta];
      for i := 0 to size
        invariant unchanged(this)
        invariant forall j :: 0 <= j < i ==> grown[j] == pool[j]
      {
        grown[i] := pool[i];
      }
      for i := size to grown.Length
        invariant unchanged(this)
        invariant forall j :: 0 <= j < size ==> grown[j] == pool[j]
        invariant forall j :: size <= j < i ==> grown[j] == j
      {
        grown[i] := i;
      }
      assert grown[..] == Grown(pool[..], delta);
      GrowthKeepsPermutation(pool[..], delta);
      assert grown[..shuffled] == pool[..shuffled];
      perm := grown;
    }

    /** Grows the pool to n unless it is that large already, which it achieves exactly below 2^32. */
    method GrowTo(n: nat)
      requires Valid() && n < TWO_TO_THE_32
      modifies this
      ensures Valid() && Permutation() == old(Permutation()) && shuffled == old(shuffled)
      ensures perm[..] == Grown(old(perm[..]), GrowToDelta(old(perm.Length), n))
    {
      var sz := perm.Length % TWO_TO_THE_32;
      if n < sz {
        assert Grown(perm[..], 0) == perm[..];
        return;
      }
      Grow(n - sz);
    }
  }

  function GrowToDelta(size: nat, n: nat): nat {
    var sz := size % TWO_TO_THE_32;
    if n < sz then 0 else n - sz
  }

  /** The pool ends at max(size, n), as documented, exactly when its size has not wrapped or n is small enough. */
  lemma GrowToReaches(size: nat, n: nat)
    requires n < TWO_TO_THE_32
    ensures size + GrowToDelta(size, n) == (if n > size then n else size) <==>
            size < TWO_TO_THE_32 || n <= size % TWO_TO_THE_32
  {
    assert size % TWO_TO_THE_32 <= size;
  }
}
