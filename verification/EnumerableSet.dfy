/** OpenZeppelin's EnumerableSet: a duplicate-free list, from which a removal moves the last value into the gap. */
module EnumerableSet {
  import opened Sequences

  function IndexOf(s: seq<nat>, x: nat): (i: nat)
    ensures i <= |s|
    ensures i < |s| ==> s[i] == x
    ensures i < |s| <==> x in s
  {
    if s == [] then 0 else if s[0] == x then 0 else 1 + IndexOf(s[1..], x)
  }

  function Add(s: seq<nat>, x: nat): seq<nat> {
    if x in s then s else s + [x]
  }

  function Remove(s: seq<nat>, x: nat): seq<nat> {
    if x !in s then s
    else
      var last := |s| - 1;
      s[IndexOf(s, x) := s[last]][..last]
  }

  /** Removes the given values, the last one first. */
  function RemoveBackwards(s: seq<nat>, xs: seq<nat>): seq<nat>
    decreases |xs|
  {
    if xs == [] then s else RemoveBackwards(Remove(s, xs[|xs| - 1]), xs[..|xs| - 1])
  }

  lemma AddIsInsertion(s: seq<nat>, x: nat)
    requires Distinct(s)
    ensures Distinct(Add(s, x))
    ensures forall y: nat :: y in Add(s, x) <==> y in s || y == x
  {
  }

  /** Whatever the order becomes, exactly x is gone. */
  lemma RemoveIsRemoval(s: seq<nat>, x: nat)
    requires Distinct(s)
    ensures Distinct(Remove(s, x))
    ensures forall y: nat :: y in Remove(s, x) <==> y in s && y != x
    ensures |Remove(s, x)| == if x in s then |s| - 1 else |s|
  {
    if x in s {
      var r, i, last := Remove(s, x), IndexOf(s, x), |s| - 1;
      forall y: nat | y in s && y != x
        ensures y in r
      {
        var j :| 0 <= j < |s| && s[j] == y;
        assert r[if j == last then i else j] == y;
      }
    }
  }

  /** The gap is filled by the last value, and all others stay where they are. */
  lemma RemoveFillsGap(s: seq<nat>, x: nat, i: nat)
    requires Distinct(s) && x in s && i < |s| - 1
    ensures |Remove(s, x)| == |s| - 1
    ensures Remove(s, x)[i] == if s[i] == x then s[|s| - 1] else s[i]
  {
  }

  lemma {:induction false} RemoveBackwardsIsRemoval(s: seq<nat>, xs: seq<nat>)
    requires Distinct(s) && Distinct(xs) && forall x: nat :: x in xs ==> x in s
    ensures Distinct(RemoveBackwards(s, xs))
    ensures forall y: nat :: y in RemoveBackwards(s, xs) <==> y in s && y !in xs
    ensures |RemoveBackwards(s, xs)| == |s| - |xs|
    decreases |xs|
  {
    if xs != [] {
      var last, rest := xs[|xs| - 1], xs[..|xs| - 1];
      assert xs == rest + [last];
      RemoveIsRemoval(s, last);
      RemoveBackwardsIsRemoval(Remove(s, last), rest);
    }
  }
}
