/**
 contracts/entropy/entropyserver: concurrent signing requests that share a cached block number, replaced by
 compare-and-swap, while the chain's head advances. Every interleaving is a run of the steps below.
 */
module EntropyServer {

  /** Where the handling of a request for a block is, inside blockMined. */
  datatype Request =
    | Entered(block: nat)
    | Loaded(block: nat, curr: nat)               // the cache is older than the block; about to ask the limiter
    | Allowed(block: nat, curr: nat)              // about to ask the node
    | Fetched(block: nat, curr: nat, latest: nat) // about to compare and swap
    | Answered(block: nat, mined: bool)
    | Failed(block: nat)

  datatype World = World(head: nat, cached: nat, requests: seq<Request>)

  /** One step of a request, given the head and the cache; the limiter and the node may go either way. */
  predicate Serves(head: nat, cached: nat, r: Request, cached': nat, r': Request) {
    match r
    case Entered(block) =>
      cached' == cached && r' == if cached >= block then Answered(block, true) else Loaded(block, cached)
    case Loaded(block, curr) =>
      cached' == cached && (r' == Answered(block, false) || r' == Allowed(block, curr))
    case Allowed(block, curr) =>
      cached' == cached && (r' == Failed(block) || r' == Fetched(block, curr, head))
    case Fetched(block, curr, latest) =>
      && cached' == (if cached == curr then latest else cached)
      && r' == Answered(block, latest >= block)
    case _ => false
  }

  ghost predicate Step(w: World, w': World) {
    || (w'.head >= w.head && w' == w.(head := w'.head))
    || (exists block :: w' == w.(requests := w.requests + [Entered(block)]))
    || exists i :: RequestStep(w, w', i)
  }

  ghost predicate RequestStep(w: World, w': World, i: int) {
    && 0 <= i < |w.requests| == |w'.requests|
    && w'.head == w.head
    && w'.requests == w.requests[i := w'.requests[i]]
    && Serves(w.head, w.cached, w.requests[i], w'.cached, w'.requests[i])
  }

  ghost predicate IsRun(run: seq<World>) {
    && |run| > 0 && run[0].cached == 0 && run[0].requests == []
    && forall k :: 0 <= k < |run| - 1 ==> Step(run[k], run[k + 1])
  }

  /** What a request remembers is no newer than the head, and what it fetched no older than what it loaded. */
  predicate Remembers(head: nat, r: Request) {
    match r
    case Entered(_) => true
    case Loaded(block, curr) => curr <= head && curr < block
    case Allowed(block, curr) => curr <= head && curr < block
    case Fetched(block, curr, latest) => curr <= latest <= head
    case Answered(block, mined) => mined ==> block <= head
    case Failed(_) => true
  }

  ghost predicate Invariant(w: World) {
    w.cached <= w.head && forall i :: 0 <= i < |w.requests| ==> Remembers(w.head, w.requests[i])
  }

  /** A step keeps the invariant, and neither the head nor the cache moves backwards. */
  lemma StepKeepsInvariant(w: World, w': World)
    requires Invariant(w) && Step(w, w')
    ensures Invariant(w') && w'.head >= w.head && w'.cached >= w.cached
  {
    if i :| RequestStep(w, w', i) {
      assert Remembers(w.head, w.requests[i]);
    }
  }

  lemma {:induction false} RunsKeepInvariant(run: seq<World>, j: nat, k: nat)
    requires IsRun(run) && j <= k < |run|
    ensures Invariant(run[k]) && run[j].cached <= run[k].cached && run[j].head <= run[k].head
    decreases k
  {
    if k == 0 {
    } else if j == k {
      RunsKeepInvariant(run, k - 1, k - 1);
      assert Step(run[k - 1], run[k - 1 + 1]);
      StepKeepsInvariant(run[k - 1], run[k]);
    } else {
      RunsKeepInvariant(run, j, k - 1);
      assert Step(run[k - 1], run[k - 1 + 1]);
      StepKeepsInvariant(run[k - 1], run[k]);
    }
  }

  /** A request is answered yes only for a block that has been mined. */
  lemma OnlyMinedBlocksAreSigned(run: seq<World>, k: nat, i: nat)
    requires IsRun(run) && k < |run| && i < |run[k].requests|
    requires run[k].requests[i].Answered? && run[k].requests[i].mined
    ensures run[k].requests[i].block <= run[k].head
  {
    RunsKeepInvariant(run, k, k);
    assert Remembers(run[k].head, run[k].requests[i]);
  }

  /** The cache never exceeds the head and never goes back, whatever the interleaving. */
  lemma CacheFollowsHead(run: seq<World>, j: nat, k: nat)
    requires IsRun(run) && j <= k < |run|
    ensures run[j].cached <= run[k].cached <= run[k].head
  {
    RunsKeepInvariant(run, j, k);
  }

  // ---- What the cache is for.

  /** The request compares the cache with what it loaded, to swap it for the head it fetched. */
  ghost predicate Swaps(w: World, w': World, i: nat) {
    RequestStep(w, w', i) && w.requests[i].Fetched?
  }

  /** A request that finds the cache as it was leaves there the head that it fetched, and otherwise what it finds. */
  lemma SwapsExactly(w: World, w': World, i: nat)
    requires Swaps(w, w', i)
    ensures w'.cached == if w.cached == w.requests[i].curr then w.requests[i].latest else w.cached
    ensures w'.requests[i] == Answered(w.requests[i].block, w.requests[i].latest >= w.requests[i].block)
  {
  }

  /** A request for a block that is in the cache when it enters is answered yes: neither limiter nor node is asked. */
  lemma {:induction false} CachedBlocksAreServed(run: seq<World>, i: nat, j: nat, k: nat)
    requires IsRun(run) && j <= k < |run| && i < |run[j].requests|
    requires run[j].requests[i].Entered? && run[j].requests[i].block <= run[j].cached
    ensures i < |run[k].requests|
    ensures run[k].requests[i] == run[j].requests[i] ||
            run[k].requests[i] == Answered(run[j].requests[i].block, true)
    decreases k
  {
    if j < k {
      CachedBlocksAreServed(run, i, j, k - 1);
      RunsKeepInvariant(run, j, k - 1);
      assert Step(run[k - 1], run[k - 1 + 1]);
      ServedFromCache(run[k - 1], run[k], i);
    }
  }

  lemma ServedFromCache(w: World, w': World, i: nat)
    requires Step(w, w') && i < |w.requests|
    ensures i < |w'.requests|
    ensures w.requests[i].Answered? ==> w'.requests[i] == w.requests[i]
    ensures w.requests[i].Entered? && w.requests[i].block <= w.cached ==>
              w'.requests[i] == w.requests[i] || w'.requests[i] == Answered(w.requests[i].block, true)
  {
    if n :| RequestStep(w, w', n) {
      assert n != i ==> w'.requests[i] == w.requests[i];
    }
  }

  /** In every run, what one request has fetched and swapped in is there for all that enter later. */
  lemma FetchedBlocksAreServed(run: seq<World>, m: nat, i: nat, n: nat, j: nat, k: nat)
    requires IsRun(run) && m < j <= k < |run| && Swaps(run[m], run[m + 1], i)
    requires run[m].cached == run[m].requests[i].curr
    requires n < |run[j].requests| && run[j].requests[n].Entered?
    requires run[j].requests[n].block <= run[m].requests[i].latest
    ensures n < |run[k].requests|
    ensures run[k].requests[n] == run[j].requests[n] ||
            run[k].requests[n] == Answered(run[j].requests[n].block, true)
  {
    SwapsExactly(run[m], run[m + 1], i);
    RunsKeepInvariant(run, m + 1, j);
    CachedBlocksAreServed(run, n, j, k);
  }

  // ---- Who is turned away.

  /** In this step the limiter refuses the request a fetch. */
  ghost predicate LimiterRefuses(w: World, w': World, i: nat) {
    i < |w.requests| && i < |w'.requests| && w.requests[i].Loaded? && w'.requests[i].Answered?
  }

  /** In this step the node does not answer the request's fetch. */
  ghost predicate NodeFails(w: World, w': World, i: nat) {
    i < |w.requests| && i < |w'.requests| && w.requests[i].Allowed? && w'.requests[i].Failed?
  }

  /** In this step the request fetches a head that is behind its block. */
  ghost predicate FetchesEarly(w: World, w': World, i: nat) {
    && i < |w.requests| && i < |w'.requests| && w.requests[i].Allowed? && w'.requests[i].Fetched?
    && w.head < w.requests[i].block
  }

  ghost predicate Loses(w: World, w': World, i: nat) {
    LimiterRefuses(w, w', i) || NodeFails(w, w', i) || FetchesEarly(w, w', i)
  }

  /** Some step from state j to state k is one in which the request loses. */
  ghost predicate Lost(run: seq<World>, i: nat, j: nat, k: nat)
    requires k < |run|
  {
    exists m :: j <= m < k && Loses(run[m], run[m + 1], i)
  }

  predicate IsOver(r: Request) {
    r.Answered? || r.Failed?
  }

  /** Where a request is tells whether it has lost. */
  ghost predicate Settled(r: Request, block: nat, lost: bool) {
    && r.block == block
    && lost == match r
               case Entered(_) => false
               case Loaded(_, _) => false
               case Allowed(_, _) => false
               case Fetched(_, _, latest) => latest < block
               case Answered(_, mined) => !mined
               case Failed(_) => true
  }

  lemma {:induction false} RequestHistory(run: seq<World>, i: nat, j: nat, k: nat)
    requires IsRun(run) && j <= k < |run| && i < |run[j].requests| && run[j].requests[i].Entered?
    ensures i < |run[k].requests| && Settled(run[k].requests[i], run[j].requests[i].block, Lost(run, i, j, k))
    decreases k
  {
    if j < k {
      RequestHistory(run, i, j, k - 1);
      var w, w' := run[k - 1], run[k];
      assert Step(w, run[k - 1 + 1]);
      RequestMoves(w, w', i);
      assert Lost(run, i, j, k) <==> Lost(run, i, j, k - 1) || Loses(w, w', i) by {
        LostOneMore(run, i, j, k);
      }
    }
  }

  lemma LostOneMore(run: seq<World>, i: nat, j: nat, k: nat)
    requires j < k < |run|
    ensures Lost(run, i, j, k) <==> Lost(run, i, j, k - 1) || Loses(run[k - 1], run[k], i)
  {
    if Loses(run[k - 1], run[k], i) {
      assert Loses(run[k - 1], run[k - 1 + 1], i);
    }
  }

  lemma RequestMoves(w: World, w': World, i: nat)
    requires Step(w, w') && i < |w.requests|
    ensures i < |w'.requests|
    ensures forall block, lost :: Settled(w.requests[i], block, lost) ==>
              Settled(w'.requests[i], block, lost || Loses(w, w', i))
  {
    if n :| RequestStep(w, w', n) {
      if n == i {
        assert Serves(w.head, w.cached, w.requests[i], w'.cached, w'.requests[i]);
      }
    }
  }

  /**
   sign promises a signature if and only if the block is mined. In every run, a request that is over was turned away
   exactly when the limiter refused it a fetch, or the node failed it, or the head it fetched was behind its block: so
   also for a block mined after the fetch and before the answer.
   */
  lemma RefusedExactly(run: seq<World>, i: nat, j: nat, k: nat)
    requires IsRun(run) && j <= k < |run| && i < |run[j].requests| && run[j].requests[i].Entered?
    requires i < |run[k].requests| && IsOver(run[k].requests[i])
    ensures run[k].requests[i] != Answered(run[j].requests[i].block, true) <==> Lost(run, i, j, k)
  {
    RequestHistory(run, i, j, k);
  }

  /** A request for a block that was mined when it entered is turned away exactly by the limiter or the node. */
  lemma MinedBlockRefusedExactly(run: seq<World>, i: nat, j: nat, k: nat)
    requires IsRun(run) && j <= k < |run| && i < |run[j].requests| && run[j].requests[i].Entered?
    requires run[j].requests[i].block <= run[j].head
    requires i < |run[k].requests| && IsOver(run[k].requests[i])
    ensures run[k].requests[i] != Answered(run[j].requests[i].block, true) <==>
            exists m :: j <= m < k && (LimiterRefuses(run[m], run[m + 1], i) || NodeFails(run[m], run[m + 1], i))
  {
    RefusedExactly(run, i, j, k);
    forall m | j <= m < k
      ensures !FetchesEarly(run[m], run[m + 1], i)
    {
      RequestHistory(run, i, j, m);
      RunsKeepInvariant(run, j, m);
    }
    if m :| j <= m < k && Loses(run[m], run[m + 1], i) {
      assert LimiterRefuses(run[m], run[m + 1], i) || NodeFails(run[m], run[m + 1], i);
    }
  }

  /** Block 1 is mined before its request enters, and the limiter refuses the fetch. */
  const REFUSAL: seq<World> := [
    World(0, 0, []),
    World(1, 0, []),
    World(1, 0, [Entered(1)]),
    World(1, 0, [Loaded(1, 0)]),
    World(1, 0, [Answered(1, false)])
  ]

  /** The head passes block 1 between the fetch and the answer, which is no. */
  const LATE: seq<World> := [
    World(0, 0, []),
    World(0, 0, [Entered(1)]),
    World(0, 0, [Loaded(1, 0)]),
    World(0, 0, [Allowed(1, 0)]),
    World(0, 0, [Fetched(1, 0, 0)]),
    World(1, 0, [Fetched(1, 0, 0)]),
    World(1, 0, [Answered(1, false)])
  ]

  /** Mined blocks that are refused: one mined before its request entered, and one mined after the fetch. */
  lemma MinedBlocksAreRefused()
    ensures IsRun(REFUSAL) && REFUSAL[2].requests == [Entered(1)] && REFUSAL[2].head == 1
    ensures REFUSAL[4].requests == [Answered(1, false)]
    ensures IsRun(LATE) && LATE[6].head == 1 && LATE[6].requests == [Answered(1, false)]
  {
    assert REFUSAL[2] == REFUSAL[1].(requests := REFUSAL[1].requests + [Entered(1)]);
    assert RequestStep(REFUSAL[2], REFUSAL[3], 0) && RequestStep(REFUSAL[3], REFUSAL[4], 0);
    assert LATE[1] == LATE[0].(requests := LATE[0].requests + [Entered(1)]);
    assert RequestStep(LATE[1], LATE[2], 0) && RequestStep(LATE[2], LATE[3], 0);
    assert RequestStep(LATE[3], LATE[4], 0) && RequestStep(LATE[5], LATE[6], 0);
  }
}
