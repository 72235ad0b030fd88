/**
 go/sync/toggle.go: any number of goroutines that wait on, set, read and close one Toggle, interleaved at every
 access to its mutex, its fields and its one-slot channel. A blocked operation is one whose step is not enabled.
 */
module Toggle {
  import opened Results

  /** Where a goroutine is; each may make any number of calls, one after the other. */
  datatype Counter =
    | Idle
    // Wait
    | WaitEntry            // about to lock, for sigChan
    | WaitLocked           // holds the mutex
    | Selecting            // blocked in the select
    | Holding              // took the token, about to send it back
    | Returned(r: WaitResult)
    | Panicked             // sent on a closed channel
    // Set
    | SetEntry(to: bool)
    | SetLocked(to: bool)
    | SetMoving(to: bool)  // state is changed, about to send or receive the token
    | SetMoved(to: bool)   // about to unlock
    // State
    | StateEntry
    | StateLocked
    | StateRead(seen: bool)
    // Close
    | CloseEntry
    | CloseLocked
    | Closing              // unlocked, about to close the channel

  datatype WaitResult = Nil | ContextError | ErrToggleClosed

  /** What the goroutines share. */
  datatype Shared = Shared(
    state: bool,
    lock: Option<nat>,
    made: bool,     // the channel exists
    tokens: nat,    // items in its buffer
    closed: bool
  )

  datatype World = World(sh: Shared, at: seq<Counter>)

  const CAPACITY := 1

  predicate Critical(c: Counter) {
    c.WaitLocked? || c.SetLocked? || c.SetMoving? || c.SetMoved? || c.StateLocked? || c.CloseLocked?
  }

  predicate InSet(c: Counter) {
    c.SetEntry? || c.SetLocked? || c.SetMoving? || c.SetMoved?
  }

  predicate InClose(c: Counter) {
    c.CloseEntry? || c.CloseLocked? || c.Closing?
  }

  predicate Finished(c: Counter) {
    c.Idle? || c.Returned? || c.StateRead?
  }

  ghost predicate NoneInSet(w: World) {
    forall t :: 0 <= t < |w.at| ==> !InSet(w.at[t])
  }

  ghost predicate NoneInClose(w: World) {
    forall t :: 0 <= t < |w.at| ==> !InClose(w.at[t])
  }

  /** Locking is possible only when nobody holds the mutex. */
  predicate Locks(s: Shared, s': Shared, t: nat) {
    s.lock.None? && s' == s.(lock := Some(t))
  }

  predicate WaitStep(s: Shared, c: Counter, s': Shared, c': Counter, t: nat) {
    match c
    case WaitEntry => c' == WaitLocked && Locks(s, s', t)
    case WaitLocked => c' == Selecting && s' == s.(lock := None, made := true)
    case Selecting =>
      || (c' == Returned(ContextError) && s' == s)
      || (c' == Holding && s.tokens > 0 && s' == s.(tokens := s.tokens - 1))
      || (c' == Returned(ErrToggleClosed) && s.tokens == 0 && s.closed && s' == s)
    case Holding =>
      if s.closed then c' == Panicked && s' == s
      else c' == Returned(Nil) && s.tokens < CAPACITY && s' == s.(tokens := s.tokens + 1)
    case _ => false
  }

  predicate SetStep(s: Shared, c: Counter, s': Shared, c': Counter, t: nat) {
    match c
    case SetEntry(to) => c' == SetLocked(to) && Locks(s, s', t)
    case SetLocked(to) =>
      if s.state == to then c' == SetMoved(to) && s' == s
      else c' == SetMoving(to) && s' == s.(state := to, made := true)
    case SetMoving(to) =>
      c' == SetMoved(to) &&
      if to then s.tokens < CAPACITY && s' == s.(tokens := s.tokens + 1)
      else s.tokens > 0 && s' == s.(tokens := s.tokens - 1)
    case SetMoved(to) => c' == Idle && s' == s.(lock := None)
    case _ => false
  }

  predicate ReadStep(s: Shared, c: Counter, s': Shared, c': Counter, t: nat) {
    match c
    case StateEntry => c' == StateLocked && Locks(s, s', t)
    case StateLocked => c' == StateRead(s.state) && s' == s.(lock := None)
    case _ => false
  }

  predicate CloseStep(s: Shared, c: Counter, s': Shared, c': Counter, t: nat) {
    match c
    case CloseEntry => c' == CloseLocked && Locks(s, s', t)
    case CloseLocked => c' == Closing && s' == s.(lock := None, made := true)
    case Closing => c' == Idle && s' == s.(closed := true)
    case _ => false
  }

  predicate Begins(s: Shared, c: Counter, s': Shared, c': Counter) {
    Finished(c) && s' == s && (c'.WaitEntry? || c'.StateEntry? || c'.SetEntry? || c'.CloseEntry?)
  }

  predicate Local(s: Shared, c: Counter, s': Shared, c': Counter, t: nat) {
    match c
    case WaitEntry | WaitLocked | Selecting | Holding => WaitStep(s, c, s', c', t)
    case SetEntry(_) | SetLocked(_) | SetMoving(_) | SetMoved(_) => SetStep(s, c, s', c', t)
    case StateEntry | StateLocked => ReadStep(s, c, s', c', t)
    case CloseEntry | CloseLocked | Closing => CloseStep(s, c, s', c', t)
    case Idle | Returned(_) | StateRead(_) => Begins(s, c, s', c')
    case Panicked => false
  }

  /** As documented, Set is not used during or after Close, and there is one Close. */
  ghost predicate Allowed(w: World, c': Counter) {
    && (c'.SetEntry? ==> !w.sh.closed && NoneInClose(w))
    && (c'.CloseEntry? ==> !w.sh.closed && NoneInClose(w) && NoneInSet(w))
  }

  /** One step of goroutine t: it alone moves. */
  ghost predicate StepsTo(w: World, w': World, t: nat) {
    && t < |w.at| == |w'.at|
    && w'.at == w.at[t := w'.at[t]]
    && Local(w.sh, w.at[t], w'.sh, w'.at[t], t)
    && Allowed(w, w'.at[t])
  }

  ghost predicate Initial(w: World) {
    && w.sh == Shared(false, None, false, 0, false)
    && forall t :: 0 <= t < |w.at| ==> w.at[t] == Idle
  }

  /** A finite run: each state follows from the one before by a step of the named goroutine. */
  ghost predicate IsRun(run: seq<World>, schedule: seq<nat>) {
    && |run| == |schedule| + 1
    && Initial(run[0])
    && forall i :: 0 <= i < |schedule| ==> StepsTo(run[i], run[i + 1], schedule[i])
  }

  // ---- The token.

  function Holders(at: seq<Counter>): nat {
    if at == [] then 0 else Holders(at[..|at| - 1]) + if at[|at| - 1].Holding? then 1 else 0
  }

  lemma {:induction false} HoldersUpdate(at: seq<Counter>, t: nat, c: Counter)
    requires t < |at|
    ensures Holders(at[t := c]) ==
            Holders(at) - (if at[t].Holding? then 1 else 0) + (if c.Holding? then 1 else 0)
    decreases |at|
  {
    var k := |at| - 1;
    if t == k {
      assert at[t := c][..k] == at[..k];
    } else {
      assert at[t := c][..k] == at[..k][t := c];
      HoldersUpdate(at[..k], t, c);
    }
  }

  lemma {:induction false} HolderCounts(at: seq<Counter>, t: nat)
    requires t < |at| && at[t].Holding?
    ensures Holders(at) >= 1
    decreases |at|
  {
    if t < |at| - 1 {
      HolderCounts(at[..|at| - 1], t);
    }
  }

  lemma {:induction false} SomeHolder(at: seq<Counter>) returns (t: nat)
    requires Holders(at) >= 1
    ensures t < |at| && at[t].Holding?
    decreases |at|
  {
    var k := |at| - 1;
    if at[k].Holding? {
      t := k;
    } else {
      t := SomeHolder(at[..k]);
    }
  }

  /** A Set that has changed the state but not yet moved the token. */
  ghost predicate Moving(w: World, to: bool) {
    exists t :: 0 <= t < |w.at| && w.at[t] == SetMoving(to)
  }

  /** How many tokens there should be, in the buffer and in the hands of waiters together. */
  ghost function Due(w: World): nat {
    if Moving(w, true) then 0
    else if Moving(w, false) then 1
    else if w.sh.state then 1 else 0
  }

  /** The mutex is held by the one goroutine that is in a critical section. */
  ghost predicate Exclusive(w: World) {
    && (w.sh.lock.Some? ==> w.sh.lock.value < |w.at|)
    && forall t :: 0 <= t < |w.at| ==> (Critical(w.at[t]) <==> w.sh.lock == Some(t))
  }

  /** A Set that is moving the token, or has, has already written its state; the channel exists before it is used. */
  ghost predicate Prepared(w: World) {
    forall t :: 0 <= t < |w.at| ==>
      && (w.at[t].SetMoving? || w.at[t].SetMoved? ==> w.sh.state == w.at[t].to)
      && (w.at[t].Selecting? || w.at[t].Holding? || w.at[t].SetMoving? || w.at[t].Closing? ==> w.sh.made)
  }

  /** Set and Close keep apart. */
  ghost predicate Apart(w: World) {
    && (w.sh.closed ==> NoneInSet(w) && NoneInClose(w))
    && (NoneInClose(w) || NoneInSet(w))
    && forall t, u :: 0 <= t < |w.at| && 0 <= u < |w.at| && InClose(w.at[t]) && InClose(w.at[u]) ==> t == u
  }

  /** As many tokens as due, until a waiter that holds one panics on a closed channel. */
  ghost predicate TokensDue(w: World) {
    && (!w.sh.closed ==> w.sh.tokens + Holders(w.at) == Due(w))
    && (w.sh.closed ==> w.sh.tokens + Holders(w.at) <= (if w.sh.state then 1 else 0))
    && (forall t :: 0 <= t < |w.at| && w.at[t].Panicked? ==> w.sh.closed && w.sh.state)
  }

  ghost predicate Invariant(w: World) {
    Exclusive(w) && Prepared(w) && Apart(w) && TokensDue(w)
  }

  lemma InitialInvariant(w: World)
    requires Initial(w)
    ensures Invariant(w)
  {
    if Holders(w.at) >= 1 {
      var t := SomeHolder(w.at);
    }
  }

  lemma NobodyMoves(w: World)
    requires Invariant(w) && w.sh.lock.None?
    ensures forall to :: !Moving(w, to)
  {
    forall u | 0 <= u < |w.at|
      ensures !w.at[u].SetMoving?
    {
      assert !Critical(w.at[u]);
    }
  }

  /** A step of a goroutine that neither was nor becomes a moving Set leaves the others' moves alone. */
  lemma SameMovers(w: World, w': World, t: nat, c: Counter)
    requires t < |w.at| && w'.at == w.at[t := c] && !w.at[t].SetMoving? && !c.SetMoving?
    ensures forall to :: Moving(w', to) <==> Moving(w, to)
  {
    forall to
      ensures Moving(w', to) <==> Moving(w, to)
    {
      if Moving(w, to) {
        var u :| 0 <= u < |w.at| && w.at[u] == SetMoving(to);
        assert w'.at[u] == SetMoving(to);
      }
      if Moving(w', to) {
        var u :| 0 <= u < |w'.at| && w'.at[u] == SetMoving(to);
        assert w.at[u] == SetMoving(to);
      }
    }
  }

  /** A goroutine takes and gives back the mutex as it enters and leaves critical sections. */
  lemma LocalLocks(s: Shared, c: Counter, s': Shared, c': Counter, t: nat)
    requires Local(s, c, s', c', t)
    ensures
      || (s'.lock == s.lock && Critical(c') == Critical(c))
      || (s.lock.None? && s'.lock == Some(t) && Critical(c'))
      || (s'.lock.None? && Critical(c) && !Critical(c'))
  {
  }

  lemma KeepsExclusive(w: World, w': World, t: nat)
    requires Exclusive(w) && StepsTo(w, w', t)
    ensures Exclusive(w')
  {
    LocalLocks(w.sh, w.at[t], w'.sh, w'.at[t], t);
    hide Local, Critical;
  }

  /** What a step does to the state and the channel's existence. */
  lemma LocalPrepares(s: Shared, c: Counter, s': Shared, c': Counter, t: nat)
    requires Local(s, c, s', c', t)
    ensures s.made ==> s'.made
    ensures s'.state != s.state ==> Critical(c)
    ensures c'.SetMoving? ==> s'.state == c'.to && s'.made
    ensures c'.Selecting? || c'.Closing? ==> s'.made
    ensures c'.Holding? ==> c.Selecting?
  {
  }

  /** Set is done only when the state is what it asked for. */
  lemma LocalMoved(s: Shared, c: Counter, s': Shared, c': Counter, t: nat)
    requires Local(s, c, s', c', t) && (c.SetMoving? || c.SetMoved? ==> s.state == c.to)
    ensures c'.SetMoved? ==> s'.state == c'.to
  {
  }

  lemma KeepsPrepared(w: World, w': World, t: nat)
    requires Exclusive(w) && Prepared(w) && StepsTo(w, w', t)
    ensures Prepared(w')
  {
    LocalLocks(w.sh, w.at[t], w'.sh, w'.at[t], t);
    LocalPrepares(w.sh, w.at[t], w'.sh, w'.at[t], t);
    LocalMoved(w.sh, w.at[t], w'.sh, w'.at[t], t);
    hide Local;
    forall u | 0 <= u < |w'.at|
      ensures w'.at[u].SetMoving? || w'.at[u].SetMoved? ==> w'.sh.state == w'.at[u].to
      ensures w'.at[u].Selecting? || w'.at[u].Holding? || w'.at[u].SetMoving? || w'.at[u].Closing? ==> w'.sh.made
    {
      if u != t {
        assert w'.at[u] == w.at[u];
      }
    }
  }

  /** How a step relates to Set and Close calls. */
  lemma LocalCalls(s: Shared, c: Counter, s': Shared, c': Counter, t: nat)
    requires Local(s, c, s', c', t)
    ensures InSet(c') ==> InSet(c) || c'.SetEntry?
    ensures InClose(c') ==> InClose(c) || c'.CloseEntry?
    ensures s'.closed != s.closed ==> c.Closing? && c'.Idle?
    ensures s.closed ==> s'.closed
  {
  }

  lemma KeepsApart(w: World, w': World, t: nat)
    requires Apart(w) && StepsTo(w, w', t)
    ensures Apart(w')
  {
    LocalLocks(w.sh, w.at[t], w'.sh, w'.at[t], t);
    LocalCalls(w.sh, w.at[t], w'.sh, w'.at[t], t);
    hide Local, InSet, InClose;
    assert forall u :: 0 <= u < |w.at| && u != t ==> w'.at[u] == w.at[u];
    assert InSet(w.at[t]) ==> NoneInClose(w);
    assert InClose(w.at[t]) ==> NoneInSet(w);
    if w'.sh.closed && !w.sh.closed {
      ClosingIsAlone(w, w', t);
    }
  }

  lemma ClosingIsAlone(w: World, w': World, t: nat)
    requires Apart(w) && t < |w.at| && w.at[t].Closing? && w'.at == w.at[t := Idle]
    ensures NoneInSet(w') && NoneInClose(w')
  {
    assert InClose(w.at[t]);
  }

  function Hand(c: Counter): nat {
    if c.Holding? then 1 else 0
  }

  /** What a step does to the tokens. */
  lemma LocalTokens(s: Shared, c: Counter, s': Shared, c': Counter, t: nat)
    requires Local(s, c, s', c', t)
    ensures c'.SetMoving? ==> c.SetLocked? && s.state != s'.state && s'.tokens == s.tokens
    ensures c.SetMoving? ==> s'.state == s.state && !c'.SetMoving? && !c'.Holding?
    ensures c.SetMoving? ==> s'.tokens == if c.to then s.tokens + 1 else s.tokens - 1
    ensures !c.SetMoving? && !c'.SetMoving? ==> s'.state == s.state
    ensures !c.SetMoving? && !c'.Panicked? ==> s'.tokens + Hand(c') == s.tokens + Hand(c)
    ensures c'.Panicked? ==> c.Holding? && s.closed && s' == s
    ensures c.SetLocked? || c.SetMoving? ==> s'.lock == s.lock && s'.closed == s.closed
  {
  }

  lemma KeepsTokensDue(w: World, w': World, t: nat)
    requires Invariant(w) && StepsTo(w, w', t)
    ensures TokensDue(w')
  {
    LocalLocks(w.sh, w.at[t], w'.sh, w'.at[t], t);
    LocalTokens(w.sh, w.at[t], w'.sh, w'.at[t], t);
    LocalCalls(w.sh, w.at[t], w'.sh, w'.at[t], t);
    KeepsExclusive(w, w', t);
    hide Local, Holders, Moving, NoneInSet, NoneInClose;
    HoldersUpdate(w.at, t, w'.at[t]);
    if w.at[t].SetMoving? || w'.at[t].SetMoving? {
      SetIsOpen(w, t);
      OnlyMoverIs(w, t);
      OnlyMoverIs(w', t);
    } else {
      SameMovers(w, w', t, w'.at[t]);
      DueWhenClosed(w);
    }
    if w.at[t].Holding? {
      HolderCounts(w.at, t);
    }
    forall u | 0 <= u < |w'.at| && w'.at[u].Panicked?
      ensures w'.sh.closed && w'.sh.state
    {
      assert u != t ==> w.at[u].Panicked?;
    }
  }

  /** A goroutine inside Set holds the mutex at these points, and the channel is not closed. */
  lemma SetIsOpen(w: World, t: nat)
    requires Invariant(w) && t < |w.at| && (w.at[t].SetLocked? || w.at[t].SetMoving?)
    ensures w.sh.lock == Some(t) && !w.sh.closed
    ensures w.at[t].SetMoving? ==> w.sh.state == w.at[t].to
  {
    assert Critical(w.at[t]) && InSet(w.at[t]);
  }

  /** When the channel is about to be closed no Set is moving the token. */
  lemma DueWhenClosed(w: World)
    requires Apart(w)
    ensures !NoneInClose(w) ==> Due(w) == if w.sh.state then 1 else 0
    ensures forall t :: 0 <= t < |w.at| && w.at[t].Closing? ==> !NoneInClose(w)
  {
    forall t | 0 <= t < |w.at| && w.at[t].Closing?
      ensures !NoneInClose(w)
    {
      assert InClose(w.at[t]);
    }
    forall to, u | 0 <= u < |w.at| && w.at[u] == SetMoving(to)
      ensures NoneInClose(w)
    {
      assert InSet(w.at[u]);
    }
  }

  lemma OnlyMoverIs(w: World, t: nat)
    requires Exclusive(w) && t < |w.at| && w.sh.lock == Some(t)
    ensures forall to :: Moving(w, to) <==> w.at[t] == SetMoving(to)
  {
    forall u | 0 <= u < |w.at| && w.at[u].SetMoving?
      ensures u == t
    {
      assert Critical(w.at[u]);
    }
  }

  /** Every step of every goroutine keeps the invariant. */
  lemma StepKeepsInvariant(w: World, w': World, t: nat)
    requires Invariant(w) && StepsTo(w, w', t)
    ensures Invariant(w')
  {
    hide Exclusive, Prepared, Apart, TokensDue, StepsTo;
    KeepsExclusive(w, w', t);
    KeepsPrepared(w, w', t);
    KeepsApart(w, w', t);
    KeepsTokensDue(w, w', t);
  }

  /** In every interleaving, every state satisfies the invariant. */
  lemma {:induction false} RunsKeepInvariant(run: seq<World>, schedule: seq<nat>, k: nat)
    requires IsRun(run, schedule) && k < |run|
    ensures Invariant(run[k])
  {
    hide Invariant, StepsTo;
    if k == 0 {
      InitialInvariant(run[0]);
    } else {
      RunsKeepInvariant(run, schedule, k - 1);
      assert StepsTo(run[k - 1], run[k - 1 + 1], schedule[k - 1]);
      StepKeepsInvariant(run[k - 1], run[k], schedule[k - 1]);
    }
  }

  // ---- What no operation waits for.

  /** There is never more than one token, and off a Set in flight it is there exactly when the toggle is on. */
  lemma OneToken(w: World)
    requires Invariant(w)
    ensures w.sh.tokens + Holders(w.at) <= 1
    ensures !w.sh.closed && w.sh.lock.None? ==> w.sh.tokens + Holders(w.at) == if w.sh.state then 1 else 0
  {
    if w.sh.lock.None? {
      NobodyMoves(w);
    }
  }

  /** A waiter that took the token can always put it back. */
  lemma ResendNeverBlocks(w: World, t: nat)
    requires Invariant(w) && t < |w.at| && w.at[t].Holding?
    ensures w.sh.tokens == 0
  {
    OneToken(w);
    HolderCounts(w.at, t);
  }

  /** Set(true) always finds the buffer empty. */
  lemma SetTrueNeverBlocks(w: World, t: nat)
    requires Invariant(w) && t < |w.at| && w.at[t] == SetMoving(true)
    ensures w.sh.tokens == 0 && Holders(w.at) == 0
  {
    SetIsOpen(w, t);
  }

  /** Set(false) finds the token in the buffer, or a waiter is about to put it back. */
  lemma SetFalseCanProceed(w: World, t: nat)
    requires Invariant(w) && t < |w.at| && w.at[t] == SetMoving(false)
    ensures w.sh.tokens == 1 || exists u :: 0 <= u < |w.at| && w.at[u].Holding? && w.sh.tokens < CAPACITY
  {
    SetIsOpen(w, t);
    OnlyMoverIs(w, t);
    if w.sh.tokens != 1 {
      var u := SomeHolder(w.at);
    }
  }

  /** A waiter gets the token only while the toggle is on, or while a Set(false) is still in progress. */
  lemma WaitEndsOnlyWhenOn(w: World, w': World, t: nat)
    requires Invariant(w) && StepsTo(w, w', t) && w'.at[t].Holding?
    ensures w.sh.state || Moving(w, false)
  {
    assert w.sh.tokens > 0;
  }

  /** Wait returns nil only from holding the token. */
  lemma NilOnlyAfterToken(w: World, w': World, t: nat)
    requires StepsTo(w, w', t) && w'.at[t] == Returned(Nil)
    ensures w.at[t].Holding? && !w.sh.closed
  {
  }

  /** While it holds the mutex, State sees exactly what the token says. */
  lemma StateReadsToken(w: World, w': World, t: nat)
    requires Invariant(w) && !w.sh.closed && StepsTo(w, w', t) && w'.at[t].StateRead?
    ensures w'.at[t].seen <==> w.sh.tokens + Holders(w.at) == 1
  {
    assert Critical(w.at[t]);
    OnlyMoverIs(w, t);
  }

  // ---- Deadlock.

  /** The goroutine is in a call and can move without its context being cancelled. */
  predicate CanMove(s: Shared, c: Counter) {
    match c
    case Idle | Returned(_) | StateRead(_) | Panicked => false
    case WaitEntry | SetEntry(_) | StateEntry | CloseEntry => s.lock.None?
    case Selecting => s.tokens > 0 || s.closed
    case Holding => s.closed || s.tokens < CAPACITY
    case SetMoving(to) => if to then s.tokens < CAPACITY else s.tokens > 0
    case WaitLocked | SetLocked(_) | SetMoved(_) | StateLocked | CloseLocked | Closing => true
  }

  /** CanMove says what it means: there is such a step. */
  lemma CanMoveExactly(w: World, t: nat)
    requires t < |w.at|
    ensures CanMove(w.sh, w.at[t]) <==>
            !Finished(w.at[t]) && exists w' :: StepsTo(w, w', t) && w'.at[t] != Returned(ContextError)
  {
    if CanMove(w.sh, w.at[t]) {
      var (s', c') := ANextStep(w.sh, w.at[t], t);
      LocalCalls(w.sh, w.at[t], s', c', t);
      var w' := World(s', w.at[t := c']);
      assert StepsTo(w, w', t) && w'.at[t] != Returned(ContextError);
    } else if !Finished(w.at[t]) {
      forall w' | StepsTo(w, w', t)
        ensures w'.at[t] == Returned(ContextError)
      {
        BlockedLocally(w.sh, w.at[t], w'.sh, w'.at[t], t);
      }
    }
  }

  lemma BlockedLocally(s: Shared, c: Counter, s': Shared, c': Counter, t: nat)
    requires !CanMove(s, c) && !Finished(c) && Local(s, c, s', c', t)
    ensures c' == Returned(ContextError)
  {
  }

  function ANextStep(s: Shared, c: Counter, t: nat): (r: (Shared, Counter))
    requires CanMove(s, c)
    ensures Local(s, c, r.0, r.1, t) && r.1 != Returned(ContextError) && !r.1.SetEntry? && !r.1.CloseEntry?
  {
    match c
    case WaitEntry => (s.(lock := Some(t)), WaitLocked)
    case WaitLocked => (s.(lock := None, made := true), Selecting)
    case Selecting => if s.tokens > 0 then (s.(tokens := s.tokens - 1), Holding) else (s, Returned(ErrToggleClosed))
    case Holding => if s.closed then (s, Panicked) else (s.(tokens := s.tokens + 1), Returned(Nil))
    case SetEntry(to) => (s.(lock := Some(t)), SetLocked(to))
    case SetLocked(to) =>
      if s.state == to then (s, SetMoved(to)) else (s.(state := to, made := true), SetMoving(to))
    case SetMoving(to) => (s.(tokens := if to then s.tokens + 1 else s.tokens - 1), SetMoved(to))
    case SetMoved(to) => (s.(lock := None), Idle)
    case StateEntry => (s.(lock := Some(t)), StateLocked)
    case StateLocked => (s.(lock := None), StateRead(s.state))
    case CloseEntry => (s.(lock := Some(t)), CloseLocked)
    case CloseLocked => (s.(lock := None, made := true), Closing)
    case Closing => (s.(closed := true), Idle)
  }

  ghost predicate AllBlocked(w: World) {
    forall t :: 0 <= t < |w.at| ==> !CanMove(w.sh, w.at[t])
  }

  /** The goroutine is not in a call, or waits on a toggle that is off. */
  ghost predicate AtRest(w: World, t: nat)
    requires t < |w.at|
  {
    Finished(w.at[t]) || w.at[t].Panicked? || (w.at[t].Selecting? && !w.sh.state && !w.sh.closed)
  }

  /** Nothing can move exactly when every call is a Wait on a toggle that is off: there is no deadlock. */
  lemma BlockedExactly(w: World)
    requires Invariant(w)
    ensures AllBlocked(w) <==> forall t :: 0 <= t < |w.at| ==> AtRest(w, t)
  {
    if AllBlocked(w) {
      MutexIsFree(w);
      OneToken(w);
      if Holders(w.at) >= 1 {
        var u := HolderMoves(w);
      }
      forall t | 0 <= t < |w.at|
        ensures AtRest(w, t)
      {
        assert !CanMove(w.sh, w.at[t]);
        assert !Critical(w.at[t]);
        if w.at[t].Holding? {
          HolderCounts(w.at, t);
        }
      }
    }
    if forall t :: 0 <= t < |w.at| ==> AtRest(w, t) {
      AtRestHasNoToken(w);
    }
  }

  /** Whoever holds the mutex can move, or the waiter it waits for can. */
  lemma MutexHolderMoves(w: World) returns (u: nat)
    requires Invariant(w) && w.sh.lock.Some?
    ensures u < |w.at| && CanMove(w.sh, w.at[u])
  {
    u := w.sh.lock.value;
    assert Critical(w.at[u]);
    if w.at[u] == SetMoving(true) {
      SetTrueNeverBlocks(w, u);
    } else if w.at[u] == SetMoving(false) {
      SetFalseCanProceed(w, u);
      if w.sh.tokens != 1 {
        u :| 0 <= u < |w.at| && w.at[u].Holding? && w.sh.tokens < CAPACITY;
      }
    }
  }

  lemma HolderMoves(w: World) returns (u: nat)
    requires Invariant(w) && Holders(w.at) >= 1
    ensures u < |w.at| && CanMove(w.sh, w.at[u])
  {
    u := SomeHolder(w.at);
    ResendNeverBlocks(w, u);
  }

  lemma MutexIsFree(w: World)
    requires Invariant(w) && AllBlocked(w)
    ensures w.sh.lock.None?
  {
    if w.sh.lock.Some? {
      var u := MutexHolderMoves(w);
    }
  }

  lemma AtRestHasNoToken(w: World)
    requires Invariant(w) && forall t :: 0 <= t < |w.at| ==> AtRest(w, t)
    ensures AllBlocked(w)
  {
    forall t | 0 <= t < |w.at|
      ensures !Critical(w.at[t])
    {
      assert AtRest(w, t);
    }
    NobodyMoves(w);
    forall t | 0 <= t < |w.at|
      ensures !CanMove(w.sh, w.at[t])
    {
      assert AtRest(w, t);
    }
  }

  // ---- Close.

  /** Closing a toggle that is off is safe: from then on no waiter panics, and each returns ErrToggleClosed. */
  lemma ClosedWhenOff(w: World, w': World, t: nat)
    requires Invariant(w) && w.sh.closed && !w.sh.state && StepsTo(w, w', t)
    ensures w'.sh.closed && !w'.sh.state && !w'.at[t].Panicked?
    ensures w.at[t].Selecting? ==> w'.at[t] == Returned(ErrToggleClosed) || w'.at[t] == Returned(ContextError)
  {
    LocalCalls(w.sh, w.at[t], w'.sh, w'.at[t], t);
    LocalPrepares(w.sh, w.at[t], w'.sh, w'.at[t], t);
    assert InSet(w.at[t]) || !w.at[t].SetLocked?;
    if w.at[t].Holding? {
      HolderCounts(w.at, t);
    }
    assert !InSet(w.at[t]);
  }

  /** Closing a toggle that is on leaves its token behind ... */
  lemma ClosingLeavesToken(w: World, w': World, t: nat)
    requires Invariant(w) && StepsTo(w, w', t) && !w.sh.closed && w'.sh.closed
    ensures w'.sh.tokens + Holders(w'.at) == if w.sh.state then 1 else 0
  {
    LocalCalls(w.sh, w.at[t], w'.sh, w'.at[t], t);
    HoldersUpdate(w.at, t, w'.at[t]);
    DueWhenClosed(w);
  }

  /** The goroutine can go on to panic by its own next one or two steps. */
  ghost predicate CanPanic(w: World, t: nat) {
    || (exists w1 :: StepsTo(w, w1, t) && t < |w1.at| && w1.at[t].Panicked?)
    || (exists w1, w2 :: StepsTo(w, w1, t) && StepsTo(w1, w2, t) && w2.at[t].Panicked?)
  }

  /**
   ... and, contrary to the documentation of Close, whoever takes it, or has taken it already, panics: on a closed
   toggle a waiter can go on to panic exactly when it holds the token or there is one to take.
   */
  lemma WaiterPanicsExactly(w: World, t: nat)
    requires Invariant(w) && w.sh.closed && t < |w.at| && (w.at[t].Selecting? || w.at[t].Holding?)
    ensures CanPanic(w, t) <==> w.at[t].Holding? || w.sh.tokens > 0
  {
    if w.at[t].Holding? {
      var w1 := World(w.sh, w.at[t := Panicked]);
      assert StepsTo(w, w1, t);
    } else if w.sh.tokens > 0 {
      var w1 := World(w.sh.(tokens := w.sh.tokens - 1), w.at[t := Holding]);
      var w2 := World(w1.sh, w.at[t := Panicked]);
      assert StepsTo(w, w1, t);
      assert w1.at[t := Panicked] == w2.at;
      assert StepsTo(w1, w2, t);
    }
  }

  // ---- Every continuation after Close.

  function Last(run: seq<World>): World
    requires run != []
  {
    run[|run| - 1]
  }

  ghost predicate SomePanic(w: World) {
    exists t :: 0 <= t < |w.at| && w.at[t].Panicked?
  }

  /** The run can go on until some goroutine has panicked, one already waiting or one yet to come. */
  ghost predicate CanEndInPanic(run: seq<World>, schedule: seq<nat>) {
    exists longer, steps :: run <= longer && schedule <= steps && IsRun(longer, steps) && SomePanic(Last(longer))
  }

  lemma Extend(run: seq<World>, schedule: seq<nat>, w: World, t: nat)
    requires IsRun(run, schedule) && StepsTo(Last(run), w, t)
    ensures IsRun(run + [w], schedule + [t])
  {
    hide StepsTo, Initial;
    var longer, steps := run + [w], schedule + [t];
    forall i | 0 <= i < |steps|
      ensures StepsTo(longer[i], longer[i + 1], steps[i])
    {
      assert i < |schedule| ==> StepsTo(run[i], run[i + 1], schedule[i]);
    }
  }

  /** On its way through Wait to a panic: the token is in its hands, or still to be had. */
  predicate OnTheWay(s: Shared, c: Counter) {
    match c
    case Idle | WaitEntry => s.closed && s.tokens == 1 && s.lock.None?
    case WaitLocked | Selecting => s.closed && s.tokens == 1
    case Holding => s.closed
    case _ => false
  }

  function StepsToGo(c: Counter): nat {
    match c
    case Idle => 5
    case WaitEntry => 4
    case WaitLocked => 3
    case Selecting => 2
    case _ => 1
  }

  function OnwardStep(s: Shared, c: Counter, t: nat): (r: (Shared, Counter))
    requires OnTheWay(s, c)
    ensures Local(s, c, r.0, r.1, t) && !r.1.SetEntry? && !r.1.CloseEntry?
    ensures r.1.Panicked? || (OnTheWay(r.0, r.1) && StepsToGo(r.1) < StepsToGo(c))
  {
    if c.Idle? then (s, WaitEntry) else ANextStep(s, c, t)
  }

  lemma {:induction false} WaiterGoesOn(run: seq<World>, schedule: seq<nat>, t: nat)
    requires IsRun(run, schedule) && t < |Last(run).at| && OnTheWay(Last(run).sh, Last(run).at[t])
    ensures CanEndInPanic(run, schedule)
    decreases StepsToGo(Last(run).at[t])
  {
    hide Local, OnTheWay, StepsToGo, Initial;
    var w := Last(run);
    var (s, c) := OnwardStep(w.sh, w.at[t], t);
    var w' := World(s, w.at[t := c]);
    assert StepsTo(w, w', t);
    Extend(run, schedule, w', t);
    var longer, steps := run + [w'], schedule + [t];
    assert Last(longer) == w' && run <= longer && schedule <= steps;
    if c.Panicked? {
      assert SomePanic(w');
    } else {
      WaiterGoesOn(longer, steps, t);
      PanicComesSooner(run, schedule, longer, steps);
    }
  }

  lemma PanicComesSooner(run: seq<World>, schedule: seq<nat>, longer: seq<World>, steps: seq<nat>)
    requires run <= longer && schedule <= steps && CanEndInPanic(longer, steps)
    ensures CanEndInPanic(run, schedule)
  {
    hide SomePanic, StepsTo, Initial;
    var r, s :| longer <= r && steps <= s && IsRun(r, s) && SomePanic(Last(r));
    assert run <= r && schedule <= s;
  }

  /** Whoever holds the mutex of a closed toggle is in Wait or State, and lets go of it by one step. */
  lemma MutexIsLetGo(run: seq<World>, schedule: seq<nat>) returns (w: World, u: nat)
    requires IsRun(run, schedule) && Last(run).sh.closed && Last(run).sh.lock.Some?
    ensures u < |Last(run).at| && Critical(Last(run).at[u]) && IsRun(run + [w], schedule + [u])
    ensures |w.at| == |Last(run).at| && w.at == Last(run).at[u := w.at[u]]
    ensures w.sh.lock.None? && w.sh.closed && w.sh.tokens == Last(run).sh.tokens
  {
    RunsKeepInvariant(run, schedule, |run| - 1);
    var before := Last(run);
    u := before.sh.lock.value;
    assert Critical(before.at[u]) && !InSet(before.at[u]) && !InClose(before.at[u]);
    var (s, c) := ANextStep(before.sh, before.at[u], u);
    w := World(s, before.at[u := c]);
    Extend(run, schedule, w, u);
  }

  lemma {:induction false} StaysOff(run: seq<World>, schedule: seq<nat>, k: nat, i: nat)
    requires IsRun(run, schedule) && k <= i < |run| && run[k].sh.closed && !run[k].sh.state
    ensures run[i].sh.closed && !run[i].sh.state && !SomePanic(run[i])
    decreases i
  {
    hide IsRun, StepsTo, Invariant, SomePanic;
    RunsKeepInvariant(run, schedule, i);
    NobodyPanickedOff(run[i]);
    if i > k {
      StaysOff(run, schedule, k, i - 1);
      RunsKeepInvariant(run, schedule, i - 1);
      RunStep(run, schedule, i - 1);
      ClosedWhenOff(run[i - 1], run[i], schedule[i - 1]);
    }
  }

  lemma RunStep(run: seq<World>, schedule: seq<nat>, i: nat)
    requires IsRun(run, schedule) && i < |run| - 1
    ensures i < |schedule| && StepsTo(run[i], run[i + 1], schedule[i])
  {
  }

  lemma NobodyPanickedOff(w: World)
    requires Invariant(w)
    ensures !w.sh.state ==> !SomePanic(w)
  {
  }

  /** From the moment of Close, the run can go on to a panic exactly when the toggle was on. */
  lemma PanicAfterCloseExactly(run: seq<World>, schedule: seq<nat>)
    requires IsRun(run, schedule) && |schedule| > 0 && !run[|schedule| - 1].sh.closed && Last(run).sh.closed
    ensures CanEndInPanic(run, schedule) <==> run[|schedule| - 1].sh.state
  {
    hide IsRun, StepsTo, Invariant, SomePanic;
    var k := |schedule| - 1;
    ClosingStep(run, schedule);
    if run[k].sh.state {
      OnLeadsToPanic(run, schedule, schedule[k]);
    } else {
      forall longer, steps | run <= longer && schedule <= steps && IsRun(longer, steps)
        ensures !SomePanic(Last(longer))
      {
        StaysOff(longer, steps, k + 1, |longer| - 1);
      }
    }
  }

  lemma ClosingStep(run: seq<World>, schedule: seq<nat>)
    requires IsRun(run, schedule) && |schedule| > 0 && !run[|schedule| - 1].sh.closed && Last(run).sh.closed
    ensures var (w, w', t) := (run[|schedule| - 1], Last(run), schedule[|schedule| - 1]);
            |run| == |schedule| + 1 && w'.sh.state == w.sh.state && t < |w'.at| && w'.at[t].Idle? &&
            w'.sh.tokens + Holders(w'.at) == if w.sh.state then 1 else 0
  {
    var k := |schedule| - 1;
    RunsKeepInvariant(run, schedule, k);
    assert StepsTo(run[k], run[k + 1], schedule[k]);
    ClosingLeavesToken(run[k], run[k + 1], schedule[k]);
    LocalCalls(run[k].sh, run[k].at[schedule[k]], run[k + 1].sh, run[k + 1].at[schedule[k]], schedule[k]);
  }

  /** A waiter with the token panics; otherwise the goroutine that closed can call Wait, once the mutex is free. */
  lemma OnLeadsToPanic(run: seq<World>, schedule: seq<nat>, t: nat)
    requires IsRun(run, schedule) && Last(run).sh.closed && t < |Last(run).at| && Last(run).at[t].Idle?
    requires Last(run).sh.tokens + Holders(Last(run).at) == 1
    ensures CanEndInPanic(run, schedule)
  {
    hide CanEndInPanic, StepsTo, Initial;
    var w := Last(run);
    if Holders(w.at) >= 1 {
      var u := SomeHolder(w.at);
      WaiterGoesOn(run, schedule, u);
    } else if w.sh.lock.None? {
      WaiterGoesOn(run, schedule, t);
    } else {
      var after, u := MutexIsLetGo(run, schedule);
      assert u != t && after.at[t] == w.at[t];
      assert Last(run + [after]) == after;
      WaiterGoesOn(run + [after], schedule + [u], t);
      PanicComesSooner(run, schedule, run + [after], schedule + [u]);
    }
  }

  /** The state of two goroutines and what they share, in one line. */
  function Two(state: bool, lock: Option<nat>, made: bool, tokens: nat, closed: bool, a: Counter, b: Counter): World {
    World(Shared(state, lock, made, tokens, closed), [a, b])
  }

  /** Goroutine 0 sets a toggle to true and closes it while goroutine 1 waits. */
  const PANIC: seq<World> := [
    Two(false, None, false, 0, false, Idle, Idle),
    Two(false, None, false, 0, false, SetEntry(true), Idle),
    Two(false, Some(0), false, 0, false, SetLocked(true), Idle),
    Two(true, Some(0), true, 0, false, SetMoving(true), Idle),
    Two(true, Some(0), true, 1, false, SetMoved(true), Idle),
    Two(true, None, true, 1, false, Idle, Idle),
    Two(true, None, true, 1, false, Idle, WaitEntry),
    Two(true, Some(1), true, 1, false, Idle, WaitLocked),
    Two(true, None, true, 1, false, Idle, Selecting),
    Two(true, None, true, 1, false, CloseEntry, Selecting),
    Two(true, Some(0), true, 1, false, CloseLocked, Selecting),
    Two(true, None, true, 1, false, Closing, Selecting),
    Two(true, None, true, 1, true, Idle, Selecting),
    Two(true, None, true, 0, true, Idle, Holding),
    Two(true, None, true, 0, true, Idle, Panicked)
  ]

  const PANIC_SCHEDULE: seq<nat> := [0, 0, 0, 0, 0, 1, 1, 1, 0, 0, 0, 0, 1, 1]

  /** A run, all of it allowed by the documentation, in which a waiter panics. */
  lemma PanicIsReachable()
    ensures IsRun(PANIC, PANIC_SCHEDULE) && PANIC[14].at[1].Panicked?
  {
    forall i | 0 <= i < 14
      ensures StepsTo(PANIC[i], PANIC[i + 1], PANIC_SCHEDULE[i])
    {
      if i < 5 {
        SettingSteps(i);
      } else if i < 9 {
        WaitingSteps(i);
      } else {
        ClosingSteps(i);
      }
    }
  }

  lemma SettingSteps(i: nat)
    requires i < 5
    ensures StepsTo(PANIC[i], PANIC[i + 1], PANIC_SCHEDULE[i])
  {
  }

  lemma WaitingSteps(i: nat)
    requires 5 <= i < 9
    ensures StepsTo(PANIC[i], PANIC[i + 1], PANIC_SCHEDULE[i])
  {
  }

  lemma ClosingSteps(i: nat)
    requires 9 <= i < 14
    ensures StepsTo(PANIC[i], PANIC[i + 1], PANIC_SCHEDULE[i])
  {
  }

  // ---- Whole calls of Wait.

  predicate InWait(c: Counter) {
    c.WaitEntry? || c.WaitLocked? || c.Selecting? || c.Holding?
  }

  /** A call of Wait by goroutine t begins at state j and is not over before state k. */
  ghost predicate WaitsFrom(run: seq<World>, t: nat, j: nat, k: nat) {
    && j <= k <= |run| && (forall i :: j <= i < k ==> t < |run[i].at| && InWait(run[i].at[t]))
    && (j < k ==> run[j].at[t].WaitEntry?)
  }

  /** The toggle is on, or a Set(false) has not finished turning it off. */
  ghost predicate OnOrTurningOff(w: World) {
    w.sh.state || Moving(w, false)
  }

  /** The call of Wait that t is in at state k began at state j, and if it took the token, then while there was one. */
  ghost predicate CameBy(run: seq<World>, t: nat, k: nat, j: nat)
    requires k < |run| && t < |run[k].at|
  {
    && j <= k && WaitsFrom(run, t, j, k + 1)
    && (run[k].at[t].Holding? ==> exists m :: j <= m < k && OnOrTurningOff(run[m]))
  }

  lemma {:induction false} WaitHistory(run: seq<World>, schedule: seq<nat>, t: nat, k: nat) returns (j: nat)
    requires IsRun(run, schedule) && k < |run| && t < |run[k].at| && InWait(run[k].at[t])
    ensures CameBy(run, t, k, j)
    decreases k
  {
    hide Local, Invariant, Moving;
    assert k > 0;
    var w, w', u := run[k - 1], run[k], schedule[k - 1];
    assert StepsTo(w, run[k - 1 + 1], u);
    if u == t {
      WaitsOn(w.sh, w.at[t], w'.sh, w'.at[t], t);
    }
    if u == t && w'.at[t].WaitEntry? {
      j := k;
    } else {
      j := WaitHistory(run, schedule, t, k - 1);
      if u == t && w'.at[t].Holding? {
        RunsKeepInvariant(run, schedule, k - 1);
        WaitEndsOnlyWhenOn(w, w', t);
        assert OnOrTurningOff(run[k - 1]);
      }
    }
  }

  /** A step into a call of Wait begins it or comes from within it. */
  lemma WaitsOn(s: Shared, c: Counter, s': Shared, c': Counter, t: nat)
    requires Local(s, c, s', c', t) && InWait(c')
    ensures c'.WaitEntry? || InWait(c)
  {
  }

  /** Wait returned nil at state r, called from state j on, and at state m the toggle was on or being turned off. */
  ghost predicate SawItOn(run: seq<World>, t: nat, k: nat, j: nat, m: nat, r: nat) {
    && j <= m < r <= k < |run| && WaitsFrom(run, t, j, r) && OnOrTurningOff(run[m])
    && forall i :: r <= i <= k ==> t < |run[i].at| && run[i].at[t] == Returned(Nil)
  }

  /** In every run: a call of Wait that returned nil had a moment when the toggle was on or a Set(false) in progress. */
  lemma {:induction false} NilMeansOn(run: seq<World>, schedule: seq<nat>, t: nat, k: nat)
    requires IsRun(run, schedule) && k < |run| && t < |run[k].at| && run[k].at[t] == Returned(Nil)
    ensures exists j, m, r :: SawItOn(run, t, k, j, m, r)
    decreases k
  {
    hide Local, Moving;
    assert k > 0;
    var w, w', u := run[k - 1], run[k], schedule[k - 1];
    assert StepsTo(w, run[k - 1 + 1], u);
    if u == t {
      ReturnsFromHolding(w.sh, w.at[t], w'.sh, w'.at[t], t);
      var j := WaitHistory(run, schedule, t, k - 1);
      var m :| j <= m < k - 1 && OnOrTurningOff(run[m]);
      assert SawItOn(run, t, k, j, m, k);
    } else {
      NilMeansOn(run, schedule, t, k - 1);
      var j, m, r :| SawItOn(run, t, k - 1, j, m, r);
      assert SawItOn(run, t, k, j, m, r);
    }
  }

  lemma ReturnsFromHolding(s: Shared, c: Counter, s': Shared, c': Counter, t: nat)
    requires Local(s, c, s', c', t) && c' == Returned(Nil)
    ensures c.Holding?
  {
  }

  // ---- What Set sets.

  /** The step out of SetLocked decides: by it, Set takes effect. */
  ghost predicate TakesEffect(run: seq<World>, schedule: seq<nat>, i: nat, to: bool)
    requires i < |run| && i < |schedule|
  {
    schedule[i] < |run[i].at| && run[i].at[schedule[i]] == SetLocked(to)
  }

  /** The value of the last Set to take effect before state k, or false. */
  ghost function LastSet(run: seq<World>, schedule: seq<nat>, k: nat): bool
    requires k <= |schedule| < |run|
  {
    if k == 0 then false
    else if TakesEffect(run, schedule, k - 1, true) then true
    else if TakesEffect(run, schedule, k - 1, false) then false
    else LastSet(run, schedule, k - 1)
  }

  lemma LocalSets(s: Shared, c: Counter, s': Shared, c': Counter, t: nat)
    requires Local(s, c, s', c', t)
    ensures s'.state == if c.SetLocked? then c.to else s.state
  {
  }

  /** In every run the state is the value of the last Set. */
  lemma {:induction false} StateIsLastSet(run: seq<World>, schedule: seq<nat>, k: nat)
    requires IsRun(run, schedule) && k < |run|
    ensures run[k].sh.state == LastSet(run, schedule, k)
  {
    hide Local;
    if k > 0 {
      StateIsLastSet(run, schedule, k - 1);
      var t := schedule[k - 1];
      assert StepsTo(run[k - 1], run[k - 1 + 1], t);
      LocalSets(run[k - 1].sh, run[k - 1].at[t], run[k].sh, run[k].at[t], t);
    }
  }

  /** In every run State returns the value of the last Set. */
  lemma StateReturnsLastSet(run: seq<World>, schedule: seq<nat>, k: nat)
    requires IsRun(run, schedule) && k < |schedule|
    requires schedule[k] < |run[k + 1].at| && run[k + 1].at[schedule[k]].StateRead?
    ensures run[k + 1].at[schedule[k]].seen == LastSet(run, schedule, k)
  {
    StateIsLastSet(run, schedule, k);
    RunStep(run, schedule, k);
  }

  /** In every run a Set(to) that returns leaves the toggle at to, with the token where that says. */
  lemma SetLeavesItSet(run: seq<World>, schedule: seq<nat>, k: nat, to: bool)
    requires IsRun(run, schedule) && k < |schedule|
    requires schedule[k] < |run[k].at| && run[k].at[schedule[k]] == SetMoved(to)
    ensures run[k + 1].at[schedule[k]].Idle? && run[k + 1].sh.state == to == LastSet(run, schedule, k + 1)
    ensures run[k + 1].sh.lock.None? && run[k + 1].sh.tokens + Holders(run[k + 1].at) == if to then 1 else 0
  {
    assert |run| == |schedule| + 1;
    hide *;
    RunsKeepInvariant(run, schedule, k);
    RunsKeepInvariant(run, schedule, k + 1);
    RunStep(run, schedule, k);
    StateIsLastSet(run, schedule, k + 1);
    SetReturns(run[k], run[k + 1], schedule[k], to);
    OneToken(run[k + 1]);
  }

  lemma SetReturns(w: World, w': World, t: nat, to: bool)
    requires Invariant(w) && StepsTo(w, w', t) && w.at[t] == SetMoved(to)
    ensures w'.at[t].Idle? && w'.sh == w.sh.(lock := None) && w.sh.state == to && !w.sh.closed
  {
    hide TokensDue, Exclusive;
    assert InSet(w.at[t]);
  }

  /** From the return of a Set(false) on, no Set(true) takes effect before state k. */
  ghost predicate TurnedOff(run: seq<World>, schedule: seq<nat>, i: nat, k: nat)
    requires i < k < |run| == |schedule| + 1
  {
    && schedule[i] < |run[i].at| && run[i].at[schedule[i]] == SetMoved(false)
    && forall x :: i < x < k ==> !TakesEffect(run, schedule, x, true)
  }

  lemma {:induction false} RemainsOff(run: seq<World>, schedule: seq<nat>, i: nat, k: nat)
    requires IsRun(run, schedule) && i < k < |run| && TurnedOff(run, schedule, i, k)
    ensures !OnOrTurningOff(run[k])
    decreases k
  {
    hide IsRun, StepsTo, Invariant, Moving;
    RunsKeepInvariant(run, schedule, k);
    RunStep(run, schedule, k - 1);
    if k == i + 1 {
      SetLeavesItSet(run, schedule, i, false);
      NobodyMoves(run[k]);
    } else {
      RemainsOff(run, schedule, i, k - 1);
      assert !TakesEffect(run, schedule, k - 1, true);
      OffStep(run[k - 1], run[k], schedule[k - 1]);
    }
  }

  lemma OffStep(w: World, w': World, t: nat)
    requires StepsTo(w, w', t) && !OnOrTurningOff(w) && w.at[t] != SetLocked(true)
    ensures !OnOrTurningOff(w')
  {
    LocalSets(w.sh, w.at[t], w'.sh, w'.at[t], t);
    LocalTokens(w.sh, w.at[t], w'.sh, w'.at[t], t);
    hide Local;
    forall u | 0 <= u < |w'.at|
      ensures w'.at[u] != SetMoving(false)
    {
      assert u != t ==> w'.at[u] == w.at[u];
    }
  }

  /** A Wait begun after a Set(false) has returned does not return nil unless a later Set(true) takes effect. */
  lemma OffMeansNoNil(run: seq<World>, schedule: seq<nat>, t: nat, i: nat, j: nat, k: nat)
    requires IsRun(run, schedule) && i < j - 1 < j < k < |run| && TurnedOff(run, schedule, i, k)
    requires t < |run[j - 1].at| && !InWait(run[j - 1].at[t]) && WaitsFrom(run, t, j, k)
    requires t < |run[k].at|
    ensures run[k].at[t] != Returned(Nil)
  {
    hide Local, Moving, Invariant;
    RunStep(run, schedule, k - 1);
    assert InWait(run[k - 1].at[t]);
    if schedule[k - 1] == t && run[k].at[t] == Returned(Nil) {
      ReturnsFromHolding(run[k - 1].sh, run[k - 1].at[t], run[k].sh, run[k].at[t], t);
      var start := WaitHistory(run, schedule, t, k - 1);
      var m :| start <= m < k - 1 && OnOrTurningOff(run[m]);
      assert start >= j;
      RemainsOff(run, schedule, i, m);
    }
  }

  // ---- What Set(true) is for.

  /** On an open toggle that is on, with no Set about to provide the token, a waiter can go on to return nil. */
  lemma OnCanReturnNil(run: seq<World>, schedule: seq<nat>, t: nat)
    requires IsRun(run, schedule) && t < |Last(run).at| && Last(run).at[t].Selecting?
    requires !Last(run).sh.closed && Last(run).sh.state && !Moving(Last(run), true)
    ensures CanReturnNil(run, schedule, t)
  {
    hide StepsTo, Initial, CanReturnNil;
    RunsKeepInvariant(run, schedule, |run| - 1);
    var w := Last(run);
    NoOffWhileOn(w);
    if w.sh.tokens == 1 {
      TakeAndResend(run, schedule, t);
    } else {
      var u := SomeHolder(w.at);
      var after := Resend(run, schedule, u);
      TakeAndResend(run + [after], schedule + [u], t);
      NilComesSooner(run, schedule, run + [after], schedule + [u], t);
    }
  }

  ghost predicate CanReturnNil(run: seq<World>, schedule: seq<nat>, t: nat) {
    exists longer, steps :: run <= longer && schedule <= steps && IsRun(longer, steps) &&
                            t < |Last(longer).at| && Last(longer).at[t] == Returned(Nil)
  }

  lemma NoOffWhileOn(w: World)
    requires Invariant(w) && w.sh.state && !w.sh.closed && !Moving(w, true)
    ensures w.sh.tokens + Holders(w.at) == 1
  {
  }

  lemma Resend(run: seq<World>, schedule: seq<nat>, u: nat) returns (w: World)
    requires IsRun(run, schedule) && u < |Last(run).at| && Last(run).at[u].Holding? && !Last(run).sh.closed
    ensures w == World(Last(run).sh.(tokens := 1), Last(run).at[u := Returned(Nil)])
    ensures IsRun(run + [w], schedule + [u])
  {
    RunsKeepInvariant(run, schedule, |run| - 1);
    ResendNeverBlocks(Last(run), u);
    w := World(Last(run).sh.(tokens := 1), Last(run).at[u := Returned(Nil)]);
    Extend(run, schedule, w, u);
  }

  lemma TakeAndResend(run: seq<World>, schedule: seq<nat>, t: nat)
    requires IsRun(run, schedule) && t < |Last(run).at| && Last(run).at[t].Selecting?
    requires !Last(run).sh.closed && Last(run).sh.tokens == 1
    ensures CanReturnNil(run, schedule, t)
  {
    hide StepsTo, Initial, Invariant;
    var took := Take(run, schedule, t);
    var back := Resend(run + [took], schedule + [t], t);
    var longer, steps := run + [took] + [back], schedule + [t] + [t];
    assert run <= longer && schedule <= steps && Last(longer) == back;
  }

  lemma Take(run: seq<World>, schedule: seq<nat>, t: nat) returns (w: World)
    requires IsRun(run, schedule) && t < |Last(run).at| && Last(run).at[t].Selecting? && Last(run).sh.tokens == 1
    ensures w == World(Last(run).sh.(tokens := 0), Last(run).at[t := Holding])
    ensures IsRun(run + [w], schedule + [t])
  {
    w := World(Last(run).sh.(tokens := 0), Last(run).at[t := Holding]);
    Extend(run, schedule, w, t);
  }

  lemma NilComesSooner(run: seq<World>, schedule: seq<nat>, longer: seq<World>, steps: seq<nat>, t: nat)
    requires run <= longer && schedule <= steps && CanReturnNil(longer, steps, t)
    ensures CanReturnNil(run, schedule, t)
  {
    hide StepsTo, Initial;
    var r, s :| longer <= r && steps <= s && IsRun(r, s) && t < |Last(r).at| && Last(r).at[t] == Returned(Nil);
    assert run <= r && schedule <= s;
  }

  /** A context that is done ends any Wait that is in its select. */
  lemma WaitCanBeCancelled(w: World, t: nat)
    requires t < |w.at| && w.at[t].Selecting?
    ensures StepsTo(w, World(w.sh, w.at[t := Returned(ContextError)]), t)
  {
  }
}
