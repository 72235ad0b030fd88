/** What holds over every run of the entropy oracle, for consumers that do not call back into it. */
module EntropyRuns {
  import opened EnumerableSet
  import opened Sequences
  import opened Results
  import opened EntropyOracle

  // ---- Counting.

  /** How often an event of this kind happened to a callback of a block. */
  function Count(log: seq<Event>, kind: Kind, block: nat, callback: nat): nat {
    if log == [] then 0
    else
      var last := log[|log| - 1];
      Count(log[..|log| - 1], kind, block, callback) +
      if last.kind == kind && last.block == block && last.callback == callback then 1 else 0
  }

  lemma {:induction false} CountConcat(a: seq<Event>, b: seq<Event>, kind: Kind, block: nat, callback: nat)
    ensures Count(a + b, kind, block, callback) == Count(a, kind, block, callback) + Count(b, kind, block, callback)
    decreases |b|
  {
    if b == [] {
      assert a + b == a;
    } else {
      assert (a + b)[..|a + b| - 1] == a + b[..|b| - 1];
      CountConcat(a, b[..|b| - 1], kind, block, callback);
    }
  }

  function IsPending(s: State, block: nat, callback: nat): nat {
    if callback in s.Pending(block) then 1 else 0
  }

  /** Registrations are accounted for: whatever is not pending any more was removed or delivered. */
  ghost predicate Balanced(s: State, log: seq<Event>, t: State, block: nat, c: nat) {
    IsPending(s, block, c) + Count(log, Registered, block, c) ==
    IsPending(t, block, c) + Count(log, Removed, block, c) + Count(log, Triggered, block, c)
  }

  // ---- Triggering.

  lemma {:induction false} SuccessesAmongCalled(called: seq<nat>, ok: nat -> bool)
    requires Distinct(called)
    ensures Distinct(Successes(called, ok))
    ensures forall x: nat :: x in Successes(called, ok) ==> x in called
    ensures forall i :: 0 <= i < |called| ==> (called[i] in Successes(called, ok) <==> ok(i))
    decreases |called|
  {
    if called != [] {
      var k := |called| - 1;
      var before := called[..k];
      SuccessesAmongCalled(before, ok);
      assert called == before + [called[k]];
      SuccessesOfOneMore(before, called[k], Successes(before, ok), ok(k));
      hide Distinct;
      forall i | 0 <= i < |called|
        ensures called[i] in Successes(called, ok) <==> ok(i)
      {
        if i < k {
          assert before[i] == called[i];
        }
      }
    }
  }

  lemma SuccessesOfOneMore(before: seq<nat>, x: nat, some: seq<nat>, ok: bool)
    requires Distinct(before + [x]) && Distinct(some) && forall y: nat :: y in some ==> y in before
    ensures Distinct(some + if ok then [x] else [])
    ensures x !in before && x !in some
    ensures forall y: nat :: y in some + (if ok then [x] else []) <==> y in some || (ok && y == x)
  {
    forall i | 0 <= i < |before|
      ensures before[i] != x
    {
      assert (before + [x])[i] != (before + [x])[|before|];
    }
    assert x !in before && x !in some;
    forall i | 0 <= i < |some|
      ensures some[i] != x
    {
      assert some[i] in some;
    }
  }

  lemma {:induction false} CallEventCounts(block: nat, called: seq<nat>, entropy: nat, ok: nat -> bool, kind: Kind,
                                           b: nat, c: nat)
    requires Distinct(called)
    ensures Count(CallEvents(block, called, entropy, ok), kind, b, c) ==
            if b == block && ((kind == Triggered && c in Successes(called, ok)) ||
                              (kind == Failed && c in called && c !in Successes(called, ok))) then 1 else 0
    decreases |called|
  {
    if called != [] {
      var k := |called| - 1;
      var events := CallEvents(block, called, entropy, ok);
      assert events[..k] == CallEvents(block, called[..k], entropy, ok);
      CallEventCounts(block, called[..k], entropy, ok, kind, b, c);
      SuccessesAmongCalled(called[..k], ok);
      assert called == called[..k] + [called[k]];
      SuccessesOfOneMore(called[..k], called[k], Successes(called[..k], ok), ok(k));
    }
  }

  lemma SuccessfulPosition(pending: seq<nat>, n: nat, ok: nat -> bool, i: nat)
    requires Distinct(pending) && n <= |pending| && i < |pending|
    ensures pending[i] in Successes(pending[..n], ok) <==> i < n && ok(i)
  {
    var called := pending[..n];
    SuccessesAmongCalled(called, ok);
    if i < n {
      assert called[i] == pending[i];
    } else {
      assert pending[i] !in called;
    }
  }

  /**
   _triggerCallbacks calls exactly the first min(length, max) callbacks, once each and in order, and keeps exactly
   those that were not called or whose consumer failed.
   */
  lemma TriggeringIsExact(s: State, block: nat, entropy: nat, max: nat, ok: nat -> bool)
    requires Distinct(s.Pending(block))
    ensures var (t, events) := Triggering(s, block, entropy, max, ok);
            var n := Limit(|s.Pending(block)|, max);
            && |events| == n
            && (forall i :: 0 <= i < n ==>
                  events[i] == Event(if ok(i) then Triggered else Failed, block, s.Pending(block)[i], entropy))
            && (forall i :: 0 <= i < |s.Pending(block)| ==>
                  (s.Pending(block)[i] in t.Pending(block) <==> i >= n || !ok(i)))
            && Distinct(t.Pending(block))
            && (forall c: nat :: c in t.Pending(block) <==>
                  c in s.Pending(block) && Count(events, Triggered, block, c) == 0)
            && (forall b :: b != block ==> t.Pending(b) == s.Pending(b))
            && t.slots == s.slots && t.v1 == s.v1 && t.signer == s.signer
  {
    var pending := s.Pending(block);
    var called := pending[..Limit(|pending|, max)];
    SuccessesAmongCalled(called, ok);
    RemoveBackwardsIsRemoval(pending, Successes(called, ok));
    forall i | 0 <= i < |pending|
      ensures pending[i] in Successes(called, ok) <==> i < |called| && ok(i)
    {
      SuccessfulPosition(pending, |called|, ok, i);
    }
    forall c: nat
      ensures Count(CallEvents(block, called, entropy, ok), Triggered, block, c) ==
              if c in Successes(called, ok) then 1 else 0
    {
      CallEventCounts(block, called, entropy, ok, Triggered, block, c);
    }
  }

  lemma TriggeringBalances(s: State, block: nat, entropy: nat, max: nat, ok: nat -> bool, b: nat, c: nat)
    requires Distinct(s.Pending(block))
    ensures var (t, events) := Triggering(s, block, entropy, max, ok);
            Balanced(s, events, t, b, c) && Count(events, Registered, b, c) == 0
    ensures var (t, events) := Triggering(s, block, entropy, max, ok);
            Count(events, Triggered, b, c) > 0 ==> b == block
  {
    var called := s.Pending(block)[..Limit(|s.Pending(block)|, max)];
    TriggeringIsExact(s, block, entropy, max, ok);
    SuccessesAmongCalled(called, ok);
    RemoveBackwardsIsRemoval(s.Pending(block), Successes(called, ok));
    CallEventCounts(block, called, entropy, ok, Triggered, b, c);
    CallEventCounts(block, called, entropy, ok, Registered, b, c);
    CallEventCounts(block, called, entropy, ok, Removed, b, c);
  }

  // ---- The invariant of a run.

  /** Deliveries carry the block's entropy. */
  ghost predicate Genuine(w: World, s: State, log: seq<Event>) {
    forall i :: 0 <= i < |log| && (log[i].kind == Triggered || log[i].kind == Immediate) ==>
      log[i].value != 0 && log[i].value == s.BlockEntropy(w, log[i].block)
  }

  /** Once entropy can be had for a block, nothing more is registered for it; and a callback is delivered once. */
  ghost predicate Once(w: World, s: State, log: seq<Event>, b: nat, c: nat) {
    && Count(log, Triggered, b, c) + IsPending(s, b, c) <= 1
    && (Count(log, Triggered, b, c) > 0 ==> s.BlockEntropy(w, b) != 0)
  }

  /** Callbacks are duplicate-free, and only blocks whose entropy was requested have any. */
  ghost predicate WellKept(s: State) {
    forall b :: Distinct(s.Pending(b)) && (s.Pending(b) != [] ==> s.Slot(b) > 0)
  }

  ghost predicate AllBalanced(s: State, log: seq<Event>) {
    forall b: nat, c: nat :: Balanced(INITIAL, log, s, b, c)
  }

  ghost predicate AllOnce(w: World, s: State, log: seq<Event>) {
    forall b: nat, c: nat :: Once(w, s, log, b, c)
  }

  ghost predicate Invariant(w: World, s: State, log: seq<Event>) {
    WellKept(s) && Genuine(w, s, log) && AllBalanced(s, log) && AllOnce(w, s, log)
  }

  /**
   Of a block that has entropy, the new override knows the same entropy; or it knows none, and the contract's own slot
   holds it. A steerer can check this before the call.
   */
  ghost predicate Agrees(w: World, s: State, v1: Address, b: nat) {
    var e := s.BlockEntropy(w, b);
    e != 0 ==>
      if v1 != 0 && w.v1Entropy(v1, b) != 0 then w.v1Entropy(v1, b) == e else s.Slot(b) > 1 && s.Slot(b) == e
  }

  ghost predicate KeepsEntropy(w: World, s: State, v1: Address) {
    forall b: nat :: Agrees(w, s, v1, b)
  }

  ghost predicate Steady(w: World, s: State, tx: Tx) {
    tx.SetOverride? && tx.authorised ==> KeepsEntropy(w, s, tx.v1)
  }

  /** What every transaction does to the books of a run. */
  ghost predicate FairStep(w: World, s: State, events: seq<Event>, t: State) {
    && WellKept(t)
    && Genuine(w, t, events)
    && forall b: nat, c: nat :: GoodFor(w, s, events, t, b, c)
  }

  /** What a steady transaction does: it also keeps the entropy there is. */
  ghost predicate GoodStep(w: World, s: State, events: seq<Event>, t: State) {
    && FairStep(w, s, events, t)
    && forall b: nat :: s.BlockEntropy(w, b) != 0 ==> t.BlockEntropy(w, b) == s.BlockEntropy(w, b)
  }

  ghost predicate GoodFor(w: World, s: State, events: seq<Event>, t: State, b: nat, c: nat) {
    && Balanced(s, events, t, b, c)
    && (Count(events, Registered, b, c) > 0 ==> s.BlockEntropy(w, b) == 0 && Count(events, Triggered, b, c) == 0)
    && (Count(events, Triggered, b, c) > 0 ==> t.BlockEntropy(w, b) != 0)
    && Count(events, Registered, b, c) <= 1
  }

  lemma NothingHappens(w: World, s: State)
    requires WellKept(s)
    ensures GoodStep(w, s, [], s)
  {
  }

  lemma GoodTriggering(w: World, s: State, block: nat, entropy: nat, max: nat, ok: nat -> bool)
    requires WellKept(s) && s.BlockEntropy(w, block) == entropy != 0
    ensures var (t, events) := Triggering(s, block, entropy, max, ok); GoodStep(w, s, events, t)
  {
    var (t, events) := Triggering(s, block, entropy, max, ok);
    TriggeringIsExact(s, block, entropy, max, ok);
    forall b: nat, c: nat
      ensures GoodFor(w, s, events, t, b, c)
    {
      TriggeringBalances(s, block, entropy, max, ok, b, c);
    }
    forall b: nat
      ensures Distinct(t.Pending(b)) && (t.Pending(b) != [] ==> t.Slot(b) > 0)
    {
      if b == block && t.Pending(b) != [] {
        assert t.Pending(b)[0] in s.Pending(b);
      }
    }
  }

  lemma OneEvent(e: Event, kind: Kind, b: nat, c: nat)
    ensures Count([e], kind, b, c) == if e.kind == kind && e.block == b && e.callback == c then 1 else 0
  {
    assert [e][..0] == [];
  }

  /** A change that leaves the callbacks and every available entropy alone. */
  lemma GoodQuiet(w: World, s: State, t: State)
    requires WellKept(s) && t.callbacks == s.callbacks
    requires forall b :: s.Slot(b) > 0 ==> t.Slot(b) > 0
    requires forall b: nat :: s.BlockEntropy(w, b) != 0 ==> t.BlockEntropy(w, b) == s.BlockEntropy(w, b)
    ensures GoodStep(w, s, [], t)
  {
    assert forall b :: t.Pending(b) == s.Pending(b);
    forall b: nat, c: nat
      ensures GoodFor(w, s, [], t, b, c)
    {
    }
  }

  lemma WellKeptUpdate(s: State, t: State, block: nat)
    requires WellKept(s) && Distinct(t.Pending(block)) && (t.Pending(block) != [] ==> t.Slot(block) > 0)
    requires forall b :: b != block ==> t.Pending(b) == s.Pending(b) && t.Slot(b) == s.Slot(b)
    ensures WellKept(t)
  {
    forall b
      ensures Distinct(t.Pending(b)) && (t.Pending(b) != [] ==> t.Slot(b) > 0)
    {
      if b != block {
        assert Distinct(s.Pending(b));
      }
    }
  }

  lemma GoodRequest(w: World, s: State, sender: Address, block: nat, id: CallbackId, authorised: bool, consumed: bool)
    requires WellKept(s)
    requires RequestingWithCallback(w, s, sender, block, id, authorised, consumed).Ok?
    ensures var (t, events) := RequestingWithCallback(w, s, sender, block, id, authorised, consumed).value;
            GoodStep(w, s, events, t)
  {
    var (t, events) := RequestingWithCallback(w, s, sender, block, id, authorised, consumed).value;
    var packed := PackCallback(sender, id);
    hide PackCallback;
    AddIsInsertion(s.Pending(block), packed);
    WellKeptUpdate(s, t, block);
    hide WellKept, Distinct;
    forall b: nat, c: nat
      ensures GoodFor(w, s, events, t, b, c)
    {
      if events != [] {
        OneEvent(events[0], Registered, b, c);
        OneEvent(events[0], Removed, b, c);
        OneEvent(events[0], Triggered, b, c);
      }
    }
  }

  lemma GoodProvision(w: World, s: State, entropy: Fulfilment, now: nat, max: nat, ok: nat -> bool)
    requires w.Valid() && WellKept(s) && Providing(w, s, entropy, now, max, ok).Ok?
    ensures var (t, events) := Providing(w, s, entropy, now, max, ok).value; GoodStep(w, s, events, t)
  {
    var b, hashed := entropy.block, w.keccak(entropy.signature);
    var u := s.(slots := s.slots[b := hashed]);
    var (t, events) := Providing(w, s, entropy, now, max, ok).value;
    assert u.BlockEntropy(w, b) == hashed;
    assert WellKept(u) by {
      forall x
        ensures Distinct(u.Pending(x)) && (u.Pending(x) != [] ==> u.Slot(x) > 0)
      {
        assert u.Pending(x) == s.Pending(x);
      }
    }
    hide Distinct, WellKept, Count, CallEvents, Successes, RemoveBackwards;
    GoodTriggering(w, u, b, hashed, max, ok);
    forall x: nat, c: nat
      ensures GoodFor(w, s, events, t, x, c)
    {
      assert GoodFor(w, u, events, t, x, c);
      TriggeringBalances(u, b, hashed, max, ok, x, c);
      assert s.Pending(x) == u.Pending(x);
    }
  }

  lemma GoodSequence(w: World, s: State, first: seq<Event>, t: State, second: seq<Event>, u: State)
    requires GoodStep(w, s, first, t) && GoodStep(w, t, second, u)
    requires forall b: nat, c: nat :: Count(first, Registered, b, c) == 0 && Count(second, Registered, b, c) == 0
    ensures GoodStep(w, s, first + second, u)
    ensures forall b: nat, c: nat :: Count(first + second, Registered, b, c) == 0
  {
    forall b: nat, c: nat
      ensures GoodFor(w, s, first + second, u, b, c) && Count(first + second, Registered, b, c) == 0
    {
      assert GoodFor(w, s, first, t, b, c) && GoodFor(w, t, second, u, b, c);
      CountConcat(first, second, Registered, b, c);
      CountConcat(first, second, Removed, b, c);
      CountConcat(first, second, Triggered, b, c);
    }
  }

  lemma ProvisionRegistersNothing(w: World, s: State, entropy: Fulfilment, now: nat, max: nat, ok: nat -> bool, b: nat,
                                  c: nat)
    requires WellKept(s) && Providing(w, s, entropy, now, max, ok).Ok?
    ensures Count(Providing(w, s, entropy, now, max, ok).value.1, Registered, b, c) == 0
  {
    hide Triggering, Count, Balanced;
    var hashed := w.keccak(entropy.signature);
    var t := s.(slots := s.slots[entropy.block := hashed]);
    assert t.Pending(entropy.block) == s.Pending(entropy.block);
    TriggeringBalances(t, entropy.block, hashed, max, ok, b, c);
  }

  lemma {:induction false} GoodBatch(w: World, s: State, batch: seq<Fulfilment>, now: nat, oks: nat -> (nat -> bool))
    requires w.Valid() && WellKept(s) && ProvidingBatch(w, s, batch, now, oks).Ok?
    ensures var (t, events) := ProvidingBatch(w, s, batch, now, oks).value;
            GoodStep(w, s, events, t) && forall b: nat, c: nat :: Count(events, Registered, b, c) == 0
    decreases |batch|
  {
    if batch == [] {
      NothingHappens(w, s);
    } else {
      var last := |batch| - 1;
      GoodBatch(w, s, batch[..last], now, oks);
      var (t, events) := ProvidingBatch(w, s, batch[..last], now, oks).value;
      assert WellKept(t);
      GoodProvision(w, t, batch[last], now, NO_LIMIT, oks(last));
      var (u, more) := Providing(w, t, batch[last], now, NO_LIMIT, oks(last)).value;
      hide GoodStep, Providing, Count;
      forall b: nat, c: nat
        ensures Count(more, Registered, b, c) == 0
      {
        ProvisionRegistersNothing(w, t, batch[last], now, NO_LIMIT, oks(last), b, c);
      }
      GoodSequence(w, s, events, t, more, u);
    }
  }

  lemma GoodRemoval(w: World, s: State, consumer: Address, id: CallbackId, block: nat)
    requires WellKept(s) && Removing(s, consumer, id, block, true).Ok?
    ensures var (t, events) := Removing(s, consumer, id, block, true).value; GoodStep(w, s, events, t)
  {
    var (t, events) := Removing(s, consumer, id, block, true).value;
    RemoveIsRemoval(s.Pending(block), PackCallback(consumer, id));
    assert s.Pending(block) != [];
    WellKeptUpdate(s, t, block);
    forall b: nat, c: nat
      ensures GoodFor(w, s, events, t, b, c)
    {
      OneEvent(events[0], Registered, b, c);
      OneEvent(events[0], Removed, b, c);
      OneEvent(events[0], Triggered, b, c);
    }
  }

  lemma AgreeingKeeps(w: World, s: State, v1: Address)
    requires KeepsEntropy(w, s, v1)
    ensures forall b: nat :: s.BlockEntropy(w, b) != 0 ==> s.(v1 := v1).BlockEntropy(w, b) == s.BlockEntropy(w, b)
  {
    forall b: nat | s.BlockEntropy(w, b) != 0
      ensures s.(v1 := v1).BlockEntropy(w, b) == s.BlockEntropy(w, b)
    {
      assert Agrees(w, s, v1, b);
    }
  }

  /** Whatever it answers, a new override leaves the callbacks alone. */
  lemma OverrideIsFair(w: World, s: State, v1: Address)
    requires WellKept(s)
    ensures FairStep(w, s, [], s.(v1 := v1))
  {
    var t := s.(v1 := v1);
    assert forall b :: t.Pending(b) == s.Pending(b) && t.Slot(b) == s.Slot(b);
  }

  /** Every transaction keeps the books; a steady one keeps the entropy there is as well. */
  lemma EveryStepIsGood(w: World, s: State, tx: Tx)
    requires w.Valid() && WellKept(s)
    ensures var (t, events) := Step(w, s, tx);
            FairStep(w, s, events, t) && (Steady(w, s, tx) ==> GoodStep(w, s, events, t))
  {
    NothingHappens(w, s);
    if Attempt(w, s, tx).Ok? {
      match tx
      case RequestEntropy(block, authorised) =>
        GoodQuiet(w, s, Step(w, s, tx).0);
      case RequestEntropyWithCallback(sender, block, id, authorised, consumed) =>
        GoodRequest(w, s, sender, block, id, authorised, consumed);
      case ProvideEntropy(entropy, now, max, ok) =>
        GoodProvision(w, s, entropy, now, max, ok);
      case ProvideBatch(batch, now, oks) =>
        GoodBatch(w, s, batch, now, oks);
      case TriggerCallbacks(block, max, ok) =>
        GoodTriggering(w, s, block, s.BlockEntropy(w, block), max, ok);
      case RemoveCallback(consumer, id, block, authorised) =>
        GoodRemoval(w, s, consumer, id, block);
      case SetOverride(v1, authorised) =>
        OverrideIsFair(w, s, v1);
        if Steady(w, s, tx) {
          AgreeingKeeps(w, s, v1);
          GoodQuiet(w, s, s.(v1 := v1));
        }
      case SetSigner(signer, authorised) =>
        GoodQuiet(w, s, s.(signer := signer));
    }
  }

  // ---- Runs.

  function Run(w: World, txs: seq<Tx>): (State, seq<Event>) {
    if txs == [] then (INITIAL, [])
    else
      var (s, log) := Run(w, txs[..|txs| - 1]);
      var (t, events) := Step(w, s, txs[|txs| - 1]);
      (t, log + events)
  }

  /** No transaction of the run changes the override to one that disagrees on a block that has entropy. */
  ghost predicate SteadyRun(w: World, txs: seq<Tx>) {
    txs == [] ||
    (SteadyRun(w, txs[..|txs| - 1]) && Steady(w, Run(w, txs[..|txs| - 1]).0, txs[|txs| - 1]))
  }

  lemma BalanceStep(w: World, s: State, log: seq<Event>, events: seq<Event>, t: State)
    requires AllBalanced(s, log) && FairStep(w, s, events, t)
    ensures AllBalanced(t, log + events)
  {
    hide WellKept, Genuine;
    forall b: nat, c: nat
      ensures Balanced(INITIAL, log + events, t, b, c)
    {
      assert Balanced(INITIAL, log, s, b, c) && GoodFor(w, s, events, t, b, c);
      CountConcat(log, events, Registered, b, c);
      CountConcat(log, events, Removed, b, c);
      CountConcat(log, events, Triggered, b, c);
    }
  }

  /** In every run, whatever its overrides: the callbacks are well kept and every registration is accounted for. */
  lemma {:induction false} RunsBalance(w: World, txs: seq<Tx>)
    requires w.Valid()
    ensures WellKept(Run(w, txs).0) && AllBalanced(Run(w, txs).0, Run(w, txs).1)
    decreases |txs|
  {
    hide Step, WellKept, FairStep, GoodStep, AllBalanced;
    if txs == [] {
      NothingBalances(w);
    } else {
      var before, tx := txs[..|txs| - 1], txs[|txs| - 1];
      RunsBalance(w, before);
      var (s, log) := Run(w, before);
      EveryStepIsGood(w, s, tx);
      BalanceStep(w, s, log, Step(w, s, tx).1, Step(w, s, tx).0);
      assert WellKept(Step(w, s, tx).0) by {
        FairIsWellKept(w, s, Step(w, s, tx).1, Step(w, s, tx).0);
      }
    }
  }

  lemma NothingBalances(w: World)
    ensures WellKept(INITIAL) && AllBalanced(INITIAL, [])
  {
  }

  lemma FairIsWellKept(w: World, s: State, events: seq<Event>, t: State)
    requires FairStep(w, s, events, t)
    ensures WellKept(t)
  {
  }

  /**
   Conservation, over every run: what was registered is pending, removed by the steerer, or delivered by a trigger. So
   there are never more such deliveries than registrations: a trigger does not repeat a successful callback.
   */
  lemma Conservation(w: World, txs: seq<Tx>, block: nat, c: nat)
    requires w.Valid()
    ensures var (s, log) := Run(w, txs);
            && Count(log, Registered, block, c) ==
               IsPending(s, block, c) + Count(log, Removed, block, c) + Count(log, Triggered, block, c)
            && Count(log, Triggered, block, c) <= Count(log, Registered, block, c)
  {
    RunsBalance(w, txs);
    var (s, log) := Run(w, txs);
    assert Balanced(INITIAL, log, s, block, c);
  }

  /** In every run, nothing is registered for a block that has entropy. */
  lemma NoLateRegistration(w: World, txs: seq<Tx>, tx: Tx, block: nat, c: nat)
    requires w.Valid() && Run(w, txs).0.BlockEntropy(w, block) != 0
    ensures Count(Step(w, Run(w, txs).0, tx).1, Registered, block, c) == 0
  {
    RunsBalance(w, txs);
    var s := Run(w, txs).0;
    EveryStepIsGood(w, s, tx);
    var (t, events) := Step(w, s, tx);
    assert GoodFor(w, s, events, t, block, c);
  }

  // ---- Runs that take no entropy away: one delivery.

  /** The block has entropy, and under the new override it has none: neither from it nor in the contract's own slot. */
  ghost predicate Loses(w: World, s: State, v1: Address, b: nat) {
    s.BlockEntropy(w, b) != 0 && !(v1 != 0 && w.v1Entropy(v1, b) != 0) && s.Slot(b) <= 1
  }

  /** The transaction takes no block's entropy away, though it may replace it. */
  ghost predicate TakesNone(w: World, s: State, tx: Tx) {
    tx.SetOverride? && tx.authorised ==> forall b: nat :: !Loses(w, s, tx.v1, b)
  }

  /** No transaction from the n-th on takes entropy away. */
  ghost predicate TakesNoneFrom(w: World, txs: seq<Tx>, n: nat) {
    forall k :: n <= k < |txs| ==> TakesNone(w, Run(w, txs[..k]).0, txs[k])
  }

  lemma OnceStep(w: World, s: State, log: seq<Event>, tx: Tx)
    requires w.Valid() && WellKept(s) && AllOnce(w, s, log) && TakesNone(w, s, tx)
    ensures var (t, events) := Step(w, s, tx); AllOnce(w, t, log + events)
  {
    var (t, events) := Step(w, s, tx);
    EveryStepIsGood(w, s, tx);
    EntropyStays(w, s, tx);
    hide Step, WellKept, Genuine, TakesNone;
    forall b: nat, c: nat
      ensures Once(w, t, log + events, b, c)
    {
      assert Once(w, s, log, b, c) && GoodFor(w, s, events, t, b, c);
      CountConcat(log, events, Triggered, b, c);
    }
  }

  lemma EntropyStays(w: World, s: State, tx: Tx)
    requires w.Valid() && WellKept(s) && TakesNone(w, s, tx)
    ensures forall b: nat :: s.BlockEntropy(w, b) != 0 ==> Step(w, s, tx).0.BlockEntropy(w, b) != 0
  {
    if tx.SetOverride? {
      forall b: nat | s.BlockEntropy(w, b) != 0
        ensures Step(w, s, tx).0.BlockEntropy(w, b) != 0
      {
        assert tx.authorised ==> !Loses(w, s, tx.v1, b);
      }
    } else {
      EveryStepIsGood(w, s, tx);
    }
  }

  lemma RunLast(w: World, txs: seq<Tx>, k: nat)
    requires k < |txs|
    ensures var (s, log) := Run(w, txs[..k]);
            Run(w, txs[..k + 1]) == (Step(w, s, txs[k]).0, log + Step(w, s, txs[k]).1)
  {
    hide Step;
    assert txs[..k + 1][..k] == txs[..k];
  }

  /** From a state in which every callback was delivered at most once, that stays so while no entropy is taken away. */
  lemma {:induction false} OnceFrom(w: World, txs: seq<Tx>, n: nat, k: nat)
    requires w.Valid() && n <= k <= |txs| && TakesNoneFrom(w, txs, n)
    requires AllOnce(w, Run(w, txs[..n]).0, Run(w, txs[..n]).1)
    ensures AllOnce(w, Run(w, txs[..k]).0, Run(w, txs[..k]).1)
    decreases k
  {
    hide Run, Step, AllOnce, AllBalanced, WellKept, TakesNone;
    if n < k {
      OnceFrom(w, txs, n, k - 1);
      RunsBalance(w, txs[..k - 1]);
      OnceStep(w, Run(w, txs[..k - 1]).0, Run(w, txs[..k - 1]).1, txs[k - 1]);
      RunLast(w, txs, k - 1);
    }
  }

  /** In a run that takes no entropy away each callback is delivered by a trigger at most once. */
  lemma DeliveredOnce(w: World, txs: seq<Tx>)
    requires w.Valid() && TakesNoneFrom(w, txs, 0)
    ensures AllOnce(w, Run(w, txs).0, Run(w, txs).1)
  {
    assert txs[..0] == [] && txs[..|txs|] == txs;
    OnceFrom(w, txs, 0, |txs|);
  }

  // ---- Steady runs: one value.

  lemma {:induction false} SteadyTakesNone(w: World, txs: seq<Tx>)
    requires SteadyRun(w, txs)
    ensures TakesNoneFrom(w, txs, 0)
    decreases |txs|
  {
    if txs != [] {
      var last := |txs| - 1;
      SteadyTakesNone(w, txs[..last]);
      AgreeingTakesNone(w, Run(w, txs[..last]).0, txs[last]);
      forall k | 0 <= k < |txs|
        ensures TakesNone(w, Run(w, txs[..k]).0, txs[k])
      {
        if k < last {
          assert txs[..last][..k] == txs[..k] && txs[..last][k] == txs[k];
        }
      }
    }
  }

  lemma AgreeingTakesNone(w: World, s: State, tx: Tx)
    requires Steady(w, s, tx)
    ensures TakesNone(w, s, tx)
  {
    if tx.SetOverride? && tx.authorised {
      forall b: nat
        ensures !Loses(w, s, tx.v1, b)
      {
        assert Agrees(w, s, tx.v1, b);
      }
    }
  }

  lemma GenuineStep(w: World, s: State, log: seq<Event>, events: seq<Event>, t: State)
    requires Genuine(w, s, log) && GoodStep(w, s, events, t)
    ensures Genuine(w, t, log + events)
  {
    var all := log + events;
    forall i | 0 <= i < |all| && (all[i].kind == Triggered || all[i].kind == Immediate)
      ensures all[i].value != 0 && all[i].value == t.BlockEntropy(w, all[i].block)
    {
      if i < |log| {
        assert all[i] == log[i];
      } else {
        assert all[i] == events[i - |log|];
      }
    }
  }

  lemma {:induction false} SteadyIsGenuine(w: World, txs: seq<Tx>)
    requires w.Valid() && SteadyRun(w, txs)
    ensures Genuine(w, Run(w, txs).0, Run(w, txs).1)
    decreases |txs|
  {
    if txs != [] {
      var before, tx := txs[..|txs| - 1], txs[|txs| - 1];
      SteadyIsGenuine(w, before);
      RunsBalance(w, before);
      var (s, log) := Run(w, before);
      EveryStepIsGood(w, s, tx);
      GenuineStep(w, s, log, Step(w, s, tx).1, Step(w, s, tx).0);
    }
  }

  lemma RunsKeepInvariant(w: World, txs: seq<Tx>)
    requires w.Valid() && SteadyRun(w, txs)
    ensures Invariant(w, Run(w, txs).0, Run(w, txs).1)
  {
    hide Run, WellKept, Genuine, Once, Balanced, SteadyRun, TakesNoneFrom;
    RunsBalance(w, txs);
    SteadyTakesNone(w, txs);
    DeliveredOnce(w, txs);
    SteadyIsGenuine(w, txs);
  }

  /** All deliveries for a block, triggered or immediate, carry the same entropy. */
  lemma SameEntropy(w: World, txs: seq<Tx>, i: nat, j: nat)
    requires w.Valid() && SteadyRun(w, txs)
    requires i < |Run(w, txs).1| && j < |Run(w, txs).1|
    requires var log := Run(w, txs).1;
             && log[i].block == log[j].block
             && (log[i].kind == Triggered || log[i].kind == Immediate)
             && (log[j].kind == Triggered || log[j].kind == Immediate)
    ensures Run(w, txs).1[i].value == Run(w, txs).1[j].value != 0
  {
    RunsKeepInvariant(w, txs);
  }

  /** The fulfilments a transaction carries, and the block at which it is mined. */
  function Fulfilments(tx: Tx): (seq<Fulfilment>, nat) {
    match tx
    case ProvideEntropy(entropy, now, _, _) => ([entropy], now)
    case ProvideBatch(batch, now, _) => (batch, now)
    case _ => ([], 0)
  }

  /** The transaction carries a signature for the block, by the signer of the day, that hashes to the value. */
  ghost predicate Signs(w: World, s: State, tx: Tx, block: nat, value: nat) {
    var (batch, now) := Fulfilments(tx);
    block < now && exists i :: 0 <= i < |batch| && IsSignature(w, s, batch[i], block, value)
  }

  ghost predicate IsSignature(w: World, s: State, f: Fulfilment, block: nat, value: nat) {
    f.block == block && w.recover(block, f.signature) == Some(s.signer) && w.keccak(f.signature) == value
  }

  lemma {:induction false} BatchSigns(w: World, s: State, batch: seq<Fulfilment>, now: nat,
                                      oks: nat -> (nat -> bool), block: nat)
    requires ProvidingBatch(w, s, batch, now, oks).Ok?
    ensures var t := ProvidingBatch(w, s, batch, now, oks).value.0;
            && t.signer == s.signer
            && (t.Slot(block) != s.Slot(block) ==>
                  block < now && exists i :: 0 <= i < |batch| && IsSignature(w, s, batch[i], block, t.Slot(block)))
    decreases |batch|
  {
    if batch != [] {
      var k := |batch| - 1;
      BatchSigns(w, s, batch[..k], now, oks, block);
      var t, u := ProvidingBatch(w, s, batch[..k], now, oks).value.0, ProvidingBatch(w, s, batch, now, oks).value.0;
      if batch[k].block == block {
        assert IsSignature(w, s, batch[k], block, u.Slot(block));
      } else if t.Slot(block) != s.Slot(block) {
        var i :| 0 <= i < k && IsSignature(w, s, batch[..k][i], block, t.Slot(block));
        assert IsSignature(w, s, batch[i], block, u.Slot(block));
      }
    }
  }

  /** A slot that holds entropy was written by a transaction mined later than its block, with the signer's signature. */
  lemma {:induction false} EntropyIsSigned(w: World, txs: seq<Tx>, block: nat)
    requires Run(w, txs).0.Slot(block) > 1
    ensures exists k :: 0 <= k < |txs| && Signs(w, Run(w, txs[..k]).0, txs[k], block, Run(w, txs).0.Slot(block))
    decreases |txs|
  {
    var last := |txs| - 1;
    var s, t := Run(w, txs[..last]).0, Run(w, txs).0;
    if s.Slot(block) == t.Slot(block) {
      EntropyIsSigned(w, txs[..last], block);
      var k :| 0 <= k < last && Signs(w, Run(w, txs[..last][..k]).0, txs[..last][k], block, s.Slot(block));
      assert txs[..last][..k] == txs[..k];
      assert Signs(w, Run(w, txs[..k]).0, txs[k], block, t.Slot(block));
    } else {
      SlotChange(w, s, txs[last], block);
      assert Signs(w, Run(w, txs[..last]).0, txs[last], block, t.Slot(block));
    }
  }

  lemma SlotChange(w: World, s: State, tx: Tx, block: nat)
    requires Step(w, s, tx).0.Slot(block) > 1 && Step(w, s, tx).0.Slot(block) != s.Slot(block)
    ensures Signs(w, s, tx, block, Step(w, s, tx).0.Slot(block))
  {
    var t := Step(w, s, tx).0;
    match tx
    case ProvideEntropy(entropy, now, max, ok) =>
      assert IsSignature(w, s, [entropy][0], block, t.Slot(block));
    case ProvideBatch(batch, now, oks) =>
      BatchSigns(w, s, batch, now, oks, block);
    case _ =>
  }

  // ---- What breaks it: an override that answers differently.

  /** The only transaction that can change a block's entropy is an override that is not steady, and it always does. */
  lemma EntropyKept(w: World, s: State, tx: Tx)
    requires w.Valid() && WellKept(s)
    ensures (forall b: nat :: s.BlockEntropy(w, b) != 0 ==>
               Step(w, s, tx).0.BlockEntropy(w, b) == s.BlockEntropy(w, b))
            <==> Steady(w, s, tx)
  {
    if Steady(w, s, tx) {
      EveryStepIsGood(w, s, tx);
    }
  }

  /** The deliveries for a block all carry the same value. */
  ghost predicate OneValueEach(log: seq<Event>) {
    forall i, j :: 0 <= i < |log| && 0 <= j < |log| && BothDelivered(log[i], log[j]) ==> log[i].value == log[j].value
  }

  predicate BothDelivered(d: Event, e: Event) {
    && d.block == e.block
    && (d.kind == Triggered || d.kind == Immediate) && (e.kind == Triggered || e.kind == Immediate)
  }

  /** A run, one more request, the override, and what comes after. */
  function Around(txs: seq<Tx>, ask: Tx, v1: Address, more: seq<Tx>): seq<Tx> {
    txs + [ask, SetOverride(v1, true)] + more
  }

  /** No transaction from the n-th on changes the override to one that disagrees. */
  ghost predicate SteadyFrom(w: World, txs: seq<Tx>, n: nat) {
    forall k :: n <= k < |txs| ==> Steady(w, Run(w, txs[..k]).0, txs[k])
  }

  /** Whoever requests entropy before the override, and whatever steady transactions follow, no block gets two values. */
  ghost predicate IsSafe(w: World, txs: seq<Tx>, v1: Address) {
    forall ask: Tx, more: seq<Tx> ::
      ask.RequestEntropyWithCallback? && SteadyFrom(w, Around(txs, ask, v1, more), |txs| + 2) ==>
      OneValueEach(Run(w, Around(txs, ask, v1, more)).1)
  }

  /** There are signatures enough to give a block other entropy than a given value. */
  ghost predicate Signable(w: World) {
    forall b: nat, e: nat :: HasOther(w, b, e)
  }

  ghost predicate HasOther(w: World, b: nat, e: nat) {
    exists sig: Signature :: GivesOther(w, b, e, sig)
  }

  ghost predicate GivesOther(w: World, b: nat, e: nat, sig: Signature) {
    w.recover(b, sig).Some? && w.keccak(sig) != e
  }

  /** After a steady run, an override is safe if and only if it disagrees on no entropy that is available. */
  lemma SafeExactly(w: World, txs: seq<Tx>, v1: Address)
    requires w.Valid() && Signable(w) && SteadyRun(w, txs)
    ensures IsSafe(w, txs, v1) <==> KeepsEntropy(w, Run(w, txs).0, v1)
  {
    hide Run, SteadyRun, Around, Agrees;
    if KeepsEntropy(w, Run(w, txs).0, v1) {
      forall ask: Tx, more: seq<Tx> |
        ask.RequestEntropyWithCallback? && SteadyFrom(w, Around(txs, ask, v1, more), |txs| + 2)
        ensures OneValueEach(Run(w, Around(txs, ask, v1, more)).1)
      {
        AgreeingIsSafe(w, txs, ask, v1, more);
      }
    } else {
      var b: nat :| !Agrees(w, Run(w, txs).0, v1, b);
      assert HasOther(w, b, Run(w, txs).0.BlockEntropy(w, b));
      var sig: Signature :| GivesOther(w, b, Run(w, txs).0.BlockEntropy(w, b), sig);
      var more := DisagreementDelivers(w, txs, v1, b, sig);
      assert !OneValueEach(Run(w, Around(txs, Ask(b), v1, more)).1);
    }
  }

  lemma AgreeingIsSafe(w: World, txs: seq<Tx>, ask: Tx, v1: Address, more: seq<Tx>)
    requires w.Valid() && SteadyRun(w, txs) && KeepsEntropy(w, Run(w, txs).0, v1)
    requires ask.RequestEntropyWithCallback? && SteadyFrom(w, Around(txs, ask, v1, more), |txs| + 2)
    ensures OneValueEach(Run(w, Around(txs, ask, v1, more)).1)
  {
    hide Step, Agrees;
    var s, all := Run(w, txs).0, Around(txs, ask, v1, more);
    RunsKeepInvariant(w, txs);
    AskingKeepsAgreement(w, s, ask, v1);
    var two, three := txs + [ask], txs + [ask] + [SetOverride(v1, true)];
    assert two[..|txs|] == txs && three[..|two|] == two && all[..|txs| + 2] == three;
    assert SteadyRun(w, two) && SteadyRun(w, three);
    SteadyOn(w, all, |txs| + 2, |all|);
    assert all[..|all|] == all;
    RunsKeepInvariant(w, all);
  }

  lemma AskingKeepsAgreement(w: World, s: State, ask: Tx, v1: Address)
    requires ask.RequestEntropyWithCallback? && KeepsEntropy(w, s, v1)
    ensures KeepsEntropy(w, Step(w, s, ask).0, v1)
  {
    var t := Step(w, s, ask).0;
    forall b: nat
      ensures Agrees(w, t, v1, b)
    {
      assert Agrees(w, s, v1, b);
      assert t.v1 == s.v1 && (t.Slot(b) == s.Slot(b) || (s.Slot(b) == 0 && t.Slot(b) == 1));
    }
  }

  lemma {:induction false} SteadyOn(w: World, txs: seq<Tx>, n: nat, k: nat)
    requires n <= k <= |txs| && SteadyRun(w, txs[..n]) && SteadyFrom(w, txs, n)
    ensures SteadyRun(w, txs[..k])
    decreases k
  {
    hide Run, Steady;
    if n < k {
      SteadyOn(w, txs, n, k - 1);
      assert txs[..k][..k - 1] == txs[..k - 1];
    }
  }

  /** A request that is served at once when there is entropy. */
  function Ask(b: nat): Tx {
    RequestEntropyWithCallback(0, b, 0, true, true)
  }

  lemma AskDelivers(w: World, s: State, b: nat)
    requires s.BlockEntropy(w, b) != 0
    ensures Step(w, s, Ask(b)) == (s, [Event(Immediate, b, PackCallback(0, 0), s.BlockEntropy(w, b))])
  {
  }

  /**
   However a run went so far: if the override disagrees on some block's entropy, a continuation delivers two values
   for that block, given a signature that hashes to another value.
   */
  lemma DisagreementDelivers(w: World, txs: seq<Tx>, v1: Address, b: nat, sig: Signature) returns (more: seq<Tx>)
    requires w.Valid() && !Agrees(w, Run(w, txs).0, v1, b)
    requires w.recover(b, sig).Some? && w.keccak(sig) != Run(w, txs).0.BlockEntropy(w, b)
    ensures SteadyFrom(w, Around(txs, Ask(b), v1, more), |txs| + 2)
    ensures !OneValueEach(Run(w, Around(txs, Ask(b), v1, more)).1)
  {
    var (s, log) := Run(w, txs);
    var t := s.(v1 := v1);
    var e, f, c := s.BlockEntropy(w, b), t.BlockEntropy(w, b), PackCallback(0, 0);
    assert e != 0 && e != f;
    var before, after := txs + [Ask(b)], txs + [Ask(b)] + [SetOverride(v1, true)];
    var first := Event(Immediate, b, c, e);
    AskDelivers(w, s, b);
    OverrideStep(w, s, v1);
    hide Step, Run, PackCallback, Agrees;
    RunMore(w, txs, before, Ask(b), log + [first]);
    RunMore(w, before, after, SetOverride(v1, true), log + [first]);
    if f != 0 {
      more := [Ask(b)];
      AskDelivers(w, t, b);
      var all := Around(txs, Ask(b), v1, more);
      RunMore(w, after, all, Ask(b), log + [first] + [Event(Immediate, b, c, f)]);
      TwoValues(log, first, Event(Immediate, b, c, f));
      AsksAreSteady(w, all, |txs| + 2);
    } else {
      var sign := SetSigner(w.recover(b, sig).value, true);
      var give := ProvideEntropy(Fulfilment(b, sig), b + 1, 0, Always);
      more := [sign, give, Ask(b)];
      var u := GivenEntropy(w, t, b, sig);
      AskDelivers(w, u, b);
      var all := Around(txs, Ask(b), v1, more);
      RunMore(w, after, after + [sign], sign, log + [first]);
      RunMore(w, after + [sign], after + [sign] + [give], give, log + [first]);
      assert all == after + [sign] + [give] + [Ask(b)];
      RunMore(w, after + [sign] + [give], all, Ask(b), log + [first] + [Event(Immediate, b, c, w.keccak(sig))]);
      TwoValues(log, first, Event(Immediate, b, c, w.keccak(sig)));
      AsksAreSteady(w, all, |txs| + 2);
    }
  }

  /** A block without entropy can be given the hash of any signature, by making its author the signer. */
  lemma GivenEntropy(w: World, t: State, b: nat, sig: Signature) returns (u: State)
    requires w.Valid() && t.BlockEntropy(w, b) == 0 && w.recover(b, sig).Some?
    ensures var signed := t.(signer := w.recover(b, sig).value);
            && Step(w, t, SetSigner(w.recover(b, sig).value, true)) == (signed, [])
            && Step(w, signed, ProvideEntropy(Fulfilment(b, sig), b + 1, 0, Always)) == (u, [])
    ensures u.BlockEntropy(w, b) == w.keccak(sig) != 0
  {
    var signed := t.(signer := w.recover(b, sig).value);
    u := Step(w, signed, ProvideEntropy(Fulfilment(b, sig), b + 1, 0, Always)).0;
  }

  lemma TwoValues(log: seq<Event>, d: Event, e: Event)
    requires d.kind == e.kind == Immediate && d.block == e.block && d.value != e.value
    ensures !OneValueEach(log + [d] + [e])
  {
    var all := log + [d] + [e];
    assert all[|log|] == d && all[|log| + 1] == e && BothDelivered(all[|log|], all[|log| + 1]);
  }

  lemma AsksAreSteady(w: World, txs: seq<Tx>, n: nat)
    requires forall k :: n <= k < |txs| ==> !txs[k].SetOverride?
    ensures SteadyFrom(w, txs, n)
  {
  }

  // ---- When a callback can be delivered twice.

  /** Whatever follows the override, if it takes no entropy away, no callback is delivered twice by triggers. */
  ghost predicate StaysOnce(w: World, txs: seq<Tx>, v1: Address) {
    forall more: seq<Tx> :: TakesNoneFrom(w, After(txs, v1, more), |txs| + 1) ==>
      forall b: nat, c: nat :: Count(Run(w, After(txs, v1, more)).1, Triggered, b, c) <= 1
  }

  function After(txs: seq<Tx>, v1: Address, more: seq<Tx>): seq<Tx> {
    txs + [SetOverride(v1, true)] + more
  }

  /** Every block has some signature that can be recovered. */
  ghost predicate AllRecoverable(w: World) {
    forall b: nat :: HasSignature(w, b)
  }

  ghost predicate HasSignature(w: World, b: nat) {
    exists sig: Signature :: w.recover(b, sig).Some?
  }

  /** No callback of a block that loses its entropy was delivered already. A steerer can check this before the call. */
  ghost predicate SparesDelivered(w: World, s: State, log: seq<Event>, v1: Address) {
    forall b: nat, c: nat :: Loses(w, s, v1, b) ==> Count(log, Triggered, b, c) == 0
  }

  /**
   After a run that took no entropy away, an override leaves room for a second delivery if and only if it takes away
   the entropy of a block for which a callback was delivered.
   */
  lemma DeliveredOnceExactly(w: World, txs: seq<Tx>, v1: Address)
    requires w.Valid() && AllRecoverable(w) && TakesNoneFrom(w, txs, 0)
    ensures StaysOnce(w, txs, v1) <==> SparesDelivered(w, Run(w, txs).0, Run(w, txs).1, v1)
  {
    hide Run, TakesNoneFrom, After, Loses, Count;
    var (s, log) := Run(w, txs);
    if SparesDelivered(w, s, log, v1) {
      forall more: seq<Tx> | TakesNoneFrom(w, After(txs, v1, more), |txs| + 1)
        ensures forall b: nat, c: nat :: Count(Run(w, After(txs, v1, more)).1, Triggered, b, c) <= 1
      {
        SparingIsOnce(w, txs, v1, more);
        forall b: nat, c: nat
          ensures Count(Run(w, After(txs, v1, more)).1, Triggered, b, c) <= 1
        {
          assert Once(w, Run(w, After(txs, v1, more)).0, Run(w, After(txs, v1, more)).1, b, c);
        }
      }
    } else {
      var b: nat, c: nat :| Loses(w, s, v1, b) && Count(log, Triggered, b, c) > 0;
      assert HasSignature(w, b);
      var sig: Signature :| w.recover(b, sig).Some?;
      var more := SecondDelivery(w, txs, v1, b, c, sig);
    }
  }

  lemma SparingIsOnce(w: World, txs: seq<Tx>, v1: Address, more: seq<Tx>)
    requires w.Valid() && TakesNoneFrom(w, txs, 0) && TakesNoneFrom(w, After(txs, v1, more), |txs| + 1)
    requires SparesDelivered(w, Run(w, txs).0, Run(w, txs).1, v1)
    ensures AllOnce(w, Run(w, After(txs, v1, more)).0, Run(w, After(txs, v1, more)).1)
  {
    var (s, log) := Run(w, txs);
    var all, two := After(txs, v1, more), txs + [SetOverride(v1, true)];
    DeliveredOnce(w, txs);
    OverrideStep(w, s, v1);
    RunMore(w, txs, two, SetOverride(v1, true), log);
    assert all[..|txs| + 1] == two && all[..|all|] == all;
    hide Run, Step, TakesNoneFrom;
    forall b: nat, c: nat
      ensures Once(w, s.(v1 := v1), log, b, c)
    {
      assert Once(w, s, log, b, c) && (Loses(w, s, v1, b) ==> Count(log, Triggered, b, c) == 0);
      assert s.(v1 := v1).Pending(b) == s.Pending(b);
    }
    OnceFrom(w, all, |txs| + 1, |all|);
  }

  lemma OthersRegisterNothing(w: World, s: State, tx: Tx, b: nat, c: nat)
    requires w.Valid() && WellKept(s) && !tx.RequestEntropyWithCallback?
    ensures Count(Step(w, s, tx).1, Registered, b, c) == 0
  {
    match tx
    case ProvideEntropy(entropy, now, max, ok) =>
      if Providing(w, s, entropy, now, max, ok).Ok? {
        ProvisionRegistersNothing(w, s, entropy, now, max, ok, b, c);
      }
    case ProvideBatch(batch, now, oks) =>
      if ProvidingBatch(w, s, batch, now, oks).Ok? {
        GoodBatch(w, s, batch, now, oks);
      }
    case TriggerCallbacks(block, max, ok) =>
      TriggeringBalances(s, block, s.BlockEntropy(w, block), max, ok, b, c);
    case RemoveCallback(consumer, id, block, authorised) =>
      OneEvent(Event(Removed, block, PackCallback(consumer, id), 0), Registered, b, c);
    case _ =>
  }

  /** Only a request registers, and it registers its sender and ID. */
  lemma OnlyRequestsRegister(w: World, s: State, tx: Tx, b: nat, c: nat)
    requires w.Valid() && WellKept(s) && Count(Step(w, s, tx).1, Registered, b, c) > 0
    ensures tx.RequestEntropyWithCallback? && c == PackCallback(tx.sender, tx.id)
  {
    if tx.RequestEntropyWithCallback? {
      OneEvent(Step(w, s, tx).1[0], Registered, b, c);
    } else {
      OthersRegisterNothing(w, s, tx, b, c);
    }
  }

  lemma {:induction false} RegisteredArePacked(w: World, txs: seq<Tx>, b: nat, c: nat)
    requires w.Valid() && Count(Run(w, txs).1, Registered, b, c) > 0
    ensures PackCallback(UnpackCallback(c).0, UnpackCallback(c).1) == c
    decreases |txs|
  {
    var last := |txs| - 1;
    var (s, log) := Run(w, txs[..last]);
    RunsBalance(w, txs[..last]);
    CountConcat(log, Step(w, s, txs[last]).1, Registered, b, c);
    if Count(log, Registered, b, c) > 0 {
      RegisteredArePacked(w, txs[..last], b, c);
    } else {
      OnlyRequestsRegister(w, s, txs[last], b, c);
      UnpackUndoesPack(txs[last].sender, txs[last].id);
    }
  }

  /** The request that registers a packed callback. */
  function Again(b: nat, c: nat): Tx {
    RequestEntropyWithCallback(UnpackCallback(c).0, b, UnpackCallback(c).1, true, true)
  }

  lemma RegistersAgain(w: World, s: State, b: nat, c: nat)
    requires w.Valid() && WellKept(s) && s.BlockEntropy(w, b) == 0
    requires PackCallback(UnpackCallback(c).0, UnpackCallback(c).1) == c
    ensures var t := Step(w, s, Again(b, c)).0;
            WellKept(t) && c in t.Pending(b) && t.BlockEntropy(w, b) == 0
  {
    EveryStepIsGood(w, s, Again(b, c));
    AddIsInsertion(s.Pending(b), c);
  }

  /** The block gets entropy from a signature by the signer, and all its callbacks are called. */
  function Give(b: nat, sig: Signature, max: nat): Tx {
    ProvideEntropy(Fulfilment(b, sig), b + 1, max, Always)
  }

  lemma GivesToAll(w: World, s: State, b: nat, c: nat, sig: Signature, max: nat)
    requires w.Valid() && WellKept(s) && s.BlockEntropy(w, b) == 0 && w.recover(b, sig) == Some(s.signer)
    requires c in s.Pending(b) && max == |s.Pending(b)|
    ensures Count(Step(w, s, Give(b, sig, max)).1, Triggered, b, c) == 1
  {
    var hashed, pending := w.keccak(sig), s.Pending(b);
    var t := s.(slots := s.slots[b := hashed]);
    assert t.Pending(b) == pending && pending[..max] == pending;
    AllSucceed(pending);
    CallEventCounts(b, pending, hashed, Always, Triggered, b, c);
    assert Step(w, s, Give(b, sig, max)).1 == CallEvents(b, pending, hashed, Always);
  }

  lemma NoOverrides(w: World, txs: seq<Tx>, n: nat)
    requires forall k :: n <= k < |txs| ==> !txs[k].SetOverride?
    ensures TakesNoneFrom(w, txs, n)
  {
  }

  /**
   A continuation with a second delivery: the callback is requested again, its block is given entropy again, and all
   its callbacks are called.
   */
  lemma SecondDelivery(w: World, txs: seq<Tx>, v1: Address, b: nat, c: nat, sig: Signature) returns (more: seq<Tx>)
    requires w.Valid() && w.recover(b, sig).Some?
    requires Loses(w, Run(w, txs).0, v1, b) && Count(Run(w, txs).1, Triggered, b, c) > 0
    ensures TakesNoneFrom(w, After(txs, v1, more), |txs| + 1)
    ensures Count(Run(w, After(txs, v1, more)).1, Triggered, b, c) > Count(Run(w, txs).1, Triggered, b, c)
  {
    hide WellKept, Step, Run, Count, PackCallback, UnpackCallback, TakesNoneFrom, Loses, AllBalanced;
    var (s, log) := Run(w, txs);
    var t, signer := s.(v1 := v1), w.recover(b, sig).value;
    RunsBalance(w, txs);
    Conservation(w, txs, b, c);
    RegisteredArePacked(w, txs, b, c);
    LosingLoses(w, s, v1, b);
    RegistersAgain(w, t, b, c);
    var (u, e1) := Step(w, t, Again(b, c));
    var signed := u.(signer := signer);
    SigningKeeps(w, u, signer, b);
    var give := Give(b, sig, |u.Pending(b)|);
    GivesToAll(w, signed, b, c, sig, |u.Pending(b)|);
    OverrideStep(w, s, v1);
    SignerStep(w, u, signer);
    more := [Again(b, c), SetSigner(signer, true), give];
    NoOverrides(w, After(txs, v1, more), |txs| + 1);
    ThreeMore(w, txs, s, log, v1, b, c, u, e1, signed, signer, give, c);
  }

  lemma LosingLoses(w: World, s: State, v1: Address, b: nat)
    requires WellKept(s) && Loses(w, s, v1, b)
    ensures WellKept(s.(v1 := v1)) && s.(v1 := v1).BlockEntropy(w, b) == 0
  {
    OverrideIsFair(w, s, v1);
  }

  lemma SigningKeeps(w: World, s: State, signer: Address, b: nat)
    requires WellKept(s)
    ensures WellKept(s.(signer := signer))
    ensures s.(signer := signer).BlockEntropy(w, b) == s.BlockEntropy(w, b)
    ensures s.(signer := signer).Pending(b) == s.Pending(b)
  {
    var t := s.(signer := signer);
    assert forall x :: t.Pending(x) == s.Pending(x) && t.Slot(x) == s.Slot(x);
  }

  /** The log of the continuation, and what it adds to a count. */
  lemma ThreeMore(w: World, txs: seq<Tx>, s: State, log: seq<Event>, v1: Address, b: nat, c: nat, u: State,
                  e1: seq<Event>, signed: State, signer: Address, give: Tx, x: nat)
    requires Run(w, txs) == (s, log) && Step(w, s, SetOverride(v1, true)) == (s.(v1 := v1), [])
    requires Step(w, s.(v1 := v1), Again(b, c)) == (u, e1) && Step(w, u, SetSigner(signer, true)) == (signed, [])
    ensures var all := After(txs, v1, [Again(b, c), SetSigner(signer, true), give]);
            Count(Run(w, all).1, Triggered, b, x) ==
            Count(log, Triggered, b, x) + Count(e1, Triggered, b, x) + Count(Step(w, signed, give).1, Triggered, b, x)
  {
    var sign, e2 := SetSigner(signer, true), Step(w, signed, give).1;
    var r1 := txs + [SetOverride(v1, true)];
    var r2 := r1 + [Again(b, c)];
    var r3 := r2 + [sign];
    var all := After(txs, v1, [Again(b, c), sign, give]);
    assert all == r3 + [give];
    hide *;
    RunMore(w, txs, r1, SetOverride(v1, true), log);
    RunMore(w, r1, r2, Again(b, c), log + e1);
    RunMore(w, r2, r3, sign, log + e1);
    RunMore(w, r3, all, give, log + e1 + e2);
    CountConcat(log, e1, Triggered, b, x);
    CountConcat(log + e1, e2, Triggered, b, x);
  }

  /**
   A run from the initial state that gets there: an oracle that knows block 0 is made the override, a callback is
   delivered, and the override is dropped again. The same callback is then registered, and delivered, a second time.
   */
  lemma UnsteadyOverrideDeliversTwice(w: World, consumer: Address, v1: Address)
    requires w.Valid() && v1 != 0 && w.v1Entropy(v1, 0) != 0 && w.v1Entropy(v1, 0) != w.keccak(0)
    requires w.recover(0, 0).Some?
    ensures exists txs :: var log := Run(w, txs).1;
              Count(log, Triggered, 0, PackCallback(consumer, 0)) == 2 && !OneValueEach(log)
  {
    hide Step, Triggering, PackCallback, Run, Count;
    var c, a := PackCallback(consumer, 0), w.recover(0, 0).value;
    var all: nat -> bool := Always;
    var t0 := SetSigner(a, true);
    var t1 := Tx.RequestEntropyWithCallback(consumer, 0, 0, true, true);
    var t2 := Tx.SetOverride(v1, true);
    var t3 := Tx.TriggerCallbacks(0, 1, all);
    var t4 := Tx.SetOverride(0, true);
    var t6 := Tx.ProvideEntropy(Fulfilment(0, 0), 1, 1, all);
    var v, h := w.v1Entropy(v1, 0), w.keccak(0);
    var e1, e2, e3 := Event(Registered, 0, c, 0), Event(Triggered, 0, c, v), Event(Triggered, 0, c, h);
    var s0 := INITIAL.(signer := a);
    var s1 := State(map[0 := 1], map[0 := [c]], 0, a);
    var s3 := State(map[0 := 1], map[0 := []], v1, a);
    SignerStep(w, INITIAL, a);
    FirstRegistration(w, s0, consumer);
    FirstRegistration(w, s3.(v1 := 0), consumer);
    Delivery(w, s1.(v1 := v1), c, v);
    Provision(w, s1, c);
    OverrideStep(w, s1, v1);
    OverrideStep(w, s3, 0);
    assert s1.(v1 := v1).(callbacks := map[0 := []]) == s3;
    var txs := RunOfSeven(w, t0, t1, t2, t3, t4, t6, s0, s1, s1.(v1 := v1), s3, s3.(v1 := 0),
                          State(map[0 := h], map[0 := []], 0, a), e1, e2, e3);
    var log := [e1, e2, e1, e3];
    TwoOfFour(e1, e2, e3, c);
    assert BothDelivered(log[1], log[3]) && log[1].value != log[3].value;
    assert Run(w, txs).1 == log;
  }

  lemma FirstRegistration(w: World, s: State, consumer: Address)
    requires s.v1 == 0
    requires (s.slots == map[] && s.callbacks == map[]) || (s.slots == map[0 := 1] && s.callbacks == map[0 := []])
    ensures Step(w, s, Tx.RequestEntropyWithCallback(consumer, 0, 0, true, true)) ==
            (State(map[0 := 1], map[0 := [PackCallback(consumer, 0)]], 0, s.signer),
             [Event(Registered, 0, PackCallback(consumer, 0), 0)])
  {
    var c := PackCallback(consumer, 0);
    assert s.Pending(0) == [] && Add([], c) == [c];
    assert s.slots[0 := 1] == map[0 := 1];
    assert s.callbacks[0 := [c]] == map[0 := [c]];
    assert s.BlockEntropy(w, 0) == 0;
  }

  lemma OverrideStep(w: World, s: State, v1: Address)
    ensures Step(w, s, Tx.SetOverride(v1, true)) == (s.(v1 := v1), [])
  {
  }

  lemma SignerStep(w: World, s: State, signer: Address)
    ensures Step(w, s, Tx.SetSigner(signer, true)) == (s.(signer := signer), [])
  {
  }

  lemma TriggerOne(s: State, c: nat, entropy: nat)
    requires s.callbacks == map[0 := [c]]
    ensures Triggering(s, 0, entropy, 1, Always) ==
            (s.(callbacks := map[0 := []]), [Event(Triggered, 0, c, entropy)])
  {
    OneCall(c, entropy);
    assert s.Pending(0)[..1] == [c];
    hide RemoveBackwards, Successes, CallEvents;
    assert s.callbacks[0 := []] == map[0 := []];
  }

  lemma OneCall(c: nat, entropy: nat)
    ensures Successes([c], Always) == [c] && RemoveBackwards([c], [c]) == []
    ensures CallEvents(0, [c], entropy, Always) == [Event(Triggered, 0, c, entropy)]
  {
    AllSucceed([c]);
    RemoveBackwardsIsRemoval([c], [c]);
  }

  lemma Delivery(w: World, s: State, c: nat, entropy: nat)
    requires s.callbacks == map[0 := [c]] && entropy == s.BlockEntropy(w, 0) != 0
    ensures Step(w, s, TriggerCallbacks(0, 1, Always)) ==
            (s.(callbacks := map[0 := []]), [Event(Triggered, 0, c, entropy)])
  {
    hide Triggering;
    TriggerOne(s, c, entropy);
  }

  lemma Provision(w: World, s: State, c: nat)
    requires w.Valid() && w.recover(0, 0) == Some(s.signer) && s == State(map[0 := 1], map[0 := [c]], 0, s.signer)
    ensures Step(w, s, ProvideEntropy(Fulfilment(0, 0), 1, 1, Always)) ==
            (State(map[0 := w.keccak(0)], map[0 := []], 0, s.signer), [Event(Triggered, 0, c, w.keccak(0))])
  {
    hide Triggering;
    assert s.slots[0 := w.keccak(0)] == map[0 := w.keccak(0)];
    TriggerOne(s.(slots := map[0 := w.keccak(0)]), c, w.keccak(0));
  }

  lemma TwoOfFour(e1: Event, e2: Event, e3: Event, c: nat)
    requires e1.kind == Registered && e2.kind == e3.kind == Triggered
    requires e2.block == e3.block == 0 && e2.callback == e3.callback == c
    ensures Count([e1, e2, e1, e3], Triggered, 0, c) == 2
  {
    OneEvent(e1, Triggered, 0, c);
    OneEvent(e2, Triggered, 0, c);
    OneEvent(e3, Triggered, 0, c);
    CountConcat([e1], [e2], Triggered, 0, c);
    CountConcat([e1], [e3], Triggered, 0, c);
    CountConcat([e1] + [e2], [e1] + [e3], Triggered, 0, c);
    assert [e1, e2, e1, e3] == ([e1] + [e2]) + ([e1] + [e3]);
  }

  lemma RunOfSeven(w: World, t0: Tx, t1: Tx, t2: Tx, t3: Tx, t4: Tx, t6: Tx, s0: State, s1: State, s2: State,
                   s3: State, s4: State, s6: State, e1: Event, e2: Event, e3: Event) returns (txs: seq<Tx>)
    requires Step(w, INITIAL, t0) == (s0, [])
    requires Step(w, s0, t1) == (s1, [e1]) && Step(w, s1, t2) == (s2, []) && Step(w, s2, t3) == (s3, [e2])
    requires Step(w, s3, t4) == (s4, []) && Step(w, s4, t1) == (s1, [e1]) && Step(w, s1, t6) == (s6, [e3])
    ensures Run(w, txs) == (s6, [e1, e2, e1, e3])
  {
    hide *;
    txs := [];
    RunNothing(w);
    txs := RunOne(w, txs, INITIAL, [], t0, s0, []);
    txs := RunOne(w, txs, s0, [], t1, s1, [e1]);
    txs := RunOne(w, txs, s1, [e1], t2, s2, [e1]);
    txs := RunOne(w, txs, s2, [e1], t3, s3, [e1, e2]);
    txs := RunOne(w, txs, s3, [e1, e2], t4, s4, [e1, e2]);
    txs := RunOne(w, txs, s4, [e1, e2], t1, s1, [e1, e2, e1]);
    txs := RunOne(w, txs, s1, [e1, e2, e1], t6, s6, [e1, e2, e1, e3]);
  }

  lemma RunNothing(w: World)
    ensures Run(w, []) == (INITIAL, [])
  {
  }

  lemma RunOne(w: World, txs: seq<Tx>, s: State, log: seq<Event>, tx: Tx, t: State, all: seq<Event>)
    returns (more: seq<Tx>)
    requires Run(w, txs) == (s, log) && Step(w, s, tx).0 == t && log + Step(w, s, tx).1 == all
    ensures Run(w, more) == (t, all)
  {
    hide Step, Run;
    more := txs + [tx];
    RunMore(w, txs, more, tx, all);
  }

  lemma RunMore(w: World, txs: seq<Tx>, more: seq<Tx>, tx: Tx, log: seq<Event>)
    requires more == txs + [tx] && log == Run(w, txs).1 + Step(w, Run(w, txs).0, tx).1
    ensures Run(w, more) == (Step(w, Run(w, txs).0, tx).0, log)
  {
    assert more[..|more| - 1] == txs;
  }

  // ---- Draining.

  function Always(call: nat): bool {
    true
  }

  /** The state after triggering a block k times, max callbacks at a time, every consumer succeeding. */
  function Drained(w: World, s: State, block: nat, max: nat, k: nat): State {
    if k == 0 then s else Step(w, Drained(w, s, block, max, k - 1), TriggerCallbacks(block, max, Always)).0
  }

  lemma {:induction false} AllSucceed(called: seq<nat>)
    ensures Successes(called, Always) == called
    decreases |called|
  {
    if called != [] {
      AllSucceed(called[..|called| - 1]);
    }
  }

  lemma PrefixOfPending(pending: seq<nat>, n: nat)
    requires Distinct(pending) && n <= |pending|
    ensures Distinct(pending[..n]) && forall x: nat :: x in pending[..n] ==> x in pending
  {
    forall x: nat | x in pending[..n]
      ensures x in pending
    {
      var i :| 0 <= i < n && pending[..n][i] == x;
      assert pending[i] == x;
    }
  }

  /** Each successful trigger takes min(pending, max) callbacks off the list. */
  lemma DrainStep(w: World, s: State, block: nat, max: nat)
    requires WellKept(s) && s.BlockEntropy(w, block) != 0
    ensures var t := Step(w, s, TriggerCallbacks(block, max, Always)).0;
            && |t.Pending(block)| == |s.Pending(block)| - Limit(|s.Pending(block)|, max)
            && WellKept(t) && t.BlockEntropy(w, block) == s.BlockEntropy(w, block)
  {
    var pending := s.Pending(block);
    var called := pending[..Limit(|pending|, max)];
    AllSucceed(called);
    PrefixOfPending(pending, Limit(|pending|, max));
    RemoveBackwardsIsRemoval(pending, called);
    GoodTriggering(w, s, block, s.BlockEntropy(w, block), max, Always);
  }

  lemma {:induction false} DrainsByMax(w: World, s: State, block: nat, max: nat, k: nat)
    requires WellKept(s) && s.BlockEntropy(w, block) != 0
    ensures var t := Drained(w, s, block, max, k);
            && |t.Pending(block)| == (if max * k >= |s.Pending(block)| then 0 else |s.Pending(block)| - max * k)
            && WellKept(t) && t.BlockEntropy(w, block) == s.BlockEntropy(w, block)
  {
    hide Step, WellKept;
    if k > 0 {
      DrainsByMax(w, s, block, max, k - 1);
      DrainStep(w, Drained(w, s, block, max, k - 1), block, max);
      assert max * k == max * (k - 1) + max;
    }
  }

  /** The ceiling of pending / max triggers empty the list, and no fewer do. */
  lemma DrainsExactly(w: World, s: State, block: nat, max: nat, k: nat)
    requires WellKept(s) && s.BlockEntropy(w, block) != 0 && max > 0
    ensures Drained(w, s, block, max, k).Pending(block) == [] <==> k >= (|s.Pending(block)| + max - 1) / max
  {
    hide Drained, WellKept, Distinct;
    DrainsByMax(w, s, block, max, k);
    CeilingIsExact(|s.Pending(block)|, max, k);
  }

  lemma CeilingIsExact(n: nat, max: nat, k: nat)
    requires max > 0
    ensures max * k >= n <==> k >= (n + max - 1) / max
  {
    var q := (n + max - 1) / max;
    var r := (n + max - 1) % max;
    assert n + max - 1 == max * q + r;
    if k >= q {
      assert max * k >= max * q;
    } else {
      assert max * k <= max * (q - 1);
      assert max * (q - 1) == max * q - max;
    }
  }
}
