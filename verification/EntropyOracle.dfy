/**
 contracts/entropy/EntropyOracle.sol and EntropyOracleV2.sol. A transaction either takes effect or reverts and
 leaves the state as it was. Signature recovery, hashing and the v1 oracles are uninterpreted.
 */
module EntropyOracle {
  import opened Results
  import opened EnumerableSet

  // ---- Packing of a consumer's address and callback ID into one word.

  const TWO_TO_THE_96: nat := 0x1_0000_0000_0000_0000_0000_0000
  const TWO_TO_THE_160: nat := 0x1_0000_0000_0000_0000_0000_0000_0000_0000_0000_0000

  type Address = x: nat | x < TWO_TO_THE_160
  type CallbackId = x: nat | x < TWO_TO_THE_96

  function PackCallback(addr: Address, id: CallbackId): nat {
    addr * TWO_TO_THE_96 + id % TWO_TO_THE_96
  }

  function UnpackCallback(packed: nat): (Address, CallbackId) {
    ((packed / TWO_TO_THE_96) % TWO_TO_THE_160, packed % TWO_TO_THE_96)
  }

  lemma UnpackUndoesPack(addr: Address, id: CallbackId)
    ensures UnpackCallback(PackCallback(addr, id)) == (addr, id)
  {
    var packed := PackCallback(addr, id);
    assert packed / TWO_TO_THE_96 == addr && packed % TWO_TO_THE_96 == id;
  }

  lemma PackUndoesUnpack(packed: nat)
    requires packed < TWO_TO_THE_96 * TWO_TO_THE_160
    ensures var (addr, id) := UnpackCallback(packed); PackCallback(addr, id) == packed
  {
    assert packed / TWO_TO_THE_96 < TWO_TO_THE_160;
  }

  // ---- State.

  type Signature = nat

  /**
   What the contract cannot see into: the answers of other oracles, signature recovery (which reverts on a malformed
   signature) and hashing.
   */
  datatype World = World(
    v1Entropy: (Address, nat) -> nat,
    recover: (nat, Signature) -> Option<Address>,
    keccak: Signature -> nat
  ) {
    // No signature's hash collides with the sentinels "unknown" and "requested", and none recovers to address zero.
    ghost predicate Valid() {
      && (forall s: Signature :: keccak(s) > 1)
      && (forall block: nat, s: Signature :: recover(block, s) != Some(0))
    }
  }

  datatype State = State(slots: map<nat, nat>, callbacks: map<nat, seq<nat>>, v1: Address, signer: Address) {
    /** 0: unknown, 1: requested, more: the entropy. */
    function Slot(block: nat): nat {
      if block in slots then slots[block] else 0
    }

    function Pending(block: nat): seq<nat> {
      if block in callbacks then callbacks[block] else []
    }

    /** v1's blockEntropy: the sentinel values count as nothing. */
    function OwnEntropy(block: nat): nat {
      if Slot(block) > 1 then Slot(block) else 0
    }

    /** v2's blockEntropy: an override's answer takes precedence. */
    function BlockEntropy(w: World, block: nat): nat {
      if v1 != 0 && w.v1Entropy(v1, block) != 0 then w.v1Entropy(v1, block) else OwnEntropy(block)
    }
  }

  const INITIAL: State := State(map[], map[], 0, 0)

  datatype Revert =
    | MissingRole
    | NonHistoricalBlock(block: nat)
    | SignatureNotRecovered
    | InvalidEntropySignature
    | EntropyAlreadyProvided(block: nat)
    | EntropyNotAvailable(block: nat)
    | CallbackNotRegistered(consumer: Address, id: CallbackId, block: nat)
    | ConsumerReverted

  /** What happened to a callback of a block: value is the entropy delivered, or 0. */
  datatype Kind = Registered | Removed | Triggered | Failed | Immediate
  datatype Event = Event(kind: Kind, block: nat, callback: nat, value: nat)

  type Outcome = Result<(State, seq<Event>), Revert>

  datatype Fulfilment = Fulfilment(block: nat, signature: Signature)

  /**
   One external call. "authorised" is what the role check on the sender finds; "ok" tells which consumer calls
   succeed, by position in the transaction.
   */
  datatype Tx =
    | RequestEntropy(block: nat, authorised: bool)
    | RequestEntropyWithCallback(sender: Address, block: nat, id: CallbackId, authorised: bool, consumed: bool)
    | ProvideEntropy(entropy: Fulfilment, now: nat, max: nat, ok: nat -> bool)
    | ProvideBatch(batch: seq<Fulfilment>, now: nat, oks: nat -> (nat -> bool))
    | TriggerCallbacks(block: nat, max: nat, ok: nat -> bool)
    | RemoveCallback(consumer: Address, id: CallbackId, block: nat, authorised: bool)
    | SetOverride(v1: Address, authorised: bool)
    | SetSigner(signer: Address, authorised: bool)

  // ---- What each transaction does.

  /** The callbacks, among those called, whose consumer succeeded. */
  function Successes(called: seq<nat>, ok: nat -> bool): seq<nat> {
    if called == [] then []
    else
      var last := |called| - 1;
      Successes(called[..last], ok) + if ok(last) then [called[last]] else []
  }

  function CallEvents(block: nat, called: seq<nat>, entropy: nat, ok: nat -> bool): (events: seq<Event>)
    ensures |events| == |called|
  {
    seq(|called|, i requires 0 <= i < |called| =>
      Event(if ok(i) then Triggered else Failed, block, called[i], entropy))
  }

  function Limit(n: nat, max: nat): nat {
    if n > max then max else n
  }

  function Triggering(s: State, block: nat, entropy: nat, max: nat, ok: nat -> bool): (State, seq<Event>) {
    var pending := s.Pending(block);
    var called := pending[..Limit(|pending|, max)];
    (s.(callbacks := s.callbacks[block := RemoveBackwards(pending, Successes(called, ok))]),
     CallEvents(block, called, entropy, ok))
  }

  function Requesting(s: State, block: nat, authorised: bool): Outcome {
    if !authorised then Err(MissingRole)
    else if s.Slot(block) == 0 then Ok((s.(slots := s.slots[block := 1]), []))
    else Ok((s, []))
  }

  function RequestingWithCallback(w: World, s: State, sender: Address, block: nat, id: CallbackId, authorised: bool,
                                  consumed: bool): Outcome {
    var entropy := s.BlockEntropy(w, block);
    var packed := PackCallback(sender, id);
    if entropy != 0 then
      if consumed then Ok((s, [Event(Immediate, block, packed, entropy)])) else Err(ConsumerReverted)
    else
      match Requesting(s, block, authorised)
      case Err(e) => Err(e)
      case Ok((t, _)) =>
        var pending := t.Pending(block);
        Ok((t.(callbacks := t.callbacks[block := Add(pending, packed)]),
            if packed in pending then [] else [Event(Registered, block, packed, 0)]))
  }

  /** The checks on a fulfilment, in their order, and the hash that is stored. */
  function Fulfilling(w: World, s: State, entropy: Fulfilment, now: nat): Result<nat, Revert> {
    if entropy.block >= now then Err(NonHistoricalBlock(entropy.block))
    else if w.recover(entropy.block, entropy.signature).None? then Err(SignatureNotRecovered)
    else if w.recover(entropy.block, entropy.signature) != Some(s.signer) then Err(InvalidEntropySignature)
    else if s.BlockEntropy(w, entropy.block) != 0 then Err(EntropyAlreadyProvided(entropy.block))
    else Ok(w.keccak(entropy.signature))
  }

  function Providing(w: World, s: State, entropy: Fulfilment, now: nat, max: nat, ok: nat -> bool): Outcome {
    match Fulfilling(w, s, entropy, now)
    case Err(e) => Err(e)
    case Ok(hashed) =>
      Ok(Triggering(s.(slots := s.slots[entropy.block := hashed]), entropy.block, hashed, max, ok))
  }

  /** maxCallbacks of 2^256-1: no list of callbacks is longer. */
  const NO_LIMIT: nat := 0xFFFF_FFFF_FFFF_FFFF_FFFF_FFFF_FFFF_FFFF_FFFF_FFFF_FFFF_FFFF_FFFF_FFFF_FFFF_FFFF

  function ProvidingBatch(w: World, s: State, batch: seq<Fulfilment>, now: nat, oks: nat -> (nat -> bool)): Outcome {
    if batch == [] then Ok((s, []))
    else
      var last := |batch| - 1;
      match ProvidingBatch(w, s, batch[..last], now, oks)
      case Err(e) => Err(e)
      case Ok((t, events)) =>
        match Providing(w, t, batch[last], now, NO_LIMIT, oks(last))
        case Err(e) => Err(e)
        case Ok((u, more)) => Ok((u, events + more))
  }

  function Removing(s: State, consumer: Address, id: CallbackId, block: nat, authorised: bool): Outcome {
    var packed := PackCallback(consumer, id);
    if !authorised then Err(MissingRole)
    else if packed !in s.Pending(block) then Err(CallbackNotRegistered(consumer, id, block))
    else Ok((s.(callbacks := s.callbacks[block := Remove(s.Pending(block), packed)]),
             [Event(Removed, block, packed, 0)]))
  }

  function TriggeringAvailable(w: World, s: State, block: nat, max: nat, ok: nat -> bool): Outcome {
    var entropy := s.BlockEntropy(w, block);
    if entropy == 0 then Err(EntropyNotAvailable(block)) else Ok(Triggering(s, block, entropy, max, ok))
  }

  function Attempt(w: World, s: State, tx: Tx): Outcome {
    match tx
    case RequestEntropy(block, authorised) => Requesting(s, block, authorised)
    case RequestEntropyWithCallback(sender, block, id, authorised, consumed) =>
      RequestingWithCallback(w, s, sender, block, id, authorised, consumed)
    case ProvideEntropy(entropy, now, max, ok) => Providing(w, s, entropy, now, max, ok)
    case ProvideBatch(batch, now, oks) => ProvidingBatch(w, s, batch, now, oks)
    case TriggerCallbacks(block, max, ok) => TriggeringAvailable(w, s, block, max, ok)
    case RemoveCallback(consumer, id, block, authorised) => Removing(s, consumer, id, block, authorised)
    case SetOverride(v1, authorised) => if authorised then Ok((s.(v1 := v1), [])) else Err(MissingRole)
    case SetSigner(signer, authorised) => if authorised then Ok((s.(signer := signer), [])) else Err(MissingRole)
  }

  /** The state after a transaction, and what it did to callbacks: a revert does nothing. */
  function Step(w: World, s: State, tx: Tx): (State, seq<Event>) {
    match Attempt(w, s, tx)
    case Ok(done) => done
    case Err(_) => (s, [])
  }

  // ---- What a batch amounts to.

  function Flatten(logs: seq<seq<Event>>): seq<Event> {
    if logs == [] then [] else Flatten(logs[..|logs| - 1]) + logs[|logs| - 1]
  }

  /** The fulfilments of a batch, provided one by one in transactions of their own, all succeed. */
  ghost predicate Singly(w: World, s: State, batch: seq<Fulfilment>, now: nat, oks: nat -> (nat -> bool),
                         states: seq<State>, logs: seq<seq<Event>>) {
    && |states| == |batch| + 1 && |logs| == |batch| && states[0] == s
    && forall i :: 0 <= i < |batch| ==>
         Attempt(w, states[i], ProvideEntropy(batch[i], now, NO_LIMIT, oks(i))) == Ok((states[i + 1], logs[i]))
  }

  /** Providing a batch succeeds exactly when providing it one by one does, and then comes to the same. */
  lemma BatchExactly(w: World, s: State, batch: seq<Fulfilment>, now: nat, oks: nat -> (nat -> bool))
    ensures Attempt(w, s, ProvideBatch(batch, now, oks)).Ok? <==>
            exists states, logs :: Singly(w, s, batch, now, oks, states, logs)
    ensures forall states, logs :: Singly(w, s, batch, now, oks, states, logs) ==>
              Attempt(w, s, ProvideBatch(batch, now, oks)) == Ok((states[|batch|], Flatten(logs)))
  {
    if ProvidingBatch(w, s, batch, now, oks).Ok? {
      var states, logs := BatchOneByOne(w, s, batch, now, oks);
    }
    forall states, logs | Singly(w, s, batch, now, oks, states, logs)
      ensures ProvidingBatch(w, s, batch, now, oks) == Ok((states[|batch|], Flatten(logs)))
    {
      OneByOneIsBatch(w, s, batch, now, oks, states, logs);
    }
  }

  lemma {:induction false} BatchOneByOne(w: World, s: State, batch: seq<Fulfilment>, now: nat,
                                         oks: nat -> (nat -> bool))
    returns (states: seq<State>, logs: seq<seq<Event>>)
    requires ProvidingBatch(w, s, batch, now, oks).Ok?
    ensures Singly(w, s, batch, now, oks, states, logs)
    decreases |batch|
  {
    hide Providing;
    if batch == [] {
      states, logs := [s], [];
    } else {
      var last := |batch| - 1;
      states, logs := BatchOneByOne(w, s, batch[..last], now, oks);
      OneByOneIsBatch(w, s, batch[..last], now, oks, states, logs);
      var (u, more) := Providing(w, states[last], batch[last], now, NO_LIMIT, oks(last)).value;
      states, logs := states + [u], logs + [more];
    }
  }

  lemma {:induction false} OneByOneIsBatch(w: World, s: State, batch: seq<Fulfilment>, now: nat,
                                           oks: nat -> (nat -> bool), states: seq<State>, logs: seq<seq<Event>>)
    requires Singly(w, s, batch, now, oks, states, logs)
    ensures ProvidingBatch(w, s, batch, now, oks) == Ok((states[|batch|], Flatten(logs)))
    decreases |batch|
  {
    hide Providing;
    if batch != [] {
      var last := |batch| - 1;
      SinglyBefore(w, s, batch, now, oks, states, logs, last);
      OneByOneIsBatch(w, s, batch[..last], now, oks, states[..last + 1], logs[..last]);
      assert Attempt(w, states[last], ProvideEntropy(batch[last], now, NO_LIMIT, oks(last))) ==
             Ok((states[last + 1], logs[last]));
    }
  }

  lemma SinglyBefore(w: World, s: State, batch: seq<Fulfilment>, now: nat, oks: nat -> (nat -> bool),
                     states: seq<State>, logs: seq<seq<Event>>, k: nat)
    requires Singly(w, s, batch, now, oks, states, logs) && k <= |batch|
    ensures Singly(w, s, batch[..k], now, oks, states[..k + 1], logs[..k])
  {
    hide Attempt;
  }

  /** After a batch that succeeded, the slot of each of its blocks holds the hash of its signature. */
  lemma BatchStores(w: World, s: State, batch: seq<Fulfilment>, now: nat, oks: nat -> (nat -> bool))
    requires w.Valid() && Attempt(w, s, ProvideBatch(batch, now, oks)).Ok?
    ensures var t := Attempt(w, s, ProvideBatch(batch, now, oks)).value.0;
            forall i :: 0 <= i < |batch| ==> t.Slot(batch[i].block) == w.keccak(batch[i].signature)
  {
    hide Singly, ProvidingBatch, Providing, Requesting, RequestingWithCallback, Removing, TriggeringAvailable, Flatten;
    var states, logs := BatchOneByOne(w, s, batch, now, oks);
    OneByOneIsBatch(w, s, batch, now, oks, states, logs);
    SinglyLengths(w, s, batch, now, oks, states, logs);
    forall i | 0 <= i < |batch|
      ensures states[|batch|].Slot(batch[i].block) == w.keccak(batch[i].signature)
    {
      StoredStays(w, s, batch, now, oks, states, logs, i, |batch|);
    }
  }

  lemma {:induction false} StoredStays(w: World, s: State, batch: seq<Fulfilment>, now: nat, oks: nat -> (nat -> bool),
                                       states: seq<State>, logs: seq<seq<Event>>, i: nat, k: nat)
    requires w.Valid() && Singly(w, s, batch, now, oks, states, logs) && i < k <= |batch|
    ensures states[k].Slot(batch[i].block) == w.keccak(batch[i].signature)
    decreases k
  {
    hide Singly, Attempt, Fulfilling, Triggering;
    SinglyAt(w, s, batch, now, oks, states, logs, k - 1);
    ProvisionStores(w, states[k - 1], batch[k - 1], now, NO_LIMIT, oks(k - 1), batch[i].block);
    if i < k - 1 {
      StoredStays(w, s, batch, now, oks, states, logs, i, k - 1);
    }
  }

  lemma SinglyAt(w: World, s: State, batch: seq<Fulfilment>, now: nat, oks: nat -> (nat -> bool),
                 states: seq<State>, logs: seq<seq<Event>>, k: nat)
    requires Singly(w, s, batch, now, oks, states, logs) && k < |batch|
    ensures |states| == |batch| + 1 && |logs| == |batch|
    ensures Providing(w, states[k], batch[k], now, NO_LIMIT, oks(k)) == Ok((states[k + 1], logs[k]))
  {
    hide Providing;
    assert Attempt(w, states[k], ProvideEntropy(batch[k], now, NO_LIMIT, oks(k))) == Ok((states[k + 1], logs[k]));
  }

  lemma SinglyLengths(w: World, s: State, batch: seq<Fulfilment>, now: nat, oks: nat -> (nat -> bool),
                      states: seq<State>, logs: seq<seq<Event>>)
    requires Singly(w, s, batch, now, oks, states, logs)
    ensures |states| == |batch| + 1 && |logs| == |batch|
  {
  }

  /** A provision fills the slot of its own block, which held no entropy before, and no other. */
  lemma ProvisionStores(w: World, s: State, entropy: Fulfilment, now: nat, max: nat, ok: nat -> bool, block: nat)
    requires Providing(w, s, entropy, now, max, ok).Ok?
    ensures s.Slot(entropy.block) <= 1
    ensures Providing(w, s, entropy, now, max, ok).value.0.Slot(block) ==
            if block == entropy.block then w.keccak(entropy.signature) else s.Slot(block)
  {
  }

  /** 2^256-1 is no limit to a list that fits in storage. */
  lemma NothingIsOverTheLimit(n: nat)
    requires n < 0x1_0000_0000_0000_0000_0000_0000_0000_0000_0000_0000_0000_0000_0000_0000_0000_0000
    ensures Limit(n, NO_LIMIT) == n
  {
  }

  /** What the role check on the sender found; transactions for everyone count as authorised. */
  function Authorised(tx: Tx): bool {
    match tx
    case RequestEntropy(_, authorised) => authorised
    case RequestEntropyWithCallback(_, _, _, authorised, _) => authorised
    case RemoveCallback(_, _, _, authorised) => authorised
    case SetOverride(_, authorised) => authorised
    case SetSigner(_, authorised) => authorised
    case _ => true
  }

  /** Without the role a transaction changes nothing; all it can do is to have available entropy delivered at once. */
  lemma RolesAreChecked(w: World, s: State, tx: Tx)
    requires !Authorised(tx)
    ensures Step(w, s, tx).0 == s && forall e :: e in Step(w, s, tx).1 ==> e.kind == Immediate
    ensures Attempt(w, s, tx) == Err(MissingRole) ||
            (tx.RequestEntropyWithCallback? && s.BlockEntropy(w, tx.block) != 0)
  {
  }

  /** An immediate delivery is of the block's entropy, to the sender, under the ID it asked for. */
  lemma ImmediateIsOwn(w: World, s: State, tx: Tx, e: Event)
    requires e in Step(w, s, tx).1 && e.kind == Immediate
    ensures tx.RequestEntropyWithCallback? && e.block == tx.block && e.value == s.BlockEntropy(w, tx.block) != 0
    ensures UnpackCallback(e.callback) == (tx.sender, tx.id)
  {
    match tx
    case RequestEntropyWithCallback(sender, _, id, _, _) => UnpackUndoesPack(sender, id);
    case ProvideEntropy(entropy, _, max, ok) =>
      TriggeringIsNotImmediate(s, entropy.block, w.keccak(entropy.signature), max, ok);
    case ProvideBatch(batch, now, oks) => BatchNeverImmediate(w, s, batch, now, oks, e);
    case TriggerCallbacks(block, max, ok) => TriggeringIsNotImmediate(s, block, s.BlockEntropy(w, block), max, ok);
    case _ =>
  }

  lemma TriggeringIsNotImmediate(s: State, block: nat, entropy: nat, max: nat, ok: nat -> bool)
    ensures forall e :: e in Triggering(s, block, entropy, max, ok).1 ==> e.kind == Triggered || e.kind == Failed
    ensures forall t: State :: t.callbacks == s.callbacks ==>
              Triggering(t, block, entropy, max, ok).1 == Triggering(s, block, entropy, max, ok).1
  {
  }

  lemma {:induction false} BatchNeverImmediate(w: World, s: State, batch: seq<Fulfilment>, now: nat,
                                               oks: nat -> (nat -> bool), e: Event)
    requires ProvidingBatch(w, s, batch, now, oks).Ok? && e in ProvidingBatch(w, s, batch, now, oks).value.1
    ensures e.kind != Immediate
    decreases |batch|
  {
    var last := |batch| - 1;
    var (t, events) := ProvidingBatch(w, s, batch[..last], now, oks).value;
    if e in events {
      BatchNeverImmediate(w, s, batch[..last], now, oks, e);
    }
  }

  // ---- The contract.

  class Oracle {
    const world: World
    var slots: map<nat, nat>
    var callbacks: map<nat, seq<nat>>
    var v1Override: Address
    var signer: Address

    constructor (world: World)
      ensures this.world == world && Now() == INITIAL
    {
      this.world := world;
      slots, callbacks, v1Override, signer := map[], map[], 0, 0;
    }

    function Now(): State
      reads this
    {
      State(slots, callbacks, v1Override, signer)
    }

    /** The outcome of a transaction, as its sender and this object see it. */
    ghost predicate Took(before: State, outcome: Outcome, r: Result<seq<Event>, Revert>)
      reads this
    {
      match outcome
      case Err(e) => r == Err(e) && Now() == before
      case Ok((s, events)) => r == Ok(events) && Now() == s
    }

    /** Nothing has changed but, it may be, the slot and the callbacks of one block. */
    ghost predicate SameBut(before: State, block: nat)
      reads this
    {
      && (forall b: nat :: b != block ==> Now().Slot(b) == before.Slot(b) && Now().Pending(b) == before.Pending(b))
      && v1Override == before.v1 && signer == before.signer
    }

    method RequestEntropy(block: nat, authorised: bool) returns (r: Result<seq<Event>, Revert>)
      modifies this
      ensures Took(old(Now()), Requesting(old(Now()), block, authorised), r)
      ensures r == if authorised then Ok([]) else Err(MissingRole)
      ensures SameBut(old(Now()), block) && Now().Pending(block) == old(Now().Pending(block))
      ensures Now().Slot(block) == if authorised && old(Now().Slot(block)) == 0 then 1 else old(Now().Slot(block))
    {
      if !authorised {
        return Err(MissingRole);
      }
      if Now().Slot(block) == 0 {
        slots := slots[block := 1];
      }
      return Ok([]);
    }

    method RequestEntropyWithCallback(sender: Address, block: nat, id: CallbackId, authorised: bool, consumed: bool)
      returns (r: Result<seq<Event>, Revert>)
      modifies this
      ensures Took(old(Now()), RequestingWithCallback(world, old(Now()), sender, block, id, authorised, consumed), r)
      ensures var entropy := old(Now().BlockEntropy(world, block));
              entropy != 0 ==>
                && Now() == old(Now())
                && r == if consumed then Ok([Event(Immediate, block, PackCallback(sender, id), entropy)])
                        else Err(ConsumerReverted)
      ensures old(Now().BlockEntropy(world, block)) == 0 ==>
                && (if authorised then r.Ok? else r == Err(MissingRole) && Now() == old(Now()))
                && SameBut(old(Now()), block)
      ensures old(Now().BlockEntropy(world, block)) == 0 && authorised ==>
                var (pending, packed) := (old(Now().Pending(block)), PackCallback(sender, id));
                && Now().Slot(block) == (if old(Now().Slot(block)) == 0 then 1 else old(Now().Slot(block)))
                && Now().Pending(block) == (if packed in pending then pending else pending + [packed])
                && r.value == (if packed in pending then [] else [Event(Registered, block, packed, 0)])
    {
      var entropy := Now().BlockEntropy(world, block);
      var packed := PackCallback(sender, id);
      if entropy != 0 {
        if !consumed {
          return Err(ConsumerReverted);
        }
        return Ok([Event(Immediate, block, packed, entropy)]);
      }
      var requested := RequestEntropy(block, authorised);
      if requested.Err? {
        return requested;
      }
      var pending := Now().Pending(block);
      callbacks := callbacks[block := Add(pending, packed)];
      return Ok(if packed in pending then [] else [Event(Registered, block, packed, 0)]);
    }

    method ProvideEntropy(entropy: Fulfilment, now: nat, max: nat, ok: nat -> bool)
      returns (r: Result<seq<Event>, Revert>)
      modifies this
      ensures Took(old(Now()), Providing(world, old(Now()), entropy, now, max, ok), r)
      ensures r.Ok? <==> && entropy.block < now
                         && world.recover(entropy.block, entropy.signature) == Some(old(signer))
                         && old(Now().BlockEntropy(world, entropy.block)) == 0
      ensures r.Ok? ==> Now().Slot(entropy.block) == world.keccak(entropy.signature)
      ensures if r.Ok? then SameBut(old(Now()), entropy.block) else Now() == old(Now())
    {
      var block := entropy.block;
      if block >= now {
        return Err(NonHistoricalBlock(block));
      }
      var recovered := world.recover(block, entropy.signature);
      if recovered.None? {
        return Err(SignatureNotRecovered);
      }
      if recovered.value != signer {
        return Err(InvalidEntropySignature);
      }
      if Now().BlockEntropy(world, block) != 0 {
        return Err(EntropyAlreadyProvided(block));
      }
      var hashed := world.keccak(entropy.signature);
      slots := slots[block := hashed];
      var events := TriggerLoop(block, hashed, max, ok);
      return Ok(events);
    }

    /** A failure anywhere in the batch reverts all of it. */
    method ProvideBatch(batch: seq<Fulfilment>, now: nat, oks: nat -> (nat -> bool))
      returns (r: Result<seq<Event>, Revert>)
      modifies this
      ensures Took(old(Now()), ProvidingBatch(world, old(Now()), batch, now, oks), r)
      ensures r.Ok? <==> exists states, logs :: Singly(world, old(Now()), batch, now, oks, states, logs)
      ensures forall states, logs :: Singly(world, old(Now()), batch, now, oks, states, logs) ==>
                Now() == states[|batch|] && r == Ok(Flatten(logs))
      ensures r.Err? ==> Now() == old(Now())
      ensures r.Ok? && world.Valid() ==>
                forall i :: 0 <= i < |batch| ==> Now().Slot(batch[i].block) == world.keccak(batch[i].signature)
    {
      var before := Now();
      BatchMeans(world, before, batch, now, oks);
      hide ProvidingBatch, Providing, Singly, Flatten;
      assert batch[..0] == [];
      NoBatch(world, before, now, oks);
      var events: seq<Event> := [];
      for i := 0 to |batch|
        invariant ProvidingBatch(world, before, batch[..i], now, oks) == Ok((Now(), events))
      {
        BatchGrows(world, before, batch, i, now, oks);
        var one := ProvideEntropy(batch[i], now, NO_LIMIT, oks(i));
        if one.Err? {
          slots, callbacks, v1Override, signer := before.slots, before.callbacks, before.v1, before.signer;
          BatchFails(world, before, batch, i + 1, now, oks);
          return one;
        }
        events := events + one.value;
      }
      assert batch[..|batch|] == batch;
      return Ok(events);
    }

    method TriggerCallbacks(block: nat, max: nat, ok: nat -> bool) returns (r: Result<seq<Event>, Revert>)
      modifies this
      ensures Took(old(Now()), TriggeringAvailable(world, old(Now()), block, max, ok), r)
      ensures if old(Now().BlockEntropy(world, block)) != 0 then r.Ok? else r == Err(EntropyNotAvailable(block))
      ensures SameBut(old(Now()), block) && slots == old(slots)
    {
      var entropy := Now().BlockEntropy(world, block);
      if entropy == 0 {
        return Err(EntropyNotAvailable(block));
      }
      var events := TriggerLoop(block, entropy, max, ok);
      return Ok(events);
    }

    // _triggerCallbacks: call from the front, then remove the successes from the back.
    method TriggerLoop(block: nat, entropy: nat, max: nat, ok: nat -> bool) returns (events: seq<Event>)
      modifies this`callbacks
      ensures (Now(), events) == Triggering(old(Now()), block, entropy, max, ok)
    {
      var pending := Now().Pending(block);
      var n := if |pending| > max then max else |pending|;
      var successful: seq<nat> := [];
      events := [];
      for i := 0 to n
        invariant successful == Successes(pending[..i], ok)
        invariant events == CallEvents(block, pending[..i], entropy, ok)
      {
        assert pending[..i + 1][..i] == pending[..i];
        var packed := pending[i];
        if ok(i) {
          successful := successful + [packed];
          events := events + [Event(Triggered, block, packed, entropy)];
        } else {
          events := events + [Event(Failed, block, packed, entropy)];
        }
      }
      var left := RemoveSuccessful(pending, successful);
      callbacks := callbacks[block := left];
    }

    // The second loop of _triggerCallbacks.
    static method RemoveSuccessful(pending: seq<nat>, successful: seq<nat>) returns (left: seq<nat>)
      ensures left == RemoveBackwards(pending, successful)
    {
      left := pending;
      var cursor := |successful|;
      assert successful[..cursor] == successful;
      while cursor > 0
        invariant cursor <= |successful|
        invariant RemoveBackwards(left, successful[..cursor]) == RemoveBackwards(pending, successful)
      {
        cursor := cursor - 1;
        assert successful[..cursor + 1][..cursor] == successful[..cursor];
        left := Remove(left, successful[cursor]);
      }
    }

    method RemoveCallback(consumer: Address, id: CallbackId, block: nat, authorised: bool)
      returns (r: Result<seq<Event>, Revert>)
      modifies this
      ensures Took(old(Now()), Removing(old(Now()), consumer, id, block, authorised), r)
      ensures r.Ok? <==> authorised && PackCallback(consumer, id) in old(Now().Pending(block))
      ensures r.Ok? ==> r.value == [Event(Removed, block, PackCallback(consumer, id), 0)]
      ensures SameBut(old(Now()), block) && slots == old(slots)
    {
      if !authorised {
        return Err(MissingRole);
      }
      var packed := PackCallback(consumer, id);
      if packed !in Now().Pending(block) {
        return Err(CallbackNotRegistered(consumer, id, block));
      }
      callbacks := callbacks[block := Remove(Now().Pending(block), packed)];
      return Ok([Event(Removed, block, packed, 0)]);
    }

    method SetOverride(v1: Address, authorised: bool) returns (r: Result<seq<Event>, Revert>)
      modifies this
      ensures Took(old(Now()), Attempt(world, old(Now()), Tx.SetOverride(v1, authorised)), r)
      ensures r == if authorised then Ok([]) else Err(MissingRole)
      ensures Now() == old(Now()).(v1 := if authorised then v1 else old(v1Override))
    {
      if !authorised {
        return Err(MissingRole);
      }
      v1Override := v1;
      return Ok([]);
    }

    method SetSigner(newSigner: Address, authorised: bool) returns (r: Result<seq<Event>, Revert>)
      modifies this
      ensures Took(old(Now()), Attempt(world, old(Now()), Tx.SetSigner(newSigner, authorised)), r)
      ensures r == if authorised then Ok([]) else Err(MissingRole)
      ensures Now() == old(Now()).(signer := if authorised then newSigner else old(signer))
    {
      if !authorised {
        return Err(MissingRole);
      }
      signer := newSigner;
      return Ok([]);
    }
  }

  lemma BatchMeans(w: World, s: State, batch: seq<Fulfilment>, now: nat, oks: nat -> (nat -> bool))
    ensures ProvidingBatch(w, s, batch, now, oks).Ok? <==>
            exists states, logs :: Singly(w, s, batch, now, oks, states, logs)
    ensures forall states, logs :: Singly(w, s, batch, now, oks, states, logs) ==>
              |states| == |batch| + 1 && ProvidingBatch(w, s, batch, now, oks) == Ok((states[|batch|], Flatten(logs)))
    ensures w.Valid() && ProvidingBatch(w, s, batch, now, oks).Ok? ==>
              forall i :: 0 <= i < |batch| ==>
                ProvidingBatch(w, s, batch, now, oks).value.0.Slot(batch[i].block) == w.keccak(batch[i].signature)
  {
    BatchExactly(w, s, batch, now, oks);
    if w.Valid() && ProvidingBatch(w, s, batch, now, oks).Ok? {
      BatchStores(w, s, batch, now, oks);
    }
  }

  lemma NoBatch(w: World, s: State, now: nat, oks: nat -> (nat -> bool))
    ensures ProvidingBatch(w, s, [], now, oks) == Ok((s, []))
  {
  }

  lemma BatchGrows(w: World, s: State, batch: seq<Fulfilment>, k: nat, now: nat, oks: nat -> (nat -> bool))
    requires k < |batch| && ProvidingBatch(w, s, batch[..k], now, oks).Ok?
    ensures var (t, events) := ProvidingBatch(w, s, batch[..k], now, oks).value;
            ProvidingBatch(w, s, batch[..k + 1], now, oks) ==
            match Providing(w, t, batch[k], now, NO_LIMIT, oks(k))
            case Err(e) => Err(e)
            case Ok((u, more)) => Ok((u, events + more))
  {
    hide Providing;
    assert batch[..k + 1][..k] == batch[..k];
  }

  /** If a prefix of a batch reverts, so does the batch, with the same error. */
  lemma {:induction false} BatchFails(w: World, s: State, batch: seq<Fulfilment>, k: nat, now: nat,
                                      oks: nat -> (nat -> bool))
    requires k <= |batch| && ProvidingBatch(w, s, batch[..k], now, oks).Err?
    ensures ProvidingBatch(w, s, batch, now, oks) == Err(ProvidingBatch(w, s, batch[..k], now, oks).error)
    decreases |batch|
  {
    if k == |batch| {
      assert batch[..k] == batch;
    } else {
      var last := |batch| - 1;
      assert batch[..last][..k] == batch[..k];
      BatchFails(w, s, batch[..last], k, now, oks);
    }
  }
}
