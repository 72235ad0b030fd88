/**
 go/firehose: the pipeline behind an event subscription. A producer goroutine reads the upstream stream, a handler
 goroutine extracts events, and the client calls Recv; they meet on two unbuffered channels. Every interleaving is
 a run of the steps below.
 */
module Firehose {
  import opened Results

  /** Blocks and responses are known by their contents, here numbers. */
  type Block = nat
  type Response = nat

  datatype Error = EOF | Cancelled | Setup | Stream | Unmarshal | Extract(block: Block)

  /** What upstream sends once open: blocks, or messages that cannot be unmarshalled into one; then it ends or fails. */
  datatype Message = Good(block: Block) | Bad
  datatype Upstream = Upstream(opens: bool, messages: seq<Message>, fails: bool, extract: Block -> Option<Response>)

  datatype Producer =
    | NotStarted
    | Receiving
    | Sending(block: Block)       // in the select on blocks, quit and the context
    | Storing(err: Option<Error>) // deferred: ret.err = retErr
    | ClosingBlocks
    | ProducerDone

  datatype Handler =
    | Starting
    | Selecting                         // in the select on the context and blocks
    | Forwarding(out: Response)         // in the select of send
    | Quitting(err: Option<Error>)      // deferred: blocks.Close()
    | Assigning(err: Option<Error>)     // a.err = io.EOF or the error
    | ClosingResponses
    | HandlerDone

  datatype Client = Idle | InRecv

  datatype World = World(
    cancelled: bool,
    producer: Producer,
    read: nat,               // messages the producer has read
    retErr: Option<Error>,   // Blocks.err
    blocksClosed: bool,
    quit: bool,              // Blocks.quit is closed
    handler: Handler,
    given: nat,              // blocks that crossed to the handler
    adaptorErr: Option<Error>,
    responsesClosed: bool,
    client: Client,
    log: seq<Result<Response, Error>> // what Recv has returned so far
  )

  const INITIAL: World :=
    World(false, NotStarted, 0, None, false, false, Starting, 0, None, false, Idle, [])

  // ---- Steps.

  ghost predicate CancelStep(w: World, w': World) {
    w' == w.(cancelled := true)
  }

  /** One return of stream.Recv; it may also fail because the context is done. */
  ghost predicate ReadStep(u: Upstream, w: World, w': World) {
    && w.producer.Receiving?
    && (|| (w.cancelled && w' == w.(producer := Storing(Some(Stream))))
        || (w.read < |u.messages| && u.messages[w.read].Good? &&
            w' == w.(producer := Sending(u.messages[w.read].block), read := w.read + 1))
        || (w.read < |u.messages| && u.messages[w.read].Bad? &&
            w' == w.(producer := Storing(Some(Unmarshal)), read := w.read + 1))
        || (w.read >= |u.messages| && w' == w.(producer := Storing(if u.fails then Some(Stream) else None))))
  }

  ghost predicate ProducerStep(w: World, w': World) {
    match w.producer
    case Sending(_) =>
      || (w.quit && w' == w.(producer := Storing(None)))
      || (w.cancelled && w' == w.(producer := Storing(Some(Cancelled))))
    case Storing(err) => w' == w.(retErr := err, producer := ClosingBlocks)
    case ClosingBlocks => w' == w.(blocksClosed := true, producer := ProducerDone)
    case _ => false
  }

  /** The producer's send meets the handler's receive. */
  ghost predicate BlockCrosses(u: Upstream, w: World, w': World) {
    && w.producer.Sending? && w.handler.Selecting?
    && var b := w.producer.block;
       w' == w.(producer := Receiving, given := w.given + 1,
                handler := match u.extract(b)
                           case Some(out) => Forwarding(out)
                           case None => Quitting(Some(Extract(b))))
  }

  ghost predicate HandlerStep(u: Upstream, w: World, w': World) {
    match w.handler
    case Starting =>
      || ((!u.opens || w.cancelled) && w' == w.(handler := Assigning(Some(Setup))))
      || (u.opens && w' == w.(handler := Selecting, producer := Receiving))
    case Selecting =>
      || (w.cancelled && w' == w.(handler := Quitting(Some(Cancelled))))
      || (w.blocksClosed && w' == w.(handler := Quitting(w.retErr)))
    case Forwarding(_) => w.cancelled && w' == w.(handler := Quitting(Some(Cancelled)))
    case Quitting(err) => w' == w.(quit := true, handler := Assigning(err))
    case Assigning(err) =>
      w' == w.(adaptorErr := if err.None? then Some(EOF) else err, handler := ClosingResponses)
    case ClosingResponses => w' == w.(responsesClosed := true, handler := HandlerDone)
    case HandlerDone => false
  }

  /** The handler's send meets the client's receive: Recv returns the response. */
  ghost predicate ResponseCrosses(w: World, w': World) {
    && w.handler.Forwarding? && w.client.InRecv?
    && w' == w.(handler := Selecting, client := Idle, log := w.log + [Ok(w.handler.out)])
  }

  ghost predicate ClientStep(w: World, w': World) {
    match w.client
    case Idle => w' == w.(client := InRecv)
    case InRecv =>
      && w.responsesClosed && w.adaptorErr.Some?
      && w' == w.(client := Idle, log := w.log + [Err(w.adaptorErr.value)])
  }

  ghost predicate Next(u: Upstream, w: World, w': World) {
    || CancelStep(w, w')
    || ReadStep(u, w, w')
    || ProducerStep(w, w')
    || BlockCrosses(u, w, w')
    || HandlerStep(u, w, w')
    || ResponseCrosses(w, w')
    || ClientStep(w, w')
  }

  ghost predicate IsRun(u: Upstream, run: seq<World>) {
    && |run| > 0 && run[0] == INITIAL
    && forall i :: 0 <= i < |run| - 1 ==> Next(u, run[i], run[i + 1])
  }

  // ---- What a run keeps.

  /** The first n messages are blocks that can be extracted, and these are their responses. */
  ghost predicate Extracted(u: Upstream, n: nat, outs: seq<Response>) {
    && n <= |u.messages| && |outs| == n
    && forall i :: 0 <= i < n ==> u.messages[i].Good? && u.extract(u.messages[i].block) == Some(outs[i])
  }

  /** The responses among the returns of Recv. */
  function Responses(log: seq<Result<Response, Error>>): seq<Response> {
    if log == [] then []
    else
      var last := log[|log| - 1];
      Responses(log[..|log| - 1]) + if last.Ok? then [last.value] else []
  }

  /** No response follows an error, and every error is the same. */
  ghost predicate ErrorsLast(log: seq<Result<Response, Error>>) {
    forall i, j :: 0 <= i < j < |log| && log[i].Err? ==> log[j] == log[i]
  }

  ghost predicate ProducerKeeps(u: Upstream, w: World) {
    && w.given <= w.read <= |u.messages|
    && (w.producer.NotStarted? || w.producer.Receiving? ==> w.read == w.given)
    && (w.producer.Sending? ==> w.read == w.given + 1 && u.messages[w.given] == Good(w.producer.block))
    && (w.blocksClosed <==> w.producer.ProducerDone?)
    && (w.producer.Storing? ==> Honest(u, w, w.producer.err))
    && (w.producer.ClosingBlocks? || w.producer.ProducerDone? ==> Honest(u, w, w.retErr))
    && (w.producer.Storing? && w.producer.err.Some? ==> Explained(u, w, w.producer.err.value))
    && (w.producer.NotStarted? ==> w.retErr.None?)
    && (w.retErr.Some? ==> Explained(u, w, w.retErr.value))
  }

  /** Every error has a cause. */
  ghost predicate Explained(u: Upstream, w: World, err: Error) {
    match err
    case EOF => true
    case Cancelled => w.cancelled
    case Setup => w.producer.NotStarted? && (!u.opens || w.cancelled)
    case Stream => w.cancelled || u.fails
    case Unmarshal => Bad in u.messages
    case Extract(b) => Good(b) in u.messages && u.extract(b).None?
  }

  /** The producer reports no error only at the end of the stream, or when the handler has quit. */
  ghost predicate Honest(u: Upstream, w: World, err: Option<Error>) {
    && (err.None? ==> w.quit || (w.given == |u.messages| && !u.fails))
    && (err.Some? ==> !err.value.EOF?)
  }

  ghost predicate HandlerKeeps(u: Upstream, w: World) {
    && Delivered(u, w, Responses(w.log))
    && (w.handler.Starting? ==> w.producer.NotStarted? && w.given == 0)
    && (w.producer.NotStarted? ==> w.handler.Starting? || w.adaptorErr.Some? || w.handler.Assigning?)
    && (w.quit ==> w.handler.Assigning? || w.handler.ClosingResponses? || w.handler.HandlerDone?)
    && (w.handler.ClosingResponses? || w.handler.HandlerDone? <==> w.adaptorErr.Some?)
    && (w.responsesClosed <==> w.handler.HandlerDone?)
    && (w.handler.Assigning? || w.adaptorErr.Some? ==> w.producer.NotStarted? || w.quit)
  }

  /** The client has a prefix of the responses, and the handler at most one more. */
  ghost predicate Delivered(u: Upstream, w: World, outs: seq<Response>) {
    && |outs| <= w.given <= |outs| + 1
    && Extracted(u, |outs|, outs)
    && (w.handler.Selecting? ==> w.given == |outs|)
    && (w.handler.Forwarding? ==> w.given == |outs| + 1 && Extracted(u, w.given, outs + [w.handler.out]))
    && (w.handler.Quitting? ==> Truthful(u, outs, w.handler.err))
    && (w.handler.Assigning? ==> Truthful(u, outs, w.handler.err))
    && (w.adaptorErr.Some? && w.adaptorErr.value.EOF? ==> Complete(u, outs))
    && (w.handler.Quitting? && w.handler.err.Some? ==> Explained(u, w, w.handler.err.value))
    && (w.handler.Assigning? && w.handler.err.Some? ==> Explained(u, w, w.handler.err.value))
    && (w.adaptorErr.Some? ==> Explained(u, w, w.adaptorErr.value))
  }

  /** The whole stream was delivered, and it ended without failing. */
  ghost predicate Complete(u: Upstream, outs: seq<Response>) {
    |outs| == |u.messages| && !u.fails
  }

  ghost predicate Truthful(u: Upstream, outs: seq<Response>, err: Option<Error>) {
    && (err.None? ==> Complete(u, outs))
    && (err.Some? ==> !err.value.EOF?)
  }

  ghost predicate ClientKeeps(w: World) {
    && ErrorsLast(w.log)
    && forall i :: 0 <= i < |w.log| && w.log[i].Err? ==> w.responsesClosed && w.adaptorErr == Some(w.log[i].error)
  }

  ghost predicate Invariant(u: Upstream, w: World) {
    ProducerKeeps(u, w) && HandlerKeeps(u, w) && ClientKeeps(w)
  }

  lemma ResponsesOfOneMore(log: seq<Result<Response, Error>>, r: Result<Response, Error>)
    ensures Responses(log + [r]) == Responses(log) + if r.Ok? then [r.value] else []
  {
    assert (log + [r])[..|log + [r]| - 1] == log;
  }

  lemma ReadKeeps(u: Upstream, w: World, w': World)
    requires Invariant(u, w) && ReadStep(u, w, w')
    ensures Invariant(u, w')
  {
    hide Responses, Extracted;
  }

  lemma ProducerStepKeeps(u: Upstream, w: World, w': World)
    requires Invariant(u, w) && ProducerStep(w, w')
    ensures Invariant(u, w')
  {
    hide Responses, Extracted;
  }

  lemma CrossingKeeps(u: Upstream, w: World, w': World)
    requires Invariant(u, w) && BlockCrosses(u, w, w')
    ensures Invariant(u, w')
  {
    assert u.messages[w.given] in u.messages;
  }

  lemma HandlerStepKeeps(u: Upstream, w: World, w': World)
    requires Invariant(u, w) && HandlerStep(u, w, w')
    ensures Invariant(u, w')
  {
    hide Responses, Extracted, ClientKeeps;
    HandlerLeavesClient(u, w, w');
  }

  lemma HandlerLeavesClient(u: Upstream, w: World, w': World)
    requires HandlerStep(u, w, w') && ClientKeeps(w) && (w.responsesClosed ==> w.handler.HandlerDone?)
    requires w.adaptorErr.Some? ==> w.handler.ClosingResponses? || w.handler.HandlerDone?
    ensures ClientKeeps(w')
  {
  }

  lemma ResponseKeeps(u: Upstream, w: World, w': World)
    requires Invariant(u, w) && ResponseCrosses(w, w')
    ensures Invariant(u, w')
  {
    ResponsesOfOneMore(w.log, Ok(w.handler.out));
    hide Responses, ClientKeeps;
    assert ClientKeeps(w') by {
      ResponseIsLogged(u, w, w');
    }
  }

  lemma ResponseIsLogged(u: Upstream, w: World, w': World)
    requires Invariant(u, w) && ResponseCrosses(w, w')
    ensures ClientKeeps(w')
  {
    hide ProducerKeeps, Delivered;
  }

  lemma ClientKeepsAll(u: Upstream, w: World, w': World)
    requires Invariant(u, w) && ClientStep(w, w')
    ensures Invariant(u, w')
  {
    if w.client.InRecv? {
      ResponsesOfOneMore(w.log, Err(w.adaptorErr.value));
    }
    hide ClientStep, Responses;
    SameProducer(u, w, w');
    SameHandler(u, w, w');
    ErrorIsLogged(u, w, w');
  }

  lemma SameProducer(u: Upstream, w: World, w': World)
    requires ProducerKeeps(u, w) && w' == w.(client := w'.client, log := w'.log)
    ensures ProducerKeeps(u, w')
  {
  }

  lemma SameHandler(u: Upstream, w: World, w': World)
    requires HandlerKeeps(u, w) && w' == w.(client := w'.client, log := w'.log) && Responses(w'.log) == Responses(w.log)
    ensures HandlerKeeps(u, w')
  {
    hide Responses, Extracted, Complete;
  }

  lemma ErrorIsLogged(u: Upstream, w: World, w': World)
    requires Invariant(u, w) && ClientStep(w, w')
    ensures ClientKeeps(w')
  {
    hide ProducerKeeps, Delivered;
  }

  lemma StepKeepsInvariant(u: Upstream, w: World, w': World)
    requires Invariant(u, w) && Next(u, w, w')
    ensures Invariant(u, w')
  {
    hide Invariant, ReadStep, ProducerStep, BlockCrosses, HandlerStep, ResponseCrosses, ClientStep;
    if ReadStep(u, w, w') {
      ReadKeeps(u, w, w');
    } else if ProducerStep(w, w') {
      ProducerStepKeeps(u, w, w');
    } else if BlockCrosses(u, w, w') {
      CrossingKeeps(u, w, w');
    } else if HandlerStep(u, w, w') {
      HandlerStepKeeps(u, w, w');
    } else if ResponseCrosses(w, w') {
      ResponseKeeps(u, w, w');
    } else if ClientStep(w, w') {
      ClientKeepsAll(u, w, w');
    } else {
      CancelKeeps(u, w, w');
    }
  }

  lemma CancelKeeps(u: Upstream, w: World, w': World)
    requires Invariant(u, w) && CancelStep(w, w')
    ensures Invariant(u, w')
  {
  }

  /** In every interleaving, every state satisfies the invariant. */
  lemma {:induction false} RunsKeepInvariant(u: Upstream, run: seq<World>, k: nat)
    requires IsRun(u, run) && k < |run|
    ensures Invariant(u, run[k])
  {
    hide Next, ProducerKeeps;
    if k == 0 {
      InitialInvariant(u);
    } else {
      RunsKeepInvariant(u, run, k - 1);
      assert Next(u, run[k - 1], run[k - 1 + 1]);
      StepKeepsInvariant(u, run[k - 1], run[k]);
    }
  }

  lemma InitialInvariant(u: Upstream)
    ensures Invariant(u, INITIAL)
  {
  }

  // ---- What the client can rely on.

  /** The blocks Recv returns are the first ones of the stream, in order and without gaps or repeats. */
  lemma RecvReturnsPrefix(u: Upstream, run: seq<World>, k: nat)
    requires IsRun(u, run) && k < |run|
    ensures Extracted(u, |Responses(run[k].log)|, Responses(run[k].log))
  {
    RunsKeepInvariant(u, run, k);
  }

  /** io.EOF means that all of the stream was delivered. */
  lemma EofMeansComplete(u: Upstream, run: seq<World>, k: nat, i: nat)
    requires IsRun(u, run) && k < |run| && i < |run[k].log| && run[k].log[i] == Err(EOF)
    ensures Complete(u, Responses(run[k].log))
  {
    RunsKeepInvariant(u, run, k);
  }

  /** After the first error, every call of Recv returns that same error. */
  lemma ErrorsRepeat(u: Upstream, run: seq<World>, k: nat, i: nat, j: nat)
    requires IsRun(u, run) && k < |run| && i < j < |run[k].log| && run[k].log[i].Err?
    ensures run[k].log[j] == run[k].log[i]
  {
    RunsKeepInvariant(u, run, k);
  }

  /** Of a stream that cannot be opened, nothing is received, and nothing but that reported. */
  ghost predicate NeverOpened(w: World) {
    && w.producer.NotStarted?
    && (|| w.handler.Starting? || w.handler == Assigning(Some(Setup))
        || w.handler.ClosingResponses? || w.handler.HandlerDone?)
    && (w.adaptorErr.Some? ==> w.adaptorErr == Some(Setup))
    && forall i :: 0 <= i < |w.log| ==> w.log[i] == Err(Setup)
  }

  lemma {:induction false} RunsNeedOpening(u: Upstream, run: seq<World>, k: nat)
    requires IsRun(u, run) && k < |run|
    ensures !u.opens ==> NeverOpened(run[k])
  {
    hide Next, NeverOpened;
    if k > 0 && !u.opens {
      RunsNeedOpening(u, run, k - 1);
      assert Next(u, run[k - 1], run[k - 1 + 1]);
      StaysUnopened(u, run[k - 1], run[k]);
    } else {
      NothingOpened();
    }
  }

  lemma NothingOpened()
    ensures NeverOpened(INITIAL)
  {
  }

  lemma StaysUnopened(u: Upstream, w: World, w': World)
    requires !u.opens && NeverOpened(w) && Next(u, w, w')
    ensures NeverOpened(w')
  {
  }

  /** In every run that is not cancelled, the failure to open is reported exactly if the stream cannot be opened. */
  lemma SetupExactly(u: Upstream, run: seq<World>, k: nat, i: nat)
    requires IsRun(u, run) && k < |run| && i < |run[k].log| && !run[k].cancelled
    ensures run[k].log[i] == Err(Setup) <==> !u.opens
  {
    RunsKeepInvariant(u, run, k);
    RunsNeedOpening(u, run, k);
    if run[k].log[i].Err? {
      assert Explained(u, run[k], run[k].log[i].error);
    }
  }

  /** A stream that can be read and extracted to its end, without cancellation, can only end in io.EOF. */
  lemma CleanStreamsEndInEof(u: Upstream, run: seq<World>, k: nat, i: nat)
    requires IsRun(u, run) && k < |run| && i < |run[k].log| && run[k].log[i].Err?
    requires !run[k].cancelled && !u.fails
    requires forall m :: m in u.messages ==> m.Good? && u.extract(m.block).Some?
    ensures run[k].log[i].error == if u.opens then EOF else Setup
  {
    RunsNeedOpening(u, run, k);
    RunsKeepInvariant(u, run, k);
    assert Explained(u, run[k], run[k].log[i].error);
  }

  /** Some goroutine other than the canceller can move. */
  ghost predicate Moves(u: Upstream, w: World) {
    exists w' ::
      || ReadStep(u, w, w') || ProducerStep(w, w') || BlockCrosses(u, w, w')
      || HandlerStep(u, w, w') || ResponseCrosses(w, w') || ClientStep(w, w')
  }

  /** A client inside Recv is never stuck. */
  lemma RecvIsNeverStuck(u: Upstream, w: World)
    requires Invariant(u, w) && w.client.InRecv?
    ensures Moves(u, w)
  {
    match w.handler
    case Starting =>
      if u.opens {
        assert HandlerStep(u, w, w.(handler := Selecting, producer := Receiving));
      } else {
        assert HandlerStep(u, w, w.(handler := Assigning(Some(Setup))));
      }
    case Selecting =>
      if w.producer.Sending? {
        CrossingExists(u, w);
      } else if w.producer.Receiving? {
        ReadExists(u, w);
      } else if w.producer.ProducerDone? {
        assert HandlerStep(u, w, w.(handler := Quitting(w.retErr)));
      } else if w.producer.Storing? {
        assert ProducerStep(w, w.(retErr := w.producer.err, producer := ClosingBlocks));
      } else {
        assert ProducerStep(w, w.(blocksClosed := true, producer := ProducerDone));
      }
    case Forwarding(out) =>
      assert ResponseCrosses(w, w.(handler := Selecting, client := Idle, log := w.log + [Ok(out)]));
    case Quitting(err) => assert HandlerStep(u, w, w.(quit := true, handler := Assigning(err)));
    case Assigning(err) =>
      assert HandlerStep(u, w, w.(adaptorErr := if err.None? then Some(EOF) else err, handler := ClosingResponses));
    case ClosingResponses => assert HandlerStep(u, w, w.(responsesClosed := true, handler := HandlerDone));
    case HandlerDone =>
      assert ClientStep(w, w.(client := Idle, log := w.log + [Err(w.adaptorErr.value)]));
  }

  /** How far the handler is from having nothing left to do but wait for the client. */
  function Rank(h: Handler): nat {
    match h
    case Starting => 11
    case Selecting => 6
    case Forwarding(_) => 4
    case Quitting(_) => 3
    case Assigning(_) => 2
    case ClosingResponses => 1
    case HandlerDone => 0
  }

  function Effort(w: World): nat {
    Rank(w.handler) + Remaining(w.producer)
  }

  /** The client is left alone, and less is left to do. */
  ghost predicate Lowers(w: World, w': World) {
    Effort(w') < Effort(w) && w'.client == w.client && w'.log == w.log
  }

  /** Recv returns one more result. */
  ghost predicate Returns(w: World, w': World) {
    w'.client.Idle? && |w'.log| == |w.log| + 1
  }

  /** While the client is in Recv, every step but a cancellation makes Recv return or lowers the effort left. */
  lemma StepsLowerEffort(u: Upstream, w: World, w': World)
    requires Next(u, w, w') && w.client.InRecv?
    ensures Returns(w, w') || Lowers(w, w') || CancelStep(w, w')
    ensures CancelStep(w, w') ==> Effort(w') == Effort(w) && w'.client.InRecv? && w'.log == w.log
  {
    hide ReadStep, ProducerStep, BlockCrosses, HandlerStep, ResponseCrosses, ClientStep, Lowers, Returns;
    if ReadStep(u, w, w') || ProducerStep(w, w') {
      ProducingLowersEffort(u, w, w');
    } else if BlockCrosses(u, w, w') {
      CrossingLowersEffort(u, w, w');
    } else if HandlerStep(u, w, w') {
      HandlingLowersEffort(u, w, w');
    } else if ResponseCrosses(w, w') || ClientStep(w, w') {
      ReceivingReturns(w, w');
    }
  }

  lemma ProducingLowersEffort(u: Upstream, w: World, w': World)
    requires ReadStep(u, w, w') || ProducerStep(w, w')
    ensures Lowers(w, w')
  {
  }

  lemma CrossingLowersEffort(u: Upstream, w: World, w': World)
    requires BlockCrosses(u, w, w')
    ensures Lowers(w, w')
  {
  }

  lemma HandlingLowersEffort(u: Upstream, w: World, w': World)
    requires HandlerStep(u, w, w')
    ensures Lowers(w, w')
  {
  }

  lemma ReceivingReturns(w: World, w': World)
    requires w.client.InRecv? && (ResponseCrosses(w, w') || ClientStep(w, w'))
    ensures Returns(w, w')
  {
  }

  /** The steps from state j to state k of a run that are not cancellations. */
  ghost function Work(run: seq<World>, j: nat, k: nat): nat
    requires j <= k < |run|
  {
    if j == k then 0 else Work(run, j, k - 1) + if CancelStep(run[k - 1], run[k]) then 0 else 1
  }

  /** In every interleaving Recv returns within 12 steps other than cancellations: at most 11 leave the client in it. */
  lemma {:induction false} RecvReturnsSoon(u: Upstream, run: seq<World>, j: nat, k: nat)
    requires IsRun(u, run) && j <= k < |run|
    requires forall i :: j <= i <= k ==> run[i].client.InRecv?
    ensures Work(run, j, k) + Effort(run[k]) <= Effort(run[j]) <= 11 && run[k].log == run[j].log
    decreases k
  {
    hide Next, Invariant, CancelStep, Effort;
    RunsKeepInvariant(u, run, j);
    EffortIsBounded(u, run[j]);
    if j < k {
      RecvReturnsSoon(u, run, j, k - 1);
      RunsKeepInvariant(u, run, k - 1);
      assert Next(u, run[k - 1], run[k - 1 + 1]);
      StepsLowerEffort(u, run[k - 1], run[k]);
    }
  }

  lemma EffortIsBounded(u: Upstream, w: World)
    requires Invariant(u, w)
    ensures Effort(w) <= 11
  {
  }

  lemma ReadExists(u: Upstream, w: World)
    requires w.producer.Receiving?
    ensures exists w' :: ReadStep(u, w, w')
  {
    var next :=
      if w.read >= |u.messages| then w.(producer := Storing(if u.fails then Some(Stream) else None))
      else match u.messages[w.read]
           case Good(b) => w.(producer := Sending(b), read := w.read + 1)
           case Bad => w.(producer := Storing(Some(Unmarshal)), read := w.read + 1);
    assert ReadStep(u, w, next);
  }

  lemma CrossingExists(u: Upstream, w: World)
    requires w.producer.Sending? && w.handler.Selecting?
    ensures exists w' :: BlockCrosses(u, w, w')
  {
    var b := w.producer.block;
    var h := match u.extract(b) case Some(out) => Forwarding(out) case None => Quitting(Some(Extract(b)));
    assert BlockCrosses(u, w, w.(producer := Receiving, given := w.given + 1, handler := h));
  }

  /** How many steps of its own the producer has left once the handler is gone. */
  function Remaining(p: Producer): nat {
    match p
    case NotStarted => 0
    case Receiving => 4
    case Sending(_) => 3
    case Storing(_) => 2
    case ClosingBlocks => 1
    case ProducerDone => 0
  }

  /**
   Once Recv has returned an error the handler has finished, and the producer ends by itself: it can move while it
   is not done, and each of its steps brings it closer. No goroutine is leaked.
   */
  lemma NothingLeaks(u: Upstream, w: World)
    requires Invariant(u, w) && exists i :: 0 <= i < |w.log| && w.log[i].Err?
    ensures w.handler.HandlerDone?
    ensures Remaining(w.producer) > 0 ==> exists w' :: ReadStep(u, w, w') || ProducerStep(w, w')
    ensures forall w' :: ReadStep(u, w, w') || ProducerStep(w, w') ==>
              Remaining(w'.producer) < Remaining(w.producer)
  {
    var i :| 0 <= i < |w.log| && w.log[i].Err?;
    match w.producer
    case NotStarted =>
    case Receiving => ReadExists(u, w);
    case Sending(b) => assert ProducerStep(w, w.(producer := Storing(None)));
    case Storing(err) => assert ProducerStep(w, w.(retErr := err, producer := ClosingBlocks));
    case ClosingBlocks => assert ProducerStep(w, w.(blocksClosed := true, producer := ProducerDone));
    case ProducerDone =>
  }

  // ---- What the client gets, in full.

  /** The number of messages, from the i-th on, before the first that is no block or cannot be extracted. */
  function Leading(u: Upstream, i: nat): (n: nat)
    requires i <= |u.messages|
    ensures i <= n <= |u.messages|
    ensures forall k :: i <= k < n ==> u.messages[k].Good? && u.extract(u.messages[k].block).Some?
    ensures n < |u.messages| && u.messages[n].Good? ==> u.extract(u.messages[n].block).None?
    decreases |u.messages| - i
  {
    if i < |u.messages| && u.messages[i].Good? && u.extract(u.messages[i].block).Some? then Leading(u, i + 1) else i
  }

  /** How many blocks there are to deliver. */
  function Deliverable(u: Upstream): (n: nat)
    ensures n <= |u.messages|
  {
    if u.opens then Leading(u, 0) else 0
  }

  /** What there is to report after them. */
  function Verdict(u: Upstream): Error {
    var n := Deliverable(u);
    if !u.opens then Setup
    else if n < |u.messages| then match u.messages[n] case Good(b) => Extract(b) case Bad => Unmarshal
    else if u.fails then Stream else EOF
  }

  /** What the i-th call of Recv returns. */
  function Expected(u: Upstream, i: nat): Result<Response, Error> {
    if i < Deliverable(u) then
      match u.messages[i] case Good(b) => Ok(u.extract(b).GetOr(0)) case Bad => Err(Unmarshal)
    else Err(Verdict(u))
  }

  /** The error that the goroutines hand on: none for the end of the stream. */
  function Reported(u: Upstream): Option<Error> {
    if Verdict(u).EOF? then None else Some(Verdict(u))
  }

  predicate Gone(h: Handler) {
    h.Quitting? || h.Assigning? || h.ClosingResponses? || h.HandlerDone?
  }

  /** The producer ends with what there is to report, unless nobody waits for it any more. */
  ghost predicate Settled(u: Upstream, w: World, err: Option<Error>) {
    Gone(w.handler) || (w.given == Deliverable(u) && err == Reported(u))
  }

  ghost predicate Ended(u: Upstream, w: World, err: Option<Error>) {
    |Responses(w.log)| == Deliverable(u) && err == Reported(u)
  }

  /** Without cancellation, what is on its way to the client is what there is to report. */
  ghost predicate Exact(u: Upstream, w: World) {
    && (w.producer.Storing? ==> Settled(u, w, w.producer.err))
    && (w.producer.ClosingBlocks? || w.producer.ProducerDone? ==> Settled(u, w, w.retErr))
    && (w.handler.Quitting? ==> Ended(u, w, w.handler.err))
    && (w.handler.Assigning? ==> Ended(u, w, w.handler.err))
    && (w.adaptorErr.Some? ==> |Responses(w.log)| == Deliverable(u) && w.adaptorErr.value == Verdict(u))
    && (!w.producer.NotStarted? ==> u.opens)
  }

  lemma {:induction false} LeadingIs(u: Upstream, i: nat, n: nat, outs: seq<Response>)
    requires i <= n && Extracted(u, n, outs)
    requires n < |u.messages| ==> u.messages[n].Bad? || u.extract(u.messages[n].block).None?
    ensures Leading(u, i) == n
    decreases n - i
  {
    if i < n {
      LeadingIs(u, i + 1, n, outs);
    }
  }

  lemma {:induction false} LeadingAtLeast(u: Upstream, i: nat, n: nat, outs: seq<Response>)
    requires i <= n && Extracted(u, n, outs)
    ensures Leading(u, i) >= n
    decreases n - i
  {
    if i < n {
      LeadingAtLeast(u, i + 1, n, outs);
    }
  }

  lemma ReadIsExact(u: Upstream, w: World, w': World)
    requires Invariant(u, w) && Exact(u, w) && ReadStep(u, w, w') && !w.cancelled
    ensures Exact(u, w')
  {
    hide Responses, ClientKeeps, Leading;
    if !Gone(w.handler) && w'.producer.Storing? {
      var outs := Responses(w.log) + if w.handler.Forwarding? then [w.handler.out] else [];
      assert Extracted(u, w.given, outs);
      LeadingIs(u, 0, w.given, outs);
    }
  }

  lemma CrossingIsExact(u: Upstream, w: World, w': World)
    requires Invariant(u, w) && Exact(u, w) && BlockCrosses(u, w, w') && !w.cancelled
    ensures Exact(u, w')
  {
    hide Responses, ClientKeeps, Leading;
    if w'.handler.Quitting? {
      LeadingIs(u, 0, w.given, Responses(w.log));
    }
  }

  lemma HandlerIsExact(u: Upstream, w: World, w': World)
    requires Invariant(u, w) && Exact(u, w) && HandlerStep(u, w, w') && !w.cancelled
    ensures Exact(u, w')
  {
    hide Responses, ClientKeeps, Leading, Extracted, Explained;
  }

  lemma ProducerIsExact(u: Upstream, w: World, w': World)
    requires Invariant(u, w) && Exact(u, w) && ProducerStep(w, w') && !w.cancelled
    ensures Exact(u, w')
  {
    hide Responses, ClientKeeps, Leading, Extracted, Explained;
  }

  lemma ReceivingIsExact(u: Upstream, w: World, w': World)
    requires Invariant(u, w) && Exact(u, w) && (ResponseCrosses(w, w') || ClientStep(w, w')) && !w.cancelled
    ensures Exact(u, w')
  {
    if ClientStep(w, w') && w.client.InRecv? {
      ResponsesOfOneMore(w.log, Err(w.adaptorErr.value));
    }
    hide Responses, Leading, Extracted, Explained;
  }

  lemma StepIsExact(u: Upstream, w: World, w': World)
    requires Invariant(u, w) && Exact(u, w) && Next(u, w, w') && !w'.cancelled
    ensures Exact(u, w') && !w.cancelled
  {
    hide Invariant, Exact;
    OnlyCancelCancels(u, w, w');
    hide ReadStep, ProducerStep, BlockCrosses, HandlerStep, ResponseCrosses, ClientStep;
    if ReadStep(u, w, w') {
      ReadIsExact(u, w, w');
    } else if ProducerStep(w, w') {
      ProducerIsExact(u, w, w');
    } else if BlockCrosses(u, w, w') {
      CrossingIsExact(u, w, w');
    } else if HandlerStep(u, w, w') {
      HandlerIsExact(u, w, w');
    } else {
      ReceivingIsExact(u, w, w');
    }
  }

  lemma OnlyCancelCancels(u: Upstream, w: World, w': World)
    requires Next(u, w, w')
    ensures CancelStep(w, w') || w'.cancelled == w.cancelled
  {
  }

  lemma {:induction false} RunsAreExact(u: Upstream, run: seq<World>, k: nat)
    requires IsRun(u, run) && k < |run| && !run[k].cancelled
    ensures Exact(u, run[k])
    decreases k
  {
    hide Next, Invariant, Exact;
    if k == 0 {
      InitialIsExact(u);
    } else {
      assert Next(u, run[k - 1], run[k - 1 + 1]);
      UncancelledBefore(u, run[k - 1], run[k]);
      RunsAreExact(u, run, k - 1);
      RunsKeepInvariant(u, run, k - 1);
      StepIsExact(u, run[k - 1], run[k]);
    }
  }

  lemma UncancelledBefore(u: Upstream, w: World, w': World)
    requires Next(u, w, w') && !w'.cancelled
    ensures !w.cancelled
  {
  }

  lemma InitialIsExact(u: Upstream)
    ensures Exact(u, INITIAL)
  {
  }

  /** Where no response follows an error, the responses come first. */
  lemma {:induction false} ResponsesFirst(log: seq<Result<Response, Error>>, i: nat)
    requires ErrorsLast(log) && i < |log|
    ensures |Responses(log)| <= |log|
    ensures if i < |Responses(log)| then log[i] == Ok(Responses(log)[i]) else log[i].Err?
    decreases |log|
  {
    var last := |log| - 1;
    var before := log[..last];
    assert forall j, k :: 0 <= j < k < last && before[j].Err? ==> before[k] == before[j];
    if last > 0 {
      ResponsesFirst(before, if i < last then i else last - 1);
    }
    if i == last > 0 {
      assert log[last - 1].Err? ==> log[last] == log[last - 1];
    }
  }

  /** In every run that is not cancelled, each call of Recv has returned what there was to deliver or to report. */
  lemma RecvIsExact(u: Upstream, run: seq<World>, k: nat, i: nat)
    requires IsRun(u, run) && k < |run| && !run[k].cancelled && i < |run[k].log|
    ensures run[k].log[i] == Expected(u, i)
  {
    RunsKeepInvariant(u, run, k);
    RunsAreExact(u, run, k);
    var w := run[k];
    ResponsesFirst(w.log, i);
    RunsNeedOpening(u, run, k);
    hide Responses, IsRun, Leading, Explained;
    if i < |Responses(w.log)| {
      LeadingAtLeast(u, 0, |Responses(w.log)|, Responses(w.log));
    } else {
      assert w.adaptorErr == Some(w.log[i].error);
    }
  }

  // ---- And that it gets there.

  function Last(run: seq<World>): World
    requires run != []
  {
    run[|run| - 1]
  }

  /** The run can go on, without cancellation, until Recv has been called m times and has returned each time. */
  ghost predicate CanReturn(u: Upstream, run: seq<World>, m: nat) {
    exists longer :: run <= longer && IsRun(u, longer) && !Last(longer).cancelled && |Last(longer).log| == m
  }

  /** What is left to do for m returns: at most 13 steps for each. */
  function Distance(w: World, m: nat): nat
    requires |w.log| <= m
  {
    20 * (m - |w.log|) + Effort(w) + if w.client.Idle? then 1 else 0
  }

  /** A client calls Recv again, or is in it and some goroutine moves. */
  lemma Onward(u: Upstream, w: World) returns (w': World)
    requires Invariant(u, w) && !w.cancelled
    ensures Next(u, w, w') && !w'.cancelled
    ensures w.client.Idle? ==> w' == w.(client := InRecv) && Effort(w') == Effort(w)
    ensures w.client.InRecv? ==> Returns(w, w') || Lowers(w, w')
  {
    hide Invariant, Returns, Lowers;
    if w.client.Idle? {
      w' := w.(client := InRecv);
      assert ClientStep(w, w');
    } else {
      RecvIsNeverStuck(u, w);
      w' :| ReadStep(u, w, w') || ProducerStep(w, w') || BlockCrosses(u, w, w')
            || HandlerStep(u, w, w') || ResponseCrosses(w, w') || ClientStep(w, w');
      StepsLowerEffort(u, w, w');
    }
  }

  /** Every run that is not cancelled can go on to any number of returns of Recv. */
  lemma {:induction false} RunsGoOn(u: Upstream, run: seq<World>, m: nat)
    requires IsRun(u, run) && !Last(run).cancelled && |Last(run).log| <= m
    ensures CanReturn(u, run, m)
    decreases Distance(Last(run), m)
  {
    hide Next, Invariant, Effort;
    var w := Last(run);
    if |w.log| < m {
      RunsKeepInvariant(u, run, |run| - 1);
      EffortIsBounded(u, w);
      var w' := Onward(u, w);
      Extend(u, run, w');
      RunsKeepInvariant(u, run + [w'], |run|);
      EffortIsBounded(u, w');
      RunsGoOn(u, run + [w'], m);
      ReturnsSooner(u, run, w', m);
    }
  }

  lemma Extend(u: Upstream, run: seq<World>, w: World)
    requires IsRun(u, run) && Next(u, Last(run), w)
    ensures IsRun(u, run + [w]) && Last(run + [w]) == w
  {
    hide Next;
    forall i | 0 <= i < |run|
      ensures Next(u, (run + [w])[i], (run + [w])[i + 1])
    {
      assert i < |run| - 1 ==> Next(u, run[i], run[i + 1]);
    }
  }

  lemma ReturnsSooner(u: Upstream, run: seq<World>, w: World, m: nat)
    requires CanReturn(u, run + [w], m)
    ensures CanReturn(u, run, m)
  {
    hide Next;
    var longer :| run + [w] <= longer && IsRun(u, longer) && !Last(longer).cancelled && |Last(longer).log| == m;
    assert run <= longer;
  }

  /** All there is to deliver, and then what there is to report. */
  ghost function Everything(u: Upstream): seq<Result<Response, Error>> {
    seq(Deliverable(u) + 1, i requires 0 <= i => Expected(u, i))
  }

  /**
   The pipeline delivers: for every upstream, each run that is not cancelled and has not reported the end can go on
   until Recv has returned all there is to deliver, in order, and then what there is to report. The run of no steps can.
   */
  lemma DeliversEverything(u: Upstream, run: seq<World>)
    requires IsRun(u, run) && !Last(run).cancelled && |Last(run).log| <= Deliverable(u) + 1
    ensures IsRun(u, [INITIAL]) && Last([INITIAL]).log == []
    ensures exists longer :: run <= longer && IsRun(u, longer) && Last(longer).log == Everything(u)
  {
    hide Next;
    RunsGoOn(u, run, Deliverable(u) + 1);
    var longer :| run <= longer && IsRun(u, longer) && !Last(longer).cancelled &&
                  |Last(longer).log| == Deliverable(u) + 1;
    forall i | 0 <= i < Deliverable(u) + 1
      ensures Last(longer).log[i] == Expected(u, i)
    {
      RecvIsExact(u, longer, |longer| - 1, i);
    }
    assert Last(longer).log == Everything(u);
  }

  /** Once the context is done, a Recv under way can return that at once, whatever upstream still has. */
  lemma CancelledCanStop(u: Upstream, run: seq<World>)
    requires IsRun(u, run) && Last(run).cancelled && Last(run).client.InRecv?
    requires Last(run).handler.Selecting? || Last(run).handler.Forwarding?
    ensures exists longer ::
              IsRun(u, longer) && run <= longer && Last(longer).log == Last(run).log + [Err(Cancelled)]
  {
    hide Next;
    var w, why := Last(run), Some(Cancelled);
    var w1 := w.(handler := Quitting(why));
    var w2 := w1.(quit := true, handler := Assigning(why));
    var w3 := w2.(adaptorErr := why, handler := ClosingResponses);
    var w4 := w3.(responsesClosed := true, handler := HandlerDone);
    var w5 := w4.(client := Idle, log := w.log + [Err(Cancelled)]);
    HandlerMoves(u, w, w1);
    HandlerMoves(u, w1, w2);
    HandlerMoves(u, w2, w3);
    HandlerMoves(u, w3, w4);
    ClientReturns(u, w4, w5);
    Extend(u, run, w1);
    Extend(u, run + [w1], w2);
    Extend(u, run + [w1] + [w2], w3);
    Extend(u, run + [w1] + [w2] + [w3], w4);
    Extend(u, run + [w1] + [w2] + [w3] + [w4], w5);
    var longer := run + [w1] + [w2] + [w3] + [w4] + [w5];
    assert run <= longer;
  }

  lemma HandlerMoves(u: Upstream, w: World, w': World)
    requires HandlerStep(u, w, w')
    ensures Next(u, w, w')
  {
  }

  lemma ClientReturns(u: Upstream, w: World, w': World)
    requires ClientStep(w, w')
    ensures Next(u, w, w')
  {
  }

  /** Of a stream that opens, can be extracted and does not fail, that is every response and then io.EOF. */
  lemma CleanStreamIsDelivered(u: Upstream)
    requires u.opens && !u.fails && forall m :: m in u.messages ==> m.Good? && u.extract(m.block).Some?
    ensures |Everything(u)| == |u.messages| + 1 && Everything(u)[|u.messages|] == Err(EOF)
    ensures forall i :: 0 <= i < |u.messages| ==> Everything(u)[i] == Ok(u.extract(u.messages[i].block).value)
  {
    AllLeading(u, 0);
  }

  lemma {:induction false} AllLeading(u: Upstream, i: nat)
    requires i <= |u.messages| && forall m :: m in u.messages ==> m.Good? && u.extract(m.block).Some?
    ensures Leading(u, i) == |u.messages|
    decreases |u.messages| - i
  {
    if i < |u.messages| {
      assert u.messages[i] in u.messages;
      AllLeading(u, i + 1);
    }
  }
}
