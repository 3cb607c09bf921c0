/** The producer/consumer/finalize protocol of a native task (`NativeExecutionRuntime`): a producer
    task feeds a channel of capacity one, the consumer polls it and may finalize the task at any time.
    Atomic accesses are taken to be sequentially consistent. */
module NativeRuntime {
  import opened Seqs

  /** `Ok(Some(batch))`, `Ok(None)` and `Err(_)`. */
  datatype Message = Batch(id: nat) | Done | Failed

  datatype Producer =
    | Polling
    | SendingBatch(id: nat)
    | SendingDone
    | SendFailed
    | Handling
    | SendingError
    | Exited

  datatype Consumer = Ready | Receiving | Flagged | Dropped

  /** `produced` are the batches the plan has yielded, `sent` the messages the channel has accepted and
      `received` those the consumer has taken. `surprised` records that a send failed although the
      finalizing flag was not set. */
  datatype State = State(
    producer: Producer, consumer: Consumer, queue: seq<Message>, finalizing: bool,
    produced: seq<nat>, sent: seq<Message>, received: seq<Message>, surprised: bool)

  const START := State(Polling, Ready, [], false, [], [], [], false)
  const CAPACITY := 1

  datatype Action =
    | Yield(id: nat)                          // the stream yields a batch
    | EndOfStream
    | StreamError                             // the plan, the stream or a panic in it fails
    | Send                                    // the pending send returns
    | CheckFlag                               // after a failed send
    | Handle(running: bool, jniOk: bool)      // the error handler looks at the task and the flag
    | Abort                                   // the task is cancelled where it awaits the stream
    | CallNext
    | Take
    | Disconnected                            // the pending receive finds all senders gone
    | SetFlag
    | DropReceiver

  predicate IsSending(p: Producer) { p.SendingBatch? || p.SendingDone? || p.SendingError? }

  predicate Enabled(s: State, a: Action) {
    match a
    case Yield(_) => s.producer.Polling?
    case EndOfStream => s.producer.Polling?
    case StreamError => s.producer.Polling?
    case Send => IsSending(s.producer) && (s.consumer.Dropped? || |s.queue| < CAPACITY)
    case CheckFlag => s.producer.SendFailed?
    case Handle(_, _) => s.producer.Handling?
    case Abort => s.producer.Polling? && s.consumer.Dropped?
    case CallNext => s.consumer.Ready?
    case Take => s.consumer.Receiving? && s.queue != []
    case Disconnected => s.consumer.Receiving? && s.queue == [] && s.producer.Exited?
    case SetFlag => s.consumer.Ready?
    case DropReceiver => s.consumer.Flagged?
  }

  function Pending(p: Producer): Message
    requires IsSending(p)
  {
    match p
    case SendingBatch(id) => Batch(id)
    case SendingDone => Done
    case SendingError => Failed
  }

  function Apply(s: State, a: Action): State
    requires Enabled(s, a)
  {
    match a
    case Yield(id) => s.(producer := SendingBatch(id), produced := s.produced + [id])
    case EndOfStream => s.(producer := SendingDone)
    case StreamError => s.(producer := Handling)
    case Send =>
      if s.consumer.Dropped? then
        s.(producer := if s.producer.SendingError? then Exited else SendFailed)
      else
        s.(queue := s.queue + [Pending(s.producer)], sent := s.sent + [Pending(s.producer)],
           producer := if s.producer.SendingBatch? then Polling else Exited)
    case CheckFlag =>
      if s.finalizing then s.(producer := Exited) else s.(producer := Handling, surprised := true)
    case Handle(running, jniOk) =>
      s.(producer := if !running || s.finalizing || !jniOk then Exited else SendingError)
    case Abort => s.(producer := Exited)
    case CallNext => s.(consumer := Receiving)
    case Take => s.(consumer := Ready, queue := s.queue[1..], received := s.received + [s.queue[0]])
    case Disconnected => s.(consumer := Ready)
    case SetFlag => s.(consumer := Flagged, finalizing := true)
    case DropReceiver => s.(consumer := Dropped, queue := [])
  }

  // ---------------------------------------------------------------------------------------------
  // What every reachable state satisfies.

  /** The batches among the messages, in order. */
  function Batches(ms: seq<Message>): seq<nat> {
    if ms == [] then []
    else Batches(ms[..|ms| - 1]) + (if ms[|ms| - 1].Batch? then [ms[|ms| - 1].id] else [])
  }

  /** Only the last message may be a terminal one. */
  ghost predicate TerminalLast(ms: seq<Message>) {
    forall i :: 0 <= i < |ms| - 1 ==> ms[i].Batch?
  }

  /** Messages still to come: the batch being sent. */
  function InHand(p: Producer): seq<nat> { if p.SendingBatch? then [p.id] else [] }

  ghost predicate ChannelOk(s: State) {
    && |s.queue| <= CAPACITY
    && s.received <= s.sent
    && (!s.consumer.Dropped? ==> s.received + s.queue == s.sent)
    && (s.consumer.Dropped? ==> s.queue == [])
  }

  ghost predicate ContentOk(s: State) {
    && TerminalLast(s.sent)
    && Batches(s.sent) <= s.produced
    && (s.sent != [] && !s.producer.Exited? ==> s.sent[|s.sent| - 1].Batch?)
    && (s.producer.Polling? || s.producer.SendingBatch? || s.producer.SendingDone? ==>
          s.produced == Batches(s.sent) + InHand(s.producer))
    && (s.sent != [] && s.sent[|s.sent| - 1].Done? ==> s.produced == Batches(s.sent))
  }

  ghost predicate FlagOk(s: State) {
    && (s.consumer.Flagged? || s.consumer.Dropped? <==> s.finalizing)
    && (s.producer.SendFailed? ==> s.finalizing)
    && !s.surprised
  }

  ghost predicate Inv(s: State) { ChannelOk(s) && ContentOk(s) && FlagOk(s) }

  lemma BatchesSnoc(ms: seq<Message>, m: Message)
    ensures Batches(ms + [m]) == Batches(ms) + if m.Batch? then [m.id] else []
  {
    assert (ms + [m])[..|ms|] == ms;
  }

  lemma {:induction false} BatchesPrefix(a: seq<Message>, b: seq<Message>)
    requires a <= b
    ensures Batches(a) <= Batches(b)
    decreases |b|
  {
    if a != b {
      BatchesPrefix(a, b[..|b| - 1]);
    }
  }

  lemma ChannelStep(s: State, a: Action)
    requires ChannelOk(s) && Enabled(s, a)
    ensures ChannelOk(Apply(s, a))
  {
    if a.Take? {
      assert s.received + s.queue == s.received + [s.queue[0]] + s.queue[1..];
    }
  }

  lemma ContentStep(s: State, a: Action)
    requires ContentOk(s) && Enabled(s, a)
    ensures ContentOk(Apply(s, a))
  {
    hide Batches;
    var s' := Apply(s, a);
    if a.Send? && !s.consumer.Dropped? {
      BatchesSnoc(s.sent, Pending(s.producer));
      assert Batches(s'.sent) == Batches(s.sent) + InHand(s.producer);
      assert s.produced + [] == s.produced;
    } else if a.Yield? {
      assert s.produced == Batches(s.sent) + [] == Batches(s.sent);
      assert s'.produced == Batches(s'.sent) + InHand(s'.producer);
    } else {
      assert s'.sent == s.sent && s'.produced == s.produced;
    }
  }

  lemma InvStep(s: State, a: Action)
    requires Inv(s) && Enabled(s, a)
    ensures Inv(Apply(s, a))
  {
    hide ChannelOk, ContentOk;
    ChannelStep(s, a);
    ContentStep(s, a);
  }

  function Exec(actions: seq<Action>): Option<State> {
    if actions == [] then Some(START)
    else
      match Exec(actions[..|actions| - 1])
      case None => None
      case Some(m) =>
        var a := actions[|actions| - 1];
        if Enabled(m, a) then Some(Apply(m, a)) else None
  }

  lemma StartInv()
    ensures Inv(START)
  {
  }

  lemma {:induction false} RunInv(actions: seq<Action>)
    requires Exec(actions).Some?
    ensures Inv(Exec(actions).value)
    decreases |actions|
  {
    hide Inv, Apply;
    if actions == [] {
      StartInv();
    } else {
      RunInv(actions[..|actions| - 1]);
      InvStep(Exec(actions[..|actions| - 1]).value, actions[|actions| - 1]);
    }
  }

  /** In every interleaving: what was received is a prefix, in order, of what was produced, and at most one
      message is under way; at most one terminal message was sent and nothing after it; the end of the
      stream is announced only behind all the batches; and no send ever failed before the finalizing flag was set. */
  lemma RunSafe(actions: seq<Action>)
    requires Exec(actions).Some?
    ensures
      var s := Exec(actions).value;
      && Batches(s.received) <= s.produced && |s.queue| <= 1
      && TerminalLast(s.received) && TerminalLast(s.sent)
      && (Done in s.received ==> Batches(s.received) == s.produced)
      && !s.surprised
  {
    RunInv(actions);
    var s := Exec(actions).value;
    BatchesPrefix(s.received, s.sent);
    if Done in s.received {
      var i :| 0 <= i < |s.received| && s.received[i] == Done;
      assert s.sent[i] == Done;
      assert i == |s.sent| - 1;
      assert s.received == s.sent;
    }
  }

  /** After a terminal message the producer sends nothing more. */
  lemma NothingAfterTerminal(s: State)
    requires Inv(s) && s.sent != [] && !s.sent[|s.sent| - 1].Batch?
    ensures s.producer.Exited? && !Enabled(s, Send)
  {
  }

  /** Once the receiver is dropped, a blocked send can return, and the producer is done after at most
      two more steps, whatever the flag handling. */
  lemma SendReturnsAfterFinalize(s: State)
    requires Inv(s) && s.consumer.Dropped? && IsSending(s.producer)
    ensures Enabled(s, Send)
    ensures
      var s1 := Apply(s, Send);
      s1.sent == s.sent &&
      (s1.producer.Exited? || (Enabled(s1, CheckFlag) && Apply(s1, CheckFlag).producer.Exited?))
  {
  }

  /** Producer and consumer never wait for each other: while the consumer waits in a receive, either it
      can return or the producer can move. */
  lemma ReceiveProgress(s: State)
    requires Inv(s) && s.consumer.Receiving?
    ensures Enabled(s, Take) || Enabled(s, Disconnected) || Enabled(s, Send) || Enabled(s, CheckFlag)
         || Enabled(s, Handle(true, true)) || Enabled(s, EndOfStream)
  {
  }

  /** A receive that fails with nothing left means the producer exited without a terminal message, or
      that the terminal message has been taken before. */
  lemma DisconnectedMeansOver(s: State)
    requires Inv(s) && Enabled(s, Disconnected)
    ensures s.received == s.sent && s.producer.Exited?
  {
  }

  // ---------------------------------------------------------------------------------------------
  // Errors.

  /** The task runs on and the consumer does not finalize. */
  predicate Undisturbed(actions: seq<Action>) {
    forall i :: 0 <= i < |actions| ==>
      actions[i] != SetFlag && (actions[i].Handle? ==> actions[i] == Handle(true, true))
  }

  lemma {:induction false} NotFinalizing(actions: seq<Action>)
    requires Exec(actions).Some? && Undisturbed(actions)
    ensures !Exec(actions).value.finalizing && !Exec(actions).value.consumer.Dropped?
    decreases |actions|
  {
    if actions != [] {
      NotFinalizing(actions[..|actions| - 1]);
    }
    RunInv(actions);
  }

  predicate ErrorPending(s: State) {
    s.producer.Handling? || s.producer.SendingError?
    || (s.producer.Exited? && s.sent != [] && s.sent[|s.sent| - 1] == Failed)
  }

  lemma ErrorStep(s: State, a: Action)
    requires Enabled(s, a) && ErrorPending(s) && !s.finalizing && !s.consumer.Dropped?
    requires a.Handle? ==> a == Handle(true, true)
    ensures ErrorPending(Apply(s, a))
  {
  }

  lemma {:induction false} ErrorKept(actions: seq<Action>)
    requires Exec(actions).Some? && Undisturbed(actions) && StreamError in actions
    ensures ErrorPending(Exec(actions).value)
    decreases |actions|
  {
    var n := |actions| - 1;
    var front, last := actions[..n], actions[n];
    if last != StreamError {
      assert StreamError in front;
      ErrorKept(front);
      NotFinalizing(front);
      ErrorStep(Exec(front).value, last);
    }
  }

  /** A stream error is not lost: in every run in which the task runs on and nobody finalizes, once the producer
      has exited and the consumer has taken what was sent, the last message it took is the error. */
  lemma ErrorIsReceived(actions: seq<Action>)
    requires Exec(actions).Some? && Undisturbed(actions) && StreamError in actions
    ensures
      var s := Exec(actions).value;
      s.producer.Exited? && s.queue == [] ==> s.received != [] && s.received[|s.received| - 1] == Failed
  {
    hide Exec;
    ErrorKept(actions);
    NotFinalizing(actions);
    RunInv(actions);
    var s := Exec(actions).value;
    if s.queue == [] { assert s.received + [] == s.received; }
  }

  predicate EndPending(s: State) {
    s.producer.SendingDone? || (s.producer.Exited? && s.sent != [] && s.sent[|s.sent| - 1] == Done)
  }

  lemma EndStep(s: State, a: Action)
    requires Enabled(s, a) && EndPending(s) && !s.consumer.Dropped?
    ensures EndPending(Apply(s, a))
  {
  }

  lemma {:induction false} EndKept(actions: seq<Action>)
    requires Exec(actions).Some? && Undisturbed(actions) && EndOfStream in actions
    ensures EndPending(Exec(actions).value)
    decreases |actions|
  {
    var n := |actions| - 1;
    var front, last := actions[..n], actions[n];
    if last != EndOfStream {
      assert EndOfStream in front;
      EndKept(front);
      NotFinalizing(front);
      EndStep(Exec(front).value, last);
    }
  }

  /** Nor is the end of the stream lost: then all the batches and the end have been received. */
  lemma EndIsReceived(actions: seq<Action>)
    requires Exec(actions).Some? && Undisturbed(actions) && EndOfStream in actions
    ensures
      var s := Exec(actions).value;
      s.producer.Exited? && s.queue == [] ==>
        s.received != [] && s.received[|s.received| - 1] == Done && Batches(s.received) == s.produced
  {
    hide Exec;
    EndKept(actions);
    NotFinalizing(actions);
    RunInv(actions);
    var s := Exec(actions).value;
    if s.queue == [] { assert s.received + [] == s.received; }
  }

  /** Undisturbed, the producer stops for nothing but the end of the stream or an error, and says so last. */
  lemma {:induction false} ProducerAlive(actions: seq<Action>)
    requires Exec(actions).Some? && Undisturbed(actions)
    ensures
      var s := Exec(actions).value;
      && !s.producer.SendFailed?
      && (s.producer.Exited? ==> s.sent != [] && !s.sent[|s.sent| - 1].Batch?)
    decreases |actions|
  {
    if actions != [] {
      ProducerAlive(actions[..|actions| - 1]);
      NotFinalizing(actions[..|actions| - 1]);
    }
  }
}
