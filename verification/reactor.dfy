/** The event loop `run` of node.go as a transition system. One iteration first takes a
    snapshot of the engine's progress, but only when none of the four outbound offers is
    still armed, and then services exactly one ready case of the `select`. Which case is
    ready is the environment's choice, so it is an input (`Event`); goroutines and timing
    are not modelled. The four outbound channels hold one batch each (they are made with
    capacity 1), so the loop's send case completes as soon as the channel is empty, and a
    consumer reading the channel is a separate step of the environment. The engine is
    opaque: an event that calls it carries the engine's progress accumulator as the call
    leaves it, which may be anything. */
module Reactor {
  import opened Wrappers

  /** The engine's progress accumulator: outbound messages, commit events, the
      ready-to-propose flag and block references it could not find. */
  datatype Progress<M, E, R> = Progress(messages: seq<M>, events: seq<E>, waitingData: bool, notFound: seq<R>)

  /** The accumulator after `Reset()`. */
  function EmptyProgress<M, E, R>(): Progress<M, E, R>
  {
    Progress([], [], false, [])
  }

  /** The four outbound channels: `Ready()`, `Missing()`, `Messages()` and `Blocks()`. */
  datatype Offer = ReadyOffer | MissingOffer | MessagesOffer | BlocksOffer

  /** What travels through an outbound channel. */
  datatype Batch<M, E, R> = ReadySignal | MissingRefs(refs: seq<R>) | OutMessages(msgs: seq<M>) | CommitEvents(events: seq<E>)

  /** The engine entry points the loop calls. */
  datatype EngineCall = StartCall | StepCall | SendCall | TickCall

  /** The loop's state. `progress` is the engine's accumulator; `toSend`, `toUpdate` and
      `toSync` are the staged batches; the four flags say which offer's channel variable
      is non-nil (the offer is armed); `startOpen` says `n.start` is still non-nil;
      `exited` says `run` returned after stopping the ticker and closing `done`.
      `inChannel` holds the batch sitting in each outbound channel's one-slot buffer.
      `calls` and `delivered` record, in order, every engine call made and every batch a
      consumer has received. */
  datatype Loop<M, E, R> = Loop(
    progress: Progress<M, E, R>,
    toSend: seq<M>, toUpdate: seq<E>, toSync: seq<R>,
    readyArmed: bool, missingArmed: bool, messagesArmed: bool, blocksArmed: bool,
    startOpen: bool, exited: bool,
    inChannel: map<Offer, Batch<M, E, R>>,
    calls: seq<EngineCall>, delivered: seq<Batch<M, E, R>>)

  /** The `select` cases of the loop, and a consumer reading an outbound channel. `after`
      is the engine's accumulator once the engine call returns. */
  datatype Event<M, E, R> =
    | Started(after: Progress<M, E, R>)    // `<-n.start`
    | Received(after: Progress<M, E, R>)   // `<-n.received`, then `consensus.Step`
    | DataSent(after: Progress<M, E, R>)   // `<-n.send`, then `consensus.Send`
    | Ticked(after: Progress<M, E, R>)     // `<-ticker.C`, then `consensus.Tick`
    | Hand(offer: Offer)                   // the loop sends the staged batch into the channel
    | Quit                                 // `<-n.quit`
    | Consume(offer: Offer)                // a consumer receives from the channel

  /** `a` is an initial part of `b`. */
  ghost predicate Prefix<T>(a: seq<T>, b: seq<T>)
  {
    |a| <= |b| && b[..|a|] == a
  }

  lemma PrefixTransitive<T>(a: seq<T>, b: seq<T>, c: seq<T>)
    requires Prefix(a, b) && Prefix(b, c)
    ensures Prefix(a, c)
  {
    assert c[..|a|] == c[..|b|][..|a|];
  }

  function Armed<M, E, R>(s: Loop<M, E, R>, o: Offer): bool
  {
    match o
    case ReadyOffer => s.readyArmed
    case MissingOffer => s.missingArmed
    case MessagesOffer => s.messagesArmed
    case BlocksOffer => s.blocksArmed
  }

  /** What the loop sends into offer `o`'s channel when its send case fires. */
  function Staged<M, E, R>(s: Loop<M, E, R>, o: Offer): Batch<M, E, R>
  {
    match o
    case ReadyOffer => ReadySignal
    case MissingOffer => MissingRefs(s.toSync)
    case MessagesOffer => OutMessages(s.toSend)
    case BlocksOffer => CommitEvents(s.toUpdate)
  }

  /** The batch of the accumulator that feeds offer `o`. */
  function Pending<M, E, R>(p: Progress<M, E, R>, o: Offer): Batch<M, E, R>
  {
    match o
    case ReadyOffer => ReadySignal
    case MissingOffer => MissingRefs(p.notFound)
    case MessagesOffer => OutMessages(p.messages)
    case BlocksOffer => CommitEvents(p.events)
  }

  /** Whether the accumulator has something for offer `o`. */
  predicate HasPending<M, E, R>(p: Progress<M, E, R>, o: Offer)
  {
    match o
    case ReadyOffer => p.waitingData
    case MissingOffer => |p.notFound| > 0
    case MessagesOffer => |p.messages| > 0
    case BlocksOffer => |p.events| > 0
  }

  /** A batch worth handing out: the ready signal, or a non-empty list. */
  predicate NonEmpty<M, E, R>(b: Batch<M, E, R>)
  {
    match b
    case ReadySignal => true
    case MissingRefs(refs) => |refs| > 0
    case OutMessages(msgs) => |msgs| > 0
    case CommitEvents(events) => |events| > 0
  }

  /** Which offer a batch belongs to. */
  function OfferOf<M, E, R>(b: Batch<M, E, R>): Offer
  {
    match b
    case ReadySignal => ReadyOffer
    case MissingRefs(_) => MissingOffer
    case OutMessages(_) => MessagesOffer
    case CommitEvents(_) => BlocksOffer
  }

  /** Every staged batch has been sent into its channel: all four channel variables are
      nil. Consumers need not have read the channels yet. */
  predicate Drained<M, E, R>(s: Loop<M, E, R>)
  {
    !s.readyArmed && !s.missingArmed && !s.messagesArmed && !s.blocksArmed
  }

  /** The contents of offer `o`'s channel buffer, as a list of at most one batch. */
  function ChannelOf<M, E, R>(s: Loop<M, E, R>, o: Offer): seq<Batch<M, E, R>>
  {
    if o in s.inChannel then [s.inChannel[o]] else []
  }

  /** The batches of offer `o` in `ds`, in order. */
  function ReceivedOf<M, E, R>(ds: seq<Batch<M, E, R>>, o: Offer): seq<Batch<M, E, R>>
  {
    if |ds| == 0 then []
    else (if OfferOf(ds[0]) == o then [ds[0]] else []) + ReceivedOf(ds[1..], o)
  }

  lemma {:induction false} ReceivedOfAppend<M, E, R>(a: seq<Batch<M, E, R>>, b: seq<Batch<M, E, R>>, o: Offer)
    ensures ReceivedOf(a + b, o) == ReceivedOf(a, o) + ReceivedOf(b, o)
    decreases |a|
  {
    if |a| == 0 {
      assert a + b == b;
    } else {
      assert (a + b)[0] == a[0];
      assert (a + b)[1..] == a[1..] + b;
      ReceivedOfAppend(a[1..], b, o);
    }
  }

  /** The loop as `run` starts it: every channel variable nil, the channels empty, the start
      case open, and whatever accumulator the engine was built with. */
  function Init<M, E, R>(p: Progress<M, E, R>): (s: Loop<M, E, R>)
    ensures Drained(s) && s.startOpen && !s.exited && s.progress == p
    ensures forall o :: ChannelOf(s, o) == []
    ensures Inv(s)
  {
    Loop(p, [], [], [], false, false, false, false, true, false, map[], [], [])
  }

  /** The top of an iteration: when every offer is drained, read the accumulator, stage
      and arm each non-empty part, and reset the accumulator even if it was empty;
      otherwise touch nothing. */
  function Prepare<M, E, R>(s: Loop<M, E, R>): (t: Loop<M, E, R>)
    ensures !Drained(s) ==> t == s
    ensures Drained(s) ==> t.progress == EmptyProgress()
    ensures Drained(s) ==> forall o :: Armed(t, o) <==> HasPending(s.progress, o)
    ensures Drained(s) ==> forall o :: Armed(t, o) ==> Staged(t, o) == Pending(s.progress, o)
    ensures t.calls == s.calls && t.delivered == s.delivered && t.inChannel == s.inChannel
    ensures t.startOpen == s.startOpen && t.exited == s.exited
  {
    if !Drained(s) then s
    else
      // every flag is false here, so arming is setting each flag to "has something"
      var p := s.progress;
      s.(toSend := if |p.messages| > 0 then p.messages else s.toSend,
         messagesArmed := |p.messages| > 0,
         toUpdate := if |p.events| > 0 then p.events else s.toUpdate,
         blocksArmed := |p.events| > 0,
         readyArmed := p.waitingData,
         missingArmed := |p.notFound| > 0,
         toSync := if |p.notFound| > 0 then p.notFound else s.toSync,
         progress := EmptyProgress())
  }

  /** Whether the loop's `select` can pick `e` in state `s`: a nil channel never fires, so
      the start case needs `n.start` non-nil, and a send case needs its offer armed and its
      channel's buffer free. A consumer's receive is not a case of the loop. */
  predicate Enabled<M, E, R>(s: Loop<M, E, R>, e: Event<M, E, R>)
  {
    match e
    case Started(_) => s.startOpen
    case Hand(o) => Armed(s, o) && o !in s.inChannel
    case Consume(_) => false
    case _ => true
  }

  /** The body of the chosen `select` case. */
  function Service<M, E, R>(s: Loop<M, E, R>, e: Event<M, E, R>): (t: Loop<M, E, R>)
    requires Enabled(s, e)
    ensures e.Hand? ==> !Armed(t, e.offer) && t.inChannel == s.inChannel[e.offer := Staged(s, e.offer)]
    ensures e.Hand? ==> forall o :: o != e.offer ==> Armed(t, o) == Armed(s, o) && Staged(t, o) == Staged(s, o)
    ensures e.Hand? || e.Quit? ==> t.progress == s.progress && t.calls == s.calls
    ensures !e.Hand? ==> forall o :: Armed(t, o) == Armed(s, o) && Staged(t, o) == Staged(s, o)
    ensures !e.Hand? ==> t.inChannel == s.inChannel
    ensures t.delivered == s.delivered
    ensures e.Started? ==> !t.startOpen && t.calls == s.calls + [StartCall]
    ensures !e.Started? ==> t.startOpen == s.startOpen
    ensures e.Received? ==> t.calls == s.calls + [StepCall]
    ensures e.DataSent? ==> t.calls == s.calls + [SendCall]
    ensures e.Ticked? ==> t.calls == s.calls + [TickCall]
    ensures e.Started? || e.Received? || e.DataSent? || e.Ticked? ==> t.progress == e.after
    ensures t.exited <==> (s.exited || e.Quit?)
  {
    match e
    case Started(after) => CallEngine(s, StartCall, after)
    case Received(after) => CallEngine(s, StepCall, after)
    case DataSent(after) => CallEngine(s, SendCall, after)
    case Ticked(after) => CallEngine(s, TickCall, after)
    case Hand(o) => HandOver(s, o)
    case Quit => s.(exited := true)
  }

  /** An engine call: it is logged and leaves the accumulator as `after`; the start case
      also sets `n.start` to nil. Offers, staged batches and channels are untouched. */
  function CallEngine<M, E, R>(s: Loop<M, E, R>, c: EngineCall, after: Progress<M, E, R>): (t: Loop<M, E, R>)
    ensures t.calls == s.calls + [c] && t.progress == after
    ensures t.startOpen == (s.startOpen && c != StartCall)
    ensures forall o :: Armed(t, o) == Armed(s, o) && Staged(t, o) == Staged(s, o)
    ensures t.inChannel == s.inChannel && t.delivered == s.delivered && t.exited == s.exited
  {
    s.(calls := s.calls + [c], progress := after, startOpen := s.startOpen && c != StartCall)
  }

  /** The send case of offer `o`: its staged batch goes into the channel's buffer and only
      its channel variable becomes nil. */
  function HandOver<M, E, R>(s: Loop<M, E, R>, o: Offer): (t: Loop<M, E, R>)
    ensures !Armed(t, o) && t.inChannel == s.inChannel[o := Staged(s, o)]
    ensures forall o' :: o' != o ==> Armed(t, o') == Armed(s, o') && Staged(t, o') == Staged(s, o')
    ensures t.progress == s.progress && t.calls == s.calls && t.delivered == s.delivered
    ensures t.startOpen == s.startOpen && t.exited == s.exited
  {
    var d := Disarm(s, o);
    FrameOffers(d, d.(inChannel := d.inChannel[o := Staged(s, o)]));
    d.(inChannel := d.inChannel[o := Staged(s, o)])
  }

  /** Sets offer `o`'s channel variable to nil; `toSend` and `toUpdate` are also cleared,
      while `toSync` is left as it is. */
  function Disarm<M, E, R>(s: Loop<M, E, R>, o: Offer): (t: Loop<M, E, R>)
    ensures !Armed(t, o)
    ensures forall o' :: o' != o ==> Armed(t, o') == Armed(s, o') && Staged(t, o') == Staged(s, o')
    ensures t.progress == s.progress && t.calls == s.calls && t.delivered == s.delivered
    ensures t.startOpen == s.startOpen && t.exited == s.exited && t.inChannel == s.inChannel
  {
    match o
    case ReadyOffer => s.(readyArmed := false)
    case MissingOffer => s.(missingArmed := false)
    case MessagesOffer => s.(toSend := [], messagesArmed := false)
    case BlocksOffer => s.(toUpdate := [], blocksArmed := false)
  }

  /** Two states that differ only in their channels and logs agree on every offer. */
  lemma FrameOffers<M, E, R>(s: Loop<M, E, R>, t: Loop<M, E, R>)
    requires t.(inChannel := s.inChannel, calls := s.calls, delivered := s.delivered) == s
    ensures forall o :: Armed(t, o) == Armed(s, o) && Staged(t, o) == Staged(s, o)
  {
  }

  /** A consumer receives the batch buffered in offer `o`'s channel; the loop's own state
      is untouched. */
  function Receive<M, E, R>(s: Loop<M, E, R>, o: Offer): (t: Loop<M, E, R>)
    requires o in s.inChannel
    ensures ChannelOf(t, o) == [] && t.delivered == s.delivered + ChannelOf(s, o)
    ensures forall o' :: o' != o ==> ChannelOf(t, o') == ChannelOf(s, o')
    ensures forall o' :: Armed(t, o') == Armed(s, o') && Staged(t, o') == Staged(s, o')
    ensures t.(inChannel := s.inChannel, delivered := s.delivered) == s
  {
    s.(inChannel := s.inChannel - {o}, delivered := s.delivered + [s.inChannel[o]])
  }

  /** One step: a consumer's receive, or one loop iteration on event `e`. None when the
      event cannot happen: the channel is empty, the loop has returned, or the `select`
      cannot pick `e`. */
  function Next<M, E, R>(s: Loop<M, E, R>, e: Event<M, E, R>): (r: Option<Loop<M, E, R>>)
    ensures r.Some? <==> if e.Consume? then e.offer in s.inChannel else !s.exited && Enabled(Prepare(s), e)
    ensures r.Some? ==> Prefix(s.calls, r.value.calls) && |r.value.calls| <= |s.calls| + 1
    ensures r.Some? ==> Prefix(s.delivered, r.value.delivered) && |r.value.delivered| <= |s.delivered| + 1
    ensures r.Some? && s.exited ==> r.value.exited && r.value.calls == s.calls
  {
    match e
    case Consume(o) => if o in s.inChannel then Some(Receive(s, o)) else None
    case _ =>
      if s.exited then None
      else
        var p := Prepare(s);
        if Enabled(p, e) then Some(Service(p, e)) else None
  }

  /** The steps `es`, one after another; None if some step could not happen. Engine calls
      and receipts are only ever appended, and once the loop has returned it stays so and
      calls the engine no more. */
  function Run<M, E, R>(s: Loop<M, E, R>, es: seq<Event<M, E, R>>): (r: Option<Loop<M, E, R>>)
    ensures r.Some? ==> Prefix(s.calls, r.value.calls) && Prefix(s.delivered, r.value.delivered)
    ensures r.Some? && s.exited ==> r.value.exited && r.value.calls == s.calls
    decreases |es|
  {
    if |es| == 0 then Some(s)
    else
      match Next(s, es[0])
      case None => None
      case Some(t) =>
        var r := Run(t, es[1..]);
        if r.None? then r
        else
          PrefixTransitive(s.calls, t.calls, r.value.calls);
          PrefixTransitive(s.delivered, t.delivered, r.value.delivered);
          r
  }

  // ---------------------------------------------------------------------------
  // One step

  /** The send case of an offer can fire exactly when the offer is armed at the top of the
      iteration and its channel is empty; it puts that offer's staged batch in the channel,
      disarms that offer only, and leaves the accumulator, the engine calls, the receipts
      and every other offer and channel as they were. */
  lemma HandDisarmsOnlyThatOffer<M, E, R>(s: Loop<M, E, R>, o: Offer)
    ensures Next(s, Hand(o)).Some? <==> !s.exited && Armed(Prepare(s), o) && o !in s.inChannel
    ensures Next(s, Hand(o)).Some? ==>
      var p, t := Prepare(s), Next(s, Hand(o)).value;
      && !Armed(t, o)
      && ChannelOf(t, o) == [Staged(p, o)]
      && OfferOf(Staged(p, o)) == o
      && t.progress == p.progress && t.calls == s.calls && t.delivered == s.delivered
      && forall o' :: o' != o ==>
           Armed(t, o') == Armed(p, o') && Staged(t, o') == Staged(p, o') && ChannelOf(t, o') == ChannelOf(s, o')
  {
  }

  /** A consumer can receive from a channel exactly when it holds a batch, also after the
      loop has returned; it gets that batch and nothing else changes. */
  lemma ConsumerGetsChannelBatch<M, E, R>(s: Loop<M, E, R>, o: Offer)
    ensures Next(s, Consume(o)).Some? <==> ChannelOf(s, o) != []
    ensures Next(s, Consume(o)).Some? ==>
      var t := Next(s, Consume(o)).value;
      && t.delivered == s.delivered + ChannelOf(s, o)
      && ChannelOf(t, o) == []
      && t.progress == s.progress && t.calls == s.calls && t.exited == s.exited
      && forall o' :: Armed(t, o') == Armed(s, o') && Staged(t, o') == Staged(s, o')
  {
  }

  /** While some offer is still armed, an engine call neither reads nor resets the
      accumulator: whatever the engine leaves there is kept for a later snapshot, and the
      offers, staged batches and channels stay as they are. */
  lemma EffectsKeptWhileArmed<M, E, R>(s: Loop<M, E, R>, e: Event<M, E, R>)
    requires !s.exited && !Drained(s)
    requires e.Received? || e.DataSent? || e.Ticked? || (e.Started? && s.startOpen)
    ensures Next(s, e).Some?
    ensures Next(s, e).value.progress == e.after
    ensures forall o :: Armed(Next(s, e).value, o) == Armed(s, o) && Staged(Next(s, e).value, o) == Staged(s, o)
    ensures Next(s, e).value.inChannel == s.inChannel && Next(s, e).value.delivered == s.delivered
  {
  }

  /** An offer becomes armed only through a snapshot: all offers were drained at the top
      of that iteration, and the staged batch is what the accumulator held. */
  lemma ArmedOnlyBySnapshot<M, E, R>(s: Loop<M, E, R>, e: Event<M, E, R>, o: Offer)
    requires !Armed(s, o) && Next(s, e).Some? && Armed(Next(s, e).value, o)
    ensures Drained(s)
    ensures HasPending(s.progress, o)
    ensures Staged(Next(s, e).value, o) == Pending(s.progress, o)
  {
  }

  /** The snapshot drops nothing: every non-empty part of the accumulator is staged and
      armed in the same iteration that resets it. */
  lemma SnapshotKeepsEverything<M, E, R>(s: Loop<M, E, R>)
    requires Drained(s)
    ensures Prepare(s).progress == EmptyProgress()
    ensures forall o :: HasPending(s.progress, o) ==>
      Armed(Prepare(s), o) && Staged(Prepare(s), o) == Pending(s.progress, o)
  {
  }

  // ---------------------------------------------------------------------------
  // The invariant

  /** At most one `Start` in a list of engine calls. */
  predicate AtMostOneStart(calls: seq<EngineCall>)
  {
    forall i, j :: 0 <= i < j < |calls| && calls[i] == StartCall ==> calls[j] != StartCall
  }

  /** What every reachable state satisfies: `Start` is called at most once, and not at all
      while the start case is still open; every armed offer, every buffered batch and
      every batch received so far is non-empty; each channel holds only its own offer's
      batches. */
  predicate Inv<M, E, R>(s: Loop<M, E, R>)
  {
    && AtMostOneStart(s.calls)
    && (s.startOpen ==> StartCall !in s.calls)
    && (forall o :: Armed(s, o) ==> NonEmpty(Staged(s, o)))
    && (forall o :: o in s.inChannel ==> NonEmpty(s.inChannel[o]) && OfferOf(s.inChannel[o]) == o)
    && (forall k :: 0 <= k < |s.delivered| ==> NonEmpty(s.delivered[k]))
  }

  lemma NextKeepsInv<M, E, R>(s: Loop<M, E, R>, e: Event<M, E, R>)
    requires Inv(s) && Next(s, e).Some?
    ensures Inv(Next(s, e).value)
  {
    if e.Consume? {
      var t := Next(s, e).value;
      assert NonEmpty(s.inChannel[e.offer]);
      assert forall k :: 0 <= k < |t.delivered| ==> NonEmpty(t.delivered[k]);
    } else {
      PrepareKeepsInv(s);
      ServiceKeepsInv(Prepare(s), e);
    }
  }

  lemma PrepareKeepsInv<M, E, R>(s: Loop<M, E, R>)
    requires Inv(s)
    ensures Inv(Prepare(s))
  {
    if Drained(s) {
      var p := Prepare(s);
      forall o | Armed(p, o)
        ensures NonEmpty(Staged(p, o))
      {
        assert HasPending(s.progress, o);
      }
    }
  }

  lemma ServiceKeepsInv<M, E, R>(s: Loop<M, E, R>, e: Event<M, E, R>)
    requires Inv(s) && Enabled(s, e)
    ensures Inv(Service(s, e))
  {
    var t := Service(s, e);
    match e
    case Started(_) =>
      assert StartCall !in s.calls;
      AppendKeepsOneStart(s.calls, StartCall);
    case Received(_) =>
      AppendKeepsOneStart(s.calls, StepCall);
    case DataSent(_) =>
      AppendKeepsOneStart(s.calls, SendCall);
    case Ticked(_) =>
      AppendKeepsOneStart(s.calls, TickCall);
    case Hand(o) =>
      assert NonEmpty(Staged(s, o)) && OfferOf(Staged(s, o)) == o;
    case Quit =>
  }

  lemma AppendKeepsOneStart(calls: seq<EngineCall>, c: EngineCall)
    requires AtMostOneStart(calls)
    requires c == StartCall ==> StartCall !in calls
    ensures AtMostOneStart(calls + [c])
  {
  }

  lemma {:induction false} RunKeepsInv<M, E, R>(s: Loop<M, E, R>, es: seq<Event<M, E, R>>)
    requires Inv(s) && Run(s, es).Some?
    ensures Inv(Run(s, es).value)
    decreases |es|
  {
    if |es| > 0 {
      NextKeepsInv(s, es[0]);
      RunKeepsInv(Next(s, es[0]).value, es[1..]);
    }
  }

  // ---------------------------------------------------------------------------
  // Runs

  lemma {:induction false} RunAppend<M, E, R>(s: Loop<M, E, R>, a: seq<Event<M, E, R>>, b: seq<Event<M, E, R>>)
    ensures Run(s, a + b) == (if Run(s, a).None? then None else Run(Run(s, a).value, b))
    decreases |a|
  {
    if |a| > 0 {
      assert (a + b)[1..] == a[1..] + b;
      if Next(s, a[0]).Some? {
        RunAppend(Next(s, a[0]).value, a[1..], b);
      }
    } else {
      assert a + b == b;
    }
  }

  /** Backpressure: while the send case of an armed offer does not fire, the offer stays
      armed with the same staged batch, whatever the engine produces meanwhile, and the
      only batch of that offer a consumer can receive is the one already in its channel:
      what consumers receive of it, followed by what is still buffered, is exactly what
      was buffered at the start. */
  lemma {:induction false} ArmedOfferHeldUntilHanded<M, E, R>(s: Loop<M, E, R>, es: seq<Event<M, E, R>>, o: Offer)
    requires Inv(s) && Armed(s, o)
    requires forall k :: 0 <= k < |es| ==> es[k] != Hand(o)
    requires Run(s, es).Some?
    ensures Armed(Run(s, es).value, o)
    ensures Staged(Run(s, es).value, o) == Staged(s, o)
    ensures Prefix(s.delivered, Run(s, es).value.delivered)
    ensures ReceivedOf(Run(s, es).value.delivered[|s.delivered|..], o) + ChannelOf(Run(s, es).value, o)
         == ChannelOf(s, o)
    decreases |es|
  {
    if |es| == 0 {
      assert s.delivered[|s.delivered|..] == [];
    } else {
      var t := Next(s, es[0]).value;
      StepHoldsArmedOffer(s, es[0], o);
      NextKeepsInv(s, es[0]);
      ArmedOfferHeldUntilHanded(t, es[1..], o);
      var u := Run(t, es[1..]).value;
      ComposeReceipts(s.delivered, t.delivered, u.delivered, o, ChannelOf(s, o), ChannelOf(t, o), ChannelOf(u, o));
    }
  }

  /** Chaining two stretches of receipts in which the batches of `o` received, followed by
      what is left in its channel, account for what was in the channel before. */
  lemma ComposeReceipts<M, E, R>(ds: seq<Batch<M, E, R>>, dt: seq<Batch<M, E, R>>, du: seq<Batch<M, E, R>>, o: Offer,
                                 cs: seq<Batch<M, E, R>>, ct: seq<Batch<M, E, R>>, cu: seq<Batch<M, E, R>>)
    requires Prefix(ds, dt) && Prefix(dt, du)
    requires ReceivedOf(dt[|ds|..], o) + ct == cs
    requires ReceivedOf(du[|dt|..], o) + cu == ct
    ensures Prefix(ds, du)
    ensures ReceivedOf(du[|ds|..], o) + cu == cs
  {
    PrefixTransitive(ds, dt, du);
    SplitAfterPrefix(ds, dt, du);
    ReceivedOfAppend(dt[|ds|..], du[|dt|..], o);
  }

  lemma SplitAfterPrefix<T>(a: seq<T>, b: seq<T>, c: seq<T>)
    requires Prefix(a, b) && Prefix(b, c)
    ensures c[|a|..] == b[|a|..] + c[|b|..]
  {
    assert c == c[..|b|] + c[|b|..];
    assert c[..|b|] == b;
  }

  /** One step of `ArmedOfferHeldUntilHanded`. */
  lemma StepHoldsArmedOffer<M, E, R>(s: Loop<M, E, R>, e: Event<M, E, R>, o: Offer)
    requires Inv(s) && Armed(s, o) && e != Hand(o) && Next(s, e).Some?
    ensures Armed(Next(s, e).value, o)
    ensures Staged(Next(s, e).value, o) == Staged(s, o)
    ensures Prefix(s.delivered, Next(s, e).value.delivered)
    ensures ReceivedOf(Next(s, e).value.delivered[|s.delivered|..], o) + ChannelOf(Next(s, e).value, o)
         == ChannelOf(s, o)
  {
    assert Prepare(s) == s;
    var t := Next(s, e).value;
    if e.Consume? {
      var b := s.inChannel[e.offer];
      assert t.delivered[|s.delivered|..] == [b];
      assert OfferOf(b) == e.offer;
      assert ReceivedOf([b], o) == (if e.offer == o then [b] else []);
    } else {
      assert t.delivered[|s.delivered|..] == [];
      if e.Hand? {
        HandDisarmsOnlyThatOffer(s, e.offer);
      }
    }
  }

  /** Because the channels buffer one batch, a second snapshot can stage a new batch for an
      offer while consumers have not yet read the previous one: two message batches are
      then outstanding at once, one in the channel and one armed, and nothing was read. */
  lemma TwoBatchesInFlight<M, E, R>(m1: M, m2: M)
    ensures var es: seq<Event<M, E, R>> :=
              [Hand(MessagesOffer), Ticked(Progress([m2], [], false, [])), Received(EmptyProgress())];
      var r := Run(Init(Progress([m1], [], false, [])), es);
      && r.Some?
      && ChannelOf(r.value, MessagesOffer) == [OutMessages([m1])]
      && Armed(r.value, MessagesOffer) && Staged(r.value, MessagesOffer) == OutMessages([m2])
      && r.value.delivered == []
  {
    var s0: Loop<M, E, R> := Init(Progress([m1], [], false, []));
    var e1: Event<M, E, R> := Hand(MessagesOffer);
    var e2: Event<M, E, R> := Ticked(Progress([m2], [], false, []));
    var e3: Event<M, E, R> := Received(EmptyProgress());
    var s1 := Next(s0, e1).value;
    assert s1.inChannel == map[MessagesOffer := OutMessages([m1])] && Drained(s1);
    var s2 := Next(s1, e2).value;
    assert s2.progress == Progress([m2], [], false, []) && Drained(s2);
    var s3 := Next(s2, e3).value;
    assert s3.messagesArmed && s3.toSend == [m2];
    assert Run(s2, [e3]) == Some(s3) by {
      assert [e3][1..] == [];
    }
    assert Run(s1, [e2, e3]) == Some(s3) by {
      assert [e2, e3][1..] == [e3];
    }
    assert Run(s0, [e1, e2, e3]) == Some(s3) by {
      assert [e1, e2, e3][1..] == [e2, e3];
    }
  }

  /** The engine's `Start` runs at most once in any run of the loop, and no consumer ever
      receives an empty batch. */
  lemma StartRunsAtMostOnce<M, E, R>(p: Progress<M, E, R>, es: seq<Event<M, E, R>>)
    requires Run(Init(p), es).Some?
    ensures AtMostOneStart(Run(Init(p), es).value.calls)
    ensures forall k :: 0 <= k < |Run(Init(p), es).value.delivered| ==>
      NonEmpty(Run(Init(p), es).value.delivered[k])
  {
    RunKeepsInv(Init(p), es);
  }

  /** After the loop has returned, only consumers reading what is left in the channels can
      still act. */
  lemma {:induction false} OnlyReceiptsAfterExit<M, E, R>(s: Loop<M, E, R>, es: seq<Event<M, E, R>>)
    requires s.exited && Run(s, es).Some?
    ensures forall k :: 0 <= k < |es| ==> es[k].Consume?
    decreases |es|
  {
    if |es| > 0 {
      OnlyReceiptsAfterExit(Next(s, es[0]).value, es[1..]);
      forall k | 0 <= k < |es|
        ensures es[k].Consume?
      {
        if k > 0 {
          assert es[k] == es[1..][k - 1];
        }
      }
    }
  }

  /** After the quit case the loop has returned: no further case of the loop is serviced,
      so no engine call follows it; quit itself calls no engine entry point. */
  lemma NoEngineCallAfterQuit<M, E, R>(s: Loop<M, E, R>, before: seq<Event<M, E, R>>, after: seq<Event<M, E, R>>)
    requires Run(s, before + [Quit] + after).Some?
    ensures Run(s, before).Some? && Run(s, before + [Quit]).Some?
    ensures Run(s, before + [Quit]).value.exited
    ensures Run(s, before + [Quit]).value.calls == Run(s, before).value.calls
    ensures Run(s, before + [Quit] + after).value.calls == Run(s, before).value.calls
    ensures forall k :: 0 <= k < |after| ==> after[k].Consume?
  {
    RunAppend(s, before + [Quit], after);
    RunAppend(s, before, [Quit]);
    OnlyReceiptsAfterExit(Run(s, before + [Quit]).value, after);
  }
}
