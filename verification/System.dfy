/** The whole engine as two threads: the network thread receives packets and pushes them, the worker pops
    and dispatches them to the book. One step per step of the queue. */
module EngineSystem {
  import BookSpec
  import opened Sessions
  import opened Spsc

  /** queue: the ring with both threads' positions. arrivals: the full-size, error-free receives so far.
      dropped: `dropped_packets`. book: the book, owned by the worker. */
  datatype System = System(queue: Config<Message>, arrivals: seq<Message>, dropped: nat, book: BookSpec.Book)

  datatype Event =
    | Receive(m: Message)              // a full-size packet arrives; the handler calls push
    | Discard                          // a short or failed receive
    | Push(step: Step<Message>)        // the handler is inside push
    | Handled                          // push has returned; a refusal is counted
    | Poll                             // the worker calls pop
    | Pop(step: Step<Message>)         // the worker is inside pop
    | Dispatch                         // pop has returned; a packet is dispatched to the book

  predicate InsidePush(s: Step<Message>) {
    s.CheckFull? || s.ReloadPop? || s.Construct? || s.PublishPush?
  }

  predicate InsidePop(s: Step<Message>) {
    s.CheckEmpty? || s.ReloadPush? || s.MoveOut? || s.Destroy? || s.PublishPop?
  }

  /** The step of the queue that an event takes. */
  function QueueStep(e: Event): Step<Message>
    requires !e.Discard?
  {
    match e
    case Receive(m) => CallPush(m)
    case Push(s) => s
    case Handled => ReturnPush
    case Poll => CallPop
    case Pop(s) => s
    case Dispatch => ReturnPop
  }

  ghost predicate Possible(s: System, e: Event) {
    if e.Discard? then s.queue.producer.PushIdle?
    else
      && Enabled(s.queue, QueueStep(e))
      && (e.Push? ==> InsidePush(e.step))
      && (e.Pop? ==> InsidePop(e.step))
  }

  function Next(s: System, e: Event): System
    requires Possible(s, e)
  {
    match e
    case Discard => s
    case Receive(m) => s.(queue := After(s.queue, CallPush(m)), arrivals := s.arrivals + [m])
    case Push(step) => s.(queue := After(s.queue, step))
    case Handled =>
      s.(queue := After(s.queue, ReturnPush), dropped := if s.queue.producer.ok then s.dropped else s.dropped + 1)
    case Poll => s.(queue := After(s.queue, CallPop))
    case Pop(step) => s.(queue := After(s.queue, step))
    case Dispatch =>
      s.(queue := After(s.queue, ReturnPop),
         book := if s.queue.consumer.PopReturn? then Apply(s.book, s.queue.consumer.v) else s.book)
  }

  ghost predicate Start(s: System) {
    Init(s.queue) && s.arrivals == [] && s.dropped == 0 && s.book == BookSpec.EMPTY
  }

  ghost predicate Behaviour(ss: seq<System>, es: seq<Event>) {
    && |ss| == |es| + 1
    && Start(ss[0])
    && forall i :: 0 <= i < |es| ==> Possible(ss[i], es[i]) && ss[i + 1] == Next(ss[i], es[i])
  }

  // ----- invariant -----

  /** The handler holds a received packet that is neither pushed nor counted as dropped. */
  ghost predicate InFlight(s: System) {
    !s.queue.producer.PushIdle? && !(s.queue.producer.PushReturn? && s.queue.producer.ok)
  }

  /** The packet the handler holds. */
  ghost function Held(p: Producer<Message>): Message
    requires !p.PushIdle?
  {
    p.x
  }

  /** The received packets whose fate is settled. */
  ghost function Settled(s: System): seq<Message>
    requires InFlight(s) ==> s.arrivals != []
  {
    if InFlight(s) then s.arrivals[..|s.arrivals| - 1] else s.arrivals
  }

  /** How many accepted packets have reached the book. */
  ghost function Dispatched(s: System): int {
    if s.queue.consumer.PopReturn? then |s.queue.popped| - 1 else |s.queue.popped|
  }

  ghost predicate NetworkInv(s: System) {
    && (InFlight(s) ==> s.arrivals != [] && s.arrivals[|s.arrivals| - 1] == Held(s.queue.producer))
    && Subsequence(s.queue.pushed, Settled(s))
    && |Settled(s)| == |s.queue.pushed| + s.dropped
  }

  ghost predicate WorkerInv(s: System) {
    && (s.queue.consumer.PopReturn? ==>
          s.queue.popped != [] && s.queue.popped[|s.queue.popped| - 1] == s.queue.consumer.v)
    && s.book == Replay(BookSpec.EMPTY, s.queue.popped[..Dispatched(s)])
  }

  ghost predicate SystemInv(s: System) {
    Inv(s.queue) && NetworkInv(s) && WorkerInv(s)
  }

  lemma SubsequenceExtend(kept: seq<Message>, ms: seq<Message>, m: Message)
    requires Subsequence(kept, ms)
    ensures Subsequence(kept, ms + [m])
    ensures Subsequence(kept + [m], ms + [m])
  {
  }

  /** The arrivals while the handler holds a packet: the settled ones and the held one. */
  lemma HeldIsLast(s: System)
    requires NetworkInv(s) && InFlight(s)
    ensures s.arrivals == Settled(s) + [Held(s.queue.producer)]
    ensures Subsequence(s.queue.pushed, s.arrivals)
    ensures Subsequence(s.queue.pushed + [Held(s.queue.producer)], s.arrivals)
  {
  }

  lemma NetworkKeeps(s: System, e: Event)
    requires SystemInv(s) && Possible(s, e)
    ensures NetworkInv(Next(s, e))
  {
    hide SystemInv, NetworkInv, Possible, Next;
    if e.Receive? || e.Push? || e.Handled? {
      HandlerKeeps(s, e);
    } else {
      WorkerLeavesNetwork(s, e);
    }
  }

  lemma WorkerLeavesNetwork(s: System, e: Event)
    requires SystemInv(s) && Possible(s, e) && (e.Discard? || e.Poll? || e.Pop? || e.Dispatch?)
    ensures NetworkInv(Next(s, e))
  {
    hide Inv, WorkerInv, Replay, Subsequence, FullTest, Apply;
  }

  lemma HandlerKeeps(s: System, e: Event)
    requires SystemInv(s) && Possible(s, e) && (e.Receive? || e.Push? || e.Handled?)
    ensures NetworkInv(Next(s, e))
  {
    hide Inv, WorkerInv, Replay, Subsequence, FullTest, Apply;
    if InFlight(s) {
      HeldIsLast(s);
    }
    if e.Receive? {
      assert Next(s, e).arrivals[..|s.arrivals|] == s.arrivals;
    }
  }

  lemma WorkerKeeps(s: System, e: Event)
    requires SystemInv(s) && Possible(s, e)
    ensures WorkerInv(Next(s, e))
  {
    hide Inv, Subsequence, Settled, Apply;
    var s', popped := Next(s, e), s.queue.popped;
    match e
    case Pop(step) =>
      if step.PublishPop? {
        assert s'.queue.popped[..|popped|] == popped[..|popped|];
      }
    case Dispatch =>
      if s.queue.consumer.PopReturn? {
        assert popped[..|popped|] == popped;
      }
    case _ =>
  }

  lemma {:induction false} BehaviourInv(ss: seq<System>, es: seq<Event>, i: nat)
    requires Behaviour(ss, es) && i < |ss|
    ensures SystemInv(ss[i])
  {
    hide Inv, Enabled, After, NetworkInv, WorkerInv, Init;
    if i == 0 {
      StartInv(ss[0]);
    } else {
      BehaviourInv(ss, es, i - 1);
      assert Possible(ss[i - 1], es[i - 1]) && ss[i] == Next(ss[i - 1], es[i - 1]);
      NetworkKeeps(ss[i - 1], es[i - 1]);
      WorkerKeeps(ss[i - 1], es[i - 1]);
      if !es[i - 1].Discard? {
        StepKeeps(ss[i - 1].queue, QueueStep(es[i - 1]));
      }
    }
  }

  lemma StartInv(s: System)
    requires Start(s)
    ensures SystemInv(s)
  {
  }

  /** Neither thread ever blocks the other. An idle handler can receive any packet or discard one, a busy one has an
      event inside push to take; an idle worker can poll, a busy one has an event inside pop to take. */
  lemma EngineNeverStuck(ss: seq<System>, es: seq<Event>, i: nat, m: Message) returns (network: Event, worker: Event)
    requires Behaviour(ss, es) && i < |ss|
    ensures Possible(ss[i], network) && Possible(ss[i], worker)
    ensures if ss[i].queue.producer.PushIdle? then network == Receive(m) && Possible(ss[i], Discard) else network.Push? || network.Handled?
    ensures if ss[i].queue.consumer.PopIdle? then worker == Poll else worker.Pop? || worker.Dispatch?
  {
    hide RingInv, ProducerInv, ConsumerInv, NetworkInv, WorkerInv;
    BehaviourInv(ss, es, i);
    var c := ss[i].queue;
    InvFits(c);
    network, worker := Receive(m), Poll;
    if !c.producer.PushIdle? {
      var s := PushNext(c);
      network := if s.ReturnPush? then Handled else Push(s);
    }
    if !c.consumer.PopIdle? {
      var s := PopNext(c);
      worker := if s.ReturnPop? then Dispatch else Pop(s);
    }
  }

  // ----- end to end -----

  /** In every state of every interleaving, the book is the sequential replay, in arrival order, of the
      accepted packets that have been dispatched: all that were popped, but for one popped and about to be. */
  lemma BookIsReplay(ss: seq<System>, es: seq<Event>, i: nat)
    requires Behaviour(ss, es) && i < |ss|
    ensures var s, d := ss[i], Dispatched(ss[i]);
      && 0 <= d <= |s.queue.pushed|
      && |s.queue.popped| - 1 <= d <= |s.queue.popped|
      && (d < |s.queue.popped| <==> s.queue.consumer.PopReturn?)
      && s.book == Replay(BookSpec.EMPTY, s.queue.pushed[..d])
  {
    hide RingInv, ProducerInv, ConsumerInv, Replay;
    BehaviourInv(ss, es, i);
    var c, d := ss[i].queue, Dispatched(ss[i]);
    assert c.popped[..d] == c.pushed[..d];
  }

  /** Every full-size, error-free receive is accepted, counted as dropped, or in the handler's hands (from the
      call of push until it has succeeded or its refusal has been counted), and the accepted packets are the
      arrivals at increasing positions. */
  lemma ReceivesAccountedFor(ss: seq<System>, es: seq<Event>, i: nat) returns (at: seq<nat>)
    requires Behaviour(ss, es) && i < |ss|
    ensures var s := ss[i];
      && |s.arrivals| == |s.queue.pushed| + s.dropped
                         + (if s.queue.producer.PushIdle? || (s.queue.producer.PushReturn? && s.queue.producer.ok) then 0 else 1)
      && Subsequence(s.queue.pushed, s.arrivals)
      && |at| == |s.queue.pushed|
      && (forall j :: 0 <= j < |at| ==> at[j] < |s.arrivals| && s.arrivals[at[j]] == s.queue.pushed[j])
      && (forall j, k :: 0 <= j < k < |at| ==> at[j] < at[k])
  {
    hide Inv, WorkerInv, Subsequence;
    BehaviourInv(ss, es, i);
    var s := ss[i];
    if InFlight(s) {
      assert s.arrivals == Settled(s) + [Held(s.queue.producer)];
      SubsequenceExtend(s.queue.pushed, Settled(s), Held(s.queue.producer));
    }
    at := KeptPositions(s.queue.pushed, s.arrivals);
  }

  /** With a good arrival stream the worker always meets the engine's preconditions: the packet about to be
      dispatched is in range and, if it is an add, its id is not live, whatever was dropped before. */
  lemma DispatchIsSafe(ss: seq<System>, es: seq<Event>, i: nat, l: Limits)
    requires Behaviour(ss, es) && i < |ss| && GoodStream(ss[i].arrivals, l)
    ensures BookSpec.WellFormed(ss[i].book)
    ensures ss[i].queue.consumer.PopReturn? ==>
      var m := ss[i].queue.consumer.v;
      InRange(m, l) && (m.AddOrder? ==> !BookSpec.Live(ss[i].book, m.id))
  {
    hide RingInv, ProducerInv, ConsumerInv, Replay, InRange, BookSpec.Live, BookSpec.WellFormed, Subsequence, Settled;
    BehaviourInv(ss, es, i);
    BookIsReplay(ss, es, i);
    var _ := ReceivesAccountedFor(ss, es, i);
    var s, d := ss[i], Dispatched(ss[i]);
    var pushed := s.queue.pushed;
    DroppingKeepsGood(pushed, s.arrivals, l);
    EmptyIsWellFormed();
    if s.queue.consumer.PopReturn? {
      assert s.queue.consumer.v == pushed[d];
      assert pushed[..d + 1] == pushed[..d] + [pushed[d]];
      PrefixFresh(pushed, d + 1, l);
      NextAddIsNew(BookSpec.EMPTY, pushed[..d], pushed[d]);
    } else {
      PrefixFresh(pushed, d, l);
      ReplayKeeps(BookSpec.EMPTY, pushed[..d]);
    }
  }

  lemma PrefixFresh(ms: seq<Message>, d: nat, l: Limits)
    requires GoodStream(ms, l) && d <= |ms|
    ensures DistinctAdds(ms[..d]) && FreshFor(BookSpec.EMPTY, ms[..d])
  {
  }

  /** When both threads are idle and everything popped, the book is the replay of all accepted packets. */
  lemma QuiescentBook(ss: seq<System>, es: seq<Event>, i: nat)
    requires Behaviour(ss, es) && i < |ss|
    requires ss[i].queue.consumer.PopIdle? && |ss[i].queue.popped| == |ss[i].queue.pushed|
    ensures ss[i].book == Replay(BookSpec.EMPTY, ss[i].queue.pushed)
  {
    hide Replay;
    BookIsReplay(ss, es, i);
    assert ss[i].queue.pushed[..|ss[i].queue.pushed|] == ss[i].queue.pushed;
  }

  /** In every state of every interleaving, the book has its ledger: each dispatched packet, in arrival order, had
      its plain effect, and all quantity that reached the book is accounted for. */
  lemma EngineConserves(ss: seq<System>, es: seq<Event>, i: nat, l: Limits)
    returns (bs: seq<BookSpec.Book>, fs: seq<Flow>)
    requires Behaviour(ss, es) && i < |ss| && GoodStream(ss[i].arrivals, l)
    ensures 0 <= Dispatched(ss[i]) <= |ss[i].queue.pushed|
    ensures Ledger(BookSpec.Book([], []), ss[i].queue.pushed[..Dispatched(ss[i])], bs, fs)
    ensures bs[|bs| - 1] == ss[i].book
    ensures Sum(fs).submitted ==
            BookSpec.Units(ss[i].book.bids) + BookSpec.Units(ss[i].book.asks) + Sum(fs).withdrawn + 2 * Sum(fs).traded
    ensures Sum(fs) == TotalFlow(BookSpec.EMPTY, ss[i].queue.pushed[..Dispatched(ss[i])])
  {
    hide RingInv, ProducerInv, ConsumerInv, Replay, InRange, Subsequence, Settled, TotalFlow;
    BookIsReplay(ss, es, i);
    var _ := ReceivesAccountedFor(ss, es, i);
    DroppingKeepsGood(ss[i].queue.pushed, ss[i].arrivals, l);
    PrefixFresh(ss[i].queue.pushed, Dispatched(ss[i]), l);
    bs, fs := QuantityIsConserved(ss[i].queue.pushed[..Dispatched(ss[i])]);
  }

  /** The reload refuses exactly when the ring was full as far as the handler could see; with a fresh load,
      exactly when it was full. */
  lemma ReloadRefuses(ss: seq<System>, es: seq<Event>, i: nat)
    requires Behaviour(ss, es) && i < |es| && es[i].Push? && es[i].step.ReloadPop?
    ensures var c, refused := ss[i].queue, ss[i + 1].queue.producer.PushReturn?;
      && (refused <==> |c.pushed| == es[i].step.seen + c.capacity)
      && (es[i].step.seen == |c.popped| ==> (refused <==> |c.pushed| - |c.popped| == c.capacity))
      && (refused ==> !ss[i + 1].queue.producer.ok)
  {
    hide RingInv, NetworkInv, WorkerInv;
    BehaviourInv(ss, es, i);
    assert Possible(ss[i], es[i]) && ss[i + 1] == Next(ss[i], es[i]);
    FullTestExact(ss[i].queue, es[i].step.seen);
  }

  /** The event at which the push was refused that the handler is returning from. */
  ghost predicate RefusedAt(ss: seq<System>, es: seq<Event>, i: nat, j: nat)
    requires j < i < |ss| == |es| + 1
  {
    var c := ss[j].queue;
    && es[j].Push? && c.pushed == ss[i].queue.pushed && c.capacity == ss[i].queue.capacity
    && if c.capacity == 0 then es[j].step.CheckFull?
       else es[j].step.ReloadPop? && |c.pushed| == es[j].step.seen + c.capacity && es[j].step.seen <= |c.popped|
  }

  lemma {:induction false} Refused(ss: seq<System>, es: seq<Event>, i: nat) returns (j: nat)
    requires Behaviour(ss, es) && i < |ss| && ss[i].queue.producer.PushReturn? && !ss[i].queue.producer.ok
    ensures j < i && RefusedAt(ss, es, i, j)
  {
    hide Possible, Next;
    assert i > 0;
    assert Possible(ss[i - 1], es[i - 1]) && ss[i] == Next(ss[i - 1], es[i - 1]);
    if es[i - 1].Push? {
      j := i - 1;
      RefusalIsFull(ss, es, j);
    } else {
      ReturningStays(ss[i - 1], es[i - 1]);
      j := Refused(ss, es, i - 1);
    }
  }

  lemma ReturningStays(s: System, e: Event)
    requires Possible(s, e) && !e.Push? && Next(s, e).queue.producer.PushReturn?
    ensures var q, q' := s.queue, Next(s, e).queue;
            q'.producer == q.producer && q'.pushed == q.pushed && q'.capacity == q.capacity
  {
    hide FullTest, Apply;
  }

  /** Only the reload, and with capacity 0 the first check, refuse. */
  lemma RefusalIsFull(ss: seq<System>, es: seq<Event>, j: nat)
    requires Behaviour(ss, es) && j < |es| && es[j].Push?
    requires ss[j + 1].queue.producer.PushReturn? && !ss[j + 1].queue.producer.ok
    ensures RefusedAt(ss, es, j + 1, j)
  {
    hide RingInv, NetworkInv, WorkerInv;
    BehaviourInv(ss, es, j);
    assert Possible(ss[j], es[j]) && ss[j + 1] == Next(ss[j], es[j]);
    if es[j].step.ReloadPop? {
      FullTestExact(ss[j].queue, es[j].step.seen);
    }
  }

  /** The counter grows exactly when a refused push returns. The dropped packet is the last one to have
      arrived, and it was refused at a moment when the ring was full as far as the handler could see: with a
      fresh load, when it was full. */
  lemma DropsMeanFull(ss: seq<System>, es: seq<Event>, i: nat) returns (j: nat)
    requires Behaviour(ss, es) && i < |es|
    ensures var p := ss[i].queue.producer;
            ss[i + 1].dropped == ss[i].dropped + if es[i].Handled? && p.PushReturn? && !p.ok then 1 else 0
    ensures ss[i + 1].dropped != ss[i].dropped ==>
      && ss[i].arrivals != [] && ss[i].queue.producer == PushReturn(ss[i].arrivals[|ss[i].arrivals| - 1], false)
      && |ss[i].queue.pushed| == ss[i].queue.popSeen + ss[i].queue.capacity
      && j < i && RefusedAt(ss, es, i, j)
      && (es[j].step.ReloadPop? && es[j].step.seen == |ss[j].queue.popped| ==>
            |ss[j].queue.pushed| - |ss[j].queue.popped| == ss[j].queue.capacity)
  {
    hide CursorInv, RingInv, ConsumerInv, WorkerInv;
    BehaviourInv(ss, es, i);
    assert Possible(ss[i], es[i]) && ss[i + 1] == Next(ss[i], es[i]);
    j := 0;
    if ss[i + 1].dropped != ss[i].dropped {
      j := Refused(ss, es, i);
    }
  }
}
