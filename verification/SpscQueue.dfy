/** include/SPSCQueue.h as two threads, one step per atomic load, atomic store or slot access. Cursors wrap
    at 2^64 and each thread keeps a possibly stale copy of the other's cursor; an acquire load may itself
    return any cursor value between the one last seen and the current one. */
module Spsc {
  import opened Cursors

  /** A cell of raw ring memory. */
  datatype Slot<T> = Raw | Full(value: T) | MovedFrom

  /** Where `push` is. */
  datatype Producer<T> =
    | PushIdle
    | PushStart(x: T)                 // about to load its own cursor and test the cached pop cursor
    | PushReload(x: T, cur: nat)      // about to reload the pop cursor and test again
    | PushWrite(x: T, cur: nat)       // about to construct the slot
    | PushPublish(x: T, cur: nat)     // about to store the push cursor
    | PushReturn(x: T, ok: bool)

  /** Where `pop` is. */
  datatype Consumer<T> =
    | PopIdle
    | PopStart
    | PopReload(cur: nat)
    | PopRead(cur: nat)               // about to move the value out of the slot
    | PopDestroy(v: T, cur: nat)      // about to destroy the slot
    | PopPublish(v: T, cur: nat)      // about to store the pop cursor
    | PopReturn(v: T)                 // returning true
    | PopEmpty                        // returning false

  /** The shared memory, both threads, and the history of what was pushed, popped and last seen. */
  datatype Config<T> = Config(
    capacity: nat,
    ring: seq<Slot<T>>,
    pushCursor: nat,
    popCursor: nat,
    pushCached: nat,
    popCached: nat,
    producer: Producer<T>,
    consumer: Consumer<T>,
    pushed: seq<T>,
    popped: seq<T>,
    pushSeen: nat,
    popSeen: nat
  )

  datatype Step<T> =
    | CallPush(x: T) | CheckFull | ReloadPop(seen: nat) | Construct | PublishPush | ReturnPush
    | CallPop | CheckEmpty | ReloadPush(seen: nat) | MoveOut | Destroy | PublishPop | ReturnPop

  /** `_index_mask` of the source. */
  function Mask(capacity: nat): nat {
    if capacity > 0 then capacity - 1 else 0
  }

  /** The private `full(push_cursor, pop_cursor)`: a wrapping subtraction. */
  predicate FullTest(push: nat, pop: nat, capacity: nat)
    requires push < WRAP && pop < WRAP
  {
    Minus(push, pop) >= capacity
  }

  ghost predicate CursorsFit<T>(c: Config<T>) {
    c.pushCursor < WRAP && c.popCursor < WRAP && c.pushCached < WRAP && c.popCached < WRAP
  }

  /** When a step can be taken. A load may return a stale cursor, but never one older than last seen. */
  ghost predicate Enabled<T>(c: Config<T>, s: Step<T>) {
    && CursorsFit(c)
    && match s
       case CallPush(_) => c.producer.PushIdle?
       case CheckFull => c.producer.PushStart?
       case ReloadPop(seen) => c.producer.PushReload? && c.producer.cur < WRAP && c.popSeen <= seen <= |c.popped|
       case Construct => c.producer.PushWrite? && And(c.producer.cur, Mask(c.capacity)) < |c.ring|
       case PublishPush => c.producer.PushPublish?
       case ReturnPush => c.producer.PushReturn?
       case CallPop => c.consumer.PopIdle?
       case CheckEmpty => c.consumer.PopStart?
       case ReloadPush(seen) => c.consumer.PopReload? && c.consumer.cur < WRAP && c.pushSeen <= seen <= |c.pushed|
       case MoveOut => c.consumer.PopRead? && And(c.consumer.cur, Mask(c.capacity)) < |c.ring|
                       && c.ring[And(c.consumer.cur, Mask(c.capacity))].Full?
       case Destroy => c.consumer.PopDestroy? && And(c.consumer.cur, Mask(c.capacity)) < |c.ring|
       case PublishPop => c.consumer.PopPublish?
       case ReturnPop => c.consumer.PopReturn? || c.consumer.PopEmpty?
  }

  function After<T>(c: Config<T>, s: Step<T>): Config<T>
    requires Enabled(c, s)
  {
    match s
    case CallPush(x) => c.(producer := PushStart(x))
    case CheckFull =>
      var x, cur := c.producer.x, c.pushCursor;
      if c.capacity == 0 then c.(producer := PushReturn(x, false))
      else if FullTest(cur, c.popCached, c.capacity) then c.(producer := PushReload(x, cur))
      else c.(producer := PushWrite(x, cur))
    case ReloadPop(seen) =>
      var x, cur, loaded := c.producer.x, c.producer.cur, seen % WRAP;
      c.(popCached := loaded, popSeen := seen,
         producer := if FullTest(cur, loaded, c.capacity) then PushReturn(x, false) else PushWrite(x, cur))
    case Construct =>
      var x, cur := c.producer.x, c.producer.cur;
      c.(ring := c.ring[And(cur, Mask(c.capacity)) := Full(x)], producer := PushPublish(x, cur))
    case PublishPush =>
      c.(pushCursor := (c.producer.cur + 1) % WRAP, pushed := c.pushed + [c.producer.x], producer := PushReturn(c.producer.x, true))
    case ReturnPush => c.(producer := PushIdle)
    case CallPop => c.(consumer := PopStart)
    case CheckEmpty =>
      var cur := c.popCursor;
      if c.pushCached == cur then c.(consumer := PopReload(cur)) else c.(consumer := PopRead(cur))
    case ReloadPush(seen) =>
      var cur, loaded := c.consumer.cur, seen % WRAP;
      c.(pushCached := loaded, pushSeen := seen, consumer := if loaded == cur then PopEmpty else PopRead(cur))
    case MoveOut =>
      var cur := c.consumer.cur;
      var idx := And(cur, Mask(c.capacity));
      c.(ring := c.ring[idx := MovedFrom], consumer := PopDestroy(c.ring[idx].value, cur))
    case Destroy =>
      var cur := c.consumer.cur;
      c.(ring := c.ring[And(cur, Mask(c.capacity)) := Raw], consumer := PopPublish(c.consumer.v, cur))
    case PublishPop =>
      c.(popCursor := (c.consumer.cur + 1) % WRAP, popped := c.popped + [c.consumer.v], consumer := PopReturn(c.consumer.v))
    case ReturnPop => c.(consumer := PopIdle)
  }

  /** A queue just constructed, with any starting power-of-two capacity (or the degenerate 0). */
  ghost predicate Init<T>(c: Config<T>) {
    && Capacity(c.capacity)
    && |c.ring| == c.capacity && (forall i :: 0 <= i < |c.ring| ==> c.ring[i] == Raw)
    && c.pushCursor == c.popCursor == c.pushCached == c.popCached == 0
    && c.producer.PushIdle? && c.consumer.PopIdle?
    && c.pushed == [] && c.popped == [] && c.pushSeen == 0 && c.popSeen == 0
  }

  // ----- the invariant -----

  /** The unbounded cursors and what each thread has seen of the other's. */
  ghost predicate CursorInv<T>(c: Config<T>) {
    && Capacity(c.capacity) && |c.ring| == c.capacity
    && c.pushCursor == |c.pushed| % WRAP
    && c.popCursor == |c.popped| % WRAP
    && c.pushCached == c.pushSeen % WRAP
    && c.popCached == c.popSeen % WRAP
    && |c.popped| <= c.pushSeen <= |c.pushed|
    && c.popSeen <= |c.popped|
    && |c.pushed| <= c.popSeen + c.capacity
    && c.popped == c.pushed[..|c.popped|]
  }

  ghost predicate ProducerInv<T>(c: Config<T>) {
    match c.producer
    case PushReload(_, cur) => cur == c.pushCursor && c.capacity > 0
    case PushWrite(_, cur) => cur == c.pushCursor && |c.pushed| < c.popSeen + c.capacity
    case PushPublish(_, cur) => cur == c.pushCursor && |c.pushed| < c.popSeen + c.capacity
    case PushReturn(_, ok) => ok || |c.pushed| == c.popSeen + c.capacity
    case _ => true
  }

  ghost predicate ConsumerInv<T>(c: Config<T>) {
    match c.consumer
    case PopReload(cur) => cur == c.popCursor && c.pushSeen == |c.popped|
    case PopRead(cur) => cur == c.popCursor && |c.popped| < c.pushSeen
    case PopDestroy(v, cur) => cur == c.popCursor && |c.popped| < c.pushSeen <= |c.pushed| && v == c.pushed[|c.popped|]
    case PopPublish(v, cur) => cur == c.popCursor && |c.popped| < c.pushSeen <= |c.pushed| && v == c.pushed[|c.popped|]
    case _ => true
  }

  /** What the slot of unbounded cursor i holds, for i in the window of capacity cursors from the pop cursor. */
  ghost function Expected<T>(c: Config<T>, i: nat): Slot<T> {
    if i == |c.popped| && c.consumer.PopDestroy? then MovedFrom
    else if i == |c.popped| && c.consumer.PopPublish? then Raw
    else if i < |c.pushed| then Full(c.pushed[i])
    else if i == |c.pushed| && c.producer.PushPublish? then Full(c.producer.x)
    else Raw
  }

  ghost predicate RingInv<T>(c: Config<T>) {
    c.capacity > 0 && |c.ring| == c.capacity ==>
      forall i {:trigger Mod(i, c.capacity)} :: |c.popped| <= i < |c.popped| + c.capacity ==>
        c.ring[Mod(i, c.capacity)] == Expected(c, i)
  }

  ghost predicate Inv<T>(c: Config<T>) {
    CursorInv(c) && ProducerInv(c) && ConsumerInv(c) && RingInv(c)
  }

  lemma InitInv<T>(c: Config<T>)
    requires Init(c)
    ensures Inv(c)
  {
  }

  lemma InvFits<T>(c: Config<T>)
    requires Inv(c)
    ensures CursorsFit(c)
    ensures 2 * c.capacity <= WRAP
  {
    CapacityFits(c.capacity);
  }

  /** The masked index of a cursor in the code is the unbounded cursor modulo the capacity. */
  lemma Index<T>(c: Config<T>, n: nat)
    requires Inv(c) && c.capacity > 0
    ensures And(n % WRAP, Mask(c.capacity)) == Mod(n, c.capacity) < |c.ring|
  {
    MaskedIndex(n, c.capacity);
  }

  /** The private `full` test on wrapped cursors tells exactly whether capacity items separate them. */
  lemma FullTestExact<T>(c: Config<T>, n: nat)
    requires Inv(c) && n <= |c.pushed| <= n + c.capacity
    ensures FullTest(|c.pushed| % WRAP, n % WRAP, c.capacity) <==> |c.pushed| == n + c.capacity
  {
    InvFits(c);
    WrappedDifference(|c.pushed|, n);
  }

  /** The private `empty` test on wrapped cursors tells exactly whether they are the same. */
  lemma EmptyTestExact<T>(c: Config<T>, n: nat)
    requires Inv(c) && |c.popped| <= n <= |c.pushed|
    ensures n % WRAP == |c.popped| % WRAP <==> n == |c.popped|
  {
    InvFits(c);
    WrappedDifference(n, |c.popped|);
  }

  // ----- every step keeps the invariant -----

  /** The ring after one slot of the window has been written. */
  lemma RingAfterWrite<T>(c: Config<T>, c': Config<T>, n: nat, slot: Slot<T>)
    requires Inv(c) && |c.ring| == c.capacity > 0 && |c.popped| <= n < |c.popped| + c.capacity
    requires c'.capacity == c.capacity && c'.popped == c.popped
    requires c'.ring == c.ring[Mod(n, c.capacity) := slot]
    requires Expected(c', n) == slot
    requires forall i: nat :: i != n && |c.popped| <= i < |c.popped| + c.capacity ==> Expected(c', i) == Expected(c, i)
    ensures RingInv(c')
  {
    hide Expected, CursorInv, ProducerInv, ConsumerInv;
    forall i | |c.popped| <= i < |c.popped| + c.capacity
      ensures c'.ring[Mod(i, c.capacity)] == Expected(c', i)
    {
      if i < n {
        WindowIndices(i, n, c.capacity);
      } else if n < i {
        WindowIndices(n, i, c.capacity);
      }
    }
  }

  lemma ConstructKeeps<T>(c: Config<T>)
    requires Inv(c) && Enabled(c, Construct)
    ensures Inv(After(c, Construct))
  {
    Index(c, |c.pushed|);
    RingAfterWrite(c, After(c, Construct), |c.pushed|, Full(c.producer.x));
  }

  lemma MoveOutKeeps<T>(c: Config<T>)
    requires Inv(c) && Enabled(c, MoveOut)
    ensures Inv(After(c, MoveOut))
  {
    Index(c, |c.popped|);
    assert c.ring[Mod(|c.popped|, c.capacity)] == Expected(c, |c.popped|);
    RingAfterWrite(c, After(c, MoveOut), |c.popped|, MovedFrom);
  }

  lemma DestroyKeeps<T>(c: Config<T>)
    requires Inv(c) && Enabled(c, Destroy)
    ensures Inv(After(c, Destroy))
  {
    Index(c, |c.popped|);
    RingAfterWrite(c, After(c, Destroy), |c.popped|, Raw);
  }

  lemma PublishPushKeeps<T>(c: Config<T>)
    requires Inv(c) && Enabled(c, PublishPush)
    ensures Inv(After(c, PublishPush))
  {
    NextCursor(|c.pushed|);
    var c' := After(c, PublishPush);
    forall i | |c.popped| <= i < |c.popped| + c.capacity
      ensures c'.ring[Mod(i, c.capacity)] == Expected(c', i)
    {
      assert c.ring[Mod(i, c.capacity)] == Expected(c, i);
    }
  }

  lemma PublishPopKeeps<T>(c: Config<T>)
    requires Inv(c) && Enabled(c, PublishPop)
    ensures Inv(After(c, PublishPop))
  {
    NextCursor(|c.popped|);
    var c' := After(c, PublishPop);
    assert c.pushed[..|c.popped| + 1] == c.pushed[..|c.popped|] + [c.pushed[|c.popped|]];
    forall i | |c'.popped| <= i < |c'.popped| + c.capacity
      ensures c'.ring[Mod(i, c.capacity)] == Expected(c', i)
    {
      var j := if i == |c.popped| + c.capacity then |c.popped| else i;
      assert Mod(i, c.capacity) == Mod(j, c.capacity);
      assert c.ring[Mod(j, c.capacity)] == Expected(c, j);
    }
  }

  /** Steps that touch neither the ring nor the history. */
  lemma RingUntouched<T>(c: Config<T>, c': Config<T>)
    requires Inv(c)
    requires c'.ring == c.ring && c'.capacity == c.capacity && c'.pushed == c.pushed && c'.popped == c.popped
    requires forall i: nat :: Expected(c', i) == Expected(c, i)
    ensures RingInv(c')
  {
  }

  lemma ChecksKeep<T>(c: Config<T>, s: Step<T>)
    requires Inv(c) && Enabled(c, s)
    requires s.CheckFull? || s.ReloadPop? || s.CheckEmpty? || s.ReloadPush?
    ensures Inv(After(c, s))
  {
    hide RingInv, Expected;
    FullTestExact(c, c.popSeen);
    EmptyTestExact(c, c.pushSeen);
    if s.ReloadPop? {
      FullTestExact(c, s.seen);
    } else if s.ReloadPush? {
      EmptyTestExact(c, s.seen);
    }
    ChecksLeaveRing(c, s);
  }

  lemma ChecksLeaveRing<T>(c: Config<T>, s: Step<T>)
    requires Inv(c) && Enabled(c, s)
    requires s.CheckFull? || s.ReloadPop? || s.CheckEmpty? || s.ReloadPush?
    ensures RingInv(After(c, s))
  {
    RingUntouched(c, After(c, s));
  }

  /** Every step of either thread keeps the invariant. */
  lemma StepKeeps<T>(c: Config<T>, s: Step<T>)
    requires Inv(c) && Enabled(c, s)
    ensures Inv(After(c, s))
  {
    match s
    case Construct => ConstructKeeps(c);
    case MoveOut => MoveOutKeeps(c);
    case Destroy => DestroyKeeps(c);
    case PublishPush => PublishPushKeeps(c);
    case PublishPop => PublishPopKeeps(c);
    case CheckFull => ChecksKeep(c, s);
    case ReloadPop(_) => ChecksKeep(c, s);
    case CheckEmpty => ChecksKeep(c, s);
    case ReloadPush(_) => ChecksKeep(c, s);
    case _ => RingUntouched(c, After(c, s));
  }

  // ----- whole runs -----

  /** Any interleaving of the two threads. */
  ghost predicate Execution<T>(cs: seq<Config<T>>, steps: seq<Step<T>>) {
    && |cs| == |steps| + 1
    && Init(cs[0])
    && forall i :: 0 <= i < |steps| ==> Enabled(cs[i], steps[i]) && cs[i + 1] == After(cs[i], steps[i])
  }

  lemma {:induction false} ExecutionInv<T>(cs: seq<Config<T>>, steps: seq<Step<T>>, i: nat)
    requires Execution(cs, steps) && i < |cs|
    ensures Inv(cs[i])
  {
    hide Inv, Enabled, After, Init;
    if i == 0 {
      InitInv(cs[0]);
    } else {
      ExecutionInv(cs, steps, i - 1);
      StepKeeps(cs[i - 1], steps[i - 1]);
    }
  }

  /** The values in the queue: what the slots from the pop cursor to the push cursor hold, the oldest one
      being in the consumer's hands while it is moved out and not yet published. */
  ghost function InRing<T>(c: Config<T>): seq<T>
    requires Inv(c)
  {
    seq(|c.pushed| - |c.popped|, k requires 0 <= k < |c.pushed| - |c.popped| =>
      if k == 0 && c.consumer.PopDestroy? then c.consumer.v
      else if k == 0 && c.consumer.PopPublish? then c.consumer.v
      else SlotValue(c, |c.popped| + k))
  }

  ghost function SlotValue<T>(c: Config<T>, i: nat): (v: T)
    requires Inv(c) && |c.popped| <= i < |c.pushed|
    requires i == |c.popped| ==> !c.consumer.PopDestroy? && !c.consumer.PopPublish?
    ensures v == c.pushed[i]
  {
    assert c.ring[Mod(i, c.capacity)] == Expected(c, i);
    c.ring[Mod(i, c.capacity)].value
  }

  /** For every interleaving: popped followed by queued is exactly pushed, in order. */
  lemma Fifo<T>(cs: seq<Config<T>>, steps: seq<Step<T>>, i: nat)
    requires Execution(cs, steps) && i < |cs|
    ensures Inv(cs[i]) && cs[i].popped + InRing(cs[i]) == cs[i].pushed
    ensures |InRing(cs[i])| <= cs[i].capacity
  {
    ExecutionInv(cs, steps, i);
    InRingIs(cs[i]);
  }

  lemma InRingIs<T>(c: Config<T>)
    requires Inv(c)
    ensures InRing(c) == c.pushed[|c.popped|..]
    ensures c.popped + InRing(c) == c.pushed
  {
    var q := c.pushed[|c.popped|..];
    forall k | 0 <= k < |q|
      ensures InRing(c)[k] == q[k]
    {
      if k == 0 && c.consumer.PopDestroy? {
        assert c.consumer.v == c.pushed[|c.popped|];
      } else if k == 0 && c.consumer.PopPublish? {
        assert c.consumer.v == c.pushed[|c.popped|];
      } else {
        assert SlotValue(c, |c.popped| + k) == q[k];
      }
    }
  }

  /** The slot a thread is about to touch. */
  ghost function ProducerSlot<T>(c: Config<T>): nat
    requires c.producer.PushWrite?
  {
    And(c.producer.cur, Mask(c.capacity))
  }

  ghost function ConsumerSlot<T>(c: Config<T>): nat
    requires c.consumer.PopRead? || c.consumer.PopDestroy?
  {
    And(c.consumer.cur, Mask(c.capacity))
  }

  /** The producer never writes the slot the consumer is about to read or destroy; it only ever constructs
      on raw memory, and the consumer only ever reads a constructed value, the next one in order. */
  lemma SlotExclusivity<T>(cs: seq<Config<T>>, steps: seq<Step<T>>, i: nat)
    requires Execution(cs, steps) && i < |cs|
    ensures cs[i].producer.PushWrite? && (cs[i].consumer.PopRead? || cs[i].consumer.PopDestroy?) ==>
              ProducerSlot(cs[i]) != ConsumerSlot(cs[i])
    ensures cs[i].producer.PushWrite? ==>
              ProducerSlot(cs[i]) < |cs[i].ring| && cs[i].ring[ProducerSlot(cs[i])] == Raw
    ensures cs[i].consumer.PopRead? ==>
              && ConsumerSlot(cs[i]) < |cs[i].ring| && |cs[i].popped| < |cs[i].pushed|
              && cs[i].ring[ConsumerSlot(cs[i])] == Full(cs[i].pushed[|cs[i].popped|])
  {
    ExecutionInv(cs, steps, i);
    var c := cs[i];
    if c.producer.PushWrite? {
      Index(c, |c.pushed|);
      assert c.ring[Mod(|c.pushed|, c.capacity)] == Expected(c, |c.pushed|);
    }
    if c.consumer.PopRead? || c.consumer.PopDestroy? {
      Index(c, |c.popped|);
      assert c.ring[Mod(|c.popped|, c.capacity)] == Expected(c, |c.popped|);
      if c.producer.PushWrite? {
        WindowIndices(|c.popped|, |c.pushed|, c.capacity);
      }
    }
  }

  /** `push` returns false exactly when, at its reload, the pop cursor it saw was capacity items behind; if
      the load was fresh, exactly when the ring was full. A stale cached cursor alone refuses nothing. */
  lemma PushRefusal<T>(cs: seq<Config<T>>, steps: seq<Step<T>>, i: nat)
    requires Execution(cs, steps) && i < |steps| && steps[i].ReloadPop?
    ensures cs[i + 1].producer == PushReturn(cs[i].producer.x, false) <==>
              |cs[i].pushed| == steps[i].seen + cs[i].capacity
    ensures steps[i].seen == |cs[i].popped| ==>
              (cs[i + 1].producer == PushReturn(cs[i].producer.x, false) <==> |cs[i].pushed| - |cs[i].popped| == cs[i].capacity)
  {
    ExecutionInv(cs, steps, i);
    assert Enabled(cs[i], steps[i]) && cs[i + 1] == After(cs[i], steps[i]);
    FullTestExact(cs[i], steps[i].seen);
  }

  /** `pop` returns false exactly when the push cursor it saw at its reload was its own; if the load was
      fresh, exactly when the ring was empty. */
  lemma PopRefusal<T>(cs: seq<Config<T>>, steps: seq<Step<T>>, i: nat)
    requires Execution(cs, steps) && i < |steps| && steps[i].ReloadPush?
    ensures cs[i + 1].consumer.PopEmpty? <==> steps[i].seen == |cs[i].popped|
    ensures steps[i].seen == |cs[i].pushed| ==> (cs[i + 1].consumer.PopEmpty? <==> |cs[i].pushed| == |cs[i].popped|)
  {
    ExecutionInv(cs, steps, i);
    assert Enabled(cs[i], steps[i]) && cs[i + 1] == After(cs[i], steps[i]);
    EmptyTestExact(cs[i], steps[i].seen);
  }

  /** No other step makes `push` (of a queue with room for anything) or `pop` return false. */
  lemma OnlyReloadsRefuse<T>(cs: seq<Config<T>>, steps: seq<Step<T>>, i: nat)
    requires Execution(cs, steps) && i < |steps|
    ensures cs[i + 1].producer.PushReturn? && !cs[i + 1].producer.ok && cs[i + 1].producer != cs[i].producer ==>
              steps[i].ReloadPop? || (steps[i].CheckFull? && cs[i].capacity == 0)
    ensures cs[i + 1].consumer.PopEmpty? && cs[i + 1].consumer != cs[i].consumer ==> steps[i].ReloadPush?
  {
  }

  /** Neither thread is ever stuck: in every reachable state each thread has a step to take. */
  lemma NeverStuck<T>(cs: seq<Config<T>>, steps: seq<Step<T>>, i: nat, x: T)
    requires Execution(cs, steps) && i < |cs|
    ensures var c := cs[i];
      && (Enabled(c, CallPush(x)) || Enabled(c, CheckFull) || Enabled(c, ReloadPop(|c.popped|))
          || Enabled(c, Construct) || Enabled(c, PublishPush) || Enabled(c, ReturnPush))
      && (Enabled(c, CallPop) || Enabled(c, CheckEmpty) || Enabled(c, ReloadPush(|c.pushed|))
          || Enabled(c, MoveOut) || Enabled(c, Destroy) || Enabled(c, PublishPop) || Enabled(c, ReturnPop))
      && (c.producer.PushReload? ==> forall seen :: c.popSeen <= seen <= |c.popped| ==> Enabled(c, ReloadPop(seen)))
      && (c.consumer.PopReload? ==> forall seen :: c.pushSeen <= seen <= |c.pushed| ==> Enabled(c, ReloadPush(seen)))
  {
    ExecutionInv(cs, steps, i);
    SlotExclusivity(cs, steps, i);
    var c := cs[i];
    InvFits(c);
    if c.consumer.PopDestroy? {
      Index(c, |c.popped|);
    }
  }

  // ----- single calls -----

  /** The steps inside one call of push, and inside one call of pop. */
  predicate OfPush<T>(s: Step<T>) {
    s.CheckFull? || s.ReloadPop? || s.Construct? || s.PublishPush? || s.ReturnPush?
  }

  predicate OfPop<T>(s: Step<T>) {
    s.CheckEmpty? || s.ReloadPush? || s.MoveOut? || s.Destroy? || s.PublishPop? || s.ReturnPop?
  }

  function CountPush<T>(steps: seq<Step<T>>): nat {
    if steps == [] then 0
    else CountPush(steps[..|steps| - 1]) + if OfPush(steps[|steps| - 1]) then 1 else 0
  }

  function CountPop<T>(steps: seq<Step<T>>): nat {
    if steps == [] then 0
    else CountPop(steps[..|steps| - 1]) + if OfPop(steps[|steps| - 1]) then 1 else 0
  }

  /** How many more steps a call can take. */
  function PushRank<T>(p: Producer<T>): nat {
    match p
    case PushStart(_) => 5
    case PushReload(_, _) => 4
    case PushWrite(_, _) => 3
    case PushPublish(_, _) => 2
    case PushReturn(_, _) => 1
    case PushIdle => 0
  }

  function PopRank<T>(c: Consumer<T>): nat {
    match c
    case PopStart => 6
    case PopReload(_) => 5
    case PopRead(_) => 4
    case PopDestroy(_, _) => 3
    case PopPublish(_, _) => 2
    case PopReturn(_) => 1
    case PopEmpty => 1
    case PopIdle => 0
  }

  /** What has become of push(x), called in state c0: nothing is published before it succeeds, and then x alone. */
  ghost predicate PushSoFar<T>(c0: Config<T>, c: Config<T>, x: T) {
    match c.producer
    case PushIdle => c.pushed == c0.pushed || c.pushed == c0.pushed + [x]
    case PushReturn(y, ok) => y == x && c.pushed == if ok then c0.pushed + [x] else c0.pushed
    case p => p.x == x && c.pushed == c0.pushed
  }

  /** What has become of pop, called in state c0: nothing is taken before it succeeds, and then the next value. */
  ghost predicate PopSoFar<T>(c0: Config<T>, c: Config<T>) {
    match c.consumer
    case PopIdle => c.popped == c0.popped || (|c0.popped| < |c.pushed| && c.popped == c0.popped + [c.pushed[|c0.popped|]])
    case PopReturn(v) => |c0.popped| < |c.pushed| && v == c.pushed[|c0.popped|] && c.popped == c0.popped + [v]
    case _ => c.popped == c0.popped
  }

  lemma PushProgress<T>(c0: Config<T>, c: Config<T>, s: Step<T>, x: T)
    requires Inv(c) && Enabled(c, s) && !s.CallPush? && PushSoFar(c0, c, x)
    ensures PushSoFar(c0, After(c, s), x)
    ensures PushRank(After(c, s).producer) + (if OfPush(s) then 1 else 0) <= PushRank(c.producer)
    ensures After(c, s).producer.PushIdle? <==> s.ReturnPush? || c.producer.PushIdle?
  {
    hide Inv, FullTest, Minus, And;
  }

  lemma PopProgress<T>(c0: Config<T>, c: Config<T>, s: Step<T>)
    requires Inv(c) && Enabled(c, s) && !s.CallPop? && PopSoFar(c0, c)
    ensures PopSoFar(c0, After(c, s))
    ensures PopRank(After(c, s).consumer) + (if OfPop(s) then 1 else 0) <= PopRank(c.consumer)
    ensures After(c, s).consumer.PopIdle? <==> s.ReturnPop? || c.consumer.PopIdle?
  {
    hide RingInv, ProducerInv, FullTest, Minus, And;
  }

  /** One call of push, in any interleaving: it takes at most five steps whatever the other thread does, its
      return step ends it, and on success it has published exactly its argument, otherwise nothing. */
  lemma {:induction false} PushCall<T>(cs: seq<Config<T>>, steps: seq<Step<T>>, i: nat, j: nat)
    requires Execution(cs, steps) && i < j < |cs| && steps[i].CallPush?
    requires forall k :: i < k < j ==> !steps[k].CallPush?
    ensures CountPush(steps[i + 1..j]) + PushRank(cs[j].producer) <= 5
    ensures PushSoFar(cs[i], cs[j], steps[i].x)
    ensures cs[j].producer.PushIdle? <==> exists k :: i < k < j && steps[k].ReturnPush?
  {
    hide Inv, After, Init, PushSoFar, PushRank, OfPush;
    assert Enabled(cs[j - 1], steps[j - 1]) && cs[j] == After(cs[j - 1], steps[j - 1]);
    if j == i + 1 {
      PushBegins(cs[i], steps[i].x);
    } else {
      PushCall(cs, steps, i, j - 1);
      ExecutionInv(cs, steps, j - 1);
      PushProgress(cs[i], cs[j - 1], steps[j - 1], steps[i].x);
      assert steps[i + 1..j][..j - i - 2] == steps[i + 1..j - 1];
    }
  }

  lemma PushBegins<T>(c: Config<T>, x: T)
    requires Enabled(c, CallPush(x))
    ensures var c' := After(c, CallPush(x)); PushSoFar(c, c', x) && PushRank(c'.producer) == 5 && !c'.producer.PushIdle?
  {
  }

  /** One call of pop, likewise: at most six steps, and on success it has taken exactly the next value. */
  lemma {:induction false} PopCall<T>(cs: seq<Config<T>>, steps: seq<Step<T>>, i: nat, j: nat)
    requires Execution(cs, steps) && i < j < |cs| && steps[i].CallPop?
    requires forall k :: i < k < j ==> !steps[k].CallPop?
    ensures CountPop(steps[i + 1..j]) + PopRank(cs[j].consumer) <= 6
    ensures PopSoFar(cs[i], cs[j])
    ensures cs[j].consumer.PopIdle? <==> exists k :: i < k < j && steps[k].ReturnPop?
  {
    hide Inv, After, Init, PopSoFar, PopRank, OfPop;
    assert Enabled(cs[j - 1], steps[j - 1]) && cs[j] == After(cs[j - 1], steps[j - 1]);
    if j == i + 1 {
      PopBegins(cs[i]);
    } else {
      PopCall(cs, steps, i, j - 1);
      ExecutionInv(cs, steps, j - 1);
      PopProgress(cs[i], cs[j - 1], steps[j - 1]);
      assert steps[i + 1..j][..j - i - 2] == steps[i + 1..j - 1];
    }
  }

  lemma PopBegins<T>(c: Config<T>)
    requires Enabled(c, CallPop)
    ensures var c' := After(c, CallPop); PopSoFar(c, c') && PopRank(c'.consumer) == 6 && !c'.consumer.PopIdle?
  {
  }

  /** A push left to itself completes: from any state the protocol can reach, at most five enabled steps of the
      producer bring it back to idle, and the consumer is where it was. */
  lemma {:induction false} PushCompletes<T>(c: Config<T>) returns (cs: seq<Config<T>>, steps: seq<Step<T>>)
    requires Inv(c)
    ensures |cs| == |steps| + 1 && |steps| <= PushRank(c.producer) <= 5
    ensures cs[0] == c && cs[|steps|].producer.PushIdle?
    ensures forall k :: 0 <= k < |steps| ==> OfPush(steps[k]) && Enabled(cs[k], steps[k]) && cs[k + 1] == After(cs[k], steps[k])
    ensures cs[|steps|].consumer == c.consumer && cs[|steps|].popped == c.popped
    decreases PushRank(c.producer)
  {
    hide Inv, After, Enabled, PushRank, OfPush;
    if c.producer.PushIdle? {
      PushRanks(c.producer);
      cs, steps := [c], [];
    } else {
      var s := PushNext(c);
      StepKeeps(c, s);
      cs, steps := PushCompletes(After(c, s));
      cs, steps := [c] + cs, [s] + steps;
    }
  }

  lemma PushRanks<T>(p: Producer<T>)
    ensures PushRank(p) <= 5
  {
  }

  lemma PushNext<T>(c: Config<T>) returns (s: Step<T>)
    requires Inv(c) && !c.producer.PushIdle?
    ensures OfPush(s) && Enabled(c, s) && PushRank(After(c, s).producer) < PushRank(c.producer) <= 5
    ensures After(c, s).consumer == c.consumer && After(c, s).popped == c.popped
  {
    hide RingInv, Minus, And;
    InvFits(c);
    match c.producer
    case PushStart(_) => s := CheckFull;
    case PushReload(_, _) => s := ReloadPop(|c.popped|);
    case PushWrite(_, _) => Index(c, |c.pushed|); s := Construct;
    case PushPublish(_, _) => s := PublishPush;
    case PushReturn(_, _) => s := ReturnPush;
  }

  /** A pop left to itself completes, in at most six steps. */
  lemma {:induction false} PopCompletes<T>(c: Config<T>) returns (cs: seq<Config<T>>, steps: seq<Step<T>>)
    requires Inv(c)
    ensures |cs| == |steps| + 1 && |steps| <= PopRank(c.consumer) <= 6
    ensures cs[0] == c && cs[|steps|].consumer.PopIdle?
    ensures forall k :: 0 <= k < |steps| ==> OfPop(steps[k]) && Enabled(cs[k], steps[k]) && cs[k + 1] == After(cs[k], steps[k])
    ensures cs[|steps|].producer == c.producer && cs[|steps|].pushed == c.pushed
    decreases PopRank(c.consumer)
  {
    hide Inv, After, Enabled, PopRank, OfPop;
    if c.consumer.PopIdle? {
      PopRanks(c.consumer);
      cs, steps := [c], [];
    } else {
      var s := PopNext(c);
      StepKeeps(c, s);
      cs, steps := PopCompletes(After(c, s));
      cs, steps := [c] + cs, [s] + steps;
    }
  }

  lemma PopRanks<T>(c: Consumer<T>)
    ensures PopRank(c) <= 6
  {
  }

  lemma PopNext<T>(c: Config<T>) returns (s: Step<T>)
    requires Inv(c) && !c.consumer.PopIdle?
    ensures OfPop(s) && Enabled(c, s) && PopRank(After(c, s).consumer) < PopRank(c.consumer) <= 6
    ensures After(c, s).producer == c.producer && After(c, s).pushed == c.pushed
  {
    hide Minus, And;
    InvFits(c);
    match c.consumer
    case PopStart => s := CheckEmpty;
    case PopReload(_) => s := ReloadPush(|c.pushed|);
    case PopRead(_) =>
      Index(c, |c.popped|);
      assert c.ring[Mod(|c.popped|, c.capacity)] == Expected(c, |c.popped|);
      s := MoveOut;
    case PopDestroy(_, _) => Index(c, |c.popped|); s := Destroy;
    case PopPublish(_, _) => s := PublishPop;
    case PopReturn(_) => s := ReturnPop;
    case PopEmpty => s := ReturnPop;
  }
}
