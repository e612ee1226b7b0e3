/** include/SPSCQueue.h as an object: `push` and `pop` run to completion, statement by statement. Their
    effect is the uninterrupted sequence of the steps of Spsc, whose invariant they inherit. */
module SpscObject {
  import opened Cursors
  import opened Spsc

  class SpscQueue<T> {
    const capacity: nat
    const ring: array<Slot<T>>
    var pushCursor: nat
    var popCursor: nat
    var pushCursorCached: nat
    var popCursorCached: nat

    ghost var pushed: seq<T>
    ghost var popped: seq<T>
    ghost var pushSeen: nat
    ghost var popSeen: nat

    /** The state with both threads outside push and pop. */
    ghost function State(): Config<T>
      reads this, ring
    {
      Config(capacity, ring[..], pushCursor, popCursor, pushCursorCached, popCursorCached, PushIdle, PopIdle,
             pushed, popped, pushSeen, popSeen)
    }

    ghost predicate Valid()
      reads this, ring
    {
      Inv(State())
    }

    /** The queued values, oldest first. */
    ghost function Contents(): seq<T>
      requires Valid()
      reads this, ring
    {
      InRing(State())
    }

    constructor (capacity: nat)
      requires Capacity(capacity)
      ensures Valid() && Contents() == [] && this.capacity == capacity && fresh(ring)
    {
      this.capacity := capacity;
      ring := new Slot<T>[capacity](_ => Raw);
      pushCursor, popCursor, pushCursorCached, popCursorCached := 0, 0, 0, 0;
      pushed, popped, pushSeen, popSeen := [], [], 0, 0;
      new;
      hide Inv, InRing;
      InitInv(State());
      InRingIs(State());
    }

    /** `size()` outside push and pop: the wrapped cursor difference is the number of queued values. */
    function Size(): (n: nat)
      requires Valid()
      reads this, ring
      ensures n == |Contents()| <= capacity
    {
      InvFits(State());
      WrappedDifference(|pushed|, |popped|);
      InRingIs(State());
      Minus(pushCursor, popCursor)
    }

    /** Appends, or returns false exactly when capacity values are queued. */
    method Push(value: T) returns (ok: bool)
      requires Valid()
      modifies this, ring
      ensures Valid()
      ensures ok <==> |old(Contents())| < capacity
      ensures Contents() == if ok then old(Contents()) + [value] else old(Contents())
    {
      hide InRing, Inv, RingInv, CursorInv, ProducerInv, ConsumerInv, After, FullTest, Minus, And, Mod, Expected;
      ghost var c := State();
      InRingIs(c);
      PushRun(c, value);
      if capacity == 0 {
        return false;
      }
      var cursor := pushCursor;
      if FullTest(cursor, popCursorCached, capacity) {
        popCursorCached := popCursor;
        popSeen := |popped|;
        if FullTest(cursor, popCursorCached, capacity) {
          InRingIs(State());
          return false;
        }
      }
      var idx := And(cursor, Mask(capacity));
      ring[idx] := Full(value);
      pushCursor := (cursor + 1) % WRAP;
      pushed := pushed + [value];
      ok := true;
      assert ring[..] == c.ring[idx := Full(value)];
      assert State() == Pushed(c, value, popSeen);
      InRingIs(State());
    }

    /** Removes the oldest value, or returns false exactly when nothing is queued. */
    method Pop() returns (ok: bool, value: Slot<T>)
      requires Valid()
      modifies this, ring
      ensures Valid()
      ensures ok <==> old(Contents()) != []
      ensures ok ==> value == Full(old(Contents())[0]) && Contents() == old(Contents())[1..]
      ensures !ok ==> Contents() == old(Contents())
    {
      hide InRing, Inv, RingInv, CursorInv, ProducerInv, ConsumerInv, After, And, Mod, Expected;
      ghost var c := State();
      InRingIs(c);
      PopRun(c);
      var cursor := popCursor;
      if pushCursorCached == cursor {
        pushCursorCached := pushCursor;
        pushSeen := |pushed|;
        if pushCursorCached == cursor {
          InRingIs(State());
          return false, Raw;
        }
      }
      var idx := And(cursor, Mask(capacity));
      value := ring[idx];
      ring[idx] := MovedFrom;
      ring[idx] := Raw;
      popCursor := (cursor + 1) % WRAP;
      popped := popped + [value.value];
      ok := true;
      assert ring[..] == c.ring[idx := Raw];
      assert State() == Popped(c, pushSeen, value.value);
      InRingIs(State());
    }
  }

  /** The state after a successful push of x, given what the thread then has seen of the pop cursor. */
  ghost function Pushed<T>(c: Config<T>, x: T, seen: nat): Config<T> {
    c.(ring := if And(c.pushCursor, Mask(c.capacity)) < |c.ring| then c.ring[And(c.pushCursor, Mask(c.capacity)) := Full(x)] else c.ring,
       popCached := seen % WRAP, popSeen := seen,
       pushCursor := (c.pushCursor + 1) % WRAP, pushed := c.pushed + [x])
  }

  /** All that an uninterrupted push can do, step by step. */
  lemma PushRun<T>(c: Config<T>, x: T)
    requires Inv(c) && c.producer.PushIdle?
    ensures CursorsFit(c) && c.popCached == c.popSeen % WRAP && c.popCursor == |c.popped| % WRAP
    ensures c.capacity == 0 ==> |c.pushed| == |c.popped|
    ensures c.capacity > 0 ==>
      && And(c.pushCursor, Mask(c.capacity)) < |c.ring|
      && (!FullTest(c.pushCursor, c.popCached, c.capacity) ==>
            Inv(Pushed(c, x, c.popSeen)) && |c.pushed| - |c.popped| < c.capacity)
      && (FullTest(c.pushCursor, c.popCursor, c.capacity) ==> |c.pushed| - |c.popped| == c.capacity)
      && (!FullTest(c.pushCursor, c.popCursor, c.capacity) ==> Inv(Pushed(c, x, |c.popped|)) && |c.pushed| - |c.popped| < c.capacity)
      && Inv(c.(popCached := c.popCursor, popSeen := |c.popped|))
  {
    hide RingInv, Expected, And, Mod, Minus;
    InvFits(c);
    if c.capacity > 0 {
      Index(c, |c.pushed|);
      FullTestExact(c, c.popSeen);
      FullTestExact(c, |c.popped|);
      var seen := c.(popCached := c.popCursor, popSeen := |c.popped|);
      IdleRing(c, seen);
      if !FullTest(c.pushCursor, c.popCached, c.capacity) {
        WriteRun(c, x);
      }
      if !FullTest(c.pushCursor, c.popCursor, c.capacity) {
        WriteRun(seen, x);
      }
    }
  }

  lemma WriteRun<T>(c: Config<T>, x: T)
    requires Inv(c) && c.producer.PushIdle? && c.capacity > 0 && |c.pushed| < c.popSeen + c.capacity
    ensures Inv(Pushed(c, x, c.popSeen))
  {
    hide RingInv, Expected;
    Index(c, |c.pushed|);
    InvFits(c);
    var w := c.(producer := PushWrite(x, c.pushCursor));
    IdleRing(c, w);
    StepKeeps(w, Construct);
    var p := After(w, Construct);
    StepKeeps(p, PublishPush);
    var r := After(p, PublishPush);
    StepKeeps(r, ReturnPush);
    assert After(r, ReturnPush) == Pushed(c, x, c.popSeen);
  }

  lemma IdleRing<T>(c: Config<T>, c': Config<T>)
    requires Inv(c)
    requires c'.ring == c.ring && c'.capacity == c.capacity && c'.pushed == c.pushed && c'.popped == c.popped
    requires c'.producer.PushPublish? <==> c.producer.PushPublish?
    requires c.producer.PushPublish? ==> c'.producer.x == c.producer.x
    requires c'.consumer.PopDestroy? <==> c.consumer.PopDestroy?
    requires c'.consumer.PopPublish? <==> c.consumer.PopPublish?
    ensures RingInv(c')
  {
  }

  /** The state after a successful pop. */
  ghost function Popped<T>(c: Config<T>, seen: nat, v: T): Config<T> {
    c.(ring := if And(c.popCursor, Mask(c.capacity)) < |c.ring| then c.ring[And(c.popCursor, Mask(c.capacity)) := Raw] else c.ring,
       pushCached := seen % WRAP, pushSeen := seen,
       popCursor := (c.popCursor + 1) % WRAP, popped := c.popped + [v])
  }

  /** All that an uninterrupted pop can do, step by step. */
  lemma PopRun<T>(c: Config<T>)
    requires Inv(c) && c.consumer.PopIdle?
    ensures CursorsFit(c) && c.pushCached == c.pushSeen % WRAP && c.pushCursor == |c.pushed| % WRAP
    ensures c.pushCached != c.popCursor ==> |c.popped| < |c.pushed| && Readable(c, c.pushSeen)
    ensures c.pushCursor == c.popCursor ==> |c.popped| == |c.pushed|
    ensures c.pushCursor != c.popCursor ==> |c.popped| < |c.pushed| && Readable(c, |c.pushed|)
    ensures Inv(c.(pushCached := c.pushCursor, pushSeen := |c.pushed|))
  {
    hide RingInv, Expected, And, Mod, Minus;
    InvFits(c);
    EmptyTestExact(c, c.pushSeen);
    EmptyTestExact(c, |c.pushed|);
    var seen := c.(pushCached := c.pushCursor, pushSeen := |c.pushed|);
    IdleRing(c, seen);
    if c.pushCached != c.popCursor {
      ReadRun(c);
    }
    if c.pushCursor != c.popCursor {
      ReadRun(seen);
    }
  }

  /** The slot at the pop cursor holds the oldest value, and taking it keeps the invariant. */
  ghost predicate Readable<T>(c: Config<T>, seen: nat) {
    && |c.popped| < |c.pushed|
    && And(c.popCursor, Mask(c.capacity)) < |c.ring|
    && c.ring[And(c.popCursor, Mask(c.capacity))] == Full(c.pushed[|c.popped|])
    && Inv(Popped(c, seen, c.pushed[|c.popped|]))
  }

  lemma ReadRun<T>(c: Config<T>)
    requires Inv(c) && c.consumer.PopIdle? && |c.popped| < c.pushSeen
    ensures Readable(c, c.pushSeen)
  {
    ReadSlot(c);
    ReadSteps(c);
  }

  lemma ReadSlot<T>(c: Config<T>)
    requires Inv(c) && c.consumer.PopIdle? && |c.popped| < c.pushSeen
    ensures |c.popped| < |c.pushed|
    ensures And(c.popCursor, Mask(c.capacity)) < |c.ring|
    ensures c.ring[And(c.popCursor, Mask(c.capacity))] == Full(c.pushed[|c.popped|])
  {
    Index(c, |c.popped|);
    assert c.ring[Mod(|c.popped|, c.capacity)] == Expected(c, |c.popped|);
  }

  lemma ReadSteps<T>(c: Config<T>)
    requires Inv(c) && c.consumer.PopIdle? && |c.popped| < c.pushSeen
    requires |c.popped| < |c.pushed| && And(c.popCursor, Mask(c.capacity)) < |c.ring|
    requires c.ring[And(c.popCursor, Mask(c.capacity))] == Full(c.pushed[|c.popped|])
    ensures Inv(Popped(c, c.pushSeen, c.pushed[|c.popped|]))
  {
    hide RingInv, Expected, And, Mod;
    InvFits(c);
    var v := c.pushed[|c.popped|];
    var r := c.(consumer := PopRead(c.popCursor));
    IdleRing(c, r);
    StepKeeps(r, MoveOut);
    var d := After(r, MoveOut);
    StepKeeps(d, Destroy);
    var p := After(d, Destroy);
    StepKeeps(p, PublishPop);
    var q := After(p, PublishPop);
    StepKeeps(q, ReturnPop);
    assert After(q, ReturnPop) == Popped(c, c.pushSeen, v);
  }
}
