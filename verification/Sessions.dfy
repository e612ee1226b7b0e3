/** Runs of messages against the book: include/Protocol.h and the dispatch of src/main.cpp. */
module Sessions {
  import opened BookSpec
  import BookLaws
  import opened BookMeaning

  /** A packet, by message type; `Other` stands for every type the dispatch ignores. */
  datatype Message =
    | AddOrder(id: nat, price: nat, qty: nat, isBuy: bool)
    | CancelOrder(id: nat)
    | ModifyOrder(id: nat, newPrice: nat, newQty: nat)
    | Other

  /** The sizes the engine is built with: ticks, ids, and the bound of the quantity field. */
  datatype Limits = Limits(ticks: nat, maxOrders: nat, maxQty: nat)

  /** What the engine demands of a packet on its own. */
  predicate InRange(m: Message, l: Limits) {
    match m
    case AddOrder(id, price, qty, _) => id < l.maxOrders && qty < l.maxQty && (qty > 0 ==> 0 < price < l.ticks)
    case CancelOrder(id) => id < l.maxOrders
    case ModifyOrder(id, newPrice, newQty) => id < l.maxOrders && newQty < l.maxQty && (newQty > 0 ==> 0 < newPrice < l.ticks)
    case Other => true
  }

  /** What the dispatch of one packet does to the abstract book. */
  function Apply(b: Book, m: Message): Book {
    match m
    case AddOrder(id, price, qty, isBuy) => Add(b, id, price, qty, isBuy)
    case CancelOrder(id) => Cancel(b, id)
    case ModifyOrder(id, newPrice, newQty) => Modify(b, id, newPrice, newQty)
    case Other => b
  }

  /** Sequential processing, oldest packet first. */
  function Replay(b: Book, ms: seq<Message>): Book {
    if ms == [] then b else Apply(Replay(b, ms[..|ms| - 1]), ms[|ms| - 1])
  }

  /** What one packet does to the book, in plain positions, prices and quantities of its own fields. */
  ghost predicate Processes(b: Book, m: Message, b': Book) {
    match m
    case AddOrder(id, price, qty, isBuy) => exists c :: Adds(b, b', id, price, qty, isBuy, c)
    case CancelOrder(id) => Cancels(b, b', id)
    case ModifyOrder(id, newPrice, newQty) => Modifies(b, b', id, newPrice, newQty)
    case Other => b' == b
  }

  /** No id is added twice. */
  ghost predicate DistinctAdds(ms: seq<Message>) {
    forall i, j :: 0 <= i < j < |ms| && ms[i].AddOrder? && ms[j].AddOrder? ==> ms[i].id != ms[j].id
  }

  /** The arrival streams the engine is built for. */
  ghost predicate GoodStream(ms: seq<Message>, l: Limits) {
    DistinctAdds(ms) && forall i :: 0 <= i < |ms| ==> InRange(ms[i], l)
  }

  /** An id that some packet of the run adds. */
  ghost predicate Added(ms: seq<Message>, id: nat) {
    exists i :: 0 <= i < |ms| && ms[i].AddOrder? && ms[i].id == id
  }

  lemma ReplayStep(b: Book, ms: seq<Message>, m: Message)
    ensures Replay(b, ms + [m]) == Apply(Replay(b, ms), m)
  {
  }

  /** No packet of the run adds an id that is live in the book. */
  ghost predicate FreshFor(b: Book, ms: seq<Message>) {
    forall i :: 0 <= i < |ms| && ms[i].AddOrder? ==> !Live(b, ms[i].id)
  }

  /** Replaying keeps the book well-formed, and a live id was live before or added earlier in the run. */
  lemma {:induction false} ReplayKeeps(b: Book, ms: seq<Message>)
    requires WellFormed(b) && DistinctAdds(ms) && FreshFor(b, ms)
    ensures WellFormed(Replay(b, ms))
    ensures forall id :: Live(Replay(b, ms), id) ==> Live(b, id) || Added(ms, id)
  {
    hide WellFormed, Live, Apply;
    if ms != [] {
      var init, m := ms[..|ms| - 1], ms[|ms| - 1];
      ReplayKeeps(b, init);
      assert forall id :: Added(init, id) ==> Added(ms, id);
      if m.AddOrder? {
        assert !Added(init, m.id);
        assert Added(ms, m.id);
      }
      ApplyKeeps(Replay(b, init), m);
    }
  }

  lemma EmptyIsWellFormed()
    ensures WellFormed(EMPTY) && forall id :: !Live(EMPTY, id)
  {
  }

  /** One packet keeps the book well-formed and makes no id live but the one it adds. */
  lemma ApplyKeeps(b: Book, m: Message)
    requires WellFormed(b) && (m.AddOrder? ==> !Live(b, m.id))
    ensures WellFormed(Apply(b, m))
    ensures forall id :: Live(Apply(b, m), id) ==> Live(b, id) || (m.AddOrder? && m.id == id)
  {
    hide WellFormed, Live, Add, Cancel, Modify;
    match m
    case AddOrder(id, price, qty, isBuy) => BookLaws.AddKeeps(b, id, price, qty, isBuy);
    case CancelOrder(id) => BookLaws.CancelKeeps(b, id);
    case ModifyOrder(id, newPrice, newQty) => BookLaws.ModifyKeeps(b, id, newPrice, newQty);
    case Other =>
  }

  /** The next add of a good stream carries an id that is not live. */
  lemma NextAddIsNew(b: Book, ms: seq<Message>, m: Message)
    requires WellFormed(b) && DistinctAdds(ms + [m]) && FreshFor(b, ms + [m])
    ensures DistinctAdds(ms) && FreshFor(b, ms) && WellFormed(Replay(b, ms))
    ensures m.AddOrder? ==> !Live(Replay(b, ms), m.id)
  {
    hide WellFormed, Live;
    assert forall i :: 0 <= i < |ms| ==> (ms + [m])[i] == ms[i];
    assert (ms + [m])[|ms|] == m;
    assert m.AddOrder? ==> !Added(ms, m.id);
    ReplayKeeps(b, ms);
  }

  // ----- what a packet means -----

  /** Processing a packet has exactly the plain effect of its kind. */
  lemma ApplyMeaning(b: Book, m: Message, b': Book)
    requires WellFormed(b)
    ensures b' == Apply(b, m) <==> Processes(b, m, b')
  {
    hide WellFormed, Adds, Cancels, Modifies, Add, Cancel, Modify;
    match m
    case AddOrder(id, price, qty, isBuy) => AddMeaning(b, b', id, price, qty, isBuy);
    case CancelOrder(id) => CancelMeaning(b, b', id);
    case ModifyOrder(id, newPrice, newQty) => ModifyMeaning(b, b', id, newPrice, newQty);
    case Other =>
  }

  /** One more packet in a run: the book after it has changed by exactly what the packet says. */
  lemma ReplayMeaning(b: Book, ms: seq<Message>, m: Message)
    requires WellFormed(b) && DistinctAdds(ms + [m]) && FreshFor(b, ms + [m])
    ensures Processes(Replay(b, ms), m, Replay(b, ms + [m]))
  {
    hide WellFormed, Live, Apply, Processes, Replay;
    NextAddIsNew(b, ms, m);
    ReplayStep(b, ms, m);
    ApplyMeaning(Replay(b, ms), m, Replay(b, ms + [m]));
  }

  /** A decrease at the end of a run keeps the order's place and changes nothing else. */
  lemma DecreaseInRun(b: Book, ms: seq<Message>, id: nat, newQty: nat, isBuy: bool, k: nat)
    requires WellFormed(b) && DistinctAdds(ms) && FreshFor(b, ms)
    requires RestsAt(Replay(b, ms), id, isBuy, k) && 0 < newQty <= Replay(b, ms).Side(isBuy)[k].qty
    ensures var was := Replay(b, ms);
      var now := Replay(b, ms + [ModifyOrder(id, was.Side(isBuy)[k].price, newQty)]);
      && now.Side(isBuy) == was.Side(isBuy)[k := was.Side(isBuy)[k].(qty := newQty)]
      && now.Side(!isBuy) == was.Side(!isBuy)
  {
    hide WellFormed, Modify, Replay;
    var was := Replay(b, ms);
    var m := ModifyOrder(id, was.Side(isBuy)[k].price, newQty);
    ReplayKeeps(b, ms);
    ReplayStep(b, ms, m);
    BookLaws.DecreaseKeepsPriority(was, id, newQty, isBuy, k);
  }

  /** The engine's preconditions on a stream, spelled out. */
  lemma GoodStreamMeaning(ms: seq<Message>, l: Limits)
    ensures GoodStream(ms, l) <==>
      forall i :: 0 <= i < |ms| ==>
        && (ms[i].AddOrder? ==>
              && ms[i].id < l.maxOrders && ms[i].qty < l.maxQty
              && (ms[i].qty == 0 || 1 <= ms[i].price < l.ticks)
              && forall j :: 0 <= j < i && ms[j].AddOrder? ==> ms[j].id != ms[i].id)
        && (ms[i].CancelOrder? ==> ms[i].id < l.maxOrders)
        && (ms[i].ModifyOrder? ==>
              && ms[i].id < l.maxOrders && ms[i].newQty < l.maxQty
              && (ms[i].newQty == 0 || 1 <= ms[i].newPrice < l.ticks))
  {
  }

  // ----- dropping packets -----

  /** kept is what is left of ms after dropping any packets. */
  ghost predicate Subsequence(kept: seq<Message>, ms: seq<Message>)
    decreases |ms|
  {
    if ms == [] then kept == []
    else
      var init, m := ms[..|ms| - 1], ms[|ms| - 1];
      || Subsequence(kept, init)
      || (kept != [] && kept[|kept| - 1] == m && Subsequence(kept[..|kept| - 1], init))
  }

  lemma {:induction false} SubsequenceOrigin(kept: seq<Message>, ms: seq<Message>, i: nat)
    requires Subsequence(kept, ms) && i < |kept|
    ensures exists j :: 0 <= j < |ms| && ms[j] == kept[i]
    decreases |ms|
  {
    if ms != [] {
      var init := ms[..|ms| - 1];
      if Subsequence(kept, init) {
        SubsequenceOrigin(kept, init, i);
        var j :| 0 <= j < |init| && init[j] == kept[i];
        assert ms[j] == kept[i];
      } else if i == |kept| - 1 {
        assert ms[|ms| - 1] == kept[i];
      } else {
        SubsequenceOrigin(kept[..|kept| - 1], init, i);
        var j :| 0 <= j < |init| && init[j] == kept[..|kept| - 1][i];
        assert ms[j] == kept[i];
      }
    }
  }

  /** Where the kept packets stood: at increasing positions. */
  lemma {:induction false} KeptPositions(kept: seq<Message>, ms: seq<Message>) returns (at: seq<nat>)
    requires Subsequence(kept, ms)
    ensures |at| == |kept|
    ensures forall i :: 0 <= i < |at| ==> at[i] < |ms| && ms[at[i]] == kept[i]
    ensures forall i, j :: 0 <= i < j < |at| ==> at[i] < at[j]
    decreases |ms|
  {
    if ms == [] {
      at := [];
    } else {
      var init := ms[..|ms| - 1];
      if Subsequence(kept, init) {
        at := KeptPositions(kept, init);
      } else {
        at := KeptPositions(kept[..|kept| - 1], init);
        at := at + [|ms| - 1];
      }
    }
  }

  /** A good stream stays good however many packets are dropped from it. */
  lemma {:induction false} DroppingKeepsGood(kept: seq<Message>, ms: seq<Message>, l: Limits)
    requires Subsequence(kept, ms) && GoodStream(ms, l)
    ensures GoodStream(kept, l)
    decreases |ms|
  {
    if ms != [] {
      var init, m := ms[..|ms| - 1], ms[|ms| - 1];
      assert GoodStream(init, l);
      if Subsequence(kept, init) {
        DroppingKeepsGood(kept, init, l);
      } else {
        var k := kept[..|kept| - 1];
        DroppingKeepsGood(k, init, l);
        forall i | 0 <= i < |k| && k[i].AddOrder? && m.AddOrder?
          ensures k[i].id != m.id
        {
          SubsequenceOrigin(k, init, i);
          var j :| 0 <= j < |init| && init[j] == k[i];
          assert ms[j] == k[i];
        }
        assert kept == k + [m];
        forall i | 0 <= i < |kept|
          ensures InRange(kept[i], l)
        {
          assert i < |k| ==> kept[i] == k[i];
        }
      }
    }
  }

  // ----- conservation over whole runs -----

  /** Quantity submitted by a packet, quantity it cancels or reduces, and quantity it trades. */
  datatype Flow = Flow(submitted: nat, withdrawn: nat, traded: nat) {
    function Plus(f: Flow): Flow {
      Flow(submitted + f.submitted, withdrawn + f.withdrawn, traded + f.traded)
    }
  }

  function FlowOf(b: Book, m: Message): Flow {
    match m
    case AddOrder(_, price, qty, isBuy) => Flow(qty, 0, Filled(b, price, qty, isBuy))
    case CancelOrder(id) => Flow(0, BookLaws.QtyOf(b, id), 0)
    case ModifyOrder(id, newPrice, newQty) =>
      if !Live(b, id) then Flow(0, 0, 0)
      else
        var isBuy := Has(b.bids, id);
        var e := Lookup(b.Side(isBuy), id);
        if newPrice != e.price || newQty > e.qty then
          Flow(newQty, e.qty, Filled(Cancel(b, id), newPrice, newQty, isBuy))
        else Flow(0, e.qty - newQty, 0)
    case Other => Flow(0, 0, 0)
  }

  function TotalFlow(b: Book, ms: seq<Message>): Flow {
    if ms == [] then Flow(0, 0, 0)
    else
      var init := ms[..|ms| - 1];
      TotalFlow(b, init).Plus(FlowOf(Replay(b, init), ms[|ms| - 1]))
  }

  /** What a packet submits, withdraws and trades, read off the book before and after it: the quantity it
      brings, the quantity it takes back, and the fall of the side it trades against. */
  ghost predicate Accounts(b: Book, m: Message, b': Book, f: Flow) {
    match m
    case AddOrder(id, price, qty, isBuy) =>
      && f.submitted == qty && f.withdrawn == 0
      && f.traded == Units(b.Side(!isBuy)) - Units(b'.Side(!isBuy))
      && f.traded == qty - BookLaws.Greedy(b.Side(!isBuy), isBuy, price, qty).1
    case CancelOrder(id) =>
      && f.submitted == 0 && f.traded == 0
      && (Unknown(b, id) ==> f.withdrawn == 0)
      && forall isBuy, k: nat :: RestsAt(b, id, isBuy, k) ==> f.withdrawn == b.Side(isBuy)[k].qty
    case ModifyOrder(id, newPrice, newQty) =>
      && (Unknown(b, id) ==> f == Flow(0, 0, 0))
      && forall isBuy, k: nat :: RestsAt(b, id, isBuy, k) ==> ModifyAccounts(b, b', f, newPrice, newQty, isBuy, k)
    case Other => f == Flow(0, 0, 0)
  }

  /** The same for a modify of the order at position k: a replacement brings the new quantity and takes back the
      old one, a decrease takes back the difference. */
  ghost predicate ModifyAccounts(b: Book, b': Book, f: Flow, newPrice: nat, newQty: nat, isBuy: bool, k: nat)
    requires k < |b.Side(isBuy)|
  {
    var e := b.Side(isBuy)[k];
    if newPrice != e.price || newQty > e.qty then
      && f.submitted == newQty && f.withdrawn == e.qty
      && f.traded == Units(b.Side(!isBuy)) - Units(b'.Side(!isBuy))
      && f.traded == newQty - BookLaws.Greedy(b.Side(!isBuy), isBuy, newPrice, newQty).1
    else f == Flow(0, e.qty - newQty, 0)
  }

  lemma AddFlow(b: Book, id: nat, price: nat, qty: nat, isBuy: bool)
    requires WellFormed(b)
    ensures var filled, s := Filled(b, price, qty, isBuy), b.Side(!isBuy);
      && filled == Units(s) - Units(Add(b, id, price, qty, isBuy).Side(!isBuy))
      && filled == qty - BookLaws.Greedy(s, isBuy, price, qty).1
  {
    hide Units, BookLaws.Greedy, Insert, Drop, Liquidity, WellFormed;
    BookLaws.MatchIsGreedy(b, price, qty, isBuy);
    LiquidityBound(b.Side(!isBuy), isBuy, price);
    UnitsAfterDrop(b.Side(!isBuy), Filled(b, price, qty, isBuy));
  }

  lemma ModifyFlow(b: Book, id: nat, newPrice: nat, newQty: nat, isBuy: bool, k: nat)
    requires WellFormed(b) && RestsAt(b, id, isBuy, k)
    ensures ModifyAccounts(b, Modify(b, id, newPrice, newQty), FlowOf(b, ModifyOrder(id, newPrice, newQty)), newPrice, newQty, isBuy, k)
  {
    hide WellFormed, Units, BookLaws.Greedy, Modify, Add, Filled, Without;
    var e := b.Side(isBuy)[k];
    BookLaws.FoundAt(b, id, isBuy, k);
    if newPrice != e.price || newQty > e.qty {
      BookLaws.ReplaceIsCancelThenAdd(b, id, newPrice, newQty, isBuy, k);
      BookLaws.CancelKeeps(b, id);
      RemovesIsCancel(b, Cancel(b, id), id, isBuy, k);
      AddFlow(Cancel(b, id), id, newPrice, newQty, isBuy);
    }
  }

  /** The flow of a packet is what the books before and after it account for. */
  lemma FlowMeaning(b: Book, m: Message)
    requires WellFormed(b)
    ensures Accounts(b, m, Apply(b, m), FlowOf(b, m))
  {
    hide WellFormed, Units, BookLaws.Greedy, RestsAt;
    match m
    case AddOrder(id, price, qty, isBuy) =>
      AddFlow(b, id, price, qty, isBuy);
    case CancelOrder(id) =>
      CancelFlow(b, id);
    case ModifyOrder(id, newPrice, newQty) =>
      ModifyFlows(b, id, newPrice, newQty);
    case Other =>
  }

  lemma CancelFlow(b: Book, id: nat)
    requires WellFormed(b)
    ensures Unknown(b, id) ==> BookLaws.QtyOf(b, id) == 0
    ensures forall isBuy, k: nat :: RestsAt(b, id, isBuy, k) ==> BookLaws.QtyOf(b, id) == b.Side(isBuy)[k].qty
  {
    hide WellFormed;
    if Unknown(b, id) {
      UnknownIsAbsent(b, id);
    }
    forall isBuy, k: nat | RestsAt(b, id, isBuy, k)
      ensures BookLaws.QtyOf(b, id) == b.Side(isBuy)[k].qty
    {
      BookLaws.FoundAt(b, id, isBuy, k);
    }
  }

  lemma ModifyFlows(b: Book, id: nat, newPrice: nat, newQty: nat)
    requires WellFormed(b)
    ensures var m := ModifyOrder(id, newPrice, newQty); Accounts(b, m, Apply(b, m), FlowOf(b, m))
  {
    hide WellFormed, ModifyAccounts, FlowOf, Modify;
    if Unknown(b, id) {
      UnknownFlow(b, id, newPrice, newQty);
    }
    forall isBuy, k: nat | RestsAt(b, id, isBuy, k)
      ensures ModifyAccounts(b, Modify(b, id, newPrice, newQty), FlowOf(b, ModifyOrder(id, newPrice, newQty)), newPrice, newQty, isBuy, k)
    {
      ModifyFlow(b, id, newPrice, newQty, isBuy, k);
    }
  }

  lemma UnknownFlow(b: Book, id: nat, newPrice: nat, newQty: nat)
    requires Unknown(b, id)
    ensures FlowOf(b, ModifyOrder(id, newPrice, newQty)) == Flow(0, 0, 0)
  {
    UnknownIsAbsent(b, id);
  }

  /** The flows of a run, added up. */
  function Sum(fs: seq<Flow>): Flow {
    if fs == [] then Flow(0, 0, 0)
    else
      var total, last := Sum(fs[..|fs| - 1]), fs[|fs| - 1];
      Flow(total.submitted + last.submitted, total.withdrawn + last.withdrawn, total.traded + last.traded)
  }

  /** The ledger of a run: the books before and after each packet and the flow of each packet. */
  ghost predicate Ledger(b: Book, ms: seq<Message>, bs: seq<Book>, fs: seq<Flow>) {
    && |bs| == |ms| + 1 && |fs| == |ms| && bs[0] == b
    && (forall i :: 0 <= i < |ms| ==> Processes(bs[i], ms[i], bs[i + 1]))
    && (forall i :: 0 <= i < |ms| ==> Accounts(bs[i], ms[i], bs[i + 1], fs[i]))
  }

  /** Every run has a ledger, which ends with the replayed book and adds up to the flow of the run. */
  lemma {:induction false} RunLedger(b: Book, ms: seq<Message>) returns (bs: seq<Book>, fs: seq<Flow>)
    requires WellFormed(b) && DistinctAdds(ms) && FreshFor(b, ms)
    ensures Ledger(b, ms, bs, fs)
    ensures bs[|ms|] == Replay(b, ms) && Sum(fs) == TotalFlow(b, ms)
  {
    hide WellFormed, Processes, Accounts, FlowOf, Apply;
    if ms == [] {
      bs, fs := [b], [];
    } else {
      var init, m := ms[..|ms| - 1], ms[|ms| - 1];
      assert ms == init + [m];
      bs, fs := RunLedger(b, init);
      var was := Replay(b, init);
      NextAddIsNew(b, init, m);
      ApplyMeaning(was, m, Apply(was, m));
      FlowMeaning(was, m);
      assert (fs + [FlowOf(was, m)])[..|fs|] == fs;
      bs, fs := bs + [Apply(was, m)], fs + [FlowOf(was, m)];
    }
  }

  lemma ApplyConserves(b: Book, m: Message)
    requires WellFormed(b)
    ensures var f := FlowOf(b, m);
            BookLaws.RestingUnits(b) + f.submitted == BookLaws.RestingUnits(Apply(b, m)) + f.withdrawn + 2 * f.traded
  {
    hide WellFormed, Add, Cancel, Filled, BookLaws.RestingUnits, Resize;
    match m
    case AddOrder(id, price, qty, isBuy) => BookLaws.AddConserves(b, id, price, qty, isBuy);
    case CancelOrder(id) => BookLaws.CancelConserves(b, id);
    case ModifyOrder(id, newPrice, newQty) =>
      BookLaws.CancelConserves(b, id);
      if Live(b, id) {
        var isBuy := BookLaws.LiveSide(b, id);
        LookupIsQty(b, id, isBuy);
        BookLaws.AddConserves(Cancel(b, id), id, newPrice, newQty, isBuy);
        ResizeConserves(b, id, newQty, isBuy);
      }
    case Other =>
  }

  lemma LookupIsQty(b: Book, id: nat, isBuy: bool)
    requires Live(b, id) && isBuy == Has(b.bids, id)
    ensures Has(b.Side(isBuy), id) && BookLaws.QtyOf(b, id) == Lookup(b.Side(isBuy), id).qty
  {
  }

  lemma ResizeConserves(b: Book, id: nat, qty: nat, isBuy: bool)
    requires WellFormed(b) && Has(b.Side(isBuy), id)
    ensures BookLaws.RestingUnits(b.With(isBuy, Resize(b.Side(isBuy), id, qty))) ==
            BookLaws.RestingUnits(b) - Lookup(b.Side(isBuy), id).qty + qty
  {
    hide Units, Resize, Lookup;
    BookLaws.UnitsResize(b.Side(isBuy), id, qty);
  }

  /** Over every run from the empty book: submitted = resting + cancelled or reduced + 2 x traded, where the
      three add up what the ledger of the run accounts for, packet by packet. */
  lemma QuantityIsConserved(ms: seq<Message>) returns (bs: seq<Book>, fs: seq<Flow>)
    requires DistinctAdds(ms)
    ensures Ledger(Book([], []), ms, bs, fs)
    ensures bs[|ms|] == Replay(EMPTY, ms) && Sum(fs) == TotalFlow(EMPTY, ms)
    ensures Sum(fs).submitted == Units(bs[|ms|].bids) + Units(bs[|ms|].asks) + Sum(fs).withdrawn + 2 * Sum(fs).traded
  {
    hide Ledger, Replay, TotalFlow, Sum, WellFormed;
    EmptyIsWellFormed();
    bs, fs := RunLedger(EMPTY, ms);
    RunConserves(ms);
  }

  lemma {:induction false} RunConserves(ms: seq<Message>)
    requires DistinctAdds(ms)
    ensures var f := TotalFlow(EMPTY, ms);
            f.submitted == BookLaws.RestingUnits(Replay(EMPTY, ms)) + f.withdrawn + 2 * f.traded
  {
    hide FlowOf, Apply;
    if ms != [] {
      var init := ms[..|ms| - 1];
      RunConserves(init);
      EmptyIsWellFormed();
      ReplayKeeps(EMPTY, init);
      ApplyConserves(Replay(EMPTY, init), ms[|ms| - 1]);
    }
  }
}
