/** What the occupied levels say about the flat book: where its head is, when nothing crosses, and that
    the pool cannot be exhausted. */
module Occupancy {
  import opened BookSpec
  import BookLaws
  import Rungs
  import opened OrderStore
  import opened StoreMoves
  import PriceBits

  /** The prices at which orders rest. */
  ghost function NonEmpty(queues: seq<seq<Order>>): set<nat> {
    set p | 0 <= p < |queues| && queues[p] != []
  }

  lemma NonEmptyUpdate(queues: seq<seq<Order>>, p: nat, q: seq<Order>)
    requires p < |queues|
    ensures NonEmpty(queues[p := q]) == if q == [] then NonEmpty(queues) - {p} else NonEmpty(queues) + {p}
  {
  }

  /** The cached total, the head and the queue agree on emptiness. */
  lemma EmptyLevel(s: Store, isBuy: bool, p: nat)
    requires StoreOk(s) && p < |s.Side(isBuy).queues|
    ensures p < |s.Side(isBuy).levels|
    ensures var level, q := s.Side(isBuy).levels[p], s.Side(isBuy).queues[p];
            && (level.total == 0 <==> q == [])
            && (level.head == null <==> q == [])
            && (q != [] ==> level.head == q[0])
  {
  }

  /** Every order of the flat queue rests on an occupied level of its price. */
  lemma SideOrigin(s: Store, isBuy: bool, i: nat)
    requires StoreOk(s) && i < |AbsSide(s, isBuy)|
    ensures AbsSide(s, isBuy)[i].price in NonEmpty(s.Side(isBuy).queues)
    ensures AbsSide(s, isBuy)[i].price > 0 && 0 < AbsSide(s, isBuy)[i].qty < MAX_QTY
  {
    hide StoreOk, Linked, Resting;
    SideCells(s, isBuy);
    var queues := s.Side(isBuy).queues;
    var r, k := Rungs.FlattenOrigin(RungsOf(s.cells, queues, isBuy), i);
    var p := Rungs.RungPrice(isBuy, |queues|, r);
    assert |queues[p]| > 0;
    QueuedData(s, isBuy, p, k);
  }

  lemma QueuedData(s: Store, isBuy: bool, p: nat, k: nat)
    requires StoreOk(s) && p < |s.Side(isBuy).queues| && k < |s.Side(isBuy).queues[p]|
    ensures var o := s.Side(isBuy).queues[p][k];
            && o in s.cells && s.cells[o].price == p && s.cells[o].isBuy == isBuy
            && 0 < s.cells[o].quantity < MAX_QTY && 0 < p
            && s.cells[o].id < |s.table| && s.table[s.cells[o].id] == o
  {
    hide Linked, PoolOk, Tabled, LevelOk;
    LadderCells(s.cells, s.table, s.Side(isBuy), isBuy);
    assert Resting(s.cells, s.table, s.Side(isBuy).queues[p][k], isBuy, p);
  }

  /** The best occupied price of a side, or its "none" value. */
  ghost predicate IsBest(isBuy: bool, prices: set<nat>, v: nat) {
    if isBuy then PriceBits.IsHighest(prices, v) else PriceBits.IsLowest(prices, v)
  }

  /** Level p is occupied and no occupied level is better. */
  ghost predicate BestLevel(queues: seq<seq<Order>>, isBuy: bool, p: nat) {
    && p < |queues| && queues[p] != []
    && forall q :: q in NonEmpty(queues) ==> NoWorse(isBuy, p, q)
  }

  /** The head of the flat queue is the head of the best level. */
  lemma BestIsHead(s: Store, isBuy: bool, best: nat)
    requires StoreOk(s)
    requires BestLevel(s.Side(isBuy).queues, isBuy, best)
    ensures s.Side(isBuy).queues[best][0] in s.cells
    ensures AbsSide(s, isBuy) != []
    ensures var c := s.cells[s.Side(isBuy).queues[best][0]];
            AbsSide(s, isBuy)[0] == Entry(c.id, c.price, c.quantity)
  {
    hide StoreOk, Linked, Resting;
    SideCells(s, isBuy);
    var queues := s.Side(isBuy).queues;
    var rungs: seq<seq<Entry>> := RungsOf(s.cells, queues, isBuy);
    var r := if isBuy then |queues| - 1 - best else best;
    forall q | 0 <= q < r
      ensures rungs[q] == []
    {
      assert Rungs.RungPrice(isBuy, |queues|, q) !in NonEmpty(queues);
    }
    assert rungs[r] == Entries(s.cells, queues[best]);
    Rungs.FlattenHead(rungs, r);
  }

  /** When the limit does not reach the best price, nothing can trade. */
  lemma NoCrossing(s: Store, isBuy: bool, limit: nat, best: nat)
    requires StoreOk(s) && IsBest(!isBuy, NonEmpty(s.Side(!isBuy).queues), best)
    requires !Crosses(isBuy, limit, best)
    ensures Liquidity(AbsSide(s, !isBuy), isBuy, limit) == 0
  {
    hide StoreOk;
    var side := AbsSide(s, !isBuy);
    forall i | 0 <= i < |side|
      ensures !Crosses(isBuy, limit, side[i].price)
    {
      SideOrigin(s, !isBuy, i);
    }
    NoLiquidity(side, isBuy, limit);
  }

  /** Both flat queues are in price-time order with positive quantities. */
  lemma SidesSorted(s: Store, isBuy: bool)
    requires StoreOk(s)
    ensures Sorted(AbsSide(s, isBuy), isBuy) && Positive(AbsSide(s, isBuy))
  {
    hide StoreOk;
    SideCells(s, isBuy);
    RungsPriced(s, isBuy);
    Rungs.FlattenSorted(RungsOf(s.cells, s.Side(isBuy).queues, isBuy), isBuy);
    forall i | 0 <= i < |AbsSide(s, isBuy)|
      ensures AbsSide(s, isBuy)[i].qty > 0
    {
      SideOrigin(s, isBuy, i);
    }
  }

  lemma SideUnique(s: Store, isBuy: bool)
    requires StoreOk(s)
    ensures UniqueIds(AbsSide(s, isBuy))
  {
    hide StoreOk, Rungs.OnlyAt;
    SideCells(s, isBuy);
    var queues := s.Side(isBuy).queues;
    var rungs: seq<seq<Entry>> := RungsOf(s.cells, queues, isBuy);
    forall r: nat, k: nat | r < |rungs| && k < |rungs[r]|
      ensures Rungs.OnlyAt(rungs, r, k)
    {
      LadderLengths(s, isBuy);
      RungsOnly(s, isBuy, Rungs.RungPrice(isBuy, |queues|, r), k, r);
    }
    Rungs.FlattenUnique(rungs);
  }

  lemma LadderLengths(s: Store, isBuy: bool)
    requires StoreOk(s)
    ensures |s.Side(isBuy).levels| == |s.Side(isBuy).queues|
  {
  }

  /** A queued order is an entry of the flat queue. */
  lemma QueuedEntry(s: Store, isBuy: bool, p: nat, k: nat)
    requires StoreOk(s) && p < |s.Side(isBuy).queues| && k < |s.Side(isBuy).queues[p]|
    ensures s.Side(isBuy).queues[p][k] in s.cells
    ensures var c := s.cells[s.Side(isBuy).queues[p][k]];
            Entry(c.id, c.price, c.quantity) in AbsSide(s, isBuy)
  {
    hide StoreOk;
    SideCells(s, isBuy);
    var queues := s.Side(isBuy).queues;
    var rungs: seq<seq<Entry>> := RungsOf(s.cells, queues, isBuy);
    var r := if isBuy then |queues| - 1 - p else p;
    Rungs.FlattenSplit(rungs, r);
    assert rungs[r][k] in rungs[r];
  }

  /** Where the table points: the position of a live order. */
  lemma Locate(s: Store, id: nat) returns (k: nat)
    requires StoreOk(s) && id < |s.table| && s.table[id] != null
    ensures s.table[id] in s.cells
    ensures var o := s.table[id];
            && s.cells[o].id == id
            && Queued(s, s.cells[o].isBuy, s.cells[o].price, k)
            && s.Side(s.cells[o].isBuy).queues[s.cells[o].price][k] == o
  {
    assert Tabled(s, id);
    var o := s.table[id];
    var q := s.Side(s.cells[o].isBuy).queues[s.cells[o].price];
    k :| 0 <= k < |q| && q[k] == o;
  }

  /** The id table knows exactly the ids of the flat book. */
  lemma TableKnowsBook(s: Store, id: nat)
    requires StoreOk(s) && id < |s.table|
    ensures s.table[id] != null <==> Live(Abs(s), id)
    ensures s.table[id] != null ==>
              && s.table[id] in s.cells
              && var c := s.cells[s.table[id]];
                 && Entry(id, c.price, c.quantity) in Abs(s).Side(c.isBuy)
                 && !Has(Abs(s).Side(!c.isBuy), id)
  {
    hide StoreOk, Linked, Resting;
    if s.table[id] != null {
      var k := Locate(s, id);
      var c := s.cells[s.table[id]];
      QueuedEntry(s, c.isBuy, c.price, k);
      if Has(Abs(s).Side(!c.isBuy), id) {
        var i :| 0 <= i < |AbsSide(s, !c.isBuy)| && AbsSide(s, !c.isBuy)[i].id == id;
        var p, j := EntryOrigin(s, !c.isBuy, i);
        RestingIds(s, c.isBuy, c.price, k, !c.isBuy, p, j);
      }
    } else if Live(Abs(s), id) {
      var isBuy := Has(Abs(s).bids, id);
      var i :| 0 <= i < |AbsSide(s, isBuy)| && AbsSide(s, isBuy)[i].id == id;
      var p, j := EntryOrigin(s, isBuy, i);
      QueuedData(s, isBuy, p, j);
    }
  }

  lemma {:induction false} LookupUnique(s: seq<Entry>, e: Entry)
    requires UniqueIds(s) && e in s
    ensures Has(s, e.id) && Lookup(s, e.id) == e
  {
  }

  /** What `order->is_buy`, `order->price` and `order->quantity` say is what the book says. */
  lemma KnownOrder(s: Store, id: nat)
    requires StoreOk(s) && id < |s.table| && s.table[id] != null
    ensures s.table[id] in s.cells
    ensures var c := s.cells[s.table[id]];
      && Live(Abs(s), id)
      && Has(Abs(s).bids, id) == c.isBuy
      && Has(Abs(s).Side(c.isBuy), id)
      && Lookup(Abs(s).Side(c.isBuy), id) == Entry(id, c.price, c.quantity)
  {
    hide StoreOk, AbsSide;
    TableKnowsBook(s, id);
    var c := s.cells[s.table[id]];
    SideUnique(s, c.isBuy);
    LookupUnique(Abs(s).Side(c.isBuy), Entry(id, c.price, c.quantity));
  }

  lemma EntryOrigin(s: Store, isBuy: bool, i: nat) returns (p: nat, k: nat)
    requires StoreOk(s) && i < |AbsSide(s, isBuy)|
    ensures p < |s.Side(isBuy).queues| && k < |s.Side(isBuy).queues[p]|
    ensures var o := s.Side(isBuy).queues[p][k];
            o in s.cells && AbsSide(s, isBuy)[i] == Entry(s.cells[o].id, s.cells[o].price, s.cells[o].quantity)
  {
    hide StoreOk, Linked, Resting;
    SideCells(s, isBuy);
    var r;
    r, k := Rungs.FlattenOrigin(RungsOf(s.cells, s.Side(isBuy).queues, isBuy), i);
    p := Rungs.RungPrice(isBuy, |s.Side(isBuy).queues|, r);
  }

  // ----- one trade -----

  /** The memory after the head of level p has traded against an incoming quantity. */
  ghost function Traded(s: Store, isBuy: bool, p: nat, incoming: nat): Store
    requires StoreOk(s) && Queued(s, isBuy, p, 0) && incoming > 0
  {
    QueuedOrder(s, isBuy, p, 0);
    var quantity := s.cells[s.Side(isBuy).queues[p][0]].quantity;
    if quantity <= incoming then Removed(s, isBuy, p, 0, 0) else Resized(s, isBuy, p, 0, quantity - incoming)
  }

  /** A trade at the best level takes the traded units off the front of the flat queue and touches no
      other level. */
  lemma TradedOk(s: Store, isBuy: bool, p: nat, incoming: nat)
    requires StoreOk(s) && Queued(s, isBuy, p, 0) && incoming > 0
    requires BestLevel(s.Side(isBuy).queues, isBuy, p)
    ensures StoreOk(Traded(s, isBuy, p, incoming))
    ensures s.Side(isBuy).queues[p][0] in s.cells
    ensures var t := Min(s.cells[s.Side(isBuy).queues[p][0]].quantity, incoming);
      && 0 < t
      && Abs(Traded(s, isBuy, p, incoming)) == Abs(s).With(isBuy, Drop(Abs(s).Side(isBuy), t))
      && Abs(s).Side(isBuy) != [] && Abs(s).Side(isBuy)[0].price == p && t <= Abs(s).Side(isBuy)[0].qty
  {
    hide StoreOk, LevelOk, Resting, Removed, Resized;
    QueuedOrder(s, isBuy, p, 0);
    QueuedData(s, isBuy, p, 0);
    var c := s.cells[s.Side(isBuy).queues[p][0]];
    BestIsHead(s, isBuy, p);
    SideUnique(s, isBuy);
    Rungs.DropHead(AbsSide(s, isBuy), Min(c.quantity, incoming));
    if c.quantity <= incoming {
      RemovedOk(s, isBuy, p, 0, 0);
    } else {
      ResizedOk(s, isBuy, p, 0, c.quantity - incoming);
    }
  }

  /** What a trade leaves of the level, the table and the sizes. */
  lemma TradedFrame(s: Store, isBuy: bool, p: nat, incoming: nat)
    requires StoreOk(s) && Queued(s, isBuy, p, 0) && incoming > 0
    ensures var s' := Traded(s, isBuy, p, incoming);
      && |s'.table| == |s.table|
      && s'.Side(!isBuy).queues == s.Side(!isBuy).queues
      && |s'.Side(isBuy).queues| == |s.Side(isBuy).queues|
      && (forall q :: 0 <= q < |s.Side(isBuy).queues| && q != p ==> s'.Side(isBuy).queues[q] == s.Side(isBuy).queues[q])
      && (forall id :: 0 <= id < |s.table| ==> s'.table[id] == null || s'.table[id] == s.table[id])
  {
    hide StoreOk, LevelOk, Resting;
    QueuedOrder(s, isBuy, p, 0);
  }

  /** From memory s0, level p has been trading: it is the only level that changed, ids have only left the
      table, and the units taken so far are the first ones of the flat queue, all within the limit. */
  ghost predicate Trading(s0: Store, s: Store, isBuy: bool, p: nat, taken: nat, limit: nat) {
    && StoreOk(s0) && StoreOk(s)
    && |s.table| == |s0.table|
    && p < |s.Side(isBuy).queues| == |s0.Side(isBuy).queues|
    && s.Side(!isBuy).queues == s0.Side(!isBuy).queues
    && (forall q :: 0 <= q < |s.Side(isBuy).queues| && q != p ==> s.Side(isBuy).queues[q] == s0.Side(isBuy).queues[q])
    && (forall id :: 0 <= id < |s.table| ==> s.table[id] == null || s.table[id] == s0.table[id])
    && taken <= Liquidity(Abs(s0).Side(isBuy), !isBuy, limit)
    && Abs(s) == Abs(s0).With(isBuy, Drop(Abs(s0).Side(isBuy), taken))
  }

  lemma TradingStart(s: Store, isBuy: bool, p: nat, limit: nat)
    requires StoreOk(s) && p < |s.Side(isBuy).queues|
    ensures Trading(s, s, isBuy, p, 0, limit)
  {
    hide StoreOk;
  }

  lemma TradingSides(s0: Store, s: Store, isBuy: bool, p: nat, taken: nat, limit: nat)
    requires Trading(s0, s, isBuy, p, taken, limit)
    requires Crosses(!isBuy, limit, p) && Abs(s).Side(isBuy) != [] && Abs(s).Side(isBuy)[0].price == p
    ensures taken + Abs(s).Side(isBuy)[0].qty <= Liquidity(Abs(s0).Side(isBuy), !isBuy, limit)
    ensures forall t: nat :: Drop(Abs(s).Side(isBuy), t) == Drop(Abs(s0).Side(isBuy), taken + t)
  {
    hide StoreOk, Drop;
    var side := Abs(s0).Side(isBuy);
    SidesSorted(s0, isBuy);
    LiquidityAfterDrop(side, !isBuy, limit, taken);
    forall t: nat
      ensures Drop(Drop(side, taken), t) == Drop(side, taken + t)
    {
      DropDrop(side, taken, t);
    }
  }

  lemma StillBest(s0: Store, s: Store, isBuy: bool, p: nat, taken: nat, limit: nat)
    requires Trading(s0, s, isBuy, p, taken, limit)
    requires BestLevel(s0.Side(isBuy).queues, isBuy, p) && s.Side(isBuy).queues[p] != []
    ensures BestLevel(s.Side(isBuy).queues, isBuy, p)
  {
    hide StoreOk, Abs;
  }

  /** One more trade at the best level. */
  lemma TradingStep(s0: Store, s: Store, isBuy: bool, p: nat, taken: nat, limit: nat, incoming: nat)
    requires Trading(s0, s, isBuy, p, taken, limit) && Queued(s, isBuy, p, 0) && incoming > 0
    requires BestLevel(s0.Side(isBuy).queues, isBuy, p)
    requires Crosses(!isBuy, limit, p)
    ensures s.Side(isBuy).queues[p][0] in s.cells
    ensures var t := Min(s.cells[s.Side(isBuy).queues[p][0]].quantity, incoming);
            0 < t && Trading(s0, Traded(s, isBuy, p, incoming), isBuy, p, taken + t, limit)
  {
    hide StoreOk, Drop, Traded, AbsSide;
    StillBest(s0, s, isBuy, p, taken, limit);
    TradedOk(s, isBuy, p, incoming);
    TradedFrame(s, isBuy, p, incoming);
    TradingSides(s0, s, isBuy, p, taken, limit);
  }

  /** From memory s0, any number of levels of one side have been trading. */
  ghost predicate Matching(s0: Store, s: Store, isBuy: bool, taken: nat, limit: nat) {
    && StoreOk(s0) && StoreOk(s)
    && |s.table| == |s0.table|
    && |s.Side(isBuy).queues| == |s0.Side(isBuy).queues|
    && s.Side(!isBuy).queues == s0.Side(!isBuy).queues
    && (forall id :: 0 <= id < |s.table| ==> s.table[id] == null || s.table[id] == s0.table[id])
    && taken <= Liquidity(Abs(s0).Side(isBuy), !isBuy, limit)
    && Abs(s) == Abs(s0).With(isBuy, Drop(Abs(s0).Side(isBuy), taken))
    && (taken == 0 ==> s == s0)
  }

  lemma MatchingStart(s: Store, isBuy: bool, limit: nat)
    requires StoreOk(s)
    ensures Matching(s, s, isBuy, 0, limit)
  {
    hide StoreOk;
  }

  lemma MatchingStep(s0: Store, s1: Store, s2: Store, isBuy: bool, p: nat, n: nat, t: nat, limit: nat)
    requires Matching(s0, s1, isBuy, n, limit) && Trading(s1, s2, isBuy, p, t, limit) && t > 0
    ensures Matching(s0, s2, isBuy, n + t, limit)
  {
    hide StoreOk, Drop, AbsSide;
    var side := Abs(s0).Side(isBuy);
    SidesSorted(s0, isBuy);
    LiquidityAfterDrop(side, !isBuy, limit, n);
    DropDrop(side, n, t);
  }

  /** When matching stops, exactly the fillable quantity has traded. */
  lemma MatchingDone(s0: Store, s: Store, isBuy: bool, taken: nat, limit: nat, qty: nat, best: nat)
    requires Matching(s0, s, !isBuy, taken, limit) && taken <= qty
    requires taken == qty || (IsBest(!isBuy, NonEmpty(s.Side(!isBuy).queues), best) && !Crosses(isBuy, limit, best))
    ensures taken == Filled(Abs(s0), limit, qty, isBuy)
    ensures Abs(s) == Match(Abs(s0), limit, qty, isBuy)
  {
    hide StoreOk, Drop, AbsSide;
    var side := Abs(s0).Side(!isBuy);
    SidesSorted(s0, !isBuy);
    LiquidityAfterDrop(side, isBuy, limit, taken);
    if taken < qty {
      NoCrossing(s, isBuy, limit, best);
    }
  }

  // ----- bitmaps and best prices -----

  /** The bitmaps hold the occupied prices, the cached best prices are their extremes, and the best bid is
      below the best ask. */
  ghost predicate Index(bids: set<nat>, asks: set<nat>, bidQueues: seq<seq<Order>>, askQueues: seq<seq<Order>>,
                        bestBid: nat, bestAsk: nat) {
    && |bidQueues| == |askQueues| <= PriceBits.MAX_CAPACITY
    && bids == NonEmpty(bidQueues)
    && asks == NonEmpty(askQueues)
    && PriceBits.IsHighest(bids, bestBid)
    && PriceBits.IsLowest(asks, bestAsk)
    && bestBid < bestAsk
  }

  /** Level p of one side now holds q, a part of what it held: if it is empty its bit has been cleared and
      both best prices recomputed, otherwise bitmaps and best prices are as before. */
  lemma IndexAfterShrink(bids: set<nat>, asks: set<nat>, bidQueues: seq<seq<Order>>, askQueues: seq<seq<Order>>,
                         bestBid: nat, bestAsk: nat, isBuy: bool, p: nat, q: seq<Order>,
                         bids': set<nat>, asks': set<nat>, bestBid': nat, bestAsk': nat)
    requires Index(bids, asks, bidQueues, askQueues, bestBid, bestAsk)
    requires p < |bidQueues| && (if isBuy then bidQueues else askQueues)[p] != []
    requires bids' == if q == [] && isBuy then bids - {p} else bids
    requires asks' == if q == [] && !isBuy then asks - {p} else asks
    requires q != [] ==> bestBid' == bestBid && bestAsk' == bestAsk
    requires q == [] ==> PriceBits.IsHighest(bids', bestBid') && PriceBits.IsLowest(asks', bestAsk')
    ensures Index(bids', asks', if isBuy then bidQueues[p := q] else bidQueues,
                  if isBuy then askQueues else askQueues[p := q], bestBid', bestAsk')
  {
  }

  /** A new order at a price that does not reach the other side: its bit is set and it may be the new best. */
  lemma IndexAfterJoin(bids: set<nat>, asks: set<nat>, bidQueues: seq<seq<Order>>, askQueues: seq<seq<Order>>,
                       bestBid: nat, bestAsk: nat, isBuy: bool, p: nat, o: Order,
                       bids': set<nat>, asks': set<nat>, bestBid': nat, bestAsk': nat)
    requires Index(bids, asks, bidQueues, askQueues, bestBid, bestAsk)
    requires 0 < p < |bidQueues|
    requires if isBuy then p < bestAsk else bestBid < p
    requires bids' == if isBuy && bidQueues[p] == [] then bids + {p} else bids
    requires asks' == if !isBuy && askQueues[p] == [] then asks + {p} else asks
    requires bestBid' == if isBuy && p > bestBid then p else bestBid
    requires bestAsk' == if !isBuy && p < bestAsk then p else bestAsk
    ensures Index(bids', asks', if isBuy then bidQueues[p := bidQueues[p] + [o]] else bidQueues,
                  if isBuy then askQueues else askQueues[p := askQueues[p] + [o]], bestBid', bestAsk')
  {
    if isBuy {
      NonEmptyUpdate(bidQueues, p, bidQueues[p] + [o]);
    } else {
      NonEmptyUpdate(askQueues, p, askQueues[p] + [o]);
    }
  }

  /** The cached best price is the price of the first order of the flat queue, or the "none" value. */
  lemma BestIsFirst(s: Store, isBuy: bool, best: nat)
    requires StoreOk(s) && IsBest(isBuy, NonEmpty(s.Side(isBuy).queues), best)
    ensures AbsSide(s, isBuy) == [] <==> NonEmpty(s.Side(isBuy).queues) == {}
    ensures AbsSide(s, isBuy) != [] ==> AbsSide(s, isBuy)[0].price == best
  {
    hide StoreOk;
    if AbsSide(s, isBuy) != [] {
      SideOrigin(s, isBuy, 0);
    }
    if NonEmpty(s.Side(isBuy).queues) != {} {
      BestIsHead(s, isBuy, best);
      QueuedData(s, isBuy, best, 0);
    }
  }

  /** The flat book of a well-formed memory with a valid index is well-formed: sorted, positive, with unique
      ids across both sides, and uncrossed. */
  lemma MemoryWellFormed(s: Store, bids: set<nat>, asks: set<nat>, bestBid: nat, bestAsk: nat)
    requires StoreOk(s) && Index(bids, asks, s.bids.queues, s.asks.queues, bestBid, bestAsk)
    ensures WellFormed(Abs(s))
  {
    hide StoreOk, AbsSide;
    SidesSorted(s, true);
    SidesSorted(s, false);
    SideUnique(s, true);
    SideUnique(s, false);
    var b := Abs(s);
    forall i, j | 0 <= i < |b.bids| && 0 <= j < |b.asks|
      ensures b.bids[i].price < b.asks[j].price && b.bids[i].id != b.asks[j].id
    {
      SideOrigin(s, true, i);
      SideOrigin(s, false, j);
      var p, k := EntryOrigin(s, true, i);
      var p', k' := EntryOrigin(s, false, j);
      RestingIds(s, true, p, k, false, p', k');
    }
  }

  // ----- the pool cannot run out -----

  ghost function References(table: seq<Order?>): set<Order> {
    if table == [] then {}
    else
      var last := table[|table| - 1];
      References(table[..|table| - 1]) + if last == null then {} else {last}
  }

  lemma {:induction false} ReferencesCount(table: seq<Order?>)
    ensures |References(table)| <= |table|
    ensures null in table ==> |References(table)| < |table|
    ensures forall o: Order :: o in References(table) <==> o in table
  {
    if table != [] {
      var init, last := table[..|table| - 1], table[|table| - 1];
      ReferencesCount(init);
      assert table == init + [last];
    }
  }

  lemma {:induction false} SubsetCount<T>(a: set<T>, b: set<T>)
    requires a <= b
    ensures |a| <= |b|
  {
    if a != {} {
      var x :| x in a;
      SubsetCount(a - {x}, b - {x});
    }
  }

  /** With as many orders in the pool as ids in the table, an unused id leaves a free order. */
  lemma FreeOrderLeft(s: Store, id: nat)
    requires StoreOk(s) && |s.cells| == |s.table| && id < |s.table| && s.table[id] == null
    ensures s.free != []
  {
    hide StoreOk;
    PoolFacts(s);
    ReferencesCount(s.table);
    assert s.table[id] in s.table;
    forall o | o in s.cells.Keys
      ensures o in References(s.table) || o in s.free
    {
      if LiveOrder(s.cells, s.table, o) {
        assert s.table[s.cells[o].id] in s.table;
      }
    }
    assert |s.cells.Keys| == |s.cells|;
    if s.free == [] {
      SubsetCount(s.cells.Keys, References(s.table));
    }
  }

  /** A level total is at most the pool size times the largest quantity, so it fits `uint64_t`. */
  lemma LevelTotalFits(s: Store, isBuy: bool, p: nat)
    requires StoreOk(s) && p < |s.Side(isBuy).queues| == |s.Side(isBuy).levels|
    ensures s.Side(isBuy).levels[p].total <= |s.cells| * (MAX_QTY - 1)
  {
    var level, q := s.Side(isBuy).levels[p], s.Side(isBuy).queues[p];
    assert LevelOk(s.cells, s.table, level, q, isBuy, p);
    LinkedCells(s.cells, level, q);
    hide Linked;
    forall i | 0 <= i < |q|
      ensures Entries(s.cells, q)[i].qty < MAX_QTY
    {
      assert Resting(s.cells, s.table, q[i], isBuy, p);
    }
    UnitsBound(Entries(s.cells, q), MAX_QTY - 1);
    QueueCount(s.cells, level, q);
    assert |q| * (MAX_QTY - 1) <= |s.cells| * (MAX_QTY - 1);
  }

  lemma {:induction false} UnitsBound(e: seq<Entry>, most: nat)
    requires forall i :: 0 <= i < |e| ==> e[i].qty <= most
    ensures Units(e) <= |e| * most
  {
    if e != [] {
      UnitsBound(e[1..], most);
      assert |e| * most == most + |e[1..]| * most;
    }
  }

  lemma QueueCount(cells: Cells, level: Level, q: seq<Order>)
    requires Linked(cells, level.head, level.tail, q)
    ensures |q| <= |cells|
  {
    DistinctCount(q);
    assert (set o | o in q) <= cells.Keys;
    SubsetCount((set o | o in q), cells.Keys);
  }

  lemma {:induction false} DistinctCount(q: seq<Order>)
    requires Distinct(q)
    ensures |set o | o in q| == |q|
  {
    if q != [] {
      var init, last := q[..|q| - 1], q[|q| - 1];
      DistinctCount(init);
      assert (set o | o in q) == (set o | o in init) + {last};
      assert last !in init;
    }
  }

  // ----- levels and the flat book -----

  /** The orders of one price on the book are the queue of its level, in the same order. */
  lemma LevelAtPrice(s: Store, isBuy: bool, p: nat)
    requires StoreOk(s) && p < |s.Side(isBuy).queues|
    ensures forall i :: 0 <= i < |s.Side(isBuy).queues[p]| ==> s.Side(isBuy).queues[p][i] in s.cells
    ensures BookLaws.AtPrice(AbsSide(s, isBuy), p) == Entries(s.cells, s.Side(isBuy).queues[p])
  {
    hide StoreOk, Linked, Resting, BookLaws.AtPrice;
    SideCells(s, isBuy);
    RungsPriced(s, isBuy);
    var queues := s.Side(isBuy).queues;
    var rungs: seq<seq<Entry>> := RungsOf(s.cells, queues, isBuy);
    var r := if isBuy then |queues| - 1 - p else p;
    var a, c := Rungs.Flatten(rungs[..r]), Rungs.Flatten(rungs[r + 1..]);
    Rungs.FlattenSplit(rungs, r);
    OtherPrices(rungs, isBuy, 0, r, p);
    OtherPrices(rungs, isBuy, r + 1, |rungs|, p);
    assert rungs[0..r] == rungs[..r] && rungs[r + 1..|rungs|] == rungs[r + 1..];
    BookLaws.AtPriceMiddle(a, rungs[r], c, p);
  }

  lemma OtherPrices(rungs: seq<seq<Entry>>, isBuy: bool, lo: nat, hi: nat, p: nat)
    requires Rungs.Priced(rungs, isBuy) && lo <= hi <= |rungs|
    requires forall r :: lo <= r < hi ==> Rungs.RungPrice(isBuy, |rungs|, r) != p
    ensures BookLaws.AtPrice(Rungs.Flatten(rungs[lo..hi]), p) == []
  {
    var s := Rungs.Flatten(rungs[lo..hi]);
    forall i | 0 <= i < |s|
      ensures s[i].price != p
    {
      Rungs.SlicePrices(rungs, isBuy, lo, hi, i);
    }
    BookLaws.NoneAtPrice(s, p);
  }
}
