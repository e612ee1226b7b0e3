/** include/OrderBook.h: the order pool and the order book. Methods follow the source statement by
    statement; the memory they leave is one of the moves of StoreMoves. */
module OrderBooks {
  import opened BookSpec
  import opened BookLaws
  import opened BookMeaning
  import Rungs
  import opened OrderStore
  import opened StoreMoves
  import opened Occupancy
  import opened PriceBits

  /** `OrderPool`: a fixed set of orders and a LIFO free list. */
  class OrderPool {
    const nodes: seq<Order>
    var free: seq<Order>

    constructor (capacity: nat)
      ensures fresh(nodes) && |nodes| == capacity && Distinct(nodes)
      ensures free == nodes
      ensures forall o :: o in nodes ==> o.prev == null && o.next == null
    {
      var pool: seq<Order> := [];
      while |pool| < capacity
        invariant |pool| <= capacity && fresh(pool) && Distinct(pool)
        invariant forall o :: o in pool ==> o.prev == null && o.next == null
      {
        var order := new Order();
        pool := pool + [order];
      }
      nodes := pool;
      free := pool;
    }

    method Allocate() returns (order: Order?)
      modifies `free
      ensures old(free) == [] ==> order == null && free == []
      ensures old(free) != [] ==> order == old(free)[|old(free)| - 1] && free == old(free)[..|old(free)| - 1]
    {
      if free == [] {
        return null;
      }
      order := free[|free| - 1];
      free := free[..|free| - 1];
    }

    method Deallocate(order: Order)
      modifies `free, order`prev, order`next
      ensures order.prev == null && order.next == null && free == old(free) + [order]
    {
      order.prev := null;
      order.next := null;
      free := free + [order];
    }
  }

  /** The elements of one vector of levels. */
  ghost predicate Tagged(levels: seq<PriceLevel>, isBuy: bool) {
    forall i :: 0 <= i < |levels| ==> levels[i].isBuy == isBuy && levels[i].price == i
  }

  /** `std::vector<PriceLevel>(n)`. */
  method NewLevels(n: nat, ghost isBuy: bool) returns (levels: seq<PriceLevel>)
    ensures |levels| == n && fresh(levels) && Tagged(levels, isBuy)
    ensures forall i :: 0 <= i < n ==> LevelOf(levels[i]) == Level(null, null, 0)
  {
    levels := [];
    while |levels| < n
      invariant |levels| <= n && fresh(levels) && Tagged(levels, isBuy)
      invariant forall i :: 0 <= i < |levels| ==> LevelOf(levels[i]) == Level(null, null, 0)
    {
      var level := new PriceLevel(isBuy, |levels|);
      levels := levels + [level];
    }
  }

  /** A store with no order on any level. */
  lemma EmptyStore(s: Store)
    requires |s.bids.queues| == |s.asks.queues| == |s.bids.levels| == |s.asks.levels|
    requires forall p :: 0 <= p < |s.bids.queues| ==> s.bids.queues[p] == [] && s.bids.levels[p] == Level(null, null, 0)
    requires forall p :: 0 <= p < |s.asks.queues| ==> s.asks.queues[p] == [] && s.asks.levels[p] == Level(null, null, 0)
    requires forall id :: 0 <= id < |s.table| ==> s.table[id] == null
    requires Distinct(s.free)
    requires forall o :: o in s.free ==> o in s.cells && s.cells[o].prev == null && s.cells[o].next == null
    requires forall o :: o in s.cells ==> o in s.free
    ensures StoreOk(s) && Abs(s) == EMPTY
    ensures NonEmpty(s.bids.queues) == {} && NonEmpty(s.asks.queues) == {}
  {
    assert forall id :: 0 <= id < |s.table| ==> Tabled(s, id);
    SideCells(s, true);
    SideCells(s, false);
    Rungs.FlattenEmpty(RungsOf(s.cells, s.bids.queues, true));
    Rungs.FlattenEmpty(RungsOf(s.cells, s.asks.queues, false));
  }

  /** The heap holds the spliced cells. */
  lemma SplicedHeap(nodes: seq<Order>, was: Cells, o: Order)
    requires was.Keys == (set x | x in nodes) && o in was
    requires forall x :: x in nodes ==> CellOf(x) == was[x].(prev := if x == was[o].next then was[o].prev else was[x].prev,
                                                             next := if x == was[o].prev then was[o].next else was[x].next)
    ensures CellsOf(nodes) == SplicedCells(was, o)
  {
  }

  /** The neighbours of a queued order are other orders of the pool. */
  lemma Neighbours(s: Store, isBuy: bool, p: nat, k: nat)
    requires StoreOk(s) && Queued(s, isBuy, p, k)
    ensures var o := s.Side(isBuy).queues[p][k];
      && o in s.cells
      && (s.cells[o].prev != null ==> s.cells[o].prev in s.cells && s.cells[o].prev != o)
      && (s.cells[o].next != null ==> s.cells[o].next in s.cells && s.cells[o].next != o)
  {
    hide PoolOk, Tabled, AllResting;
    var q := s.Side(isBuy).queues[p];
    assert LevelOk(s.cells, s.table, s.Side(isBuy).levels[p], q, isBuy, p);
    assert k > 0 ==> q[k - 1] in s.cells && q[k - 1] != q[k];
    assert k + 1 < |q| ==> q[k + 1] in s.cells && q[k + 1] != q[k];
  }

  /** A removal, component by component. */
  lemma RemovedParts(s: Store, isBuy: bool, p: nat, k: nat, z: nat)
    requires StoreOk(s) && Queued(s, isBuy, p, k)
    ensures var o, s' := s.Side(isBuy).queues[p][k], Removed(s, isBuy, p, k, z);
      && o in s.cells && s.cells[o].id < |s.table|
      && s'.cells == RemovedCells(s.cells, o, z)
      && s'.table == s.table[s.cells[o].id := null]
      && s'.free == s.free + [o]
      && s'.Side(!isBuy) == s.Side(!isBuy)
      && s.cells[o].quantity <= s.Side(isBuy).levels[p].total
      && var level := SplicedLevel(s.Side(isBuy).levels[p].(total := s.Side(isBuy).levels[p].total - s.cells[o].quantity), s.cells[o]);
         s'.Side(isBuy).levels == s.Side(isBuy).levels[p := level]
  {
    hide StoreOk, LevelOk, Resting, CutOut, RemovedCells;
    QueuedOrder(s, isBuy, p, k);
    QueuedData(s, isBuy, p, k);
  }

  lemma UpdateTwice<T>(q: seq<T>, p: nat, x: T, y: T)
    requires p < |q|
    ensures q[p := x][p := y] == q[p := y]
  {
  }

  lemma LevelsAt(levels: seq<PriceLevel>)
    ensures |LevelsOf(levels)| == |levels|
    ensures forall i :: 0 <= i < |levels| ==> LevelsOf(levels)[i] == LevelOf(levels[i])
  {
  }

  lemma SameQuantity(cells: Cells, o: Order)
    requires o in cells
    ensures cells[o := cells[o].(quantity := cells[o].quantity)] == cells
  {
  }

  lemma ResizedParts(s: Store, isBuy: bool, p: nat, k: nat, z: nat)
    requires StoreOk(s) && Resizable(s, isBuy, p, k, z)
    ensures var o, s' := s.Side(isBuy).queues[p][k], Resized(s, isBuy, p, k, z);
      && s'.cells == s.cells[o := s.cells[o].(quantity := z)]
      && s'.table == s.table && s'.free == s.free
      && s'.bids.queues == s.bids.queues && s'.asks.queues == s.asks.queues
      && s'.Side(!isBuy) == s.Side(!isBuy)
      && s.cells[o].quantity <= s.Side(isBuy).levels[p].total
      && s'.Side(isBuy).levels == s.Side(isBuy).levels[p := s.Side(isBuy).levels[p].(total := s.Side(isBuy).levels[p].total - (s.cells[o].quantity - z))]
  {
    hide StoreOk, LevelOk;
    QueuedOrder(s, isBuy, p, k);
  }

  /** What the memory invariant says of one level. */
  lemma QueueLinked(s: Store, isBuy: bool, p: nat)
    requires StoreOk(s) && p < |s.Side(isBuy).queues|
    ensures p < |s.Side(isBuy).levels|
    ensures var level, q := s.Side(isBuy).levels[p], s.Side(isBuy).queues[p];
      && Linked(s.cells, level.head, level.tail, q)
      && AllResting(s.cells, s.table, q, isBuy, p)
      && level.total == Units(Entries(s.cells, q))
  {
  }

  /** The head of a level has no predecessor. */
  lemma HeadLinks(s: Store, isBuy: bool, p: nat)
    requires StoreOk(s) && Queued(s, isBuy, p, 0)
    ensures var o := s.Side(isBuy).queues[p][0];
      && o in s.cells && s.cells[o].prev == null && 0 < s.cells[o].quantity
      && s.Side(isBuy).levels[p].head == o
  {
    hide PoolOk, Tabled;
    var q := s.Side(isBuy).queues[p];
    assert LevelOk(s.cells, s.table, s.Side(isBuy).levels[p], q, isBuy, p);
    assert Resting(s.cells, s.table, q[0], isBuy, p);
  }

  /** The heap holds the cells with one quantity changed. */
  lemma QuantityHeap(nodes: seq<Order>, was: Cells, o: Order, z: nat)
    requires was.Keys == (set x | x in nodes) && o in was
    requires forall x :: x in nodes ==> CellOf(x) == if x == o then was[x].(quantity := z) else was[x]
    ensures CellsOf(nodes) == was[o := was[o].(quantity := z)]
  {
  }

  lemma MatchingTable(s0: Store, s: Store, isBuy: bool, taken: nat, limit: nat)
    requires Matching(s0, s, isBuy, taken, limit)
    ensures |s.table| == |s0.table|
    ensures forall id :: 0 <= id < |s.table| ==> s.table[id] == null || s.table[id] == s0.table[id]
    ensures taken == 0 ==> s == s0
  {
    hide StoreOk, Abs;
  }

  lemma BestLevelOccupied(queues: seq<seq<Order>>, isBuy: bool, p: nat)
    requires BestLevel(queues, isBuy, p)
    ensures p < |queues| && queues[p] != []
  {
  }

  /** The cells after o has been filled in. */
  ghost function FilledCells(cells: Cells, o: Order, e: Entry, isBuy: bool): Cells
    requires o in cells
  {
    cells[o := cells[o].(id := e.id, price := e.price, quantity := e.qty, isBuy := isBuy)]
  }

  lemma FilledHeap(nodes: seq<Order>, was: Cells, o: Order, e: Entry, isBuy: bool)
    requires was.Keys == (set x | x in nodes) && o in was
    requires forall x :: x in nodes ==>
               CellOf(x) == if x == o then was[x].(id := e.id, price := e.price, quantity := e.qty, isBuy := isBuy) else was[x]
    ensures CellsOf(nodes) == FilledCells(was, o, e, isBuy)
  {
  }

  lemma FilledAt(cells: Cells, o: Order, e: Entry, isBuy: bool)
    requires o in cells
    ensures FilledCells(cells, o, e, isBuy).Keys == cells.Keys
    ensures FilledCells(cells, o, e, isBuy)[o] == cells[o].(id := e.id, price := e.price, quantity := e.qty, isBuy := isBuy)
  {
  }

  /** The cells after o has been linked behind tail. */
  ghost function AppendedCells(cells: Cells, o: Order, tail: Order?): Cells {
    map x | x in cells ::
      if x == o then cells[x].(prev := tail) else if x == tail then cells[x].(next := o) else cells[x]
  }

  lemma AppendedHeap(nodes: seq<Order>, was: Cells, o: Order, tail: Order?)
    requires was.Keys == (set x | x in nodes) && o in was
    requires forall x :: x in nodes ==>
               CellOf(x) == if x == o then was[x].(prev := tail) else if x == tail then was[x].(next := o) else was[x]
    ensures CellsOf(nodes) == AppendedCells(was, o, tail)
  {
  }

  lemma FillThenAppend(cells: Cells, o: Order, tail: Order?, e: Entry, isBuy: bool)
    requires o in cells && cells[o].next == null && tail != o
    ensures AppendedCells(FilledCells(cells, o, e, isBuy), o, tail) == JoinedCells(cells, o, tail, e, isBuy)
  {
  }

  lemma JoinedSizes(s: Store, e: Entry, isBuy: bool)
    requires Joinable(s, e, isBuy)
    ensures s.free != [] && e.id < |s.table|
    ensures var s' := Joined(s, e, isBuy);
      && |s'.table| == |s.table|
      && |s'.bids.queues| == |s.bids.queues| && |s'.asks.queues| == |s.asks.queues|
      && e.price < |s.Side(isBuy).queues|
      && s'.bids.queues == (if isBuy then s.bids.queues[e.price := s.bids.queues[e.price] + [s.free[|s.free| - 1]]] else s.bids.queues)
      && s'.asks.queues == (if isBuy then s.asks.queues else s.asks.queues[e.price := s.asks.queues[e.price] + [s.free[|s.free| - 1]]])
      && s'.table == s.table[e.id := s.free[|s.free| - 1]]
      && s'.free == s.free[..|s.free| - 1]
  {
    hide JoinedCells;
  }

  lemma CellsCount(nodes: seq<Order>)
    requires Distinct(nodes)
    ensures |CellsOf(nodes)| == |nodes|
  {
    DistinctCount(nodes);
    assert CellsOf(nodes).Keys == (set x | x in nodes);
    assert |CellsOf(nodes)| == |CellsOf(nodes).Keys|;
  }

  lemma JoinedParts(s: Store, e: Entry, isBuy: bool)
    requires Joinable(s, e, isBuy)
    ensures var o, s', p := s.free[|s.free| - 1], Joined(s, e, isBuy), e.price;
      && s'.cells == JoinedCells(s.cells, o, s.Side(isBuy).levels[p].tail, e, isBuy)
      && s'.table == s.table[e.id := o] && s'.free == s.free[..|s.free| - 1]
      && s'.Side(!isBuy) == s.Side(!isBuy)
      && s'.Side(isBuy).levels == s.Side(isBuy).levels[p := JoinedLevel(s.Side(isBuy).levels[p], o, e.qty)]
      && s'.Side(isBuy).queues == s.Side(isBuy).queues[p := s.Side(isBuy).queues[p] + [o]]
  {
    hide JoinedCells;
  }

  /** The top free order has null links and is not the tail of the level it will join. */
  lemma FreeReady(s: Store, e: Entry, isBuy: bool)
    requires StoreOk(s) && Joinable(s, e, isBuy)
    ensures var o, level := s.free[|s.free| - 1], s.Side(isBuy).levels[e.price];
      && o in s.cells && s.cells[o].prev == null && s.cells[o].next == null
      && (level.tail != null ==> level.tail in s.cells && level.tail != o)
      && (level.head == null <==> level.tail == null)
  {
    hide PoolOk, Tabled;
    var o, level, q := s.free[|s.free| - 1], s.Side(isBuy).levels[e.price], s.Side(isBuy).queues[e.price];
    FreeNotQueued(s, isBuy, e.price, o);
    assert LevelOk(s.cells, s.table, level, q, isBuy, e.price);
    TailQueued(s.cells, level, q);
    LinkedCells(s.cells, level, q);
  }

  lemma RemovedSizes(s: Store, isBuy: bool, p: nat, k: nat, z: nat)
    requires StoreOk(s) && Queued(s, isBuy, p, k)
    ensures var s' := Removed(s, isBuy, p, k, z);
      && |s'.table| == |s.table|
      && |s'.bids.queues| == |s.bids.queues|
      && |s'.asks.queues| == |s.asks.queues|
  {
    hide StoreOk;
    QueuedOrder(s, isBuy, p, k);
  }

  lemma EmptyAfterRemoval(s: Store, isBuy: bool, p: nat, k: nat, z: nat)
    requires StoreOk(s) && Queued(s, isBuy, p, k)
    ensures p < |s.bids.queues| == |s.asks.queues| && k < |s.Side(isBuy).queues[p]|
    ensures var s' := Removed(s, isBuy, p, k, z);
      && p < |s'.Side(isBuy).levels|
      && s'.bids.queues == (if isBuy then s.bids.queues[p := CutOut(s.bids.queues[p], k)] else s.bids.queues)
      && s'.asks.queues == (if isBuy then s.asks.queues else s.asks.queues[p := CutOut(s.asks.queues[p], k)])
      && (s'.Side(isBuy).levels[p].total == 0 <==> CutOut(s.Side(isBuy).queues[p], k) == [])
  {
    hide StoreOk, LevelOk, Resting, CutOut, RemovedCells;
    SideCells(s, isBuy);
    QueuedOrder(s, isBuy, p, k);
    RemovedOk(s, isBuy, p, k, z);
    EmptyLevel(Removed(s, isBuy, p, k, z), isBuy, p);
  }

  /** A removal keeps bitmaps and best prices in step when they follow the total it leaves. */
  lemma IndexAfterRemoval(bids: set<nat>, asks: set<nat>, bestBid: nat, bestAsk: nat,
                          s: Store, isBuy: bool, p: nat, k: nat, z: nat, total: nat,
                          bids': set<nat>, asks': set<nat>, bestBid': nat, bestAsk': nat)
    requires StoreOk(s) && Queued(s, isBuy, p, k)
    requires Index(bids, asks, s.bids.queues, s.asks.queues, bestBid, bestAsk)
    requires var levels := Removed(s, isBuy, p, k, z).Side(isBuy).levels; p < |levels| ==> total == levels[p].total
    requires bids' == if total == 0 && isBuy then bids - {p} else bids
    requires asks' == if total == 0 && !isBuy then asks - {p} else asks
    requires total != 0 ==> bestBid' == bestBid && bestAsk' == bestAsk
    requires total == 0 ==> IsHighest(bids', bestBid') && IsLowest(asks', bestAsk')
    ensures var s' := Removed(s, isBuy, p, k, z);
      Index(bids', asks', s'.bids.queues, s'.asks.queues, bestBid', bestAsk')
  {
    hide StoreOk, Removed, CutOut, Index, IsHighest, IsLowest;
    EmptyAfterRemoval(s, isBuy, p, k, z);
    IndexAfterShrink(bids, asks, s.bids.queues, s.asks.queues, bestBid, bestAsk, isBuy, p,
                     CutOut(s.Side(isBuy).queues[p], k), bids', asks', bestBid', bestAsk');
  }

  lemma CellsAt(nodes: seq<Order>)
    ensures CellsOf(nodes).Keys == (set x | x in nodes)
    ensures forall x :: x in nodes ==> CellsOf(nodes)[x] == CellOf(x)
  {
  }

  lemma EmptyBest()
    ensures IsHighest({}, 0) && IsLowest({}, NO_PRICE)
  {
  }

  class OrderBook {
    const ticks: nat
    const maxOrders: nat
    const pool: OrderPool
    const bids: seq<PriceLevel>
    const asks: seq<PriceLevel>
    var orderMap: seq<Order?>
    const bidBits: PriceBitSet
    const askBits: PriceBitSet
    var bestBid: nat
    var bestAsk: nat

    /** Per price, the orders linked into the level, oldest first. */
    ghost var bidQueues: seq<seq<Order>>
    ghost var askQueues: seq<seq<Order>>

    /** The image of the whole memory. */
    ghost function Memory(): Store
      reads `orderMap, `bidQueues, `askQueues, pool, pool.nodes, bids, asks
    {
      Store(CellsOf(pool.nodes), orderMap, Ladder(LevelsOf(bids), bidQueues), Ladder(LevelsOf(asks), askQueues), pool.free)
    }

    /** What never changes: sizes, and that the parts are different objects. */
    ghost predicate Shape() {
      && 0 < ticks == bidBits.ticks == askBits.ticks
      && ticks <= MAX_CAPACITY
      && |bids| == |asks| == ticks
      && Tagged(bids, true) && Tagged(asks, false)
      && |pool.nodes| == maxOrders && Distinct(pool.nodes)
      && bidBits != askBits
    }

    /** Everything but the agreement of bitmaps and best prices with the levels. */
    ghost predicate Linkage()
      reads `orderMap, `bidQueues, `askQueues, pool, pool.nodes, bids, asks
    {
      && Shape()
      && |orderMap| == maxOrders
      && |bidQueues| == ticks && |askQueues| == ticks
      && StoreOk(Memory())
    }

    ghost predicate BitsValid()
      reads bidBits, askBits
    {
      bidBits.Valid() && askBits.Valid()
    }

    /** A bit is set exactly for an occupied level, the cached best prices are the extreme occupied
        prices, and the book is not crossed. */
    ghost predicate Indexed()
      reads this, bidBits, askBits
    {
      Index(bidBits.Contents(), askBits.Contents(), bidQueues, askQueues, bestBid, bestAsk)
    }

    ghost predicate Valid()
      reads this, pool, pool.nodes, bids, asks
      reads bidBits, askBits
    {
      Linkage() && BitsValid() && Indexed()
    }

    /** The abstract book. */
    ghost function Book(): Book
      requires StoreOk(Memory())
      reads `orderMap, `bidQueues, `askQueues, pool, pool.nodes, bids, asks
    {
      Abs(Memory())
    }

    constructor (ticks: nat, maxOrders: nat)
      requires 0 < ticks <= 64 * 64 * 64
      ensures Valid() && Book() == EMPTY
      ensures this.ticks == ticks && this.maxOrders == maxOrders
      ensures fresh(pool) && fresh(pool.nodes) && fresh(bids) && fresh(asks)
      ensures fresh(bidBits) && fresh(askBits)
    {
      this.ticks := ticks;
      this.maxOrders := maxOrders;
      var orders := new OrderPool(maxOrders);
      var bidLevels := NewLevels(ticks, true);
      var askLevels := NewLevels(ticks, false);
      var bidSet := new PriceBitSet(ticks);
      var askSet := new PriceBitSet(ticks);
      pool := orders;
      bids := bidLevels;
      asks := askLevels;
      orderMap := seq(maxOrders, _ => null);
      bidBits := bidSet;
      askBits := askSet;
      bestBid := 0;
      bestAsk := NO_PRICE;
      bidQueues := seq(ticks, _ => []);
      askQueues := seq(ticks, _ => []);
      new;
      hide StoreOk, Abs, Summary, Members, PriceBitSet.Valid, PriceBitSet.Contents, IsHighest, IsLowest, NonEmpty;
      hide Memory, Valid, Book, Linkage;
      Initial();
    }

    lemma Initial()
      requires Shape() && bidBits.Valid() && askBits.Valid()
      requires bidBits.Contents() == {} && askBits.Contents() == {}
      requires orderMap == seq(maxOrders, _ => null)
      requires bidQueues == seq(ticks, _ => []) && askQueues == seq(ticks, _ => [])
      requires forall i :: 0 <= i < ticks ==> LevelOf(bids[i]) == Level(null, null, 0) && LevelOf(asks[i]) == Level(null, null, 0)
      requires pool.free == pool.nodes
      requires forall o :: o in pool.nodes ==> o.prev == null && o.next == null
      requires bestBid == 0 && bestAsk == NO_PRICE
      ensures Valid() && Book() == EMPTY
    {
      hide StoreOk, Abs, Summary, Members, PriceBitSet.Valid, PriceBitSet.Contents, IsHighest, IsLowest, NonEmpty;
      EmptyStore(Memory());
      EmptyBest();
    }

    /** The check after a level total has been lowered: an emptied level gives up its bit, and both best
        prices are recomputed. */
    method ClearIfEmpty(level: PriceLevel, price: nat, isBuy: bool)
      requires Shape() && price < ticks && BitsValid()
      modifies `bestBid, `bestAsk, bidBits, askBits
      ensures BitsValid()
      ensures bidBits.Contents() ==
              if level.totalQuantity == 0 && isBuy then old(bidBits.Contents()) - {price} else old(bidBits.Contents())
      ensures askBits.Contents() ==
              if level.totalQuantity == 0 && !isBuy then old(askBits.Contents()) - {price} else old(askBits.Contents())
      ensures level.totalQuantity == 0 ==> IsHighest(bidBits.Contents(), bestBid) && IsLowest(askBits.Contents(), bestAsk)
      ensures level.totalQuantity != 0 ==> bestBid == old(bestBid) && bestAsk == old(bestAsk)
    {
      hide IsHighest, IsLowest;
      hide PriceBitSet.Valid, PriceBitSet.Contents;
      if level.totalQuantity == 0 {
        if isBuy {
          bidBits.Clear(price);
        } else {
          askBits.Clear(price);
        }
        bestBid := bidBits.GetHighest();
        bestAsk := askBits.GetLowest();
      }
    }

    /** One of the two vectors of levels. */
    function Levels(isBuy: bool): seq<PriceLevel> {
      if isBuy then bids else asks
    }

    /** Only this level differs from the level images before. */
    ghost predicate Changed(level: PriceLevel, wasBids: seq<Level>, wasAsks: seq<Level>)
      requires Shape() && level.price < ticks && |wasBids| == ticks && |wasAsks| == ticks
      reads bids, asks, level
    {
      && LevelsOf(bids) == (if level.isBuy then wasBids[level.price := LevelOf(level)] else wasBids)
      && LevelsOf(asks) == (if level.isBuy then wasAsks else wasAsks[level.price := LevelOf(level)])
    }

    lemma ChangedHere(level: PriceLevel, wasBids: seq<Level>, wasAsks: seq<Level>)
      requires Shape() && level.price < ticks && level == Levels(level.isBuy)[level.price]
      requires |wasBids| == ticks && |wasAsks| == ticks
      requires forall i :: 0 <= i < ticks && bids[i] != level ==> LevelOf(bids[i]) == wasBids[i]
      requires forall i :: 0 <= i < ticks && asks[i] != level ==> LevelOf(asks[i]) == wasAsks[i]
      ensures Changed(level, wasBids, wasAsks)
    {
    }

    /** `level.total_quantity -= amount`. */
    method Lower(level: PriceLevel, amount: nat)
      requires Shape() && level.price < ticks && level == Levels(level.isBuy)[level.price]
      requires amount <= level.totalQuantity
      modifies level`totalQuantity
      ensures LevelOf(level) == old(LevelOf(level)).(total := old(level.totalQuantity) - amount)
      ensures Changed(level, old(LevelsOf(bids)), old(LevelsOf(asks)))
    {
      hide LevelsOf, Changed;
      LevelsAt(bids);
      LevelsAt(asks);
      level.totalQuantity := level.totalQuantity - amount;
      ChangedHere(level, old(LevelsOf(bids)), old(LevelsOf(asks)));
    }

    /** Takes an order out of its level's list (the two conditional link updates). */
    method Splice(level: PriceLevel, order: Order)
      requires Shape() && level.price < ticks && level == Levels(level.isBuy)[level.price]
      requires order in pool.nodes
      requires order.prev != null ==> order.prev in pool.nodes && order.prev != order
      requires order.next != null ==> order.next in pool.nodes && order.next != order
      modifies level`head, level`tail, pool.nodes`prev, pool.nodes`next
      ensures CellsOf(pool.nodes) == SplicedCells(old(CellsOf(pool.nodes)), order)
      ensures LevelOf(level) == SplicedLevel(old(LevelOf(level)), old(CellOf(order)))
      ensures Changed(level, old(LevelsOf(bids)), old(LevelsOf(asks)))
    {
      hide CellsOf, SplicedCells, LevelsOf, Changed;
      ghost var was, c := CellsOf(pool.nodes), CellOf(order);
      CellsAt(pool.nodes);
      LevelsAt(bids);
      LevelsAt(asks);
      if order.prev != null {
        order.prev.next := order.next;
      } else {
        level.head := order.next;
      }
      if order.next != null {
        order.next.prev := order.prev;
      } else {
        level.tail := order.prev;
      }
      assert forall x :: x in pool.nodes ==> x.prev == if x == c.next then c.prev else old(x.prev);
      assert forall x :: x in pool.nodes ==> x.next == if x == c.prev then c.next else old(x.next);
      SplicedHeap(pool.nodes, was, order);
      ChangedHere(level, old(LevelsOf(bids)), old(LevelsOf(asks)));
    }

    /** The queues of one side. */
    ghost function Queues(isBuy: bool): seq<seq<Order>>
      reads `bidQueues, `askQueues
    {
      if isBuy then bidQueues else askQueues
    }

    lemma LevelsEntry(isBuy: bool, p: nat)
      requires p < |Levels(isBuy)|
      ensures |LevelsOf(Levels(isBuy))| == |Levels(isBuy)|
      ensures LevelsOf(Levels(isBuy))[p] == LevelOf(Levels(isBuy)[p])
    {
    }

    /** The order stands at position k of level p in the memory s. */
    ghost predicate Stands(s: Store, order: Order, isBuy: bool, p: nat, k: nat)
    {
      && Shape() && StoreOk(s)
      && order in pool.nodes && p < ticks
      && |s.bids.levels| == ticks && |s.asks.levels| == ticks && |s.table| == maxOrders
      && s.cells.Keys == (set x | x in pool.nodes)
      && Queued(s, isBuy, p, k) && s.Side(isBuy).queues[p][k] == order
    }

    /** The order under a live id stands somewhere on the book. */
    lemma Found(id: nat) returns (k: nat)
      requires Linkage() && id < maxOrders && orderMap[id] != null
      ensures var o := orderMap[id];
        && Stands(Memory(), o, o.isBuy, o.price, k)
        && o.id == id && 0 < o.quantity < MAX_QTY
    {
      hide StoreOk, LevelOk;
      var s := Memory();
      k := Locate(s, id);
      CellsAt(pool.nodes);
      QueuedData(s, orderMap[id].isBuy, orderMap[id].price, k);
    }

    /** Takes an order out of its list once the total has been lowered (and its quantity set to z). */
    method Unlink(level: PriceLevel, order: Order, ghost s: Store, ghost k: nat, ghost z: nat)
      requires Stands(s, order, level.isBuy, level.price, k)
      requires level == Levels(level.isBuy)[level.price]
      requires CellsOf(pool.nodes) == s.cells[order := s.cells[order].(quantity := z)]
      requires s.cells[order].quantity <= s.Side(level.isBuy).levels[level.price].total
      requires LevelOf(level) == s.Side(level.isBuy).levels[level.price].(total := s.Side(level.isBuy).levels[level.price].total - s.cells[order].quantity)
      requires Changed(level, s.bids.levels, s.asks.levels)
      modifies level`head, level`tail, pool.nodes`prev, pool.nodes`next
      ensures CellsOf(pool.nodes) == SplicedCells(s.cells[order := s.cells[order].(quantity := z)], order)
      ensures var s' := Removed(s, level.isBuy, level.price, k, z);
              LevelsOf(bids) == s'.bids.levels && LevelsOf(asks) == s'.asks.levels
      ensures LevelOf(level) == Removed(s, level.isBuy, level.price, k, z).Side(level.isBuy).levels[level.price]
    {
      hide StoreOk, Removed, RemovedCells, SplicedCells, Queued, CellsOf, LevelsOf;
      RemovedParts(s, level.isBuy, level.price, k, z);
      Neighbours(s, level.isBuy, level.price, k);
      CellsAt(pool.nodes);
      ghost var lowered := LevelOf(level);
      Splice(level, order);
      UpdateTwice(s.Side(level.isBuy).levels, level.price, lowered, LevelOf(level));
    }

    /** Clears the table entry and returns the order to the pool. */
    method Recycle(order: Order)
      requires order in pool.nodes && order.id < |orderMap|
      modifies `orderMap, pool`free, order`prev, order`next
      ensures order in old(CellsOf(pool.nodes))
      ensures CellsOf(pool.nodes) ==
              old(CellsOf(pool.nodes))[order := old(CellsOf(pool.nodes))[order].(prev := null, next := null)]
      ensures orderMap == old(orderMap)[old(order.id) := null] && pool.free == old(pool.free) + [order]
    {
      orderMap := orderMap[order.id := null];
      pool.Deallocate(order);
    }

    /** The last step of a removal, after which the memory is the one it should be. */
    method Retire(order: Order, ghost s: Store, ghost isBuy: bool, ghost p: nat, ghost k: nat, ghost z: nat)
      requires Stands(s, order, isBuy, p, k) && order.id == s.cells[order].id
      requires CellsOf(pool.nodes) == SplicedCells(s.cells[order := s.cells[order].(quantity := z)], order)
      requires LevelsOf(bids) == Removed(s, isBuy, p, k, z).bids.levels
      requires LevelsOf(asks) == Removed(s, isBuy, p, k, z).asks.levels
      requires orderMap == s.table && pool.free == s.free
      modifies `orderMap, `bidQueues, `askQueues, pool`free, order`prev, order`next
      ensures Memory() == Removed(s, isBuy, p, k, z)
    {
      hide StoreOk, Removed, RemovedCells, SplicedCells, Queued, CellsOf, LevelsOf;
      RemovedParts(s, isBuy, p, k, z);
      Neighbours(s, isBuy, p, k);
      SpliceThenReset(s.cells, order, z);
      Recycle(order);
      bidQueues := Removed(s, isBuy, p, k, z).bids.queues;
      askQueues := Removed(s, isBuy, p, k, z).asks.queues;
    }

    /** Takes a resting order off the book. */
    method TakeOff(order: Order, ghost s: Store, ghost k: nat)
      requires s == Memory() && Stands(s, order, order.isBuy, order.price, k)
      requires BitsValid() && Indexed()
      modifies this, pool, pool.nodes, bids, asks, bidBits, askBits
      ensures Memory() == Removed(s, old(order.isBuy), old(order.price), k, old(order.quantity))
      ensures BitsValid() && Indexed()
    {
      hide StoreOk, IsHighest, IsLowest, Removed, RemovedCells, SplicedCells, Queued, CellsOf, LevelsOf, Index, CutOut;
      hide PriceBitSet.Valid, PriceBitSet.Contents;
      ghost var isBuy, p, z := order.isBuy, order.price, order.quantity;
      ghost var bid, ask, bidSet, askSet := bestBid, bestAsk, bidBits.Contents(), askBits.Contents();
      CellsAt(pool.nodes);
      RemovedParts(s, isBuy, p, k, z);
      SameQuantity(s.cells, order);

      var level := if order.isBuy then bids[order.price] else asks[order.price];
      LevelsEntry(isBuy, p);
      Lower(level, order.quantity);
      Unlink(level, order, s, k, z);
      ClearIfEmpty(level, order.price, order.isBuy);
      Retire(order, s, isBuy, p, k, z);
      IndexAfterRemoval(bidSet, askSet, bid, ask, s, isBuy, p, k, z, level.totalQuantity,
                        bidBits.Contents(), askBits.Contents(), bestBid, bestAsk);
    }

    /** Takes an amount from the quantity of an order and from the total of its level. */
    method Reduce(level: PriceLevel, order: Order, amount: nat)
      requires Shape() && level.price < ticks && level == Levels(level.isBuy)[level.price]
      requires order in pool.nodes && amount <= order.quantity && amount <= level.totalQuantity
      modifies level`totalQuantity, order`quantity
      ensures order in old(CellsOf(pool.nodes)) && order.quantity == old(order.quantity) - amount
      ensures CellsOf(pool.nodes) ==
              old(CellsOf(pool.nodes))[order := old(CellsOf(pool.nodes))[order].(quantity := order.quantity)]
      ensures LevelOf(level) == old(LevelOf(level)).(total := old(level.totalQuantity) - amount)
      ensures Changed(level, old(LevelsOf(bids)), old(LevelsOf(asks)))
    {
      hide LevelsOf, Changed, CellsOf;
      ghost var was := CellsOf(pool.nodes);
      CellsAt(pool.nodes);
      order.quantity := order.quantity - amount;
      QuantityHeap(pool.nodes, was, order, order.quantity);
      Lower(level, amount);
    }

    /** One pass of the inner loop of `match_order`: the head order trades, and leaves when used up. */
    method Trade(level: PriceLevel, order: Order, remaining: nat, ghost s: Store) returns (left: nat, next: Order?)
      requires s == Memory() && Stands(s, order, level.isBuy, level.price, 0)
      requires level == Levels(level.isBuy)[level.price] && remaining > 0
      modifies `orderMap, `bidQueues, `askQueues, pool, pool.nodes, level
      ensures left == remaining - Min(s.cells[order].quantity, remaining)
      ensures Memory() == Traded(s, level.isBuy, level.price, remaining)
      ensures next == level.head
    {
      hide StoreOk, Removed, Resized, RemovedCells, SplicedCells, Queued, CellsOf, LevelsOf;
      CellsAt(pool.nodes);
      RemovedParts(s, level.isBuy, level.price, 0, 0);
      LevelsEntry(level.isBuy, level.price);
      HeadLinks(s, level.isBuy, level.price);

      var tradeQty := Min(order.quantity, remaining);
      left := remaining - tradeQty;
      Reduce(level, order, tradeQty);
      next := order;
      if order.quantity == 0 {
        var nextOrder := order.next;
        Unlink(level, order, s, 0, 0);
        Retire(order, s, level.isBuy, level.price, 0, 0);
        next := nextOrder;
      } else {
        ResizedParts(s, level.isBuy, level.price, 0, order.quantity);
      }
    }

    lemma LinkageIs()
      ensures Linkage() <==> Shape() && |orderMap| == maxOrders && |bidQueues| == ticks && |askQueues| == ticks && StoreOk(Memory())
      ensures Memory().table == orderMap
      ensures Memory().bids.queues == bidQueues && Memory().asks.queues == askQueues
      ensures forall isBuy :: Queues(isBuy) == Memory().Side(isBuy).queues
    {
      hide StoreOk;
    }

    lemma StandsIs(s: Store, order: Order, isBuy: bool, p: nat, k: nat)
      requires Stands(s, order, isBuy, p, k)
      ensures StoreOk(s) && Queued(s, isBuy, p, k) && s.Side(isBuy).queues[p][k] == order
    {
    }

    lemma TradingLinkage(s: Store, isBuy: bool, p: nat, taken: nat, limit: nat)
      requires Shape() && Trading(s, Memory(), isBuy, p, taken, limit)
      requires |s.table| == maxOrders && |s.bids.queues| == ticks && |s.asks.queues| == ticks
      ensures Linkage()
    {
      hide StoreOk, Abs;
    }

    /** The order at the head of a level, if there is one, is ready to trade. */
    lemma HeadReady(level: PriceLevel)
      requires Linkage() && level.price < ticks && level == Levels(level.isBuy)[level.price]
      ensures level.head != null <==> Queues(level.isBuy)[level.price] != []
      ensures level.totalQuantity == 0 <==> Queues(level.isBuy)[level.price] == []
      ensures level.head != null ==> Stands(Memory(), level.head, level.isBuy, level.price, 0)
    {
      hide StoreOk;
      var s := Memory();
      EmptyLevel(s, level.isBuy, level.price);
      LevelsEntry(level.isBuy, level.price);
      CellsAt(pool.nodes);
      if level.head != null {
        LadderLengths(s, level.isBuy);
        QueuedData(s, level.isBuy, level.price, 0);
      }
    }

    /** The inner loop of `match_order`: orders of one level trade until the level or the incoming
        quantity is used up. */
    method TradeLevel(level: PriceLevel, remaining: nat, ghost s: Store, ghost limit: nat) returns (left: nat)
      requires Linkage() && s == Memory() && remaining > 0
      requires level.price < ticks && level == Levels(level.isBuy)[level.price]
      requires BestLevel(Queues(level.isBuy), level.isBuy, level.price)
      requires Crosses(!level.isBuy, limit, level.price)
      modifies `orderMap, `bidQueues, `askQueues, pool, pool.nodes, level
      ensures left < remaining
      ensures Linkage() && Trading(s, Memory(), level.isBuy, level.price, remaining - left, limit)
      ensures left == 0 || Queues(level.isBuy)[level.price] == []
      ensures level.totalQuantity == 0 <==> Queues(level.isBuy)[level.price] == []
    {
      hide Linkage, Memory, Trading, Traded, BestLevel, Queues, NonEmpty, Stands, Queued, StoreOk, Crosses, NoWorse, Book, Abs, AbsSide;
      left := remaining;
      var resting := level.head;
      HeadReady(level);
      LinkageIs();
      BestLevelOccupied(Queues(level.isBuy), level.isBuy, level.price);
      TradingStart(s, level.isBuy, level.price, limit);
      while resting != null && left > 0
        invariant left <= remaining
        invariant Linkage() && Trading(s, Memory(), level.isBuy, level.price, remaining - left, limit)
        invariant resting == level.head
        invariant left == remaining ==> resting != null
      {
        HeadReady(level);
        ghost var before := Memory();
        StandsIs(before, resting, level.isBuy, level.price, 0);
        TradingStep(s, before, level.isBuy, level.price, remaining - left, limit, left);
        left, resting := Trade(level, resting, left, before);
        TradingLinkage(s, level.isBuy, level.price, remaining - left, limit);
      }
      HeadReady(level);
    }

    /** The cached best price of the side an incoming order trades against. */
    function BestAgainst(isBuy: bool): nat
      reads this
    {
      if isBuy then bestAsk else bestBid
    }

    /** A limit that reaches the best price finds an occupied level there. */
    lemma CrossingLevel(price: nat, isBuy: bool)
      requires Shape() && Indexed()
      requires if isBuy then price < NO_PRICE else 0 < price
      requires |bidQueues| == ticks && |askQueues| == ticks
      requires Crosses(isBuy, price, BestAgainst(isBuy))
      ensures BestAgainst(isBuy) < ticks && BestLevel(Queues(!isBuy), !isBuy, BestAgainst(isBuy))
      ensures var level := Levels(!isBuy)[BestAgainst(isBuy)]; level.isBuy == !isBuy && level.price == BestAgainst(isBuy)
    {
      hide PriceBitSet.Contents;
    }

    /** One pass of the outer loop: the best opposite level trades, and is cleared when it empties. */
    method MatchLevel(matchPrice: nat, remaining: nat, isBuy: bool, ghost s: Store, ghost limit: nat) returns (left: nat)
      requires Valid() && s == Memory() && remaining > 0
      requires matchPrice == BestAgainst(isBuy) && matchPrice < ticks
      requires BestLevel(Queues(!isBuy), !isBuy, matchPrice)
      requires Crosses(isBuy, limit, matchPrice)
      modifies this, pool, pool.nodes, bids, asks, bidBits, askBits
      ensures Valid()
      ensures left < remaining && Trading(s, Memory(), !isBuy, matchPrice, remaining - left, limit)
    {
      hide Memory, StoreOk, Trading, Linkage, Index, IsHighest, IsLowest, NonEmpty, Crosses, NoWorse, Book, Abs, AbsSide, CutOut;
      hide PriceBitSet.Valid, PriceBitSet.Contents;
      ghost var bid, ask, bidSet, askSet, bidQ, askQ := bestBid, bestAsk, bidBits.Contents(), askBits.Contents(), bidQueues, askQueues;
      LinkageIs();
      var level := if isBuy then asks[matchPrice] else bids[matchPrice];
      BestLevelOccupied(Queues(!isBuy), !isBuy, matchPrice);
      left := TradeLevel(level, remaining, s, limit);
      ClearIfEmpty(level, matchPrice, !isBuy);
      TradingQueues(s, !isBuy, matchPrice, remaining - left, limit);
      IndexAfterShrink(bidSet, askSet, bidQ, askQ, bid, ask, !isBuy, matchPrice, Queues(!isBuy)[matchPrice],
                       bidBits.Contents(), askBits.Contents(), bestBid, bestAsk);
    }

    lemma TradingQueues(s: Store, isBuy: bool, p: nat, taken: nat, limit: nat)
      requires Trading(s, Memory(), isBuy, p, taken, limit) && |s.bids.queues| == |s.asks.queues|
      ensures |bidQueues| == |s.bids.queues| && |askQueues| == |s.asks.queues|
      ensures bidQueues == if isBuy then s.bids.queues[p := Queues(isBuy)[p]] else s.bids.queues
      ensures askQueues == if isBuy then s.asks.queues else s.asks.queues[p := Queues(isBuy)[p]]
    {
      hide StoreOk, Abs;
    }

    method MatchOrder(price: nat, qty: nat, isBuy: bool) returns (remaining: nat)
      requires Valid()
      requires qty > 0 ==> if isBuy then price < 0xFFFF_FFFF else 0 < price
      modifies this, pool, pool.nodes, bids, asks, bidBits, askBits
      ensures Valid()
      ensures remaining == qty - Filled(old(Book()), price, qty, isBuy)
      ensures Book() == Match(old(Book()), price, qty, isBuy)
      ensures Book().Side(isBuy) == old(Book()).Side(isBuy)
      ensures (Book().Side(!isBuy), remaining) == Greedy(old(Book()).Side(!isBuy), isBuy, price, qty)
      ensures exists c :: Trades(old(Book()).Side(!isBuy), Book().Side(!isBuy), isBuy, price, qty, c) && c.left == remaining
      ensures var s, s' := old(Book()).Side(!isBuy), Book().Side(!isBuy);
        forall i :: 0 <= i < |s| && (if isBuy then s[i].price > price else s[i].price < price) ==>
          |s| - i <= |s'| && s'[|s'| - (|s| - i)] == s[i]
      ensures remaining > 0 ==>
        forall e :: e in Book().Side(!isBuy) ==> if isBuy then e.price > price else e.price < price
      ensures remaining > 0 ==> !Crosses(isBuy, price, BestAgainst(isBuy))
      ensures forall id :: 0 <= id < maxOrders ==> orderMap[id] == null || orderMap[id] == old(orderMap)[id]
      ensures remaining == qty ==> orderMap == old(orderMap) && pool.free == old(pool.free)
    {
      hide StoreOk, Linkage, Indexed, BitsValid, Trading, Matching, NonEmpty, NoWorse, Memory, Abs, AbsSide, Queues, IsHighest, IsLowest;
      hide Trades, Greedy, Match, Filled, WellFormed;
      remaining := qty;
      ghost var s := Memory();
      LinkageIs();
      BookIsWellFormed();
      MatchMeaning(Book(), price, qty, isBuy);
      MemoryParts();
      MatchingStart(s, !isBuy, price);
      while remaining > 0
        invariant Valid() && remaining <= qty
        invariant Matching(s, Memory(), !isBuy, qty - remaining, price)
      {
        var isMatch := if isBuy then price >= bestAsk else price <= bestBid;
        if !isMatch {
          break;
        }
        var matchPrice := if isBuy then bestAsk else bestBid;
        LinkageIs();
        CrossingLevel(price, isBuy);
        ghost var before, now := Memory(), remaining;
        remaining := MatchLevel(matchPrice, remaining, isBuy, before, price);
        MatchingStep(s, before, Memory(), !isBuy, matchPrice, qty - now, now - remaining, price);
      }
      LinkageIs();
      IndexedBest(isBuy);
      MatchingDone(s, Memory(), isBuy, qty - remaining, price, qty, BestAgainst(isBuy));
      MatchingTable(s, Memory(), !isBuy, qty - remaining, price);
      MemoryParts();
    }

    lemma IndexedBest(isBuy: bool)
      requires Indexed()
      ensures IsBest(!isBuy, NonEmpty(Queues(!isBuy)), BestAgainst(isBuy))
    {
      hide PriceBitSet.Contents;
    }

    lemma MemoryParts()
      ensures Memory().table == orderMap && Memory().free == pool.free
    {
    }

    /** Fills in a free order and enters it in the table. */
    method Fill(order: Order, id: nat, price: nat, qty: nat, isBuy: bool)
      requires order in pool.nodes && id < |orderMap|
      modifies order`id, order`price, order`quantity, order`isBuy, `orderMap
      ensures order in old(CellsOf(pool.nodes))
      ensures CellsOf(pool.nodes) ==
              FilledCells(old(CellsOf(pool.nodes)), order, Entry(id, price, qty), isBuy)
      ensures orderMap == old(orderMap)[id := order]
    {
      hide CellsOf, FilledCells;
      ghost var was := CellsOf(pool.nodes);
      CellsAt(pool.nodes);
      order.id := id;
      order.price := price;
      order.quantity := qty;
      order.isBuy := isBuy;
      orderMap := orderMap[id := order];
      FilledHeap(pool.nodes, was, order, Entry(id, price, qty), isBuy);
    }

    /** Adds to the total and links a filled-in order behind the tail of its level. */
    method Append(level: PriceLevel, order: Order)
      requires Shape() && level.price < ticks && level == Levels(level.isBuy)[level.price]
      requires order in pool.nodes && order.prev == null
      requires level.tail != null ==> level.tail in pool.nodes && level.tail != order
      requires level.head == null <==> level.tail == null
      modifies level`head, level`tail, level`totalQuantity, order`prev, pool.nodes`next
      ensures order in old(CellsOf(pool.nodes))
      ensures CellsOf(pool.nodes) == AppendedCells(old(CellsOf(pool.nodes)), order, old(level.tail))
      ensures LevelOf(level) == JoinedLevel(old(LevelOf(level)), order, old(order.quantity))
      ensures Changed(level, old(LevelsOf(bids)), old(LevelsOf(asks)))
    {
      hide LevelsOf, Changed, CellsOf, AppendedCells;
      ghost var was, tail := CellsOf(pool.nodes), level.tail;
      CellsAt(pool.nodes);
      LevelsAt(bids);
      LevelsAt(asks);
      level.totalQuantity := level.totalQuantity + order.quantity;
      if level.head == null {
        level.head := order;
        level.tail := order;
      } else {
        order.prev := level.tail;
        level.tail.next := order;
        level.tail := order;
      }
      ChangedHere(level, old(LevelsOf(bids)), old(LevelsOf(asks)));
      AppendedHeap(pool.nodes, was, order, tail);
    }

    /** The last step of joining, after which the memory is the one it should be. */
    method Enqueue(level: PriceLevel, order: Order, ghost s: Store, ghost e: Entry)
      requires Shape() && StoreOk(s) && Joinable(s, e, level.isBuy)
      requires level.price == e.price < ticks && level == Levels(level.isBuy)[level.price]
      requires order == s.free[|s.free| - 1] && order in s.cells && s.cells.Keys == (set x | x in pool.nodes)
      requires CellsOf(pool.nodes) == FilledCells(s.cells, order, e, level.isBuy)
      requires LevelsOf(bids) == s.bids.levels && LevelsOf(asks) == s.asks.levels
      requires orderMap == s.table[e.id := order] && pool.free == s.free[..|s.free| - 1]
      modifies `bidQueues, `askQueues, level`head, level`tail, level`totalQuantity, order`prev, pool.nodes`next
      ensures Memory() == Joined(s, e, level.isBuy)
    {
      hide StoreOk, CellsOf, LevelsOf, JoinedCells, FilledCells, AppendedCells, LiveOrder, Joined, Tagged, Distinct;
      CellsAt(pool.nodes);
      FreeReady(s, e, level.isBuy);
      FilledAt(s.cells, order, e, level.isBuy);
      FillThenAppend(s.cells, order, s.Side(level.isBuy).levels[e.price].tail, e, level.isBuy);
      LevelsEntry(level.isBuy, level.price);
      JoinedParts(s, e, level.isBuy);
      Append(level, order);
      bidQueues := Joined(s, e, level.isBuy).bids.queues;
      askQueues := Joined(s, e, level.isBuy).asks.queues;
    }

    /** With an unused id there is a free order, ready to be filled in. */
    lemma RestReady(id: nat, price: nat, qty: nat, isBuy: bool)
      requires Linkage() && id < maxOrders && orderMap[id] == null && 0 < qty < MAX_QTY && 0 < price < ticks
      ensures var s, e := Memory(), Entry(id, price, qty);
        && Joinable(s, e, isBuy) && StoreOk(s)
        && pool.free != [] && pool.free[|pool.free| - 1] in pool.nodes
        && s.cells.Keys == (set x | x in pool.nodes)
        && |s.bids.queues| == |s.asks.queues| == |s.bids.levels| == |s.asks.levels| == ticks
        && (s.Side(isBuy).levels[price].total == 0 <==> s.Side(isBuy).queues[price] == [])
    {
      hide StoreOk, CellsOf;
      var s := Memory();
      CellsAt(pool.nodes);
      CellsCount(pool.nodes);
      FreeOrderLeft(s, id);
      EmptyLevel(s, isBuy, price);
      FreeNotQueued(s, isBuy, price, s.free[|s.free| - 1]);
    }

    /** What remains of an incoming order takes a free order, sets the bit of an empty level, and joins. */
    method Place(id: nat, price: nat, qty: nat, isBuy: bool, ghost s: Store)
      requires Linkage() && BitsValid() && s == Memory()
      requires id < maxOrders && orderMap[id] == null
      requires 0 < qty < MAX_QTY && 0 < price < ticks
      modifies `orderMap, `bidQueues, `askQueues, pool, pool.nodes, bids, asks, bidBits, askBits
      ensures Joinable(s, Entry(id, price, qty), isBuy) && StoreOk(s)
      ensures Memory() == Joined(s, Entry(id, price, qty), isBuy)
      ensures BitsValid()
      ensures bidBits.Contents() == if isBuy && s.bids.queues[price] == [] then old(bidBits.Contents()) + {price} else old(bidBits.Contents())
      ensures askBits.Contents() == if !isBuy && s.asks.queues[price] == [] then old(askBits.Contents()) + {price} else old(askBits.Contents())
    {
      hide StoreOk, CellsOf, LevelsOf, Joined, FilledCells, Joinable;
      hide PriceBitSet.Valid, PriceBitSet.Contents;
      RestReady(id, price, qty, isBuy);
      LevelsEntry(isBuy, price);
      var order := pool.Allocate();
      if order == null {
        assert false;
        return;
      }
      Fill(order, id, price, qty, isBuy);
      var level := if isBuy then bids[price] else asks[price];
      if level.totalQuantity == 0 {
        if isBuy {
          bidBits.Set(price);
        } else {
          askBits.Set(price);
        }
      }
      Enqueue(level, order, s, Entry(id, price, qty));
    }

    /** The part of `add_order` after matching. */
    method Rest(id: nat, price: nat, remainingQty: nat, isBuy: bool)
      requires Valid()
      requires id < maxOrders && orderMap[id] == null
      requires 0 < remainingQty < MAX_QTY && 0 < price < ticks
      requires !Crosses(isBuy, price, BestAgainst(isBuy))
      modifies this, pool, pool.nodes, bids, asks, bidBits, askBits
      ensures Valid()
      ensures Book() == old(Book()).With(isBuy, Insert(old(Book()).Side(isBuy), isBuy, Entry(id, price, remainingQty)))
      ensures old(pool.free) != [] && pool.free == old(pool.free)[..|old(pool.free)| - 1]
      ensures orderMap == old(orderMap)[id := old(pool.free)[|old(pool.free)| - 1]]
    {
      hide StoreOk, Index, NonEmpty, Abs, Joined, Joinable, Memory, Insert, IsHighest, IsLowest;
      hide PriceBitSet.Valid, PriceBitSet.Contents;
      ghost var s, e := Memory(), Entry(id, price, remainingQty);
      ghost var bid, ask, bidSet, askSet := bestBid, bestAsk, bidBits.Contents(), askBits.Contents();
      MemoryParts();
      LinkageIs();
      RestReady(id, price, remainingQty, isBuy);
      JoinedOk(s, e, isBuy);
      JoinedSizes(s, e, isBuy);
      Place(id, price, remainingQty, isBuy, s);
      if isBuy {
        if price > bestBid {
          bestBid := price;
        }
      } else {
        if price < bestAsk {
          bestAsk := price;
        }
      }
      MemoryParts();
      LinkageIs();
      IndexAfterJoin(bidSet, askSet, s.bids.queues, s.asks.queues, bid, ask, isBuy, price, s.free[|s.free| - 1],
                     bidBits.Contents(), askBits.Contents(), bestBid, bestAsk);
    }

    method AddOrder(id: nat, price: nat, qty: nat, isBuy: bool)
      requires Valid()
      requires id < maxOrders && orderMap[id] == null
      requires qty < 0x8000_0000 && (qty > 0 ==> 0 < price < ticks)
      modifies this, pool, pool.nodes, bids, asks, bidBits, askBits
      ensures Valid()
      ensures Book() == Add(old(Book()), id, price, qty, isBuy)
      ensures exists c :: Adds(old(Book()), Book(), id, price, qty, isBuy, c)
      ensures var (opposite, left) := Greedy(old(Book()).Side(!isBuy), isBuy, price, qty);
        && Book().Side(!isBuy) == opposite
        && forall at :: AtPrice(Book().Side(isBuy), at) ==
             AtPrice(old(Book()).Side(isBuy), at) + if at == price && left > 0 then [Entry(id, price, left)] else []
      ensures qty > 0 && Filled(old(Book()), price, qty, isBuy) == 0 ==>
                && old(pool.free) != [] && pool.free == old(pool.free)[..|old(pool.free)| - 1]
                && orderMap == old(orderMap)[id := old(pool.free)[|old(pool.free)| - 1]]
    {
      hide StoreOk, Indexed, BitsValid, Memory, Abs, Match, Filled, Insert, Crosses;
      hide Adds, Greedy, AtPrice, WellFormed;
      BookIsWellFormed();
      AddSides(Book(), id, price, qty, isBuy);
      AddMeaning(Book(), Add(Book(), id, price, qty, isBuy), id, price, qty, isBuy);
      TicksFit();
      var remainingQty := MatchOrder(price, qty, isBuy);
      if remainingQty == 0 {
        return;
      }
      Rest(id, price, remainingQty, isBuy);
    }

    lemma TicksFit()
      requires Linkage()
      ensures ticks <= MAX_CAPACITY
    {
      hide StoreOk;
    }

    method CancelOrder(id: nat)
      requires Valid() && id < maxOrders
      modifies this, pool, pool.nodes, bids, asks, bidBits, askBits
      ensures Valid()
      ensures Book() == Cancel(old(Book()), id)
      ensures Cancels(old(Book()), Book(), id)
      ensures old(orderMap[id]) == null ==> unchanged(this, pool, pool.nodes, bids, asks, bidBits, askBits)
      ensures old(orderMap[id]) != null ==>
                orderMap == old(orderMap)[id := null] && pool.free == old(pool.free) + [old(orderMap[id])]
    {
      hide StoreOk, Abs, Removed, Indexed, BitsValid, CellsOf, LevelsOf, Queued;
      hide Cancels, WellFormed;
      ghost var s := Memory();
      BookIsWellFormed();
      CancelMeaning(Book(), Cancel(Book(), id), id);
      TableKnowsBook(s, id);
      CellsAt(pool.nodes);
      var order := orderMap[id];
      if order == null {
        AbsentCancel(Book(), id);
        return;
      }
      ghost var k := Found(id);
      RemovedOk(s, order.isBuy, order.price, k, order.quantity);
      CancelOneSide(Abs(s), order.isBuy, id);
      RemovedSizes(s, order.isBuy, order.price, k, order.quantity);
      RemovedParts(s, order.isBuy, order.price, k, order.quantity);
      TakeOff(order, s, k);
    }

    /** A quantity decrease in place. */
    method Shrink(order: Order, newQty: nat, ghost s: Store, ghost k: nat)
      requires s == Memory() && Stands(s, order, order.isBuy, order.price, k)
      requires 0 < newQty <= order.quantity
      modifies order`quantity, bids, asks
      ensures Resizable(s, old(order.isBuy), old(order.price), k, newQty)
      ensures Memory() == Resized(s, old(order.isBuy), old(order.price), k, newQty)
    {
      hide StoreOk, CellsOf, LevelsOf, Resized, Queued;
      CellsAt(pool.nodes);
      ResizedParts(s, order.isBuy, order.price, k, newQty);
      LevelsEntry(order.isBuy, order.price);
      var level := if order.isBuy then bids[order.price] else asks[order.price];
      Reduce(level, order, order.quantity - newQty);
    }

    method ModifyOrder(id: nat, newPrice: nat, newQty: nat)
      requires Valid()
      requires id < maxOrders && newQty < 0x8000_0000
      requires orderMap[id] != null && newQty > 0 ==> 0 < newPrice < ticks
      modifies this, pool, pool.nodes, bids, asks, bidBits, askBits
      ensures Valid()
      ensures Book() == Modify(old(Book()), id, newPrice, newQty)
      ensures Modifies(old(Book()), Book(), id, newPrice, newQty)
      ensures old(orderMap[id]) == null ==> unchanged(this, pool, pool.nodes, bids, asks, bidBits, askBits)
    {
      hide StoreOk, Indexed, BitsValid, Memory, Abs, Cancel, Add, Resize, Stands, Live, Resized;
      hide Modifies, Cancels, Adds, Greedy, AtPrice, WellFormed;
      ghost var s := Memory();
      BookIsWellFormed();
      ModifyMeaning(Book(), Modify(Book(), id, newPrice, newQty), id, newPrice, newQty);
      LinkageIs();
      TableKnowsBook(s, id);
      var order := orderMap[id];
      if order == null {
        return;
      }
      KnownOrder(s, id);
      MemoryCell(order);
      ghost var k := Found(id);
      if newPrice != order.price || newQty > order.quantity {
        var isBuy := order.isBuy;
        CancelOrder(id);
        AddOrder(id, newPrice, newQty, isBuy);
        return;
      }
      if newQty == 0 {
        CancelOrder(id);
        return;
      }
      StandsIs(s, order, order.isBuy, order.price, k);
      ghost var isBuy, p := order.isBuy, order.price;
      Shrink(order, newQty, s, k);
      ResizedOk(s, isBuy, p, k, newQty);
      ResizedParts(s, isBuy, p, k, newQty);
      LinkageIs();
    }

    /** A valid book is well-formed as an abstract book: in particular it is never crossed. */
    lemma BookWellFormed()
      requires Valid()
      ensures WellFormed(Book())
      ensures var s := Book().bids; forall i, j :: 0 <= i < j < |s| ==> s[i].price >= s[j].price && s[i].id != s[j].id
      ensures var s := Book().asks; forall i, j :: 0 <= i < j < |s| ==> s[i].price <= s[j].price && s[i].id != s[j].id
      ensures forall b, a :: b in Book().bids && a in Book().asks ==> b.price < a.price && b.id != a.id
      ensures forall e :: e in Book().bids || e in Book().asks ==> e.qty > 0
    {
      hide StoreOk, WellFormed, Abs, Indexed;
      BookIsWellFormed();
      WellFormedMeaning(Book());
    }

    lemma BookIsWellFormed()
      requires Valid()
      ensures WellFormed(Book())
    {
      hide StoreOk, Index, WellFormed, Abs;
      MemoryWellFormed(Memory(), bidBits.Contents(), askBits.Contents(), bestBid, bestAsk);
    }

    /** The links of a level spell out the orders of its price on the book, oldest first: from head to tail, forwards
        and backwards, each with its data and under its id, and the cached total is their sum. */
    lemma LevelSpellsBook(isBuy: bool, p: nat) returns (q: seq<Order>)
      requires Valid() && p < ticks
      ensures var level, entries := Levels(isBuy)[p], AtPrice(Book().Side(isBuy), p);
        && |q| == |entries| && Distinct(q)
        && level.head == At(q, 0) && level.tail == At(q, |q| - 1)
        && level.totalQuantity == Units(entries)
        && forall i {:trigger q[i]} :: 0 <= i < |q| ==>
             && q[i].prev == At(q, i - 1) && q[i].next == At(q, i + 1)
             && q[i].isBuy == isBuy && Entry(q[i].id, q[i].price, q[i].quantity) == entries[i] && entries[i].price == p
             && q[i].id < |orderMap| && orderMap[q[i].id] == q[i]
    {
      hide StoreOk, AbsSide, PoolOk, Tabled, Indexed, AtPrice;
      var s := Memory();
      q := s.Side(isBuy).queues[p];
      LevelAtPrice(s, isBuy, p);
      LevelsEntry(isBuy, p);
      CellsAt(pool.nodes);
      QueueLinked(s, isBuy, p);
    }

    /** The id table has an entry exactly for the ids on the book, which leads to an order of the pool with that id. */
    lemma TableSpellsBook(id: nat)
      requires Valid() && id < maxOrders
      ensures orderMap[id] == null <==> Unknown(Book(), id)
      ensures orderMap[id] != null ==>
        var o := orderMap[id]; o in pool.nodes && o.id == id && Entry(id, o.price, o.quantity) in Book().Side(o.isBuy)
    {
      hide StoreOk, Indexed, Abs;
      TableKnowsBook(Memory(), id);
      RestsIsHas(Book(), id);
      CellsAt(pool.nodes);
      if orderMap[id] != null {
        var k := Found(id);
      }
    }

    /** The cached best prices are the prices at the front of the two sides. */
    lemma BestPrices()
      requires Valid()
      ensures bestBid == if Book().bids == [] then 0 else Book().bids[0].price
      ensures bestAsk == if Book().asks == [] then 0xFFFF_FFFF else Book().asks[0].price
      ensures bestBid < bestAsk
    {
      hide StoreOk, AbsSide;
      BestIsFirst(Memory(), true, bestBid);
      BestIsFirst(Memory(), false, bestAsk);
    }

    /** What the loop guard of `match_order` says. Against resting orders it compares with the best of them.
        Against an empty side it is true exactly for a buy at UINT32_MAX and a sell at 0, the limits that
        `MatchOrder` excludes: there is then no level to trade with. */
    lemma GuardMeaning(price: nat, isBuy: bool)
      requires Valid()
      ensures Book().Side(!isBuy) != [] ==>
        if isBuy then price >= bestAsk <==> price >= Book().asks[0].price
        else price <= bestBid <==> price <= Book().bids[0].price
      ensures Book().Side(!isBuy) == [] ==>
        if isBuy then price >= bestAsk <==> price >= 0xFFFF_FFFF else price <= bestBid <==> price == 0
    {
      hide StoreOk, AbsSide, Abs;
      BestPrices();
    }

    /** With the sizes the engine uses, every level total fits `uint64_t`. */
    lemma TotalsFit(isBuy: bool, p: nat)
      requires Valid() && p < ticks && maxOrders <= 1_500_000
      ensures Levels(isBuy)[p].totalQuantity < 0x1_0000_0000_0000_0000
    {
      hide StoreOk;
      LevelsEntry(isBuy, p);
      CellsCount(pool.nodes);
      LadderLengths(Memory(), isBuy);
      LevelTotalFits(Memory(), isBuy, p);
      assert maxOrders * (MAX_QTY - 1) <= 1_500_000 * (MAX_QTY - 1);
    }

    /** Adding an order that trades with nobody and cancelling it leaves the book, the id table, the free list,
        both bitmaps and both best prices as they were. */
    method AddAndCancel(id: nat, price: nat, qty: nat, isBuy: bool)
      requires Valid()
      requires id < maxOrders && orderMap[id] == null
      requires 0 < qty < MAX_QTY && 0 < price < ticks
      requires Filled(Book(), price, qty, isBuy) == 0
      modifies this, pool, pool.nodes, bids, asks, bidBits, askBits
      ensures Valid()
      ensures Book() == old(Book())
      ensures orderMap == old(orderMap) && pool.free == old(pool.free)
      ensures bestBid == old(bestBid) && bestAsk == old(bestAsk)
      ensures bidBits.Contents() == old(bidBits.Contents()) && askBits.Contents() == old(askBits.Contents())
    {
      hide StoreOk, Abs, Memory, Indexed, BitsValid, Filled, Add, Cancel, Live;
      hide Adds, Cancels, Greedy, AtPrice;
      hide PriceBitSet.Contents;
      LinkageIs();
      TableKnowsBook(Memory(), id);
      AddThenCancel(Book(), id, price, qty, isBuy);
      BestPrices();
      BitsAreBook();
      FreeTopExists(id);
      AddOrder(id, price, qty, isBuy);
      CancelOrder(id);
      BestPrices();
      BitsAreBook();
    }

    lemma FreeTopExists(id: nat)
      requires Linkage() && id < maxOrders && orderMap[id] == null
      ensures pool.free != []
    {
      hide StoreOk;
      CellsCount(pool.nodes);
      FreeOrderLeft(Memory(), id);
    }

    /** The bitmaps hold exactly the prices of the orders on the book. */
    lemma BitsAreBook()
      requires Valid()
      ensures bidBits.Contents() == PricesOf(Book().bids)
      ensures askBits.Contents() == PricesOf(Book().asks)
    {
      hide StoreOk, AbsSide;
      SidePrices(Memory(), true);
      SidePrices(Memory(), false);
    }

    lemma MemoryCell(order: Order)
      ensures order in Memory().cells <==> order in pool.nodes
      ensures order in pool.nodes ==> Memory().cells[order] == CellOf(order)
    {
    }
  }

  /** The prices at which a queue has orders. */
  ghost function PricesOf(s: seq<Entry>): set<nat> {
    set i | 0 <= i < |s| :: s[i].price
  }

  lemma SidePrices(s: Store, isBuy: bool)
    requires StoreOk(s)
    ensures NonEmpty(s.Side(isBuy).queues) == PricesOf(AbsSide(s, isBuy))
  {
    hide StoreOk, AbsSide;
    var side := AbsSide(s, isBuy);
    forall i | 0 <= i < |side|
      ensures side[i].price in NonEmpty(s.Side(isBuy).queues)
    {
      SideOrigin(s, isBuy, i);
    }
    forall p | p in NonEmpty(s.Side(isBuy).queues)
      ensures p in PricesOf(side)
    {
      QueuedEntry(s, isBuy, p, 0);
      QueuedData(s, isBuy, p, 0);
      var i :| 0 <= i < |side| && side[i].price == p;
    }
  }

  lemma CancelOneSide(b: Book, isBuy: bool, id: nat)
    requires !Has(b.Side(!isBuy), id)
    ensures Cancel(b, id) == b.With(isBuy, Without(b.Side(isBuy), id))
  {
    WithoutAbsent(b.Side(!isBuy), id);
  }

  lemma AbsentCancel(b: Book, id: nat)
    requires !Live(b, id)
    ensures Cancel(b, id) == b
  {
    WithoutAbsent(b.bids, id);
    WithoutAbsent(b.asks, id);
  }
}
