/** The memory of the book: orders linked into price levels, an id table and a free list. `Order*` is a
    reference to an `Order` object; the predicates and lemmas below speak about images of those objects
    (`Cell`, `Level`), so that the proofs need no heap. */
module OrderStore {
  import BookSpec
  import Rungs

  /** `uint32_t quantity : 31` holds values below this. */
  const MAX_QTY: nat := 0x8000_0000

  class Order {
    var id: nat
    var prev: Order?
    var next: Order?
    var price: nat
    var quantity: nat
    var isBuy: bool

    constructor ()
      ensures prev == null && next == null
    {
      id, prev, next, price, quantity, isBuy := 0, null, null, 0, 0, false;
    }
  }

  class PriceLevel {
    /** Which element of which vector this is; tells the level objects apart. */
    ghost const isBuy: bool
    ghost const price: nat

    var head: Order?
    var tail: Order?
    var totalQuantity: nat

    constructor (ghost isBuy: bool, ghost price: nat)
      ensures this.isBuy == isBuy && this.price == price
      ensures head == null && tail == null && totalQuantity == 0
    {
      this.isBuy, this.price := isBuy, price;
      head, tail, totalQuantity := null, null, 0;
    }
  }

  // ----- images of the objects -----

  datatype Cell = Cell(id: nat, prev: Order?, next: Order?, price: nat, quantity: nat, isBuy: bool)

  datatype Level = Level(head: Order?, tail: Order?, total: nat)

  type Cells = map<Order, Cell>

  /** One side: its level images and, per level, the queue of orders the links spell out. */
  datatype Ladder = Ladder(levels: seq<Level>, queues: seq<seq<Order>>)

  datatype Store = Store(cells: Cells, table: seq<Order?>, bids: Ladder, asks: Ladder, free: seq<Order>) {
    function Side(isBuy: bool): Ladder {
      if isBuy then bids else asks
    }
  }

  ghost function CellOf(o: Order): Cell
    reads o
  {
    Cell(o.id, o.prev, o.next, o.price, o.quantity, o.isBuy)
  }

  ghost function CellsOf(nodes: seq<Order>): Cells
    reads nodes
  {
    map o | o in nodes :: CellOf(o)
  }

  ghost function LevelOf(l: PriceLevel): Level
    reads l
  {
    Level(l.head, l.tail, l.totalQuantity)
  }

  ghost function LevelsOf(levels: seq<PriceLevel>): seq<Level>
    reads levels
  {
    seq(|levels|, i requires 0 <= i < |levels| reads levels => LevelOf(levels[i]))
  }

  // ----- well-formedness -----

  ghost predicate Distinct(q: seq<Order>) {
    forall i, j :: 0 <= i < j < |q| ==> q[i] != q[j]
  }

  /** The element at an index, or null outside the queue. */
  ghost function At(q: seq<Order>, i: int): Order? {
    if 0 <= i < |q| then q[i] else null
  }

  /** head, tail and the links of the orders spell out q, an acyclic doubly linked list. */
  ghost predicate Linked(cells: Cells, head: Order?, tail: Order?, q: seq<Order>) {
    && Distinct(q)
    && head == At(q, 0)
    && tail == At(q, |q| - 1)
    && forall i {:trigger q[i]} :: 0 <= i < |q| ==>
         q[i] in cells && cells[q[i]].prev == At(q, i - 1) && cells[q[i]].next == At(q, i + 1)
  }

  /** A live order, standing at its own price and side and found under its id. */
  ghost predicate Resting(cells: Cells, table: seq<Order?>, o: Order, isBuy: bool, price: nat) {
    && o in cells
    && cells[o].price == price && cells[o].isBuy == isBuy
    && 0 < cells[o].quantity < MAX_QTY
    && cells[o].id < |table| && table[cells[o].id] == o
  }

  ghost predicate AllResting(cells: Cells, table: seq<Order?>, q: seq<Order>, isBuy: bool, price: nat) {
    forall i {:trigger q[i]} :: 0 <= i < |q| ==> Resting(cells, table, q[i], isBuy, price)
  }

  ghost function Entries(cells: Cells, q: seq<Order>): (s: seq<BookSpec.Entry>)
    requires forall i :: 0 <= i < |q| ==> q[i] in cells
    ensures |s| == |q|
    ensures forall i :: 0 <= i < |q| ==> s[i] == BookSpec.Entry(cells[q[i]].id, cells[q[i]].price, cells[q[i]].quantity)
  {
    seq(|q|, i requires 0 <= i < |q| => BookSpec.Entry(cells[q[i]].id, cells[q[i]].price, cells[q[i]].quantity))
  }

  /** One level: its list, its orders, and the cached total. */
  ghost predicate LevelOk(cells: Cells, table: seq<Order?>, level: Level, q: seq<Order>, isBuy: bool, price: nat) {
    && Linked(cells, level.head, level.tail, q)
    && AllResting(cells, table, q, isBuy, price)
    && level.total == BookSpec.Units(Entries(cells, q))
  }

  ghost predicate LadderOk(cells: Cells, table: seq<Order?>, ladder: Ladder, isBuy: bool) {
    && |ladder.levels| == |ladder.queues|
    && (|ladder.queues| > 0 ==> ladder.queues[0] == [])
    && forall p {:trigger ladder.queues[p]} :: 0 <= p < |ladder.queues| ==>
         LevelOk(cells, table, ladder.levels[p], ladder.queues[p], isBuy, p)
  }

  /** A table entry leads to a live order with that id, queued at its own price and side. */
  ghost predicate Tabled(s: Store, id: nat)
    requires id < |s.table|
  {
    var o := s.table[id];
    o != null ==>
      && o in s.cells
      && s.cells[o].id == id
      && var queues := s.Side(s.cells[o].isBuy).queues;
         s.cells[o].price < |queues| && o in queues[s.cells[o].price]
  }

  ghost predicate LiveOrder(cells: Cells, table: seq<Order?>, o: Order)
    requires o in cells
  {
    cells[o].id < |table| && table[cells[o].id] == o
  }

  /** Live and free orders partition the pool, and free orders have null links. */
  ghost predicate PoolOk(cells: Cells, table: seq<Order?>, free: seq<Order>) {
    && Distinct(free)
    && (forall i {:trigger free[i]} :: 0 <= i < |free| ==>
          free[i] in cells && cells[free[i]].prev == null && cells[free[i]].next == null && !LiveOrder(cells, table, free[i]))
    && forall o :: o in cells ==> o in free || LiveOrder(cells, table, o)
  }

  ghost predicate StoreOk(s: Store) {
    && |s.bids.queues| == |s.asks.queues|
    && LadderOk(s.cells, s.table, s.bids, true)
    && LadderOk(s.cells, s.table, s.asks, false)
    && (forall id {:trigger s.table[id]} :: 0 <= id < |s.table| ==> Tabled(s, id))
    && PoolOk(s.cells, s.table, s.free)
  }

  // ----- abstraction -----

  ghost function RungsOf(cells: Cells, queues: seq<seq<Order>>, isBuy: bool): (rungs: seq<seq<BookSpec.Entry>>)
    requires forall p, i {:trigger queues[p][i]} :: 0 <= p < |queues| && 0 <= i < |queues[p]| ==> queues[p][i] in cells
    ensures |rungs| == |queues|
    ensures forall r :: 0 <= r < |rungs| ==> rungs[r] == Entries(cells, queues[Rungs.RungPrice(isBuy, |queues|, r)])
  {
    seq(|queues|, r requires 0 <= r < |queues| => Entries(cells, queues[Rungs.RungPrice(isBuy, |queues|, r)]))
  }

  lemma LadderCells(cells: Cells, table: seq<Order?>, ladder: Ladder, isBuy: bool)
    requires LadderOk(cells, table, ladder, isBuy)
    ensures forall p, i {:trigger ladder.queues[p][i]} :: 0 <= p < |ladder.queues| && 0 <= i < |ladder.queues[p]| ==>
              Resting(cells, table, ladder.queues[p][i], isBuy, p)
  {
  }

  ghost function AbsSide(s: Store, isBuy: bool): seq<BookSpec.Entry>
    requires StoreOk(s)
  {
    LadderCells(s.cells, s.table, s.Side(isBuy), isBuy);
    Rungs.Flatten(RungsOf(s.cells, s.Side(isBuy).queues, isBuy))
  }

  /** The abstract book that the memory represents. */
  ghost function Abs(s: Store): BookSpec.Book
    requires StoreOk(s)
  {
    BookSpec.Book(AbsSide(s, true), AbsSide(s, false))
  }
}
