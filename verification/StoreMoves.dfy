/** The three ways the engine changes the memory: an order leaves (cancelled or used up), an order is
    resized where it stands, an order joins the tail of its level. Each keeps the memory well-formed and
    changes the abstract book in the one way it should. */
module StoreMoves {
  import opened BookSpec
  import Rungs
  import opened OrderStore

  // ----- frames -----

  /** A level whose orders are untouched and still tabled stays as it was. */
  lemma LevelFrame(cells: Cells, table: seq<Order?>, cells': Cells, table': seq<Order?>,
                   level: Level, q: seq<Order>, isBuy: bool, price: nat)
    requires LevelOk(cells, table, level, q, isBuy, price)
    requires forall i {:trigger q[i]} :: 0 <= i < |q| ==> q[i] in cells' && cells'[q[i]] == cells[q[i]]
    requires |table'| == |table|
    requires forall i {:trigger q[i]} :: 0 <= i < |q| ==> table'[cells[q[i]].id] == q[i]
    ensures LevelOk(cells', table', level, q, isBuy, price)
    ensures Entries(cells', q) == Entries(cells, q)
  {
    assert Entries(cells', q) == Entries(cells, q);
  }

  /** An order is queued at one level of one side only. */
  lemma OneLevel(s: Store, isBuy: bool, p: nat, i: nat, isBuy': bool, p': nat, i': nat)
    requires StoreOk(s)
    requires p < |s.Side(isBuy).queues| && i < |s.Side(isBuy).queues[p]|
    requires p' < |s.Side(isBuy').queues| && i' < |s.Side(isBuy').queues[p']|
    requires s.Side(isBuy).queues[p][i] == s.Side(isBuy').queues[p'][i']
    ensures isBuy == isBuy' && p == p' && i == i'
  {
    LadderCells(s.cells, s.table, s.Side(isBuy), isBuy);
    LadderCells(s.cells, s.table, s.Side(isBuy'), isBuy');
    assert LevelOk(s.cells, s.table, s.Side(isBuy).levels[p], s.Side(isBuy).queues[p], isBuy, p);
  }

  // ----- removal -----

  ghost function SplicedLevel(level: Level, c: Cell): Level {
    Level(if c.prev != null then level.head else c.next, if c.next != null then level.tail else c.prev, level.total)
  }

  /** The cell of x after o has left its level and gone back to the free list with quantity z: the
      neighbours of o are linked to each other, and o has null links. */
  ghost function RemovedCell(cells: Cells, o: Order, z: nat, x: Order): Cell
    requires o in cells && x in cells
  {
    if x == o then cells[o].(prev := null, next := null, quantity := z)
    else cells[x].(prev := if x == cells[o].next then cells[o].prev else cells[x].prev,
                   next := if x == cells[o].prev then cells[o].next else cells[x].next)
  }

  ghost function RemovedCells(cells: Cells, o: Order, z: nat): Cells
    requires o in cells
  {
    map x | x in cells :: RemovedCell(cells, o, z, x)
  }

  /** The cells after the neighbours of o have been linked to each other. */
  ghost function SplicedCells(cells: Cells, o: Order): Cells
    requires o in cells
  {
    map x | x in cells :: cells[x].(prev := if x == cells[o].next then cells[o].prev else cells[x].prev,
                                    next := if x == cells[o].prev then cells[o].next else cells[x].next)
  }

  /** Resizing, splicing and resetting the links is removing. */
  lemma SpliceThenReset(cells: Cells, o: Order, z: nat)
    requires o in cells && cells[o].prev != o && cells[o].next != o
    ensures var spliced := SplicedCells(cells[o := cells[o].(quantity := z)], o);
            spliced[o := spliced[o].(prev := null, next := null)] == RemovedCells(cells, o, z)
  {
  }

  ghost function CutOut<T>(q: seq<T>, k: nat): (r: seq<T>)
    requires k < |q|
    ensures |r| == |q| - 1
  {
    q[..k] + q[k + 1..]
  }

  ghost predicate Queued(s: Store, isBuy: bool, p: nat, k: nat) {
    && p < |s.Side(isBuy).queues|
    && k < |s.Side(isBuy).queues[p]|
    && |s.Side(isBuy).levels| == |s.Side(isBuy).queues|
  }

  lemma QueuedOrder(s: Store, isBuy: bool, p: nat, k: nat)
    requires StoreOk(s) && Queued(s, isBuy, p, k)
    ensures var q := s.Side(isBuy).queues[p];
            && LevelOk(s.cells, s.table, s.Side(isBuy).levels[p], q, isBuy, p)
            && Resting(s.cells, s.table, q[k], isBuy, p)
            && (s.cells[q[k]].prev != null ==> s.cells[q[k]].prev in s.cells)
            && (s.cells[q[k]].next != null ==> s.cells[q[k]].next in s.cells)
            && s.cells[q[k]].quantity <= s.Side(isBuy).levels[p].total
  {
    var q := s.Side(isBuy).queues[p];
    assert LevelOk(s.cells, s.table, s.Side(isBuy).levels[p], q, isBuy, p);
    if k > 0 {
      assert q[k - 1] in s.cells;
    }
    if k + 1 < |q| {
      assert q[k + 1] in s.cells;
    }
    UnitsCut(Entries(s.cells, q), k);
  }

  lemma UnitsOne(e: Entry)
    ensures Units([e]) == e.qty
  {
  }

  lemma UnitsAround(a: seq<Entry>, e: Entry, c: seq<Entry>)
    ensures Units(a + [e] + c) == Units(a) + e.qty + Units(c)
  {
    hide Units;
    UnitsConcat(a + [e], c);
    UnitsConcat(a, [e]);
    UnitsOne(e);
  }

  lemma UnitsCut(e: seq<Entry>, k: nat)
    requires k < |e|
    ensures Units(CutOut(e, k)) == Units(e) - e[k].qty
    ensures e[k].qty <= Units(e)
  {
    hide Units;
    var a, c := e[..k], e[k + 1..];
    UnitsAround(a, e[k], c);
    UnitsConcat(a, c);
    assert e == a + [e[k]] + c;
  }

  ghost function RemovedLadder(ladder: Ladder, p: nat, k: nat, c: Cell): Ladder
    requires p < |ladder.queues| == |ladder.levels| && k < |ladder.queues[p]|
    requires c.quantity <= ladder.levels[p].total
  {
    var level := SplicedLevel(ladder.levels[p], c);
    Ladder(ladder.levels[p := level.(total := level.total - c.quantity)],
           ladder.queues[p := CutOut(ladder.queues[p], k)])
  }

  /** The memory after order k of level p has left; z is the quantity its freed cell is left with. */
  ghost function Removed(s: Store, isBuy: bool, p: nat, k: nat, z: nat): Store
    requires StoreOk(s) && Queued(s, isBuy, p, k)
  {
    QueuedOrder(s, isBuy, p, k);
    var o := s.Side(isBuy).queues[p][k];
    var ladder := RemovedLadder(s.Side(isBuy), p, k, s.cells[o]);
    Store(RemovedCells(s.cells, o, z), s.table[s.cells[o].id := null],
          if isBuy then ladder else s.bids, if isBuy then s.asks else ladder, s.free + [o])
  }

  /** Indices of the shortened queue. */
  lemma CutAt(q: seq<Order>, k: nat, i: int)
    requires k < |q| && -1 <= i <= |q| - 1
    ensures At(CutOut(q, k), i) == At(q, if i < k then i else i + 1)
  {
  }

  /** What the links of the remaining orders are. */
  lemma RemovedLinks(cells: Cells, level: Level, q: seq<Order>, k: nat, z: nat, j: nat)
    requires Linked(cells, level.head, level.tail, q) && k < |q| && j < |q| && j != k
    ensures q[j] != q[k]
    ensures RemovedCell(cells, q[k], z, q[j]).prev == At(q, if j == k + 1 then k - 1 else j - 1)
    ensures RemovedCell(cells, q[k], z, q[j]).next == At(q, if j + 1 == k then k + 1 else j + 1)
  {
  }

  lemma CutDistinct(q: seq<Order>, k: nat)
    requires Distinct(q) && k < |q|
    ensures Distinct(CutOut(q, k))
  {
  }

  lemma RemovedLinked(cells: Cells, level: Level, q: seq<Order>, k: nat, z: nat)
    requires Linked(cells, level.head, level.tail, q) && k < |q|
    ensures var level' := SplicedLevel(level, cells[q[k]]);
            Linked(RemovedCells(cells, q[k], z), level'.head, level'.tail, CutOut(q, k))
  {
    hide RemovedCell, Distinct, At;
    var cells' := RemovedCells(cells, q[k], z);
    var q' := CutOut(q, k);
    CutDistinct(q, k);
    forall i | 0 <= i < |q'|
      ensures q'[i] in cells' && cells'[q'[i]].prev == At(q', i - 1) && cells'[q'[i]].next == At(q', i + 1)
    {
      var j := if i < k then i else i + 1;
      assert q'[i] == q[j];
      RemovedLinks(cells, level, q, k, z, j);
      CutAt(q, k, i - 1);
      CutAt(q, k, i + 1);
    }
    RemovedEnds(cells, level, q, k);
  }

  lemma RemovedEnds(cells: Cells, level: Level, q: seq<Order>, k: nat)
    requires Linked(cells, level.head, level.tail, q) && k < |q|
    ensures SplicedLevel(level, cells[q[k]]).head == At(CutOut(q, k), 0)
    ensures SplicedLevel(level, cells[q[k]]).tail == At(CutOut(q, k), |q| - 2)
  {
    CutAt(q, k, 0);
    CutAt(q, k, |q| - 2);
  }

  /** The remaining orders still rest, with the data they had. */
  lemma RemovedResting(cells: Cells, table: seq<Order?>, q: seq<Order>, isBuy: bool, p: nat, k: nat, z: nat, j: nat)
    requires AllResting(cells, table, q, isBuy, p) && k < |q| && j < |q| && q[j] != q[k]
    ensures Resting(RemovedCells(cells, q[k], z), table[cells[q[k]].id := null], q[j], isBuy, p)
    ensures var c := RemovedCells(cells, q[k], z)[q[j]];
            c.id == cells[q[j]].id && c.price == cells[q[j]].price && c.quantity == cells[q[j]].quantity
  {
  }

  lemma RemovedAt(cells: Cells, table: seq<Order?>, level: Level, q: seq<Order>, isBuy: bool, p: nat, k: nat, z: nat, i: nat)
    requires LevelOk(cells, table, level, q, isBuy, p) && k < |q| && i < |q| - 1
    ensures CutOut(q, k)[i] == q[if i < k then i else i + 1]
    ensures CutOut(q, k)[i] in RemovedCells(cells, q[k], z)
    ensures Resting(RemovedCells(cells, q[k], z), table[cells[q[k]].id := null], CutOut(q, k)[i], isBuy, p)
    ensures var c := RemovedCells(cells, q[k], z)[CutOut(q, k)[i]];
            Entry(c.id, c.price, c.quantity) == CutOut(Entries(cells, q), k)[i]
  {
    hide Linked, RemovedCells, Resting;
    var j := if i < k then i else i + 1;
    LinkedDistinct(cells, level, q, j, k);
    RemovedResting(cells, table, q, isBuy, p, k, z, j);
  }

  lemma RemovedEntries(cells: Cells, table: seq<Order?>, level: Level, q: seq<Order>, isBuy: bool, p: nat, k: nat, z: nat)
    requires LevelOk(cells, table, level, q, isBuy, p) && k < |q|
    ensures AllResting(RemovedCells(cells, q[k], z), table[cells[q[k]].id := null], CutOut(q, k), isBuy, p)
    ensures Entries(RemovedCells(cells, q[k], z), CutOut(q, k)) == CutOut(Entries(cells, q), k)
  {
    hide Linked, RemovedCells;
    LinkedCells(cells, level, q);
    assert Resting(cells, table, q[k], isBuy, p);
    var cells' := RemovedCells(cells, q[k], z);
    var q' := CutOut(q, k);
    forall i | 0 <= i < |q'|
      ensures q'[i] in cells'
      ensures Resting(cells', table[cells[q[k]].id := null], q'[i], isBuy, p)
      ensures var c := cells'[q'[i]]; Entry(c.id, c.price, c.quantity) == CutOut(Entries(cells, q), k)[i]
    {
      RemovedAt(cells, table, level, q, isBuy, p, k, z, i);
    }
  }

  lemma LinkedCells(cells: Cells, level: Level, q: seq<Order>)
    requires Linked(cells, level.head, level.tail, q)
    ensures forall i :: 0 <= i < |q| ==> q[i] in cells
  {
  }

  lemma LinkedDistinct(cells: Cells, level: Level, q: seq<Order>, i: nat, j: nat)
    requires Linked(cells, level.head, level.tail, q) && i < |q| && j < |q| && i != j
    ensures q[i] != q[j]
  {
  }

  lemma RemovedLevel(cells: Cells, table: seq<Order?>, level: Level, q: seq<Order>, isBuy: bool, p: nat, k: nat, z: nat)
    requires LevelOk(cells, table, level, q, isBuy, p) && k < |q|
    requires cells[q[k]].quantity <= level.total
    ensures var level' := SplicedLevel(level, cells[q[k]]);
            LevelOk(RemovedCells(cells, q[k], z), table[cells[q[k]].id := null],
                    level'.(total := level'.total - cells[q[k]].quantity), CutOut(q, k), isBuy, p)
  {
    hide Linked, RemovedCells, AllResting, CutOut;
    RemovedLinked(cells, level, q, k, z);
    RemovedEntries(cells, table, level, q, isBuy, p, k, z);
    LinkedCells(cells, level, q);
    UnitsCut(Entries(cells, q), k);
  }

  /** Orders of different levels are different. */
  lemma OtherLevel(s: Store, isBuy: bool, p: nat, y: Order?, isBuy': bool, p': nat, i': nat)
    requires StoreOk(s) && p < |s.Side(isBuy).queues|
    requires y == null || y in s.Side(isBuy).queues[p]
    requires p' < |s.Side(isBuy').queues| && i' < |s.Side(isBuy').queues[p']|
    requires isBuy != isBuy' || p != p'
    ensures s.Side(isBuy').queues[p'][i'] != y
  {
    hide StoreOk;
    if y != null {
      var i :| 0 <= i < |s.Side(isBuy).queues[p]| && s.Side(isBuy).queues[p][i] == y;
      if s.Side(isBuy').queues[p'][i'] == y {
        OneLevel(s, isBuy, p, i, isBuy', p', i');
      }
    }
  }

  lemma NeighboursQueued(cells: Cells, level: Level, q: seq<Order>, k: nat)
    requires Linked(cells, level.head, level.tail, q) && k < |q|
    ensures q[k] in cells
    ensures cells[q[k]].prev == null || cells[q[k]].prev in q
    ensures cells[q[k]].next == null || cells[q[k]].next in q
  {
  }

  /** Every other level is untouched by a removal. */
  lemma RemovedElsewhere(s: Store, isBuy: bool, p: nat, k: nat, z: nat, isBuy': bool, p': nat)
    requires StoreOk(s) && Queued(s, isBuy, p, k)
    requires p' < |s.Side(isBuy').queues| && (isBuy != isBuy' || p != p')
    ensures p' < |s.Side(isBuy').levels|
    ensures var s', q' := Removed(s, isBuy, p, k, z), s.Side(isBuy').queues[p'];
            LevelOk(s'.cells, s'.table, s.Side(isBuy').levels[p'], q', isBuy', p')
    ensures (forall i :: 0 <= i < |s.Side(isBuy').queues[p']| ==> s.Side(isBuy').queues[p'][i] in s.cells)
    ensures Entries(RemovedCells(s.cells, s.Side(isBuy).queues[p][k], z), s.Side(isBuy').queues[p']) ==
            Entries(s.cells, s.Side(isBuy').queues[p'])
  {
    hide Linked, AllResting, Resting, PoolOk, Tabled;
    var q, q' := s.Side(isBuy).queues[p], s.Side(isBuy').queues[p'];
    assert LevelOk(s.cells, s.table, s.Side(isBuy).levels[p], q, isBuy, p);
    assert LevelOk(s.cells, s.table, s.Side(isBuy').levels[p'], q', isBuy', p');
    LinkedCells(s.cells, s.Side(isBuy').levels[p'], q');
    NeighboursQueued(s.cells, s.Side(isBuy).levels[p], q, k);
    QueuedOrder(s, isBuy, p, k);
    forall i | 0 <= i < |q'|
      ensures q'[i] != q[k] && q'[i] != s.cells[q[k]].prev && q'[i] != s.cells[q[k]].next
      ensures s.cells[q'[i]].id < |s.table| && Removed(s, isBuy, p, k, z).table[s.cells[q'[i]].id] == q'[i]
    {
      OtherLevel(s, isBuy, p, q[k], isBuy', p', i);
      OtherLevel(s, isBuy, p, s.cells[q[k]].prev, isBuy', p', i);
      OtherLevel(s, isBuy, p, s.cells[q[k]].next, isBuy', p', i);
      RestingIds(s, isBuy, p, k, isBuy', p', i);
    }
    LevelFrame(s.cells, s.table, Removed(s, isBuy, p, k, z).cells, Removed(s, isBuy, p, k, z).table,
               s.Side(isBuy').levels[p'], q', isBuy', p');
  }

  /** Queued orders are found under their ids, so different orders have different ids. */
  lemma RestingIds(s: Store, isBuy: bool, p: nat, i: nat, isBuy': bool, p': nat, i': nat)
    requires StoreOk(s)
    requires p < |s.Side(isBuy).queues| && i < |s.Side(isBuy).queues[p]|
    requires p' < |s.Side(isBuy').queues| && i' < |s.Side(isBuy').queues[p']|
    ensures var o, x := s.Side(isBuy).queues[p][i], s.Side(isBuy').queues[p'][i'];
            && o in s.cells && x in s.cells
            && s.cells[o].id < |s.table| && s.table[s.cells[o].id] == o
            && s.cells[x].id < |s.table| && s.table[s.cells[x].id] == x
            && (s.cells[o].id == s.cells[x].id ==> isBuy == isBuy' && p == p' && i == i')
  {
    LadderCells(s.cells, s.table, s.Side(isBuy), isBuy);
    LadderCells(s.cells, s.table, s.Side(isBuy'), isBuy');
    var o, x := s.Side(isBuy).queues[p][i], s.Side(isBuy').queues[p'][i'];
    assert Resting(s.cells, s.table, o, isBuy, p) && Resting(s.cells, s.table, x, isBuy', p');
    if o == x {
      OneLevel(s, isBuy, p, i, isBuy', p', i');
    }
  }

  lemma RemovedLadders(s: Store, isBuy: bool, p: nat, k: nat, z: nat, isBuy': bool)
    requires StoreOk(s) && Queued(s, isBuy, p, k)
    ensures var s' := Removed(s, isBuy, p, k, z);
            LadderOk(s'.cells, s'.table, s'.Side(isBuy'), isBuy')
  {
    hide LevelOk, PoolOk, Tabled;
    var s' := Removed(s, isBuy, p, k, z);
    var ladder, ladder' := s.Side(isBuy'), s'.Side(isBuy');
    QueuedOrder(s, isBuy, p, k);
    forall p' | 0 <= p' < |ladder'.queues|
      ensures LevelOk(s'.cells, s'.table, ladder'.levels[p'], ladder'.queues[p'], isBuy', p')
    {
      if isBuy' == isBuy && p' == p {
        RemovedLevel(s.cells, s.table, ladder.levels[p], ladder.queues[p], isBuy, p, k, z);
      } else {
        RemovedElsewhere(s, isBuy, p, k, z, isBuy', p');
      }
    }
  }

  lemma CutMember<T>(q: seq<T>, k: nat, x: T)
    requires k < |q| && x in q && x != q[k]
    ensures x in CutOut(q, k)
  {
  }

  lemma RemovedTable(s: Store, isBuy: bool, p: nat, k: nat, z: nat, id: nat)
    requires StoreOk(s) && Queued(s, isBuy, p, k) && id < |s.table|
    ensures Tabled(Removed(s, isBuy, p, k, z), id)
  {
    hide LadderOk, PoolOk, CutOut, Linked, AllResting;
    QueuedOrder(s, isBuy, p, k);
    var q := s.Side(isBuy).queues[p];
    var x := Removed(s, isBuy, p, k, z).table[id];
    if x != null {
      assert Tabled(s, id);
      assert x != q[k];
      var c := Removed(s, isBuy, p, k, z).cells[x];
      assert c.id == id && c.isBuy == s.cells[x].isBuy && c.price == s.cells[x].price;
      if s.cells[x].isBuy == isBuy && s.cells[x].price == p {
        CutMember<Order>(q, k, x);
      }
    }
  }

  lemma FreeNotQueued(s: Store, isBuy: bool, p: nat, x: Order)
    requires StoreOk(s) && p < |s.Side(isBuy).queues| && x in s.free
    ensures x in s.cells && !LiveOrder(s.cells, s.table, x) && x !in s.Side(isBuy).queues[p]
    ensures s.cells[x].prev == null && s.cells[x].next == null
  {
    hide Linked;
    assert PoolOk(s.cells, s.table, s.free);
    var i :| 0 <= i < |s.free| && s.free[i] == x;
    LadderCells(s.cells, s.table, s.Side(isBuy), isBuy);
    assert AllResting(s.cells, s.table, s.Side(isBuy).queues[p], isBuy, p);
  }

  /** A free order is untouched by a removal and stays dead. */
  lemma RemovedFree(s: Store, isBuy: bool, p: nat, k: nat, z: nat, x: Order)
    requires StoreOk(s) && Queued(s, isBuy, p, k) && x in s.free
    ensures var s' := Removed(s, isBuy, p, k, z);
            && x in s'.cells && x != s.Side(isBuy).queues[p][k]
            && s'.cells[x].prev == null && s'.cells[x].next == null && !LiveOrder(s'.cells, s'.table, x)
  {
    hide StoreOk, Linked, AllResting;
    QueuedOrder(s, isBuy, p, k);
    var q := s.Side(isBuy).queues[p];
    NeighboursQueued(s.cells, s.Side(isBuy).levels[p], q, k);
    FreeNotQueued(s, isBuy, p, x);
  }

  /** A live order other than the removed one stays live. */
  lemma RemovedLive(s: Store, isBuy: bool, p: nat, k: nat, z: nat, x: Order)
    requires StoreOk(s) && Queued(s, isBuy, p, k) && x in s.cells && x != s.Side(isBuy).queues[p][k]
    requires LiveOrder(s.cells, s.table, x)
    ensures var s' := Removed(s, isBuy, p, k, z);
            x in s'.cells && LiveOrder(s'.cells, s'.table, x)
  {
    hide StoreOk, Linked, AllResting;
    QueuedOrder(s, isBuy, p, k);
  }

  lemma RemovedPool(s: Store, isBuy: bool, p: nat, k: nat, z: nat)
    requires StoreOk(s) && Queued(s, isBuy, p, k)
    ensures var s' := Removed(s, isBuy, p, k, z);
            PoolOk(s'.cells, s'.table, s'.free)
  {
    hide StoreOk, Linked, AllResting, RemovedLadder, CutOut;
    QueuedOrder(s, isBuy, p, k);
    var s' := Removed(s, isBuy, p, k, z);
    var o := s.Side(isBuy).queues[p][k];
    PoolFacts(s);
    forall i | 0 <= i < |s'.free|
      ensures s'.free[i] in s'.cells && s'.cells[s'.free[i]].prev == null && s'.cells[s'.free[i]].next == null
      ensures !LiveOrder(s'.cells, s'.table, s'.free[i])
      ensures i < |s.free| ==> s'.free[i] != o
    {
      if i < |s.free| {
        assert s'.free[i] == s.free[i];
        RemovedFree(s, isBuy, p, k, z, s.free[i]);
      }
    }
    forall x | x in s'.cells
      ensures x in s'.free || LiveOrder(s'.cells, s'.table, x)
    {
      assert x in s.cells;
      if x != o && x !in s.free {
        RemovedLive(s, isBuy, p, k, z, x);
      }
    }
  }

  lemma PoolFacts(s: Store)
    requires StoreOk(s)
    ensures Distinct(s.free)
    ensures forall x :: x in s.cells ==> x in s.free || LiveOrder(s.cells, s.table, x)
  {
    assert PoolOk(s.cells, s.table, s.free);
  }

  /** An order stands once in the rungs of its side, and its id nowhere else. */
  lemma RungsOnly(s: Store, isBuy: bool, p: nat, k: nat, r: nat)
    requires StoreOk(s) && Queued(s, isBuy, p, k)
    requires r < |s.Side(isBuy).queues| && Rungs.RungPrice(isBuy, |s.Side(isBuy).queues|, r) == p
    requires forall q, i {:trigger s.Side(isBuy).queues[q][i]} :: 0 <= q < |s.Side(isBuy).queues| && 0 <= i < |s.Side(isBuy).queues[q]| ==>
               s.Side(isBuy).queues[q][i] in s.cells
    ensures Rungs.OnlyAt(RungsOf(s.cells, s.Side(isBuy).queues, isBuy), r, k)
  {
    hide StoreOk;
    var queues := s.Side(isBuy).queues;
    var rungs: seq<seq<Entry>> := RungsOf(s.cells, queues, isBuy);
    forall q: nat, i: nat | q < |rungs| && i < |rungs[q]| && !(q == r && i == k)
      ensures rungs[q][i].id != rungs[r][k].id
    {
      RestingIds(s, isBuy, p, k, isBuy, Rungs.RungPrice(isBuy, |queues|, q), i);
    }
  }

  lemma RemovedAbs(s: Store, isBuy: bool, p: nat, k: nat, z: nat)
    requires StoreOk(s) && Queued(s, isBuy, p, k)
    requires StoreOk(Removed(s, isBuy, p, k, z))
    ensures s.Side(isBuy).queues[p][k] in s.cells
    ensures AbsSide(Removed(s, isBuy, p, k, z), isBuy) ==
            Without(AbsSide(s, isBuy), s.cells[s.Side(isBuy).queues[p][k]].id)
    ensures Has(AbsSide(s, isBuy), s.cells[s.Side(isBuy).queues[p][k]].id)
  {
    hide StoreOk, Linked, AllResting, Resting, PoolOk, Tabled, Rungs.Flatten;
    QueuedOrder(s, isBuy, p, k);
    var s' := Removed(s, isBuy, p, k, z);
    SideCells(s, isBuy);
    SideCells(s', isBuy);
    var queues := s.Side(isBuy).queues;
    var rungs: seq<seq<Entry>> := RungsOf(s.cells, queues, isBuy);
    var r := if isBuy then |queues| - 1 - p else p;
    RungsOnly(s, isBuy, p, k, r);
    Rungs.FlattenWithout(rungs, r, k);
    forall i | 0 <= i < |rungs|
      ensures RungsOf(s'.cells, s'.Side(isBuy).queues, isBuy)[i] == rungs[r := CutOut(rungs[r], k)][i]
    {
      if i == r {
        RemovedEntries(s.cells, s.table, s.Side(isBuy).levels[p], queues[p], isBuy, p, k, z);
      } else {
        RemovedElsewhere(s, isBuy, p, k, z, isBuy, Rungs.RungPrice(isBuy, |queues|, i));
      }
    }
    assert RungsOf(s'.cells, s'.Side(isBuy).queues, isBuy) == rungs[r := CutOut(rungs[r], k)];
  }

  lemma RemovedAbsOther(s: Store, isBuy: bool, p: nat, k: nat, z: nat)
    requires StoreOk(s) && Queued(s, isBuy, p, k)
    requires StoreOk(Removed(s, isBuy, p, k, z))
    ensures AbsSide(Removed(s, isBuy, p, k, z), !isBuy) == AbsSide(s, !isBuy)
  {
    hide StoreOk, Linked, AllResting, Resting, PoolOk, Tabled, Rungs.Flatten;
    QueuedOrder(s, isBuy, p, k);
    var s' := Removed(s, isBuy, p, k, z);
    SideCells(s, !isBuy);
    SideCells(s', !isBuy);
    var other: seq<seq<Entry>> := RungsOf(s.cells, s.Side(!isBuy).queues, !isBuy);
    forall i | 0 <= i < |other|
      ensures RungsOf(s'.cells, s'.Side(!isBuy).queues, !isBuy)[i] == other[i]
    {
      RemovedElsewhere(s, isBuy, p, k, z, !isBuy, Rungs.RungPrice(!isBuy, |other|, i));
    }
    assert RungsOf(s'.cells, s'.Side(!isBuy).queues, !isBuy) == other;
  }

  lemma SideCells(s: Store, isBuy: bool)
    requires StoreOk(s)
    ensures |s.bids.queues| == |s.asks.queues|
    ensures forall p, i {:trigger s.Side(isBuy).queues[p][i]} :: 0 <= p < |s.Side(isBuy).queues| && 0 <= i < |s.Side(isBuy).queues[p]| ==>
              s.Side(isBuy).queues[p][i] in s.cells
    ensures AbsSide(s, isBuy) == Rungs.Flatten(RungsOf(s.cells, s.Side(isBuy).queues, isBuy))
  {
  }

  /** An order leaves: the memory stays well-formed and the book loses exactly that order. */
  lemma RemovedOk(s: Store, isBuy: bool, p: nat, k: nat, z: nat)
    requires StoreOk(s) && Queued(s, isBuy, p, k)
    ensures StoreOk(Removed(s, isBuy, p, k, z))
    ensures s.Side(isBuy).queues[p][k] in s.cells
    ensures Abs(Removed(s, isBuy, p, k, z)) ==
            Abs(s).With(isBuy, Without(Abs(s).Side(isBuy), s.cells[s.Side(isBuy).queues[p][k]].id))
    ensures Has(Abs(s).Side(isBuy), s.cells[s.Side(isBuy).queues[p][k]].id)
  {
    hide LadderOk, Tabled, PoolOk;
    var s' := Removed(s, isBuy, p, k, z);
    RemovedLadders(s, isBuy, p, k, z, true);
    RemovedLadders(s, isBuy, p, k, z, false);
    RemovedPool(s, isBuy, p, k, z);
    forall id | 0 <= id < |s'.table|
      ensures Tabled(s', id)
    {
      QueuedOrder(s, isBuy, p, k);
      RemovedTable(s, isBuy, p, k, z, id);
    }
    RemovedAbs(s, isBuy, p, k, z);
    RemovedAbsOther(s, isBuy, p, k, z);
  }

  // ----- resizing in place -----

  /** The memory after the quantity of order k of level p has been lowered to z. */
  ghost function Resized(s: Store, isBuy: bool, p: nat, k: nat, z: nat): Store
    requires StoreOk(s) && Queued(s, isBuy, p, k)
    requires var o := s.Side(isBuy).queues[p][k]; o in s.cells && z <= s.cells[o].quantity
  {
    QueuedOrder(s, isBuy, p, k);
    var o := s.Side(isBuy).queues[p][k];
    var level := s.Side(isBuy).levels[p];
    var levels := s.Side(isBuy).levels[p := level.(total := level.total - (s.cells[o].quantity - z))];
    var ladder := Ladder(levels, s.Side(isBuy).queues);
    Store(s.cells[o := s.cells[o].(quantity := z)], s.table,
          if isBuy then ladder else s.bids, if isBuy then s.asks else ladder, s.free)
  }

  lemma UnitsUpdate(e: seq<Entry>, k: nat, x: Entry)
    requires k < |e|
    ensures Units(e[k := x]) == Units(e) - e[k].qty + x.qty
  {
    hide Units;
    var a, c := e[..k], e[k + 1..];
    UnitsAround(a, e[k], c);
    UnitsAround(a, x, c);
    assert e == a + [e[k]] + c;
    assert e[k := x] == a + [x] + c;
  }

  lemma ResizedLinked(cells: Cells, level: Level, q: seq<Order>, o: Order, z: nat)
    requires Linked(cells, level.head, level.tail, q) && o in cells
    ensures Linked(cells[o := cells[o].(quantity := z)], level.head, level.tail, q)
  {
  }

  lemma ResizedResting(cells: Cells, table: seq<Order?>, q: seq<Order>, isBuy: bool, p: nat, o: Order, z: nat)
    requires AllResting(cells, table, q, isBuy, p) && o in cells && 0 < z < MAX_QTY
    ensures AllResting(cells[o := cells[o].(quantity := z)], table, q, isBuy, p)
  {
  }

  lemma ResizedEntries(cells: Cells, level: Level, q: seq<Order>, k: nat, z: nat)
    requires Linked(cells, level.head, level.tail, q) && k < |q|
    requires forall i :: 0 <= i < |q| ==> q[i] in cells
    ensures var e := Entries(cells, q);
            Entries(cells[q[k] := cells[q[k]].(quantity := z)], q) == e[k := e[k].(qty := z)]
  {
    hide Linked;
    var cells' := cells[q[k] := cells[q[k]].(quantity := z)];
    forall i | 0 <= i < |q|
      ensures Entries(cells', q)[i] == Entries(cells, q)[k := Entries(cells, q)[k].(qty := z)][i]
    {
      if i != k {
        LinkedDistinct(cells, level, q, i, k);
      }
    }
  }

  lemma ResizedLevel(cells: Cells, table: seq<Order?>, level: Level, q: seq<Order>, isBuy: bool, p: nat, k: nat, z: nat)
    requires LevelOk(cells, table, level, q, isBuy, p) && k < |q| && q[k] in cells
    requires 0 < z <= cells[q[k]].quantity <= level.total && cells[q[k]].quantity < MAX_QTY
    ensures LevelOk(cells[q[k] := cells[q[k]].(quantity := z)], table,
                    level.(total := level.total - (cells[q[k]].quantity - z)), q, isBuy, p)
  {
    hide Linked, AllResting;
    LinkedCells(cells, level, q);
    ResizedLinked(cells, level, q, q[k], z);
    ResizedResting(cells, table, q, isBuy, p, q[k], z);
    ResizedEntries(cells, level, q, k, z);
    UnitsUpdate(Entries(cells, q), k, Entries(cells, q)[k].(qty := z));
  }

  ghost predicate Resizable(s: Store, isBuy: bool, p: nat, k: nat, z: nat) {
    && Queued(s, isBuy, p, k)
    && s.Side(isBuy).queues[p][k] in s.cells
    && 0 < z <= s.cells[s.Side(isBuy).queues[p][k]].quantity
  }

  lemma ResizedElsewhere(s: Store, isBuy: bool, p: nat, k: nat, z: nat, isBuy': bool, p': nat)
    requires StoreOk(s) && Resizable(s, isBuy, p, k, z)
    requires p' < |s.Side(isBuy').queues| && (isBuy != isBuy' || p != p')
    ensures p' < |s.Side(isBuy').levels|
    ensures var s', q' := Resized(s, isBuy, p, k, z), s.Side(isBuy').queues[p'];
            && LevelOk(s'.cells, s'.table, s.Side(isBuy').levels[p'], q', isBuy', p')
            && (forall i :: 0 <= i < |q'| ==> q'[i] in s.cells && q'[i] in s'.cells)
            && Entries(s'.cells, q') == Entries(s.cells, q')
  {
    hide Linked, AllResting, Resting, PoolOk, Tabled;
    var q, q' := s.Side(isBuy).queues[p], s.Side(isBuy').queues[p'];
    assert LevelOk(s.cells, s.table, s.Side(isBuy').levels[p'], q', isBuy', p');
    LinkedCells(s.cells, s.Side(isBuy').levels[p'], q');
    forall i | 0 <= i < |q'|
      ensures q'[i] != q[k]
      ensures s.cells[q'[i]].id < |s.table| && s.table[s.cells[q'[i]].id] == q'[i]
    {
      OtherLevel(s, isBuy, p, q[k], isBuy', p', i);
      RestingIds(s, isBuy, p, k, isBuy', p', i);
    }
    LevelFrame(s.cells, s.table, Resized(s, isBuy, p, k, z).cells, s.table, s.Side(isBuy').levels[p'], q', isBuy', p');
  }

  lemma ResizedLadders(s: Store, isBuy: bool, p: nat, k: nat, z: nat, isBuy': bool)
    requires StoreOk(s) && Resizable(s, isBuy, p, k, z)
    ensures var s' := Resized(s, isBuy, p, k, z);
            LadderOk(s'.cells, s'.table, s'.Side(isBuy'), isBuy')
  {
    hide LevelOk, PoolOk, Tabled;
    var s' := Resized(s, isBuy, p, k, z);
    var ladder, ladder' := s.Side(isBuy'), s'.Side(isBuy');
    QueuedOrder(s, isBuy, p, k);
    forall p' | 0 <= p' < |ladder'.queues|
      ensures LevelOk(s'.cells, s'.table, ladder'.levels[p'], ladder'.queues[p'], isBuy', p')
    {
      if isBuy' == isBuy && p' == p {
        ResizedLevel(s.cells, s.table, ladder.levels[p], ladder.queues[p], isBuy, p, k, z);
      } else {
        ResizedElsewhere(s, isBuy, p, k, z, isBuy', p');
      }
    }
  }

  lemma ResizedTable(s: Store, isBuy: bool, p: nat, k: nat, z: nat, id: nat)
    requires StoreOk(s) && Resizable(s, isBuy, p, k, z) && id < |s.table|
    ensures Tabled(Resized(s, isBuy, p, k, z), id)
  {
    hide LadderOk, PoolOk;
    assert Tabled(s, id);
  }

  lemma ResizedPool(s: Store, isBuy: bool, p: nat, k: nat, z: nat)
    requires StoreOk(s) && Resizable(s, isBuy, p, k, z)
    ensures var s' := Resized(s, isBuy, p, k, z);
            PoolOk(s'.cells, s'.table, s'.free)
  {
    hide LadderOk, Tabled;
    assert PoolOk(s.cells, s.table, s.free);
  }

  lemma ResizedAbs(s: Store, isBuy: bool, p: nat, k: nat, z: nat)
    requires StoreOk(s) && Resizable(s, isBuy, p, k, z)
    requires StoreOk(Resized(s, isBuy, p, k, z))
    ensures AbsSide(Resized(s, isBuy, p, k, z), isBuy) ==
            Resize(AbsSide(s, isBuy), s.cells[s.Side(isBuy).queues[p][k]].id, z)
    ensures AbsSide(Resized(s, isBuy, p, k, z), !isBuy) == AbsSide(s, !isBuy)
  {
    hide StoreOk, Linked, AllResting, Resting, PoolOk, Tabled, Rungs.Flatten;
    QueuedOrder(s, isBuy, p, k);
    var s' := Resized(s, isBuy, p, k, z);
    SideCells(s, isBuy);
    SideCells(s, !isBuy);
    SideCells(s', isBuy);
    SideCells(s', !isBuy);
    var queues := s.Side(isBuy).queues;
    var rungs: seq<seq<Entry>> := RungsOf(s.cells, queues, isBuy);
    var r := if isBuy then |queues| - 1 - p else p;
    RungsOnly(s, isBuy, p, k, r);
    Rungs.FlattenResize(rungs, r, k, z);
    var rung := rungs[r][k := rungs[r][k].(qty := z)];
    forall i | 0 <= i < |rungs|
      ensures RungsOf(s'.cells, s'.Side(isBuy).queues, isBuy)[i] == rungs[r := rung][i]
    {
      if i == r {
        ResizedEntries(s.cells, s.Side(isBuy).levels[p], queues[p], k, z);
      } else {
        ResizedElsewhere(s, isBuy, p, k, z, isBuy, Rungs.RungPrice(isBuy, |queues|, i));
      }
    }
    assert RungsOf(s'.cells, s'.Side(isBuy).queues, isBuy) == rungs[r := rung];
    var other: seq<seq<Entry>> := RungsOf(s.cells, s.Side(!isBuy).queues, !isBuy);
    forall i | 0 <= i < |other|
      ensures RungsOf(s'.cells, s'.Side(!isBuy).queues, !isBuy)[i] == other[i]
    {
      ResizedElsewhere(s, isBuy, p, k, z, !isBuy, Rungs.RungPrice(!isBuy, |other|, i));
    }
    assert RungsOf(s'.cells, s'.Side(!isBuy).queues, !isBuy) == other;
  }

  /** An order is resized: the memory stays well-formed and the order keeps its place in the book. */
  lemma ResizedOk(s: Store, isBuy: bool, p: nat, k: nat, z: nat)
    requires StoreOk(s) && Resizable(s, isBuy, p, k, z)
    ensures StoreOk(Resized(s, isBuy, p, k, z))
    ensures Abs(Resized(s, isBuy, p, k, z)) ==
            Abs(s).With(isBuy, Resize(Abs(s).Side(isBuy), s.cells[s.Side(isBuy).queues[p][k]].id, z))
  {
    hide LadderOk, Tabled, PoolOk;
    ResizedLadders(s, isBuy, p, k, z, true);
    ResizedLadders(s, isBuy, p, k, z, false);
    ResizedPool(s, isBuy, p, k, z);
    forall id | 0 <= id < |s.table|
      ensures Tabled(Resized(s, isBuy, p, k, z), id)
    {
      ResizedTable(s, isBuy, p, k, z, id);
    }
    assert |Resized(s, isBuy, p, k, z).bids.queues| == |Resized(s, isBuy, p, k, z).asks.queues|;
    ResizedAbs(s, isBuy, p, k, z);
  }

  // ----- joining -----

  /** The cell of x after the free order o has been filled in and linked behind tail. */
  ghost function JoinedCell(cells: Cells, o: Order, tail: Order?, e: Entry, isBuy: bool, x: Order): Cell
    requires x in cells
  {
    if x == o then Cell(e.id, tail, null, e.price, e.qty, isBuy)
    else if x == tail then cells[x].(next := o)
    else cells[x]
  }

  ghost function JoinedCells(cells: Cells, o: Order, tail: Order?, e: Entry, isBuy: bool): Cells {
    map x | x in cells :: JoinedCell(cells, o, tail, e, isBuy, x)
  }

  ghost function JoinedLevel(level: Level, o: Order, qty: nat): Level {
    Level(if level.head == null then o else level.head, o, level.total + qty)
  }

  /** There is a free order for e, its id is not live, and its price and quantity are in range. */
  ghost predicate Joinable(s: Store, e: Entry, isBuy: bool) {
    && s.free != []
    && e.id < |s.table| && s.table[e.id] == null
    && 0 < e.price < |s.Side(isBuy).queues| == |s.Side(isBuy).levels|
    && 0 < e.qty < MAX_QTY
  }

  /** The memory after the top free order has joined the tail of its level as e. */
  ghost function Joined(s: Store, e: Entry, isBuy: bool): Store
    requires Joinable(s, e, isBuy)
  {
    var o := s.free[|s.free| - 1];
    var ladder := s.Side(isBuy);
    var level := ladder.levels[e.price];
    var ladder' := Ladder(ladder.levels[e.price := JoinedLevel(level, o, e.qty)],
                          ladder.queues[e.price := ladder.queues[e.price] + [o]]);
    Store(JoinedCells(s.cells, o, level.tail, e, isBuy), s.table[e.id := o],
          if isBuy then ladder' else s.bids, if isBuy then s.asks else ladder', s.free[..|s.free| - 1])
  }

  lemma JoinedLinked(cells: Cells, level: Level, q: seq<Order>, o: Order, e: Entry, isBuy: bool)
    requires Linked(cells, level.head, level.tail, q) && o in cells && o !in q
    ensures var level' := JoinedLevel(level, o, e.qty);
            Linked(JoinedCells(cells, o, level.tail, e, isBuy), level'.head, level'.tail, q + [o])
  {
    var cells' := JoinedCells(cells, o, level.tail, e, isBuy);
    var q' := q + [o];
    forall i | 0 <= i < |q'|
      ensures q'[i] in cells' && cells'[q'[i]].prev == At(q', i - 1) && cells'[q'[i]].next == At(q', i + 1)
    {
      if i < |q| {
        assert q'[i] == q[i];
        assert i < |q| - 1 ==> q[i] != q[|q| - 1];
      }
    }
  }

  lemma JoinedResting(cells: Cells, table: seq<Order?>, q: seq<Order>, isBuy: bool, p: nat, o: Order, tail: Order?, e: Entry)
    requires AllResting(cells, table, q, isBuy, p) && o in cells && o !in q
    requires e.id < |table| && table[e.id] == null && e.price == p && 0 < e.qty < MAX_QTY
    ensures AllResting(JoinedCells(cells, o, tail, e, isBuy), table[e.id := o], q + [o], isBuy, p)
  {
  }

  lemma JoinedEntries(cells: Cells, q: seq<Order>, o: Order, tail: Order?, e: Entry, isBuy: bool)
    requires (forall i :: 0 <= i < |q| ==> q[i] in cells) && o in cells && o !in q
    ensures forall i :: 0 <= i < |q + [o]| ==> (q + [o])[i] in JoinedCells(cells, o, tail, e, isBuy)
    ensures Entries(JoinedCells(cells, o, tail, e, isBuy), q + [o]) == Entries(cells, q) + [e]
  {
  }

  lemma JoinedLevelOk(cells: Cells, table: seq<Order?>, level: Level, q: seq<Order>, isBuy: bool, p: nat, o: Order, e: Entry)
    requires LevelOk(cells, table, level, q, isBuy, p) && o in cells && o !in q
    requires e.id < |table| && table[e.id] == null && e.price == p && 0 < e.qty < MAX_QTY
    ensures LevelOk(JoinedCells(cells, o, level.tail, e, isBuy), table[e.id := o], JoinedLevel(level, o, e.qty), q + [o], isBuy, p)
  {
    hide Linked, AllResting, JoinedCells;
    LinkedCells(cells, level, q);
    JoinedLinked(cells, level, q, o, e, isBuy);
    JoinedResting(cells, table, q, isBuy, p, o, level.tail, e);
    JoinedEntries(cells, q, o, level.tail, e, isBuy);
    UnitsConcat(Entries(cells, q), [e]);
    UnitsOne(e);
  }

  lemma TailQueued(cells: Cells, level: Level, q: seq<Order>)
    requires Linked(cells, level.head, level.tail, q)
    ensures level.tail == null || level.tail in q
  {
  }

  lemma JoinedElsewhere(s: Store, e: Entry, isBuy: bool, isBuy': bool, p': nat)
    requires StoreOk(s) && Joinable(s, e, isBuy)
    requires p' < |s.Side(isBuy').queues| && (isBuy != isBuy' || e.price != p')
    ensures p' < |s.Side(isBuy').levels|
    ensures var s', q' := Joined(s, e, isBuy), s.Side(isBuy').queues[p'];
            && LevelOk(s'.cells, s'.table, s.Side(isBuy').levels[p'], q', isBuy', p')
            && (forall i :: 0 <= i < |q'| ==> q'[i] in s.cells && q'[i] in s'.cells)
            && Entries(s'.cells, q') == Entries(s.cells, q')
  {
    hide Linked, AllResting, Resting, PoolOk, Tabled;
    var o := s.free[|s.free| - 1];
    var level := s.Side(isBuy).levels[e.price];
    var q, q' := s.Side(isBuy).queues[e.price], s.Side(isBuy').queues[p'];
    assert LevelOk(s.cells, s.table, level, q, isBuy, e.price);
    assert LevelOk(s.cells, s.table, s.Side(isBuy').levels[p'], q', isBuy', p');
    LinkedCells(s.cells, s.Side(isBuy').levels[p'], q');
    TailQueued(s.cells, level, q);
    FreeNotQueued(s, isBuy', p', o);
    forall i | 0 <= i < |q'|
      ensures q'[i] != o && q'[i] != level.tail
      ensures s.cells[q'[i]].id < |s.table| && s.table[s.cells[q'[i]].id] == q'[i]
    {
      OtherLevel(s, isBuy, e.price, level.tail, isBuy', p', i);
      RestingIds(s, isBuy', p', i, isBuy', p', i);
    }
    LevelFrame(s.cells, s.table, Joined(s, e, isBuy).cells, Joined(s, e, isBuy).table,
               s.Side(isBuy').levels[p'], q', isBuy', p');
  }

  lemma JoinedLadders(s: Store, e: Entry, isBuy: bool, isBuy': bool)
    requires StoreOk(s) && Joinable(s, e, isBuy)
    ensures var s' := Joined(s, e, isBuy);
            LadderOk(s'.cells, s'.table, s'.Side(isBuy'), isBuy')
  {
    hide LevelOk, PoolOk, Tabled;
    var s' := Joined(s, e, isBuy);
    var ladder, ladder' := s.Side(isBuy'), s'.Side(isBuy');
    FreeNotQueued(s, isBuy, e.price, s.free[|s.free| - 1]);
    forall p' | 0 <= p' < |ladder'.queues|
      ensures LevelOk(s'.cells, s'.table, ladder'.levels[p'], ladder'.queues[p'], isBuy', p')
    {
      if isBuy' == isBuy && p' == e.price {
        JoinedLevelOk(s.cells, s.table, ladder.levels[p'], ladder.queues[p'], isBuy, p', s.free[|s.free| - 1], e);
      } else {
        JoinedElsewhere(s, e, isBuy, isBuy', p');
      }
    }
  }

  lemma JoinedTable(s: Store, e: Entry, isBuy: bool, id: nat)
    requires StoreOk(s) && Joinable(s, e, isBuy) && id < |s.table|
    ensures Tabled(Joined(s, e, isBuy), id)
  {
    hide LadderOk, Linked, AllResting, LevelOk;
    var s' := Joined(s, e, isBuy);
    var o := s.free[|s.free| - 1];
    FreeNotQueued(s, isBuy, e.price, o);
    if id == e.id {
      assert o in s.Side(isBuy).queues[e.price] + [o];
    } else if s.table[id] != null {
      var x := s.table[id];
      assert Tabled(s, id);
      assert x != o;
      assert s'.cells[x].id == id && s'.cells[x].isBuy == s.cells[x].isBuy && s'.cells[x].price == s.cells[x].price;
      if s.cells[x].isBuy == isBuy && s.cells[x].price == e.price {
        assert x in s.Side(isBuy).queues[e.price] + [o];
      }
    }
  }

  lemma JoinedPool(s: Store, e: Entry, isBuy: bool)
    requires StoreOk(s) && Joinable(s, e, isBuy)
    ensures var s' := Joined(s, e, isBuy);
            PoolOk(s'.cells, s'.table, s'.free)
  {
    hide LadderOk, Linked, AllResting, LevelOk, Tabled, JoinedLevel;
    var s' := Joined(s, e, isBuy);
    var o := s.free[|s.free| - 1];
    PoolFacts(s);
    forall i | 0 <= i < |s'.free|
      ensures s'.free[i] in s'.cells && s'.cells[s'.free[i]].prev == null && s'.cells[s'.free[i]].next == null
      ensures !LiveOrder(s'.cells, s'.table, s'.free[i])
    {
      JoinedFree(s, e, isBuy, i);
    }
    forall x | x in s'.cells
      ensures x in s'.free || LiveOrder(s'.cells, s'.table, x)
    {
      assert x in s.cells;
      assert x in s.free && x != o ==> x in s'.free;
    }
  }

  /** The other free orders are untouched. */
  lemma JoinedFree(s: Store, e: Entry, isBuy: bool, i: nat)
    requires StoreOk(s) && Joinable(s, e, isBuy) && i < |s.free| - 1
    ensures var s' := Joined(s, e, isBuy);
            && s.free[i] in s'.cells && s'.cells[s.free[i]].prev == null && s'.cells[s.free[i]].next == null
            && !LiveOrder(s'.cells, s'.table, s.free[i])
  {
    hide Linked, AllResting, Tabled;
    var level, q := s.Side(isBuy).levels[e.price], s.Side(isBuy).queues[e.price];
    PoolFacts(s);
    assert LevelOk(s.cells, s.table, level, q, isBuy, e.price);
    TailQueued(s.cells, level, q);
    FreeNotQueued(s, isBuy, e.price, s.free[i]);
  }

  lemma JoinedAbs(s: Store, e: Entry, isBuy: bool)
    requires StoreOk(s) && Joinable(s, e, isBuy)
    requires StoreOk(Joined(s, e, isBuy))
    ensures AbsSide(Joined(s, e, isBuy), isBuy) == Insert(AbsSide(s, isBuy), isBuy, e)
    ensures AbsSide(Joined(s, e, isBuy), !isBuy) == AbsSide(s, !isBuy)
  {
    hide StoreOk, Linked, AllResting, Resting, PoolOk, Tabled, Rungs.Flatten;
    var s' := Joined(s, e, isBuy);
    SideCells(s, isBuy);
    SideCells(s, !isBuy);
    SideCells(s', isBuy);
    SideCells(s', !isBuy);
    var queues := s.Side(isBuy).queues;
    var o := s.free[|s.free| - 1];
    var rungs: seq<seq<Entry>> := RungsOf(s.cells, queues, isBuy);
    var r := if isBuy then |queues| - 1 - e.price else e.price;
    RungsPriced(s, isBuy);
    Rungs.FlattenInsert(rungs, isBuy, r, e);
    FreeNotQueued(s, isBuy, e.price, o);
    forall i | 0 <= i < |rungs|
      ensures RungsOf(s'.cells, s'.Side(isBuy).queues, isBuy)[i] == rungs[r := rungs[r] + [e]][i]
    {
      if i == r {
        JoinedEntries(s.cells, queues[e.price], o, s.Side(isBuy).levels[e.price].tail, e, isBuy);
      } else {
        JoinedElsewhere(s, e, isBuy, isBuy, Rungs.RungPrice(isBuy, |queues|, i));
      }
    }
    assert RungsOf(s'.cells, s'.Side(isBuy).queues, isBuy) == rungs[r := rungs[r] + [e]];
    var other: seq<seq<Entry>> := RungsOf(s.cells, s.Side(!isBuy).queues, !isBuy);
    forall i | 0 <= i < |other|
      ensures RungsOf(s'.cells, s'.Side(!isBuy).queues, !isBuy)[i] == other[i]
    {
      JoinedElsewhere(s, e, isBuy, !isBuy, Rungs.RungPrice(!isBuy, |other|, i));
    }
    assert RungsOf(s'.cells, s'.Side(!isBuy).queues, !isBuy) == other;
  }

  lemma RungsPriced(s: Store, isBuy: bool)
    requires StoreOk(s)
    requires forall q, i {:trigger s.Side(isBuy).queues[q][i]} :: 0 <= q < |s.Side(isBuy).queues| && 0 <= i < |s.Side(isBuy).queues[q]| ==>
               s.Side(isBuy).queues[q][i] in s.cells
    ensures Rungs.Priced(RungsOf(s.cells, s.Side(isBuy).queues, isBuy), isBuy)
  {
  }

  /** An order joins: the memory stays well-formed and the book gains it behind its price. */
  lemma JoinedOk(s: Store, e: Entry, isBuy: bool)
    requires StoreOk(s) && Joinable(s, e, isBuy)
    ensures StoreOk(Joined(s, e, isBuy))
    ensures Abs(Joined(s, e, isBuy)) == Abs(s).With(isBuy, Insert(Abs(s).Side(isBuy), isBuy, e))
  {
    hide LadderOk, Tabled, PoolOk;
    JoinedLadders(s, e, isBuy, true);
    JoinedLadders(s, e, isBuy, false);
    JoinedPool(s, e, isBuy);
    forall id | 0 <= id < |s.table|
      ensures Tabled(Joined(s, e, isBuy), id)
    {
      JoinedTable(s, e, isBuy, id);
    }
    assert |Joined(s, e, isBuy).bids.queues| == |Joined(s, e, isBuy).asks.queues|;
    JoinedAbs(s, e, isBuy);
  }
}
