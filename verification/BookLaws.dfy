/** Laws of the abstract book, for every book and every message. */
module BookLaws {
  import opened BookSpec

  // ----- matching, one unit at a time -----

  /** The queue after one unit has traded. */
  function OneUnit(s: seq<Entry>): seq<Entry>
    requires s != []
  {
    if s[0].qty <= 1 then s[1..] else [s[0].(qty := s[0].qty - 1)] + s[1..]
  }

  /** Reference matching: while the price at the head of the queue is within the limit, trade a single unit
      with it. What is left of the queue, and of the incoming quantity. */
  function Greedy(s: seq<Entry>, isBuy: bool, limit: nat, n: nat): (seq<Entry>, nat)
    decreases n
  {
    if n == 0 || s == [] || (if isBuy then s[0].price > limit else s[0].price < limit) then (s, n)
    else Greedy(OneUnit(s), isBuy, limit, n - 1)
  }

  lemma {:induction false} GreedyIsDrop(s: seq<Entry>, isBuy: bool, limit: nat, n: nat)
    requires Sorted(s, !isBuy) && Positive(s)
    ensures var filled := Min(n, Liquidity(s, isBuy, limit));
            Greedy(s, isBuy, limit, n) == (Drop(s, filled), n - filled)
    decreases n
  {
    hide Positive, OneUnit;
    if n == 0 || s == [] {
    } else if !Crosses(isBuy, limit, s[0].price) {
      NoLiquidity(s, isBuy, limit);
    } else {
      var u := OneUnit(s);
      OneUnitIsDrop(s, !isBuy);
      LiquidityAfterDrop(s, isBuy, limit, 1);
      GreedyIsDrop(u, isBuy, limit, n - 1);
      DropDrop(s, 1, Min(n - 1, Liquidity(u, isBuy, limit)));
    }
  }

  lemma OneUnitIsDrop(s: seq<Entry>, isBuy: bool)
    requires s != [] && Sorted(s, isBuy) && Positive(s)
    ensures OneUnit(s) == Drop(s, 1) && Sorted(OneUnit(s), isBuy) && Positive(OneUnit(s))
    ensures s[0].qty > 0
  {
  }

  /** Matching is greedy unit-by-unit matching in price-time order. */
  lemma MatchIsGreedy(b: Book, price: nat, qty: nat, isBuy: bool)
    requires WellFormed(b)
    ensures Greedy(b.Side(!isBuy), isBuy, price, qty) ==
            (Match(b, price, qty, isBuy).Side(!isBuy), qty - Filled(b, price, qty, isBuy))
  {
    GreedyIsDrop(b.Side(!isBuy), isBuy, price, qty);
  }

  // ----- what matching takes and leaves -----

  /** An order trades only when every order ahead of it is used up: matching removes k whole orders from
      the front, reduces at most the next one, and touches nothing behind it. */
  lemma PriceTimePriority(b: Book, price: nat, qty: nat, isBuy: bool) returns (k: nat)
    requires WellFormed(b)
    ensures var s, s', filled := b.Side(!isBuy), Match(b, price, qty, isBuy).Side(!isBuy), Filled(b, price, qty, isBuy);
      && k <= |s| && |s'| == |s| - k
      && filled == Units(s[..k]) + (if k < |s| then s[k].qty - s'[0].qty else 0)
      && (k < |s| ==> s' == [s[k].(qty := s'[0].qty)] + s[k + 1..] && 0 < s'[0].qty <= s[k].qty)
  {
    var s := b.Side(!isBuy);
    LiquidityBound(s, isBuy, price);
    k := DropShape(s, Filled(b, price, qty, isBuy));
    DropKeepsPositive(s, Filled(b, price, qty, isBuy));
  }

  /** Orders above the limit of a buy, or below the limit of a sell, keep their quantity and their place,
      counted from the back. */
  lemma BeyondLimitUntouched(b: Book, price: nat, qty: nat, isBuy: bool)
    requires WellFormed(b)
    ensures var s, s' := b.Side(!isBuy), Match(b, price, qty, isBuy).Side(!isBuy);
      forall i :: 0 <= i < |s| && (if isBuy then s[i].price > price else s[i].price < price) ==>
        |s| - i <= |s'| && s'[|s'| - (|s| - i)] == s[i]
  {
    hide Drop, Liquidity, Crosses;
    var s := b.Side(!isBuy);
    forall i | 0 <= i < |s| && (if isBuy then s[i].price > price else s[i].price < price)
      ensures var s' := Drop(s, Filled(b, price, qty, isBuy)); |s| - i <= |s'| && s'[|s'| - (|s| - i)] == s[i]
    {
      BeyondLimitKept(s, isBuy, price, Filled(b, price, qty, isBuy), i);
    }
  }

  lemma {:induction false} BeyondLimitKept(s: seq<Entry>, isBuy: bool, limit: nat, n: nat, i: nat)
    requires Sorted(s, !isBuy) && n <= Liquidity(s, isBuy, limit)
    requires i < |s| && if isBuy then s[i].price > limit else s[i].price < limit
    ensures |s| - i <= |Drop(s, n)|
    ensures Drop(s, n)[|Drop(s, n)| - (|s| - i)] == s[i]
  {
    if n == 0 || s == [] {
    } else if !Crosses(isBuy, limit, s[0].price) {
      NoLiquidity(s, isBuy, limit);
    } else if s[0].qty <= n {
      BeyondLimitKept(s[1..], isBuy, limit, n - s[0].qty, i - 1);
    }
  }

  /** Every order of the queue is above the limit of a buy, or below the limit of a sell. */
  ghost predicate NoneCross(s: seq<Entry>, isBuy: bool, limit: nat) {
    forall i :: 0 <= i < |s| ==> if isBuy then s[i].price > limit else s[i].price < limit
  }

  /** While an incoming order has something left, nothing it could trade with is left. */
  lemma MatchIsExhaustive(b: Book, price: nat, qty: nat, isBuy: bool)
    requires WellFormed(b) && Filled(b, price, qty, isBuy) < qty
    ensures NoneCross(Match(b, price, qty, isBuy).Side(!isBuy), isBuy, price)
    ensures forall e :: e in Match(b, price, qty, isBuy).Side(!isBuy) ==> if isBuy then e.price > price else e.price < price
  {
    var s := b.Side(!isBuy);
    LiquidityAfterDrop(s, isBuy, price, Filled(b, price, qty, isBuy));
    DropKeepsPositive(s, Filled(b, price, qty, isBuy));
    ZeroLiquidity(Match(b, price, qty, isBuy).Side(!isBuy), isBuy, price);
  }

  lemma {:induction false} ZeroLiquidity(s: seq<Entry>, isBuy: bool, limit: nat)
    requires Positive(s) && Liquidity(s, isBuy, limit) == 0
    ensures NoneCross(s, isBuy, limit)
  {
    if s != [] {
      assert s[0].qty > 0;
      ZeroLiquidity(s[1..], isBuy, limit);
      forall i | 0 <= i < |s|
        ensures if isBuy then s[i].price > limit else s[i].price < limit
      {
        assert i > 0 ==> s[i] == s[1..][i - 1];
      }
    }
  }

  // ----- well-formedness is kept -----

  /** One side in order, with positive quantities and unique ids. */
  ghost predicate SideOk(s: seq<Entry>, isBuy: bool) {
    Sorted(s, isBuy) && Positive(s) && UniqueIds(s)
  }

  lemma DropKeepsSide(s: seq<Entry>, isBuy: bool, n: nat)
    requires SideOk(s, isBuy) && n <= Units(s)
    ensures SideOk(Drop(s, n), isBuy)
    ensures forall i :: 0 <= i < |Drop(s, n)| ==> exists j :: 0 <= j < |s| && s[j].id == Drop(s, n)[i].id && s[j].price == Drop(s, n)[i].price
  {
    var k := DropShape(s, n);
    DropKeepsPositive(s, n);
    var d := Drop(s, n);
    forall i | 0 <= i < |d|
      ensures d[i].id == s[k + i].id && d[i].price == s[k + i].price
    {
    }
  }

  lemma {:induction false} WithoutKeepsSide(s: seq<Entry>, isBuy: bool, id: nat)
    requires SideOk(s, isBuy)
    ensures SideOk(Without(s, id), isBuy)
    ensures forall x :: x in Without(s, id) ==> x in s && x.id != id
  {
    if s != [] {
      WithoutKeepsSide(s[1..], isBuy, id);
      var w := Without(s[1..], id);
      forall i | 0 <= i < |w|
        ensures NoWorse(isBuy, s[0].price, w[i].price) && s[0].id != w[i].id
      {
        assert w[i] in w;
        var j :| 0 <= j < |s[1..]| && s[1..][j] == w[i];
        assert s[j + 1] == w[i];
      }
    }
  }

  lemma {:induction false} InsertKeepsSide(s: seq<Entry>, isBuy: bool, e: Entry)
    requires SideOk(s, isBuy) && e.qty > 0 && !Has(s, e.id)
    ensures SideOk(Insert(s, isBuy, e), isBuy)
    ensures forall x :: x in Insert(s, isBuy, e) <==> x == e || x in s
  {
    if s == [] || !NoWorse(isBuy, s[0].price, e.price) {
    } else {
      forall i | 0 <= i < |s[1..]|
        ensures s[1..][i].id != e.id
      {
        assert s[1..][i] == s[i + 1];
      }
      InsertKeepsSide(s[1..], isBuy, e);
      var w := Insert(s[1..], isBuy, e);
      forall i | 0 <= i < |w|
        ensures NoWorse(isBuy, s[0].price, w[i].price) && s[0].id != w[i].id
      {
        assert w[i] in w;
        if w[i] != e {
          var j :| 0 <= j < |s[1..]| && s[1..][j] == w[i];
          assert s[j + 1] == w[i];
        }
      }
    }
  }

  lemma MatchKeeps(b: Book, price: nat, qty: nat, isBuy: bool)
    requires WellFormed(b)
    ensures WellFormed(Match(b, price, qty, isBuy))
    ensures forall id :: Live(Match(b, price, qty, isBuy), id) ==> Live(b, id)
  {
    hide Drop, Liquidity;
    var s := b.Side(!isBuy);
    LiquidityBound(s, isBuy, price);
    DropKeepsSide(s, !isBuy, Filled(b, price, qty, isBuy));
  }

  lemma RestKeeps(b: Book, e: Entry, isBuy: bool)
    requires WellFormed(b) && e.qty > 0 && !Live(b, e.id)
    requires NoneCross(b.Side(!isBuy), isBuy, e.price)
    ensures WellFormed(b.With(isBuy, Insert(b.Side(isBuy), isBuy, e)))
    ensures forall id :: Live(b.With(isBuy, Insert(b.Side(isBuy), isBuy, e)), id) <==> id == e.id || Live(b, id)
  {
    hide Insert;
    var s := b.Side(isBuy);
    InsertKeepsSide(s, isBuy, e);
    var s' := Insert(s, isBuy, e);
    var opp := b.Side(!isBuy);
    forall i, j | 0 <= i < |s'| && 0 <= j < |opp|
      ensures if isBuy then s'[i].price < opp[j].price else opp[j].price < s'[i].price
    {
      assert s'[i] in s';
      if s'[i] != e {
        var k :| 0 <= k < |s| && s[k] == s'[i];
      }
    }
    HasInserted(s, s', e);
  }

  lemma HasInserted(s: seq<Entry>, s': seq<Entry>, e: Entry)
    requires forall x :: x in s' <==> x == e || x in s
    ensures forall id :: Has(s', id) <==> id == e.id || Has(s, id)
  {
    forall id
      ensures Has(s', id) <==> id == e.id || Has(s, id)
    {
      if Has(s', id) {
        var i :| 0 <= i < |s'| && s'[i].id == id;
        assert s'[i] in s';
      }
      if Has(s, id) {
        var i :| 0 <= i < |s| && s[i].id == id;
        assert s[i] in s && s[i] in s';
      }
      assert e in s';
    }
  }

  /** Adding an order with an unused id keeps the book well-formed: sorted, positive, unique, uncrossed. */
  lemma AddKeeps(b: Book, id: nat, price: nat, qty: nat, isBuy: bool)
    requires WellFormed(b) && !Live(b, id)
    ensures WellFormed(Add(b, id, price, qty, isBuy))
    ensures forall x :: Live(Add(b, id, price, qty, isBuy), x) ==> x == id || Live(b, x)
  {
    hide WellFormed, Insert, Crosses, Match, Live;
    MatchKeeps(b, price, qty, isBuy);
    var filled := Filled(b, price, qty, isBuy);
    if filled < qty {
      MatchIsExhaustive(b, price, qty, isBuy);
      RestKeeps(Match(b, price, qty, isBuy), Entry(id, price, qty - filled), isBuy);
    }
  }

  lemma CancelKeeps(b: Book, id: nat)
    requires WellFormed(b)
    ensures WellFormed(Cancel(b, id))
    ensures forall x :: Live(Cancel(b, id), x) ==> x != id && Live(b, x)
  {
    hide Without;
    WithoutKeepsSide(b.bids, true, id);
    WithoutKeepsSide(b.asks, false, id);
    WithoutHas(b.bids, Without(b.bids, id), id);
    WithoutHas(b.asks, Without(b.asks, id), id);
    assert forall i :: 0 <= i < |Without(b.bids, id)| ==> Without(b.bids, id)[i] in b.bids;
    assert forall i :: 0 <= i < |Without(b.asks, id)| ==> Without(b.asks, id)[i] in b.asks;
  }

  lemma WithoutHas(s: seq<Entry>, s': seq<Entry>, id: nat)
    requires forall x :: x in s' ==> x in s && x.id != id
    ensures forall x :: Has(s', x) ==> x != id && Has(s, x)
  {
  }

  lemma ResizeKeeps(b: Book, isBuy: bool, id: nat, qty: nat)
    requires WellFormed(b) && qty > 0
    ensures WellFormed(b.With(isBuy, Resize(b.Side(isBuy), id, qty)))
    ensures forall x :: Live(b.With(isBuy, Resize(b.Side(isBuy), id, qty)), x) <==> Live(b, x)
  {
    var s, s' := b.Side(isBuy), Resize(b.Side(isBuy), id, qty);
    assert forall i :: 0 <= i < |s| ==> s'[i].id == s[i].id && s'[i].price == s[i].price;
    forall x
      ensures Has(s', x) <==> Has(s, x)
    {
    }
  }

  lemma ModifyKeeps(b: Book, id: nat, newPrice: nat, newQty: nat)
    requires WellFormed(b)
    ensures WellFormed(Modify(b, id, newPrice, newQty))
    ensures forall x :: Live(Modify(b, id, newPrice, newQty), x) ==> Live(b, x)
  {
    hide WellFormed, Live, Add, Cancel, Resize;
    CancelKeeps(b, id);
    if Live(b, id) {
      var isBuy := LiveSide(b, id);
      var e := Lookup(b.Side(isBuy), id);
      if newPrice != e.price || newQty > e.qty {
        AddKeeps(Cancel(b, id), id, newPrice, newQty, isBuy);
      } else if newQty != 0 {
        ResizeKeeps(b, isBuy, id, newQty);
      }
    }
  }

  lemma LiveSide(b: Book, id: nat) returns (isBuy: bool)
    requires Live(b, id)
    ensures isBuy == Has(b.bids, id) && Has(b.Side(isBuy), id)
  {
    isBuy := Has(b.bids, id);
  }

  // ----- conservation -----

  /** Everything that rests on the book. */
  function RestingUnits(b: Book): nat {
    Units(b.bids) + Units(b.asks)
  }

  /** The quantity resting under an id. */
  function QtyOf(b: Book, id: nat): nat {
    if Has(b.bids, id) then Lookup(b.bids, id).qty
    else if Has(b.asks, id) then Lookup(b.asks, id).qty
    else 0
  }

  lemma {:induction false} UnitsInsert(s: seq<Entry>, isBuy: bool, e: Entry)
    ensures Units(Insert(s, isBuy, e)) == Units(s) + e.qty
  {
    if s == [] || !NoWorse(isBuy, s[0].price, e.price) {
      assert ([e] + s)[1..] == s;
    } else {
      UnitsInsert(s[1..], isBuy, e);
      assert ([s[0]] + Insert(s[1..], isBuy, e))[1..] == Insert(s[1..], isBuy, e);
    }
  }

  lemma {:induction false} UnitsWithout(s: seq<Entry>, id: nat)
    requires UniqueIds(s)
    ensures Units(Without(s, id)) == Units(s) - (if Has(s, id) then Lookup(s, id).qty else 0)
    ensures Has(s, id) ==> Lookup(s, id).qty <= Units(s)
  {
    if s == [] {
    } else if s[0].id == id {
      forall i | 0 <= i < |s[1..]|
        ensures s[1..][i].id != id
      {
        assert s[1..][i] == s[i + 1];
      }
      WithoutAbsent(s[1..], id);
      assert Has(s, id);
    } else {
      UnitsWithout(s[1..], id);
      HasTail(s, id);
      assert ([s[0]] + Without(s[1..], id))[1..] == Without(s[1..], id);
    }
  }

  lemma HasTail(s: seq<Entry>, id: nat)
    requires s != [] && s[0].id != id
    ensures Has(s, id) <==> Has(s[1..], id)
  {
  }

  lemma {:induction false} UnitsResize(s: seq<Entry>, id: nat, qty: nat)
    requires UniqueIds(s) && Has(s, id)
    ensures Units(Resize(s, id, qty)) == Units(s) - Lookup(s, id).qty + qty
  {
    if s[0].id == id {
      forall i | 0 <= i < |s[1..]|
        ensures s[1..][i].id != id
      {
        assert s[1..][i] == s[i + 1];
      }
      assert Resize(s, id, qty)[1..] == s[1..];
    } else {
      HasTail(s, id);
      UnitsResize(s[1..], id, qty);
      assert Resize(s, id, qty)[1..] == Resize(s[1..], id, qty);
    }
  }

  /** Each match takes from the resting side exactly what it takes from the incoming order. */
  lemma MatchConserves(b: Book, price: nat, qty: nat, isBuy: bool)
    ensures Filled(b, price, qty, isBuy) <= RestingUnits(b)
    ensures RestingUnits(Match(b, price, qty, isBuy)) == RestingUnits(b) - Filled(b, price, qty, isBuy)
  {
    LiquidityBound(b.Side(!isBuy), isBuy, price);
    UnitsAfterDrop(b.Side(!isBuy), Filled(b, price, qty, isBuy));
  }

  lemma AddConserves(b: Book, id: nat, price: nat, qty: nat, isBuy: bool)
    ensures RestingUnits(b) + qty ==
            RestingUnits(Add(b, id, price, qty, isBuy)) + 2 * Filled(b, price, qty, isBuy)
  {
    hide Units, Insert, Match;
    MatchConserves(b, price, qty, isBuy);
    var filled := Filled(b, price, qty, isBuy);
    var m := Match(b, price, qty, isBuy);
    if filled < qty {
      UnitsInsert(m.Side(isBuy), isBuy, Entry(id, price, qty - filled));
    }
  }

  lemma CancelConserves(b: Book, id: nat)
    requires WellFormed(b)
    ensures RestingUnits(b) == RestingUnits(Cancel(b, id)) + QtyOf(b, id)
  {
    UnitsWithout(b.bids, id);
    UnitsWithout(b.asks, id);
  }

  // ----- modify -----

  /** A decrease at the same price keeps the order's place and every other order. */
  lemma DecreaseKeepsPriority(b: Book, id: nat, newQty: nat, isBuy: bool, i: nat)
    requires WellFormed(b) && i < |b.Side(isBuy)| && b.Side(isBuy)[i].id == id
    requires 0 < newQty <= b.Side(isBuy)[i].qty
    ensures Modify(b, id, b.Side(isBuy)[i].price, newQty) ==
            b.With(isBuy, b.Side(isBuy)[i := b.Side(isBuy)[i].(qty := newQty)])
  {
    FoundAt(b, id, isBuy, i);
    var s := b.Side(isBuy);
    assert Resize(s, id, newQty) == s[i := s[i].(qty := newQty)];
  }

  lemma FoundAt(b: Book, id: nat, isBuy: bool, i: nat)
    requires WellFormed(b) && i < |b.Side(isBuy)| && b.Side(isBuy)[i].id == id
    ensures Live(b, id) && Has(b.bids, id) == isBuy && Has(b.Side(isBuy), id)
    ensures Lookup(b.Side(isBuy), id) == b.Side(isBuy)[i]
  {
  }

  /** A price change or an increase is a cancel followed by a fresh add. What then rests has lost its time
      priority: it stands behind all other orders of the new price, and no other price has changed. */
  lemma ReplaceIsCancelThenAdd(b: Book, id: nat, newPrice: nat, newQty: nat, isBuy: bool, i: nat)
    requires WellFormed(b) && i < |b.Side(isBuy)| && b.Side(isBuy)[i].id == id
    requires newPrice != b.Side(isBuy)[i].price || newQty > b.Side(isBuy)[i].qty
    ensures Modify(b, id, newPrice, newQty) == Add(Cancel(b, id), id, newPrice, newQty, isBuy)
    ensures var filled := Filled(Cancel(b, id), newPrice, newQty, isBuy);
      forall price :: AtPrice(Modify(b, id, newPrice, newQty).Side(isBuy), price) ==
        AtPrice(Without(b.Side(isBuy), id), price) +
        if price == newPrice && filled < newQty then [Entry(id, newPrice, newQty - filled)] else []
  {
    hide Insert, Without;
    FoundAt(b, id, isBuy, i);
    CancelKeeps(b, id);
    var filled := Filled(Cancel(b, id), newPrice, newQty, isBuy);
    forall price
      ensures AtPrice(Modify(b, id, newPrice, newQty).Side(isBuy), price) ==
        AtPrice(Without(b.Side(isBuy), id), price) +
        if price == newPrice && filled < newQty then [Entry(id, newPrice, newQty - filled)] else []
    {
      if filled < newQty {
        InsertIsFifo(Cancel(b, id).Side(isBuy), isBuy, Entry(id, newPrice, newQty - filled), price);
      }
    }
  }

  /** A modify to quantity zero is a cancel, whatever the price. */
  lemma ModifyToZeroIsCancel(b: Book, id: nat, newPrice: nat)
    ensures Modify(b, id, newPrice, 0) == Cancel(b, id)
  {
    if !Live(b, id) {
      WithoutAbsent(b.bids, id);
      WithoutAbsent(b.asks, id);
    } else {
      var isBuy := LiveSide(b, id);
      assert Filled(Cancel(b, id), newPrice, 0, isBuy) == 0;
    }
  }

  // ----- add then cancel -----

  lemma {:induction false} InsertThenWithout(s: seq<Entry>, isBuy: bool, e: Entry)
    requires !Has(s, e.id)
    ensures Without(Insert(s, isBuy, e), e.id) == s
  {
    if s == [] || !NoWorse(isBuy, s[0].price, e.price) {
      WithoutAbsent(s, e.id);
      assert ([e] + s)[1..] == s;
    } else {
      assert s[0].id != e.id;
      HasTail(s, e.id);
      InsertThenWithout(s[1..], isBuy, e);
      assert ([s[0]] + Insert(s[1..], isBuy, e))[1..] == Insert(s[1..], isBuy, e);
    }
  }

  /** An order that trades with nobody and is then cancelled leaves no trace. */
  lemma AddThenCancel(b: Book, id: nat, price: nat, qty: nat, isBuy: bool)
    requires !Live(b, id) && Filled(b, price, qty, isBuy) == 0
    ensures Cancel(Add(b, id, price, qty, isBuy), id) == b
  {
    hide Insert, Without;
    DropNothing(b.Side(!isBuy), 0);
    assert Match(b, price, qty, isBuy) == b;
    WithoutAbsent(b.bids, id);
    WithoutAbsent(b.asks, id);
    InsertThenWithout(b.Side(isBuy), isBuy, Entry(id, price, qty));
  }

  // ----- time priority within a price -----

  /** The orders of one price, oldest first. */
  function AtPrice(s: seq<Entry>, price: nat): seq<Entry> {
    if s == [] then []
    else if s[0].price == price then [s[0]] + AtPrice(s[1..], price)
    else AtPrice(s[1..], price)
  }

  /** A new order goes to the end of its own price and leaves every other price alone. */
  lemma {:induction false} InsertIsFifo(s: seq<Entry>, isBuy: bool, e: Entry, price: nat)
    requires Sorted(s, isBuy)
    ensures AtPrice(Insert(s, isBuy, e), price) == if price == e.price then AtPrice(s, price) + [e] else AtPrice(s, price)
  {
    if s == [] || !NoWorse(isBuy, s[0].price, e.price) {
      assert ([e] + s)[1..] == s;
      if price == e.price {
        NoneAtPrice(s, price);
      }
    } else {
      InsertIsFifo(s[1..], isBuy, e, price);
      assert ([s[0]] + Insert(s[1..], isBuy, e))[1..] == Insert(s[1..], isBuy, e);
    }
  }

  lemma {:induction false} NoneAtPrice(s: seq<Entry>, price: nat)
    requires forall i :: 0 <= i < |s| ==> s[i].price != price
    ensures AtPrice(s, price) == []
  {
    if s != [] {
      assert forall i :: 0 <= i < |s[1..]| ==> s[1..][i] == s[i + 1];
      NoneAtPrice(s[1..], price);
    }
  }

  lemma {:induction false} AtPriceConcat(a: seq<Entry>, b: seq<Entry>, price: nat)
    ensures AtPrice(a + b, price) == AtPrice(a, price) + AtPrice(b, price)
  {
    if a == [] {
      assert a + b == b;
    } else {
      assert (a + b)[0] == a[0] && (a + b)[1..] == a[1..] + b;
      AtPriceConcat(a[1..], b, price);
    }
  }

  lemma AtPriceMiddle(a: seq<Entry>, s: seq<Entry>, c: seq<Entry>, price: nat)
    requires AtPrice(a, price) == AtPrice(c, price) == []
    requires forall i :: 0 <= i < |s| ==> s[i].price == price
    ensures AtPrice(a + s + c, price) == s
  {
    hide AtPrice;
    AtPriceConcat(a + s, c, price);
    AtPriceConcat(a, s, price);
    AllAtPrice(s, price);
  }

  lemma {:induction false} AllAtPrice(s: seq<Entry>, price: nat)
    requires forall i :: 0 <= i < |s| ==> s[i].price == price
    ensures AtPrice(s, price) == s
  {
    if s != [] {
      AllAtPrice(s[1..], price);
    }
  }
}
