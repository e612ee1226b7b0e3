/** What each operation does to the book, in plain positions, prices and quantities. The relations do not use
    the functions that compute the operations; each is proved to hold of exactly one result, the computed one. */
module BookMeaning {
  import opened BookSpec
  import opened BookLaws

  /** How an incoming order fares: it uses up `used` resting orders and a part of the next one; what is left of it
      rests at a place of its own side. */
  datatype Course = Course(used: nat, part: nat, left: nat, place: nat)

  // ----- the relations -----

  /** The front of the opposite side trades, order by order and only within the limit, until the incoming
      quantity is used up or the next order is beyond the limit. */
  ghost predicate Trades(s: seq<Entry>, s': seq<Entry>, isBuy: bool, limit: nat, qty: nat, c: Course) {
    && c.used <= |s|
    && (forall i :: 0 <= i < c.used ==> if isBuy then s[i].price <= limit else s[i].price >= limit)
    && qty == Units(s[..c.used]) + c.part + c.left
    && (if c.part == 0 then s' == s[c.used..]
        else
          && c.left == 0 && c.used < |s| && c.part < s[c.used].qty
          && (if isBuy then s[c.used].price <= limit else s[c.used].price >= limit)
          && s' == [s[c.used].(qty := s[c.used].qty - c.part)] + s[c.used + 1..])
    && (c.left > 0 && c.used < |s| ==> if isBuy then s[c.used].price > limit else s[c.used].price < limit)
  }

  /** The new order stands behind all orders of a better or equal price and before all of a worse one. */
  ghost predicate Joins(s: seq<Entry>, s': seq<Entry>, isBuy: bool, e: Entry, place: nat) {
    && place <= |s|
    && s' == s[..place] + [e] + s[place..]
    && (forall i :: 0 <= i < place ==> if isBuy then s[i].price >= e.price else s[i].price <= e.price)
    && (forall i :: place <= i < |s| ==> if isBuy then s[i].price < e.price else s[i].price > e.price)
  }

  ghost predicate Adds(b: Book, b': Book, id: nat, price: nat, qty: nat, isBuy: bool, c: Course) {
    && Trades(b.Side(!isBuy), b'.Side(!isBuy), isBuy, price, qty, c)
    && if c.left == 0 then b'.Side(isBuy) == b.Side(isBuy)
       else Joins(b.Side(isBuy), b'.Side(isBuy), isBuy, Entry(id, price, c.left), c.place)
  }

  /** The order with this id stands at position k of a side. */
  ghost predicate RestsAt(b: Book, id: nat, isBuy: bool, k: nat) {
    k < |b.Side(isBuy)| && b.Side(isBuy)[k].id == id
  }

  ghost predicate Unknown(b: Book, id: nat) {
    (forall i :: 0 <= i < |b.bids| ==> b.bids[i].id != id) && forall i :: 0 <= i < |b.asks| ==> b.asks[i].id != id
  }

  /** Position k of a side closes; nothing else changes. */
  ghost predicate Removes(b: Book, b': Book, isBuy: bool, k: nat) {
    && k < |b.Side(isBuy)|
    && b'.Side(isBuy) == b.Side(isBuy)[..k] + b.Side(isBuy)[k + 1..]
    && b'.Side(!isBuy) == b.Side(!isBuy)
  }

  /** The quantity at position k of a side changes; nothing else does. */
  ghost predicate Resizes(b: Book, b': Book, isBuy: bool, k: nat, qty: nat) {
    && k < |b.Side(isBuy)|
    && b'.Side(isBuy) == b.Side(isBuy)[k := b.Side(isBuy)[k].(qty := qty)]
    && b'.Side(!isBuy) == b.Side(!isBuy)
  }

  ghost predicate Cancels(b: Book, b': Book, id: nat) {
    if Unknown(b, id) then b' == b
    else exists isBuy, k: nat :: RestsAt(b, id, isBuy, k) && Removes(b, b', isBuy, k)
  }

  /** The order at position k leaves, and comes back as a new one. */
  ghost predicate Replaces(b: Book, b': Book, id: nat, newPrice: nat, newQty: nat, isBuy: bool, k: nat) {
    exists mid, c :: Removes(b, mid, isBuy, k) && Adds(mid, b', id, newPrice, newQty, isBuy, c)
  }

  ghost predicate ModifiesAt(b: Book, b': Book, id: nat, newPrice: nat, newQty: nat, isBuy: bool, k: nat)
    requires RestsAt(b, id, isBuy, k)
  {
    var e := b.Side(isBuy)[k];
    if newQty == 0 then Removes(b, b', isBuy, k)
    else if newPrice == e.price && newQty <= e.qty then Resizes(b, b', isBuy, k, newQty)
    else Replaces(b, b', id, newPrice, newQty, isBuy, k)
  }

  ghost predicate Modifies(b: Book, b': Book, id: nat, newPrice: nat, newQty: nat) {
    if Unknown(b, id) then b' == b
    else exists isBuy, k: nat :: RestsAt(b, id, isBuy, k) && ModifiesAt(b, b', id, newPrice, newQty, isBuy, k)
  }

  // ----- matching -----

  lemma {:induction false} TradesIsDrop(s: seq<Entry>, s': seq<Entry>, isBuy: bool, limit: nat, qty: nat, c: Course)
    requires Sorted(s, !isBuy) && Positive(s) && Trades(s, s', isBuy, limit, qty, c)
    ensures c.left == qty - Min(qty, Liquidity(s, isBuy, limit)) && s' == Drop(s, qty - c.left)
    decreases c.used
  {
    hide Trades, Sorted, Positive, Drop, Liquidity;
    if c.used == 0 {
      TradesAtHead(s, s', isBuy, limit, qty, c);
      if c.part > 0 {
        DropHead(s, isBuy, limit, c.part);
      } else {
        DropNothing(s, 0);
        if qty > 0 {
          BeyondLimit(s, isBuy, limit);
        }
      }
    } else {
      TradesRest(s, s', isBuy, limit, qty, c);
      SortedTail(s, !isBuy);
      TradesIsDrop(s[1..], s', isBuy, limit, qty - s[0].qty, c.(used := c.used - 1));
      DropHead(s, isBuy, limit, qty - c.left);
    }
  }

  lemma {:induction false} CourseOf(s: seq<Entry>, isBuy: bool, limit: nat, qty: nat) returns (c: Course)
    requires Sorted(s, !isBuy) && Positive(s)
    ensures Trades(s, Drop(s, Min(qty, Liquidity(s, isBuy, limit))), isBuy, limit, qty, c)
  {
    hide Trades, Sorted, Positive;
    if s == [] || qty == 0 || (if isBuy then s[0].price > limit else s[0].price < limit) {
      c := Course(0, 0, qty, 0);
      if qty > 0 {
        BeyondLimit(s, isBuy, limit);
      }
      TradesNothing(s, isBuy, limit, qty);
    } else if s[0].qty <= qty {
      SortedTail(s, !isBuy);
      c := CourseOf(s[1..], isBuy, limit, qty - s[0].qty);
      var s' := Drop(s[1..], Min(qty - s[0].qty, Liquidity(s[1..], isBuy, limit)));
      TradesFirst(s, s', isBuy, limit, qty, c);
      c := c.(used := c.used + 1);
    } else {
      c := Course(0, qty, 0, 0);
      TradesPart(s, isBuy, limit, qty);
    }
  }

  /** What the head of the queue contributes. */
  lemma DropHead(s: seq<Entry>, isBuy: bool, limit: nat, n: nat)
    requires s != [] && s[0].qty > 0 && if isBuy then s[0].price <= limit else s[0].price >= limit
    ensures Liquidity(s, isBuy, limit) == s[0].qty + Liquidity(s[1..], isBuy, limit)
    ensures Drop(s, n) == if n == 0 then s
                          else if s[0].qty <= n then Drop(s[1..], n - s[0].qty)
                          else [s[0].(qty := s[0].qty - n)] + s[1..]
  {
  }

  lemma SortedTail(s: seq<Entry>, isBuy: bool)
    requires s != [] && Sorted(s, isBuy) && Positive(s)
    ensures Sorted(s[1..], isBuy) && Positive(s[1..]) && s[0].qty > 0
  {
  }

  /** When the first order is beyond the limit, all are. */
  lemma BeyondLimit(s: seq<Entry>, isBuy: bool, limit: nat)
    requires Sorted(s, !isBuy)
    requires s != [] ==> if isBuy then s[0].price > limit else s[0].price < limit
    ensures Liquidity(s, isBuy, limit) == 0
  {
    NoLiquidity(s, isBuy, limit);
  }

  lemma TradesNothing(s: seq<Entry>, isBuy: bool, limit: nat, qty: nat)
    requires qty == 0 || s == [] || if isBuy then s[0].price > limit else s[0].price < limit
    ensures Trades(s, s, isBuy, limit, qty, Course(0, 0, qty, 0))
  {
    assert s[..0] == [];
  }

  lemma TradesPart(s: seq<Entry>, isBuy: bool, limit: nat, qty: nat)
    requires s != [] && 0 < qty < s[0].qty && if isBuy then s[0].price <= limit else s[0].price >= limit
    ensures Trades(s, [s[0].(qty := s[0].qty - qty)] + s[1..], isBuy, limit, qty, Course(0, qty, 0, 0))
  {
    assert s[..0] == [];
  }

  /** When no order is used up, at most a part of the first one trades. */
  lemma TradesAtHead(s: seq<Entry>, s': seq<Entry>, isBuy: bool, limit: nat, qty: nat, c: Course)
    requires Trades(s, s', isBuy, limit, qty, c) && c.used == 0
    ensures qty == c.part + c.left
    ensures c.part == 0 ==>
              s' == s && (qty > 0 && s != [] ==> if isBuy then s[0].price > limit else s[0].price < limit)
    ensures c.part > 0 ==>
              && c.left == 0 && s != [] && c.part < s[0].qty && s' == [s[0].(qty := s[0].qty - c.part)] + s[1..]
              && if isBuy then s[0].price <= limit else s[0].price >= limit
  {
    assert s[..0] == [];
  }

  /** The first order used up, the others trade with the rest. */
  lemma TradesRest(s: seq<Entry>, s': seq<Entry>, isBuy: bool, limit: nat, qty: nat, c: Course)
    requires Trades(s, s', isBuy, limit, qty, c) && c.used > 0
    ensures s != [] && s[0].qty <= qty && if isBuy then s[0].price <= limit else s[0].price >= limit
    ensures Trades(s[1..], s', isBuy, limit, qty - s[0].qty, c.(used := c.used - 1))
  {
    var used := c.used - 1;
    assert s[..c.used][1..] == s[1..][..used];
    assert s[1..][used..] == s[c.used..];
    assert c.used < |s| ==> s[1..][used] == s[c.used] && s[1..][used + 1..] == s[c.used + 1..];
  }

  lemma TradesFirst(s: seq<Entry>, s': seq<Entry>, isBuy: bool, limit: nat, qty: nat, c: Course)
    requires s != [] && s[0].qty <= qty && Trades(s[1..], s', isBuy, limit, qty - s[0].qty, c)
    requires if isBuy then s[0].price <= limit else s[0].price >= limit
    ensures Trades(s, s', isBuy, limit, qty, c.(used := c.used + 1))
  {
    var used := c.used + 1;
    assert s[..used][1..] == s[1..][..c.used];
    assert s[1..][c.used..] == s[used..];
    assert c.used < |s[1..]| ==> s[1..][c.used] == s[used] && s[1..][c.used + 1..] == s[used + 1..];
    forall i | 0 <= i < used
      ensures if isBuy then s[i].price <= limit else s[i].price >= limit
    {
      assert i > 0 ==> s[i] == s[1..][i - 1];
    }
  }

  /** What matching leaves of the opposite side and of the incoming quantity: what trading unit by unit leaves;
      nothing beyond the limit is touched, and while anything remains nothing within the limit is left. */
  lemma MatchMeaning(b: Book, price: nat, qty: nat, isBuy: bool)
    requires WellFormed(b)
    ensures Match(b, price, qty, isBuy).Side(isBuy) == b.Side(isBuy)
    ensures var s, s', left := b.Side(!isBuy), Match(b, price, qty, isBuy).Side(!isBuy), qty - Filled(b, price, qty, isBuy);
      && (s', left) == Greedy(s, isBuy, price, qty)
      && (exists c :: Trades(s, s', isBuy, price, qty, c) && c.left == left)
      && (forall i :: 0 <= i < |s| && (if isBuy then s[i].price > price else s[i].price < price) ==>
            |s| - i <= |s'| && s'[|s'| - (|s| - i)] == s[i])
      && (left > 0 ==> forall e :: e in s' ==> if isBuy then e.price > price else e.price < price)
  {
    hide Trades, Greedy, Drop, Liquidity;
    MatchIsGreedy(b, price, qty, isBuy);
    BeyondLimitUntouched(b, price, qty, isBuy);
    if Filled(b, price, qty, isBuy) < qty {
      MatchIsExhaustive(b, price, qty, isBuy);
    }
    var s := b.Side(!isBuy);
    var c := CourseOf(s, isBuy, price, qty);
    TradesIsDrop(s, Match(b, price, qty, isBuy).Side(!isBuy), isBuy, price, qty, c);
  }

  // ----- resting -----

  lemma {:induction false} JoinsIsInsert(s: seq<Entry>, s': seq<Entry>, isBuy: bool, e: Entry, place: nat)
    requires Joins(s, s', isBuy, e, place)
    ensures s' == Insert(s, isBuy, e)
    decreases place
  {
    if place > 0 {
      assert s[1..][..place - 1] == s[..place][1..] && s[1..][place - 1..] == s[place..];
      JoinsIsInsert(s[1..], s'[1..], isBuy, e, place - 1);
    }
  }

  lemma {:induction false} PlaceOf(s: seq<Entry>, isBuy: bool, e: Entry) returns (place: nat)
    requires Sorted(s, isBuy)
    ensures Joins(s, Insert(s, isBuy, e), isBuy, e, place)
  {
    if s == [] || !NoWorse(isBuy, s[0].price, e.price) {
      place := 0;
    } else {
      place := PlaceOf(s[1..], isBuy, e);
      place := place + 1;
      assert s[1..][..place - 1] == s[..place][1..] && s[1..][place - 1..] == s[place..];
    }
  }

  // ----- each relation holds of exactly one result -----

  /** Adding, in plain terms: the relation holds of the computed book and of no other. */
  lemma AddMeaning(b: Book, b': Book, id: nat, price: nat, qty: nat, isBuy: bool)
    requires WellFormed(b)
    ensures b' == Add(b, id, price, qty, isBuy) <==> exists c :: Adds(b, b', id, price, qty, isBuy, c)
  {
    hide Trades, Joins, Insert, Drop, Liquidity;
    var s := b.Side(!isBuy);
    if b' == Add(b, id, price, qty, isBuy) {
      var c := CourseOf(s, isBuy, price, qty);
      TradesIsDrop(s, b'.Side(!isBuy), isBuy, price, qty, c);
      if c.left > 0 {
        var place := PlaceOf(b.Side(isBuy), isBuy, Entry(id, price, c.left));
        PlaceIsFree(s, b'.Side(!isBuy), isBuy, price, qty, c, place);
        c := c.(place := place);
      }
      assert Adds(b, b', id, price, qty, isBuy, c);
    }
    forall c | Adds(b, b', id, price, qty, isBuy, c)
      ensures b' == Add(b, id, price, qty, isBuy)
    {
      TradesIsDrop(s, b'.Side(!isBuy), isBuy, price, qty, c);
      if c.left > 0 {
        JoinsIsInsert(b.Side(isBuy), b'.Side(isBuy), isBuy, Entry(id, price, c.left), c.place);
      }
    }
  }

  /** Trading says nothing about the place. */
  lemma PlaceIsFree(s: seq<Entry>, s': seq<Entry>, isBuy: bool, limit: nat, qty: nat, c: Course, place: nat)
    requires Trades(s, s', isBuy, limit, qty, c)
    ensures Trades(s, s', isBuy, limit, qty, c.(place := place))
  {
  }

  lemma RestsIsHas(b: Book, id: nat)
    ensures Live(b, id) <==> !Unknown(b, id)
    ensures forall isBuy :: Has(b.Side(isBuy), id) <==> exists k: nat :: RestsAt(b, id, isBuy, k)
  {
    forall isBuy
      ensures Has(b.Side(isBuy), id) <==> exists k: nat :: RestsAt(b, id, isBuy, k)
    {
      if Has(b.Side(isBuy), id) {
        var k :| 0 <= k < |b.Side(isBuy)| && b.Side(isBuy)[k].id == id;
        assert RestsAt(b, id, isBuy, k);
      }
    }
  }

  /** Closing the position of an order is removing its id. */
  lemma RemovesIsCancel(b: Book, b': Book, id: nat, isBuy: bool, k: nat)
    requires WellFormed(b) && RestsAt(b, id, isBuy, k)
    ensures Removes(b, b', isBuy, k) <==> b' == Cancel(b, id)
  {
    hide Without;
    WithoutAt(b.Side(isBuy), k);
    assert !Has(b.Side(!isBuy), id);
    WithoutAbsent(b.Side(!isBuy), id);
  }

  lemma CancelMeaning(b: Book, b': Book, id: nat)
    requires WellFormed(b)
    ensures b' == Cancel(b, id) <==> Cancels(b, b', id)
  {
    hide Without, WellFormed, Live, RestsAt, Unknown, Removes, Has;
    RestsIsHas(b, id);
    if Unknown(b, id) {
      UnknownIsAbsent(b, id);
      WithoutAbsent(b.bids, id);
      WithoutAbsent(b.asks, id);
    } else {
      var isBuy, k := Position(b, id);
      RemovesIsCancel(b, b', id, isBuy, k);
      forall isBuy, k: nat | RestsAt(b, id, isBuy, k) && Removes(b, b', isBuy, k)
        ensures b' == Cancel(b, id)
      {
        RemovesIsCancel(b, b', id, isBuy, k);
      }
    }
  }

  lemma UnknownIsAbsent(b: Book, id: nat)
    requires Unknown(b, id)
    ensures !Has(b.bids, id) && !Has(b.asks, id) && !Live(b, id)
  {
  }

  lemma Position(b: Book, id: nat) returns (isBuy: bool, k: nat)
    requires !Unknown(b, id)
    ensures RestsAt(b, id, isBuy, k)
  {
    RestsIsHas(b, id);
    isBuy := Has(b.bids, id);
    assert Has(b.Side(isBuy), id);
    k :| RestsAt(b, id, isBuy, k);
  }

  /** A modify of an unknown id changes nothing. */
  lemma UnknownModify(b: Book, id: nat, newPrice: nat, newQty: nat)
    requires Unknown(b, id)
    ensures Modify(b, id, newPrice, newQty) == b
  {
    UnknownIsAbsent(b, id);
  }

  lemma ModifiesAtIsModify(b: Book, b': Book, id: nat, newPrice: nat, newQty: nat, isBuy: bool, k: nat)
    requires WellFormed(b) && RestsAt(b, id, isBuy, k)
    ensures ModifiesAt(b, b', id, newPrice, newQty, isBuy, k) <==> b' == Modify(b, id, newPrice, newQty)
  {
    hide WellFormed, Cancel, Add, Removes, Adds, Modify;
    var e := b.Side(isBuy)[k];
    if newQty == 0 {
      ModifyToZeroIsCancel(b, id, newPrice);
      RemovesIsCancel(b, b', id, isBuy, k);
    } else if newPrice == e.price && newQty <= e.qty {
      DecreaseKeepsPriority(b, id, newQty, isBuy, k);
    } else {
      ReplaceIsCancelThenAdd(b, id, newPrice, newQty, isBuy, k);
      CancelKeeps(b, id);
      RemovesIsCancel(b, Cancel(b, id), id, isBuy, k);
      AddMeaning(Cancel(b, id), b', id, newPrice, newQty, isBuy);
      forall mid | Removes(b, mid, isBuy, k)
        ensures mid == Cancel(b, id)
      {
        RemovesIsCancel(b, mid, id, isBuy, k);
      }
    }
  }

  lemma ModifyMeaning(b: Book, b': Book, id: nat, newPrice: nat, newQty: nat)
    requires WellFormed(b)
    ensures b' == Modify(b, id, newPrice, newQty) <==> Modifies(b, b', id, newPrice, newQty)
  {
    hide WellFormed, Modify, RestsAt, Unknown, ModifiesAt;
    if Unknown(b, id) {
      UnknownModify(b, id, newPrice, newQty);
    } else {
      var isBuy, k := Position(b, id);
      ModifiesAtIsModify(b, b', id, newPrice, newQty, isBuy, k);
      forall isBuy, k: nat | RestsAt(b, id, isBuy, k) && ModifiesAt(b, b', id, newPrice, newQty, isBuy, k)
        ensures b' == Modify(b, id, newPrice, newQty)
      {
        ModifiesAtIsModify(b, b', id, newPrice, newQty, isBuy, k);
      }
    }
  }

  // ----- what an add leaves on both sides -----

  /** The opposite side is left as unit-by-unit matching leaves it, whether or not anything remains of the order. At
      every price of its own side the orders stay as they are, and what remains of the order stands last at its own. */
  lemma AddSides(b: Book, id: nat, price: nat, qty: nat, isBuy: bool)
    requires WellFormed(b)
    ensures var b', (opposite, left) := Add(b, id, price, qty, isBuy), Greedy(b.Side(!isBuy), isBuy, price, qty);
      && b'.Side(!isBuy) == opposite
      && forall at :: AtPrice(b'.Side(isBuy), at) ==
           AtPrice(b.Side(isBuy), at) + if at == price && left > 0 then [Entry(id, price, left)] else []
  {
    hide Greedy, Insert, AtPrice;
    MatchIsGreedy(b, price, qty, isBuy);
    var left := qty - Filled(b, price, qty, isBuy);
    if left > 0 {
      forall at
        ensures AtPrice(Insert(b.Side(isBuy), isBuy, Entry(id, price, left)), at) ==
                AtPrice(b.Side(isBuy), at) + if at == price then [Entry(id, price, left)] else []
      {
        InsertIsFifo(b.Side(isBuy), isBuy, Entry(id, price, left), at);
      }
    }
  }

  /** A well-formed book, spelled out. */
  lemma WellFormedMeaning(b: Book)
    requires WellFormed(b)
    ensures forall i, j :: 0 <= i < j < |b.bids| ==> b.bids[i].price >= b.bids[j].price && b.bids[i].id != b.bids[j].id
    ensures forall i, j :: 0 <= i < j < |b.asks| ==> b.asks[i].price <= b.asks[j].price && b.asks[i].id != b.asks[j].id
    ensures forall i, j :: 0 <= i < |b.bids| && 0 <= j < |b.asks| ==> b.bids[i].price < b.asks[j].price && b.bids[i].id != b.asks[j].id
    ensures forall i :: 0 <= i < |b.bids| ==> b.bids[i].qty > 0
    ensures forall i :: 0 <= i < |b.asks| ==> b.asks[i].qty > 0
  {
    forall i, j | 0 <= i < |b.bids| && 0 <= j < |b.asks|
      ensures b.bids[i].id != b.asks[j].id
    {
      assert Has(b.bids, b.bids[i].id);
    }
  }
}
