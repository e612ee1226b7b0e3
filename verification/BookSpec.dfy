/** The abstract limit order book. A side is one flat queue in price-time priority; it knows nothing of
    levels, links, tables or bitmaps, which makes it an independent reference for include/OrderBook.h. */
module BookSpec {

  datatype Entry = Entry(id: nat, price: nat, qty: nat)

  /** Each side runs from the most to the least aggressive price and, within a price, oldest first. */
  datatype Book = Book(bids: seq<Entry>, asks: seq<Entry>) {
    function Side(isBuy: bool): seq<Entry> {
      if isBuy then bids else asks
    }

    function With(isBuy: bool, side: seq<Entry>): Book {
      if isBuy then this.(bids := side) else this.(asks := side)
    }
  }

  const EMPTY := Book([], [])

  function Min(a: nat, b: nat): nat { if a <= b then a else b }

  /** Resting price p has at least the priority of resting price q. */
  predicate NoWorse(isBuy: bool, p: nat, q: nat) {
    if isBuy then p >= q else p <= q
  }

  /** An incoming order with this limit may trade at the resting price. */
  predicate Crosses(isBuy: bool, limit: nat, resting: nat) {
    if isBuy then resting <= limit else limit <= resting
  }

  /** Total quantity of a queue. */
  function Units(s: seq<Entry>): nat {
    if s == [] then 0 else s[0].qty + Units(s[1..])
  }

  /** Quantity an incoming order with this limit may trade against. */
  function Liquidity(s: seq<Entry>, isBuy: bool, limit: nat): nat {
    if s == [] then 0
    else (if Crosses(isBuy, limit, s[0].price) then s[0].qty else 0) + Liquidity(s[1..], isBuy, limit)
  }

  /** The queue without its first n units. */
  function Drop(s: seq<Entry>, n: nat): seq<Entry> {
    if n == 0 || s == [] then s
    else if s[0].qty <= n then Drop(s[1..], n - s[0].qty)
    else [s[0].(qty := s[0].qty - n)] + s[1..]
  }

  /** How much an incoming order trades. */
  function Filled(b: Book, price: nat, qty: nat, isBuy: bool): nat {
    Min(qty, Liquidity(b.Side(!isBuy), isBuy, price))
  }

  function Match(b: Book, price: nat, qty: nat, isBuy: bool): Book {
    b.With(!isBuy, Drop(b.Side(!isBuy), Filled(b, price, qty, isBuy)))
  }

  /** Behind every entry of at least the same priority, ahead of every worse one. */
  function Insert(s: seq<Entry>, isBuy: bool, e: Entry): seq<Entry> {
    if s == [] || !NoWorse(isBuy, s[0].price, e.price) then [e] + s
    else [s[0]] + Insert(s[1..], isBuy, e)
  }

  function Add(b: Book, id: nat, price: nat, qty: nat, isBuy: bool): Book {
    var rest := qty - Filled(b, price, qty, isBuy);
    var m := Match(b, price, qty, isBuy);
    if rest == 0 then m else m.With(isBuy, Insert(m.Side(isBuy), isBuy, Entry(id, price, rest)))
  }

  predicate Has(s: seq<Entry>, id: nat) {
    exists i :: 0 <= i < |s| && s[i].id == id
  }

  predicate Live(b: Book, id: nat) {
    Has(b.bids, id) || Has(b.asks, id)
  }

  function Without(s: seq<Entry>, id: nat): seq<Entry> {
    if s == [] then []
    else if s[0].id == id then Without(s[1..], id)
    else [s[0]] + Without(s[1..], id)
  }

  function Cancel(b: Book, id: nat): Book {
    Book(Without(b.bids, id), Without(b.asks, id))
  }

  /** The quantity of one order, changed where it stands. */
  function Resize(s: seq<Entry>, id: nat, qty: nat): seq<Entry> {
    seq(|s|, i requires 0 <= i < |s| => if s[i].id == id then s[i].(qty := qty) else s[i])
  }

  function Lookup(s: seq<Entry>, id: nat): (e: Entry)
    requires Has(s, id)
    ensures e in s && e.id == id
  {
    if s[0].id == id then s[0] else Lookup(s[1..], id)
  }

  function Modify(b: Book, id: nat, newPrice: nat, newQty: nat): Book {
    if !Live(b, id) then b
    else
      var isBuy := Has(b.bids, id);
      var e := Lookup(b.Side(isBuy), id);
      if newPrice != e.price || newQty > e.qty then Add(Cancel(b, id), id, newPrice, newQty, isBuy)
      else if newQty == 0 then Cancel(b, id)
      else b.With(isBuy, Resize(b.Side(isBuy), id, newQty))
  }

  // ----- what a well-formed book is -----

  ghost predicate Sorted(s: seq<Entry>, isBuy: bool) {
    forall i, j :: 0 <= i < j < |s| ==> NoWorse(isBuy, s[i].price, s[j].price)
  }

  ghost predicate Positive(s: seq<Entry>) {
    forall i :: 0 <= i < |s| ==> s[i].qty > 0
  }

  ghost predicate UniqueIds(s: seq<Entry>) {
    forall i, j :: 0 <= i < j < |s| ==> s[i].id != s[j].id
  }

  /** The best bid is below the best ask. */
  ghost predicate Uncrossed(b: Book) {
    forall i, j :: 0 <= i < |b.bids| && 0 <= j < |b.asks| ==> b.bids[i].price < b.asks[j].price
  }

  ghost predicate WellFormed(b: Book) {
    && Sorted(b.bids, true) && Sorted(b.asks, false)
    && Positive(b.bids) && Positive(b.asks)
    && UniqueIds(b.bids) && UniqueIds(b.asks)
    && (forall id :: Has(b.bids, id) ==> !Has(b.asks, id))
    && Uncrossed(b)
  }

  // ----- arithmetic of queues -----

  lemma {:induction false} UnitsConcat(a: seq<Entry>, b: seq<Entry>)
    ensures Units(a + b) == Units(a) + Units(b)
  {
    if a == [] {
      assert a + b == b;
    } else {
      assert (a + b)[0] == a[0] && (a + b)[1..] == a[1..] + b;
      UnitsConcat(a[1..], b);
    }
  }

  lemma {:induction false} LiquidityConcat(a: seq<Entry>, b: seq<Entry>, isBuy: bool, limit: nat)
    ensures Liquidity(a + b, isBuy, limit) == Liquidity(a, isBuy, limit) + Liquidity(b, isBuy, limit)
  {
    if a == [] {
      assert a + b == b;
    } else {
      assert (a + b)[0] == a[0] && (a + b)[1..] == a[1..] + b;
      LiquidityConcat(a[1..], b, isBuy, limit);
    }
  }

  lemma {:induction false} WithoutConcat(a: seq<Entry>, b: seq<Entry>, id: nat)
    ensures Without(a + b, id) == Without(a, id) + Without(b, id)
  {
    if a == [] {
      assert a + b == b;
    } else {
      assert (a + b)[0] == a[0] && (a + b)[1..] == a[1..] + b;
      WithoutConcat(a[1..], b, id);
    }
  }

  lemma {:induction false} WithoutAbsent(s: seq<Entry>, id: nat)
    requires !Has(s, id)
    ensures Without(s, id) == s
  {
    if s != [] {
      assert s[0].id != id;
      assert forall i :: 0 <= i < |s[1..]| ==> s[1..][i] == s[i + 1];
      WithoutAbsent(s[1..], id);
    }
  }

  lemma WithoutOne(e: Entry)
    ensures Without([e], e.id) == []
  {
  }

  /** Removing the one order with an id closes the gap it leaves. */
  lemma WithoutAt(s: seq<Entry>, k: nat)
    requires k < |s|
    requires forall j :: 0 <= j < |s| && j != k ==> s[j].id != s[k].id
    ensures Without(s, s[k].id) == s[..k] + s[k + 1..]
  {
    hide Without;
    var id := s[k].id;
    var a, c := s[..k], s[k + 1..];
    WithoutAbsent(a, id);
    WithoutAbsent(c, id);
    WithoutAround(a, s[k], c);
    assert s == a + [s[k]] + c;
  }

  lemma WithoutAround(a: seq<Entry>, e: Entry, c: seq<Entry>)
    ensures Without(a + [e] + c, e.id) == Without(a, e.id) + Without(c, e.id)
  {
    hide Without;
    WithoutConcat(a + [e], c, e.id);
    WithoutConcat(a, [e], e.id);
    WithoutOne(e);
  }

  lemma {:induction false} DropNothing(s: seq<Entry>, n: nat)
    requires n == 0
    ensures Drop(s, n) == s
  {
  }

  /** Dropping in two goes is dropping once. */
  lemma {:induction false} DropDrop(s: seq<Entry>, m: nat, n: nat)
    requires Positive(s)
    ensures Drop(Drop(s, m), n) == Drop(s, m + n)
  {
    if m == 0 || s == [] {
    } else if s[0].qty <= m {
      DropDrop(s[1..], m - s[0].qty, n);
    } else {
      var d := [s[0].(qty := s[0].qty - m)] + s[1..];
      assert d[1..] == s[1..];
    }
  }

  lemma {:induction false} DropKeepsPositive(s: seq<Entry>, n: nat)
    requires Positive(s)
    ensures Positive(Drop(s, n))
  {
    if n != 0 && s != [] && s[0].qty <= n {
      DropKeepsPositive(s[1..], n - s[0].qty);
    }
  }

  lemma {:induction false} UnitsAfterDrop(s: seq<Entry>, n: nat)
    ensures Units(Drop(s, n)) == Units(s) - Min(n, Units(s))
  {
    if n == 0 || s == [] {
    } else if s[0].qty <= n {
      UnitsAfterDrop(s[1..], n - s[0].qty);
    } else {
      var d := [s[0].(qty := s[0].qty - n)] + s[1..];
      assert d[1..] == s[1..];
    }
  }

  lemma {:induction false} LiquidityBound(s: seq<Entry>, isBuy: bool, limit: nat)
    ensures Liquidity(s, isBuy, limit) <= Units(s)
  {
    if s != [] {
      LiquidityBound(s[1..], isBuy, limit);
    }
  }

  lemma {:induction false} NoLiquidity(s: seq<Entry>, isBuy: bool, limit: nat)
    requires forall i :: 0 <= i < |s| ==> !Crosses(isBuy, limit, s[i].price)
    ensures Liquidity(s, isBuy, limit) == 0
  {
    if s != [] {
      assert !Crosses(isBuy, limit, s[0].price);
      assert forall i :: 0 <= i < |s[1..]| ==> s[1..][i] == s[i + 1];
      NoLiquidity(s[1..], isBuy, limit);
    }
  }

  /** On a sorted side the crossing orders come first, so dropping crossing units lowers the liquidity
      by exactly the units dropped. */
  lemma {:induction false} LiquidityAfterDrop(s: seq<Entry>, isBuy: bool, limit: nat, n: nat)
    requires Sorted(s, !isBuy)
    requires n <= Liquidity(s, isBuy, limit)
    ensures Liquidity(Drop(s, n), isBuy, limit) == Liquidity(s, isBuy, limit) - n
  {
    if n == 0 || s == [] {
    } else if !Crosses(isBuy, limit, s[0].price) {
      NoLiquidity(s, isBuy, limit);
    } else if s[0].qty <= n {
      LiquidityAfterDrop(s[1..], isBuy, limit, n - s[0].qty);
    } else {
      var d := [s[0].(qty := s[0].qty - n)] + s[1..];
      assert d[1..] == s[1..];
    }
  }

  /** What dropping leaves: a suffix, its first order perhaps reduced. Nothing behind an order trades
      before it is used up. */
  lemma {:induction false} DropShape(s: seq<Entry>, n: nat) returns (k: nat)
    requires n <= Units(s)
    ensures k == |s| - |Drop(s, n)| && k <= |s|
    ensures n == Units(s[..k]) + (if k < |s| then s[k].qty - Drop(s, n)[0].qty else 0)
    ensures k < |s| ==> Drop(s, n)[0].qty <= s[k].qty && Drop(s, n) == [s[k].(qty := Drop(s, n)[0].qty)] + s[k + 1..]
  {
    if n == 0 || s == [] {
      k := 0;
      assert s[..0] == [];
      assert k < |s| ==> s == [s[0]] + s[1..];
    } else if s[0].qty <= n {
      k := DropShape(s[1..], n - s[0].qty);
      k := k + 1;
      assert s[..k] == [s[0]] + s[1..][..k - 1];
      assert s[..k][1..] == s[1..][..k - 1];
      assert k < |s| ==> s[1..][k..] == s[k + 1..];
    } else {
      k := 0;
      assert s[..0] == [];
    }
  }
}
