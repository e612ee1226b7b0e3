/** A side as a ladder of price levels, best price first, and its flattening into one queue. */
module Rungs {
  import opened BookSpec

  /** The price of rung r: bids are walked from the top tick down, asks from tick 0 up. */
  function RungPrice(isBuy: bool, ticks: nat, r: nat): nat
    requires r < ticks
  {
    if isBuy then ticks - 1 - r else r
  }

  function Flatten(rungs: seq<seq<Entry>>): seq<Entry> {
    if rungs == [] then [] else rungs[0] + Flatten(rungs[1..])
  }

  /** Every order on a rung carries the price of that rung. */
  ghost predicate Priced(rungs: seq<seq<Entry>>, isBuy: bool) {
    forall r, i {:trigger rungs[r][i]} :: 0 <= r < |rungs| && 0 <= i < |rungs[r]| ==>
      rungs[r][i].price == RungPrice(isBuy, |rungs|, r)
  }

  lemma {:induction false} FlattenConcat(a: seq<seq<Entry>>, b: seq<seq<Entry>>)
    ensures Flatten(a + b) == Flatten(a) + Flatten(b)
  {
    if a == [] {
      assert a + b == b;
    } else {
      assert (a + b)[0] == a[0] && (a + b)[1..] == a[1..] + b;
      FlattenConcat(a[1..], b);
    }
  }

  /** The flattening, split around one rung. */
  lemma FlattenSplit(rungs: seq<seq<Entry>>, r: nat)
    requires r < |rungs|
    ensures Flatten(rungs) == Flatten(rungs[..r]) + rungs[r] + Flatten(rungs[r + 1..])
  {
    assert rungs == rungs[..r] + rungs[r..];
    FlattenConcat(rungs[..r], rungs[r..]);
    assert rungs[r..][0] == rungs[r] && rungs[r..][1..] == rungs[r + 1..];
  }

  lemma FlattenUpdate(rungs: seq<seq<Entry>>, r: nat, s: seq<Entry>)
    requires r < |rungs|
    ensures Flatten(rungs[r := s]) == Flatten(rungs[..r]) + s + Flatten(rungs[r + 1..])
  {
    FlattenSplit(rungs[r := s], r);
    assert rungs[r := s][..r] == rungs[..r];
    assert rungs[r := s][r + 1..] == rungs[r + 1..];
  }

  /** Every flattened order stands on some rung. */
  lemma {:induction false} FlattenOrigin(rungs: seq<seq<Entry>>, i: nat) returns (r: nat, k: nat)
    requires i < |Flatten(rungs)|
    ensures r < |rungs| && k < |rungs[r]| && rungs[r][k] == Flatten(rungs)[i]
  {
    if i < |rungs[0]| {
      r, k := 0, i;
    } else {
      r, k := FlattenOrigin(rungs[1..], i - |rungs[0]|);
      r := r + 1;
    }
  }

  lemma {:induction false} FlattenEmpty(rungs: seq<seq<Entry>>)
    requires forall r :: 0 <= r < |rungs| ==> rungs[r] == []
    ensures Flatten(rungs) == []
  {
    if rungs != [] {
      FlattenEmpty(rungs[1..]);
    }
  }

  lemma {:induction false} FlattenWithoutAbsent(rungs: seq<seq<Entry>>, id: nat)
    requires forall r, i {:trigger rungs[r][i]} :: 0 <= r < |rungs| && 0 <= i < |rungs[r]| ==> rungs[r][i].id != id
    ensures !Has(Flatten(rungs), id)
  {
    forall i | 0 <= i < |Flatten(rungs)|
      ensures Flatten(rungs)[i].id != id
    {
      var r, k := FlattenOrigin(rungs, i);
    }
  }

  /** Insertion in the flat queue is insertion at the tail of the order's own rung. */
  lemma InsertMiddle(a: seq<Entry>, s: seq<Entry>, c: seq<Entry>, isBuy: bool, e: Entry)
    requires forall i :: 0 <= i < |a| ==> NoWorse(isBuy, a[i].price, e.price)
    requires forall i :: 0 <= i < |s| ==> s[i].price == e.price
    requires forall i :: 0 <= i < |c| ==> !NoWorse(isBuy, c[i].price, e.price)
    ensures Insert(a + s + c, isBuy, e) == a + (s + [e]) + c
  {
    var f := a + s;
    assert forall i :: 0 <= i < |f| ==> NoWorse(isBuy, f[i].price, e.price);
    InsertBetween(f, c, isBuy, e);
    assert a + (s + [e]) + c == f + [e] + c;
  }

  lemma {:induction false} InsertBetween(f: seq<Entry>, c: seq<Entry>, isBuy: bool, e: Entry)
    requires forall i :: 0 <= i < |f| ==> NoWorse(isBuy, f[i].price, e.price)
    requires forall i :: 0 <= i < |c| ==> !NoWorse(isBuy, c[i].price, e.price)
    ensures Insert(f + c, isBuy, e) == f + [e] + c
  {
    if f == [] {
      assert f + c == c;
      assert f + [e] + c == [e] + c;
    } else {
      assert (f + c)[0] == f[0] && (f + c)[1..] == f[1..] + c;
      InsertBetween(f[1..], c, isBuy, e);
      assert f + [e] + c == [f[0]] + (f[1..] + [e] + c);
    }
  }

  /** Prices of flattened rungs in a range of the ladder. */
  lemma SlicePrices(rungs: seq<seq<Entry>>, isBuy: bool, lo: nat, hi: nat, i: nat)
    requires Priced(rungs, isBuy) && lo <= hi <= |rungs|
    requires i < |Flatten(rungs[lo..hi])|
    ensures exists r :: lo <= r < hi && Flatten(rungs[lo..hi])[i].price == RungPrice(isBuy, |rungs|, r)
  {
    var r, k := FlattenOrigin(rungs[lo..hi], i);
    assert rungs[lo..hi][r][k] == rungs[lo + r][k];
    assert lo <= lo + r < hi;
  }

  lemma FlattenInsert(rungs: seq<seq<Entry>>, isBuy: bool, r: nat, e: Entry)
    requires Priced(rungs, isBuy) && r < |rungs| && e.price == RungPrice(isBuy, |rungs|, r)
    ensures Insert(Flatten(rungs), isBuy, e) == Flatten(rungs[r := rungs[r] + [e]])
  {
    var a, c := Flatten(rungs[..r]), Flatten(rungs[r + 1..]);
    forall i | 0 <= i < |a|
      ensures NoWorse(isBuy, a[i].price, e.price)
    {
      assert rungs[..r] == rungs[0..r];
      SlicePrices(rungs, isBuy, 0, r, i);
    }
    forall i | 0 <= i < |c|
      ensures !NoWorse(isBuy, c[i].price, e.price)
    {
      assert rungs[r + 1..] == rungs[r + 1..|rungs|];
      SlicePrices(rungs, isBuy, r + 1, |rungs|, i);
    }
    FlattenSplit(rungs, r);
    InsertMiddle(a, rungs[r], c, isBuy, e);
    FlattenUpdate(rungs, r, rungs[r] + [e]);
  }

  /** An id stands nowhere but at position k of rung r. */
  ghost predicate OnlyAt(rungs: seq<seq<Entry>>, r: nat, k: nat) {
    && r < |rungs| && k < |rungs[r]|
    && forall q, i {:trigger rungs[q][i]} :: 0 <= q < |rungs| && 0 <= i < |rungs[q]| && !(q == r && i == k) ==>
         rungs[q][i].id != rungs[r][k].id
  }

  /** Removing an order from the flat queue is removing it from its rung. */
  lemma FlattenWithout(rungs: seq<seq<Entry>>, r: nat, k: nat)
    requires OnlyAt(rungs, r, k)
    ensures Without(Flatten(rungs), rungs[r][k].id) == Flatten(rungs[r := rungs[r][..k] + rungs[r][k + 1..]])
    ensures Has(Flatten(rungs), rungs[r][k].id)
  {
    var id := rungs[r][k].id;
    var a, c := rungs[..r], rungs[r + 1..];
    FlattenSplit(rungs, r);
    assert Flatten(rungs)[|Flatten(a)| + k] == rungs[r][k];
    FlattenWithoutAbsent(a, id);
    FlattenWithoutAbsent(c, id);
    WithoutAbsent(Flatten(a), id);
    WithoutAbsent(Flatten(c), id);
    WithoutAt(rungs[r], k);
    WithoutConcat(Flatten(a) + rungs[r], Flatten(c), id);
    WithoutConcat(Flatten(a), rungs[r], id);
    FlattenUpdate(rungs, r, rungs[r][..k] + rungs[r][k + 1..]);
  }

  lemma ResizeConcat(a: seq<Entry>, b: seq<Entry>, id: nat, qty: nat)
    ensures Resize(a + b, id, qty) == Resize(a, id, qty) + Resize(b, id, qty)
  {
  }

  lemma ResizeAbsent(s: seq<Entry>, id: nat, qty: nat)
    requires !Has(s, id)
    ensures Resize(s, id, qty) == s
  {
  }

  /** Resizing an order in the flat queue is resizing it on its rung. */
  lemma FlattenResize(rungs: seq<seq<Entry>>, r: nat, k: nat, qty: nat)
    requires OnlyAt(rungs, r, k)
    ensures Resize(Flatten(rungs), rungs[r][k].id, qty) ==
            Flatten(rungs[r := rungs[r][k := rungs[r][k].(qty := qty)]])
  {
    var id := rungs[r][k].id;
    var a, c := rungs[..r], rungs[r + 1..];
    FlattenSplit(rungs, r);
    FlattenWithoutAbsent(a, id);
    FlattenWithoutAbsent(c, id);
    ResizeAbsent(Flatten(a), id, qty);
    ResizeAbsent(Flatten(c), id, qty);
    assert Resize(rungs[r], id, qty) == rungs[r][k := rungs[r][k].(qty := qty)];
    ResizeConcat(Flatten(a) + rungs[r], Flatten(c), id, qty);
    ResizeConcat(Flatten(a), rungs[r], id, qty);
    FlattenUpdate(rungs, r, rungs[r][k := rungs[r][k].(qty := qty)]);
  }

  /** Below empty better rungs the flat queue starts with the rung itself. */
  lemma FlattenHead(rungs: seq<seq<Entry>>, r: nat)
    requires r < |rungs| && rungs[r] != []
    requires forall q :: 0 <= q < r ==> rungs[q] == []
    ensures Flatten(rungs) != [] && Flatten(rungs)[0] == rungs[r][0]
  {
    FlattenSplit(rungs, r);
    FlattenEmpty(rungs[..r]);
  }

  /** Trading against the head order: it leaves when used up and is resized otherwise. */
  lemma DropHead(s: seq<Entry>, t: nat)
    requires s != [] && 0 < t <= s[0].qty
    requires forall i :: 1 <= i < |s| ==> s[i].id != s[0].id
    ensures Drop(s, t) == if t == s[0].qty then Without(s, s[0].id) else Resize(s, s[0].id, s[0].qty - t)
  {
    if t == s[0].qty {
      WithoutAt(s, 0);
      assert s[..0] + s[1..] == s[1..];
      DropNothing(s[1..], 0);
    } else {
      assert Resize(s, s[0].id, s[0].qty - t) == [s[0].(qty := s[0].qty - t)] + s[1..];
    }
  }

  lemma FlattenSorted(rungs: seq<seq<Entry>>, isBuy: bool)
    requires Priced(rungs, isBuy)
    ensures Sorted(Flatten(rungs), isBuy)
  {
    FlattenSortedFrom(rungs, isBuy, 0);
    assert rungs[0..] == rungs;
  }

  lemma {:induction false} FlattenSortedFrom(rungs: seq<seq<Entry>>, isBuy: bool, lo: nat)
    requires Priced(rungs, isBuy) && lo <= |rungs|
    ensures Sorted(Flatten(rungs[lo..]), isBuy)
    decreases |rungs| - lo
  {
    if lo < |rungs| {
      FlattenSortedFrom(rungs, isBuy, lo + 1);
      var rest := Flatten(rungs[lo + 1..]);
      assert rungs[lo..][0] == rungs[lo] && rungs[lo..][1..] == rungs[lo + 1..];
      forall j | 0 <= j < |rest|
        ensures NoWorse(isBuy, RungPrice(isBuy, |rungs|, lo), rest[j].price)
      {
        assert rungs[lo + 1..] == rungs[lo + 1..|rungs|];
        SlicePrices(rungs, isBuy, lo + 1, |rungs|, j);
      }
    }
  }

  /** Rungs whose ids are pairwise distinct flatten to a queue with unique ids. */
  ghost predicate DistinctIds(rungs: seq<seq<Entry>>) {
    forall r, k {:trigger rungs[r][k]} :: 0 <= r < |rungs| && 0 <= k < |rungs[r]| ==> OnlyAt(rungs, r, k)
  }

  lemma FlattenUnique(rungs: seq<seq<Entry>>)
    requires DistinctIds(rungs)
    ensures UniqueIds(Flatten(rungs))
  {
    FlattenUniqueFrom(rungs, 0);
    assert rungs[0..] == rungs;
  }

  lemma {:induction false} FlattenUniqueFrom(rungs: seq<seq<Entry>>, lo: nat)
    requires DistinctIds(rungs) && lo <= |rungs|
    ensures UniqueIds(Flatten(rungs[lo..]))
    decreases |rungs| - lo
  {
    if lo < |rungs| {
      FlattenUniqueFrom(rungs, lo + 1);
      var rest := Flatten(rungs[lo + 1..]);
      assert rungs[lo..][0] == rungs[lo] && rungs[lo..][1..] == rungs[lo + 1..];
      forall i, j | 0 <= i < |rungs[lo]| && 0 <= j < |rest|
        ensures rungs[lo][i].id != rest[j].id
      {
        var r, k := FlattenOrigin(rungs[lo + 1..], j);
        assert rungs[lo + 1..][r][k] == rungs[lo + 1 + r][k];
        assert OnlyAt(rungs, lo, i);
      }
      forall i, j | 0 <= i < j < |rungs[lo]|
        ensures rungs[lo][i].id != rungs[lo][j].id
      {
        assert OnlyAt(rungs, lo, i);
      }
    }
  }
}
