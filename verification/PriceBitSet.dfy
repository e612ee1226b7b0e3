/** include/PriceBitSet.h: a three-level, 64-way bitmap used as an ordered set of prices. */
module PriceBits {
  import opened Words

  /** `UINT32_MAX`, the answer of `get_lowest` on an empty set. */
  const NO_PRICE: nat := 0xFFFF_FFFF

  /** 64^3: what one `_l2` word can summarise. */
  const MAX_CAPACITY: nat := 262144

  /** The largest member, or 0 when there is none. */
  ghost predicate IsHighest(s: set<nat>, v: nat) {
    if s == {} then v == 0 else v in s && forall x :: x in s ==> x <= v
  }

  /** The smallest member, or UINT32_MAX when there is none. */
  ghost predicate IsLowest(s: set<nat>, v: nat) {
    if s == {} then v == NO_PRICE else v in s && forall x :: x in s ==> v <= x
  }

  // ----- one level of summary words over the words below it -----

  /** Bit i of the upper words is set exactly when word i below is non-zero, and no other bit is. */
  ghost predicate Summary(lower: seq<bv64>, upper: seq<bv64>) {
    && |lower| <= 64 * |upper|
    && (forall i {:trigger lower[i]} :: 0 <= i < |lower| ==> (Bit(upper[i / 64], i % 64) <==> lower[i] != 0))
    && forall j, k {:trigger Bit(upper[j], k)} :: 0 <= j < |upper| && 0 <= k < 64 && Bit(upper[j], k) ==> 64 * j + k < |lower|
  }

  lemma SummaryAfterSet(lower: seq<bv64>, upper: seq<bv64>, i: nat, w: bv64)
    requires Summary(lower, upper) && i < |lower| && w != 0
    ensures Summary(lower[i := w], upper[i / 64 := Or(upper[i / 64], OneHot(i % 64))])
  {
    hide Bit, OneHot, Or;
    var upper' := upper[i / 64 := Or(upper[i / 64], OneHot(i % 64))];
    forall j, k | 0 <= j < |upper| && 0 <= k < 64
      ensures Bit(upper'[j], k) <==> (64 * j + k == i || Bit(upper[j], k))
    {
      if j == i / 64 {
        SetBit(upper[j], i % 64, k);
      }
    }
  }

  lemma SummaryAfterClear(lower: seq<bv64>, upper: seq<bv64>, i: nat)
    requires Summary(lower, upper) && i < |lower|
    ensures Summary(lower[i := 0], upper[i / 64 := AndNot(upper[i / 64], OneHot(i % 64))])
  {
    hide Bit, OneHot, AndNot;
    var upper' := upper[i / 64 := AndNot(upper[i / 64], OneHot(i % 64))];
    forall j, k | 0 <= j < |upper| && 0 <= k < 64
      ensures Bit(upper'[j], k) <==> (64 * j + k != i && Bit(upper[j], k))
    {
      if j == i / 64 {
        ClearBit(upper[j], i % 64, k);
      }
    }
  }

  /** Replacing a non-zero word by a non-zero word leaves the summary as it is. */
  lemma SummaryKept(lower: seq<bv64>, upper: seq<bv64>, i: nat, w: bv64)
    requires Summary(lower, upper) && i < |lower| && lower[i] != 0 && w != 0
    ensures Summary(lower[i := w], upper)
  {
  }

  /** Word i is the last non-zero word. */
  ghost predicate LastWord(ws: seq<bv64>, i: nat) {
    i < |ws| && ws[i] != 0 && forall j :: i < j < |ws| ==> ws[j] == 0
  }

  /** Word i is the first non-zero word. */
  ghost predicate FirstWord(ws: seq<bv64>, i: nat) {
    i < |ws| && ws[i] != 0 && forall j :: 0 <= j < i ==> ws[j] == 0
  }

  /** The top bit of the last summary word names the last non-zero word below it. */
  lemma DescendHighest(lower: seq<bv64>, upper: seq<bv64>, j: nat)
    requires Summary(lower, upper) && LastWord(upper, j)
    ensures LastWord(lower, 64 * j + HighestBit(upper[j]))
  {
    hide Bit, OneHot;
    var b := HighestBit(upper[j]);
    forall i | 64 * j + b < i < |lower|
      ensures lower[i] == 0
    {
      if i / 64 == j {
        assert !Bit(upper[j], i % 64);
      } else {
        ZeroWord(upper[i / 64]);
      }
    }
  }

  lemma DescendLowest(lower: seq<bv64>, upper: seq<bv64>, j: nat)
    requires Summary(lower, upper) && FirstWord(upper, j)
    ensures FirstWord(lower, 64 * j + LowestBit(upper[j]))
  {
    hide Bit, OneHot;
    var b := LowestBit(upper[j]);
    forall i | 0 <= i < 64 * j + b
      ensures lower[i] == 0
    {
      if i / 64 == j {
        assert !Bit(upper[j], i % 64);
      } else {
        ZeroWord(upper[i / 64]);
      }
    }
  }

  // ----- the set of positions held by the bottom words -----

  ghost function Members(l0: seq<bv64>): set<nat> {
    set p | 0 <= p < 64 * |l0| && Bit(l0[p / 64], p % 64)
  }

  lemma MembersAfterSet(l0: seq<bv64>, p: nat)
    requires p < 64 * |l0|
    ensures Members(l0[p / 64 := Or(l0[p / 64], OneHot(p % 64))]) == Members(l0) + {p}
  {
    hide Bit, OneHot, Or;
    var w := Or(l0[p / 64], OneHot(p % 64));
    var l0' := l0[p / 64 := w];
    forall q | 0 <= q < 64 * |l0|
      ensures q in Members(l0') <==> q == p || q in Members(l0)
    {
      if q / 64 == p / 64 {
        SetBit(l0[p / 64], p % 64, q % 64);
      }
    }
  }

  lemma MembersAfterClear(l0: seq<bv64>, p: nat)
    requires p < 64 * |l0|
    ensures Members(l0[p / 64 := AndNot(l0[p / 64], OneHot(p % 64))]) == Members(l0) - {p}
  {
    hide Bit, OneHot, AndNot;
    var l0' := l0[p / 64 := AndNot(l0[p / 64], OneHot(p % 64))];
    forall q | 0 <= q < 64 * |l0|
      ensures q in Members(l0') <==> q != p && q in Members(l0)
    {
      if q / 64 == p / 64 {
        ClearBit(l0[p / 64], p % 64, q % 64);
      }
    }
  }

  /** The last non-zero word and its top bit give the largest member. */
  lemma HighestMember(l0: seq<bv64>, i: nat)
    requires LastWord(l0, i)
    ensures IsHighest(Members(l0), 64 * i + HighestBit(l0[i]))
  {
    hide Bit, OneHot;
    var v := 64 * i + HighestBit(l0[i]);
    assert v / 64 == i && v % 64 == HighestBit(l0[i]);
    assert v in Members(l0);
    forall p | p in Members(l0)
      ensures p / 64 <= i
    {
      ZeroWord(l0[p / 64]);
    }
  }

  lemma LowestMember(l0: seq<bv64>, i: nat)
    requires FirstWord(l0, i)
    ensures IsLowest(Members(l0), 64 * i + LowestBit(l0[i]))
  {
    hide Bit, OneHot;
    var v := 64 * i + LowestBit(l0[i]);
    assert v / 64 == i && v % 64 == LowestBit(l0[i]);
    assert v in Members(l0);
    forall p | p in Members(l0)
      ensures i <= p / 64
    {
      ZeroWord(l0[p / 64]);
    }
  }

  /** A zero summary means that every word below is zero, and zero words have no members. */
  lemma ZeroSummary(lower: seq<bv64>, upper: seq<bv64>)
    requires Summary(lower, upper) && forall j :: 0 <= j < |upper| ==> upper[j] == 0
    ensures forall i :: 0 <= i < |lower| ==> lower[i] == 0
  {
  }

  lemma NoMembers(l0: seq<bv64>)
    ensures Members(l0) == {} <==> forall i :: 0 <= i < |l0| ==> l0[i] == 0
  {
    hide Bit, OneHot;
    forall i | 0 <= i < |l0| && l0[i] != 0
      ensures Members(l0) != {}
    {
      var k := HighestBit(l0[i]);
      assert (64 * i + k) / 64 == i && (64 * i + k) % 64 == k;
      assert 64 * i + k in Members(l0);
    }
    forall p | p in Members(l0)
      ensures l0[p / 64] != 0
    {
      ZeroWord(l0[p / 64]);
    }
  }

  lemma ZeroWords(lower: seq<bv64>, upper: seq<bv64>)
    requires |lower| <= 64 * |upper|
    requires (forall i :: 0 <= i < |lower| ==> lower[i] == 0) && forall j :: 0 <= j < |upper| ==> upper[j] == 0
    ensures Summary(lower, upper)
  {
  }

  class PriceBitSet {
    const ticks: nat
    var l0: seq<bv64>
    var l1: seq<bv64>
    var l2: bv64

    /** The words of `_l1` that `_l2` has a bit for. */
    ghost function L1(): seq<bv64>
      reads this
    {
      l1[..if |l1| < 64 then |l1| else 64]
    }

    ghost predicate Valid()
      reads this
    {
      && 0 < ticks <= MAX_CAPACITY
      && |l0| == ticks / 64 + 1
      && |l1| == |l0| / 64 + 1
      && Summary(l0, l1)
      && Summary(L1(), [l2])
      && (forall j :: 64 <= j < |l1| ==> l1[j] == 0)
      && forall p :: p in Contents() ==> p < ticks
    }

    /** The abstract value: the prices whose bit is set. */
    ghost function Contents(): set<nat>
      reads this
    {
      Members(l0)
    }

    constructor (ticks: nat)
      requires 0 < ticks <= 64 * 64 * 64
      ensures Valid() && Contents() == {} && this.ticks == ticks
    {
      this.ticks := ticks;
      var words := ticks / 64 + 1;
      l0 := seq(words, _ => 0);
      l1 := seq(words / 64 + 1, _ => 0);
      l2 := 0;
      new;
      hide Summary, Members;
      ZeroWords(l0, l1);
      ZeroWords(L1(), [l2]);
      NoMembers(l0);
      assert Contents() == {};
    }

    /** Insertion. */
    method Set(price: nat)
      requires Valid() && price < ticks
      modifies this
      ensures Valid() && Contents() == old(Contents()) + {price}
    {
      hide Summary, Members, Or, OneHot;
      var l0Index := price / 64;
      var l1Index := l0Index / 64;
      ghost var was2, cut := l2, L1();
      MembersAfterSet(l0, price);
      OrNonZero(l0[l0Index], price % 64);
      SummaryAfterSet(l0, l1, l0Index, Or(l0[l0Index], OneHot(price % 64)));
      OrNonZero(l1[l1Index], l0Index % 64);
      SummaryAfterSet(cut, [was2], l1Index, Or(l1[l1Index], OneHot(l0Index % 64)));

      l0 := l0[l0Index := Or(l0[l0Index], OneHot(price % 64))];
      l1 := l1[l1Index := Or(l1[l1Index], OneHot(l0Index % 64))];
      l2 := Or(l2, OneHot(l1Index));

      assert L1() == cut[l1Index := l1[l1Index]];
      assert [l2] == [was2][l1Index / 64 := l2];
      assert Summary(L1(), [l2]);
      assert Contents() == old(Contents()) + {price};
    }

    /** Removal; clearing an absent price changes nothing. */
    method Clear(price: nat)
      requires Valid() && price < ticks
      modifies this
      ensures Valid() && Contents() == old(Contents()) - {price}
    {
      hide Summary, Members, AndNot, OneHot;
      var l0Index := price / 64;
      var l1Index := l0Index / 64;
      ghost var was0, was2, cut := l0, l2, L1();
      MembersAfterClear(was0, price);
      SummaryAfterClear(was0, l1, l0Index);
      SummaryAfterClear(cut, [was2], l1Index);
      ZeroAndNot(OneHot(price % 64));
      ZeroAndNot(OneHot(l0Index % 64));

      l0 := l0[l0Index := AndNot(l0[l0Index], OneHot(price % 64))];
      if l0[l0Index] == 0 {
        l1 := l1[l1Index := AndNot(l1[l1Index], OneHot(l0Index % 64))];
        assert L1() == cut[l1Index := l1[l1Index]];
        if l1[l1Index] == 0 {
          l2 := AndNot(l2, OneHot(l1Index));
          assert [l2] == [was2][l1Index / 64 := l2];
        } else {
          SummaryKept(cut, [l2], l1Index, l1[l1Index]);
        }
      } else {
        SummaryKept(was0, l1, l0Index, l0[l0Index]);
      }
      assert Summary(l0, l1);
      assert Summary(L1(), [l2]);
      assert Contents() == old(Contents()) - {price};
    }

    /** `_l2` is zero exactly when the set is empty. */
    lemma TopWord()
      requires Valid()
      ensures l2 == 0 <==> Contents() == {}
    {
      hide Members, Bit, OneHot;
      NoMembers(l0);
      if l2 == 0 {
        ZeroSummary(L1(), [l2]);
        assert forall j :: 0 <= j < |L1()| ==> L1()[j] == l1[j];
        ZeroSummary(l0, l1);
      } else {
        DescendHighest(L1(), [l2], 0);
        DescendHighest(l0, l1, HighestBit(l2));
      }
    }

    /** The largest price in the set, or 0: three dependent loads. */
    method GetHighest() returns (price: nat)
      requires Valid()
      ensures IsHighest(Contents(), price)
      ensures if Contents() == {} then price == 0 else price in Contents() && forall p :: p in Contents() ==> p <= price
    {
      hide Members, Bit, OneHot, Summary;
      TopWord();
      if l2 == 0 {
        return 0;
      }
      DescendHighest(L1(), [l2], 0);
      var l2Bit := HighestBit(l2);
      assert LastWord(l1, l2Bit);
      DescendHighest(l0, l1, l2Bit);
      var l1Bit := HighestBit(l1[l2Bit]);
      var l0Index := l2Bit * 64 + l1Bit;
      HighestMember(l0, l0Index);
      var l0Bit := HighestBit(l0[l0Index]);
      price := l0Index * 64 + l0Bit;
    }

    /** The smallest price in the set, or UINT32_MAX. */
    method GetLowest() returns (price: nat)
      requires Valid()
      ensures IsLowest(Contents(), price)
      ensures if Contents() == {} then price == 0xFFFF_FFFF else price in Contents() && forall p :: p in Contents() ==> price <= p
    {
      hide Members, Bit, OneHot, Summary;
      TopWord();
      if l2 == 0 {
        return NO_PRICE;
      }
      DescendLowest(L1(), [l2], 0);
      var l2Bit := LowestBit(l2);
      assert forall j :: 0 <= j < l2Bit ==> L1()[j] == l1[j];
      assert FirstWord(l1, l2Bit);
      DescendLowest(l0, l1, l2Bit);
      var l1Bit := LowestBit(l1[l2Bit]);
      var l0Index := l2Bit * 64 + l1Bit;
      LowestMember(l0, l0Index);
      var l0Bit := LowestBit(l0[l0Index]);
      price := l0Index * 64 + l0Bit;
    }
  }
}
