/** 64-bit words read as sets of bit positions. `1ULL << k` is `OneHot(k)`; the masks are kept apart
    from the positions so that no proof mixes bit-vector and integer arithmetic. */
module Words {

  /** `1ULL << k`: one, doubled k times. */
  function OneHot(k: nat): bv64
    requires k < 64
  {
    if k == 0 then 1 else OneHot(k - 1) << 1
  }

  predicate Meets(a: bv64, b: bv64) { a & b != 0 }

  function Or(a: bv64, b: bv64): bv64 { a | b }

  function AndNot(a: bv64, b: bv64): bv64 { a & !b }

  /** Bit k of w is set. */
  predicate Bit(w: bv64, k: nat)
    requires k < 64
  {
    Meets(w, OneHot(k))
  }

  lemma MeetsUnion(w: bv64, m: bv64, n: bv64)
    ensures !Meets(Or(w, m), n) ==> !Meets(w, n) && !Meets(m, n)
  {
    assert (w | m) & n == (w & n) | (m & n);
  }

  lemma UnionMeets(w: bv64, m: bv64, n: bv64)
    ensures !Meets(w, n) && !Meets(m, n) ==> !Meets(Or(w, m), n)
  {
  }

  lemma MeetsDifference(w: bv64, m: bv64, n: bv64)
    requires !Meets(m, n)
    ensures Meets(AndNot(w, m), n) <==> Meets(w, n)
  {
  }

  lemma DifferenceMissesMask(w: bv64, m: bv64)
    ensures !Meets(AndNot(w, m), m)
  {
  }

  lemma MeetsSymmetric(m: bv64, n: bv64)
    ensures Meets(m, n) <==> Meets(n, m)
  {
  }

  lemma MeetsSelf(m: bv64)
    ensures Meets(m, m) <==> m != 0
  {
  }

  lemma ShiftedMissesOne(m: bv64)
    ensures !Meets(1, m << 1)
  {
  }

  lemma ShiftTogether(m: bv64, n: bv64)
    requires !Meets(m, n)
    ensures !Meets(m << 1, n << 1)
  {
  }

  lemma {:induction false} OneHotDisjoint(j: nat, k: nat)
    requires j < k < 64
    ensures !Meets(OneHot(j), OneHot(k))
  {
    hide Meets;
    if j == 0 {
      ShiftedMissesOne(OneHot(k - 1));
    } else {
      OneHotDisjoint(j - 1, k - 1);
      ShiftTogether(OneHot(j - 1), OneHot(k - 1));
    }
  }

  lemma TopBit()
    ensures OneHot(63) == 0x8000_0000_0000_0000
  {
    assert OneHot(8) == 0x100;
    assert OneHot(16) == 0x1_0000;
    assert OneHot(24) == 0x100_0000;
    assert OneHot(32) == 0x1_0000_0000;
    assert OneHot(40) == 0x100_0000_0000;
    assert OneHot(48) == 0x1_0000_0000_0000;
    assert OneHot(56) == 0x100_0000_0000_0000;
  }

  /** No doubling below position 64 shifts the one out of the word. */
  lemma {:induction false} OneHotNonZero(k: nat)
    requires k < 64
    ensures OneHot(k) != 0
    decreases 64 - k
  {
    if k == 63 {
      TopBit();
    } else {
      OneHotNonZero(k + 1);
    }
  }

  lemma SetBit(w: bv64, k: nat, j: nat)
    requires k < 64 && j < 64
    ensures Bit(Or(w, OneHot(k)), j) <==> j == k || Bit(w, j)
  {
    hide Meets, Or, OneHot;
    MeetsUnion(w, OneHot(k), OneHot(j));
    UnionMeets(w, OneHot(k), OneHot(j));
    if j == k {
      OneHotNonZero(k);
      MeetsSelf(OneHot(k));
    } else if j < k {
      OneHotDisjoint(j, k);
      MeetsSymmetric(OneHot(j), OneHot(k));
    } else if k < j {
      OneHotDisjoint(k, j);
    }
  }

  lemma ClearBit(w: bv64, k: nat, j: nat)
    requires k < 64 && j < 64
    ensures Bit(AndNot(w, OneHot(k)), j) <==> j != k && Bit(w, j)
  {
    hide Meets, AndNot, OneHot;
    if j == k {
      DifferenceMissesMask(w, OneHot(k));
    } else {
      if j < k {
        OneHotDisjoint(j, k);
        MeetsSymmetric(OneHot(j), OneHot(k));
      } else {
        OneHotDisjoint(k, j);
      }
      MeetsDifference(w, OneHot(k), OneHot(j));
    }
  }

  /** The lowest n positions, all set. */
  function Ones(n: nat): bv64
    requires n <= 64
  {
    if n == 0 then 0 else Or(Ones(n - 1), OneHot(n - 1))
  }

  lemma AllOnes()
    ensures Ones(64) == 0xFFFF_FFFF_FFFF_FFFF
  {
    TopBit();
    assert Ones(8) == 0xFF;
    assert Ones(16) == 0xFFFF;
    assert Ones(24) == 0xFF_FFFF;
    assert Ones(32) == 0xFFFF_FFFF;
    assert Ones(40) == 0xFF_FFFF_FFFF;
    assert Ones(48) == 0xFFFF_FFFF_FFFF;
    assert Ones(56) == 0xFF_FFFF_FFFF_FFFF;
  }

  lemma {:induction false} NoneBelow(w: bv64, n: nat)
    requires n <= 64 && forall k :: 0 <= k < n ==> !Bit(w, k)
    ensures !Meets(Ones(n), w)
  {
    hide Meets, Or, OneHot;
    if n > 0 {
      NoneBelow(w, n - 1);
      assert !Bit(w, n - 1);
      MeetsSymmetric(w, OneHot(n - 1));
      UnionMeets(Ones(n - 1), OneHot(n - 1), w);
    } else {
      ZeroMeetsNothing(w);
    }
  }

  lemma ZeroMeetsNothing(w: bv64)
    ensures !Meets(0, w) && !Meets(w, 0)
  {
  }

  /** A word is zero exactly when it has no set bit. */
  lemma ZeroWord(w: bv64)
    ensures w == 0 <==> forall k :: 0 <= k < 64 ==> !Bit(w, k)
  {
    hide OneHot;
    if w == 0 {
    } else if forall k :: 0 <= k < 64 ==> !Bit(w, k) {
      NoneBelow(w, 64);
      AllOnes();
      assert false;
    }
  }

  lemma OrNonZero(w: bv64, k: nat)
    requires k < 64
    ensures Or(w, OneHot(k)) != 0
  {
    hide Meets, Or, OneHot;
    SetBit(w, k, k);
    ZeroMeetsNothing(OneHot(k));
  }

  lemma ZeroAndNot(m: bv64)
    ensures AndNot(0, m) == 0
  {
  }

  function ScanDown(w: bv64, from: nat): (k: nat)
    requires from < 64
    requires exists j :: 0 <= j <= from && Bit(w, j)
    ensures k <= from && Bit(w, k)
    ensures forall j :: k < j <= from ==> !Bit(w, j)
  {
    if Bit(w, from) then from else ScanDown(w, from - 1)
  }

  function ScanUp(w: bv64, from: nat): (k: nat)
    requires from < 64
    requires exists j :: from <= j < 64 && Bit(w, j)
    ensures from <= k < 64 && Bit(w, k)
    ensures forall j :: from <= j < k ==> !Bit(w, j)
    decreases 64 - from
  {
    if Bit(w, from) then from else ScanUp(w, from + 1)
  }

  /** `63 - std::countl_zero(w)` for a non-zero word. */
  function HighestBit(w: bv64): (k: nat)
    requires w != 0
    ensures k < 64 && Bit(w, k)
    ensures forall j :: k < j < 64 ==> !Bit(w, j)
  {
    hide Bit, OneHot;
    ZeroWord(w);
    ScanDown(w, 63)
  }

  /** `std::countr_zero(w)` for a non-zero word. */
  function LowestBit(w: bv64): (k: nat)
    requires w != 0
    ensures k < 64 && Bit(w, k)
    ensures forall j :: 0 <= j < k ==> !Bit(w, j)
  {
    hide Bit, OneHot;
    ZeroWord(w);
    ScanUp(w, 0)
  }
}
