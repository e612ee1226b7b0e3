/** 64-bit wrapping cursors and masked ring indices (include/SPSCQueue.h). */
module Cursors {

  /** `size_type` holds values below 2^64. */
  const WRAP: nat := 0x1_0000_0000_0000_0000

  function Pow2(k: nat): (n: nat)
    ensures n > 0
  {
    if k == 0 then 1 else 2 * Pow2(k - 1)
  }

  /** Unsigned subtraction modulo 2^64. */
  function Minus(a: nat, b: nat): nat
    requires a < WRAP && b < WRAP
  {
    if a >= b then a - b else a + WRAP - b
  }

  /** Bitwise AND of unsigned integers. */
  function And(a: nat, b: nat): nat {
    if a == 0 || b == 0 then 0 else 2 * And(a / 2, b / 2) + (a % 2) * (b % 2)
  }

  /** A power of two that fits a size_type, or the degenerate capacity 0. */
  ghost predicate Capacity(cap: nat) {
    cap == 0 || exists k :: 0 <= k < 64 && cap == Pow2(k)
  }

  /** The remainder, by repeated subtraction. */
  function Mod(n: nat, d: nat): (r: nat)
    requires d > 0
    ensures r < d
  {
    if n < d then n else Mod(n - d, d)
  }

  /** Mod is `%`. */
  lemma {:induction false} ModIsRemainder(n: nat, d: nat)
    requires d > 0
    ensures Mod(n, d) == n % d
    decreases n
  {
    if n >= d {
      ModIsRemainder(n - d, d);
      RemainderStep(n - d, d);
    }
  }

  lemma RemainderStep(n: nat, d: nat)
    requires d > 0
    ensures (n + d) % d == n % d
  {
    var q, q' := n / d, (n + d) / d;
    var k := q + 1 - q';
    assert k * d == q * d + d - q' * d;
    Multiple(k, d);
  }

  lemma Multiple(k: int, d: nat)
    ensures k > 0 ==> k * d >= d
    ensures k < 0 ==> k * d <= 0 - d
  {
    if k > 0 {
      assert (k - 1) * d >= 0;
    } else if k < 0 {
      assert (0 - k - 1) * d >= 0;
    }
  }

  lemma {:induction false} ModHalf(x: nat, h: nat)
    requires h > 0
    ensures Mod(x, 2 * h) == 2 * Mod(x / 2, h) + x % 2
    decreases x
  {
    if x >= 2 * h {
      ModHalf(x - 2 * h, h);
    }
  }

  /** Anding with 2^k - 1 is reducing modulo 2^k. */
  lemma {:induction false} MaskIsMod(x: nat, k: nat)
    ensures And(x, Pow2(k) - 1) == Mod(x, Pow2(k))
    decreases k
  {
    if k == 0 {
      ModOne(x);
    } else if x > 0 {
      var h := Pow2(k - 1);
      ModHalf(x, h);
      MaskIsMod(x / 2, k - 1);
      assert (2 * h - 1) / 2 == h - 1 && (2 * h - 1) % 2 == 1;
    }
  }

  lemma {:induction false} ModOne(x: nat)
    ensures Mod(x, 1) == 0
  {
  }

  lemma Pow2Wrap()
    ensures Pow2(64) == WRAP
  {
    assert Pow2(8) == 0x100;
    assert Pow2(16) == 0x1_0000;
    assert Pow2(24) == 0x100_0000;
    assert Pow2(32) == 0x1_0000_0000;
    assert Pow2(40) == 0x100_0000_0000;
    assert Pow2(48) == 0x1_0000_0000_0000;
    assert Pow2(56) == 0x100_0000_0000_0000;
  }

  /** Adding a larger power of two does not change the remainder. */
  lemma {:induction false} ModAddPower(x: nat, j: nat, k: nat)
    ensures Mod(x + Pow2(j + k), Pow2(k)) == Mod(x, Pow2(k))
    decreases j
  {
    if j > 0 {
      ModAddPower(x, j - 1, k);
      ModAddPower(x + Pow2(j - 1 + k), j - 1, k);
    }
  }

  /** Capacities divide 2^64, so wrapping a cursor does not change its ring index. */
  lemma {:induction false} WrapKeepsIndex(n: nat, k: nat)
    requires k < 64
    ensures Mod(n % WRAP, Pow2(k)) == Mod(n, Pow2(k))
    decreases n
  {
    hide Mod, Pow2;
    if n >= WRAP {
      var m := n - WRAP;
      WrapKeepsIndex(m, k);
      Pow2Wrap();
      ModAddPower(m, 64 - k, k);
      assert n % WRAP == m % WRAP;
      assert 64 - k + k == 64;
    }
  }

  /** `cursor & _index_mask` of a wrapped cursor is the unbounded cursor modulo the capacity. */
  lemma MaskedIndex(n: nat, cap: nat)
    requires Capacity(cap) && cap > 0
    ensures And(n % WRAP, cap - 1) == Mod(n, cap) == n % cap
  {
    var k :| 0 <= k < 64 && cap == Pow2(k);
    MaskIsMod(n % WRAP, k);
    WrapKeepsIndex(n, k);
    ModIsRemainder(n, cap);
  }

  lemma {:induction false} Pow2Grows(j: nat, k: nat)
    requires j <= k
    ensures Pow2(j) <= Pow2(k)
  {
    if j < k {
      Pow2Grows(j, k - 1);
    }
  }

  lemma CapacityFits(cap: nat)
    requires Capacity(cap)
    ensures 2 * cap <= WRAP
  {
    if cap > 0 {
      var k :| 0 <= k < 64 && cap == Pow2(k);
      Pow2Wrap();
      Pow2Grows(k, 63);
    }
  }

  /** The wrapped difference of two cursors less than 2^64 apart is their true difference. */
  lemma WrappedDifference(p: nat, c: nat)
    requires c <= p < c + WRAP
    ensures Minus(p % WRAP, c % WRAP) == p - c
    ensures p % WRAP == c % WRAP <==> p == c
  {
  }

  lemma NextCursor(n: nat)
    ensures (n % WRAP + 1) % WRAP == (n + 1) % WRAP
  {
  }

  /** Inside a window of cap consecutive cursors the ring indices are all different. */
  lemma {:induction false} WindowIndices(i: nat, j: nat, cap: nat)
    requires i < j < i + cap
    ensures Mod(i, cap) != Mod(j, cap)
    decreases i
  {
    if i >= cap {
      WindowIndices(i - cap, j - cap, cap);
    }
  }
}
