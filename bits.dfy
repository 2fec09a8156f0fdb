// Bitwise helpers: the `IsPow2` tests of BigSpanHelpers and the bit
// arithmetic they rest on, with `&` defined bit by bit on naturals.
module Bits {
  import opened NativeInts

  function Pow2(k: nat): (r: nat)
    ensures r >= 1
  {
    if k == 0 then 1 else 2 * Pow2(k - 1)
  }

  /** Bitwise `&` of two non-negative numbers, one bit at a time from the bottom. */
  function And(x: nat, y: nat): (r: nat)
    ensures r <= x && r <= y
  {
    if x == 0 || y == 0 then 0 else 2 * And(x / 2, y / 2) + (x % 2) * (y % 2)
  }

  /** The 32-bit two's complement pattern of an `int` (what `&` on `int` operates on). */
  function Bits32(x: int): (r: nat)
    ensures r < TWO_32
    ensures 0 <= x < TWO_32 ==> r == x
  {
    x % TWO_32
  }

  /** `IsPow2(int value)`: `(value & (value - 1)) == 0 && value > 0`, with `value - 1` unchecked. */
  function IsPow2Int(value: int32): (r: bool)
    ensures r <==> exists k :: 0 <= k <= 30 && Pow2(k) == value as int
  {
    var result := And(Bits32(value as int), Bits32(value as int - 1)) == 0 && value > 0;
    Pow2Facts();
    PowerOfTwoBitTrick(value as int, 30);
    result
  }

  /** `IsPow2(uint value)`: `(value & (value - 1)) == 0 && value != 0`, with `value - 1` unchecked. */
  function IsPow2UInt(value: uint): (r: bool)
    ensures r <==> exists k :: 0 <= k <= 31 && Pow2(k) == value as int
  {
    var result := And(Bits32(value as int), Bits32(value as int - 1)) == 0 && value != 0;
    Pow2Facts();
    PowerOfTwoBitTrick(value as int, 31);
    result
  }

  /** The power of two below `v`, for a positive `v` (its highest set bit). */
  function Log2(v: nat): (k: nat)
    requires v > 0
    ensures Pow2(k) <= v < 2 * Pow2(k)
  {
    if v == 1 then 0 else Log2(v / 2) + 1
  }

  lemma {:induction false} AndSelf(x: nat)
    ensures And(x, x) == x
  {
    if x != 0 {
      AndSelf(x / 2);
    }
  }

  lemma {:induction false} Pow2Monotone(j: nat, k: nat)
    requires j < k
    ensures 2 * Pow2(j) <= Pow2(k)
  {
    if j + 1 < k {
      Pow2Monotone(j, k - 1);
    }
  }

  /** `v & (v - 1)` clears the lowest set bit, so it is zero exactly for powers of two. */
  lemma {:induction false} AndPredecessor(v: nat)
    requires v > 0
    ensures And(v, v - 1) == 0 <==> Pow2(Log2(v)) == v
  {
    if v == 1 {
    } else if v % 2 == 0 {
      AndPredecessor(v / 2);
      assert (v - 1) / 2 == v / 2 - 1 && (v - 1) % 2 == 1;
      assert And(v, v - 1) == 2 * And(v / 2, v / 2 - 1);
    } else {
      AndSelf(v / 2);
      assert (v - 1) / 2 == v / 2 && (v - 1) % 2 == 0;
      assert And(v, v - 1) == v - 1 > 0;
      assert Pow2(Log2(v)) == 2 * Pow2(Log2(v / 2));
    }
  }

  /**
    * The bit trick on a 32-bit pattern: for `0 < v < 2^(m+1)`, it holds exactly
    * when `v` is `2^k` with `k <= m`; for `v <= 0` the sign test decides.
    */
  lemma PowerOfTwoBitTrick(v: int, m: nat)
    requires m <= 31 && v < Pow2(m + 1) && Pow2(m + 1) <= TWO_32
    ensures (And(Bits32(v), Bits32(v - 1)) == 0 && v > 0) <==> exists k :: 0 <= k <= m && Pow2(k) == v
  {
    if v > 0 {
      AndPredecessor(v);
      var k := Log2(v);
      if k > m {
        Pow2Monotone(m, k);
      }
      if Pow2(k) == v {
        assert 0 <= k <= m && Pow2(k) == v;
      }
      forall j | 0 <= j <= m && Pow2(j) == v
        ensures j == k
      {
        if j < k {
          Pow2Monotone(j, k);
        } else if k < j {
          Pow2Monotone(k, j);
        }
      }
    }
  }

  /**
    * For `int.MinValue` the bit trick alone says "power of two" (2^31 & (2^31 - 1)
    * is zero); only the sign test rejects it.
    */
  lemma {:induction false} MinValueFoolsBitTrick()
    ensures And(Bits32(-TWO_31), Bits32(-TWO_31 - 1)) == 0
    ensures !IsPow2Int(-0x8000_0000)
  {
    Pow2Facts();
    assert Log2(TWO_31) == 31 by { Log2Pow2(31); }
    AndPredecessor(TWO_31);
    assert Bits32(-TWO_31) == TWO_31 && Bits32(-TWO_31 - 1) == TWO_31 - 1;
  }

  lemma Pow2Facts()
    ensures Pow2(31) == TWO_31 && Pow2(32) == TWO_32
  {
    assert Pow2(4) == 16;
    assert Pow2(8) == 256 by { assert Pow2(6) == 64; }
    assert Pow2(12) == 4096 by { assert Pow2(10) == 1024; }
    assert Pow2(16) == TWO_16 by { assert Pow2(14) == 16384; }
    assert Pow2(20) == 0x10_0000 by { assert Pow2(18) == 0x4_0000; }
    assert Pow2(24) == 0x100_0000 by { assert Pow2(22) == 0x40_0000; }
    assert Pow2(28) == 0x1000_0000 by { assert Pow2(26) == 0x400_0000; }
    assert Pow2(30) == 0x4000_0000;
  }

  lemma {:induction false} Log2Pow2(k: nat)
    ensures Log2(Pow2(k)) == k
  {
    if k > 0 {
      Log2Pow2(k - 1);
    }
  }
}
