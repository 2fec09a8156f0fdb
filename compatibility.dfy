// The `CompareTo` extension methods that the library supplies for `nuint`
// on targets whose runtime lacks them.
module NetStandard2Compatibility {
  import opened NativeInts

  /**
    * `CompareTo(nuint a, nuint | uint | ulong b)`: the three overloads share one
    * body; `b` is the (non-negative) value of the right operand.
    */
  function CompareTo(a: nuint, b: nat): (r: int)
    requires b < TWO_64
    ensures r == -1 <==> (a as int) < b
    ensures r == 0 <==> a as int == b
    ensures r == 1 <==> (a as int) > b
  {
    if (a as int) < b then -1 else if (a as int) > b then 1 else 0
  }

  /** `CompareTo(nuint a, int b)`: every negative `b` is below every `nuint`. */
  function CompareToInt(a: nuint, b: int32): (r: int)
    ensures b < 0 ==> r == 1
    ensures b >= 0 ==> (r == -1 <==> (a as int) < b as int) && (r == 0 <==> a as int == b as int)
    ensures b >= 0 ==> r == CompareTo(a, b as int)
  {
    if b < 0 then 1 else CompareTo(a, (b as int) % TWO_32)
  }

  /** `CompareTo(nuint a, long b)`: every negative `b` is below every `nuint`. */
  function CompareToLong(a: nuint, b: int64): (r: int)
    ensures b < 0 ==> r == 1
    ensures b >= 0 ==> (r == -1 <==> (a as int) < b as int) && (r == 0 <==> a as int == b as int)
    ensures b >= 0 ==> r == CompareTo(a, b as int)
  {
    if b < 0 then 1 else CompareTo(a, (b as int) % TWO_64)
  }

  /** Swapping the operands of the unsigned comparison negates it. */
  lemma CompareToAntisymmetric(a: nuint, b: nuint)
    ensures CompareTo(a, b as int) == -CompareTo(b, a as int)
  {
  }
}
