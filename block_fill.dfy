// `BigSpanHelpers.Fill`: writes one element value over a block of
// elements, with SIMD vectors when the element type and the hardware allow
// it and with an unrolled loop of element stores otherwise.
module BlockFill {
  import opened NativeInts
  import opened Memory
  import opened Errors
  import Bits

  /** `Vector.IsHardwareAccelerated` and `Vector<byte>.Count` (16, 32 or 64 bytes). */
  datatype Vectors = Vectors(accelerated: bool, count: nat)
  {
    predicate Valid()
    {
      count == 16 || count == 32 || count == 64
    }
  }

  /**
    * The `count` bytes from byte `from` of the block at `b` hold copies of
    * `value` laid end to end from `b` itself: byte `k` is byte
    * `k mod |value|` of the element.
    */
  predicate Patterned(b: Ref, from: nat, count: nat, value: seq<byte>)
    reads b.block
    requires |value| > 0 && Accessible(b, from + count)
  {
    count == 0 ||
    forall k :: b.offset + from <= k < b.offset + from + count ==> b.block[k] == value[(k - b.offset) % |value|]
  }

  /** `vector` is `value` repeated (the lanes of a `Vector<T>` built from one `T`). */
  predicate IsSplat(vector: seq<byte>, value: seq<byte>)
    requires |value| > 0
  {
    |vector| % |value| == 0 && forall j :: 0 <= j < |vector| ==> vector[j] == value[j % |value|]
  }

  /**
    * The vector of `Vector<byte>.Count` bytes that `Fill` builds from the
    * element: for elements of 1, 2, 4 or 8 bytes the matching `Vector<T>`,
    * for 16 bytes the `Vector128` itself or two of them side by side, for 32
    * bytes the `Vector256` itself. Every other combination gives up on
    * vectorising (`goto CannotVectorize`).
    */
  function MakeVector(value: seq<byte>, w: Vectors): (r: Option<seq<byte>>)
    requires |value| > 0 && w.Valid()
    ensures r.Some? <==> |value| in {1, 2, 4, 8} || (|value| == 16 && w.count in {16, 32}) || (|value| == 32 && w.count == 32)
    ensures r.Some? ==> |r.value| == w.count && IsSplat(r.value, value)
  {
    var s := |value|;
    if s == 1 || s == 2 || s == 4 || s == 8 then
      Some(seq(w.count, j requires 0 <= j < w.count => value[j % s]))
    else if s == 16 then
      if w.count == 16 then Some(value)
      else if w.count == 32 then
        assert forall j :: 0 <= j < 32 ==> (value + value)[j] == value[j % 16];
        Some(value + value)
      else None
    else if s == 32 then
      if w.count == 32 then Some(value)
      else None
    else None
  }

  /** `Unsafe.WriteUnaligned(ref ..., vector)` at byte `offset`, a multiple of the element size. */
  method StoreVector(b: Ref, offset: nat, vector: seq<byte>, value: seq<byte>, bound: nat)
    requires |value| > 0 && IsSplat(vector, value) && offset % |value| == 0
    requires offset + |vector| <= bound && Accessible(b, bound)
    modifies b.block
    ensures Patterned(b, offset, |vector|, value)
    ensures OnlyWrote(b, bound)
    ensures old(Patterned(b, 0, offset, value)) ==> Patterned(b, 0, offset + |vector|, value)
  {
    if |vector| > 0 {
      var lo := b.offset + offset;
      forall k | lo <= k < lo + |vector| {
        b.block[k] := vector[k - lo];
      }
      forall k | lo <= k < lo + |vector|
        ensures b.block[k] == value[(k - b.offset) % |value|]
      {
        var j := k - lo;
        DivModUnique(offset, |value|, offset / |value|, 0);
        DivModUnique(k - b.offset, |value|, offset / |value| + j / |value|, j % |value|);
      }
    }
  }

  /** `Unsafe.Add(ref refData, e) = value`: element `e` of `n`. */
  method StoreElement(b: Ref, e: nat, value: seq<byte>, n: nat)
    requires |value| > 0 && e < n && Accessible(b, n * |value|)
    modifies b.block
    ensures (e + 1) * |value| <= n * |value|
    ensures Patterned(b, e * |value|, |value|, value)
    ensures OnlyWrote(b, n * |value|)
    ensures old(Patterned(b, 0, e * |value|, value)) ==> Patterned(b, 0, (e + 1) * |value|, value)
  {
    var s := |value|;
    MulAtLeast(n - e, s);
    assert (n - e) * s == n * s - e * s;
    var lo := b.offset + e * s;
    forall k | lo <= k < lo + s {
      b.block[k] := value[k - lo];
    }
    forall k | lo <= k < lo + s
      ensures b.block[k] == value[(k - b.offset) % s]
    {
      DivModUnique(k - b.offset, s, e, k - lo);
    }
  }

  /**
    * `Fill(ref refData, numElements, value)`: every one of the
    * `numElements` elements at `refData` becomes `value`, and nothing
    * outside them changes. The vector path is taken for element types
    * without references, on accelerated hardware, for power-of-two element
    * sizes up to the vector size, with at least one vector's worth of
    * elements and a vector `MakeVector` can build.
    */
  method Fill(refData: Ref, numElements: nuint, value: seq<byte>, containsReferences: bool, w: Vectors)
    requires 0 < |value| <= INT_MAX as int && w.Valid()
    requires Accessible(refData, numElements as nat * |value|)
    modifies refData.block
    ensures Patterned(refData, 0, numElements as nat * |value|, value)
    ensures OnlyWrote(refData, numElements as nat * |value|)
  {
    var s := |value|;
    var n := numElements as nat;
    if !containsReferences && w.accelerated && s <= w.count && Bits.IsPow2Int(s as int32) && n >= w.count / s {
      var vector := MakeVector(value, w);
      if vector.Some? {
        VectorFill(refData, n, value, vector.value);
        return;
      }
    }
    ScalarFill(refData, n, value);
  }

  /**
    * The vectorised body of `Fill`: pairs of vectors up to the total rounded
    * down to two vectors, one more vector if the total has the vector-size
    * bit set, and a last vector ending exactly at the end of the block
    * (overlapping what is already written).
    */
  method VectorFill(b: Ref, numElements: nat, value: seq<byte>, vector: seq<byte>)
    requires |value| > 0 && IsSplat(vector, value) && |vector| > 0
    requires numElements >= |vector| / |value|
    requires Accessible(b, numElements * |value|)
    modifies b.block
    ensures Patterned(b, 0, numElements * |value|, value)
    ensures OnlyWrote(b, numElements * |value|)
  {
    var s := |value|;
    var byteVecCount := |vector|;
    var byteVecSize := 2 * byteVecCount;
    var totalByteLength := numElements * s;
    var stopLoopAtOffset := RoundDown(totalByteLength, byteVecSize);
    var offset: nat := 0;
    VectorArithmetic(numElements, s, byteVecCount);
    DivModUnique(byteVecSize, byteVecCount, 2, 0);
    MultipleOfMultiple(byteVecSize, byteVecCount, s);
    if numElements >= 2 * byteVecCount / s {
      var more := true;
      DivModUnique(0, byteVecSize, 0, 0);
      while more
        invariant offset % byteVecSize == 0 && offset <= stopLoopAtOffset
        invariant more ==> offset < stopLoopAtOffset
        invariant !more ==> offset == stopLoopAtOffset
        invariant Patterned(b, 0, offset, value)
        invariant OnlyWrote(b, totalByteLength)
        decreases stopLoopAtOffset - offset
      {
        NextMultiple(offset, stopLoopAtOffset, byteVecSize);
        MultipleOfMultiple(offset, byteVecSize, s);
        AddMultiples(offset, byteVecCount, s);
        AddMultiples(offset, byteVecSize, byteVecSize);
        StoreVector(b, offset, vector, value, totalByteLength);
        StoreVector(b, offset + byteVecCount, vector, value, totalByteLength);
        offset := offset + byteVecSize;
        more := offset < stopLoopAtOffset;
      }
    } else {
      DivModUnique(stopLoopAtOffset, byteVecSize, 0, stopLoopAtOffset);
    }
    BitSplit(totalByteLength, byteVecCount);
    MultipleOfMultiple(offset, byteVecSize, s);
    if BitSet(totalByteLength, byteVecCount) {
      StoreVector(b, offset, vector, value, totalByteLength);
      offset := offset + byteVecCount;
    }
    var last := totalByteLength - byteVecCount;
    assert Patterned(b, 0, last, value);
    StoreVector(b, last, vector, value, totalByteLength);
  }

  /**
    * What the vector path relies on: whole vectors hold whole elements, one
    * vector fits, and two fit exactly when the count passes the loop's guard.
    */
  lemma VectorArithmetic(n: nat, s: nat, w: nat)
    requires s > 0 && w > 0 && w % s == 0 && n >= w / s
    ensures w <= n * s
    ensures n >= 2 * w / s <==> 2 * w <= n * s
    ensures (n * s - w) % s == 0
  {
    DivModUnique(w, s, w / s, 0);
    DivModUnique(2 * w, s, 2 * (w / s), 0);
    MulMonotone(w / s, n, s);
    if n < 2 * w / s {
      MulMonotone(n + 1, 2 * w / s, s);
    } else {
      MulMonotone(2 * w / s, n, s);
    }
    DivModUnique(n * s - w, s, n - w / s, 0);
  }

  /**
    * The unrolled fallback of `Fill`: eight elements a turn up to
    * `numElements & ~7`, then four, two and one as the low bits of
    * `numElements` say.
    */
  method ScalarFill(b: Ref, numElements: nat, value: seq<byte>)
    requires |value| > 0 && Accessible(b, numElements * |value|)
    modifies b.block
    ensures Patterned(b, 0, numElements * |value|, value)
    ensures OnlyWrote(b, numElements * |value|)
  {
    var n := numElements;
    var i: nat := 0;
    if n >= 8 {
      var stopLoopAtOffset := RoundDown(n, 8);
      var more := true;
      while more
        invariant i % 8 == 0 && i <= stopLoopAtOffset
        invariant more ==> i < stopLoopAtOffset
        invariant !more ==> i == stopLoopAtOffset
        invariant i * |value| <= n * |value| && Patterned(b, 0, i * |value|, value)
        invariant OnlyWrote(b, n * |value|)
        decreases stopLoopAtOffset - i
      {
        NextMultiple(i, stopLoopAtOffset, 8);
        StoreEight(b, i, value, n);
        i := i + 8;
        more := i < stopLoopAtOffset;
      }
    }
    MulMonotone(i, n, |value|);
    StoreLowBits(b, i, value, n);
  }

  /**
    * The end of the unrolled fallback: from `i = numElements & ~7`, four
    * elements if bit 4 of the count is set, two if bit 2 is, one if bit 1 is.
    */
  method StoreLowBits(b: Ref, start: nat, value: seq<byte>, n: nat)
    requires |value| > 0 && start == n - n % 8 && Accessible(b, n * |value|)
    requires start * |value| <= n * |value| && Patterned(b, 0, start * |value|, value)
    modifies b.block
    ensures Patterned(b, 0, n * |value|, value)
    ensures OnlyWrote(b, n * |value|)
  {
    var i := start;
    LowThreeBits(n);
    if BitSet(n, 4) {
      StoreFour(b, i, value, n);
      i := i + 4;
    }
    if BitSet(n, 2) {
      StoreTwo(b, i, value, n);
      i := i + 2;
    }
    if BitSet(n, 1) {
      StoreElement(b, i, value, n);
      assert i + 1 == n;
    } else {
      assert i == n;
    }
  }

  /** One turn of the unrolled loop: elements `i` to `i + 7`. */
  method StoreEight(b: Ref, i: nat, value: seq<byte>, n: nat)
    requires |value| > 0 && i + 8 <= n && Accessible(b, n * |value|)
    modifies b.block
    ensures (i + 8) * |value| <= n * |value|
    ensures OnlyWrote(b, n * |value|)
    ensures old(Patterned(b, 0, i * |value|, value)) ==> Patterned(b, 0, (i + 8) * |value|, value)
  {
    StoreElement(b, i, value, n);
    StoreElement(b, i + 1, value, n);
    StoreElement(b, i + 2, value, n);
    StoreElement(b, i + 3, value, n);
    StoreElement(b, i + 4, value, n);
    StoreElement(b, i + 5, value, n);
    StoreElement(b, i + 6, value, n);
    StoreElement(b, i + 7, value, n);
  }

  /** Elements `i` to `i + 3`. */
  method StoreFour(b: Ref, i: nat, value: seq<byte>, n: nat)
    requires |value| > 0 && i + 4 <= n && Accessible(b, n * |value|)
    modifies b.block
    ensures (i + 4) * |value| <= n * |value|
    ensures OnlyWrote(b, n * |value|)
    ensures old(Patterned(b, 0, i * |value|, value)) ==> Patterned(b, 0, (i + 4) * |value|, value)
  {
    StoreElement(b, i, value, n);
    StoreElement(b, i + 1, value, n);
    StoreElement(b, i + 2, value, n);
    StoreElement(b, i + 3, value, n);
  }

  /** Elements `i` and `i + 1`. */
  method StoreTwo(b: Ref, i: nat, value: seq<byte>, n: nat)
    requires |value| > 0 && i + 2 <= n && Accessible(b, n * |value|)
    modifies b.block
    ensures (i + 2) * |value| <= n * |value|
    ensures OnlyWrote(b, n * |value|)
    ensures old(Patterned(b, 0, i * |value|, value)) ==> Patterned(b, 0, (i + 2) * |value|, value)
  {
    StoreElement(b, i, value, n);
    StoreElement(b, i + 1, value, n);
  }

  /** Every element of a patterned block is the value. */
  lemma PatternedElements(b: Ref, n: nat, value: seq<byte>, e: nat)
    requires |value| > 0 && Accessible(b, n * |value|) && Patterned(b, 0, n * |value|, value) && e < n
    ensures Accessible(AddBytes(b, e * |value|), |value|)
    ensures Load(AddBytes(b, e * |value|), |value|) == value
  {
    var s := |value|;
    MulAtLeast(n - e, s);
    assert (n - e) * s == n * s - e * s;
    forall j | 0 <= j < s
      ensures b.block[b.offset + e * s + j] == value[j]
    {
      DivModUnique(e * s + j, s, e, j);
    }
  }
}
