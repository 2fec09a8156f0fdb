// `BigSpanExtensions`: copying into a view from an array or a `Span<T>`,
// comparing contents, writing and reading one unmanaged value in a view of
// bytes, and handing a view to a callback as `Span<T>` slices of at most
// `size` elements.
module BigSpanExtensions {
  import opened NativeInts
  import opened Errors
  import opened Memory
  import opened Views
  import opened SmallSlices
  import BigSpans
  import ReadOnlyBigSpans

  // ---------------------------------------------------------------------
  // Copying into a view
  // ---------------------------------------------------------------------

  /**
    * `CopyTo(this T[] srcArray, BigSpan<T> dst)`: the whole array as a view
    * (a null array is the empty view), copied with `BigSpan<T>.CopyTo`.
    */
  method ArrayCopyTo(srcArray: array?<byte>, elemSize: nat, dst: BigSpans.BigSpan) returns (r: Outcome)
    requires elemSize > 0 && dst.Valid() && dst.elemSize == elemSize
    requires srcArray != null ==> srcArray.Length % elemSize == 0 && srcArray.Length < TWO_64
    modifies dst.ptr.block
    ensures var n := if srcArray == null then 0 else srcArray.Length / elemSize;
            (r.Failed? <==> n > dst.length as int) &&
            (r.Failed? ==> r.error == Argument) &&
            (r.Done? ==> dst.Elements()[..n] == old(BigSpans.FromArray(srcArray, elemSize).Elements())) &&
            (r.Done? ==> dst.Elements()[n..] == old(dst.Elements())[n..])
  {
    r := BigSpans.CopyTo(BigSpans.FromArray(srcArray, elemSize), dst);
  }

  /** The memmove that `CopyTo(Span<T>)` asks for, if any. */
  datatype MemoryCopy = NoCopy | MemoryCopy(dst: Ref, src: Ref, byteCount: nuint)

  /**
    * `CopyTo(this Span<T> src, BigSpan<T> dst)` (and the `ReadOnlySpan<T>`
    * overload), as written: ArgumentException for a longer source,
    * ArgumentNullException when either side is empty (its pinnable reference
    * is null), and otherwise a memmove of `length - sizeof(T) * srcLen`
    * bytes to `sizeof(T) * srcLen` bytes past the destination. The count
    * mixes elements and bytes: nothing is copied for bytes, and for wider
    * elements the subtraction wraps and the copy runs past the destination.
    */
  function SpanCopyTo(src: NativeSpan, dst: BigSpans.BigSpan): (r: Result<MemoryCopy>)
    requires src.Valid() && dst.Valid() && src.elemSize == dst.elemSize
    ensures r == Throws(Argument) <==> src.length as int > dst.length as int
    ensures src.length as int <= dst.length as int && src.length == 0 ==> r == Throws(ArgumentNull)
    ensures r.Ok? <==> 0 < src.length as int <= dst.length as int
    ensures r.Ok? && src.elemSize == 1 ==> r.value == NoCopy
    ensures r.Ok? && src.elemSize > 1 ==>
              r.value.MemoryCopy? &&
              r.value.dst == AddBytes(dst.ptr, src.length as int * src.elemSize) &&
              src.length as int * src.elemSize + r.value.byteCount as int > dst.length as int * dst.elemSize
  {
    var size := src.elemSize;
    var srcLen := src.length as nuint;
    var dstLen := dst.length;
    if srcLen > dstLen then Throws(Argument)
    else
      var length := if srcLen < dstLen then srcLen else dstLen;
      var pDst := BigSpans.GetPinnableReference(dst);
      var pSrc := src.AsRegion().Pinnable();
      if pDst == Null then Throws(ArgumentNull)
      else if pSrc == Null then Throws(ArgumentNull)
      else
        var srcOffset := Wrap(size * srcLen as int);
        var copyLength := Wrap(length as int - srcOffset as int);
        var request := if copyLength > 0 then Ok(MemoryCopy(AddBytes(pDst, srcOffset as int), pSrc, copyLength)) else Ok(NoCopy);
        if size > 1 then
          WrappedCopyLength(size, srcLen as nat, dstLen as nat);
          request
        else
          request
  }

  /** For elements wider than a byte, `length - sizeof(T) * srcLen` wraps to more than the destination holds. */
  lemma WrappedCopyLength(size: nat, srcLen: nat, dstLen: nat)
    requires size > 1 && 0 < srcLen <= dstLen && dstLen * size < TWO_64
    ensures size * srcLen < TWO_64
    ensures Wrap(srcLen - size * srcLen) as int == TWO_64 - (size - 1) * srcLen > 0
    ensures size * srcLen + Wrap(srcLen - size * srcLen) as int > dstLen * size
  {
    MulMonotone(srcLen, dstLen, size);
    MulAtLeast(srcLen, size - 1);
    var wrapped := srcLen - size * srcLen;
    assert wrapped == -((size - 1) * srcLen);
    DivModUnique(wrapped, TWO_64, -1, wrapped + TWO_64);
  }

  /**
    * The copy `CopyTo(Span<T>)` evidently means: ArgumentException for a
    * longer source, otherwise the source's elements at the start of the
    * destination and the rest of the destination unchanged (an empty source
    * copies nothing).
    */
  method CopyFromSpan(src: NativeSpan, dst: BigSpans.BigSpan) returns (r: Outcome)
    requires src.Valid() && dst.Valid() && src.elemSize == dst.elemSize
    modifies dst.ptr.block
    ensures r.Failed? <==> src.length as int > dst.length as int
    ensures r.Failed? ==> r.error == Argument
    ensures OnlyWrote(dst.ptr, if r.Failed? then 0 else src.length as int * src.elemSize)
    ensures r.Done? ==> dst.Elements()[..src.length] == old(src.AsRegion().Elements())
    ensures r.Done? ==> dst.Elements()[src.length..] == old(dst.Elements())[src.length..]
  {
    if src.length as nuint > dst.length {
      return Failed(Argument);
    }
    BigSpans.CopyElements(src.AsRegion(), dst);
    return Done;
  }

  // ---------------------------------------------------------------------
  // Comparing contents
  // ---------------------------------------------------------------------

  /**
    * `SequenceEqual(this BigSpan<T> a, b)` for `b` a BigSpan, ReadOnlyBigSpan
    * or ReadOnlySpan: `a.CompareMemory(b) == 0`, i.e. the same elements.
    */
  function SequenceEqual(a: BigSpans.BigSpan, b: Region): (r: bool)
    reads a.ptr.block, b.ptr.block
    requires a.Valid() && b.Valid() && a.elemSize == b.elemSize
    ensures r <==> a.Elements() == b.Elements()
  {
    BigSpans.CompareMemory(a, b) == 0
  }

  /** `SequenceEqual(this ReadOnlyBigSpan<T> a, b)`: `a.CompareMemory(b) == 0`. */
  function ReadOnlySequenceEqual(a: ReadOnlyBigSpans.ReadOnlyBigSpan, b: Region): (r: bool)
    reads a.ptr.block, b.ptr.block
    requires a.Valid() && b.Valid() && a.elemSize == b.elemSize
    ensures r <==> a.Elements() == b.Elements()
  {
    ReadOnlyBigSpans.CompareMemory(a, b) == 0
  }

  /** `SequenceEqual(this Span<T> a, BigSpan<T> b)` (and `ReadOnlySpan<T>`): `b.CompareMemory(a) == 0`. */
  function SpanSequenceEqual(a: NativeSpan, b: BigSpans.BigSpan): (r: bool)
    reads a.ptr.block, b.ptr.block
    requires a.Valid() && b.Valid() && a.elemSize == b.elemSize
    ensures r <==> a.AsRegion().Elements() == b.Elements()
  {
    BigSpans.CompareMemory(b, a.AsRegion()) == 0
  }

  /** `SequenceCompare(this BigSpan<T> a, b)`: `a.CompareMemory(b)`, the lexicographic order of the bytes. */
  function SequenceCompare(a: BigSpans.BigSpan, b: Region): (r: int)
    reads a.ptr.block, b.ptr.block
    requires a.Valid() && b.Valid() && a.elemSize == b.elemSize
    ensures r == Lexicographic(a.Bytes(), b.Bytes())
  {
    BigSpans.CompareMemory(a, b)
  }

  /** `SequenceCompare(this ReadOnlyBigSpan<T> a, b)`: `a.CompareMemory(b)`. */
  function ReadOnlySequenceCompare(a: ReadOnlyBigSpans.ReadOnlyBigSpan, b: Region): (r: int)
    reads a.ptr.block, b.ptr.block
    requires a.Valid() && b.Valid() && a.elemSize == b.elemSize
    ensures r == Lexicographic(a.Bytes(), b.Bytes())
  {
    ReadOnlyBigSpans.CompareMemory(a, b)
  }

  /**
    * `SequenceCompare(this Span<T> a, BigSpan<T> b)` (and `ReadOnlySpan<T>`):
    * `-b.CompareMemory(a)`. Negating the swapped comparison gives the order
    * of `a` against `b`, as for every other overload.
    */
  function SpanSequenceCompare(a: NativeSpan, b: BigSpans.BigSpan): (r: int)
    reads a.ptr.block, b.ptr.block
    requires a.Valid() && b.Valid() && a.elemSize == b.elemSize
    ensures r == Lexicographic(a.AsRegion().Bytes(), b.Bytes())
  {
    LexicographicAntisymmetric(b.Bytes(), a.AsRegion().Bytes());
    -BigSpans.CompareMemory(b, a.AsRegion())
  }

  /** `SequenceCompare` is 0 exactly when `SequenceEqual` holds, and swapping the operands negates it. */
  lemma SequenceCompareAgreesWithEqual(a: BigSpans.BigSpan, b: BigSpans.BigSpan)
    requires a.Valid() && b.Valid() && a.elemSize == b.elemSize
    ensures SequenceCompare(a, b.AsRegion()) == 0 <==> SequenceEqual(a, b.AsRegion())
    ensures SequenceCompare(a, b.AsRegion()) == -SequenceCompare(b, a.AsRegion())
  {
    LexicographicAntisymmetric(a.Bytes(), b.Bytes());
  }

  /** The span-first overloads agree with the view-first ones on swapped operands. */
  lemma SpanSequenceCompareSwapped(a: NativeSpan, b: BigSpans.BigSpan)
    requires a.Valid() && b.Valid() && a.elemSize == b.elemSize
    ensures SpanSequenceCompare(a, b) == -SequenceCompare(b, a.AsRegion())
    ensures SpanSequenceCompare(a, b) == 0 <==> SpanSequenceEqual(a, b)
  {
    LexicographicAntisymmetric(b.Bytes(), a.AsRegion().Bytes());
  }

  // ---------------------------------------------------------------------
  // Writing and reading one value in a view of bytes
  // ---------------------------------------------------------------------

  /**
    * The length test of `TryWrite(value)` as written:
    * `sizeof(T) <= (uint)Length`. It never lets a value past the end, and
    * is exact below 2^32 bytes.
    */
  function WriteFits(length: nuint, size: nat): (r: bool)
    ensures r ==> size <= length as int
    ensures length as int < TWO_32 ==> (r <==> size <= length as int)
  {
    !(size > Trunc32(length) as int)
  }

  /** A view of 2^32 bytes refuses a one-byte value: `(uint)Length` is 0. */
  lemma WriteFitsRejectsLargeView()
    ensures !WriteFits(TWO_32 as nuint, 1)
  {
  }

  /** `after` holds `value` at `at` and agrees with `before` elsewhere. */
  lemma StoredAt(after: seq<byte>, before: seq<byte>, at: nat, value: seq<byte>)
    requires |after| == |before| && at + |value| <= |after|
    requires forall k :: 0 <= k < |value| ==> after[at + k] == value[k]
    requires forall k :: 0 <= k < |after| && !(at <= k < at + |value|) ==> after[k] == before[k]
    ensures after[at .. at + |value|] == value
    ensures after[..at] == before[..at] && after[at + |value|..] == before[at + |value|..]
  {
  }

  /**
    * Stores `value` at byte `offset` of a valid view of bytes that has room
    * for it; the shared body of every successful `TryWrite`.
    */
  method StoreAt(destination: BigSpans.BigSpan, value: seq<byte>, offset: nat)
    requires destination.Valid() && destination.elemSize == 1 && offset + |value| <= destination.length as int
    modifies destination.ptr.block
    ensures |destination.Bytes()| == |old(destination.Bytes())|
    ensures destination.Bytes()[offset .. offset + |value|] == value
    ensures destination.Bytes()[..offset] == old(destination.Bytes())[..offset]
    ensures destination.Bytes()[offset + |value|..] == old(destination.Bytes())[offset + |value|..]
    ensures OnlyWrote(AddBytes(destination.ptr, offset), |value|)
  {
    ghost var before := destination.Bytes();
    var at := AddBytes(destination.ptr, offset);
    WriteUnaligned(at, value);
    ghost var after := destination.Bytes();
    forall k | 0 <= k < |value|
      ensures after[offset + k] == value[k]
    {
      assert after[offset + k] == destination.ptr.block[destination.ptr.offset + offset + k];
    }
    forall k | 0 <= k < |after| && !(offset <= k < offset + |value|)
      ensures after[k] == before[k]
    {
      assert after[k] == destination.ptr.block[destination.ptr.offset + k];
    }
    StoredAt(after, before, offset, value);
  }

  /**
    * `TryWrite(this BigSpan<byte> destination, in T value)`: false, with
    * nothing written, unless `WriteFits`; otherwise the value's bytes start
    * the view, the rest is unchanged, and reading them back gives the value.
    */
  method TryWrite(destination: BigSpans.BigSpan, value: seq<byte>) returns (written: bool)
    requires destination.Valid() && destination.elemSize == 1 && 0 < |value| <= INT_MAX as int
    modifies destination.ptr.block
    ensures written <==> WriteFits(destination.length, |value|)
    ensures OnlyWrote(destination.ptr, if written then |value| else 0)
    ensures written ==> |value| <= |destination.Bytes()| && destination.Bytes()[..|value|] == value
    ensures written ==> destination.Bytes()[|value|..] == old(destination.Bytes())[|value|..]
    ensures written ==> Read(ReadOnlyBigSpans.FromBigSpan(destination), |value|) == value
  {
    if !WriteFits(destination.length, |value|) {
      return false;
    }
    StoreAt(destination, value, 0);
    return true;
  }

  /** `TryWrite(value)` with the full length tested: false exactly when the value does not fit. */
  method TryWriteChecked(destination: BigSpans.BigSpan, value: seq<byte>) returns (written: bool)
    requires destination.Valid() && destination.elemSize == 1 && 0 < |value| <= INT_MAX as int
    modifies destination.ptr.block
    ensures written <==> |value| <= destination.length as int
    ensures OnlyWrote(destination.ptr, if written then |value| else 0)
    ensures written ==> |value| <= |destination.Bytes()| && destination.Bytes()[..|value|] == value
    ensures written ==> destination.Bytes()[|value|..] == old(destination.Bytes())[|value|..]
  {
    if |value| > destination.length as int {
      return false;
    }
    StoreAt(destination, value, 0);
    return true;
  }

  /**
    * The length test of `TryWrite(value, offset)` as written:
    * `offset + sizeof(T) <= Length` in wrapping `nuint` arithmetic, exact
    * when the end does not wrap.
    */
  function WriteAtFits(length: nuint, offset: nuint, size: nat): (r: bool)
    ensures offset as int + size < TWO_64 ==> (r <==> offset as int + size <= length as int)
  {
    !(Wrap(offset as int + size) > length)
  }

  /** An offset two bytes short of 2^64 passes the test for a four-byte value in a two-byte view. */
  lemma WriteAtFitsAcceptsWrappedEnd()
    ensures WriteAtFits(2, (TWO_64 - 2) as nuint, 4)
  {
    var offset: nuint := (TWO_64 - 2) as nuint;
    WrapShift(2, 1);
    assert offset as int + 4 == 2 + 1 * TWO_64;
    assert Wrap(offset as int + 4) == Wrap(2) == 2;
  }

  /**
    * `TryWrite(this BigSpan<byte> destination, in T value, nuint offset)`
    * as written, for ends that do not wrap: false with nothing written when
    * the value does not fit; otherwise exactly bytes
    * `[offset, offset + sizeof(T))` change, to the value's bytes.
    */
  method TryWriteAt(destination: BigSpans.BigSpan, value: seq<byte>, offset: nuint) returns (written: bool)
    requires destination.Valid() && destination.elemSize == 1 && 0 < |value| <= INT_MAX as int
    requires offset as int + |value| < TWO_64
    modifies destination.ptr.block
    ensures written <==> WriteAtFits(destination.length, offset, |value|)
    ensures written <==> offset as int + |value| <= destination.length as int
    ensures OnlyWrote(AddBytes(destination.ptr, offset as int), if written then |value| else 0)
    ensures written ==> offset as int + |value| <= |destination.Bytes()| &&
                        destination.Bytes()[offset .. offset as int + |value|] == value
    ensures written ==> destination.Bytes()[..offset] == old(destination.Bytes())[..offset]
    ensures written ==> offset as int + |value| <= |destination.Bytes()| &&
                        destination.Bytes()[offset as int + |value|..] == old(destination.Bytes())[offset as int + |value|..]
  {
    if !WriteAtFits(destination.length, offset, |value|) {
      return false;
    }
    StoreAt(destination, value, offset as nat);
    return true;
  }

  /** `TryWrite(value, offset)` with an end that cannot wrap: any offset, false exactly when the value does not fit. */
  method TryWriteAtChecked(destination: BigSpans.BigSpan, value: seq<byte>, offset: nuint) returns (written: bool)
    requires destination.Valid() && destination.elemSize == 1 && 0 < |value| <= INT_MAX as int
    modifies destination.ptr.block
    ensures written <==> offset as int + |value| <= destination.length as int
    ensures OnlyWrote(AddBytes(destination.ptr, offset as int), if written then |value| else 0)
    ensures written ==> offset as int + |value| <= |destination.Bytes()| &&
                        destination.Bytes()[offset .. offset as int + |value|] == value
    ensures written ==> destination.Bytes()[..offset] == old(destination.Bytes())[..offset]
    ensures written ==> offset as int + |value| <= |destination.Bytes()| &&
                        destination.Bytes()[offset as int + |value|..] == old(destination.Bytes())[offset as int + |value|..]
  {
    if offset > destination.length || |value| > (destination.length - offset) as int {
      return false;
    }
    StoreAt(destination, value, offset as nat);
    return true;
  }

  /** `Write(value)`: ArgumentOutOfRange exactly when `TryWrite` would return false, otherwise its effect. */
  method Write(destination: BigSpans.BigSpan, value: seq<byte>) returns (r: Outcome)
    requires destination.Valid() && destination.elemSize == 1 && 0 < |value| <= INT_MAX as int
    modifies destination.ptr.block
    ensures r.Failed? <==> !WriteFits(destination.length, |value|)
    ensures r.Failed? ==> r.error == ArgumentOutOfRange
    ensures OnlyWrote(destination.ptr, if r.Done? then |value| else 0)
    ensures r.Done? ==> |value| <= |destination.Bytes()| && destination.Bytes()[..|value|] == value
    ensures r.Done? ==> destination.Bytes()[|value|..] == old(destination.Bytes())[|value|..]
  {
    var written := TryWrite(destination, value);
    if !written {
      return Failed(ArgumentOutOfRange);
    }
    return Done;
  }

  /** `Write(value, offset)`: ArgumentOutOfRange exactly when `TryWrite(value, offset)` would return false. */
  method WriteAt(destination: BigSpans.BigSpan, value: seq<byte>, offset: nuint) returns (r: Outcome)
    requires destination.Valid() && destination.elemSize == 1 && 0 < |value| <= INT_MAX as int
    requires offset as int + |value| < TWO_64
    modifies destination.ptr.block
    ensures r.Failed? <==> offset as int + |value| > destination.length as int
    ensures r.Failed? ==> r.error == ArgumentOutOfRange
    ensures OnlyWrote(AddBytes(destination.ptr, offset as int), if r.Done? then |value| else 0)
    ensures r.Done? ==> offset as int + |value| <= |destination.Bytes()| &&
                        destination.Bytes()[offset .. offset as int + |value|] == value
  {
    var written := TryWriteAt(destination, value, offset);
    if !written {
      return Failed(ArgumentOutOfRange);
    }
    return Done;
  }

  /**
    * `Read<T>(this ReadOnlyBigSpan<byte> source)`: the first `sizeof(T)`
    * bytes of the view. It tests nothing; the caller must supply them.
    */
  function Read(source: ReadOnlyBigSpans.ReadOnlyBigSpan, size: nat): (r: seq<byte>)
    reads source.ptr.block
    requires source.Valid() && source.elemSize == 1 && size <= source.length as int
    ensures |r| == size && r == source.Bytes()[..size]
  {
    Load(source.ptr, size)
  }

  /** `TryRead<T>(out T value)`: the value exactly when the view holds at least `sizeof(T)` bytes. */
  function TryRead(source: ReadOnlyBigSpans.ReadOnlyBigSpan, size: nat): (r: Option<seq<byte>>)
    reads source.ptr.block
    requires source.Valid() && source.elemSize == 1
    ensures r.Some? <==> size <= source.length as int
    ensures r.Some? ==> r.value == source.Bytes()[..size]
  {
    if source.length as int < size then None
    else Some(Read(source, size))
  }

  // ---------------------------------------------------------------------
  // Small slices
  // ---------------------------------------------------------------------

  /**
    * The loop of `AsSmallSlices(size, action)` on a `BigSpan<T>`: from
    * `start = 0`, while `Length - start` is not 0, take the `Span<T>`
    * `Slice(start, min(size, Length - start))` and advance `start` past it.
    * The slices handed to `action` are returned in order.
    */
  method SliceLoop(span: BigSpans.BigSpan, size: int32) returns (visited: seq<NativeSpan>)
    requires size >= 0 && (size == 0 ==> span.length == 0)
    ensures Visits(visited, span.ptr, span.length as nat, span.elemSize, size as nat)
  {
    ghost var all := Pieces(span.length as nat, 0, size as nat);
    var uSize := size as uint;
    var start: nuint := 0;
    visited := [];
    var maxSize := span.length - start;
    while maxSize != 0
      invariant start <= span.length && maxSize == span.length - start
      invariant size > 0 || start == span.length
      invariant |visited| <= |all| && all[|visited|..] == Pieces(span.length as nat, start as nat, size as nat)
      invariant forall j :: 0 <= j < |visited| ==> IsSliceOf(visited[j], span.ptr, span.elemSize, all[j])
      decreases maxSize
    {
      var sliceSize := Min(uSize as nuint, maxSize) as int32;
      var slice := BigSpans.SliceToSpan(span, start, sliceSize);
      PiecesStep(all, |visited|, span.length as nat, start as nat, size as nat, sliceSize as nat);
      start := start + sliceSize as uint as nuint;
      visited := visited + [slice.value];
      maxSize := span.length - start;
    }
  }

  /**
    * `AsSmallSlices(this BigSpan<T> span, int size, SpanAction<T> action)`
    * as written: ArgumentOutOfRange for a negative size, then
    * ArgumentNullException for a missing action, then one call per slice.
    * A size of 0 passes the test, and on a non-empty view the loop then
    * never ends (`ZeroSizeMakesNoProgress`); the model admits it only for
    * an empty view, where the loop returns at once.
    */
  method AsSmallSlices(span: BigSpans.BigSpan, size: int32, hasAction: bool) returns (r: Result<seq<NativeSpan>>)
    requires size == 0 ==> span.length == 0
    ensures size < 0 ==> r == Throws(ArgumentOutOfRange)
    ensures size >= 0 && !hasAction ==> r == Throws(ArgumentNull)
    ensures size >= 0 && hasAction ==> r.Ok? && Visits(r.value, span.ptr, span.length as nat, span.elemSize, size as nat)
  {
    if size < 0 {
      return Throws(ArgumentOutOfRange);
    }
    if !hasAction {
      return Throws(ArgumentNull);
    }
    var visited := SliceLoop(span, size);
    return Ok(visited);
  }

  /** `AsSmallSlices(action)`: slices of at most `int.MaxValue` elements. */
  method AsLargestSlices(span: BigSpans.BigSpan, hasAction: bool) returns (r: Result<seq<NativeSpan>>)
    ensures !hasAction <==> r == Throws(ArgumentNull)
    ensures hasAction ==> r.Ok? && Visits(r.value, span.ptr, span.length as nat, span.elemSize, INT_MAX as nat)
  {
    r := AsSmallSlices(span, INT_MAX, hasAction);
  }

  /**
    * `AsSmallSlices(size, action)` with the size test it evidently needs:
    * a size that is not positive is ArgumentOutOfRange, so every view is
    * sliced in finitely many steps.
    */
  method AsSmallSlicesChecked(span: BigSpans.BigSpan, size: int32, hasAction: bool) returns (r: Result<seq<NativeSpan>>)
    ensures size <= 0 ==> r == Throws(ArgumentOutOfRange)
    ensures size > 0 && !hasAction ==> r == Throws(ArgumentNull)
    ensures size > 0 && hasAction ==> r.Ok? && Visits(r.value, span.ptr, span.length as nat, span.elemSize, size as nat)
  {
    if size <= 0 {
      return Throws(ArgumentOutOfRange);
    }
    if !hasAction {
      return Throws(ArgumentNull);
    }
    var visited := SliceLoop(span, size);
    return Ok(visited);
  }

  /**
    * The slices the `func` variant hands out: the first slices of the view,
    * in order, up to and including the first one `func` rejects (all of them
    * when it rejects none).
    */
  predicate VisitsUntil(slices: seq<NativeSpan>, base: Ref, length: nat, elemSize: nat, size: nat, func: NativeSpan -> bool)
    requires size > 0 || length == 0
  {
    var ps := Pieces(length, 0, size);
    |slices| <= |ps| &&
    (forall j :: 0 <= j < |slices| ==> IsSliceOf(slices[j], base, elemSize, ps[j])) &&
    (forall j :: 0 <= j < |slices| - 1 ==> func(slices[j])) &&
    (|slices| < |ps| ==> |slices| > 0 && !func(slices[|slices| - 1]))
  }

  /**
    * `AsSmallSlices(this BigSpan<T> span, int size, SpanFunc<T, bool> func)`:
    * the same argument tests and slices as the action variant, stopping
    * after the first slice for which `func` returns false.
    */
  method AsSmallSlicesWhile(span: BigSpans.BigSpan, size: int32, hasFunc: bool, func: NativeSpan -> bool)
    returns (r: Result<seq<NativeSpan>>)
    requires size == 0 ==> span.length == 0
    ensures size < 0 ==> r == Throws(ArgumentOutOfRange)
    ensures size >= 0 && !hasFunc ==> r == Throws(ArgumentNull)
    ensures size >= 0 && hasFunc ==> r.Ok? && VisitsUntil(r.value, span.ptr, span.length as nat, span.elemSize, size as nat, func)
  {
    if size < 0 {
      return Throws(ArgumentOutOfRange);
    }
    if !hasFunc {
      return Throws(ArgumentNull);
    }
    ghost var all := Pieces(span.length as nat, 0, size as nat);
    var uSize := size as uint;
    var start: nuint := 0;
    var visited: seq<NativeSpan> := [];
    var maxSize := span.length - start;
    while maxSize != 0
      invariant start <= span.length && maxSize == span.length - start
      invariant size > 0 || start == span.length
      invariant |visited| <= |all| && all[|visited|..] == Pieces(span.length as nat, start as nat, size as nat)
      invariant forall j :: 0 <= j < |visited| ==> IsSliceOf(visited[j], span.ptr, span.elemSize, all[j])
      invariant forall j :: 0 <= j < |visited| ==> func(visited[j])
      decreases maxSize
    {
      var sliceSize := Min(uSize as nuint, maxSize) as int32;
      var slice := BigSpans.SliceToSpan(span, start, sliceSize);
      PiecesStep(all, |visited|, span.length as nat, start as nat, size as nat, sliceSize as nat);
      start := start + sliceSize as uint as nuint;
      visited := visited + [slice.value];
      if !func(slice.value) {
        return Ok(visited);
      }
      maxSize := span.length - start;
    }
    return Ok(visited);
  }

  /** `Span<T>` over piece `p` of the view at `base`. */
  function SliceAt(base: Ref, elemSize: nat, p: Piece): (s: NativeSpan)
    requires p.count <= INT_MAX as int
    ensures IsSliceOf(s, base, elemSize, p)
  {
    NativeSpan(AddBytes(base, p.start * elemSize), p.count as int32, elemSize)
  }

  /** `results` holds `fn` of every slice of the view, in order. */
  predicate Selects<R(==)>(results: seq<R>, base: Ref, length: nat, elemSize: nat, size: nat, fn: NativeSpan -> R)
    requires size > 0
  {
    var ps := Pieces(length, 0, size);
    |results| == |ps| &&
    forall j :: 0 <= j < |ps| ==> ps[j].count <= INT_MAX as int && results[j] == fn(SliceAt(base, elemSize, ps[j]))
  }

  /**
    * The loop of `SelectSmallSlices`: the slices of `AsSmallSlices`, with
    * `results[resultIndex++] = fn(slice)` for each. It overflows (the
    * store throws IndexOutOfRange) exactly when `results` has fewer slots
    * than there are slices; until then it fills the slots in order.
    */
  method SelectLoop<R(==)>(span: BigSpans.BigSpan, size: int32, fn: NativeSpan -> R, results: array<R>) returns (overflowed: bool)
    requires size > 0
    modifies results
    ensures var ps := Pieces(span.length as nat, 0, size as nat);
            (overflowed <==> results.Length < |ps|) &&
            (forall j :: 0 <= j < |ps| && j < results.Length ==>
               ps[j].count <= INT_MAX as int && results[j] == fn(SliceAt(span.ptr, span.elemSize, ps[j]))) &&
            (forall j :: |ps| <= j < results.Length ==> results[j] == old(results[j]))
  {
    ghost var all := Pieces(span.length as nat, 0, size as nat);
    PiecesBounded(span.length as nat, 0, size as nat);
    var uSize := size as uint;
    var start: nuint := 0;
    var resultIndex := 0;
    var maxSize := span.length - start;
    while maxSize != 0
      invariant start <= span.length && maxSize == span.length - start
      invariant resultIndex <= |all| && resultIndex <= results.Length
      invariant all[resultIndex..] == Pieces(span.length as nat, start as nat, size as nat)
      invariant forall j :: 0 <= j < resultIndex ==> results[j] == fn(SliceAt(span.ptr, span.elemSize, all[j]))
      invariant forall j :: resultIndex <= j < results.Length ==> results[j] == old(results[j])
      decreases maxSize
    {
      var sliceSize := Min(uSize as nuint, maxSize) as int32;
      var slice := BigSpans.SliceToSpan(span, start, sliceSize);
      PiecesStep(all, resultIndex, span.length as nat, start as nat, size as nat, sliceSize as nat);
      start := start + sliceSize as uint as nuint;
      if resultIndex >= results.Length {
        return true;
      }
      assert slice.value == SliceAt(span.ptr, span.elemSize, all[resultIndex]);
      results[resultIndex] := fn(slice.value);
      resultIndex := resultIndex + 1;
      maxSize := span.length - start;
    }
    return false;
  }

  /**
    * `SelectSmallSlices(this BigSpan<T> span, int size, SpanFunc<T, TResult> fn)`
    * as written. After the argument tests it allocates `Length / size`
    * results (floor division, so `size == 0` divides by zero): a view
    * shorter than `size` gives no results at all, and a view whose length
    * is not a multiple of `size` throws IndexOutOfRange at its last, partial
    * slice. Only a length that is a non-zero multiple of `size` gives `fn`
    * of every slice.
    */
  method SelectSmallSlices<R(0,==)>(span: BigSpans.BigSpan, size: int32, hasFn: bool, fn: NativeSpan -> R)
    returns (r: Result<array<R>>)
    ensures size < 0 ==> r == Throws(ArgumentOutOfRange)
    ensures size >= 0 && !hasFn ==> r == Throws(ArgumentNull)
    ensures size == 0 && hasFn ==> r == Throws(DivideByZero)
    ensures size > 0 && hasFn && (span.length as int) < size as int ==> r.Ok? && r.value.Length == 0
    ensures size > 0 && hasFn && span.length as int >= size as int && span.length as int % size as int != 0 ==>
              r == Throws(IndexOutOfRange)
    ensures size > 0 && hasFn && span.length as int >= size as int && span.length as int % size as int == 0 ==>
              r.Ok? && fresh(r.value) && Selects(r.value[..], span.ptr, span.length as nat, span.elemSize, size as nat, fn)
  {
    if size < 0 {
      return Throws(ArgumentOutOfRange);
    }
    if !hasFn {
      return Throws(ArgumentNull);
    }
    var uSize := size as uint;
    if uSize == 0 {
      return Throws(DivideByZero);
    }
    var sliceCount := span.length / uSize as nuint;
    if sliceCount == 0 {
      DivModUnique(span.length as int, size as int, 0, span.length as int);
      var empty := new R[0];
      return Ok(empty);
    }
    var results := new R[sliceCount];
    PiecesCount(span.length as nat, 0, size as nat);
    var overflowed := SelectLoop(span, size, fn, results);
    if overflowed {
      return Throws(IndexOutOfRange);
    }
    return Ok(results);
  }

  /**
    * `SelectSmallSlices(fn)`: `SelectSmallSlices(int.MaxValue, fn)`, so a
    * view shorter than `int.MaxValue` gives no results and a length that is
    * not a multiple of it throws at the last, partial slice.
    */
  method SelectLargestSlices<R(0,==)>(span: BigSpans.BigSpan, hasFn: bool, fn: NativeSpan -> R) returns (r: Result<array<R>>)
    ensures !hasFn ==> r == Throws(ArgumentNull)
    ensures hasFn && (span.length as int) < INT_MAX as int ==> r.Ok? && r.value.Length == 0
    ensures hasFn && span.length as int >= INT_MAX as int && span.length as int % INT_MAX as int != 0 ==>
              r == Throws(IndexOutOfRange)
    ensures hasFn && span.length as int % INT_MAX as int == 0 && span.length != 0 ==>
              r.Ok? && fresh(r.value) && Selects(r.value[..], span.ptr, span.length as nat, span.elemSize, INT_MAX as nat, fn)
  {
    r := SelectSmallSlices(span, INT_MAX, hasFn, fn);
  }

  /**
    * `SelectSmallSlices(size, fn)` as evidently intended: a size that is not
    * positive is ArgumentOutOfRange, and there is one result per slice
    * (ceiling division), so every view gives `fn` of each of its slices.
    */
  method SelectSmallSlicesChecked<R(0,==)>(span: BigSpans.BigSpan, size: int32, hasFn: bool, fn: NativeSpan -> R)
    returns (r: Result<array<R>>)
    ensures size <= 0 ==> r == Throws(ArgumentOutOfRange)
    ensures size > 0 && !hasFn ==> r == Throws(ArgumentNull)
    ensures size > 0 && hasFn ==>
              (r.Ok? && fresh(r.value) && Selects(r.value[..], span.ptr, span.length as nat, span.elemSize, size as nat, fn))
  {
    if size <= 0 {
      return Throws(ArgumentOutOfRange);
    }
    if !hasFn {
      return Throws(ArgumentNull);
    }
    var uSize := size as nuint;
    var sliceCount := span.length / uSize + (if span.length % uSize == 0 then 0 else 1);
    var results := new R[sliceCount];
    PiecesCount(span.length as nat, 0, size as nat);
    var overflowed := SelectLoop(span, size, fn, results);
    return Ok(results);
  }

  /**
    * The loop of `AsSmallSlices(size, action)` on a `ReadOnlyBigSpan<T>`:
    * the same slices, but each comes from the read-only `Slice(nuint, int)`,
    * whose truncated indexer can refuse a start past 2^32 elements. Below
    * 2^32 elements it slices like the mutable view.
    */
  method ReadOnlySliceLoop(span: ReadOnlyBigSpans.ReadOnlyBigSpan, size: int32) returns (r: Result<seq<NativeSpan>>)
    requires size >= 0 && (size == 0 ==> span.length == 0)
    ensures r.Ok? ==> Visits(r.value, span.ptr, span.length as nat, span.elemSize, size as nat)
    ensures r.Throws? ==> r.error == IndexOutOfRange
    ensures (span.length as int) < TWO_32 ==> r.Ok?
  {
    ghost var all := Pieces(span.length as nat, 0, size as nat);
    var uSize := size as uint;
    var start: nuint := 0;
    var visited: seq<NativeSpan> := [];
    var maxSize := span.length - start;
    while maxSize != 0
      invariant start <= span.length && maxSize == span.length - start
      invariant size > 0 || start == span.length
      invariant |visited| <= |all| && all[|visited|..] == Pieces(span.length as nat, start as nat, size as nat)
      invariant forall j :: 0 <= j < |visited| ==> IsSliceOf(visited[j], span.ptr, span.elemSize, all[j])
      decreases maxSize
    {
      var sliceSize := Min(uSize as nuint, maxSize) as int32;
      var slice := ReadOnlyBigSpans.SliceToSpan(span, start, sliceSize);
      if (span.length as int) < TWO_32 {
        ReadOnlyBigSpans.IndexBelowTwo32(span, start);
      }
      if slice.Throws? {
        return Throws(slice.error);
      }
      PiecesStep(all, |visited|, span.length as nat, start as nat, size as nat, sliceSize as nat);
      start := start + sliceSize as uint as nuint;
      visited := visited + [slice.value];
      maxSize := span.length - start;
    }
    return Ok(visited);
  }

  /**
    * `AsSmallSlices(this ReadOnlyBigSpan<T> span, int size, ReadOnlySpanAction<T> action)`:
    * the argument tests of the mutable variant, then the read-only slices.
    */
  method ReadOnlyAsSmallSlices(span: ReadOnlyBigSpans.ReadOnlyBigSpan, size: int32, hasAction: bool)
    returns (r: Result<seq<NativeSpan>>)
    requires size == 0 ==> span.length == 0
    ensures size < 0 ==> r == Throws(ArgumentOutOfRange)
    ensures size >= 0 && !hasAction ==> r == Throws(ArgumentNull)
    ensures size >= 0 && hasAction && (span.length as int) < TWO_32 ==> r.Ok?
    ensures size >= 0 && hasAction && r.Ok? ==> Visits(r.value, span.ptr, span.length as nat, span.elemSize, size as nat)
  {
    if size < 0 {
      return Throws(ArgumentOutOfRange);
    }
    if !hasAction {
      return Throws(ArgumentNull);
    }
    r := ReadOnlySliceLoop(span, size);
  }

  /** A slicing step of a read-only view: the slice of its piece, and never refused below 2^32 elements. */
  lemma ReadOnlySliceAt(span: ReadOnlyBigSpans.ReadOnlyBigSpan, start: nuint, sliceSize: int32)
    requires 0 <= sliceSize && start as int + sliceSize as int <= span.length as int && start < span.length
    ensures ReadOnlyBigSpans.SliceToSpan(span, start, sliceSize).Throws? ==>
              ReadOnlyBigSpans.SliceToSpan(span, start, sliceSize).error == IndexOutOfRange && span.length as int >= TWO_32
    ensures ReadOnlyBigSpans.SliceToSpan(span, start, sliceSize).Ok? ==>
              ReadOnlyBigSpans.SliceToSpan(span, start, sliceSize).value == SliceAt(span.ptr, span.elemSize, Piece(start as nat, sliceSize as nat))
  {
    if (span.length as int) < TWO_32 {
      ReadOnlyBigSpans.IndexBelowTwo32(span, start);
    }
  }

  /**
    * The loop of `SelectSmallSlices` on a `ReadOnlyBigSpan<T>`: as
    * `SelectLoop`, except that a read-only slice the truncated indexer
    * refuses throws IndexOutOfRange, which cannot happen below 2^32
    * elements.
    */
  method ReadOnlySelectLoop<R(==)>(span: ReadOnlyBigSpans.ReadOnlyBigSpan, size: int32, fn: NativeSpan -> R, results: array<R>)
    returns (r: Result<bool>)
    requires size > 0
    modifies results
    ensures r.Throws? ==> r.error == IndexOutOfRange
    ensures (span.length as int) < TWO_32 ==> r.Ok?
    ensures var ps := Pieces(span.length as nat, 0, size as nat);
            r.Ok? ==>
              (r.value <==> results.Length < |ps|) &&
              (forall j :: 0 <= j < |ps| && j < results.Length ==>
                 ps[j].count <= INT_MAX as int && results[j] == fn(SliceAt(span.ptr, span.elemSize, ps[j]))) &&
              (forall j :: |ps| <= j < results.Length ==> results[j] == old(results[j]))
  {
    ghost var all := Pieces(span.length as nat, 0, size as nat);
    PiecesBounded(span.length as nat, 0, size as nat);
    var uSize := size as uint;
    var start: nuint := 0;
    var resultIndex := 0;
    var maxSize := span.length - start;
    while maxSize != 0
      invariant start <= span.length && maxSize == span.length - start
      invariant resultIndex <= |all| && resultIndex <= results.Length
      invariant all[resultIndex..] == Pieces(span.length as nat, start as nat, size as nat)
      invariant forall j :: 0 <= j < resultIndex ==> results[j] == fn(SliceAt(span.ptr, span.elemSize, all[j]))
      invariant forall j :: resultIndex <= j < results.Length ==> results[j] == old(results[j])
      decreases maxSize
    {
      var sliceSize := Min(uSize as nuint, maxSize) as int32;
      var slice := ReadOnlyBigSpans.SliceToSpan(span, start, sliceSize);
      ReadOnlySliceAt(span, start, sliceSize);
      if slice.Throws? {
        return Throws(slice.error);
      }
      PiecesStep(all, resultIndex, span.length as nat, start as nat, size as nat, sliceSize as nat);
      start := start + sliceSize as uint as nuint;
      if resultIndex >= results.Length {
        return Ok(true);
      }
      results[resultIndex] := fn(slice.value);
      resultIndex := resultIndex + 1;
      maxSize := span.length - start;
    }
    return Ok(false);
  }

  /**
    * `SelectSmallSlices(this ReadOnlyBigSpan<T> span, int size, ReadOnlySpanFunc<T, TResult> fn)`:
    * the argument tests and floor-sized results of the mutable variant, over
    * the read-only slices; below 2^32 elements it behaves exactly like it.
    */
  method ReadOnlySelectSmallSlices<R(0,==)>(span: ReadOnlyBigSpans.ReadOnlyBigSpan, size: int32, hasFn: bool, fn: NativeSpan -> R)
    returns (r: Result<array<R>>)
    ensures size < 0 ==> r == Throws(ArgumentOutOfRange)
    ensures size >= 0 && !hasFn ==> r == Throws(ArgumentNull)
    ensures size == 0 && hasFn ==> r == Throws(DivideByZero)
    ensures size > 0 && hasFn && (span.length as int) < size as int ==> r.Ok? && r.value.Length == 0
    ensures size > 0 && hasFn && span.length as int >= size as int && span.length as int % size as int != 0 ==>
              r == Throws(IndexOutOfRange)
    ensures size > 0 && hasFn && span.length as int >= size as int && span.length as int % size as int == 0 && r.Ok? ==>
              fresh(r.value) && Selects(r.value[..], span.ptr, span.length as nat, span.elemSize, size as nat, fn)
    ensures size > 0 && hasFn && (span.length as int) < TWO_32 ==> r.Ok? || r == Throws(IndexOutOfRange)
    ensures size > 0 && hasFn && span.length as int % size as int == 0 && (span.length as int) < TWO_32 ==> r.Ok?
  {
    if size < 0 {
      return Throws(ArgumentOutOfRange);
    }
    if !hasFn {
      return Throws(ArgumentNull);
    }
    var uSize := size as uint;
    if uSize == 0 {
      return Throws(DivideByZero);
    }
    var sliceCount := span.length / uSize as nuint;
    if sliceCount == 0 {
      DivModUnique(span.length as int, size as int, 0, span.length as int);
      var empty := new R[0];
      return Ok(empty);
    }
    var results := new R[sliceCount];
    PiecesCount(span.length as nat, 0, size as nat);
    var outcome := ReadOnlySelectLoop(span, size, fn, results);
    if outcome.Throws? {
      return Throws(outcome.error);
    }
    if outcome.value {
      return Throws(IndexOutOfRange);
    }
    return Ok(results);
  }

  /** A read-only view one element longer than 2^32 is refused at the second one-element slice. */
  lemma ReadOnlySlicingStopsPastTwo32(span: ReadOnlyBigSpans.ReadOnlyBigSpan)
    requires span.length as int == TWO_32 + 1
    ensures ReadOnlyBigSpans.SliceToSpan(span, 1, 1) == Throws(IndexOutOfRange)
  {
  }
}
