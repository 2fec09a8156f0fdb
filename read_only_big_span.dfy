// `ReadOnlyBigSpan<T>`: the read-only counterpart of `BigSpan<T>`. Most of its
// members repeat BigSpan's code; the differences are its indexer and
// `IsEmpty`, which compare 32-bit truncations, its `==`, which compares the
// pinnable references, and `CastAs`, which hands out a writable view.
module ReadOnlyBigSpans {
  import opened NativeInts
  import opened Errors
  import opened Memory
  import opened Views
  import BigSpans

  datatype ReadOnlyBigSpan = ReadOnlyBigSpan(ptr: Ref, length: nuint, elemSize: nat)
  {
    predicate Valid()
    {
      ValidRegion(ptr, length as int, elemSize)
    }

    function AsRegion(): (g: Region)
      ensures Valid() <==> g.Valid()
      ensures g.ptr == ptr && g.length == length as int && g.elemSize == elemSize
    {
      Region(ptr, length as int, elemSize)
    }

    function Bytes(): (b: seq<byte>)
      reads ptr.block
      requires Valid()
      ensures |b| == length as int * elemSize
    {
      AsRegion().Bytes()
    }

    function Elements(): (es: seq<seq<byte>>)
      reads ptr.block
      requires Valid()
      ensures |es| == length as int
    {
      AsRegion().Elements()
    }
  }

  /** The implicit conversion from `BigSpan<T>`: the same reference and length. */
  function FromBigSpan(span: BigSpans.BigSpan): (v: ReadOnlyBigSpan)
    reads span.ptr.block
    ensures v.ptr == span.ptr && v.length == span.length && v.elemSize == span.elemSize
    ensures span.Valid() <==> v.Valid()
    ensures span.Valid() ==> v.Elements() == span.Elements()
  {
    ReadOnlyBigSpan(span.ptr, span.length, span.elemSize)
  }

  /** The implicit conversions from `Span<T>` and `ReadOnlySpan<T>`. */
  function FromSpan(span: NativeSpan): (v: ReadOnlyBigSpan)
    reads span.ptr.block
    requires span.length >= 0
    ensures span.Valid() <==> v.Valid()
    ensures v.ptr == span.ptr && v.length as int == span.length as int
    ensures span.Valid() ==> v.Elements() == span.AsRegion().Elements()
  {
    ReadOnlyBigSpan(span.ptr, span.length as nuint, span.elemSize)
  }

  /** `new ReadOnlyBigSpan<T>(T[]? array)`: the whole array, or the default view for null. */
  function FromArray(arr: array?<byte>, elemSize: nat): (v: ReadOnlyBigSpan)
    reads arr
    requires elemSize > 0
    requires arr != null ==> arr.Length % elemSize == 0 && arr.Length < TWO_64
    ensures v.Valid() && v.elemSize == elemSize
    ensures arr == null ==> v.length == 0 && v.ptr == Null
    ensures arr != null ==> v.ptr == Ref(arr, 0) && v.Bytes() == arr[..]
  {
    FromBigSpan(BigSpans.FromArray(arr, elemSize))
  }

  /**
    * `new ReadOnlyBigSpan<T>(T[]? array, nuint start, nuint length)`: the
    * same checks as BigSpan's, a wrapping end compared with the array and a
    * view that begins at `(uint)start`.
    */
  function FromArrayRange(arr: array?<byte>, elemSize: nat, start: nuint, length: nuint): (r: Result<ReadOnlyBigSpan>)
    reads arr
    requires elemSize > 0
    requires arr != null ==> arr.Length % elemSize == 0 && arr.Length < TWO_64
    ensures r.Throws? ==> r.error == ArgumentOutOfRange
    ensures arr == null ==> (r.Ok? <==> start == 0 && length == 0)
    ensures arr == null && r.Ok? ==> r.value.length == 0 && r.value.ptr == Null
    ensures arr != null ==> (r.Ok? <==> Wrap(start as int + length as int) as int <= BigSpans.ArrayCount(arr, elemSize))
    ensures r.Ok? ==> r.value.length == length
    ensures arr != null && start as int < TWO_32 && start as int + length as int <= BigSpans.ArrayCount(arr, elemSize) ==>
              r.Ok? && r.value.Valid() &&
              r.value.Elements() == FromArray(arr, elemSize).Elements()[start .. start as int + length as int]
  {
    match BigSpans.FromArrayRange(arr, elemSize, start, length)
    case Ok(span) => Ok(FromBigSpan(span))
    case Throws(e) => Throws(e)
  }

  /**
    * The explicit conversion from `ArraySegment<T>`: the segment's offset and
    * count as `start` and `length`. A segment lies inside its array, so this
    * never throws and yields exactly the segment's elements.
    */
  function FromSegment(arr: array<byte>, elemSize: nat, offset: int32, count: int32): (r: Result<ReadOnlyBigSpan>)
    reads arr
    requires elemSize > 0 && arr.Length % elemSize == 0 && arr.Length < TWO_64
    requires 0 <= offset && 0 <= count && offset as int + count as int <= BigSpans.ArrayCount(arr, elemSize)
    ensures r.Ok? && r.value.Valid() && r.value.length as int == count as int
    ensures r.value.Elements() == FromArray(arr, elemSize).Elements()[offset .. offset as int + count as int]
  {
    FromArrayRange(arr, elemSize, offset as nuint, count as nuint)
  }

  /**
    * `new ReadOnlyBigSpan<T>(void* pointer, nuint length)` and the internal
    * constructors: record the reference and the length unchecked.
    */
  function FromPointer(pointer: Ref, length: nuint, elemSize: nat): (v: ReadOnlyBigSpan)
    ensures v.ptr == pointer && v.length == length && v.elemSize == elemSize
    ensures v.Valid() <==> ValidRegion(pointer, length as int, elemSize)
  {
    ReadOnlyBigSpan(pointer, length, elemSize)
  }

  /**
    * `this[nuint index]` as written: IndexOutOfRange iff
    * `(uint)index >= (uint)Length`, while the element is addressed with the
    * full index.
    */
  function Index(v: ReadOnlyBigSpan, index: nuint): (r: Result<Ref>)
    ensures r.Ok? <==> Trunc32(index) < Trunc32(v.length)
    ensures r.Throws? ==> r.error == IndexOutOfRange
    ensures r.Ok? ==> r.value == AddBytes(v.ptr, index as int * v.elemSize)
  {
    if Trunc32(index) >= Trunc32(v.length) then Throws(IndexOutOfRange)
    else Ok(AddBytes(v.ptr, index as int * v.elemSize))
  }

  /** Below 2^32 elements and for indices below 2^32 the truncated check is the exact one. */
  lemma IndexBelowTwo32(v: ReadOnlyBigSpan, index: nuint)
    requires v.length as int < TWO_32 && index as int < TWO_32
    ensures Index(v, index).Ok? <==> index < v.length
    ensures Index(v, index) == BigSpans.Index(BigSpans.BigSpan(v.ptr, v.length, v.elemSize), index)
  {
  }

  /** Index 2^32 + 5 of a ten-element view passes the check and addresses memory past the view. */
  lemma IndexPassesPastView(v: ReadOnlyBigSpan)
    requires v.length == 10
    ensures var index := (TWO_32 + 5) as nuint;
            Index(v, index).Ok? && index >= v.length
  {
  }

  /** Index 0 of a view of 2^32 elements is rejected although the view holds it. */
  lemma IndexRejectsInsideView(v: ReadOnlyBigSpan)
    requires v.length as int == TWO_32
    ensures Index(v, 0) == Throws(IndexOutOfRange)
  {
  }

  /** `this[nuint index]` with the full-width check of BigSpan's indexer. */
  function IndexChecked(v: ReadOnlyBigSpan, index: nuint): (r: Result<Ref>)
    ensures r.Ok? <==> index < v.length
    ensures r.Throws? ==> r.error == IndexOutOfRange
    ensures r.Ok? ==> r.value == AddBytes(v.ptr, index as int * v.elemSize)
  {
    if index >= v.length then Throws(IndexOutOfRange)
    else Ok(AddBytes(v.ptr, index as int * v.elemSize))
  }

  /** The checked indexer addresses exactly element `index` of a valid view. */
  lemma IndexCheckedIsElement(v: ReadOnlyBigSpan, index: nuint)
    requires v.Valid() && index < v.length
    ensures Accessible(IndexChecked(v, index).value, v.elemSize)
    ensures Load(IndexChecked(v, index).value, v.elemSize) == v.Elements()[index]
  {
    ElementAt(v.ptr, v.length as int, v.elemSize, index as int);
  }

  /** `this[Index index]`: `^n` becomes `Length - n` (wrapping), then the truncated indexer decides. */
  function IndexFrom(v: ReadOnlyBigSpan, index: SystemIndex): (r: Result<Ref>)
    requires index.Valid()
    ensures r == Index(v, Resolve(index, v.length))
    ensures v.length as int < TWO_32 ==> (r.Ok? <==> 0 <= Position(index, v.length as int) < v.length as int)
  {
    var actualIndex := index.value as nuint;
    var actualIndex' := if index.isFromEnd then Wrap(v.length as int - actualIndex as int) else actualIndex;
    Index(v, actualIndex')
  }

  /**
    * `this[Range range]` as written: like BigSpan's, the end is resolved with
    * the START's from-end flag and the length `end - start` is not checked;
    * the start goes through the truncated indexer.
    */
  function RangeAt(v: ReadOnlyBigSpan, range: SystemRange): (r: Result<ReadOnlyBigSpan>)
    requires range.Valid()
    ensures r.Ok? <==> Index(v, Resolve(range.start, v.length)).Ok?
    ensures r.Throws? ==> r.error == IndexOutOfRange
    ensures r.Ok? && Position(range.start, v.length as int) >= 0 ==>
              var start := Position(range.start, v.length as int);
              var end := Position(SystemIndex(range.end.value, range.start.isFromEnd), v.length as int);
              r.value.ptr == AddBytes(v.ptr, start * v.elemSize) && r.value.length == Wrap(end - start)
  {
    var start := Resolve(range.start, v.length);
    var endIndex := SystemIndex(range.end.value, range.start.isFromEnd);
    var end := Resolve(endIndex, v.length);
    var length := Wrap(end as int - start as int);
    match Index(v, start)
    case Ok(p) =>
      if Position(range.start, v.length as int) >= 0 then
        ResolvedDistance(range.start, endIndex, v.length);
        Ok(ReadOnlyBigSpan(p, length, v.elemSize))
      else
        Ok(ReadOnlyBigSpan(p, length, v.elemSize))
    case Throws(e) => Throws(e)
  }

  /** `[..^1]` on a one-element read-only view also yields one element instead of none. */
  lemma RangeAtIgnoresEndFlag(v: ReadOnlyBigSpan)
    requires v.length == 1
    ensures RangeAt(v, SystemRange(SystemIndex(0, false), SystemIndex(1, true))) == Ok(ReadOnlyBigSpan(v.ptr, 1, v.elemSize))
  {
  }

  /** `IsEmpty` as written: `0 >= (uint)Length`, true whenever the low 32 bits of the length are 0. */
  function IsEmpty(v: ReadOnlyBigSpan): (r: bool)
    ensures r <==> v.length as int % TWO_32 == 0
    ensures v.length as int < TWO_32 ==> (r <==> v.length == 0)
  {
    0 >= Trunc32(v.length)
  }

  /** A view of 2^32 elements reports itself empty. */
  lemma IsEmptyTruncates(v: ReadOnlyBigSpan)
    requires v.Valid() && v.length as int == TWO_32
    ensures IsEmpty(v) && v.Elements() != []
  {
    assert |v.Elements()| == TWO_32;
  }

  /** `IsEmpty` over the full length: empty exactly when there are no elements. */
  function IsEmptyChecked(v: ReadOnlyBigSpan): (r: bool)
    ensures r <==> v.length == 0
    ensures v.Valid() ==> (r <==> v.Elements() == [])
  {
    0 >= v.length
  }

  /** `GetPinnableReference()` (and `GetUnsafePointer()`): null for an empty view, otherwise the first element. */
  function GetPinnableReference(v: ReadOnlyBigSpan): (r: Ref)
    ensures v.length == 0 ==> r == Null
    ensures v.length != 0 ==> r == v.ptr
  {
    v.AsRegion().Pinnable()
  }

  /**
    * `operator ==`: the same length and the same `GetUnsafePointer()`, which
    * is null for every empty view.
    */
  function Equal(left: ReadOnlyBigSpan, right: ReadOnlyBigSpan): (r: bool)
    ensures r <==> left.length == right.length && (left.length == 0 || left.ptr == right.ptr)
  {
    left.length == right.length && GetPinnableReference(left) == GetPinnableReference(right)
  }

  /**
    * Two empty views over different memory: `==` on BigSpan tells them apart,
    * `==` on their read-only widenings does not.
    */
  lemma EqualIgnoresBaseOfEmptyViews(a: BigSpans.BigSpan, b: BigSpans.BigSpan)
    requires a.length == 0 && b.length == 0 && a.ptr != b.ptr
    ensures !BigSpans.Equal(a, b)
    ensures Equal(FromBigSpan(a), FromBigSpan(b))
  {
  }

  /** For non-empty views both `==` operators agree. */
  lemma EqualAgreesOnNonEmpty(a: BigSpans.BigSpan, b: BigSpans.BigSpan)
    requires a.length != 0
    ensures Equal(FromBigSpan(a), FromBigSpan(b)) <==> BigSpans.Equal(a, b)
  {
  }

  /** The explicit conversion to `ReadOnlySpan<T>` and `ToReadOnlySpan()`: NotSupported beyond `int.MaxValue` elements. */
  function ToReadOnlySpan(v: ReadOnlyBigSpan): (r: Result<NativeSpan>)
    reads v.ptr.block
    ensures r.Ok? <==> v.length as int <= INT_MAX as int
    ensures r.Throws? ==> r.error == NotSupported
    ensures r.Ok? ==> r.value.ptr == v.ptr && r.value.length as int == v.length as int
    ensures r.Ok? && v.Valid() ==> r.value.Valid() && r.value.AsRegion().Elements() == v.Elements()
  {
    if v.length as int <= INT_MAX as int then Ok(NativeSpan(v.ptr, v.length as int as int32, v.elemSize))
    else Throws(NotSupported)
  }

  /**
    * `Slice(nuint start)`: both sides of the check and the offset are
    * truncated to 32 bits, while the new length `Length - start` wraps.
    */
  function SliceFrom(v: ReadOnlyBigSpan, start: nuint): (r: Result<ReadOnlyBigSpan>)
    ensures r.Ok? <==> Trunc32(start) <= Trunc32(v.length)
    ensures r.Throws? ==> r.error == ArgumentOutOfRange
    ensures r.Ok? ==> r.value.ptr == AddBytes(v.ptr, Trunc32(start) as int * v.elemSize)
    ensures r.Ok? ==> r.value.length == Wrap(v.length as int - start as int) && r.value.elemSize == v.elemSize
  {
    if Trunc32(start) > Trunc32(v.length) then Throws(ArgumentOutOfRange)
    else Ok(ReadOnlyBigSpan(AddBytes(v.ptr, Trunc32(start) as int * v.elemSize), Wrap(v.length as int - start as int), v.elemSize))
  }

  /** Below 2^32 elements `Slice(start)` is the suffix from `start`, and fails exactly past the end. */
  lemma SliceFromContents(v: ReadOnlyBigSpan, start: nuint)
    requires v.Valid() && v.length as int < TWO_32
    ensures SliceFrom(v, start).Ok? <==> Trunc32(start) <= v.length as uint
    ensures SliceFrom(v, start).Ok? && start <= v.length ==>
              SliceFrom(v, start).value.Valid() && SliceFrom(v, start).value.Elements() == v.Elements()[start..]
  {
    if SliceFrom(v, start).Ok? && start <= v.length {
      SubRegion(v.ptr, v.length as int, v.elemSize, start as int, v.length as int - start as int);
    }
  }

  /**
    * `Slice(nuint start, nuint length)`: the end `start + length` wraps
    * before it is checked, and the offset uses `(uint)start`.
    */
  function Slice(v: ReadOnlyBigSpan, start: nuint, length: nuint): (r: Result<ReadOnlyBigSpan>)
    ensures r.Ok? <==> Wrap(start as int + length as int) <= v.length
    ensures r.Throws? ==> r.error == ArgumentOutOfRange
    ensures r.Ok? ==> r.value.ptr == AddBytes(v.ptr, Trunc32(start) as int * v.elemSize)
    ensures r.Ok? ==> r.value.length == length && r.value.elemSize == v.elemSize
  {
    if Wrap(start as int + length as int) > v.length then Throws(ArgumentOutOfRange)
    else Ok(ReadOnlyBigSpan(AddBytes(v.ptr, Trunc32(start) as int * v.elemSize), length, v.elemSize))
  }

  /** While `start < 2^32` and the end does not wrap, `Slice` is the sub-view `[start, start + length)`. */
  lemma SliceContents(v: ReadOnlyBigSpan, start: nuint, length: nuint)
    requires v.Valid() && start as int < TWO_32 && start as int + length as int <= v.length as int
    ensures Slice(v, start, length).Ok?
    ensures Slice(v, start, length).value.Valid()
    ensures Slice(v, start, length).value.Elements() == v.Elements()[start .. start as int + length as int]
  {
    SubRegion(v.ptr, v.length as int, v.elemSize, start as int, length as int);
  }

  /** Widening commutes with `Slice`: the read-only slice is the widened BigSpan slice. */
  lemma SliceMatchesBigSpan(span: BigSpans.BigSpan, start: nuint, length: nuint)
    ensures var r, s := Slice(FromBigSpan(span), start, length), BigSpans.Slice(span, start, length);
            r.Ok? == s.Ok? && (r.Ok? ==> r.value == FromBigSpan(s.value))
  {
  }

  /**
    * `Slice(nuint start, int length)`, returning a `ReadOnlySpan<T>`: a
    * negative length or a (wrapping) end past `Length` is ArgumentOutOfRange,
    * and the span then starts at `this[start]`, the truncated indexer.
    */
  function SliceToSpan(v: ReadOnlyBigSpan, start: nuint, length: int32): (r: Result<NativeSpan>)
    ensures r.Ok? <==> length >= 0 && Wrap(start as int + length as int) <= v.length && Index(v, start).Ok?
    ensures r.Throws? && (length < 0 || Wrap(start as int + length as int) > v.length) ==> r.error == ArgumentOutOfRange
    ensures r.Throws? && length >= 0 && Wrap(start as int + length as int) <= v.length ==> r.error == IndexOutOfRange
    ensures r.Ok? ==> r.value.length == length && r.value.ptr == AddBytes(v.ptr, start as int * v.elemSize)
  {
    if length < 0 then Throws(ArgumentOutOfRange)
    else if Wrap(start as int + length as int) > v.length then Throws(ArgumentOutOfRange)
    else match Index(v, start)
      case Ok(p) => Ok(NativeSpan(p, length, v.elemSize))
      case Throws(e) => Throws(e)
  }

  /**
    * `Slice(int start, int length)`, returning a `ReadOnlySpan<T>`: negative
    * arguments and an end past `Length` are ArgumentOutOfRange, then the
    * truncated indexer decides on `start`.
    */
  function SliceIntToSpan(v: ReadOnlyBigSpan, start: int32, length: int32): (r: Result<NativeSpan>)
    ensures r.Ok? <==> 0 <= start && 0 <= length && start as int + length as int <= v.length as int
                       && (start as int) < Trunc32(v.length) as int
    ensures r.Throws? && !(start >= 0 && length >= 0 && start as int + length as int <= v.length as int) ==> r.error == ArgumentOutOfRange
    ensures r.Ok? ==> r.value.length == length
  {
    if start < 0 then Throws(ArgumentOutOfRange)
    else if length < 0 then Throws(ArgumentOutOfRange)
    else if Wrap(start as int + length as int) > v.length then Throws(ArgumentOutOfRange)
    else match Index(v, start as nuint)
      case Ok(p) => Ok(NativeSpan(p, length, v.elemSize))
      case Throws(e) => Throws(e)
  }

  /** A successful `Slice(int, int)` of a valid view is the span of elements `[start, start + length)`. */
  lemma SliceIntToSpanContents(v: ReadOnlyBigSpan, start: int32, length: int32)
    requires v.Valid() && SliceIntToSpan(v, start, length).Ok?
    ensures SliceIntToSpan(v, start, length).value.Valid()
    ensures SliceIntToSpan(v, start, length).value.AsRegion().Elements() == v.Elements()[start .. start as int + length as int]
  {
    SubRegion(v.ptr, v.length as int, v.elemSize, start as int, length as int);
  }

  /** `AsBytes()`: the same memory as a read-only view of `Length * sizeof(T)` bytes. */
  function AsBytes(v: ReadOnlyBigSpan): (r: ReadOnlyBigSpan)
    reads v.ptr.block
    ensures r.ptr == v.ptr && r.elemSize == 1
    ensures v.Valid() ==> r.Valid() && r.length as int == v.length as int * v.elemSize && r.Bytes() == v.Bytes()
  {
    ReadOnlyBigSpan(v.ptr, Wrap(v.length as int * v.elemSize), 1)
  }

  /**
    * `CastAs<T2>()` as written: the result is a writable `BigSpan<T2>` of
    * `Length * sizeof(T) / sizeof(T2)` elements over the read-only memory.
    */
  function CastAs(v: ReadOnlyBigSpan, size2: nat): (r: BigSpans.BigSpan)
    reads v.ptr.block
    requires size2 > 0
    ensures r.ptr == v.ptr && r.elemSize == size2
    ensures v.Valid() ==> r.Valid() && r.length as int == v.length as int * v.elemSize / size2
    ensures v.Valid() ==> r.length as int * size2 <= |v.Bytes()| && r.Bytes() == v.Bytes()[.. r.length as int * size2]
  {
    BigSpans.CastAs(BigSpans.BigSpan(v.ptr, v.length, v.elemSize), size2)
  }

  /** Clearing the view `CastAs` returns overwrites the memory of the read-only view. */
  method CastAsAllowsWrites(v: ReadOnlyBigSpan)
    requires v.Valid() && v.elemSize == 1
    modifies v.ptr.block
    ensures forall i :: 0 <= i < v.length as int ==> v.Elements()[i] == [0]
  {
    var writable := CastAs(v, 1);
    BigSpans.ClearAll(writable, false);
    forall i | 0 <= i < v.length as int
      ensures v.Elements()[i] == [0]
    {
      assert writable.Elements()[i] == BigSpans.Zeros(1) == [0];
    }
  }

  /** `CastAs<T2>()` returning a `ReadOnlyBigSpan<T2>`, as a read-only view should. */
  function CastAsReadOnly(v: ReadOnlyBigSpan, size2: nat): (r: ReadOnlyBigSpan)
    reads v.ptr.block
    requires size2 > 0
    ensures r.ptr == v.ptr && r.elemSize == size2
    ensures v.Valid() ==> r.Valid() && r.length as int == v.length as int * v.elemSize / size2
    ensures v.Valid() ==> r.length as int * size2 <= |v.Bytes()| && r.Bytes() == v.Bytes()[.. r.length as int * size2]
  {
    FromBigSpan(CastAs(v, size2))
  }

  /**
    * `CompareMemory(BigSpan<T> other, nuint length)`: like BigSpan's, the
    * length is checked against ELEMENT counts and handed to memcmp as a BYTE
    * count.
    */
  function CompareMemoryPrefix(v: ReadOnlyBigSpan, other: Region, length: nuint): (r: Result<int>)
    reads v.ptr.block, other.ptr.block
    requires v.Valid() && other.Valid() && other.elemSize == v.elemSize
    ensures r.Ok? <==> length <= v.length && length as int <= other.length
    ensures r.Throws? ==> r.error == ArgumentOutOfRange
    ensures r.Ok? ==> length as int <= |v.Bytes()| && length as int <= |other.Bytes()|
                      && r.value == Memcmp(v.Bytes()[..length], other.Bytes()[..length])
  {
    BigSpans.CompareMemoryPrefix(BigSpans.BigSpan(v.ptr, v.length, v.elemSize), other, length)
  }

  /**
    * `CompareMemory(other)` against a BigSpan, ReadOnlyBigSpan, Span or
    * ReadOnlySpan (a span's `int` length cast to `uint` is exact): the
    * lexicographic order of the two byte strings.
    */
  function CompareMemory(v: ReadOnlyBigSpan, other: Region): (r: int)
    reads v.ptr.block, other.ptr.block
    requires v.Valid() && other.Valid() && other.elemSize == v.elemSize
    ensures r == Lexicographic(v.Bytes(), other.Bytes())
    ensures r == 0 <==> v.Elements() == other.Elements()
  {
    SameElementsSameBytes(v.AsRegion(), other);
    CompareMemoryOf(v.AsRegion(), other)
  }

  /** Widening does not change the order: read-only and mutable comparisons agree. */
  lemma CompareMemoryMatchesBigSpan(span: BigSpans.BigSpan, other: Region)
    requires span.Valid() && other.Valid() && other.elemSize == span.elemSize
    ensures CompareMemory(FromBigSpan(span), other) == BigSpans.CompareMemory(span, other)
  {
  }

  /**
    * `CopyTo(BigSpan<T> destination)`: ArgumentException, with nothing
    * written, when the destination is shorter; otherwise memmove semantics.
    */
  method CopyTo(src: ReadOnlyBigSpan, dst: BigSpans.BigSpan) returns (r: Outcome)
    requires src.Valid() && dst.Valid() && src.elemSize == dst.elemSize
    modifies dst.ptr.block
    ensures r.Failed? <==> src.length > dst.length
    ensures r.Failed? ==> r.error == Argument
    ensures OnlyWrote(dst.ptr, if r.Failed? then 0 else src.length as int * src.elemSize)
    ensures r.Done? ==> dst.Elements()[..src.length] == old(src.Elements())
    ensures r.Done? ==> dst.Elements()[src.length..] == old(dst.Elements())[src.length..]
  {
    if !BigSpans.FitsIn(src.length, dst.length, src.elemSize) {
      return Failed(Argument);
    }
    BigSpans.CopyElements(src.AsRegion(), dst);
    return Done;
  }

  /**
    * `TryCopyTo(BigSpan<T> destination)`: false, with nothing written, when
    * the destination is shorter; otherwise true with `CopyTo`'s effect.
    */
  method TryCopyTo(src: ReadOnlyBigSpan, dst: BigSpans.BigSpan) returns (copied: bool)
    requires src.Valid() && dst.Valid() && src.elemSize == dst.elemSize
    modifies dst.ptr.block
    ensures copied <==> src.length <= dst.length
    ensures OnlyWrote(dst.ptr, if copied then src.length as int * src.elemSize else 0)
    ensures copied ==> dst.Elements()[..src.length] == old(src.Elements())
    ensures copied ==> dst.Elements()[src.length..] == old(dst.Elements())[src.length..]
  {
    if !BigSpans.FitsIn(src.length, dst.length, src.elemSize) {
      return false;
    }
    BigSpans.CopyElements(src.AsRegion(), dst);
    return true;
  }

  /**
    * `ToArray()`: an empty array for an empty view, NotSupported beyond
    * `long.MaxValue` elements, otherwise a fresh array holding the view's
    * elements, filled through `CopyTo`.
    */
  method ToArray(v: ReadOnlyBigSpan) returns (r: Result<array<byte>>)
    requires v.Valid()
    ensures r.Throws? <==> v.length as int > LONG_MAX as int
    ensures r.Throws? ==> r.error == NotSupported
    ensures r.Ok? ==> fresh(r.value) && r.value[..] == v.Bytes()
  {
    if v.length == 0 {
      var a := new byte[0];
      return Ok(a);
    }
    if v.length as int > LONG_MAX as int {
      return Throws(NotSupported);
    }
    var a := BigSpans.ToArray(BigSpans.BigSpan(v.ptr, v.length, v.elemSize));
    return Ok(a);
  }
}
