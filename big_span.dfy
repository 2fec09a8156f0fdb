// `BigSpan<T>`: a mutable, non-owning view of `length` (a `nuint`) elements
// of `sizeof(T)` bytes. Indexers, slicing, comparison and conversions are
// pure functions of the view; the operations that write memory are methods.
module BigSpans {
  import opened NativeInts
  import opened Errors
  import opened Memory
  import opened Views
  import BlockClear
  import BlockFill

  datatype BigSpan = BigSpan(ptr: Ref, length: nuint, elemSize: nat)
  {
    predicate Valid()
    {
      ValidRegion(ptr, length as int, elemSize)
    }

    function AsRegion(): (g: Region)
      ensures Valid() <==> g.Valid()
      ensures g.ptr == ptr && g.length == length as int && g.elemSize == elemSize
    {
      Region(ptr, length as int, elemSize)
    }

    function Bytes(): (b: seq<byte>)
      reads ptr.block
      requires Valid()
      ensures |b| == length as int * elemSize
    {
      AsRegion().Bytes()
    }

    function Elements(): (es: seq<seq<byte>>)
      reads ptr.block
      requires Valid()
      ensures |es| == length as int
    {
      AsRegion().Elements()
    }
  }

  /** `default(BigSpan<T>)`: no memory, no elements. */
  function Default(elemSize: nat): (v: BigSpan)
    requires elemSize > 0
    ensures v.Valid() && v.length == 0 && v.ptr == Null && v.elemSize == elemSize
  {
    BigSpan(Null, 0, elemSize)
  }

  /** The number of `T` elements in a managed `T[]` of `a.Length` bytes. */
  function ArrayCount(a: array<byte>, elemSize: nat): (n: nat)
    requires elemSize > 0 && a.Length % elemSize == 0
    ensures n * elemSize == a.Length
  {
    a.Length / elemSize
  }

  /** `new BigSpan<T>(T[]? array)`: the whole array, or the default view for null. */
  function FromArray(arr: array?<byte>, elemSize: nat): (v: BigSpan)
    reads arr
    requires elemSize > 0
    requires arr != null ==> arr.Length % elemSize == 0 && arr.Length < TWO_64
    ensures v.Valid() && v.elemSize == elemSize
    ensures arr == null ==> v == Default(elemSize)
    ensures arr != null ==> v.ptr == Ref(arr, 0) && v.length as int == ArrayCount(arr, elemSize)
    ensures arr != null ==> v.Bytes() == arr[..]
  {
    if arr == null then Default(elemSize)
    else BigSpan(Ref(arr, 0), ArrayCount(arr, elemSize) as nuint, elemSize)
  }

  /**
    * `new BigSpan<T>(T[]? array, nuint start, nuint length)`. A null array
    * admits only `(0, 0)`. Otherwise the (wrapping) end `start + length` is
    * checked against the array, and the view begins at `(uint)start`.
    */
  function FromArrayRange(arr: array?<byte>, elemSize: nat, start: nuint, length: nuint): (r: Result<BigSpan>)
    reads arr
    requires elemSize > 0
    requires arr != null ==> arr.Length % elemSize == 0 && arr.Length < TWO_64
    ensures r.Throws? ==> r.error == ArgumentOutOfRange
    ensures arr == null ==> (r.Ok? <==> start == 0 && length == 0)
    ensures arr == null && r.Ok? ==> r.value == Default(elemSize)
    ensures arr != null ==> (r.Ok? <==> Wrap(start as int + length as int) as int <= ArrayCount(arr, elemSize))
    ensures arr != null && start as int < TWO_32 && start as int + length as int <= ArrayCount(arr, elemSize) ==>
              r.Ok? && r.value.Valid() &&
              r.value.Elements() == FromArray(arr, elemSize).Elements()[start .. start as int + length as int]
  {
    if arr == null then
      if start != 0 then Throws(ArgumentOutOfRange)
      else if length != 0 then Throws(ArgumentOutOfRange)
      else Ok(Default(elemSize))
    else if Wrap(start as int + length as int) as int > ArrayCount(arr, elemSize) then
      Throws(ArgumentOutOfRange)
    else
      var whole := FromArray(arr, elemSize);
      if start as int < TWO_32 && start as int + length as int <= ArrayCount(arr, elemSize) then
        SubRegion(whole.ptr, whole.length as int, elemSize, start as int, length as int);
        Ok(BigSpan(AddBytes(whole.ptr, Trunc32(start) as int * elemSize), length, elemSize))
      else
        Ok(BigSpan(AddBytes(whole.ptr, Trunc32(start) as int * elemSize), length, elemSize))
  }

  /**
    * `new BigSpan<T>(void* pointer, nuint length)` and the internal
    * `(ref T, nuint)` constructor: record the reference and the length without
    * any check (`length < 0` cannot hold for a `nuint`). The view is only as
    * valid as the memory the caller vouches for.
    */
  function FromPointer(pointer: Ref, length: nuint, elemSize: nat): (v: BigSpan)
    ensures v.ptr == pointer && v.length == length && v.elemSize == elemSize
    ensures v.Valid() <==> ValidRegion(pointer, length as int, elemSize)
  {
    BigSpan(pointer, length, elemSize)
  }

  /** The implicit conversion from `Span<T>`: the same memory and length. */
  function FromSpan(span: NativeSpan): (v: BigSpan)
    reads span.ptr.block
    requires span.length >= 0
    ensures span.Valid() <==> v.Valid()
    ensures v.ptr == span.ptr && v.length as int == span.length as int
    ensures span.Valid() ==> v.Elements() == span.AsRegion().Elements()
  {
    BigSpan(span.ptr, span.length as nuint, span.elemSize)
  }

  /** `this[nuint index]`: the reference to element `index`, or IndexOutOfRange. */
  function Index(v: BigSpan, index: nuint): (r: Result<Ref>)
    ensures r.Ok? <==> index < v.length
    ensures r.Throws? ==> r.error == IndexOutOfRange
    ensures r.Ok? ==> r.value == AddBytes(v.ptr, index as int * v.elemSize)
  {
    if index >= v.length then Throws(IndexOutOfRange)
    else Ok(AddBytes(v.ptr, index as int * v.elemSize))
  }

  /** The reference `this[i]` returns addresses exactly element `i` of a valid view. */
  lemma IndexIsElement(v: BigSpan, index: nuint)
    requires v.Valid() && index < v.length
    ensures Accessible(Index(v, index).value, v.elemSize)
    ensures Load(Index(v, index).value, v.elemSize) == v.Elements()[index]
  {
    ElementAt(v.ptr, v.length as int, v.elemSize, index as int);
  }

  /**
    * `this[Index index]`: `^n` becomes `Length - n` in wrapping arithmetic and
    * is then bounds-checked, so it succeeds exactly for the positions inside
    * the view.
    */
  function IndexFrom(v: BigSpan, index: SystemIndex): (r: Result<Ref>)
    requires index.Valid()
    ensures r.Ok? <==> 0 <= Position(index, v.length as int) < v.length as int
    ensures r.Throws? ==> r.error == IndexOutOfRange
    ensures r.Ok? ==> r == Index(v, Position(index, v.length as int) as nuint)
  {
    var actualIndex := index.value as nuint;
    var actualIndex' := if index.isFromEnd then Wrap(v.length as int - actualIndex as int) else actualIndex;
    Index(v, actualIndex')
  }

  /**
    * `this[Range range]` as written: the start is resolved and checked through
    * `this[start]`, but the end is resolved with the START's from-end flag and
    * `end - start` is neither checked against the view nor against the start.
    */
  function RangeAt(v: BigSpan, range: SystemRange): (r: Result<BigSpan>)
    requires range.Valid()
    ensures r.Ok? <==> 0 <= Position(range.start, v.length as int) < v.length as int
    ensures r.Throws? ==> r.error == IndexOutOfRange
    ensures r.Ok? ==>
              var start := Position(range.start, v.length as int);
              var end := Position(SystemIndex(range.end.value, range.start.isFromEnd), v.length as int);
              r.value.ptr == AddBytes(v.ptr, start * v.elemSize) && r.value.length == Wrap(end - start)
  {
    var start := Resolve(range.start, v.length);
    var endIndex := SystemIndex(range.end.value, range.start.isFromEnd);
    var end := Resolve(endIndex, v.length);
    var length := Wrap(end as int - start as int);
    match Index(v, start)
    case Ok(p) =>
      ResolvedDistance(range.start, endIndex, v.length);
      Ok(BigSpan(p, length, v.elemSize))
    case Throws(e) => Throws(e)
  }

  /** `span[..^1]` on a one-element view yields one element instead of none. */
  lemma RangeAtIgnoresEndFlag(v: BigSpan)
    requires v.length == 1
    ensures RangeAt(v, SystemRange(SystemIndex(0, false), SystemIndex(1, true))) == Ok(BigSpan(v.ptr, 1, v.elemSize))
  {
  }

  /** `span[0..5]` on a one-element view yields five elements, past the end of the view. */
  lemma RangeAtOverrunsView(v: BigSpan)
    requires v.length == 1
    ensures var r := RangeAt(v, SystemRange(SystemIndex(0, false), SystemIndex(5, false)));
            r.Ok? && r.value.length > v.length
  {
  }

  /**
    * `this[Range range]` as `System.Span<T>` defines it: both ends resolved with
    * their own flag, ArgumentOutOfRange unless `start <= end <= Length`.
    */
  function RangeChecked(v: BigSpan, range: SystemRange): (r: Result<BigSpan>)
    requires range.Valid()
    ensures var start, end := Position(range.start, v.length as int), Position(range.end, v.length as int);
            (r.Ok? <==> 0 <= start <= end <= v.length as int) &&
            (r.Ok? ==> r.value.length as int == end - start && r.value.ptr == AddBytes(v.ptr, start * v.elemSize))
    ensures r.Throws? ==> r.error == ArgumentOutOfRange
  {
    var start := Position(range.start, v.length as int);
    var end := Position(range.end, v.length as int);
    if 0 <= start <= end <= v.length as int then
      Ok(BigSpan(AddBytes(v.ptr, start * v.elemSize), (end - start) as nuint, v.elemSize))
    else
      Throws(ArgumentOutOfRange)
  }

  /** A checked range of a valid view is a valid view of exactly those elements. */
  lemma RangeCheckedContents(v: BigSpan, range: SystemRange)
    requires v.Valid() && range.Valid() && RangeChecked(v, range).Ok?
    ensures var start, end := Position(range.start, v.length as int), Position(range.end, v.length as int);
            RangeChecked(v, range).value.Valid() &&
            RangeChecked(v, range).value.Elements() == v.Elements()[start .. end]
  {
    var start, end := Position(range.start, v.length as int), Position(range.end, v.length as int);
    SubRegion(v.ptr, v.length as int, v.elemSize, start, end - start);
  }

  /** `IsEmpty`: `0 >= Length`, a full-width test. */
  function IsEmpty(v: BigSpan): (r: bool)
    ensures r <==> v.length == 0
    ensures v.Valid() ==> (r <==> v.Elements() == [])
  {
    0 >= v.length
  }

  /** `operator ==`: same length and the same first reference (not the same contents). */
  function Equal(left: BigSpan, right: BigSpan): (r: bool)
    ensures r <==> left.length == right.length && left.ptr == right.ptr
  {
    left.length == right.length && left.ptr == right.ptr
  }

  /** Views that are `==` (and of one element type) see the same elements. */
  lemma EqualViewsAlias(left: BigSpan, right: BigSpan)
    requires left.Valid() && right.Valid() && left.elemSize == right.elemSize && Equal(left, right)
    ensures left.Elements() == right.Elements()
  {
  }

  /** `GetPinnableReference()`: null for an empty view, otherwise the first element. */
  function GetPinnableReference(v: BigSpan): (r: Ref)
    ensures v.length == 0 ==> r == Null
    ensures v.length != 0 ==> r == v.ptr
    ensures v.Valid() ==> (r == Null <==> v.length == 0)
  {
    v.AsRegion().Pinnable()
  }

  /**
    * The explicit conversions to `Span<T>` and `ReadOnlySpan<T>` (and
    * `ToSpan`, `ToReadOnlySpan`): NotSupported beyond `int.MaxValue` elements.
    */
  function ToSpan(v: BigSpan): (r: Result<NativeSpan>)
    reads v.ptr.block
    ensures r.Ok? <==> v.length as int <= INT_MAX as int
    ensures r.Throws? ==> r.error == NotSupported
    ensures r.Ok? ==> r.value.ptr == v.ptr && r.value.length as int == v.length as int
    ensures r.Ok? && v.Valid() ==> r.value.Valid() && r.value.AsRegion().Elements() == v.Elements()
  {
    if v.length as int <= INT_MAX as int then Ok(NativeSpan(v.ptr, v.length as int as int32, v.elemSize))
    else Throws(NotSupported)
  }

  /**
    * `Slice(nuint start)` as written: both sides of the check and the offset
    * are truncated to 32 bits, while the new length `Length - start` wraps.
    */
  function SliceFrom(v: BigSpan, start: nuint): (r: Result<BigSpan>)
    ensures r.Ok? <==> Trunc32(start) <= Trunc32(v.length)
    ensures r.Throws? ==> r.error == ArgumentOutOfRange
    ensures r.Ok? ==> r.value.ptr == AddBytes(v.ptr, Trunc32(start) as int * v.elemSize)
    ensures r.Ok? ==> r.value.length == Wrap(v.length as int - start as int) && r.value.elemSize == v.elemSize
  {
    if Trunc32(start) > Trunc32(v.length) then Throws(ArgumentOutOfRange)
    else Ok(BigSpan(AddBytes(v.ptr, Trunc32(start) as int * v.elemSize), Wrap(v.length as int - start as int), v.elemSize))
  }

  /** Below 2^32 elements `Slice(start)` is the suffix from `start`, and fails exactly past the end. */
  lemma SliceFromContents(v: BigSpan, start: nuint)
    requires v.Valid() && v.length as int < TWO_32
    ensures SliceFrom(v, start).Ok? <==> Trunc32(start) <= v.length as uint
    ensures SliceFrom(v, start).Ok? && start <= v.length ==>
              SliceFrom(v, start).value.Valid() && SliceFrom(v, start).value.Elements() == v.Elements()[start..]
  {
    if SliceFrom(v, start).Ok? && start <= v.length {
      SubRegion(v.ptr, v.length as int, v.elemSize, start as int, v.length as int - start as int);
    }
  }

  /** `Slice(2^32)` on a five-element view passes the check and yields a view far longer than the original. */
  lemma SliceFromTruncatesStart(v: BigSpan)
    requires v.length == 5
    ensures var r := SliceFrom(v, TWO_32 as nuint);
            r.Ok? && r.value.ptr == v.ptr && r.value.length > v.length
  {
  }

  /** `Slice(nuint start)` with the full-width check the documentation describes. */
  function SliceFromChecked(v: BigSpan, start: nuint): (r: Result<BigSpan>)
    ensures r.Ok? <==> start <= v.length
    ensures r.Throws? ==> r.error == ArgumentOutOfRange
    ensures r.Ok? ==> r.value.length as int == v.length as int - start as int
  {
    if start > v.length then Throws(ArgumentOutOfRange)
    else Ok(BigSpan(AddBytes(v.ptr, start as int * v.elemSize), v.length - start, v.elemSize))
  }

  /** The checked `Slice(start)` of a valid view is a valid view of the suffix. */
  lemma SliceFromCheckedContents(v: BigSpan, start: nuint)
    requires v.Valid() && start <= v.length
    ensures SliceFromChecked(v, start).Ok?
    ensures SliceFromChecked(v, start).value.Valid()
    ensures SliceFromChecked(v, start).value.Elements() == v.Elements()[start..]
  {
    SubRegion(v.ptr, v.length as int, v.elemSize, start as int, v.length as int - start as int);
  }

  /**
    * `Slice(nuint start, nuint length)` as written: the end `start + length`
    * wraps before it is checked, and the offset uses `(uint)start`.
    */
  function Slice(v: BigSpan, start: nuint, length: nuint): (r: Result<BigSpan>)
    ensures r.Ok? <==> Wrap(start as int + length as int) <= v.length
    ensures r.Throws? ==> r.error == ArgumentOutOfRange
    ensures r.Ok? ==> r.value.ptr == AddBytes(v.ptr, Trunc32(start) as int * v.elemSize)
    ensures r.Ok? ==> r.value.length == length && r.value.elemSize == v.elemSize
  {
    if Wrap(start as int + length as int) > v.length then Throws(ArgumentOutOfRange)
    else Ok(BigSpan(AddBytes(v.ptr, Trunc32(start) as int * v.elemSize), length, v.elemSize))
  }

  /** While `start < 2^32` and the end does not wrap, `Slice` is the sub-view `[start, start + length)`. */
  lemma SliceContents(v: BigSpan, start: nuint, length: nuint)
    requires v.Valid() && start as int < TWO_32 && start as int + length as int <= v.length as int
    ensures Slice(v, start, length).Ok?
    ensures Slice(v, start, length).value.Valid()
    ensures Slice(v, start, length).value.Elements() == v.Elements()[start .. start as int + length as int]
  {
    SubRegion(v.ptr, v.length as int, v.elemSize, start as int, length as int);
  }

  /** `Slice(2^64 - 1, 1)` passes the check on any view: the end wraps to 0. */
  lemma SliceWrapsEnd(v: BigSpan)
    ensures Slice(v, NUINT_MAX, 1).Ok?
  {
  }

  /** `Slice(2^32, 1)` on a view of 2^32 + 1 elements returns element 0, not element 2^32. */
  lemma SliceTruncatesStart(v: BigSpan)
    requires v.length as int == TWO_32 + 1
    ensures var r := Slice(v, TWO_32 as nuint, 1);
            r.Ok? && r.value.ptr == v.ptr
  {
  }

  /** `Slice(nuint start, nuint length)` with an exact end and a full-width offset. */
  function SliceChecked(v: BigSpan, start: nuint, length: nuint): (r: Result<BigSpan>)
    ensures r.Ok? <==> start as int + length as int <= v.length as int
    ensures r.Throws? ==> r.error == ArgumentOutOfRange
    ensures r.Ok? ==> r.value.length == length
  {
    if start as int + length as int > v.length as int then Throws(ArgumentOutOfRange)
    else Ok(BigSpan(AddBytes(v.ptr, start as int * v.elemSize), length, v.elemSize))
  }

  /** The checked slice of a valid view is the valid sub-view `[start, start + length)`. */
  lemma SliceCheckedContents(v: BigSpan, start: nuint, length: nuint)
    requires v.Valid() && start as int + length as int <= v.length as int
    ensures SliceChecked(v, start, length).Ok?
    ensures SliceChecked(v, start, length).value.Valid()
    ensures SliceChecked(v, start, length).value.Elements() == v.Elements()[start .. start as int + length as int]
  {
    SubRegion(v.ptr, v.length as int, v.elemSize, start as int, length as int);
  }

  /**
    * `Slice(nuint start, int length)`, returning a `Span<T>`: a negative length
    * and a (wrapping) end past `Length` are ArgumentOutOfRange; the span is then
    * made from `this[start]`, which throws IndexOutOfRange for `start == Length`
    * even when `length` is 0.
    */
  function SliceToSpan(v: BigSpan, start: nuint, length: int32): (r: Result<NativeSpan>)
    ensures r.Ok? <==> length >= 0 && Wrap(start as int + length as int) <= v.length && start < v.length
    ensures r.Throws? && (length < 0 || Wrap(start as int + length as int) > v.length) ==> r.error == ArgumentOutOfRange
    ensures r.Throws? && length >= 0 && Wrap(start as int + length as int) <= v.length ==> r.error == IndexOutOfRange
    ensures r.Ok? ==> r.value.length == length
  {
    if length < 0 then Throws(ArgumentOutOfRange)
    else if Wrap(start as int + length as int) > v.length then Throws(ArgumentOutOfRange)
    else match Index(v, start)
      case Ok(p) => Ok(NativeSpan(p, length, v.elemSize))
      case Throws(e) => Throws(e)
  }

  /** When its end does not wrap, `Slice(nuint, int)` is the span of elements `[start, start + length)`. */
  lemma SliceToSpanContents(v: BigSpan, start: nuint, length: int32)
    requires v.Valid() && SliceToSpan(v, start, length).Ok? && start as int + length as int < TWO_64
    ensures SliceToSpan(v, start, length).value.Valid()
    ensures SliceToSpan(v, start, length).value.AsRegion().Elements() == v.Elements()[start .. start as int + length as int]
  {
    SubRegion(v.ptr, v.length as int, v.elemSize, start as int, length as int);
  }

  /** An empty slice at the end, `Slice(Length, 0)`, throws. */
  lemma SliceToSpanEmptyAtEnd(v: BigSpan)
    ensures SliceToSpan(v, v.length, 0) == Throws(IndexOutOfRange)
  {
  }

  /**
    * `Slice(int start, int length)`, returning a `Span<T>`: negative arguments
    * and an end past `Length` are ArgumentOutOfRange, and `this[start]` then
    * rejects `start == Length`.
    */
  function SliceIntToSpan(v: BigSpan, start: int32, length: int32): (r: Result<NativeSpan>)
    ensures r.Ok? <==> 0 <= start && 0 <= length && start as int + length as int <= v.length as int && (start as int) < v.length as int
    ensures r.Throws? && start >= 0 && length >= 0 && start as int + length as int <= v.length as int ==> r.error == IndexOutOfRange
    ensures r.Throws? && !(start >= 0 && length >= 0 && start as int + length as int <= v.length as int) ==> r.error == ArgumentOutOfRange
    ensures r.Ok? ==> r.value.length == length
  {
    if start < 0 then Throws(ArgumentOutOfRange)
    else if length < 0 then Throws(ArgumentOutOfRange)
    else if Wrap(start as int + length as int) > v.length then Throws(ArgumentOutOfRange)
    else match Index(v, start as nuint)
      case Ok(p) => Ok(NativeSpan(p, length, v.elemSize))
      case Throws(e) => Throws(e)
  }

  /** `Slice(int, int)` of a valid view is the span of elements `[start, start + length)`. */
  lemma SliceIntToSpanContents(v: BigSpan, start: int32, length: int32)
    requires v.Valid() && SliceIntToSpan(v, start, length).Ok?
    ensures SliceIntToSpan(v, start, length).value.Valid()
    ensures SliceIntToSpan(v, start, length).value.AsRegion().Elements() == v.Elements()[start .. start as int + length as int]
  {
    SubRegion(v.ptr, v.length as int, v.elemSize, start as int, length as int);
  }

  /** `AsBytes()`: the same memory as a view of `Length * sizeof(T)` bytes. */
  function AsBytes(v: BigSpan): (r: BigSpan)
    reads v.ptr.block
    ensures r.ptr == v.ptr && r.elemSize == 1
    ensures v.Valid() ==> r.Valid() && r.length as int == v.length as int * v.elemSize && r.Bytes() == v.Bytes()
  {
    BigSpan(v.ptr, Wrap(v.length as int * v.elemSize), 1)
  }

  /** `CastAs<T2>()`: the same memory as `Length * sizeof(T) / sizeof(T2)` elements of `T2`. */
  function CastAs(v: BigSpan, size2: nat): (r: BigSpan)
    reads v.ptr.block
    requires size2 > 0
    ensures r.ptr == v.ptr && r.elemSize == size2
    ensures v.Valid() ==> r.Valid() && r.length as int == v.length as int * v.elemSize / size2
    ensures v.Valid() ==> r.length as int * size2 <= |v.Bytes()| && r.Bytes() == v.Bytes()[.. r.length as int * size2]
  {
    var bytes := Wrap(v.length as int * v.elemSize) as int;
    DivModUnique(bytes, size2, bytes / size2, bytes % size2);
    var r := BigSpan(v.ptr, (bytes / size2) as nuint, size2);
    if v.Valid() then
      CastAsValid(v, size2, r);
      r
    else
      r
  }

  /** A view of the whole elements of `size2` bytes over a valid view's bytes is valid and holds their prefix. */
  lemma CastAsValid(v: BigSpan, size2: nat, r: BigSpan)
    requires v.Valid() && size2 > 0
    requires r.ptr == v.ptr && r.elemSize == size2
    requires r.length as int == Wrap(v.length as int * v.elemSize) as int / size2
    ensures r.length as int == v.length as int * v.elemSize / size2
    ensures r.Valid() && r.length as int * size2 <= |v.Bytes()| && r.Bytes() == v.Bytes()[.. r.length as int * size2]
  {
    var bytes := v.length as int * v.elemSize;
    assert Wrap(bytes) as int == bytes;
    Reinterpret(v.ptr, bytes, size2);
    assert v.Bytes() == Load(v.ptr, bytes);
  }

  /** The bytes of a region seen as whole elements of `size2` bytes: a valid region over a prefix. */
  lemma Reinterpret(ptr: Ref, bytes: nat, size2: nat)
    requires Accessible(ptr, bytes) && bytes < TWO_64 && size2 > 0
    ensures bytes / size2 * size2 <= bytes
    ensures ValidRegion(ptr, bytes / size2, size2)
    ensures RegionBytes(ptr, bytes / size2, size2) == Load(ptr, bytes)[.. bytes / size2 * size2]
  {
    var q := bytes / size2;
    assert q * size2 + bytes % size2 == bytes;
    var n := q * size2;
    assert n <= bytes;
    if n > 0 {
      assert Load(ptr, n) == Load(ptr, bytes)[..n];
    }
  }

  /**
    * `CompareMemory(other, nuint length)` as written: `length` is checked
    * against both views' ELEMENT counts but handed to memcmp as a BYTE count.
    */
  function CompareMemoryPrefix(v: BigSpan, other: Region, length: nuint): (r: Result<int>)
    reads v.ptr.block, other.ptr.block
    requires v.Valid() && other.Valid() && other.elemSize == v.elemSize
    ensures r.Ok? <==> length <= v.length && length as int <= other.length
    ensures r.Throws? ==> r.error == ArgumentOutOfRange
    ensures r.Ok? ==> length as int <= |v.Bytes()| && length as int <= |other.Bytes()|
                      && r.value == Memcmp(v.Bytes()[..length], other.Bytes()[..length])
  {
    if length > v.length || length as int > other.length then Throws(ArgumentOutOfRange)
    else
      PrefixBytes(v.AsRegion(), length as int);
      PrefixBytes(other, length as int);
      Ok(CompareBytes(v.AsRegion().Pinnable(), other.Pinnable(), length as int))
  }

  /** Two views of 4-byte elements that differ in their first element compare equal over "1 element". */
  lemma CompareMemoryPrefixCountsBytes(v: BigSpan, other: Region)
    requires v.Valid() && other.Valid() && v.elemSize == other.elemSize == 4
    requires v.length == 1 && other.length == 1
    requires v.Bytes() == [7, 0, 0, 0] && other.Bytes() == [7, 0, 0, 1]
    ensures v.Elements()[0] != other.Elements()[0]
    ensures CompareMemoryPrefix(v, other, 1) == Ok(0)
  {
    assert v.Bytes()[..1] == [7] == other.Bytes()[..1];
    assert v.Elements()[0] == v.Bytes()[0..4] == [7, 0, 0, 0];
    assert other.Elements()[0] == other.Bytes()[0..4] == [7, 0, 0, 1];
    assert v.Elements()[0][3] != other.Elements()[0][3];
  }

  /** `CompareMemory(other, nuint length)` comparing `length` ELEMENTS, as its name promises. */
  function CompareMemoryPrefixChecked(v: BigSpan, other: Region, length: nuint): (r: Result<int>)
    reads v.ptr.block, other.ptr.block
    requires v.Valid() && other.Valid() && other.elemSize == v.elemSize
    ensures r.Ok? <==> length <= v.length && length as int <= other.length
    ensures r.Throws? ==> r.error == ArgumentOutOfRange
    ensures r.Ok? ==> (r.value == 0 <==> v.Elements()[..length] == other.Elements()[..length])
  {
    if length > v.length || length as int > other.length then Throws(ArgumentOutOfRange)
    else
      var n := length as int * v.elemSize;
      var mine := Region(v.ptr, length as int, v.elemSize);
      var theirs := Region(other.ptr, length as int, v.elemSize);
      SubRegion(v.ptr, v.length as int, v.elemSize, 0, length as int);
      SubRegion(other.ptr, other.length, v.elemSize, 0, length as int);
      ChunksInjective(mine.Bytes(), theirs.Bytes(), length as int, v.elemSize);
      assert Load(mine.Pinnable(), n) == mine.Bytes();
      assert Load(theirs.Pinnable(), n) == theirs.Bytes();
      Ok(CompareBytes(mine.Pinnable(), theirs.Pinnable(), n))
  }

  /**
    * `CompareMemory(other)` against a BigSpan, ReadOnlyBigSpan, Span or
    * ReadOnlySpan: the lexicographic order of the two byte strings, a shorter
    * common prefix first.
    */
  function CompareMemory(v: BigSpan, other: Region): (r: int)
    reads v.ptr.block, other.ptr.block
    requires v.Valid() && other.Valid() && other.elemSize == v.elemSize
    ensures r == Lexicographic(v.Bytes(), other.Bytes())
    ensures r == 0 <==> v.Elements() == other.Elements()
  {
    SameElementsSameBytes(v.AsRegion(), other);
    CompareMemoryOf(v.AsRegion(), other)
  }

  /** Comparing in the other direction negates the result. */
  lemma CompareMemoryAntisymmetric(a: BigSpan, b: BigSpan)
    requires a.Valid() && b.Valid() && a.elemSize == b.elemSize
    ensures CompareMemory(a, b.AsRegion()) == -CompareMemory(b, a.AsRegion())
  {
    LexicographicAntisymmetric(a.Bytes(), b.Bytes());
  }

  /** `count` zero bytes: the bytes of an element that `Clear` resets. */
  function Zeros(count: nat): (z: seq<byte>)
    ensures |z| == count && forall k :: 0 <= k < count ==> z[k] == 0
  {
    seq(count, k => 0 as byte)
  }

  /**
    * The bytes of a view after a call that set its first `m * size` bytes to
    * copies of `value` and left the others as they were `before`: the first
    * `m` elements are `value` and the others are unchanged.
    */
  lemma WrotePrefix(after: seq<byte>, before: seq<byte>, n: nat, size: nat, m: nat, value: seq<byte>)
    requires |after| == |before| == n * size && m <= n && |value| == size > 0
    requires forall k :: 0 <= k < |after| && k < m * size ==> after[k] == value[k % size]
    requires forall k :: m * size <= k < |after| ==> after[k] == before[k]
    ensures forall i :: 0 <= i < m ==> Chunks(after, n, size)[i] == value
    ensures Chunks(after, n, size)[m..] == Chunks(before, n, size)[m..]
  {
    ElementsSplit(after, n, size, m);
    ElementsSplit(before, n, size, m);
    var p := after[..m * size];
    ChunksRepeat(p, m, size, value);
    assert after[m * size..] == before[m * size..];
  }

  /**
    * The number of elements `Clear` and `Fill` reach: `(uint)_length`, the
    * length truncated to its low 32 bits.
    */
  function TouchedCount(v: BigSpan): (n: nat)
    ensures n <= v.length as int
    ensures v.length as int < TWO_32 ==> n == v.length as int
    ensures (v.length as int - n) % TWO_32 == 0
  {
    Trunc32(v.length) as nat
  }

  /** A view of 2^32 + 3 elements: `Clear` and `Fill` reach only its first 3. */
  lemma TouchedCountTruncates(v: BigSpan)
    requires v.length as int == TWO_32 + 3
    ensures TouchedCount(v) == 3
  {
  }

  /**
    * Resets the first `count` elements through the block-clearing helpers:
    * `ClearWithReferences` over whole pointer-sized words when the element
    * type holds references (its size is then a multiple of the pointer size),
    * `ClearWithoutReferences` over the bytes otherwise.
    */
  method ClearElements(v: BigSpan, count: nuint, containsReferences: bool)
    requires v.Valid() && count <= v.length
    requires containsReferences ==> v.elemSize % 8 == 0
    modifies v.ptr.block
    ensures forall i :: 0 <= i < count as int ==> v.Elements()[i] == Zeros(v.elemSize)
    ensures v.Elements()[count..] == old(v.Elements())[count..]
    ensures OnlyWrote(v.ptr, count as int * v.elemSize)
  {
    var size := v.elemSize;
    MulMonotone(count as int, v.length as int, size);
    var bytes := count as int * size;
    ghost var before := v.Bytes();
    if containsReferences {
      var words := count as int * (size / 8);
      assert words * 8 == bytes;
      BlockClear.ClearWithReferences(v.ptr, words as nuint);
    } else {
      BlockClear.ClearWithoutReferences(v.ptr, bytes as nuint, BlockClear.Bits64);
    }
    ghost var after := v.Bytes();
    forall k | 0 <= k < |after| && k < bytes
      ensures after[k] == Zeros(size)[k % size]
    {
      assert after[k] == v.ptr.block[v.ptr.offset + k];
    }
    forall k | bytes <= k < |after|
      ensures after[k] == before[k]
    {
      assert after[k] == v.ptr.block[v.ptr.offset + k];
    }
    WrotePrefix(after, before, v.length as int, size, count as int, Zeros(size));
  }

  /**
    * `Clear()` as written: the element count is `(uint)_length`, so only the
    * first `TouchedCount(v)` elements are reset and the rest are left alone.
    */
  method Clear(v: BigSpan, containsReferences: bool)
    requires v.Valid()
    requires containsReferences ==> v.elemSize % 8 == 0
    modifies v.ptr.block
    ensures forall i :: 0 <= i < TouchedCount(v) ==> v.Elements()[i] == Zeros(v.elemSize)
    ensures v.Elements()[TouchedCount(v)..] == old(v.Elements())[TouchedCount(v)..]
    ensures OnlyWrote(v.ptr, TouchedCount(v) * v.elemSize)
  {
    ClearElements(v, Trunc32(v.length) as nuint, containsReferences);
  }

  /** `Clear()` over the whole length: every element is reset. */
  method ClearAll(v: BigSpan, containsReferences: bool)
    requires v.Valid()
    requires containsReferences ==> v.elemSize % 8 == 0
    modifies v.ptr.block
    ensures forall i :: 0 <= i < v.length as int ==> v.Elements()[i] == Zeros(v.elemSize)
    ensures OnlyWrote(v.ptr, v.length as int * v.elemSize)
  {
    ClearElements(v, v.length, containsReferences);
  }

  /**
    * Sets the first `count` elements to `value`: one block initialisation when
    * elements are single bytes (skipped for an empty view), the general
    * `BigSpanHelpers.Fill` otherwise.
    */
  method FillElements(v: BigSpan, count: nuint, value: seq<byte>, containsReferences: bool, w: BlockFill.Vectors)
    requires v.Valid() && count <= v.length && |value| == v.elemSize <= INT_MAX as int && w.Valid()
    modifies v.ptr.block
    ensures forall i :: 0 <= i < count as int ==> v.Elements()[i] == value
    ensures v.Elements()[count..] == old(v.Elements())[count..]
    ensures OnlyWrote(v.ptr, count as int * v.elemSize)
  {
    var size := v.elemSize;
    MulMonotone(count as int, v.length as int, size);
    var bytes := count as int * size;
    ghost var before := v.Bytes();
    StoreElements(v, count, value, containsReferences, w);
    PatternedBytes(v, bytes, value);
    ghost var after := v.Bytes();
    forall k | bytes <= k < |after|
      ensures after[k] == before[k]
    {
      assert after[k] == v.ptr.block[v.ptr.offset + k];
    }
    WrotePrefix(after, before, v.length as int, size, count as int, value);
  }

  /**
    * The stores of `FillElements`: one block initialisation when elements are
    * single bytes (skipped for an empty view), the general
    * `BigSpanHelpers.Fill` otherwise. Either way the first `count` elements'
    * bytes repeat `value` and nothing else is written.
    */
  method StoreElements(v: BigSpan, count: nuint, value: seq<byte>, containsReferences: bool, w: BlockFill.Vectors)
    requires v.Valid() && count <= v.length && |value| == v.elemSize <= INT_MAX as int && w.Valid()
    modifies v.ptr.block
    ensures count as int * v.elemSize <= |v.Bytes()|
    ensures BlockFill.Patterned(v.ptr, 0, count as int * v.elemSize, value)
    ensures OnlyWrote(v.ptr, count as int * v.elemSize)
  {
    MulMonotone(count as int, v.length as int, v.elemSize);
    if v.elemSize == 1 {
      if v.length != 0 {
        InitBlock(v.ptr, value[0], count as int);
      }
      assert BlockFill.Patterned(v.ptr, 0, count as int, value);
    } else {
      BlockFill.Fill(v.ptr, count, value, containsReferences, w);
    }
  }

  /** A view whose first `bytes` bytes repeat `value` holds `value[k % size]` at each byte `k` below `bytes`. */
  lemma PatternedBytes(v: BigSpan, bytes: nat, value: seq<byte>)
    requires v.Valid() && |value| == v.elemSize > 0 && bytes <= |v.Bytes()|
    requires BlockFill.Patterned(v.ptr, 0, bytes, value)
    ensures forall k :: 0 <= k < bytes ==> v.Bytes()[k] == value[k % |value|]
  {
    forall k | 0 <= k < bytes
      ensures v.Bytes()[k] == value[k % |value|]
    {
      assert v.Bytes()[k] == v.ptr.block[v.ptr.offset + k];
    }
  }

  /**
    * `Fill(T value)` as written: the count is `(uint)_length`, so only the
    * first `TouchedCount(v)` elements take the value.
    */
  method Fill(v: BigSpan, value: seq<byte>, containsReferences: bool, w: BlockFill.Vectors)
    requires v.Valid() && |value| == v.elemSize <= INT_MAX as int && w.Valid()
    modifies v.ptr.block
    ensures forall i :: 0 <= i < TouchedCount(v) ==> v.Elements()[i] == value
    ensures v.Elements()[TouchedCount(v)..] == old(v.Elements())[TouchedCount(v)..]
    ensures OnlyWrote(v.ptr, TouchedCount(v) * v.elemSize)
  {
    FillElements(v, Trunc32(v.length) as nuint, value, containsReferences, w);
  }

  /** `Fill(T value)` over the whole length: every element takes the value. */
  method FillAll(v: BigSpan, value: seq<byte>, containsReferences: bool, w: BlockFill.Vectors)
    requires v.Valid() && |value| == v.elemSize <= INT_MAX as int && w.Valid()
    modifies v.ptr.block
    ensures forall i :: 0 <= i < v.length as int ==> v.Elements()[i] == value
    ensures OnlyWrote(v.ptr, v.length as int * v.elemSize)
  {
    FillElements(v, v.length, value, containsReferences, w);
  }

  /**
    * The copy both `CopyTo` and `TryCopyTo` end in once the length check has
    * passed: memmove of the source's bytes to the start of the destination,
    * skipped when there is nothing to copy.
    */
  method CopyElements(src: Region, dst: BigSpan)
    requires src.Valid() && dst.Valid() && src.elemSize == dst.elemSize && src.length <= dst.length as int
    modifies dst.ptr.block
    ensures dst.Elements()[..src.length] == old(src.Elements())
    ensures dst.Elements()[src.length..] == old(dst.Elements())[src.length..]
    ensures OnlyWrote(dst.ptr, src.length * src.elemSize)
  {
    var size := src.elemSize;
    MulMonotone(src.length, dst.length as int, size);
    var length := src.length * size;
    if length == 0 {
      assert src.Elements() == [];
      return;
    }
    ghost var before := dst.Bytes();
    Copy(dst.AsRegion().Pinnable(), src.Pinnable(), length);
    var b := dst.Bytes();
    ElementsSplit(b, dst.length as int, size, src.length);
    ElementsSplit(before, dst.length as int, size, src.length);
    assert b[..length] == old(src.Bytes()) by {
      assert Load(dst.ptr, length) == b[..length];
      assert old(Load(src.ptr, length)) == old(src.Bytes());
    }
    assert b[length..] == before[length..] by {
      forall k | length <= k < |b|
        ensures b[k] == before[k]
      {
        assert b[k] == dst.ptr.block[dst.ptr.offset + k];
        assert before[k] == old(dst.ptr.block[dst.ptr.offset + k]);
      }
    }
  }

  /**
    * `CopyTo(BigSpan<T> destination)`: ArgumentException, with nothing written,
    * when the source's `Length * sizeof(T)` bytes exceed the destination's;
    * otherwise the destination starts with the source's old elements, as if
    * copied through a temporary buffer, and keeps the rest of its elements.
    */
  method CopyTo(src: BigSpan, dst: BigSpan) returns (r: Outcome)
    requires src.Valid() && dst.Valid() && src.elemSize == dst.elemSize
    modifies dst.ptr.block
    ensures r.Failed? <==> src.length > dst.length
    ensures r.Failed? ==> r.error == Argument
    ensures OnlyWrote(dst.ptr, if r.Failed? then 0 else src.length as int * src.elemSize)
    ensures r.Done? ==> dst.Elements()[..src.length] == old(src.Elements())
    ensures r.Done? ==> dst.Elements()[src.length..] == old(dst.Elements())[src.length..]
  {
    if !FitsIn(src.length, dst.length, src.elemSize) {
      return Failed(Argument);
    }
    CopyElements(src.AsRegion(), dst);
    return Done;
  }

  /**
    * `TryCopyTo(BigSpan<T> destination)`: false, with nothing written, when
    * the destination is shorter; otherwise true with exactly `CopyTo`'s effect
    * (an empty source is a no-op that returns true).
    */
  method TryCopyTo(src: BigSpan, dst: BigSpan) returns (copied: bool)
    requires src.Valid() && dst.Valid() && src.elemSize == dst.elemSize
    modifies dst.ptr.block
    ensures copied <==> src.length <= dst.length
    ensures OnlyWrote(dst.ptr, if copied then src.length as int * src.elemSize else 0)
    ensures copied ==> dst.Elements()[..src.length] == old(src.Elements())
    ensures copied ==> dst.Elements()[src.length..] == old(dst.Elements())[src.length..]
  {
    if !FitsIn(src.length, dst.length, src.elemSize) {
      return false;
    }
    CopyElements(src.AsRegion(), dst);
    return true;
  }

  /**
    * The length check of `CopyTo` and `TryCopyTo`: `srcLen <= dstLen` over the
    * byte lengths `_length * sizeof(T)` in `nuint` arithmetic, which is
    * exactly the element-count comparison for valid views.
    */
  function FitsIn(srcLength: nuint, dstLength: nuint, size: nat): (r: bool)
    requires size > 0 && srcLength as int * size < TWO_64 && dstLength as int * size < TWO_64
    ensures r <==> srcLength <= dstLength
  {
    MulStrictMonotone(dstLength as int, srcLength as int, size);
    var srcLen := Wrap(srcLength as int * size);
    var dstLen := Wrap(dstLength as int * size);
    !(srcLen > dstLen)
  }

  /**
    * `ToArray()`: a fresh array holding the view's elements (an empty one for
    * an empty view), filled through `CopyTo`.
    */
  method ToArray(v: BigSpan) returns (a: array<byte>)
    requires v.Valid()
    ensures fresh(a)
    ensures a.Length == v.length as int * v.elemSize
    ensures a[..] == v.Bytes()
  {
    var size := v.elemSize;
    DivModUnique(v.length as int * size, size, v.length as int, 0);
    if v.length == 0 {
      a := new byte[0];
      return;
    }
    a := new byte[v.length as int * size];
    var destination := FromArray(a, size);
    CopyElements(v.AsRegion(), destination);
    assert destination.Elements() == destination.Elements()[..v.length] == v.Elements();
    ChunksInjective(destination.Bytes(), v.Bytes(), v.length as int, size);
  }
}
