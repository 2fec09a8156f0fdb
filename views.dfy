// What the view types have in common: a region of `length` elements of
// `size` bytes at a reference, its contents, and the `Span<T>` and
// `System.Index` / `System.Range` values the views exchange with .NET.
module Views {
  import opened NativeInts
  import opened Memory
  import NetStandard2Compatibility

  /**
    * `length` elements of `size` bytes at `ptr` are addressable memory. A
    * region is at most 2^64 bytes, and an empty one may sit anywhere, even
    * at the null reference.
    */
  predicate ValidRegion(ptr: Ref, length: nat, size: nat)
  {
    size > 0 && length * size < TWO_64 && Accessible(ptr, length * size)
  }

  /** `b`, of `n * size` bytes, cut into its `n` elements of `size` bytes. */
  function Chunks(b: seq<byte>, n: nat, size: nat): (es: seq<seq<byte>>)
    requires |b| == n * size
    ensures |es| == n
  {
    seq(n, i requires 0 <= i < n => ChunkBounds(i, n, size); b[i * size .. i * size + size])
  }

  /** Element `i` of `n` ends inside the `n * size` bytes. */
  lemma ChunkBounds(i: nat, n: nat, size: nat)
    requires i < n
    ensures 0 <= i * size && i * size + size <= n * size
  {
    MulAtLeast(n - i, size);
    assert (n - i) * size == n * size - i * size;
  }

  /** Elements `[s, e)` of a byte string are the elements of its bytes `[s * size, e * size)`. */
  lemma {:induction false} ChunksRange(b: seq<byte>, n: nat, size: nat, s: nat, e: nat)
    requires |b| == n * size && s <= e <= n
    ensures 0 <= s * size <= e * size <= |b|
    ensures Chunks(b[s * size .. e * size], e - s, size) == Chunks(b, n, size)[s .. e]
  {
    MulMonotone(s, e, size);
    MulMonotone(e, n, size);
    assert (e - s) * size == e * size - s * size;
    var cs, cb := Chunks(b[s * size .. e * size], e - s, size), Chunks(b, n, size);
    forall j | 0 <= j < e - s
      ensures cs[j] == cb[s + j]
    {
      ChunkOfRange(b, n, size, s, e, j);
    }
  }

  /** Element `j` of the bytes `[s * size, e * size)` is element `s + j` of the whole. */
  lemma ChunkOfRange(b: seq<byte>, n: nat, size: nat, s: nat, e: nat, j: nat)
    requires |b| == n * size && s <= e <= n && j < e - s
    requires 0 <= s * size <= e * size <= |b| && (e - s) * size == e * size - s * size
    ensures Chunks(b[s * size .. e * size], e - s, size)[j] == Chunks(b, n, size)[s + j]
  {
    var sub := b[s * size .. e * size];
    ChunkBounds(j, e - s, size);
    ChunkBounds(s + j, n, size);
    assert (s + j) * size == s * size + j * size;
    assert Chunks(sub, e - s, size)[j] == sub[j * size .. j * size + size];
    assert Chunks(b, n, size)[s + j] == b[(s + j) * size .. (s + j) * size + size];
    assert sub[j * size .. j * size + size] == b[s * size + j * size .. s * size + j * size + size];
  }

  /** Equal byte strings have equal elements, and conversely. */
  lemma {:induction false} ChunksInjective(b: seq<byte>, c: seq<byte>, n: nat, size: nat)
    requires |b| == n * size && |c| == n * size
    ensures Chunks(b, n, size) == Chunks(c, n, size) <==> b == c
  {
    if Chunks(b, n, size) == Chunks(c, n, size) {
      forall k | 0 <= k < |b|
        ensures b[k] == c[k]
      {
        ChunkByte(b, n, size, k);
        ChunkByte(c, n, size, k);
      }
    }
  }

  /** Byte `k` of `b` is byte `k % size` of element `k / size`. */
  lemma ChunkByte(b: seq<byte>, n: nat, size: nat, k: nat)
    requires |b| == n * size && k < |b|
    ensures size > 0 && k / size < n && k % size < |Chunks(b, n, size)[k / size]|
            && Chunks(b, n, size)[k / size][k % size] == b[k]
  {
    var i, j := k / size, k % size;
    assert k == i * size + j;
    if i >= n {
      MulMonotone(n, i, size);
    }
    ChunkBounds(i, n, size);
    var e := b[i * size .. i * size + size];
    assert Chunks(b, n, size)[i] == e;
    assert e[j] == b[i * size + j];
  }

  /** The first `m` elements are the elements of the first `m * size` bytes, and the rest those of the rest. */
  lemma ElementsSplit(b: seq<byte>, n: nat, size: nat, m: nat)
    requires |b| == n * size && m <= n
    ensures m * size <= |b|
    ensures Chunks(b, n, size)[..m] == Chunks(b[..m * size], m, size)
    ensures Chunks(b, n, size)[m..] == Chunks(b[m * size..], n - m, size)
  {
    ChunksRange(b, n, size, 0, m);
    ChunksRange(b, n, size, m, n);
    assert b[0 * size .. m * size] == b[..m * size];
    assert b[m * size .. n * size] == b[m * size..];
  }

  /**
    * Every element of `b` is `value` exactly when every byte `k` of `b` is
    * byte `k mod size` of `value`: the byte picture of a filled region.
    */
  lemma ChunksRepeat(b: seq<byte>, n: nat, size: nat, value: seq<byte>)
    requires |b| == n * size && |value| == size
    ensures (forall i :: 0 <= i < n ==> Chunks(b, n, size)[i] == value)
        <==> (forall k :: 0 <= k < |b| ==> size > 0 && b[k] == value[k % size])
  {
    var es := Chunks(b, n, size);
    if forall i :: 0 <= i < n ==> es[i] == value {
      forall k | 0 <= k < |b|
        ensures size > 0 && b[k] == value[k % size]
      {
        ChunkByte(b, n, size, k);
      }
    }
    if forall k :: 0 <= k < |b| ==> size > 0 && b[k] == value[k % size] {
      forall i | 0 <= i < n
        ensures es[i] == value
      {
        ChunkBounds(i, n, size);
        forall j | 0 <= j < size
          ensures es[i][j] == value[j]
        {
          DivModUnique(i * size + j, size, i, j);
        }
      }
    }
  }

  /** The bytes of a valid region. */
  function RegionBytes(ptr: Ref, length: nat, size: nat): (b: seq<byte>)
    reads ptr.block
    requires ValidRegion(ptr, length, size)
    ensures |b| == length * size
  {
    Load(ptr, length * size)
  }

  /** The elements of a valid region. */
  function RegionElements(ptr: Ref, length: nat, size: nat): (es: seq<seq<byte>>)
    reads ptr.block
    requires ValidRegion(ptr, length, size)
    ensures |es| == length
  {
    Chunks(RegionBytes(ptr, length, size), length, size)
  }

  /** Element `i` of a region is the `size` bytes at byte offset `i * size`. */
  lemma ElementAt(ptr: Ref, length: nat, size: nat, i: nat)
    requires ValidRegion(ptr, length, size) && i < length
    ensures Accessible(AddBytes(ptr, i * size), size)
    ensures RegionElements(ptr, length, size)[i] == Load(AddBytes(ptr, i * size), size)
  {
    ChunkBounds(i, length, size);
  }

  /** A sub-region `[s, s + l)` of a valid region is valid and holds the elements `[s, s + l)`. */
  lemma SubRegion(ptr: Ref, length: nat, size: nat, s: nat, l: nat)
    requires ValidRegion(ptr, length, size) && s + l <= length
    ensures ValidRegion(AddBytes(ptr, s * size), l, size)
    ensures RegionElements(AddBytes(ptr, s * size), l, size) == RegionElements(ptr, length, size)[s .. s + l]
  {
    var b := RegionBytes(ptr, length, size);
    ChunksRange(b, length, size, s, s + l);
    assert (s + l) * size == s * size + l * size;
    MulMonotone(l, length, size);
    if l > 0 {
      assert RegionBytes(AddBytes(ptr, s * size), l, size) == b[s * size .. (s + l) * size];
    } else {
      assert RegionBytes(AddBytes(ptr, s * size), l, size) == [] == b[s * size .. (s + l) * size];
    }
  }

  /**
    * A view reduced to what its memory operations use: where it starts, how
    * many elements it has and how large each one is.
    */
  datatype Region = Region(ptr: Ref, length: nat, elemSize: nat)
  {
    predicate Valid()
    {
      ValidRegion(ptr, length, elemSize)
    }

    function Bytes(): (b: seq<byte>)
      reads ptr.block
      requires Valid()
      ensures |b| == length * elemSize
    {
      RegionBytes(ptr, length, elemSize)
    }

    function Elements(): (es: seq<seq<byte>>)
      reads ptr.block
      requires Valid()
      ensures |es| == length
    {
      RegionElements(ptr, length, elemSize)
    }

    /** `GetPinnableReference()` / `GetUnsafePointer()`: the null reference for an empty view. */
    function Pinnable(): (r: Ref)
      ensures length == 0 ==> r == Null
      ensures length != 0 ==> r == ptr
      ensures Valid() ==> (r == Null <==> length == 0)
    {
      if length != 0 then ptr else Null
    }
  }

  /** `Span<T>` / `ReadOnlySpan<T>`: a reference and a non-negative `int` length. */
  datatype NativeSpan = NativeSpan(ptr: Ref, length: int32, elemSize: nat)
  {
    predicate Valid()
    {
      length >= 0 && ValidRegion(ptr, length as int, elemSize)
    }

    function AsRegion(): (g: Region)
      requires length >= 0
      ensures Valid() <==> g.Valid()
      ensures g.ptr == ptr && g.length == length as int && g.elemSize == elemSize
    {
      Region(ptr, length as int, elemSize)
    }
  }

  /** The element count of `n * size` bytes: the bytes compare in the order the elements do. */
  lemma MulStrictMonotone(a: nat, b: nat, size: nat)
    requires size > 0
    ensures a < b <==> a * size < b * size
  {
    if a < b {
      MulAtLeast(b - a, size);
      assert b * size - a * size == (b - a) * size;
    } else {
      MulMonotone(b, a, size);
    }
  }

  /**
    * The body shared by every `CompareMemory(other)` overload of both view
    * types: compare the lengths; memcmp all bytes when they are equal,
    * otherwise memcmp the common prefix and fall back on the length order.
    */
  function CompareMemoryOf(a: Region, b: Region): (r: int)
    reads a.ptr.block, b.ptr.block
    requires a.Valid() && b.Valid() && a.elemSize == b.elemSize
    ensures r == Lexicographic(a.Bytes(), b.Bytes())
  {
    var size := a.elemSize;
    var lengthComparison := NetStandard2Compatibility.CompareTo(a.length as nuint, b.length);
    if lengthComparison == 0 then
      CommonPrefix(a, b, a.length);
      CompareBytes(a.Pinnable(), b.Pinnable(), Wrap(a.length * size) as nat)
    else
      var m := Min(a.length as nuint, b.length as nuint) as nat;
      CommonPrefix(a, b, m);
      var result := CompareBytes(a.Pinnable(), b.Pinnable(), Wrap(m * size) as nat);
      if result == 0 then lengthComparison else result
  }

  /** memcmp over the first `m` elements of two views, for `m` the shorter length. */
  lemma CommonPrefix(a: Region, b: Region, m: nat)
    requires a.Valid() && b.Valid() && a.elemSize == b.elemSize
    requires m <= a.length && m <= b.length && (m == a.length || m == b.length)
    ensures Wrap(m * a.elemSize) as nat == m * a.elemSize
    ensures Accessible(a.Pinnable(), m * a.elemSize) && Accessible(b.Pinnable(), m * a.elemSize)
    ensures var c := CompareBytes(a.Pinnable(), b.Pinnable(), m * a.elemSize);
            (if c == 0 then Sign(a.length - b.length) else c) == Lexicographic(a.Bytes(), b.Bytes())
  {
    var size := a.elemSize;
    var length := m * size;
    MulMonotone(m, a.length, size);
    MulMonotone(m, b.length, size);
    MulStrictMonotone(a.length, b.length, size);
    MulStrictMonotone(b.length, a.length, size);
    PrefixThenLength(a.Bytes(), b.Bytes(), length);
    assert Load(a.Pinnable(), length) == a.Bytes()[..length];
    assert Load(b.Pinnable(), length) == b.Bytes()[..length];
  }

  /** Two regions of one element size hold the same elements exactly when they hold the same bytes. */
  lemma SameElementsSameBytes(a: Region, b: Region)
    requires a.Valid() && b.Valid() && a.elemSize == b.elemSize
    ensures a.Elements() == b.Elements() <==> a.Bytes() == b.Bytes()
  {
    if a.length == b.length {
      ChunksInjective(a.Bytes(), b.Bytes(), a.length, a.elemSize);
    } else {
      MulStrictMonotone(a.length, b.length, a.elemSize);
      MulStrictMonotone(b.length, a.length, a.elemSize);
      assert |a.Elements()| != |b.Elements()|;
    }
  }

  /** The first `n` bytes of a valid region of at least `n` elements, read through its pinnable reference. */
  lemma PrefixBytes(g: Region, n: nat)
    requires g.Valid() && n <= g.length
    ensures n <= g.length * g.elemSize
    ensures Accessible(g.Pinnable(), n)
    ensures Load(g.Pinnable(), n) == g.Bytes()[..n]
  {
    MulAtLeast(g.elemSize, g.length);
    if n > 0 {
      assert Load(g.Pinnable(), n) == g.Bytes()[..n];
    }
  }

  /** `System.Index`: a non-negative position counted from the start or from the end (`^n`). */
  datatype SystemIndex = SystemIndex(value: int32, isFromEnd: bool)
  {
    predicate Valid()
    {
      value >= 0
    }
  }

  /** `System.Range`: `start..end`. */
  datatype SystemRange = SystemRange(start: SystemIndex, end: SystemIndex)
  {
    predicate Valid()
    {
      start.Valid() && end.Valid()
    }
  }

  /**
    * `index.IsFromEnd ? length - (nuint)index.Value : (nuint)index.Value`:
    * the position in wrapping `nuint` arithmetic, which is the exact position
    * when that is not negative and otherwise lies at or beyond `length`.
    */
  function Resolve(index: SystemIndex, length: nuint): (r: nuint)
    requires index.Valid()
    ensures Position(index, length as int) >= 0 ==> r as int == Position(index, length as int)
    ensures Position(index, length as int) < 0 ==> r as int == Position(index, length as int) + TWO_64 && r >= length
  {
    if index.isFromEnd then Wrap(length as int - index.value as int) else index.value as nuint
  }

  /** The wrapping distance between two resolved indices is the exact distance, wrapped. */
  lemma ResolvedDistance(start: SystemIndex, end: SystemIndex, length: nuint)
    requires start.Valid() && end.Valid() && Position(start, length as int) >= 0
    ensures Wrap(Resolve(end, length) as int - Resolve(start, length) as int)
         == Wrap(Position(end, length as int) - Position(start, length as int))
  {
    if Position(end, length as int) < 0 {
      WrapShift(Position(end, length as int) - Position(start, length as int), 1);
    }
  }

  /** The position an index denotes in a sequence of `length` elements, in exact arithmetic. */
  function Position(index: SystemIndex, length: nat): (p: int)
    ensures !index.isFromEnd ==> p == index.value as int
    ensures index.isFromEnd ==> p + index.value as int == length
  {
    if index.isFromEnd then length - index.value as int else index.value as int
  }
}
