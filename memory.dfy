// Raw memory as the library sees it through `ref T` and `void*`: blocks of
// bytes addressed by a reference and a byte offset, and the three runtime
// primitives it calls (memmove, memcmp and block initialisation).
module Memory {
  import opened NativeInts

  newtype byte = b: int | 0 <= b < 256

  /**
    * A reference (`ref T`, `T*`): a block of memory and a byte offset into it.
    * The offset may lie outside the block; only accesses are checked.
    */
  datatype Ref = Ref(block: array?<byte>, offset: int)

  /** `Unsafe.NullRef<T>()` and the null pointer. */
  const Null: Ref := Ref(null, 0)

  /** `Unsafe.Add` / `Unsafe.AddByteOffset`: moves a reference by `delta` bytes. */
  function AddBytes(r: Ref, delta: int): (s: Ref)
    ensures s.block == r.block && s.offset - r.offset == delta
  {
    Ref(r.block, r.offset + delta)
  }

  /** `n` bytes starting at `r` lie inside its block (nothing is needed for zero bytes). */
  predicate Accessible(r: Ref, n: nat)
  {
    n == 0 || (r.block != null && 0 <= r.offset && r.offset + n <= r.block.Length)
  }

  /** The `n` bytes at `r`. */
  function Load(r: Ref, n: nat): (s: seq<byte>)
    reads r.block
    requires Accessible(r, n)
    ensures |s| == n
    ensures forall k :: 0 <= k < n ==> s[k] == r.block[r.offset + k]
  {
    if n == 0 then [] else r.block[r.offset .. r.offset + n]
  }

  /** Every byte of `a` outside `[lo, hi)` is as it was in the pre-state. */
  twostate predicate UnchangedOutside(a: array<byte>, lo: int, hi: int)
    reads a
  {
    forall k :: 0 <= k < a.Length && !(lo <= k < hi) ==> a[k] == old(a[k])
  }

  /** A call that may write only `[r, r + n)` wrote nothing else. */
  twostate predicate OnlyWrote(r: Ref, n: nat)
    reads r.block
  {
    r.block != null ==> UnchangedOutside(r.block, r.offset, r.offset + n)
  }

  /** Bytes `[r, r + n)` all hold `value`. */
  predicate AllBytes(r: Ref, n: nat, value: byte)
    reads r.block
    requires Accessible(r, n)
  {
    n == 0 || forall k :: r.offset <= k < r.offset + n ==> r.block[k] == value
  }

  /**
    * `Buffer.MemoryCopy(src, dst, n, n)`: copies `n` bytes as if through a
    * temporary buffer, so overlapping regions are handled.
    */
  method Copy(dst: Ref, src: Ref, n: nat)
    requires Accessible(dst, n) && Accessible(src, n)
    modifies dst.block
    ensures Load(dst, n) == old(Load(src, n))
    ensures OnlyWrote(dst, n)
  {
    if n > 0 {
      var saved := src.block[src.offset .. src.offset + n];
      forall k | dst.offset <= k < dst.offset + n {
        dst.block[k] := saved[k - dst.offset];
      }
    }
  }

  /** `Unsafe.WriteUnaligned(ref r, value)`: stores the bytes of a value at `r`, at any alignment. */
  method WriteUnaligned(r: Ref, value: seq<byte>)
    requires Accessible(r, |value|)
    modifies r.block
    ensures Load(r, |value|) == value
    ensures OnlyWrote(r, |value|)
  {
    if |value| > 0 {
      forall k | r.offset <= k < r.offset + |value| {
        r.block[k] := value[k - r.offset];
      }
    }
  }

  /** `Unsafe.InitBlockUnaligned(ref r, value, count)`: sets `count` bytes to `value`. */
  method InitBlock(r: Ref, value: byte, count: nat)
    requires Accessible(r, count)
    modifies r.block
    ensures AllBytes(r, count, value)
    ensures OnlyWrote(r, count)
  {
    if count > 0 {
      forall k | r.offset <= k < r.offset + count {
        r.block[k] := value;
      }
    }
  }

  /**
    * The C library's `memcmp` over two equally long byte strings: the sign of
    * the first differing byte, or 0 when there is none.
    */
  function Memcmp(x: seq<byte>, y: seq<byte>): (r: int)
    requires |x| == |y|
    ensures r == 0 <==> x == y
    ensures r == -1 || r == 0 || r == 1
  {
    if |x| == 0 then 0
    else if x[0] < y[0] then -1
    else if x[0] > y[0] then 1
    else
      var rest := Memcmp(x[1..], y[1..]);
      assert x == [x[0]] + x[1..] && y == [y[0]] + y[1..];
      rest
  }

  /** `C_CompareMemory(a, b, n)`: memcmp over the `n` bytes at each reference. */
  function CompareBytes(a: Ref, b: Ref, n: nat): (r: int)
    reads a.block, b.block
    requires Accessible(a, n) && Accessible(b, n)
    ensures r == 0 <==> Load(a, n) == Load(b, n)
    ensures r == -1 || r == 0 || r == 1
  {
    Memcmp(Load(a, n), Load(b, n))
  }

  /**
    * Lexicographic order on byte strings, a shorter prefix first: the
    * reference ordering for comparing two views' contents.
    */
  function Lexicographic(x: seq<byte>, y: seq<byte>): (r: int)
    ensures r == 0 <==> x == y
    ensures r == -1 || r == 0 || r == 1
  {
    if |x| == 0 && |y| == 0 then 0
    else if |x| == 0 then -1
    else if |y| == 0 then 1
    else if x[0] < y[0] then -1
    else if x[0] > y[0] then 1
    else
      var rest := Lexicographic(x[1..], y[1..]);
      assert x == [x[0]] + x[1..] && y == [y[0]] + y[1..];
      rest
  }

  function Sign(d: int): (r: int)
    ensures (r == -1 <==> d < 0) && (r == 0 <==> d == 0) && (r == 1 <==> d > 0)
  {
    if d < 0 then -1 else if d > 0 then 1 else 0
  }

  /** Swapping the operands of memcmp negates the result. */
  lemma {:induction false} MemcmpAntisymmetric(x: seq<byte>, y: seq<byte>)
    requires |x| == |y|
    ensures Memcmp(x, y) == -Memcmp(y, x)
  {
    if |x| > 0 && x[0] == y[0] {
      MemcmpAntisymmetric(x[1..], y[1..]);
    }
  }

  /** Swapping the operands of the lexicographic order negates it. */
  lemma {:induction false} LexicographicAntisymmetric(x: seq<byte>, y: seq<byte>)
    ensures Lexicographic(x, y) == -Lexicographic(y, x)
  {
    if |x| > 0 && |y| > 0 && x[0] == y[0] {
      LexicographicAntisymmetric(x[1..], y[1..]);
    }
  }

  /**
    * Comparing the common prefix with memcmp and breaking a tie by length is
    * the lexicographic order (the shape of every `CompareMemory` overload).
    */
  lemma {:induction false} PrefixThenLength(x: seq<byte>, y: seq<byte>, m: nat)
    requires m == |x| || m == |y|
    requires m <= |x| && m <= |y|
    ensures (var c := Memcmp(x[..m], y[..m]); if c == 0 then Sign(|x| - |y|) else c) == Lexicographic(x, y)
  {
    if m > 0 && x[0] == y[0] {
      PrefixThenLength(x[1..], y[1..], m - 1);
      assert x[..m][1..] == x[1..][..m - 1];
      assert y[..m][1..] == y[1..][..m - 1];
    } else if m == 0 {
      assert x[..m] == [] == y[..m];
    }
  }
}
