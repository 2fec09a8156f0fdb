// The cursors that enumerate a view: `BigSpanEnumerator<T>`,
// `ReadOnlyBigSpanEnumerator<T>` and `UnsafeEnumerator<T>`. Each holds one
// mutable position that starts at the all-ones value, "before the first
// element". The stepping rule of each cursor is a function on the position,
// and the classes are proved to follow it.
module Enumerators {
  import opened NativeInts
  import opened Errors
  import opened Memory
  import opened Views
  import BigSpans
  import ReadOnlyBigSpans

  /** The position of a fresh or reset cursor: `nuint.MaxValue`, all bits set. */
  const BeforeFirst: nuint := NUINT_MAX

  /**
    * One `MoveNext` of the view enumerators: the wrapped successor of the
    * position is taken when it lies inside the view, otherwise the position
    * stays where it is.
    */
  function Advance(length: nuint, index: nuint): (r: (bool, nuint))
    ensures r.0 ==> r.1 < length
    ensures !r.0 ==> r.1 == index
    ensures index == BeforeFirst ==> (r.0 <==> length > 0) && (r.0 ==> r.1 == 0)
    ensures index < length ==> (r.0 <==> index as int + 1 < length as int)
    ensures index < length && r.0 ==> r.1 as int == index as int + 1
  {
    var next := Wrap(index as int + 1);
    if next >= length then (false, index) else (true, next)
  }

  /**
    * `UnsafeEnumerator<T>.MoveNext` as written: it refuses to move from any
    * position at or past the end, the all-ones start included.
    */
  function UnsafeAdvance(length: nuint, offset: nuint): (r: (bool, nuint))
    ensures r.0 <==> offset < length
    ensures r.0 ==> r.1 as int == offset as int + 1 && r.1 <= length
    ensures !r.0 ==> r.1 == offset
  {
    if offset >= length then (false, offset) else (true, (offset as int + 1) as nuint)
  }

  /** What `k` successive `MoveNext` calls return, and the position after each. */
  function Run(step: (nuint, nuint) -> (bool, nuint), length: nuint, index: nuint, k: nat): (calls: seq<(bool, nuint)>)
    ensures |calls| == k
    ensures k > 0 ==> calls[0] == step(length, index)
    decreases k
  {
    if k == 0 then []
    else
      var first := step(length, index);
      [first] + Run(step, length, first.1, k - 1)
  }

  /** Call `j` after `count` moves: whether it moves, and where the cursor then is. */
  function AfterCall(length: nuint, count: nat, j: nat): (r: (bool, nuint))
    requires count <= length as int
    ensures r.0 <==> count + j < length as int
    ensures r.0 ==> r.1 as int == count + j
    ensures !r.0 ==> r.1 == Wrap(length as int - 1)
  {
    (count + j < length as int, Wrap((if count + j + 1 < length as int then count + j + 1 else length as int) - 1))
  }

  /**
    * After `count` successful moves (position `count - 1`, all ones for
    * none), call `j` moves exactly when `count + j` is inside the view, and
    * leaves the cursor on the last element it reached.
    */
  lemma {:induction false} AdvanceRun(length: nuint, count: nat, k: nat)
    requires count <= length as int
    ensures forall j :: 0 <= j < k ==> Run(Advance, length, Wrap(count - 1), k)[j] == AfterCall(length, count, j)
    decreases k
  {
    if k > 0 {
      var calls := Run(Advance, length, Wrap(count - 1), k);
      var first := Advance(length, Wrap(count - 1));
      var rest := Run(Advance, length, first.1, k - 1);
      assert calls == [first] + rest;
      var next := if count < length as int then count + 1 else count;
      if count < length as int {
        if count == 0 {
          assert Wrap(count - 1) == BeforeFirst;
        }
        assert first == (true, Wrap(count));
        assert Wrap(count) == Wrap(next - 1);
      } else {
        assert first == (false, Wrap(count - 1));
      }
      AdvanceRun(length, next, k - 1);
      forall j | 0 <= j < k
        ensures calls[j] == AfterCall(length, count, j)
      {
        if j > 0 {
          assert calls[j] == rest[j - 1] == AfterCall(length, next, j - 1);
        }
      }
    }
  }

  /**
    * Enumerating a view of `n` elements: the first `n` calls return true and
    * visit the indices `0 .. n - 1` in order, and every later call returns
    * false with the cursor left on the last element.
    */
  lemma EnumeratesInOrder(length: nuint, k: nat)
    ensures forall j :: 0 <= j < k ==> (Run(Advance, length, BeforeFirst, k)[j].0 <==> j < length as int)
    ensures forall j :: 0 <= j < k && j < length as int ==> Run(Advance, length, BeforeFirst, k)[j].1 as int == j
    ensures forall j :: 0 <= j < k && j >= length as int ==> Run(Advance, length, BeforeFirst, k)[j].1 == Wrap(length as int - 1)
  {
    var calls := Run(Advance, length, BeforeFirst, k);
    assert Wrap(0 - 1) == BeforeFirst;
    AdvanceRun(length, 0, k);
    forall j | 0 <= j < k
      ensures calls[j] == AfterCall(length, 0, j)
    {
    }
  }

  /**
    * As written, `UnsafeEnumerator<T>` never moves after construction or
    * `Reset`: the all-ones start is at or past every length, so every call
    * returns false and the cursor stays put.
    */
  lemma {:induction false} UnsafeRunIsEmpty(length: nuint, k: nat)
    ensures forall j :: 0 <= j < k ==> Run(UnsafeAdvance, length, BeforeFirst, k)[j] == (false, BeforeFirst)
    decreases k
  {
    if k > 0 {
      var calls := Run(UnsafeAdvance, length, BeforeFirst, k);
      assert calls == [(false, BeforeFirst)] + Run(UnsafeAdvance, length, BeforeFirst, k - 1);
      UnsafeRunIsEmpty(length, k - 1);
    }
  }

  /** A cursor that moved sits on an element of the view, which the checked indexer returns. */
  lemma CurrentAfterMove(span: BigSpans.BigSpan, index: nuint)
    requires span.Valid() && Advance(span.length, index).0
    ensures var at := Advance(span.length, index).1;
            BigSpans.Index(span, at).Ok?
            && Accessible(BigSpans.Index(span, at).value, span.elemSize)
            && Load(BigSpans.Index(span, at).value, span.elemSize) == span.Elements()[at]
  {
    BigSpans.IndexIsElement(span, Advance(span.length, index).1);
  }

  /** `BigSpanEnumerator<T>`: a cursor over a `BigSpan<T>`. */
  class BigSpanEnumerator {
    const span: BigSpans.BigSpan
    var index: nuint

    /** `new BigSpanEnumerator(span)` and `span.GetEnumerator()`: a cursor before the first element. */
    constructor (span: BigSpans.BigSpan)
      ensures this.span == span && index == BeforeFirst
    {
      this.span := span;
      index := BeforeFirst;
    }

    /** Moves to the next element if there is one; a false call leaves the cursor unchanged. */
    method MoveNext() returns (moved: bool)
      modifies this
      ensures (moved, index) == Advance(span.length, old(index))
    {
      var next := Wrap(index as int + 1);
      if next >= span.length {
        return false;
      }
      index := next;
      return true;
    }

    /**
      * `Current`: the element under the cursor through the bounds-checked
      * indexer, so before the first move it throws IndexOutOfRange.
      */
    function Current(): (r: Result<Ref>)
      reads this
      ensures r.Ok? <==> index < span.length
      ensures index == BeforeFirst ==> r == Throws(IndexOutOfRange)
      ensures r.Ok? ==> r.value == AddBytes(span.ptr, index as int * span.elemSize)
    {
      BigSpans.Index(span, index)
    }
  }

  /** A moved read-only cursor over fewer than 2^32 elements reads an element of the view. */
  lemma ReadOnlyCurrentAfterMove(span: ReadOnlyBigSpans.ReadOnlyBigSpan, index: nuint)
    requires span.Valid() && span.length as int < TWO_32 && Advance(span.length, index).0
    ensures var at := Advance(span.length, index).1;
            ReadOnlyBigSpans.Index(span, at).Ok?
            && Accessible(ReadOnlyBigSpans.Index(span, at).value, span.elemSize)
            && Load(ReadOnlyBigSpans.Index(span, at).value, span.elemSize) == span.Elements()[at]
  {
    var at := Advance(span.length, index).1;
    var v := BigSpans.BigSpan(span.ptr, span.length, span.elemSize);
    ReadOnlyBigSpans.IndexBelowTwo32(span, at);
    BigSpans.IndexIsElement(v, at);
  }

  /**
    * On a view of 2^32 + 1 elements the cursor moves from element 0 onto
    * element 1, and `Current` then throws, because the read-only indexer
    * compares 32-bit truncations (1 against 1).
    */
  lemma ReadOnlyCurrentRejectsSecondElement(span: ReadOnlyBigSpans.ReadOnlyBigSpan)
    requires span.length as int == TWO_32 + 1
    ensures Advance(span.length, 0) == (true, 1)
    ensures ReadOnlyBigSpans.Index(span, 1) == Throws(IndexOutOfRange)
  {
  }

  /** `ReadOnlyBigSpanEnumerator<T>`: a cursor over a `ReadOnlyBigSpan<T>`. */
  class ReadOnlyBigSpanEnumerator {
    const span: ReadOnlyBigSpans.ReadOnlyBigSpan
    var index: nuint

    /** `new ReadOnlyBigSpanEnumerator(span)` and `span.GetEnumerator()`: a cursor before the first element. */
    constructor (span: ReadOnlyBigSpans.ReadOnlyBigSpan)
      ensures this.span == span && index == BeforeFirst
    {
      this.span := span;
      index := BeforeFirst;
    }

    /** Moves to the next element if there is one; a false call leaves the cursor unchanged. */
    method MoveNext() returns (moved: bool)
      modifies this
      ensures (moved, index) == Advance(span.length, old(index))
    {
      var next := Wrap(index as int + 1);
      if next >= span.length {
        return false;
      }
      index := next;
      return true;
    }

    /**
      * `Current`: the element under the cursor through the read-only
      * indexer, which accepts exactly the positions whose low 32 bits are
      * below the low 32 bits of the length.
      */
    function Current(): (r: Result<Ref>)
      reads this
      ensures r.Ok? <==> Trunc32(index) < Trunc32(span.length)
      ensures index == BeforeFirst ==> r == Throws(IndexOutOfRange)
      ensures span.length as int < TWO_32 && index as int < TWO_32 ==> (r.Ok? <==> index < span.length)
      ensures r.Ok? ==> r.value == AddBytes(span.ptr, index as int * span.elemSize)
    {
      ReadOnlyBigSpans.Index(span, index)
    }
  }

  /** The `(nint)` cast of a `nuint`: positions from 2^63 on become negative. */
  function SignedOffset(x: nuint): (r: int)
    ensures x as int < TWO_63 ==> r == x as int
    ensures x as int >= TWO_63 ==> r == x as int - TWO_64
    ensures -TWO_63 <= r < TWO_63
  {
    if x as int < TWO_63 then x as int else x as int - TWO_64
  }

  /**
    * `UnsafeEnumerator<T>`: a raw pointer, a length and a position, for
    * enumerating pinned memory.
    */
  class UnsafeEnumerator {
    const pointer: Ref
    const length: nuint
    const elemSize: nat
    var offset: nuint

    /** `UnsafeEnumerator.Create(ref pointer, length)`: records both and resets. */
    constructor FromPointer(pointer: Ref, length: nuint, elemSize: nat)
      ensures this.pointer == pointer && this.length == length && this.elemSize == elemSize
      ensures offset == BeforeFirst
    {
      this.pointer := pointer;
      this.length := length;
      this.elemSize := elemSize;
      offset := BeforeFirst;
    }

    /**
      * From a `Span<T>` or `ReadOnlySpan<T>`: its pinnable reference (null
      * when empty) and its length, sign-extended to `nuint`.
      */
    constructor FromSpan(s: NativeSpan)
      ensures pointer == (if s.length != 0 then s.ptr else Null)
      ensures length == IntToNuint(s.length) && elemSize == s.elemSize
      ensures s.length >= 0 ==> length as int == s.length as int
      ensures offset == BeforeFirst
    {
      pointer := if s.length != 0 then s.ptr else Null;
      length := IntToNuint(s.length);
      elemSize := s.elemSize;
      offset := BeforeFirst;
    }

    /** From a `BigSpan<T>`: its reference and its length. */
    constructor FromBigSpan(s: BigSpans.BigSpan)
      ensures pointer == s.ptr && length == s.length && elemSize == s.elemSize
      ensures offset == BeforeFirst
    {
      pointer := s.ptr;
      length := s.length;
      elemSize := s.elemSize;
      offset := BeforeFirst;
    }

    /** From a `ReadOnlyBigSpan<T>`: its reference and its length. */
    constructor FromReadOnlyBigSpan(s: ReadOnlyBigSpans.ReadOnlyBigSpan)
      ensures pointer == s.ptr && length == s.length && elemSize == s.elemSize
      ensures offset == BeforeFirst
    {
      pointer := s.ptr;
      length := s.length;
      elemSize := s.elemSize;
      offset := BeforeFirst;
    }

    /** `Reset()`: back to the all-ones start. */
    method Reset()
      modifies this
      ensures offset == BeforeFirst
    {
      offset := BeforeFirst;
    }

    /** `MoveNext()` as written: moves only from a position below the length. */
    method MoveNext() returns (moved: bool)
      modifies this
      ensures (moved, offset) == UnsafeAdvance(length, old(offset))
      ensures old(offset) == BeforeFirst ==> !moved && offset == BeforeFirst
    {
      if offset >= length {
        return false;
      }
      offset := offset + 1;
      return true;
    }

    /**
      * `MoveNext()` stepping like the view enumerators: the wrapped successor
      * of the position, taken when it is below the length.
      */
    method MoveNextChecked() returns (moved: bool)
      modifies this
      ensures (moved, offset) == Advance(length, old(offset))
    {
      var next := Wrap(offset as int + 1);
      if next >= length {
        return false;
      }
      offset := next;
      return true;
    }

    /**
      * `Current`: unchecked pointer arithmetic at the position, read as a
      * signed `nint`; from the start it addresses the element before the
      * pointer.
      */
    function Current(): (r: Ref)
      reads this
      ensures r.block == pointer.block
      ensures offset as int < TWO_63 ==> r.offset == pointer.offset + offset as int * elemSize
      ensures offset == BeforeFirst ==> r.offset == pointer.offset - elemSize
    {
      AddBytes(pointer, SignedOffset(offset) * elemSize)
    }

    /** `GetEnumerator()`: the enumerator itself, so every enumeration shares one cursor. */
    method GetEnumerator() returns (e: UnsafeEnumerator)
      ensures e == this
    {
      e := this;
    }
  }
}
