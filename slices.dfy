// How `AsSmallSlices` and `SelectSmallSlices` cut a view: consecutive pieces
// of `size` elements from the start, the last one possibly shorter. The
// pieces are described by their first element and their element count.
module SmallSlices {
  import opened NativeInts
  import opened Memory
  import opened Views

  datatype Piece = Piece(start: nat, count: nat)

  /** The pieces of `[start, length)`, in order; with `size == 0` only an empty range has any. */
  function Pieces(length: nat, start: nat, size: nat): (ps: seq<Piece>)
    requires start <= length && (size > 0 || start == length)
    ensures ps == [] <==> start == length
    decreases length - start
  {
    if start == length then []
    else
      var count := if size < length - start then size else length - start;
      [Piece(start, count)] + Pieces(length, start + count, size)
  }

  /**
    * `ps` tiles `[start, end)`: pieces in order, each adjacent to the next,
    * every one of them `size` elements except a shorter, non-empty last one.
    */
  predicate Tiles(ps: seq<Piece>, start: nat, end: nat, size: nat)
  {
    (ps == [] <==> start == end) &&
    (forall j :: 0 <= j < |ps| ==> 0 < ps[j].count <= size && start <= ps[j].start && ps[j].start + ps[j].count <= end) &&
    (forall j :: 0 <= j < |ps| - 1 ==> ps[j].count == size) &&
    (forall j :: 0 < j < |ps| ==> ps[j].start == ps[j - 1].start + ps[j - 1].count) &&
    (ps != [] ==> ps[0].start == start && ps[|ps| - 1].start + ps[|ps| - 1].count == end)
  }

  /** The pieces tile the range they are cut from. */
  lemma {:induction false} PiecesTile(length: nat, start: nat, size: nat)
    requires start <= length && (size > 0 || start == length)
    ensures Tiles(Pieces(length, start, size), start, length, size)
    decreases length - start
  {
    if start < length {
      var ps := Pieces(length, start, size);
      var count := ps[0].count;
      PiecesTile(length, start + count, size);
      assert ps[1..] == Pieces(length, start + count, size);
    }
  }

  /** No piece is longer than `size`. */
  lemma PiecesBounded(length: nat, start: nat, size: nat)
    requires start <= length && (size > 0 || start == length)
    ensures forall j :: 0 <= j < |Pieces(length, start, size)| ==> Pieces(length, start, size)[j].count <= size
  {
    PiecesTile(length, start, size);
  }

  /** One step of the slicing loop: the next piece, then the pieces after it. */
  lemma PiecesStep(all: seq<Piece>, k: nat, length: nat, start: nat, size: nat, count: nat)
    requires start < length && size > 0 && count == (if size < length - start then size else length - start)
    requires k <= |all| && all[k..] == Pieces(length, start, size)
    ensures k < |all| && all[k] == Piece(start, count)
    ensures all[k + 1..] == Pieces(length, start + count, size)
  {
    assert all[k..] == [Piece(start, count)] + Pieces(length, start + count, size);
    assert all[k + 1..] == all[k..][1..];
  }

  /** `ceil(x / size)`, the number of slices of `size` elements that `x` elements need. */
  function CeilDiv(x: nat, size: nat): (n: nat)
    requires size > 0
  {
    x / size + (if x % size == 0 then 0 else 1)
  }

  /** One to `size` elements need one slice. */
  lemma CeilDivOne(x: nat, size: nat)
    requires 0 < x <= size
    ensures CeilDiv(x, size) == 1
  {
    if x == size {
      DivModUnique(x, size, 1, 0);
    } else {
      DivModUnique(x, size, 0, x);
    }
  }

  /** `size` more elements need one more slice. */
  lemma CeilDivStep(x: nat, size: nat)
    requires 0 < size < x
    ensures CeilDiv(x, size) == CeilDiv(x - size, size) + 1
  {
    var q, r := (x - size) / size, (x - size) % size;
    assert x - size == q * size + r;
    assert (q + 1) * size == q * size + size;
    DivModUnique(x, size, q + 1, r);
  }

  /** There are `ceil((length - start) / size)` pieces. */
  lemma {:induction false} PiecesCount(length: nat, start: nat, size: nat)
    requires start <= length && size > 0
    ensures |Pieces(length, start, size)| == CeilDiv(length - start, size)
    decreases length - start
  {
    var x := length - start;
    if x == 0 {
      assert CeilDiv(0, size) == 0;
    } else if x <= size {
      CeilDivOne(x, size);
    } else {
      assert Pieces(length, start, size) == [Piece(start, size)] + Pieces(length, start + size, size);
      PiecesCount(length, start + size, size);
      CeilDivStep(x, size);
    }
  }

  /** The elements of `es` that the pieces `ps` select, concatenated in order. */
  function Gather(es: seq<seq<byte>>, ps: seq<Piece>): (r: seq<seq<byte>>)
    requires forall j :: 0 <= j < |ps| ==> ps[j].start + ps[j].count <= |es|
  {
    if ps == [] then []
    else es[ps[0].start .. ps[0].start + ps[0].count] + Gather(es, ps[1..])
  }

  /** Every piece ends inside the range. */
  lemma PiecesInRange(length: nat, start: nat, size: nat)
    requires start <= length && (size > 0 || start == length)
    ensures forall j :: 0 <= j < |Pieces(length, start, size)| ==>
              Pieces(length, start, size)[j].start + Pieces(length, start, size)[j].count <= length
  {
    PiecesTile(length, start, size);
  }

  /** Together the pieces hold every element from `start` on, each once and in order. */
  lemma {:induction false} PiecesCover(es: seq<seq<byte>>, start: nat, size: nat)
    requires start <= |es| && (size > 0 || start == |es|)
    ensures forall j :: 0 <= j < |Pieces(|es|, start, size)| ==>
              Pieces(|es|, start, size)[j].start + Pieces(|es|, start, size)[j].count <= |es|
    ensures Gather(es, Pieces(|es|, start, size)) == es[start..]
    decreases |es| - start
  {
    PiecesInRange(|es|, start, size);
    if start < |es| {
      var ps := Pieces(|es|, start, size);
      var count := ps[0].count;
      var rest := Pieces(|es|, start + count, size);
      assert ps == [Piece(start, count)] + rest;
      assert ps[1..] == rest;
      PiecesCover(es, start + count, size);
      calc {
        Gather(es, ps);
        es[start .. start + count] + Gather(es, rest);
        es[start .. start + count] + es[start + count..];
        es[start..];
      }
    }
  }

  /** `slice` is the span over piece `p` of the view at `base`. */
  predicate IsSliceOf(slice: NativeSpan, base: Ref, elemSize: nat, p: Piece)
  {
    slice.ptr == AddBytes(base, p.start * elemSize) && slice.length as int == p.count && slice.elemSize == elemSize
  }

  /** Each slice of a valid view is a valid span of exactly the elements of its piece. */
  lemma SliceElements(slice: NativeSpan, g: Region, p: Piece)
    requires g.Valid() && p.start + p.count <= g.length && IsSliceOf(slice, g.ptr, g.elemSize, p)
    ensures slice.Valid()
    ensures slice.AsRegion().Elements() == g.Elements()[p.start .. p.start + p.count]
  {
    SubRegion(g.ptr, g.length, g.elemSize, p.start, p.count);
  }

  /** The slices `AsSmallSlices` hands out, one per piece of the whole view. */
  predicate Visits(slices: seq<NativeSpan>, base: Ref, length: nat, elemSize: nat, size: nat)
    requires size > 0 || length == 0
  {
    var ps := Pieces(length, 0, size);
    |slices| == |ps| && forall j :: 0 <= j < |ps| ==> IsSliceOf(slices[j], base, elemSize, ps[j])
  }

  /**
    * The slices of a valid view are valid spans, slice `j` holds the elements
    * of piece `j`, and the pieces together hold every element of the view,
    * each once and in order.
    */
  lemma VisitsCover(slices: seq<NativeSpan>, g: Region, size: nat)
    requires g.Valid() && (size > 0 || g.length == 0)
    requires Visits(slices, g.ptr, g.length, g.elemSize, size)
    ensures forall j :: 0 <= j < |Pieces(g.length, 0, size)| ==>
              Pieces(g.length, 0, size)[j].start + Pieces(g.length, 0, size)[j].count <= g.length
    ensures Gather(g.Elements(), Pieces(g.length, 0, size)) == g.Elements()
    ensures forall j :: 0 <= j < |slices| ==> slices[j].Valid()
    ensures forall j :: 0 <= j < |slices| ==>
              slices[j].AsRegion().Elements()
              == g.Elements()[Pieces(g.length, 0, size)[j].start .. Pieces(g.length, 0, size)[j].start + Pieces(g.length, 0, size)[j].count]
  {
    var ps := Pieces(g.length, 0, size);
    PiecesCover(g.Elements(), 0, size);
    assert g.Elements()[0..] == g.Elements();
    forall j | 0 <= j < |slices|
      ensures slices[j].Valid()
      ensures slices[j].AsRegion().Elements() == g.Elements()[ps[j].start .. ps[j].start + ps[j].count]
    {
      SliceElements(slices[j], g, ps[j]);
    }
  }

  /** The next start after a slice: `start + min(size, length - start)`. */
  function NextStart(length: nat, start: nat, size: nat): (next: nat)
    requires start <= length
    ensures start <= next <= length
    ensures size > 0 && start < length ==> start < next
  {
    start + (if size < length - start then size else length - start)
  }

  /** With `size == 0` a slicing step stays where it is, so the loop never reaches the end. */
  lemma ZeroSizeMakesNoProgress(length: nat, start: nat)
    requires start < length
    ensures NextStart(length, start, 0) == start
  {
  }

  /** `Length / size` slots for five elements in slices of ten: none, although there is one slice. */
  lemma FloorCountMissesShortView()
    ensures 5 / 10 == 0 && |Pieces(5, 0, 10)| == 1
  {
    PiecesCount(5, 0, 10);
  }

  /** `Length / size` slots for five elements in slices of two: two, although there are three slices. */
  lemma FloorCountMissesPartialSlice()
    ensures 5 / 2 == 2 && |Pieces(5, 0, 2)| == 3
  {
    PiecesCount(5, 0, 2);
  }
}
