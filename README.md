# BigSpans.Net in Dafny

A model of the core of StirlingLabs' BigSpans.Net library: `BigSpan<T>` and
`ReadOnlyBigSpan<T>`, spans whose length is a pointer-sized `nuint`. The
model covers their enumerators, the `BigSpanExtensions` helpers, the
little-endian `BinaryPrimitives` readers and writers, and the
`BigSpanHelpers` routines that clear and fill memory.

Memory is a set of byte blocks, one Dafny `array<byte>` each. A reference
(`ref T`, `T*`) is a block and a byte offset, and `Null` is the null
reference. A view holds a reference, a `nuint` length and the element size
`sizeof(T)`. Its contents are its elements, each one `sizeof(T)` bytes.
Managed element values and their bytes are the same thing in the model.

Each piece of the source gets the form that matches what it does:

- **Value operations.** Constructors, indexers, slicing, conversions,
  comparison and `IsEmpty` are functions. They return a `Result` that
  carries the exception the source throws.
- **Writes to memory.** `Clear`, `Fill`, `CopyTo`, `TryWrite` and the block
  helpers are methods. Their `modifies` clause names the written block and
  their `ensures` state the new contents. `OnlyWrote` states that no other
  byte of the block changed.
- **Loops.** The loops of the source are `while` loops with invariants:
  - the word loop of `ClearWithReferences`;
  - the 16-byte loop of `ClearWithoutReferences`;
  - the vector and unrolled loops of `Fill`;
  - the slicing loops of `AsSmallSlices` and `SelectSmallSlices`.
- **Enumerators.** The enumerators are classes with one mutable position.
  Each class is proved to follow a stepping function, and lemmas about that
  function state how enumeration proceeds.

Integers follow the widths of a 64-bit .NET process:

- `nuint` is unsigned 64-bit, `uint` 32-bit, `int` and `long` signed.
- `Wrap` is unchecked `nuint` arithmetic. `Trunc32` is the `(uint)` cast.
  `IntToNuint` is the sign-extending `(nuint)` cast of an `int`.

Where the code and its documentation disagree, the model follows the code.
Each such disagreement is modelled twice, as written and as intended (see
"Findings").

## Model

| member | source | states |
|---|---|---|
| BigSpans.Default | StirlingLabs.BigSpans/BigSpan.cs:467 | `default(BigSpan<T>)` / `Empty` is a valid view of no elements at the null reference |
| BigSpans.FromArray | StirlingLabs.BigSpans/BigSpan.cs:197-214 | a null array gives the empty view; otherwise the view is valid, starts at the array and its bytes are exactly the array's contents |
| BigSpans.FromArrayRange | StirlingLabs.BigSpans/BigSpan.cs:255-284 | null array: succeeds only for `(0, 0)`; otherwise ArgumentOutOfRange exactly when the wrapping end `start + length` passes the array; for an in-range start below 2^32 the view holds exactly the array's elements `[start, start + length)` |
| BigSpans.FromPointer | StirlingLabs.BigSpans/BigSpan.cs:301-311 | the pointer constructor records reference and length unchecked; the view is valid exactly when that memory is addressable |
| BigSpans.FromSpan | StirlingLabs.BigSpans/BigSpan.cs:631-632 | the conversion from `Span<T>` keeps reference and length, is valid iff the span is, and holds the span's elements |
| BigSpans.Index | StirlingLabs.BigSpans/BigSpan.cs:333-344 | the indexer succeeds exactly for `index < Length`, throws IndexOutOfRange otherwise, and returns the reference `index * sizeof(T)` bytes in |
| BigSpans.IndexIsElement | StirlingLabs.BigSpans/BigSpan.cs:333-344 | the reference the indexer returns reads back exactly element `index` of the view |
| BigSpans.IndexFrom | StirlingLabs.BigSpans/BigSpan.cs:355-362 | `this[Index]` succeeds exactly when the exact position (`^n` meaning `Length - n`) lies inside the view, and then equals `this[position]` |
| BigSpans.RangeAt | StirlingLabs.BigSpans/BigSpan.cs:364-374 | `this[Range]` as written: succeeds iff the start position is inside the view; the length is the wrapped distance to an end resolved with the start's from-end flag |
| BigSpans.RangeAtIgnoresEndFlag | StirlingLabs.BigSpans/BigSpan.cs:364-374 | on a one-element view `[..^1]` yields one element, not none |
| BigSpans.RangeAtOverrunsView | StirlingLabs.BigSpans/BigSpan.cs:364-374 | on a one-element view `[0..5]` succeeds with more elements than the view has |
| BigSpans.RangeChecked | StirlingLabs.BigSpans/BigSpan.cs:364-374 | the range indexer as intended: succeeds iff `0 <= start <= end <= Length`, each end resolved with its own flag, giving `end - start` elements |
| BigSpans.RangeCheckedContents | StirlingLabs.BigSpans/BigSpan.cs:364-374 | a checked range of a valid view is a valid view holding exactly elements `[start, end)` |
| BigSpans.IsEmpty | StirlingLabs.BigSpans/BigSpan.cs:400-405 | true exactly when the length is 0, i.e. the view has no elements |
| BigSpans.Equal | StirlingLabs.BigSpans/BigSpan.cs:622-624 | `==` holds exactly for the same length and the same first reference |
| BigSpans.EqualViewsAlias | StirlingLabs.BigSpans/BigSpan.cs:622-624 | views that are `==` see the same elements |
| BigSpans.GetPinnableReference | StirlingLabs.BigSpans/BigSpan.cs:479-485 | null exactly for an empty view, otherwise the first element's reference |
| BigSpans.ToSpan | StirlingLabs.BigSpans/BigSpan.cs:665-669 | NotSupported beyond `int.MaxValue` elements; otherwise a valid span of the same elements |
| BigSpans.SliceFrom | StirlingLabs.BigSpans/BigSpan.cs:712-718 | `Slice(nuint)` as written: the check compares `(uint)start` with `(uint)Length`, the offset uses `(uint)start`, the length `Length - start` wraps |
| BigSpans.SliceFromContents | StirlingLabs.BigSpans/BigSpan.cs:712-718 | below 2^32 elements the slice is the suffix from `start` |
| BigSpans.SliceFromTruncatesStart | StirlingLabs.BigSpans/BigSpan.cs:712-718 | `Slice(2^32)` on five elements passes the check and yields a view longer than the original |
| BigSpans.SliceFromChecked | StirlingLabs.BigSpans/BigSpan.cs:712-718 | `Slice(nuint)` as intended: succeeds iff `start <= Length`, with `Length - start` elements |
| BigSpans.SliceFromCheckedContents | StirlingLabs.BigSpans/BigSpan.cs:712-718 | the checked suffix of a valid view is a valid view of exactly the elements from `start` |
| BigSpans.Slice | StirlingLabs.BigSpans/BigSpan.cs:729-741 | `Slice(nuint, nuint)` as written: succeeds iff the wrapped end is at most `Length`; offset by `(uint)start` |
| BigSpans.SliceContents | StirlingLabs.BigSpans/BigSpan.cs:729-741 | for `start < 2^32` and an end that does not wrap, the slice holds exactly elements `[start, start + length)` |
| BigSpans.SliceWrapsEnd | StirlingLabs.BigSpans/BigSpan.cs:729-741 | `Slice(2^64 - 1, 1)` passes on every view |
| BigSpans.SliceTruncatesStart | StirlingLabs.BigSpans/BigSpan.cs:729-741 | `Slice(2^32, 1)` on 2^32 + 1 elements starts at element 0 |
| BigSpans.SliceChecked | StirlingLabs.BigSpans/BigSpan.cs:729-741 | `Slice(nuint, nuint)` as intended: succeeds iff `start + length <= Length` exactly |
| BigSpans.SliceCheckedContents | StirlingLabs.BigSpans/BigSpan.cs:729-741 | the checked slice of a valid view holds exactly elements `[start, start + length)` |
| BigSpans.SliceToSpan | StirlingLabs.BigSpans/BigSpan.cs:764-772 | `Slice(nuint, int)`: ArgumentOutOfRange for a negative length or a wrapped end past `Length`, then IndexOutOfRange from `this[start]` for `start == Length`; both directions of each |
| BigSpans.SliceToSpanContents | StirlingLabs.BigSpans/BigSpan.cs:764-772 | a successful slice with a non-wrapping end is a valid span of elements `[start, start + length)` |
| BigSpans.SliceToSpanEmptyAtEnd | StirlingLabs.BigSpans/BigSpan.cs:764-772 | `Slice(Length, 0)` throws IndexOutOfRange |
| BigSpans.SliceIntToSpan | StirlingLabs.BigSpans/BigSpan.cs:798-807 | `Slice(int, int)`: succeeds iff both are non-negative, the end is within `Length` and `start < Length`; which exception otherwise |
| BigSpans.SliceIntToSpanContents | StirlingLabs.BigSpans/BigSpan.cs:798-807 | a successful slice is a valid span of elements `[start, start + length)` |
| BigSpans.AsBytes | StirlingLabs.BigSpans/BigSpan.cs:845-846 | the same memory as a valid byte view with exactly the view's bytes |
| BigSpans.CastAs | StirlingLabs.BigSpans/BigSpan.cs:849-850 | a valid view of `Length * sizeof(T) / sizeof(T2)` elements whose bytes are a prefix of the original's |
| BigSpans.CastAsValid | StirlingLabs.BigSpans/BigSpan.cs:849-850 | for a valid view the wrapped byte count is exact and the reinterpreted view holds the byte prefix |
| BigSpans.Reinterpret | StirlingLabs.BigSpans/BigSpan.cs:849-850 | addressable bytes seen as whole `T2` elements form a valid region over their prefix |
| BigSpans.CompareMemoryPrefix | StirlingLabs.BigSpans/BigSpan.cs:861-866 | `CompareMemory(other, length)` as written: ArgumentOutOfRange iff `length` exceeds either element count; otherwise memcmp of the first `length` BYTES |
| BigSpans.CompareMemoryPrefixCountsBytes | StirlingLabs.BigSpans/BigSpan.cs:861-866 | two 4-byte elements that differ compare equal over "1 element" |
| BigSpans.CompareMemoryPrefixChecked | StirlingLabs.BigSpans/BigSpan.cs:861-866 | as intended: 0 exactly when the first `length` ELEMENTS agree |
| BigSpans.CompareMemory | StirlingLabs.BigSpans/BigSpan.cs:869-881 | `CompareMemory(other)` is the lexicographic order of the two byte strings, and 0 exactly for equal contents |
| BigSpans.CompareMemoryAntisymmetric | StirlingLabs.BigSpans/BigSpan.cs:869-881 | comparing the other way negates the result |
| BigSpans.TouchedCount | StirlingLabs.BigSpans/BigSpan.cs:495-503 | the element count `Clear`/`Fill` reach, `(uint)_length`: at most the length, equal below 2^32, and congruent to it modulo 2^32 |
| BigSpans.TouchedCountTruncates | StirlingLabs.BigSpans/BigSpan.cs:495-503 | a view of 2^32 + 3 elements is cleared or filled only in its first 3 |
| BigSpans.ClearElements | StirlingLabs.BigSpans/BigSpan.cs:495-503 | the first `count` elements become zero bytes, every other element and byte keeps its value |
| BigSpans.Clear | StirlingLabs.BigSpans/BigSpan.cs:495-503 | `Clear()` as written zeroes exactly the first `(uint)_length` elements |
| BigSpans.ClearAll | StirlingLabs.BigSpans/BigSpan.cs:495-503 | `Clear()` as intended zeroes every element and writes nothing outside the view |
| BigSpans.FillElements | StirlingLabs.BigSpans/BigSpan.cs:509-526 | the first `count` elements become `value`, every other element keeps its value |
| BigSpans.StoreElements | StirlingLabs.BigSpans/BigSpan.cs:511-525 | the byte-size path (`InitBlockUnaligned`, skipped when empty) and the general path both leave the first `count` elements' bytes repeating `value`, nothing else written |
| BigSpans.PatternedBytes | StirlingLabs.BigSpans/BigSpan.cs:509-526 | repeated-pattern memory read through the view: byte `k` is byte `k mod sizeof(T)` of the value |
| BigSpans.Fill | StirlingLabs.BigSpans/BigSpan.cs:509-526 | `Fill(value)` as written sets exactly the first `(uint)_length` elements |
| BigSpans.FillAll | StirlingLabs.BigSpans/BigSpan.cs:509-526 | `Fill(value)` as intended sets every element |
| BigSpans.CopyElements | StirlingLabs.BigSpans/BigSpan.cs:565-572 | the destination starts with the source's old elements (memmove), keeps its other elements, and nothing else is written |
| BigSpans.CopyTo | StirlingLabs.BigSpans/BigSpan.cs:538-573 | ArgumentException with nothing written iff the source is longer; otherwise the destination begins with the source's old elements and keeps the rest |
| BigSpans.TryCopyTo | StirlingLabs.BigSpans/BigSpan.cs:583-615 | true iff the destination is long enough, then `CopyTo`'s effect; false writes nothing |
| BigSpans.FitsIn | StirlingLabs.BigSpans/BigSpan.cs:538-573 | comparing the byte lengths in `nuint` arithmetic is exactly comparing the element counts |
| BigSpans.ToArray | StirlingLabs.BigSpans/BigSpan.cs:816-841 | a fresh array holding exactly the view's bytes |
| ReadOnlyBigSpans.FromBigSpan | StirlingLabs.BigSpans/ReadOnlyBigSpan.cs:310-311 | the widening keeps reference, length and elements |
| ReadOnlyBigSpans.FromSpan | StirlingLabs.BigSpans/ReadOnlyBigSpan.cs:318-327 | the conversions from `Span<T>`/`ReadOnlySpan<T>` keep reference, length and elements |
| ReadOnlyBigSpans.FromArray | StirlingLabs.BigSpans/ReadOnlyBigSpan.cs:86-100 | null gives the empty view; otherwise a valid view whose bytes are the array's contents |
| ReadOnlyBigSpans.FromArrayRange | StirlingLabs.BigSpans/ReadOnlyBigSpan.cs:114-138 | the same wrapping-end check and `(uint)start` offset as BigSpan's, with the same contents below 2^32 |
| ReadOnlyBigSpans.FromSegment | StirlingLabs.BigSpans/ReadOnlyBigSpan.cs:346-347 | an array segment never throws and gives exactly the segment's elements |
| ReadOnlyBigSpans.FromPointer | StirlingLabs.BigSpans/ReadOnlyBigSpan.cs:155-165 | records reference and length unchecked; valid iff the memory is addressable |
| ReadOnlyBigSpans.Index | StirlingLabs.BigSpans/ReadOnlyBigSpan.cs:201-211 | the indexer as written: succeeds iff `(uint)index < (uint)Length`, addressing with the full index |
| ReadOnlyBigSpans.IndexBelowTwo32 | StirlingLabs.BigSpans/ReadOnlyBigSpan.cs:201-211 | below 2^32 the truncated check agrees with BigSpan's indexer |
| ReadOnlyBigSpans.IndexPassesPastView | StirlingLabs.BigSpans/ReadOnlyBigSpan.cs:201-211 | index 2^32 + 5 of a ten-element view passes and points past the view |
| ReadOnlyBigSpans.IndexRejectsInsideView | StirlingLabs.BigSpans/ReadOnlyBigSpan.cs:201-211 | index 0 of a view of 2^32 elements throws |
| ReadOnlyBigSpans.IndexChecked | StirlingLabs.BigSpans/ReadOnlyBigSpan.cs:201-211 | the indexer as intended: succeeds iff `index < Length` |
| ReadOnlyBigSpans.IndexCheckedIsElement | StirlingLabs.BigSpans/ReadOnlyBigSpan.cs:201-211 | the checked reference reads back exactly element `index` |
| ReadOnlyBigSpans.IndexFrom | StirlingLabs.BigSpans/ReadOnlyBigSpan.cs:222-229 | `this[Index]` goes through the truncated indexer; below 2^32 it succeeds iff the exact position is inside |
| ReadOnlyBigSpans.RangeAt | StirlingLabs.BigSpans/ReadOnlyBigSpan.cs:231-241 | `this[Range]` as written: succeeds iff the truncated indexer accepts the start; end resolved with the start's flag |
| ReadOnlyBigSpans.RangeAtIgnoresEndFlag | StirlingLabs.BigSpans/ReadOnlyBigSpan.cs:231-241 | `[..^1]` on one element yields one element |
| ReadOnlyBigSpans.IsEmpty | StirlingLabs.BigSpans/ReadOnlyBigSpan.cs:267-272 | as written: true iff the low 32 bits of the length are 0 |
| ReadOnlyBigSpans.IsEmptyTruncates | StirlingLabs.BigSpans/ReadOnlyBigSpan.cs:267-272 | a view of 2^32 elements reports itself empty |
| ReadOnlyBigSpans.IsEmptyChecked | StirlingLabs.BigSpans/ReadOnlyBigSpan.cs:267-272 | as intended: true iff the view has no elements |
| ReadOnlyBigSpans.GetPinnableReference | StirlingLabs.BigSpans/ReadOnlyBigSpan.cs:393-399 | null exactly for an empty view, otherwise the first element |
| ReadOnlyBigSpans.Equal | StirlingLabs.BigSpans/ReadOnlyBigSpan.cs:500-502 | `==` holds iff the lengths agree and, unless empty, the references do |
| ReadOnlyBigSpans.EqualIgnoresBaseOfEmptyViews | StirlingLabs.BigSpans/ReadOnlyBigSpan.cs:500-502 | two empty views over different memory differ as BigSpans and are equal once widened |
| ReadOnlyBigSpans.EqualAgreesOnNonEmpty | StirlingLabs.BigSpans/ReadOnlyBigSpan.cs:500-502 | for non-empty views both `==` operators agree |
| ReadOnlyBigSpans.ToReadOnlySpan | StirlingLabs.BigSpans/ReadOnlyBigSpan.cs:365-369 | NotSupported beyond `int.MaxValue` elements, otherwise a valid span of the same elements |
| ReadOnlyBigSpans.SliceFrom | StirlingLabs.BigSpans/ReadOnlyBigSpan.cs:532-538 | the same truncated check and offset, and wrapping length, as BigSpan's `Slice(nuint)` |
| ReadOnlyBigSpans.SliceFromContents | StirlingLabs.BigSpans/ReadOnlyBigSpan.cs:532-538 | below 2^32 elements the slice is the suffix from `start` |
| ReadOnlyBigSpans.Slice | StirlingLabs.BigSpans/ReadOnlyBigSpan.cs:615-622 | the wrapping end check and `(uint)start` offset of BigSpan's `Slice(nuint, nuint)` |
| ReadOnlyBigSpans.SliceContents | StirlingLabs.BigSpans/ReadOnlyBigSpan.cs:615-622 | for `start < 2^32` and a non-wrapping end, exactly elements `[start, start + length)` |
| ReadOnlyBigSpans.SliceMatchesBigSpan | StirlingLabs.BigSpans/ReadOnlyBigSpan.cs:615-622 | widening commutes with `Slice` |
| ReadOnlyBigSpans.SliceToSpan | StirlingLabs.BigSpans/ReadOnlyBigSpan.cs:561-568 | `Slice(nuint, int)`: ArgumentOutOfRange cases as BigSpan's, then the truncated indexer decides on `start` |
| ReadOnlyBigSpans.SliceIntToSpan | StirlingLabs.BigSpans/ReadOnlyBigSpan.cs:594-603 | `Slice(int, int)`: succeeds iff both are non-negative and the end is within `Length` (and the truncated indexer accepts `start`) |
| ReadOnlyBigSpans.SliceIntToSpanContents | StirlingLabs.BigSpans/ReadOnlyBigSpan.cs:594-603 | a successful slice is a valid span of elements `[start, start + length)` |
| ReadOnlyBigSpans.AsBytes | StirlingLabs.BigSpans/ReadOnlyBigSpan.cs:663-664 | the same memory as a valid byte view with exactly the view's bytes |
| ReadOnlyBigSpans.CastAs | StirlingLabs.BigSpans/ReadOnlyBigSpan.cs:667-668 | as written: a writable BigSpan of `Length * sizeof(T) / sizeof(T2)` elements over a prefix of the bytes |
| ReadOnlyBigSpans.CastAsAllowsWrites | StirlingLabs.BigSpans/ReadOnlyBigSpan.cs:667-668 | clearing the cast view zeroes every element of the read-only view |
| ReadOnlyBigSpans.CastAsReadOnly | StirlingLabs.BigSpans/ReadOnlyBigSpan.cs:667-668 | as intended: a read-only view with the same elements count and byte prefix |
| ReadOnlyBigSpans.CompareMemoryPrefix | StirlingLabs.BigSpans/ReadOnlyBigSpan.cs:679-684 | ArgumentOutOfRange iff `length` exceeds either element count; otherwise memcmp of the first `length` bytes |
| ReadOnlyBigSpans.CompareMemory | StirlingLabs.BigSpans/ReadOnlyBigSpan.cs:687-699 | the lexicographic order of the byte strings, 0 exactly for equal contents |
| ReadOnlyBigSpans.CompareMemoryMatchesBigSpan | StirlingLabs.BigSpans/ReadOnlyBigSpan.cs:687-699 | widening does not change the comparison |
| ReadOnlyBigSpans.CopyTo | StirlingLabs.BigSpans/ReadOnlyBigSpan.cs:416-451 | ArgumentException with nothing written iff the source is longer; otherwise memmove of the old elements, the rest unchanged |
| ReadOnlyBigSpans.TryCopyTo | StirlingLabs.BigSpans/ReadOnlyBigSpan.cs:461-493 | true iff the destination is long enough, with `CopyTo`'s effect; false writes nothing |
| ReadOnlyBigSpans.ToArray | StirlingLabs.BigSpans/ReadOnlyBigSpan.cs:630-659 | NotSupported iff more than `long.MaxValue` elements; otherwise a fresh array of exactly the view's bytes |
| BigSpanExtensions.ArrayCopyTo | StirlingLabs.BigSpans/BigSpanExtensions.cs:20-21 | the array's elements start the destination (ArgumentException iff it is shorter), the rest unchanged |
| BigSpanExtensions.SpanCopyTo | StirlingLabs.BigSpans/BigSpanExtensions.cs:23-54 | as written: ArgumentException iff the source is longer, ArgumentNull for an empty source, and otherwise a memmove of `srcLen - sizeof(T) * srcLen` bytes to `sizeof(T) * srcLen` bytes in |
| BigSpanExtensions.WrappedCopyLength | StirlingLabs.BigSpans/BigSpanExtensions.cs:49-53 | for elements wider than a byte that copy reaches past the end of the destination |
| BigSpanExtensions.CopyFromSpan | StirlingLabs.BigSpans/BigSpanExtensions.cs:23-54 | as intended: ArgumentException iff the span is longer, otherwise its elements start the destination and the rest is unchanged |
| BigSpanExtensions.SequenceEqual | StirlingLabs.BigSpans/BigSpanExtensions.cs:90-92 | true exactly when both hold the same elements |
| BigSpanExtensions.ReadOnlySequenceEqual | StirlingLabs.BigSpans/BigSpanExtensions.cs:95-97 | true exactly when both hold the same elements |
| BigSpanExtensions.SpanSequenceEqual | StirlingLabs.BigSpans/BigSpanExtensions.cs:110-117 | the span-first overload: true exactly for the same elements |
| BigSpanExtensions.SequenceCompare | StirlingLabs.BigSpans/BigSpanExtensions.cs:130-132 | the lexicographic order of the two byte strings |
| BigSpanExtensions.ReadOnlySequenceCompare | StirlingLabs.BigSpans/BigSpanExtensions.cs:135-137 | the lexicographic order of the two byte strings |
| BigSpanExtensions.SpanSequenceCompare | StirlingLabs.BigSpans/BigSpanExtensions.cs:150-157 | negating the swapped comparison gives the order of `a` against `b` |
| BigSpanExtensions.SequenceCompareAgreesWithEqual | StirlingLabs.BigSpans/BigSpanExtensions.cs:90-132 | `SequenceCompare` is 0 iff `SequenceEqual`, and swapping negates it |
| BigSpanExtensions.SpanSequenceCompareSwapped | StirlingLabs.BigSpans/BigSpanExtensions.cs:110-157 | the span-first overloads agree with the view-first ones on swapped operands |
| BigSpanExtensions.WriteFits | StirlingLabs.BigSpans/BigSpanExtensions.cs:177 | the `sizeof(T) <= (uint)Length` test never admits a value past the end and is exact below 2^32 bytes |
| BigSpanExtensions.WriteFitsRejectsLargeView | StirlingLabs.BigSpans/BigSpanExtensions.cs:177 | a view of 2^32 bytes refuses a one-byte value |
| BigSpanExtensions.StoreAt | StirlingLabs.BigSpans/BigSpanExtensions.cs:193 | the value's bytes land at `offset` and every other byte is unchanged |
| BigSpanExtensions.TryWrite | StirlingLabs.BigSpans/BigSpanExtensions.cs:174-181 | true iff `WriteFits`; then the value's bytes start the view, the rest is unchanged, and reading back gives the value; false writes nothing |
| BigSpanExtensions.TryWriteChecked | StirlingLabs.BigSpans/BigSpanExtensions.cs:174-181 | as intended: true exactly when the value fits the full length |
| BigSpanExtensions.WriteAtFits | StirlingLabs.BigSpans/BigSpanExtensions.cs:191 | the wrapping test `offset + sizeof(T) <= Length` is exact when the end does not wrap |
| BigSpanExtensions.WriteAtFitsAcceptsWrappedEnd | StirlingLabs.BigSpans/BigSpanExtensions.cs:191 | an offset 2 short of 2^64 passes for a 4-byte value in a 2-byte view |
| BigSpanExtensions.TryWriteAt | StirlingLabs.BigSpans/BigSpanExtensions.cs:188-195 | for non-wrapping ends: true iff the value fits at `offset`; exactly those bytes change, to the value |
| BigSpanExtensions.TryWriteAtChecked | StirlingLabs.BigSpans/BigSpanExtensions.cs:188-195 | as intended, for every offset: true exactly when `offset + sizeof(T) <= Length` |
| BigSpanExtensions.Write | StirlingLabs.BigSpans/BigSpanExtensions.cs:201-206 | ArgumentOutOfRange with nothing written iff `TryWrite` would refuse; otherwise its effect |
| BigSpanExtensions.WriteAt | StirlingLabs.BigSpans/BigSpanExtensions.cs:212-217 | ArgumentOutOfRange iff the value does not fit at `offset`; otherwise exactly those bytes change |
| BigSpanExtensions.Read | StirlingLabs.BigSpans/BigSpanExtensions.cs:237-238 | the first `sizeof(T)` bytes of the view |
| BigSpanExtensions.TryRead | StirlingLabs.BigSpans/BigSpanExtensions.cs:223-232 | a value exactly when the view holds `sizeof(T)` bytes, and then its first bytes |
| BigSpanExtensions.SliceLoop | StirlingLabs.BigSpans/BigSpanExtensions.cs:260-270 | the loop hands out one slice per piece of the view, in order |
| BigSpanExtensions.AsSmallSlices | StirlingLabs.BigSpans/BigSpanExtensions.cs:254-271 | ArgumentOutOfRange for a negative size, ArgumentNull without an action, otherwise the slices of at most `size` elements tiling the view in order |
| BigSpanExtensions.AsLargestSlices | StirlingLabs.BigSpans/BigSpanExtensions.cs:251-252 | slices of at most `int.MaxValue` elements tiling the view |
| BigSpanExtensions.AsSmallSlicesChecked | StirlingLabs.BigSpans/BigSpanExtensions.cs:254-271 | as intended: a non-positive size is refused, so every view is sliced |
| BigSpanExtensions.AsSmallSlicesWhile | StirlingLabs.BigSpans/BigSpanExtensions.cs:276-293 | the same tests; the slices up to and including the first one `func` rejects |
| BigSpanExtensions.SliceAt | StirlingLabs.BigSpans/BigSpanExtensions.cs:264-266 | the span over one piece of the view |
| BigSpanExtensions.SelectLoop | StirlingLabs.BigSpans/BigSpanExtensions.cs:327-343 | overflows iff `results` has fewer slots than slices; until then slot `j` holds `fn` of slice `j` |
| BigSpanExtensions.SelectSmallSlices | StirlingLabs.BigSpans/BigSpanExtensions.cs:320-344 | as written: `Length / size` slots; none for a short view, IndexOutOfRange for a partial last slice, DivideByZero for size 0, `fn` of every slice only for a non-zero multiple |
| BigSpanExtensions.SelectLargestSlices | StirlingLabs.BigSpans/BigSpanExtensions.cs:317-318 | `SelectSmallSlices` with size `int.MaxValue`: ArgumentNull without a function; no results for a view shorter than `int.MaxValue`; IndexOutOfRange for a longer length that is not a multiple of it; otherwise a fresh array of `fn` of every slice |
| BigSpanExtensions.SelectSmallSlicesChecked | StirlingLabs.BigSpans/BigSpanExtensions.cs:320-344 | as intended: one slot per slice (ceiling division), holding `fn` of each slice in order |
| BigSpanExtensions.ReadOnlySliceLoop | StirlingLabs.BigSpans/BigSpanExtensions.cs:304-314 | the read-only slices, in order; below 2^32 elements never refused |
| BigSpanExtensions.ReadOnlyAsSmallSlices | StirlingLabs.BigSpans/BigSpanExtensions.cs:298-315 | the argument tests of the mutable variant, then the read-only slices |
| BigSpanExtensions.ReadOnlySliceAt | StirlingLabs.BigSpans/BigSpanExtensions.cs:308-310 | a read-only slicing step yields the piece's slice, and is refused only past 2^32 elements |
| BigSpanExtensions.ReadOnlySelectLoop | StirlingLabs.BigSpans/BigSpanExtensions.cs:356-372 | as `SelectLoop`, IndexOutOfRange only from the truncated indexer past 2^32 |
| BigSpanExtensions.ReadOnlySelectSmallSlices | StirlingLabs.BigSpans/BigSpanExtensions.cs:349-373 | the floor-sized results of the mutable variant; below 2^32 elements the same outcome |
| BigSpanExtensions.ReadOnlySlicingStopsPastTwo32 | StirlingLabs.BigSpans/BigSpanExtensions.cs:308-310 | on 2^32 + 1 elements the second one-element slice throws |
| SmallSlices.Pieces | StirlingLabs.BigSpans/BigSpanExtensions.cs:260-270 | the pieces are empty exactly for an empty range |
| SmallSlices.PiecesTile | StirlingLabs.BigSpans/BigSpanExtensions.cs:260-270 | the pieces tile the range: adjacent, full-sized except a shorter non-empty last one |
| SmallSlices.PiecesCount | StirlingLabs.BigSpans/BigSpanExtensions.cs:327 | there are `ceil(length / size)` pieces |
| SmallSlices.PiecesCover | StirlingLabs.BigSpans/BigSpanExtensions.cs:260-270 | the pieces together hold every element once, in order |
| SmallSlices.VisitsCover | StirlingLabs.BigSpans/BigSpanExtensions.cs:254-271 | every slice handed out is valid and holds its piece's elements, and together they hold the whole view |
| SmallSlices.ZeroSizeMakesNoProgress | StirlingLabs.BigSpans/BigSpanExtensions.cs:260-270 | with size 0 a slicing step stays where it is |
| SmallSlices.FloorCountMissesShortView | StirlingLabs.BigSpans/BigSpanExtensions.cs:327 | five elements in slices of ten: 0 slots for 1 slice |
| SmallSlices.FloorCountMissesPartialSlice | StirlingLabs.BigSpans/BigSpanExtensions.cs:327 | five elements in slices of two: 2 slots for 3 slices |
| Enumerators.Advance | StirlingLabs.BigSpans/BigSpanEnumerator.cs:30-38 | a step moves to the next index iff it lies inside the view; a refused step leaves the cursor in place |
| Enumerators.UnsafeAdvance | StirlingLabs.BigSpans/UnsafeEnumerator.cs:93-99 | as written: moves iff the position is below the length |
| Enumerators.AdvanceRun | StirlingLabs.BigSpans/BigSpanEnumerator.cs:30-38 | after `count` moves, call `j` moves iff `count + j` is inside the view |
| Enumerators.EnumeratesInOrder | StirlingLabs.BigSpans/BigSpanEnumerator.cs:18-38 | from a fresh cursor the first `Length` calls return true at indices `0..Length-1`, every later call false |
| Enumerators.UnsafeRunIsEmpty | StirlingLabs.BigSpans/UnsafeEnumerator.cs:93-103 | from construction or `Reset` every `MoveNext` returns false |
| Enumerators.CurrentAfterMove | StirlingLabs.BigSpans/BigSpanEnumerator.cs:42-46 | after a move `Current` reads an element of the view |
| Enumerators.BigSpanEnumerator.constructor | StirlingLabs.BigSpans/BigSpanEnumerator.cs:18-26 | the cursor starts before the first element |
| Enumerators.BigSpanEnumerator.MoveNext | StirlingLabs.BigSpans/BigSpanEnumerator.cs:30-38 | follows `Advance` |
| Enumerators.BigSpanEnumerator.Current | StirlingLabs.BigSpans/BigSpanEnumerator.cs:42-46 | the bounds-checked element under the cursor; IndexOutOfRange before the first move |
| Enumerators.ReadOnlyCurrentAfterMove | StirlingLabs.BigSpans/ReadOnlyBigSpanEnumerator.cs:42-46 | below 2^32 elements a moved cursor reads an element |
| Enumerators.ReadOnlyCurrentRejectsSecondElement | StirlingLabs.BigSpans/ReadOnlyBigSpanEnumerator.cs:42-46 | on 2^32 + 1 elements `Current` throws at element 1 |
| Enumerators.ReadOnlyBigSpanEnumerator.constructor | StirlingLabs.BigSpans/ReadOnlyBigSpanEnumerator.cs:18-26 | the cursor starts before the first element |
| Enumerators.ReadOnlyBigSpanEnumerator.MoveNext | StirlingLabs.BigSpans/ReadOnlyBigSpanEnumerator.cs:30-38 | follows `Advance` |
| Enumerators.ReadOnlyBigSpanEnumerator.Current | StirlingLabs.BigSpans/ReadOnlyBigSpanEnumerator.cs:42-46 | the element through the truncated indexer |
| Enumerators.SignedOffset | StirlingLabs.BigSpans/UnsafeEnumerator.cs:105-109 | the `(nint)` cast: positions from 2^63 on are negative |
| Enumerators.UnsafeEnumerator.FromPointer | StirlingLabs.BigSpans/UnsafeEnumerator.cs:18-35 | records pointer and length, starts before the first element |
| Enumerators.UnsafeEnumerator.FromSpan | StirlingLabs.BigSpans/UnsafeEnumerator.cs:61-74 | a span's pinnable reference and sign-extended length |
| Enumerators.UnsafeEnumerator.FromBigSpan | StirlingLabs.BigSpans/UnsafeEnumerator.cs:77-82 | the view's reference and length |
| Enumerators.UnsafeEnumerator.FromReadOnlyBigSpan | StirlingLabs.BigSpans/UnsafeEnumerator.cs:85-90 | the view's reference and length |
| Enumerators.UnsafeEnumerator.Reset | StirlingLabs.BigSpans/UnsafeEnumerator.cs:102-103 | back before the first element |
| Enumerators.UnsafeEnumerator.MoveNext | StirlingLabs.BigSpans/UnsafeEnumerator.cs:93-99 | follows `UnsafeAdvance`; from the start it never moves |
| Enumerators.UnsafeEnumerator.MoveNextChecked | StirlingLabs.BigSpans/UnsafeEnumerator.cs:93-99 | as intended: follows `Advance` |
| Enumerators.UnsafeEnumerator.Current | StirlingLabs.BigSpans/UnsafeEnumerator.cs:105-109 | unchecked pointer arithmetic; from the start, the element before the pointer |
| Enumerators.UnsafeEnumerator.GetEnumerator | StirlingLabs.BigSpans/UnsafeEnumerator.cs:127-128 | the enumerator itself |
| BinaryPrimitives.DecodeEncode | StirlingLabs.BigSpans/BinaryPrimitives.Read.cs:28-52 | decoding the little-endian encoding of any value of any width gives it back |
| BinaryPrimitives.EncodeDecode | StirlingLabs.BigSpans/BinaryPrimitives.Write.cs:33-48 | encoding the decoding of any `sizeof(T)` bytes gives them back |
| BinaryPrimitives.FromLittleEndianBytes | StirlingLabs.BigSpans/BinaryPrimitives.Read.cs:28-52 | decoding the bytes of a number gives the number |
| BinaryPrimitives.LittleEndianBytesFrom | StirlingLabs.BigSpans/BinaryPrimitives.Write.cs:33-48 | encoding the number that bytes denote gives the bytes |
| BinaryPrimitives.ValueOfUnsigned | StirlingLabs.BigSpans/BinaryPrimitives.Read.cs:28-52 | a value is the value of its two's complement pattern |
| BinaryPrimitives.ReverseEndianness | StirlingLabs.BigSpans/BinaryPrimitives.ReverseEndianness.cs:12-22 | the result is a value of the same type |
| BinaryPrimitives.EncodeReversed | StirlingLabs.BigSpans/BinaryPrimitives.ReverseEndianness.cs:12-22 | reversing a value reverses its bytes |
| BinaryPrimitives.ReverseEndiannessInvolution | StirlingLabs.BigSpans/BinaryPrimitives.ReverseEndianness.cs:12-22 | reversing twice gives the value back |
| BinaryPrimitives.ReverseReverse | StirlingLabs.BigSpans/BinaryPrimitives.ReverseEndianness.cs:12-22 | reversing a byte sequence twice gives it back |
| BinaryPrimitives.ReversedHostRead | StirlingLabs.BigSpans/BinaryPrimitives.Read.cs:28-32 | on a big-endian host the reversed host read is the little-endian decoding |
| BinaryPrimitives.ReversedHostBytes | StirlingLabs.BigSpans/BinaryPrimitives.Write.cs:33-34 | on a big-endian host storing the reversed value lays out the little-endian bytes |
| BinaryPrimitives.ReadLittleEndian | StirlingLabs.BigSpans/BinaryPrimitives.Read.cs:28-52 | on either host, the little-endian decoding of the first `sizeof(T)` bytes |
| BinaryPrimitives.TryReadLittleEndian | StirlingLabs.BigSpans/BinaryPrimitives.Read.cs:122-175 | a value iff the view holds `sizeof(T)` bytes, equal to `ReadLittleEndian` |
| BinaryPrimitives.StoredBytes | StirlingLabs.BigSpans/BinaryPrimitives.Write.cs:109-110 | on either host the bytes written are the little-endian encoding |
| BinaryPrimitives.TryWriteLittleEndian | StirlingLabs.BigSpans/BinaryPrimitives.Write.cs:109-126 | true iff `WriteFits`; then the encoding starts the view, the rest is unchanged, and reading back gives the value |
| BinaryPrimitives.WriteLittleEndian | StirlingLabs.BigSpans/BinaryPrimitives.Write.cs:33-48 | ArgumentOutOfRange iff it does not fit; otherwise the same effect and round trip |
| BinaryPrimitives.ReadsBackWritten | StirlingLabs.BigSpans/BinaryPrimitives.Read.cs:28-52 | a view starting with the encoding of `v` reads back `v` |
| BinaryPrimitives.WriteRefusesViewOfTwo32Bytes | StirlingLabs.BigSpans/BinaryPrimitives.Write.cs:109-110 | through the `(uint)Length` test a view of 2^32 bytes refuses every integer width, although it has room |
| Memory.Copy | StirlingLabs.BigSpans/BigSpanHelpers.Copy.cs:9-10 | memmove: the destination holds the source's old bytes, nothing else changes |
| Memory.WriteUnaligned | StirlingLabs.BigSpans/BigSpanExtensions.cs:179 | the value's bytes are stored at the reference, nothing else changes |
| Memory.InitBlock | StirlingLabs.BigSpans/BigSpan.cs:520-521 | every one of `count` bytes is the value, nothing else changes |
| Memory.Memcmp | StirlingLabs.BigSpans/UnmanagedMemory.Libc.cs:26-28 | 0 exactly for equal byte strings |
| Memory.CompareBytes | StirlingLabs.BigSpans/UnmanagedMemory.Libc.cs:26-28 | 0 exactly when the bytes at both references agree |
| Memory.MemcmpAntisymmetric | StirlingLabs.BigSpans/UnmanagedMemory.Libc.cs:26-28 | swapping the operands negates memcmp |
| Memory.Lexicographic | StirlingLabs.BigSpans/BigSpan.cs:869-881 | the reference order: 0 exactly for equal strings |
| Memory.LexicographicAntisymmetric | StirlingLabs.BigSpans/BigSpanExtensions.cs:150-152 | swapping the operands negates the order |
| Memory.PrefixThenLength | StirlingLabs.BigSpans/BigSpan.cs:874-880 | memcmp of the common prefix, ties broken by length, is the lexicographic order |
| Views.CompareMemoryOf | StirlingLabs.BigSpans/BigSpan.cs:869-881 | the shared `CompareMemory` body is the lexicographic order of the bytes |
| Views.Resolve | StirlingLabs.BigSpans/BigSpan.cs:355-362 | the wrapping position equals the exact one when that is not negative, and otherwise lies at or past the length |
| Views.ResolvedDistance | StirlingLabs.BigSpans/BigSpan.cs:364-374 | the wrapping distance between two resolved indices is the exact distance, wrapped |
| Views.SubRegion | StirlingLabs.BigSpans/BigSpan.cs:729-741 | a sub-region of a valid region is valid and holds the matching elements |
| BlockClear.ZeroMemory | StirlingLabs.BigSpans/BigSpanHelpers.ZeroMemory.cs:7-25 | every byte of the block is zero, nothing else changes |
| BlockClear.ClearWithReferences | StirlingLabs.BigSpans/BigSpanHelpers.ClearWithReferences.cs:9-77 | every byte of the `8 * pointerSizeLength` bytes is zero, nothing else changes |
| BlockClear.ZeroEightWordsBelow | StirlingLabs.BigSpans/BigSpanHelpers.ClearWithReferences.cs:17-27 | one loop turn zeroes the eight words below `l` |
| BlockClear.ClearFewWords | StirlingLabs.BigSpans/BigSpanHelpers.ClearWithReferences.cs:44-76 | the overlapping stores zero all of 1 to 7 words |
| BlockClear.ClearWithoutReferences | StirlingLabs.BigSpans/BigSpanHelpers.ClearWithoutReferences.cs:11-540 | every byte of the block is zero, nothing else changes, on either platform |
| BlockClear.ClearTail | StirlingLabs.BigSpans/BigSpanHelpers.ClearWithoutReferences.cs:516-538 | the stores selected by bits 8, 4, 2, 1 zero the remaining `rest % 16` bytes |
| BlockClear.AlignPrologue | StirlingLabs.BigSpans/BigSpanHelpers.ClearWithoutReferences.cs:442-471 | at most 7 bytes zeroed, bringing the address to a multiple of 8 |
| BlockClear.AlignmentArithmetic | StirlingLabs.BigSpans/BigSpanHelpers.ClearWithoutReferences.cs:442-471 | for every address the prologue's steps reach the next multiple of 8 |
| BlockClear.SmallClear | StirlingLabs.BigSpans/BigSpanHelpers.ClearWithoutReferences.cs:29-433 | the switch arms zero exactly their 1 to 32 bytes |
| BlockClear.SmallClear1To4 | StirlingLabs.BigSpans/BigSpanHelpers.ClearWithoutReferences.cs:31-43 | arms 1 to 4 zero exactly their bytes |
| BlockClear.SmallClear5To8 | StirlingLabs.BigSpans/BigSpanHelpers.ClearWithoutReferences.cs:44-65 | arms 5 to 8 zero exactly their bytes |
| BlockClear.SmallClear9To12 | StirlingLabs.BigSpans/BigSpanHelpers.ClearWithoutReferences.cs:66-106 | arms 9 to 12 zero exactly their bytes |
| BlockClear.SmallClear13To16 | StirlingLabs.BigSpans/BigSpanHelpers.ClearWithoutReferences.cs:107-154 | arms 13 to 16 zero exactly their bytes |
| BlockClear.SmallClear17To20 | StirlingLabs.BigSpans/BigSpanHelpers.ClearWithoutReferences.cs:155-215 | arms 17 to 20 zero exactly their bytes |
| BlockClear.SmallClear21To24 | StirlingLabs.BigSpans/BigSpanHelpers.ClearWithoutReferences.cs:216-281 | arms 21 to 24 zero exactly their bytes |
| BlockClear.SmallClear25To28 | StirlingLabs.BigSpans/BigSpanHelpers.ClearWithoutReferences.cs:282-354 | arms 25 to 28 zero exactly their bytes |
| BlockClear.SmallClear29To32 | StirlingLabs.BigSpans/BigSpanHelpers.ClearWithoutReferences.cs:355-432 | arms 29 to 32 zero exactly their bytes |
| BlockFill.MakeVector | StirlingLabs.BigSpans/BigSpanHelpers.Fill.cs:37-85 | a vector exactly for element sizes 1, 2, 4, 8 and the supported 16/32-byte cases, and then the element repeated over `Vector<byte>.Count` bytes |
| BlockFill.StoreVector | StirlingLabs.BigSpans/BigSpanHelpers.Fill.cs:101-102 | a vector store at an element boundary extends the repeated pattern |
| BlockFill.StoreElement | StirlingLabs.BigSpans/BigSpanHelpers.Fill.cs:138-151 | an element store extends the repeated pattern by one element |
| BlockFill.Fill | StirlingLabs.BigSpans/BigSpanHelpers.Fill.cs:13-178 | every one of the `numElements` elements is the value, nothing outside them changes |
| BlockFill.VectorFill | StirlingLabs.BigSpans/BigSpanHelpers.Fill.cs:87-126 | the paired, extra and final overlapping vectors fill every element |
| BlockFill.VectorArithmetic | StirlingLabs.BigSpans/BigSpanHelpers.Fill.cs:87-126 | whole vectors hold whole elements and the pair loop's guard means two vectors fit |
| BlockFill.ScalarFill | StirlingLabs.BigSpans/BigSpanHelpers.Fill.cs:129-177 | the unrolled fallback fills every element |
| BlockFill.StoreLowBits | StirlingLabs.BigSpans/BigSpanHelpers.Fill.cs:156-177 | the 4-, 2- and 1-element stores complete the fill from `numElements & ~7` |
| BlockFill.StoreEight | StirlingLabs.BigSpans/BigSpanHelpers.Fill.cs:140-149 | one unrolled turn extends the pattern by eight elements |
| BlockFill.StoreFour | StirlingLabs.BigSpans/BigSpanHelpers.Fill.cs:156-163 | four more elements |
| BlockFill.StoreTwo | StirlingLabs.BigSpans/BigSpanHelpers.Fill.cs:167-172 | two more elements |
| BlockFill.PatternedElements | StirlingLabs.BigSpans/BigSpanHelpers.Fill.cs:13-178 | every element of a filled block reads back as the value |
| NetStandard2Compatibility.CompareTo | StirlingLabs.BigSpans/Compatibility/NetStandard2Compatibility.cs:9-16 | -1, 0, 1 exactly for less, equal, greater |
| NetStandard2Compatibility.CompareToInt | StirlingLabs.BigSpans/Compatibility/NetStandard2Compatibility.cs:18-19 | a negative `int` is below every `nuint`; otherwise the unsigned comparison |
| NetStandard2Compatibility.CompareToLong | StirlingLabs.BigSpans/Compatibility/NetStandard2Compatibility.cs:21-22 | a negative `long` is below every `nuint`; otherwise the unsigned comparison |
| NetStandard2Compatibility.CompareToAntisymmetric | StirlingLabs.BigSpans/Compatibility/NetStandard2Compatibility.cs:9-16 | swapping the operands negates the comparison |
| Bits.IsPow2Int | StirlingLabs.BigSpans/BigSpanHelpers.cs:41 | `IsPow2(int)` holds exactly for `2^k`, `0 <= k <= 30` |
| Bits.IsPow2UInt | StirlingLabs.BigSpans/BigSpanHelpers.cs:48 | `IsPow2(uint)` holds exactly for `2^k`, `0 <= k <= 31` |
| Bits.AndPredecessor | StirlingLabs.BigSpans/BigSpanHelpers.cs:41 | `v & (v - 1)` is zero exactly for powers of two |
| Bits.PowerOfTwoBitTrick | StirlingLabs.BigSpans/BigSpanHelpers.cs:41 | on 32-bit patterns the test with the sign check decides exactly the powers of two |
| Bits.MinValueFoolsBitTrick | StirlingLabs.BigSpans/BigSpanHelpers.cs:41 | `int.MinValue` passes the bit test, and only `value > 0` rejects it |

## Left out

- Null checks of arguments that the model cannot express are not modelled, in particular `ArgumentNullException` for a null array in the
  array constructors' internal variants. The missing-action and missing-function cases of `AsSmallSlices` and `SelectSmallSlices` are modelled.
- `ArrayTypeMismatchException` for covariant arrays (BigSpan.cs:205-206): the model has no type hierarchy.
- The pointer constructors' `NotSupportedException` for element types with references and their `length < 0` test: a `nuint` is never negative and element types are byte sizes here.
- The pinning adapters (`AsPinnedEnumerables`, BigSpan.cs:82-178) and `UnsafeEnumeratorExtensions`: they wrap `fixed` statements and `IEnumerable` plumbing.
- `AsReadOnlyBigSpan` (BigSpanExtensions.cs:244-249) reinterprets the view in place; it is the same value as `ReadOnlyBigSpans.FromBigSpan`.
- `ReadDouble`/`ReadSingle`/`WriteDouble`/`WriteSingle` and their `Try` forms: floating point is out of scope; they only reinterpret the 32- and 64-bit integer paths. The one-byte `ReverseEndianness` overloads are the identity.
- Streams, `ToString`, `Equals` and `GetHashCode` (which throw NotSupported), the debug view, and raw allocation in `UnmanagedMemory`.
- `RuntimeHelpers.IsReferenceOrContainsReferences<T>()` is a parameter `containsReferences`. `Vector.IsHardwareAccelerated` and `Vector<byte>.Count` are the parameter `BlockFill.Vectors`. The host byte order is the parameter `littleEndianHost`.
- Only the modern (non-netstandard2.0) build of a 64-bit process is modelled; `ClearWithoutReferences` also models the 32-bit path, where `Is64Bit` is false.
- BigSpans.Clear: requires `sizeof(T)` to be a multiple of 8 when the type holds references, as the runtime guarantees for such types.
- BigSpans.ToArray: an empty view yields a fresh empty array here, where the source returns the shared `Array.Empty<T>()`; limits on managed array sizes are not modelled.
- BigSpanExtensions.TryWriteAt: requires that `offset + sizeof(T)` does not wrap; with a wrapped end the source writes outside the view, which the model cannot express (`WriteAtFitsAcceptsWrappedEnd` shows the test passing).
- BigSpanExtensions.WriteAt: the same no-wrap precondition as `TryWriteAt`.
- BigSpanExtensions.AsSmallSlices: requires `size == 0` only for an empty view, since the source loops forever otherwise (`ZeroSizeMakesNoProgress`); the same for `AsSmallSlicesWhile`, `ReadOnlyAsSmallSlices` and `SliceLoop`.
- BigSpanExtensions.Read: requires the view to hold `sizeof(T)` bytes; the source reads past the end otherwise. The same for BinaryPrimitives.ReadLittleEndian.
- BigSpanExtensions.TryRead: a failed read's `out` value is left uninitialised by the source; here it is `None`.
- BigSpanExtensions.ReadOnlyAsSmallSlices: at 2^32 elements or more only "refused with IndexOutOfRange, or the exact slices" is stated, not which.
- BigSpanExtensions.ReadOnlySelectSmallSlices: at 2^32 elements or more the same weaker statement.
- BigSpanExtensions.AsSmallSlicesWhile: the callbacks' own effects are not modelled; actions and functions are pure here.
- Enumerators.UnsafeEnumerator.Current: for positions from 2^63 on other than the start only the block is stated.
- Memory.Memcmp: returns the sign of the first difference; libc's `memcmp` may return any integer of that sign.
- BinaryPrimitives.TryWriteLittleEndian: refuses exactly what `TryWrite` refuses, including views of 2^32 bytes and more whose low 32 bits are too small.

## Findings

| source | as written | input that shows it | evidently intended | confidence | as-written member | corrected member |
|---|---|---|---|---|---|---|
| StirlingLabs.BigSpans/BigSpan.cs:364-374 | the range end is resolved with the start's from-end flag and `end - start` is not checked | `[..^1]` on one element yields 1 element; `[0..5]` on one element yields 5 | each end with its own flag, ArgumentOutOfRange unless `start <= end <= Length` | not executed | BigSpans.RangeAtIgnoresEndFlag | BigSpans.RangeChecked |
| StirlingLabs.BigSpans/BigSpan.cs:712-718 | `Slice(nuint start)` checks and offsets with `(uint)start` and `(uint)Length` | `Slice(2^32)` on 5 elements succeeds with a longer view | `start <= Length` on the full width | not executed | BigSpans.SliceFromTruncatesStart | BigSpans.SliceFromChecked |
| StirlingLabs.BigSpans/BigSpan.cs:729-741 | `start + length` wraps before the check; offset uses `(uint)start` | `Slice(2^64 - 1, 1)` passes; `Slice(2^32, 1)` starts at element 0 | exact `start + length <= Length`, full offset | not executed | BigSpans.SliceWrapsEnd | BigSpans.SliceChecked |
| StirlingLabs.BigSpans/BigSpan.cs:495-526 | `Clear` and `Fill` use `(uint)_length` elements | a view of 2^32 + 3 elements: only 3 elements cleared or filled | every element | not executed | BigSpans.TouchedCountTruncates | BigSpans.ClearAll |
| StirlingLabs.BigSpans/BigSpan.cs:861-866 | `CompareMemory(other, length)` passes an element count to memcmp as a byte count | 4-byte elements `[7,0,0,0]` and `[7,0,0,1]` compare equal over 1 element | compare `length` elements | not executed | BigSpans.CompareMemoryPrefixCountsBytes | BigSpans.CompareMemoryPrefixChecked |
| StirlingLabs.BigSpans/ReadOnlyBigSpan.cs:201-211 | the indexer compares `(uint)index` with `(uint)Length` | index 2^32 + 5 of 10 elements passes; index 0 of 2^32 elements throws | `index < Length` | not executed | ReadOnlyBigSpans.IndexPassesPastView | ReadOnlyBigSpans.IndexChecked |
| StirlingLabs.BigSpans/ReadOnlyBigSpan.cs:267-272 | `IsEmpty` tests `(uint)Length` | a view of 2^32 elements is "empty" | `Length == 0` | not executed | ReadOnlyBigSpans.IsEmptyTruncates | ReadOnlyBigSpans.IsEmptyChecked |
| StirlingLabs.BigSpans/ReadOnlyBigSpan.cs:667-668 | `CastAs` on a read-only view returns a writable `BigSpan<T2>` | clearing the cast of a read-only byte view zeroes it | a `ReadOnlyBigSpan<T2>` | not executed | ReadOnlyBigSpans.CastAsAllowsWrites | ReadOnlyBigSpans.CastAsReadOnly |
| StirlingLabs.BigSpans/BigSpanExtensions.cs:320-344 | `SelectSmallSlices` allocates `Length / size` results | 5 elements in slices of 10 give no results; in slices of 2 the third slice overflows | one result per slice, `ceil(Length / size)` | not executed | SmallSlices.FloorCountMissesPartialSlice | BigSpanExtensions.SelectSmallSlicesChecked |
| StirlingLabs.BigSpans/BigSpanExtensions.cs:254-271 | `size < 0` is refused but `size == 0` is accepted | size 0 on a non-empty view never advances | refuse `size <= 0` | not executed | SmallSlices.ZeroSizeMakesNoProgress | BigSpanExtensions.AsSmallSlicesChecked |
| StirlingLabs.BigSpans/BigSpanExtensions.cs:23-54 | the copy length `length - sizeof(T) * srcLen` mixes elements and bytes and the target is offset by the source's size; an empty source throws ArgumentNull because its pinnable reference is null | a byte span copies nothing; for wider elements the length wraps past the destination; an empty span throws | copy `sizeof(T) * srcLen` bytes to the start, and an empty source copies nothing | not executed | BigSpanExtensions.WrappedCopyLength | BigSpanExtensions.CopyFromSpan |
| StirlingLabs.BigSpans/BigSpanExtensions.cs:174-181 | `TryWrite` compares with `(uint)Length` | a view of 2^32 bytes refuses a one-byte value | compare with the full length | not executed | BigSpanExtensions.WriteFitsRejectsLargeView | BigSpanExtensions.TryWriteChecked |
| StirlingLabs.BigSpans/BigSpanExtensions.cs:188-195 | `offset + sizeof(T)` wraps before the check | offset 2^64 - 2, a 4-byte value and a 2-byte view pass | an end that cannot wrap | not executed | BigSpanExtensions.WriteAtFitsAcceptsWrappedEnd | BigSpanExtensions.TryWriteAtChecked |
| StirlingLabs.BigSpans/UnsafeEnumerator.cs:93-99 | `MoveNext` moves only from `offset < length`, but the cursor starts at `~0` | every `MoveNext` after construction returns false | step to the wrapped successor, as the view enumerators do | not executed | Enumerators.UnsafeRunIsEmpty | Enumerators.UnsafeEnumerator.MoveNextChecked |
