// `BinaryPrimitives`: reading and writing 16-, 32- and 64-bit integers as
// little-endian bytes at the start of a byte view. The library reads and
// writes in host byte order and reverses the bytes on a big-endian host, so
// the host's byte order is a parameter here; the byte order of a value is
// stated by `LittleEndianBytes` and `FromLittleEndian`, and byte reversal is
// a function on byte sequences.
module BinaryPrimitives {
  import opened NativeInts
  import opened Errors
  import opened Memory
  import BigSpans
  import ReadOnlyBigSpans
  import opened BigSpanExtensions

  /** The integer types with little-endian readers and writers. */
  datatype IntKind = Int16 | Int32 | Int64 | UInt16 | UInt32 | UInt64
  {
    /** `sizeof(T)` */
    function Size(): (n: nat)
      ensures n == 2 || n == 4 || n == 8
    {
      match this
      case Int16 | UInt16 => 2
      case Int32 | UInt32 => 4
      case Int64 | UInt64 => 8
    }

    predicate Signed()
    {
      this == Int16 || this == Int32 || this == Int64
    }

    /** The number of bit patterns, 2^(8 * sizeof(T)). */
    function Modulus(): (m: nat)
      ensures m == 2 * Half()
    {
      Pow256(Size())
    }

    /** Half of the bit patterns, 2^(8 * sizeof(T) - 1). */
    function Half(): (h: nat)
      ensures h > 0
    {
      128 * Pow256(Size() - 1)
    }

    /** `v` is a value of this type. */
    predicate Holds(v: int)
    {
      if Signed() then -(Half() as int) <= v < Half() else 0 <= v < Modulus()
    }
  }

  function Pow256(n: nat): (p: nat)
    ensures p > 0
  {
    if n == 0 then 1 else 256 * Pow256(n - 1)
  }

  /** The bit pattern of `v`: two's complement for a negative value. */
  function Unsigned(k: IntKind, v: int): (u: nat)
    requires k.Holds(v)
    ensures u < k.Modulus()
    ensures (u - v) % k.Modulus() == 0
  {
    if v < 0 then v + k.Modulus() else v
  }

  /** The value with bit pattern `u`: negative for a signed type when the top bit is set. */
  function ToValue(k: IntKind, u: nat): (v: int)
    requires u < k.Modulus()
    ensures k.Holds(v)
    ensures Unsigned(k, v) == u
  {
    if k.Signed() && u >= k.Half() then u - k.Modulus() else u
  }

  /** A value is the value of its own bit pattern. */
  lemma ValueOfUnsigned(k: IntKind, v: int)
    requires k.Holds(v)
    ensures ToValue(k, Unsigned(k, v)) == v
  {
  }

  /** The `n` bytes of `u`, least significant first. */
  function LittleEndianBytes(n: nat, u: nat): (bs: seq<byte>)
    requires u < Pow256(n)
    ensures |bs| == n
  {
    if n == 0 then []
    else [(u % 256) as byte] + LittleEndianBytes(n - 1, u / 256)
  }

  /** The number whose bytes, least significant first, are `bs`. */
  function FromLittleEndian(bs: seq<byte>): (u: nat)
    ensures u < Pow256(|bs|)
  {
    if bs == [] then 0
    else bs[0] as int + 256 * FromLittleEndian(bs[1..])
  }

  /** Decoding the bytes of a number gives the number back. */
  lemma {:induction false} FromLittleEndianBytes(n: nat, u: nat)
    requires u < Pow256(n)
    ensures FromLittleEndian(LittleEndianBytes(n, u)) == u
  {
    if n > 0 {
      var bs := LittleEndianBytes(n, u);
      assert bs[1..] == LittleEndianBytes(n - 1, u / 256);
      FromLittleEndianBytes(n - 1, u / 256);
    }
  }

  /** Encoding the number that bytes denote gives the bytes back. */
  lemma {:induction false} LittleEndianBytesFrom(bs: seq<byte>)
    ensures LittleEndianBytes(|bs|, FromLittleEndian(bs)) == bs
  {
    if bs != [] {
      var rest := FromLittleEndian(bs[1..]);
      DivModUnique(FromLittleEndian(bs), 256, rest, bs[0] as int);
      LittleEndianBytesFrom(bs[1..]);
      assert bs == [bs[0]] + bs[1..];
    }
  }

  /** The bytes of `bs` in the opposite order. */
  function Reverse(bs: seq<byte>): (r: seq<byte>)
    ensures |r| == |bs|
    ensures forall i :: 0 <= i < |bs| ==> r[i] == bs[|bs| - 1 - i]
  {
    if bs == [] then [] else Reverse(bs[1..]) + [bs[0]]
  }

  lemma ReverseReverse(bs: seq<byte>)
    ensures Reverse(Reverse(bs)) == bs
  {
    assert forall i :: 0 <= i < |bs| ==> Reverse(Reverse(bs))[i] == bs[i];
  }

  /** The little-endian encoding of `v`: the bytes of its bit pattern, least significant first. */
  function EncodeLittleEndian(k: IntKind, v: int): (bs: seq<byte>)
    requires k.Holds(v)
    ensures |bs| == k.Size()
  {
    LittleEndianBytes(k.Size(), Unsigned(k, v))
  }

  /** The value whose little-endian encoding is `bs`. */
  function DecodeLittleEndian(k: IntKind, bs: seq<byte>): (v: int)
    requires |bs| == k.Size()
    ensures k.Holds(v)
  {
    ToValue(k, FromLittleEndian(bs))
  }

  /** Decoding inverts encoding, for every value of every type. */
  lemma DecodeEncode(k: IntKind, v: int)
    requires k.Holds(v)
    ensures DecodeLittleEndian(k, EncodeLittleEndian(k, v)) == v
  {
    FromLittleEndianBytes(k.Size(), Unsigned(k, v));
    ValueOfUnsigned(k, v);
  }

  /** Encoding inverts decoding, for every sequence of `sizeof(T)` bytes. */
  lemma EncodeDecode(k: IntKind, bs: seq<byte>)
    requires |bs| == k.Size()
    ensures EncodeLittleEndian(k, DecodeLittleEndian(k, bs)) == bs
  {
    LittleEndianBytesFrom(bs);
  }

  /** How a host lays out `v` in memory: little-endian, or reversed on a big-endian host. */
  function HostBytes(littleEndianHost: bool, k: IntKind, v: int): (bs: seq<byte>)
    requires k.Holds(v)
    ensures |bs| == k.Size()
  {
    if littleEndianHost then EncodeLittleEndian(k, v) else Reverse(EncodeLittleEndian(k, v))
  }

  /** What a host reads from `bs` (`Unsafe.ReadUnaligned<T>`). */
  function HostValue(littleEndianHost: bool, k: IntKind, bs: seq<byte>): (v: int)
    requires |bs| == k.Size()
    ensures k.Holds(v)
  {
    DecodeLittleEndian(k, if littleEndianHost then bs else Reverse(bs))
  }

  /**
    * `ReverseEndianness(value)`: the value whose little-endian bytes are
    * those of `v` in the opposite order.
    */
  function ReverseEndianness(k: IntKind, v: int): (r: int)
    requires k.Holds(v)
    ensures k.Holds(r)
  {
    DecodeLittleEndian(k, Reverse(EncodeLittleEndian(k, v)))
  }

  /** Reversing the bytes of a value reverses its encoding. */
  lemma EncodeReversed(k: IntKind, v: int)
    requires k.Holds(v)
    ensures EncodeLittleEndian(k, ReverseEndianness(k, v)) == Reverse(EncodeLittleEndian(k, v))
  {
    EncodeDecode(k, Reverse(EncodeLittleEndian(k, v)));
  }

  /** Reversing twice gives the value back. */
  lemma ReverseEndiannessInvolution(k: IntKind, v: int)
    requires k.Holds(v)
    ensures ReverseEndianness(k, ReverseEndianness(k, v)) == v
  {
    EncodeReversed(k, v);
    ReverseReverse(EncodeLittleEndian(k, v));
    DecodeEncode(k, v);
  }

  /** On a big-endian host, the reversed host read is the little-endian decoding. */
  lemma ReversedHostRead(k: IntKind, bs: seq<byte>)
    requires |bs| == k.Size()
    ensures ReverseEndianness(k, HostValue(false, k, bs)) == DecodeLittleEndian(k, bs)
  {
    EncodeDecode(k, Reverse(bs));
    ReverseReverse(bs);
  }

  /** On a big-endian host, storing the reversed value lays out the little-endian encoding. */
  lemma ReversedHostBytes(k: IntKind, v: int)
    requires k.Holds(v)
    ensures HostBytes(false, k, ReverseEndianness(k, v)) == EncodeLittleEndian(k, v)
  {
    EncodeReversed(k, v);
    ReverseReverse(EncodeLittleEndian(k, v));
  }

  /**
    * `ReadXxxLittleEndian(source)`: the host read of the first `sizeof(T)`
    * bytes, reversed on a big-endian host, is their little-endian decoding on
    * either host. The underlying `Read<T>` tests no length, so the view must
    * hold `sizeof(T)` bytes.
    */
  function ReadLittleEndian(littleEndianHost: bool, k: IntKind, source: ReadOnlyBigSpans.ReadOnlyBigSpan): (v: int)
    reads source.ptr.block
    requires source.Valid() && source.elemSize == 1 && k.Size() <= source.length as int
    ensures k.Holds(v)
    ensures v == DecodeLittleEndian(k, source.Bytes()[..k.Size()])
  {
    var bytes := Read(source, k.Size());
    var result := HostValue(littleEndianHost, k, bytes);
    if littleEndianHost then result
    else
      ReversedHostRead(k, bytes);
      ReverseEndianness(k, result)
  }

  /**
    * `TryReadXxxLittleEndian(source, out value)`: a value exactly when the
    * view holds `sizeof(T)` bytes, and then the one `ReadXxxLittleEndian`
    * returns. (On a big-endian host a failed read leaves `value`
    * uninitialised; here it is absent.)
    */
  function TryReadLittleEndian(littleEndianHost: bool, k: IntKind, source: ReadOnlyBigSpans.ReadOnlyBigSpan): (r: Option<int>)
    reads source.ptr.block
    requires source.Valid() && source.elemSize == 1
    ensures r.Some? <==> k.Size() <= source.length as int
    ensures r.Some? ==> r.value == DecodeLittleEndian(k, source.Bytes()[..k.Size()])
    ensures r.Some? ==> r.value == ReadLittleEndian(littleEndianHost, k, source)
  {
    var read := TryRead(source, k.Size());
    if littleEndianHost then
      if read.Some? then Some(HostValue(true, k, read.value)) else None
    else if read.Some? then
      ReversedHostRead(k, read.value);
      Some(ReverseEndianness(k, HostValue(false, k, read.value)))
    else None
  }

  /** The bytes a writer hands to `Write<T>` / `TryWrite<T>`: the value, reversed first on a big-endian host. */
  function StoredBytes(littleEndianHost: bool, k: IntKind, v: int): (bs: seq<byte>)
    requires k.Holds(v)
    ensures bs == EncodeLittleEndian(k, v)
  {
    if littleEndianHost then HostBytes(true, k, v)
    else
      ReversedHostBytes(k, v);
      HostBytes(false, k, ReverseEndianness(k, v))
  }

  /**
    * `TryWriteXxxLittleEndian(destination, value)`: `TryWrite<T>` of the
    * host-order value, reversed first on a big-endian host. It writes the
    * little-endian encoding into the first `sizeof(T)` bytes when
    * `sizeof(T)` is at most `(uint)Length`, and nothing otherwise.
    */
  method TryWriteLittleEndian(littleEndianHost: bool, k: IntKind, destination: BigSpans.BigSpan, v: int) returns (written: bool)
    requires destination.Valid() && destination.elemSize == 1 && k.Holds(v)
    modifies destination.ptr.block
    ensures written <==> WriteFits(destination.length, k.Size())
    ensures destination.length as int < TWO_32 ==> (written <==> k.Size() <= destination.length as int)
    ensures OnlyWrote(destination.ptr, if written then k.Size() else 0)
    ensures written ==> destination.Bytes()[..k.Size()] == EncodeLittleEndian(k, v)
    ensures written ==> destination.Bytes()[k.Size()..] == old(destination.Bytes())[k.Size()..]
    ensures written ==> ReadLittleEndian(littleEndianHost, k, ReadOnlyBigSpans.FromBigSpan(destination)) == v
  {
    var bs := StoredBytes(littleEndianHost, k, v);
    written := TryWrite(destination, bs);
    if written {
      ReadsBackWritten(littleEndianHost, k, destination, v);
    }
  }

  /**
    * `WriteXxxLittleEndian(destination, value)`: as `TryWriteXxxLittleEndian`,
    * but a value that does not fit throws ArgumentOutOfRange, with nothing
    * written.
    */
  method WriteLittleEndian(littleEndianHost: bool, k: IntKind, destination: BigSpans.BigSpan, v: int) returns (r: Outcome)
    requires destination.Valid() && destination.elemSize == 1 && k.Holds(v)
    modifies destination.ptr.block
    ensures r.Failed? <==> !WriteFits(destination.length, k.Size())
    ensures r.Failed? ==> r.error == ArgumentOutOfRange
    ensures OnlyWrote(destination.ptr, if r.Done? then k.Size() else 0)
    ensures r.Done? ==> destination.Bytes()[..k.Size()] == EncodeLittleEndian(k, v)
    ensures r.Done? ==> destination.Bytes()[k.Size()..] == old(destination.Bytes())[k.Size()..]
    ensures r.Done? ==> ReadLittleEndian(littleEndianHost, k, ReadOnlyBigSpans.FromBigSpan(destination)) == v
  {
    var bs := StoredBytes(littleEndianHost, k, v);
    r := Write(destination, bs);
    if r.Done? {
      ReadsBackWritten(littleEndianHost, k, destination, v);
    }
  }

  /** A view that starts with the little-endian encoding of `v` reads back `v`. */
  lemma ReadsBackWritten(littleEndianHost: bool, k: IntKind, destination: BigSpans.BigSpan, v: int)
    requires destination.Valid() && destination.elemSize == 1 && k.Holds(v)
    requires k.Size() <= |destination.Bytes()| && destination.Bytes()[..k.Size()] == EncodeLittleEndian(k, v)
    ensures ReadLittleEndian(littleEndianHost, k, ReadOnlyBigSpans.FromBigSpan(destination)) == v
  {
    DecodeEncode(k, v);
  }

  /** A view of 2^32 bytes refuses even a 16-bit value, although it has room for it. */
  lemma WriteRefusesViewOfTwo32Bytes(k: IntKind)
    ensures !WriteFits(TWO_32 as nuint, k.Size())
  {
  }
}
