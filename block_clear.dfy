// Zeroing memory: `BigSpanHelpers.ClearWithReferences` (natural words, for
// element types the garbage collector tracks), `ClearWithoutReferences`
// (bytes) and `ZeroMemory` (large blocks through the runtime's block
// initialisation).
module BlockClear {
  import opened NativeInts
  import opened Memory

  /**
    * The process `ClearWithoutReferences` runs in. `Is64Bit` sends every
    * length to `ZeroMemory`; a 32-bit process takes the hand-unrolled path,
    * which depends on the `address` of the first byte.
    */
  datatype Platform = Bits64 | Bits32(address: nat)

  /** A store of `width` zero bytes at byte offset `at` (a `byte`, `short`, `int` or `long` store). */
  method Zero(b: Ref, at: nat, width: nat)
    requires Accessible(b, at + width)
    modifies b.block
    ensures AllBytes(AddBytes(b, at), width, 0)
    ensures OnlyWrote(AddBytes(b, at), width)
    ensures old(AllBytes(b, at, 0)) ==> AllBytes(b, at + width, 0)
  {
    InitBlock(AddBytes(b, at), 0, width);
  }

  /**
    * `ZeroMemory(ref b, byteLength)`. On 64 bits the block is cleared in
    * pieces of `uint.MaxValue` bytes, the most one block initialisation
    * takes, then the rest; on 32 bits the length always fits a `uint`.
    */
  method ZeroMemory(b: Ref, byteLength: nuint, platform: Platform)
    requires Accessible(b, byteLength as nat)
    requires platform.Bits32? ==> byteLength as int < TWO_32
    modifies b.block
    ensures AllBytes(b, byteLength as nat, 0)
    ensures OnlyWrote(b, byteLength as nat)
  {
    if platform.Bits64? {
      var pb := b;
      var l := byteLength as nat;
      while l >= UINT_MAX as nat
        invariant pb.block == b.block && pb.offset == b.offset + (byteLength as nat - l)
        invariant l <= byteLength as nat
        invariant Accessible(b, byteLength as nat - l)
        invariant AllBytes(b, byteLength as nat - l, 0)
        invariant OnlyWrote(b, byteLength as nat)
        decreases l
      {
        InitBlock(pb, 0, UINT_MAX as nat);
        pb := AddBytes(pb, UINT_MAX as int);
        l := l - UINT_MAX as nat;
      }
      if l > 0 {
        InitBlock(pb, 0, Trunc32(l as nuint) as nat);
      }
    } else {
      InitBlock(b, 0, Trunc32(byteLength) as nat);
    }
  }

  /**
    * `ClearWithReferences(ref ip, pointerSizeLength)`: zeroes
    * `pointerSizeLength` natural words of 8 bytes, eight at a time from the end, then
    * the remaining zero to seven with overlapping stores from both ends.
    */
  method ClearWithReferences(ip: Ref, pointerSizeLength: nuint)
    requires Accessible(ip, pointerSizeLength as nat * 8)
    modifies ip.block
    ensures AllBytes(ip, pointerSizeLength as nat * 8, 0)
    ensures OnlyWrote(ip, pointerSizeLength as nat * 8)
  {
    var n: nat := pointerSizeLength as nat * 8;
    var l: nat := pointerSizeLength as nat;
    while l >= 8
      invariant l <= pointerSizeLength as nat
      invariant Accessible(AddBytes(ip, l * 8), n - l * 8)
      invariant AllBytes(AddBytes(ip, l * 8), n - l * 8, 0)
      invariant OnlyWrote(ip, n)
      decreases l
    {
      ZeroEightWordsBelow(ip, l, n);
      l := l - 8;
    }
    if l == 0 {
      return;
    }
    ClearFewWords(ip, l, n);
  }

  /** One turn of the backward loop: words `l - 1` down to `l - 8`. */
  method ZeroEightWordsBelow(ip: Ref, l: nat, n: nat)
    requires 8 <= l && l * 8 <= n && Accessible(ip, n)
    modifies ip.block
    ensures AllBytes(AddBytes(ip, (l - 8) * 8), 64, 0)
    ensures OnlyWrote(AddBytes(ip, (l - 8) * 8), 64)
  {
    Zero(ip, (l - 1) * 8, 8);
    Zero(ip, (l - 2) * 8, 8);
    Zero(ip, (l - 3) * 8, 8);
    Zero(ip, (l - 4) * 8, 8);
    Zero(ip, (l - 5) * 8, 8);
    Zero(ip, (l - 6) * 8, 8);
    Zero(ip, (l - 7) * 8, 8);
    Zero(ip, (l - 8) * 8, 8);
  }

  /**
    * The words left after the loop, `1 <= l <= 7`: four from the start and
    * three from the end, two and one, then word 0.
    */
  method ClearFewWords(ip: Ref, l: nat, n: nat)
    requires 1 <= l <= 7 && l * 8 <= n && Accessible(ip, n)
    modifies ip.block
    ensures AllBytes(ip, l * 8, 0)
    ensures OnlyWrote(ip, l * 8)
  {
    if l >= 4 {
      // the first four words and the last three
      Zero(ip, 2 * 8, 8);
      Zero(ip, 3 * 8, 8);
      Zero(ip, (l - 3) * 8, 8);
      Zero(ip, (l - 2) * 8, 8);
    }
    if l >= 2 {
      // the first two words and the last one
      Zero(ip, 1 * 8, 8);
      Zero(ip, (l - 1) * 8, 8);
    }
    Zero(ip, 0, 8);
  }

  /**
    * `ClearWithoutReferences(ref b, byteLength)`: nothing for an empty
    * block; `ZeroMemory` on a 64-bit process; otherwise the unrolled stores
    * for 1 to 32 bytes, `ZeroMemory` from 512 bytes, and in between an
    * alignment prologue, a loop of 16-byte turns and a tail taken from the
    * low four bits of the length left after the prologue.
    */
  method ClearWithoutReferences(b: Ref, byteLength: nuint, platform: Platform)
    requires Accessible(b, byteLength as nat)
    requires platform.Bits32? ==> byteLength as int < TWO_32
    modifies b.block
    ensures AllBytes(b, byteLength as nat, 0)
    ensures OnlyWrote(b, byteLength as nat)
  {
    if byteLength == 0 {
      return;
    }
    if platform.Bits64? {
      ZeroMemory(b, byteLength, platform);
      return;
    }
    if byteLength <= 32 {
      SmallClear(b, byteLength as nat);
      return;
    }
    if byteLength >= 512 {
      ZeroMemory(b, byteLength, platform);
      return;
    }
    var n := byteLength as nat;
    var i := AlignPrologue(b, platform.address, n);
    var end := n - 16;
    var rest := n - i;  // its low four bits are what the loop leaves over
    ghost var i0, turns := i, 0;
    var counter: nat;
    var more := true;
    while more
      invariant i0 <= i <= n && i == i0 + 16 * turns
      invariant more ==> i + 16 <= n
      invariant !more ==> end < i
      invariant AllBytes(b, i, 0)
      invariant OnlyWrote(b, n)
      decreases n - i
    {
      counter := i + 16;
      Zero(b, i, 4);
      Zero(b, i + 4, 4);
      Zero(b, i + 8, 4);
      Zero(b, i + 12, 4);
      i := counter;
      turns := turns + 1;
      more := counter <= end;
    }
    DivModUnique(rest, 16, turns, n - i);
    ClearTail(b, i, rest);
  }

  /**
    * The end of `ClearWithoutReferences` on a 32-bit process: after the
    * 16-byte loop, bits 8, 4, 2 and 1 of the remaining length select an
    * 8-, 4-, 2- and 1-byte store, which together clear `rest % 16` bytes.
    */
  method ClearTail(b: Ref, at: nat, rest: nat)
    requires Accessible(b, at + rest % 16) && AllBytes(b, at, 0)
    modifies b.block
    ensures AllBytes(b, at + rest % 16, 0)
    ensures OnlyWrote(b, at + rest % 16)
  {
    LowFourBits(rest);
    var i := at;
    if BitSet(rest, 8) {
      Zero(b, i, 4);
      Zero(b, i + 4, 4);
      i := i + 8;
    }
    if BitSet(rest, 4) {
      Zero(b, i, 4);
      i := i + 4;
    }
    if BitSet(rest, 2) {
      Zero(b, i, 2);
      i := i + 2;
    }
    if BitSet(rest, 1) {
      Zero(b, i, 1);
    }
  }

  /**
    * The alignment prologue of `ClearWithoutReferences` on a 32-bit process:
    * a `byte` if the address is odd, a `short` unless that already reached a
    * multiple of 4, then an `int` if `((address - 1) & 4) == 0`. The bytes
    * cleared bring the address to the next multiple of 8.
    */
  method AlignPrologue(b: Ref, address: nat, n: nat) returns (i: nat)
    requires Accessible(b, n) && n >= 8
    modifies b.block
    ensures i <= 7 && (address + i) % 8 == 0
    ensures AllBytes(b, i, 0)
    ensures OnlyWrote(b, i)
  {
    i := 0;
    if address % 4 != 0 {
      if BitSet(address, 1) {
        Zero(b, 0, 1);
        i := i + 1;
      }
      if !(BitSet(address, 1) && BitSet(address, 2)) {
        Zero(b, i, 2);
        i := i + 2;
      }
    }
    if !BitSet(address - 1, 4) {
      Zero(b, i, 4);
      i := i + 4;
    }
    AlignmentArithmetic(address, i);
  }

  lemma AlignmentArithmetic(address: nat, i: nat)
    requires i == (if address % 4 != 0 && BitSet(address, 1) then 1 else 0)
                 + (if address % 4 != 0 && !(BitSet(address, 1) && BitSet(address, 2)) then 2 else 0)
                 + (if !BitSet(address - 1, 4) then 4 else 0)
    ensures i <= 7 && (address + i) % 8 == 0
  {
    var q, r := address / 8, address % 8;
    BitSplit(address, 4);
    BitSplit(address, 2);
    BitSplit(address, 1);
    if r == 0 {
      DivModUnique(address - 1, 8, q - 1, 7);
    } else {
      DivModUnique(address - 1, 8, q, r - 1);
    }
    BitSplit(address - 1, 4);
    assert i == 0 || address + i == 8 * q + 8;
    if i != 0 {
      DivModUnique(address + i, 8, q + 1, 0);
    }
  }

  /**
    * The cases 1 to 32 of the `switch` in `ClearWithoutReferences`, as a
    * 32-bit process executes them: `int` stores from the start, then a
    * `short` and a `byte` for what is left. (The arms are grouped four at a
    * time.)
    */
  method SmallClear(b: Ref, byteLength: nat)
    requires 1 <= byteLength <= 32 && Accessible(b, byteLength)
    modifies b.block
    ensures AllBytes(b, byteLength, 0)
    ensures OnlyWrote(b, byteLength)
  {
    if byteLength <= 4 {
      SmallClear1To4(b, byteLength);
    } else if byteLength <= 8 {
      SmallClear5To8(b, byteLength);
    } else if byteLength <= 12 {
      SmallClear9To12(b, byteLength);
    } else if byteLength <= 16 {
      SmallClear13To16(b, byteLength);
    } else if byteLength <= 20 {
      SmallClear17To20(b, byteLength);
    } else if byteLength <= 24 {
      SmallClear21To24(b, byteLength);
    } else if byteLength <= 28 {
      SmallClear25To28(b, byteLength);
    } else {
      SmallClear29To32(b, byteLength);
    }
  }

  method SmallClear1To4(b: Ref, byteLength: nat)
    requires 1 <= byteLength <= 4 && Accessible(b, byteLength)
    modifies b.block
    ensures AllBytes(b, byteLength, 0)
    ensures OnlyWrote(b, byteLength)
  {
    match byteLength
    case 1 =>
      Zero(b, 0, 1);
    case 2 =>
      Zero(b, 0, 2);
    case 3 =>
      Zero(b, 0, 2);
      Zero(b, 2, 1);
    case 4 =>
      Zero(b, 0, 4);
    case _ =>
      assert false;
  }

  method SmallClear5To8(b: Ref, byteLength: nat)
    requires 5 <= byteLength <= 8 && Accessible(b, byteLength)
    modifies b.block
    ensures AllBytes(b, byteLength, 0)
    ensures OnlyWrote(b, byteLength)
  {
    match byteLength
    case 5 =>
      Zero(b, 0, 4);
      Zero(b, 4, 1);
    case 6 =>
      Zero(b, 0, 4);
      Zero(b, 4, 2);
    case 7 =>
      Zero(b, 0, 4);
      Zero(b, 4, 2);
      Zero(b, 6, 1);
    case 8 =>
      Zero(b, 0, 4);
      Zero(b, 4, 4);
    case _ =>
      assert false;
  }

  method SmallClear9To12(b: Ref, byteLength: nat)
    requires 9 <= byteLength <= 12 && Accessible(b, byteLength)
    modifies b.block
    ensures AllBytes(b, byteLength, 0)
    ensures OnlyWrote(b, byteLength)
  {
    match byteLength
    case 9 =>
      Zero(b, 0, 4);
      Zero(b, 4, 4);
      Zero(b, 8, 1);
    case 10 =>
      Zero(b, 0, 4);
      Zero(b, 4, 4);
      Zero(b, 8, 2);
    case 11 =>
      Zero(b, 0, 4);
      Zero(b, 4, 4);
      Zero(b, 8, 2);
      Zero(b, 10, 1);
    case 12 =>
      Zero(b, 0, 4);
      Zero(b, 4, 4);
      Zero(b, 8, 4);
    case _ =>
      assert false;
  }

  method SmallClear13To16(b: Ref, byteLength: nat)
    requires 13 <= byteLength <= 16 && Accessible(b, byteLength)
    modifies b.block
    ensures AllBytes(b, byteLength, 0)
    ensures OnlyWrote(b, byteLength)
  {
    match byteLength
    case 13 =>
      Zero(b, 0, 4);
      Zero(b, 4, 4);
      Zero(b, 8, 4);
      Zero(b, 12, 1);
    case 14 =>
      Zero(b, 0, 4);
      Zero(b, 4, 4);
      Zero(b, 8, 4);
      Zero(b, 12, 2);
    case 15 =>
      Zero(b, 0, 4);
      Zero(b, 4, 4);
      Zero(b, 8, 4);
      Zero(b, 12, 2);
      Zero(b, 14, 1);
    case 16 =>
      Zero(b, 0, 4);
      Zero(b, 4, 4);
      Zero(b, 8, 4);
      Zero(b, 12, 4);
    case _ =>
      assert false;
  }

  method SmallClear17To20(b: Ref, byteLength: nat)
    requires 17 <= byteLength <= 20 && Accessible(b, byteLength)
    modifies b.block
    ensures AllBytes(b, byteLength, 0)
    ensures OnlyWrote(b, byteLength)
  {
    match byteLength
    case 17 =>
      Zero(b, 0, 4);
      Zero(b, 4, 4);
      Zero(b, 8, 4);
      Zero(b, 12, 4);
      Zero(b, 16, 1);
    case 18 =>
      Zero(b, 0, 4);
      Zero(b, 4, 4);
      Zero(b, 8, 4);
      Zero(b, 12, 4);
      Zero(b, 16, 2);
    case 19 =>
      Zero(b, 0, 4);
      Zero(b, 4, 4);
      Zero(b, 8, 4);
      Zero(b, 12, 4);
      Zero(b, 16, 2);
      Zero(b, 18, 1);
    case 20 =>
      Zero(b, 0, 4);
      Zero(b, 4, 4);
      Zero(b, 8, 4);
      Zero(b, 12, 4);
      Zero(b, 16, 4);
    case _ =>
      assert false;
  }

  method SmallClear21To24(b: Ref, byteLength: nat)
    requires 21 <= byteLength <= 24 && Accessible(b, byteLength)
    modifies b.block
    ensures AllBytes(b, byteLength, 0)
    ensures OnlyWrote(b, byteLength)
  {
    match byteLength
    case 21 =>
      Zero(b, 0, 4);
      Zero(b, 4, 4);
      Zero(b, 8, 4);
      Zero(b, 12, 4);
      Zero(b, 16, 4);
      Zero(b, 20, 1);
    case 22 =>
      Zero(b, 0, 4);
      Zero(b, 4, 4);
      Zero(b, 8, 4);
      Zero(b, 12, 4);
      Zero(b, 16, 4);
      Zero(b, 20, 2);
    case 23 =>
      Zero(b, 0, 4);
      Zero(b, 4, 4);
      Zero(b, 8, 4);
      Zero(b, 12, 4);
      Zero(b, 16, 4);
      Zero(b, 20, 2);
      Zero(b, 22, 1);
    case 24 =>
      Zero(b, 0, 4);
      Zero(b, 4, 4);
      Zero(b, 8, 4);
      Zero(b, 12, 4);
      Zero(b, 16, 4);
      Zero(b, 20, 4);
    case _ =>
      assert false;
  }

  method SmallClear25To28(b: Ref, byteLength: nat)
    requires 25 <= byteLength <= 28 && Accessible(b, byteLength)
    modifies b.block
    ensures AllBytes(b, byteLength, 0)
    ensures OnlyWrote(b, byteLength)
  {
    match byteLength
    case 25 =>
      Zero(b, 0, 4);
      Zero(b, 4, 4);
      Zero(b, 8, 4);
      Zero(b, 12, 4);
      Zero(b, 16, 4);
      Zero(b, 20, 4);
      Zero(b, 24, 1);
    case 26 =>
      Zero(b, 0, 4);
      Zero(b, 4, 4);
      Zero(b, 8, 4);
      Zero(b, 12, 4);
      Zero(b, 16, 4);
      Zero(b, 20, 4);
      Zero(b, 24, 2);
    case 27 =>
      Zero(b, 0, 4);
      Zero(b, 4, 4);
      Zero(b, 8, 4);
      Zero(b, 12, 4);
      Zero(b, 16, 4);
      Zero(b, 20, 4);
      Zero(b, 24, 2);
      Zero(b, 26, 1);
    case 28 =>
      Zero(b, 0, 4);
      Zero(b, 4, 4);
      Zero(b, 8, 4);
      Zero(b, 12, 4);
      Zero(b, 16, 4);
      Zero(b, 20, 4);
      Zero(b, 24, 4);
    case _ =>
      assert false;
  }

  method SmallClear29To32(b: Ref, byteLength: nat)
    requires 29 <= byteLength <= 32 && Accessible(b, byteLength)
    modifies b.block
    ensures AllBytes(b, byteLength, 0)
    ensures OnlyWrote(b, byteLength)
  {
    match byteLength
    case 29 =>
      Zero(b, 0, 4);
      Zero(b, 4, 4);
      Zero(b, 8, 4);
      Zero(b, 12, 4);
      Zero(b, 16, 4);
      Zero(b, 20, 4);
      Zero(b, 24, 4);
      Zero(b, 28, 1);
    case 30 =>
      Zero(b, 0, 4);
      Zero(b, 4, 4);
      Zero(b, 8, 4);
      Zero(b, 12, 4);
      Zero(b, 16, 4);
      Zero(b, 20, 4);
      Zero(b, 24, 4);
      Zero(b, 28, 2);
    case 31 =>
      Zero(b, 0, 4);
      Zero(b, 4, 4);
      Zero(b, 8, 4);
      Zero(b, 12, 4);
      Zero(b, 16, 4);
      Zero(b, 20, 4);
      Zero(b, 24, 4);
      Zero(b, 28, 2);
      Zero(b, 30, 1);
    case 32 =>
      Zero(b, 0, 4);
      Zero(b, 4, 4);
      Zero(b, 8, 4);
      Zero(b, 12, 4);
      Zero(b, 16, 4);
      Zero(b, 20, 4);
      Zero(b, 24, 4);
      Zero(b, 28, 4);
    case _ =>
      assert false;
  }
}
