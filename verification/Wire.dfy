/**
  Field-level encoding of the data section (`src/data_section.rs`, lines 184-311) and, beside
  it, how a reader takes the same fields apart.

  The reader follows the MaxMind DB File Format Specification, section "Output Data Section":
  control byte, then for extended types the type byte, then the size-extension bytes. The
  source writes the size-extension bytes of an extended type *before* the type byte, so the
  reader here takes the order as a parameter.
*/
module Wire {
  import opened Prelude
  import opened Values

  const TAG_EXTENDED := 0
  const TAG_PTR := 1
  const TAG_UTF8 := 2
  const TAG_DOUBLE := 3
  const TAG_BYTES := 4
  const TAG_UINT16 := 5
  const TAG_UINT32 := 6
  const TAG_MAP := 7

  const EXT_INT32 := 1
  const EXT_UINT64 := 2
  const EXT_UINT128 := 3
  const EXT_ARRAY := 4
  const EXT_BOOL := 7
  const EXT_FLOAT := 8

  const U32_MAX: nat := 0xFFFF_FFFF

  /** One past the largest size a control field can carry. */
  const SIZE_LIMIT: nat := 65_821 + 0x100_0000

  /** `u32_from_usize`: saturating. */
  function ToU32(n: nat): nat {
    if n <= U32_MAX then n else U32_MAX
  }

  // --- Big-endian integers ----------------------------------------------------------------

  function Pow256(w: nat): (p: nat)
    ensures p > 0
  {
    if w == 0 then 1 else 0x100 * Pow256(w - 1)
  }

  function BeBytes(n: nat, w: nat): (b: seq<byte>)
    ensures |b| == w
  {
    if w == 0 then [] else BeBytes(n / 0x100, w - 1) + [n % 0x100]
  }

  function BeValue(b: seq<byte>): nat {
    if b == [] then 0 else BeValue(b[..|b| - 1]) * 0x100 + b[|b| - 1]
  }

  function StripZeros(b: seq<byte>): seq<byte> {
    if b != [] && b[0] == 0 then StripZeros(b[1..]) else b
  }

  /** `encode_uint_trimmed`: the low `max` bytes of a 16-byte word, leading zeros dropped. */
  function Trim(n: nat, max: nat): seq<byte>
    requires max <= 16
  {
    if n == 0 then [] else StripZeros(BeBytes(n, 16)[16 - max..])
  }

  lemma {:induction false} BeRoundTrip(n: nat, w: nat)
    requires n < Pow256(w)
    ensures BeValue(BeBytes(n, w)) == n
    decreases w
  {
    if w != 0 {
      BeRoundTrip(n / 0x100, w - 1);
      assert BeBytes(n, w)[..w - 1] == BeBytes(n / 0x100, w - 1);
    }
  }

  lemma {:induction false} BeBound(b: seq<byte>)
    ensures BeValue(b) < Pow256(|b|)
  {
    if b != [] {
      BeBound(b[..|b| - 1]);
    }
  }

  /** A leading zero byte does not change the value. */
  lemma {:induction false} BeLeadingZero(b: seq<byte>)
    requires b != [] && b[0] == 0
    ensures BeValue(b) == BeValue(b[1..])
  {
    if |b| > 1 {
      BeLeadingZero(b[..|b| - 1]);
      assert b[1..][..|b| - 2] == b[..|b| - 1][1..];
    }
  }

  lemma {:induction false} StripLaw(b: seq<byte>)
    ensures BeValue(StripZeros(b)) == BeValue(b)
    ensures |StripZeros(b)| <= |b|
    ensures StripZeros(b) != [] ==> StripZeros(b)[0] != 0
  {
    if b != [] && b[0] == 0 {
      BeLeadingZero(b);
      StripLaw(b[1..]);
    }
  }

  lemma {:induction false} BeLowBytes(n: nat, w: nat, k: nat)
    requires k <= w
    ensures BeBytes(n, w)[w - k..] == BeBytes(n, k)
    decreases k
  {
    if k != 0 {
      BeLowBytes(n / 0x100, w - 1, k - 1);
      assert BeBytes(n, w)[w - k..] == BeBytes(n / 0x100, w - 1)[w - k..] + [n % 0x100];
    }
  }

  /** Trimmed integers read back, fit their width and are as short as can be. */
  lemma TrimLaw(n: nat, max: nat)
    requires max <= 16 && n < Pow256(max)
    ensures BeValue(Trim(n, max)) == n
    ensures |Trim(n, max)| <= max
    ensures Trim(n, max) != [] ==> Trim(n, max)[0] != 0
  {
    if n != 0 {
      BeLowBytes(n, 16, max);
      BeRoundTrip(n, max);
      StripLaw(BeBytes(n, max));
    }
  }

  /** `encode_uint_trimmed`, with the source's scan over the leading zeros. */
  method EncodeUintTrimmed(value: nat, maxBytes: nat) returns (buf: seq<byte>)
    requires maxBytes <= 16
    ensures buf == Trim(value, maxBytes)
  {
    if value == 0 {
      return [];
    }
    var slice := BeBytes(value, 16)[16 - maxBytes..];
    var leadingZeros := 0;
    while leadingZeros < |slice| && slice[leadingZeros] == 0
      invariant leadingZeros <= |slice|
      invariant StripZeros(slice[leadingZeros..]) == StripZeros(slice)
    {
      leadingZeros := leadingZeros + 1;
    }
    return slice[leadingZeros..];
  }

  // --- Writing headers and pointers -----------------------------------------------------------

  type Tag = x: int | 0 <= x < 8

  /** `write_control_byte`. */
  function Control(tag: Tag, size: nat): (b: seq<byte>)
    ensures |b| > 0 && b[0] / 32 == tag
  {
    if size < 29 then [tag * 32 + size]
    else if size < 29 + 256 then [tag * 32 + 29, size - 29]
    else if size < 285 + 65_536 then [tag * 32 + 30, (size - 285) / 0x100, (size - 285) % 0x100]
    else
      var delta := ToU32(size - 65_821);
      [tag * 32 + 31, delta / 0x1_0000 % 0x100, delta / 0x100 % 0x100, delta % 0x100]
  }

  /** `write_extended_header`: size extension first, type byte last. */
  function Extended(ext: byte, size: nat): seq<byte> {
    Control(TAG_EXTENDED, size) + [ext]
  }

  /** `pointer_bytes`. */
  function PointerBytes(offset: nat): nat {
    if offset < 2_048 then 2
    else if offset < 526_336 then 3
    else if offset < 134_744_064 then 4
    else 5
  }

  /** `write_pointer`. */
  function Pointer(offset: nat): (b: seq<byte>)
    ensures |b| == PointerBytes(offset)
    ensures b[0] / 32 == TAG_PTR
  {
    if offset < 2_048 then
      [32 + offset / 0x100, offset % 0x100]
    else if offset < 526_336 then
      var biased := offset - 2_048;
      [32 + 8 + biased / 0x1_0000, biased / 0x100 % 0x100, biased % 0x100]
    else if offset < 134_744_064 then
      var biased := offset - 526_336;
      [32 + 16 + biased / 0x100_0000, biased / 0x1_0000 % 0x100, biased / 0x100 % 0x100, biased % 0x100]
    else
      [32 + 24] + BeBytes(offset, 4)
  }

  // --- Reading them ---------------------------------------------------------------------------

  /** The type numbers of the specification; the encoder has its own constants above. */
  const KIND_EXTENDED: nat := 0
  const KIND_PTR: nat := 1
  const KIND_STRING: nat := 2
  const KIND_DOUBLE: nat := 3
  const KIND_BYTES: nat := 4
  const KIND_UINT16: nat := 5
  const KIND_UINT32: nat := 6
  const KIND_MAP: nat := 7
  const KIND_INT32: nat := 8
  const KIND_UINT64: nat := 9
  const KIND_UINT128: nat := 10
  const KIND_ARRAY: nat := 11
  const KIND_BOOL: nat := 14
  const KIND_FLOAT: nat := 15

  datatype Order = SpecOrder | WriterOrder

  /** A field header: the type number, the size, and where the payload starts. */
  datatype Head = Head(kind: nat, size: nat, next: nat)

  datatype Sized = Sized(size: nat, next: nat)

  function ByteAt(buf: seq<byte>, i: nat): (n: nat)
    requires i < |buf|
    ensures n < 0x100
  {
    buf[i]
  }

  /** The size announced by the low bits `low` of a control byte, extended from position `q`. */
  function ReadSize(buf: seq<byte>, low: nat, q: nat): (s: Option<Sized>)
    requires low < 32
    ensures s.Some? ==> s.value.size < SIZE_LIMIT
  {
    if low < 29 then Some(Sized(low, q))
    else if low == 29 then
      if q + 1 <= |buf| then Some(Sized(29 + ByteAt(buf, q), q + 1)) else None
    else if low == 30 then
      if q + 2 <= |buf| then Some(Sized(285 + ByteAt(buf, q) * 0x100 + ByteAt(buf, q + 1), q + 2)) else None
    else
      if q + 3 <= |buf|
      then Some(Sized(65_821 + ByteAt(buf, q) * 0x1_0000 + ByteAt(buf, q + 1) * 0x100 + ByteAt(buf, q + 2), q + 3))
      else None
  }

  /** The header at `pos`; an extended type byte of 0 names no type. */
  function ReadHead(ord: Order, buf: seq<byte>, pos: nat): (h: Option<Head>)
    ensures h.Some? ==> pos < h.value.next <= |buf| && h.value.size < SIZE_LIMIT
  {
    if pos >= |buf| then None
    else
      var tag, low := ByteAt(buf, pos) / 32, ByteAt(buf, pos) % 32;
      if tag != KIND_EXTENDED then
        match ReadSize(buf, low, pos + 1)
        case None => None
        case Some(s) => Some(Head(tag, s.size, s.next))
      else if ord == SpecOrder then
        if pos + 1 >= |buf| || ByteAt(buf, pos + 1) == 0 then None
        else
          match ReadSize(buf, low, pos + 2)
          case None => None
          case Some(s) => Some(Head(7 + ByteAt(buf, pos + 1), s.size, s.next))
      else
        match ReadSize(buf, low, pos + 1)
        case None => None
        case Some(s) =>
          if s.next >= |buf| || ByteAt(buf, s.next) == 0 then None
          else Some(Head(7 + ByteAt(buf, s.next), s.size, s.next + 1))
  }

  datatype Target = Target(offset: nat, next: nat)

  /** Section "Data Field Format", type 1. */
  function ReadPointer(buf: seq<byte>, pos: nat): (t: Option<Target>)
    ensures t.Some? ==> pos < t.value.next <= |buf|
  {
    if pos >= |buf| || ByteAt(buf, pos) / 32 != KIND_PTR then None
    else
      var sizeClass, high := ByteAt(buf, pos) / 8 % 4, ByteAt(buf, pos) % 8;
      var next := pos + 2 + sizeClass;
      if next > |buf| then None
      else if sizeClass == 0 then Some(Target(high * 0x100 + ByteAt(buf, pos + 1), next))
      else if sizeClass == 1 then
        Some(Target(2_048 + high * 0x1_0000 + ByteAt(buf, pos + 1) * 0x100 + ByteAt(buf, pos + 2), next))
      else if sizeClass == 2 then
        Some(Target(526_336 + high * 0x100_0000 + ByteAt(buf, pos + 1) * 0x1_0000 + ByteAt(buf, pos + 2) * 0x100
                    + ByteAt(buf, pos + 3), next))
      else Some(Target(BeValue(buf[pos + 1..pos + 5]), next))
  }

  /** The bytes `x` stand in `buf` at `pos`. */
  ghost predicate At(buf: seq<byte>, pos: nat, x: seq<byte>) {
    pos + |x| <= |buf| && buf[pos..pos + |x|] == x
  }

  lemma AtIndex(buf: seq<byte>, pos: nat, x: seq<byte>)
    requires At(buf, pos, x)
    ensures forall i :: 0 <= i < |x| ==> buf[pos + i] == x[i]
  {
    forall i | 0 <= i < |x|
      ensures buf[pos + i] == x[i]
    {
      assert buf[pos..pos + |x|][i] == x[i];
    }
  }

  lemma AtSplit(buf: seq<byte>, pos: nat, x: seq<byte>, y: seq<byte>)
    requires At(buf, pos, x + y)
    ensures At(buf, pos, x) && At(buf, pos + |x|, y)
  {
    assert buf[pos..pos + |x|] == (x + y)[..|x|];
    assert buf[pos + |x|..pos + |x| + |y|] == (x + y)[|x|..];
  }

  lemma HeadByte(tag: Tag, low: nat)
    requires low < 32
    ensures (tag * 32 + low) / 32 == tag && (tag * 32 + low) % 32 == low
  {
  }

  /** A three-byte extension holds its delta exactly when the delta fits 24 bits. */
  lemma Delta24(size: nat)
    requires size >= 65_821
    ensures var d := ToU32(size - 65_821);
            65_821 + d / 0x1_0000 % 0x100 * 0x1_0000 + d / 0x100 % 0x100 * 0x100 + d % 0x100 == size
            <==> size < SIZE_LIMIT
  {
  }

  /** The size field of a control byte reads back exactly when the size is in range. */
  lemma SizeRoundTrip(buf: seq<byte>, pos: nat, tag: Tag, size: nat)
    requires At(buf, pos, Control(tag, size))
    ensures buf[pos] / 32 == tag
    ensures var s := ReadSize(buf, ByteAt(buf, pos) % 32, pos + 1);
            && s.Some? && s.value.next == pos + |Control(tag, size)|
            && (s.value.size == size <==> size < SIZE_LIMIT)
  {
    AtIndex(buf, pos, Control(tag, size));
    if size < 29 {
      HeadByte(tag, size);
    } else if size < 285 {
      HeadByte(tag, 29);
    } else if size < 65_821 {
      HeadByte(tag, 30);
    } else {
      HeadByte(tag, 31);
      Delta24(size);
    }
  }

  /** A control field reads back, whichever order is used, exactly when its size is in range. */
  lemma ControlRoundTrip(ord: Order, buf: seq<byte>, pos: nat, tag: Tag, size: nat)
    requires tag != TAG_EXTENDED && At(buf, pos, Control(tag, size))
    ensures var h := ReadHead(ord, buf, pos);
            && h.Some? && h.value.kind == tag && h.value.next == pos + |Control(tag, size)|
            && (h.value.size == size <==> size < SIZE_LIMIT)
  {
    SizeRoundTrip(buf, pos, tag, size);
  }

  /** The source's extended header reads back in the source's own order. */
  lemma ExtendedRoundTrip(buf: seq<byte>, pos: nat, ext: byte, size: nat)
    requires ext > 0 && At(buf, pos, Extended(ext, size))
    ensures var h := ReadHead(WriterOrder, buf, pos);
            && h.Some? && h.value.kind == 7 + ext && h.value.next == pos + |Extended(ext, size)|
            && (h.value.size == size <==> size < SIZE_LIMIT)
  {
    var next := pos + |Control(TAG_EXTENDED, size)|;
    AtSplit(buf, pos, Control(TAG_EXTENDED, size), [ext]);
    SizeRoundTrip(buf, pos, TAG_EXTENDED, size);
    AtIndex(buf, next, [ext]);
    assert buf[next + 0] == ext;
  }

  /** The element counts for which both orders put the same bytes in the same places. */
  predicate OrderBlind(size: nat) {
    size < 29 || size == 33 || size == 1_313 || size == 328_993
  }

  /**
    The specification's reader sees the source's array header as an array of the same size
    exactly for the order-blind sizes. Below 29 there are no extension bytes; the other three
    are the sizes whose every extension byte equals the array type byte.
  */
  lemma ArrayHeaderBySpec(buf: seq<byte>, pos: nat, h: Head)
    requires ReadHead(WriterOrder, buf, pos) == Some(h)
    requires buf[pos] / 32 == KIND_EXTENDED && h.kind == KIND_ARRAY
    ensures OrderBlind(h.size) <==> ReadHead(SpecOrder, buf, pos) == Some(h)
    ensures !OrderBlind(h.size) ==>
              var g := ReadHead(SpecOrder, buf, pos);
              g.None? || g.value.kind != h.kind || g.value.size != h.size
  {
  }

  /** Headers without extension bytes read alike in both orders. */
  lemma SmallHeaderBySpec(buf: seq<byte>, pos: nat, h: Head)
    requires ReadHead(WriterOrder, buf, pos) == Some(h)
    requires buf[pos] / 32 == KIND_EXTENDED ==> h.size < 29
    ensures ReadHead(SpecOrder, buf, pos) == Some(h)
  {
  }

  /** Every `u32` pointer offset reads back, whatever its size class. */
  lemma PointerRoundTrip(buf: seq<byte>, pos: nat, offset: nat)
    requires At(buf, pos, Pointer(offset)) && offset <= U32_MAX
    ensures ReadPointer(buf, pos) == Some(Target(offset, pos + PointerBytes(offset)))
  {
    if offset < 2_048 {
      Pointer2(buf, pos, offset);
    } else if offset < 526_336 {
      Pointer3(buf, pos, offset);
    } else if offset < 134_744_064 {
      Pointer4(buf, pos, offset);
    } else {
      AtIndex(buf, pos, Pointer(offset));
      PointerHead(3, 0);
      FarPointer(buf, pos, offset);
    }
  }

  /** No pointer to the same offset is shorter than the one the encoder writes. */
  lemma PointerShortest(buf: seq<byte>, pos: nat, t: Target)
    requires ReadPointer(buf, pos) == Some(t)
    ensures t.next - pos >= |Pointer(t.offset)|
  {
  }

  lemma Pointer2(buf: seq<byte>, pos: nat, offset: nat)
    requires At(buf, pos, Pointer(offset)) && offset < 2_048
    ensures ReadPointer(buf, pos) == Some(Target(offset, pos + 2))
  {
    AtIndex(buf, pos, Pointer(offset));
    PointerHead(0, offset / 0x100);
  }

  lemma Pointer3(buf: seq<byte>, pos: nat, offset: nat)
    requires At(buf, pos, Pointer(offset)) && 2_048 <= offset < 526_336
    ensures ReadPointer(buf, pos) == Some(Target(offset, pos + 3))
  {
    AtIndex(buf, pos, Pointer(offset));
    var biased := offset - 2_048;
    PointerHead(1, biased / 0x1_0000);
    assert biased == biased / 0x1_0000 * 0x1_0000 + biased / 0x100 % 0x100 * 0x100 + biased % 0x100;
  }

  lemma Pointer4(buf: seq<byte>, pos: nat, offset: nat)
    requires At(buf, pos, Pointer(offset)) && 526_336 <= offset < 134_744_064
    ensures ReadPointer(buf, pos) == Some(Target(offset, pos + 4))
  {
    AtIndex(buf, pos, Pointer(offset));
    var biased := offset - 526_336;
    PointerHead(2, biased / 0x100_0000);
    assert biased == biased / 0x100_0000 * 0x100_0000 + biased / 0x1_0000 % 0x100 * 0x1_0000
                     + biased / 0x100 % 0x100 * 0x100 + biased % 0x100;
  }

  lemma PointerHead(sizeClass: nat, high: nat)
    requires sizeClass < 4 && high < 8
    ensures (32 + sizeClass * 8 + high) / 32 == TAG_PTR
    ensures (32 + sizeClass * 8 + high) / 8 % 4 == sizeClass && (32 + sizeClass * 8 + high) % 8 == high
  {
  }

  lemma FarPointer(buf: seq<byte>, pos: nat, offset: nat)
    requires At(buf, pos, Pointer(offset)) && 134_744_064 <= offset <= U32_MAX
    ensures pos + 5 <= |buf| && BeValue(buf[pos + 1..pos + 5]) == offset
  {
    var b := BeBytes(offset, 4);
    assert Pointer(offset) == [32 + 24] + b;
    AtSplit(buf, pos, [32 + 24], b);
    assert Pow256(4) == 0x1_0000_0000;
    BeRoundTrip(offset, 4);
  }
}
