/**
  `src/data_section.rs`: the append-only data section with its deduplication table.

  `Section` and the functions on it say what each call does to the state; the class
  `DataSection` does it by updating its fields, with the source's loops. The lemmas are about
  the functions, hence about every run of the class.
*/
module DataSections {
  import opened Values
  import opened Wire

  /** Where a value was first emitted, and how many bytes that took. */
  datatype Entry = Entry(offset: nat, len: nat)

  datatype Section = Section(bytes: seq<byte>, dedup: map<Value, Entry>, noPointers: bool)

  const FRESH: Section := Section([], map[], false)
  const UNSHARED: Section := Section([], map[], true)

  // --- What the encoder does ------------------------------------------------------------------

  predicate IsContainer(v: Value) {
    v.Map? || v.Array?
  }

  function Rank(v: Value): nat {
    if IsContainer(v) then 1 else 0
  }

  /** The `u32` bit pattern of a signed integer. */
  function ToUnsigned(n: i32): u32 {
    if n < 0 then n + 0x1_0000_0000 else n
  }

  function Trimmed(tag: Tag, n: nat, max: nat): seq<byte>
    requires max <= 16
  {
    Control(tag, |Trim(n, max)|) + Trim(n, max)
  }

  function ExtendedTrimmed(ext: byte, n: nat, max: nat): seq<byte>
    requires max <= 16
  {
    Extended(ext, |Trim(n, max)|) + Trim(n, max)
  }

  /** The encoding of a value without children. */
  function Scalar(v: Value): (b: seq<byte>)
    requires !IsContainer(v)
    ensures |b| > 0 && b[0] / 32 != KIND_PTR
  {
    match v
    case String(s) => Control(TAG_UTF8, |s|) + s
    case Double(d) => Control(TAG_DOUBLE, 8) + BeBytes(d, 8)
    case Blob(b) => Control(TAG_BYTES, |b|) + b
    case U16(n) => Trimmed(TAG_UINT16, n, 2)
    case U32(n) => Trimmed(TAG_UINT32, n, 4)
    case I32(n) => ExtendedTrimmed(EXT_INT32, ToUnsigned(n), 4)
    case U64(n) => ExtendedTrimmed(EXT_UINT64, n, 8)
    case U128(n) => ExtendedTrimmed(EXT_UINT128, n, 16)
    case Bool(b) => Extended(EXT_BOOL, if b then 1 else 0)
    case Float(f) => Extended(EXT_FLOAT, 4) + BeBytes(f, 4)
  }

  function Append(s: Section, b: seq<byte>): Section {
    s.(bytes := s.bytes + b)
  }

  /** `encode`. */
  function Encode(s: Section, v: Value): (r: Section)
    ensures s.bytes <= r.bytes && |s.bytes| < |r.bytes|
    ensures r.noPointers == s.noPointers
    decreases Rank(v), v, 0
  {
    match v
    case Map(es) => EmitPairs(Append(s, Control(TAG_MAP, |es|)), es)
    case Array(items) => EmitItems(Append(s, Extended(EXT_ARRAY, |items|)), items)
    case _ => Append(s, Scalar(v))
  }

  function EmitItems(s: Section, items: seq<Value>): (r: Section)
    ensures s.bytes <= r.bytes
    ensures r.noPointers == s.noPointers
    decreases 1, items, 0
  {
    if items == [] then s else EmitItems(Emit(s, items[0]), items[1..])
  }

  function EmitPairs(s: Section, es: seq<Pair>): (r: Section)
    ensures s.bytes <= r.bytes
    ensures r.noPointers == s.noPointers
    decreases 1, es, 0
  {
    if es == [] then s else EmitPairs(EmitPair(s, es[0]), es[1..])
  }

  function EmitPair(s: Section, p: Pair): (r: Section)
    ensures s.bytes <= r.bytes && |s.bytes| < |r.bytes|
    ensures r.noPointers == s.noPointers
    decreases 1, p, 0
  {
    Emit(Emit(s, String(p.key)), p.value)
  }

  /** A pointer to the cached copy is strictly smaller than that copy, and allowed. */
  predicate UsesPointer(s: Section, v: Value) {
    !s.noPointers && v in s.dedup && s.dedup[v].len > PointerBytes(s.dedup[v].offset)
  }

  /** Record the bytes added since `s` as the emission of `v`. */
  function EntryFor(s: Section, r: Section): Entry {
    var offset, end := ToU32(|s.bytes|), ToU32(|r.bytes|);
    Entry(offset, if end < offset then 0 else end - offset)
  }

  /** `emit_inline`. */
  function Emit(s: Section, v: Value): (r: Section)
    ensures s.bytes <= r.bytes && |s.bytes| < |r.bytes|
    ensures r.noPointers == s.noPointers
    decreases Rank(v), v, 1
  {
    if UsesPointer(s, v) then Append(s, Pointer(s.dedup[v].offset))
    else
      var r := Encode(s, v);
      if v in r.dedup then r else r.(dedup := r.dedup[v := EntryFor(s, r)])
  }

  /** `push`: the new state. */
  function Push(s: Section, v: Value): (r: Section)
    ensures s.bytes <= r.bytes && v in r.dedup
    ensures r.noPointers == s.noPointers
  {
    if v in s.dedup then s
    else
      var r := Encode(s, v);
      r.(dedup := r.dedup[v := EntryFor(s, r)])
  }

  function PushAll(s: Section, vs: seq<Value>): (r: Section)
    ensures s.bytes <= r.bytes
    ensures r.noPointers == s.noPointers
    decreases |vs|
  {
    if vs == [] then s else PushAll(Push(s, vs[0]), vs[1..])
  }

  lemma AppendTwice(s: Section, a: seq<byte>, b: seq<byte>)
    ensures Append(Append(s, a), b) == Append(s, a + b)
  {
    assert (s.bytes + a) + b == s.bytes + (a + b);
  }

  /** In each size class the top bits of the biased offset fit the three bits left for them. */
  lemma HighBits(offset: nat)
    ensures offset < 2_048 ==> offset / 0x100 % 8 == offset / 0x100
    ensures 2_048 <= offset < 526_336 ==> (offset - 2_048) / 0x1_0000 % 8 == (offset - 2_048) / 0x1_0000
    ensures 526_336 <= offset < 134_744_064 ==>
              (offset - 526_336) / 0x100_0000 % 8 == (offset - 526_336) / 0x100_0000
  {
  }

  // --- The class ------------------------------------------------------------------------------

  class DataSection {
    var bytes: seq<byte>
    var dedup: map<Value, Entry>
    const noPointers: bool

    ghost function State(): Section
      reads this
    {
      Section(bytes, dedup, noPointers)
    }

    constructor (noPointers: bool)
      ensures State() == Section([], map[], noPointers)
    {
      bytes := [];
      dedup := map[];
      this.noPointers := noPointers;
    }

    /** The offset at which `value` lives: the cached one, or where it is now encoded. */
    method PushValue(value: Value) returns (offset: nat)
      modifies this
      ensures State() == Push(old(State()), value)
      ensures offset == dedup[value].offset
      ensures value in old(dedup) ==> bytes == old(bytes) && dedup == old(dedup)
      ensures value !in old(dedup) ==> offset == if |old(bytes)| <= U32_MAX then |old(bytes)| else U32_MAX
    {
      if value in dedup {
        return dedup[value].offset;
      }
      offset := ToU32(|bytes|);
      EncodeValue(value);
      var end := ToU32(|bytes|);
      var len := if end < offset then 0 else end - offset;
      dedup := dedup[value := Entry(offset, len)];
    }

    method EmitInline(value: Value)
      modifies this
      ensures State() == Emit(old(State()), value)
      ensures !noPointers && value in old(dedup)
              && old(dedup)[value].len > |Pointer(old(dedup)[value].offset)| ==>
                bytes == old(bytes) + Pointer(old(dedup)[value].offset) && dedup == old(dedup)
      decreases Rank(value), value, 1
    {
      if !noPointers && value in dedup {
        var entry := dedup[value];
        var pointerSize := PointerBytes(entry.offset);
        if entry.len > pointerSize {
          WritePointer(entry.offset);
          return;
        }
      }
      var offset := ToU32(|bytes|);
      EncodeValue(value);
      var end := ToU32(|bytes|);
      var len := if end < offset then 0 else end - offset;
      if value !in dedup {
        dedup := dedup[value := Entry(offset, len)];
      }
    }

    method EncodeValue(value: Value)
      modifies this
      ensures State() == Encode(old(State()), value)
      decreases Rank(value), value, 0
    {
      ghost var before := State();
      match value
      case String(s) => WriteBlob(TAG_UTF8, s);
      case Double(d) =>
        AppendTwice(before, Control(TAG_DOUBLE, 8), BeBytes(d, 8));
        WriteControlByte(TAG_DOUBLE, 8);
        ExtendFromSlice(BeBytes(d, 8));
      case Blob(b) => WriteBlob(TAG_BYTES, b);
      case U16(n) => WriteUint(TAG_UINT16, n, 2);
      case U32(n) => WriteUint(TAG_UINT32, n, 4);
      case Map(es) =>
        WriteControlByte(TAG_MAP, |es|);
        EmitEntries(es);
      case I32(n) => WriteExtended(EXT_INT32, ToUnsigned(n), 4);
      case U64(n) => WriteExtended(EXT_UINT64, n, 8);
      case U128(n) => WriteExtended(EXT_UINT128, n, 16);
      case Array(items) =>
        WriteExtendedHeader(EXT_ARRAY, |items|);
        EmitElements(items);
      case Bool(b) => WriteExtendedHeader(EXT_BOOL, if b then 1 else 0);
      case Float(f) =>
        AppendTwice(before, Extended(EXT_FLOAT, 4), BeBytes(f, 4));
        WriteExtendedHeader(EXT_FLOAT, 4);
        ExtendFromSlice(BeBytes(f, 4));
    }

    /** The loop over a map: each key and value goes through deduplication. */
    method EmitEntries(es: seq<Pair>)
      modifies this
      ensures State() == EmitPairs(old(State()), es)
      decreases 1, es, 0
    {
      var i := 0;
      while i < |es|
        invariant i <= |es|
        invariant EmitPairs(State(), es[i..]) == EmitPairs(old(State()), es)
      {
        EmitInline(String(es[i].key));
        EmitInline(es[i].value);
        i := i + 1;
      }
    }

    /** The loop over an array. */
    method EmitElements(items: seq<Value>)
      modifies this
      ensures State() == EmitItems(old(State()), items)
      decreases 1, items, 0
    {
      var i := 0;
      while i < |items|
        invariant i <= |items|
        invariant EmitItems(State(), items[i..]) == EmitItems(old(State()), items)
      {
        EmitInline(items[i]);
        i := i + 1;
      }
    }

    method ExtendFromSlice(b: seq<byte>)
      modifies this`bytes
      ensures State() == Append(old(State()), b)
    {
      bytes := bytes + b;
    }

    method WriteBlob(tag: Tag, data: seq<byte>)
      modifies this`bytes
      ensures State() == Append(old(State()), Control(tag, |data|) + data)
    {
      WriteControlByte(tag, |data|);
      ExtendFromSlice(data);
    }

    method WriteUint(tag: Tag, value: nat, maxBytes: nat)
      requires maxBytes <= 16
      modifies this`bytes
      ensures State() == Append(old(State()), Trimmed(tag, value, maxBytes))
    {
      var buf := EncodeUintTrimmed(value, maxBytes);
      WriteControlByte(tag, |buf|);
      ExtendFromSlice(buf);
    }

    method WriteExtended(ext: byte, value: nat, maxBytes: nat)
      requires maxBytes <= 16
      modifies this`bytes
      ensures State() == Append(old(State()), ExtendedTrimmed(ext, value, maxBytes))
    {
      var payload := EncodeUintTrimmed(value, maxBytes);
      WriteExtendedHeader(ext, |payload|);
      ExtendFromSlice(payload);
    }

    method WriteExtendedHeader(ext: byte, size: nat)
      modifies this`bytes
      ensures State() == Append(old(State()), Extended(ext, size))
    {
      WriteControlByte(TAG_EXTENDED, size);
      bytes := bytes + [ext];
    }

    method WriteControlByte(tag: Tag, size: nat)
      modifies this`bytes
      ensures State() == Append(old(State()), Control(tag, size))
    {
      var tagBits := tag * 32;
      if size < 29 {
        bytes := bytes + [tagBits + size];
      } else if size < 29 + 256 {
        bytes := bytes + [tagBits + 29];
        bytes := bytes + [size - 29];
      } else if size < 285 + 65_536 {
        bytes := bytes + [tagBits + 30];
        var delta := size - 285;
        bytes := bytes + [delta / 0x100, delta % 0x100];
      } else {
        bytes := bytes + [tagBits + 31];
        var delta := ToU32(size - 65_821);
        bytes := bytes + [delta / 0x1_0000 % 0x100, delta / 0x100 % 0x100, delta % 0x100];
      }
    }

    method WritePointer(offset: nat)
      modifies this`bytes
      ensures State() == Append(old(State()), Pointer(offset))
    {
      var tagBits := TAG_PTR * 32;
      HighBits(offset);
      if offset < 2_048 {
        var high := offset / 0x100 % 8;
        var low := offset % 0x100;
        bytes := bytes + [tagBits + high];
        bytes := bytes + [low];
      } else if offset < 526_336 {
        var biased := offset - 2_048;
        var high := biased / 0x1_0000 % 8;
        bytes := bytes + [tagBits + 8 + high];
        bytes := bytes + [biased / 0x100 % 0x100, biased % 0x100];
      } else if offset < 134_744_064 {
        var biased := offset - 526_336;
        var high := biased / 0x100_0000 % 8;
        bytes := bytes + [tagBits + 16 + high];
        bytes := bytes + [biased / 0x1_0000 % 0x100, biased / 0x100 % 0x100, biased % 0x100];
      } else {
        bytes := bytes + [tagBits + 24];
        bytes := bytes + BeBytes(offset, 4);
      }
    }
  }
}
