/**
  What the data section means: a reader gets back every pushed value, however many pushes
  follow, pointers only ever lead back to finished direct fields, and deduplication never
  costs a byte.
*/
module RoundTrips {
  import opened Prelude
  import opened Values
  import opened Wire
  import opened Decoding
  import opened DataSections

  /** Every string, blob, map and array inside `v` has a size the control field can carry. */
  predicate SizesOk(v: Value) {
    match v
    case String(s) => |s| < SIZE_LIMIT
    case Blob(b) => |b| < SIZE_LIMIT
    case Map(es) =>
      |es| < SIZE_LIMIT && forall i :: 0 <= i < |es| ==> |es[i].key| < SIZE_LIMIT && SizesOk(es[i].value)
    case Array(items) => |items| < SIZE_LIMIT && forall i :: 0 <= i < |items| ==> SizesOk(items[i])
    case _ => true
  }

  // --- Type numbers ---------------------------------------------------------------------------

  /** The type numbers of section "Data Field Format". */
  function SpecType(v: Value): nat {
    match v
    case String(_) => 2
    case Double(_) => 3
    case Blob(_) => 4
    case U16(_) => 5
    case U32(_) => 6
    case Map(_) => 7
    case I32(_) => 8
    case U64(_) => 9
    case U128(_) => 10
    case Array(_) => 11
    case Bool(_) => 14
    case Float(_) => 15
  }

  /** The header of every encoded value announces the type number of its kind. */
  lemma EncodedType(s: Section, v: Value)
    ensures var h := ReadHead(WriterOrder, Encode(s, v).bytes, |s.bytes|);
            h.Some? && h.value.kind == SpecType(v)
    ensures Encode(s, v).bytes[|s.bytes|] / 32 == if SpecType(v) <= 7 then SpecType(v) else 0
  {
    var r := Encode(s, v).bytes;
    match v
    case String(t) => PlainType(s.bytes, r, TAG_UTF8, |t|, t);
    case Double(d) => PlainType(s.bytes, r, TAG_DOUBLE, 8, BeBytes(d, 8));
    case Blob(b) => PlainType(s.bytes, r, TAG_BYTES, |b|, b);
    case U16(n) => PlainType(s.bytes, r, TAG_UINT16, |Trim(n, 2)|, Trim(n, 2));
    case U32(n) => PlainType(s.bytes, r, TAG_UINT32, |Trim(n, 4)|, Trim(n, 4));
    case Map(es) => PlainType(s.bytes, r, TAG_MAP, |es|, []);
    case I32(n) => ExtendedType(s.bytes, r, EXT_INT32, |Trim(ToUnsigned(n), 4)|, Trim(ToUnsigned(n), 4));
    case U64(n) => ExtendedType(s.bytes, r, EXT_UINT64, |Trim(n, 8)|, Trim(n, 8));
    case U128(n) => ExtendedType(s.bytes, r, EXT_UINT128, |Trim(n, 16)|, Trim(n, 16));
    case Array(items) => ExtendedType(s.bytes, r, EXT_ARRAY, |items|, []);
    case Bool(b) => ExtendedType(s.bytes, r, EXT_BOOL, if b then 1 else 0, []);
    case Float(f) => ExtendedType(s.bytes, r, EXT_FLOAT, 4, BeBytes(f, 4));
  }

  lemma PlainType(b: seq<byte>, r: seq<byte>, tag: Tag, size: nat, p: seq<byte>)
    requires b + (Control(tag, size) + p) <= r && tag != TAG_EXTENDED
    ensures |b| < |r| && r[|b|] / 32 == tag
    ensures var h := ReadHead(WriterOrder, r, |b|); h.Some? && h.value.kind == tag
  {
    AtAppended(b, Control(tag, size) + p, r);
    AtSplit(r, |b|, Control(tag, size), p);
    AtFirst(r, |b|, Control(tag, size));
    ControlRoundTrip(WriterOrder, r, |b|, tag, size);
  }

  lemma ExtendedType(b: seq<byte>, r: seq<byte>, ext: byte, size: nat, p: seq<byte>)
    requires b + (Extended(ext, size) + p) <= r && ext > 0
    ensures |b| < |r| && r[|b|] / 32 == 0
    ensures var h := ReadHead(WriterOrder, r, |b|); h.Some? && h.value.kind == 7 + ext
  {
    AtAppended(b, Extended(ext, size) + p, r);
    AtSplit(r, |b|, Extended(ext, size), p);
    AtFirst(r, |b|, Extended(ext, size));
    ExtendedRoundTrip(r, |b|, ext, size);
  }

  // --- Scalars --------------------------------------------------------------------------------

  /** `buf` ends with `x`, which starts at `pos`. */
  ghost predicate EndsAt(buf: seq<byte>, pos: nat, x: seq<byte>) {
    At(buf, pos, x) && |buf| == pos + |x|
  }

  /** Decoding, once the header at `pos` is known. */
  lemma DecodeAtHead(buf: seq<byte>, pos: nat, h: Head)
    requires pos < |buf| && buf[pos] / 32 != KIND_PTR && ReadHead(WriterOrder, buf, pos) == Some(h)
    ensures Decode(WriterOrder, buf, pos) == DecodeBody(WriterOrder, buf, pos, h)
  {
  }

  /** Decoding a scalar, once its payload is known to fill the rest of `buf`. */
  lemma BodyOfScalar(buf: seq<byte>, pos: nat, h: Head, p: seq<byte>)
    requires pos < h.next <= |buf| && At(buf, h.next, p) && h.size == |p| && |buf| == h.next + |p|
    requires h.kind != KIND_MAP && h.kind != KIND_ARRAY && h.kind != KIND_BOOL
    ensures DecodeBody(WriterOrder, buf, pos, h) ==
            match ScalarOf(h.kind, p) case None => None case Some(v) => Some(Field(v, |buf|))
  {
  }

  /** A plain field with payload `p` decodes to the scalar of that payload. */
  lemma PlainField(buf: seq<byte>, pos: nat, tag: Tag, p: seq<byte>)
    requires EndsAt(buf, pos, Control(tag, |p|) + p) && |p| < SIZE_LIMIT
    requires tag != TAG_EXTENDED && tag != TAG_PTR && tag != TAG_MAP
    ensures Decode(WriterOrder, buf, pos) ==
            match ScalarOf(tag, p) case None => None case Some(v) => Some(Field(v, |buf|))
  {
    var c := Control(tag, |p|);
    AtSplit(buf, pos, c, p);
    ControlRoundTrip(WriterOrder, buf, pos, tag, |p|);
    AtFirst(buf, pos, c);
    var h := Head(tag, |p|, pos + |c|);
    DecodeAtHead(buf, pos, h);
    BodyOfScalar(buf, pos, h, p);
  }

  lemma AtFirst(buf: seq<byte>, pos: nat, x: seq<byte>)
    requires At(buf, pos, x) && x != []
    ensures buf[pos] == x[0]
  {
    AtIndex(buf, pos, x);
    assert buf[pos + 0] == x[0];
  }

  lemma ExtendedField(buf: seq<byte>, pos: nat, ext: byte, p: seq<byte>)
    requires EndsAt(buf, pos, Extended(ext, |p|) + p) && |p| < SIZE_LIMIT
    requires 0 < ext && ext != EXT_ARRAY && ext != EXT_BOOL
    ensures Decode(WriterOrder, buf, pos) ==
            match ScalarOf(7 + ext, p) case None => None case Some(v) => Some(Field(v, |buf|))
  {
    var c := Extended(ext, |p|);
    AtSplit(buf, pos, c, p);
    ExtendedRoundTrip(buf, pos, ext, |p|);
    AtFirst(buf, pos, c);
    var h := Head(7 + ext, |p|, pos + |c|);
    DecodeAtHead(buf, pos, h);
    BodyOfScalar(buf, pos, h, p);
  }

  lemma BoolField(buf: seq<byte>, pos: nat, b: bool)
    requires EndsAt(buf, pos, Extended(EXT_BOOL, if b then 1 else 0))
    ensures Decode(WriterOrder, buf, pos) == Some(Field(Bool(b), |buf|))
  {
    ExtendedRoundTrip(buf, pos, EXT_BOOL, if b then 1 else 0);
    AtIndex(buf, pos, Extended(EXT_BOOL, if b then 1 else 0));
  }

  /** A trimmed integer is recovered from its payload. */
  lemma TrimmedValue(n: nat, w: nat)
    requires w <= 16 && n < Pow256(w)
    ensures |Trim(n, w)| <= w && Unsigned(Trim(n, w), w) == Some(n)
  {
    TrimLaw(n, w);
  }

  lemma FixedValue(n: nat, w: nat)
    requires n < Pow256(w)
    ensures Unsigned(BeBytes(n, w), w) == Some(n)
  {
    BeRoundTrip(n, w);
  }

  lemma PlainIntDecodes(buf: seq<byte>, pos: nat, tag: Tag, n: nat, w: nat)
    requires w <= 16 && n < Pow256(w) && EndsAt(buf, pos, Trimmed(tag, n, w))
    requires (tag == TAG_UINT16 && w == 2) || (tag == TAG_UINT32 && w == 4)
    ensures var f := Decode(WriterOrder, buf, pos);
            && f.Some? && f.value.next == |buf|
            && (tag == TAG_UINT16 ==> f.value.value.U16? && f.value.value.n16 == n)
            && (tag == TAG_UINT32 ==> f.value.value.U32? && f.value.value.n32 == n)
  {
    TrimmedValue(n, w);
    PlainField(buf, pos, tag, Trim(n, w));
  }

  lemma ExtendedIntDecodes(buf: seq<byte>, pos: nat, ext: byte, n: nat, w: nat)
    requires w <= 16 && n < Pow256(w) && EndsAt(buf, pos, ExtendedTrimmed(ext, n, w))
    requires (ext == EXT_UINT64 && w == 8) || (ext == EXT_UINT128 && w == 16)
    ensures var f := Decode(WriterOrder, buf, pos);
            && f.Some? && f.value.next == |buf|
            && (ext == EXT_UINT64 ==> f.value.value.U64? && f.value.value.n64 == n)
            && (ext == EXT_UINT128 ==> f.value.value.U128? && f.value.value.n128 == n)
  {
    TrimmedValue(n, w);
    ExtendedField(buf, pos, ext, Trim(n, w));
  }

  /** Negative integers survive as their 32-bit pattern. */
  lemma SignedDecodes(buf: seq<byte>, pos: nat, n: i32)
    requires EndsAt(buf, pos, ExtendedTrimmed(EXT_INT32, ToUnsigned(n), 4))
    ensures Decode(WriterOrder, buf, pos) == Some(Field(I32(n), |buf|))
  {
    var u := ToUnsigned(n);
    var p := Trim(u, 4);
    Pow256Values(4);
    TrimmedValue(u, 4);
    SignedPattern(n, p);
    ExtendedField(buf, pos, EXT_INT32, p);
  }

  lemma SignedPattern(n: i32, p: seq<byte>)
    requires |p| <= 4 && Unsigned(p, 4) == Some(ToUnsigned(n))
    ensures ScalarOf(KIND_INT32, p) == Some(I32(n))
  {
    Pow256Values(4);
  }

  lemma DoubleDecodes(buf: seq<byte>, pos: nat, d: u64)
    requires EndsAt(buf, pos, Control(TAG_DOUBLE, 8) + BeBytes(d, 8))
    ensures Decode(WriterOrder, buf, pos) == Some(Field(Double(d), |buf|))
  {
    Pow256Values(8);
    FixedValue(d, 8);
    PlainField(buf, pos, TAG_DOUBLE, BeBytes(d, 8));
  }

  lemma FloatDecodes(buf: seq<byte>, pos: nat, f: u32)
    requires EndsAt(buf, pos, Extended(EXT_FLOAT, 4) + BeBytes(f, 4))
    ensures Decode(WriterOrder, buf, pos) == Some(Field(Float(f), |buf|))
  {
    Pow256Values(4);
    FixedValue(f, 4);
    ExtendedField(buf, pos, EXT_FLOAT, BeBytes(f, 4));
  }

  /** Every scalar comes back from its own bytes. */
  lemma ScalarDecodes(buf: seq<byte>, pos: nat, v: Value)
    requires !IsContainer(v) && SizesOk(v) && EndsAt(buf, pos, Scalar(v))
    ensures Decode(WriterOrder, buf, pos) == Some(Field(v, |buf|))
  {
    match v
    case String(s) => PlainField(buf, pos, TAG_UTF8, s);
    case Blob(b) => PlainField(buf, pos, TAG_BYTES, b);
    case Double(d) => DoubleDecodes(buf, pos, d);
    case U16(n) => Pow256Values(2); PlainIntDecodes(buf, pos, TAG_UINT16, n, 2);
    case U32(n) => Pow256Values(4); PlainIntDecodes(buf, pos, TAG_UINT32, n, 4);
    case I32(n) => SignedDecodes(buf, pos, n);
    case U64(n) => Pow256Values(8); ExtendedIntDecodes(buf, pos, EXT_UINT64, n, 8);
    case U128(n) => Pow256Values(16); ExtendedIntDecodes(buf, pos, EXT_UINT128, n, 16);
    case Bool(b) => BoolField(buf, pos, b);
    case Float(f) => FloatDecodes(buf, pos, f);
  }

  // --- The invariant of the deduplication table -------------------------------------------------

  /** At `offset` stands a finished, direct (non-pointer) field that decodes to `v`. */
  ghost predicate Locates(bytes: seq<byte>, offset: nat, v: Value) {
    && offset < |bytes|
    && bytes[offset] / 32 != KIND_PTR
    && (SizesOk(v) ==> Yields(Decode(WriterOrder, bytes, offset), v))
  }

  predicate Yields(f: Option<Field>, v: Value) {
    f.Some? && f.value.value == v
  }

  /**
    A table entry lies inside the section and locates its value, unless its offset was saturated;
    no pointer is written then.
  */
  ghost predicate EntryOk(bytes: seq<byte>, v: Value, e: Entry) {
    && e.offset < |bytes| && e.offset + e.len <= U32_MAX && e.offset + e.len <= |bytes|
    && (e.offset < U32_MAX ==> Locates(bytes, e.offset, v))
    && (Unsaturated(e) && SizesOk(v) ==>
          Decode(WriterOrder, bytes, e.offset) == Some(Field(v, e.offset + e.len)))
  }

  /** The recorded length is the length of the field. */
  predicate Unsaturated(e: Entry) {
    e.offset + e.len < U32_MAX
  }

  ghost predicate Good(s: Section) {
    forall v :: v in s.dedup ==> EntryOk(s.bytes, v, s.dedup[v])
  }

  lemma EntryExtend(bytes: seq<byte>, longer: seq<byte>, v: Value, e: Entry)
    requires EntryOk(bytes, v, e) && bytes <= longer
    ensures EntryOk(longer, v, e)
  {
    if SizesOk(v) && e.offset < U32_MAX {
      DecodeLonger(WriterOrder, bytes, longer, e.offset);
    }
  }

  lemma DecodeLonger(ord: Order, bytes: seq<byte>, longer: seq<byte>, pos: nat)
    requires bytes <= longer && Decode(ord, bytes, pos).Some?
    ensures Decode(ord, longer, pos) == Decode(ord, bytes, pos)
  {
    assert longer == bytes + longer[|bytes|..];
    DecodeExtend(ord, bytes, longer[|bytes|..], pos);
  }

  lemma GoodAppend(s: Section, b: seq<byte>)
    requires Good(s)
    ensures Good(Append(s, b))
  {
    forall v | v in s.dedup
      ensures EntryOk(s.bytes + b, v, s.dedup[v])
    {
      EntryExtend(s.bytes, s.bytes + b, v, s.dedup[v]);
    }
  }

  /** The bytes from `pos` to the end of `bytes` are one field decoding to `v`. */
  ghost predicate FieldAt(bytes: seq<byte>, pos: nat, v: Value) {
    SizesOk(v) ==> Decode(WriterOrder, bytes, pos) == Some(Field(v, |bytes|))
  }

  /** Encoding keeps the table good and leaves a direct field for `v` at the end. */
  lemma {:induction false} EncodeGood(s: Section, v: Value)
    requires Good(s)
    ensures Good(Encode(s, v))
    ensures Encode(s, v).bytes[|s.bytes|] / 32 != KIND_PTR
    ensures FieldAt(Encode(s, v).bytes, |s.bytes|, v)
    decreases Rank(v), v, 0
  {
    match v
    case Map(es) => EncodeMapGood(s, es, Encode(s, v));
    case Array(items) => EncodeArrayGood(s, items, Encode(s, v));
    case _ => EncodeScalarGood(s, v);
  }

  lemma EncodeScalarGood(s: Section, v: Value)
    requires Good(s) && !IsContainer(v)
    ensures Good(Encode(s, v))
    ensures Encode(s, v).bytes[|s.bytes|] / 32 != KIND_PTR
    ensures FieldAt(Encode(s, v).bytes, |s.bytes|, v)
  {
    var b := Scalar(v);
    GoodAppend(s, b);
    AtAppended(s.bytes, b, s.bytes + b);
    AtFirst(s.bytes + b, |s.bytes|, b);
    if SizesOk(v) {
      ScalarDecodes(s.bytes + b, |s.bytes|, v);
    }
  }

  lemma {:induction false} EncodeMapGood(s: Section, es: seq<Pair>, r: Section)
    requires Good(s)
    requires r == EmitPairs(Append(s, Control(TAG_MAP, |es|)), es)
    ensures Good(r)
    ensures |s.bytes| < |r.bytes| && r.bytes[|s.bytes|] / 32 != KIND_PTR
    ensures FieldAt(r.bytes, |s.bytes|, Map(es))
    decreases 1, es, 1
  {
    var c := Control(TAG_MAP, |es|);
    var s0 := Append(s, c);
    GoodAppend(s, c);
    PairsGood(s0, es);
    ControlHead(s.bytes, r.bytes, TAG_MAP, |es|);
    if SizesOk(Map(es)) {
      MapBody(r.bytes, |s.bytes|, |s0.bytes|, es);
    }
  }

  lemma {:induction false} EncodeArrayGood(s: Section, items: seq<Value>, r: Section)
    requires Good(s)
    requires r == EmitItems(Append(s, Extended(EXT_ARRAY, |items|)), items)
    ensures Good(r)
    ensures |s.bytes| < |r.bytes| && r.bytes[|s.bytes|] / 32 != KIND_PTR
    ensures FieldAt(r.bytes, |s.bytes|, Array(items))
    decreases 1, items, 1
  {
    var c := Extended(EXT_ARRAY, |items|);
    var s0 := Append(s, c);
    GoodAppend(s, c);
    ItemsGood(s0, items);
    ExtendedHead(s.bytes, r.bytes, EXT_ARRAY, |items|);
    if SizesOk(Array(items)) {
      ArrayBody(r.bytes, |s.bytes|, |s0.bytes|, items);
    }
  }

  lemma AtAppended(b: seq<byte>, c: seq<byte>, longer: seq<byte>)
    requires b + c <= longer
    ensures At(longer, |b|, c)
  {
    assert longer[|b|..|b| + |c|] == (b + c)[|b|..];
  }

  lemma ControlHead(b: seq<byte>, r: seq<byte>, tag: Tag, size: nat)
    requires b + Control(tag, size) <= r && tag != TAG_EXTENDED && tag != TAG_PTR
    ensures r[|b|] / 32 != KIND_PTR
    ensures size < SIZE_LIMIT ==>
              ReadHead(WriterOrder, r, |b|) == Some(Head(tag, size, |b| + |Control(tag, size)|))
  {
    var c := Control(tag, size);
    AtAppended(b, c, r);
    AtFirst(r, |b|, c);
    ControlRoundTrip(WriterOrder, r, |b|, tag, size);
  }

  lemma ExtendedHead(b: seq<byte>, r: seq<byte>, ext: byte, size: nat)
    requires b + Extended(ext, size) <= r && ext > 0
    ensures r[|b|] / 32 != KIND_PTR
    ensures size < SIZE_LIMIT ==>
              ReadHead(WriterOrder, r, |b|) == Some(Head(7 + ext, size, |b| + |Extended(ext, size)|))
  {
    var c := Extended(ext, size);
    AtAppended(b, c, r);
    AtFirst(r, |b|, c);
    ExtendedRoundTrip(r, |b|, ext, size);
  }

  /** A map field, from its header and its entries. */
  lemma MapBody(r: seq<byte>, pos: nat, next: nat, es: seq<Pair>)
    requires pos < next <= |r| && r[pos] / 32 != KIND_PTR
    requires ReadHead(WriterOrder, r, pos) == Some(Head(KIND_MAP, |es|, next))
    requires DecodePairs(WriterOrder, r, next, |es|) == Some(Pairs(es, |r|))
    ensures Decode(WriterOrder, r, pos) == Some(Field(Map(es), |r|))
  {
    DecodeAtHead(r, pos, Head(KIND_MAP, |es|, next));
  }

  lemma ArrayBody(r: seq<byte>, pos: nat, next: nat, items: seq<Value>)
    requires pos < next <= |r| && r[pos] / 32 != KIND_PTR
    requires ReadHead(WriterOrder, r, pos) == Some(Head(KIND_ARRAY, |items|, next))
    requires DecodeItems(WriterOrder, r, next, |items|) == Some(Fields(items, |r|))
    ensures Decode(WriterOrder, r, pos) == Some(Field(Array(items), |r|))
  {
    DecodeAtHead(r, pos, Head(KIND_ARRAY, |items|, next));
  }

  lemma {:induction false} ItemsGood(s: Section, items: seq<Value>)
    requires Good(s)
    ensures Good(EmitItems(s, items))
    ensures AllSizesOk(items) ==>
              DecodeItems(WriterOrder, EmitItems(s, items).bytes, |s.bytes|, |items|)
              == Some(Fields(items, |EmitItems(s, items).bytes|))
    decreases 1, items, 0
  {
    if items != [] {
      var s1 := Emit(s, items[0]);
      var r := EmitItems(s1, items[1..]);
      assert r == EmitItems(s, items);
      EmitGood(s, items[0]);
      ItemsGood(s1, items[1..]);
      if AllSizesOk(items) {
        DecodeLonger(WriterOrder, s1.bytes, r.bytes, |s.bytes|);
        ItemsCons(r.bytes, |s.bytes|, |s1.bytes|, items);
      }
    }
  }

  predicate AllSizesOk(items: seq<Value>) {
    forall i :: 0 <= i < |items| ==> SizesOk(items[i])
  }

  lemma ItemsCons(r: seq<byte>, pos: nat, next: nat, items: seq<Value>)
    requires items != [] && pos < next <= |r|
    requires Decode(WriterOrder, r, pos) == Some(Field(items[0], next))
    requires DecodeItems(WriterOrder, r, next, |items| - 1) == Some(Fields(items[1..], |r|))
    ensures DecodeItems(WriterOrder, r, pos, |items|) == Some(Fields(items, |r|))
  {
    assert [items[0]] + items[1..] == items;
  }

  predicate PairSizesOk(es: seq<Pair>) {
    forall i :: 0 <= i < |es| ==> |es[i].key| < SIZE_LIMIT && SizesOk(es[i].value)
  }

  lemma {:induction false} PairsGood(s: Section, es: seq<Pair>)
    requires Good(s)
    ensures Good(EmitPairs(s, es))
    ensures EntriesAt(EmitPairs(s, es).bytes, |s.bytes|, es)
    decreases 1, es, 0
  {
    if es != [] {
      var s1 := EmitPair(s, es[0]);
      var r := EmitPairs(s1, es[1..]);
      PairGood(s, es[0], r.bytes);
      PairsGood(s1, es[1..]);
      PairsCons(r.bytes, |s.bytes|, |s1.bytes|, es);
    }
  }

  /** The bytes from `pos` to the end are the entries `es`. */
  ghost predicate EntriesAt(bytes: seq<byte>, pos: nat, es: seq<Pair>)
    requires pos <= |bytes|
  {
    PairSizesOk(es) ==> DecodePairs(WriterOrder, bytes, pos, |es|) == Some(Pairs(es, |bytes|))
  }

  /** The entry at `pos` is `p`, and ends at `next`. */
  ghost predicate EntryAt(bytes: seq<byte>, pos: nat, p: Pair, next: nat)
    requires pos <= |bytes|
  {
    |p.key| < SIZE_LIMIT && SizesOk(p.value) ==> DecodePair(WriterOrder, bytes, pos) == Some(OnePair(p, next))
  }

  lemma {:induction false} PairGood(s: Section, p: Pair, r: seq<byte>)
    requires Good(s) && EmitPair(s, p).bytes <= r
    ensures Good(EmitPair(s, p))
    ensures EntryAt(r, |s.bytes|, p, |EmitPair(s, p).bytes|)
    decreases 1, p, 0
  {
    var s1 := Emit(s, String(p.key));
    EmitGood(s, String(p.key));
    EmitGood(s1, p.value);
    if |p.key| < SIZE_LIMIT && SizesOk(p.value) {
      OnePairGood(s.bytes, s1.bytes, Emit(s1, p.value).bytes, r, p);
    }
  }

  lemma OnePairGood(b0: seq<byte>, b1: seq<byte>, b2: seq<byte>, r: seq<byte>, p: Pair)
    requires b0 <= b1 <= b2 <= r && |p.key| < SIZE_LIMIT && SizesOk(p.value)
    requires FieldAt(b1, |b0|, String(p.key)) && FieldAt(b2, |b1|, p.value)
    ensures DecodePair(WriterOrder, r, |b0|) == Some(OnePair(p, |b2|))
  {
    assert SizesOk(String(p.key));
    DecodeLonger(WriterOrder, b1, r, |b0|);
    DecodeLonger(WriterOrder, b2, r, |b1|);
  }

  lemma PairsCons(r: seq<byte>, pos: nat, next: nat, es: seq<Pair>)
    requires es != [] && pos < next <= |r|
    requires EntryAt(r, pos, es[0], next) && EntriesAt(r, next, es[1..])
    ensures EntriesAt(r, pos, es)
  {
    assert [es[0]] + es[1..] == es;
  }

  /** Emission keeps the table good; the field it leaves is the value or a pointer to it. */
  lemma {:induction false} EmitGood(s: Section, v: Value)
    requires Good(s)
    ensures Good(Emit(s, v))
    ensures FieldAt(Emit(s, v).bytes, |s.bytes|, v)
    decreases Rank(v), v, 1
  {
    if UsesPointer(s, v) {
      PointerGood(s, v);
    } else {
      EncodeGood(s, v);
      RecordGood(s, v);
    }
  }

  /** A fresh table entry for the field just encoded is good. */
  lemma RecordGood(s: Section, v: Value)
    requires Good(Encode(s, v))
    requires Encode(s, v).bytes[|s.bytes|] / 32 != KIND_PTR && FieldAt(Encode(s, v).bytes, |s.bytes|, v)
    ensures var r := Encode(s, v); Good(r.(dedup := r.dedup[v := EntryFor(s, r)]))
  {
    var r := Encode(s, v);
    var r' := r.(dedup := r.dedup[v := EntryFor(s, r)]);
    NewEntryOk(s, r, v);
    forall u | u in r'.dedup
      ensures EntryOk(r'.bytes, u, r'.dedup[u])
    {
      if u != v {
        assert EntryOk(r.bytes, u, r.dedup[u]);
      }
    }
  }

  lemma NewEntryOk(s: Section, r: Section, v: Value)
    requires |s.bytes| < |r.bytes| && r.bytes[|s.bytes|] / 32 != KIND_PTR && FieldAt(r.bytes, |s.bytes|, v)
    ensures EntryOk(r.bytes, v, EntryFor(s, r))
  {
  }

  lemma PointerGood(s: Section, v: Value)
    requires Good(s) && UsesPointer(s, v)
    ensures var e := s.dedup[v];
            e.offset < e.offset + e.len <= |s.bytes| && s.bytes[e.offset] / 32 != KIND_PTR
    ensures ReadPointer(Append(s, Pointer(s.dedup[v].offset)).bytes, |s.bytes|).Some?
    ensures ReadPointer(Append(s, Pointer(s.dedup[v].offset)).bytes, |s.bytes|).value.offset == s.dedup[v].offset
    ensures Good(Append(s, Pointer(s.dedup[v].offset)))
    ensures FieldAt(Append(s, Pointer(s.dedup[v].offset)).bytes, |s.bytes|, v)
  {
    var e := s.dedup[v];
    assert EntryOk(s.bytes, v, e);
    GoodAppend(s, Pointer(e.offset));
    AtAppended(s.bytes, Pointer(e.offset), s.bytes + Pointer(e.offset));
    PointerRoundTrip(s.bytes + Pointer(e.offset), |s.bytes|, e.offset);
    if SizesOk(v) {
      FollowPointer(s.bytes, v, e.offset);
    }
  }

  /** A pointer appended to the section is followed in the bytes before it. */
  lemma FollowPointer(bytes: seq<byte>, v: Value, offset: nat)
    requires Locates(bytes, offset, v) && SizesOk(v) && offset < U32_MAX
    ensures var buf := bytes + Pointer(offset);
            Decode(WriterOrder, buf, |bytes|) == Some(Field(v, |buf|))
  {
    var p := Pointer(offset);
    var buf := bytes + p;
    AtAppended(bytes, p, buf);
    AtFirst(buf, |bytes|, p);
    PointerRoundTrip(buf, |bytes|, offset);
    assert buf[..|bytes|] == bytes;
    DecodePointer(buf, |bytes|, bytes, Target(offset, |buf|));
  }

  lemma DecodePointer(buf: seq<byte>, pos: nat, before: seq<byte>, t: Target)
    requires pos < |buf| && before == buf[..pos] && buf[pos] / 32 == KIND_PTR
    requires ReadPointer(buf, pos) == Some(t) && t.offset < pos && before[t.offset] / 32 != KIND_PTR
    requires Decode(WriterOrder, before, t.offset).Some?
    ensures Decode(WriterOrder, buf, pos) == Some(Field(Decode(WriterOrder, before, t.offset).value.value, t.next))
  {
    assert buf[t.offset] == before[t.offset];
  }

  lemma PushGood(s: Section, v: Value)
    requires Good(s)
    ensures Good(Push(s, v))
  {
    if v !in s.dedup {
      EncodeGood(s, v);
      RecordGood(s, v);
    }
  }

  lemma {:induction false} PushAllGood(s: Section, vs: seq<Value>)
    requires Good(s)
    ensures Good(PushAll(s, vs))
    ensures forall v :: v in s.dedup ==> v in PushAll(s, vs).dedup && PushAll(s, vs).dedup[v] == s.dedup[v]
    ensures forall v :: v in vs ==> v in PushAll(s, vs).dedup
    decreases |vs|
  {
    if vs != [] {
      PushGood(s, vs[0]);
      PushKeeps(s, vs[0]);
      PushAllGood(Push(s, vs[0]), vs[1..]);
    }
  }

  /** Table entries are never changed: an offset handed out stays valid. */
  lemma {:induction false} EncodeKeeps(s: Section, v: Value)
    ensures forall u :: u in s.dedup ==> u in Encode(s, v).dedup && Encode(s, v).dedup[u] == s.dedup[u]
    decreases Rank(v), v, 0
  {
    match v
    case Map(es) => PairsKeep(Append(s, Control(TAG_MAP, |es|)), es);
    case Array(items) => ItemsKeep(Append(s, Extended(EXT_ARRAY, |items|)), items);
    case _ =>
  }

  lemma {:induction false} EmitKeeps(s: Section, v: Value)
    ensures forall u :: u in s.dedup ==> u in Emit(s, v).dedup && Emit(s, v).dedup[u] == s.dedup[u]
    decreases Rank(v), v, 1
  {
    EncodeKeeps(s, v);
  }

  lemma {:induction false} ItemsKeep(s: Section, items: seq<Value>)
    ensures forall u :: u in s.dedup ==> u in EmitItems(s, items).dedup && EmitItems(s, items).dedup[u] == s.dedup[u]
    decreases 1, items, 0
  {
    if items != [] {
      EmitKeeps(s, items[0]);
      ItemsKeep(Emit(s, items[0]), items[1..]);
    }
  }

  lemma {:induction false} PairsKeep(s: Section, es: seq<Pair>)
    ensures forall u :: u in s.dedup ==> u in EmitPairs(s, es).dedup && EmitPairs(s, es).dedup[u] == s.dedup[u]
    decreases 1, es, 0
  {
    if es != [] {
      EmitKeeps(s, String(es[0].key));
      EmitKeeps(Emit(s, String(es[0].key)), es[0].value);
      PairsKeep(EmitPair(s, es[0]), es[1..]);
    }
  }

  lemma PushKeeps(s: Section, v: Value)
    ensures forall u :: u in s.dedup ==> u in Push(s, v).dedup && Push(s, v).dedup[u] == s.dedup[u]
  {
    EncodeKeeps(s, v);
  }

  // --- Oversized values -------------------------------------------------------------------------

  /** No reader, in either order, ever returns a value with a size beyond the limit. */
  lemma {:induction false} DecodedSizesOk(ord: Order, buf: seq<byte>, pos: nat)
    requires Decode(ord, buf, pos).Some?
    ensures SizesOk(Decode(ord, buf, pos).value.value)
    decreases |buf|, |buf| - pos, 0
  {
    if ByteAt(buf, pos) / 32 == KIND_PTR {
      DecodedSizesOk(ord, buf[..pos], ReadPointer(buf, pos).value.offset);
    } else {
      var h := ReadHead(ord, buf, pos).value;
      if h.kind == KIND_MAP {
        DecodedPairsOk(ord, buf, h.next, h.size);
      } else if h.kind == KIND_ARRAY {
        DecodedItemsOk(ord, buf, h.next, h.size);
      }
    }
  }

  lemma {:induction false} DecodedItemsOk(ord: Order, buf: seq<byte>, pos: nat, n: nat)
    requires pos <= |buf| && DecodeItems(ord, buf, pos, n).Some?
    ensures AllSizesOk(DecodeItems(ord, buf, pos, n).value.values)
    decreases |buf|, |buf| - pos, 1
  {
    if n != 0 {
      DecodedSizesOk(ord, buf, pos);
      DecodedItemsOk(ord, buf, Decode(ord, buf, pos).value.next, n - 1);
    }
  }

  lemma {:induction false} DecodedPairsOk(ord: Order, buf: seq<byte>, pos: nat, n: nat)
    requires pos <= |buf| && DecodePairs(ord, buf, pos, n).Some?
    ensures PairSizesOk(DecodePairs(ord, buf, pos, n).value.entries)
    decreases |buf|, |buf| - pos, 2
  {
    if n != 0 {
      DecodedPairOk(ord, buf, pos);
      DecodedPairsOk(ord, buf, DecodePair(ord, buf, pos).value.next, n - 1);
    }
  }

  lemma {:induction false} DecodedPairOk(ord: Order, buf: seq<byte>, pos: nat)
    requires pos <= |buf| && DecodePair(ord, buf, pos).Some?
    ensures var p := DecodePair(ord, buf, pos).value.pair; |p.key| < SIZE_LIMIT && SizesOk(p.value)
    decreases |buf|, |buf| - pos, 1
  {
    DecodedSizesOk(ord, buf, pos);
    DecodedSizesOk(ord, buf, Decode(ord, buf, pos).value.next);
  }

  lemma YieldsOnlyOk(ord: Order, buf: seq<byte>, pos: nat, v: Value)
    requires Yields(Decode(ord, buf, pos), v)
    ensures SizesOk(v)
  {
    DecodedSizesOk(ord, buf, pos);
  }

  // --- The round trip ---------------------------------------------------------------------------

  /**
    For every run of pushes on a fresh section, with or without pointers: at the offset a push
    of `v` returned, the final bytes hold a direct field; the writer-order reader gets `v` back
    exactly if all sizes in it are in range, and the specification's reader exactly if moreover
    every array in it is order-blind.
  */
  lemma PushedValueReads(noPointers: bool, before: seq<Value>, v: Value, later: seq<Value>)
    ensures var pushed := PushAll(Section([], map[], noPointers), before + [v]);
            var bytes := PushAll(Section([], map[], noPointers), before + [v] + later).bytes;
            && v in pushed.dedup
            && (pushed.dedup[v].offset < U32_MAX ==> ReadsBack(bytes, pushed.dedup[v].offset, v))
            && (pushed.dedup[v].offset >= U32_MAX ==> pushed.dedup[v].offset == U32_MAX < |pushed.bytes|)
  {
    var s := Section([], map[], noPointers);
    PushAllConcat(s, before + [v], later);
    var pushed := PushAll(s, before + [v]);
    LaterReads(s, pushed, PushAll(pushed, later).bytes, before, v);
  }

  /** At `offset` there is a direct field, which either reader takes for `v` if it can at all. */
  ghost predicate ReadsBack(bytes: seq<byte>, offset: nat, v: Value) {
    && offset < |bytes| && bytes[offset] / 32 != KIND_PTR
    && (Yields(Decode(WriterOrder, bytes, offset), v) <==> SizesOk(v))
    && (Yields(Decode(SpecOrder, bytes, offset), v) <==> SizesOk(v) && Readable(v))
  }

  lemma LaterReads(s: Section, pushed: Section, final: seq<byte>, before: seq<Value>, v: Value)
    requires Good(s) && pushed == PushAll(s, before + [v])
    requires pushed.bytes <= final
    ensures v in pushed.dedup
    ensures pushed.dedup[v].offset < U32_MAX ==> ReadsBack(final, pushed.dedup[v].offset, v)
    ensures pushed.dedup[v].offset >= U32_MAX ==> pushed.dedup[v].offset == U32_MAX < |pushed.bytes|
  {
    assert v == (before + [v])[|before|];
    PushAllGood(s, before + [v]);
    var e := pushed.dedup[v];
    EntryExtend(pushed.bytes, final, v, e);
    if e.offset < U32_MAX {
      LocatedReads(final, e.offset, v);
    }
  }

  lemma LocatedReads(bytes: seq<byte>, offset: nat, v: Value)
    requires Locates(bytes, offset, v)
    ensures ReadsBack(bytes, offset, v)
  {
    if SizesOk(v) {
      SpecReads(bytes, offset);
    } else if Yields(Decode(WriterOrder, bytes, offset), v) {
      YieldsOnlyOk(WriterOrder, bytes, offset, v);
    } else if Yields(Decode(SpecOrder, bytes, offset), v) {
      YieldsOnlyOk(SpecOrder, bytes, offset, v);
    }
  }

  lemma {:induction false} PushAllConcat(s: Section, a: seq<Value>, b: seq<Value>)
    ensures PushAll(s, a + b) == PushAll(PushAll(s, a), b)
    decreases |a|
  {
    if a == [] {
      assert a + b == b;
    } else {
      assert (a + b)[1..] == a[1..] + b;
      PushAllConcat(Push(s, a[0]), a[1..], b);
    }
  }

  /** A witness that the specification's reader can be lost: an array of 29 booleans. */
  lemma TwentyNineBools()
    ensures var v := Array(seq(29, i => Bool(true)));
            var s := PushAll(FRESH, [v]);
            && v in s.dedup
            && Yields(Decode(WriterOrder, s.bytes, s.dedup[v].offset), v)
            && !Yields(Decode(SpecOrder, s.bytes, s.dedup[v].offset), v)
  {
    var v := Array(seq(29, i => Bool(true)));
    PushedAlone(v);
    assert !Readable(v) && SizesOk(v);
  }

  /** A witness of the size limit: a blob of 65,821 + 2^24 bytes comes back from neither reader. */
  lemma OversizedBlob(v: Value)
    requires v == Blob(seq(SIZE_LIMIT, i => 0))
    ensures var s := PushAll(FRESH, [v]);
            && v in s.dedup && s.dedup[v].offset == 0
            && !Yields(Decode(WriterOrder, s.bytes, 0), v) && !Yields(Decode(SpecOrder, s.bytes, 0), v)
  {
    PushedAlone(v);
  }

  /** A single pushed value, at offset 0. */
  lemma PushedAlone(v: Value)
    ensures var s := PushAll(FRESH, [v]);
            v in s.dedup && s.dedup[v].offset == 0 && ReadsBack(s.bytes, 0, v)
  {
    assert [] + [v] == [v] && [v] + [] == [v];
    PushedValueReads(false, [], v, []);
    assert PushAll(FRESH, [v]) == PushAll(Push(FRESH, v), [v][1..]) == Push(FRESH, v);
  }

  // --- Size -------------------------------------------------------------------------------------

  /** The size of `v` written without pointers. */
  function InlineSize(v: Value): (n: nat)
    ensures n > 0
  {
    match v
    case Map(es) => |Control(TAG_MAP, |es|)| + PairsSize(es)
    case Array(items) => |Extended(EXT_ARRAY, |items|)| + ItemsSize(items)
    case _ => |Scalar(v)|
  }

  function ItemsSize(items: seq<Value>): nat {
    if items == [] then 0 else InlineSize(items[0]) + ItemsSize(items[1..])
  }

  function PairsSize(es: seq<Pair>): nat {
    if es == [] then 0 else |Scalar(String(es[0].key))| + InlineSize(es[0].value) + PairsSize(es[1..])
  }

  /** `v` and every value inside it, map keys included. */
  function Closure(v: Value): (c: set<Value>)
    ensures v in c
  {
    match v
    case Map(es) => {v} + PairsClosure(es)
    case Array(items) => {v} + ItemsClosure(items)
    case _ => {v}
  }

  function ItemsClosure(items: seq<Value>): set<Value> {
    if items == [] then {} else Closure(items[0]) + ItemsClosure(items[1..])
  }

  function PairsClosure(es: seq<Pair>): set<Value> {
    if es == [] then {} else {String(es[0].key)} + Closure(es[0].value) + PairsClosure(es[1..])
  }

  function AllClosure(vs: seq<Value>): set<Value> {
    if vs == [] then {} else Closure(vs[0]) + AllClosure(vs[1..])
  }

  /** The table holds, with a value, everything inside it, and no entry is longer than inline. */
  ghost predicate Closed(s: Section) {
    forall v :: v in s.dedup ==> Closure(v) <= s.dedup.Keys && s.dedup[v].len <= InlineSize(v)
  }

  /** `r` follows from `s` by adding the values `c` in at most `n` bytes, exactly `n` inline. */
  ghost predicate Grew(s: Section, r: Section, c: set<Value>, n: nat) {
    && Closed(r)
    && r.noPointers == s.noPointers
    && r.dedup.Keys == s.dedup.Keys + c
    && |r.bytes| <= |s.bytes| + n
    && (s.noPointers ==> |r.bytes| == |s.bytes| + n)
  }

  /** The values strictly inside `v`. */
  function Inside(v: Value): set<Value> {
    match v
    case Map(es) => PairsClosure(es)
    case Array(items) => ItemsClosure(items)
    case _ => {}
  }

  lemma {:induction false} EncodeGrows(s: Section, v: Value)
    requires Closed(s)
    ensures Grew(s, Encode(s, v), Inside(v), InlineSize(v))
    decreases Rank(v), v, 0
  {
    match v
    case Map(es) => PairsGrow(Append(s, Control(TAG_MAP, |es|)), es);
    case Array(items) => ItemsGrow(Append(s, Extended(EXT_ARRAY, |items|)), items);
    case _ =>
  }

  /** A pointer is only written where it is shorter than the inline form. */
  lemma {:induction false} EmitGrows(s: Section, v: Value)
    requires Closed(s)
    ensures Grew(s, Emit(s, v), Closure(v), InlineSize(v))
    decreases Rank(v), v, 1
  {
    if UsesPointer(s, v) {
      assert Closure(v) <= s.dedup.Keys;
    } else {
      EncodeGrows(s, v);
      RecordGrows(s, v);
    }
  }

  lemma RecordGrows(s: Section, v: Value)
    requires Grew(s, Encode(s, v), Inside(v), InlineSize(v))
    ensures var r := Encode(s, v);
            Grew(s, r.(dedup := r.dedup[v := EntryFor(s, r)]), Closure(v), InlineSize(v))
    ensures v in Encode(s, v).dedup ==> Grew(s, Encode(s, v), Closure(v), InlineSize(v))
  {
    var r := Encode(s, v);
    var r' := r.(dedup := r.dedup[v := EntryFor(s, r)]);
    assert Closure(v) == Inside(v) + {v};
    assert r'.dedup.Keys == s.dedup.Keys + Closure(v);
    forall u | u in r'.dedup
      ensures Closure(u) <= r'.dedup.Keys && r'.dedup[u].len <= InlineSize(u)
    {
      if u != v {
        assert u in r.dedup;
      }
    }
  }

  lemma GrewTwice(s: Section, r: Section, t: Section, c: set<Value>, d: set<Value>, m: nat, n: nat)
    requires Grew(s, r, c, m) && Grew(r, t, d, n)
    ensures Grew(s, t, c + d, m + n)
  {
  }

  lemma {:induction false} ItemsGrow(s: Section, items: seq<Value>)
    requires Closed(s)
    ensures Grew(s, EmitItems(s, items), ItemsClosure(items), ItemsSize(items))
    decreases 1, items, 0
  {
    if items != [] {
      var s1 := Emit(s, items[0]);
      EmitGrows(s, items[0]);
      ItemsGrow(s1, items[1..]);
      GrewTwice(s, s1, EmitItems(s1, items[1..]), Closure(items[0]), ItemsClosure(items[1..]),
                InlineSize(items[0]), ItemsSize(items[1..]));
    }
  }

  lemma {:induction false} PairsGrow(s: Section, es: seq<Pair>)
    requires Closed(s)
    ensures Grew(s, EmitPairs(s, es), PairsClosure(es), PairsSize(es))
    decreases 1, es, 0
  {
    if es != [] {
      var k, v := String(es[0].key), es[0].value;
      var s1 := Emit(s, k);
      var s2 := Emit(s1, v);
      EmitGrows(s, k);
      EmitGrows(s1, v);
      GrewTwice(s, s1, s2, Closure(k), Closure(v), InlineSize(k), InlineSize(v));
      PairsGrow(s2, es[1..]);
      GrewTwice(s, s2, EmitPairs(s2, es[1..]), Closure(k) + Closure(v), PairsClosure(es[1..]),
                InlineSize(k) + InlineSize(v), PairsSize(es[1..]));
    }
  }

  lemma PushGrows(s: Section, v: Value)
    requires Closed(s)
    ensures Grew(s, Push(s, v), Closure(v), if v in s.dedup then 0 else InlineSize(v))
  {
    if v in s.dedup {
      assert Closure(v) <= s.dedup.Keys;
    } else {
      EncodeGrows(s, v);
      RecordGrows(s, v);
    }
  }

  /**
    Deduplication never costs bytes: for every run of pushes, the section with pointers is no
    longer than the one without, and both tables hold exactly the values pushed and everything
    inside them.
  */
  lemma {:induction false} PointersNeverCost(a: Section, b: Section, vs: seq<Value>)
    requires Closed(a) && Closed(b) && !a.noPointers && b.noPointers
    requires a.dedup.Keys == b.dedup.Keys && |a.bytes| <= |b.bytes|
    ensures |PushAll(a, vs).bytes| <= |PushAll(b, vs).bytes|
    ensures PushAll(a, vs).dedup.Keys == a.dedup.Keys + AllClosure(vs)
    ensures PushAll(b, vs).dedup.Keys == a.dedup.Keys + AllClosure(vs)
    decreases |vs|
  {
    if vs != [] {
      PushGrows(a, vs[0]);
      PushGrows(b, vs[0]);
      PointersNeverCost(Push(a, vs[0]), Push(b, vs[0]), vs[1..]);
    }
  }

  lemma PointersNeverCostFresh(vs: seq<Value>)
    ensures |PushAll(FRESH, vs).bytes| <= |PushAll(UNSHARED, vs).bytes|
    ensures PushAll(FRESH, vs).dedup.Keys == PushAll(UNSHARED, vs).dedup.Keys == AllClosure(vs)
  {
    PointersNeverCost(FRESH, UNSHARED, vs);
  }
}
