/**
  A reader of the data section, after the MaxMind DB File Format Specification, section "Data
  Field Format". It follows a pointer only backwards, to a field that lies wholly before the
  pointer and is not itself a pointer: it decodes the target in the bytes before the pointer.
  That makes decoding terminate, and makes every successful decode a proof of pointer
  discipline.
*/
module Decoding {
  import opened Prelude
  import opened Values
  import opened Wire

  datatype Field = Field(value: Value, next: nat)
  datatype Fields = Fields(values: seq<Value>, next: nat)
  datatype OnePair = OnePair(pair: Pair, next: nat)
  datatype Pairs = Pairs(entries: seq<Pair>, next: nat)

  lemma {:induction false} Pow256Monotone(j: nat, k: nat)
    requires j <= k
    ensures Pow256(j) <= Pow256(k)
    decreases k - j
  {
    if j < k {
      Pow256Monotone(j, k - 1);
    }
  }

  lemma Pow256Values(w: nat)
    ensures w == 2 ==> Pow256(w) == 0x1_0000
    ensures w == 4 ==> Pow256(w) == 0x1_0000_0000
    ensures w == 8 ==> Pow256(w) == 0x1_0000_0000_0000_0000
    ensures w == 16 ==> Pow256(w) == 0x1_0000_0000_0000_0000_0000_0000_0000_0000
  {
    assert Pow256(2) == 0x1_0000;
    assert Pow256(4) == 0x1_0000_0000;
    assert Pow256(8) == 0x1_0000_0000_0000_0000;
    assert Pow256(12) == 0x1_0000_0000_0000_0000_0000_0000;
    assert Pow256(16) == 0x1_0000_0000_0000_0000_0000_0000_0000_0000;
  }

  /** An unsigned payload of at most `w` bytes, extended with zeros on the left. */
  function Unsigned(p: seq<byte>, w: nat): (n: Option<nat>)
    ensures n.Some? ==> n.value < Pow256(w)
  {
    if |p| <= w then
      BeBound(p);
      Pow256Monotone(|p|, w);
      Some(BeValue(p))
    else None
  }

  /** A 32-bit pattern as a two's-complement integer. */
  function ToSigned(n: nat): i32
    requires n < 0x1_0000_0000
  {
    if n < 0x8000_0000 then n else n - 0x1_0000_0000
  }

  /** The value of a field with a plain payload. */
  function ScalarOf(kind: nat, p: seq<byte>): Option<Value> {
    if kind == KIND_STRING then Some(String(p))
    else if kind == KIND_BYTES then Some(Blob(p))
    else if kind == KIND_DOUBLE && |p| == 8 then Pow256Values(8); Some(Double(Unsigned(p, 8).value))
    else if kind == KIND_UINT16 && |p| <= 2 then Pow256Values(2); Some(U16(Unsigned(p, 2).value))
    else if kind == KIND_UINT32 && |p| <= 4 then Pow256Values(4); Some(U32(Unsigned(p, 4).value))
    else if kind == KIND_INT32 && |p| <= 4 then Pow256Values(4); Some(I32(ToSigned(Unsigned(p, 4).value)))
    else if kind == KIND_UINT64 && |p| <= 8 then Pow256Values(8); Some(U64(Unsigned(p, 8).value))
    else if kind == KIND_UINT128 && |p| <= 16 then Pow256Values(16); Some(U128(Unsigned(p, 16).value))
    else if kind == KIND_FLOAT && |p| == 4 then Pow256Values(4); Some(Float(Unsigned(p, 4).value))
    else None
  }

  /** Decode the field at `pos`. */
  function Decode(ord: Order, buf: seq<byte>, pos: nat): (f: Option<Field>)
    ensures f.Some? ==> pos < f.value.next <= |buf|
    decreases |buf|, |buf| - pos, 0
  {
    if pos >= |buf| then None
    else if ByteAt(buf, pos) / 32 == KIND_PTR then
      match ReadPointer(buf, pos)
      case None => None
      case Some(t) =>
        if t.offset < pos && ByteAt(buf, t.offset) / 32 != KIND_PTR then
          match Decode(ord, buf[..pos], t.offset)
          case None => None
          case Some(f) => Some(Field(f.value, t.next))
        else None
    else
      match ReadHead(ord, buf, pos)
      case None => None
      case Some(h) => DecodeBody(ord, buf, pos, h)
  }

  function DecodeBody(ord: Order, buf: seq<byte>, pos: nat, h: Head): (f: Option<Field>)
    requires pos < h.next <= |buf|
    ensures f.Some? ==> h.next <= f.value.next <= |buf|
    decreases |buf|, |buf| - h.next, 3
  {
    if h.kind == KIND_MAP then
      match DecodePairs(ord, buf, h.next, h.size)
      case None => None
      case Some(ps) => Some(Field(Map(ps.entries), ps.next))
    else if h.kind == KIND_ARRAY then
      match DecodeItems(ord, buf, h.next, h.size)
      case None => None
      case Some(fs) => Some(Field(Array(fs.values), fs.next))
    else if h.kind == KIND_BOOL then
      if h.size < 2 then Some(Field(Bool(h.size == 1), h.next)) else None
    else if h.next + h.size > |buf| then None
    else
      match ScalarOf(h.kind, buf[h.next..h.next + h.size])
      case None => None
      case Some(v) => Some(Field(v, h.next + h.size))
  }

  function DecodeItems(ord: Order, buf: seq<byte>, pos: nat, n: nat): (fs: Option<Fields>)
    requires pos <= |buf|
    ensures fs.Some? ==> pos <= fs.value.next <= |buf| && |fs.value.values| == n
    decreases |buf|, |buf| - pos, 1
  {
    if n == 0 then Some(Fields([], pos))
    else
      match Decode(ord, buf, pos)
      case None => None
      case Some(f) =>
        match DecodeItems(ord, buf, f.next, n - 1)
        case None => None
        case Some(rest) => Some(Fields([f.value] + rest.values, rest.next))
  }

  function DecodePairs(ord: Order, buf: seq<byte>, pos: nat, n: nat): (ps: Option<Pairs>)
    requires pos <= |buf|
    ensures ps.Some? ==> pos <= ps.value.next <= |buf| && |ps.value.entries| == n
    decreases |buf|, |buf| - pos, 2
  {
    if n == 0 then Some(Pairs([], pos))
    else
      match DecodePair(ord, buf, pos)
      case None => None
      case Some(p) =>
        match DecodePairs(ord, buf, p.next, n - 1)
        case None => None
        case Some(rest) => Some(Pairs([p.pair] + rest.entries, rest.next))
  }

  /** A map entry: its key must be a string. */
  function DecodePair(ord: Order, buf: seq<byte>, pos: nat): (p: Option<OnePair>)
    requires pos <= |buf|
    ensures p.Some? ==> pos < p.value.next <= |buf|
    decreases |buf|, |buf| - pos, 1
  {
    match Decode(ord, buf, pos)
    case None => None
    case Some(k) =>
      if !k.value.String? then None
      else
        match Decode(ord, buf, k.next)
        case None => None
        case Some(v) => Some(OnePair(Pair(k.value.text, v.value), v.next))
  }

  // --- Decoding does not look past the field --------------------------------------------------

  lemma HeadExtend(ord: Order, buf: seq<byte>, more: seq<byte>, pos: nat)
    requires ReadHead(ord, buf, pos).Some?
    ensures ReadHead(ord, buf + more, pos) == ReadHead(ord, buf, pos)
  {
  }

  lemma PointerExtend(buf: seq<byte>, more: seq<byte>, pos: nat)
    requires ReadPointer(buf, pos).Some?
    ensures ReadPointer(buf + more, pos) == ReadPointer(buf, pos)
  {
    if pos + 5 <= |buf| {
      assert (buf + more)[pos + 1..pos + 5] == buf[pos + 1..pos + 5];
    }
  }

  /** Appending to the section never changes a field that decodes. */
  lemma {:induction false} DecodeExtend(ord: Order, buf: seq<byte>, more: seq<byte>, pos: nat)
    requires Decode(ord, buf, pos).Some?
    ensures Decode(ord, buf + more, pos) == Decode(ord, buf, pos)
    decreases |buf| - pos, 0
  {
    if ByteAt(buf, pos) / 32 == KIND_PTR {
      PointerExtend(buf, more, pos);
      assert (buf + more)[..pos] == buf[..pos];
    } else {
      HeadExtend(ord, buf, more, pos);
      BodyExtend(ord, buf, more, pos, ReadHead(ord, buf, pos).value);
    }
  }

  lemma {:induction false} BodyExtend(ord: Order, buf: seq<byte>, more: seq<byte>, pos: nat, h: Head)
    requires pos < h.next <= |buf| && DecodeBody(ord, buf, pos, h).Some?
    ensures DecodeBody(ord, buf + more, pos, h) == DecodeBody(ord, buf, pos, h)
    decreases |buf| - h.next, 3
  {
    if h.kind == KIND_MAP {
      PairsExtend(ord, buf, more, h.next, h.size);
    } else if h.kind == KIND_ARRAY {
      ItemsExtend(ord, buf, more, h.next, h.size);
    } else if h.kind != KIND_BOOL {
      assert (buf + more)[h.next..h.next + h.size] == buf[h.next..h.next + h.size];
    }
  }

  lemma {:induction false} ItemsExtend(ord: Order, buf: seq<byte>, more: seq<byte>, pos: nat, n: nat)
    requires pos <= |buf| && DecodeItems(ord, buf, pos, n).Some?
    ensures DecodeItems(ord, buf + more, pos, n) == DecodeItems(ord, buf, pos, n)
    decreases |buf| - pos, 1
  {
    if n != 0 {
      DecodeExtend(ord, buf, more, pos);
      ItemsExtend(ord, buf, more, Decode(ord, buf, pos).value.next, n - 1);
    }
  }

  lemma {:induction false} PairsExtend(ord: Order, buf: seq<byte>, more: seq<byte>, pos: nat, n: nat)
    requires pos <= |buf| && DecodePairs(ord, buf, pos, n).Some?
    ensures DecodePairs(ord, buf + more, pos, n) == DecodePairs(ord, buf, pos, n)
    decreases |buf| - pos, 2
  {
    if n != 0 {
      PairExtend(ord, buf, more, pos);
      PairsExtend(ord, buf, more, DecodePair(ord, buf, pos).value.next, n - 1);
    }
  }

  lemma {:induction false} PairExtend(ord: Order, buf: seq<byte>, more: seq<byte>, pos: nat)
    requires pos <= |buf| && DecodePair(ord, buf, pos).Some?
    ensures DecodePair(ord, buf + more, pos) == DecodePair(ord, buf, pos)
    decreases |buf| - pos, 1
  {
    DecodeExtend(ord, buf, more, pos);
    DecodeExtend(ord, buf, more, Decode(ord, buf, pos).value.next);
  }

  // --- Which values the specification's reader gets back --------------------------------------

  /** Every array inside `v` has an order-blind number of elements. */
  predicate Readable(v: Value) {
    match v
    case Map(es) => forall i :: 0 <= i < |es| ==> Readable(es[i].value)
    case Array(items) => OrderBlind(|items|) && forall i :: 0 <= i < |items| ==> Readable(items[i])
    case _ => true
  }

  /** `f` is the field `v` at end `next`, or anything else, as `good` says. */
  ghost predicate Agrees(f: Option<Field>, v: Value, next: nat, good: bool) {
    if good then f == Some(Field(v, next)) else f.None? || f.value.value != v
  }

  /**
    Where the writer-order reader finds `v`, the specification's reader finds it too if and only
    if every array inside has an order-blind size; otherwise it fails or finds something else.
  */
  lemma {:induction false} SpecReads(buf: seq<byte>, pos: nat)
    requires Decode(WriterOrder, buf, pos).Some?
    ensures var f := Decode(WriterOrder, buf, pos).value;
            Agrees(Decode(SpecOrder, buf, pos), f.value, f.next, Readable(f.value))
    decreases |buf|, |buf| - pos, 0
  {
    if ByteAt(buf, pos) / 32 == KIND_PTR {
      var t := ReadPointer(buf, pos).value;
      SpecReads(buf[..pos], t.offset);
    } else {
      var h := ReadHead(WriterOrder, buf, pos).value;
      if h.kind == KIND_ARRAY {
        SpecReadsArray(buf, pos, h);
      } else {
        NonArrayHeader(buf, pos, h);
        if h.kind == KIND_MAP {
          SpecReadsPairs(buf, h.next, h.size);
        }
      }
    }
  }

  lemma NonArrayHeader(buf: seq<byte>, pos: nat, h: Head)
    requires ReadHead(WriterOrder, buf, pos) == Some(h) && h.kind != KIND_ARRAY
    requires DecodeBody(WriterOrder, buf, pos, h).Some?
    ensures ReadHead(SpecOrder, buf, pos) == Some(h)
  {
    if buf[pos] / 32 == KIND_EXTENDED {
      SmallHeaderBySpec(buf, pos, h);
    }
  }

  lemma {:induction false} SpecReadsArray(buf: seq<byte>, pos: nat, h: Head)
    requires pos < |buf| && ByteAt(buf, pos) / 32 != KIND_PTR
    requires ReadHead(WriterOrder, buf, pos) == Some(h) && h.kind == KIND_ARRAY
    requires DecodeBody(WriterOrder, buf, pos, h).Some?
    ensures var f := DecodeBody(WriterOrder, buf, pos, h).value;
            Agrees(Decode(SpecOrder, buf, pos), f.value, f.next, Readable(f.value))
    decreases |buf|, |buf| - pos, -1
  {
    ArrayHeaderBySpec(buf, pos, h);
    if OrderBlind(h.size) {
      SpecReadsItems(buf, h.next, h.size);
    } else {
      var g := ReadHead(SpecOrder, buf, pos);
      if g.Some? && g.value.kind != KIND_ARRAY {
        NotAnArray(buf, pos, g.value);
      }
    }
  }

  lemma NotAnArray(buf: seq<byte>, pos: nat, h: Head)
    requires pos < h.next <= |buf| && h.kind != KIND_ARRAY
    ensures var f := DecodeBody(SpecOrder, buf, pos, h); f.None? || !f.value.value.Array?
  {
  }

  lemma {:induction false} SpecReadsItems(buf: seq<byte>, pos: nat, n: nat)
    requires pos <= |buf| && DecodeItems(WriterOrder, buf, pos, n).Some?
    ensures var fs := DecodeItems(WriterOrder, buf, pos, n).value;
            var gs := DecodeItems(SpecOrder, buf, pos, n);
            if forall i :: 0 <= i < n ==> Readable(fs.values[i]) then gs == Some(fs)
            else gs.None? || gs.value.values != fs.values
    decreases |buf|, |buf| - pos, 1
  {
    if n != 0 {
      SpecReads(buf, pos);
      var f := Decode(WriterOrder, buf, pos).value;
      SpecReadsItems(buf, f.next, n - 1);
      var fs := DecodeItems(WriterOrder, buf, pos, n).value;
      var rest := DecodeItems(WriterOrder, buf, f.next, n - 1).value;
      assert fs.values[0] == f.value && fs.values[1..] == rest.values;
      assert forall i :: 0 <= i < n - 1 ==> rest.values[i] == fs.values[i + 1];
    }
  }

  lemma {:induction false} SpecReadsPairs(buf: seq<byte>, pos: nat, n: nat)
    requires pos <= |buf| && DecodePairs(WriterOrder, buf, pos, n).Some?
    ensures var fs := DecodePairs(WriterOrder, buf, pos, n).value;
            var gs := DecodePairs(SpecOrder, buf, pos, n);
            if Readable(Map(fs.entries)) then gs == Some(fs)
            else gs.None? || gs.value.entries != fs.entries
    decreases |buf|, |buf| - pos, 2
  {
    if n != 0 {
      SpecReadsPair(buf, pos);
      var f := DecodePair(WriterOrder, buf, pos).value;
      SpecReadsPairs(buf, f.next, n - 1);
      var rest := DecodePairs(WriterOrder, buf, f.next, n - 1).value;
      PairsReadableCons(f.pair, rest.entries);
      var gs := DecodePairs(SpecOrder, buf, pos, n);
      if gs.Some? {
        var g := DecodePair(SpecOrder, buf, pos).value;
        assert gs.value.entries[1..] == DecodePairs(SpecOrder, buf, g.next, n - 1).value.entries;
        assert ([f.pair] + rest.entries)[1..] == rest.entries;
      }
    }
  }

  lemma {:induction false} SpecReadsPair(buf: seq<byte>, pos: nat)
    requires pos <= |buf| && DecodePair(WriterOrder, buf, pos).Some?
    ensures var f := DecodePair(WriterOrder, buf, pos).value;
            var g := DecodePair(SpecOrder, buf, pos);
            if Readable(f.pair.value) then g == Some(f) else g.None? || g.value.pair.value != f.pair.value
    decreases |buf|, |buf| - pos, 1
  {
    SpecReads(buf, pos);
    SpecReads(buf, Decode(WriterOrder, buf, pos).value.next);
  }

  lemma PairsReadableCons(x: Pair, rest: seq<Pair>)
    ensures Readable(Map([x] + rest)) <==> Readable(x.value) && Readable(Map(rest))
  {
    var all := [x] + rest;
    assert all[0] == x;
    assert forall i :: 0 <= i < |rest| ==> rest[i] == all[i + 1];
  }
}
