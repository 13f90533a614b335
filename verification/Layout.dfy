/**
  The file layout: the node section as `src/tree.rs` packs it, the choice of record size in
  `src/writer.rs`, and a reader after the MaxMind DB File Format Specification, section "Binary
  Search Tree Section".

  `Flat` lists the nodes of a trie in pre-order. It is a function of the trie alone, so the
  bytes are too.
*/
module Layout {
  import opened Prelude
  import opened Bits
  import opened Values
  import opened Tries
  import opened Aliases
  import opened Wire

  // --- Record sizes (`src/record_size.rs`) ------------------------------------------------------

  datatype RecordSize = Bits24 | Bits28 | Bits32

  /** The width of one record. */
  function RecordBits(rs: RecordSize): nat {
    match rs
    case Bits24 => 24
    case Bits28 => 28
    case Bits32 => 32
  }

  function NodeBytes(rs: RecordSize): nat {
    match rs
    case Bits24 => 6
    case Bits28 => 7
    case Bits32 => 8
  }

  /** The first record value that does not fit. */
  function MaxValue(rs: RecordSize): nat {
    match rs
    case Bits24 => 0x100_0000
    case Bits28 => 0x1000_0000
    case Bits32 => 0x1_0000_0000
  }

  /** Nodes are two records wide, and the limit is the first number the width cannot hold. */
  lemma RecordLimits(rs: RecordSize, eight: nat)
    requires eight == 8
    ensures NodeBytes(rs) * eight == 2 * RecordBits(rs)
    ensures MaxValue(rs) == Pow2(RecordBits(rs))
  {
    Pow2Add(eight + eight, eight);
    Pow2Add(eight + eight + eight, 4);
    Pow2Add(eight + eight + eight, eight);
    assert Pow2(eight + eight) == 0x1_0000;
    assert Pow2(eight) == 0x100 && Pow2(4) == 0x10;
  }

  /** `fits_record_size`. */
  predicate Fits(nodeCount: nat, rs: RecordSize, dataLen: nat) {
    nodeCount + 16 + dataLen < MaxValue(rs)
  }

  /** `pick_record_size`. */
  function Pick(nodeCount: nat, dataLen: nat, requested: Option<RecordSize>): Result<RecordSize> {
    if requested.Some? then Ok(requested.value)
    else if Fits(nodeCount, Bits24, dataLen) then Ok(Bits24)
    else if Fits(nodeCount, Bits28, dataLen) then Ok(Bits28)
    else if Fits(nodeCount, Bits32, dataLen) then Ok(Bits32)
    else Err(TreeTooLarge)
  }

  /** Automatic selection finds a size exactly if the largest fits, and then the smallest that fits. */
  lemma PickSmallest(nodeCount: nat, dataLen: nat)
    ensures Pick(nodeCount, dataLen, None).Ok? <==> Fits(nodeCount, Bits32, dataLen)
    ensures forall rs :: Pick(nodeCount, dataLen, None) == Ok(rs) ==>
              Fits(nodeCount, rs, dataLen) &&
              forall other :: Fits(nodeCount, other, dataLen) ==> MaxValue(rs) <= MaxValue(other)
  {
  }

  /**
    A pinned size is the one used; otherwise the number of nodes, the separator and the data decide,
    and too large a database is refused.
  */
  lemma PickExactly(nodeCount: nat, dataLen: nat, requested: Option<RecordSize>)
    ensures requested.Some? ==> Pick(nodeCount, dataLen, requested) == Ok(requested.value)
    ensures requested.None? ==>
              Pick(nodeCount, dataLen, requested) ==
              if nodeCount + 16 + dataLen < 0x100_0000 then Ok(Bits24)
              else if nodeCount + 16 + dataLen < 0x1000_0000 then Ok(Bits28)
              else if nodeCount + 16 + dataLen < 0x1_0000_0000 then Ok(Bits32)
              else Err(TreeTooLarge)
  {
  }

  // --- Nodes in pre-order -----------------------------------------------------------------------

  /** What one record says: go to a node, nothing, or a value. */
  datatype Slot = ToNode(node: nat) | Nothing | ToValue(value: Value)

  datatype SlotPair = SlotPair(left: Slot, right: Slot)

  /** The record for `t`, should it be a node numbered `at`. Aliases lead to the IPv4 root. */
  function SlotOf(t: Trie, at: nat): Slot {
    match t
    case Branch(_, _, _) => ToNode(at)
    case Leaf(v) => ToValue(v)
    case Alias => ToNode(V4_DEPTH)
    case _ => Nothing
  }

  /** The nodes of `t` in pre-order, numbered from `base`. */
  function Flat(t: Trie, base: nat): (ws: seq<SlotPair>)
    ensures |ws| == Count(t)
  {
    match t
    case Branch(_, l, r) =>
      [SlotPair(SlotOf(l, base + 1), SlotOf(r, base + 1 + Count(l)))]
      + Flat(l, base + 1) + Flat(r, base + 1 + Count(l))
    case _ => []
  }

  /** The nodes of `t` stand in `ws` from position `base`. */
  ghost predicate FlatAt(ws: seq<SlotPair>, t: Trie, base: nat) {
    match t
    case Branch(_, l, r) =>
      && base < |ws|
      && ws[base] == SlotPair(SlotOf(l, base + 1), SlotOf(r, base + 1 + Count(l)))
      && FlatAt(ws, l, base + 1) && FlatAt(ws, r, base + 1 + Count(l))
    case _ => true
  }

  lemma {:induction false} FlatStands(pre: seq<SlotPair>, t: Trie, post: seq<SlotPair>)
    ensures FlatAt(pre + Flat(t, |pre|) + post, t, |pre|)
    decreases t
  {
    if t.Branch? {
      var l, r := t.left, t.right;
      var head := [SlotPair(SlotOf(l, |pre| + 1), SlotOf(r, |pre| + 1 + Count(l)))];
      var fl, fr := Flat(l, |pre| + 1), Flat(r, |pre| + 1 + Count(l));
      FlatStands(pre + head, l, fr + post);
      FlatStands(pre + head + fl, r, post);
      Regroup(pre, head, fl, fr, post);
    }
  }

  /** A section as long as the trie is its flattening. */
  lemma {:induction false} FlatUnique(ws: seq<SlotPair>, t: Trie, base: nat)
    requires FlatAt(ws, t, base)
    ensures base + Count(t) <= |ws| || Count(t) == 0
    ensures forall i :: 0 <= i < Count(t) ==> ws[base + i] == Flat(t, base)[i]
  {
    if t.Branch? {
      var m := base + 1 + Count(t.left);
      FlatUnique(ws, t.left, base + 1);
      FlatUnique(ws, t.right, m);
      forall i | 0 <= i < Count(t)
        ensures ws[base + i] == Flat(t, base)[i]
      {
        if 0 < i <= Count(t.left) {
          assert ws[base + 1 + (i - 1)] == Flat(t.left, base + 1)[i - 1];
        } else if i > Count(t.left) {
          assert ws[m + (base + i - m)] == Flat(t.right, m)[base + i - m];
        }
      }
    }
  }

  /** The node `n` left children down is number `n`. */
  lemma {:induction false} FlatLeftmost(ws: seq<SlotPair>, t: Trie, base: nat, n: nat)
    requires FlatAt(ws, t, base) && LeafAt(t, Zeros(n)).Branch?
    ensures FlatAt(ws, LeafAt(t, Zeros(n)), base + n)
    decreases n
  {
    if n > 0 {
      ZerosTail(n);
      FlatLeftmost(ws, t.left, base + 1, n - 1);
    }
  }

  // --- Packing ----------------------------------------------------------------------------------

  /** `encode_record`, before its range check. */
  function RecordNumber(s: Slot, nodeCount: nat, offsets: map<Value, nat>): nat {
    match s
    case ToNode(i) => i
    case Nothing => nodeCount
    case ToValue(v) => nodeCount + 16 + if v in offsets then offsets[v] else 0
  }

  /** `write_record_pair`. */
  function PackPair(l: nat, r: nat, rs: RecordSize): (b: seq<byte>)
    ensures |b| == NodeBytes(rs)
  {
    match rs
    case Bits24 =>
      [l / 0x1_0000 % 0x100, l / 0x100 % 0x100, l % 0x100,
       r / 0x1_0000 % 0x100, r / 0x100 % 0x100, r % 0x100]
    case Bits28 =>
      [l / 0x1_0000 % 0x100, l / 0x100 % 0x100, l % 0x100,
       l / 0x100_0000 % 0x10 * 0x10 + r / 0x100_0000 % 0x10,
       r / 0x1_0000 % 0x100, r / 0x100 % 0x100, r % 0x100]
    case Bits32 =>
      [l / 0x100_0000 % 0x100, l / 0x1_0000 % 0x100, l / 0x100 % 0x100, l % 0x100,
       r / 0x100_0000 % 0x100, r / 0x1_0000 % 0x100, r / 0x100 % 0x100, r % 0x100]
  }

  function PackSlots(w: SlotPair, nodeCount: nat, rs: RecordSize, offsets: map<Value, nat>): seq<byte> {
    PackPair(RecordNumber(w.left, nodeCount, offsets), RecordNumber(w.right, nodeCount, offsets), rs)
  }

  function PackAll(ws: seq<SlotPair>, nodeCount: nat, rs: RecordSize, offsets: map<Value, nat>): seq<byte> {
    if ws == [] then []
    else PackAll(ws[..|ws| - 1], nodeCount, rs, offsets) + PackSlots(ws[|ws| - 1], nodeCount, rs, offsets)
  }

  lemma {:induction false} PackAllLength(ws: seq<SlotPair>, nodeCount: nat, rs: RecordSize,
                                         offsets: map<Value, nat>, w: nat)
    requires w == NodeBytes(rs)
    ensures |PackAll(ws, nodeCount, rs, offsets)| == |ws| * w
    decreases |ws|
  {
    if ws != [] {
      var n: nat := |ws| - 1;
      PackAllLength(ws[..n], nodeCount, rs, offsets, w);
      assert (n + 1) * w == n * w + w;
    }
  }

  /** Every record number is below `limit`. */
  predicate AllBelow(ws: seq<SlotPair>, nodeCount: nat, offsets: map<Value, nat>, limit: nat) {
    forall i :: 0 <= i < |ws| ==>
      RecordNumber(ws[i].left, nodeCount, offsets) < limit && RecordNumber(ws[i].right, nodeCount, offsets) < limit
  }

  lemma FitIsBelow(ws: seq<SlotPair>, nodeCount: nat, rs: RecordSize, offsets: map<Value, nat>)
    ensures AllFit(ws, nodeCount, rs, offsets) <==> AllBelow(ws, nodeCount, offsets, Pow2(RecordBits(rs)))
  {
    RecordLimits(rs, 8);
    if AllFit(ws, nodeCount, rs, offsets) {
      forall i | 0 <= i < |ws|
        ensures PairFits(ws[i], nodeCount, rs, offsets)
      {
      }
    }
  }

  predicate SlotFits(s: Slot, nodeCount: nat, rs: RecordSize, offsets: map<Value, nat>) {
    RecordNumber(s, nodeCount, offsets) < MaxValue(rs)
  }

  predicate PairFits(w: SlotPair, nodeCount: nat, rs: RecordSize, offsets: map<Value, nat>) {
    SlotFits(w.left, nodeCount, rs, offsets) && SlotFits(w.right, nodeCount, rs, offsets)
  }

  /** Every record passes the range check of `encode_record`. */
  predicate AllFit(ws: seq<SlotPair>, nodeCount: nat, rs: RecordSize, offsets: map<Value, nat>) {
    forall i :: 0 <= i < |ws| ==> PairFits(ws[i], nodeCount, rs, offsets)
  }

  // --- Reading ----------------------------------------------------------------------------------

  /** The bytes of a node: two records. */
  function Stride(rs: RecordSize): (n: nat)
    ensures n * 8 == 2 * RecordBits(rs)
  {
    match rs
    case Bits24 => 6
    case Bits28 => 7
    case Bits32 => 8
  }

  /** The reader steps as the writer does. */
  lemma StrideIsNodeBytes(rs: RecordSize)
    ensures Stride(rs) == NodeBytes(rs)
  {
  }

  /** The left (`bit` false) or right record of node `node`. */
  function ReadRecord(buf: seq<byte>, rs: RecordSize, node: nat, bit: bool): nat
    requires (node + 1) * Stride(rs) <= |buf|
  {
    ReadPair(buf[node * Stride(rs)..(node + 1) * Stride(rs)], rs, bit)
  }

  function ReadPair(b: seq<byte>, rs: RecordSize, bit: bool): nat
    requires |b| == Stride(rs)
  {
    match rs
    case Bits24 =>
      var i := if bit then 3 else 0;
      ByteAt(b, i) * 0x1_0000 + ByteAt(b, i + 1) * 0x100 + ByteAt(b, i + 2)
    case Bits28 =>
      var i := if bit then 4 else 0;
      var nibble := if bit then ByteAt(b, 3) % 0x10 else ByteAt(b, 3) / 0x10;
      nibble * 0x100_0000 + ByteAt(b, i) * 0x1_0000 + ByteAt(b, i + 1) * 0x100 + ByteAt(b, i + 2)
    case Bits32 =>
      var i := if bit then 4 else 0;
      ByteAt(b, i) * 0x100_0000 + ByteAt(b, i + 1) * 0x1_0000 + ByteAt(b, i + 2) * 0x100 + ByteAt(b, i + 3)
  }

  lemma Split24(n: nat)
    requires n < 0x100_0000
    ensures n / 0x1_0000 % 0x100 * 0x1_0000 + n / 0x100 % 0x100 * 0x100 + n % 0x100 == n
  {
  }

  lemma Split28(n: nat)
    requires n < 0x1000_0000
    ensures n / 0x100_0000 % 0x10 * 0x100_0000
            + n / 0x1_0000 % 0x100 * 0x1_0000 + n / 0x100 % 0x100 * 0x100 + n % 0x100 == n
  {
    Digits(n, n / 0x100, n / 0x100 / 0x100, n / 0x100 / 0x100 / 0x100);
  }

  lemma Split32(n: nat)
    requires n < 0x1_0000_0000
    ensures n / 0x100_0000 % 0x100 * 0x100_0000
            + n / 0x1_0000 % 0x100 * 0x1_0000 + n / 0x100 % 0x100 * 0x100 + n % 0x100 == n
  {
    Digits(n, n / 0x100, n / 0x100 / 0x100, n / 0x100 / 0x100 / 0x100);
  }

  /** A number from its three low bytes and the rest. */
  lemma Digits(n: nat, a: nat, b: nat, c: nat)
    requires a == n / 0x100 && b == a / 0x100 && c == b / 0x100
    ensures b == n / 0x1_0000 && c == n / 0x100_0000
    ensures c * 0x100_0000 + b % 0x100 * 0x1_0000 + a % 0x100 * 0x100 + n % 0x100 == n
  {
  }

  lemma Nibbles(h: nat, l: nat)
    requires h < 0x10 && l < 0x10
    ensures (h * 0x10 + l) / 0x10 == h && (h * 0x10 + l) % 0x10 == l
  {
  }

  /** Every record in range reads back, in all three layouts. */
  lemma PairRoundTrip(l: nat, r: nat, rs: RecordSize, bit: bool)
    requires l < MaxValue(rs) && r < MaxValue(rs)
    ensures ReadPair(PackPair(l, r, rs), rs, bit) == if bit then r else l
  {
    match rs
    case Bits24 => Split24(l); Split24(r);
    case Bits28 => Split28(l); Split28(r); Nibbles(l / 0x100_0000 % 0x10, r / 0x100_0000 % 0x10);
    case Bits32 => Split32(l); Split32(r);
  }

  /** A pair of records reads back exactly if both are in range. */
  lemma PairRoundTripExactly(l: nat, r: nat, rs: RecordSize)
    ensures ReadPair(PackPair(l, r, rs), rs, false) == l && ReadPair(PackPair(l, r, rs), rs, true) == r <==>
            l < MaxValue(rs) && r < MaxValue(rs)
  {
    ReadPairBound(PackPair(l, r, rs), rs, false);
    ReadPairBound(PackPair(l, r, rs), rs, true);
    if l < MaxValue(rs) && r < MaxValue(rs) {
      PairRoundTrip(l, r, rs, false);
      PairRoundTrip(l, r, rs, true);
    }
  }

  lemma ReadPairBound(b: seq<byte>, rs: RecordSize, bit: bool)
    requires |b| == Stride(rs)
    ensures ReadPair(b, rs, bit) < MaxValue(rs)
  {
  }

  lemma {:induction false} PackAllAt(ws: seq<SlotPair>, nodeCount: nat, rs: RecordSize,
                                     offsets: map<Value, nat>, i: nat, w: nat, at: nat)
    requires i < |ws| && w == NodeBytes(rs) && at == i * w
    ensures At(PackAll(ws, nodeCount, rs, offsets), at, PackSlots(ws[i], nodeCount, rs, offsets))
    decreases |ws|
  {
    var n := |ws| - 1;
    var front := PackAll(ws[..n], nodeCount, rs, offsets);
    var last := PackSlots(ws[n], nodeCount, rs, offsets);
    if i < n {
      assert ws[..n][i] == ws[i];
      PackAllAt(ws[..n], nodeCount, rs, offsets, i, w, at);
      AtLonger(front, last, at, PackSlots(ws[i], nodeCount, rs, offsets));
    } else {
      assert i == n;
      PackAllLength(ws[..n], nodeCount, rs, offsets, w);
      assert |front| == n * w == at;
      AtEnd(front, last);
    }
  }

  lemma AtLonger(b: seq<byte>, more: seq<byte>, at: nat, x: seq<byte>)
    requires At(b, at, x)
    ensures At(b + more, at, x)
  {
    assert (b + more)[at..at + |x|] == b[at..at + |x|];
  }

  lemma AtEnd(b: seq<byte>, x: seq<byte>)
    ensures At(b + x, |b|, x)
  {
  }

  /** Reading any record of the packed section recovers its number. */
  lemma PackedReads(ws: seq<SlotPair>, nodeCount: nat, rs: RecordSize, offsets: map<Value, nat>,
                    more: seq<byte>, i: nat, bit: bool)
    requires i < |ws| && PairFits(ws[i], nodeCount, rs, offsets)
    ensures (i + 1) * Stride(rs) <= |PackAll(ws, nodeCount, rs, offsets) + more|
    ensures ReadRecord(PackAll(ws, nodeCount, rs, offsets) + more, rs, i, bit)
            == RecordNumber(if bit then ws[i].right else ws[i].left, nodeCount, offsets)
  {
    var b := PackAll(ws, nodeCount, rs, offsets);
    StrideIsNodeBytes(rs);
    var w := Stride(rs);
    var x := PackSlots(ws[i], nodeCount, rs, offsets);
    PackAllAt(ws, nodeCount, rs, offsets, i, w, i * w);
    AtLonger(b, more, i * w, x);
    PackAllLength(ws, nodeCount, rs, offsets, w);
    assert (i + 1) * w == i * w + w;
    PairRoundTrip(RecordNumber(ws[i].left, nodeCount, offsets), RecordNumber(ws[i].right, nodeCount, offsets), rs, bit);
  }

  /** What the tree walk of a reader ends with. */
  datatype Hit = Missing | AtOffset(offset: nat) | Malformed

  /** The specification's lookup: follow one record per address bit until it leaves the tree. */
  function Search(buf: seq<byte>, rs: RecordSize, nodeCount: nat, node: nat, a: Bits): Hit
    decreases |a|
  {
    if a == [] || (node + 1) * Stride(rs) > |buf| then Malformed
    else
      var record := ReadRecord(buf, rs, node, a[0]);
      if record < nodeCount then Search(buf, rs, nodeCount, record, a[1..])
      else if record == nodeCount then Missing
      else if record < nodeCount + 16 then Malformed
      else AtOffset(record - nodeCount - 16)
  }

  /** The hit that stands for what an address resolves to. */
  function HitFor(o: Option<Value>, offsets: map<Value, nat>): Hit {
    match o
    case None => Missing
    case Some(v) => AtOffset(if v in offsets then offsets[v] else 0)
  }

  /** The node section of the file, with everything that goes with it. */
  ghost predicate HoldsSection(buf: seq<byte>, ws: seq<SlotPair>, rs: RecordSize, offsets: map<Value, nat>,
                           more: seq<byte>) {
    AllFit(ws, |ws|, rs, offsets) && buf == PackAll(ws, |ws|, rs, offsets) + more
  }

  /** One step of the search, at a node that stands in the section. */
  lemma SearchStep(buf: seq<byte>, ws: seq<SlotPair>, rs: RecordSize, offsets: map<Value, nat>,
                   more: seq<byte>, i: nat, a: Bits)
    requires HoldsSection(buf, ws, rs, offsets, more) && i < |ws| && a != []
    ensures var s := if a[0] then ws[i].right else ws[i].left;
            && (s.Nothing? ==> Search(buf, rs, |ws|, i, a) == Missing)
            && (s.ToValue? ==> Search(buf, rs, |ws|, i, a) == HitFor(Some(s.value), offsets))
            && (s.ToNode? && s.node < |ws| ==> Search(buf, rs, |ws|, i, a) == Search(buf, rs, |ws|, s.node, a[1..]))
  {
    assert PairFits(ws[i], |ws|, rs, offsets);
    PackedReads(ws, |ws|, rs, offsets, more, i, a[0]);
  }

  /** `search` follows the records of `ws`, one per address bit. */
  ghost predicate Walks(search: (nat, Bits) -> Hit, ws: seq<SlotPair>, offsets: map<Value, nat>) {
    forall i: nat, a: Bits :: i < |ws| && a != [] ==>
      var s := if a[0] then ws[i].right else ws[i].left;
      && (s.Nothing? ==> search(i, a) == Missing)
      && (s.ToValue? ==> search(i, a) == HitFor(Some(s.value), offsets))
      && (s.ToNode? && s.node < |ws| ==> search(i, a) == search(s.node, a[1..]))
  }

  function Searcher(buf: seq<byte>, rs: RecordSize, nodeCount: nat): (nat, Bits) -> Hit {
    (i: nat, a: Bits) => Search(buf, rs, nodeCount, i, a)
  }

  lemma SearchWalks(buf: seq<byte>, ws: seq<SlotPair>, rs: RecordSize, offsets: map<Value, nat>, more: seq<byte>)
    requires HoldsSection(buf, ws, rs, offsets, more)
    ensures Walks(Searcher(buf, rs, |ws|), ws, offsets)
  {
    forall i: nat, a: Bits | i < |ws| && a != []
      ensures var s := if a[0] then ws[i].right else ws[i].left;
              && (s.Nothing? ==> Search(buf, rs, |ws|, i, a) == Missing)
              && (s.ToValue? ==> Search(buf, rs, |ws|, i, a) == HitFor(Some(s.value), offsets))
              && (s.ToNode? && s.node < |ws| ==> Search(buf, rs, |ws|, i, a) == Search(buf, rs, |ws|, s.node, a[1..]))
    {
      SearchStep(buf, ws, rs, offsets, more, i, a);
    }
  }

  /** Without aliases, the walk finds exactly what the trie resolves to. */
  lemma {:induction false} WalkPlain(search: (nat, Bits) -> Hit, ws: seq<SlotPair>, offsets: map<Value, nat>,
                                     t: Trie, base: nat, a: Bits)
    requires Walks(search, ws, offsets)
    requires t.Branch? && FlatAt(ws, t, base) && Height(t) <= |a| && !LeafAt(t, a).Alias?
    ensures search(base, a) == HitFor(ValueOf(LeafAt(t, a)), offsets)
    decreases |a|
  {
    var c := Child(t, a[0]);
    if c.Branch? {
      WalkPlain(search, ws, offsets, c, if a[0] then base + 1 + Count(t.left) else base + 1, a[1..]);
    }
  }

  /** The walk follows aliases to the IPv4 root and goes on there with the remaining bits. */
  lemma {:induction false} WalkLooks(search: (nat, Bits) -> Hit, ws: seq<SlotPair>, offsets: map<Value, nat>,
                                     v4: Trie, t: Trie, base: nat, a: Bits)
    requires Walks(search, ws, offsets)
    requires t.Branch? && FlatAt(ws, t, base) && Height(t) <= |a|
    requires LeafAt(t, a).Alias? ==>
               v4.Branch? && FlatAt(ws, v4, V4_DEPTH) && NoAlias(v4) && Height(v4) + AliasDepth(t, a) <= |a|
    ensures search(base, a) == HitFor(Look(v4, t, a), offsets)
    decreases |a|
  {
    var c := Child(t, a[0]);
    if c.Branch? {
      WalkLooks(search, ws, offsets, v4, c, if a[0] then base + 1 + Count(t.left) else base + 1, a[1..]);
    } else if c.Alias? {
      assert LeafAt(t, a) == c && AliasDepth(t, a) == 1;
      NoAliasTip(v4, a[1..]);
      WalkPlain(search, ws, offsets, v4, V4_DEPTH, a[1..]);
    }
  }

  /**
    A reader walking the packed node section of a trie finds, for every address, exactly what
    the trie resolves to, through alias records too.
  */
  lemma SearchLooks(buf: seq<byte>, rs: RecordSize, offsets: map<Value, nat>, more: seq<byte>, t: Trie, a: Bits)
    requires t.Branch? && HoldsSection(buf, Flat(t, 0), rs, offsets, more) && Height(t) <= |a|
    requires LeafAt(t, a).Alias? ==>
               var v4 := V4Of(t);
               v4.Branch? && NoAlias(v4) && Height(v4) + AliasDepth(t, a) <= |a|
    ensures Search(buf, rs, Count(t), 0, a) == HitFor(Look(V4Of(t), t, a), offsets)
  {
    FlatRoot(t);
    SearchWalks(buf, Flat(t, 0), rs, offsets, more);
    WalkLooks(Searcher(buf, rs, Count(t)), Flat(t, 0), offsets, V4Of(t), t, 0, a);
  }

  lemma FlatRoot(t: Trie)
    ensures FlatAt(Flat(t, 0), t, 0)
    ensures V4Of(t).Branch? ==> FlatAt(Flat(t, 0), V4Of(t), V4_DEPTH)
  {
    FlatStands([], t, []);
    assert [] + Flat(t, 0) + [] == Flat(t, 0);
    if V4Of(t).Branch? {
      FlatLeftmost(Flat(t, 0), t, 0, V4_DEPTH);
    }
  }

  // --- Record size selection --------------------------------------------------------------------

  /** Every node target is a node of the section, every value has an offset inside the data. */
  ghost predicate SlotSound(s: Slot, nodeCount: nat, offsets: map<Value, nat>, dataLen: nat) {
    match s
    case ToNode(i) => i < nodeCount
    case Nothing => true
    case ToValue(v) => v in offsets && offsets[v] < dataLen
  }

  /** A size that fits makes every sound record pass the range check. */
  lemma FittingIsSound(s: Slot, nodeCount: nat, rs: RecordSize, offsets: map<Value, nat>, dataLen: nat)
    requires Fits(nodeCount, rs, dataLen) && SlotSound(s, nodeCount, offsets, dataLen)
    ensures SlotFits(s, nodeCount, rs, offsets)
  {
  }

  /** The values in node order, left record before right: the order in which data is emitted. */
  function ValuesOf(ws: seq<SlotPair>): seq<Value> {
    if ws == [] then []
    else ValuesOf(ws[..|ws| - 1]) + SlotValues(ws[|ws| - 1].left) + SlotValues(ws[|ws| - 1].right)
  }

  function SlotValues(s: Slot): seq<Value> {
    if s.ToValue? then [s.value] else []
  }

  lemma {:induction false} ValuesOfMember(ws: seq<SlotPair>, i: nat, v: Value)
    requires i < |ws| && (ws[i].left == ToValue(v) || ws[i].right == ToValue(v))
    ensures v in ValuesOf(ws)
    decreases |ws|
  {
    var n := |ws| - 1;
    if i < n {
      ValuesOfMember(ws[..n], i, v);
    } else {
      assert v in SlotValues(ws[n].left) + SlotValues(ws[n].right);
    }
  }

  /** All node targets in a flattened trie are in range, if aliases have their target. */
  lemma {:induction false} FlatTargets(t: Trie, base: nat, limit: nat)
    requires base + Count(t) <= limit && (NoAlias(t) || V4_DEPTH < limit)
    ensures forall i :: 0 <= i < |Flat(t, base)| ==>
              (Flat(t, base)[i].left.ToNode? ==> Flat(t, base)[i].left.node < limit) &&
              (Flat(t, base)[i].right.ToNode? ==> Flat(t, base)[i].right.node < limit)
  {
    if t.Branch? {
      FlatTargets(t.left, base + 1, limit);
      FlatTargets(t.right, base + 1 + Count(t.left), limit);
    }
  }
}
