/**
  The finished database as a function of the trie (`Writer::build`, `src/writer.rs`), and a
  reader of it after the MaxMind DB File Format Specification: walk the node section, subtract
  node count and separator, decode in the data section, follow pointers.
*/
module Output {
  import opened Prelude
  import opened Bits
  import opened Values
  import opened Tries
  import opened Aliases
  import opened Wire
  import opened Decoding
  import opened DataSections
  import opened RoundTrips
  import opened Layout

  /** The file and what its metadata says about the tree. */
  datatype Database = Database(bytes: seq<byte>, nodeCount: nat, recordSize: RecordSize)

  /** The encoded metadata map, which tells node count and record size; its contents are not modelled. */
  type Metadata = (nat, RecordSize) -> seq<byte>

  const SEPARATOR: seq<byte> := [0, 0, 0, 0, 0, 0, 0, 0, 0, 0, 0, 0, 0, 0, 0, 0]

  const METADATA_MARKER: seq<byte> :=
    [0xAB, 0xCD, 0xEF, 0x4D, 0x61, 0x78, 0x4D, 0x69, 0x6E, 0x64, 0x2E, 0x63, 0x6F, 0x6D]

  /** Where each value of the section was first emitted. */
  function Offsets(s: Section): map<Value, nat> {
    map v | v in s.dedup :: s.dedup[v].offset
  }

  /** The data section of a trie: its values, pushed in node order. */
  function DataOf(t: Trie): Section {
    PushAll(FRESH, ValuesOf(Flat(t, 0)))
  }

  /** The bytes of the file, given its sections. */
  function FileBytes(nodes: seq<byte>, data: seq<byte>, metadata: seq<byte>): seq<byte> {
    nodes + SEPARATOR + data + METADATA_MARKER + metadata
  }

  /** The database of a published trie. */
  function Image(t: Trie, requested: Option<RecordSize>, metadata: Metadata): Result<Database> {
    match Pick(Count(t), |DataOf(t).bytes|, requested)
    case Err(e) => Err(e)
    case Ok(rs) => Assemble(Flat(t, 0), DataOf(t), rs, metadata)
  }

  function Assemble(ws: seq<SlotPair>, data: Section, rs: RecordSize, metadata: Metadata): Result<Database> {
    if AllFit(ws, |ws|, rs, Offsets(data)) then
      Ok(Database(FileBytes(PackAll(ws, |ws|, rs, Offsets(data)), data.bytes, metadata(|ws|, rs)), |ws|, rs))
    else Err(TreeTooLarge)
  }

  // --- A reader ---------------------------------------------------------------------------------

  datatype Answer = NoRecord | Record(value: Value) | Corrupt

  function ReadDatabase(db: Database, a: Bits): Answer {
    match Search(db.bytes, db.recordSize, db.nodeCount, 0, a)
    case Missing => NoRecord
    case Malformed => Corrupt
    case AtOffset(offset) =>
      var start := db.nodeCount * Stride(db.recordSize) + 16;
      if start > |db.bytes| || !AllZero(db.bytes[start - 16..start]) then Corrupt
      else
        match Decode(SpecOrder, db.bytes[start..], offset)
        case None => Corrupt
        case Some(f) => Record(f.value)
  }

  predicate AllZero(b: seq<byte>) {
    forall i :: 0 <= i < |b| ==> b[i] == 0
  }

  /** The answer a reader owes for a resolved address. */
  ghost predicate Answers(answer: Answer, o: Option<Value>) {
    match o
    case None => answer == NoRecord
    case Some(v) => answer == Record(v) <==> SizesOk(v) && Readable(v)
  }

  // --- Every value has a good offset --------------------------------------------------------------

  lemma {:induction false} LookIsValue(v4: Trie, t: Trie, a: Bits)
    ensures Look(v4, t, a).Some? ==>
              HasValue(t, Look(v4, t, a).value) || HasValue(v4, Look(v4, t, a).value)
    decreases |a|
  {
    if t.Branch? && a != [] {
      LookIsValue(v4, Child(t, a[0]), a[1..]);
    } else if t.Alias? {
      LeafIsValue(v4, a);
    }
  }

  predicate HasValue(t: Trie, v: Value) {
    match t
    case Branch(_, l, r) => HasValue(l, v) || HasValue(r, v)
    case Leaf(u) => u == v
    case _ => false
  }

  lemma {:induction false} LeafIsValue(t: Trie, a: Bits)
    ensures LeafAt(t, a).Leaf? ==> HasValue(t, LeafAt(t, a).value)
    ensures LeafAt(t, a).Branch? ==> forall v :: HasValue(LeafAt(t, a), v) ==> HasValue(t, v)
  {
    if t.Branch? && a != [] {
      LeafIsValue(Child(t, a[0]), a[1..]);
    }
  }

  /** A value below the root stands in some record, hence is pushed. */
  lemma {:induction false} ValueIsListed(ws: seq<SlotPair>, t: Trie, base: nat, v: Value)
    requires FlatAt(ws, t, base) && t.Branch? && HasValue(t, v)
    ensures v in ValuesOf(ws)
  {
    if HasValue(t.left, v) {
      if t.left.Branch? {
        ValueIsListed(ws, t.left, base + 1, v);
      } else {
        assert t.left == Leaf(v);
        ValuesOfMember(ws, base, v);
      }
    } else if t.right.Branch? {
      ValueIsListed(ws, t.right, base + 1 + Count(t.left), v);
    } else {
      assert t.right == Leaf(v);
      ValuesOfMember(ws, base, v);
    }
  }

  lemma ValueIsPushed(t: Trie, v: Value)
    requires t.Branch? && HasValue(t, v)
    ensures v in ValuesOf(Flat(t, 0))
    ensures v in DataOf(t).dedup && EntryOk(DataOf(t).bytes, v, DataOf(t).dedup[v])
  {
    FlatRoot(t);
    ValueIsListed(Flat(t, 0), t, 0, v);
    PushAllGood(FRESH, ValuesOf(Flat(t, 0)));
  }

  // --- The parts of the file ----------------------------------------------------------------------

  function Ascii(s: string): seq<byte>
    requires forall i :: 0 <= i < |s| ==> s[i] < 128 as char
  {
    seq(|s|, i requires 0 <= i < |s| => s[i] as int)
  }

  lemma FileLayout(nodes: seq<byte>, data: seq<byte>, meta: seq<byte>)
    ensures FileBytes(nodes, data, meta)
            == nodes + seq(16, i => 0) + data + ([0xAB, 0xCD, 0xEF] + Ascii("MaxMind.com")) + meta
  {
    SeparatorIsZero();
    MarkerIsAscii();
  }

  lemma SeparatorIsZero()
    ensures SEPARATOR == seq(16, i => 0)
  {
  }

  lemma MarkerIsAscii()
    ensures METADATA_MARKER == [0xAB, 0xCD, 0xEF] + Ascii("MaxMind.com")
  {
  }

  /** Nodes, sixteen zero bytes, data, the marker of the format, and the metadata of this very tree. */
  lemma ImageLayout(t: Trie, requested: Option<RecordSize>, metadata: Metadata)
    requires Image(t, requested, metadata).Ok?
    ensures var db := Image(t, requested, metadata).value;
            && Pick(Count(t), |DataOf(t).bytes|, requested) == Ok(db.recordSize)
            && db.nodeCount == Count(t)
            && db.bytes == PackAll(Flat(t, 0), Count(t), db.recordSize, Offsets(DataOf(t))) + seq(16, i => 0)
                           + DataOf(t).bytes + ([0xAB, 0xCD, 0xEF] + Ascii("MaxMind.com"))
                           + metadata(Count(t), db.recordSize)
  {
    FileLayout(PackAll(Flat(t, 0), Count(t), Image(t, requested, metadata).value.recordSize, Offsets(DataOf(t))),
               DataOf(t).bytes, metadata(Count(t), Image(t, requested, metadata).value.recordSize));
  }

  /** With a pinned size, a database exists exactly if every record number fits its bits. */
  lemma PinnedImage(t: Trie, rs: RecordSize, metadata: Metadata)
    ensures Image(t, Some(rs), metadata).Ok? <==>
            AllBelow(Flat(t, 0), Count(t), Offsets(DataOf(t)), Pow2(RecordBits(rs)))
    ensures Image(t, Some(rs), metadata).Ok? ==> Image(t, Some(rs), metadata).value.recordSize == rs
    ensures Image(t, Some(rs), metadata).Err? ==> Image(t, Some(rs), metadata).error == TreeTooLarge
  {
    FitIsBelow(Flat(t, 0), Count(t), rs, Offsets(DataOf(t)));
  }

  // --- Reading back -----------------------------------------------------------------------------

  /** Decoding at the offset of `v`, with the rest of the file behind the data section. */
  lemma DecodeInFile(data: seq<byte>, more: seq<byte>, v: Value, offset: nat)
    requires Locates(data, offset, v)
    ensures ReadsBack(data + more, offset, v)
  {
    if SizesOk(v) {
      DecodeLonger(WriterOrder, data, data + more, offset);
    }
    LocatedReads(data + more, offset, v);
  }

  /** A record that passes its range check never carries a saturated offset. */
  lemma {:induction false} FitMeansUnsaturated(ws: seq<SlotPair>, nodeCount: nat, rs: RecordSize,
                                               offsets: map<Value, nat>, v: Value)
    requires AllFit(ws, nodeCount, rs, offsets) && v in ValuesOf(ws) && v in offsets
    ensures offsets[v] < U32_MAX
    decreases |ws|
  {
    var n := |ws| - 1;
    if v in ValuesOf(ws[..n]) {
      FitMeansUnsaturated(ws[..n], nodeCount, rs, offsets, v);
    } else {
      assert PairFits(ws[n], nodeCount, rs, offsets);
    }
  }

  lemma FileSplit(nodes: seq<byte>, data: seq<byte>, metadata: seq<byte>)
    ensures FileBytes(nodes, data, metadata) == nodes + (SEPARATOR + data + METADATA_MARKER + metadata)
    ensures |nodes| + 16 <= |FileBytes(nodes, data, metadata)|
    ensures AllZero(FileBytes(nodes, data, metadata)[|nodes|..|nodes| + 16])
    ensures FileBytes(nodes, data, metadata)[|nodes| + 16..] == data + (METADATA_MARKER + metadata)
  {
  }

  /**
    Reading back: for every address, the reader's answer is what the trie resolves to, and a
    stored value comes back exactly if the specification's reader can take its arrays.
  */
  lemma ImageReads(t: Trie, requested: Option<RecordSize>, metadata: Metadata, a: Bits)
    requires t.Branch? && Height(t) <= |a| && AliasesLand(t, a)
    requires Image(t, requested, metadata).Ok?
    ensures Answers(ReadDatabase(Image(t, requested, metadata).value, a), Look(V4Of(t), t, a))
  {
    var db := Image(t, requested, metadata).value;
    var data := DataOf(t);
    var meta := metadata(db.nodeCount, db.recordSize);
    FileSearch(t, data, db, meta, a);
    var o := Look(V4Of(t), t, a);
    if o.Some? {
      ValueBelow(t, a, o.value);
      ValueIsPushed(t, o.value);
      FitMeansUnsaturated(Flat(t, 0), Count(t), db.recordSize, Offsets(data), o.value);
      FileDecode(db, a, data.bytes, METADATA_MARKER + meta, o.value, data.dedup[o.value].offset);
    }
  }

  /** The tree walk in the file, and where the data section starts. */
  lemma FileSearch(t: Trie, data: Section, db: Database, meta: seq<byte>, a: Bits)
    requires t.Branch? && Height(t) <= |a| && AliasesLand(t, a)
    requires db.nodeCount == Count(t) && AllFit(Flat(t, 0), Count(t), db.recordSize, Offsets(data))
    requires db.bytes == FileBytes(PackAll(Flat(t, 0), Count(t), db.recordSize, Offsets(data)), data.bytes, meta)
    ensures Search(db.bytes, db.recordSize, db.nodeCount, 0, a) == HitFor(Look(V4Of(t), t, a), Offsets(data))
    ensures db.nodeCount * Stride(db.recordSize) + 16 <= |db.bytes|
    ensures AllZero(db.bytes[db.nodeCount * Stride(db.recordSize)..db.nodeCount * Stride(db.recordSize) + 16])
    ensures db.bytes[db.nodeCount * Stride(db.recordSize) + 16..] == data.bytes + (METADATA_MARKER + meta)
  {
    var nodes := PackAll(Flat(t, 0), Count(t), db.recordSize, Offsets(data));
    StrideIsNodeBytes(db.recordSize);
    FileSplit(nodes, data.bytes, meta);
    PackAllLength(Flat(t, 0), Count(t), db.recordSize, Offsets(data), Stride(db.recordSize));
    SearchLooks(db.bytes, db.recordSize, Offsets(data), SEPARATOR + data.bytes + METADATA_MARKER + meta, t, a);
  }

  lemma FileDecode(db: Database, a: Bits, data: seq<byte>, more: seq<byte>, v: Value, offset: nat)
    requires Search(db.bytes, db.recordSize, db.nodeCount, 0, a) == AtOffset(offset)
    requires db.nodeCount * Stride(db.recordSize) + 16 <= |db.bytes|
    requires AllZero(db.bytes[db.nodeCount * Stride(db.recordSize)..db.nodeCount * Stride(db.recordSize) + 16])
    requires db.bytes[db.nodeCount * Stride(db.recordSize) + 16..] == data + more
    requires Locates(data, offset, v)
    ensures Answers(ReadDatabase(db, a), Some(v))
  {
    DecodeInFile(data, more, v, offset);
  }

  lemma ValueBelow(t: Trie, a: Bits, v: Value)
    requires t.Branch? && Look(V4Of(t), t, a) == Some(v)
    ensures HasValue(t, v)
  {
    LookIsValue(V4Of(t), t, a);
    LeafIsValue(t, Zeros(V4_DEPTH));
  }

  // --- Automatic record size ----------------------------------------------------------------------

  /** Every offset lies inside the data section, and every record target inside the tree. */
  lemma ImageIsSound(t: Trie)
    requires t.Branch? && (NoAlias(t) || V4Of(t).Branch?)
    ensures AllSound(Flat(t, 0), Offsets(DataOf(t)), |DataOf(t).bytes|)
  {
    var ws, data := Flat(t, 0), DataOf(t);
    if !NoAlias(t) {
      FlatRoot(t);
    }
    FlatTargets(t, 0, Count(t));
    PushAllGood(FRESH, ValuesOf(ws));
    forall i | 0 <= i < |ws|
      ensures SlotSound(ws[i].left, |ws|, Offsets(data), |data.bytes|)
      ensures SlotSound(ws[i].right, |ws|, Offsets(data), |data.bytes|)
    {
      SlotIsSound(ws, i, ws[i].left, data);
      SlotIsSound(ws, i, ws[i].right, data);
    }
  }

  ghost predicate AllSound(ws: seq<SlotPair>, offsets: map<Value, nat>, dataLen: nat) {
    forall i :: 0 <= i < |ws| ==>
      SlotSound(ws[i].left, |ws|, offsets, dataLen) && SlotSound(ws[i].right, |ws|, offsets, dataLen)
  }

  lemma SlotIsSound(ws: seq<SlotPair>, i: nat, s: Slot, data: Section)
    requires i < |ws| && (s == ws[i].left || s == ws[i].right) && Good(data)
    requires s.ToNode? ==> s.node < |ws|
    requires forall v :: v in ValuesOf(ws) ==> v in data.dedup
    ensures SlotSound(s, |ws|, Offsets(data), |data.bytes|)
  {
    if s.ToValue? {
      ValuesOfMember(ws, i, s.value);
      assert EntryOk(data.bytes, s.value, data.dedup[s.value]);
    }
  }

  /** With automatic selection, `build` fails only if not even 32-bit records fit. */
  lemma AutomaticSizeNeverFails(t: Trie, metadata: Metadata)
    requires t.Branch? && (NoAlias(t) || V4Of(t).Branch?)
    ensures Image(t, None, metadata).Ok? <==> Fits(Count(t), Bits32, |DataOf(t).bytes|)
  {
    var data := DataOf(t);
    PickSmallest(Count(t), |data.bytes|);
    if Fits(Count(t), Bits32, |data.bytes|) {
      ImageIsSound(t);
      SoundFits(Flat(t, 0), Pick(Count(t), |data.bytes|, None).value, Offsets(data), |data.bytes|);
    }
  }

  lemma SoundFits(ws: seq<SlotPair>, rs: RecordSize, offsets: map<Value, nat>, dataLen: nat)
    requires AllSound(ws, offsets, dataLen) && Fits(|ws|, rs, dataLen)
    ensures AllFit(ws, |ws|, rs, offsets)
  {
    forall i | 0 <= i < |ws|
      ensures PairFits(ws[i], |ws|, rs, offsets)
    {
      FittingIsSound(ws[i].left, |ws|, rs, offsets, dataLen);
      FittingIsSound(ws[i].right, |ws|, rs, offsets, dataLen);
    }
  }
}
