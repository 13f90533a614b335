/**
  What a repeated value costs. A value that is in the deduplication table is emitted as a pointer
  where that is shorter than its recorded length, and never costs more than its pointer.

  The recorded length is what the first emission took. Emitting the value again inline can only be
  cheaper, because by then everything inside it is in the table too.
*/
module Repeats {
  import opened Prelude
  import opened Values
  import opened Wire
  import opened DataSections
  import opened RoundTrips

  // --- A pointer where it is shorter ------------------------------------------------------------

  /** A repeat whose recorded length exceeds its pointer is emitted as exactly that pointer. */
  lemma LongRepeatIsPointer(s: Section, v: Value)
    requires !s.noPointers && v in s.dedup && s.dedup[v].offset <= U32_MAX
    requires s.dedup[v].len > PointerBytes(s.dedup[v].offset)
    ensures var offset, r := s.dedup[v].offset, Emit(s, v);
            && r.bytes == s.bytes + Pointer(offset) && r.dedup == s.dedup
            && |r.bytes| == |s.bytes| + PointerBytes(offset)
            && ReadPointer(r.bytes, |s.bytes|) == Some(Target(offset, |r.bytes|))
  {
    var p := Pointer(s.dedup[v].offset);
    AtAppended(s.bytes, p, s.bytes + p);
    PointerRoundTrip(s.bytes + p, |s.bytes|, s.dedup[v].offset);
  }

  /** A witness that the bound needs the recorded length: where it saturated, 20 bytes are written out again. */
  lemma SaturatedRepeat(s: Section, text: Text)
    requires |text| == 20 && !s.noPointers && String(text) in s.dedup && s.dedup[String(text)] == Entry(U32_MAX, 0)
    ensures |Emit(s, String(text)).bytes| == |s.bytes| + 21 > |s.bytes| + PointerBytes(U32_MAX)
  {
    assert Scalar(String(text)) == [0x54] + text;
  }

  // --- The cost of encoding again -----------------------------------------------------------------

  /** The bytes that `v` takes when everything inside it is in the table `d`. */
  function Again(d: map<Value, Entry>, v: Value): nat
    decreases Rank(v), v, 0
  {
    match v
    case Map(es) => |Control(TAG_MAP, |es|)| + PairsAgain(d, es)
    case Array(items) => |Extended(EXT_ARRAY, |items|)| + ItemsAgain(d, items)
    case _ => |Scalar(v)|
  }

  /** The bytes that emitting `v` takes then: a pointer if that is shorter than the recorded length. */
  function EmitAgain(d: map<Value, Entry>, v: Value): nat
    decreases Rank(v), v, 1
  {
    if v in d && d[v].len > PointerBytes(d[v].offset) then PointerBytes(d[v].offset) else Again(d, v)
  }

  function ItemsAgain(d: map<Value, Entry>, items: seq<Value>): nat
    decreases 1, items, 0
  {
    if items == [] then 0 else EmitAgain(d, items[0]) + ItemsAgain(d, items[1..])
  }

  function PairsAgain(d: map<Value, Entry>, es: seq<Pair>): nat
    decreases 1, es, 0
  {
    if es == [] then 0
    else EmitAgain(d, String(es[0].key)) + EmitAgain(d, es[0].value) + PairsAgain(d, es[1..])
  }

  lemma {:induction false} EncodeAgain(s: Section, v: Value)
    requires !s.noPointers && Inside(v) <= s.dedup.Keys
    ensures Encode(s, v).dedup == s.dedup && |Encode(s, v).bytes| == |s.bytes| + Again(s.dedup, v)
    decreases Rank(v), v, 0
  {
    match v
    case Map(es) => PairsRepeat(Append(s, Control(TAG_MAP, |es|)), es);
    case Array(items) => ItemsRepeat(Append(s, Extended(EXT_ARRAY, |items|)), items);
    case _ =>
  }

  lemma {:induction false} EmitRepeat(s: Section, v: Value)
    requires !s.noPointers && Closure(v) <= s.dedup.Keys
    ensures Emit(s, v).dedup == s.dedup && |Emit(s, v).bytes| == |s.bytes| + EmitAgain(s.dedup, v)
    decreases Rank(v), v, 1
  {
    assert Closure(v) == Inside(v) + {v};
    if !UsesPointer(s, v) {
      EncodeAgain(s, v);
    }
  }

  lemma {:induction false} ItemsRepeat(s: Section, items: seq<Value>)
    requires !s.noPointers && ItemsClosure(items) <= s.dedup.Keys
    ensures EmitItems(s, items).dedup == s.dedup
    ensures |EmitItems(s, items).bytes| == |s.bytes| + ItemsAgain(s.dedup, items)
    decreases 1, items, 0
  {
    if items != [] {
      EmitRepeat(s, items[0]);
      ItemsRepeat(Emit(s, items[0]), items[1..]);
    }
  }

  lemma {:induction false} PairsRepeat(s: Section, es: seq<Pair>)
    requires !s.noPointers && PairsClosure(es) <= s.dedup.Keys
    ensures EmitPairs(s, es).dedup == s.dedup
    ensures |EmitPairs(s, es).bytes| == |s.bytes| + PairsAgain(s.dedup, es)
    decreases 1, es, 0
  {
    if es != [] {
      var k := String(es[0].key);
      EmitRepeat(s, k);
      EmitRepeat(Emit(s, k), es[0].value);
      PairsRepeat(EmitPair(s, es[0]), es[1..]);
    }
  }

  // --- The cost is fixed once the inside is known -----------------------------------------------------

  /** `e` keeps the entries of `d`. */
  ghost predicate Extends(e: map<Value, Entry>, d: map<Value, Entry>) {
    forall u :: u in d ==> u in e && e[u] == d[u]
  }

  lemma {:induction false} AgainFrame(d: map<Value, Entry>, e: map<Value, Entry>, v: Value)
    requires Extends(e, d) && Inside(v) <= d.Keys
    ensures Again(e, v) == Again(d, v)
    decreases Rank(v), v, 0
  {
    match v
    case Map(es) => PairsAgainFrame(d, e, es);
    case Array(items) => ItemsAgainFrame(d, e, items);
    case _ =>
  }

  lemma {:induction false} EmitAgainFrame(d: map<Value, Entry>, e: map<Value, Entry>, v: Value)
    requires Extends(e, d) && Closure(v) <= d.Keys
    ensures EmitAgain(e, v) == EmitAgain(d, v)
    decreases Rank(v), v, 1
  {
    assert Closure(v) == Inside(v) + {v};
    AgainFrame(d, e, v);
  }

  lemma {:induction false} ItemsAgainFrame(d: map<Value, Entry>, e: map<Value, Entry>, items: seq<Value>)
    requires Extends(e, d) && ItemsClosure(items) <= d.Keys
    ensures ItemsAgain(e, items) == ItemsAgain(d, items)
    decreases 1, items, 0
  {
    if items != [] {
      EmitAgainFrame(d, e, items[0]);
      ItemsAgainFrame(d, e, items[1..]);
    }
  }

  lemma {:induction false} PairsAgainFrame(d: map<Value, Entry>, e: map<Value, Entry>, es: seq<Pair>)
    requires Extends(e, d) && PairsClosure(es) <= d.Keys
    ensures PairsAgain(e, es) == PairsAgain(d, es)
    decreases 1, es, 0
  {
    if es != [] {
      EmitAgainFrame(d, e, String(es[0].key));
      EmitAgainFrame(d, e, es[0].value);
      PairsAgainFrame(d, e, es[1..]);
    }
  }

  // --- The recorded length is enough ------------------------------------------------------------------

  /** A recorded length that did not saturate is enough to encode the value again. */
  ghost predicate Thrifty(s: Section) {
    forall v :: v in s.dedup && Unsaturated(s.dedup[v]) ==> Again(s.dedup, v) <= s.dedup[v].len
  }

  /** The states that pushes on a fresh section go through. */
  ghost predicate Reachable(s: Section) {
    !s.noPointers && Closed(s) && Thrifty(s)
  }

  /** Nothing is inside itself. */
  function Nodes(v: Value): nat
    decreases v
  {
    match v
    case Map(es) => 2 + PairNodes(es)
    case Array(items) => 2 + ItemNodes(items)
    case _ => 1
  }

  function ItemNodes(items: seq<Value>): nat
    decreases items
  {
    if items == [] then 0 else Nodes(items[0]) + ItemNodes(items[1..])
  }

  function PairNodes(es: seq<Pair>): nat
    decreases es
  {
    if es == [] then 0 else 1 + Nodes(es[0].value) + PairNodes(es[1..])
  }

  lemma {:induction false} ClosureSmaller(v: Value, u: Value)
    requires u in Closure(v)
    ensures Nodes(u) <= Nodes(v)
    ensures u in Inside(v) ==> Nodes(u) < Nodes(v)
    decreases v, 1
  {
    match v
    case Map(es) =>
      if u in PairsClosure(es) {
        PairsSmaller(es, u);
      }
    case Array(items) =>
      if u in ItemsClosure(items) {
        ItemsSmaller(items, u);
      }
    case _ =>
  }

  lemma {:induction false} ItemsSmaller(items: seq<Value>, u: Value)
    requires u in ItemsClosure(items)
    ensures Nodes(u) <= ItemNodes(items)
    decreases items, 0
  {
    if u in Closure(items[0]) {
      ClosureSmaller(items[0], u);
    } else {
      ItemsSmaller(items[1..], u);
    }
  }

  lemma {:induction false} PairsSmaller(es: seq<Pair>, u: Value)
    requires u in PairsClosure(es)
    ensures Nodes(u) <= PairNodes(es)
    decreases es, 0
  {
    if u in Closure(es[0].value) {
      ClosureSmaller(es[0].value, u);
    } else if u != String(es[0].key) {
      PairsSmaller(es[1..], u);
    }
  }

  lemma NotInside(v: Value)
    ensures v !in Inside(v)
  {
    if v in Inside(v) {
      ClosureHasInside(v);
      ClosureSmaller(v, v);
    }
  }

  lemma ClosureHasInside(v: Value)
    ensures Closure(v) == Inside(v) + {v}
  {
  }

  /** Encoding records no more than it writes. */
  lemma {:induction false} EncodeThrifty(s: Section, v: Value)
    requires Reachable(s)
    ensures Reachable(Encode(s, v)) && Extends(Encode(s, v).dedup, s.dedup)
    ensures |Encode(s, v).bytes| < U32_MAX ==>
              |s.bytes| + Again(Encode(s, v).dedup, v) <= |Encode(s, v).bytes|
    decreases Rank(v), v, 0
  {
    EncodeGrows(s, v);
    EncodeKeeps(s, v);
    match v
    case Map(es) =>
      PairsThrifty(Append(s, Control(TAG_MAP, |es|)), es);
    case Array(items) =>
      ItemsThrifty(Append(s, Extended(EXT_ARRAY, |items|)), items);
    case _ =>
  }

  lemma {:induction false} EmitThrifty(s: Section, v: Value)
    requires Reachable(s)
    ensures Reachable(Emit(s, v)) && Extends(Emit(s, v).dedup, s.dedup) && Closure(v) <= Emit(s, v).dedup.Keys
    ensures |Emit(s, v).bytes| < U32_MAX ==>
              |s.bytes| + EmitAgain(Emit(s, v).dedup, v) <= |Emit(s, v).bytes|
    decreases Rank(v), v, 1
  {
    EmitGrows(s, v);
    EmitKeeps(s, v);
    if !UsesPointer(s, v) {
      EncodeThrifty(s, v);
      EncodeGrows(s, v);
      NotInside(v);
      if v !in s.dedup {
        RecordThrifty(s, Encode(s, v), v);
      }
    }
  }

  /** The entry for a value just encoded. */
  lemma RecordThrifty(s: Section, r: Section, v: Value)
    requires Reachable(r) && |s.bytes| < |r.bytes| && v !in r.dedup && Inside(v) <= r.dedup.Keys
    requires |r.bytes| < U32_MAX ==> |s.bytes| + Again(r.dedup, v) <= |r.bytes|
    ensures var d := r.dedup[v := EntryFor(s, r)];
            && Thrifty(r.(dedup := d))
            && (|r.bytes| < U32_MAX ==> |s.bytes| + EmitAgain(d, v) <= |r.bytes|)
  {
    var d := r.dedup[v := EntryFor(s, r)];
    AgainFrame(r.dedup, d, v);
    forall u | u in d && Unsaturated(d[u])
      ensures Again(d, u) <= d[u].len
    {
      if u != v {
        ClosureHasInside(u);
        AgainFrame(r.dedup, d, u);
      }
    }
  }

  lemma {:induction false} ItemsThrifty(s: Section, items: seq<Value>)
    requires Reachable(s)
    ensures Reachable(EmitItems(s, items)) && Extends(EmitItems(s, items).dedup, s.dedup)
    ensures |EmitItems(s, items).bytes| < U32_MAX ==>
              |s.bytes| + ItemsAgain(EmitItems(s, items).dedup, items) <= |EmitItems(s, items).bytes|
    decreases 1, items, 0
  {
    if items != [] {
      var s1 := Emit(s, items[0]);
      var r := EmitItems(s1, items[1..]);
      EmitThrifty(s, items[0]);
      ItemsThrifty(s1, items[1..]);
      EmitAgainFrame(s1.dedup, r.dedup, items[0]);
    }
  }

  lemma {:induction false} PairsThrifty(s: Section, es: seq<Pair>)
    requires Reachable(s)
    ensures Reachable(EmitPairs(s, es)) && Extends(EmitPairs(s, es).dedup, s.dedup)
    ensures |EmitPairs(s, es).bytes| < U32_MAX ==>
              |s.bytes| + PairsAgain(EmitPairs(s, es).dedup, es) <= |EmitPairs(s, es).bytes|
    decreases 1, es, 0
  {
    if es != [] {
      var k := String(es[0].key);
      var s1 := Emit(s, k);
      var s2 := Emit(s1, es[0].value);
      var r := EmitPairs(s2, es[1..]);
      EmitThrifty(s, k);
      EmitThrifty(s1, es[0].value);
      PairsThrifty(s2, es[1..]);
      EmitAgainFrame(s1.dedup, r.dedup, k);
      EmitAgainFrame(s2.dedup, r.dedup, es[0].value);
    }
  }

  lemma PushThrifty(s: Section, v: Value)
    requires Reachable(s)
    ensures Reachable(Push(s, v))
  {
    PushGrows(s, v);
    if v !in s.dedup {
      EncodeThrifty(s, v);
      EncodeGrows(s, v);
      NotInside(v);
      RecordThrifty(s, Encode(s, v), v);
    }
  }

  lemma {:induction false} PushAllThrifty(s: Section, vs: seq<Value>)
    requires Reachable(s)
    ensures Reachable(PushAll(s, vs))
    decreases |vs|
  {
    if vs != [] {
      PushThrifty(s, vs[0]);
      PushAllThrifty(Push(s, vs[0]), vs[1..]);
    }
  }

  // --- The bound ----------------------------------------------------------------------------------------

  /**
    A repeat never costs more than its pointer, and never more than the first emission: in every state
    of a run with pointers, emitting a recorded value again adds at most the smaller of the two.
  */
  lemma RepeatCosts(s: Section, v: Value)
    requires Reachable(s) && v in s.dedup && Unsaturated(s.dedup[v])
    ensures |Emit(s, v).bytes| <= |s.bytes| + PointerBytes(s.dedup[v].offset)
    ensures |Emit(s, v).bytes| <= |s.bytes| + s.dedup[v].len
    ensures Emit(s, v).dedup == s.dedup
  {
    EmitRepeat(s, v);
  }

  /** The same after any run of pushes on a fresh section. */
  lemma RepeatCostsAfter(vs: seq<Value>, v: Value)
    requires v in PushAll(FRESH, vs).dedup && Unsaturated(PushAll(FRESH, vs).dedup[v])
    ensures var s := PushAll(FRESH, vs);
            && |Emit(s, v).bytes| <= |s.bytes| + PointerBytes(s.dedup[v].offset)
            && |Emit(s, v).bytes| <= |s.bytes| + s.dedup[v].len
  {
    PushAllThrifty(FRESH, vs);
    RepeatCosts(PushAll(FRESH, vs), v);
  }

  /** A witness: an array that holds a text of 20 bytes twice takes 25 bytes, the last two the pointer to offset 2. */
  lemma TwentyBytesTwice(text: Text)
    requires |text| == 20
    ensures var t := String(text);
            var b := PushAll(FRESH, [Array([t, t])]).bytes;
            b == [2, 4] + [0x54] + text + [0x20, 0x02] && |b| == 25
  {
    var t := String(text);
    var s := Append(FRESH, Extended(EXT_ARRAY, 2));
    var s1 := Emit(s, t);
    FirstText(s, text);
    LongRepeatIsPointer(s1, t);
    assert [t, t][1..] == [t] && [t][1..] == [];
    assert EmitItems(s, [t, t]) == EmitItems(s1, [t]) == EmitItems(Emit(s1, t), []);
    assert PushAll(FRESH, [Array([t, t])]) == PushAll(Push(FRESH, Array([t, t])), []);
  }

  lemma FirstText(s: Section, text: Text)
    requires |text| == 20 && s == Section([2, 4], map[], false)
    ensures Emit(s, String(text)) == Section([2, 4] + ([0x54] + text), map[String(text) := Entry(2, 21)], false)
  {
    var r := Encode(s, String(text));
    assert r.bytes == [2, 4] + ([0x54] + text);
    assert EntryFor(s, r) == Entry(2, 21);
  }
}
