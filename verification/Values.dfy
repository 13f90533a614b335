/**
  `src/value.rs`: the MMDB value model and the two merges.

  Floating-point payloads are their bit patterns, because the source compares and hashes them
  bitwise; `==` on this datatype is therefore the source's `Eq`. A `BTreeMap` is its list of
  entries in key order.
*/
module Values {
  import opened Prelude

  type byte = x: int | 0 <= x < 0x100
  type u16 = x: int | 0 <= x < 0x1_0000
  type u32 = x: int | 0 <= x < 0x1_0000_0000
  type u64 = x: int | 0 <= x < 0x1_0000_0000_0000_0000
  type u128 = x: int | 0 <= x < 0x1_0000_0000_0000_0000_0000_0000_0000_0000
  type i32 = x: int | -0x8000_0000 <= x < 0x8000_0000

  /** UTF-8 text, as its bytes. */
  type Text = seq<byte>

  datatype Pair = Pair(key: Text, value: Value)

  datatype Value =
    | String(text: Text)
    | Double(doubleBits: u64)
    | Blob(blob: seq<byte>)
    | U16(n16: u16)
    | U32(n32: u32)
    | Map(entries: seq<Pair>)
    | I32(signed: i32)
    | U64(n64: u64)
    | U128(n128: u128)
    | Array(items: seq<Value>)
    | Bool(flag: bool)
    | Float(floatBits: u32)

  // --- Key order --------------------------------------------------------------------------

  /** Bytewise lexicographic order, the order of `BTreeMap<String, _>` keys. */
  predicate Less(a: Text, b: Text) {
    b != [] && (a == [] || a[0] < b[0] || (a[0] == b[0] && Less(a[1..], b[1..])))
  }

  /** Up to `k` the texts agree, and there `a` ends or has the smaller byte. */
  predicate DivergesAt(a: Text, b: Text, k: nat) {
    k <= |a| && k < |b| && a[..k] == b[..k] && (k == |a| || a[k] < b[k])
  }

  /** The order is lexicographic: the first byte that differs decides, and a proper prefix comes first. */
  lemma LessIsLexicographic(a: Text, b: Text)
    ensures Less(a, b) <==> exists k: nat :: DivergesAt(a, b, k)
  {
    if Less(a, b) {
      var k := Divergence(a, b);
    }
    if k: nat :| DivergesAt(a, b, k) {
      DivergentIsLess(a, b, k);
    }
  }

  lemma {:induction false} Divergence(a: Text, b: Text) returns (k: nat)
    requires Less(a, b)
    ensures DivergesAt(a, b, k)
  {
    if a == [] || a[0] < b[0] {
      k := 0;
    } else {
      var j := Divergence(a[1..], b[1..]);
      k := j + 1;
      assert a[..k] == [a[0]] + a[1..][..j] && b[..k] == [b[0]] + b[1..][..j];
    }
  }

  lemma {:induction false} DivergentIsLess(a: Text, b: Text, k: nat)
    requires DivergesAt(a, b, k)
    ensures Less(a, b)
    decreases k
  {
    if k > 0 {
      assert a[0] == a[..k][0] == b[..k][0] == b[0];
      assert a[1..][..k - 1] == a[..k][1..] && b[1..][..k - 1] == b[..k][1..];
      DivergentIsLess(a[1..], b[1..], k - 1);
    }
  }

  lemma {:induction false} LessTotal(a: Text, b: Text)
    ensures a == b || Less(a, b) || Less(b, a)
    ensures !(Less(a, b) && Less(b, a))
    ensures a == b ==> !Less(a, b)
  {
    if a != [] && b != [] && a[0] == b[0] {
      LessTotal(a[1..], b[1..]);
      assert a == [a[0]] + a[1..] && b == [b[0]] + b[1..];
    }
  }

  lemma {:induction false} LessTransitive(a: Text, b: Text, c: Text)
    requires Less(a, b) && Less(b, c)
    ensures Less(a, c)
  {
    if a != [] && a[0] == b[0] == c[0] {
      LessTransitive(a[1..], b[1..], c[1..]);
    }
  }

  ghost predicate Sorted(es: seq<Pair>) {
    forall i, j :: 0 <= i < j < |es| ==> Less(es[i].key, es[j].key)
  }

  /** Every map inside `v` is in key order: what `BTreeMap` guarantees of a Rust value. */
  ghost predicate WellFormed(v: Value) {
    match v
    case Map(es) => Sorted(es) && forall i :: 0 <= i < |es| ==> WellFormed(es[i].value)
    case Array(items) => forall i :: 0 <= i < |items| ==> WellFormed(items[i])
    case _ => true
  }

  // --- Map operations ---------------------------------------------------------------------

  /** `BTreeMap::get`. */
  function Find(es: seq<Pair>, k: Text): Option<Value> {
    if es == [] then None
    else if es[0].key == k then Some(es[0].value)
    else Find(es[1..], k)
  }

  /** `BTreeMap::insert`. */
  function Put(es: seq<Pair>, k: Text, v: Value): seq<Pair> {
    if es == [] then [Pair(k, v)]
    else if es[0].key == k then [Pair(k, v)] + es[1..]
    else if Less(k, es[0].key) then [Pair(k, v)] + es
    else [es[0]] + Put(es[1..], k, v)
  }

  lemma {:induction false} FindAbsent(es: seq<Pair>, k: Text)
    requires forall i :: 0 <= i < |es| ==> es[i].key != k
    ensures Find(es, k) == None
  {
    if es != [] {
      FindAbsent(es[1..], k);
    }
  }

  /** Insertion changes the lookup of exactly one key. */
  lemma {:induction false} PutFind(es: seq<Pair>, k: Text, v: Value, j: Text)
    ensures Find(Put(es, k, v), j) == if j == k then Some(v) else Find(es, j)
  {
    if es == [] {
    } else if es[0].key == k {
      assert Put(es, k, v)[1..] == es[1..];
    } else if Less(k, es[0].key) {
      assert Put(es, k, v)[1..] == es;
    } else {
      assert Put(es, k, v)[1..] == Put(es[1..], k, v);
      PutFind(es[1..], k, v, j);
    }
  }

  lemma {:induction false} PutMembers(es: seq<Pair>, k: Text, v: Value)
    ensures forall i :: 0 <= i < |Put(es, k, v)| ==>
              Put(es, k, v)[i] == Pair(k, v) || Put(es, k, v)[i] in es
  {
    if es != [] && es[0].key != k && !Less(k, es[0].key) {
      PutMembers(es[1..], k, v);
    }
  }

  /** Insertion keeps key order. */
  lemma {:induction false} PutSorted(es: seq<Pair>, k: Text, v: Value)
    requires Sorted(es)
    ensures Sorted(Put(es, k, v))
  {
    if es != [] && es[0].key != k {
      if Less(k, es[0].key) {
        PutFrontSorted(es, k, v);
      } else {
        LessTotal(k, es[0].key);
        PutSorted(es[1..], k, v);
        PutMembers(es[1..], k, v);
        assert [es[0]] + es[1..] == es;
        ConsSorted(es[0], es[1..], Put(es[1..], k, v), k, v);
      }
    }
  }

  lemma ConsSorted(head: Pair, tail: seq<Pair>, rest: seq<Pair>, k: Text, v: Value)
    requires Sorted([head] + tail) && Sorted(rest) && Less(head.key, k)
    requires forall i :: 0 <= i < |rest| ==> rest[i] == Pair(k, v) || rest[i] in tail
    ensures Sorted([head] + rest)
  {
    var es := [head] + tail;
    forall i | 0 <= i < |rest|
      ensures Less(head.key, rest[i].key)
    {
      if rest[i] in tail {
        var m :| 0 <= m < |tail| && tail[m] == rest[i];
        assert es[0] == head && es[m + 1] == rest[i];
      }
    }
  }

  lemma PutLaw(es: seq<Pair>, k: Text, v: Value)
    requires Sorted(es)
    ensures Sorted(Put(es, k, v))
    ensures forall j :: Find(Put(es, k, v), j) == if j == k then Some(v) else Find(es, j)
  {
    PutSorted(es, k, v);
    forall j
      ensures Find(Put(es, k, v), j) == if j == k then Some(v) else Find(es, j)
    {
      PutFind(es, k, v, j);
    }
  }

  lemma PutFrontSorted(es: seq<Pair>, k: Text, v: Value)
    requires Sorted(es) && es != [] && Less(k, es[0].key)
    ensures Sorted([Pair(k, v)] + es)
  {
    var all := [Pair(k, v)] + es;
    forall i, j | 0 <= i < j < |all|
      ensures Less(all[i].key, all[j].key)
    {
      if i == 0 && j > 1 {
        LessTransitive(k, es[0].key, es[j - 1].key);
      }
    }
  }

  /** A map is determined by its lookups: key order makes the entry list canonical. */
  lemma {:induction false} SortedExtensional(a: seq<Pair>, b: seq<Pair>)
    requires Sorted(a) && Sorted(b)
    requires forall k :: Find(a, k) == Find(b, k)
    ensures a == b
  {
    if a == [] || b == [] {
      if a != [] {
        SameLookup(a, b, a[0].key);
      }
      if b != [] {
        SameLookup(a, b, b[0].key);
      }
    } else {
      HeadKeysAgree(a, b);
      var k := a[0].key;
      assert Find(a, k) == Find(b, k);
      forall j
        ensures Find(a[1..], j) == Find(b[1..], j)
      {
        TailSkipsHead(a);
        TailSkipsHead(b);
        assert Find(a, j) == Find(b, j);
      }
      SortedExtensional(a[1..], b[1..]);
      assert a == [a[0]] + a[1..] && b == [b[0]] + b[1..];
    }
  }

  lemma SameLookup(a: seq<Pair>, b: seq<Pair>, k: Text)
    requires forall j :: Find(a, j) == Find(b, j)
    ensures Find(a, k) == Find(b, k)
  {
  }

  lemma TailSkipsHead(a: seq<Pair>)
    requires Sorted(a) && a != []
    ensures Find(a[1..], a[0].key) == None
  {
    forall i | 0 <= i < |a[1..]|
      ensures a[1..][i].key != a[0].key
    {
      LessTotal(a[0].key, a[i + 1].key);
    }
    FindAbsent(a[1..], a[0].key);
  }

  lemma HeadKeysAgree(a: seq<Pair>, b: seq<Pair>)
    requires Sorted(a) && Sorted(b) && a != [] && b != []
    requires forall k :: Find(a, k) == Find(b, k)
    ensures a[0].key == b[0].key
  {
    if Less(a[0].key, b[0].key) {
      BelowHead(b, a[0].key);
      SameLookup(a, b, a[0].key);
    } else if Less(b[0].key, a[0].key) {
      BelowHead(a, b[0].key);
      SameLookup(a, b, b[0].key);
    } else {
      LessTotal(a[0].key, b[0].key);
    }
  }

  lemma BelowHead(a: seq<Pair>, k: Text)
    requires Sorted(a) && a != [] && Less(k, a[0].key)
    ensures Find(a, k) == None
  {
    forall i | 0 <= i < |a|
      ensures a[i].key != k
    {
      LessTotal(k, a[i].key);
      if i > 0 {
        LessTransitive(k, a[0].key, a[i].key);
      }
    }
    FindAbsent(a, k);
  }

  // --- Merging ----------------------------------------------------------------------------

  function PutAll(es: seq<Pair>, news: seq<Pair>): seq<Pair>
    decreases |news|
  {
    if news == [] then es else PutAll(Put(es, news[0].key, news[0].value), news[1..])
  }

  function MergeTop(existing: Value, incoming: Value): Value {
    if existing.Map? && incoming.Map? then Map(PutAll(existing.entries, incoming.entries)) else incoming
  }

  function MergeDeep(existing: Value, incoming: Value): Value
    decreases incoming, 1
  {
    match (existing, incoming)
    case (Map(olds), Map(news)) => Map(MergeEntries(olds, news))
    case (Array(olds), Array(news)) => Array(olds + news)
    case _ => incoming
  }

  function MergeEntries(es: seq<Pair>, news: seq<Pair>): seq<Pair>
    decreases news, 0
  {
    if news == [] then es
    else MergeEntries(Put(es, news[0].key, Combine(Find(es, news[0].key), news[0].value)), news[1..])
  }

  /** The value one key receives in a deep merge. */
  function Combine(previous: Option<Value>, v: Value): Value
    decreases v, 2
  {
    match previous
    case None => v
    case Some(prev) => MergeDeep(prev, v)
  }

  // --- What the merges promise ------------------------------------------------------------------

  /** The documented result of a top-level merge: per key the new value, else the old one. */
  ghost predicate IsTopMerge(existing: Value, incoming: Value, r: Value) {
    if existing.Map? && incoming.Map? then
      && r.Map? && Sorted(r.entries)
      && forall k :: Find(r.entries, k) ==
           if Find(incoming.entries, k).Some? then Find(incoming.entries, k) else Find(existing.entries, k)
    else r == incoming
  }

  /** The items of `a` followed by those of `b`. */
  ghost predicate IsConcat(a: seq<Value>, b: seq<Value>, r: seq<Value>) {
    && |r| == |a| + |b|
    && (forall i :: 0 <= i < |a| ==> r[i] == a[i])
    && (forall j :: 0 <= j < |b| ==> r[|a| + j] == b[j])
  }

  /**
    The documented result of a deep merge: maps merge key by key, recursing on keys in both; arrays
    concatenate, the existing items first; any other pair gives the new value.
  */
  ghost predicate IsDeepMerge(existing: Value, incoming: Value, r: Value)
    decreases incoming
  {
    if existing.Map? && incoming.Map? then
      && r.Map? && Sorted(r.entries)
      && (forall i :: 0 <= i < |incoming.entries| ==>
            Find(r.entries, incoming.entries[i].key).Some? &&
            var v := Find(r.entries, incoming.entries[i].key).value;
            if Find(existing.entries, incoming.entries[i].key).Some?
            then IsDeepMerge(Find(existing.entries, incoming.entries[i].key).value, incoming.entries[i].value, v)
            else v == incoming.entries[i].value)
      && (forall k :: Find(incoming.entries, k).None? ==> Find(r.entries, k) == Find(existing.entries, k))
    else if existing.Array? && incoming.Array? then
      r.Array? && IsConcat(existing.items, incoming.items, r.items)
    else r == incoming
  }

  lemma {:induction false} FindAt(es: seq<Pair>, i: nat)
    requires Sorted(es) && i < |es|
    ensures Find(es, es[i].key) == Some(es[i].value)
  {
    if i > 0 {
      LessTotal(es[0].key, es[i].key);
      FindAt(es[1..], i - 1);
    }
  }

  lemma FoundWellFormed(es: seq<Pair>, k: Text)
    requires WellFormed(Map(es)) && Find(es, k).Some?
    ensures WellFormed(Find(es, k).value)
  {
    FindMember(es, k);
  }

  lemma MergeTopMeans(existing: Value, incoming: Value)
    requires WellFormed(existing) && WellFormed(incoming)
    ensures IsTopMerge(existing, incoming, MergeTop(existing, incoming))
  {
    if existing.Map? && incoming.Map? {
      MergeTopLaw(existing.entries, incoming.entries);
    }
  }

  lemma {:induction false} MergeDeepMeans(existing: Value, incoming: Value)
    requires WellFormed(existing) && WellFormed(incoming)
    ensures IsDeepMerge(existing, incoming, MergeDeep(existing, incoming))
    decreases incoming
  {
    if existing.Map? && incoming.Map? {
      var olds, news := existing.entries, incoming.entries;
      MergeDeepLaw(olds, news);
      forall i | 0 <= i < |news|
        ensures Find(news, news[i].key) == Some(news[i].value)
        ensures Find(olds, news[i].key).Some? ==>
                  IsDeepMerge(Find(olds, news[i].key).value, news[i].value,
                              MergeDeep(Find(olds, news[i].key).value, news[i].value))
      {
        FindAt(news, i);
        if Find(olds, news[i].key).Some? {
          FoundWellFormed(olds, news[i].key);
          MergeDeepMeans(Find(olds, news[i].key).value, news[i].value);
        }
      }
    }
  }

  /** The documented result is the only one: it determines the merge. */
  lemma {:induction false} MergeDeepUnique(existing: Value, incoming: Value, r: Value)
    requires WellFormed(existing) && WellFormed(incoming) && IsDeepMerge(existing, incoming, r)
    ensures r == MergeDeep(existing, incoming)
    decreases incoming
  {
    if existing.Map? && incoming.Map? {
      var olds, news := existing.entries, incoming.entries;
      MergeDeepLaw(olds, news);
      forall k
        ensures Find(r.entries, k) == Find(MergeEntries(olds, news), k)
      {
        if Find(news, k).Some? {
          FindMember(news, k);
          var i :| 0 <= i < |news| && news[i] == Pair(k, Find(news, k).value);
          if Find(olds, k).Some? {
            FoundWellFormed(olds, k);
            MergeDeepUnique(Find(olds, k).value, news[i].value, Find(r.entries, k).value);
          }
        }
      }
      SortedExtensional(r.entries, MergeEntries(olds, news));
    } else if existing.Array? && incoming.Array? {
      assert r.items == existing.items + incoming.items;
    }
  }

  /** `Value::merge_top_level`, with the source's loop over the new map. */
  method MergeTopLevelLoop(existing: Value, incoming: Value) returns (r: Value)
    ensures r == MergeTop(existing, incoming)
    ensures WellFormed(existing) && WellFormed(incoming) ==> IsTopMerge(existing, incoming, r)
  {
    if WellFormed(existing) && WellFormed(incoming) {
      MergeTopMeans(existing, incoming);
    }
    if existing.Map? && incoming.Map? {
      var merged := existing.entries;
      var i := 0;
      while i < |incoming.entries|
        invariant i <= |incoming.entries|
        invariant PutAll(merged, incoming.entries[i..]) == PutAll(existing.entries, incoming.entries)
      {
        merged := Put(merged, incoming.entries[i].key, incoming.entries[i].value);
        i := i + 1;
      }
      return Map(merged);
    }
    return incoming;
  }

  /** `Value::merge_deep`, with the source's loop over the new map. */
  method MergeDeepLoop(existing: Value, incoming: Value) returns (r: Value)
    ensures r == MergeDeep(existing, incoming)
    ensures WellFormed(existing) && WellFormed(incoming) ==> IsDeepMerge(existing, incoming, r)
    ensures existing.Array? && incoming.Array? ==> r.Array? && IsConcat(existing.items, incoming.items, r.items)
    decreases incoming
  {
    if WellFormed(existing) && WellFormed(incoming) {
      MergeDeepMeans(existing, incoming);
    }
    match (existing, incoming)
    case (Map(olds), Map(news)) =>
      var merged := olds;
      var i := 0;
      while i < |news|
        invariant i <= |news|
        invariant MergeEntries(merged, news[i..]) == MergeEntries(olds, news)
      {
        var combined := news[i].value;
        match Find(merged, news[i].key) {
          case Some(prev) => combined := MergeDeepLoop(prev, news[i].value);
          case None =>
        }
        merged := Put(merged, news[i].key, combined);
        i := i + 1;
      }
      return Map(merged);
    case (Array(olds), Array(news)) =>
      return Array(olds + news);
    case _ =>
      return incoming;
  }

  /** The lookup law of the top-level merge: the new map wins, the old one fills the gaps. */
  lemma {:induction false} MergeTopLaw(es: seq<Pair>, news: seq<Pair>)
    requires Sorted(es) && Sorted(news)
    ensures Sorted(PutAll(es, news))
    ensures forall k :: Find(PutAll(es, news), k) == if Find(news, k).Some? then Find(news, k) else Find(es, k)
    decreases |news|
  {
    if news != [] {
      var head := news[0];
      PutLaw(es, head.key, head.value);
      TailSkipsHead(news);
      MergeTopLaw(Put(es, head.key, head.value), news[1..]);
    }
  }

  /** The lookup law of the deep merge: keys in both maps merge recursively. */
  lemma {:induction false} MergeDeepLaw(es: seq<Pair>, news: seq<Pair>)
    requires Sorted(es) && Sorted(news)
    ensures Sorted(MergeEntries(es, news))
    ensures forall k :: Find(MergeEntries(es, news), k) ==
              if Find(news, k).Some? then Some(Combine(Find(es, k), Find(news, k).value)) else Find(es, k)
    decreases |news|
  {
    if news != [] {
      var head := news[0];
      var es' := Put(es, head.key, Combine(Find(es, head.key), head.value));
      PutLaw(es, head.key, Combine(Find(es, head.key), head.value));
      TailSkipsHead(news);
      MergeDeepLaw(es', news[1..]);
    }
  }

  /** Both merges keep every nested map in key order. */
  lemma {:induction false} MergeDeepWellFormed(existing: Value, incoming: Value)
    requires WellFormed(existing) && WellFormed(incoming)
    ensures WellFormed(MergeDeep(existing, incoming))
    decreases incoming, 1
  {
    if existing.Map? && incoming.Map? {
      MergeEntriesWellFormed(existing.entries, incoming.entries);
    } else if existing.Array? && incoming.Array? {
      var all := existing.items + incoming.items;
      forall i | 0 <= i < |all|
        ensures WellFormed(all[i])
      {
        if i >= |existing.items| {
          assert all[i] == incoming.items[i - |existing.items|];
        }
      }
    }
  }

  lemma {:induction false} MergeEntriesWellFormed(es: seq<Pair>, news: seq<Pair>)
    requires WellFormed(Map(es)) && WellFormed(Map(news))
    ensures WellFormed(Map(MergeEntries(es, news)))
    decreases news, 0
  {
    if news != [] {
      var head := news[0];
      var previous := Find(es, head.key);
      FindMember(es, head.key);
      var combined := Combine(previous, head.value);
      assert WellFormed(combined) by {
        if previous.Some? {
          MergeDeepWellFormed(previous.value, head.value);
        }
      }
      PutWellFormed(es, head.key, combined);
      MergeEntriesWellFormed(Put(es, head.key, combined), news[1..]);
    }
  }

  lemma {:induction false} FindMember(es: seq<Pair>, k: Text)
    ensures Find(es, k).Some? ==> exists i :: 0 <= i < |es| && es[i] == Pair(k, Find(es, k).value)
  {
    if es != [] && es[0].key != k {
      FindMember(es[1..], k);
      if Find(es, k).Some? {
        var i :| 0 <= i < |es[1..]| && es[1..][i] == Pair(k, Find(es, k).value);
        assert es[i + 1] == Pair(k, Find(es, k).value);
      }
    } else if es != [] {
      assert es[0] == Pair(k, Find(es, k).value);
    }
  }

  lemma PutWellFormed(es: seq<Pair>, k: Text, v: Value)
    requires WellFormed(Map(es)) && WellFormed(v)
    ensures WellFormed(Map(Put(es, k, v)))
  {
    PutSorted(es, k, v);
    PutMembers(es, k, v);
    var all := Put(es, k, v);
    forall i | 0 <= i < |all|
      ensures WellFormed(all[i].value)
    {
      if all[i] in es {
        var j :| 0 <= j < |es| && es[j] == all[i];
      }
    }
  }
}
