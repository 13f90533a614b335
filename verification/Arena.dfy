/** `src/tree.rs`: the search tree as a flat array of nodes, updated in place. */
module Arena {
  import opened Prelude
  import opened Bits
  import opened Values
  import opened Pools
  import opened Tries
  import opened Aliases
  import opened Shapes
  import opened Layout

  // --- Leaf operations ------------------------------------------------------------------------

  /** The two closures that `Writer` passes down: store a known id, or rewrite the value. */
  datatype LeafOp = Store(id: nat) | Rewrite(op: Op)

  /** At value level the closure is the function `f`. */
  ghost predicate Implements(op: LeafOp, f: Op, values: seq<Value>) {
    match op
    case Store(id) => id < |values| && forall o :: f(o) == Some(values[id])
    case Rewrite(g) => f == g
  }

  /** Call the closure on the id at a leaf. */
  method CallOp(op: LeafOp, existing: Option<nat>, pool: ValuePool, ghost f: Op) returns (r: Option<nat>)
    requires pool.Valid() && Implements(op, f, pool.values)
    requires existing.Some? ==> existing.value < |pool.values|
    modifies pool
    ensures pool.Valid() && old(pool.values) <= pool.values
    ensures r.Some? ==> r.value < |pool.values|
    ensures (if r.Some? then Some(pool.values[r.value]) else None)
         == f(if existing.Some? then Some(old(pool.values)[existing.value]) else None)
  {
    match op
    case Store(id) =>
      r := Some(id);
    case Rewrite(g) =>
      var previous: Option<Value> := None;
      if existing.Some? {
        var v := pool.Get(existing.value);
        previous := Some(v);
      }
      match g(previous) {
        case None => r := None;
        case Some(v) =>
          var id := pool.Intern(v);
          r := Some(id);
      }
  }

  // --- Insertion, one level at a time -----------------------------------------------------------

  /** What is left of the prefix for a record at depth `d`. */
  function Rest(bits: Bits, d: nat, plen: nat): Bits
    requires plen <= |bits|
  {
    if d <= plen then bits[d..plen] else []
  }

  /** What becomes of the child on side `b` of a node at depth `d`. */
  function Side(t: Trie, b: bool, d: nat, bits: Bits, plen: nat, f: Op): Trie
    requires plen <= |bits|
  {
    if d >= plen || bits[d] == b then Insert(t, Rest(bits, d + 1, plen), f) else t
  }

  /** Inserting at a node is inserting on its sides and merging. */
  lemma InsertBySides(t: Trie, d: nat, bits: Bits, plen: nat, f: Op)
    requires plen <= |bits|
    ensures t.Branch? ==>
              var l, r := Side(t.left, false, d, bits, plen, f), Side(t.right, true, d, bits, plen, f);
              Insert(t, Rest(bits, d, plen), f) == if t.fixed then Branch(true, l, r) else Fuse(l, r)
    ensures t.Empty? || t.Leaf? ==>
              Insert(t, Rest(bits, d, plen), f)
              == Fuse(Side(t, false, d, bits, plen, f), Side(t, true, d, bits, plen, f))
  {
    if d < plen {
      assert Rest(bits, d, plen)[0] == bits[d];
      assert Rest(bits, d, plen)[1..] == Rest(bits, d + 1, plen);
    }
  }

  function Nat(i: int): nat {
    if i < 0 then 0 else i
  }

  class Tree {
    var nodes: seq<ArenaNode>

    ghost var shape: Shape
    ghost var target: nat

    /** The reachable nodes form a tree rooted at node 0 whose ids name the first `n` pool values. */
    ghost predicate Valid(n: nat)
      reads this
    {
      shape.Fork? && shape.idx == 0 && !shape.fixed && Stands(nodes, shape, n, target)
    }

    /** The trie that the array represents. */
    ghost function Model(values: seq<Value>): Trie
      reads this
    {
      View(shape, values)
    }

    constructor ()
      ensures nodes == [EMPTY_NODE]
      ensures Valid(0) && Model([]) == NODE && NoAliases(shape)
    {
      nodes := [EMPTY_NODE];
      shape := Fork(0, false, Tip(NoData), Tip(NoData));
      target := 0;
      new;
      assert Holds(nodes, Tip(NoData));
    }

    /** A copy to compact and serialize while the original stays as it is. */
    constructor Clone(other: Tree)
      ensures nodes == other.nodes && shape == other.shape && target == other.target
    {
      nodes := other.nodes;
      shape := other.shape;
      target := other.target;
    }

    method AllocNode(node: ArenaNode) returns (idx: nat)
      modifies this`nodes
      ensures idx == |old(nodes)| && nodes == old(nodes) + [node]
    {
      idx := |nodes|;
      nodes := nodes + [node];
    }

    method SetRecord(idx: nat, bit: bool, r: Record)
      requires idx < |nodes|
      modifies this`nodes
      ensures nodes == old(nodes)[idx := SetChild(old(nodes)[idx], bit, r)]
    {
      nodes := nodes[idx := SetChild(nodes[idx], bit, r)];
    }

    method TryMergeNode(idx: nat) returns (merged: Option<Record>)
      requires idx < |nodes|
      ensures merged == if nodes[idx].left == nodes[idx].right && IsLeafRecord(nodes[idx].left)
                        then Some(nodes[idx].left) else None
    {
      var node := nodes[idx];
      if node.left == node.right && IsLeafRecord(node.left) {
        merged := Some(node.left);
      } else {
        merged := None;
      }
    }

    /** `insert_at_node`: both children below the prefix, one of them above its end. */
    method InsertAtNode(idx: nat, depth: nat, bits: Bits, plen: nat, op: LeafOp, pool: ValuePool,
                        ghost f: Op, ghost k: nat, ghost s: Shape) returns (ghost s': Shape)
      requires s.Fork? && s.idx == idx && Stands(nodes, s, |pool.values|, k)
      requires plen <= |bits| && pool.Valid() && Implements(op, f, pool.values)
      modifies this`nodes, pool
      ensures pool.Valid() && old(pool.values) <= pool.values
      ensures s'.Fork? && s'.idx == idx && s'.fixed == s.fixed && Stands(nodes, s', |pool.values|, k)
      ensures Frame(old(nodes), nodes, Ids(s)) && Grown(s, s', |old(nodes)|, |nodes|)
      ensures View(s'.left, pool.values) == Side(View(s.left, old(pool.values)), false, depth, bits, plen, f)
      ensures View(s'.right, pool.values) == Side(View(s.right, old(pool.values)), true, depth, bits, plen, f)
      decreases Size(s) - 1, Nat(plen + 1 - depth), 2
    {
      var newDepth := depth + 1;
      if newDepth > plen {
        ghost var m := InsertAtRecord(idx, false, newDepth, bits, plen, op, pool, f, k, s);
        s' := InsertAtRecord(idx, true, newDepth, bits, plen, op, pool, f, k, m);
      } else {
        s' := InsertAtRecord(idx, bits[depth], newDepth, bits, plen, op, pool, f, k, s);
      }
    }

    /** `insert_at_record`: the record on side `which` of node `idx`, itself at depth `newDepth`. */
    method InsertAtRecord(idx: nat, which: bool, newDepth: nat, bits: Bits, plen: nat, op: LeafOp,
                          pool: ValuePool, ghost f: Op, ghost k: nat, ghost s: Shape) returns (ghost s': Shape)
      requires s.Fork? && s.idx == idx && Stands(nodes, s, |pool.values|, k)
      requires plen <= |bits| && pool.Valid() && Implements(op, f, pool.values)
      modifies this`nodes, pool
      ensures pool.Valid() && old(pool.values) <= pool.values
      ensures s'.Fork? && s'.idx == idx && s'.fixed == s.fixed && Stands(nodes, s', |pool.values|, k)
      ensures Frame(old(nodes), nodes, Ids(s)) && Grown(s, s', |old(nodes)|, |nodes|)
      ensures SideOf(s', !which) == SideOf(s, !which)
      ensures View(s', pool.values) ==
              WithChild(View(s, old(pool.values)), which,
                        Insert(Child(View(s, old(pool.values)), which), Rest(bits, newDepth, plen), f))
      decreases Size(SideOf(s, which)), Nat(plen + 2 - newDepth), 1
    {
      var record := ChildOf(nodes[idx], which);
      ghost var c := SideOf(s, which);
      ghost var before, values := nodes, pool.values;
      ghost var c': Shape;
      assert RecordOf(c) == record && Stands(nodes, c, |values|, k);
      if record.Alias? || record.Reserved? {
        return s;
      } else if record.Node? || record.FixedNode? {
        c' := Descend(idx, which, newDepth, bits, plen, op, pool, f, k, s);
      } else if newDepth > plen {
        c' := UpdateLeaf(idx, which, op, pool, f, k, s);
      } else {
        c' := SplitLeaf(idx, which, newDepth, bits, plen, op, pool, f, k, s);
      }
      Reassemble(before, nodes, s, which, c', values, pool.values, k);
      s' := WithSide(s, which, c');
    }

    /** The record is a node: insert there, and merge it afterwards unless it is pinned. */
    method Descend(idx: nat, which: bool, newDepth: nat, bits: Bits, plen: nat, op: LeafOp, pool: ValuePool,
                   ghost f: Op, ghost k: nat, ghost s: Shape) returns (ghost c: Shape)
      requires s.Fork? && s.idx == idx && Stands(nodes, s, |pool.values|, k)
      requires ChildOf(nodes[idx], which).Node? || ChildOf(nodes[idx], which).FixedNode?
      requires plen <= |bits| && pool.Valid() && Implements(op, f, pool.values)
      modifies this`nodes, pool
      ensures pool.Valid() && old(pool.values) <= pool.values
      ensures Stands(nodes, c, |pool.values|, k)
      ensures Frame(old(nodes), nodes, Ids(SideOf(s, which)) + {idx})
      ensures Grown(SideOf(s, which), c, |old(nodes)|, |nodes|)
      ensures nodes[idx] == SetChild(old(nodes)[idx], which, RecordOf(c))
      ensures View(c, pool.values) ==
              Insert(View(SideOf(s, which), old(pool.values)), Rest(bits, newDepth, plen), f)
      decreases Size(SideOf(s, which)), Nat(plen + 2 - newDepth), 0
    {
      var record := ChildOf(nodes[idx], which);
      c := SideOf(s, which);
      assert RecordOf(c) == record && Holds(nodes, c) && c.Fork?;
      InsertBySides(View(c, pool.values), newDepth, bits, plen, f);
      c := InsertAtNode(record.idx, newDepth, bits, plen, op, pool, f, k, c);
      if record.Node? {
        c := MergeChild(idx, which, record.idx, pool, k, c);
      }
    }

    /** At or past the prefix end: apply the operation to the leaf on side `which`. */
    method UpdateLeaf(idx: nat, which: bool, op: LeafOp, pool: ValuePool, ghost f: Op, ghost k: nat,
                      ghost s: Shape) returns (ghost c: Shape)
      requires s.Fork? && s.idx == idx && Stands(nodes, s, |pool.values|, k)
      requires ChildOf(nodes[idx], which).NoData? || ChildOf(nodes[idx], which).Data?
      requires pool.Valid() && Implements(op, f, pool.values)
      modifies this`nodes, pool
      ensures pool.Valid() && old(pool.values) <= pool.values
      ensures c.Tip? && Stands(nodes, c, |pool.values|, k)
      ensures Frame(old(nodes), nodes, {idx}) && nodes[idx] == SetChild(old(nodes)[idx], which, c.rec)
      ensures View(c, pool.values) == Insert(View(SideOf(s, which), old(pool.values)), [], f)
    {
      var record := ChildOf(nodes[idx], which);
      assert SideOf(s, which) == Tip(record) && Linked(SideOf(s, which), |pool.values|, k);
      match record
      case NoData =>
        var r := CallOp(op, None, pool, f);
        if r.Some? {
          SetRecord(idx, which, Data(r.value));
          c := Tip(Data(r.value));
        } else {
          c := Tip(NoData);
        }
      case Data(oldId) =>
        var r := CallOp(op, Some(oldId), pool, f);
        var leaf := if r.Some? then Data(r.value) else NoData;
        SetRecord(idx, which, leaf);
        c := Tip(leaf);
    }

    /** Above the prefix end: a fresh node carries the leaf twice, and the walk goes on inside it. */
    method SplitLeaf(idx: nat, which: bool, newDepth: nat, bits: Bits, plen: nat, op: LeafOp, pool: ValuePool,
                     ghost f: Op, ghost k: nat, ghost s: Shape) returns (ghost c: Shape)
      requires s.Fork? && s.idx == idx && Stands(nodes, s, |pool.values|, k)
      requires ChildOf(nodes[idx], which).NoData? || ChildOf(nodes[idx], which).Data?
      requires newDepth <= plen <= |bits| && pool.Valid() && Implements(op, f, pool.values)
      modifies this`nodes, pool
      ensures pool.Valid() && old(pool.values) <= pool.values
      ensures Stands(nodes, c, |pool.values|, k)
      ensures Frame(old(nodes), nodes, {idx}) && Grown(SideOf(s, which), c, |old(nodes)|, |nodes|)
      ensures nodes[idx] == SetChild(old(nodes)[idx], which, RecordOf(c))
      ensures View(c, pool.values) ==
              Insert(View(SideOf(s, which), old(pool.values)), Rest(bits, newDepth, plen), f)
      decreases 0, Nat(plen + 2 - newDepth) - 1, 3
    {
      var record := ChildOf(nodes[idx], which);
      ghost var t := SideOf(s, which);
      assert t == Tip(record) && Linked(t, |pool.values|, k) && Size(t) == 0;
      InsertBySides(View(t, pool.values), newDepth, bits, plen, f);
      var newIdx := AllocNode(if record.NoData? then EMPTY_NODE else ArenaNode(record, record));
      SetRecord(idx, which, Node(newIdx));
      c := Fork(newIdx, false, t, t);
      c := InsertAtNode(newIdx, newDepth, bits, plen, op, pool, f, k, c);
      c := MergeChild(idx, which, newIdx, pool, k, c);
    }

    /** Collapse the pointer to a child whose two records are the same leaf. */
    method MergeChild(idx: nat, which: bool, child: nat, pool: ValuePool, ghost k: nat, ghost c: Shape)
      returns (ghost c': Shape)
      requires idx < |nodes| && c.Fork? && c.idx == child && !c.fixed && idx !in Ids(c)
      requires pool.Valid() && Stands(nodes, c, |pool.values|, k)
      requires ChildOf(nodes[idx], which) == RecordOf(c)
      modifies this`nodes
      ensures Stands(nodes, c', |pool.values|, k) && (c' == c || Ids(c') == {})
      ensures |nodes| == |old(nodes)| && Frame(old(nodes), nodes, {idx})
      ensures nodes[idx] == SetChild(old(nodes)[idx], which, RecordOf(c'))
      ensures View(c', pool.values) == Fuse(View(c.left, pool.values), View(c.right, pool.values))
    {
      pool.IdsAreDistinct();
      assert Holds(nodes, c.left) && Holds(nodes, c.right);
      MergeMatchesFuse(c.left, c.right, pool.values, k);
      c' := c;
      var merged := TryMergeNode(child);
      if merged.Some? {
        SetRecord(idx, which, merged.value);
        c' := Tip(merged.value);
      }
    }

    /** `insert`: apply the operation at every leaf under the first `plen` bits. */
    method InsertPrefix(bits: Bits, plen: nat, op: LeafOp, pool: ValuePool, ghost f: Op)
      requires Valid(|pool.values|) && pool.Valid()
      requires plen <= |bits| && Implements(op, f, pool.values)
      modifies this, pool
      ensures pool.Valid() && old(pool.values) <= pool.values
      ensures Valid(|pool.values|) && target == old(target)
      ensures Model(pool.values) == InsertRoot(old(Model(pool.values)), bits[..plen], f)
    {
      shape := InsertAtNode(0, 0, bits, plen, op, pool, f, target, shape);
      assert plen > 0 ==> bits[..plen][0] == bits[0] && bits[..plen][1..] == bits[1..plen];
    }

    // --- Markers ------------------------------------------------------------------------------

    /** Overwrite one record, given how the shape changes. */
    method UpdateRecord(idx: nat, bit: bool, r: Record, ghost before: seq<ArenaNode>, ghost path: Bits,
                        ghost cur: Shape, ghost c: Shape, ghost values: seq<Value>)
      requires shape.Fork? && shape.idx == 0 && !shape.fixed && Stands(before, shape, |values|, target)
      requires Reaches(shape, path, cur) && cur.Fork? && cur.idx == idx < |before|
      requires |before| <= |nodes| && Frame(before, nodes, {}) && RecordOf(c) == r
      requires Stands(nodes, c, |values|, target) && Grown(SideOf(cur, bit), c, |before|, |nodes|)
      modifies this
      ensures nodes == old(nodes)[idx := SetChild(old(nodes)[idx], bit, r)] && target == old(target)
      ensures Valid(|values|) && shape == ReplaceAt(old(shape), path, WithSide(cur, bit, c))
      ensures Reaches(shape, path, WithSide(cur, bit, c))
      ensures Model(values) ==
              Replace(old(Model(values)), path, WithChild(View(cur, values), bit, View(c, values)))
    {
      ReachesStands(before, shape, |values|, target, path, cur);
      IdsInRange(before, cur);
      SetRecord(idx, bit, r);
      HoldsFrame(old(nodes), nodes, c);
      UpdateAt(before, nodes, shape, path, cur, bit, c, values, target);
      shape := ReplaceAt(shape, path, WithSide(cur, bit, c));
    }

    ghost function MarkerTip(marker: Record): Trie {
      if marker.Reserved? then Trie.Reserved else Trie.Alias
    }

    /**
      `install_marker`: walk the prefix, creating empty nodes, and set its last record unless the
      way is occupied. With `keep`, a node `v` whose path `z` is no prefix of the marker's stays in place.
    */
    method InstallMarker(bits: Bits, plen: nat, marker: Record, ghost values: seq<Value>,
                         ghost keep: bool, ghost z: Bits, ghost v: Shape)
      requires Valid(|values|) && plen <= |bits|
      requires marker.Reserved? || (marker.Alias? && marker.idx == target)
      requires keep ==> Reaches(shape, z, v) && v.Fork? && !(z <= bits[..plen])
      modifies this
      ensures Valid(|values|) && target == old(target) && (keep ==> Reaches(shape, z, v))
      ensures Model(values) == Mark(old(Model(values)), bits[..plen], MarkerTip(marker))
    {
      ghost var p, m := bits[..plen], MarkerTip(marker);
      var nodeIdx := 0;
      var i := 0;
      ghost var cur := shape;
      while i < plen
        invariant i <= plen && (i == plen ==> plen == 0)
        invariant Valid(|values|) && target == old(target) && (keep ==> Reaches(shape, z, v))
        invariant Reaches(shape, bits[..i], cur) && cur.Fork? && cur.idx == nodeIdx
        invariant Mark(Model(values), p, m) == Mark(old(Model(values)), p, m)
      {
        var bit := bits[i];
        var isLast := i == plen - 1;
        ghost var path := bits[..i];
        ReachesStands(nodes, shape, |values|, target, path, cur);
        ReachesView(shape, path, cur, values);
        assert p == path + bits[i..plen];
        MarkStep(Model(values), path, bits[i..plen], m);
        if keep {
          PrefixOfPrefix(z, bits, i, plen);
        }
        var record := ChildOf(nodes[nodeIdx], bit);
        assert record == RecordOf(SideOf(cur, bit)) && Stands(nodes, SideOf(cur, bit), |values|, target);
        if isLast {
          assert bits[i..plen] == [bit];
          PlaceMarker(nodeIdx, bit, marker, path, cur, values, keep, z, v);
          return;
        }
        if record.Node? || record.FixedNode? {
          nodeIdx := record.idx;
          ReachesStep(shape, path, cur, bit);
          cur := SideOf(cur, bit);
        } else if record.NoData? {
          nodeIdx, cur := ExtendPath(nodeIdx, bit, path, cur, values, keep, z, v);
        } else {
          return;
        }
        assert bits[..i + 1] == path + [bit];
        i := i + 1;
      }
    }

    /** The last step of the walk: set the record if it is empty. */
    method PlaceMarker(idx: nat, bit: bool, marker: Record, ghost path: Bits, ghost cur: Shape,
                       ghost values: seq<Value>, ghost keep: bool, ghost z: Bits, ghost v: Shape)
      requires Valid(|values|) && Reaches(shape, path, cur) && cur.Fork? && cur.idx == idx < |nodes|
      requires marker.Reserved? || (marker.Alias? && marker.idx == target)
      requires Stands(nodes, SideOf(cur, bit), |values|, target)
      requires ChildOf(nodes[idx], bit) == RecordOf(SideOf(cur, bit))
      requires keep ==> Reaches(shape, z, v) && v.Fork? && !(z <= path)
      modifies this
      ensures Valid(|values|) && target == old(target) && (keep ==> Reaches(shape, z, v))
      ensures Model(values) == Mark(old(Model(values)), path + [bit], MarkerTip(marker))
    {
      ReachesView(shape, path, cur, values);
      MarkStep(Model(values), path, [bit], MarkerTip(marker));
      if ChildOf(nodes[idx], bit).NoData? {
        if keep {
          ReachesElsewhere(shape, path, cur, bit, Tip(marker), z, v);
        }
        UpdateRecord(idx, bit, marker, nodes, path, cur, Tip(marker), values);
      }
    }

    /** Hang a fresh empty node under an empty record. */
    method ExtendPath(idx: nat, bit: bool, ghost path: Bits, ghost cur: Shape, ghost values: seq<Value>,
                      ghost keep: bool, ghost z: Bits, ghost v: Shape) returns (newIdx: nat, ghost c: Shape)
      requires Valid(|values|) && Reaches(shape, path, cur) && cur.Fork? && cur.idx == idx < |nodes|
      requires SideOf(cur, bit) == Tip(NoData)
      requires keep ==> Reaches(shape, z, v) && v.Fork? && !(z <= path)
      modifies this
      ensures Valid(|values|) && target == old(target) && (keep ==> Reaches(shape, z, v))
      ensures c.Fork? && c.idx == newIdx && Reaches(shape, path + [bit], c)
      ensures Model(values) == Replace(old(Model(values)), path, WithChild(View(cur, values), bit, NODE))
    {
      ghost var before := nodes;
      newIdx := AllocNode(EMPTY_NODE);
      c := Fork(newIdx, false, Tip(NoData), Tip(NoData));
      if keep {
        ReachesElsewhere(shape, path, cur, bit, c, z, v);
      }
      UpdateRecord(idx, bit, Node(newIdx), before, path, cur, c, values);
      ReachesStep(shape, path, WithSide(cur, bit, c), bit);
    }

    /** `install_ipv4_aliases`: pin the IPv4 root and point the three alias ranges at it. */
    method InstallIpv4Aliases(ghost values: seq<Value>)
      requires Valid(|values|) && NoAliases(shape)
      modifies this
      ensures Valid(|values|) && Anchored(shape, target)
      ensures Model(values) == InstallAliases(old(Model(values)))
    {
      var cursor := 0;
      ghost var cur := shape;
      var j := 0;
      while j < V4_DEPTH
        invariant j <= V4_DEPTH && Valid(|values|) && shape == old(shape) && Model(values) == old(Model(values))
        invariant Reaches(shape, Zeros(j), cur) && cur.Fork? && cur.idx == cursor
        invariant Stands(nodes, cur, |values|, target)
        invariant PlainWalk(Model(values), V4_DEPTH) == PlainWalk(View(cur, values), V4_DEPTH - j)
      {
        var record := nodes[cursor].left;
        assert record == RecordOf(cur.left) && Stands(nodes, cur.left, |values|, target);
        if !record.Node? {
          return;
        }
        cursor := record.idx;
        ReachesStep(shape, Zeros(j), cur, false);
        assert Zeros(j + 1) == Zeros(j) + [false];
        cur := cur.left;
        j := j + 1;
      }
      PinRoot(cursor, cur, values);
      AliasesApart();
      ghost var z, v := Zeros(V4_DEPTH), cur.(fixed := true);
      PadPrefix(MAPPED, 32);
      PadPrefix(TEREDO, 96);
      PadPrefix(SIX_TO_FOUR, 112);
      InstallMarker(MAPPED + Zeros(32), 96, Record.Alias(cursor), values, true, z, v);
      InstallMarker(TEREDO + Zeros(96), 32, Record.Alias(cursor), values, true, z, v);
      InstallMarker(SIX_TO_FOUR + Zeros(112), 16, Record.Alias(cursor), values, true, z, v);
    }

    /** Pin the node `v` at `::/96`, walking to its parent. */
    method PinRoot(root: nat, ghost v: Shape, ghost values: seq<Value>)
      requires Valid(|values|) && NoAliases(shape) && PlainWalk(Model(values), V4_DEPTH)
      requires Reaches(shape, Zeros(V4_DEPTH), v) && v.Fork? && v.idx == root
      modifies this
      ensures Valid(|values|) && target == root
      ensures Reaches(shape, Zeros(V4_DEPTH), v.(fixed := true))
      ensures Model(values) == Pin(old(Model(values)), V4_DEPTH)
    {
      var parent := 0;
      ghost var cur := shape;
      var j := 0;
      while j < V4_DEPTH - 1
        invariant j <= V4_DEPTH - 1 && shape == old(shape) && nodes == old(nodes) && target == old(target)
        invariant Reaches(shape, Zeros(j), cur) && cur.Fork? && cur.idx == parent
        invariant Stands(nodes, cur, |values|, target)
        invariant PlainWalk(View(cur, values), V4_DEPTH - j)
      {
        // The first walk has already met only ordinary nodes on this path.
        assert Holds(nodes, cur.left) && View(cur.left, values).Branch?;
        parent := nodes[parent].left.idx;
        ReachesStep(shape, Zeros(j), cur, false);
        assert Zeros(j + 1) == Zeros(j) + [false];
        cur := cur.left;
        j := j + 1;
      }
      ReachesStep(shape, Zeros(j), cur, false);
      assert Zeros(V4_DEPTH) == Zeros(j) + [false];
      ReachesUnique(shape, Zeros(V4_DEPTH), cur.left, v);
      Relink(shape, |values|, target, root);
      target := root;
      ReachesStands(nodes, shape, |values|, target, Zeros(j), cur);
      ReachesView(shape, Zeros(j), cur, values);
      PinIsReplace(Model(values), V4_DEPTH);
      ghost var pinned := v.(fixed := true);
      IdsInRange(nodes, cur);
      assert Stands(nodes, v, |values|, target);
      PinnedStands(nodes, v, |values|, target, values);
      UpdateRecord(parent, false, FixedNode(root), nodes, Zeros(j), cur, pinned, values);
      ReachesStep(shape, Zeros(j), WithSide(cur, false, pinned), false);
    }

    // --- Compaction ---------------------------------------------------------------------------

    /** `compact_node`: compact both sides; the result is a leaf if they agree. */
    method CompactNode(idx: nat, ghost s: Shape, ghost values: seq<Value>, ghost k: nat)
      returns (r: Record, ghost s': Shape)
      requires s.Fork? && s.idx == idx && Stands(nodes, s, |values|, k) && Distinct(values)
      modifies this`nodes
      ensures |nodes| == |old(nodes)| && Frame(old(nodes), nodes, Ids(s))
      ensures s'.Fork? && s'.idx == idx && s'.fixed == s.fixed && Collapsed(s, s')
      ensures Stands(nodes, s', |values|, k)
      ensures View(s'.left, values) == Compact(View(s.left, values))
      ensures View(s'.right, values) == Compact(View(s.right, values))
      ensures r == if RecordOf(s'.left) == RecordOf(s'.right) && IsLeafRecord(RecordOf(s'.left))
                   then RecordOf(s'.left) else Node(idx)
      decreases Size(s), 0
    {
      ghost var before := nodes;
      ghost var l, r': Shape;
      assert Stands(nodes, s.left, |values|, k) && Stands(nodes, s.right, |values|, k);
      var left, right;
      left, l := ResolveChild(nodes[idx].left, s.left, values, k);
      IdsInRange(before, s.right);
      HoldsFrame(before, nodes, s.right);
      ghost var middle := nodes;
      right, r' := ResolveChild(nodes[idx].right, s.right, values, k);
      CollapsedIds(s.left, l);
      CollapsedIds(s.right, r');
      IdsInRange(middle, l);
      HoldsFrame(middle, nodes, l);
      ghost var after := nodes;
      nodes := nodes[idx := ArenaNode(left, right)];
      HoldsFrame(after, nodes, l);
      HoldsFrame(after, nodes, r');
      s' := Fork(idx, s.fixed, l, r');
      if left == right && IsLeafRecord(left) {
        r := left;
      } else {
        r := Node(idx);
      }
    }

    /** `resolve_child`: a node may turn into a leaf, a pinned node keeps its marker. */
    method ResolveChild(record: Record, ghost s: Shape, ghost values: seq<Value>, ghost k: nat)
      returns (r: Record, ghost s': Shape)
      requires record == RecordOf(s) && Stands(nodes, s, |values|, k) && Distinct(values)
      modifies this`nodes
      ensures |nodes| == |old(nodes)| && Frame(old(nodes), nodes, Ids(s))
      ensures Collapsed(s, s') && Stands(nodes, s', |values|, k) && RecordOf(s') == r
      ensures View(s', values) == Compact(View(s, values))
      decreases Size(s), 1
    {
      s' := s;
      match record
      case Node(i) =>
        r, s' := CompactNode(i, s, values, k);
        CollapsedIds(s.left, s'.left);
        CollapsedIds(s.right, s'.right);
        assert Holds(nodes, s'.left) && Holds(nodes, s'.right);
        MergeMatchesFuse(s'.left, s'.right, values, k);
        if IsLeafRecord(r) {
          s' := Tip(r);
        }
      case FixedNode(i) =>
        var ignored: Record;
        ignored, s' := CompactNode(i, s, values, k);
        r := FixedNode(i);
      case _ =>
        r := record;
    }

    /**
      `compact`: collapse, then renumber. Every address keeps its meaning, exactly the reachable
      nodes remain, numbered in pre-order, and the alias target lands at its pre-order position.
    */
    method CompactTree(ghost values: seq<Value>)
      requires Valid(|values|) && Distinct(values) && Anchored(shape, target)
      modifies this
      ensures Valid(|values|) && Anchored(shape, target)
      ensures Model(values) == CompactRoot(old(Model(values)))
      ensures Packed(shape, 0) && |nodes| == Size(shape)
      ensures NoAliases(shape) || target == V4_DEPTH
    {
      var root: Record;
      ghost var s := shape;
      root, shape := CompactNode(0, shape, values, target);
      if !(root.Node? || root.FixedNode?) {
        ghost var compacted := nodes;
        assert nodes[0] == ArenaNode(root, root) && IsLeafRecord(root);
        nodes := nodes[0 := ArenaNode(root, root)];
        assert nodes == compacted;
      }
      CollapsedAnchored(s, shape, target, values);
      RenumberReachable(values);
    }

    /** The walk of `renumber_reachable`: visit nodes in pre-order, left before right. */
    method PreOrderWalk(ghost values: seq<Value>) returns (order: seq<nat>, oldToNew: map<nat, nat>)
      requires Valid(|values|)
      ensures order == PreOrder(shape)
      ensures forall j :: 0 <= j < |order| ==> order[j] < |nodes|
      ensures forall j :: 0 <= j < |order| ==> order[j] in oldToNew && oldToNew[order[j]] == j
    {
      oldToNew := map[];
      order := [];
      var stack: seq<nat> := [0];
      ghost var pending: seq<Shape> := [shape];
      ghost var all := PreOrder(shape);
      PreOrderIds(shape);
      assert pending[..0] == [] && all + [] == all;
      while stack != []
        invariant Pending(nodes, stack, pending, |values|, target)
        invariant order + PreStack(pending) == all
        invariant Numbering(order, oldToNew)
        decreases |PreStack(pending)|
      {
        var oldIdx := stack[|stack| - 1];
        ghost var s := pending[|stack| - 1];
        stack := stack[..|stack| - 1];
        pending := pending[..|pending| - 1];
        NextIsNew(order, s, PreStack(pending), all);
        if oldIdx !in oldToNew {
          NumberingStep(order, oldToNew, oldIdx);
          oldToNew := oldToNew[oldIdx := |order|];
          order := order + [oldIdx];
          var node := nodes[oldIdx];
          WalkStep(nodes, stack, pending, |values|, target, s);
          if node.right.Node? || node.right.FixedNode? {
            stack := stack + [node.right.idx];
          }
          if node.left.Node? || node.left.FixedNode? {
            stack := stack + [node.left.idx];
          }
          pending := PushForks(pending, s);
        }
      }
      OrderInRange(nodes, shape);
    }

    /** `renumber_reachable`: a pre-order walk with an explicit stack, then a rewrite of the array. */
    method RenumberReachable(ghost values: seq<Value>)
      requires Valid(|values|) && Anchored(shape, target)
      modifies this
      ensures Valid(|values|) && Anchored(shape, target)
      ensures Model(values) == old(Model(values))
      ensures Packed(shape, 0) && |nodes| == Size(shape)
      ensures NoAliases(shape) || target == V4_DEPTH
    {
      var order, oldToNew := PreOrderWalk(values);
      var newNodes: seq<ArenaNode> := [];
      var j := 0;
      while j < |order|
        invariant j <= |order| && |newNodes| == j
        invariant nodes == old(nodes) && shape == old(shape) && target == old(target)
        invariant forall i :: 0 <= i < j ==> newNodes[i] == RemapPair(nodes[order[i]], oldToNew)
      {
        var node := nodes[order[j]];
        newNodes := newNodes + [ArenaNode(Remap(node.left, oldToNew), Remap(node.right, oldToNew))];
        j := j + 1;
      }
      FinishRenumber(nodes, newNodes, order, oldToNew, shape, target, values);
      nodes := newNodes;
      shape := Renumber(shape, 0, V4_DEPTH);
      target := V4_DEPTH;
    }

    // --- Reading ------------------------------------------------------------------------------

    /** `get`: follow the address, through aliases too, to the id it resolves to. */
    method GetId(bits: Bits, depthLimit: nat, ghost values: seq<Value>) returns (id: Option<nat>)
      requires Valid(|values|) && depthLimit <= |bits|
      requires NoAliases(shape) || (Anchored(shape, target) && NoAlias(V4Of(Model(values))))
      ensures id.Some? ==> id.value < |values|
      ensures (if id.Some? then Some(values[id.value]) else None)
              == Look(V4Of(Model(values)), Model(values), bits[..depthLimit])
    {
      ghost var v4 := V4Of(Model(values));
      ghost var cur := shape;
      var nodeIdx := 0;
      var depth := 0;
      assert bits[0..depthLimit] == bits[..depthLimit];
      while depth < depthLimit
        invariant depth <= depthLimit
        invariant cur.Fork? && cur.idx == nodeIdx && Stands(nodes, cur, |values|, target)
        invariant NoAliases(cur) || !NoAliases(shape)
        invariant Look(v4, View(cur, values), bits[depth..depthLimit])
                  == Look(v4, Model(values), bits[..depthLimit])
      {
        var bit := bits[depth];
        ghost var c := SideOf(cur, bit);
        ChildrenStand(nodes, cur, |values|, target);
        assert bits[depth..depthLimit][1..] == bits[depth + 1..depthLimit];
        match ChildOf(nodes[nodeIdx], bit) {
          case Node(i) =>
            nodeIdx, cur := i, c;
          case FixedNode(i) =>
            nodeIdx, cur := i, c;
          case Alias(i) =>
            nodeIdx := i;
            cur := AliasTarget(values, bits[depth + 1..depthLimit]);
          case Data(id) =>
            return Some(id);
          case _ =>
            return None;
        }
        depth := depth + 1;
      }
      return None;
    }

    /** Where an alias record leads: the pinned IPv4 root, which has no aliases of its own. */
    lemma AliasTarget(values: seq<Value>, rest: Bits) returns (v: Shape)
      requires Valid(|values|) && !NoAliases(shape) && Anchored(shape, target)
      requires NoAlias(V4Of(Model(values)))
      ensures v.Fork? && v.idx == target && Stands(nodes, v, |values|, target)
      ensures Look(V4Of(Model(values)), View(v, values), rest) == ValueOf(LeafAt(V4Of(Model(values)), rest))
    {
      v :| Reaches(shape, Zeros(V4_DEPTH), v) && v.Fork? && v.fixed && v.idx == target;
      ReachesStands(nodes, shape, |values|, target, Zeros(V4_DEPTH), v);
      ReachesView(shape, Zeros(V4_DEPTH), v, values);
      NoAliasTip(View(v, values), rest);
      LookAtTip(V4Of(Model(values)), View(v, values), rest);
    }

    /** `reachable_data_ids`: each id once, in node order, left record before right. */
    method ReachableDataIds() returns (ids: seq<nat>)
      ensures ids == FirstOf(DataIds(nodes))
      ensures InFirstOrder(ids, nodes, 2 * |nodes|)
    {
      var seen: set<nat> := {};
      ids := [];
      var j := 0;
      while j < |nodes|
        invariant j <= |nodes|
        invariant forall i :: i in seen <==> i in ids
        invariant ids == FirstOf(DataIds(nodes[..j]))
      {
        var node := nodes[j];
        ghost var front := DataIds(nodes[..j]);
        DataIdsStep(nodes, j);
        seen, ids := NoteId(node.left, seen, ids, front);
        seen, ids := NoteId(node.right, seen, ids, front + RecordIds(node.left));
        j := j + 1;
      }
      assert nodes[..j] == nodes;
      ListedInOrder(nodes, |nodes|);
    }

    /** `serialize`: pack every node, or fail at the first record that does not fit. */
    method Serialize(rs: RecordSize, idToOffset: map<nat, nat>, ghost values: seq<Value>,
                     ghost offsets: map<Value, nat>) returns (r: Result<seq<byte>>)
      requires forall i :: 0 <= i < |nodes| ==>
                 Resolved(nodes[i].left, idToOffset, values, offsets) &&
                 Resolved(nodes[i].right, idToOffset, values, offsets)
      ensures r == var ws := SlotsOf(nodes, values);
                   if AllFit(ws, |nodes|, rs, offsets) then Ok(PackAll(ws, |nodes|, rs, offsets))
                   else Err(TreeTooLarge)
    {
      ghost var ws := SlotsOf(nodes, values);
      var out: seq<byte> := [];
      var j := 0;
      while j < |nodes|
        invariant j <= |nodes|
        invariant out == PackAll(ws[..j], |nodes|, rs, offsets)
        invariant AllFit(ws[..j], |nodes|, rs, offsets)
      {
        var left := EncodeRecord(nodes[j].left, |nodes|, rs, idToOffset, values, offsets);
        var right := EncodeRecord(nodes[j].right, |nodes|, rs, idToOffset, values, offsets);
        PackStep(ws, j, |nodes|, rs, offsets);
        FitStep(ws, j, |nodes|, rs, offsets);
        if left.Err? || right.Err? {
          return Err(TreeTooLarge);
        }
        out := out + PackPair(left.value, right.value, rs);
        j := j + 1;
      }
      assert ws[..j] == ws;
      return Ok(out);
    }
  }

  /** Add the id of a data record, unless it was seen before. */
  method NoteId(record: Record, seen: set<nat>, ids: seq<nat>, ghost front: seq<nat>)
    returns (seen': set<nat>, ids': seq<nat>)
    requires forall i :: i in seen <==> i in ids
    requires ids == FirstOf(front)
    ensures forall i :: i in seen' <==> i in ids'
    ensures ids' == FirstOf(front + RecordIds(record))
  {
    seen', ids' := seen, ids;
    FirstOfStep(front, record);
    if record.Data? && record.id !in seen {
      seen' := seen + {record.id};
      ids' := ids + [record.id];
    }
  }

  lemma DataIdsStep(nodes: seq<ArenaNode>, j: nat)
    requires j < |nodes|
    ensures DataIds(nodes[..j + 1]) ==
            DataIds(nodes[..j]) + RecordIds(nodes[j].left) + RecordIds(nodes[j].right)
  {
    assert nodes[..j + 1][..j] == nodes[..j];
  }

  lemma PackStep(ws: seq<SlotPair>, j: nat, n: nat, rs: RecordSize, offsets: map<Value, nat>)
    requires j < |ws|
    ensures PackAll(ws[..j + 1], n, rs, offsets) == PackAll(ws[..j], n, rs, offsets) + PackSlots(ws[j], n, rs, offsets)
  {
    assert ws[..j + 1][..j] == ws[..j];
  }

  lemma FitStep(ws: seq<SlotPair>, j: nat, n: nat, rs: RecordSize, offsets: map<Value, nat>)
    requires j < |ws|
    ensures AllFit(ws[..j], n, rs, offsets) && PairFits(ws[j], n, rs, offsets) ==> AllFit(ws[..j + 1], n, rs, offsets)
    ensures AllFit(ws, n, rs, offsets) ==> PairFits(ws[j], n, rs, offsets)
  {
  }

  /** `encode_record`. */
  method EncodeRecord(record: Record, nodeCount: nat, rs: RecordSize, idToOffset: map<nat, nat>,
                      ghost values: seq<Value>, ghost offsets: map<Value, nat>) returns (r: Result<nat>)
    requires Resolved(record, idToOffset, values, offsets)
    ensures r == var s := SlotOfRecord(record, values);
                 if SlotFits(s, nodeCount, rs, offsets) then Ok(RecordNumber(s, nodeCount, offsets))
                 else Err(TreeTooLarge)
  {
    var raw: nat;
    match record {
      case NoData => raw := nodeCount;
      case Reserved => raw := nodeCount;
      case Node(i) => raw := i;
      case FixedNode(i) => raw := i;
      case Alias(i) => raw := i;
      case Data(id) => raw := nodeCount + 16 + idToOffset[id];
    }
    return if raw >= MaxValue(rs) then Err(TreeTooLarge) else Ok(raw);
  }

  // --- Records and slots ------------------------------------------------------------------------

  /** What a record says on the wire, ids resolved. */
  function SlotOfRecord(r: Record, values: seq<Value>): Slot {
    match r
    case Node(i) => ToNode(i)
    case FixedNode(i) => ToNode(i)
    case Alias(i) => ToNode(i)
    case Data(id) => if id < |values| then ToValue(values[id]) else Nothing
    case _ => Nothing
  }

  ghost function SlotsOf(nodes: seq<ArenaNode>, values: seq<Value>): seq<SlotPair> {
    seq(|nodes|, i requires 0 <= i < |nodes| =>
      SlotPair(SlotOfRecord(nodes[i].left, values), SlotOfRecord(nodes[i].right, values)))
  }

  /** The id has an offset, and it is the offset of the value it names. */
  ghost predicate Resolved(r: Record, idToOffset: map<nat, nat>, values: seq<Value>, offsets: map<Value, nat>) {
    r.Data? ==> r.id < |values| && r.id in idToOffset && values[r.id] in offsets
                && offsets[values[r.id]] == idToOffset[r.id]
  }

  function RecordIds(r: Record): seq<nat> {
    if r.Data? then [r.id] else []
  }

  function DataIds(nodes: seq<ArenaNode>): seq<nat> {
    if nodes == [] then []
    else DataIds(nodes[..|nodes| - 1]) + RecordIds(nodes[|nodes| - 1].left) + RecordIds(nodes[|nodes| - 1].right)
  }

  /** First occurrences only. */
  function FirstOf(ids: seq<nat>): seq<nat> {
    if ids == [] then []
    else
      var front := FirstOf(ids[..|ids| - 1]);
      if ids[|ids| - 1] in front then front else front + [ids[|ids| - 1]]
  }

  lemma FirstOfStep(ids: seq<nat>, r: Record)
    ensures FirstOf(ids + RecordIds(r)) ==
            if r.Data? && r.id !in FirstOf(ids) then FirstOf(ids) + [r.id] else FirstOf(ids)
  {
    if r.Data? {
      assert (ids + [r.id])[..|ids|] == ids;
    } else {
      assert ids + [] == ids;
    }
  }

  /** The records of an array, in node order, left before right. */
  function RecordAt(nodes: seq<ArenaNode>, k: nat): Record
    requires k < 2 * |nodes|
  {
    if k % 2 == 0 then nodes[k / 2].left else nodes[k / 2].right
  }

  ghost predicate Precedes(nodes: seq<ArenaNode>, id: nat, k: nat)
    requires k <= 2 * |nodes|
  {
    exists p: nat :: p < k && RecordAt(nodes, p) == Record.Data(id)
  }

  /** The ids are those of the first `n` records, each once, in the order in which they first appear. */
  ghost predicate InFirstOrder(ids: seq<nat>, nodes: seq<ArenaNode>, n: nat)
    requires n <= 2 * |nodes|
  {
    && (forall k: nat :: k < n && RecordAt(nodes, k).Data? ==> RecordAt(nodes, k).id in ids)
    && (forall i :: 0 <= i < |ids| ==> Precedes(nodes, ids[i], n))
    && (forall i, j :: 0 <= i < j < |ids| ==> ids[i] != ids[j])
    && (forall i, j, k: nat :: 0 <= i < j < |ids| && k < n && RecordAt(nodes, k) == Record.Data(ids[j]) ==>
          Precedes(nodes, ids[i], k))
  }

  lemma OneMoreRecord(ids: seq<nat>, nodes: seq<ArenaNode>, n: nat)
    requires n < 2 * |nodes| && InFirstOrder(ids, nodes, n)
    ensures var r := RecordAt(nodes, n);
            InFirstOrder(if r.Data? && r.id !in ids then ids + [r.id] else ids, nodes, n + 1)
  {
    forall i | 0 <= i < |ids|
      ensures Precedes(nodes, ids[i], n + 1)
    {
      var p: nat :| p < n && RecordAt(nodes, p) == Record.Data(ids[i]);
    }
  }

  lemma ListedStep(front: seq<nat>, nodes: seq<ArenaNode>, r: Record, n: nat)
    requires n < 2 * |nodes| && RecordAt(nodes, n) == r
    requires InFirstOrder(FirstOf(front), nodes, n)
    ensures InFirstOrder(FirstOf(front + RecordIds(r)), nodes, n + 1)
  {
    FirstOfStep(front, r);
    OneMoreRecord(FirstOf(front), nodes, n);
  }

  lemma ListedNode(front: seq<nat>, nodes: seq<ArenaNode>, j: nat, n: nat)
    requires j < |nodes| && n == 2 * j + 2
    requires InFirstOrder(FirstOf(front), nodes, 2 * j)
    ensures InFirstOrder(FirstOf(front + RecordIds(nodes[j].left) + RecordIds(nodes[j].right)), nodes, n)
  {
    ListedStep(front, nodes, nodes[j].left, 2 * j);
    ListedStep(front + RecordIds(nodes[j].left), nodes, nodes[j].right, 2 * j + 1);
  }

  lemma {:induction false} ListedInOrder(nodes: seq<ArenaNode>, m: nat)
    requires m <= |nodes|
    ensures InFirstOrder(FirstOf(DataIds(nodes[..m])), nodes, 2 * m)
    decreases m
  {
    if m != 0 {
      ListedInOrder(nodes, m - 1);
      DataIdsStep(nodes, m - 1);
      ListedNode(DataIds(nodes[..m - 1]), nodes, m - 1, 2 * m);
    }
  }

  /** A packed array is the flattening of its trie. */
  lemma PackedIsFlat(nodes: seq<ArenaNode>, s: Shape, values: seq<Value>, k: nat)
    requires s.Fork? && Stands(nodes, s, |values|, k) && Packed(s, 0) && |nodes| == Size(s)
    requires NoAliases(s) || k == V4_DEPTH
    ensures SlotsOf(nodes, values) == Flat(View(s, values), 0)
    ensures Count(View(s, values)) == |nodes|
  {
    var ws := SlotsOf(nodes, values);
    SlotsStand(nodes, s, 0, values, k);
    FlatUnique(ws, View(s, values), 0);
    forall i | 0 <= i < |ws|
      ensures ws[i] == Flat(View(s, values), 0)[i]
    {
      assert ws[0 + i] == Flat(View(s, values), 0)[i];
    }
  }

  lemma {:induction false} SlotsStand(nodes: seq<ArenaNode>, s: Shape, base: nat, values: seq<Value>, k: nat)
    requires Holds(nodes, s) && Linked(s, |values|, k) && Packed(s, base)
    requires NoAliases(s) || k == V4_DEPTH
    ensures FlatAt(SlotsOf(nodes, values), View(s, values), base)
    ensures Count(View(s, values)) == Size(s)
    ensures s.Tip? ==> SlotOfRecord(s.rec, values) == SlotOf(View(s, values), base)
  {
    if s.Fork? {
      SlotsStand(nodes, s.left, base + 1, values, k);
      SlotsStand(nodes, s.right, base + 1 + Size(s.left), values, k);
    }
  }

  lemma PadPrefix(p: Bits, n: nat)
    ensures (p + Zeros(n))[..|p|] == p
    ensures |p + Zeros(n)| == |p| + n
  {
  }

  lemma PrefixOfPrefix(z: Bits, bits: Bits, i: nat, plen: nat)
    requires i <= plen <= |bits|
    ensures z <= bits[..i] ==> z <= bits[..plen]
  {
    assert bits[..i] <= bits[..plen];
  }

  /** The stack holds the roots of shapes that stand in the array. */
  ghost predicate Pending(nodes: seq<ArenaNode>, stack: seq<nat>, pending: seq<Shape>, n: nat, k: nat) {
    && |pending| == |stack|
    && forall j :: 0 <= j < |stack| ==>
         pending[j].Fork? && pending[j].idx == stack[j] && Stands(nodes, pending[j], n, k)
  }

  ghost predicate Numbering(order: seq<nat>, m: map<nat, nat>) {
    && (forall j :: 0 <= j < |order| ==> order[j] in m && m[order[j]] == j)
    && (forall i :: i in m ==> i in order)
  }

  lemma PendingPush(nodes: seq<ArenaNode>, stack: seq<nat>, pending: seq<Shape>, n: nat, k: nat, s: Shape)
    requires Pending(nodes, stack, pending, n, k) && s.Fork? && Stands(nodes, s, n, k)
    ensures Pending(nodes, stack + [s.idx], pending + [s], n, k)
  {
  }

  lemma NumberingStep(order: seq<nat>, m: map<nat, nat>, i: nat)
    requires Numbering(order, m) && i !in m
    ensures Numbering(order + [i], m[i := |order|])
  {
    forall j | 0 <= j < |order|
      ensures order[j] != i
    {
      assert order[j] in m;
    }
  }

  lemma OrderInRange(nodes: seq<ArenaNode>, s: Shape)
    requires Holds(nodes, s)
    ensures forall j :: 0 <= j < |PreOrder(s)| ==> PreOrder(s)[j] < |nodes|
  {
    PreOrderIds(s);
    IdsInRange(nodes, s);
    forall j | 0 <= j < |PreOrder(s)|
      ensures PreOrder(s)[j] < |nodes|
    {
      assert PreOrder(s)[j] in Ids(s);
    }
  }

  lemma ChildrenStand(nodes: seq<ArenaNode>, s: Shape, n: nat, k: nat)
    requires s.Fork? && Stands(nodes, s, n, k)
    ensures s.idx < |nodes| && nodes[s.idx] == ArenaNode(RecordOf(s.left), RecordOf(s.right))
    ensures Stands(nodes, s.left, n, k) && Stands(nodes, s.right, n, k)
    ensures s.left.Fork? <==> nodes[s.idx].left.Node? || nodes[s.idx].left.FixedNode?
    ensures s.right.Fork? <==> nodes[s.idx].right.Node? || nodes[s.idx].right.FixedNode?
  {
    assert Holds(nodes, s.left) && Holds(nodes, s.right);
  }

  /** In the walk, the next pending node has not been numbered yet. */
  lemma NextIsNew(order: seq<nat>, s: Shape, rest: seq<nat>, all: seq<nat>)
    requires s.Fork? && NoDuplicates(all) && order + (PreOrder(s) + rest) == all
    ensures s.idx !in order
    ensures order + [s.idx] + (PreOrder(s.left) + (PreOrder(s.right) + rest)) == all
  {
    assert all[|order|] == (PreOrder(s) + rest)[0] == s.idx;
    forall i | 0 <= i < |order|
      ensures order[i] != s.idx
    {
      assert all[i] == order[i];
    }
  }

  /** The children of `s` that are nodes, pushed right child first. */
  ghost function PushForks(pending: seq<Shape>, s: Shape): seq<Shape>
    requires s.Fork?
  {
    var p := if s.right.Fork? then pending + [s.right] else pending;
    if s.left.Fork? then p + [s.left] else p
  }

  function PushNodes(stack: seq<nat>, node: ArenaNode): seq<nat> {
    var p := if node.right.Node? || node.right.FixedNode? then stack + [node.right.idx] else stack;
    if node.left.Node? || node.left.FixedNode? then p + [node.left.idx] else p
  }

  /** Pushing the children leaves them to be walked left first. */
  lemma WalkStep(nodes: seq<ArenaNode>, stack: seq<nat>, pending: seq<Shape>, n: nat, k: nat, s: Shape)
    requires Pending(nodes, stack, pending, n, k) && s.Fork? && Stands(nodes, s, n, k)
    ensures s.idx < |nodes|
    ensures Pending(nodes, PushNodes(stack, nodes[s.idx]), PushForks(pending, s), n, k)
    ensures PreStack(PushForks(pending, s)) == PreOrder(s.left) + (PreOrder(s.right) + PreStack(pending))
  {
    ChildrenStand(nodes, s, n, k);
    var p := if s.right.Fork? then pending + [s.right] else pending;
    var t := if s.right.Fork? then stack + [s.right.idx] else stack;
    if s.right.Fork? {
      PendingPush(nodes, stack, pending, n, k, s.right);
    }
    if s.left.Fork? {
      PendingPush(nodes, t, p, n, k, s.left);
    }
    PushOne(pending, s.right);
    PushOne(p, s.left);
  }

  lemma PushOne(pending: seq<Shape>, s: Shape)
    ensures PreStack(if s.Fork? then pending + [s] else pending) == PreOrder(s) + PreStack(pending)
  {
    if s.Fork? {
      assert (pending + [s])[..|pending|] == pending;
    } else {
      assert PreOrder(s) + PreStack(pending) == PreStack(pending);
    }
  }

  /** Collapsing keeps the alias target pinned. */
  lemma CollapsedAnchored(s: Shape, s': Shape, k: nat, values: seq<Value>)
    requires s.Fork? && s'.Fork? && Collapsed(s, s') && Anchored(s, k)
    requires View(s'.left, values) == Compact(View(s.left, values))
    requires View(s'.right, values) == Compact(View(s.right, values))
    ensures Anchored(s', k)
  {
    if NoAliases(s) {
      NoAliasesView(s, values);
      CompactShape(View(s.left, values));
      CompactShape(View(s.right, values));
      NoAliasesView(s', values);
    } else {
      var v :| Reaches(s, Zeros(V4_DEPTH), v) && v.Fork? && v.fixed && v.idx == k;
      var v' := CollapsedPinned(s, s', Zeros(V4_DEPTH), v);
    }
  }

  /** The renumbered array represents the same trie. */
  lemma FinishRenumber(before: seq<ArenaNode>, after: seq<ArenaNode>, order: seq<nat>, m: map<nat, nat>, s: Shape,
                       k: nat, values: seq<Value>)
    requires s.Fork? && Stands(before, s, |values|, k) && Anchored(s, k)
    requires order == PreOrder(s) && Renumbered(before, after, order, m)
    ensures var s' := Renumber(s, 0, V4_DEPTH);
            && Stands(after, s', |values|, V4_DEPTH) && Anchored(s', V4_DEPTH)
            && s'.Fork? && s'.idx == 0 && s'.fixed == s.fixed
            && View(s', values) == View(s, values)
            && Packed(s', 0) && |after| == Size(s')
  {
    PreOrderIds(s);
    OrderAtConcat([], s, []);
    assert [] + PreOrder(s) + [] == order;
    if !NoAliases(s) {
      var v :| Reaches(s, Zeros(V4_DEPTH), v) && v.Fork? && v.fixed && v.idx == k;
      LeftmostPosition(s, V4_DEPTH, v);
      PackedTarget(s, v);
    }
    RenumberHolds(before, after, order, m, s, 0, |values|, k, V4_DEPTH);
    RenumberShape(s, 0, |values|, k, V4_DEPTH, values);
  }

  /** After renumbering, the pinned IPv4 root has index 96: it is the 96th left child in a row. */
  lemma PackedTarget(s: Shape, v: Shape)
    requires Reaches(s, Zeros(V4_DEPTH), v) && v.Fork? && v.fixed
    ensures Anchored(Renumber(s, 0, V4_DEPTH), V4_DEPTH)
  {
    var v' := RenumberLeftmost(s, 0, V4_DEPTH, V4_DEPTH, v);
  }

  lemma {:induction false} RenumberLeftmost(s: Shape, base: nat, k: nat, j: nat, v: Shape) returns (v': Shape)
    requires Reaches(s, Zeros(j), v) && v.Fork?
    ensures Reaches(Renumber(s, base, k), Zeros(j), v')
    ensures v'.Fork? && v'.fixed == v.fixed && v'.idx == base + j
    decreases j
  {
    if j == 0 {
      v' := Renumber(s, base, k);
    } else {
      ZerosTail(j);
      v' := RenumberLeftmost(s.left, base + 1, k, j - 1, v);
    }
  }
}
