/**
  The node array of `src/tree.rs` as a value.

  A `Shape` names, for the part of the array reachable from a record, which node index sits
  where. `Holds` ties array and shape, `Proper` says that no index occurs twice, and `View`
  forgets the indices and resolves value ids, giving the trie that `Tries` reasons about.
*/
module Shapes {
  import opened Prelude
  import opened Bits
  import opened Values
  import opened Pools
  import opened Tries
  import opened Aliases

  datatype Record = NoData | Node(idx: nat) | FixedNode(idx: nat) | Data(id: nat) | Alias(idx: nat) | Reserved

  datatype ArenaNode = ArenaNode(left: Record, right: Record)

  const EMPTY_NODE: ArenaNode := ArenaNode(NoData, NoData)

  predicate IsLeafRecord(r: Record) {
    r.NoData? || r.Data? || r.Alias? || r.Reserved?
  }

  function ChildOf(n: ArenaNode, bit: bool): Record {
    if bit then n.right else n.left
  }

  function SetChild(n: ArenaNode, bit: bool, r: Record): ArenaNode {
    if bit then n.(right := r) else n.(left := r)
  }

  // --- Shapes ---------------------------------------------------------------------------------

  datatype Shape = Tip(rec: Record) | Fork(idx: nat, fixed: bool, left: Shape, right: Shape)

  ghost function Ids(s: Shape): set<nat> {
    match s
    case Tip(_) => {}
    case Fork(i, _, l, r) => {i} + Ids(l) + Ids(r)
  }

  /** The reachable nodes form a tree: no index is reached twice. */
  ghost predicate Proper(s: Shape) {
    match s
    case Tip(_) => true
    case Fork(i, _, l, r) => i !in Ids(l) && i !in Ids(r) && Ids(l) !! Ids(r) && Proper(l) && Proper(r)
  }

  function RecordOf(s: Shape): Record {
    match s
    case Tip(r) => r
    case Fork(i, fixed, _, _) => if fixed then FixedNode(i) else Node(i)
  }

  /** The nodes of `s` stand in the array as `s` says. */
  ghost predicate Holds(nodes: seq<ArenaNode>, s: Shape) {
    match s
    case Tip(r) => IsLeafRecord(r)
    case Fork(i, _, l, r) =>
      i < |nodes| && nodes[i] == ArenaNode(RecordOf(l), RecordOf(r)) && Holds(nodes, l) && Holds(nodes, r)
  }

  /** Ids name pool values, and every alias points to the node `k`. */
  ghost predicate Linked(s: Shape, n: nat, k: nat) {
    match s
    case Tip(r) => (r.Data? ==> r.id < n) && (r.Alias? ==> r.idx == k)
    case Fork(_, _, l, r) => Linked(l, n, k) && Linked(r, n, k)
  }

  ghost function View(s: Shape, values: seq<Value>): Trie {
    match s
    case Tip(Data(id)) => if id < |values| then Leaf(values[id]) else Empty
    case Tip(Alias(_)) => Trie.Alias
    case Tip(Reserved) => Trie.Reserved
    case Tip(_) => Empty
    case Fork(_, fixed, l, r) => Branch(fixed, View(l, values), View(r, values))
  }

  function Size(s: Shape): nat {
    match s
    case Tip(_) => 0
    case Fork(_, _, l, r) => 1 + Size(l) + Size(r)
  }

  lemma {:induction false} IdsInRange(nodes: seq<ArenaNode>, s: Shape)
    requires Holds(nodes, s)
    ensures forall i :: i in Ids(s) ==> i < |nodes|
  {
    if s.Fork? {
      IdsInRange(nodes, s.left);
      IdsInRange(nodes, s.right);
    }
  }

  /** Changes elsewhere in the array do not disturb a shape. */
  lemma {:induction false} HoldsFrame(nodes: seq<ArenaNode>, nodes': seq<ArenaNode>, s: Shape)
    requires Holds(nodes, s)
    requires forall i :: i in Ids(s) ==> i < |nodes| && i < |nodes'| && nodes'[i] == nodes[i]
    ensures Holds(nodes', s)
  {
    if s.Fork? {
      HoldsFrame(nodes, nodes', s.left);
      HoldsFrame(nodes, nodes', s.right);
    }
  }

  /** A growing pool does not change what ids mean. */
  lemma {:induction false} ViewFrame(s: Shape, values: seq<Value>, values': seq<Value>, k: nat)
    requires Linked(s, |values|, k) && values <= values'
    ensures Linked(s, |values'|, k) && View(s, values') == View(s, values)
  {
    if s.Fork? {
      ViewFrame(s.left, values, values', k);
      ViewFrame(s.right, values, values', k);
    }
  }

  /** Only the nodes `touched` changed, and new ones were appended. */
  ghost predicate Frame(before: seq<ArenaNode>, after: seq<ArenaNode>, touched: set<nat>) {
    |before| <= |after| && forall i :: 0 <= i < |before| && i !in touched ==> after[i] == before[i]
  }

  /** The indices of `s'` come from `s` or were appended between the two arrays. */
  ghost predicate Grown(s: Shape, s': Shape, before: nat, after: nat) {
    forall i :: i in Ids(s') ==> i in Ids(s) || before <= i < after
  }

  /** A shape standing in the array, tree-shaped, with meaningful leaves. */
  ghost predicate Stands(nodes: seq<ArenaNode>, s: Shape, n: nat, k: nat) {
    Holds(nodes, s) && Proper(s) && Linked(s, n, k)
  }

  /** Two equal leaf records are two equal tips: ids are distinct and aliases share a target. */
  lemma MergeMatchesFuse(l: Shape, r: Shape, values: seq<Value>, k: nat)
    requires Linked(l, |values|, k) && Linked(r, |values|, k) && Distinct(values)
    requires l.Tip? ==> IsLeafRecord(l.rec)
    requires r.Tip? ==> IsLeafRecord(r.rec)
    ensures RecordOf(l) == RecordOf(r) && IsLeafRecord(RecordOf(l)) <==>
            IsTip(View(l, values)) && View(l, values) == View(r, values)
    ensures IsLeafRecord(RecordOf(l)) ==> l == Tip(RecordOf(l))
  {
  }

  function SideOf(s: Shape, which: bool): Shape
    requires s.Fork?
  {
    if which then s.right else s.left
  }

  function WithSide(s: Shape, which: bool, c: Shape): Shape
    requires s.Fork?
  {
    if which then s.(right := c) else s.(left := c)
  }

  /** Put a changed child back under its parent. */
  lemma Reassemble(before: seq<ArenaNode>, after: seq<ArenaNode>, s: Shape, which: bool, c: Shape,
                   values: seq<Value>, values': seq<Value>, k: nat)
    requires s.Fork? && Stands(before, s, |values|, k) && values <= values'
    requires Stands(after, c, |values'|, k) && Grown(SideOf(s, which), c, |before|, |after|)
    requires Frame(before, after, Ids(SideOf(s, which)) + {s.idx})
    requires after[s.idx] == SetChild(before[s.idx], which, RecordOf(c))
    ensures Stands(after, WithSide(s, which, c), |values'|, k)
    ensures Grown(s, WithSide(s, which, c), |before|, |after|) && Frame(before, after, Ids(s))
    ensures View(WithSide(s, which, c), values') == WithChild(View(s, values), which, View(c, values'))
  {
    var o := SideOf(s, !which);
    IdsInRange(before, s);
    IdsInRange(before, o);
    HoldsFrame(before, after, o);
    ViewFrame(o, values, values', k);
  }

  // --- Paths ----------------------------------------------------------------------------------

  /** Following `path` from `s`, through nodes only, leads to `c`. */
  ghost predicate Reaches(s: Shape, path: Bits, c: Shape) {
    if path == [] then s == c else s.Fork? && Reaches(SideOf(s, path[0]), path[1..], c)
  }

  ghost function ReplaceAt(s: Shape, path: Bits, c: Shape): Shape {
    if path == [] || s.Tip? then c
    else WithSide(s, path[0], ReplaceAt(SideOf(s, path[0]), path[1..], c))
  }

  lemma {:induction false} ReachesStep(s: Shape, path: Bits, c: Shape, bit: bool)
    requires Reaches(s, path, c) && c.Fork?
    ensures Reaches(s, path + [bit], SideOf(c, bit))
  {
    if path == [] {
      assert [] + [bit] == [bit];
    } else {
      assert (path + [bit])[1..] == path[1..] + [bit];
      ReachesStep(SideOf(s, path[0]), path[1..], c, bit);
    }
  }

  /** Pinning a node changes neither what stands below it nor which indices it uses. */
  lemma PinnedStands(nodes: seq<ArenaNode>, v: Shape, n: nat, k: nat, values: seq<Value>)
    requires v.Fork? && Stands(nodes, v, n, k)
    ensures var p := v.(fixed := true);
            Stands(nodes, p, n, k) && Ids(p) == Ids(v) && View(p, values) == View(v, values).(fixed := true)
  {
  }

  lemma {:induction false} ReachesUnique(s: Shape, path: Bits, c: Shape, d: Shape)
    requires Reaches(s, path, c) && Reaches(s, path, d)
    ensures c == d
  {
    if path != [] {
      ReachesUnique(SideOf(s, path[0]), path[1..], c, d);
    }
  }

  lemma {:induction false} ReachesView(s: Shape, path: Bits, c: Shape, values: seq<Value>)
    requires Reaches(s, path, c) && c.Fork?
    ensures LeafAt(View(s, values), path) == View(c, values)
  {
    if path != [] {
      ReachesView(SideOf(s, path[0]), path[1..], c, values);
    }
  }

  lemma {:induction false} ReachesStands(nodes: seq<ArenaNode>, s: Shape, n: nat, k: nat, path: Bits, c: Shape)
    requires Reaches(s, path, c) && Stands(nodes, s, n, k)
    ensures Stands(nodes, c, n, k) && Ids(c) <= Ids(s)
  {
    if path != [] {
      ReachesStands(nodes, SideOf(s, path[0]), n, k, path[1..], c);
    }
  }

  /** Changing one side of a node deep in the shape keeps the rest standing. */
  lemma {:induction false} UpdateAt(before: seq<ArenaNode>, after: seq<ArenaNode>, s: Shape, path: Bits, cur: Shape,
                                    which: bool, c: Shape, values: seq<Value>, k: nat)
    requires Stands(before, s, |values|, k) && Reaches(s, path, cur) && cur.Fork?
    requires Stands(after, c, |values|, k) && Grown(SideOf(cur, which), c, |before|, |after|)
    requires Frame(before, after, Ids(SideOf(cur, which)) + {cur.idx})
    requires cur.idx < |before| && after[cur.idx] == SetChild(before[cur.idx], which, RecordOf(c))
    ensures var s' := ReplaceAt(s, path, WithSide(cur, which, c));
            && s'.Fork? && RecordOf(s') == RecordOf(s)
            && Stands(after, s', |values|, k)
            && Grown(s, s', |before|, |after|) && Frame(before, after, Ids(s))
            && Reaches(s', path, WithSide(cur, which, c))
            && View(s', values) ==
               Replace(View(s, values), path, WithChild(View(cur, values), which, View(c, values)))
    decreases |path|
  {
    if path == [] {
      Reassemble(before, after, s, which, c, values, values, k);
    } else {
      var side := SideOf(s, path[0]);
      ReachesStands(before, side, |values|, k, path[1..], cur);
      UpdateAt(before, after, side, path[1..], cur, which, c, values, k);
      var side' := ReplaceAt(side, path[1..], WithSide(cur, which, c));
      IdsInRange(before, s);
      Reassemble(before, after, s, path[0], side', values, values, k);
    }
  }

  lemma PrefixCons(z: Bits, path: Bits)
    requires z != [] && path != [] && z[0] == path[0]
    ensures z <= path <==> z[1..] <= path[1..]
  {
    assert z == [z[0]] + z[1..] && path == [path[0]] + path[1..];
  }

  /** A change below a tip is invisible to paths that end in a node elsewhere. */
  lemma {:induction false} ReachesElsewhere(s: Shape, path: Bits, cur: Shape, which: bool, c: Shape,
                                            z: Bits, v: Shape)
    requires Reaches(s, path, cur) && cur.Fork? && SideOf(cur, which).Tip?
    requires Reaches(s, z, v) && v.Fork? && !(z <= path)
    ensures Reaches(ReplaceAt(s, path, WithSide(cur, which, c)), z, v)
    decreases |path|
  {
    if path != [] && path[0] == z[0] {
      PrefixCons(z, path);
      ReachesElsewhere(SideOf(s, path[0]), path[1..], cur, which, c, z[1..], v);
    }
  }

  // --- Pinned nodes and aliases ---------------------------------------------------------------

  ghost predicate NoPinned(s: Shape) {
    match s
    case Tip(_) => true
    case Fork(_, fixed, l, r) => !fixed && NoPinned(l) && NoPinned(r)
  }

  ghost predicate NoAliases(s: Shape) {
    match s
    case Tip(r) => !r.Alias?
    case Fork(_, _, l, r) => NoAliases(l) && NoAliases(r)
  }

  lemma {:induction false} NoAliasesView(s: Shape, values: seq<Value>)
    ensures NoAliases(s) <==> NoAlias(View(s, values))
  {
    if s.Fork? {
      NoAliasesView(s.left, values);
      NoAliasesView(s.right, values);
    }
  }

  /** Without aliases, any target will do. */
  lemma {:induction false} Relink(s: Shape, n: nat, k: nat, k': nat)
    requires Linked(s, n, k) && NoAliases(s)
    ensures Linked(s, n, k')
  {
    if s.Fork? {
      Relink(s.left, n, k, k');
      Relink(s.right, n, k, k');
    }
  }

  /** The alias target `k` is the pinned node at `::/96`. */
  ghost predicate Anchored(s: Shape, k: nat) {
    NoAliases(s) || exists v :: Reaches(s, Zeros(V4_DEPTH), v) && v.Fork? && v.fixed && v.idx == k
  }

  /** `s'` is `s` with some unpinned subtrees replaced by tips. */
  ghost predicate Collapsed(s: Shape, s': Shape) {
    match s'
    case Tip(r) => s == s' || NoPinned(s)
    case Fork(i, fixed, l, r) =>
      s.Fork? && s.idx == i && s.fixed == fixed && Collapsed(s.left, l) && Collapsed(s.right, r)
  }

  lemma {:induction false} CollapsedIds(s: Shape, s': Shape)
    requires Collapsed(s, s')
    ensures Ids(s') <= Ids(s)
    ensures NoPinned(s') && s'.Tip? ==> NoPinned(s)
    decreases s'
  {
    if s'.Fork? {
      CollapsedIds(s.left, s'.left);
      CollapsedIds(s.right, s'.right);
    }
  }

  /** A pinned node keeps its place and its index when other nodes collapse. */
  lemma {:induction false} CollapsedPinned(s: Shape, s': Shape, z: Bits, v: Shape) returns (v': Shape)
    requires Collapsed(s, s') && Reaches(s, z, v) && v.Fork? && v.fixed
    ensures Reaches(s', z, v') && v'.Fork? && v'.fixed && v'.idx == v.idx
  {
    PinnedOnPath(s, z, v);
    if z == [] {
      v' := s';
    } else {
      v' := CollapsedPinned(SideOf(s, z[0]), SideOf(s', z[0]), z[1..], v);
    }
  }

  lemma {:induction false} PinnedOnPath(s: Shape, z: Bits, v: Shape)
    requires Reaches(s, z, v) && v.Fork? && v.fixed
    ensures s.Fork? && !NoPinned(s)
  {
    if z != [] {
      PinnedOnPath(SideOf(s, z[0]), z[1..], v);
    }
  }

  // --- Renumbering ----------------------------------------------------------------------------

  /** Node indices in pre-order, left before right. */
  ghost function PreOrder(s: Shape): seq<nat> {
    match s
    case Tip(_) => []
    case Fork(i, _, l, r) => [i] + PreOrder(l) + PreOrder(r)
  }

  /** The pending nodes of the walk, last pushed first. */
  ghost function PreStack(stack: seq<Shape>): seq<nat> {
    if stack == [] then [] else PreOrder(stack[|stack| - 1]) + PreStack(stack[..|stack| - 1])
  }

  ghost predicate NoDuplicates(xs: seq<nat>) {
    forall i, j :: 0 <= i < j < |xs| ==> xs[i] != xs[j]
  }

  lemma {:induction false} PreOrderIds(s: Shape)
    ensures |PreOrder(s)| == Size(s)
    ensures forall i :: i in PreOrder(s) <==> i in Ids(s)
    ensures Proper(s) ==> NoDuplicates(PreOrder(s))
  {
    if s.Fork? {
      PreOrderIds(s.left);
      PreOrderIds(s.right);
      if Proper(s) {
        JoinNoDuplicates(s.idx, PreOrder(s.left), PreOrder(s.right));
      }
    }
  }

  lemma JoinNoDuplicates(x: nat, a: seq<nat>, b: seq<nat>)
    requires NoDuplicates(a) && NoDuplicates(b)
    requires x !in a && x !in b && forall i :: i in a ==> i !in b
    ensures NoDuplicates([x] + a + b)
  {
    var all := [x] + a + b;
    forall i, j | 0 <= i < j < |all|
      ensures all[i] != all[j]
    {
      if i == 0 {
        assert if j <= |a| then all[j] == a[j - 1] && a[j - 1] in a
               else all[j] == b[j - 1 - |a|] && b[j - 1 - |a|] in b;
      } else if j <= |a| {
        assert all[i] == a[i - 1] && all[j] == a[j - 1];
      } else if i <= |a| {
        assert all[i] == a[i - 1] && a[i - 1] in a && all[j] == b[j - 1 - |a|];
      } else {
        assert all[i] == b[i - 1 - |a|] && all[j] == b[j - 1 - |a|];
      }
    }
  }

  /** `remap_record`, for records whose targets are all renumbered. */
  function Remap(r: Record, m: map<nat, nat>): Record {
    match r
    case Node(i) => if i in m then Node(m[i]) else NoData
    case FixedNode(i) => if i in m then FixedNode(m[i]) else NoData
    case Alias(i) => if i in m then Record.Alias(m[i]) else NoData
    case _ => r
  }

  function RemapPair(n: ArenaNode, m: map<nat, nat>): ArenaNode {
    ArenaNode(Remap(n.left, m), Remap(n.right, m))
  }

  /** The shape numbered in pre-order from `base`, aliases pointing to `k`. */
  ghost function Renumber(s: Shape, base: nat, k: nat): Shape {
    match s
    case Tip(r) => if r.Alias? then Tip(Record.Alias(k)) else s
    case Fork(_, fixed, l, r) =>
      Fork(base, fixed, Renumber(l, base + 1, k), Renumber(r, base + 1 + Size(l), k))
  }

  /** The numbers of `s` are its pre-order positions, from `base`. */
  ghost predicate Packed(s: Shape, base: nat) {
    match s
    case Tip(_) => true
    case Fork(i, _, l, r) => i == base && Packed(l, base + 1) && Packed(r, base + 1 + Size(l))
  }

  lemma {:induction false} RenumberShape(s: Shape, base: nat, n: nat, k: nat, k': nat, values: seq<Value>)
    requires Linked(s, n, k)
    ensures var s' := Renumber(s, base, k');
            && Size(s') == Size(s) && Packed(s', base) && Linked(s', n, k')
            && (forall i :: i in Ids(s') <==> base <= i < base + Size(s))
            && Proper(s')
            && View(s', values) == View(s, values)
            && (NoAliases(s) ==> NoAliases(s'))
  {
    if s.Fork? {
      RenumberShape(s.left, base + 1, n, k, k', values);
      RenumberShape(s.right, base + 1 + Size(s.left), n, k, k', values);
    }
  }

  /** `m` numbers the nodes by their position in `order`, and `after` is the renumbered array. */
  ghost predicate Renumbered(before: seq<ArenaNode>, after: seq<ArenaNode>, order: seq<nat>, m: map<nat, nat>) {
    && |after| == |order|
    && (forall j :: 0 <= j < |order| ==> order[j] in m && m[order[j]] == j)
    && (forall j :: 0 <= j < |order| ==> order[j] < |before| && after[j] == RemapPair(before[order[j]], m))
  }

  /** The pre-order of `s` stands in `order` from position `base`. */
  ghost predicate OrderAt(order: seq<nat>, s: Shape, base: nat) {
    match s
    case Tip(_) => true
    case Fork(i, _, l, r) =>
      base < |order| && order[base] == i && OrderAt(order, l, base + 1) && OrderAt(order, r, base + 1 + Size(l))
  }

  lemma {:induction false} OrderAtConcat(pre: seq<nat>, s: Shape, post: seq<nat>)
    ensures OrderAt(pre + PreOrder(s) + post, s, |pre|)
    decreases s
  {
    if s.Fork? {
      var l, r := PreOrder(s.left), PreOrder(s.right);
      PreOrderIds(s.left);
      OrderAtConcat(pre + [s.idx], s.left, r + post);
      OrderAtConcat(pre + [s.idx] + l, s.right, post);
      Regroup(pre, [s.idx], l, r, post);
    }
  }

  /** A shape whose pre-order stands in `order` at `base` holds, renumbered, in the new array. */
  lemma {:induction false} RenumberHolds(before: seq<ArenaNode>, after: seq<ArenaNode>, order: seq<nat>,
                                         m: map<nat, nat>, s: Shape, base: nat, n: nat, k: nat, k': nat)
    requires Holds(before, s) && Linked(s, n, k) && Renumbered(before, after, order, m)
    requires OrderAt(order, s, base)
    requires NoAliases(s) || (k in m && m[k] == k')
    ensures Holds(after, Renumber(s, base, k'))
    ensures Remap(RecordOf(s), m) == RecordOf(Renumber(s, base, k'))
  {
    if s.Fork? {
      RenumberHolds(before, after, order, m, s.left, base + 1, n, k, k');
      RenumberHolds(before, after, order, m, s.right, base + 1 + Size(s.left), n, k, k');
      assert after[base] == RemapPair(before[order[base]], m);
    }
  }

  /** Going left `j` times reaches the node at pre-order position `j`. */
  lemma {:induction false} LeftmostPosition(s: Shape, j: nat, v: Shape)
    requires Reaches(s, Zeros(j), v) && v.Fork?
    ensures j < |PreOrder(s)| && PreOrder(s)[j] == v.idx
    decreases j
  {
    if j != 0 {
      ZerosTail(j);
      LeftmostPosition(s.left, j - 1, v);
    }
  }
}
