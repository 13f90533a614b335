/**
  The search tree as a value: a binary trie over address bits whose tips say what an address
  resolves to. `Arena.Tree` keeps the same trie in a flat, mutable node array and is proved
  against the functions here; this module proves what those functions mean.
*/
module Tries {
  import opened Prelude
  import opened Bits
  import opened Values

  /** `fixed` marks the node that compaction must keep (`Record::FixedNode`). */
  datatype Trie =
    | Empty
    | Leaf(value: Value)
    | Reserved
    | Alias
    | Branch(fixed: bool, left: Trie, right: Trie)

  /** A caller's leaf operation, a function of the value found at the leaf. */
  type Op = Option<Value> -> Option<Value>

  predicate IsTip(t: Trie) {
    !t.Branch?
  }

  function Child(t: Trie, bit: bool): Trie
    requires t.Branch?
  {
    if bit then t.right else t.left
  }

  function WithChild(t: Trie, bit: bool, c: Trie): Trie
    requires t.Branch?
  {
    if bit then t.(right := c) else t.(left := c)
  }

  /** Follow `a` until a tip, or until the bits run out. */
  function LeafAt(t: Trie, a: Bits): Trie {
    if t.Branch? && a != [] then LeafAt(Child(t, a[0]), a[1..]) else t
  }

  function ValueOf(t: Trie): Option<Value> {
    if t.Leaf? then Some(t.value) else None
  }

  /** What a reader finds for `a`, following alias tips into the subtrie `v4`. */
  function Look(v4: Trie, t: Trie, a: Bits): Option<Value> {
    if t.Branch? && a != [] then Look(v4, Child(t, a[0]), a[1..])
    else if t.Alias? then ValueOf(LeafAt(v4, a))
    else ValueOf(t)
  }

  function Height(t: Trie): nat {
    match t
    case Branch(_, l, r) => 1 + if Height(l) < Height(r) then Height(r) else Height(l)
    case _ => 0
  }

  function Count(t: Trie): nat {
    match t
    case Branch(_, l, r) => 1 + Count(l) + Count(r)
    case _ => 0
  }

  /** No collapsible node: a plain branch never has two equal tips. */
  predicate Merged(t: Trie) {
    match t
    case Branch(fixed, l, r) => (fixed || !(IsTip(l) && l == r)) && Merged(l) && Merged(r)
    case _ => true
  }

  /** Like `Merged`, but two equal reserved tips may stay side by side, as painting leaves them. */
  predicate Tidy(t: Trie) {
    match t
    case Branch(fixed, l, r) => (fixed || !(IsTip(l) && l == r && !l.Reserved?)) && Tidy(l) && Tidy(r)
    case _ => true
  }

  /** Only values and gaps: neither reserved or alias tips nor pinned nodes. */
  predicate Plain(t: Trie) {
    match t
    case Branch(fixed, l, r) => !fixed && Plain(l) && Plain(r)
    case Empty => true
    case Leaf(_) => true
    case _ => false
  }

  predicate NoAlias(t: Trie) {
    match t
    case Branch(_, l, r) => NoAlias(l) && NoAlias(r)
    case Alias => false
    case _ => true
  }

  predicate NoFixed(t: Trie) {
    match t
    case Branch(fixed, l, r) => !fixed && NoFixed(l) && NoFixed(r)
    case _ => true
  }

  /** The children of the root are merged; the root itself is never collapsed. */
  predicate RootMerged(t: Trie) {
    t.Branch? && Merged(t.left) && Merged(t.right)
  }

  predicate RootTidy(t: Trie) {
    t.Branch? && Tidy(t.left) && Tidy(t.right)
  }

  lemma {:induction false} MergedIsTidy(t: Trie)
    requires Merged(t)
    ensures Tidy(t)
  {
    if t.Branch? {
      MergedIsTidy(t.left);
      MergedIsTidy(t.right);
    }
  }

  // --- Insertion --------------------------------------------------------------------------

  function FromOption(o: Option<Value>): Trie {
    match o
    case Some(v) => Leaf(v)
    case None => Empty
  }

  /** The operation at one tip; alias and reserved tips are carved out. */
  function Apply(f: Op, t: Trie): Trie {
    match t
    case Empty => FromOption(f(None))
    case Leaf(v) => FromOption(f(Some(v)))
    case _ => t
  }

  function Fuse(l: Trie, r: Trie): Trie {
    if IsTip(l) && l == r then l else Branch(false, l, r)
  }

  /** Apply `f` at every tip below the remaining prefix `p`, splitting tips above its end. */
  function Insert(t: Trie, p: Bits, f: Op): Trie
    decreases t, |p|
  {
    match t
    case Branch(fixed, l, r) =>
      var l' := if p == [] || !p[0] then Insert(l, p[if p == [] then 0 else 1..], f) else l;
      var r' := if p == [] || p[0] then Insert(r, p[if p == [] then 0 else 1..], f) else r;
      if fixed then Branch(true, l', r') else Fuse(l', r')
    case Empty =>
      if p == [] then Apply(f, t) else Spread(Insert(t, p[1..], f), t, p[0])
    case Leaf(_) =>
      if p == [] then Apply(f, t) else Spread(Insert(t, p[1..], f), t, p[0])
    case _ => t
  }

  /** A split tip: the new child on one side, the old tip on the other. */
  function Spread(grown: Trie, tip: Trie, bit: bool): Trie {
    if bit then Fuse(tip, grown) else Fuse(grown, tip)
  }

  /** Insertion at the root, which is never collapsed. */
  function InsertRoot(t: Trie, p: Bits, f: Op): Trie
    requires t.Branch?
  {
    if p == [] then Branch(t.fixed, Insert(t.left, [], f), Insert(t.right, [], f))
    else WithChild(t, p[0], Insert(Child(t, p[0]), p[1..], f))
  }

  /**
    Insertion is pointwise: every address under the prefix has the operation applied to what it
    resolved to (alias and reserved tips stay), every other address keeps its tip.
  */
  lemma {:induction false} InsertPointwise(t: Trie, p: Bits, f: Op, a: Bits)
    requires Height(t) <= |a| && |p| <= |a|
    ensures LeafAt(Insert(t, p, f), a) == if p <= a then Apply(f, LeafAt(t, a)) else LeafAt(t, a)
    decreases t, |p|
  {
    match t
    case Branch(fixed, l, r) =>
      var c := Child(t, a[0]);
      if p == [] {
        InsertPointwise(c, p, f, a[1..]);
      } else if p[0] == a[0] {
        InsertPointwise(c, p[1..], f, a[1..]);
      }
    case Alias =>
    case Reserved =>
    case _ =>
      if p != [] {
        if p[0] == a[0] {
          InsertPointwise(t, p[1..], f, a[1..]);
        }
        InsertTipAway(t, p, f, a);
      }
  }

  /** Splitting a tip: the side away from the prefix still shows the old tip. */
  lemma InsertTipAway(t: Trie, p: Bits, f: Op, a: Bits)
    requires t.Empty? || t.Leaf?
    requires p != [] && a != []
    ensures LeafAt(Insert(t, p, f), a) ==
            if p[0] == a[0] then LeafAt(Insert(t, p[1..], f), a[1..]) else t
  {
  }

  lemma InsertRootPointwise(t: Trie, p: Bits, f: Op, a: Bits)
    requires t.Branch? && Height(t) <= |a| && |p| <= |a|
    ensures LeafAt(InsertRoot(t, p, f), a) == if p <= a then Apply(f, LeafAt(t, a)) else LeafAt(t, a)
  {
    var c := Child(t, a[0]);
    if p == [] {
      InsertPointwise(c, [], f, a[1..]);
    } else if p[0] == a[0] {
      InsertPointwise(c, p[1..], f, a[1..]);
    }
  }

  function Max(a: nat, b: nat): nat {
    if a < b then b else a
  }

  /** No address is longer than `n` in `t`. */
  predicate Within(t: Trie, n: nat) {
    t.Branch? ==> n > 0 && Within(t.left, n - 1) && Within(t.right, n - 1)
  }

  lemma {:induction false} WithinHeight(t: Trie, n: nat)
    ensures Within(t, n) <==> Height(t) <= n
  {
    if t.Branch? && n > 0 {
      WithinHeight(t.left, n - 1);
      WithinHeight(t.right, n - 1);
    }
  }

  /** Insertion never builds below the longer of the trie and the prefix. */
  lemma InsertHeight(t: Trie, p: Bits, f: Op)
    ensures Height(Insert(t, p, f)) <= Max(Height(t), |p|)
  {
    var n := Max(Height(t), |p|);
    WithinHeight(t, n);
    InsertWithin(t, p, f, n);
    WithinHeight(Insert(t, p, f), n);
  }

  lemma {:induction false} InsertWithin(t: Trie, p: Bits, f: Op, n: nat)
    requires Within(t, n) && |p| <= n
    ensures Within(Insert(t, p, f), n)
    decreases t, |p|
  {
    match t
    case Branch(_, l, r) =>
      if p == [] {
        InsertWithin(l, p, f, n - 1);
        InsertWithin(r, p, f, n - 1);
      } else {
        InsertWithin(Child(t, p[0]), p[1..], f, n - 1);
      }
    case Alias =>
    case Reserved =>
    case _ =>
      if p != [] {
        InsertWithin(t, p[1..], f, n - 1);
      }
  }

  /** Insertion keeps the trie fully merged. */
  lemma {:induction false} InsertMerged(t: Trie, p: Bits, f: Op)
    requires Merged(t)
    ensures Merged(Insert(t, p, f))
    decreases t, |p|
  {
    match t
    case Branch(_, l, r) =>
      if p == [] {
        InsertMerged(l, p, f);
        InsertMerged(r, p, f);
      } else {
        InsertMerged(Child(t, p[0]), p[1..], f);
      }
    case Alias =>
    case Reserved =>
    case _ =>
      if p != [] {
        InsertMerged(t, p[1..], f);
      }
  }

  /** Insertion keeps the trie tidy. */
  lemma {:induction false} InsertTidy(t: Trie, p: Bits, f: Op)
    requires Tidy(t)
    ensures Tidy(Insert(t, p, f))
    decreases t, |p|
  {
    match t
    case Branch(_, l, r) =>
      if p == [] {
        InsertTidy(l, p, f);
        InsertTidy(r, p, f);
      } else {
        InsertTidy(Child(t, p[0]), p[1..], f);
      }
    case Alias =>
    case Reserved =>
    case _ =>
      if p != [] {
        InsertTidy(t, p[1..], f);
      }
  }

  /** Insertion introduces no alias tip and no pinned node, and no reserved tip either. */
  lemma {:induction false} InsertKinds(t: Trie, p: Bits, f: Op)
    ensures NoAlias(t) ==> NoAlias(Insert(t, p, f))
    ensures NoFixed(t) ==> NoFixed(Insert(t, p, f))
    ensures Plain(t) ==> Plain(Insert(t, p, f))
    decreases t, |p|
  {
    match t
    case Branch(_, l, r) =>
      if p == [] {
        InsertKinds(l, p, f);
        InsertKinds(r, p, f);
      } else {
        InsertKinds(Child(t, p[0]), p[1..], f);
      }
    case Alias =>
    case Reserved =>
    case _ =>
      if p != [] {
        InsertKinds(t, p[1..], f);
      }
  }

  // --- Markers ----------------------------------------------------------------------------

  const NODE: Trie := Branch(false, Empty, Empty)

  /** Set the record at the end of `p` to `m` if the way there is free. */
  function Mark(t: Trie, p: Bits, m: Trie): Trie
    decreases |p|
  {
    if p == [] || !t.Branch? then t
    else
      var c := Child(t, p[0]);
      WithChild(t, p[0],
                if |p| == 1 then (if c.Empty? then m else c)
                else if c.Branch? then Mark(c, p[1..], m)
                else if c.Empty? then Mark(NODE, p[1..], m)
                else c)
  }

  /** The slot `p` takes a marker: no occupied tip on the way and nothing at its end. */
  predicate SlotFree(t: Trie, p: Bits)
    decreases |p|
  {
    p != [] && t.Branch? &&
    var c := Child(t, p[0]);
    if |p| == 1 then c.Empty?
    else if c.Branch? then SlotFree(c, p[1..])
    else c.Empty?
  }

  /** A marker changes exactly the addresses under its prefix, and only if the slot is free. */
  lemma {:induction false} MarkPointwise(t: Trie, p: Bits, m: Trie, a: Bits)
    requires IsTip(m) && Height(t) <= |a| && |p| <= |a|
    ensures LeafAt(Mark(t, p, m), a) == if p <= a && SlotFree(t, p) then m else LeafAt(t, a)
    decreases |p|
  {
    if p != [] && t.Branch? && p[0] == a[0] {
      var c := Child(t, p[0]);
      if |p| > 1 {
        if c.Branch? {
          MarkPointwise(c, p[1..], m, a[1..]);
        } else if c.Empty? {
          MarkPointwise(NODE, p[1..], m, a[1..]);
          SlotFreeFresh(p[1..]);
          NodeIsEmpty(a[1..]);
        }
      } else {
        assert p == [p[0]];
      }
    }
  }

  lemma {:induction false} SlotFreeFresh(p: Bits)
    requires p != []
    ensures SlotFree(NODE, p)
  {
  }

  lemma NodeIsEmpty(a: Bits)
    requires a != []
    ensures LeafAt(NODE, a) == Empty
  {
  }

  lemma {:induction false} MarkShape(t: Trie, p: Bits, m: Trie)
    requires IsTip(m)
    ensures Height(Mark(t, p, m)) <= Max(Height(t), |p|)
    ensures Mark(t, p, m).Branch? == t.Branch?
    ensures NoFixed(t) ==> NoFixed(Mark(t, p, m))
    ensures NoAlias(t) && !m.Alias? ==> NoAlias(Mark(t, p, m))
    decreases |p|
  {
    if p != [] && t.Branch? && |p| > 1 {
      var c := Child(t, p[0]);
      if c.Branch? {
        MarkShape(c, p[1..], m);
      } else if c.Empty? {
        MarkShape(NODE, p[1..], m);
      }
    }
  }

  /** A reserved marker keeps the trie tidy. */
  lemma {:induction false} MarkTidy(t: Trie, p: Bits)
    requires RootTidy(t)
    ensures RootTidy(Mark(t, p, Reserved))
    ensures Tidy(t) || SlotFree(t, p) ==> Tidy(Mark(t, p, Reserved))
    decreases |p|
  {
    if |p| > 1 {
      var c := Child(t, p[0]);
      if c.Branch? {
        MarkTidy(c, p[1..]);
      } else if c.Empty? {
        MarkTidy(NODE, p[1..]);
        SlotFreeFresh(p[1..]);
      }
      MarkShape(if c.Branch? then c else NODE, p[1..], Reserved);
    }
  }

  /** Neither bit string is a prefix of the other. */
  predicate Apart(p: Bits, q: Bits) {
    !(p <= q) && !(q <= p)
  }

  lemma ApartTail(p: Bits, q: Bits)
    requires p != [] && q != [] && p[0] == q[0] && Apart(p, q)
    ensures Apart(p[1..], q[1..])
  {
    assert p == [p[0]] + p[1..] && q == [q[0]] + q[1..];
  }

  /** Marking one slot leaves every slot and subtrie apart from it as it was. */
  lemma {:induction false} MarkElsewhere(t: Trie, p: Bits, m: Trie, q: Bits)
    requires IsTip(m) && Apart(p, q)
    ensures SlotFree(Mark(t, p, m), q) == SlotFree(t, q)
    ensures LeafAt(t, q).Branch? ==> LeafAt(Mark(t, p, m), q) == LeafAt(t, q)
    decreases |p|
  {
    if t.Branch? && p[0] == q[0] {
      ApartTail(p, q);
      var c := Child(t, p[0]);
      if |p| > 1 && c.Branch? {
        MarkElsewhere(c, p[1..], m, q[1..]);
      } else if |p| > 1 && c.Empty? {
        MarkElsewhere(NODE, p[1..], m, q[1..]);
        SlotFreeFresh(q[1..]);
      }
    }
  }

  /** Put `u` in the place that `path` reaches. */
  function Replace(t: Trie, path: Bits, u: Trie): Trie {
    if path == [] || !t.Branch? then u else WithChild(t, path[0], Replace(Child(t, path[0]), path[1..], u))
  }

  lemma {:induction false} ReplaceLaw(t: Trie, path: Bits, u: Trie, w: Trie)
    requires LeafAt(t, path).Branch? && u.Branch?
    ensures LeafAt(Replace(t, path, u), path) == u
    ensures Replace(Replace(t, path, u), path, w) == Replace(t, path, w)
    ensures Replace(t, path, LeafAt(t, path)) == t
  {
    if path != [] {
      ReplaceLaw(Child(t, path[0]), path[1..], u, w);
    }
  }

  /** Marking can be carried out from any branch on the way. */
  lemma {:induction false} MarkVia(t: Trie, path: Bits, rest: Bits, m: Trie)
    requires LeafAt(t, path).Branch? && rest != []
    ensures Mark(t, path + rest, m) == Replace(t, path, Mark(LeafAt(t, path), rest, m))
    decreases |path|
  {
    if path == [] {
      assert path + rest == rest;
    } else {
      assert (path + rest)[1..] == path[1..] + rest;
      MarkVia(Child(t, path[0]), path[1..], rest, m);
    }
  }

  /** One step of the marker walk, from the branch `c` at `path` towards `rest`. */
  lemma MarkStep(t: Trie, path: Bits, rest: Bits, m: Trie)
    requires LeafAt(t, path).Branch? && rest != []
    ensures var c := LeafAt(t, path);
            var child := Child(c, rest[0]);
            && (|rest| == 1 && child.Empty? ==>
                  Mark(t, path + rest, m) == Replace(t, path, WithChild(c, rest[0], m)))
            && (!child.Branch? && !child.Empty? ==> Mark(t, path + rest, m) == t)
            && (|rest| == 1 && !child.Empty? ==> Mark(t, path + rest, m) == t)
            && (|rest| > 1 && child.Empty? ==>
                  Mark(t, path + rest, m) == Mark(Replace(t, path, WithChild(c, rest[0], NODE)), path + rest, m))
  {
    var c := LeafAt(t, path);
    MarkVia(t, path, rest, m);
    var u := WithChild(c, rest[0], NODE);
    ReplaceLaw(t, path, u, Mark(u, rest, m));
    MarkVia(Replace(t, path, u), path, rest, m);
  }

  // --- Compaction -------------------------------------------------------------------------

  function Compact(t: Trie): Trie {
    match t
    case Branch(true, l, r) => Branch(true, Compact(l), Compact(r))
    case Branch(false, l, r) => Fuse(Compact(l), Compact(r))
    case _ => t
  }

  function CompactRoot(t: Trie): Trie
    requires t.Branch?
  {
    Branch(t.fixed, Compact(t.left), Compact(t.right))
  }

  /** Compaction keeps what every address resolves to, alias and reserved tips included. */
  lemma {:induction false} CompactLeafAt(t: Trie, a: Bits)
    requires Height(t) <= |a|
    ensures LeafAt(Compact(t), a) == LeafAt(t, a)
  {
    if t.Branch? {
      CompactLeafAt(Child(t, a[0]), a[1..]);
    }
  }

  /** Nothing collapsible survives compaction, the trie never grows, and no kind of tip appears. */
  lemma {:induction false} CompactShape(t: Trie)
    ensures Merged(Compact(t))
    ensures Count(Compact(t)) <= Count(t)
    ensures Height(Compact(t)) <= Height(t)
    ensures NoAlias(t) ==> NoAlias(Compact(t))
    ensures NoFixed(t) ==> NoFixed(Compact(t))
    ensures Plain(t) ==> Plain(Compact(t))
  {
    if t.Branch? {
      CompactShape(t.left);
      CompactShape(t.right);
    }
  }

  /** A merged trie is already compact; with `CompactShape`, compaction is idempotent. */
  lemma {:induction false} CompactFixpoint(t: Trie)
    requires Merged(t)
    ensures Compact(t) == t
  {
    if t.Branch? {
      CompactFixpoint(t.left);
      CompactFixpoint(t.right);
    }
  }

  lemma CompactRootIdempotent(t: Trie)
    requires t.Branch?
    ensures RootMerged(CompactRoot(t))
    ensures CompactRoot(CompactRoot(t)) == CompactRoot(t)
  {
    CompactShape(t.left);
    CompactShape(t.right);
    CompactFixpoint(Compact(t.left));
    CompactFixpoint(Compact(t.right));
  }

  /** Every pinned node is kept, on its own path, with its inside compacted. */
  lemma {:induction false} CompactKeepsFixed(t: Trie, p: Bits)
    requires LeafAt(t, p).Branch? && LeafAt(t, p).fixed
    ensures LeafAt(Compact(t), p) == Compact(LeafAt(t, p))
    ensures Compact(t).Branch?
  {
    if p != [] {
      CompactKeepsFixed(Child(t, p[0]), p[1..]);
    }
  }

  /** In a merged trie a branch distinguishes addresses: its tips are not all the same; in a tidy one not all `x`. */
  lemma {:induction false} BranchDistinguishes(t: Trie, x: Trie, n: nat) returns (a: Bits)
    requires t.Branch? && NoFixed(t) && Height(t) <= n
    requires Merged(t) || (Tidy(t) && x != Reserved)
    ensures |a| == n && LeafAt(t, a) != x
  {
    if t.left.Branch? {
      var b := BranchDistinguishes(t.left, x, n - 1);
      a := [false] + b;
      assert a[1..] == b;
    } else if t.right.Branch? {
      var b := BranchDistinguishes(t.right, x, n - 1);
      a := [true] + b;
      assert a[1..] == b;
    } else {
      a := [t.left == x] + Zeros(n - 1);
    }
  }

  /** The two tries resolve every address of `n` bits alike. */
  ghost predicate SameTips(t: Trie, u: Trie, n: nat) {
    forall a: Bits :: |a| == n ==> LeafAt(t, a) == LeafAt(u, a)
  }

  lemma SameTipsAt(t: Trie, u: Trie, n: nat, a: Bits)
    requires SameTips(t, u, n) && |a| == n
    ensures LeafAt(t, a) == LeafAt(u, a)
  {
  }

  lemma SameTipsChild(t: Trie, u: Trie, n: nat, bit: bool)
    requires t.Branch? && u.Branch? && n > 0 && SameTips(t, u, n)
    ensures SameTips(Child(t, bit), Child(u, bit), n - 1)
  {
    forall a: Bits | |a| == n - 1
      ensures LeafAt(Child(t, bit), a) == LeafAt(Child(u, bit), a)
    {
      assert ([bit] + a)[1..] == a;
      assert LeafAt(t, [bit] + a) == LeafAt(u, [bit] + a);
    }
  }

  /** Merged tries are canonical: equal resolution means equal structure. */
  lemma {:induction false} MergedCanonical(t: Trie, u: Trie, n: nat)
    requires Merged(t) && Merged(u) && NoFixed(t) && NoFixed(u)
    requires Height(t) <= n && Height(u) <= n && SameTips(t, u, n)
    ensures t == u
  {
    if t.Branch? && u.Branch? {
      SameTipsChild(t, u, n, false);
      SameTipsChild(t, u, n, true);
      MergedCanonical(t.left, u.left, n - 1);
      MergedCanonical(t.right, u.right, n - 1);
    } else if t.Branch? {
      var a := BranchDistinguishes(t, u, n);
      SameTipsAt(t, u, n, a);
    } else if u.Branch? {
      var a := BranchDistinguishes(u, t, n);
      SameTipsAt(t, u, n, a);
    } else {
      assert LeafAt(t, Zeros(n)) == LeafAt(u, Zeros(n));
    }
  }

  lemma RootCanonical(t: Trie, u: Trie, n: nat)
    requires RootMerged(t) && RootMerged(u) && NoFixed(t) && NoFixed(u)
    requires Height(t) <= n && Height(u) <= n && SameTips(t, u, n)
    ensures t == u
  {
    SameTipsChild(t, u, n, false);
    SameTipsChild(t, u, n, true);
    MergedCanonical(t.left, u.left, n - 1);
    MergedCanonical(t.right, u.right, n - 1);
  }

  lemma CompactSameTips(t: Trie, n: nat)
    requires t.Branch? && Height(t) <= n
    ensures SameTips(CompactRoot(t), t, n)
  {
    forall a: Bits | |a| == n
      ensures LeafAt(CompactRoot(t), a) == LeafAt(t, a)
    {
      CompactLeafAt(Child(t, a[0]), a[1..]);
    }
  }

  /** Compaction is optimal: no rooted trie with the same resolution has fewer nodes. */
  lemma CompactOptimal(t: Trie, u: Trie, n: nat)
    requires t.Branch? && u.Branch? && NoFixed(t) && NoFixed(u)
    requires Height(t) <= n && Height(u) <= n && SameTips(t, u, n)
    ensures Count(CompactRoot(t)) <= Count(u)
  {
    CompactShape(t.left);
    CompactShape(t.right);
    CompactShape(u.left);
    CompactShape(u.right);
    CompactSameTips(t, n);
    CompactSameTips(u, n);
    RootCanonical(CompactRoot(t), CompactRoot(u), n);
  }
}
