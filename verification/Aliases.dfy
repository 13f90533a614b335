/**
  The two uses of markers in the source: the IPv4 alias records that `build` installs
  (`Tree::install_ipv4_aliases`) and the reserved networks painted on a fresh tree.
*/
module Aliases {
  import opened Bits
  import opened Tries

  const V4_DEPTH: nat := 96

  /** `::ffff:0:0/96`, `2001::/32` and `2002::/16`. */
  const MAPPED: Bits := Zeros(80) + ToBits(0xFFFF, 16)
  const TEREDO: Bits := ToBits(0x2001, 16) + Zeros(16)
  const SIX_TO_FOUR: Bits := ToBits(0x2002, 16)

  predicate IsAliasPrefix(p: Bits) {
    p == MAPPED || p == TEREDO || p == SIX_TO_FOUR
  }

  /** The walk of `n` left children meets only ordinary nodes (`Record::Node`). */
  predicate PlainWalk(t: Trie, n: nat) {
    t.Branch? && (n > 0 ==> t.left.Branch? && !t.left.fixed && PlainWalk(t.left, n - 1))
  }

  /** Turn the node `n` left children down into one that compaction keeps. */
  function Pin(t: Trie, n: nat): Trie
    requires PlainWalk(t, n)
    decreases n
  {
    if n == 0 then t.(fixed := true) else t.(left := Pin(t.left, n - 1))
  }

  /** `Tree::install_ipv4_aliases`. */
  function InstallAliases(t: Trie): Trie {
    if PlainWalk(t, V4_DEPTH) then
      Mark(Mark(Mark(Pin(t, V4_DEPTH), MAPPED, Alias), TEREDO, Alias), SIX_TO_FOUR, Alias)
    else t
  }

  /** The alias prefixes are those of the three 128-bit constants in the source. */
  lemma AliasConstants(w: nat)
    requires w == 128
    ensures ToBits(0xFFFF_0000_0000, w) == MAPPED + Zeros(32)
    ensures ToBits(0x2001_0000_0000_0000_0000_0000_0000_0000, w) == TEREDO + Zeros(96)
    ensures ToBits(0x2002_0000_0000_0000_0000_0000_0000_0000, w) == SIX_TO_FOUR + Zeros(112)
  {
    var k, j := 32, 112;
    Pow2OfWidths(k);
    Pow2Of112(j);
    MappedConstant(k, w);
    ToBitsShifted(0x2001, 16, j);
    ToBitsShifted(0x2002, 16, j);
    assert TEREDO + Zeros(96) == ToBits(0x2001, 16) + Zeros(j);
  }

  lemma MappedConstant(k: nat, w: nat)
    requires k == 32 && w == 128 && Pow2(k) == 0x1_0000_0000
    ensures ToBits(0xFFFF_0000_0000, w) == MAPPED + Zeros(32)
  {
    var i, z := 16, 80;
    assert Pow2(8) == 0x100;
    Pow2Twice(8, 0x100);
    ToBitsPad(0xFFFF, z, i);
    ToBitsShifted(0xFFFF, z + i, k);
  }

  lemma Pow2Of112(j: nat)
    requires j == 112
    ensures Pow2(j) == 0x1_0000_0000_0000_0000_0000_0000_0000
  {
    var i := 8;
    assert Pow2(i) == 0x100;
    Pow2Twice(i, 0x100);
    Pow2OfWidths(j - i - i);
    Pow2Add(j - i - i, i + i);
  }

  /** The subtrie that alias records point to. */
  function V4Of(t: Trie): Trie {
    LeafAt(t, Zeros(V4_DEPTH))
  }

  /** The IPv4 address that `a` carries after the alias prefix `p`, as an address of the tree. */
  function Embedded(a: Bits, p: Bits): Bits
    requires p <= a && |p| + 32 <= |a|
  {
    Zeros(V4_DEPTH) + a[|p|..|p| + 32]
  }

  // --- Pinning the IPv4 root ----------------------------------------------------------------

  lemma ZerosTail(n: nat)
    requires n > 0
    ensures Zeros(n)[1..] == Zeros(n - 1)
  {
  }

  /** Pinning changes the flag of one node, and neither lookups nor free slots. */
  lemma PinLaw(t: Trie, n: nat, a: Bits, q: Bits)
    requires PlainWalk(t, n) && Height(t) <= |a|
    ensures Pin(t, n).Branch? && Height(Pin(t, n)) == Height(t)
    ensures LeafAt(Pin(t, n), a) == LeafAt(t, a)
    ensures SlotFree(Pin(t, n), q) == SlotFree(t, q)
    ensures LeafAt(t, Zeros(n)).Branch?
    ensures LeafAt(Pin(t, n), Zeros(n)) == LeafAt(t, Zeros(n)).(fixed := true)
  {
    PinShape(t, n);
    PinLookup(t, n, a);
    PinSlots(t, n, q);
  }

  lemma {:induction false} PinShape(t: Trie, n: nat)
    requires PlainWalk(t, n)
    ensures Pin(t, n).Branch? && Height(Pin(t, n)) == Height(t)
    ensures LeafAt(t, Zeros(n)).Branch?
    ensures LeafAt(Pin(t, n), Zeros(n)) == LeafAt(t, Zeros(n)).(fixed := true)
    decreases n
  {
    if n > 0 {
      ZerosTail(n);
      PinShape(t.left, n - 1);
    }
  }

  lemma {:induction false} PinLookup(t: Trie, n: nat, a: Bits)
    requires PlainWalk(t, n) && Height(t) <= |a|
    ensures LeafAt(Pin(t, n), a) == LeafAt(t, a)
    decreases n
  {
    if n > 0 && !a[0] {
      PinLookup(t.left, n - 1, a[1..]);
    }
  }

  lemma {:induction false} PinSlots(t: Trie, n: nat, q: Bits)
    requires PlainWalk(t, n)
    ensures SlotFree(Pin(t, n), q) == SlotFree(t, q)
    decreases n
  {
    if n > 0 && q != [] && !q[0] {
      PinSlots(t.left, n - 1, q[1..]);
    }
  }

  /** Pinning is a replacement at the parent of the pinned node. */
  lemma {:induction false} PinIsReplace(t: Trie, n: nat)
    requires n > 0 && PlainWalk(t, n)
    ensures var c := LeafAt(t, Zeros(n - 1));
            && c.Branch? && c.left.Branch?
            && Pin(t, n) == Replace(t, Zeros(n - 1), WithChild(c, false, c.left.(fixed := true)))
    decreases n
  {
    if n > 1 {
      ZerosTail(n - 1);
      PinIsReplace(t.left, n - 1);
    }
  }

  lemma {:induction false} LeafAtConcat(t: Trie, p: Bits, a: Bits)
    ensures LeafAt(t, p + a) == LeafAt(LeafAt(t, p), a)
  {
    if p == [] {
      assert p + a == a;
    } else if t.Branch? {
      assert (p + a)[1..] == p[1..] + a;
      LeafAtConcat(Child(t, p[0]), p[1..], a);
    }
  }

  /** Bits beyond the height of a trie are not read. */
  lemma {:induction false} LeafAtPrefix(t: Trie, a: Bits, n: nat)
    requires Height(t) <= n <= |a|
    ensures LeafAt(t, a) == LeafAt(t, a[..n])
  {
    if t.Branch? {
      assert a[..n][1..] == a[1..][..n - 1];
      LeafAtPrefix(Child(t, a[0]), a[1..], n - 1);
    }
  }

  lemma {:induction false} SubtrieHeight(t: Trie, p: Bits)
    requires LeafAt(t, p).Branch?
    ensures Height(LeafAt(t, p)) + |p| <= Height(t)
    ensures NoAlias(t) ==> NoAlias(LeafAt(t, p))
  {
    if p != [] {
      SubtrieHeight(Child(t, p[0]), p[1..]);
    }
  }

  // --- The three alias ranges -----------------------------------------------------------------

  lemma DifferAt(p: Bits, q: Bits, i: nat)
    requires i < |p| && i < |q| && p[i] != q[i]
    ensures Apart(p, q) && Apart(q, p)
  {
  }

  lemma MappedBits()
    ensures |MAPPED| == 96 && !MAPPED[2] && MAPPED[95]
  {
    ToBitsAt(0xFFFF, 16, 15);
  }

  lemma TeredoBits()
    ensures |TEREDO| == 32 && TEREDO[2] && !TEREDO[14]
  {
    ToBitsAt(0x2001, 16, 2);
    ToBitsAt(0x2001, 16, 14);
  }

  lemma SixToFourBits()
    ensures |SIX_TO_FOUR| == 16 && SIX_TO_FOUR[2] && SIX_TO_FOUR[14]
  {
    ToBitsAt(0x2002, 16, 2);
    ToBitsAt(0x2002, 16, 14);
  }

  /** The alias ranges are apart from each other and from the IPv4 range itself. */
  lemma AliasesApart()
    ensures |MAPPED| == 96 && |TEREDO| == 32 && |SIX_TO_FOUR| == 16
    ensures Apart(MAPPED, TEREDO) && Apart(MAPPED, SIX_TO_FOUR) && Apart(TEREDO, SIX_TO_FOUR)
    ensures Apart(MAPPED, Zeros(V4_DEPTH)) && Apart(TEREDO, Zeros(V4_DEPTH))
    ensures Apart(SIX_TO_FOUR, Zeros(V4_DEPTH))
  {
    MappedBits();
    TeredoBits();
    SixToFourBits();
    DifferAt(MAPPED, TEREDO, 2);
    DifferAt(MAPPED, SIX_TO_FOUR, 2);
    DifferAt(TEREDO, SIX_TO_FOUR, 14);
    DifferAt(MAPPED, Zeros(V4_DEPTH), 95);
    DifferAt(TEREDO, Zeros(V4_DEPTH), 2);
    DifferAt(SIX_TO_FOUR, Zeros(V4_DEPTH), 2);
  }

  /** Two prefixes of one address are not apart. */
  lemma PrefixesMeet(p: Bits, q: Bits, a: Bits)
    requires p <= a && q <= a
    ensures !Apart(p, q)
  {
    if |p| <= |q| {
      assert p == q[..|p|];
    } else {
      assert q == p[..|q|];
    }
  }

  /** `a` lies in an alias range whose slot takes a record. */
  predicate Aliased(t: Trie, a: Bits, p: Bits) {
    PlainWalk(t, V4_DEPTH) && IsAliasPrefix(p) && p <= a && SlotFree(t, p)
  }

  /** Marking three slots that are apart: each address sees at most its own marker. */
  lemma ThreeMarks(t: Trie, p: Bits, q: Bits, r: Bits, a: Bits)
    requires Height(t) <= |a| && |p| <= |a| && |q| <= |a| && |r| <= |a|
    requires Apart(p, q) && Apart(p, r) && Apart(q, r)
    ensures LeafAt(Mark(Mark(Mark(t, p, Alias), q, Alias), r, Alias), a) ==
            if (p <= a && SlotFree(t, p)) || (q <= a && SlotFree(t, q)) || (r <= a && SlotFree(t, r))
            then Alias else LeafAt(t, a)
    ensures Height(Mark(Mark(Mark(t, p, Alias), q, Alias), r, Alias)) <= |a|
    ensures Mark(Mark(Mark(t, p, Alias), q, Alias), r, Alias).Branch? == t.Branch?
  {
    var t1 := Mark(t, p, Alias);
    var t2 := Mark(t1, q, Alias);
    MarkShape(t, p, Alias);
    MarkShape(t1, q, Alias);
    MarkShape(t2, r, Alias);
    MarkPointwise(t, p, Alias, a);
    MarkPointwise(t1, q, Alias, a);
    MarkPointwise(t2, r, Alias, a);
    MarkElsewhere(t, p, Alias, q);
    MarkElsewhere(t, p, Alias, r);
    MarkElsewhere(t1, q, Alias, r);
  }

  /** The IPv4 subtrie survives the marks: it lies apart from all of them. */
  lemma ThreeMarksElsewhere(t: Trie, p: Bits, q: Bits, r: Bits, z: Bits)
    requires Apart(p, z) && Apart(q, z) && Apart(r, z) && LeafAt(t, z).Branch?
    ensures LeafAt(Mark(Mark(Mark(t, p, Alias), q, Alias), r, Alias), z) == LeafAt(t, z)
  {
    var t1 := Mark(t, p, Alias);
    MarkElsewhere(t, p, Alias, z);
    MarkElsewhere(t1, q, Alias, z);
    MarkElsewhere(Mark(t1, q, Alias), r, Alias, z);
  }

  /** Installation puts an alias tip at exactly the free alias ranges and pins the IPv4 root. */
  lemma InstallTips(t: Trie, a: Bits)
    requires PlainWalk(t, V4_DEPTH) && Height(t) <= |a| && |a| == 128
    ensures var t' := InstallAliases(t);
            && t'.Branch? && Height(t') <= 128
            && (LeafAt(t', a) == if exists p :: Aliased(t, a, p) then Alias else LeafAt(t, a))
            && LeafAt(t, Zeros(V4_DEPTH)).Branch?
            && V4Of(t') == LeafAt(t, Zeros(V4_DEPTH)).(fixed := true)
  {
    AliasesApart();
    var t0 := Pin(t, V4_DEPTH);
    PinLaw(t, V4_DEPTH, a, MAPPED);
    PinLaw(t, V4_DEPTH, a, TEREDO);
    PinLaw(t, V4_DEPTH, a, SIX_TO_FOUR);
    ThreeMarks(t0, MAPPED, TEREDO, SIX_TO_FOUR, a);
    ThreeMarksElsewhere(t0, MAPPED, TEREDO, SIX_TO_FOUR, Zeros(V4_DEPTH));
    assert Aliased(t, a, MAPPED) <==> MAPPED <= a && SlotFree(t, MAPPED);
    assert Aliased(t, a, TEREDO) <==> TEREDO <= a && SlotFree(t, TEREDO);
    assert Aliased(t, a, SIX_TO_FOUR) <==> SIX_TO_FOUR <= a && SlotFree(t, SIX_TO_FOUR);
  }

  /** A tip reached through `Look` is read either directly or through the alias target. */
  lemma {:induction false} LookAtTip(v4: Trie, t: Trie, a: Bits)
    ensures !LeafAt(t, a).Alias? ==> Look(v4, t, a) == ValueOf(LeafAt(t, a))
  {
    if t.Branch? && a != [] {
      LookAtTip(v4, Child(t, a[0]), a[1..]);
    }
  }

  /** If an alias tip sits exactly at the end of `p`, the rest of the address is read below `v4`. */
  lemma {:induction false} LookThroughAlias(v4: Trie, t: Trie, p: Bits, a: Bits)
    requires p <= a && LeafAt(t, p).Alias? && AliasDepth(t, a) == |p|
    ensures Look(v4, t, a) == ValueOf(LeafAt(v4, a[|p|..]))
    decreases |p|
  {
    if p != [] {
      LookThroughAlias(v4, Child(t, p[0]), p[1..], a[1..]);
      assert a[1..][|p| - 1..] == a[|p|..];
    }
  }

  /** How many bits the walk along `a` reads. */
  function AliasDepth(t: Trie, a: Bits): nat {
    if t.Branch? && a != [] then 1 + AliasDepth(Child(t, a[0]), a[1..]) else 0
  }

  /** A marker sits at the depth of its prefix. */
  lemma {:induction false} MarkDepth(t: Trie, p: Bits, m: Trie, a: Bits)
    requires IsTip(m) && |p| <= |a|
    ensures p <= a && SlotFree(t, p) ==> AliasDepth(Mark(t, p, m), a) == |p| && LeafAt(Mark(t, p, m), p) == m
    decreases |p|
  {
    if p <= a && SlotFree(t, p) && |p| > 1 {
      var c := Child(t, p[0]);
      MarkDepth(if c.Branch? then c else NODE, p[1..], m, a[1..]);
      SlotFreeFresh(p[1..]);
    }
  }

  /** A mark apart from `a` does not change the walk along `a`. */
  lemma {:induction false} MarkDepthElsewhere(t: Trie, p: Bits, m: Trie, q: Bits, a: Bits)
    requires IsTip(m) && Apart(p, q) && q <= a && LeafAt(t, q).Alias? && AliasDepth(t, a) == |q|
    ensures LeafAt(Mark(t, p, m), q) == LeafAt(t, q) && AliasDepth(Mark(t, p, m), a) == |q|
    decreases |p|
  {
    if t.Branch? && p != [] && q != [] && p[0] == q[0] {
      ApartTail(p, q);
      var c := Child(t, p[0]);
      MarkDepthElsewhere(c, p[1..], m, q[1..], a[1..]);
    }
  }

  /** Each of three marks in slots that are apart stays where it was put. */
  lemma ThreeMarksDepth(t: Trie, p: Bits, q: Bits, r: Bits, x: Bits, a: Bits)
    requires Apart(p, q) && Apart(p, r) && Apart(q, r) && |p| <= |a| && |q| <= |a| && |r| <= |a|
    requires x == p || x == q || x == r
    requires x <= a && SlotFree(t, x)
    ensures var t' := Mark(Mark(Mark(t, p, Alias), q, Alias), r, Alias);
            LeafAt(t', x).Alias? && AliasDepth(t', a) == |x|
  {
    var t1 := Mark(t, p, Alias);
    var t2 := Mark(t1, q, Alias);
    MarkDepth(t, p, Alias, a);
    MarkElsewhere(t, p, Alias, q);
    MarkDepth(t1, q, Alias, a);
    MarkElsewhere(t, p, Alias, r);
    MarkElsewhere(t1, q, Alias, r);
    MarkDepth(t2, r, Alias, a);
    if x == p {
      MarkDepthElsewhere(t1, q, Alias, p, a);
    }
    if x != r {
      MarkDepthElsewhere(t2, r, Alias, x, a);
    }
  }

  /** An address that shares all but the last bit of `p` does so one step further down. */
  lemma SiblingTail(p: Bits, b: Bits)
    requires 1 < |p| <= |b| && b[..|p|] == p[..|p| - 1] + [!p[|p| - 1]]
    ensures b[0] == p[0]
    ensures b[1..][..|p[1..]|] == p[1..][..|p[1..]| - 1] + [!p[1..][|p[1..]| - 1]]
  {
    assert b[0] == b[..|p|][0] == p[0];
    assert b[1..][..|p| - 1] == b[..|p|][1..];
  }

  /** Compaction keeps an alias tip in place if something else shares its parent. */
  lemma {:induction false} CompactKeepsAlias(t: Trie, p: Bits, a: Bits, b: Bits)
    requires p != [] && p <= a && LeafAt(t, p).Alias? && AliasDepth(t, a) == |p|
    requires |a| == |b| && Height(t) <= |b| && b[..|p|] == p[..|p| - 1] + [!p[|p| - 1]]
    requires !LeafAt(t, b).Alias?
    ensures LeafAt(Compact(t), p).Alias? && AliasDepth(Compact(t), a) == |p|
  {
    if |p| == 1 {
      assert b[0] == !p[0];
      CompactLeafAt(Child(t, b[0]), b[1..]);
    } else {
      SiblingTail(p, b);
      CompactKeepsAlias(Child(t, p[0]), p[1..], a[1..], b[1..]);
    }
  }

  // --- What a published tree resolves to ------------------------------------------------------

  /** The trie that `build` serializes: aliases installed when asked for, then compacted. */
  function Published(t: Trie, aliasing: bool): Trie
    requires t.Branch?
  {
    InstallIsBranch(t);
    CompactRoot(if aliasing then InstallAliases(t) else t)
  }

  lemma InstallIsBranch(t: Trie)
    requires t.Branch?
    ensures InstallAliases(t).Branch?
  {
    if PlainWalk(t, V4_DEPTH) {
      var t0 := Pin(t, V4_DEPTH);
      var t1 := Mark(t0, MAPPED, Alias);
      MarkShape(t0, MAPPED, Alias);
      MarkShape(t1, TEREDO, Alias);
      MarkShape(Mark(t1, TEREDO, Alias), SIX_TO_FOUR, Alias);
    }
  }

  lemma {:induction false} NoAliasTip(t: Trie, a: Bits)
    requires NoAlias(t)
    ensures !LeafAt(t, a).Alias?
  {
    if t.Branch? && a != [] {
      NoAliasTip(Child(t, a[0]), a[1..]);
    }
  }

  /** The address that shares all but the last bit of an alias prefix is in no alias range. */
  lemma SiblingNotAliased(t: Trie, p: Bits, b: Bits, q: Bits)
    requires IsAliasPrefix(p) && |b| == 128
    requires |p| <= 128 && p != [] && b[..|p|] == p[..|p| - 1] + [!p[|p| - 1]]
    ensures !Aliased(t, b, q)
  {
    MappedBits();
    TeredoBits();
    SixToFourBits();
    var k := |p| - 1;
    assert b[2] == b[..|p|][2] && b[14] == b[..|p|][14] && b[k] == b[..|p|][k] == !p[k];
  }

  /** The alias records of `t` lead to an IPv4 root that is deep enough in the tree. */
  ghost predicate AliasesLand(t: Trie, a: Bits) {
    LeafAt(t, a).Alias? ==>
      V4Of(t).Branch? && NoAlias(V4Of(t)) && Height(V4Of(t)) + AliasDepth(t, a) <= |a|
  }

  /** An installed alias range keeps its alias tip, at the depth of its prefix. */
  lemma PublishedTip(t: Trie, a: Bits, p: Bits)
    requires t.Branch? && NoAlias(t) && Height(t) <= 128 && |a| == 128
    requires Aliased(t, a, p)
    ensures |p| <= V4_DEPTH
    ensures var c := Published(t, true); LeafAt(c, p).Alias? && AliasDepth(c, a) == |p|
  {
    AliasesApart();
    PinLaw(t, V4_DEPTH, a, p);
    InstallTips(t, a);
    ThreeMarksDepth(Pin(t, V4_DEPTH), MAPPED, TEREDO, SIX_TO_FOUR, p, a);
    var b := p[..|p| - 1] + [!p[|p| - 1]] + Zeros(128 - |p|);
    assert b[..|p|] == p[..|p| - 1] + [!p[|p| - 1]];
    NotAliasedTip(t, p, b);
    AliasStays(InstallAliases(t), p, a, b);
  }

  /** The published trie resolves an address in an installed alias range as its IPv4 address. */
  lemma PublishedAlias(t: Trie, a: Bits, p: Bits)
    requires t.Branch? && NoAlias(t) && Height(t) <= 128 && |a| == 128
    requires Aliased(t, a, p)
    ensures |p| + 32 <= 128
    ensures var c := Published(t, true); Look(V4Of(c), c, a) == ValueOf(LeafAt(t, Embedded(a, p)))
  {
    var c := Published(t, true);
    PublishedTip(t, a, p);
    LookThroughAlias(V4Of(c), c, p, a);
    V4Survives(t);
    EmbeddedLookup(t, a, p, V4Of(c));
  }

  /** In a published trie, every alias walk ends inside the IPv4 subtrie. */
  lemma PublishedLands(t: Trie, aliasing: bool, a: Bits)
    requires t.Branch? && NoAlias(t) && Height(t) <= |a| && (aliasing ==> |a| == 128)
    ensures AliasesLand(Published(t, aliasing), a)
  {
    if p :| aliasing && Aliased(t, a, p) {
      PublishedTip(t, a, p);
      V4Survives(t);
      SubtrieHeight(t, Zeros(V4_DEPTH));
      CompactShape(LeafAt(t, Zeros(V4_DEPTH)).(fixed := true));
    } else {
      PublishedElsewhere(t, aliasing, a);
      NoAliasTip(t, a);
    }
  }

  lemma PublishedWithin(t: Trie, aliasing: bool, a: Bits)
    requires t.Branch? && Height(t) <= |a| && (aliasing ==> |a| == 128)
    ensures Published(t, aliasing).Branch? && Height(Published(t, aliasing)) <= |a|
  {
    var t' := if aliasing then InstallAliases(t) else t;
    InstallIsBranch(t);
    if aliasing && PlainWalk(t, V4_DEPTH) {
      InstallTips(t, a);
    }
    CompactShape(t'.left);
    CompactShape(t'.right);
  }

  /** A published trie has aliases only if it has the IPv4 root they lead to. */
  lemma PublishedHasTarget(t: Trie, aliasing: bool)
    requires t.Branch? && NoAlias(t) && Height(t) <= 128
    ensures Published(t, aliasing).Branch?
    ensures NoAlias(Published(t, aliasing)) || V4Of(Published(t, aliasing)).Branch?
  {
    if aliasing && PlainWalk(t, V4_DEPTH) {
      V4Survives(t);
    } else {
      CompactShape(t.left);
      CompactShape(t.right);
    }
  }

  /** Below the root, compaction keeps the alias tip of `CompactKeepsAlias`. */
  lemma AliasStays(t: Trie, p: Bits, a: Bits, b: Bits)
    requires t.Branch? && |p| > 1 && p <= a && LeafAt(t, p).Alias? && AliasDepth(t, a) == |p|
    requires |a| == |b| && Height(t) <= |b| && b[..|p|] == p[..|p| - 1] + [!p[|p| - 1]]
    requires !LeafAt(t, b).Alias?
    ensures LeafAt(CompactRoot(t), p).Alias? && AliasDepth(CompactRoot(t), a) == |p|
  {
    SiblingTail(p, b);
    CompactKeepsAlias(Child(t, p[0]), p[1..], a[1..], b[1..]);
  }

  lemma NotAliasedTip(t: Trie, p: Bits, b: Bits)
    requires PlainWalk(t, V4_DEPTH) && NoAlias(t) && Height(t) <= 128 && |b| == 128
    requires IsAliasPrefix(p) && p != [] && |p| <= 128 && b[..|p|] == p[..|p| - 1] + [!p[|p| - 1]]
    ensures !LeafAt(InstallAliases(t), b).Alias?
  {
    InstallTips(t, b);
    NoAliasTip(t, b);
    forall q ensures !Aliased(t, b, q) {
      SiblingNotAliased(t, p, b, q);
    }
  }

  /** The pinned IPv4 root survives compaction, with its inside compacted. */
  lemma V4Survives(t: Trie)
    requires PlainWalk(t, V4_DEPTH) && Height(t) <= 128
    ensures LeafAt(t, Zeros(V4_DEPTH)).Branch?
    ensures V4Of(Published(t, true)) == Compact(LeafAt(t, Zeros(V4_DEPTH)).(fixed := true))
  {
    InstallTips(t, seq(128, i => false));
    var t' := InstallAliases(t);
    ZerosTail(V4_DEPTH);
    CompactKeepsFixed(t'.left, Zeros(V4_DEPTH - 1));
  }

  /** A subtrie high enough up answers like the whole trie, from its first `n` bits. */
  lemma SubtrieAnswers(t: Trie, z: Bits, v4: Trie, rest: Bits, n: nat)
    requires LeafAt(t, z).Branch? && Height(t) <= |z| + n && n <= |rest| && 0 < n
    requires v4 == LeafAt(t, z).(fixed := true)
    ensures LeafAt(Compact(v4), rest) == LeafAt(t, z + rest[..n])
  {
    SubtrieHeight(t, z);
    CompactLeafAt(v4, rest);
    LeafAtPrefix(v4, rest, n);
    LeafAtConcat(t, z, rest[..n]);
  }

  lemma EmbeddedLookup(t: Trie, a: Bits, p: Bits, v4: Trie)
    requires LeafAt(t, Zeros(V4_DEPTH)).Branch? && Height(t) <= 128 && |a| == 128
    requires v4 == Compact(LeafAt(t, Zeros(V4_DEPTH)).(fixed := true))
    requires p <= a && |p| + 32 <= 128
    ensures ValueOf(LeafAt(v4, a[|p|..])) == ValueOf(LeafAt(t, Embedded(a, p)))
  {
    var z := Zeros(V4_DEPTH);
    SubtrieAnswers(t, z, LeafAt(t, z).(fixed := true), a[|p|..], 32);
    assert a[|p|..][..32] == a[|p|..|p| + 32];
  }

  /** Every address outside the installed alias ranges resolves as before publication. */
  lemma PublishedElsewhere(t: Trie, aliasing: bool, a: Bits)
    requires t.Branch? && NoAlias(t) && Height(t) <= |a|
    requires aliasing ==> |a| == 128 && forall p :: !Aliased(t, a, p)
    ensures var c := Published(t, aliasing);
            && c.Branch? && Height(c) <= |a|
            && LeafAt(c, a) == LeafAt(t, a)
            && Look(V4Of(c), c, a) == ValueOf(LeafAt(t, a))
  {
    InstallIsBranch(t);
    var t' := if aliasing then InstallAliases(t) else t;
    if aliasing && PlainWalk(t, V4_DEPTH) {
      InstallTips(t, a);
    }
    CompactLeafAt(Child(t', a[0]), a[1..]);
    CompactShape(t'.left);
    CompactShape(t'.right);
    NoAliasTip(t, a);
    LookAtTip(V4Of(CompactRoot(t')), CompactRoot(t'), a);
  }

  // --- When an alias is installed -------------------------------------------------------------

  /** Among the addresses that start with `n` zeros, not all resolve alike. */
  ghost predicate Mixed(t: Trie, n: nat, m: nat) {
    exists x: Bits :: |x| == m && LeafAt(t, Zeros(n) + x) != LeafAt(t, Zeros(n) + Zeros(m))
  }

  lemma MixedBy(t: Trie, x: Bits, y: Bits)
    requires |x| == |y| == 32 && LeafAt(t, Zeros(96) + x) != LeafAt(t, Zeros(96) + y)
    ensures Mixed(t, V4_DEPTH, 32)
  {
  }

  /** No address under `p` resolves to anything. */
  ghost predicate Vacant(t: Trie, p: Bits, d: nat) {
    forall a: Bits :: |a| == d && p <= a ==> LeafAt(t, a) == Empty
  }

  lemma MixedLeft(t: Trie, n: nat, m: nat)
    requires t.Branch? && n > 0
    ensures Mixed(t, n, m) <==> Mixed(t.left, n - 1, m)
  {
    forall x: Bits
      ensures LeafAt(t, Zeros(n) + x) == LeafAt(t.left, Zeros(n - 1) + x)
    {
      ZerosTail(n);
      assert (Zeros(n) + x)[1..] == Zeros(n - 1) + x;
    }
  }

  /** The walk reaches a node if the addresses below differ. */
  lemma {:induction false} MixedWalks(t: Trie, n: nat, m: nat)
    requires NoFixed(t) && Mixed(t, n, m)
    ensures PlainWalk(t, n)
    decreases n
  {
    if t.Branch? && n > 0 {
      MixedLeft(t, n, m);
      MixedWalks(t.left, n - 1, m);
    }
  }

  /** In a merged trie it reaches a node exactly then. */
  lemma {:induction false} WalkIffMixed(t: Trie, n: nat, m: nat)
    requires Merged(t) && NoFixed(t) && Height(t) <= n + m && m > 0
    ensures PlainWalk(t, n) <==> Mixed(t, n, m)
    decreases n
  {
    if t.Branch? && n > 0 {
      MixedLeft(t, n, m);
      WalkIffMixed(t.left, n - 1, m);
    } else if t.Branch? {
      var x := BranchDistinguishes(t, LeafAt(t, Zeros(m)), m);
      assert Zeros(0) + x == x && Zeros(0) + Zeros(m) == Zeros(m);
    }
  }

  /** In a tidy trie a slot is free exactly if nothing is stored under it. */
  lemma {:induction false} FreeIffVacant(t: Trie, p: Bits, d: nat)
    requires RootTidy(t) && NoFixed(t) && Height(t) <= d && 0 < |p| <= d
    ensures SlotFree(t, p) <==> Vacant(t, p, d)
    decreases |p|
  {
    var c := Child(t, p[0]);
    VacantChild(t, p, d);
    if c.Branch? && |p| > 1 {
      FreeIffVacant(c, p[1..], d - 1);
    } else if c.Branch? {
      var x := BranchDistinguishes(c, Empty, d - 1);
      assert [] <= x;
      assert !Vacant(c, p[1..], d - 1);
    } else {
      assert p[1..] <= p[1..] + Zeros(d - |p|);
    }
  }

  lemma VacantChild(t: Trie, p: Bits, d: nat)
    requires t.Branch? && 0 < |p| <= d
    ensures Vacant(t, p, d) <==> Vacant(Child(t, p[0]), p[1..], d - 1)
  {
    forall a: Bits | |a| == d && p <= a && Vacant(Child(t, p[0]), p[1..], d - 1)
      ensures LeafAt(t, a) == Empty
    {
      assert p[1..] <= a[1..];
    }
    forall b: Bits | |b| == d - 1 && p[1..] <= b && Vacant(t, p, d)
      ensures LeafAt(Child(t, p[0]), b) == Empty
    {
      assert p <= [p[0]] + b;
      assert LeafAt(t, [p[0]] + b) == Empty;
      assert ([p[0]] + b)[1..] == b;
    }
  }

  /**
    In a trie that inserts built, an alias is installed exactly if not all IPv4 addresses resolve
    alike and nothing at all is stored in the alias range. Data that covers the range keeps the
    alias out; it is not carved out at build time.
  */
  lemma AliasedExactly(t: Trie, a: Bits, p: Bits)
    requires RootMerged(t) && NoFixed(t) && Height(t) <= 128
    ensures Aliased(t, a, p) <==>
            IsAliasPrefix(p) && p <= a && Mixed(t, V4_DEPTH, 32) && Vacant(t, p, 128)
  {
    AliasesApart();
    MixedLeft(t, V4_DEPTH, 32);
    WalkIffMixed(t.left, V4_DEPTH - 1, 32);
    MergedIsTidy(t.left);
    MergedIsTidy(t.right);
    if IsAliasPrefix(p) {
      FreeIffVacant(t, p, 128);
    }
  }

  // --- Reserved networks ----------------------------------------------------------------------

  /** Paint reserved networks in order, as the builder does on a fresh tree. */
  function Paint(t: Trie, ps: seq<Bits>): Trie
    decreases |ps|
  {
    if ps == [] then t else Paint(Mark(t, ps[0], Reserved), ps[1..])
  }

  lemma {:induction false} PaintShape(t: Trie, ps: seq<Bits>, depth: nat)
    requires t.Branch? && Height(t) <= depth && forall i :: 0 <= i < |ps| ==> |ps[i]| <= depth
    ensures Paint(t, ps).Branch? && Height(Paint(t, ps)) <= depth
    ensures NoAlias(t) ==> NoAlias(Paint(t, ps))
    ensures NoFixed(t) ==> NoFixed(Paint(t, ps))
    decreases |ps|
  {
    if ps != [] {
      MarkShape(t, ps[0], Reserved);
      PaintShape(Mark(t, ps[0], Reserved), ps[1..], depth);
    }
  }

  lemma {:induction false} PaintTidy(t: Trie, ps: seq<Bits>)
    requires RootTidy(t)
    ensures RootTidy(Paint(t, ps))
    decreases |ps|
  {
    if ps != [] {
      MarkTidy(t, ps[0]);
      PaintTidy(Mark(t, ps[0], Reserved), ps[1..]);
    }
  }

  ghost predicate PairwiseApart(ps: seq<Bits>) {
    forall i, j :: 0 <= i < j < |ps| ==> Apart(ps[i], ps[j])
  }

  predicate Under(ps: seq<Bits>, a: Bits) {
    exists i :: 0 <= i < |ps| && ps[i] <= a
  }

  /** Painting pairwise disjoint free networks reserves exactly their union. */
  lemma {:induction false} PaintLaw(t: Trie, ps: seq<Bits>, a: Bits)
    requires PairwiseApart(ps) && t.Branch? && Height(t) <= |a|
    requires forall i :: 0 <= i < |ps| ==> |ps[i]| <= |a| && SlotFree(t, ps[i])
    ensures LeafAt(Paint(t, ps), a) == if Under(ps, a) then Reserved else LeafAt(t, a)
    ensures Paint(t, ps).Branch? && Height(Paint(t, ps)) <= |a|
    ensures NoAlias(t) ==> NoAlias(Paint(t, ps))
    ensures NoFixed(t) ==> NoFixed(Paint(t, ps))
    decreases |ps|
  {
    if ps != [] {
      var t' := Mark(t, ps[0], Reserved);
      MarkPointwise(t, ps[0], Reserved, a);
      MarkShape(t, ps[0], Reserved);
      forall i | 0 <= i < |ps[1..]|
        ensures SlotFree(t', ps[1..][i])
      {
        MarkElsewhere(t, ps[0], Reserved, ps[i + 1]);
      }
      PaintLaw(t', ps[1..], a);
      UnderSplit(ps, a);
    }
  }

  lemma UnderSplit(ps: seq<Bits>, a: Bits)
    requires ps != []
    ensures Under(ps, a) <==> ps[0] <= a || Under(ps[1..], a)
  {
    if Under(ps[1..], a) {
      var i :| 0 <= i < |ps[1..]| && ps[1..][i] <= a;
      assert ps[i + 1] <= a;
    }
    if Under(ps, a) && !(ps[0] <= a) {
      var i :| 0 <= i < |ps| && ps[i] <= a;
      assert ps[1..][i - 1] <= a;
    }
  }

  /** On the empty tree: an address is reserved exactly when some painted network covers it. */
  lemma PaintFresh(ps: seq<Bits>, a: Bits)
    requires PairwiseApart(ps) && |a| > 0
    requires forall i :: 0 <= i < |ps| ==> 0 < |ps[i]| <= |a|
    ensures LeafAt(Paint(NODE, ps), a) == if Under(ps, a) then Reserved else Empty
    ensures Paint(NODE, ps).Branch? && Height(Paint(NODE, ps)) <= |a|
    ensures NoAlias(Paint(NODE, ps)) && NoFixed(Paint(NODE, ps))
  {
    forall i | 0 <= i < |ps|
      ensures SlotFree(NODE, ps[i])
    {
      SlotFreeFresh(ps[i]);
    }
    PaintLaw(NODE, ps, a);
    NodeIsEmpty(a);
  }
}
