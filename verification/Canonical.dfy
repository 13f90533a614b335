/**
  The published trie depends on nothing but what addresses resolve to: aliases are installed for
  the same ranges, and a compacted trie whose only pinned node is the IPv4 root is determined by
  its tips.
*/
module Canonical {
  import opened Bits
  import opened Tries
  import opened Aliases

  /** The only pinned node is the one `n` left children down. */
  predicate PinnedAt(t: Trie, n: nat)
    decreases n
  {
    t.Branch? &&
    if n == 0 then t.fixed && NoFixed(t.left) && NoFixed(t.right)
    else !t.fixed && PinnedAt(t.left, n - 1) && NoFixed(t.right)
  }

  lemma {:induction false} PinIsOnly(t: Trie, n: nat)
    requires PlainWalk(t, n) && NoFixed(t)
    ensures PinnedAt(Pin(t, n), n)
    decreases n
  {
    if n > 0 {
      PinIsOnly(t.left, n - 1);
    }
  }

  /** A marker off the way to the pinned node pins nothing and moves nothing. */
  lemma {:induction false} MarkKeepsPin(t: Trie, p: Bits, n: nat)
    requires PinnedAt(t, n) && Apart(p, Zeros(n))
    ensures PinnedAt(Mark(t, p, Alias), n)
    decreases n
  {
    ZerosTail(n);
    if p[0] {
      MarkShape(t.right, p[1..], Alias);
      MarkShape(NODE, p[1..], Alias);
    } else {
      ApartTail(p, Zeros(n));
      MarkKeepsPin(t.left, p[1..], n - 1);
    }
  }

  lemma {:induction false} CompactKeepsPin(t: Trie, n: nat)
    requires PinnedAt(t, n)
    ensures PinnedAt(Compact(t), n)
    decreases n
  {
    CompactShape(t.left);
    CompactShape(t.right);
    if n > 0 {
      CompactKeepsPin(t.left, n - 1);
    }
  }

  /** Installing aliases pins the IPv4 root and nothing else, and publishing keeps it so. */
  lemma PublishedPin(t: Trie)
    requires PlainWalk(t, V4_DEPTH) && NoFixed(t)
    ensures Published(t, true).Branch? && RootMerged(Published(t, true)) && PinnedAt(Published(t, true), V4_DEPTH)
  {
    var t0 := Pin(t, V4_DEPTH);
    var t1 := Mark(t0, MAPPED, Alias);
    var t2 := Mark(t1, TEREDO, Alias);
    var t3 := Mark(t2, SIX_TO_FOUR, Alias);
    AliasesApart();
    PinIsOnly(t, V4_DEPTH);
    MarkKeepsPin(t0, MAPPED, V4_DEPTH);
    MarkKeepsPin(t1, TEREDO, V4_DEPTH);
    MarkKeepsPin(t2, SIX_TO_FOUR, V4_DEPTH);
    CompactRootIdempotent(t3);
    CompactKeepsPin(t3.left, V4_DEPTH - 1);
    CompactShape(t3.right);
  }

  /** Merged tries with the same pinned node and the same tips are equal. */
  lemma {:induction false} PinnedCanonical(t: Trie, u: Trie, n: nat, d: nat)
    requires PinnedAt(t, n) && PinnedAt(u, n) && RootMerged(t) && RootMerged(u)
    requires Height(t) <= d && Height(u) <= d && SameTips(t, u, d)
    ensures t == u
    decreases n
  {
    SameTipsChild(t, u, d, false);
    SameTipsChild(t, u, d, true);
    MergedCanonical(t.right, u.right, d - 1);
    if n == 0 {
      MergedCanonical(t.left, u.left, d - 1);
    } else {
      PinnedCanonical(t.left, u.left, n - 1, d - 1);
    }
  }

  // --- Without aliases --------------------------------------------------------------------------

  lemma CompactCanonical(t: Trie, u: Trie, d: nat)
    requires t.Branch? && u.Branch? && NoFixed(t) && NoFixed(u)
    requires Height(t) <= d && Height(u) <= d && SameTips(t, u, d)
    ensures CompactRoot(t) == CompactRoot(u)
  {
    CompactSameTips(t, d);
    CompactSameTips(u, d);
    CompactBounds(t);
    CompactBounds(u);
    forall a: Bits | |a| == d
      ensures LeafAt(CompactRoot(t), a) == LeafAt(CompactRoot(u), a)
    {
      SameTipsAt(CompactRoot(t), t, d, a);
      SameTipsAt(t, u, d, a);
      SameTipsAt(CompactRoot(u), u, d, a);
    }
    RootCanonical(CompactRoot(t), CompactRoot(u), d);
  }

  lemma CompactBounds(t: Trie)
    requires t.Branch? && NoFixed(t)
    ensures RootMerged(CompactRoot(t)) && NoFixed(CompactRoot(t)) && Height(CompactRoot(t)) <= Height(t)
  {
    CompactShape(t.left);
    CompactShape(t.right);
  }

  // --- With aliases -----------------------------------------------------------------------------

  /** Tidy tries with the same tips have the same free slots, so the same ranges are aliased. */
  lemma SameAliases(t: Trie, u: Trie, a: Bits, p: Bits)
    requires RootTidy(t) && RootTidy(u) && NoFixed(t) && NoFixed(u) && |a| == 128
    requires Height(t) <= 128 && Height(u) <= 128 && SameTips(t, u, 128)
    requires PlainWalk(t, V4_DEPTH) == PlainWalk(u, V4_DEPTH)
    ensures Aliased(t, a, p) == Aliased(u, a, p)
  {
    AliasesApart();
    if IsAliasPrefix(p) {
      FreeIffVacant(t, p, 128);
      FreeIffVacant(u, p, 128);
      forall b: Bits | |b| == 128 && p <= b
        ensures LeafAt(t, b) == LeafAt(u, b)
      {
        SameTipsAt(t, u, 128, b);
      }
    }
  }

  /** What the published trie of an aliased tree resolves an address to. */
  lemma PublishedTips(t: Trie, a: Bits)
    requires PlainWalk(t, V4_DEPTH) && Height(t) <= 128 && |a| == 128
    ensures var c := Published(t, true);
            && c.Branch? && Height(c) <= 128
            && LeafAt(c, a) == if exists p :: Aliased(t, a, p) then Alias else LeafAt(t, a)
  {
    InstallTips(t, a);
    var t' := InstallAliases(t);
    PublishedWithin(t, true, a);
    CompactLeafAt(Child(t', a[0]), a[1..]);
  }

  lemma AliasedCanonical(t: Trie, u: Trie)
    requires RootTidy(t) && RootTidy(u) && NoFixed(t) && NoFixed(u)
    requires Height(t) <= 128 && Height(u) <= 128 && SameTips(t, u, 128)
    requires PlainWalk(t, V4_DEPTH) && PlainWalk(u, V4_DEPTH)
    ensures Published(t, true) == Published(u, true)
  {
    var c, e := Published(t, true), Published(u, true);
    PublishedPin(t);
    PublishedPin(u);
    PublishedTips(t, Zeros(128));
    PublishedTips(u, Zeros(128));
    forall a: Bits | |a| == 128
      ensures LeafAt(c, a) == LeafAt(e, a)
    {
      PublishedTips(t, a);
      PublishedTips(u, a);
      SameTipsAt(t, u, 128, a);
      forall p
        ensures Aliased(t, a, p) == Aliased(u, a, p)
      {
        SameAliases(t, u, a, p);
      }
    }
    PinnedCanonical(c, e, V4_DEPTH, 128);
  }

  /**
    Two tidy tries with the same tips, whose IPv4 roots are nodes or not alike, publish the same
    trie.
  */
  lemma PublishedCanonical(t: Trie, u: Trie, aliasing: bool, d: nat)
    requires RootTidy(t) && RootTidy(u) && NoFixed(t) && NoFixed(u)
    requires Height(t) <= d && Height(u) <= d && SameTips(t, u, d)
    requires aliasing ==> d == 128 && PlainWalk(t, V4_DEPTH) == PlainWalk(u, V4_DEPTH)
    ensures Published(t, aliasing) == Published(u, aliasing)
  {
    if aliasing && PlainWalk(t, V4_DEPTH) {
      AliasedCanonical(t, u);
    } else {
      CompactCanonical(t, u, d);
    }
  }
}
