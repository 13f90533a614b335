/**
  `src/net.rs`: the decomposition of an inclusive address range into CIDR blocks, and the
  conversion of networks to the bit prefixes the tree walks.
*/
module Net {
  import opened Bits

  // --- CIDR blocks in a `w`-bit address space ----------------------------------------------

  datatype Cidr = Cidr(base: nat, prefixLen: nat)

  /** The number of addresses in `c`. */
  function Width(c: Cidr, w: nat): nat
    requires c.prefixLen <= w
  {
    Pow2(w - c.prefixLen)
  }

  ghost predicate Contains(c: Cidr, x: nat, w: nat)
    requires c.prefixLen <= w
  {
    c.base <= x < c.base + Width(c, w)
  }

  /** `x` is a multiple of `Pow2(k)`. */
  ghost predicate Aligned(x: nat, k: nat) {
    Shr(x, k) * Pow2(k) == x
  }

  /** A CIDR network proper: no host bits set, and inside the address space. */
  ghost predicate IsBlock(c: Cidr, w: nat) {
    c.prefixLen <= w && Aligned(c.base, w - c.prefixLen) && c.base + Width(c, w) <= Pow2(w)
  }

  ghost predicate AllBlocks(cs: seq<Cidr>, w: nat) {
    forall i :: 0 <= i < |cs| ==> IsBlock(cs[i], w)
  }

  ghost predicate Covered(cs: seq<Cidr>, x: nat, w: nat)
    requires AllBlocks(cs, w)
  {
    exists i :: 0 <= i < |cs| && Contains(cs[i], x, w)
  }

  /** The union of `cs` is exactly the range `[start, end]`. */
  ghost predicate Exact(cs: seq<Cidr>, start: nat, end: nat, w: nat)
    requires AllBlocks(cs, w)
  {
    forall x: nat :: Covered(cs, x, w) <==> start <= x <= end
  }

  /** The blocks follow each other without gap or overlap, from `start` up to `end`. */
  ghost predicate Tiles(cs: seq<Cidr>, start: nat, end: nat, w: nat) {
    && AllBlocks(cs, w)
    && |cs| > 0
    && cs[0].base == start
    && (forall i :: 0 < i < |cs| ==> cs[i].base == cs[i - 1].base + Width(cs[i - 1], w))
    && cs[|cs| - 1].base + Width(cs[|cs| - 1], w) == end + 1
  }

  /** No larger block starts where `c` starts and still ends by `end`. */
  ghost predicate Maximal(c: Cidr, end: nat, w: nat)
    requires c.prefixLen <= w
  {
    forall k: nat :: w - c.prefixLen < k <= w && Aligned(c.base, k) ==> c.base + Pow2(k) > end + 1
  }

  /** The range avoids the one shape for which the source shifts `1u128` by 128. */
  predicate ShiftInRange(start: nat, end: nat, w: nat) {
    !(w == 128 && start == 0 && end < MaxForBits(w))
  }

  /** One past the largest `u128`. */
  const U128_LIMIT: nat := 0x1_0000_0000_0000_0000_0000_0000_0000_0000

  lemma WithinU128(w: nat)
    requires w <= 128
    ensures Pow2(w) <= U128_LIMIT
  {
    Pow2Monotone(w, 128);
    Pow2OfWidths(128);
  }

  function MaxForBits(w: nat): nat {
    Pow2(w) - 1
  }

  /** `1u128 << n` for `n` up to 128, where the shift amount wraps as in an unchecked build. */
  function Shl1(n: nat): (p: nat)
    requires n <= 128
    ensures p > 0
  {
    if n == 128 then 1 else Pow2(n)
  }

  function TrailingZeros(x: nat): nat
    requires x > 0
  {
    if x % 2 == 1 then 0 else 1 + TrailingZeros(x / 2)
  }

  function Min(a: nat, b: nat): nat {
    if a < b then a else b
  }

  // --- Alignment --------------------------------------------------------------------------

  lemma {:induction false} AlignedTrailingZeros(x: nat, k: nat)
    requires x > 0
    ensures Aligned(x, k) <==> k <= TrailingZeros(x)
    decreases k
  {
    if k != 0 {
      var q, p := Shr(x / 2, k - 1), Pow2(k - 1);
      assert Shr(x, k) * Pow2(k) == 2 * (q * p);
      if x % 2 == 0 {
        AlignedTrailingZeros(x / 2, k - 1);
      }
    }
  }

  lemma {:induction false} AlignedZero(k: nat)
    ensures Shr(0, k) == 0
    ensures Aligned(0, k)
  {
    if k != 0 {
      AlignedZero(k - 1);
    }
  }

  lemma Successor(q: nat, p: nat)
    ensures (q + 1) * p == q * p + p
  {
  }

  lemma Scale(a: nat, b: nat, p: nat)
    requires a <= b
    ensures a * p <= b * p
  {
  }

  /** A block that starts below the top of the space ends inside it. */
  lemma {:induction false} AlignedFits(x: nat, k: nat, w: nat)
    requires k <= w && x < Pow2(w) && Aligned(x, k)
    ensures x + Pow2(k) <= Pow2(w)
  {
    var q := Shr(x, k);
    ShrSmall(x, k, w);
    Pow2Add(w - k, k);
    Scale(q + 1, Pow2(w - k), Pow2(k));
    Successor(q, Pow2(k));
  }

  /** Membership in a block is equality of quotients. */
  lemma ContainsShr(c: Cidr, x: nat, w: nat)
    requires IsBlock(c, w)
    ensures Contains(c, x, w) <==> Shr(x, w - c.prefixLen) == Shr(c.base, w - c.prefixLen)
  {
    var k := w - c.prefixLen;
    var q := Shr(c.base, k);
    ShrInterval(x, q, k);
    assert (q + 1) * Pow2(k) == q * Pow2(k) + Pow2(k);
  }

  /** CIDR blocks form a laminar family: one that meets a wider block lies inside it. */
  lemma Laminar(b: Cidr, c: Cidr, x: nat, y: nat, w: nat)
    requires IsBlock(b, w) && IsBlock(c, w) && c.prefixLen <= b.prefixLen
    requires Contains(b, x, w) && Contains(c, x, w) && Contains(b, y, w)
    ensures Contains(c, y, w)
  {
    var j, k := w - b.prefixLen, w - c.prefixLen;
    ContainsShr(b, x, w);
    ContainsShr(b, y, w);
    ContainsShr(c, x, w);
    ContainsShr(c, y, w);
    ShrAdd(x, j, k - j);
    ShrAdd(y, j, k - j);
  }

  // --- The decomposition ------------------------------------------------------------------

  /**
    Decompose `[start, end]` into CIDR blocks, greedily from the low end. The blocks tile the
    range in ascending order, no list of blocks with that union is shorter, and the range is
    reproduced exactly if and only if the shift stays below 128.
  */
  method RangeToCidrs(start: nat, end: nat, w: nat) returns (cidrs: seq<Cidr>)
    requires 0 < w <= 128
    requires start <= end <= MaxForBits(w)
    ensures AllBlocks(cidrs, w)
    ensures Exact(cidrs, start, end, w) <==> ShiftInRange(start, end, w)
    ensures ShiftInRange(start, end, w) ==> Tiles(cidrs, start, end, w)
    ensures ShiftInRange(start, end, w) ==> Shortest(cidrs, start, end, w)
    ensures !ShiftInRange(start, end, w) ==> cidrs != [] && cidrs[0] == Cidr(0, 0)
  {
    if start == 0 && end == MaxForBits(w) {
      AlignedZero(w);
      cidrs := [Cidr(0, 0)];
      Finish(cidrs, start, end, w);
      return;
    }
    WithinU128(w);
    cidrs := [];
    var cur := start;
    while true
      invariant start <= cur <= end
      invariant AllBlocks(cidrs, w)
      invariant Greedy(cidrs, start, cur, end, w)
      decreases end - cur
    {
      var size := LargestBlock(cur, end, w);
      GreedyStep(cidrs, start, cur, end, w, size);
      cidrs := cidrs + [Cidr(cur, w - size)];
      var block := Shl1(size);
      if cur + block < U128_LIMIT && cur + block <= end {
        cur := cur + block;
      } else {
        break;
      }
    }
    Finish(cidrs, start, end, w);
  }

  /** No list of blocks with the same union is shorter than `cs`. */
  ghost predicate Shortest(cs: seq<Cidr>, start: nat, end: nat, w: nat) {
    forall other :: AllBlocks(other, w) && Exact(other, start, end, w) ==> |cs| <= |other|
  }

  /** The loop's progress: maximal tiles up to `cur`, or a first block that covers everything. */
  ghost predicate Greedy(cs: seq<Cidr>, start: nat, cur: nat, end: nat, w: nat)
    requires AllBlocks(cs, w)
  {
    if ShiftInRange(start, end, w) then
      TilesUpTo(cs, start, cur, w) && AllMaximal(cs, end, w) && !(w == 128 && cur == 0)
    else if cs == [] then cur == 0
    else cs[0] == Cidr(0, 0)
  }

  /** One block more keeps the progress, whatever follows. */
  lemma GreedyStep(cs: seq<Cidr>, start: nat, cur: nat, end: nat, w: nat, size: nat)
    requires start <= cur <= end < Pow2(w) && size <= w <= 128 && AllBlocks(cs, w)
    requires Greedy(cs, start, cur, end, w) && IsBlock(Cidr(cur, w - size), w)
    requires w == 128 && cur == 0 ==> size == 128
    requires !(w == 128 && cur == 0) ==>
               size < 128 && cur + Pow2(size) <= end + 1 && Maximal(Cidr(cur, w - size), end, w)
    ensures AllBlocks(cs + [Cidr(cur, w - size)], w)
    ensures Greedy(cs + [Cidr(cur, w - size)], start, cur + Shl1(size), end, w)
    ensures ShiftInRange(start, end, w) ==> cur + Shl1(size) <= end + 1
  {
    var c := Cidr(cur, w - size);
    BlocksSnoc(cs, c, w);
    if ShiftInRange(start, end, w) {
      TilesSnoc(cs, start, cur, c, end, w);
    } else if cs == [] {
      assert size == 128 && c == Cidr(0, 0);
    } else {
      assert (cs + [c])[0] == cs[0];
    }
  }

  lemma BlocksSnoc(cs: seq<Cidr>, c: Cidr, w: nat)
    requires AllBlocks(cs, w) && IsBlock(c, w)
    ensures AllBlocks(cs + [c], w)
  {
  }

  /** What the finished list means, in both cases. */
  lemma Finish(cs: seq<Cidr>, start: nat, end: nat, w: nat)
    requires AllBlocks(cs, w) && start <= end < Pow2(w)
    requires ShiftInRange(start, end, w) ==> Tiles(cs, start, end, w) && AllMaximal(cs, end, w)
    requires !ShiftInRange(start, end, w) ==> cs != [] && cs[0] == Cidr(0, 0)
    ensures Exact(cs, start, end, w) <==> ShiftInRange(start, end, w)
    ensures ShiftInRange(start, end, w) ==> Shortest(cs, start, end, w)
  {
    if ShiftInRange(start, end, w) {
      TilesExact(cs, start, end, w);
      AllMinimal(cs, start, end, w);
    } else {
      assert Contains(cs[0], end + 1, w);
      assert Covered(cs, end + 1, w);
    }
  }

  /** A witness of the wrapped shift: asked for the address 0 alone, the list also covers 1. */
  lemma ZeroAloneIsNotExact(cs: seq<Cidr>, w: nat)
    requires w == 128 && AllBlocks(cs, w) && cs != [] && cs[0] == Cidr(0, 0)
    ensures !ShiftInRange(0, 0, w) && Covered(cs, 1, w) && !Exact(cs, 0, 0, w)
  {
    WithinU128(w);
    Pow2Monotone(1, w);
    assert Contains(cs[0], 1, w);
    assert Covered(cs, 1, w);
  }

  ghost predicate AllMaximal(cs: seq<Cidr>, end: nat, w: nat)
    requires AllBlocks(cs, w)
  {
    forall i :: 0 <= i < |cs| ==> Maximal(cs[i], end, w)
  }

  /** The prefix of a tiling: the blocks found so far reach up to `cur`. */
  ghost predicate TilesUpTo(cs: seq<Cidr>, start: nat, cur: nat, w: nat) {
    if cs == [] then cur == start else cur > 0 && Tiles(cs, start, cur - 1, w)
  }

  lemma TilesSnoc(cs: seq<Cidr>, start: nat, cur: nat, c: Cidr, end: nat, w: nat)
    requires AllBlocks(cs, w) && TilesUpTo(cs, start, cur, w) && AllMaximal(cs, end, w)
    requires IsBlock(c, w) && c.base == cur && Maximal(c, end, w)
    ensures AllBlocks(cs + [c], w)
    ensures TilesUpTo(cs + [c], start, cur + Width(c, w), w) && AllMaximal(cs + [c], end, w)
  {
  }

  /** The size, in bits, of the largest block that starts at `cur` and ends by `end`. */
  method LargestBlock(cur: nat, end: nat, w: nat) returns (size: nat)
    requires 0 < w <= 128
    requires cur <= end <= MaxForBits(w)
    requires !(cur == 0 && end == MaxForBits(w))
    ensures size <= w && IsBlock(Cidr(cur, w - size), w)
    ensures w == 128 && cur == 0 ==> size == 128
    ensures !(w == 128 && cur == 0) ==> size < 128 && cur + Pow2(size) <= end + 1
    ensures !(w == 128 && cur == 0) ==> Maximal(Cidr(cur, w - size), end, w)
  {
    var alignBits := if cur == 0 then w else Min(TrailingZeros(cur), w);
    AlignBits(cur, alignBits, w);
    size := alignBits;
    while size > 0
      invariant size <= alignBits
      invariant w == 128 && cur == 0 ==> size == 128
      invariant forall k: nat :: size < k <= alignBits ==> cur + Pow2(k) > end + 1
    {
      var block := Shl1(size);
      var blockEnd := cur + (block - 1);
      if size < 128 {
        assert Aligned(cur, size);
        assert blockEnd <= MaxForBits(w);
      }
      if blockEnd <= end {
        break;
      }
      size := size - 1;
    }
    assert Aligned(cur, size);
  }

  /** `alignBits` bounds the alignments of `cur`, and every aligned block at `cur` fits the space. */
  lemma AlignBits(cur: nat, alignBits: nat, w: nat)
    requires cur < Pow2(w)
    requires alignBits == if cur == 0 then w else Min(TrailingZeros(cur), w)
    ensures cur != 0 ==> alignBits < w
    ensures forall k: nat :: k <= w ==> (Aligned(cur, k) <==> k <= alignBits)
    ensures forall k: nat :: k <= w && Aligned(cur, k) ==> cur + Pow2(k) <= Pow2(w)
  {
    forall k: nat | k <= w
      ensures Aligned(cur, k) <==> k <= alignBits
      ensures Aligned(cur, k) ==> cur + Pow2(k) <= Pow2(w)
    {
      if cur == 0 {
        AlignedZero(k);
      } else {
        AlignedTrailingZeros(cur, k);
      }
      if Aligned(cur, k) {
        AlignedFits(cur, k, w);
      }
    }
  }

  // --- Exactness and minimality of tilings ---------------------------------------------------

  /** In a tiling, every block lies between the start of the first and the end of the last. */
  lemma {:induction false} TilesOrdered(cs: seq<Cidr>, start: nat, end: nat, w: nat, i: nat, j: nat)
    requires Tiles(cs, start, end, w)
    requires i < j < |cs|
    ensures cs[i].base + Width(cs[i], w) <= cs[j].base
    decreases j - i
  {
    if i + 1 < j {
      TilesOrdered(cs, start, end, w, i, j - 1);
    }
  }

  /** The block of a tiling that holds `x`. */
  lemma {:induction false} TileOf(cs: seq<Cidr>, start: nat, end: nat, w: nat, x: nat) returns (i: nat)
    requires Tiles(cs, start, end, w)
    requires start <= x <= end
    ensures i < |cs| && Contains(cs[i], x, w)
  {
    i := |cs| - 1;
    while cs[i].base > x
      invariant i < |cs|
      invariant x < cs[i].base + Width(cs[i], w)
    {
      i := i - 1;
    }
  }

  /** A tiling covers exactly its range, and its blocks are pairwise disjoint. */
  lemma TilesExact(cs: seq<Cidr>, start: nat, end: nat, w: nat)
    requires Tiles(cs, start, end, w)
    ensures Exact(cs, start, end, w)
    ensures forall i, j, x: nat :: 0 <= i < j < |cs| && Contains(cs[i], x, w) ==> !Contains(cs[j], x, w)
  {
    forall x: nat
      ensures Covered(cs, x, w) <==> start <= x <= end
    {
      if start <= x <= end {
        var i := TileOf(cs, start, end, w, x);
      }
      if Covered(cs, x, w) {
        var i :| 0 <= i < |cs| && Contains(cs[i], x, w);
        if 0 < i {
          TilesOrdered(cs, start, end, w, 0, i);
        }
        if i < |cs| - 1 {
          TilesOrdered(cs, start, end, w, i, |cs| - 1);
        }
      }
    }
    forall i, j, x: nat | 0 <= i < j < |cs| && Contains(cs[i], x, w)
      ensures !Contains(cs[j], x, w)
    {
      TilesOrdered(cs, start, end, w, i, j);
    }
  }

  /**
    No CIDR block inside the range reaches across two tiles: the tile where such a block starts
    would have been taken larger.
  */
  lemma TileIsMaximal(cs: seq<Cidr>, start: nat, end: nat, w: nat, c: Cidr, i: nat, j: nat)
    requires Tiles(cs, start, end, w) && AllMaximal(cs, end, w)
    requires IsBlock(c, w) && start <= c.base && c.base + Width(c, w) <= end + 1
    requires i < j < |cs|
    ensures !(Contains(c, cs[i].base, w) && Contains(c, cs[j].base, w))
  {
    if Contains(c, cs[i].base, w) && Contains(c, cs[j].base, w) {
      var k := TileOf(cs, start, end, w, c.base);
      var tile := cs[k];
      TilesOrdered(cs, start, end, w, i, j);
      if j < k {
        TilesOrdered(cs, start, end, w, j, k);
      }
      // The tile holding the first address of `c` is not the last one `c` touches.
      assert k < j;
      TilesOrdered(cs, start, end, w, k, j);
      if tile.prefixLen <= c.prefixLen {
        Laminar(c, tile, c.base, cs[j].base, w);
      } else {
        Laminar(tile, c, c.base, tile.base, w);
      }
    }
  }

  /** Distinct numbers below `m` are at most `m` many. */
  lemma {:induction false} Pigeonhole(f: seq<nat>, m: nat)
    requires forall i :: 0 <= i < |f| ==> f[i] < m
    requires forall i, j :: 0 <= i < j < |f| ==> f[i] != f[j]
    ensures |f| <= m
    decreases m
  {
    if f == [] || f[0] >= m {
    } else if m - 1 in f {
      var i :| 0 <= i < |f| && f[i] == m - 1;
      Pigeonhole(f[..i] + f[i + 1..], m - 1);
    } else {
      Pigeonhole(f, m - 1);
    }
  }

  /** A tiling by maximal blocks is no longer than any list of blocks with the same union. */
  lemma Minimal(cs: seq<Cidr>, other: seq<Cidr>, start: nat, end: nat, w: nat)
    requires Tiles(cs, start, end, w)
    requires AllMaximal(cs, end, w)
    requires AllBlocks(other, w) && Exact(other, start, end, w)
    ensures |cs| <= |other|
  {
    var f: seq<nat> := [];
    while |f| < |cs|
      invariant |f| <= |cs|
      invariant forall i :: 0 <= i < |f| ==> f[i] < |other| && Contains(other[f[i]], cs[i].base, w)
      invariant forall i, j :: 0 <= i < j < |f| ==> f[i] != f[j]
    {
      var j := |f|;
      TileStart(cs, start, end, w, j);
      assert Covered(other, cs[j].base, w);
      var m :| 0 <= m < |other| && Contains(other[m], cs[j].base, w);
      BlockInside(other, start, end, w, m);
      if m in f {
        var i :| 0 <= i < |f| && f[i] == m;
        TileIsMaximal(cs, start, end, w, other[m], i, j);
      }
      f := f + [m];
    }
    Pigeonhole(f, |other|);
  }

  lemma TileStart(cs: seq<Cidr>, start: nat, end: nat, w: nat, j: nat)
    requires Tiles(cs, start, end, w) && j < |cs|
    ensures start <= cs[j].base <= end
  {
    if 0 < j {
      TilesOrdered(cs, start, end, w, 0, j);
    }
    if j < |cs| - 1 {
      TilesOrdered(cs, start, end, w, j, |cs| - 1);
    }
  }

  /** A member of an exact cover lies inside the range. */
  lemma BlockInside(cs: seq<Cidr>, start: nat, end: nat, w: nat, m: nat)
    requires AllBlocks(cs, w) && Exact(cs, start, end, w) && m < |cs|
    ensures start <= cs[m].base && cs[m].base + Width(cs[m], w) <= end + 1
  {
    assert Contains(cs[m], cs[m].base, w);
    assert Covered(cs, cs[m].base, w);
    var last := cs[m].base + Width(cs[m], w) - 1;
    assert Contains(cs[m], last, w);
    assert Covered(cs, last, w);
  }

  lemma AllMinimal(cs: seq<Cidr>, start: nat, end: nat, w: nat)
    requires Tiles(cs, start, end, w) && AllMaximal(cs, end, w)
    ensures Shortest(cs, start, end, w)
  {
    forall other | AllBlocks(other, w) && Exact(other, start, end, w)
      ensures |cs| <= |other|
    {
      Minimal(cs, other, start, end, w);
    }
  }
}
