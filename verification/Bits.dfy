/**
  Binary arithmetic shared by the address trie, the CIDR decomposition and the byte codecs.

  An address is read most significant bit first, so it is a sequence of booleans; the integer
  view is needed where networks are computed by arithmetic.
*/
module Bits {

  type Bits = seq<bool>

  function Pow2(k: nat): (p: nat)
    ensures p > 0
  {
    if k == 0 then 1 else 2 * Pow2(k - 1)
  }

  /** Logical shift right by `k`. */
  function Shr(x: nat, k: nat): nat
    decreases k
  {
    if k == 0 then x else Shr(x / 2, k - 1)
  }

  /** The `w` low bits of `n`, most significant first. */
  function ToBits(n: nat, w: nat): (b: Bits)
    ensures |b| == w
  {
    if w == 0 then [] else ToBits(n / 2, w - 1) + [n % 2 == 1]
  }

  function Zeros(w: nat): (b: Bits)
    ensures |b| == w
    ensures forall i :: 0 <= i < w ==> !b[i]
  {
    seq(w, i => false)
  }

  // --- Shifts and powers ------------------------------------------------------------------

  lemma {:induction false} Pow2Add(j: nat, k: nat)
    ensures Pow2(j + k) == Pow2(j) * Pow2(k)
  {
    if j == 0 {
    } else {
      Pow2Add(j - 1, k);
      assert Pow2(j + k) == 2 * Pow2(j - 1 + k);
    }
  }

  lemma Pow2Twice(k: nat, p: nat)
    requires Pow2(k) == p
    ensures Pow2(k + k) == p * p
  {
    Pow2Add(k, k);
  }

  /** The width of an IPv4 address, of the bits above it, and of a whole address word. */
  lemma Pow2OfWidths(w: nat)
    ensures w == 32 ==> Pow2(w) == 0x1_0000_0000
    ensures w == 96 ==> Pow2(w) == 0x1_0000_0000_0000_0000_0000_0000
    ensures w == 128 ==> Pow2(w) == 0x1_0000_0000_0000_0000_0000_0000_0000_0000
  {
    var eight := 8;
    assert Pow2(eight) == 0x100;
    Pow2Twice(eight, 0x100);
    Pow2Twice(eight + eight, 0x1_0000);
    var k := eight + eight + eight + eight;
    Pow2Twice(k, 0x1_0000_0000);
    Pow2Twice(k + k, 0x1_0000_0000_0000_0000);
    Pow2Add(k + k, k);
  }

  lemma {:induction false} Pow2Monotone(j: nat, k: nat)
    requires j <= k
    ensures Pow2(j) <= Pow2(k)
    ensures j < k ==> 2 * Pow2(j) <= Pow2(k)
    decreases k - j
  {
    if j < k {
      Pow2Monotone(j, k - 1);
    }
  }

  lemma {:induction false} ShrAdd(x: nat, j: nat, k: nat)
    ensures Shr(x, j + k) == Shr(Shr(x, j), k)
    decreases j
  {
    if j == 0 {
    } else {
      ShrAdd(x / 2, j - 1, k);
    }
  }

  lemma {:induction false} ShrMonotone(x: nat, y: nat, k: nat)
    requires x <= y
    ensures Shr(x, k) <= Shr(y, k)
    decreases k
  {
    if k != 0 {
      ShrMonotone(x / 2, y / 2, k - 1);
    }
  }

  lemma DoubleProduct(q: nat, p: nat)
    ensures q * (2 * p) == 2 * (q * p)
  {
  }

  lemma HalfBetween(x: nat, a: nat, b: nat)
    ensures a <= x / 2 < b <==> 2 * a <= x < 2 * b
  {
  }

  /** A shift is a division: the quotient and the bounds it implies. */
  lemma {:induction false} ShrBounds(x: nat, k: nat)
    ensures Shr(x, k) * Pow2(k) <= x < (Shr(x, k) + 1) * Pow2(k)
    decreases k
  {
    if k != 0 {
      ShrBounds(x / 2, k - 1);
      var q, p := Shr(x / 2, k - 1), Pow2(k - 1);
      DoubleProduct(q, p);
      DoubleProduct(q + 1, p);
      HalfBetween(x, q * p, (q + 1) * p);
    }
  }

  /** A multiple of `Pow2(k)` shifts to its quotient. */
  lemma {:induction false} ShrMultiple(q: nat, k: nat)
    ensures Shr(q * Pow2(k), k) == q
    decreases k
  {
    if k != 0 {
      assert q * Pow2(k) == 2 * (q * Pow2(k - 1));
      ShrMultiple(q, k - 1);
    }
  }

  /** The numbers sharing the quotient `q` are exactly the interval of length `Pow2(k)` at `q`. */
  lemma {:induction false} ShrInterval(x: nat, q: nat, k: nat)
    ensures Shr(x, k) == q <==> q * Pow2(k) <= x < (q + 1) * Pow2(k)
    decreases k
  {
    if k == 0 {
      assert q * Pow2(0) == q && (q + 1) * Pow2(0) == q + 1;
    } else {
      ShrInterval(x / 2, q, k - 1);
      var p := Pow2(k - 1);
      DoubleProduct(q, p);
      DoubleProduct(q + 1, p);
      HalfBetween(x, q * p, (q + 1) * p);
    }
  }

  // --- Bit strings ------------------------------------------------------------------------

  /** Dropping the low `k` bits of a bit string is a shift of the number. */
  lemma {:induction false} ToBitsPrefix(n: nat, w: nat, k: nat)
    requires k <= w
    ensures ToBits(n, w)[..w - k] == ToBits(Shr(n, k), w - k)
    decreases k
  {
    if k == 0 {
      assert ToBits(n, w)[..w] == ToBits(n, w);
    } else {
      ToBitsPrefix(n / 2, w - 1, k - 1);
      assert ToBits(n, w)[..w - k] == ToBits(n / 2, w - 1)[..w - k];
    }
  }

  /** Distinct numbers below `Pow2(w)` have distinct bit strings. */
  lemma {:induction false} ToBitsInjective(m: nat, n: nat, w: nat)
    requires m < Pow2(w) && n < Pow2(w)
    ensures ToBits(m, w) == ToBits(n, w) <==> m == n
  {
    if w != 0 {
      var a, b := ToBits(m, w), ToBits(n, w);
      assert a[..w - 1] == ToBits(m / 2, w - 1) && a[w - 1] == (m % 2 == 1);
      assert b[..w - 1] == ToBits(n / 2, w - 1) && b[w - 1] == (n % 2 == 1);
      ToBitsInjective(m / 2, n / 2, w - 1);
    }
  }

  /** The bit the walk reads at depth `d` is the one the source extracts by shift and mask. */
  lemma {:induction false} ToBitsAt(n: nat, w: nat, d: nat)
    requires d < w
    ensures ToBits(n, w)[d] == (Shr(n, w - 1 - d) % 2 == 1)
    decreases w
  {
    if d < w - 1 {
      ToBitsAt(n / 2, w - 1, d);
    }
  }

  lemma {:induction false} ShrSmall(n: nat, k: nat, w: nat)
    requires k <= w && n < Pow2(w)
    ensures Shr(n, k) < Pow2(w - k)
    decreases k
  {
    if k != 0 {
      ShrSmall(n / 2, k - 1, w - 1);
    }
  }

  /** Two `w`-bit addresses agree on their first `w - k` bits exactly when they share a quotient. */
  lemma SamePrefix(x: nat, y: nat, w: nat, k: nat)
    requires k <= w && x < Pow2(w) && y < Pow2(w)
    ensures ToBits(x, w)[..w - k] == ToBits(y, w)[..w - k] <==> Shr(x, k) == Shr(y, k)
  {
    ToBitsPrefix(x, w, k);
    ToBitsPrefix(y, w, k);
    ShrSmall(x, k, w);
    ShrSmall(y, k, w);
    ToBitsInjective(Shr(x, k), Shr(y, k), w - k);
  }

  /** A number below `Pow2(w)` read over `z + w` bits starts with `z` zeros. */
  lemma {:induction false} ToBitsPad(n: nat, z: nat, w: nat)
    requires n < Pow2(w)
    ensures ToBits(n, z + w) == Zeros(z) + ToBits(n, w)
    decreases w
  {
    if w == 0 {
      ToBitsZero(z);
      assert Zeros(z) + [] == Zeros(z);
    } else {
      ToBitsPad(n / 2, z, w - 1);
      assert Zeros(z) + (ToBits(n / 2, w - 1) + [n % 2 == 1])
          == (Zeros(z) + ToBits(n / 2, w - 1)) + [n % 2 == 1];
    }
  }

  /** A prefix in two parts is compared part by part. */
  lemma SplitPrefix(z: Bits, p: Bits, a: Bits)
    requires |z| <= |a|
    ensures z + p <= a <==> a[..|z|] == z && p <= a[|z|..]
  {
    if a[..|z|] == z && p <= a[|z|..] {
      assert a == z + a[|z|..];
    }
    if z + p <= a {
      assert a[..|z|] == (z + p)[..|z|];
      assert a[|z|..][..|p|] == (z + p)[|z|..];
    }
  }

  lemma {:induction false} ToBitsZero(w: nat)
    ensures ToBits(0, w) == Zeros(w)
  {
    if w != 0 {
      ToBitsZero(w - 1);
    }
  }

  /** Shifting a number left by `k` appends `k` zero bits. */
  lemma {:induction false} ToBitsShifted(n: nat, w: nat, k: nat)
    ensures ToBits(n * Pow2(k), w + k) == ToBits(n, w) + Zeros(k)
    decreases k
  {
    if k == 0 {
      assert ToBits(n, w) + Zeros(0) == ToBits(n, w);
    } else {
      var m := n * Pow2(k - 1);
      assert n * Pow2(k) == 2 * m;
      ToBitsShifted(n, w, k - 1);
      assert ToBits(n, w) + Zeros(k) == (ToBits(n, w) + Zeros(k - 1)) + [false];
    }
  }
}
