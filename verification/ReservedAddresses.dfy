/** Which addresses the lists of `src/reserved.rs` reserve, octet by octet and group by group. */
module ReservedAddresses {
  import opened Bits
  import opened Networks
  import opened Aliases
  import opened ReservedNetworks

  // --- The ranges -------------------------------------------------------------------------------

  predicate Octets(a: nat, b: nat, c: nat, d: nat) {
    a < 0x100 && b < 0x100 && c < 0x100 && d < 0x100
  }

  /** The reserved IPv4 addresses `a.b.c.d`. */
  predicate ReservedIpv4(a: nat, b: nat, c: nat, d: nat) {
    || a == 0 || a == 10 || a == 127 || a >= 224
    || (a == 100 && 64 <= b < 128)
    || (a == 169 && b == 254)
    || (a == 172 && 16 <= b < 32)
    || (a == 192 && b == 0 && c == 0 && d < 8)
    || (a == 192 && b == 0 && c == 2)
    || (a == 192 && b == 88 && c == 99)
    || (a == 192 && b == 168)
    || (a == 198 && (b == 18 || b == 19))
    || (a == 198 && b == 51 && c == 100)
    || (a == 203 && b == 0 && c == 113)
  }

  /** The reserved IPv6 addresses whose first groups are `g` and `h`; `rest` says that the next two are zero. */
  predicate ReservedIpv6(g: nat, h: nat, rest: bool) {
    || (g == 0x100 && h == 0 && rest)
    || (g == 0x2001 && (1 <= h < 0x200 || h == 0xdb8))
    || 0xfc00 <= g < 0xfe00
    || 0xfe80 <= g < 0xfec0
    || g >= 0xff00
  }

  /** The IPv4 list as numbers. */
  predicate Ranges4(x: nat) {
    || x < 0x0100_0000 || 0x0A00_0000 <= x < 0x0B00_0000 || 0x6440_0000 <= x < 0x6480_0000
    || 0x7F00_0000 <= x < 0x8000_0000 || 0xA9FE_0000 <= x < 0xA9FF_0000 || 0xAC10_0000 <= x < 0xAC20_0000
    || 0xC000_0000 <= x < 0xC000_0008 || 0xC000_0200 <= x < 0xC000_0300 || 0xC058_6300 <= x < 0xC058_6400
    || 0xC0A8_0000 <= x < 0xC0A9_0000 || 0xC612_0000 <= x < 0xC614_0000 || 0xC633_6400 <= x < 0xC633_6500
    || 0xCB00_7100 <= x < 0xCB00_7200 || 0xE000_0000 <= x < 0x1_0000_0000
  }

  lemma List4Ranges(x: nat)
    ensures !Misses(IPV4, x) <==> Ranges4(x)
  {
    if Ranges4(x) {
      InSomeRange(x);
    } else {
      InNoRange(x);
    }
  }

  lemma InSomeRange(x: nat)
    requires Ranges4(x)
    ensures !Misses(IPV4, x)
  {
    if x < 0x6480_0000 {
      InFirstRange(x);
    } else if x < 0xC000_0000 {
      InLowRange(x);
    } else if x < 0xC612_0000 {
      InMiddleRange(x);
    } else {
      InHighRange(x);
    }
  }

  lemma InFirstRange(x: nat)
    requires Ranges4(x) && x < 0x6480_0000
    ensures !Misses(IPV4, x)
  {
    var i := if x < 0x0100_0000 then 0 else if x < 0x0B00_0000 then 1 else 2;
    Spans4();
    assert IPV4[i].word <= x < IPV4[i].word + Span(IPV4[i]);
  }

  lemma InLowRange(x: nat)
    requires Ranges4(x) && 0x6480_0000 <= x < 0xC000_0000
    ensures !Misses(IPV4, x)
  {
    var i := if x < 0x8000_0000 then 3 else if x < 0xA9FF_0000 then 4 else 5;
    Spans4();
    assert IPV4[i].word <= x < IPV4[i].word + Span(IPV4[i]);
  }

  lemma InMiddleRange(x: nat)
    requires Ranges4(x) && 0xC000_0000 <= x < 0xC612_0000
    ensures !Misses(IPV4, x)
  {
    var i := if x < 0xC000_0008 then 6 else if x < 0xC000_0300 then 7 else if x < 0xC058_6400 then 8 else 9;
    Spans4();
    assert IPV4[i].word <= x < IPV4[i].word + Span(IPV4[i]);
  }

  lemma InHighRange(x: nat)
    requires Ranges4(x) && 0xC612_0000 <= x
    ensures !Misses(IPV4, x)
  {
    var i := if x < 0xC614_0000 then 10 else if x < 0xC633_6500 then 11 else if x < 0xCB00_7200 then 12
             else if x < 0xF000_0000 then 13 else 14;
    Spans4();
    assert IPV4[i].word <= x < IPV4[i].word + Span(IPV4[i]);
  }

  lemma InNoRange(x: nat)
    requires !Ranges4(x)
    ensures Misses(IPV4, x)
  {
    Spans4();
  }

  lemma Spans4()
    ensures forall i :: 0 <= i < |IPV4| ==>
              Span(IPV4[i]) == [0x100_0000, 0x100_0000, 0x40_0000, 0x100_0000, 0x1_0000, 0x10_0000, 8, 0x100,
                                0x100, 0x1_0000, 0x2_0000, 0x100, 0x100, 0x1000_0000, 0x1000_0000][i]
  {
    SpanValues(4);
  }

  lemma RangesOfOctets(a: nat, b: nat, c: nat, d: nat)
    requires Octets(a, b, c, d)
    ensures Ranges4(a * 0x100_0000 + b * 0x1_0000 + c * 0x100 + d) <==> ReservedIpv4(a, b, c, d)
  {
  }

  // --- IPv4 addresses -----------------------------------------------------------------------------

  /** In an IPv4 tree an address is under the list exactly if a head spans it. */
  lemma UnderInV4(v4: seq<Head>, v6: seq<Head>, x: nat)
    requires ListsOk(v4, v6) && x < 0x1_0000_0000
    requires AllNetsOk(NetworksOf(v4, v6, V4), V4)
    ensures Under(Paths(NetworksOf(v4, v6, V4), V4), ToBits(x, 32)) <==> !Misses(v4, x)
  {
    var paths := Paths(NetworksOf(v4, v6, V4), V4);
    forall i | 0 <= i < |v4|
      ensures paths[i] <= ToBits(x, 32) <==> v4[i].word <= x < v4[i].word + Span(v4[i])
    {
      NetworkAt(v4, v6, V4, i);
      HeadPath4(v4[i]);
      HeadInterval(v4[i], x);
    }
  }

  /** In an IPv6 tree the same holds behind the 96 zeros. */
  lemma UnderInV6(v4: seq<Head>, v6: seq<Head>, x: nat)
    requires ListsOk(v4, v6) && Misses(v6, 0) && x < 0x1_0000_0000
    requires AllNetsOk(NetworksOf(v4, v6, V6), V6)
    ensures Under(Paths(NetworksOf(v4, v6, V6), V6), Zeros(96) + ToBits(x, 32)) <==> !Misses(v4, x)
  {
    if Misses(v4, x) {
      Ipv4Unreserved(v4, v6, x);
    } else {
      var i :| 0 <= i < |v4| && v4[i].word <= x < v4[i].word + Span(v4[i]);
      var b := Zeros(96) + ToBits(x, 32);
      NetworkAt(v4, v6, V6, i);
      HeadPath4(v4[i]);
      HeadInterval(v4[i], x);
      assert b[..96] == Zeros(96) && b[96..] == ToBits(x, 32);
      SplitPrefix(Zeros(96), HeadBits(v4[i]), b);
      assert Paths(NetworksOf(v4, v6, V6), V6)[i] <= b;
    }
  }

  /** The reserved IPv4 addresses of a tree of either version are exactly those of `ReservedIpv4`. */
  lemma ReservedIpv4Exactly(version: IpVersion, a: nat, b: nat, c: nat, d: nat)
    requires Octets(a, b, c, d)
    ensures AllNetsOk(ReservedFor(version), version)
    ensures var x := a * 0x100_0000 + b * 0x1_0000 + c * 0x100 + d;
            AddrPath(Addr4(x), version).Some? &&
            (Under(Paths(ReservedFor(version), version), AddrPath(Addr4(x), version).value)
             <==> ReservedIpv4(a, b, c, d))
  {
    var x := a * 0x100_0000 + b * 0x1_0000 + c * 0x100 + d;
    List4Ranges(x);
    RangesOfOctets(a, b, c, d);
    SourceLists(version);
    match version
    case V4 => UnderInV4(IPV4, IPV6, x);
    case V6 => UnderInV6(IPV4, IPV6, x);
  }

  lemma SourceLists(version: IpVersion)
    ensures ListsOk(IPV4, IPV6) && Misses(IPV6, 0) && AllNetsOk(ReservedFor(version), version)
  {
    ReservedForDisjoint(version);
    List4Ascends();
    List6Ascends();
    Heads4Ok();
    Heads6Ok();
    MissesBetween(IPV6, 0, 0);
  }

  // --- IPv6 addresses -----------------------------------------------------------------------------

  /** A head of the IPv6 list covers the address `b` with first word `w`. */
  predicate Covers(h: Head, w: nat, b: Bits)
    requires |b| == 128
  {
    h.word <= w < h.word + Span(h) && (32 < h.plen <= 128 ==> b[32..h.plen] == Zeros(h.plen - 32))
  }

  lemma HeadCovers(h: Head, w: nat, b: Bits)
    requires HeadOk(h) && |b| == 128 && w < 0x1_0000_0000 && b[..32] == ToBits(w, 32)
    ensures NetOk(ToNet6(h)) && (TreePath(ToNet6(h), V6) <= b <==> Covers(h, w, b))
  {
    HeadPath6(h, 96);
    HeadInterval(h, w);
    if h.plen <= 32 {
      assert HeadBits(h) == TreePath(ToNet6(h), V6);
      assert HeadBits(h) <= b <==> HeadBits(h) <= b[..32];
    } else {
      LongHead(h, 32, 96, 128);
      Pow2OfWidths(32);
      ToBitsInjective(h.word, w, 32);
      SplitPrefix(ToBits(h.word, 32), Zeros(h.plen - 32), b);
      PrefixIsSlice(Zeros(h.plen - 32), b[32..]);
      assert b[32..][..h.plen - 32] == b[32..h.plen];
    }
  }

  /** A head longer than its word goes on with zeros. */
  lemma LongHead(h: Head, w: nat, z: nat, d: nat)
    requires w == 32 && z == 96 && d == 128 && 32 < h.plen <= 128
    ensures TreePath(ToNet6(h), V6) == ToBits(h.word, w) + Zeros(h.plen - w)
  {
    ToBitsShifted(h.word, w, z);
    assert (ToBits(h.word, w) + Zeros(z))[..h.plen] == ToBits(h.word, w) + Zeros(h.plen - w);
  }

  /** Away from the IPv4 addresses only the IPv6 list counts. */
  lemma UnderList6(v4: seq<Head>, v6: seq<Head>, b: Bits, w: nat)
    requires ListsOk(v4, v6) && AllNetsOk(NetworksOf(v4, v6, V6), V6)
    requires |b| == 128 && b[..96] != Zeros(96) && w < 0x1_0000_0000 && b[..32] == ToBits(w, 32)
    ensures Under(Paths(NetworksOf(v4, v6, V6), V6), b) <==> exists i :: 0 <= i < |v6| && Covers(v6[i], w, b)
  {
    var nets := NetworksOf(v4, v6, V6);
    var paths := Paths(nets, V6);
    forall i | 0 <= i < |v6|
      ensures paths[|v4| + i] <= b <==> Covers(v6[i], w, b)
    {
      NetworkAt(v4, v6, V6, |v4| + i);
      HeadCovers(v6[i], w, b);
    }
    forall i | 0 <= i < |v4|
      ensures !(paths[i] <= b)
    {
      NetworkAt(v4, v6, V6, i);
      HeadPath4(v4[i]);
      SplitPrefix(Zeros(96), HeadBits(v4[i]), b);
    }
    if i :| 0 <= i < |paths| && paths[i] <= b {
      assert Covers(v6[i - |v4|], w, b);
    }
  }

  lemma Spans6()
    ensures forall i :: 0 <= i < |IPV6| ==>
              Span(IPV6[i]) == [1, 1, 2, 4, 8, 0x10, 0x20, 0x40, 0x80, 0x100, 1, 0x200_0000, 0x40_0000, 0x100_0000][i]
  {
    SpanValues(4);
  }

  lemma List6Covers(g: nat, h: nat, b: Bits)
    requires |b| == 128 && g < 0x1_0000 && h < 0x1_0000
    ensures (exists i :: 0 <= i < |IPV6| && Covers(IPV6[i], g * 0x1_0000 + h, b))
            <==> ReservedIpv6(g, h, b[32..64] == Zeros(32))
  {
    var w := g * 0x1_0000 + h;
    Spans6();
    if ReservedIpv6(g, h, b[32..64] == Zeros(32)) {
      var i := if g == 0x100 then 0
               else if g == 0x2001 then
                 if h == 1 then 1 else if h < 4 then 2 else if h < 8 then 3 else if h < 0x10 then 4
                 else if h < 0x20 then 5 else if h < 0x40 then 6 else if h < 0x80 then 7 else if h < 0x100 then 8
                 else if h < 0x200 then 9 else 10
               else if g < 0xfe00 then 11 else if g < 0xff00 then 12 else 13;
      assert Covers(IPV6[i], w, b);
    }
  }

  /** Two numbers side by side. */
  lemma {:induction false} Concatenated(g: nat, w: nat, h: nat, k: nat)
    requires h < Pow2(k)
    ensures ToBits(g * Pow2(k) + h, w + k) == ToBits(g, w) + ToBits(h, k)
    decreases k
  {
    if k != 0 {
      DoubleProduct(g, Pow2(k - 1));
      assert g * Pow2(k) + h == 2 * (g * Pow2(k - 1)) + h;
      Concatenated(g, w, h / 2, k - 1);
      assert ToBits(g, w) + (ToBits(h / 2, k - 1) + [h % 2 == 1]) == ToBits(g, w) + ToBits(h / 2, k - 1) + [h % 2 == 1];
    }
  }

  /** The first word of an address from its first two groups. */
  lemma GroupsMakeWord(g: nat, h: nat, b: Bits, k: nat)
    requires h < 0x1_0000 && k == 16 && |b| == k + k
    requires b[..k] == ToBits(g, k) && b[k..] == ToBits(h, k)
    ensures b == ToBits(g * 0x1_0000 + h, k + k)
  {
    SpanValues(4);
    Concatenated(g, k, h, k);
    assert b == b[..k] + b[k..];
  }

  /**
    The reserved IPv6 addresses of an IPv6 tree, those that stand for IPv4 addresses aside, are exactly
    those of `ReservedIpv6`.
  */
  lemma ReservedIpv6Exactly(b: Bits, g: nat, h: nat)
    requires |b| == 128 && b[..96] != Zeros(96) && g < 0x1_0000 && h < 0x1_0000
    requires b[..16] == ToBits(g, 16) && b[16..32] == ToBits(h, 16)
    ensures AllNetsOk(ReservedFor(V6), V6)
    ensures Under(Paths(ReservedFor(V6), V6), b) <==> ReservedIpv6(g, h, b[32..64] == Zeros(32))
  {
    SourceLists(V6);
    assert b[..32][..16] == b[..16] && b[..32][16..] == b[16..32];
    GroupsMakeWord(g, h, b[..32], 16);
    UnderList6(IPV4, IPV6, b, g * 0x1_0000 + h);
    List6Covers(g, h, b);
  }
}
