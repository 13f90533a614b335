/** `src/reserved.rs`: the networks that public data should not cover. */
module ReservedNetworks {
  import opened Bits
  import opened Net
  import opened Networks
  import opened Tries
  import opened Aliases

  /** A network by the first 32 bits of its address; the other bits are zero. */
  datatype Head = Head(word: nat, plen: nat)

  const IPV4: seq<Head> := [
    Head(0x0000_0000, 8),  // 0.0.0.0/8
    Head(0x0A00_0000, 8),  // 10.0.0.0/8
    Head(0x6440_0000, 10),  // 100.64.0.0/10
    Head(0x7F00_0000, 8),  // 127.0.0.0/8
    Head(0xA9FE_0000, 16),  // 169.254.0.0/16
    Head(0xAC10_0000, 12),  // 172.16.0.0/12
    Head(0xC000_0000, 29),  // 192.0.0.0/29
    Head(0xC000_0200, 24),  // 192.0.2.0/24
    Head(0xC058_6300, 24),  // 192.88.99.0/24
    Head(0xC0A8_0000, 16),  // 192.168.0.0/16
    Head(0xC612_0000, 15),  // 198.18.0.0/15
    Head(0xC633_6400, 24),  // 198.51.100.0/24
    Head(0xCB00_7100, 24),  // 203.0.113.0/24
    Head(0xE000_0000, 4),  // 224.0.0.0/4
    Head(0xF000_0000, 4)  // 240.0.0.0/4
  ]

  const IPV6: seq<Head> := [
    Head(0x0100_0000, 64),  // 100::/64
    Head(0x2001_0001, 32),  // 2001:1::/32
    Head(0x2001_0002, 31),  // 2001:2::/31
    Head(0x2001_0004, 30),  // 2001:4::/30
    Head(0x2001_0008, 29),  // 2001:8::/29
    Head(0x2001_0010, 28),  // 2001:10::/28
    Head(0x2001_0020, 27),  // 2001:20::/27
    Head(0x2001_0040, 26),  // 2001:40::/26
    Head(0x2001_0080, 25),  // 2001:80::/25
    Head(0x2001_0100, 24),  // 2001:100::/24
    Head(0x2001_0DB8, 32),  // 2001:db8::/32
    Head(0xFC00_0000, 7),  // fc00::/7
    Head(0xFE80_0000, 10),  // fe80::/10
    Head(0xFF00_0000, 8)  // ff00::/8
  ]

  function ToNet4(h: Head): Network {
    Net4(h.word, h.plen)
  }

  function ToNet6(h: Head): Network {
    Net6(h.word * Pow2(96), h.plen)
  }

  /** Both lists apply to an IPv6 tree, only the first to an IPv4 tree. */
  function NetworksOf(v4: seq<Head>, v6: seq<Head>, version: IpVersion): seq<Network> {
    var first := seq(|v4|, i requires 0 <= i < |v4| => ToNet4(v4[i]));
    match version
    case V4 => first
    case V6 => first + seq(|v6|, i requires 0 <= i < |v6| => ToNet6(v6[i]))
  }

  /** `networks`. */
  function ReservedFor(version: IpVersion): seq<Network> {
    NetworksOf(IPV4, IPV6, version)
  }

  /** Networks of the tree that can be painted on it without getting in each other's way. */
  ghost predicate Disjoint(nets: seq<Network>, version: IpVersion) {
    && AllNetsOk(nets, version)
    && (forall i :: 0 <= i < |nets| ==> 0 < |TreePath(nets[i], version)| <= Depth(version))
    && PairwiseApart(Paths(nets, version))
  }

  /** No address of an alias range is under one of the networks. */
  ghost predicate SparesAliases(nets: seq<Network>)
    requires AllNetsOk(nets, V6)
  {
    forall b {:trigger InAliasRange(b)} :: InAliasRange(b) ==> !Under(Paths(nets, V6), b)
  }

  predicate InAliasRange(b: Bits) {
    |b| == 128 && (MAPPED <= b || TEREDO <= b || SIX_TO_FOUR <= b)
  }

  /** The networks take some IPv4 addresses of an IPv6 tree, but not every one. */
  ghost predicate SplitsIpv4(nets: seq<Network>)
    requires AllNetsOk(nets, V6)
  {
    exists x: Bits, y: Bits :: |x| == |y| == 32 && TakesFirst(Paths(nets, V6), Zeros(96) + x, Zeros(96) + y)
  }

  /** Of two addresses, one path is a prefix of the first and none of the second. */
  predicate TakesFirst(paths: seq<Bits>, a: Bits, b: Bits) {
    Under(paths, a) && !Under(paths, b)
  }

  /** What the writer needs to know of its reserved networks. */
  ghost predicate CarveOut(nets: seq<Network>, version: IpVersion) {
    Disjoint(nets, version) && (version == V6 ==> SparesAliases(nets) && SplitsIpv4(nets))
  }

  // --- The lists ascend without overlap ---------------------------------------------------------

  /** The words that share the first `min(plen, 32)` bits of the head. */
  function Span(h: Head): nat {
    if h.plen <= 32 then Pow2(32 - h.plen) else 1
  }

  /** A head whose low bits are clear and that ends within the words. */
  ghost predicate HeadOk(h: Head) {
    0 < h.plen <= 128 && h.word % Span(h) == 0 && h.word + Span(h) <= 0x1_0000_0000
  }

  ghost predicate AllHeadsOk(hs: seq<Head>) {
    forall i :: 0 <= i < |hs| ==> HeadOk(hs[i])
  }

  /** Each head starts where the one before has ended, or later. */
  ghost predicate Ascending(hs: seq<Head>) {
    forall i :: 0 < i < |hs| ==> hs[i - 1].word + Span(hs[i - 1]) <= hs[i].word
  }

  lemma SpanValues(four: nat)
    requires four == 4
    ensures Pow2(0) == 1 && Pow2(1) == 2 && Pow2(2) == 4 && Pow2(3) == 8
    ensures Pow2(four) == 0x10 && Pow2(four + 1) == 0x20 && Pow2(four + 2) == 0x40 && Pow2(four + 3) == 0x80
    ensures Pow2(four + four) == 0x100 && Pow2(16) == 0x1_0000 && Pow2(17) == 0x2_0000
    ensures Pow2(20) == 0x10_0000 && Pow2(22) == 0x40_0000 && Pow2(24) == 0x100_0000
    ensures Pow2(25) == 0x200_0000 && Pow2(28) == 0x1000_0000
  {
    Pow2Add(16, 4);
    Pow2Add(16, 8);
    Pow2Add(24, 4);
  }

  lemma List4Ascends()
    ensures Ascending(IPV4)
    ensures forall i :: 0 <= i < |IPV4| ==> IPV4[i].plen <= 32
  {
    SpanValues(4);
  }

  lemma List6Ascends()
    ensures Ascending(IPV6)
    ensures forall i :: 0 <= i < |IPV6| ==> IPV6[i].word > 0
  {
    SpanValues(4);
  }

  lemma Heads4Ok()
    ensures AllHeadsOk(IPV4)
  {
    SpanValues(4);
  }

  lemma Heads6Ok()
    ensures AllHeadsOk(IPV6)
  {
    Heads6OkBelow();
    forall i | 7 <= i < |IPV6|
      ensures HeadOk(IPV6[i])
    {
      SpanValues(4);
    }
  }

  lemma Heads6OkBelow()
    ensures forall i :: 0 <= i < 7 ==> HeadOk(IPV6[i])
  {
    SpanValues(4);
  }

  lemma {:induction false} AscendingPair(hs: seq<Head>, i: nat, j: nat)
    requires Ascending(hs) && i < j < |hs|
    ensures hs[i].word + Span(hs[i]) <= hs[j].word
    decreases j
  {
    if i < j - 1 {
      AscendingPair(hs, i, j - 1);
    }
  }

  // --- Heads as bit prefixes ----------------------------------------------------------------------

  /** The bits of a head that fit in its word. */
  function HeadBits(h: Head): Bits {
    ToBits(h.word, 32)[..Min(h.plen, 32)]
  }

  /** The words under a head are an interval. */
  lemma HeadInterval(h: Head, x: nat)
    requires HeadOk(h) && x < 0x1_0000_0000
    ensures HeadBits(h) <= ToBits(x, 32) <==> h.word <= x < h.word + Span(h)
  {
    var m := Net4(h.word, Min(h.plen, 32));
    var k := 32 - m.plen;
    Pow2OfWidths(32);
    ExactQuotient(h.word, Pow2(k));
    ShrMultiple(h.word / Pow2(k), k);
    assert Truncated(m) == h.word;
    PrefixIsInterval(m, x);
  }

  lemma ExactQuotient(x: nat, p: nat)
    requires p > 0 && x % p == 0
    ensures x / p * p == x
  {
  }

  lemma HeadsApart(g: Head, h: Head)
    requires HeadOk(g) && HeadOk(h) && g.word + Span(g) <= h.word
    ensures Apart(HeadBits(g), HeadBits(h))
  {
    HeadInterval(g, h.word);
    HeadInterval(h, g.word);
    assert HeadBits(h) <= ToBits(h.word, 32) && HeadBits(g) <= ToBits(g.word, 32);
  }

  lemma ApartLonger(p: Bits, q: Bits, p': Bits, q': Bits)
    requires Apart(p, q) && p <= p' && q <= q'
    ensures Apart(p', q')
  {
    if p' <= q' || q' <= p' {
      PrefixesMeet(p, q, if |p'| <= |q'| then q' else p');
    }
  }

  lemma ApartBehind(z: Bits, p: Bits, q: Bits)
    requires Apart(p, q)
    ensures Apart(z + p, z + q)
  {
    assert p == (z + p)[|z|..] && q == (z + q)[|z|..];
  }

  /** No IPv4-style path starts like a head with a set bit. */
  lemma ZerosApart(h: Head)
    requires HeadOk(h) && h.word > 0
    ensures Apart(Zeros(96), HeadBits(h))
  {
    HeadInterval(h, 0);
    ToBitsZero(32);
    assert Zeros(96)[..32] == Zeros(32);
  }

  /** Where the heads of the two lists stand in the trees. */
  lemma HeadPath4(h: Head)
    requires HeadOk(h) && h.plen <= 32
    ensures NetOk(ToNet4(h)) && TreePath(ToNet4(h), V4) == HeadBits(h)
    ensures TreePath(ToNet4(h), V6) == Zeros(96) + HeadBits(h)
  {
    Pow2OfWidths(32);
  }

  lemma HeadPath6(h: Head, z: nat)
    requires HeadOk(h) && z == 96
    ensures NetOk(ToNet6(h)) && HeadBits(h) <= TreePath(ToNet6(h), V6)
    ensures |TreePath(ToNet6(h), V6)| == h.plen
  {
    HeadNet6(h, 32, z, 128);
    HeadShifted(h.word, 32, z, 128, h.plen);
  }

  lemma HeadNet6(h: Head, w: nat, z: nat, d: nat)
    requires HeadOk(h) && w == 32 && d == w + z
    ensures h.word * Pow2(z) < Pow2(d)
  {
    Pow2OfWidths(w);
    Pow2Add(w, z);
    Scale(h.word + 1, Pow2(w), Pow2(z));
    Successor(h.word, Pow2(z));
  }

  lemma HeadShifted(word: nat, w: nat, z: nat, d: nat, k: nat)
    requires d == w + z && k <= d
    ensures ToBits(word, w)[..Min(k, w)] <= ToBits(word * Pow2(z), d)[..k]
  {
    ToBitsShifted(word, w, z);
  }

  // --- The lists as a carve-out -------------------------------------------------------------------

  /** The facts about the two lists that the proof below needs. */
  ghost predicate ListsOk(v4: seq<Head>, v6: seq<Head>) {
    && AllHeadsOk(v4) && Ascending(v4) && (forall i :: 0 <= i < |v4| ==> v4[i].plen <= 32)
    && AllHeadsOk(v6) && Ascending(v6) && (forall i :: 0 <= i < |v6| ==> v6[i].word > 0)
  }

  /** Where the networks of the two lists stand in the joint one. */
  lemma NetworkAt(v4: seq<Head>, v6: seq<Head>, version: IpVersion, i: nat)
    requires i < |NetworksOf(v4, v6, version)|
    ensures i < |v4| ==> NetworksOf(v4, v6, version)[i] == ToNet4(v4[i])
    ensures i >= |v4| ==> version == V6 && i - |v4| < |v6| && NetworksOf(v4, v6, version)[i] == ToNet6(v6[i - |v4|])
  {
  }

  lemma PathsApart(v4: seq<Head>, v6: seq<Head>, version: IpVersion, i: nat, j: nat)
    requires ListsOk(v4, v6) && i < j < |NetworksOf(v4, v6, version)|
    ensures var nets := NetworksOf(v4, v6, version);
            NetOk(nets[i]) && NetOk(nets[j]) && Apart(TreePath(nets[i], version), TreePath(nets[j], version))
  {
    NetworkAt(v4, v6, version, i);
    NetworkAt(v4, v6, version, j);
    if j < |v4| {
      BothOfV4(v4, version, i, j);
    } else if i < |v4| {
      OneOfEach(v4[i], v6[j - |v4|]);
    } else {
      BothOfV6(v6, i - |v4|, j - |v4|);
    }
  }

  lemma BothOfV4(v4: seq<Head>, version: IpVersion, i: nat, j: nat)
    requires ListsOk(v4, []) && i < j < |v4|
    ensures var m, n := ToNet4(v4[i]), ToNet4(v4[j]);
            NetOk(m) && NetOk(n) && Apart(TreePath(m, version), TreePath(n, version))
  {
    AscendingPair(v4, i, j);
    HeadsApart(v4[i], v4[j]);
    HeadPath4(v4[i]);
    HeadPath4(v4[j]);
    ApartBehind(Zeros(96), HeadBits(v4[i]), HeadBits(v4[j]));
  }

  lemma OneOfEach(g: Head, h: Head)
    requires HeadOk(g) && HeadOk(h) && g.plen <= 32 && h.word > 0
    ensures NetOk(ToNet4(g)) && NetOk(ToNet6(h)) && Apart(TreePath(ToNet4(g), V6), TreePath(ToNet6(h), V6))
  {
    HeadPath4(g);
    HeadPath6(h, 96);
    ZerosApart(h);
    ApartLonger(Zeros(96), HeadBits(h), TreePath(ToNet4(g), V6), TreePath(ToNet6(h), V6));
  }

  lemma BothOfV6(v6: seq<Head>, i: nat, j: nat)
    requires ListsOk([], v6) && i < j < |v6|
    ensures var m, n := ToNet6(v6[i]), ToNet6(v6[j]);
            NetOk(m) && NetOk(n) && Apart(TreePath(m, V6), TreePath(n, V6))
  {
    AscendingPair(v6, i, j);
    HeadsApart(v6[i], v6[j]);
    HeadPath6(v6[i], 96);
    HeadPath6(v6[j], 96);
    ApartLonger(HeadBits(v6[i]), HeadBits(v6[j]), TreePath(ToNet6(v6[i]), V6), TreePath(ToNet6(v6[j]), V6));
  }

  lemma ListsCarveOut(v4: seq<Head>, v6: seq<Head>, version: IpVersion)
    requires ListsOk(v4, v6)
    ensures Disjoint(NetworksOf(v4, v6, version), version)
  {
    var nets := NetworksOf(v4, v6, version);
    forall i | 0 <= i < |nets|
      ensures NetOk(nets[i]) && ToTreePrefix(nets[i], version).Ok?
      ensures 0 < |TreePath(nets[i], version)| <= Depth(version)
    {
      NetworkAt(v4, v6, version, i);
      if i < |v4| {
        HeadPath4(v4[i]);
      } else {
        HeadPath6(v6[i - |v4|], 96);
      }
      TreePrefixIsPath(nets[i], version);
    }
    forall i, j | 0 <= i < j < |nets|
      ensures Apart(Paths(nets, version)[i], Paths(nets, version)[j])
    {
      PathsApart(v4, v6, version, i, j);
    }
  }

  lemma ReservedForDisjoint(version: IpVersion)
    ensures Disjoint(ReservedFor(version), version)
  {
    List4Ascends();
    List6Ascends();
    Heads4Ok();
    Heads6Ok();
    ListsCarveOut(IPV4, IPV6, version);
  }

  // --- Addresses that are not reserved --------------------------------------------------------------

  /** No head of the list has the word `x` under it. */
  ghost predicate Misses(hs: seq<Head>, x: nat) {
    forall i :: 0 <= i < |hs| ==> !(hs[i].word <= x < hs[i].word + Span(hs[i]))
  }

  /** If each head ends by `x` or starts after it, the list misses it; ascending lists need one index. */
  lemma MissesBetween(hs: seq<Head>, x: nat, j: nat)
    requires Ascending(hs) && AllHeadsOk(hs) && j <= |hs|
    requires j > 0 ==> hs[j - 1].word + Span(hs[j - 1]) <= x
    requires j < |hs| ==> x < hs[j].word
    ensures Misses(hs, x)
  {
    forall i | 0 <= i < |hs|
      ensures !(hs[i].word <= x < hs[i].word + Span(hs[i]))
    {
      if i < j - 1 {
        AscendingPair(hs, i, j - 1);
      } else if i > j {
        AscendingPair(hs, j, i);
      }
    }
  }

  /** A path whose first word is missed by the IPv6 list starts like none of its networks. */
  lemma NoHead6(v6: seq<Head>, b: Bits, x: nat, i: nat)
    requires ListsOk([], v6) && Misses(v6, x) && i < |v6| && x < 0x1_0000_0000
    requires |b| >= 32 && b[..32] == ToBits(x, 32)
    ensures NetOk(ToNet6(v6[i])) && !(TreePath(ToNet6(v6[i]), V6) <= b)
  {
    HeadPath6(v6[i], 96);
    HeadInterval(v6[i], x);
    assert HeadBits(v6[i]) <= b <==> HeadBits(v6[i]) <= b[..32];
  }

  /** A path behind 96 zeros whose IPv4 word is missed by the first list starts like none of its networks. */
  lemma NoHead4(v4: seq<Head>, b: Bits, x: nat, i: nat)
    requires ListsOk(v4, []) && Misses(v4, x) && i < |v4| && x < 0x1_0000_0000
    requires b == Zeros(96) + ToBits(x, 32)
    ensures NetOk(ToNet4(v4[i])) && !(TreePath(ToNet4(v4[i]), V6) <= b)
  {
    HeadPath4(v4[i]);
    HeadInterval(v4[i], x);
    assert b[..96] == Zeros(96) && b[96..] == ToBits(x, 32);
    SplitPrefix(Zeros(96), HeadBits(v4[i]), b);
  }

  /** No IPv4 network reaches a path with a set bit among the first 96. */
  lemma NoHead4Beyond(v4: seq<Head>, p: Bits, b: Bits, i: nat)
    requires ListsOk(v4, []) && i < |v4| && Apart(p, Zeros(96)) && p <= b
    ensures NetOk(ToNet4(v4[i])) && !(TreePath(ToNet4(v4[i]), V6) <= b)
  {
    HeadPath4(v4[i]);
    if Zeros(96) <= b {
      PrefixesMeet(p, Zeros(96), b);
    }
  }

  /** No reserved path is a prefix of an address in an alias range. */
  lemma AliasesUnreserved(v4: seq<Head>, v6: seq<Head>, p: Bits, b: Bits, x: nat)
    requires ListsOk(v4, v6) && Misses(v6, x) && x < 0x1_0000_0000
    requires IsAliasPrefix(p) && p <= b && |b| >= 32 && b[..32] == ToBits(x, 32)
    requires AllNetsOk(NetworksOf(v4, v6, V6), V6)
    ensures !Under(Paths(NetworksOf(v4, v6, V6), V6), b)
  {
    AliasesApart();
    forall i | 0 <= i < |v4|
      ensures NetOk(ToNet4(v4[i])) && !(TreePath(ToNet4(v4[i]), V6) <= b)
    {
      NoHead4Beyond(v4, p, b, i);
    }
    forall i | 0 <= i < |v6|
      ensures NetOk(ToNet6(v6[i])) && !(TreePath(ToNet6(v6[i]), V6) <= b)
    {
      NoHead6(v6, b, x, i);
    }
    UnderNeither(v4, v6, b);
  }

  /** An address under no network of either list is under none of the tree's. */
  lemma UnderNeither(v4: seq<Head>, v6: seq<Head>, b: Bits)
    requires AllNetsOk(NetworksOf(v4, v6, V6), V6)
    requires forall i :: 0 <= i < |v4| ==> NetOk(ToNet4(v4[i])) && !(TreePath(ToNet4(v4[i]), V6) <= b)
    requires forall i :: 0 <= i < |v6| ==> NetOk(ToNet6(v6[i])) && !(TreePath(ToNet6(v6[i]), V6) <= b)
    ensures !Under(Paths(NetworksOf(v4, v6, V6), V6), b)
  {
    var nets := NetworksOf(v4, v6, V6);
    forall i | 0 <= i < |nets|
      ensures !(Paths(nets, V6)[i] <= b)
    {
      NetworkAt(v4, v6, V6, i);
    }
  }

  /** The first words of the addresses in an alias range. */
  lemma AliasWord(p: Bits, b: Bits, x: nat)
    requires IsAliasPrefix(p) && p <= b && |b| == 128 && x == FromBits(b[..32])
    ensures x < 0x1_0000_0000 && b[..32] == ToBits(x, 32)
    ensures x == 0 || x == 0x2001_0000 || 0x2002_0000 <= x < 0x2003_0000
  {
    FromBitsInverse(b[..32]);
    Pow2OfWidths(32);
    AliasesApart();
    if p == MAPPED {
      MappedWord(b[..32], x);
    } else if p == TEREDO {
      assert b[..32] == TEREDO;
      TeredoWord(x);
    } else {
      SixToFourWord(b[..32], x, 16);
    }
  }

  lemma MappedWord(w: Bits, x: nat)
    requires |w| == 32 && w <= MAPPED && w == ToBits(x, 32) && x < 0x1_0000_0000
    ensures x == 0
  {
    Pow2OfWidths(32);
    ToBitsZero(32);
    assert MAPPED[..32] == Zeros(32);
    assert w == MAPPED[..|w|];
    ToBitsInjective(x, 0, 32);
  }

  lemma TeredoWord(x: nat)
    requires TEREDO == ToBits(x, 32) && x < 0x1_0000_0000
    ensures x == 0x2001_0000
  {
    Pow2OfWidths(32);
    WordUnder(0x2001, 16, 16);
    ToBitsInjective(x, 0x2001_0000, 32);
  }

  lemma WordUnder(g: nat, k: nat, j: nat)
    requires k == 16 && j == 16
    ensures ToBits(g * 0x1_0000, 32) == ToBits(g, 16) + Zeros(16)
  {
    SpanValues(4);
    assert Pow2(j) == 0x1_0000;
    ToBitsShifted(g, k, j);
  }

  lemma SixToFourWord(w: Bits, x: nat, k: nat)
    requires k == 16 && SIX_TO_FOUR <= w && w == ToBits(x, 32) && x < 0x1_0000_0000
    ensures 0x2002_0000 <= x < 0x2003_0000
  {
    var net := Net4(0x2002_0000, 16);
    SpanValues(4);
    Pow2OfWidths(32);
    WordUnder(0x2002, 16, 16);
    assert |SIX_TO_FOUR| == 16 && NetPrefix(net) == SIX_TO_FOUR;
    PrefixIsInterval(net, x);
    ShrMultiple(0x2002, k);
  }

  /** The IPv6 list misses every alias range. */
  lemma List6MissesAliases(x: nat)
    requires x == 0 || x == 0x2001_0000 || 0x2002_0000 <= x < 0x2003_0000
    ensures Misses(IPV6, x)
  {
    List6Ascends();
    Heads6Ok();
    SpanValues(4);
    MissesBetween(IPV6, x, if x == 0 then 0 else if x == 0x2001_0000 then 1 else 11);
  }

  /** In an IPv6 tree no alias range meets a reserved network. */
  lemma AliasesFree(p: Bits, b: Bits)
    requires IsAliasPrefix(p) && p <= b && |b| == 128
    ensures AllNetsOk(ReservedFor(V6), V6) && !Under(Paths(ReservedFor(V6), V6), b)
  {
    var x := FromBits(b[..32]);
    ReservedForDisjoint(V6);
    AliasWord(p, b, x);
    List6MissesAliases(x);
    List4Ascends();
    List6Ascends();
    Heads4Ok();
    Heads6Ok();
    AliasesUnreserved(IPV4, IPV6, p, b, x);
  }

  /** `0.0.0.0` is under a first head that starts at the word 0. */
  lemma ZeroReserved(v4: seq<Head>, v6: seq<Head>)
    requires ListsOk(v4, v6) && v4 != [] && v4[0].word == 0
    requires AllNetsOk(NetworksOf(v4, v6, V6), V6)
    ensures Under(Paths(NetworksOf(v4, v6, V6), V6), Zeros(96) + Zeros(32))
  {
    HeadPath4(v4[0]);
    HeadInterval(v4[0], 0);
    ToBitsZero(32);
    var b := Zeros(96) + Zeros(32);
    assert b[..96] == Zeros(96) && b[96..] == Zeros(32);
    SplitPrefix(Zeros(96), HeadBits(v4[0]), b);
    assert Paths(NetworksOf(v4, v6, V6), V6)[0] <= b;
  }

  /** An IPv4 address that both lists miss is not reserved. */
  lemma Ipv4Unreserved(v4: seq<Head>, v6: seq<Head>, x: nat)
    requires ListsOk(v4, v6) && Misses(v4, x) && Misses(v6, 0) && x < 0x1_0000_0000
    requires AllNetsOk(NetworksOf(v4, v6, V6), V6)
    ensures !Under(Paths(NetworksOf(v4, v6, V6), V6), Zeros(96) + ToBits(x, 32))
  {
    var b := Zeros(96) + ToBits(x, 32);
    ToBitsZero(32);
    assert b[..32] == Zeros(32);
    forall i | 0 <= i < |v4|
      ensures NetOk(ToNet4(v4[i])) && !(TreePath(ToNet4(v4[i]), V6) <= b)
    {
      NoHead4(v4, b, x, i);
    }
    forall i | 0 <= i < |v6|
      ensures NetOk(ToNet6(v6[i])) && !(TreePath(ToNet6(v6[i]), V6) <= b)
    {
      NoHead6(v6, b, 0, i);
    }
    UnderNeither(v4, v6, b);
  }

  /** Among the IPv4 addresses of an IPv6 tree, `0.0.0.0` is reserved and `1.0.0.0` is not. */
  lemma Ipv4Differs()
    ensures AllNetsOk(ReservedFor(V6), V6)
    ensures Under(Paths(ReservedFor(V6), V6), Zeros(96) + Zeros(32))
    ensures !Under(Paths(ReservedFor(V6), V6), Zeros(96) + ToBits(0x100_0000, 32))
  {
    ReservedForDisjoint(V6);
    List4Ascends();
    List6Ascends();
    Heads4Ok();
    Heads6Ok();
    SpanValues(4);
    MissesBetween(IPV4, 0x100_0000, 1);
    MissesBetween(IPV6, 0, 0);
    ZeroReserved(IPV4, IPV6);
    Ipv4Unreserved(IPV4, IPV6, 0x100_0000);
  }

  /**
    The networks of the source are pairwise disjoint places of the tree, spare the alias ranges,
    and take some but not all IPv4 addresses.
  */
  lemma ReservedForCarvesOut(version: IpVersion)
    ensures CarveOut(ReservedFor(version), version)
  {
    ReservedForDisjoint(version);
    if version == V6 {
      Ipv4Differs();
      assert |ToBits(0x100_0000, 32)| == |Zeros(32)| == 32;
      assert TakesFirst(Paths(ReservedFor(V6), V6), Zeros(96) + Zeros(32), Zeros(96) + ToBits(0x100_0000, 32));
      forall b | InAliasRange(b)
        ensures !Under(Paths(ReservedFor(V6), V6), b)
      {
        AliasesFree(if MAPPED <= b then MAPPED else if TEREDO <= b then TEREDO else SIX_TO_FOUR, b);
      }
    }
  }
}
