/**
  `src/net.rs`: addresses and networks of both families, and their place in the tree.

  `ipnet` values are pairs of an address and a prefix length; their parsing is not modelled.
*/
module Networks {
  import opened Prelude
  import opened Bits
  import opened Net

  datatype IpVersion = V4 | V6

  datatype Addr = Addr4(n: nat) | Addr6(n: nat)

  datatype Network = Net4(addr: nat, plen: nat) | Net6(addr: nat, plen: nat)

  function Depth(v: IpVersion): nat {
    match v
    case V4 => 32
    case V6 => 128
  }

  function FamilyWidth(net: Network): nat {
    if net.Net4? then 32 else 128
  }

  function AddrWidth(a: Addr): nat {
    if a.Addr4? then 32 else 128
  }

  ghost predicate AddrOk(a: Addr) {
    a.n < Pow2(AddrWidth(a))
  }

  ghost predicate NetOk(net: Network) {
    net.plen <= FamilyWidth(net) && net.addr < Pow2(FamilyWidth(net))
  }

  /** The bits all addresses of a network share. */
  function NetPrefix(net: Network): Bits
    requires net.plen <= FamilyWidth(net)
  {
    ToBits(net.addr, FamilyWidth(net))[..net.plen]
  }

  /** `IpNet::contains` for two networks. */
  predicate NetContains(outer: Network, inner: Network)
    requires outer.plen <= FamilyWidth(outer) && inner.plen <= FamilyWidth(inner)
  {
    outer.Net4? == inner.Net4? && NetPrefix(outer) <= NetPrefix(inner)
  }

  /** `IpNet::trunc`: clear the host bits. */
  function Truncated(net: Network): nat
    requires net.plen <= FamilyWidth(net)
  {
    var k := FamilyWidth(net) - net.plen;
    Shr(net.addr, k) * Pow2(k)
  }

  datatype TreePrefix = TreePrefix(bits: Bits, plen: nat)

  /** `to_tree_prefix`: a 128-bit walk word and how many of its bits to walk. */
  function ToTreePrefix(net: Network, version: IpVersion): Result<TreePrefix>
    requires net.plen <= FamilyWidth(net)
  {
    match (version, net)
    case (V6, Net6(_, plen)) => Ok(TreePrefix(ToBits(Truncated(net), 128), plen))
    case (V6, Net4(_, plen)) => Ok(TreePrefix(ToBits(Truncated(net), 128), 96 + plen))
    case (V4, Net4(_, plen)) => Ok(TreePrefix(ToBits(Truncated(net) * Pow2(96), 128), plen))
    case (V4, Net6(_, _)) => Err(Ipv6InIpv4Tree)
  }

  /** The path of a network in the tree. */
  function TreePath(net: Network, version: IpVersion): Bits
    requires net.plen <= FamilyWidth(net)
  {
    if version == V6 && net.Net4? then Zeros(96) + NetPrefix(net) else NetPrefix(net)
  }

  /** The path of an address, if the tree has one. */
  function AddrPath(a: Addr, version: IpVersion): Option<Bits> {
    match (version, a)
    case (V6, Addr6(n)) => Some(ToBits(n, 128))
    case (V6, Addr4(n)) => Some(Zeros(96) + ToBits(n, 32))
    case (V4, Addr4(n)) => Some(ToBits(n, 32))
    case (V4, Addr6(_)) => None
  }

  /** The network of a single address. */
  function HostNet(a: Addr): Network {
    match a
    case Addr4(n) => Net4(n, 32)
    case Addr6(n) => Net6(n, 128)
  }

  // --- Integer and bit views --------------------------------------------------------------------

  /** Truncation keeps the shared bits. */
  lemma TruncatedPrefix(net: Network)
    requires NetOk(net)
    ensures Truncated(net) < Pow2(FamilyWidth(net))
    ensures ToBits(Truncated(net), FamilyWidth(net))[..net.plen] == NetPrefix(net)
  {
    var w, k := FamilyWidth(net), FamilyWidth(net) - net.plen;
    ShrBounds(net.addr, k);
    ShrMultiple(Shr(net.addr, k), k);
    SamePrefix(Truncated(net), net.addr, w, k);
  }

  /** The walk word and length that the source computes are the network's path in the tree. */
  lemma TreePrefixIsPath(net: Network, version: IpVersion)
    requires NetOk(net)
    ensures ToTreePrefix(net, version).Err? <==> version == V4 && net.Net6?
    ensures ToTreePrefix(net, version).Ok? ==>
              var t := ToTreePrefix(net, version).value;
              t.plen <= Depth(version) <= |t.bits| && t.bits[..t.plen] == TreePath(net, version)
  {
    TruncatedPrefix(net);
    if net.Net4? {
      var n := Truncated(net);
      PadV4(n, 96, 32, 128);
      TakePadded(Zeros(96), ToBits(n, 32), net.plen);
    }
  }

  lemma TakePadded(z: Bits, b: Bits, k: nat)
    requires k <= |b|
    ensures (z + b)[..|z| + k] == z + b[..k]
    ensures (b + z)[..k] == b[..k]
  {
  }

  lemma PadV4(n: nat, z: nat, w: nat, d: nat)
    requires n < Pow2(w) && d == z + w
    ensures ToBits(n, d) == Zeros(z) + ToBits(n, w)
    ensures ToBits(n * Pow2(z), d) == ToBits(n, w) + Zeros(z)
  {
    ToBitsPad(n, z, w);
    ToBitsShifted(n, w, z);
  }

  /** The path of an address is the path of its host network. */
  lemma AddrPathIsHost(a: Addr, version: IpVersion)
    requires AddrOk(a)
    ensures NetOk(HostNet(a))
    ensures AddrPath(a, version) == if ToTreePrefix(HostNet(a), version).Ok?
                                    then Some(TreePath(HostNet(a), version)) else None
    ensures AddrPath(a, version).Some? ==> |AddrPath(a, version).value| == Depth(version)
  {
    var w := AddrWidth(a);
    assert ToBits(a.n, w)[..w] == ToBits(a.n, w);
  }

  /** A network covers an address exactly if the address is in its integer range. */
  lemma PrefixIsInterval(net: Network, x: nat)
    requires NetOk(net) && x < Pow2(FamilyWidth(net))
    ensures NetPrefix(net) <= ToBits(x, FamilyWidth(net)) <==>
            Truncated(net) <= x < Truncated(net) + Pow2(FamilyWidth(net) - net.plen)
  {
    var w, k := FamilyWidth(net), FamilyWidth(net) - net.plen;
    var q := Shr(net.addr, k);
    PrefixIsSlice(NetPrefix(net), ToBits(x, w));
    SamePrefix(net.addr, x, w, k);
    ShrInterval(x, q, k);
    Successor(q, Pow2(k));
  }

  lemma PrefixIsSlice(p: Bits, a: Bits)
    requires |p| <= |a|
    ensures p <= a <==> a[..|p|] == p
  {
  }

  /** The number a bit string denotes. */
  function FromBits(a: Bits): nat {
    if a == [] then 0 else 2 * FromBits(a[..|a| - 1]) + if a[|a| - 1] then 1 else 0
  }

  lemma {:induction false} FromBitsInverse(a: Bits)
    ensures FromBits(a) < Pow2(|a|) && ToBits(FromBits(a), |a|) == a
  {
    if a != [] {
      FromBitsInverse(a[..|a| - 1]);
      assert a == a[..|a| - 1] + [a[|a| - 1]];
    }
  }

  // --- Lists of networks ------------------------------------------------------------------------

  ghost predicate AllNetsOk(nets: seq<Network>, version: IpVersion) {
    forall i :: 0 <= i < |nets| ==> NetOk(nets[i]) && ToTreePrefix(nets[i], version).Ok?
  }

  /** The paths of the networks in the tree. */
  ghost function Paths(nets: seq<Network>, version: IpVersion): seq<Bits>
    requires forall i :: 0 <= i < |nets| ==> NetOk(nets[i])
  {
    seq(|nets|, i requires 0 <= i < |nets| && NetOk(nets[i]) => TreePath(nets[i], version))
  }

  // --- Ranges -----------------------------------------------------------------------------------

  function ToNetwork(c: Cidr, w: nat): Network {
    if w == 32 then Net4(c.base, c.prefixLen) else Net6(c.base, c.prefixLen)
  }

  /** `range_to_networks`. */
  method RangeToNetworks(start: Addr, end: Addr) returns (r: Result<seq<Network>>)
    requires AddrOk(start) && AddrOk(end)
    ensures r.Err? <==> start.Addr4? != end.Addr4? || start.n > end.n
    ensures r.Err? ==> r.error == InvalidRange
    ensures r.Ok? ==> SameFamily(r.value, start)
    ensures r.Ok? && ShiftInRange(start.n, end.n, AddrWidth(start)) ==> CoverRange(r.value, start, end)
    ensures r.Ok? && !ShiftInRange(start.n, end.n, AddrWidth(start)) ==> r.value != [] && r.value[0] == Net6(0, 0)
  {
    if start.Addr4? != end.Addr4? || start.n > end.n {
      return Err(InvalidRange);
    }
    var w := AddrWidth(start);
    var cidrs := RangeToCidrs(start.n, end.n, w);
    var nets: seq<Network> := [];
    var i := 0;
    while i < |cidrs|
      invariant i <= |cidrs| && |nets| == i
      invariant forall j :: 0 <= j < i ==> nets[j] == ToNetwork(cidrs[j], w)
    {
      nets := nets + [ToNetwork(cidrs[i], w)];
      i := i + 1;
    }
    NetworksOk(cidrs, nets, w);
    if ShiftInRange(start.n, end.n, w) {
      CidrsCover(cidrs, nets, start.n, end.n, w);
    }
    return Ok(nets);
  }

  ghost predicate AnyCovers(nets: seq<Network>, a: Bits)
  {
    exists i :: 0 <= i < |nets| && nets[i].plen <= FamilyWidth(nets[i]) && NetPrefix(nets[i]) <= a
  }

  ghost predicate SameFamily(nets: seq<Network>, start: Addr) {
    forall i :: 0 <= i < |nets| ==> NetOk(nets[i]) && nets[i].Net4? == start.Addr4?
  }

  /** The networks cover exactly the addresses of the range. */
  ghost predicate CoverRange(nets: seq<Network>, start: Addr, end: Addr) {
    && SameFamily(nets, start)
    && (forall x: nat :: x < Pow2(AddrWidth(start)) ==>
          (AnyCovers(nets, ToBits(x, AddrWidth(start))) <==> start.n <= x <= end.n))
  }

  lemma NetworksOk(cidrs: seq<Cidr>, nets: seq<Network>, w: nat)
    requires (w == 32 || w == 128) && AllBlocks(cidrs, w) && |nets| == |cidrs|
    requires forall j :: 0 <= j < |nets| ==> nets[j] == ToNetwork(cidrs[j], w)
    ensures forall j :: 0 <= j < |nets| ==> NetOk(nets[j]) && nets[j].Net4? == (w == 32)
  {
    forall j | 0 <= j < |nets|
      ensures NetOk(nets[j]) && nets[j].Net4? == (w == 32)
    {
      assert IsBlock(cidrs[j], w);
    }
  }

  /** An aligned block is the set of addresses under its network prefix. */
  lemma BlockIsPrefix(c: Cidr, w: nat, x: nat)
    requires (w == 32 || w == 128) && IsBlock(c, w) && x < Pow2(w)
    ensures NetOk(ToNetwork(c, w))
    ensures NetPrefix(ToNetwork(c, w)) <= ToBits(x, w) <==> Contains(c, x, w)
  {
    var net := ToNetwork(c, w);
    assert FamilyWidth(net) == w && net.addr == c.base && net.plen == c.prefixLen;
    assert Truncated(net) == c.base;
    PrefixIsInterval(net, x);
  }

  lemma CidrsCover(cidrs: seq<Cidr>, nets: seq<Network>, start: nat, end: nat, w: nat)
    requires (w == 32 || w == 128) && AllBlocks(cidrs, w) && |nets| == |cidrs|
    requires forall j :: 0 <= j < |nets| ==> nets[j] == ToNetwork(cidrs[j], w)
    requires Exact(cidrs, start, end, w)
    ensures forall x: nat :: x < Pow2(w) ==> (AnyCovers(nets, ToBits(x, w)) <==> start <= x <= end)
  {
    forall x: nat | x < Pow2(w)
      ensures AnyCovers(nets, ToBits(x, w)) <==> start <= x <= end
    {
      assert Covered(cidrs, x, w) <==> start <= x <= end;
      forall i | 0 <= i < |cidrs|
        ensures NetPrefix(ToNetwork(cidrs[i], w)) <= ToBits(x, w) <==> Contains(cidrs[i], x, w)
      {
        BlockIsPrefix(cidrs[i], w, x);
      }
    }
  }
}
