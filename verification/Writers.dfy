/** `src/writer.rs`: the public object. It keeps a tree and a pool, and builds the file. */
module Writers {
  import opened Prelude
  import opened Bits
  import opened Values
  import opened Net
  import opened Networks
  import opened Pools
  import opened Tries
  import opened Aliases
  import opened Canonical
  import opened Shapes
  import opened Arena
  import opened DataSections
  import opened RoundTrips
  import opened Layout
  import opened Output
  import opened Histories
  import opened ReservedNetworks

  datatype MergeStrategy = Replace | TopLevelMerge | DeepMerge

  /** Plain replacement. */
  function ConstOp(v: Value): Op {
    (o: Option<Value>) => Some(v)
  }

  /** The closure that `insert_value_merged` passes down for a strategy. */
  function MergeOp(strategy: MergeStrategy, v: Value): Op {
    match strategy
    case Replace => ConstOp(v)
    case TopLevelMerge => (o: Option<Value>) => Some(if o.Some? then MergeTop(o.value, v) else v)
    case DeepMerge => (o: Option<Value>) => Some(if o.Some? then MergeDeep(o.value, v) else v)
  }

  /**
    What a strategy promises for the value `o` found and the value `v` inserted: an empty address gets
    `v`, and so does every address when replacing; else the merge that the strategy names.
  */
  ghost predicate IsMerge(strategy: MergeStrategy, o: Option<Value>, v: Value, r: Option<Value>) {
    r.Some? &&
    if o.None? || strategy.Replace? then r.value == v
    else if strategy.TopLevelMerge? then IsTopMerge(o.value, v, r.value)
    else IsDeepMerge(o.value, v, r.value)
  }

  lemma MergeOpMeans(strategy: MergeStrategy, o: Option<Value>, v: Value)
    requires WellFormed(v) && (o.Some? ==> WellFormed(o.value))
    ensures IsMerge(strategy, o, v, MergeOp(strategy, v)(o))
  {
    if o.Some? {
      MergeTopMeans(o.value, v);
      MergeDeepMeans(o.value, v);
    }
  }

  /** `alias_networks`. */
  const ALIAS_NETWORKS: seq<Network> := [
    Net6(0xFFFF_0000_0000, 96),
    Net6(0x2001_0000_0000_0000_0000_0000_0000_0000, 32),
    Net6(0x2002_0000_0000_0000_0000_0000_0000_0000, 16)
  ]

  predicate AnyContains(nets: seq<Network>, net: Network)
    requires net.plen <= FamilyWidth(net)
    requires forall i :: 0 <= i < |nets| ==> nets[i].plen <= FamilyWidth(nets[i])
  {
    exists i :: 0 <= i < |nets| && NetContains(nets[i], net)
  }

  class Writer {
    const ipVersion: IpVersion
    const recordSize: Option<RecordSize>
    const aliasing: bool
    const reservedExcluded: bool
    /** The networks of `src/reserved.rs` for this IP version. */
    const reserved: seq<Network>
    const tree: Tree
    const pool: ValuePool

    /** The accepted inserts, in order. */
    ghost var log: seq<Change>

    /** What the tree represents. */
    ghost function View(): Trie
      reads this, tree, pool
    {
      tree.Model(pool.values)
    }

    /** The tree before any insert. */
    ghost function Start(): (t: Trie)
      requires AllNetsOk(reserved, ipVersion)
      ensures t.Branch? && Height(t) <= Depth(ipVersion) && NoAlias(t) && NoFixed(t)
    {
      PathsFit(reserved, ipVersion);
      PaintShape(NODE, Paths(reserved, ipVersion), Depth(ipVersion));
      if reservedExcluded then Paint(NODE, Paths(reserved, ipVersion)) else NODE
    }

    ghost predicate Valid()
      reads this, tree, pool
    {
      && pool.Valid() && tree.Valid(|pool.values|)
      && Disjoint(reserved, ipVersion) && reserved == ReservedFor(ipVersion)
      && LogFits(log, Depth(ipVersion))
      && View() == ApplyAll(Start(), log)
    }

    /** `builder`: paint the reserved networks if they are excluded. */
    constructor (ipVersion: IpVersion, recordSize: Option<RecordSize>, aliasing: bool, reservedExcluded: bool)
      ensures Valid() && fresh(tree) && fresh(pool) && log == []
      ensures this.ipVersion == ipVersion && this.recordSize == recordSize && this.aliasing == aliasing
      ensures this.reservedExcluded == reservedExcluded && reserved == ReservedFor(ipVersion)
    {
      var nets := ReservedFor(ipVersion);
      ReservedForDisjoint(ipVersion);
      this.ipVersion := ipVersion;
      this.recordSize := recordSize;
      this.aliasing := aliasing;
      this.reservedExcluded := reservedExcluded;
      reserved := nets;
      log := [];
      var t := StartTree(reservedExcluded, nets, ipVersion);
      tree := t;
      pool := new ValuePool();
      new;
      StartsValid();
    }

    /** A fresh tree, painted or not, with an empty pool and log. */
    lemma StartsValid()
      requires pool.Valid() && pool.values == [] && tree.Valid(0) && log == []
      requires reserved == ReservedFor(ipVersion) && Disjoint(reserved, ipVersion)
      requires tree.Model([]) == if reservedExcluded then Paint(NODE, Paths(reserved, ipVersion)) else NODE
      ensures Valid()
    {
    }

    /** The shape facts that hold of the tree in every reachable state. */
    lemma ViewShape()
      requires Valid()
      ensures View().Branch? && Height(View()) <= Depth(ipVersion) && NoAlias(View()) && NoFixed(View())
      ensures NoAliases(tree.shape)
      ensures RootTidy(View())
    {
      PaintTidy(NODE, Paths(reserved, ipVersion));
      ApplyAllShape(Start(), log, Depth(ipVersion));
      NoAliasesView(tree.shape, pool.values);
    }

    /** The value the accepted inserts give an address, by its path in the tree. */
    ghost function Meaning(a: Bits): Option<Value>
      requires AllNetsOk(reserved, ipVersion)
      reads this
    {
      MeaningOf(log, a)
    }

    /** The same for any log. */
    ghost function MeaningOf(changes: seq<Change>, a: Bits): Option<Value>
      requires AllNetsOk(reserved, ipVersion)
    {
      if reservedExcluded && Under(Paths(reserved, ipVersion), a) then None else Fold(changes, a, None)
    }

    /** What an address resolves to: reserved addresses stay so, all others have their meaning. */
    ghost function Tip(a: Bits): Trie
      requires AllNetsOk(reserved, ipVersion)
      reads this
    {
      if reservedExcluded && Under(Paths(reserved, ipVersion), a) then Trie.Reserved else FromOption(Meaning(a))
    }

    /**
      The whole-run refinement: in every reachable state an address resolves to the fold, in
      order, of the operations of exactly those accepted inserts whose network covers it, except
      that an address of a reserved network never has a value and no other address is reserved.
    */
    lemma Resolves(a: Bits)
      requires Valid() && |a| == Depth(ipVersion)
      ensures LeafAt(View(), a) == Tip(a)
      ensures ValueOf(LeafAt(View(), a)) == Meaning(a)
    {
      if reservedExcluded {
        ReservedRun(Paths(reserved, ipVersion), log, a);
      } else {
        NodeIsEmpty(a);
        RunPointwise(NODE, log, a);
      }
    }

    // --- Inserts --------------------------------------------------------------------------------

    /** `ensure_insertable` and `to_tree_prefix`: why a network is refused, if it is. */
    function Verdict(net: Network): Result<TreePrefix>
      requires net.plen <= FamilyWidth(net)
      requires forall i :: 0 <= i < |reserved| ==> reserved[i].plen <= FamilyWidth(reserved[i])
    {
      if ipVersion == V6 && aliasing && AnyContains(ALIAS_NETWORKS, net) then Err(AliasedNetwork)
      else if reservedExcluded && AnyContains(reserved, net) then Err(ReservedNetwork)
      else ToTreePrefix(net, ipVersion)
    }

    /** `insert_with`: rewrite the value at every address of the network by a pure operation. */
    method InsertWith(net: Network, op: Op) returns (r: Option<Error>)
      requires Valid() && NetOk(net)
      modifies this, tree, pool
      ensures Valid()
      ensures r == if Verdict(net).Ok? then None else Some(Verdict(net).error)
      ensures log == if r.None? then old(log) + [Change(TreePath(net, ipVersion), op)] else old(log)
    {
      match Verdict(net)
      case Err(e) => return Some(e);
      case Ok(p) =>
        Accept(net, p, Rewrite(op), op);
        return None;
    }

    /** Apply an accepted insert to the tree. */
    method Accept(net: Network, p: TreePrefix, leafOp: LeafOp, ghost op: Op)
      requires Valid() && NetOk(net) && ToTreePrefix(net, ipVersion) == Ok(p)
      requires Implements(leafOp, op, pool.values)
      modifies this, tree, pool
      ensures Valid() && log == old(log) + [Change(TreePath(net, ipVersion), op)]
    {
      TreePrefixIsPath(net, ipVersion);
      tree.InsertPrefix(p.bits, p.plen, leafOp, pool, op);
      LogStep(Start(), log, Change(TreePath(net, ipVersion), op), Depth(ipVersion));
      log := log + [Change(TreePath(net, ipVersion), op)];
    }

    /** Interning a value changes nothing that is stored. */
    method InternValue(value: Value) returns (id: nat)
      requires Valid()
      modifies pool
      ensures Valid() && View() == old(View())
      ensures id < |pool.values| && pool.values[id] == value
    {
      id := pool.Intern(value);
      ViewFrame(tree.shape, old(pool.values), pool.values, tree.target);
    }

    /** `insert_value`: intern the value, then store its id throughout the network. */
    method InsertValue(net: Network, value: Value) returns (r: Option<Error>)
      requires Valid() && NetOk(net)
      modifies this, tree, pool
      ensures Valid()
      ensures r == if Verdict(net).Ok? then None else Some(Verdict(net).error)
      ensures log == if r.None? then old(log) + [Change(TreePath(net, ipVersion), ConstOp(value))] else old(log)
    {
      match Verdict(net)
      case Err(e) => return Some(e);
      case Ok(p) =>
        var id := InternValue(value);
        Accept(net, p, Store(id), ConstOp(value));
        return None;
    }

    /**
      After a merged insert every address of the network has the merge of what it had with the value,
      unless it is reserved, and every other address has what it had.
    */
    ghost predicate MergedInto(before: seq<Change>, after: seq<Change>, net: Network, value: Value,
                               strategy: MergeStrategy)
      requires AllNetsOk(reserved, ipVersion) && NetOk(net)
    {
      forall a: Bits :: |a| == Depth(ipVersion) ==>
        var found := MeaningOf(before, a);
        if !(TreePath(net, ipVersion) <= a) || (reservedExcluded && Under(Paths(reserved, ipVersion), a))
        then MeaningOf(after, a) == found
        else (found.Some? ==> WellFormed(found.value)) ==> IsMerge(strategy, found, value, MeaningOf(after, a))
    }

    lemma MergedChange(before: seq<Change>, net: Network, value: Value, strategy: MergeStrategy)
      requires AllNetsOk(reserved, ipVersion) && NetOk(net) && WellFormed(value)
      ensures MergedInto(before, before + [Change(TreePath(net, ipVersion), MergeOp(strategy, value))],
                         net, value, strategy)
    {
      var after := before + [Change(TreePath(net, ipVersion), MergeOp(strategy, value))];
      assert after[..|after| - 1] == before;
      forall a: Bits
        | |a| == Depth(ipVersion) && (Fold(before, a, None).Some? ==> WellFormed(Fold(before, a, None).value))
        ensures IsMerge(strategy, Fold(before, a, None), value, MergeOp(strategy, value)(Fold(before, a, None)))
      {
        MergeOpMeans(strategy, Fold(before, a, None), value);
      }
    }

    /** `insert_value_merged`. */
    method InsertValueMerged(net: Network, value: Value, strategy: MergeStrategy) returns (r: Option<Error>)
      requires Valid() && NetOk(net)
      modifies this, tree, pool
      ensures Valid()
      ensures r == if Verdict(net).Ok? then None else Some(Verdict(net).error)
      ensures log == if r.None? then old(log) + [Change(TreePath(net, ipVersion), MergeOp(strategy, value))]
                     else old(log)
      ensures r.None? && WellFormed(value) ==> MergedInto(old(log), log, net, value, strategy)
    {
      if WellFormed(value) {
        MergedChange(log, net, value, strategy);
      }
      match strategy
      case Replace => r := InsertValue(net, value);
      case TopLevelMerge => r := InsertWith(net, MergeOp(TopLevelMerge, value));
      case DeepMerge => r := InsertWith(net, MergeOp(DeepMerge, value));
    }

    /**
      `insert_range`: insert at each block of the decomposition, stopping at the first refusal;
      the blocks before it stay inserted. Completed, the value is stored at exactly the addresses
      of the range (reserved ones excepted). Where the shift wraps, the first block is the whole
      space, so the value ends up at every address. `nets` is the decomposition, `done` how many
      blocks of it were inserted.
    */
    method InsertRange(start: Addr, end: Addr, value: Value)
      returns (r: Option<Error>, ghost nets: seq<Network>, ghost done: nat)
      requires Valid() && AddrOk(start) && AddrOk(end)
      modifies this, tree, pool
      ensures Valid()
      ensures start.Addr4? != end.Addr4? || start.n > end.n ==> r == Some(InvalidRange) && log == old(log)
      ensures start.Addr4? == end.Addr4? && start.n <= end.n ==>
                Inserted(nets, done, value, r) && log == Logged(old(log), nets, done, value)
      ensures start.Addr4? == end.Addr4? && start.n <= end.n && ShiftInRange(start.n, end.n, AddrWidth(start)) ==>
                CoverRange(nets, start, end)
      ensures r.None? && ShiftInRange(start.n, end.n, AddrWidth(start)) ==>
                Painted(old(View()), View(), start, end, ipVersion, value)
      ensures start.Addr4? == end.Addr4? && start.n <= end.n && !ShiftInRange(start.n, end.n, AddrWidth(start)) ==>
                && nets != [] && nets[0] == Net6(0, 0)
                && (done > 0 ==> Flooded(old(View()), View(), ipVersion, value))
    {
      ghost var before := log;
      nets, done := [], 0;
      var found := RangeToNetworks(start, end);
      if found.Err? {
        return Some(found.error), nets, done;
      }
      nets := found.value;
      r, done := InsertAll(found.value, value);
      if !ShiftInRange(start.n, end.n, AddrWidth(start)) {
        if done > 0 {
          WholeSpaceFloods(before, nets, done, value, r);
        }
      } else if r.None? {
        CompletePaints(before, nets, start, end, value);
      }
    }

    /** The loop of `insert_range`. */
    method InsertAll(nets: seq<Network>, value: Value) returns (r: Option<Error>, ghost done: nat)
      requires Valid() && forall i :: 0 <= i < |nets| ==> NetOk(nets[i])
      modifies this, tree, pool
      ensures Valid()
      ensures Inserted(nets, done, value, r) && log == Logged(old(log), nets, done, value)
    {
      ghost var before := log;
      var i := 0;
      while i < |nets|
        invariant i <= |nets| && Valid()
        invariant AllAccepted(nets, i)
        invariant log == Logged(before, nets, i, value)
      {
        var refused := InsertValue(nets[i], value);
        if refused.Some? {
          return refused, i;
        }
        i := i + 1;
      }
      return None, i;
    }

    ghost predicate AllAccepted(nets: seq<Network>, done: nat)
      requires done <= |nets| && forall i :: 0 <= i < |nets| ==> NetOk(nets[i])
      requires forall i :: 0 <= i < |reserved| ==> reserved[i].plen <= FamilyWidth(reserved[i])
    {
      done > 0 ==> NetOk(nets[done - 1]) && Verdict(nets[done - 1]).Ok? && AllAccepted(nets, done - 1)
    }

    /** The first `done` networks were accepted, and the next one, if any, explains the outcome. */
    ghost predicate Inserted(nets: seq<Network>, done: nat, value: Value, r: Option<Error>) {
      && (forall i :: 0 <= i < |nets| ==> NetOk(nets[i]))
      && (forall i :: 0 <= i < |reserved| ==> reserved[i].plen <= FamilyWidth(reserved[i]))
      && done <= |nets|
      && AllAccepted(nets, done)
      && (r == if done == |nets| then None else
            match Verdict(nets[done]) case Err(e) => Some(e) case Ok(_) => None)
      && (done < |nets| ==> Verdict(nets[done]).Err?)
    }

    /** A log after storing the value in the first `done` networks, in order. */
    ghost function Logged(log: seq<Change>, nets: seq<Network>, done: nat, value: Value): seq<Change>
      requires done <= |nets| && forall i :: 0 <= i < |nets| ==> NetOk(nets[i])
    {
      if done == 0 then log
      else Logged(log, nets, done - 1, value) + [Change(TreePath(nets[done - 1], ipVersion), ConstOp(value))]
    }

    lemma {:induction false} LoggedStores(log: seq<Change>, nets: seq<Network>, done: nat, value: Value)
      requires done <= |nets| && forall i :: 0 <= i < |nets| ==> NetOk(nets[i])
      ensures Logged(log, nets, done, value) == log + StoreChanges(Paths(nets, ipVersion)[..done], value)
    {
      if done == 0 {
        assert StoreChanges(Paths(nets, ipVersion)[..0], value) == [];
      } else {
        LoggedStores(log, nets, done - 1, value);
        StoreChangesStep(Paths(nets, ipVersion), done - 1, value);
      }
    }

    lemma {:induction false} FirstAccepted(nets: seq<Network>, done: nat)
      requires 0 < done <= |nets| && forall i :: 0 <= i < |nets| ==> NetOk(nets[i])
      requires forall i :: 0 <= i < |reserved| ==> reserved[i].plen <= FamilyWidth(reserved[i])
      requires AllAccepted(nets, done)
      ensures Verdict(nets[0]).Ok?
    {
      if done > 1 {
        FirstAccepted(nets, done - 1);
      }
    }

    lemma CompletePaints(before: seq<Change>, nets: seq<Network>, start: Addr, end: Addr, value: Value)
      requires Valid() && AddrOk(start) && AddrOk(end) && start.Addr4? == end.Addr4? && start.n <= end.n
      requires CoverRange(nets, start, end) && Inserted(nets, |nets|, value, None)
      requires log == Logged(before, nets, |nets|, value)
      ensures ApplyAll(Start(), before).Branch?
      ensures Painted(ApplyAll(Start(), before), View(), start, end, ipVersion, value)
    {
      var paths := Paths(nets, ipVersion);
      LoggedStores(before, nets, |nets|, value);
      assert paths[..|nets|] == paths;
      CoverNotEmpty(nets, start, end);
      FirstAccepted(nets, |nets|);
      RangePaints(Start(), before, nets, start, end, ipVersion, value);
    }

    lemma WholeSpaceFloods(before: seq<Change>, nets: seq<Network>, done: nat, value: Value, r: Option<Error>)
      requires Valid() && Inserted(nets, done, value, r) && done > 0 && nets[0] == Net6(0, 0)
      requires log == Logged(before, nets, done, value)
      ensures ApplyAll(Start(), before).Branch?
      ensures Flooded(ApplyAll(Start(), before), View(), ipVersion, value)
    {
      var paths := Paths(nets, ipVersion)[..done];
      LoggedStores(before, nets, done, value);
      assert paths[0] == [];
      RunFloods(Start(), before, paths, value, Depth(ipVersion));
    }

    // --- Reading --------------------------------------------------------------------------------

    /** `get`: what the address resolves to now. */
    method Get(ip: Addr) returns (r: Option<Value>)
      requires Valid() && AddrOk(ip)
      ensures r == if AddrPath(ip, ipVersion).Some? then Meaning(AddrPath(ip, ipVersion).value) else None
    {
      AddrPathIsHost(ip, ipVersion);
      match ToTreePrefix(HostNet(ip), ipVersion)
      case Err(_) => return None;
      case Ok(p) =>
        TreePrefixIsPath(HostNet(ip), ipVersion);
        ViewShape();
        var id := tree.GetId(p.bits, Depth(ipVersion), pool.values);
        Resolves(p.bits[..Depth(ipVersion)]);
        NoAliasTip(View(), p.bits[..Depth(ipVersion)]);
        LookAtTip(V4Of(View()), View(), p.bits[..Depth(ipVersion)]);
        if id.None? {
          return None;
        }
        var v := pool.Get(id.value);
        return Some(v);
    }

    // --- What is refused, and what is aliased -----------------------------------------------------

    /**
      Why an insert is refused: every address of the network lies in one alias range while
      aliasing is on, or in one reserved network of its family, or it does not fit the tree.
      A network that merely contains such a range is accepted.
    */
    lemma RefusedExactly(net: Network)
      requires Valid() && NetOk(net)
      ensures Verdict(net) == Err(AliasedNetwork) <==>
              ipVersion == V6 && aliasing && net.Net6? && exists p :: IsAliasPrefix(p) && AllUnder(net, p)
      ensures Verdict(net) == Err(ReservedNetwork) <==>
              Verdict(net) != Err(AliasedNetwork) && reservedExcluded &&
              exists i :: 0 <= i < |reserved| && reserved[i].Net4? == net.Net4? && AllUnder(net, NetPrefix(reserved[i]))
      ensures Verdict(net) == Err(Ipv6InIpv4Tree) <==>
              ipVersion == V4 && net.Net6? && Verdict(net) != Err(ReservedNetwork)
    {
      AliasRefusal(net);
      ReservedRefusal(reserved, net);
    }

    /**
      Exactly when `build` aliases: the IPv4 addresses do not all resolve alike, and the alias
      range holds no value. Excluding reserved networks makes the first so by itself.
    */
    lemma AliasedWhen(a: Bits, p: Bits)
      requires Valid() && ipVersion == V6 && |a| == 128
      ensures ReadsAsV4(a, p) <==>
              aliasing && IsAliasPrefix(p) && p <= a && ValueFree(p) && (reservedExcluded || NotUniform())
    {
      ViewShape();
      Ipv4RootIsNode();
      ReservedForCarvesOut(V6);
      if IsAliasPrefix(p) {
        AliasesApart();
        FreeIffVacant(View(), p, 128);
        forall b: Bits | |b| == 128 && p <= b
          ensures LeafAt(View(), b) == FromOption(Meaning(b))
        {
          Resolves(b);
          assert InAliasRange(b);
        }
      }
    }

    /** The walk to the IPv4 root meets a node exactly if the IPv4 addresses do not all resolve alike. */
    lemma Ipv4RootIsNode()
      requires Valid() && ipVersion == V6
      ensures PlainWalk(View(), V4_DEPTH) <==> reservedExcluded || NotUniform()
    {
      ViewShape();
      Ipv4TipsDiffer();
      if Mixed(View(), V4_DEPTH, 32) {
        MixedWalks(View(), V4_DEPTH, 32);
      } else {
        ApplyAllShape(NODE, log, 128);
        MixedLeft(View(), V4_DEPTH, 32);
        WalkIffMixed(View().left, V4_DEPTH - 1, 32);
      }
    }

    lemma Ipv4TipsDiffer()
      requires Valid() && ipVersion == V6
      ensures Mixed(View(), V4_DEPTH, 32) <==> reservedExcluded || NotUniform()
    {
      if reservedExcluded {
        ReservedMixes();
      } else {
        assert |Zeros(32)| == 32;
        Ipv4TipsResolve();
      }
    }

    lemma Ipv4TipsResolve()
      requires Valid() && ipVersion == V6
      ensures forall x: Bits | |x| == 32 :: LeafAt(View(), Zeros(96) + x) == Tip(Zeros(96) + x)
    {
      forall x: Bits | |x| == 32
        ensures LeafAt(View(), Zeros(96) + x) == Tip(Zeros(96) + x)
      {
        assert |Zeros(96) + x| == 128;
        Resolves(Zeros(96) + x);
      }
    }

    lemma ReservedMixes()
      requires Valid() && ipVersion == V6 && reservedExcluded
      ensures Mixed(View(), V4_DEPTH, 32)
    {
      ReservedForCarvesOut(V6);
      var x: Bits, y: Bits :| |x| == |y| == 32 && TakesFirst(Paths(reserved, V6), Zeros(96) + x, Zeros(96) + y);
      TakenTipsDiffer(x, y);
    }

    lemma TakenTipsDiffer(x: Bits, y: Bits)
      requires Valid() && ipVersion == V6 && reservedExcluded
      requires |x| == |y| == 32 && TakesFirst(Paths(reserved, V6), Zeros(96) + x, Zeros(96) + y)
      ensures Mixed(View(), V4_DEPTH, 32)
    {
      Ipv4TipsResolve();
      MixedBy(View(), x, y);
    }

    /** Some IPv4 address differs from `0.0.0.0`. */
    ghost predicate NotUniform()
      requires AllNetsOk(reserved, ipVersion)
      reads this
    {
      exists x: Bits :: |x| == 32 && Meaning(Zeros(96) + x) != Meaning(Zeros(96) + Zeros(32))
    }

    ghost predicate ValueFree(p: Bits)
      requires AllNetsOk(reserved, ipVersion)
      reads this
    {
      forall b: Bits :: |b| == 128 && p <= b ==> Meaning(b) == None
    }

    // --- Building -------------------------------------------------------------------------------

    /** The trie that is serialized. */
    ghost function Shipped(): Trie
      requires Valid()
      reads this, tree, pool
    {
      ViewShape();
      Published(View(), ipVersion == V6 && aliasing)
    }

    /** The address lies in an alias range that `build` installs, after the prefix `p`. */
    ghost predicate ReadsAsV4(a: Bits, p: Bits)
      reads this, tree, pool
    {
      ipVersion == V6 && aliasing && Aliased(View(), a, p)
    }

    /**
      End to end: in every reachable state whose build succeeds, the specification's reader finds
      for every address what `Get` finds; in an installed alias range, what `Get` finds for the
      IPv4 address that follows the prefix.
    */
    lemma ReaderAgrees(metadata: Metadata, a: Bits)
      requires Valid() && |a| == Depth(ipVersion)
      requires Image(Shipped(), recordSize, metadata).Ok?
      ensures var answer := ReadDatabase(Image(Shipped(), recordSize, metadata).value, a);
              && ((forall p :: !ReadsAsV4(a, p)) ==> Answers(answer, Meaning(a)))
              && (forall p :: ReadsAsV4(a, p) ==>
                    |p| + 32 <= |a| && p <= a && Answers(answer, Meaning(Embedded(a, p))))
    {
      ViewShape();
      EndToEnd(View(), ipVersion == V6 && aliasing, recordSize, metadata, a);
      Resolves(a);
      forall p | ReadsAsV4(a, p)
        ensures p <= a && |p| + 32 <= |a|
        ensures ValueOf(LeafAt(View(), Embedded(a, p))) == Meaning(Embedded(a, p))
      {
        assert Aliased(View(), a, p);
        Resolves(Embedded(a, p));
      }
      if forall p :: !ReadsAsV4(a, p) {
        assert !(ipVersion == V6 && aliasing) || forall p :: !Aliased(View(), a, p) by {
          forall p ensures ipVersion == V6 && aliasing ==> !Aliased(View(), a, p) {
            assert !ReadsAsV4(a, p);
          }
        }
      }
    }

    /** The numbers that decide the automatic record size: nodes, separator and data. */
    ghost function Extent(): nat
      requires Valid()
      reads this, tree, pool
    {
      Count(Shipped()) + 16 + |DataOf(Shipped()).bytes|
    }

    /**
      With automatic record size, a build succeeds exactly if nodes, separator and data stay below
      2^32, and then uses the smallest record size they fit.
    */
    lemma AutomaticSucceeds(metadata: Metadata)
      requires Valid() && recordSize == None
      ensures Image(Shipped(), recordSize, metadata).Ok? <==> Extent() < 0x1_0000_0000
      ensures Image(Shipped(), recordSize, metadata).Ok? ==>
                Image(Shipped(), recordSize, metadata).value.recordSize ==
                if Extent() < 0x100_0000 then Bits24 else if Extent() < 0x1000_0000 then Bits28 else Bits32
      ensures Image(Shipped(), recordSize, metadata).Err? ==>
                Image(Shipped(), recordSize, metadata).error == TreeTooLarge
    {
      ViewShape();
      PublishedHasTarget(View(), ipVersion == V6 && aliasing);
      AutomaticSizeNeverFails(Shipped(), metadata);
      PickExactly(Count(Shipped()), |DataOf(Shipped()).bytes|, None);
      if Image(Shipped(), recordSize, metadata).Ok? {
        ImageLayout(Shipped(), recordSize, metadata);
      }
    }

    /** A pinned record size is used, and the build succeeds exactly if every record fits in its bits. */
    lemma PinnedSucceeds(metadata: Metadata, rs: RecordSize)
      requires Valid() && recordSize == Some(rs)
      ensures Image(Shipped(), recordSize, metadata).Ok? <==>
              AllBelow(Flat(Shipped(), 0), Count(Shipped()), Offsets(DataOf(Shipped())), Pow2(RecordBits(rs)))
      ensures Image(Shipped(), recordSize, metadata).Ok? ==>
                Image(Shipped(), recordSize, metadata).value.recordSize == rs
    {
      PinnedImage(Shipped(), rs, metadata);
    }

    /** The copy of the tree that is published: aliases installed, compacted and renumbered. */
    method PublishCopy() returns (t: Tree)
      requires Valid()
      ensures fresh(t) && t.Valid(|pool.values|) && Packed(t.shape, 0) && |t.nodes| == Size(t.shape)
      ensures t.Model(pool.values) == Shipped()
      ensures SlotsOf(t.nodes, pool.values) == Flat(Shipped(), 0) && Count(Shipped()) == |t.nodes|
    {
      ViewShape();
      t := new Tree.Clone(tree);
      if ipVersion == V6 && aliasing {
        t.InstallIpv4Aliases(pool.values);
      }
      pool.IdsAreDistinct();
      t.CompactTree(pool.values);
      PackedIsFlat(t.nodes, t.shape, pool.values, t.target);
    }

    /** `build`: publish a copy of the tree, encode the reachable values, pick a size, pack. */
    method Build(metadata: Metadata) returns (r: Result<Database>)
      requires Valid()
      ensures r == Image(Shipped(), recordSize, metadata)
    {
      ghost var values := pool.values;
      var t := PublishCopy();
      var ids := t.ReachableDataIds();
      DataIdsInRange(t.nodes, t.shape, values, t.target);
      var data, idToOffset := EncodeIds(ids);
      DataOfIds(t.nodes, t.shape, values, t.target);
      var size := PickRecordSize(|t.nodes|, |data.bytes|);
      if size.Err? {
        return Err(size.error);
      }
      AllResolved(t.nodes, ids, idToOffset, values, data.State());
      var packed := t.Serialize(size.value, idToOffset, values, Offsets(data.State()));
      if packed.Err? {
        return Err(packed.error);
      }
      var meta := metadata(|t.nodes|, size.value);
      return Ok(Database(packed.value + SEPARATOR + data.bytes + METADATA_MARKER + meta, |t.nodes|, size.value));
    }

    /** The data section: every id once, in order, with the offset it got. */
    method EncodeIds(ids: seq<nat>) returns (data: DataSection, idToOffset: map<nat, nat>)
      requires forall i :: 0 <= i < |ids| ==> ids[i] < |pool.values|
      ensures fresh(data)
      ensures data.State() == PushAll(FRESH, ValuesFor(ids, pool.values))
      ensures AllHaveOffsets(ids, idToOffset, pool.values, data.State())
    {
      data := new DataSection(false);
      idToOffset := map[];
      var j := 0;
      while j < |ids|
        invariant j <= |ids|
        invariant fresh(data)
        invariant data.State() == PushAll(FRESH, ValuesFor(ids[..j], pool.values))
        invariant AllHaveOffsets(ids[..j], idToOffset, pool.values, data.State())
      {
        var v := pool.Get(ids[j]);
        EncodeStep(ids, j, pool.values, idToOffset, data.State());
        var offset := data.PushValue(v);
        idToOffset := idToOffset[ids[j] := offset];
        j := j + 1;
      }
      assert ids[..j] == ids;
    }

    /** `pick_record_size`: the pinned size, or the smallest that fits. */
    method PickRecordSize(nodeCount: nat, dataLen: nat) returns (r: Result<RecordSize>)
      ensures r == Pick(nodeCount, dataLen, recordSize)
      ensures recordSize.Some? ==> r == Ok(recordSize.value)
      ensures recordSize.None? ==>
                r == if nodeCount + 16 + dataLen < 0x100_0000 then Ok(Bits24)
                     else if nodeCount + 16 + dataLen < 0x1000_0000 then Ok(Bits28)
                     else if nodeCount + 16 + dataLen < 0x1_0000_0000 then Ok(Bits32)
                     else Err(TreeTooLarge)
    {
      if recordSize.Some? {
        return Ok(recordSize.value);
      }
      var ascending := [Bits24, Bits28, Bits32];
      var i := 0;
      while i < |ascending|
        invariant i <= |ascending|
        invariant forall j :: 0 <= j < i ==> !Fits(nodeCount, ascending[j], dataLen)
      {
        assert i > 0 ==> !Fits(nodeCount, ascending[0], dataLen);
        assert i > 1 ==> !Fits(nodeCount, ascending[1], dataLen);
        if Fits(nodeCount, ascending[i], dataLen) {
          return Ok(ascending[i]);
        }
        i := i + 1;
      }
      assert !Fits(nodeCount, ascending[0], dataLen) && !Fits(nodeCount, ascending[1], dataLen)
          && !Fits(nodeCount, ascending[2], dataLen);
      return Err(TreeTooLarge);
    }
  }

  lemma LogStep(t: Trie, log: seq<Change>, c: Change, depth: nat)
    requires t.Branch? && LogFits(log, depth) && |c.prefix| <= depth
    ensures LogFits(log + [c], depth)
    ensures ApplyAll(t, log + [c]) == InsertRoot(ApplyAll(t, log), c.prefix, c.op)
  {
    assert (log + [c])[..|log|] == log;
  }

  /**
    Canonical output: two writers with the same options that give every address the same value
    build the same file, or fail alike, whatever inserts led there.
  */
  lemma SameMapSameFile(u: Writer, w: Writer, metadata: Metadata)
    requires u.Valid() && w.Valid()
    requires u.ipVersion == w.ipVersion && u.recordSize == w.recordSize && u.aliasing == w.aliasing
    requires u.reservedExcluded == w.reservedExcluded
    requires forall a: Bits :: |a| == Depth(u.ipVersion) ==> u.Meaning(a) == w.Meaning(a)
    ensures u.Shipped() == w.Shipped()
    ensures Image(u.Shipped(), u.recordSize, metadata) == Image(w.Shipped(), w.recordSize, metadata)
  {
    u.ViewShape();
    w.ViewShape();
    forall a: Bits | |a| == Depth(u.ipVersion)
      ensures LeafAt(u.View(), a) == LeafAt(w.View(), a)
    {
      u.Resolves(a);
      w.Resolves(a);
    }
    if u.ipVersion == V6 {
      u.Ipv4RootIsNode();
      w.Ipv4RootIsNode();
      SameUniformity(u, w);
    }
    PublishedCanonical(u.View(), w.View(), u.ipVersion == V6 && u.aliasing, Depth(u.ipVersion));
  }

  lemma SameUniformity(u: Writer, w: Writer)
    requires u.Valid() && w.Valid() && u.ipVersion == w.ipVersion == V6
    requires forall a: Bits :: |a| == 128 ==> u.Meaning(a) == w.Meaning(a)
    ensures u.NotUniform() == w.NotUniform()
  {
    forall x: Bits | |x| == 32
      ensures u.Meaning(Zeros(96) + x) == w.Meaning(Zeros(96) + x)
    {
      assert |Zeros(96) + x| == 128;
    }
    assert |Zeros(32)| == 32;
  }

  // --- Covering data ------------------------------------------------------------------------------

  /** `2001::/16`, which contains the Teredo range, and `0.0.0.0/1`. */
  ghost predicate CoverAndHalf(cover: Network, half: Network) {
    cover == Net6(0x2001_0000_0000_0000_0000_0000_0000_0000, 16) && half == Net4(0, 1)
  }

  /**
    A witness that covering data is not carved out: a writer accepts a value on `2001::/16` and
    another on `0.0.0.0/1`; the IPv4 root is there, yet a Teredo address keeps the covering value.
  */
  lemma CoveringDataStays(w: Writer, cover: Network, half: Network, v: Value, x: Value, a: Bits)
    requires w.Valid() && w.ipVersion == V6 && w.aliasing && !w.reservedExcluded
    requires CoverAndHalf(cover, half)
    requires w.log == [Change(TreePath(cover, V6), ConstOp(v)), Change(TreePath(half, V6), ConstOp(x))]
    requires |a| == 128 && TEREDO <= a
    ensures w.Verdict(cover).Ok? && w.Verdict(half).Ok?
    ensures PlainWalk(w.View(), V4_DEPTH) && !w.ReadsAsV4(a, TEREDO) && w.Meaning(a) == Some(v)
  {
    CoverPaths(cover, half, 128, 32);
    Unaliased(cover, half);
    CoverMeanings(w, TreePath(cover, V6), TreePath(half, V6), v, x, a);
    w.Ipv4RootIsNode();
    w.AliasedWhen(a, TEREDO);
  }

  lemma CoverPaths(cover: Network, half: Network, w: nat, k: nat)
    requires CoverAndHalf(cover, half) && w == 128 && k == 32
    ensures NetOk(cover) && NetOk(half)
    ensures |TEREDO| == 32 && NetPrefix(cover) == TreePath(cover, V6) == TEREDO[..16]
    ensures TreePath(half, V6) == Zeros(97)
  {
    AliasConstants(w);
    ToBitsZero(k);
    Pow2OfWidths(w);
    Pow2OfWidths(k);
    assert |TEREDO| == 32;
    assert (TEREDO + Zeros(96))[..16] == TEREDO[..16];
    assert Zeros(96) + Zeros(32)[..1] == Zeros(97);
  }

  /** Neither network lies inside an alias range. */
  lemma Unaliased(cover: Network, half: Network)
    requires NetOk(cover) && NetOk(half) && cover.Net6? && half.Net4?
    requires |TEREDO| == 32 && NetPrefix(cover) == TEREDO[..16]
    ensures !AnyContains(ALIAS_NETWORKS, cover) && !AnyContains(ALIAS_NETWORKS, half)
    ensures ToTreePrefix(cover, V6).Ok? && ToTreePrefix(half, V6).Ok?
  {
    AliasRefusal(cover);
    AliasRefusal(half);
    TeredoBits();
    SixToFourBits();
    MappedBits();
    forall p | IsAliasPrefix(p)
      ensures !AllUnder(cover, p)
    {
      PrefixByAddresses(p, NetPrefix(cover), 128);
    }
  }

  lemma CoverMeanings(w: Writer, p: Bits, q: Bits, v: Value, x: Value, a: Bits)
    requires w.Valid() && w.ipVersion == V6 && !w.reservedExcluded
    requires |TEREDO| == 32 && p == TEREDO[..16] && q == Zeros(97)
    requires w.log == [Change(p, ConstOp(v)), Change(q, ConstOp(x))]
    requires |a| == 128 && TEREDO <= a
    ensures w.Meaning(a) == Some(v) && w.NotUniform()
  {
    var rest := [true] + Zeros(31);
    CoverFolds(p, q, v, x, a, Zeros(96) + Zeros(32), Zeros(96) + rest);
    assert |rest| == 32 && w.Meaning(Zeros(96) + rest) != w.Meaning(Zeros(96) + Zeros(32));
  }

  lemma CoverFolds(p: Bits, q: Bits, v: Value, x: Value, a: Bits, low: Bits, high: Bits)
    requires |TEREDO| == 32 && p == TEREDO[..16] && q == Zeros(97) && TEREDO <= a
    requires low == Zeros(96) + Zeros(32) && high == Zeros(96) + ([true] + Zeros(31))
    ensures var log := [Change(p, ConstOp(v)), Change(q, ConstOp(x))];
            Fold(log, a, None) == Some(v) && Fold(log, low, None) == Some(x) && Fold(log, high, None) == None
  {
    var c, d := Change(p, ConstOp(v)), Change(q, ConstOp(x));
    CoveringBits(p, a, low, high);
    Fold2(c, d, a);
    Fold2(c, d, low);
    Fold2(c, d, high);
  }

  lemma CoveringBits(p: Bits, a: Bits, low: Bits, high: Bits)
    requires |TEREDO| == 32 && p == TEREDO[..16] && TEREDO <= a
    requires low == Zeros(96) + Zeros(32) && high == Zeros(96) + ([true] + Zeros(31))
    ensures p <= a && !(p <= low) && !(p <= high)
    ensures !(Zeros(97) <= a) && Zeros(97) <= low && !(Zeros(97) <= high)
  {
    TeredoBits();
    assert p[2] && a[2] && !low[2] && !high[2] && high[96] && !Zeros(97)[96];
  }

  lemma Fold2(c: Change, d: Change, a: Bits)
    ensures Fold([c, d], a, None) ==
            var o := if c.prefix <= a then c.op(None) else None;
            if d.prefix <= a then d.op(o) else o
  {
    assert [c, d][..1] == [c] && [c][..0] == [];
    assert Fold([c], a, None) == if c.prefix <= a then c.op(Fold([], a, None)) else Fold([], a, None);
  }

  // --- Refusals -----------------------------------------------------------------------------------

  /** Every address of the network starts with `p`. */
  ghost predicate AllUnder(net: Network, p: Bits)
    requires net.plen <= FamilyWidth(net)
  {
    forall a: Bits :: |a| == FamilyWidth(net) && NetPrefix(net) <= a ==> p <= a
  }

  lemma PrefixByAddresses(p: Bits, q: Bits, w: nat)
    requires |p| <= w && |q| <= w
    ensures p <= q <==> forall a: Bits :: |a| == w && q <= a ==> p <= a
  {
    if forall a: Bits :: |a| == w && q <= a ==> p <= a {
      // Continue `q` so that it leaves `p` at the first chance.
      var rest := if |q| < |p| then [!p[|q|]] + Zeros(w - |q| - 1) else Zeros(w - |q|);
      assert q <= q + rest && p <= q + rest;
      assert p == (q + rest)[..|p|];
    }
  }

  lemma ContainsByAddresses(outer: Network, inner: Network)
    requires outer.plen <= FamilyWidth(outer) && inner.plen <= FamilyWidth(inner)
    ensures NetContains(outer, inner) <==> outer.Net4? == inner.Net4? && AllUnder(inner, NetPrefix(outer))
  {
    if outer.Net4? == inner.Net4? {
      PrefixByAddresses(NetPrefix(outer), NetPrefix(inner), FamilyWidth(inner));
    }
  }

  lemma ReservedRefusal(nets: seq<Network>, net: Network)
    requires net.plen <= FamilyWidth(net)
    requires forall i :: 0 <= i < |nets| ==> nets[i].plen <= FamilyWidth(nets[i])
    ensures AnyContains(nets, net) <==>
            exists i :: 0 <= i < |nets| && nets[i].Net4? == net.Net4? && AllUnder(net, NetPrefix(nets[i]))
  {
    forall i | 0 <= i < |nets|
      ensures NetContains(nets[i], net) <==> nets[i].Net4? == net.Net4? && AllUnder(net, NetPrefix(nets[i]))
    {
      ContainsByAddresses(nets[i], net);
    }
  }

  lemma AliasRefusal(net: Network)
    requires net.plen <= FamilyWidth(net)
    ensures AnyContains(ALIAS_NETWORKS, net) <==> net.Net6? && exists p :: IsAliasPrefix(p) && AllUnder(net, p)
  {
    AliasNetworkPrefixes(128);
    var a, b, c := ALIAS_NETWORKS[0], ALIAS_NETWORKS[1], ALIAS_NETWORKS[2];
    ContainsByAddresses(a, net);
    ContainsByAddresses(b, net);
    ContainsByAddresses(c, net);
    OneOfThree(a, b, c, net);
    assert ALIAS_NETWORKS == [a, b, c];
    assert IsAliasPrefix(MAPPED) && IsAliasPrefix(TEREDO) && IsAliasPrefix(SIX_TO_FOUR);
  }

  lemma OneOfThree(a: Network, b: Network, c: Network, net: Network)
    requires a.plen <= FamilyWidth(a) && b.plen <= FamilyWidth(b) && c.plen <= FamilyWidth(c)
    requires net.plen <= FamilyWidth(net)
    ensures AnyContains([a, b, c], net) <==> NetContains(a, net) || NetContains(b, net) || NetContains(c, net)
  {
    var all := [a, b, c];
    assert all[0] == a && all[1] == b && all[2] == c;
  }

  lemma AliasNetworkPrefixes(w: nat)
    requires w == 128
    ensures NetPrefix(ALIAS_NETWORKS[0]) == MAPPED
    ensures NetPrefix(ALIAS_NETWORKS[1]) == TEREDO
    ensures NetPrefix(ALIAS_NETWORKS[2]) == SIX_TO_FOUR
  {
    AliasConstants(w);
    assert |MAPPED| == 96 && |TEREDO| == 32 && |SIX_TO_FOUR| == 16;
  }

  // --- Ranges -------------------------------------------------------------------------------------

  /** The changes of storing one value under each of several paths. */
  ghost function StoreChanges(paths: seq<Bits>, value: Value): seq<Change> {
    seq(|paths|, i requires 0 <= i < |paths| => Change(paths[i], ConstOp(value)))
  }

  lemma StoreChangesStep(paths: seq<Bits>, i: nat, value: Value)
    requires i < |paths|
    ensures StoreChanges(paths[..i + 1], value) == StoreChanges(paths[..i], value) + [Change(paths[i], ConstOp(value))]
  {
    assert paths[..i + 1] == paths[..i] + [paths[i]];
  }

  /** Storing one value under several paths: an address under any of them has it afterwards. */
  lemma {:induction false} FoldStores(paths: seq<Bits>, value: Value, a: Bits, o: Option<Value>)
    ensures Fold(StoreChanges(paths, value), a, o) == if Under(paths, a) then Some(value) else o
    decreases |paths|
  {
    var changes := StoreChanges(paths, value);
    if paths == [] {
      assert changes == [];
    } else {
      var n := |paths| - 1;
      FoldStores(paths[..n], value, a, o);
      assert changes[..|changes| - 1] == StoreChanges(paths[..n], value);
      assert changes[|changes| - 1] == Change(paths[n], ConstOp(value));
      UnderLast(paths, a);
    }
  }

  lemma UnderLast(paths: seq<Bits>, a: Bits)
    requires paths != []
    ensures Under(paths, a) <==> paths[|paths| - 1] <= a || Under(paths[..|paths| - 1], a)
  {
    var n := |paths| - 1;
    if Under(paths, a) && !(paths[n] <= a) {
      var i :| 0 <= i < |paths| && paths[i] <= a;
      assert paths[..n][i] <= a;
    }
    if Under(paths[..n], a) {
      var i :| 0 <= i < n && paths[..n][i] <= a;
      assert paths[i] <= a;
    }
  }

  lemma {:induction false} ApplyAllConcat(t: Trie, a: seq<Change>, b: seq<Change>)
    requires t.Branch?
    ensures ApplyAll(t, a + b) == ApplyAll(ApplyAll(t, a), b)
    decreases |b|
  {
    if b == [] {
      assert a + b == a;
    } else {
      assert (a + b)[..|a + b| - 1] == a + b[..|b| - 1];
      ApplyAllConcat(t, a, b[..|b| - 1]);
    }
  }

  /** The address `n` of the family of `like`. */
  function AddrLike(like: Addr, n: nat): Addr {
    if like.Addr4? then Addr4(n) else Addr6(n)
  }

  /** The path `a` belongs to an address between `start` and `end`. */
  ghost predicate PathInRange(a: Bits, start: Addr, end: Addr, version: IpVersion) {
    exists x: nat :: start.n <= x <= end.n && AddrPath(AddrLike(start, x), version) == Some(a)
  }

  /** Exactly the addresses of the range were overwritten; reserved ones stay reserved. */
  ghost predicate Painted(before: Trie, after: Trie, start: Addr, end: Addr, version: IpVersion, value: Value) {
    forall a: Bits :: |a| == Depth(version) ==>
      LeafAt(after, a) ==
      if PathInRange(a, start, end, version) then Apply(ConstOp(value), LeafAt(before, a)) else LeafAt(before, a)
  }

  lemma CoverNotEmpty(nets: seq<Network>, start: Addr, end: Addr)
    requires AddrOk(start) && start.n <= end.n && CoverRange(nets, start, end)
    ensures nets != []
  {
    assert AnyCovers(nets, ToBits(start.n, AddrWidth(start)));
  }

  /** Every address was overwritten; reserved ones stay reserved. */
  ghost predicate Flooded(before: Trie, after: Trie, version: IpVersion, value: Value) {
    forall a: Bits :: |a| == Depth(version) ==> LeafAt(after, a) == Apply(ConstOp(value), LeafAt(before, a))
  }

  /** The zero bits in front of the addresses of a family. */
  function Lead(start: Addr, version: IpVersion): nat {
    if version == V6 && start.Addr4? then 96 else 0
  }

  lemma PathSplits(net: Network, start: Addr, version: IpVersion, a: Bits)
    requires NetOk(net) && net.Net4? == start.Addr4? && |a| == Depth(version)
    ensures TreePath(net, version) <= a <==>
            a[..Lead(start, version)] == Zeros(Lead(start, version)) && NetPrefix(net) <= a[Lead(start, version)..]
  {
    if Lead(start, version) == 96 {
      SplitPrefix(Zeros(96), NetPrefix(net), a);
    } else {
      assert a[0..] == a;
    }
  }

  /** The paths cover an address path exactly if its low bits are covered by a network. */
  lemma PathsSplit(nets: seq<Network>, start: Addr, version: IpVersion, a: Bits)
    requires forall i :: 0 <= i < |nets| ==> NetOk(nets[i]) && nets[i].Net4? == start.Addr4?
    requires |a| == Depth(version)
    ensures Under(Paths(nets, version), a) <==>
            a[..Lead(start, version)] == Zeros(Lead(start, version)) && AnyCovers(nets, a[Lead(start, version)..])
  {
    var paths, low := Paths(nets, version), a[Lead(start, version)..];
    if Under(paths, a) {
      var i :| 0 <= i < |paths| && paths[i] <= a;
      PathSplits(nets[i], start, version, a);
    }
    if a[..Lead(start, version)] == Zeros(Lead(start, version)) && AnyCovers(nets, low) {
      var i :| 0 <= i < |nets| && nets[i].plen <= FamilyWidth(nets[i]) && NetPrefix(nets[i]) <= low;
      PathSplits(nets[i], start, version, a);
      assert paths[i] <= a;
    }
  }

  /** A path is the path of at most one address of a family: the one its low bits denote. */
  lemma PathOfLow(a: Bits, start: Addr, version: IpVersion, y: nat)
    requires |a| == Depth(version) && (version == V4 ==> start.Addr4?) && y < Pow2(AddrWidth(start))
    ensures AddrPath(AddrLike(start, y), version) == Some(a) <==>
            a[..Lead(start, version)] == Zeros(Lead(start, version)) && y == FromBits(a[Lead(start, version)..])
  {
    var z, w := Lead(start, version), AddrWidth(start);
    var x := FromBits(a[z..]);
    FromBitsInverse(a[z..]);
    ToBitsInjective(x, y, w);
    assert a == a[..z] + a[z..];
    if z == 96 {
      LeadLow(Zeros(96), ToBits(y, w), a[..96], a[96..]);
    } else {
      assert a[0..] == a;
    }
  }

  lemma LeadLow(z: Bits, b: Bits, c: Bits, d: Bits)
    requires |z| == |c|
    ensures z + b == c + d <==> z == c && b == d
  {
    if z + b == c + d {
      assert z == (z + b)[..|z|] && b == (z + b)[|z|..];
      assert c == (c + d)[..|z|] && d == (c + d)[|z|..];
    }
  }

  /** Network paths cover exactly the paths of the range's addresses. */
  lemma PathsCoverRange(nets: seq<Network>, start: Addr, end: Addr, version: IpVersion, a: Bits)
    requires AddrOk(start) && AddrOk(end) && start.Addr4? == end.Addr4? && |a| == Depth(version)
    requires (version == V4 ==> start.Addr4?) && CoverRange(nets, start, end)
    ensures Under(Paths(nets, version), a) <==> PathInRange(a, start, end, version)
  {
    var low := a[Lead(start, version)..];
    var x := FromBits(low);
    FromBitsInverse(low);
    PathsSplit(nets, start, version, a);
    PathOfLow(a, start, version, x);
    assert AnyCovers(nets, ToBits(x, AddrWidth(start))) <==> start.n <= x <= end.n;
    if PathInRange(a, start, end, version) {
      var y: nat :| start.n <= y <= end.n && AddrPath(AddrLike(start, y), version) == Some(a);
      PathOfLow(a, start, version, y);
    }
  }

  /** A completed range insert paints exactly the range. */
  lemma RangePaints(t: Trie, log: seq<Change>, nets: seq<Network>, start: Addr, end: Addr,
                    version: IpVersion, value: Value)
    requires t.Branch? && Height(t) <= Depth(version)
    requires AddrOk(start) && AddrOk(end) && start.Addr4? == end.Addr4?
    requires (version == V4 ==> start.Addr4?) && CoverRange(nets, start, end)
    requires LogFits(log + StoreChanges(Paths(nets, version), value), Depth(version))
    ensures ApplyAll(t, log).Branch?
    ensures Painted(ApplyAll(t, log), ApplyAll(t, log + StoreChanges(Paths(nets, version), value)),
                    start, end, version, value)
  {
    var paths := Paths(nets, version);
    var changes := StoreChanges(paths, value);
    SuffixFits(log, changes, Depth(version));
    ApplyAllConcat(t, log, changes);
    ApplyAllShape(t, log, Depth(version));
    forall a: Bits | |a| == Depth(version)
      ensures LeafAt(ApplyAll(ApplyAll(t, log), changes), a) ==
              if PathInRange(a, start, end, version) then Apply(ConstOp(value), LeafAt(ApplyAll(t, log), a))
              else LeafAt(ApplyAll(t, log), a)
    {
      StoresPaint(ApplyAll(t, log), paths, value, a);
      PathsCoverRange(nets, start, end, version, a);
    }
  }

  /** Storing under several paths of which the first is empty reaches every address. */
  lemma RunFloods(t: Trie, log: seq<Change>, paths: seq<Bits>, value: Value, d: nat)
    requires t.Branch? && Height(t) <= d && paths != [] && paths[0] == []
    requires LogFits(log + StoreChanges(paths, value), d)
    ensures ApplyAll(t, log).Branch?
    ensures forall a: Bits :: |a| == d ==>
              LeafAt(ApplyAll(t, log + StoreChanges(paths, value)), a)
              == Apply(ConstOp(value), LeafAt(ApplyAll(t, log), a))
  {
    var changes := StoreChanges(paths, value);
    SuffixFits(log, changes, d);
    ApplyAllConcat(t, log, changes);
    ApplyAllShape(t, log, d);
    forall a: Bits | |a| == d
      ensures LeafAt(ApplyAll(ApplyAll(t, log), changes), a) == Apply(ConstOp(value), LeafAt(ApplyAll(t, log), a))
    {
      assert paths[0] <= a;
      StoresPaint(ApplyAll(t, log), paths, value, a);
    }
  }

  lemma SuffixFits(log: seq<Change>, changes: seq<Change>, depth: nat)
    requires LogFits(log + changes, depth)
    ensures LogFits(log, depth) && LogFits(changes, depth)
  {
    forall i | 0 <= i < |log|
      ensures |log[i].prefix| <= depth
    {
      assert log[i] == (log + changes)[i];
    }
    forall i | 0 <= i < |changes|
      ensures |changes[i].prefix| <= depth
    {
      assert changes[i] == (log + changes)[|log| + i];
    }
  }

  lemma StoresPaint(t: Trie, paths: seq<Bits>, value: Value, a: Bits)
    requires t.Branch? && Height(t) <= |a| && LogFits(StoreChanges(paths, value), |a|)
    ensures LeafAt(ApplyAll(t, StoreChanges(paths, value)), a)
         == if Under(paths, a) then Apply(ConstOp(value), LeafAt(t, a)) else LeafAt(t, a)
  {
    RunPointwise(t, StoreChanges(paths, value), a);
    TipReached(t, a);
    FoldStores(paths, value, a, ValueOf(LeafAt(t, a)));
  }

  // --- Construction -------------------------------------------------------------------------------

  lemma PathsFit(nets: seq<Network>, version: IpVersion)
    requires AllNetsOk(nets, version)
    ensures forall i :: 0 <= i < |nets| ==> |Paths(nets, version)[i]| <= Depth(version)
  {
    forall i | 0 <= i < |nets|
      ensures |Paths(nets, version)[i]| <= Depth(version)
    {
      TreePrefixIsPath(nets[i], version);
    }
  }

  /** A fresh tree, with the networks painted if they are excluded. */
  method StartTree(painted: bool, nets: seq<Network>, version: IpVersion) returns (tree: Tree)
    requires AllNetsOk(nets, version)
    ensures fresh(tree) && tree.Valid(0)
    ensures tree.Model([]) == if painted then Paint(NODE, Paths(nets, version)) else NODE
  {
    tree := new Tree();
    if painted {
      PaintReserved(tree, nets, version);
    }
  }

  /** Paint the reserved networks on a fresh tree, in order. */
  method PaintReserved(tree: Tree, nets: seq<Network>, version: IpVersion)
    requires AllNetsOk(nets, version)
    requires tree.Valid(0) && tree.Model([]) == NODE
    modifies tree
    ensures tree.Valid(0) && tree.Model([]) == Paint(NODE, Paths(nets, version))
  {
    var i := 0;
    ghost var paths := Paths(nets, version);
    while i < |nets|
      invariant i <= |nets|
      invariant tree.Valid(0) && Paint(tree.Model([]), paths[i..]) == Paint(NODE, paths)
    {
      var p := ToTreePrefix(nets[i], version).value;
      TreePrefixIsPath(nets[i], version);
      tree.InstallMarker(p.bits, p.plen, Record.Reserved, [], false, [], tree.shape);
      i := i + 1;
    }
  }

  // --- From ids to values ---------------------------------------------------------------------------

  ghost function ValuesFor(ids: seq<nat>, values: seq<Value>): seq<Value>
    requires forall i :: 0 <= i < |ids| ==> ids[i] < |values|
  {
    seq(|ids|, i requires 0 <= i < |ids| => values[ids[i]])
  }

  /** The id is mapped to the offset of the value it names. */
  ghost predicate HasOffset(id: nat, idToOffset: map<nat, nat>, values: seq<Value>, data: Section) {
    id < |values| && id in idToOffset && values[id] in data.dedup && data.dedup[values[id]].offset == idToOffset[id]
  }

  ghost predicate AllHaveOffsets(ids: seq<nat>, idToOffset: map<nat, nat>, values: seq<Value>, data: Section) {
    forall i :: 0 <= i < |ids| ==> HasOffset(ids[i], idToOffset, values, data)
  }

  /** Pushing one value more keeps the offsets handed out and adds its own. */
  lemma EncodeStep(ids: seq<nat>, j: nat, values: seq<Value>, m: map<nat, nat>, data: Section)
    requires j < |ids| && forall i :: 0 <= i < |ids| ==> ids[i] < |values|
    requires data == PushAll(FRESH, ValuesFor(ids[..j], values)) && AllHaveOffsets(ids[..j], m, values, data)
    ensures var v := values[ids[j]];
            var after := Push(data, v);
            && after == PushAll(FRESH, ValuesFor(ids[..j + 1], values))
            && AllHaveOffsets(ids[..j + 1], m[ids[j] := after.dedup[v].offset], values, after)
  {
    assert ids[..j + 1] == ids[..j] + [ids[j]];
    PushOneMore(ids[..j], ids[j], values);
    PushKeeps(data, values[ids[j]]);
    assert forall i :: 0 <= i < j ==> HasOffset(ids[..j][i], m, values, data);
  }

  /** In a packed array every node is reachable, so every id names a value. */
  lemma {:induction false} NodesLinked(nodes: seq<ArenaNode>, s: Shape, base: nat, n: nat, k: nat)
    requires Holds(nodes, s) && Linked(s, n, k) && Packed(s, base)
    ensures Size(s) > 0 ==> base + Size(s) <= |nodes|
    ensures forall i :: base <= i < base + Size(s) ==> IdsBelow(nodes[i], n)
    ensures s.Tip? ==> (s.rec.Data? ==> s.rec.id < n)
  {
    if s.Fork? {
      NodesLinked(nodes, s.left, base + 1, n, k);
      NodesLinked(nodes, s.right, base + 1 + Size(s.left), n, k);
      assert IdsBelow(nodes[base], n);
    }
  }

  predicate IdsBelow(node: ArenaNode, n: nat) {
    (node.left.Data? ==> node.left.id < n) && (node.right.Data? ==> node.right.id < n)
  }

  lemma {:induction false} DataIdsBelow(nodes: seq<ArenaNode>, n: nat)
    requires forall i :: 0 <= i < |nodes| ==> IdsBelow(nodes[i], n)
    ensures forall j :: 0 <= j < |DataIds(nodes)| ==> DataIds(nodes)[j] < n
  {
    if nodes != [] {
      DataIdsBelow(nodes[..|nodes| - 1], n);
      assert IdsBelow(nodes[|nodes| - 1], n);
    }
  }

  lemma {:induction false} FirstOfMembers(ids: seq<nat>)
    ensures forall i :: i in FirstOf(ids) <==> i in ids
  {
    if ids != [] {
      FirstOfMembers(ids[..|ids| - 1]);
      assert ids == ids[..|ids| - 1] + [ids[|ids| - 1]];
    }
  }

  lemma DataIdsInRange(nodes: seq<ArenaNode>, s: Shape, values: seq<Value>, k: nat)
    requires Stands(nodes, s, |values|, k) && Packed(s, 0) && |nodes| == Size(s)
    ensures forall j :: 0 <= j < |DataIds(nodes)| ==> DataIds(nodes)[j] < |values|
    ensures forall j :: 0 <= j < |FirstOf(DataIds(nodes))| ==> FirstOf(DataIds(nodes))[j] < |values|
  {
    NodesLinked(nodes, s, 0, |values|, k);
    DataIdsBelow(nodes, |values|);
    FirstOfRange(DataIds(nodes), values);
  }

  /** Pushing a value again changes nothing, so only first occurrences matter. */
  lemma {:induction false} PushFirstOf(ids: seq<nat>, values: seq<Value>)
    requires forall j :: 0 <= j < |ids| ==> ids[j] < |values|
    requires forall j :: 0 <= j < |FirstOf(ids)| ==> FirstOf(ids)[j] < |values|
    ensures PushAll(FRESH, ValuesFor(FirstOf(ids), values)) == PushAll(FRESH, ValuesFor(ids, values))
    ensures forall i :: i in ids ==> i < |values| && values[i] in PushAll(FRESH, ValuesFor(ids, values)).dedup
  {
    if ids != [] {
      var front, last := ids[..|ids| - 1], ids[|ids| - 1];
      FirstOfRange(front, values);
      PushFirstOf(front, values);
      FirstOfMembers(front);
      var s := PushAll(FRESH, ValuesFor(front, values));
      PushOneMore(front, last, values);
      PushKeeps(s, values[last]);
      assert ids == front + [last];
      if last in FirstOf(front) {
        assert values[last] in s.dedup;
      } else {
        PushOneMore(FirstOf(front), last, values);
      }
    } else {
      assert ValuesFor(FirstOf(ids), values) == ValuesFor(ids, values);
    }
  }

  lemma FirstOfRange(ids: seq<nat>, values: seq<Value>)
    requires forall j :: 0 <= j < |ids| ==> ids[j] < |values|
    ensures forall j :: 0 <= j < |FirstOf(ids)| ==> FirstOf(ids)[j] < |values|
  {
    FirstOfMembers(ids);
    forall j | 0 <= j < |FirstOf(ids)|
      ensures FirstOf(ids)[j] < |values|
    {
      assert FirstOf(ids)[j] in ids;
    }
  }

  lemma PushOneMore(front: seq<nat>, last: nat, values: seq<Value>)
    requires forall j :: 0 <= j < |front| ==> front[j] < |values|
    requires last < |values|
    ensures PushAll(FRESH, ValuesFor(front + [last], values))
         == Push(PushAll(FRESH, ValuesFor(front, values)), values[last])
  {
    assert ValuesFor(front + [last], values) == ValuesFor(front, values) + [values[last]];
    PushAllConcat(FRESH, ValuesFor(front, values), [values[last]]);
  }

  /** The ids of the array name the values of its slots, in the same order. */
  lemma {:induction false} IdsNameValues(nodes: seq<ArenaNode>, values: seq<Value>)
    requires forall i :: 0 <= i < |nodes| ==> IdsBelow(nodes[i], |values|)
    requires forall j :: 0 <= j < |DataIds(nodes)| ==> DataIds(nodes)[j] < |values|
    ensures ValuesFor(DataIds(nodes), values) == ValuesOf(SlotsOf(nodes, values))
  {
    if nodes != [] {
      var front, last := nodes[..|nodes| - 1], nodes[|nodes| - 1];
      DataIdsBelow(front, |values|);
      IdsNameValues(front, values);
      assert SlotsOf(nodes, values)[..|nodes| - 1] == SlotsOf(front, values);
      assert IdsBelow(last, |values|);
      RecordNames(last.left, values);
      RecordNames(last.right, values);
      ValuesForConcat(DataIds(front), RecordIds(last.left), RecordIds(last.right), values);
    }
  }

  lemma RecordNames(r: Record, values: seq<Value>)
    requires r.Data? ==> r.id < |values|
    ensures ValuesFor(RecordIds(r), values) == SlotValues(SlotOfRecord(r, values))
  {
  }

  lemma ValuesForConcat(a: seq<nat>, b: seq<nat>, c: seq<nat>, values: seq<Value>)
    requires forall i :: 0 <= i < |a| ==> a[i] < |values|
    requires forall i :: 0 <= i < |b| ==> b[i] < |values|
    requires forall i :: 0 <= i < |c| ==> c[i] < |values|
    ensures forall i :: 0 <= i < |a + b + c| ==> (a + b + c)[i] < |values|
    ensures ValuesFor(a + b + c, values) == ValuesFor(a, values) + ValuesFor(b, values) + ValuesFor(c, values)
  {
  }

  /** Encoding each reachable id once gives the data section of the trie. */
  lemma DataOfIds(nodes: seq<ArenaNode>, s: Shape, values: seq<Value>, k: nat)
    requires Stands(nodes, s, |values|, k) && Packed(s, 0) && |nodes| == Size(s)
    requires forall j :: 0 <= j < |FirstOf(DataIds(nodes))| ==> FirstOf(DataIds(nodes))[j] < |values|
    ensures PushAll(FRESH, ValuesFor(FirstOf(DataIds(nodes)), values))
         == PushAll(FRESH, ValuesOf(SlotsOf(nodes, values)))
  {
    DataIdsInRange(nodes, s, values, k);
    NodesLinked(nodes, s, 0, |values|, k);
    PushFirstOf(DataIds(nodes), values);
    IdsNameValues(nodes, values);
  }

  lemma {:induction false} RecordIdListed(nodes: seq<ArenaNode>, i: nat, id: nat)
    requires i < |nodes| && (nodes[i].left == Data(id) || nodes[i].right == Data(id))
    ensures id in DataIds(nodes)
    decreases |nodes|
  {
    var n := |nodes| - 1;
    if i < n {
      RecordIdListed(nodes[..n], i, id);
    } else {
      assert id in RecordIds(nodes[n].left) + RecordIds(nodes[n].right);
    }
  }

  /** Every data record of the array has its offset. */
  lemma AllResolved(nodes: seq<ArenaNode>, ids: seq<nat>, idToOffset: map<nat, nat>, values: seq<Value>, data: Section)
    requires ids == FirstOf(DataIds(nodes))
    requires AllHaveOffsets(ids, idToOffset, values, data)
    ensures forall i :: 0 <= i < |nodes| ==>
              Resolved(nodes[i].left, idToOffset, values, Offsets(data)) &&
              Resolved(nodes[i].right, idToOffset, values, Offsets(data))
  {
    FirstOfMembers(DataIds(nodes));
    forall i | 0 <= i < |nodes|
      ensures Resolved(nodes[i].left, idToOffset, values, Offsets(data))
      ensures Resolved(nodes[i].right, idToOffset, values, Offsets(data))
    {
      RecordResolved(nodes, i, nodes[i].left, ids, idToOffset, values, data);
      RecordResolved(nodes, i, nodes[i].right, ids, idToOffset, values, data);
    }
  }

  lemma RecordResolved(nodes: seq<ArenaNode>, i: nat, r: Record, ids: seq<nat>, idToOffset: map<nat, nat>,
                       values: seq<Value>, data: Section)
    requires i < |nodes| && (r == nodes[i].left || r == nodes[i].right)
    requires forall id :: id in DataIds(nodes) ==> id in ids
    requires AllHaveOffsets(ids, idToOffset, values, data)
    ensures Resolved(r, idToOffset, values, Offsets(data))
  {
    if r.Data? {
      RecordIdListed(nodes, i, r.id);
      var j :| 0 <= j < |ids| && ids[j] == r.id;
      assert HasOffset(ids[j], idToOffset, values, data);
    }
  }
}
