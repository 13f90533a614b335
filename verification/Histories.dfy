/**
  Whole runs of the writer: a log of accepted inserts, applied in order to the fresh tree.

  Reading an address back after any run folds the operations of the inserts that cover it;
  the output depends on nothing but those readings.
*/
module Histories {
  import opened Prelude
  import opened Bits
  import opened Values
  import opened Tries
  import opened Aliases
  import opened Layout
  import opened Output

  /** One accepted insert: where, and what happens to the value found there. */
  datatype Change = Change(prefix: Bits, op: Op)

  function ApplyAll(t: Trie, log: seq<Change>): (r: Trie)
    requires t.Branch?
    ensures r.Branch?
  {
    if log == [] then t
    else
      var last := log[|log| - 1];
      InsertRoot(ApplyAll(t, log[..|log| - 1]), last.prefix, last.op)
  }

  /** The value-level meaning of a log at one address. */
  function Fold(log: seq<Change>, a: Bits, o: Option<Value>): Option<Value> {
    if log == [] then o
    else
      var last := log[|log| - 1];
      var before := Fold(log[..|log| - 1], a, o);
      if last.prefix <= a then last.op(before) else before
  }

  ghost predicate LogFits(log: seq<Change>, depth: nat) {
    forall i :: 0 <= i < |log| ==> |log[i].prefix| <= depth
  }

  lemma InsertRootShape(t: Trie, p: Bits, f: Op)
    requires t.Branch?
    ensures Height(InsertRoot(t, p, f)) <= Max(Height(t), |p|)
    ensures NoAlias(t) ==> NoAlias(InsertRoot(t, p, f))
    ensures NoFixed(t) ==> NoFixed(InsertRoot(t, p, f))
    ensures RootMerged(t) ==> RootMerged(InsertRoot(t, p, f))
    ensures RootTidy(t) ==> RootTidy(InsertRoot(t, p, f))
  {
    if p == [] {
      InsertHeight(t.left, [], f);
      InsertHeight(t.right, [], f);
      InsertKinds(t.left, [], f);
      InsertKinds(t.right, [], f);
      if RootMerged(t) {
        InsertMerged(t.left, [], f);
        InsertMerged(t.right, [], f);
      }
      if RootTidy(t) {
        InsertTidy(t.left, [], f);
        InsertTidy(t.right, [], f);
      }
    } else {
      var c := Child(t, p[0]);
      InsertHeight(c, p[1..], f);
      InsertKinds(c, p[1..], f);
      if RootMerged(t) {
        InsertMerged(c, p[1..], f);
      }
      if RootTidy(t) {
        InsertTidy(c, p[1..], f);
      }
    }
  }

  lemma {:induction false} ApplyAllShape(t: Trie, log: seq<Change>, depth: nat)
    requires t.Branch? && Height(t) <= depth && LogFits(log, depth)
    ensures Height(ApplyAll(t, log)) <= depth
    ensures NoAlias(t) ==> NoAlias(ApplyAll(t, log))
    ensures NoFixed(t) ==> NoFixed(ApplyAll(t, log))
    ensures RootMerged(t) ==> RootMerged(ApplyAll(t, log))
    ensures RootTidy(t) ==> RootTidy(ApplyAll(t, log))
  {
    if log != [] {
      var last := log[|log| - 1];
      ApplyAllShape(t, log[..|log| - 1], depth);
      InsertRootShape(ApplyAll(t, log[..|log| - 1]), last.prefix, last.op);
    }
  }

  /** What a tip turns into over a run: reserved and alias tips never change, others fold. */
  function FoldTip(log: seq<Change>, a: Bits, tip: Trie): Trie {
    if tip.Empty? || tip.Leaf? then FromOption(Fold(log, a, ValueOf(tip))) else tip
  }

  /**
    Over any run, every address resolves to the fold, in order, of exactly the operations whose
    network covers it. Reserved addresses stay reserved, and no other address becomes reserved.
  */
  lemma {:induction false} RunPointwise(t: Trie, log: seq<Change>, a: Bits)
    requires t.Branch? && Height(t) <= |a| && LogFits(log, |a|)
    ensures LeafAt(ApplyAll(t, log), a) == FoldTip(log, a, LeafAt(t, a))
  {
    TipReached(t, a);
    if log != [] {
      var front, last := log[..|log| - 1], log[|log| - 1];
      RunPointwise(t, front, a);
      ApplyAllShape(t, front, |a|);
      InsertRootPointwise(ApplyAll(t, front), last.prefix, last.op, a);
    }
  }

  lemma {:induction false} TipReached(t: Trie, a: Bits)
    requires Height(t) <= |a|
    ensures !LeafAt(t, a).Branch?
  {
    if t.Branch? {
      TipReached(Child(t, a[0]), a[1..]);
    }
  }

  /**
    Reserved networks over a whole run: an address under one of the painted networks never has
    a value, every other address has the fold of the inserts that cover it.
  */
  lemma ReservedRun(reserved: seq<Bits>, log: seq<Change>, a: Bits)
    requires PairwiseApart(reserved) && |a| > 0 && LogFits(log, |a|)
    requires forall i :: 0 <= i < |reserved| ==> 0 < |reserved[i]| <= |a|
    ensures Paint(NODE, reserved).Branch?
    ensures LeafAt(ApplyAll(Paint(NODE, reserved), log), a)
         == if Under(reserved, a) then Reserved else FromOption(Fold(log, a, None))
  {
    PaintFresh(reserved, a);
    RunPointwise(Paint(NODE, reserved), log, a);
  }

  // --- Canonical output ---------------------------------------------------------------------------

  /** Without reserved networks, the trie after a run is determined by what addresses resolve to. */
  lemma RunIsCanonical(log1: seq<Change>, log2: seq<Change>, depth: nat)
    requires depth > 0 && LogFits(log1, depth) && LogFits(log2, depth)
    requires forall a: Bits :: |a| == depth ==> Fold(log1, a, None) == Fold(log2, a, None)
    ensures ApplyAll(NODE, log1) == ApplyAll(NODE, log2)
  {
    var t, u := ApplyAll(NODE, log1), ApplyAll(NODE, log2);
    ApplyAllShape(NODE, log1, depth);
    ApplyAllShape(NODE, log2, depth);
    forall a: Bits | |a| == depth
      ensures LeafAt(t, a) == LeafAt(u, a)
    {
      NodeIsEmpty(a);
      RunPointwise(NODE, log1, a);
      RunPointwise(NODE, log2, a);
    }
    RootCanonical(t, u, depth);
  }

  // --- End to end ---------------------------------------------------------------------------------

  /**
    End to end: if the build of a writer's trie succeeds, the specification's reader answers
    every address with what the writer resolves it to; an address in an installed alias range is
    answered as the IPv4 address it embeds.
  */
  lemma EndToEnd(t: Trie, aliasing: bool, requested: Option<RecordSize>, metadata: Metadata, a: Bits)
    requires t.Branch? && NoAlias(t) && Height(t) <= |a| && (aliasing ==> |a| == 128)
    requires Published(t, aliasing).Branch? && Image(Published(t, aliasing), requested, metadata).Ok?
    ensures var answer := ReadDatabase(Image(Published(t, aliasing), requested, metadata).value, a);
            && (!aliasing || (forall p :: !Aliased(t, a, p)) ==> Answers(answer, ValueOf(LeafAt(t, a))))
            && (forall p :: aliasing && Aliased(t, a, p) ==>
                  |p| + 32 <= 128 && Answers(answer, ValueOf(LeafAt(t, Embedded(a, p)))))
  {
    var c := Published(t, aliasing);
    PublishedLands(t, aliasing, a);
    PublishedWithin(t, aliasing, a);
    ImageReads(c, requested, metadata, a);
    if !aliasing || (forall p :: !Aliased(t, a, p)) {
      PublishedElsewhere(t, aliasing, a);
    }
    forall p | aliasing && Aliased(t, a, p)
      ensures |p| + 32 <= 128 && Look(V4Of(c), c, a) == ValueOf(LeafAt(t, Embedded(a, p)))
    {
      PublishedAlias(t, a, p);
    }
  }
}
