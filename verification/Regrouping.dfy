/**
  When three values may be merged in either grouping. Neither merge of `src/value.rs` is
  associative in general; the predicates here say for which values each is.
*/
module Regrouping {
  import opened Prelude
  import opened Values

  // --- The conditions -----------------------------------------------------------------------------

  /** Deep merging `c` onto `a` leaves nothing of `a` behind. */
  predicate Absorbed(a: Value, c: Value)
    decreases a
  {
    match (a, c)
    case (Map(olds), Map(news)) =>
      forall i :: 0 <= i < |olds| ==>
        Find(news, olds[i].key).Some? && Absorbed(olds[i].value, Find(news, olds[i].key).value)
    case (Array(olds), Array(_)) => olds == []
    case _ => true
  }

  /**
    The three values may be regrouped in a deep merge: three maps if the values of every key they
    share may be, and a middle value that forgets the first only if the last absorbs the first.
  */
  predicate Regroups(a: Value, b: Value, c: Value)
    decreases c
  {
    match (b, c)
    case (Map(bs), Map(cs)) =>
      a.Map? ==> forall i :: 0 <= i < |cs| ==> SharedRegroups(a.entries, bs, cs[i])
    case (Array(_), Array(_)) => true
    case _ => Absorbed(a, c)
  }

  /** The values of a key that all three maps have may be regrouped. */
  predicate SharedRegroups(a: seq<Pair>, b: seq<Pair>, p: Pair)
    decreases p
  {
    Find(a, p.key).Some? && Find(b, p.key).Some? ==>
      Regroups(Find(a, p.key).value, Find(b, p.key).value, p.value)
  }

  /** Every key of `a` is a key of `c`. */
  predicate KeysWithin(a: seq<Pair>, c: seq<Pair>) {
    forall i :: 0 <= i < |a| ==> Find(c, a[i].key).Some?
  }

  /** The same for a top-level merge, which never looks below the keys. */
  predicate RegroupsTop(a: Value, b: Value, c: Value) {
    a.Map? && c.Map? && !b.Map? ==> KeysWithin(a.entries, c.entries)
  }

  // --- Absorption ---------------------------------------------------------------------------------

  lemma {:induction false} AbsorbedIff(a: Value, c: Value)
    requires WellFormed(a) && WellFormed(c)
    ensures MergeDeep(a, c) == c <==> Absorbed(a, c)
    decreases a
  {
    if a.Map? && c.Map? {
      var olds, news := a.entries, c.entries;
      forall i | 0 <= i < |olds| && Find(news, olds[i].key).Some?
        ensures var n := Find(news, olds[i].key).value;
                MergeDeep(olds[i].value, n) == n <==> Absorbed(olds[i].value, n)
      {
        FoundWellFormed(news, olds[i].key);
        AbsorbedIff(olds[i].value, Find(news, olds[i].key).value);
      }
      MergeDeepLaw(olds, news);
      if Absorbed(a, c) {
        MapAbsorbed(olds, news);
      } else if MergeDeep(a, c) == c {
        MapUnchanged(olds, news);
      }
    } else if a.Array? && c.Array? {
      assert a.items == [] ==> a.items + c.items == c.items;
    }
  }

  lemma MapAbsorbed(olds: seq<Pair>, news: seq<Pair>)
    requires Sorted(olds) && Sorted(news)
    requires forall i :: 0 <= i < |olds| ==>
               Find(news, olds[i].key).Some? &&
               MergeDeep(olds[i].value, Find(news, olds[i].key).value) == Find(news, olds[i].key).value
    ensures MergeEntries(olds, news) == news
  {
    MergeDeepLaw(olds, news);
    forall k
      ensures Find(MergeEntries(olds, news), k) == Find(news, k)
    {
      FindMember(olds, k);
    }
    SortedExtensional(MergeEntries(olds, news), news);
  }

  lemma MapUnchanged(olds: seq<Pair>, news: seq<Pair>)
    requires Sorted(olds) && Sorted(news) && MergeEntries(olds, news) == news
    ensures forall i :: 0 <= i < |olds| ==>
              Find(news, olds[i].key).Some? &&
              MergeDeep(olds[i].value, Find(news, olds[i].key).value) == Find(news, olds[i].key).value
  {
    MergeDeepLaw(olds, news);
    forall i | 0 <= i < |olds|
      ensures Find(news, olds[i].key).Some?
      ensures MergeDeep(olds[i].value, Find(news, olds[i].key).value) == Find(news, olds[i].key).value
    {
      FindAt(olds, i);
    }
  }

  // --- Deep merges --------------------------------------------------------------------------------

  /** What a key looks up to in the two groupings of three maps. */
  lemma ThreeMaps(a: seq<Pair>, b: seq<Pair>, c: seq<Pair>)
    requires Sorted(a) && Sorted(b) && Sorted(c)
    ensures var l, r := MergeEntries(MergeEntries(a, b), c), MergeEntries(a, MergeEntries(b, c));
            && Sorted(l) && Sorted(r)
            && forall k ::
                 if Find(a, k).Some? && Find(b, k).Some? && Find(c, k).Some? then
                   && Find(l, k) == Some(MergeDeep(MergeDeep(Find(a, k).value, Find(b, k).value), Find(c, k).value))
                   && Find(r, k) == Some(MergeDeep(Find(a, k).value, MergeDeep(Find(b, k).value, Find(c, k).value)))
                 else Find(l, k) == Find(r, k)
  {
    MergeDeepLaw(a, b);
    MergeDeepLaw(b, c);
    MergeDeepLaw(MergeEntries(a, b), c);
    MergeDeepLaw(a, MergeEntries(b, c));
  }

  /** The values of a shared key may be regrouped. */
  ghost predicate SameAt(a: seq<Pair>, b: seq<Pair>, c: seq<Pair>, k: Text) {
    Find(a, k).Some? && Find(b, k).Some? && Find(c, k).Some? ==>
      MergeDeep(MergeDeep(Find(a, k).value, Find(b, k).value), Find(c, k).value)
      == MergeDeep(Find(a, k).value, MergeDeep(Find(b, k).value, Find(c, k).value))
  }

  lemma ThreeMapsRegroup(a: seq<Pair>, b: seq<Pair>, c: seq<Pair>)
    requires Sorted(a) && Sorted(b) && Sorted(c)
    ensures MergeEntries(MergeEntries(a, b), c) == MergeEntries(a, MergeEntries(b, c)) <==>
            forall i :: 0 <= i < |c| ==> SameAt(a, b, c, c[i].key)
  {
    var l, r := MergeEntries(MergeEntries(a, b), c), MergeEntries(a, MergeEntries(b, c));
    ThreeMaps(a, b, c);
    if forall i :: 0 <= i < |c| ==> SameAt(a, b, c, c[i].key) {
      forall k
        ensures Find(l, k) == Find(r, k)
      {
        FindMember(c, k);
      }
      SortedExtensional(l, r);
    }
  }

  /** A deep merge of three values may be regrouped exactly if they satisfy `Regroups`. */
  lemma {:induction false} MergeDeepRegroups(a: Value, b: Value, c: Value)
    requires WellFormed(a) && WellFormed(b) && WellFormed(c)
    ensures MergeDeep(MergeDeep(a, b), c) == MergeDeep(a, MergeDeep(b, c)) <==> Regroups(a, b, c)
    decreases c
  {
    if a.Map? && b.Map? && c.Map? {
      ThreeMapsRegroup(a.entries, b.entries, c.entries);
      forall i | 0 <= i < |c.entries|
        ensures SameAt(a.entries, b.entries, c.entries, c.entries[i].key) <==>
                SharedRegroups(a.entries, b.entries, c.entries[i])
      {
        SharedKey(a.entries, b.entries, c.entries, i);
        if Find(a.entries, c.entries[i].key).Some? && Find(b.entries, c.entries[i].key).Some? {
          MergeDeepRegroups(Find(a.entries, c.entries[i].key).value, Find(b.entries, c.entries[i].key).value,
                            c.entries[i].value);
        }
      }
    } else if b.Array? && c.Array? {
      if a.Array? {
        assert (a.items + b.items) + c.items == a.items + (b.items + c.items);
      }
    } else if !(b.Map? && c.Map?) {
      AbsorbedIff(a, c);
    }
  }

  lemma SharedKey(a: seq<Pair>, b: seq<Pair>, c: seq<Pair>, i: nat)
    requires WellFormed(Map(a)) && WellFormed(Map(b)) && WellFormed(Map(c)) && i < |c|
    ensures Find(c, c[i].key) == Some(c[i].value)
    ensures Find(a, c[i].key).Some? ==> WellFormed(Find(a, c[i].key).value)
    ensures Find(b, c[i].key).Some? ==> WellFormed(Find(b, c[i].key).value)
  {
    FindAt(c, i);
    if Find(a, c[i].key).Some? {
      FoundWellFormed(a, c[i].key);
    }
    if Find(b, c[i].key).Some? {
      FoundWellFormed(b, c[i].key);
    }
  }

  // --- Top-level merges ---------------------------------------------------------------------------

  /** A top-level merge of three values may be regrouped exactly if they satisfy `RegroupsTop`. */
  lemma MergeTopRegroups(a: Value, b: Value, c: Value)
    requires WellFormed(a) && WellFormed(b) && WellFormed(c)
    ensures MergeTop(MergeTop(a, b), c) == MergeTop(a, MergeTop(b, c)) <==> RegroupsTop(a, b, c)
  {
    if a.Map? && b.Map? && c.Map? {
      TopOfThreeMaps(a.entries, b.entries, c.entries);
    } else if a.Map? && c.Map? {
      TopAbsorbed(a.entries, c.entries);
    }
  }

  lemma TopOfThreeMaps(a: seq<Pair>, b: seq<Pair>, c: seq<Pair>)
    requires Sorted(a) && Sorted(b) && Sorted(c)
    ensures PutAll(PutAll(a, b), c) == PutAll(a, PutAll(b, c))
  {
    MergeTopLaw(a, b);
    MergeTopLaw(b, c);
    MergeTopLaw(PutAll(a, b), c);
    MergeTopLaw(a, PutAll(b, c));
    SortedExtensional(PutAll(PutAll(a, b), c), PutAll(a, PutAll(b, c)));
  }

  lemma TopAbsorbed(a: seq<Pair>, c: seq<Pair>)
    requires Sorted(a) && Sorted(c)
    ensures PutAll(a, c) == c <==> KeysWithin(a, c)
  {
    MergeTopLaw(a, c);
    if KeysWithin(a, c) {
      forall k
        ensures Find(PutAll(a, c), k) == Find(c, k)
      {
        FindMember(a, k);
      }
      SortedExtensional(PutAll(a, c), c);
    } else {
      var i :| 0 <= i < |a| && Find(c, a[i].key).None?;
      FindAt(a, i);
    }
  }

  /** A witness against both: a scalar in the middle forgets the first map. */
  lemma ScalarForgets(k: Text, u: Value, v: Value)
    requires !v.Map? && WellFormed(u) && WellFormed(v)
    ensures var a := Map([Pair(k, u)]);
            && MergeDeep(MergeDeep(a, v), Map([])) != MergeDeep(a, MergeDeep(v, Map([])))
            && MergeTop(MergeTop(a, v), Map([])) != MergeTop(a, MergeTop(v, Map([])))
  {
    var a, none := Map([Pair(k, u)]), Map([]);
    assert Find([], a.entries[0].key).None?;
    MergeDeepRegroups(a, v, none);
    MergeTopRegroups(a, v, none);
  }
}
