/** `src/pool.rs`: interning of values as dense ids. */
module Pools {
  import opened Values

  /** No value has two ids. */
  ghost predicate Distinct(values: seq<Value>) {
    forall i, j :: 0 <= i < j < |values| ==> values[i] != values[j]
  }

  class ValuePool {
    var values: seq<Value>
    var index: map<Value, nat>

    /** The index inverts the list. */
    ghost predicate Valid()
      reads this
    {
      && (forall i :: 0 <= i < |values| ==> values[i] in index && index[values[i]] == i)
      && (forall v :: v in index ==> index[v] < |values| && values[index[v]] == v)
    }

    constructor ()
      ensures Valid() && values == []
    {
      values := [];
      index := map[];
    }

    /** Equal values get the same id; a new value is appended and no id ever changes meaning. */
    method Intern(value: Value) returns (id: nat)
      requires Valid()
      modifies this
      ensures Valid()
      ensures id < |values| && values[id] == value
      ensures values == if value in old(values) then old(values) else old(values) + [value]
    {
      if value in index {
        return index[value];
      }
      id := |values|;
      values := values + [value];
      index := index[value := id];
    }

    method Get(id: nat) returns (v: Value)
      requires id < |values|
      ensures v == values[id]
    {
      v := values[id];
    }

    lemma IdsAreDistinct()
      requires Valid()
      ensures Distinct(values)
    {
    }
  }
}
