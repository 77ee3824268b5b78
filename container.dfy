/** A vector of graph entities plus a map from id to vector index
    (dyng/container.h). */
module Container {
  import opened Wrappers

  datatype Container<K, T> = Container(vec: seq<T>, index: map<K, nat>) {

    /** at() indexes the vector without a bounds check; every caller relies on this. */
    ghost predicate IndexInBounds()
    {
      forall k :: k in index ==> index[k] < |vec|
    }

    /** The invariant every graph keeps for its containers: the map sends each
        stored id to the position of the element carrying that id, and knows no
        other ids. */
    ghost predicate IndexedBy(idOf: T -> K)
    {
      && IndexInBounds()
      && (forall i :: 0 <= i < |vec| ==> idOf(vec[i]) in index && index[idOf(vec[i])] == i)
      && (forall k :: k in index ==> idOf(vec[index[k]]) == k)
    }

    /** container::at, both the const and the non-const overload: they designate
        the same element. Fails with out_of_range for an unknown id. */
    function At(id: K): (r: Result<T>)
      requires IndexInBounds()
      ensures r.Err? <==> id !in index
      ensures r.Err? ==> r.error == OutOfRange
      ensures r.Ok? ==> r.value == vec[index[id]]
    {
      if id in index then Ok(vec[index[id]]) else Err(OutOfRange)
    }

    /** The stored ids, one per element. */
    function Ids(idOf: T -> K): set<K>
    {
      set i | 0 <= i < |vec| :: idOf(vec[i])
    }
  }

  /** In an indexed container, looking up the id of the i-th element finds that
      element, and no two elements share an id. */
  lemma AtFindsStored<K, T>(c: Container<K, T>, idOf: T -> K, i: nat)
    requires c.IndexedBy(idOf) && i < |c.vec|
    ensures c.At(idOf(c.vec[i])) == Ok(c.vec[i])
    ensures forall j :: 0 <= j < |c.vec| && j != i ==> idOf(c.vec[j]) != idOf(c.vec[i])
  {
  }

  /** For an indexed container the map's keys are exactly the stored ids. */
  lemma KeysAreIds<K, T>(c: Container<K, T>, idOf: T -> K)
    requires c.IndexedBy(idOf)
    ensures c.index.Keys == c.Ids(idOf)
  {
    forall k | k in c.index ensures k in c.Ids(idOf) {
      assert idOf(c.vec[c.index[k]]) == k;
    }
  }

  ghost predicate UniqueIds<K, T>(vec: seq<T>, idOf: T -> K)
  {
    forall i, j :: 0 <= i < j < |vec| ==> idOf(vec[i]) != idOf(vec[j])
  }

  /** The map rebuilt from scratch by assigning map[vec[i].id] = i for every i in
      order: a later element with the same id overwrites an earlier one. */
  function Reindex<K, T>(vec: seq<T>, idOf: T -> K): (m: map<K, nat>)
    ensures m.Keys == set i | 0 <= i < |vec| :: idOf(vec[i])
    ensures forall k :: k in m ==> m[k] < |vec| && idOf(vec[m[k]]) == k
  {
    if vec == [] then map[]
    else
      var init := vec[..|vec| - 1];
      var m := Reindex(init, idOf);
      var r := m[idOf(vec[|vec| - 1]) := |vec| - 1];
      assert forall i | 0 <= i < |init| :: init[i] == vec[i];
      assert (set i | 0 <= i < |vec| :: idOf(vec[i]))
          == (set i | 0 <= i < |init| :: idOf(init[i])) + {idOf(vec[|vec| - 1])};
      r
  }

  /** With unique ids the rebuilt map indexes the container. */
  lemma {:induction false} ReindexIndexes<K, T>(vec: seq<T>, idOf: T -> K)
    requires UniqueIds(vec, idOf)
    ensures Container(vec, Reindex(vec, idOf)).IndexedBy(idOf)
  {
    var m := Reindex(vec, idOf);
    forall i | 0 <= i < |vec| ensures idOf(vec[i]) in m && m[idOf(vec[i])] == i {
      var k := idOf(vec[i]);
      assert k in m;
      assert idOf(vec[m[k]]) == k;
    }
  }

  /** Appending an element with a fresh id and mapping that id to the new
      position keeps the container indexed. */
  lemma AppendIndexed<K, T>(c: Container<K, T>, idOf: T -> K, x: T)
    requires c.IndexedBy(idOf) && idOf(x) !in c.index
    ensures Container(c.vec + [x], c.index[idOf(x) := |c.vec|]).IndexedBy(idOf)
  {
    var r := Container(c.vec + [x], c.index[idOf(x) := |c.vec|]);
    forall i | 0 <= i < |r.vec| ensures idOf(r.vec[i]) in r.index && r.index[idOf(r.vec[i])] == i {
      if i < |c.vec| {
        assert r.vec[i] == c.vec[i];
      }
    }
    forall k | k in r.index ensures idOf(r.vec[r.index[k]]) == k {
      if k != idOf(x) {
        assert r.vec[r.index[k]] == c.vec[c.index[k]];
      }
    }
  }

  /** Any stored element is found by its id. */
  lemma StoredIsFound<K, T>(c: Container<K, T>, idOf: T -> K, x: T)
    requires c.IndexedBy(idOf) && x in c.vec
    ensures c.At(idOf(x)) == Ok(x)
  {
    var k :| 0 <= k < |c.vec| && c.vec[k] == x;
    AtFindsStored(c, idOf, k);
  }

  /** Rebuilding the map of an indexed container gives back the same map. */
  lemma ReindexOfIndexed<K, T>(c: Container<K, T>, idOf: T -> K)
    requires c.IndexedBy(idOf)
    ensures Reindex(c.vec, idOf) == c.index
  {
    var m := Reindex(c.vec, idOf);
    KeysAreIds(c, idOf);
    forall k | k in m ensures m[k] == c.index[k] {
      AtFindsStored(c, idOf, m[k]);
    }
  }

  /** Overwriting an element with one carrying the same id keeps the container indexed. */
  lemma ReplaceIndexed<K, T>(c: Container<K, T>, idOf: T -> K, i: nat, x: T)
    requires c.IndexedBy(idOf) && i < |c.vec| && idOf(x) == idOf(c.vec[i])
    ensures Container(c.vec[i := x], c.index).IndexedBy(idOf)
  {
    var d := Container(c.vec[i := x], c.index);
    assert forall j :: 0 <= j < |d.vec| ==> idOf(d.vec[j]) == idOf(c.vec[j]);
  }

  /** Overwriting every element with one carrying the same id keeps the
      container indexed. */
  lemma RewriteIndexed<K, T>(c: Container<K, T>, idOf: T -> K, vec: seq<T>)
    requires c.IndexedBy(idOf) && |vec| == |c.vec|
    requires forall j :: 0 <= j < |vec| ==> idOf(vec[j]) == idOf(c.vec[j])
    ensures Container(vec, c.index).IndexedBy(idOf)
  {
  }
}
