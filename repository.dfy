/**
 * The PollNode repository the service works against: nodes stored by id,
 * listed by findAll in the order they were first saved.
 */
module Storage {
  import opened Domain

  /** No id occurs twice. */
  predicate Distinct(ids: seq<string>)
  {
    forall i, j :: 0 <= i < j < |ids| ==> ids[i] != ids[j]
  }

  /** The stored nodes listed in the order of ids. */
  function Snapshot(store: map<string, PollNode>, ids: seq<string>): (r: seq<PollNode>)
    requires forall k :: k in ids ==> k in store
    ensures |r| == |ids|
    ensures forall i :: 0 <= i < |ids| ==> r[i] == store[ids[i]]
  {
    if ids == [] then [] else [store[ids[0]]] + Snapshot(store, ids[1..])
  }

  /** ids with k taken out. */
  function RemoveId(ids: seq<string>, k: string): (r: seq<string>)
    ensures forall x :: x in r <==> x in ids && x != k
  {
    if ids == [] then []
    else (if ids[0] == k then [] else [ids[0]]) + RemoveId(ids[1..], k)
  }

  /** The nodes of s other than the one whose id is k (the list removal of a delete). */
  function WithoutId(s: seq<PollNode>, k: string): (r: seq<PollNode>)
    ensures forall n :: n in r <==> n in s && n.id != Some(k)
  {
    if s == [] then []
    else (if s[0].id == Some(k) then [] else [s[0]]) + WithoutId(s[1..], k)
  }

  /** The position of k in ids. */
  function IndexOf(ids: seq<string>, k: string): (i: nat)
    requires k in ids
    ensures i < |ids| && ids[i] == k
    ensures forall j :: 0 <= j < i ==> ids[j] != k
  {
    if ids[0] == k then 0 else 1 + IndexOf(ids[1..], k)
  }

  lemma {:induction false} RemoveIdDistinct(ids: seq<string>, k: string)
    requires Distinct(ids)
    ensures Distinct(RemoveId(ids, k))
  {
    if ids != [] {
      var tail := ids[1..];
      assert Distinct(tail) by {
        forall i, j | 0 <= i < j < |tail| ensures tail[i] != tail[j] {
          assert tail[i] == ids[i + 1] && tail[j] == ids[j + 1];
        }
      }
      RemoveIdDistinct(tail, k);
      var r := RemoveId(ids, k);
      var rest := RemoveId(tail, k);
      if ids[0] != k {
        assert r == [ids[0]] + rest;
        assert ids[0] !in tail;
        forall i, j | 0 <= i < j < |r| ensures r[i] != r[j] {
          if i == 0 {
            assert r[j] == rest[j - 1];
            assert rest[j - 1] in rest;
          } else {
            assert r[i] == rest[i - 1] && r[j] == rest[j - 1];
          }
        }
      } else {
        assert r == rest;
      }
    }
  }

  /** Every stored node is keyed by its own id. */
  ghost predicate KeyedById(store: map<string, PollNode>)
  {
    forall k :: k in store ==> store[k].id == Some(k)
  }

  /** Deleting id k from the store removes exactly the node with that id from the listing. */
  lemma {:induction false} SnapshotRemove(store: map<string, PollNode>, ids: seq<string>, k: string)
    requires KeyedById(store) && forall x :: x in ids ==> x in store
    ensures forall x :: x in RemoveId(ids, k) ==> x in store - {k}
    ensures Snapshot(store - {k}, RemoveId(ids, k)) == WithoutId(Snapshot(store, ids), k)
  {
    if ids != [] {
      var tail := ids[1..];
      SnapshotRemove(store, tail, k);
      var s := Snapshot(store, ids);
      assert s == [store[ids[0]]] + Snapshot(store, tail);
      assert s[1..] == Snapshot(store, tail);
      assert (store[ids[0]].id == Some(k)) == (ids[0] == k);
      if ids[0] == k {
        assert RemoveId(ids, k) == RemoveId(tail, k);
      } else {
        assert RemoveId(ids, k) == [ids[0]] + RemoveId(tail, k);
        assert RemoveId(ids, k)[1..] == RemoveId(tail, k);
      }
    }
  }

  /** Saving a node under a new id appends it to the listing. */
  lemma SnapshotAppend(store: map<string, PollNode>, ids: seq<string>, k: string, n: PollNode)
    requires forall x :: x in ids ==> x in store
    requires k !in ids
    ensures Snapshot(store[k := n], ids + [k]) == Snapshot(store, ids) + [n]
  {
    var store' := store[k := n];
    var ids' := ids + [k];
    assert forall x :: x in ids' ==> x in store';
    var r := Snapshot(store', ids');
    var s := Snapshot(store, ids) + [n];
    assert |r| == |s|;
    forall i | 0 <= i < |r| ensures r[i] == s[i] {
      if i < |ids| {
        assert ids'[i] == ids[i] && ids[i] != k;
      }
    }
  }

  /** Saving a node under a stored id replaces it where it stands in the listing. */
  lemma SnapshotReplace(store: map<string, PollNode>, ids: seq<string>, k: string, n: PollNode)
    requires forall x :: x in ids ==> x in store
    requires Distinct(ids) && k in ids
    ensures Snapshot(store[k := n], ids) == Snapshot(store, ids)[IndexOf(ids, k) := n]
  {
    var store' := store[k := n];
    var r := Snapshot(store', ids);
    var s := Snapshot(store, ids)[IndexOf(ids, k) := n];
    forall i | 0 <= i < |r| ensures r[i] == s[i] {
      if i != IndexOf(ids, k) {
        assert ids[i] != k;
      }
    }
  }

  /** Listing a store in a duplicate-free order of all its ids lists every stored node once. */
  lemma SnapshotOfStore(store: map<string, PollNode>, ids: seq<string>)
    requires KeyedById(store) && (forall k :: k in ids <==> k in store) && Distinct(ids)
    ensures var r := Snapshot(store, ids);
      && |r| == |store|
      && (forall i :: 0 <= i < |r| ==> r[i].id.Some? && r[i].id.value in store && store[r[i].id.value] == r[i])
      && (forall k :: k in store ==> store[k] in r)
      && (forall i, j :: 0 <= i < j < |r| ==> r[i].id != r[j].id)
  {
    var r := Snapshot(store, ids);
    DistinctCoversKeys(ids, store.Keys);
    forall k | k in store ensures store[k] in r {
      var i := IndexOf(ids, k);
      assert r[i] == store[k];
    }
    forall i, j | 0 <= i < j < |r| ensures r[i].id != r[j].id {
      assert r[i].id == Some(ids[i]) && r[j].id == Some(ids[j]);
    }
  }

  class PollNodeRepository {
    /** The stored nodes by id. */
    var store: map<string, PollNode>
    /** The stored ids in the order findAll lists them. */
    var order: seq<string>

    ghost predicate Valid()
      reads this
    {
      && KeyedById(store)
      && (forall k :: k in order <==> k in store)
      && Distinct(order)
    }

    constructor ()
      ensures Valid() && store == map[] && order == []
    {
      store := map[];
      order := [];
    }

    /** findAll: every stored node, each once, in listing order. */
    function FindAll(): (r: seq<PollNode>)
      reads this
      requires Valid()
      ensures |r| == |store|
      ensures forall i :: 0 <= i < |r| ==> r[i].id.Some? && r[i].id.value in store && store[r[i].id.value] == r[i]
      ensures forall k :: k in store ==> store[k] in r
      ensures forall i, j :: 0 <= i < j < |r| ==> r[i].id != r[j].id
    {
      SnapshotOfStore(store, order);
      Snapshot(store, order)
    }

    /**
     * save: stores node under its id, replacing a node stored under that id
     * in place, or appending it to the listing when the id is new.
     */
    method Save(node: PollNode) returns (saved: PollNode)
      requires Valid() && node.id.Some?
      modifies this
      ensures Valid() && saved == node
      ensures store == old(store)[node.id.value := node]
      ensures node.id.value in old(store) ==> order == old(order)
      ensures node.id.value in old(store) ==>
        FindAll() == old(FindAll())[IndexOf(old(order), node.id.value) := node]
      ensures node.id.value !in old(store) ==> order == old(order) + [node.id.value]
      ensures node.id.value !in old(store) ==> FindAll() == old(FindAll()) + [node]
    {
      var k := node.id.value;
      if k in store {
        SnapshotReplace(store, order, k, node);
        store := store[k := node];
      } else {
        SnapshotAppend(store, order, k, node);
        assert Distinct(order + [k]) by {
          forall i, j | 0 <= i < j < |order| + 1 ensures (order + [k])[i] != (order + [k])[j] {
            if j == |order| {
              assert order[i] in order;
            }
          }
        }
        store := store[k := node];
        order := order + [k];
      }
      saved := node;
    }

    /** deleteById: removes the node stored under id, if any. */
    method DeleteById(id: string)
      requires Valid()
      modifies this
      ensures Valid()
      ensures store == old(store) - {id}
      ensures order == RemoveId(old(order), id)
      ensures FindAll() == WithoutId(old(FindAll()), id)
    {
      SnapshotRemove(store, order, id);
      RemoveIdDistinct(order, id);
      store := store - {id};
      order := RemoveId(order, id);
    }
  }

  /** A duplicate-free listing of exactly the keys of a set has its size. */
  lemma {:induction false} DistinctCoversKeys(ids: seq<string>, keys: set<string>)
    requires Distinct(ids) && forall k :: k in ids <==> k in keys
    ensures |ids| == |keys|
  {
    if ids != [] {
      var tail := ids[1..];
      assert Distinct(tail) by {
        forall i, j | 0 <= i < j < |tail| ensures tail[i] != tail[j] {
          assert tail[i] == ids[i + 1] && tail[j] == ids[j + 1];
        }
      }
      assert ids[0] !in tail;
      assert forall k :: k in tail <==> k in keys - {ids[0]};
      DistinctCoversKeys(tail, keys - {ids[0]});
    } else {
      assert keys == {};
    }
  }
}
