/**
 * The PollNode service: create, update, find and delete guarded by the
 * repository's existence checks, and the listings built from findAll.
 */
module Service {
  import opened Domain
  import opened Ordering
  import opened Storage

  /** Every node of a repository listing has an id, so it can be sorted by either field. */
  lemma ListingKeyed(s: seq<PollNode>, f: Field)
    requires forall i :: 0 <= i < |s| ==> s[i].id.Some?
    ensures Keyed(s, f)
  {
    forall n | n in s ensures HasKey(n, f) {
      var i :| 0 <= i < |s| && s[i] == n;
    }
  }

  /** A repository listing never holds two nodes with one id. */
  lemma ListingDistinctIds(s: seq<PollNode>)
    requires forall i :: 0 <= i < |s| ==> s[i].id.Some?
    requires forall i, j :: 0 <= i < j < |s| ==> s[i].id != s[j].id
    ensures Keyed(s, Id) && DistinctKeys(s, Id)
  {
    ListingKeyed(s, Id);
  }

  class PollNodeService {
    const repository: PollNodeRepository

    ghost predicate Valid()
      reads repository
    {
      repository.Valid()
    }

    constructor (repository: PollNodeRepository)
      ensures this.repository == repository
    {
      this.repository := repository;
    }

    /**
     * create: a node that carries an id already stored is refused with
     * AlreadyExists and nothing is saved; otherwise the node is saved, under
     * generatedId when it has no id, and the saved node is returned and
     * appended to the listing. generatedId stands for a freshly generated id,
     * so it is not stored yet.
     */
    method Create(node: PollNode, generatedId: string) returns (r: Result<PollNode>)
      requires Valid()
      requires node.id.None? ==> generatedId !in repository.store
      modifies repository
      ensures Valid()
      ensures node.id.Some? && node.id.value in old(repository.store) ==>
        r == Err(AlreadyExists(AlreadyExistsMessage))
        && repository.store == old(repository.store) && repository.order == old(repository.order)
      ensures !(node.id.Some? && node.id.value in old(repository.store)) ==>
        var saved := if node.id.Some? then node else node.(id := Some(generatedId));
        && r == Ok(saved)
        && saved.id.value !in old(repository.store)
        && repository.store == old(repository.store)[saved.id.value := saved]
        && repository.order == old(repository.order) + [saved.id.value]
        && repository.FindAll() == old(repository.FindAll()) + [saved]
    {
      if node.id.Some? && node.id.value in repository.store {
        return Err(AlreadyExists(AlreadyExistsMessage));
      }
      var toSave := if node.id.Some? then node else node.(id := Some(generatedId));
      var saved := repository.Save(toSave);
      r := Ok(saved);
    }

    /**
     * update: a node without an id is refused with IllegalArgument, one whose
     * id is not stored with NotFound, and neither touches the repository;
     * otherwise the node replaces the stored one and is returned.
     */
    method Update(node: PollNode) returns (r: Result<PollNode>)
      requires Valid()
      modifies repository
      ensures Valid()
      ensures node.id.None? ==>
        r == Err(IllegalArgument(NullParameterMessage))
      ensures node.id.Some? && node.id.value !in old(repository.store) ==>
        r == Err(NotFound(NotFoundMessage(node.id.value)))
      ensures r.Err? ==>
        repository.store == old(repository.store) && repository.order == old(repository.order)
      ensures node.id.Some? && node.id.value in old(repository.store) ==>
        r == Ok(node)
        && repository.store == old(repository.store)[node.id.value := node]
        && repository.order == old(repository.order)
    {
      if node.id.None? {
        return Err(IllegalArgument(NullParameterMessage));
      }
      var id := node.id.value;
      if id !in repository.store {
        return Err(NotFound(NotFoundMessage(id)));
      }
      var saved := repository.Save(node);
      r := Ok(saved);
    }

    /** findById: the node stored under id, or NotFound naming id. */
    method FindById(id: string) returns (r: Result<PollNode>)
      requires Valid()
      ensures id in repository.store <==> r.Ok?
      ensures r.Ok? ==> r.value == repository.store[id] && r.value.id == Some(id)
      ensures r.Err? ==> r.error == NotFound(NotFoundMessage(id))
    {
      if id in repository.store {
        r := Ok(repository.store[id]);
      } else {
        r := Err(NotFound(NotFoundMessage(id)));
      }
    }

    /** findAll: the repository's listing, elements and order unchanged. */
    method FindAll() returns (s: seq<PollNode>)
      requires Valid()
      ensures s == repository.FindAll()
      ensures |s| == |repository.store|
      ensures forall k :: k in repository.store ==> repository.store[k] in s
    {
      s := repository.FindAll();
    }

    /**
     * findAllAndSortByTitle: the listing sorted by title in String.compareTo
     * order, holding the same nodes, with equal titles in listing order.
     */
    method FindAllAndSortByTitle() returns (s: seq<PollNode>)
      requires Valid()
      ensures Keyed(s, Title)
      ensures multiset(s) == multiset(repository.FindAll())
      ensures Ordered(s, Title, false)
      ensures Keyed(repository.FindAll(), Title)
      ensures forall k :: KeyGroup(s, Title, k) == KeyGroup(repository.FindAll(), Title, k)
      ensures s == Sort(repository.FindAll(), Title, false)
    {
      s := SortedListing(Title, false);
    }

    /**
     * findAllAndSortById: the listing sorted by id in String.compareTo order
     * (so "777" before "7up" before "b2"), holding the same nodes.
     */
    method FindAllAndSortById() returns (s: seq<PollNode>)
      requires Valid()
      ensures Keyed(s, Id)
      ensures multiset(s) == multiset(repository.FindAll())
      ensures Ordered(s, Id, false)
      ensures s == Sort(repository.FindAll(), Id, false)
    {
      s := SortedListing(Id, false);
    }

    /** findAllBySortType: the ascending sort by the named field. */
    method FindAllBySortType(field: Field) returns (s: seq<PollNode>)
      requires Valid()
      ensures Keyed(s, field)
      ensures multiset(s) == multiset(repository.FindAll())
      ensures Ordered(s, field, false)
      ensures s == Sort(repository.FindAll(), field, false)
    {
      s := SortedListing(field, false);
    }

    /**
     * findAllByTypeAndDesc: the sort by the named field, descending when
     * desc is set. Sorting by id, and sorting by title when no two titles
     * are equal, the descending listing is the ascending one reversed.
     */
    method FindAllByTypeAndDesc(field: Field, desc: bool) returns (s: seq<PollNode>)
      requires Valid()
      ensures Keyed(s, field)
      ensures multiset(s) == multiset(repository.FindAll())
      ensures Ordered(s, field, desc)
      ensures s == Sort(repository.FindAll(), field, desc)
      ensures Keyed(repository.FindAll(), field)
      ensures desc && (field == Id || DistinctKeys(repository.FindAll(), field)) ==>
        s == Reverse(Sort(repository.FindAll(), field, false))
    {
      s := SortedListing(field, desc);
      var all := repository.FindAll();
      if desc && field == Id {
        ListingDistinctIds(all);
      }
      if desc && DistinctKeys(all, field) {
        SortDescendingIsReversedAscending(all, field);
      }
    }

    /**
     * findAll(limit, offset, field, desc): the sorted listing cut to its
     * first limit nodes and then past its first offset nodes, so the sorted
     * positions offset .. limit-1, empty when offset >= limit.
     */
    method FindAllWithLimitOffset(limit: nat, offset: nat, field: Field, desc: bool) returns (s: seq<PollNode>)
      requires Valid()
      ensures Keyed(repository.FindAll(), field)
      ensures s == Page(Sort(repository.FindAll(), field, desc), limit, offset)
      ensures |s| == Max(0, Min(limit, |repository.store|) - offset)
      ensures forall i :: 0 <= i < |s| ==> s[i] == Sort(repository.FindAll(), field, desc)[offset + i]
      ensures offset >= limit ==> s == []
    {
      var sorted := SortedListing(field, desc);
      s := Page(sorted, limit, offset);
    }

    /**
     * deleteById: an id that is not stored is refused with NotFound naming it
     * and nothing changes; otherwise the node is removed from the store and
     * from the listing.
     */
    method DeleteById(id: string) returns (r: Outcome)
      requires Valid()
      modifies repository
      ensures Valid()
      ensures id !in old(repository.store) ==>
        r == Fail(NotFound(NotFoundMessage(id)))
        && repository.store == old(repository.store) && repository.order == old(repository.order)
      ensures id in old(repository.store) ==>
        r == Pass
        && repository.store == old(repository.store) - {id}
        && repository.FindAll() == WithoutId(old(repository.FindAll()), id)
    {
      if id !in repository.store {
        return Fail(NotFound(NotFoundMessage(id)));
      }
      repository.DeleteById(id);
      r := Pass;
    }

    /** The listing sorted by field, with the facts every sorted listing above states. */
    method SortedListing(field: Field, desc: bool) returns (s: seq<PollNode>)
      requires Valid()
      ensures Keyed(repository.FindAll(), field) && Keyed(s, field)
      ensures s == Sort(repository.FindAll(), field, desc)
      ensures multiset(s) == multiset(repository.FindAll())
      ensures Ordered(s, field, desc)
      ensures forall k :: KeyGroup(s, field, k) == KeyGroup(repository.FindAll(), field, k)
    {
      var all := repository.FindAll();
      ListingKeyed(all, field);
      s := Sort(all, field, desc);
      SortOrdered(all, field, desc);
      SortPermutation(all, field, desc);
      forall k ensures KeyGroup(s, field, k) == KeyGroup(all, field, k) {
        SortStable(all, field, desc, k);
      }
    }
  }
}
