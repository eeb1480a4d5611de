/**
 * The listing pipeline over a snapshot of poll nodes: a stable sort by the
 * title or the id (Comparator.comparing(key), reversed when descending),
 * then limit, then skip.
 */
module Ordering {
  import opened Domain
  import opened StringOrder

  /** The fields a listing can sort by. */
  datatype Field = Title | Id

  /** The name a caller uses for each sort field. */
  function FieldName(f: Field): string
  {
    match f
    case Title => "title"
    case Id => "id"
  }

  /** Resolves a caller's field name; names other than "title" and "id" resolve to nothing. */
  function ParseField(name: string): (r: Option<Field>)
    ensures r.Some? ==> FieldName(r.value) == name
    ensures r.None? <==> forall f :: FieldName(f) != name
  {
    if name == "title" then Some(Title)
    else if name == "id" then Some(Id)
    else None
  }

  lemma ParseFieldName(f: Field)
    ensures ParseField(FieldName(f)) == Some(f)
  {
    match f
    case Title =>
    case Id => assert "id" != "title";
  }

  /** A node has a sort key for f: every node has a title; the id may be absent. */
  predicate HasKey(n: PollNode, f: Field)
  {
    f == Title || n.id.Some?
  }

  function Key(n: PollNode, f: Field): string
    requires HasKey(n, f)
  {
    match f
    case Title => n.title
    case Id => n.id.value
  }

  /** Every node of s has a sort key for f. */
  predicate Keyed(s: seq<PollNode>, f: Field)
  {
    forall n :: n in s ==> HasKey(n, f)
  }

  /**
   * The comparator: String.compareTo on the keys, with the arguments swapped
   * when descending, which negates the ascending comparison.
   */
  function Cmp(a: PollNode, b: PollNode, f: Field, desc: bool): (r: int)
    requires HasKey(a, f) && HasKey(b, f)
    ensures r == 0 <==> Key(a, f) == Key(b, f)
    ensures r == if desc then -Compare(Key(a, f), Key(b, f)) else Compare(Key(a, f), Key(b, f))
  {
    if desc then
      CompareAntisymmetric(Key(a, f), Key(b, f));
      Compare(Key(b, f), Key(a, f))
    else Compare(Key(a, f), Key(b, f))
  }

  lemma CmpAntisymmetric(a: PollNode, b: PollNode, f: Field, desc: bool)
    requires HasKey(a, f) && HasKey(b, f)
    ensures Cmp(b, a, f, desc) == -Cmp(a, b, f, desc)
  {
    CompareAntisymmetric(Key(a, f), Key(b, f));
  }

  lemma CmpTransitive(a: PollNode, b: PollNode, c: PollNode, f: Field, desc: bool)
    requires HasKey(a, f) && HasKey(b, f) && HasKey(c, f)
    requires Cmp(a, b, f, desc) <= 0 && Cmp(b, c, f, desc) <= 0
    ensures Cmp(a, c, f, desc) <= 0
  {
    if desc {
      CompareTransitive(Key(c, f), Key(b, f), Key(a, f));
    } else {
      CompareTransitive(Key(a, f), Key(b, f), Key(c, f));
    }
  }

  /** s is in the comparator's order: no element is after a later one. */
  predicate Ordered(s: seq<PollNode>, f: Field, desc: bool)
    requires Keyed(s, f)
  {
    forall i, j :: 0 <= i < j < |s| ==> Cmp(s[i], s[j], f, desc) <= 0
  }

  /** Neighbours are in the comparator's order. */
  predicate AdjacentOrdered(s: seq<PollNode>, f: Field, desc: bool)
    requires Keyed(s, f)
  {
    forall i :: 0 <= i < |s| - 1 ==> Cmp(s[i], s[i + 1], f, desc) <= 0
  }

  lemma {:induction false} AdjacentOrderedIsOrdered(s: seq<PollNode>, f: Field, desc: bool)
    requires Keyed(s, f) && AdjacentOrdered(s, f, desc)
    ensures Ordered(s, f, desc)
  {
    if |s| > 1 {
      var t := s[1..];
      assert Keyed(t, f);
      assert AdjacentOrdered(t, f, desc) by {
        forall i | 0 <= i < |t| - 1 ensures Cmp(t[i], t[i + 1], f, desc) <= 0 {
          assert t[i] == s[i + 1] && t[i + 1] == s[i + 2];
        }
      }
      AdjacentOrderedIsOrdered(t, f, desc);
      forall i, j | 0 <= i < j < |s| ensures Cmp(s[i], s[j], f, desc) <= 0 {
        if i == 0 && j > 1 {
          assert s[j] == t[j - 1] && s[1] == t[0];
          CmpTransitive(s[0], s[1], s[j], f, desc);
        } else if i > 0 {
          assert s[i] == t[i - 1] && s[j] == t[j - 1];
        }
      }
    }
  }

  /**
   * Puts x into t in front of the first element it is not after. Since x
   * came before every element of t in the input, equal keys keep their
   * input order.
   */
  function Insert(x: PollNode, t: seq<PollNode>, f: Field, desc: bool): (r: seq<PollNode>)
    requires HasKey(x, f) && Keyed(t, f)
    ensures |r| == |t| + 1 && Keyed(r, f)
    ensures r[0] == x || (t != [] && r[0] == t[0])
  {
    if t == [] then [x]
    else if Cmp(x, t[0], f, desc) <= 0 then [x] + t
    else [t[0]] + Insert(x, t[1..], f, desc)
  }

  /** Insert adds x and keeps every node of t. */
  lemma {:induction false} InsertPermutation(x: PollNode, t: seq<PollNode>, f: Field, desc: bool)
    requires HasKey(x, f) && Keyed(t, f)
    ensures multiset(Insert(x, t, f, desc)) == multiset(t) + multiset{x}
  {
    if t != [] && Cmp(x, t[0], f, desc) > 0 {
      InsertPermutation(x, t[1..], f, desc);
      assert t == [t[0]] + t[1..];
    }
  }

  lemma InsertInFront(x: PollNode, t: seq<PollNode>, f: Field, desc: bool)
    requires HasKey(x, f) && Keyed(t, f) && t != [] && Cmp(x, t[0], f, desc) <= 0
    ensures Insert(x, t, f, desc) == [x] + t
  {
  }

  lemma InsertPastHead(x: PollNode, y: PollNode, t: seq<PollNode>, f: Field, desc: bool)
    requires HasKey(x, f) && HasKey(y, f) && Keyed(t, f) && Cmp(x, y, f, desc) > 0
    ensures Keyed([y] + t, f)
    ensures Insert(x, [y] + t, f, desc) == [y] + Insert(x, t, f, desc)
  {
    assert ([y] + t)[1..] == t;
  }

  /** The stable sort of s by the comparator (the stream's sorted step). */
  function Sort(s: seq<PollNode>, f: Field, desc: bool): (r: seq<PollNode>)
    requires Keyed(s, f)
    ensures |r| == |s| && Keyed(r, f)
  {
    if s == [] then []
    else Insert(s[0], Sort(s[1..], f, desc), f, desc)
  }

  /** The sort holds exactly the nodes of its input. */
  lemma {:induction false} SortPermutation(s: seq<PollNode>, f: Field, desc: bool)
    requires Keyed(s, f)
    ensures multiset(Sort(s, f, desc)) == multiset(s)
  {
    if s != [] {
      SortPermutation(s[1..], f, desc);
      InsertPermutation(s[0], Sort(s[1..], f, desc), f, desc);
      assert s == [s[0]] + s[1..];
    }
  }

  lemma SortCons(x: PollNode, t: seq<PollNode>, f: Field, desc: bool)
    requires HasKey(x, f) && Keyed(t, f)
    ensures Keyed([x] + t, f)
    ensures Sort([x] + t, f, desc) == Insert(x, Sort(t, f, desc), f, desc)
  {
    assert ([x] + t)[1..] == t;
  }

  lemma {:induction false} InsertAdjacentOrdered(x: PollNode, t: seq<PollNode>, f: Field, desc: bool)
    requires HasKey(x, f) && Keyed(t, f) && AdjacentOrdered(t, f, desc)
    ensures AdjacentOrdered(Insert(x, t, f, desc), f, desc)
  {
    if t != [] && Cmp(x, t[0], f, desc) > 0 {
      var t' := t[1..];
      assert AdjacentOrdered(t', f, desc) by {
        forall i | 0 <= i < |t'| - 1 ensures Cmp(t'[i], t'[i + 1], f, desc) <= 0 {
          assert t'[i] == t[i + 1] && t'[i + 1] == t[i + 2];
        }
      }
      InsertAdjacentOrdered(x, t', f, desc);
      CmpAntisymmetric(x, t[0], f, desc);
      var r := Insert(x, t, f, desc);
      var rest := Insert(x, t', f, desc);
      assert r == [t[0]] + rest;
      assert Cmp(t[0], rest[0], f, desc) <= 0;
    }
  }

  /** The sort is ordered by the comparator. */
  lemma {:induction false} SortOrdered(s: seq<PollNode>, f: Field, desc: bool)
    requires Keyed(s, f)
    ensures Ordered(Sort(s, f, desc), f, desc)
  {
    SortAdjacentOrdered(s, f, desc);
    AdjacentOrderedIsOrdered(Sort(s, f, desc), f, desc);
  }

  lemma {:induction false} SortAdjacentOrdered(s: seq<PollNode>, f: Field, desc: bool)
    requires Keyed(s, f)
    ensures AdjacentOrdered(Sort(s, f, desc), f, desc)
  {
    if s != [] {
      SortAdjacentOrdered(s[1..], f, desc);
      InsertAdjacentOrdered(s[0], Sort(s[1..], f, desc), f, desc);
    }
  }

  /** The nodes of s whose key for f is k, in their order in s. */
  function KeyGroup(s: seq<PollNode>, f: Field, k: string): (r: seq<PollNode>)
    requires Keyed(s, f)
  {
    if s == [] then []
    else (if Key(s[0], f) == k then [s[0]] else []) + KeyGroup(s[1..], f, k)
  }

  lemma KeyGroupCons(y: PollNode, t: seq<PollNode>, f: Field, k: string)
    requires HasKey(y, f) && Keyed(t, f)
    ensures Keyed([y] + t, f)
    ensures KeyGroup([y] + t, f, k) == (if Key(y, f) == k then [y] else []) + KeyGroup(t, f, k)
  {
    assert ([y] + t)[1..] == t;
  }

  lemma {:induction false} InsertKeyGroup(x: PollNode, t: seq<PollNode>, f: Field, desc: bool, k: string)
    requires HasKey(x, f) && Keyed(t, f)
    ensures KeyGroup(Insert(x, t, f, desc), f, k)
         == (if Key(x, f) == k then [x] else []) + KeyGroup(t, f, k)
  {
    if t == [] {
      KeyGroupCons(x, [], f, k);
      assert [x] + [] == [x];
    } else if Cmp(x, t[0], f, desc) <= 0 {
      KeyGroupCons(x, t, f, k);
    } else {
      InsertKeyGroup(x, t[1..], f, desc, k);
      InsertKeyGroupPastHead(x, t, f, desc, k);
    }
  }

  /** The step of InsertKeyGroup where x goes past the head of t. */
  lemma InsertKeyGroupPastHead(x: PollNode, t: seq<PollNode>, f: Field, desc: bool, k: string)
    requires HasKey(x, f) && Keyed(t, f) && t != [] && Cmp(x, t[0], f, desc) > 0
    requires KeyGroup(Insert(x, t[1..], f, desc), f, k)
          == (if Key(x, f) == k then [x] else []) + KeyGroup(t[1..], f, k)
    ensures KeyGroup(Insert(x, t, f, desc), f, k)
         == (if Key(x, f) == k then [x] else []) + KeyGroup(t, f, k)
  {
    var t' := t[1..];
    var rest := Insert(x, t', f, desc);
    var gx := if Key(x, f) == k then [x] else [];
    var g0 := if Key(t[0], f) == k then [t[0]] else [];
    KeyGroupCons(t[0], rest, f, k);
    KeyGroupCons(t[0], t', f, k);
    assert [t[0]] + t' == t;
    PrependEitherOrder(g0, gx, KeyGroup(t', f, k));
  }

  /** Two prefixes of which one is empty can be put in either order. */
  lemma PrependEitherOrder(g: seq<PollNode>, h: seq<PollNode>, s: seq<PollNode>)
    requires g == [] || h == []
    ensures g + (h + s) == h + (g + s)
  {
    if g == [] {
      assert g + (h + s) == h + s == h + (g + s);
    } else {
      assert g + (h + s) == g + s == h + (g + s);
    }
  }

  /**
   * The sort is stable: for every key, the nodes with that key appear in
   * the result in the same order as in the input.
   */
  lemma {:induction false} SortStable(s: seq<PollNode>, f: Field, desc: bool, k: string)
    requires Keyed(s, f)
    ensures KeyGroup(Sort(s, f, desc), f, k) == KeyGroup(s, f, k)
  {
    if s != [] {
      SortStable(s[1..], f, desc, k);
      InsertKeyGroup(s[0], Sort(s[1..], f, desc), f, desc, k);
    }
  }

  /** No two nodes of s share a key for f. */
  predicate DistinctKeys(s: seq<PollNode>, f: Field)
    requires Keyed(s, f)
  {
    forall i, j :: 0 <= i < j < |s| ==> Key(s[i], f) != Key(s[j], f)
  }

  function Reverse(s: seq<PollNode>): (r: seq<PollNode>)
    ensures |r| == |s|
    ensures forall i :: 0 <= i < |s| ==> r[i] == s[|s| - 1 - i]
  {
    if s == [] then [] else Reverse(s[1..]) + [s[0]]
  }

  lemma {:induction false} ReverseMultiset(s: seq<PollNode>)
    ensures multiset(Reverse(s)) == multiset(s)
  {
    if s != [] {
      ReverseMultiset(s[1..]);
      assert s == [s[0]] + s[1..];
    }
  }

  /** Reversing an ascending order gives a descending one. */
  lemma ReverseOrderedAscending(s: seq<PollNode>, f: Field)
    requires Keyed(s, f) && Ordered(s, f, false)
    ensures Keyed(Reverse(s), f) && Ordered(Reverse(s), f, true)
  {
    var r := Reverse(s);
    ReverseMultiset(s);
    assert forall n :: n in r ==> n in multiset(r);
    forall i, j | 0 <= i < j < |r| ensures Cmp(r[i], r[j], f, true) <= 0 {
      assert r[i] == s[|s| - 1 - i] && r[j] == s[|s| - 1 - j];
    }
  }

  lemma OrderedTail(s: seq<PollNode>, f: Field, desc: bool)
    requires s != [] && Keyed(s, f) && Ordered(s, f, desc)
    ensures Keyed(s[1..], f) && Ordered(s[1..], f, desc)
  {
    var t := s[1..];
    assert Keyed(t, f);
    forall i, j | 0 <= i < j < |t| ensures Cmp(t[i], t[j], f, desc) <= 0 {
      assert t[i] == s[i + 1] && t[j] == s[j + 1];
    }
  }

  /** Two ordered sequences with the same nodes, the first with distinct keys, start alike. */
  lemma OrderedSameHead(a: seq<PollNode>, b: seq<PollNode>, f: Field, desc: bool)
    requires Keyed(a, f) && Keyed(b, f)
    requires Ordered(a, f, desc) && Ordered(b, f, desc)
    requires multiset(a) == multiset(b) && DistinctKeys(a, f)
    requires a != []
    ensures b != [] && a[0] == b[0]
  {
    assert a[0] in multiset(b);
    assert b[0] in multiset(a);
    var i :| 0 <= i < |a| && a[i] == b[0];
    var j :| 0 <= j < |b| && b[j] == a[0];
    if i != 0 && j != 0 {
      assert Cmp(a[0], a[i], f, desc) <= 0;
      assert Cmp(b[0], b[j], f, desc) <= 0;
      CmpAntisymmetric(a[0], b[0], f, desc);
      assert false;
    }
  }

  /**
   * With distinct keys a sequence in the comparator's order is determined by
   * its elements: two ordered sequences holding the same nodes are equal.
   */
  lemma {:induction false} OrderedUnique(a: seq<PollNode>, b: seq<PollNode>, f: Field, desc: bool)
    requires Keyed(a, f) && Keyed(b, f)
    requires Ordered(a, f, desc) && Ordered(b, f, desc)
    requires multiset(a) == multiset(b) && DistinctKeys(a, f)
    ensures a == b
  {
    if a != [] {
      OrderedSameHead(a, b, f, desc);
      OrderedTail(a, f, desc);
      OrderedTail(b, f, desc);
      var a', b' := a[1..], b[1..];
      assert a == [a[0]] + a';
      assert b == [b[0]] + b';
      assert multiset(a) == multiset{a[0]} + multiset(a');
      assert multiset(b) == multiset{a[0]} + multiset(b');
      assert multiset(a') == multiset(a) - multiset{a[0]};
      assert multiset(b') == multiset(b) - multiset{a[0]};
      assert DistinctKeys(a[1..], f) by {
        forall i, j | 0 <= i < j < |a| - 1 ensures Key(a[1..][i], f) != Key(a[1..][j], f) {
          assert a[1..][i] == a[i + 1] && a[1..][j] == a[j + 1];
        }
      }
      OrderedUnique(a[1..], b[1..], f, desc);
    }
  }

  lemma DistinctKeysCons(y: PollNode, t: seq<PollNode>, f: Field)
    requires HasKey(y, f) && Keyed(t, f)
    ensures Keyed([y] + t, f)
    ensures DistinctKeys([y] + t, f)
        <==> DistinctKeys(t, f) && forall n :: n in t ==> Key(n, f) != Key(y, f)
  {
    var s := [y] + t;
    assert forall i :: 0 <= i < |t| ==> s[i + 1] == t[i];
    if DistinctKeys(s, f) {
      forall n | n in t ensures Key(n, f) != Key(y, f) {
        var i :| 0 <= i < |t| && t[i] == n;
        assert s[0] == y && s[i + 1] == n;
      }
    }
  }

  lemma {:induction false} InsertDistinctKeys(x: PollNode, t: seq<PollNode>, f: Field, desc: bool)
    requires HasKey(x, f) && Keyed(t, f) && DistinctKeys(t, f)
    requires forall n :: n in t ==> Key(n, f) != Key(x, f)
    ensures DistinctKeys(Insert(x, t, f, desc), f)
  {
    if t == [] {
    } else if Cmp(x, t[0], f, desc) <= 0 {
      DistinctKeysCons(x, t, f);
    } else {
      var t' := t[1..];
      var rest := Insert(x, t', f, desc);
      assert t == [t[0]] + t';
      DistinctKeysCons(t[0], t', f);
      InsertDistinctKeys(x, t', f, desc);
      InsertPermutation(x, t', f, desc);
      assert forall n :: n in rest ==> n in multiset(rest);
      DistinctKeysCons(t[0], rest, f);
    }
  }

  /** Sorting keeps keys distinct. */
  lemma {:induction false} SortDistinctKeys(s: seq<PollNode>, f: Field, desc: bool)
    requires Keyed(s, f) && DistinctKeys(s, f)
    ensures DistinctKeys(Sort(s, f, desc), f)
  {
    if s != [] {
      var t := s[1..];
      var sorted := Sort(t, f, desc);
      assert s == [s[0]] + t;
      DistinctKeysCons(s[0], t, f);
      SortDistinctKeys(t, f, desc);
      SortPermutation(t, f, desc);
      assert forall n :: n in sorted ==> n in multiset(t);
      InsertDistinctKeys(s[0], sorted, f, desc);
    }
  }

  /**
   * With distinct keys the descending sort is the ascending sort reversed
   * (ties, which this leaves open, cannot occur).
   */
  lemma SortDescendingIsReversedAscending(s: seq<PollNode>, f: Field)
    requires Keyed(s, f) && DistinctKeys(s, f)
    ensures Sort(s, f, true) == Reverse(Sort(s, f, false))
  {
    var asc := Sort(s, f, false);
    var dsc := Sort(s, f, true);
    SortOrdered(s, f, false);
    SortOrdered(s, f, true);
    SortPermutation(s, f, false);
    SortPermutation(s, f, true);
    ReverseOrderedAscending(asc, f);
    ReverseMultiset(asc);
    SortDistinctKeys(s, f, true);
    OrderedUnique(dsc, Reverse(asc), f, true);
  }

  /** The stream's limit(n) step: the first n elements, or all of them. */
  function Limit(s: seq<PollNode>, n: nat): (r: seq<PollNode>)
    ensures |r| == if n < |s| then n else |s|
    ensures forall i :: 0 <= i < |r| ==> r[i] == s[i]
  {
    if n < |s| then s[..n] else s
  }

  /** The stream's skip(n) step: all but the first n elements, or nothing. */
  function Skip(s: seq<PollNode>, n: nat): (r: seq<PollNode>)
    ensures |r| == if n < |s| then |s| - n else 0
    ensures forall i :: 0 <= i < |r| ==> r[i] == s[n + i]
  {
    if n < |s| then s[n..] else []
  }

  /**
   * limit, then skip: the positions offset .. limit-1 of s (clamped to |s|),
   * empty when offset is at least limit.
   */
  function Page(s: seq<PollNode>, limit: nat, offset: nat): (r: seq<PollNode>)
    ensures |r| == Max(0, Min(limit, |s|) - offset)
    ensures forall i :: 0 <= i < |r| ==> r[i] == s[offset + i]
    ensures offset >= limit || offset >= |s| ==> r == []
    ensures limit >= |s| ==> r == Skip(s, offset)
  {
    Skip(Limit(s, limit), offset)
  }

  function Min(a: int, b: int): int { if a < b then a else b }

  function Max(a: int, b: int): int { if a < b then b else a }

  /** The whole listing pipeline: sort, then limit, then skip. */
  function Listing(s: seq<PollNode>, limit: nat, offset: nat, f: Field, desc: bool): (r: seq<PollNode>)
    requires Keyed(s, f)
    ensures |r| == Max(0, Min(limit, |s|) - offset)
    ensures forall i :: 0 <= i < |r| ==> r[i] == Sort(s, f, desc)[offset + i]
  {
    Page(Sort(s, f, desc), limit, offset)
  }
}
