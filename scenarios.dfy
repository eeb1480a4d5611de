/**
 * The concrete cases of the PollNode service tests, replayed on the model.
 */
module Scenarios {
  import opened Domain
  import opened StringOrder
  import opened Ordering
  import opened Storage
  import opened Service

  function Node(id: string, title: string): PollNode
  {
    PollNode(Some(id), title)
  }

  /** Ids compare as strings, not as numbers: "777" < "7up" < "b2" and "10" < "2" < "999". */
  lemma StringOrderNotNumeric()
    ensures Compare("777", "7up") < 0 && Compare("7up", "b2") < 0
    ensures Compare("10", "2") < 0 && Compare("2", "999") < 0
  {
    assert "777" == "7" + "77" && "7up" == "7" + "up";
    CompareCommonPrefix("7", "77", "up");
    assert "77"[0] == '7' && "up"[0] == 'u';
    assert "7up"[0] == '7' && "b2"[0] == 'b';
    assert "10"[0] == '1' && "2"[0] == '2' && "999"[0] == '9';
  }

  // Sorting a few nodes whose pairwise comparisons are known.

  lemma InsertIntoOne(x: PollNode, p: PollNode, f: Field, desc: bool)
    requires HasKey(x, f) && HasKey(p, f)
    ensures Insert(x, [p], f, desc) == if Cmp(x, p, f, desc) <= 0 then [x, p] else [p, x]
  {
    if Cmp(x, p, f, desc) > 0 {
      InsertPastHead(x, p, [], f, desc);
      assert [p] + [] == [p];
    }
  }

  lemma InsertIntoTwo(x: PollNode, p: PollNode, q: PollNode, f: Field, desc: bool)
    requires HasKey(x, f) && HasKey(p, f) && HasKey(q, f)
    ensures Insert(x, [p, q], f, desc)
         == if Cmp(x, p, f, desc) <= 0 then [x, p, q]
            else if Cmp(x, q, f, desc) <= 0 then [p, x, q]
            else [p, q, x]
  {
    if Cmp(x, p, f, desc) > 0 {
      InsertPastHead(x, p, [q], f, desc);
      InsertIntoOne(x, q, f, desc);
      assert [p] + [q] == [p, q];
    }
  }

  lemma InsertIntoThree(x: PollNode, p: PollNode, q: PollNode, r: PollNode, f: Field, desc: bool)
    requires HasKey(x, f) && HasKey(p, f) && HasKey(q, f) && HasKey(r, f)
    ensures Insert(x, [p, q, r], f, desc)
         == if Cmp(x, p, f, desc) <= 0 then [x, p, q, r]
            else if Cmp(x, q, f, desc) <= 0 then [p, x, q, r]
            else if Cmp(x, r, f, desc) <= 0 then [p, q, x, r]
            else [p, q, r, x]
  {
    if Cmp(x, p, f, desc) > 0 {
      InsertPastHead(x, p, [q, r], f, desc);
      InsertIntoTwo(x, q, r, f, desc);
      assert [p] + [q, r] == [p, q, r];
    }
  }

  lemma SortOfTwo(a: PollNode, b: PollNode, f: Field, desc: bool)
    requires HasKey(a, f) && HasKey(b, f)
    ensures Keyed([a, b], f)
    ensures Sort([a, b], f, desc) == Insert(a, [b], f, desc)
  {
    SortCons(b, [], f, desc);
    SortCons(a, [b], f, desc);
    assert [b] + [] == [b] && [a] + [b] == [a, b];
  }

  lemma SortOfThree(a: PollNode, b: PollNode, c: PollNode, f: Field, desc: bool)
    requires HasKey(a, f) && HasKey(b, f) && HasKey(c, f)
    ensures Keyed([a, b, c], f)
    ensures Sort([a, b, c], f, desc) == Insert(a, Sort([b, c], f, desc), f, desc)
  {
    SortCons(a, [b, c], f, desc);
    assert [a] + [b, c] == [a, b, c];
  }

  lemma SortOfFour(a: PollNode, b: PollNode, c: PollNode, d: PollNode, f: Field, desc: bool)
    requires HasKey(a, f) && HasKey(b, f) && HasKey(c, f) && HasKey(d, f)
    ensures Keyed([a, b, c, d], f)
    ensures Sort([a, b, c, d], f, desc) == Insert(a, Sort([b, c, d], f, desc), f, desc)
  {
    SortCons(a, [b, c, d], f, desc);
    assert [a] + [b, c, d] == [a, b, c, d];
  }

  /** Sorting by id puts "777" first and "b2" last, unlike the repository's order. */
  lemma SortByIdExample()
    ensures var s := [Node("b2", "titleOne"), Node("7up", "titleTwo"), Node("777", "titleThree")];
      Keyed(s, Id)
      && Sort(s, Id, false) == [Node("777", "titleThree"), Node("7up", "titleTwo"), Node("b2", "titleOne")]
      && Sort(s, Id, false) != s
  {
    var a, b, c := Node("b2", "titleOne"), Node("7up", "titleTwo"), Node("777", "titleThree");
    var f, desc := Id, false;
    assert Cmp(b, c, f, desc) > 0 && Cmp(a, c, f, desc) > 0 && Cmp(a, b, f, desc) > 0 by {
      StringOrderNotNumeric();
      CompareAntisymmetric("7up", "b2");
      CompareAntisymmetric("777", "7up");
      assert "b2"[0] == 'b' && "777"[0] == '7';
    }
    SortOfThree(a, b, c, f, desc);
    SortOfTwo(b, c, f, desc);
    InsertIntoOne(b, c, f, desc);
    InsertIntoTwo(a, c, b, f, desc);
  }

  /** "titleOne" < "titleThree" < "titleTwo": the titles differ after the common "title". */
  lemma TitleOrder()
    ensures Compare("titleOne", "titleThree") < 0 && Compare("titleTwo", "titleThree") > 0
  {
    TitleOneBeforeThree();
    TitleTwoAfterThree();
  }

  lemma TitleOneBeforeThree()
    ensures Compare("titleOne", "titleThree") < 0
  {
    assert "titleOne" == "title" + "One" && "titleThree" == "title" + "Three";
    CompareCommonPrefix("title", "One", "Three");
    assert "One"[0] == 'O' && "Three"[0] == 'T';
  }

  lemma TitleTwoAfterThree()
    ensures Compare("titleTwo", "titleThree") > 0
  {
    assert "titleTwo" == "titleT" + "wo" && "titleThree" == "titleT" + "hree";
    CompareCommonPrefix("titleT", "wo", "hree");
    assert "wo"[0] == 'w' && "hree"[0] == 'h';
  }

  /** Sorting by title orders "titleOne" < "titleThree" < "titleTwo". */
  lemma SortByTitleExample()
    ensures var s := [Node("b1", "titleOne"), Node("10", "titleTwo"), Node("999", "titleThree")];
      Sort(s, Title, false) == [Node("b1", "titleOne"), Node("999", "titleThree"), Node("10", "titleTwo")]
      && Sort(s, Title, false) != s
  {
    var a, b, c := Node("b1", "titleOne"), Node("10", "titleTwo"), Node("999", "titleThree");
    var f, desc := Title, false;
    TitleOrder();
    assert Cmp(b, c, f, desc) > 0 && Cmp(a, c, f, desc) <= 0;
    SortOfThree(a, b, c, f, desc);
    SortOfTwo(b, c, f, desc);
    InsertIntoOne(b, c, f, desc);
    InsertIntoTwo(a, c, b, f, desc);
  }

  /** The four nodes of the limit/offset test: id:title 3:a, 1:c, 4:b, 2:d. */
  function PagedNodes(): seq<PollNode>
  {
    [Node("3", "a"), Node("1", "c"), Node("4", "b"), Node("2", "d")]
  }

  lemma SingleCharacters()
    ensures Compare("a", "b") < 0 && Compare("b", "c") < 0 && Compare("c", "d") < 0
    ensures Compare("1", "2") < 0 && Compare("2", "3") < 0 && Compare("3", "4") < 0
    ensures Compare("b", "a") > 0 && Compare("c", "b") > 0 && Compare("d", "c") > 0
    ensures Compare("2", "1") > 0 && Compare("3", "2") > 0 && Compare("4", "3") > 0
    ensures Compare("a", "c") < 0 && Compare("b", "d") < 0 && Compare("a", "d") < 0
    ensures Compare("1", "3") < 0 && Compare("2", "4") < 0 && Compare("1", "4") < 0
    ensures Compare("c", "a") > 0 && Compare("d", "b") > 0 && Compare("d", "a") > 0
    ensures Compare("3", "1") > 0 && Compare("4", "2") > 0 && Compare("4", "1") > 0
  {
    assert "a"[0] == 'a' && "b"[0] == 'b' && "c"[0] == 'c' && "d"[0] == 'd';
    assert "1"[0] == '1' && "2"[0] == '2' && "3"[0] == '3' && "4"[0] == '4';
  }

  lemma SortPagedByTitle()
    ensures Keyed(PagedNodes(), Title)
    ensures Sort(PagedNodes(), Title, false) == [Node("3", "a"), Node("4", "b"), Node("1", "c"), Node("2", "d")]
  {
    var n3, n1, n4, n2 := Node("3", "a"), Node("1", "c"), Node("4", "b"), Node("2", "d");
    var f, desc := Title, false;
    SingleCharacters();
    SortOfFour(n3, n1, n4, n2, f, desc);
    SortOfThree(n1, n4, n2, f, desc);
    SortOfTwo(n4, n2, f, desc);
    InsertIntoOne(n4, n2, f, desc);
    InsertIntoTwo(n1, n4, n2, f, desc);
    InsertIntoThree(n3, n4, n1, n2, f, desc);
  }

  lemma SortPagedByTitleDescending()
    ensures Keyed(PagedNodes(), Title)
    ensures Sort(PagedNodes(), Title, true) == [Node("2", "d"), Node("1", "c"), Node("4", "b"), Node("3", "a")]
  {
    var n3, n1, n4, n2 := Node("3", "a"), Node("1", "c"), Node("4", "b"), Node("2", "d");
    var f, desc := Title, true;
    SingleCharacters();
    SortOfFour(n3, n1, n4, n2, f, desc);
    SortOfThree(n1, n4, n2, f, desc);
    SortOfTwo(n4, n2, f, desc);
    InsertIntoOne(n4, n2, f, desc);
    InsertIntoTwo(n1, n2, n4, f, desc);
    InsertIntoThree(n3, n2, n1, n4, f, desc);
  }

  lemma SortPagedById()
    ensures Keyed(PagedNodes(), Id)
    ensures Sort(PagedNodes(), Id, false) == [Node("1", "c"), Node("2", "d"), Node("3", "a"), Node("4", "b")]
  {
    var n3, n1, n4, n2 := Node("3", "a"), Node("1", "c"), Node("4", "b"), Node("2", "d");
    var f, desc := Id, false;
    SingleCharacters();
    SortOfFour(n3, n1, n4, n2, f, desc);
    SortOfThree(n1, n4, n2, f, desc);
    SortOfTwo(n4, n2, f, desc);
    InsertIntoOne(n4, n2, f, desc);
    InsertIntoTwo(n1, n2, n4, f, desc);
    InsertIntoThree(n3, n1, n2, n4, f, desc);
  }

  lemma SortPagedByIdDescending()
    ensures Keyed(PagedNodes(), Id)
    ensures Sort(PagedNodes(), Id, true) == [Node("4", "b"), Node("3", "a"), Node("2", "d"), Node("1", "c")]
  {
    var n3, n1, n4, n2 := Node("3", "a"), Node("1", "c"), Node("4", "b"), Node("2", "d");
    var f, desc := Id, true;
    SingleCharacters();
    SortOfFour(n3, n1, n4, n2, f, desc);
    SortOfThree(n1, n4, n2, f, desc);
    SortOfTwo(n4, n2, f, desc);
    InsertIntoOne(n4, n2, f, desc);
    InsertIntoTwo(n1, n4, n2, f, desc);
    InsertIntoThree(n3, n4, n2, n1, f, desc);
  }

  /**
   * The limit/offset test's five calls: limit is applied before skip, so
   * findAll(2, 1, "title", false) keeps only the "b" node and
   * findAll(1, 2, "id", false) is empty.
   */
  lemma LimitThenSkipByTitle()
    ensures Keyed(PagedNodes(), Title)
    ensures Listing(PagedNodes(), 2, 1, Title, false) == [Node("4", "b")]
    ensures Listing(PagedNodes(), 3, 0, Title, true) == [Node("2", "d"), Node("1", "c"), Node("4", "b")]
  {
    SortPagedByTitle();
    SortPagedByTitleDescending();
  }

  lemma LimitThenSkipById()
    ensures Keyed(PagedNodes(), Id)
    ensures Listing(PagedNodes(), 1, 2, Id, false) == []
    ensures Listing(PagedNodes(), 2, 1, Id, false) == [Node("2", "d")]
  {
    SortPagedById();
  }

  lemma LimitThenSkipByIdDescending()
    ensures Keyed(PagedNodes(), Id)
    ensures Listing(PagedNodes(), 2, 1, Id, true) == [Node("3", "a")]
  {
    SortPagedByIdDescending();
  }

  /**
   * A session against an empty repository: a node is created, a second
   * create with its id is refused, an update without an id and a delete of
   * an unknown id are refused, and the node is found again.
   */
  method CreateFindDeleteSession() returns (created: Result<PollNode>, again: Result<PollNode>,
                                  nullUpdate: Result<PollNode>, missingDelete: Outcome,
                                  found: Result<PollNode>)
    ensures created == Ok(Node("1", "title"))
    ensures again == Err(AlreadyExists("PollNode already exists"))
    ensures nullUpdate == Err(IllegalArgument("The parameter is null"))
    ensures missingDelete == Fail(NotFound("PollNode by id 0 is not found"))
    ensures found == Ok(Node("1", "title"))
  {
    var repository := new PollNodeRepository();
    var service := new PollNodeService(repository);
    var node := Node("1", "title");
    created := service.Create(node, "generated");
    again := service.Create(node, "generated");
    nullUpdate := service.Update(PollNode(None, "title"));
    missingDelete := service.DeleteById("0");
    found := service.FindById("1");
    assert NotFoundMessage("0") == "PollNode by id 0 is not found";
  }
}
