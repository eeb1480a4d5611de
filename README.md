# PollNode service — a Dafny model

This project models the PollNode entity service of the post API. The
behaviour comes from what the service's tests assert.

The service runs against a repository of poll nodes keyed by id. It offers:

- `create`, `update`, `findById` and `deleteById`, each guarded by an
  existence check with a typed failure (AlreadyExists, IllegalArgument,
  NotFound) and a fixed message;
- `findAll()`, which returns the repository's listing unchanged;
- the sorted listings `findAllAndSortByTitle`, `findAllAndSortById`,
  `findAllBySortType`, `findAllByTypeAndDesc`, and
  `findAll(limit, offset, field, desc)`.

The sorted listings are a stream pipeline: a stable sort by the title or id
string, with the comparator reversed when descending, then `limit`, **then**
`skip`.

Layout:

- `domain.dfy` (module `Domain`): the `PollNode` value (an optional id and a
  title), the failure kinds, `Result`/`Outcome`, and the three messages.
- `string_order.dfy` (module `StringOrder`): `Compare`, Java's
  `String.compareTo`, written out character by character. It is proved
  against an independent definition of lexicographic order (`LexLess`), and
  proved antisymmetric, transitive and zero only on equal strings. Dafny's own
  `<` on sequences is the proper-prefix relation, so it is not used.
- `ordering.dfy` (module `Ordering`): the pure listing pipeline.
  - `Sort` is a stable insertion sort by the comparator
    `Comparator.comparing(key)`, or its reversal.
  - Lemmas prove that `Sort` is a permutation, is ordered and is stable.
  - With distinct keys, the descending sort is the ascending sort reversed.
  - `Limit`, `Skip`, `Page` and `Listing` model limit-then-skip.
- `repository.dfy` (module `Storage`): class `PollNodeRepository`. It holds a
  `map` from id to node and the `seq` of ids in listing order. `Save`
  replaces in place or appends; `DeleteById` removes in place. Lemmas tie
  each change to the listing `FindAll()`.
- `service.dfy` (module `Service`): class `PollNodeService` over a repository.
  - The mutating methods state the full new repository state and the failure
    cases.
  - The read-only methods state what the listing they return means.
- `scenarios.dfy` (module `Scenarios`): the tests' concrete data replayed on
  the model, and one session against a fresh repository.

Two modelling choices follow the tests' expected values:

- Pagination is limit-then-skip
  (`PollNodeServiceRealizationTest.java:208-235`).
  `findAll(limit, offset, …)` therefore yields the sorted positions
  `offset … limit-1`, and nothing when `offset >= limit`.
- Descending order is the stable sort under the reversed comparator
  (`.reversed()`, lines 185, 215, 232). Reversing the ascending sort gives
  the same result whenever keys are distinct, and that is proved. Ids in a
  repository are always distinct, so for the id field the two always agree.

## Model

| member | source | states |
|---|---|---|
| Domain.NotFoundMessage | src/test/java/com/reckue/post/services/realizations/PollNodeServiceRealizationTest.java:82 | the NotFound message is "PollNode by id ", then the id, then " is not found" |
| Domain.NotFoundMessageInjective | src/test/java/com/reckue/post/services/realizations/PollNodeServiceRealizationTest.java:98 | the NotFound message identifies the missing id: different ids give different messages |
| StringOrder.CompareNegativeIffLexLess | src/test/java/com/reckue/post/services/realizations/PollNodeServiceRealizationTest.java:138-140 | compareTo is negative exactly when the first string is a proper prefix of the second or has the smaller character at the first difference |
| StringOrder.Compare | src/test/java/com/reckue/post/services/realizations/PollNodeServiceRealizationTest.java:138-140 | String.compareTo: zero exactly on equal strings; its sign is the lexicographic order, as StringOrder.CompareNegativeIffLexLess proves |
| StringOrder.CompareAntisymmetric | src/test/java/com/reckue/post/services/realizations/PollNodeServiceRealizationTest.java:138-140 | swapping the strings negates compareTo |
| StringOrder.CompareTransitive | src/test/java/com/reckue/post/services/realizations/PollNodeServiceRealizationTest.java:138-140 | "not after" under compareTo is transitive, so it is a total preorder that a sort can use |
| StringOrder.CompareCommonPrefix | src/test/java/com/reckue/post/services/realizations/PollNodeServiceRealizationTest.java:121-123 | a common prefix does not change compareTo |
| Ordering.Cmp | src/test/java/com/reckue/post/services/realizations/PollNodeServiceRealizationTest.java:184-190 | Comparator.comparing(key), or its reversed(): zero exactly on equal keys, and the reversed comparator is the ascending one negated |
| Ordering.Insert | src/test/java/com/reckue/post/services/realizations/PollNodeServiceRealizationTest.java:121-123 | one step of the stable sort: one node longer than its input, every node keyed, headed by the new node or by the input's head |
| Ordering.Sort | src/test/java/com/reckue/post/services/realizations/PollNodeServiceRealizationTest.java:121-123 | sorted(comparator): as long as its input, every node keyed; the lemmas below prove it a stable, ordered permutation |
| Ordering.ParseField | src/test/java/com/reckue/post/services/realizations/PollNodeServiceRealizationTest.java:163-164 | a name resolves to a field exactly when it is that field's name ("title" or "id") |
| Ordering.ParseFieldName | src/test/java/com/reckue/post/services/realizations/PollNodeServiceRealizationTest.java:163-164 | "title" and "id" resolve to Title and Id |
| Ordering.InsertPermutation | src/test/java/com/reckue/post/services/realizations/PollNodeServiceRealizationTest.java:121-123 | one insertion step adds the node and loses none |
| Ordering.SortPermutation | src/test/java/com/reckue/post/services/realizations/PollNodeServiceRealizationTest.java:121-123 | the sorted listing holds exactly the input's nodes, with multiplicity |
| Ordering.SortOrdered | src/test/java/com/reckue/post/services/realizations/PollNodeServiceRealizationTest.java:121-123 | no node of the sorted listing comes after a later one under the comparator (reversed when descending) |
| Ordering.SortStable | src/test/java/com/reckue/post/services/realizations/PollNodeServiceRealizationTest.java:121-123 | for every key, the nodes with that key keep their input order in the sorted listing |
| Ordering.OrderedUnique | src/test/java/com/reckue/post/services/realizations/PollNodeServiceRealizationTest.java:184-190 | with distinct keys, two ordered sequences over the same nodes are equal |
| Ordering.SortDistinctKeys | src/test/java/com/reckue/post/services/realizations/PollNodeServiceRealizationTest.java:184-190 | sorting keeps keys distinct |
| Ordering.SortDescendingIsReversedAscending | src/test/java/com/reckue/post/services/realizations/PollNodeServiceRealizationTest.java:184-195 | with distinct keys, the sort under the reversed comparator is the ascending sort reversed |
| Ordering.Limit | src/test/java/com/reckue/post/services/realizations/PollNodeServiceRealizationTest.java:210 | limit(n) keeps the first min(n, length) nodes, unchanged |
| Ordering.Skip | src/test/java/com/reckue/post/services/realizations/PollNodeServiceRealizationTest.java:211 | skip(n) keeps the nodes after the first n, or none |
| Ordering.Page | src/test/java/com/reckue/post/services/realizations/PollNodeServiceRealizationTest.java:208-212 | limit then skip: length max(0, min(limit, n) - offset), element i is input element offset + i, empty when offset >= limit |
| Ordering.Listing | src/test/java/com/reckue/post/services/realizations/PollNodeServiceRealizationTest.java:198-242 | the pipeline's result has that length and holds the sorted positions offset … limit-1 |
| Storage.Snapshot | src/test/java/com/reckue/post/services/realizations/PollNodeServiceRealizationTest.java:106-108 | the findAll list: one node per listed id, node i being the one stored under id i |
| Storage.WithoutId | src/test/java/com/reckue/post/services/realizations/PollNodeServiceRealizationTest.java:255 | the list with the node of that id removed: a node remains exactly when it was there and has another id |
| Storage.SnapshotOfStore | src/test/java/com/reckue/post/services/realizations/PollNodeServiceRealizationTest.java:106-108 | the listing holds every stored node once, each under its own id |
| Storage.SnapshotRemove | src/test/java/com/reckue/post/services/realizations/PollNodeServiceRealizationTest.java:250-257 | deleting an id from the store removes exactly the node with that id from the listing |
| Storage.SnapshotAppend | src/test/java/com/reckue/post/services/realizations/PollNodeServiceRealizationTest.java:43 | saving under a new id appends the node to the listing |
| Storage.SnapshotReplace | src/test/java/com/reckue/post/services/realizations/PollNodeServiceRealizationTest.java:63 | saving under a stored id replaces that node where it stands |
| Storage.RemoveIdDistinct | src/test/java/com/reckue/post/services/realizations/PollNodeServiceRealizationTest.java:254-257 | removing an id keeps the id order free of duplicates |
| Storage.PollNodeRepository.FindAll | src/test/java/com/reckue/post/services/realizations/PollNodeServiceRealizationTest.java:108 | findAll lists every stored node once, ids distinct, each node stored under its own id |
| Storage.PollNodeRepository.Save | src/test/java/com/reckue/post/services/realizations/PollNodeServiceRealizationTest.java:43 | save returns the node, stores it under its id, and replaces it in place in the listing or appends it |
| Storage.PollNodeRepository.DeleteById | src/test/java/com/reckue/post/services/realizations/PollNodeServiceRealizationTest.java:254-257 | deleteById removes the id from the store and that node from the listing, keeping the rest in order |
| Service.PollNodeService.Create | src/test/java/com/reckue/post/services/realizations/PollNodeServiceRealizationTest.java:39-56 | a stored id gives AlreadyExists "PollNode already exists" with nothing saved; otherwise the node (under the fresh generated id when it has none) is returned, stored, and appended to the listing |
| Service.PollNodeService.Update | src/test/java/com/reckue/post/services/realizations/PollNodeServiceRealizationTest.java:58-83 | no id gives IllegalArgument "The parameter is null"; an unstored id gives NotFound naming it; neither writes; otherwise the node replaces the stored one and is returned |
| Service.PollNodeService.FindById | src/test/java/com/reckue/post/services/realizations/PollNodeServiceRealizationTest.java:85-99 | Ok with the stored node exactly when the id is stored, otherwise NotFound naming the id |
| Service.PollNodeService.FindAll | src/test/java/com/reckue/post/services/realizations/PollNodeServiceRealizationTest.java:101-110 | the repository's listing, unchanged, holding every stored node |
| Service.PollNodeService.FindAllAndSortByTitle | src/test/java/com/reckue/post/services/realizations/PollNodeServiceRealizationTest.java:112-127 | a permutation of findAll(), ordered by title under compareTo, equal titles in findAll() order |
| Service.PollNodeService.FindAllAndSortById | src/test/java/com/reckue/post/services/realizations/PollNodeServiceRealizationTest.java:129-144 | a permutation of findAll(), ordered by id under compareTo |
| Service.PollNodeService.FindAllBySortType | src/test/java/com/reckue/post/services/realizations/PollNodeServiceRealizationTest.java:146-165 | the ascending sort by the chosen field: a permutation of findAll(), ordered |
| Service.PollNodeService.FindAllByTypeAndDesc | src/test/java/com/reckue/post/services/realizations/PollNodeServiceRealizationTest.java:167-196 | the sort by the field, descending when asked; for ids, and for distinct titles, the descending result is the ascending one reversed |
| Service.PollNodeService.FindAllWithLimitOffset | src/test/java/com/reckue/post/services/realizations/PollNodeServiceRealizationTest.java:198-242 | the sorted positions offset … limit-1, of length max(0, min(limit, n) - offset), empty when offset >= limit |
| Service.PollNodeService.DeleteById | src/test/java/com/reckue/post/services/realizations/PollNodeServiceRealizationTest.java:263-270 | an unstored id gives NotFound naming it and nothing changes; otherwise that node leaves the store and the listing |
| Scenarios.StringOrderNotNumeric | src/test/java/com/reckue/post/services/realizations/PollNodeServiceRealizationTest.java:131-133 | "777" < "7up" < "b2" and "10" < "2" < "999": string order, not numeric order |
| Scenarios.SortByIdExample | src/test/java/com/reckue/post/services/realizations/PollNodeServiceRealizationTest.java:129-144 | the id sort of b2, 7up, 777 is 777, 7up, b2, which differs from the input |
| Scenarios.SortByTitleExample | src/test/java/com/reckue/post/services/realizations/PollNodeServiceRealizationTest.java:112-127 | the title sort is titleOne, titleThree, titleTwo, which differs from the input |
| Scenarios.LimitThenSkipByTitle | src/test/java/com/reckue/post/services/realizations/PollNodeServiceRealizationTest.java:237-238 | findAll(2,1,"title",false) is the "b" node; findAll(3,0,"title",true) is d, c, b |
| Scenarios.LimitThenSkipById | src/test/java/com/reckue/post/services/realizations/PollNodeServiceRealizationTest.java:239-240 | findAll(1,2,"id",false) is empty; findAll(2,1,"id",false) is node "2" |
| Scenarios.LimitThenSkipByIdDescending | src/test/java/com/reckue/post/services/realizations/PollNodeServiceRealizationTest.java:241 | findAll(2,1,"id",true) is node "3" |
| Scenarios.CreateFindDeleteSession | src/test/java/com/reckue/post/services/realizations/PollNodeServiceRealizationTest.java:48-56 | on a fresh repository: create succeeds, a second create gives AlreadyExists, an update without an id gives IllegalArgument, deleting "0" gives NotFound, findById finds the node |

## Left out

- The service implementation file is not part of this model. Its
  behaviour is taken from the tests' assertions.
- Service.PollNodeService.Create: a node without an id is saved under the
  caller-supplied `generatedId`, which the contract requires to be unstored.
  This stands in for a fresh id from the id generator. The tests never take
  this path. Existence is checked only when the node carries an id.
- Id generation (`Generator.id()`), the persistence framework's timestamps,
  and MongoDB itself are left out. The repository is an in-memory map plus
  an id order. A MongoDB `findAll` order is not guaranteed; the model lists
  nodes in first-save order.
- Sort-field names other than "title" and "id" are not modelled, because the
  tests never use them. The service methods take a `Field`, and
  `ParseField` maps the two names onto it.
- Null titles are not modelled: a title is always a string. Sorting a null
  title throws in Java. A null id is modelled (`Option`), because `update`
  handles it.
- `Compare` compares Dafny characters, which are Unicode scalar values.
  Java compares UTF-16 code units. The two orders agree on strings without
  supplementary-plane characters and can differ with them.
- Service.PollNodeService.Update: only a null id is refused, which is what
  the test asserts. Blank ids are not refused.
- Service.PollNodeService.FindAllWithLimitOffset: `limit` and `offset` are
  natural numbers. Negative values, which Java's `limit` refuses with an
  exception, and null arguments are not modelled.
- Service.PollNodeService.FindAllByTypeAndDesc: under descending order,
  nodes with equal titles keep their input order, because the model is the
  stable sort under the reversed comparator that the test's expected values
  compute. The tests never exercise ties. An implementation that instead
  reverses the ascending sort would list tied nodes in the opposite order.
  The two agree whenever keys are distinct, which is proved, and ids are
  always distinct.
- Check-then-act races between the existence check and the write are not
  modelled. Each call runs alone.
- The happy-path `deleteById` test (lines 244-261) calls the repository
  directly, not the service. Only the repository's `DeleteById` reflects it.
- The `Comment` and `Node` records, `Comment.clone`, and the two unused
  exception classes are left out. Those classes' own message formats are
  not the messages the service's tests expect, so they are not used.
