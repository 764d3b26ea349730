/**
 * The generic search/CRUD engine shared by every entity repository: criteria validation,
 * filtering through the entity's query hook, counting, sort-key resolution (including
 * comma-separated lists), paging, lookup by id, create/update/delete over an in-memory
 * table, and resolution of child-entity references against the stored records.
 *
 * The storage provider is a table of records (`Repository.rows`) and a counter of
 * `SaveChanges` commits. The per-entity overrides are bundled in a `Hooks` value.
 */
module GenericRepository {
  import opened Wrappers
  import opened Queries
  import opened Ordering
  import opened Text

  /** The identifier passed as `object id`: a numeric key or a string key. */
  datatype Id = IntId(n: int) | StrId(s: string)

  /** `id.ToString()`. */
  function IdText(id: Id): (t: string)
    ensures id.StrId? ==> t == id.s
    ensures id.IntId? ==> t == IntToString(id.n)
  {
    match id
    case IntId(n) => IntToString(n)
    case StrId(s) => s
  }

  /**
   * The per-entity overrides of the engine's virtual members.
   * - `idOf`: the entity's `Id` property;
   * - `matchesId`: the test `GetById` applies to find a record by id;
   * - `constructQueryConditions`: the filter the criteria's own fields impose;
   * - `resolveSortBy`: the adjustment of `SortBy` before sorting;
   * - `addSortingCondition`: the ordering one sort field stands for, given the criteria's
   *   filter fields, the field and the `SortType`; it fails for a field the entity cannot sort by;
   * - `updateEntityFields`: the stored record after the incoming record's values are copied onto it.
   */
  datatype Hooks<!T, !F> = Hooks(
    idOf: T -> Id,
    matchesId: (T, Id) -> bool,
    constructQueryConditions: (seq<T>, F) -> seq<T>,
    resolveSortBy: Option<string> -> Option<string>,
    addSortingCondition: (F, Option<string>, SortType) -> Result<Ordering<T>>,
    updateEntityFields: (T, T) -> T
  )

  /** The default `GetById` test: `Equals(e.Id, id)`. */
  predicate BaseMatchesId<T>(idOf: T -> Id, e: T, id: Id)
  {
    idOf(e) == id
  }

  /** The default `ResolveSortBy`: a null SortBy sorts by "Id"; any other value is kept. */
  function BaseResolveSortBy(sortBy: Option<string>): (r: Option<string>)
    ensures sortBy.None? ==> r == Some("Id")
    ensures sortBy.Some? ==> r == sortBy
    ensures r.Some?
  {
    if sortBy.None? then Some("Id") else sortBy
  }

  /**
   * The default `AddSortingCondition`: `OrderBy(SortBy)` when the SortType is ascending and
   * `OrderByDescending(SortBy)` otherwise, where `fieldKey` maps a property name to its key.
   * The string `OrderBy` helper is taken to name a property by its exact name with white
   * space around it trimmed, so " Id" names Id.
   * A null name and a name the entity does not have both fail.
   */
  function BaseAddSortingCondition<T>(fieldKey: string -> Option<T -> Key>, sortBy: Option<string>, dir: SortType)
    : (r: Result<Ordering<T>>)
    ensures sortBy.None? ==> r == Err(ArgumentNull)
    ensures sortBy.Some? && fieldKey(Trim(sortBy.value)).None? ==> r == Err(UnknownSortField)
    ensures r.Ok? ==> sortBy.Some? && fieldKey(Trim(sortBy.value)) == Some(r.value.key) && r.value.dir == dir
  {
    match sortBy
    case None => Err(ArgumentNull)
    case Some(field) =>
      match fieldKey(Trim(field))
      case None => Err(UnknownSortField)
      case Some(key) => Ok(Ordering(key, dir))
  }

  /** `SearchResult<T>`: the number of matches ignoring paging, and the page of items. */
  datatype SearchResult<T> = SearchResult(totalCount: nat, items: seq<T>)

  /** An entity as returned by a lookup, with whether its navigation properties were loaded. */
  datatype Loaded<T> = Loaded(entity: T, hydrated: bool)

  /**
   * `Util.CheckSearchCriteria` for non-null criteria: a negative page index, or a positive page
   * index with a non-positive page size, is an invalid argument.
   */
  function CheckSearchCriteria(pageIndex: int, pageSize: int): (r: Outcome)
    ensures r.Failed? <==> pageIndex < 0 || (pageIndex > 0 && pageSize <= 0)
    ensures r.Failed? ==> r.error == InvalidArgument
  {
    if pageIndex < 0 || (pageIndex > 0 && pageSize <= 0) then Failed(InvalidArgument) else Done
  }

  /**
   * The page selected by `Skip(PageSize * (PageIndex - 1)).Take(PageSize)`, the product
   * taken without overflow.
   */
  function Page<T>(s: seq<T>, pageIndex: int, pageSize: int): (r: seq<T>)
    requires pageIndex > 0 && pageSize > 0
    ensures |r| <= pageSize
    ensures var lo := pageSize * (pageIndex - 1);
      r == if lo >= |s| then [] else s[lo..if lo + pageSize <= |s| then lo + pageSize else |s|]
  {
    var skip := pageSize * (pageIndex - 1);
    assert skip >= 0 by { assert pageIndex - 1 >= 0; }
    Take(Skip(s, skip), pageSize)
  }

  /** Two's-complement wrap-around of an integer to 32 bits, as C# `int` arithmetic does. */
  function Wrap32(x: int): (r: int)
    ensures Int32Min <= r <= Int32Max
    ensures Int32Min <= x <= Int32Max ==> r == x
  {
    (x - Int32Min) % 0x1_0000_0000 + Int32Min
  }

  /**
   * The page as the source computes it: the skip count `PageSize * (PageIndex - 1)` is a
   * 32-bit `int` product and wraps around on overflow.
   */
  function PageAsWritten<T>(s: seq<T>, pageIndex: int, pageSize: int): seq<T>
    requires Int32Min <= pageIndex <= Int32Max && Int32Min <= pageSize <= Int32Max
  {
    Take(Skip(s, Wrap32(pageSize * (pageIndex - 1))), pageSize)
  }

  /**
   * Page 65537 of size 65536 on a one-record result: the wrapped skip count is 0, so the
   * source returns the first record, while the page starts at offset 2^32 and is empty.
   */
  lemma PageOverflowCounterexample<T>(x: T)
    ensures PageAsWritten([x], 65537, 65536) == [x]
    ensures Page([x], 65537, 65536) == []
  {
    assert 65536 * (65537 - 1) == 0x1_0000_0000;
    assert Wrap32(0x1_0000_0000) == 0;
  }

  /** Wherever the product fits in 32 bits, the source's page is the intended page. */
  lemma PageAsWrittenAgrees<T>(s: seq<T>, pageIndex: int, pageSize: int)
    requires 0 < pageIndex <= Int32Max && 0 < pageSize <= Int32Max
    requires pageSize * (pageIndex - 1) <= Int32Max
    ensures PageAsWritten(s, pageIndex, pageSize) == Page(s, pageIndex, pageSize)
  {
    assert pageSize * (pageIndex - 1) >= 0 by { assert pageIndex - 1 >= 0; }
  }

  /**
   * The sort fields `Search` applies: a SortBy containing "," is split into its fields, each
   * applied in turn; any other value (null included) is applied once as it is.
   */
  function SortFields(sortBy: Option<string>): (fields: seq<Option<string>>)
    ensures |fields| >= 1
    ensures sortBy.Some? && ',' in sortBy.value ==>
      |fields| == |Split(sortBy.value, ',')| &&
      forall i :: 0 <= i < |fields| ==> fields[i] == Some(Split(sortBy.value, ',')[i])
    ensures !(sortBy.Some? && ',' in sortBy.value) ==> fields == [sortBy]
  {
    if sortBy.Some? && ',' in sortBy.value then
      var parts := Split(sortBy.value, ',');
      seq(|parts|, i requires 0 <= i < |parts| => Some(parts[i]))
    else [sortBy]
  }

  /**
   * The orderings the sort fields stand for, in the order they are applied; the first field
   * whose ordering fails decides the error.
   */
  function ResolveOrderings<T, F>(hooks: Hooks<T, F>, filter: F, dir: SortType, fields: seq<Option<string>>)
    : (r: Result<seq<Ordering<T>>>)
    ensures r.Ok? ==>
      |r.value| == |fields| &&
      forall i :: 0 <= i < |fields| ==> hooks.addSortingCondition(filter, fields[i], dir) == Ok(r.value[i])
  {
    if fields == [] then Ok([])
    else
      var n := |fields| - 1;
      match ResolveOrderings(hooks, filter, dir, fields[..n])
      case Err(e) => Err(e)
      case Ok(os) =>
        match hooks.addSortingCondition(filter, fields[n], dir)
        case Err(e) => Err(e)
        case Ok(o) => Ok(os + [o])
  }

  /** Once an ordering fails, fields applied after it do not change the error. */
  lemma {:induction false} ResolveOrderingsErrPersists<T, F>(hooks: Hooks<T, F>, filter: F, dir: SortType,
                                                            fields: seq<Option<string>>, more: seq<Option<string>>)
    requires ResolveOrderings(hooks, filter, dir, fields).Err?
    ensures ResolveOrderings(hooks, filter, dir, fields + more) == ResolveOrderings(hooks, filter, dir, fields)
    decreases |more|
  {
    if more != [] {
      var m := |more| - 1;
      ResolveOrderingsErrPersists(hooks, filter, dir, fields, more[..m]);
      var all := fields + more;
      assert all[..|all| - 1] == fields + more[..m];
      assert ResolveOrderings(hooks, filter, dir, all[..|all| - 1]).Err?;
    } else {
      assert fields + more == fields;
    }
  }

  /** Resolving one more field extends the orderings, or fails with that field's error. */
  lemma ResolveOrderingsStep<T, F>(hooks: Hooks<T, F>, filter: F, dir: SortType, fields: seq<Option<string>>,
                                  i: nat, os: seq<Ordering<T>>)
    requires i < |fields| && ResolveOrderings(hooks, filter, dir, fields[..i]) == Ok(os)
    ensures var o := hooks.addSortingCondition(filter, fields[i], dir);
      (o.Err? ==> ResolveOrderings(hooks, filter, dir, fields) == Err(o.error)) &&
      (o.Ok? ==> ResolveOrderings(hooks, filter, dir, fields[..i + 1]) == Ok(os + [o.value]))
  {
    var prefix := fields[..i + 1];
    assert prefix[..i] == fields[..i] && prefix[i] == fields[i];
    if hooks.addSortingCondition(filter, fields[i], dir).Err? {
      ResolveOrderingsErrPersists(hooks, filter, dir, prefix, fields[i + 1..]);
      assert prefix + fields[i + 1..] == fields;
    }
  }

  /** The position of the first sort field whose ordering fails. */
  function FirstFailure<T, F>(hooks: Hooks<T, F>, filter: F, dir: SortType, fields: seq<Option<string>>): (j: nat)
    requires ResolveOrderings(hooks, filter, dir, fields).Err?
    ensures j < |fields| && ResolveOrderings(hooks, filter, dir, fields[..j]).Ok?
    ensures hooks.addSortingCondition(filter, fields[j], dir).Err?
  {
    var n := |fields| - 1;
    if ResolveOrderings(hooks, filter, dir, fields[..n]).Err? then
      var j := FirstFailure(hooks, filter, dir, fields[..n]);
      assert fields[..n][..j] == fields[..j] && fields[..n][j] == fields[j];
      j
    else n
  }

  /** A field that fails after fields that all resolve is the first failure. */
  lemma FirstFailureAt<T, F>(hooks: Hooks<T, F>, filter: F, dir: SortType, fields: seq<Option<string>>, i: nat)
    requires i < |fields| && ResolveOrderings(hooks, filter, dir, fields[..i]).Ok?
    requires hooks.addSortingCondition(filter, fields[i], dir).Err?
    ensures ResolveOrderings(hooks, filter, dir, fields).Err? && FirstFailure(hooks, filter, dir, fields) == i
  {
    ResolveOrderingsStep(hooks, filter, dir, fields, i, ResolveOrderings(hooks, filter, dir, fields[..i]).value);
  }

  /** A failed resolution reports the error of one of the fields. */
  lemma {:induction false} ResolveOrderingsError<T, F>(hooks: Hooks<T, F>, filter: F, dir: SortType, fields: seq<Option<string>>)
    requires ResolveOrderings(hooks, filter, dir, fields).Err?
    ensures var e := ResolveOrderings(hooks, filter, dir, fields).error;
            exists i :: 0 <= i < |fields| && hooks.addSortingCondition(filter, fields[i], dir) == Err(e)
  {
    var n := |fields| - 1;
    var e := ResolveOrderings(hooks, filter, dir, fields).error;
    if ResolveOrderings(hooks, filter, dir, fields[..n]).Err? {
      ResolveOrderingsError(hooks, filter, dir, fields[..n]);
      var i :| 0 <= i < n && hooks.addSortingCondition(filter, fields[..n][i], dir) == Err(e);
      assert fields[..n][i] == fields[i];
    } else {
      assert hooks.addSortingCondition(filter, fields[n], dir) == Err(e);
    }
  }

  /** The orderings applied in turn: each one a fresh stable sort of the previous result. */
  function SortAll<T>(q: seq<T>, os: seq<Ordering<T>>): (r: seq<T>)
    ensures |r| == |q| && multiset(r) == multiset(q)
  {
    if os == [] then q else SortBy(SortAll(q, os[..|os| - 1]), os[|os| - 1])
  }

  /** Applying one more ordering sorts the previous result by it. */
  lemma SortAllStep<T>(q: seq<T>, os: seq<Ordering<T>>, o: Ordering<T>)
    ensures SortAll(q, os + [o]) == SortBy(SortAll(q, os), o)
  {
    assert (os + [o])[..|os|] == os;
  }

  /** A priority list in reverse: the last ordering applied has the highest priority. */
  function Reverse<T>(os: seq<Ordering<T>>): (r: seq<Ordering<T>>)
    ensures |r| == |os|
  {
    if os == [] then [] else [os[|os| - 1]] + Reverse(os[..|os| - 1])
  }

  /**
   * Applying orderings o1, ..., on in turn sorts by on first, ties broken by o(n-1), and so
   * on back to o1: the last field listed is the primary key.
   */
  lemma {:induction false} SortAllSorted<T>(q: seq<T>, os: seq<Ordering<T>>)
    ensures SortedBy(SortAll(q, os), Reverse(os))
  {
    if os != [] {
      var n := |os| - 1;
      SortAllSorted(q, os[..n]);
      SortByStable(SortAll(q, os[..n]), os[n], Reverse(os[..n]));
    }
  }

  /**
   * The records `Search` holds before paging: the stored records the filter keeps, sorted by
   * the orderings of the resolved sort fields applied in turn.
   */
  function SortedMatches<T, F>(hooks: Hooks<T, F>, rows: seq<T>, sortBy: Option<string>, sortType: SortType, filter: F)
    : (r: Result<seq<T>>)
    ensures r.Ok? ==> multiset(r.value) == multiset(hooks.constructQueryConditions(rows, filter))
  {
    var fields := SortFields(hooks.resolveSortBy(sortBy));
    match ResolveOrderings(hooks, filter, sortType, fields)
    case Err(e) => Err(e)
    case Ok(os) => Ok(SortAll(hooks.constructQueryConditions(rows, filter), os))
  }

  /**
   * What `Search` returns for non-null criteria with the given fields, `rows` being the
   * stored records. `GetCount` counts the same filtered records.
   */
  function SearchSpec<T, F>(hooks: Hooks<T, F>, rows: seq<T>, pageIndex: int, pageSize: int,
                            sortBy: Option<string>, sortType: SortType, filter: F): Result<SearchResult<T>>
  {
    var check := CheckSearchCriteria(pageIndex, pageSize);
    if check.Failed? then Err(check.error)
    else
      match SortedMatches(hooks, rows, sortBy, sortType, filter)
      case Err(e) => Err(e)
      case Ok(sorted) =>
        var total := |hooks.constructQueryConditions(rows, filter)|;
        Ok(SearchResult(total, if pageIndex > 0 then Page(sorted, pageIndex, pageSize) else sorted))
  }

  /** Invalid paging is rejected whatever the other fields hold. */
  lemma SearchRejectsBadPaging<T, F>(hooks: Hooks<T, F>, rows: seq<T>, pageIndex: int, pageSize: int,
                                     sortBy: Option<string>, sortType: SortType, filter: F)
    requires pageIndex < 0 || (pageIndex > 0 && pageSize <= 0)
    ensures SearchSpec(hooks, rows, pageIndex, pageSize, sortBy, sortType, filter) == Err(InvalidArgument)
  {
  }

  /**
   * The total count is the number of filtered records, the same as `GetCount` for the same
   * criteria, and it does not depend on the page index or size; a valid page index and size
   * never decide whether the search succeeds.
   */
  lemma SearchTotalCount<T, F>(hooks: Hooks<T, F>, rows: seq<T>, pageIndex: int, pageSize: int,
                               pageIndex': int, pageSize': int,
                               sortBy: Option<string>, sortType: SortType, filter: F)
    requires CheckSearchCriteria(pageIndex, pageSize).Done? && CheckSearchCriteria(pageIndex', pageSize').Done?
    ensures var r := SearchSpec(hooks, rows, pageIndex, pageSize, sortBy, sortType, filter);
            var r' := SearchSpec(hooks, rows, pageIndex', pageSize', sortBy, sortType, filter);
            r.Ok? == r'.Ok? &&
            (r.Ok? ==> r.value.totalCount == r'.value.totalCount == |hooks.constructQueryConditions(rows, filter)|)
  {
  }

  /**
   * The records before paging are sorted by the applied orderings with the last one first.
   */
  lemma SortedMatchesSorted<T, F>(hooks: Hooks<T, F>, rows: seq<T>, sortBy: Option<string>, sortType: SortType, filter: F)
    requires SortedMatches(hooks, rows, sortBy, sortType, filter).Ok?
    ensures var os := ResolveOrderings(hooks, filter, sortType, SortFields(hooks.resolveSortBy(sortBy)));
            os.Ok? && SortedBy(SortedMatches(hooks, rows, sortBy, sortType, filter).value, Reverse(os.value))
  {
    var os := ResolveOrderings(hooks, filter, sortType, SortFields(hooks.resolveSortBy(sortBy)));
    SortAllSorted(hooks.constructQueryConditions(rows, filter), os.value);
  }

  /**
   * Unpaged search (page index 0) returns every match: the items are a permutation of the
   * filtered records, as many as the total count, sorted by the applied orderings with the
   * last one first.
   */
  lemma SearchUnpaged<T, F>(hooks: Hooks<T, F>, rows: seq<T>, pageSize: int,
                            sortBy: Option<string>, sortType: SortType, filter: F)
    requires SearchSpec(hooks, rows, 0, pageSize, sortBy, sortType, filter).Ok?
    ensures var r := SearchSpec(hooks, rows, 0, pageSize, sortBy, sortType, filter).value;
            var os := ResolveOrderings(hooks, filter, sortType, SortFields(hooks.resolveSortBy(sortBy)));
            |r.items| == r.totalCount &&
            multiset(r.items) == multiset(hooks.constructQueryConditions(rows, filter)) &&
            os.Ok? && SortedBy(r.items, Reverse(os.value))
  {
    SortedMatchesSorted(hooks, rows, sortBy, sortType, filter);
    var m := SortedMatches(hooks, rows, sortBy, sortType, filter).value;
    assert |m| == |hooks.constructQueryConditions(rows, filter)| by {
      assert |multiset(m)| == |multiset(hooks.constructQueryConditions(rows, filter))|;
    }
  }

  /** A page of a sorted sequence is sorted. */
  lemma PageSorted<T>(s: seq<T>, os: seq<Ordering<T>>, pageIndex: int, pageSize: int)
    requires pageIndex > 0 && pageSize > 0 && SortedBy(s, os)
    ensures SortedBy(Page(s, pageIndex, pageSize), os)
  {
    var lo := pageSize * (pageIndex - 1);
    if lo < |s| {
      SortedSlice(s, os, lo, if lo + pageSize <= |s| then lo + pageSize else |s|);
    } else {
      assert Page(s, pageIndex, pageSize) == [];
    }
  }

  /**
   * Paged search (page index p > 0, size s) returns at most s items: the unpaged result with
   * the first s*(p-1) items skipped, still sorted.
   */
  lemma SearchPaged<T, F>(hooks: Hooks<T, F>, rows: seq<T>, pageIndex: int, pageSize: int,
                          sortBy: Option<string>, sortType: SortType, filter: F)
    requires pageIndex > 0
    requires SearchSpec(hooks, rows, pageIndex, pageSize, sortBy, sortType, filter).Ok?
    ensures var r := SearchSpec(hooks, rows, pageIndex, pageSize, sortBy, sortType, filter).value;
            var all := SearchSpec(hooks, rows, 0, pageSize, sortBy, sortType, filter);
            var os := ResolveOrderings(hooks, filter, sortType, SortFields(hooks.resolveSortBy(sortBy)));
            pageSize > 0 && all.Ok? && os.Ok? &&
            |r.items| <= pageSize &&
            r.items == Page(all.value.items, pageIndex, pageSize) &&
            SortedBy(r.items, Reverse(os.value))
  {
    SortedMatchesSorted(hooks, rows, sortBy, sortType, filter);
    var os := ResolveOrderings(hooks, filter, sortType, SortFields(hooks.resolveSortBy(sortBy)));
    PageSorted(SortedMatches(hooks, rows, sortBy, sortType, filter).value, Reverse(os.value), pageIndex, pageSize);
  }

  /** The criteria of a search: `BaseSearchCriteria`'s paging and sorting fields and the entity's filter fields. */
  class SearchCriteria<F> {
    var pageIndex: int
    var pageSize: int
    var sortBy: Option<string>
    var sortType: SortType
    var filter: F

    constructor(pageIndex: int, pageSize: int, sortBy: Option<string>, sortType: SortType, filter: F)
      ensures this.pageIndex == pageIndex && this.pageSize == pageSize && this.sortBy == sortBy
      ensures this.sortType == sortType && this.filter == filter
    {
      this.pageIndex := pageIndex;
      this.pageSize := pageSize;
      this.sortBy := sortBy;
      this.sortType := sortType;
      this.filter := filter;
    }
  }

  /** The first index whose record passes `matches` for `id`, as `FirstOrDefault` finds it. */
  function FindIndex<T>(rows: seq<T>, matches: (T, Id) -> bool, id: Id): (k: Option<nat>)
    ensures k.Some? ==> k.value < |rows| && matches(rows[k.value], id) &&
                        forall i :: 0 <= i < k.value ==> !matches(rows[i], id)
    ensures k.None? ==> forall i :: 0 <= i < |rows| ==> !matches(rows[i], id)
  {
    if rows == [] then None
    else if matches(rows[0], id) then Some(0)
    else match FindIndex(rows[1..], matches, id)
      case None => None
      case Some(k) => Some(k + 1)
  }

  /**
   * `DbSet.Find(id)`: the stored record whose primary key is `id`, or null.
   */
  function FindByKey<C>(table: seq<C>, idOf: C -> Id, id: Id): (r: Option<C>)
    ensures r.Some? ==> r.value in table && idOf(r.value) == id
    ensures r.None? ==> forall c :: c in table ==> idOf(c) != id
  {
    if table == [] then None
    else if idOf(table[0]) == id then Some(table[0])
    else FindByKey(table[1..], idOf, id)
  }

  /**
   * `ResolveChildEntity(entity, id, isRequired)`: the effective id is `id` when given, else the
   * placeholder's own id. Without an effective id a required reference is an invalid argument
   * and an optional one resolves to null; with one, the stored record with that key is
   * returned (never the placeholder), or NotFound when there is none.
   */
  function ResolveChildEntity<C>(table: seq<C>, idOf: C -> Id, entity: Option<C>, id: Option<Id>, isRequired: bool)
    : (r: Result<Option<C>>)
    ensures id.None? && entity.None? && isRequired ==> r == Err(InvalidArgument)
    ensures id.None? && entity.None? && !isRequired ==> r == Ok(None)
    ensures var eff := if id.Some? then Some(id.value) else if entity.Some? then Some(idOf(entity.value)) else None;
            eff.Some? ==>
              ((r == Err(NotFound) <==> forall c :: c in table ==> idOf(c) != eff.value) &&
               (r.Ok? ==> r.value.Some? && r.value.value in table && idOf(r.value.value) == eff.value) &&
               (r.Ok? || r == Err(NotFound)))
  {
    var entityId := if id.Some? then id else if entity.Some? then Some(idOf(entity.value)) else None;
    if entityId.None? then
      if isRequired then Err(InvalidArgument) else Ok(None)
    else
      match FindByKey(table, idOf, entityId.value)
      case None => Err(NotFound)
      case Some(child) => Ok(Some(child))
  }

  /** One element of a reference list resolved as `ResolveEntities` does: optional, by its own id. */
  function ResolveItem<C>(table: seq<C>, idOf: C -> Id, item: Option<C>): (r: Result<Option<C>>)
    ensures item.None? ==> r == Ok(None)
    ensures r.Err? ==> r.error == NotFound && item.Some?
    ensures r.Ok? && item.Some? ==> r.value.Some? && r.value.value in table && idOf(r.value.value) == idOf(item.value)
  {
    ResolveChildEntity(table, idOf, item, None, false)
  }

  /**
   * Element-wise resolution of a list of references: each non-null element is replaced by
   * the stored record with its key and a null element stays null, order and length kept;
   * the first element without a stored record makes the whole resolution fail with NotFound.
   */
  function ResolveAll<C>(table: seq<C>, idOf: C -> Id, items: seq<Option<C>>): (r: Result<seq<Option<C>>>)
    ensures r.Ok? <==> forall i :: 0 <= i < |items| ==> ResolveItem(table, idOf, items[i]).Ok?
    ensures r.Err? ==> r.error == NotFound
    ensures r.Ok? ==>
      |r.value| == |items| &&
      forall i :: 0 <= i < |items| ==> ResolveItem(table, idOf, items[i]) == Ok(r.value[i])
  {
    if items == [] then Ok([])
    else
      var n := |items| - 1;
      match ResolveAll(table, idOf, items[..n])
      case Err(e) => Err(e)
      case Ok(done) =>
        match ResolveItem(table, idOf, items[n])
        case Err(e) => Err(e)
        case Ok(c) => Ok(done + [c])
  }

  /**
   * `ResolveEntities(items)`: nothing for a null list; otherwise each element is overwritten
   * in place with its resolved stored record. When an element cannot be resolved the
   * exception leaves the elements before it replaced and the rest untouched.
   */
  method ResolveEntities<C>(table: seq<C>, idOf: C -> Id, items: array?<Option<C>>) returns (r: Outcome)
    modifies items
    ensures items == null ==> r == Done
    ensures items != null && ResolveAll(table, idOf, old(items[..])).Ok? ==>
      r == Done && items[..] == ResolveAll(table, idOf, old(items[..])).value
    ensures items != null && ResolveAll(table, idOf, old(items[..])).Err? ==>
      r == Failed(NotFound) &&
      exists j :: 0 <= j < items.Length && ResolveItem(table, idOf, old(items[j])).Err? &&
        ResolveAll(table, idOf, old(items[..j])) == Ok(items[..j]) && items[j..] == old(items[j..])
  {
    if items == null {
      return Done;
    }
    ghost var before := items[..];
    for i := 0 to items.Length
      invariant ResolveAll(table, idOf, before[..i]).Ok?
      invariant items[..i] == ResolveAll(table, idOf, before[..i]).value
      invariant items[i..] == before[i..]
    {
      var child := ResolveChildEntity(table, idOf, items[i], None, false);
      assert before[..i + 1][..i] == before[..i];
      assert before[i] == items[i] by { assert items[i..][0] == before[i..][0]; }
      if child.Err? {
        ResolveAllErr(table, idOf, before, i);
        return Failed(child.error);
      }
      items[i] := child.value;
      assert items[..i + 1] == items[..i] + [items[i]];
    }
    assert before[..items.Length] == before;
    return Done;
  }

  /** A list holding an element that cannot be resolved fails to resolve. */
  lemma ResolveAllErr<C>(table: seq<C>, idOf: C -> Id, items: seq<Option<C>>, j: int)
    requires 0 <= j < |items| && ResolveItem(table, idOf, items[j]).Err?
    ensures ResolveAll(table, idOf, items).Err?
  {
  }

  /**
   * The store of one entity kind: its records, and how many times `SaveChanges` committed.
   * `hooks` holds the entity's overrides.
   */
  class Repository<T, F> {
    const hooks: Hooks<T, F>
    var rows: seq<T>
    var saveCount: nat

    constructor(hooks: Hooks<T, F>, rows: seq<T>)
      ensures this.hooks == hooks && this.rows == rows && saveCount == 0
    {
      this.hooks := hooks;
      this.rows := rows;
      saveCount := 0;
    }

    /** The position of the record `GetById` finds for `id`. */
    function IndexOf(id: Id): (k: Option<nat>)
      reads this
      ensures k.Some? ==> k.value < |rows| && hooks.matchesId(rows[k.value], id) &&
                          forall i :: 0 <= i < k.value ==> !hooks.matchesId(rows[i], id)
      ensures k.None? ==> forall i :: 0 <= i < |rows| ==> !hooks.matchesId(rows[i], id)
    {
      FindIndex(rows, hooks.matchesId, id)
    }

    /**
     * The protected `Get(id, full)`: a null id is an ArgumentNull error, an id no record
     * matches is NotFound, and otherwise the first matching record is returned, hydrated
     * exactly when `full` is set.
     */
    function Find(id: Option<Id>, full: bool): (r: Result<Loaded<T>>)
      reads this
      ensures id.None? ==> r == Err(ArgumentNull)
      ensures id.Some? ==> (r == Err(NotFound) <==> forall i :: 0 <= i < |rows| ==> !hooks.matchesId(rows[i], id.value))
      ensures r.Ok? ==>
        id.Some? && IndexOf(id.value).Some? && r.value == Loaded(rows[IndexOf(id.value).value], full)
      ensures r.Ok? || r == Err(NotFound) || r == Err(ArgumentNull)
    {
      if id.None? then Err(ArgumentNull)
      else
        match IndexOf(id.value)
        case None => Err(NotFound)
        case Some(k) => Ok(Loaded(rows[k], full))
    }

    /**
     * `Get(id)`: the full lookup, with navigation properties loaded: the first record
     * `GetById` matches, NotFound when none does, ArgumentNull for a null id.
     */
    function Get(id: Option<Id>): (r: Result<Loaded<T>>)
      reads this
      ensures id.None? ==> r == Err(ArgumentNull)
      ensures id.Some? ==> (r == Err(NotFound) <==> forall i :: 0 <= i < |rows| ==> !hooks.matchesId(rows[i], id.value))
      ensures r.Ok? ==> r.value.hydrated && id.Some? && IndexOf(id.value).Some? &&
                        r.value.entity == rows[IndexOf(id.value).value]
      ensures r.Ok? || r == Err(NotFound) || r == Err(ArgumentNull)
    {
      Find(id, true)
    }

    /** `GetShallow(id)`: the same lookup without navigation properties. */
    function GetShallow(id: Option<Id>): (r: Result<Loaded<T>>)
      reads this
      ensures id.None? ==> r == Err(ArgumentNull)
      ensures id.Some? ==> (r == Err(NotFound) <==> forall i :: 0 <= i < |rows| ==> !hooks.matchesId(rows[i], id.value))
      ensures r.Ok? ==> !r.value.hydrated && id.Some? && IndexOf(id.value).Some? &&
                        r.value.entity == rows[IndexOf(id.value).value]
      ensures r.Ok? || r == Err(NotFound) || r == Err(ArgumentNull)
      ensures r.Err? <==> Get(id).Err?
      ensures r.Ok? ==> r.value.entity == Get(id).value.entity
    {
      Find(id, false)
    }

    /** `GetAll()`: every stored record, unfiltered, in storage order. */
    function GetAll(): (all: seq<T>)
      reads this
      ensures |all| == |rows| && forall i :: 0 <= i < |rows| ==> all[i] == rows[i]
    {
      rows
    }

    /** `GetCount(criteria)`: the number of records the criteria's filter fields keep. */
    function GetCount(filter: F): (n: nat)
      reads this
      ensures n == |hooks.constructQueryConditions(rows, filter)|
    {
      |hooks.constructQueryConditions(rows, filter)|
    }

    /**
     * `Create(entity)`: a null entity is an ArgumentNull error; otherwise the child references
     * are resolved (`resolve`), the resolved entity is added and one commit follows. A failing
     * resolution adds nothing.
     */
    method Create(entity: Option<T>, resolve: T -> Result<T>) returns (r: Result<T>)
      modifies this
      ensures entity.None? ==> r == Err(ArgumentNull) && rows == old(rows) && saveCount == old(saveCount)
      ensures entity.Some? && resolve(entity.value).Err? ==>
        r == Err(resolve(entity.value).error) && rows == old(rows) && saveCount == old(saveCount)
      ensures entity.Some? && resolve(entity.value).Ok? ==>
        r == resolve(entity.value) && rows == old(rows) + [r.value] && saveCount == old(saveCount) + 1
    {
      if entity.None? {
        return Err(ArgumentNull);
      }
      var resolved := resolve(entity.value);
      if resolved.Err? {
        return Err(resolved.error);
      }
      rows := rows + [resolved.value];
      saveCount := saveCount + 1;
      r := resolved;
    }

    /**
     * `Update(entity)`: a null entity is an ArgumentNull error; the stored record is looked
     * up (shallow) by the entity's id BEFORE anything else, so a missing record is NotFound
     * whatever the references hold; then the references are resolved, the incoming values are
     * copied onto the stored record (no version check) and one commit follows.
     */
    method Update(entity: Option<T>, resolve: T -> Result<T>) returns (r: Outcome)
      modifies this
      ensures entity.None? ==> r == Failed(ArgumentNull) && rows == old(rows) && saveCount == old(saveCount)
      ensures entity.Some? && old(IndexOf(hooks.idOf(entity.value))).None? ==>
        r == Failed(NotFound) && rows == old(rows) && saveCount == old(saveCount)
      ensures entity.Some? && old(IndexOf(hooks.idOf(entity.value))).Some? && resolve(entity.value).Err? ==>
        r == Failed(resolve(entity.value).error) && rows == old(rows) && saveCount == old(saveCount)
      ensures entity.Some? && old(IndexOf(hooks.idOf(entity.value))).Some? && resolve(entity.value).Ok? ==>
        var k := old(IndexOf(hooks.idOf(entity.value))).value;
        r == Done && saveCount == old(saveCount) + 1 &&
        rows == old(rows)[k := hooks.updateEntityFields(old(rows)[k], resolve(entity.value).value)]
    {
      if entity.None? {
        return Failed(ArgumentNull);
      }
      var existing := Find(Some(hooks.idOf(entity.value)), false);
      if existing.Err? {
        return Failed(existing.error);
      }
      var k := IndexOf(hooks.idOf(entity.value)).value;
      var resolved := resolve(entity.value);
      if resolved.Err? {
        return Failed(resolved.error);
      }
      rows := rows[k := hooks.updateEntityFields(existing.value.entity, resolved.value)];
      saveCount := saveCount + 1;
      r := Done;
    }

    /**
     * `Delete(id)`: a null id is an ArgumentNull error; the record is looked up in full
     * (NotFound when absent); its associated entities are removed first (every override in
     * this model removes none), then the record itself, and one commit follows.
     */
    method Delete(id: Option<Id>) returns (r: Outcome)
      modifies this
      ensures id.None? ==> r == Failed(ArgumentNull) && rows == old(rows) && saveCount == old(saveCount)
      ensures id.Some? && old(IndexOf(id.value)).None? ==>
        r == Failed(NotFound) && rows == old(rows) && saveCount == old(saveCount)
      ensures id.Some? && old(IndexOf(id.value)).Some? ==>
        var k := old(IndexOf(id.value)).value;
        r == Done && rows == old(rows)[..k] + old(rows)[k + 1..] && saveCount == old(saveCount) + 1
    {
      if id.None? {
        return Failed(ArgumentNull);
      }
      var entity := Find(id, true);
      if entity.Err? {
        return Failed(entity.error);
      }
      var k := IndexOf(id.value).value;
      rows := rows[..k] + rows[k + 1..];
      saveCount := saveCount + 1;
      r := Done;
    }

    /**
     * The sorting step of `Search`: for each sort field in turn, `criteria.sortBy` is set to
     * it and its ordering is applied to the query as a fresh stable sort. The result is the
     * query sorted by every resolved ordering, or the first field's error.
     */
    method ApplySortFields(criteria: SearchCriteria<F>, query: seq<T>, fields: seq<Option<string>>)
      returns (r: Result<seq<T>>)
      requires |fields| >= 1
      modifies criteria`sortBy
      ensures var os := ResolveOrderings(hooks, criteria.filter, criteria.sortType, fields);
        (os.Err? ==> r == Err(os.error) &&
                     criteria.sortBy == fields[FirstFailure(hooks, criteria.filter, criteria.sortType, fields)]) &&
        (os.Ok? ==> r == Ok(SortAll(query, os.value)) && criteria.sortBy == fields[|fields| - 1])
    {
      var sorted := query;
      ghost var os: seq<Ordering<T>> := [];
      for i := 0 to |fields|
        invariant ResolveOrderings(hooks, criteria.filter, criteria.sortType, fields[..i]) == Ok(os)
        invariant sorted == SortAll(query, os)
        invariant i > 0 ==> criteria.sortBy == fields[i - 1]
      {
        criteria.sortBy := fields[i];
        var o := hooks.addSortingCondition(criteria.filter, criteria.sortBy, criteria.sortType);
        ResolveOrderingsStep(hooks, criteria.filter, criteria.sortType, fields, i, os);
        if o.Err? {
          FirstFailureAt(hooks, criteria.filter, criteria.sortType, fields, i);
          return Err(o.error);
        }
        SortAllStep(query, os, o.value);
        os := os + [o.value];
        sorted := SortBy(sorted, o.value);
      }
      assert fields[..|fields|] == fields;
      return Ok(sorted);
    }

    /**
     * `Search(criteria)`: validates the criteria, filters, counts, resolves SortBy, applies
     * each sort field as a fresh ordering (leaving `criteria.sortBy` on the last field
     * applied), and pages. The result is `SearchSpec` of the criteria's fields.
     */
    method Search(criteria: SearchCriteria?<F>) returns (r: Result<SearchResult<T>>)
      modifies criteria
      ensures criteria == null ==> r == Err(ArgumentNull)
      ensures criteria != null ==>
        r == SearchSpec(hooks, rows, criteria.pageIndex, criteria.pageSize, old(criteria.sortBy),
                        criteria.sortType, criteria.filter)
      ensures criteria != null ==>
        criteria.pageIndex == old(criteria.pageIndex) && criteria.pageSize == old(criteria.pageSize) &&
        criteria.sortType == old(criteria.sortType) && criteria.filter == old(criteria.filter)
      ensures criteria != null && r.Ok? ==>
        var fields := SortFields(hooks.resolveSortBy(old(criteria.sortBy)));
        criteria.sortBy == fields[|fields| - 1]
      ensures criteria != null && CheckSearchCriteria(criteria.pageIndex, criteria.pageSize).Failed? ==>
        criteria.sortBy == old(criteria.sortBy)
      ensures criteria != null && !CheckSearchCriteria(criteria.pageIndex, criteria.pageSize).Failed? && r.Err? ==>
        var fields := SortFields(hooks.resolveSortBy(old(criteria.sortBy)));
        ResolveOrderings(hooks, criteria.filter, criteria.sortType, fields).Err? &&
        criteria.sortBy == fields[FirstFailure(hooks, criteria.filter, criteria.sortType, fields)]
    {
      if criteria == null {
        return Err(ArgumentNull);
      }
      var check := CheckSearchCriteria(criteria.pageIndex, criteria.pageSize);
      if check.Failed? {
        return Err(check.error);
      }
      var query := hooks.constructQueryConditions(rows, criteria.filter);
      var result := SearchResult(|query|, []);
      var sortBy := hooks.resolveSortBy(criteria.sortBy);
      var fields := SortFields(sortBy);
      var sorted := ApplySortFields(criteria, query, fields);
      if sorted.Err? {
        assert ResolveOrderings(hooks, criteria.filter, criteria.sortType, fields).Err?;
        return Err(sorted.error);
      }
      query := sorted.value;
      if criteria.pageIndex > 0 {
        query := Page(query, criteria.pageIndex, criteria.pageSize);
      }
      r := Ok(result.(items := query));
    }
  }

  /** A table of plain records written by the bulk helpers (`DeleteAll`, `InsertAll`). */
  class RecordTable<R(==)> {
    var rows: seq<R>

    constructor(rows: seq<R>)
      ensures this.rows == rows
    {
      this.rows := rows;
    }

    /** `DeleteAll(existing)`: removes the listed records, committed at once. */
    method DeleteAll(existing: seq<R>)
      modifies this
      ensures rows == Where(old(rows), x => x !in existing)
    {
      rows := Where(rows, x => x !in existing);
    }

    /** `DeleteChildEntity(entity)`: a null entity removes nothing; otherwise the record is removed. */
    method DeleteChildEntity(entity: Option<R>)
      modifies this
      ensures entity.None? ==> rows == old(rows)
      ensures entity.Some? ==> rows == Where(old(rows), x => x != entity.value) && entity.value !in rows
    {
      if entity.Some? {
        rows := Where(rows, x => x != entity.value);
      }
    }

    /**
     * `InsertAll(items)`: appends the records, committed at once. A null list stands for
     * every record stored at that moment, which are then appended a second time.
     */
    method InsertAll(items: Option<seq<R>>)
      modifies this
      ensures items.Some? ==> rows == old(rows) + items.value
      ensures items.None? ==> rows == old(rows) + old(rows)
    {
      var all := if items.Some? then items.value else rows;
      rows := rows + all;
    }
  }

  /**
   * The table after a scoped replace: the records out of scope, then the new records; a null
   * list of new records re-inserts the records out of scope.
   */
  function ReplaceScope<R>(rows: seq<R>, inScope: R -> bool, items: Option<seq<R>>): seq<R>
  {
    var out := Where(rows, x => !inScope(x));
    out + (if items.Some? then items.value else out)
  }

  /**
   * A scoped replace leaves exactly the new records in scope, and the records out of scope
   * are the old ones, in order, followed by the new records out of scope. With a null list
   * nothing is left in scope and every record out of scope is there twice.
   */
  lemma ReplaceScopeEffect<R>(rows: seq<R>, inScope: R -> bool, items: Option<seq<R>>)
    ensures var after := ReplaceScope(rows, inScope, items);
            var out := Where(rows, x => !inScope(x));
            (items.Some? ==> Where(after, inScope) == Where(items.value, inScope) &&
                             Where(after, x => !inScope(x)) == out + Where(items.value, x => !inScope(x))) &&
            (items.None? ==> Where(after, inScope) == [] && Where(after, x => !inScope(x)) == out + out)
  {
    var out := Where(rows, x => !inScope(x));
    WhereNone(out, inScope);
    WhereAll(out, x => !inScope(x));
    if items.Some? {
      WhereAppend(out, items.value, inScope);
      WhereAppend(out, items.value, x => !inScope(x));
    } else {
      WhereAppend(out, out, inScope);
      WhereAppend(out, out, x => !inScope(x));
    }
  }

  /**
   * The delete-then-insert of the upload operations: the records in scope are listed,
   * deleted in bulk, and `items` are inserted in bulk.
   */
  method ReplaceRecords<R(==)>(table: RecordTable<R>, inScope: R -> bool, items: Option<seq<R>>)
    modifies table
    ensures table.rows == ReplaceScope(old(table.rows), inScope, items)
  {
    var existing := Where(table.rows, inScope);
    table.DeleteAll(existing);
    WhereExt(old(table.rows), x => x !in existing, x => !inScope(x));
    table.InsertAll(items);
  }
}
