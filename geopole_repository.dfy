/**
 * The pole repository: the generic engine with the pole's own filters. Poles have no child
 * references to resolve, and the base field copy leaves their country list alone.
 */
module GeoPoleRepository {
  import opened Wrappers
  import opened Queries
  import opened Ordering
  import opened Text
  import opened GenericRepository
  import opened Entities

  /** The pole search criteria's own filter fields. */
  datatype Criteria = Criteria(status: Option<int>, excludedStatus: Option<int>, name: Option<string>)

  /** Whether a pole satisfies every filter the criteria set. */
  predicate Matches(x: GeoPole, c: Criteria)
  {
    StatusHit(x.status, c.status, c.excludedStatus) &&
    (NonBlank(c.name) ==> NameHit(x.name, c.name.value))
  }

  /** The optional filters of `ConstructQueryConditions`, in the order it applies them. */
  function Filters(c: Criteria): (fs: seq<Filter<GeoPole>>)
    ensures |fs| == 3
  {
    [Filter(c.status.Some?, (x: GeoPole) => c.status == Some(x.status)),
     Filter(c.excludedStatus.Some?, (x: GeoPole) => c.excludedStatus != Some(x.status)),
     Filter(NonBlank(c.name), (x: GeoPole) => c.name.Some? && NameHit(x.name, c.name.value))]
  }

  /** `ConstructQueryConditions`: the optional filters applied one after another. */
  function Query(q: seq<GeoPole>, c: Criteria): seq<GeoPole>
  {
    ApplyFilters(q, Filters(c))
  }

  /** Passing every active filter is matching the criteria. */
  lemma FiltersMeanMatches(c: Criteria, x: GeoPole)
    ensures PassesAll(Filters(c), x) == Matches(x, c)
  {
    var fs := Filters(c);
    assert fs[2].keep(x) == (c.name.Some? && NameHit(x.name, c.name.value));
    assert PassesAll(fs, x) <==>
      (fs[0].active ==> fs[0].keep(x)) &&
      (fs[1].active ==> fs[1].keep(x)) &&
      (fs[2].active ==> fs[2].keep(x));
  }

  /** The filters keep exactly the records that match the criteria, in their stored order. */
  lemma QueryKeepsMatches(q: seq<GeoPole>, c: Criteria)
    ensures Query(q, c) == Where(q, (x: GeoPole) => Matches(x, c))
  {
    var fs := Filters(c);
    ApplyFiltersIsWhere(q, fs);
    forall x | x in q ensures PassesAll(fs, x) == Matches(x, c) {
      FiltersMeanMatches(c, x);
    }
    WhereExt(q, x => PassesAll(fs, x), x => Matches(x, c));
  }

  /** With no status filter and a blank name, every pole passes. */
  lemma BlankCriteriaKeepAll(q: seq<GeoPole>, name: Option<string>)
    requires !NonBlank(name)
    ensures Query(q, Criteria(None, None, name)) == q
  {
    QueryKeepsMatches(q, Criteria(None, None, name));
    WhereAll(q, (x: GeoPole) => Matches(x, Criteria(None, None, name)));
  }

  /** The filters only delete: the poles kept are in their stored order. */
  lemma QueryIsSubsequence(q: seq<GeoPole>, c: Criteria)
    ensures IsSubsequence(Query(q, c), q)
  {
    QueryKeepsMatches(q, c);
    WhereIsSubsequence(q, (x: GeoPole) => Matches(x, c));
  }

  /** The pole properties a sort field can name. */
  function FieldKey(field: string): (k: Option<GeoPole -> Key>)
    ensures k.Some? <==> field in {"Id", "Name", "Status"}
  {
    if field == "Id" then Some((x: GeoPole) => [x.id])
    else if field == "Name" then Some((x: GeoPole) => StrKey(x.name))
    else if field == "Status" then Some((x: GeoPole) => [x.status])
    else None
  }

  /** The base `UpdateEntityFields`: the scalar values are the incoming ones, the country list is kept. */
  function UpdateFields(existing: GeoPole, incoming: GeoPole): (r: GeoPole)
    ensures r.id == incoming.id && r.name == incoming.name && r.status == incoming.status
    ensures r.countries == existing.countries
  {
    incoming.(countries := existing.countries)
  }

  /** The generic engine specialised to poles. */
  const PoleHooks: Hooks<GeoPole, Criteria> := Hooks(
    GeoPoleId,
    (x: GeoPole, id: Id) => BaseMatchesId(GeoPoleId, x, id),
    Query,
    BaseResolveSortBy,
    (c: Criteria, sortBy: Option<string>, dir: SortType) => BaseAddSortingCondition(FieldKey, sortBy, dir),
    UpdateFields)

  /** `GetCount(criteria)` is the number of stored poles the criteria match. */
  lemma GetCountMatches(repo: Repository<GeoPole, Criteria>, c: Criteria)
    requires repo.hooks == PoleHooks
    ensures repo.GetCount(c) == |Where(repo.rows, (x: GeoPole) => Matches(x, c))|
  {
    QueryKeepsMatches(repo.rows, c);
  }
}
