/**
 * The country repository: the generic engine with the country's filters, resolution of the
 * country's pole, and a field copy that takes the incoming pole.
 */
module CountryRepository {
  import opened Wrappers
  import opened Queries
  import opened Ordering
  import opened Text
  import opened GenericRepository
  import opened Entities

  /** The country search criteria's own filter fields. */
  datatype Criteria = Criteria(status: Option<int>, geoPoleId: Option<int>, excludedStatus: Option<int>,
                               name: Option<string>)

  /** Whether a country satisfies every filter the criteria set; a null name never matches a name filter. */
  predicate Matches(x: Country, c: Criteria)
  {
    StatusHit(x.status, c.status, c.excludedStatus) &&
    (c.geoPoleId.Some? ==> x.idGeoPole == c.geoPoleId) &&
    (NonBlank(c.name) ==> OptNameHit(x.name, c.name.value))
  }

  /** The optional filters of `ConstructQueryConditions`, in the order it applies them. */
  function Filters(c: Criteria): (fs: seq<Filter<Country>>)
    ensures |fs| == 4
  {
    [Filter(c.status.Some?, (x: Country) => c.status == Some(x.status)),
     Filter(c.geoPoleId.Some?, (x: Country) => x.idGeoPole == c.geoPoleId),
     Filter(c.excludedStatus.Some?, (x: Country) => c.excludedStatus != Some(x.status)),
     Filter(NonBlank(c.name), (x: Country) => c.name.Some? && OptNameHit(x.name, c.name.value))]
  }

  /** `ConstructQueryConditions`: the optional filters applied one after another. */
  function Query(q: seq<Country>, c: Criteria): seq<Country>
  {
    ApplyFilters(q, Filters(c))
  }

  /** Passing every active filter is matching the criteria. */
  lemma FiltersMeanMatches(c: Criteria, x: Country)
    ensures PassesAll(Filters(c), x) == Matches(x, c)
  {
    var fs := Filters(c);
    assert fs[3].keep(x) == (c.name.Some? && OptNameHit(x.name, c.name.value));
    assert PassesAll(fs, x) <==>
      (fs[0].active ==> fs[0].keep(x)) &&
      (fs[1].active ==> fs[1].keep(x)) &&
      (fs[2].active ==> fs[2].keep(x)) &&
      (fs[3].active ==> fs[3].keep(x));
  }

  /** The filters keep exactly the records that match the criteria, in their stored order. */
  lemma QueryKeepsMatches(q: seq<Country>, c: Criteria)
    ensures Query(q, c) == Where(q, (x: Country) => Matches(x, c))
  {
    var fs := Filters(c);
    ApplyFiltersIsWhere(q, fs);
    forall x | x in q ensures PassesAll(fs, x) == Matches(x, c) {
      FiltersMeanMatches(c, x);
    }
    WhereExt(q, x => PassesAll(fs, x), x => Matches(x, c));
  }

  /** The country properties a sort field can name. */
  function FieldKey(field: string): (k: Option<Country -> Key>)
    ensures k.Some? <==> field in {"Id", "Name", "Status", "IdGeoPole"}
  {
    if field == "Id" then Some((x: Country) => [x.id])
    else if field == "Name" then Some((x: Country) => OptStrKey(x.name))
    else if field == "Status" then Some((x: Country) => [x.status])
    else if field == "IdGeoPole" then Some((x: Country) => OptIntKey(x.idGeoPole))
    else None
  }

  /**
   * `ResolveChildEntities`: the pole is replaced by the stored pole named by `IdGeoPole`, or by
   * the placeholder's own id when the key is null; it stays null when both are null.
   */
  function Resolve(poles: seq<GeoPole>, x: Country): (r: Result<Country>)
    ensures r.Ok? <==> ResolveChildEntity(poles, GeoPoleId, x.geoPole, IntRef(x.idGeoPole), false).Ok?
    ensures r.Err? ==> r.error == NotFound
    ensures r.Ok? ==> r.value == x.(geoPole := r.value.geoPole)
    ensures r.Ok? && x.idGeoPole.Some? ==>
      r.value.geoPole.Some? && r.value.geoPole.value in poles && r.value.geoPole.value.id == x.idGeoPole.value
    ensures r.Ok? && x.idGeoPole.None? && x.geoPole.Some? ==>
      r.value.geoPole.Some? && r.value.geoPole.value in poles && r.value.geoPole.value.id == x.geoPole.value.id
    ensures r.Ok? && x.idGeoPole.None? && x.geoPole.None? ==> r.value == x
  {
    match ResolveChildEntity(poles, GeoPoleId, x.geoPole, IntRef(x.idGeoPole), false)
    case Err(e) => Err(e)
    case Ok(p) => Ok(x.(geoPole := p))
  }

  /** `UpdateEntityFields`: the pole and every scalar value are the incoming ones. */
  function UpdateFields(existing: Country, incoming: Country): (r: Country)
    ensures r.id == incoming.id && r.name == incoming.name && r.status == incoming.status
    ensures r.idGeoPole == incoming.idGeoPole && r.geoPole == incoming.geoPole
  {
    existing.(id := incoming.id, name := incoming.name, status := incoming.status,
              idGeoPole := incoming.idGeoPole, geoPole := incoming.geoPole)
  }

  /** The generic engine specialised to countries. */
  const CountryHooks: Hooks<Country, Criteria> := Hooks(
    CountryId,
    (x: Country, id: Id) => BaseMatchesId(CountryId, x, id),
    Query,
    BaseResolveSortBy,
    (c: Criteria, sortBy: Option<string>, dir: SortType) => BaseAddSortingCondition(FieldKey, sortBy, dir),
    UpdateFields)

  /** `GetCount(criteria)` is the number of stored countries the criteria match. */
  lemma GetCountMatches(repo: Repository<Country, Criteria>, c: Criteria)
    requires repo.hooks == CountryHooks
    ensures repo.GetCount(c) == |Where(repo.rows, (x: Country) => Matches(x, c))|
  {
    QueryKeepsMatches(repo.rows, c);
  }
}
