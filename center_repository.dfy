/**
 * The center repository: centers are keyed by their PGEO code. Adds the lookup by code, the
 * center filters, the "IsAssociated" ordering, resolution of the country and a field copy
 * that takes the incoming country.
 */
module CenterRepository {
  import opened Wrappers
  import opened Queries
  import opened Ordering
  import opened Text
  import opened GenericRepository
  import opened Entities

  /**
   * The center search criteria's own fields: the filters, and the PGEO codes of the centers
   * associated with the caller, used by the "IsAssociated" ordering.
   */
  datatype Criteria = Criteria(regionId: Option<int>, pgeo: Option<string>, status: Option<int>,
                               excludedStatus: Option<int>, name: Option<string>,
                               associatedCenters: Option<seq<string>>)

  /** The first stored center with the given code. */
  function FirstWithCode(rows: seq<Center>, pgeo: string): (r: Option<nat>)
    ensures r.Some? ==> r.value < |rows| && rows[r.value].pgeo == pgeo &&
                        forall i :: 0 <= i < r.value ==> rows[i].pgeo != pgeo
    ensures r.None? ==> forall i :: 0 <= i < |rows| ==> rows[i].pgeo != pgeo
  {
    if rows == [] then None
    else if rows[0].pgeo == pgeo then Some(0)
    else match FirstWithCode(rows[1..], pgeo)
      case None => None
      case Some(k) => Some(k + 1)
  }

  /**
   * `Get(pgeo)`: a null code is an ArgumentNull error; otherwise the first center with that
   * code, loaded in full, or NotFound.
   */
  function GetByPgeo(rows: seq<Center>, pgeo: Option<string>): (r: Result<Center>)
    ensures pgeo.None? ==> r == Err(ArgumentNull)
    ensures pgeo.Some? ==> (r.Err? <==> forall x :: x in rows ==> x.pgeo != pgeo.value)
    ensures r.Err? ==> r.error in {ArgumentNull, NotFound}
    ensures r.Ok? ==> r.value in rows && Some(r.value.pgeo) == pgeo &&
                      exists k :: 0 <= k < |rows| && rows[k] == r.value &&
                                  forall i :: 0 <= i < k ==> rows[i].pgeo != pgeo.value
  {
    if pgeo.None? then Err(ArgumentNull)
    else match FirstWithCode(rows, pgeo.value)
      case None => Err(NotFound)
      case Some(k) => Ok(rows[k])
  }

  /** `GetById`: the id, whatever its type, is compared as text with the PGEO code. */
  predicate MatchesId(x: Center, id: Id)
  {
    x.pgeo == IdText(id)
  }

  /**
   * The generic lookup by id and the lookup by code agree: both return the first center
   * with the code, and an integer id finds the center whose code is its decimal text.
   */
  lemma GetByIdIsGetByPgeo(repo: Repository<Center, Criteria>, id: Id)
    requires repo.hooks == CenterHooks
    ensures var r := repo.Find(Some(id), true);
            var g := GetByPgeo(repo.rows, Some(IdText(id)));
            r.Ok? == g.Ok? && (r.Ok? ==> r.value.entity == g.value)
  {
    var rows := repo.rows;
    var k := repo.IndexOf(id);
    var j := FirstWithCode(rows, IdText(id));
    if k.Some? {
      assert j.Some? && j.value <= k.value;
      assert !(j.value < k.value);
    } else if j.Some? {
      assert MatchesId(rows[j.value], id);
    }
  }

  /** Whether a center satisfies every filter the criteria set. */
  predicate Matches(x: Center, c: Criteria)
  {
    (c.regionId.Some? ==> CenterPole(Some(x)) == c.regionId) &&
    (c.pgeo.Some? ==> x.pgeo == c.pgeo.value) &&
    StatusHit(x.status, c.status, c.excludedStatus) &&
    (NonBlank(c.name) ==> NameHit(x.name, c.name.value) || NameHit(x.pgeo, c.name.value))
  }

  /** The optional filters of `ConstructQueryConditions`, in the order it applies them. */
  function Filters(c: Criteria): (fs: seq<Filter<Center>>)
    ensures |fs| == 5
  {
    [Filter(c.regionId.Some?, (x: Center) => x.country.Some? && x.country.value.idGeoPole == c.regionId),
     Filter(c.pgeo.Some?, (x: Center) => c.pgeo == Some(x.pgeo)),
     Filter(c.status.Some?, (x: Center) => c.status == Some(x.status)),
     Filter(c.excludedStatus.Some?, (x: Center) => c.excludedStatus != Some(x.status)),
     Filter(NonBlank(c.name),
            (x: Center) => c.name.Some? && (NameHit(x.name, c.name.value) || NameHit(x.pgeo, c.name.value)))]
  }

  /** `ConstructQueryConditions`: the optional filters applied one after another. */
  function Query(q: seq<Center>, c: Criteria): seq<Center>
  {
    ApplyFilters(q, Filters(c))
  }

  /** Passing every active filter is matching the criteria. */
  lemma FiltersMeanMatches(c: Criteria, x: Center)
    ensures PassesAll(Filters(c), x) == Matches(x, c)
  {
    var fs := Filters(c);
    assert fs[0].keep(x) == (x.country.Some? && x.country.value.idGeoPole == c.regionId);
    assert fs[4].keep(x) == (c.name.Some? && (NameHit(x.name, c.name.value) || NameHit(x.pgeo, c.name.value)));
    assert PassesAll(fs, x) <==>
      (fs[0].active ==> fs[0].keep(x)) && (fs[1].active ==> fs[1].keep(x)) &&
      (fs[2].active ==> fs[2].keep(x)) && (fs[3].active ==> fs[3].keep(x)) &&
      (fs[4].active ==> fs[4].keep(x));
  }

  /** The filters keep exactly the centers that match the criteria, in their stored order. */
  lemma QueryKeepsMatches(q: seq<Center>, c: Criteria)
    ensures Query(q, c) == Where(q, (x: Center) => Matches(x, c))
  {
    var fs := Filters(c);
    ApplyFiltersIsWhere(q, fs);
    forall x | x in q ensures PassesAll(fs, x) == Matches(x, c) {
      FiltersMeanMatches(c, x);
    }
    WhereExt(q, x => PassesAll(fs, x), x => Matches(x, c));
  }

  /** The center properties a sort field can name; `Id` is the PGEO code. */
  function FieldKey(field: string): (k: Option<Center -> Key>)
    ensures k.Some? <==> field in {"Id", "PGEO", "Name", "Status", "IdCountry"}
  {
    if field == "Id" || field == "PGEO" then Some((x: Center) => StrKey(x.pgeo))
    else if field == "Name" then Some((x: Center) => StrKey(x.name))
    else if field == "Status" then Some((x: Center) => [x.status])
    else if field == "IdCountry" then Some((x: Center) => OptIntKey(x.idCountry))
    else None
  }

  /**
   * The first key of the "IsAssociated" ordering: ascending puts the associated centers
   * first (0 before 1), descending puts them last.
   */
  function AssociatedRank(x: Center, associated: seq<string>, dir: SortType): (n: int)
    ensures dir == Asc ==> (n == 0 <==> x.pgeo in associated)
    ensures dir == Desc ==> (n == 1 <==> x.pgeo in associated)
    ensures n == 0 || n == 1
  {
    if x.pgeo in associated then (if dir == Asc then 0 else 1) else (if dir == Asc then 1 else 0)
  }

  /**
   * `AddSortingCondition`: the field "IsAssociated" (any case), when the criteria carry the
   * associated codes, orders by the associated rank and then by code, always ascending; any
   * other field is sorted by the base rule.
   */
  function SortingCondition(c: Criteria, sortBy: Option<string>, dir: SortType): (r: Result<Ordering<Center>>)
    ensures !(EqualsIgnoreCase("IsAssociated", sortBy) && c.associatedCenters.Some?) ==>
      r == BaseAddSortingCondition(FieldKey, sortBy, dir)
  {
    if EqualsIgnoreCase("IsAssociated", sortBy) && c.associatedCenters.Some? then
      var associated := c.associatedCenters.value;
      Ok(Ordering((x: Center) => [AssociatedRank(x, associated, dir)] + StrKey(x.pgeo), Asc))
    else BaseAddSortingCondition(FieldKey, sortBy, dir)
  }

  /**
   * The "IsAssociated" ordering puts a before b exactly when a is associated and b is not
   * (the reverse for a descending sort), or both are alike and a's code is not after b's.
   */
  lemma IsAssociatedOrder(c: Criteria, sortBy: Option<string>, dir: SortType, a: Center, b: Center)
    requires EqualsIgnoreCase("IsAssociated", sortBy) && c.associatedCenters.Some?
    ensures SortingCondition(c, sortBy, dir).Ok?
    ensures var o := SortingCondition(c, sortBy, dir).value;
            var inA := a.pgeo in c.associatedCenters.value;
            var inB := b.pgeo in c.associatedCenters.value;
            Before(o, a, b) <==>
              (if dir == Asc then inA && !inB else !inA && inB) ||
              (inA == inB && LexLe(StrKey(a.pgeo), StrKey(b.pgeo)))
  {
    var associated := c.associatedCenters.value;
    LexLeCons(AssociatedRank(a, associated, dir), StrKey(a.pgeo), AssociatedRank(b, associated, dir), StrKey(b.pgeo));
  }

  /**
   * `ResolveChildEntities`: the country is replaced by the stored country named by
   * `IdCountry`, or by the placeholder's own id when the key is null.
   */
  function Resolve(countries: seq<Country>, x: Center): (r: Result<Center>)
    ensures r.Ok? <==> ResolveChildEntity(countries, CountryId, x.country, IntRef(x.idCountry), false).Ok?
    ensures r.Err? ==> r.error == NotFound
    ensures r.Ok? ==> r.value == x.(country := r.value.country)
    ensures r.Ok? && x.idCountry.Some? ==>
      r.value.country.Some? && r.value.country.value in countries && r.value.country.value.id == x.idCountry.value
    ensures r.Ok? && x.idCountry.None? && x.country.Some? ==>
      r.value.country.Some? && r.value.country.value in countries && r.value.country.value.id == x.country.value.id
    ensures r.Ok? && x.idCountry.None? && x.country.None? ==> r.value == x
  {
    match ResolveChildEntity(countries, CountryId, x.country, IntRef(x.idCountry), false)
    case Err(e) => Err(e)
    case Ok(p) => Ok(x.(country := p))
  }

  /** `UpdateEntityFields`: the country and every scalar value are the incoming ones. */
  function UpdateFields(existing: Center, incoming: Center): (r: Center)
    ensures r.pgeo == incoming.pgeo && r.name == incoming.name && r.status == incoming.status
    ensures r.idCountry == incoming.idCountry && r.country == incoming.country
  {
    existing.(pgeo := incoming.pgeo, name := incoming.name, status := incoming.status,
              idCountry := incoming.idCountry, country := incoming.country)
  }

  /** The generic engine specialised to centers. */
  const CenterHooks: Hooks<Center, Criteria> := Hooks(
    CenterId,
    MatchesId,
    Query,
    BaseResolveSortBy,
    SortingCondition,
    UpdateFields)

  /** `GetCount(criteria)` is the number of stored centers the criteria match. */
  lemma GetCountMatches(repo: Repository<Center, Criteria>, c: Criteria)
    requires repo.hooks == CenterHooks
    ensures repo.GetCount(c) == |Where(repo.rows, (x: Center) => Matches(x, c))|
  {
    QueryKeepsMatches(repo.rows, c);
  }
}
