/**
 * The session-center repository: the generic engine with the session-center filters, no
 * default sort field but a default ordering by local session date then PGEO code,
 * resolution of the center, session and local IT contact, and the upload that replaces the
 * inventory records of one center in one session.
 */
module InventorySessionCenterRepository {
  import opened Wrappers
  import opened Queries
  import opened Ordering
  import opened Text
  import opened GenericRepository
  import opened Entities

  /** The session-center search criteria's own filter fields. */
  datatype Criteria = Criteria(geoPoleId: Option<int>, pgeo: Option<string>, excludedStatus: Option<int>,
                               sessionId: Option<int>)

  /** Whether a session center satisfies every filter the criteria set. */
  predicate Matches(x: InventorySessionCenter, c: Criteria)
  {
    (c.geoPoleId.Some? ==> CenterPole(x.center) == c.geoPoleId) &&
    (c.pgeo.Some? ==> x.pgeo == c.pgeo) &&
    StatusHit(x.status, None, c.excludedStatus) &&
    (c.sessionId.Some? ==> x.idSession == c.sessionId.value)
  }

  /** The optional filters of `ConstructQueryConditions`, in the order it applies them. */
  function Filters(c: Criteria): (fs: seq<Filter<InventorySessionCenter>>)
    ensures |fs| == 4
  {
    [Filter(c.geoPoleId.Some?, (x: InventorySessionCenter) =>
              x.center.Some? && x.center.value.country.Some? && x.center.value.country.value.idGeoPole == c.geoPoleId),
     Filter(c.pgeo.Some?, (x: InventorySessionCenter) => x.pgeo == c.pgeo),
     Filter(c.excludedStatus.Some?, (x: InventorySessionCenter) => c.excludedStatus != Some(x.status)),
     Filter(c.sessionId.Some?, (x: InventorySessionCenter) => c.sessionId == Some(x.idSession))]
  }

  /** `ConstructQueryConditions`: the optional filters applied one after another. */
  function Query(q: seq<InventorySessionCenter>, c: Criteria): seq<InventorySessionCenter>
  {
    ApplyFilters(q, Filters(c))
  }

  /** Passing every active filter is matching the criteria. */
  lemma FiltersMeanMatches(c: Criteria, x: InventorySessionCenter)
    ensures PassesAll(Filters(c), x) == Matches(x, c)
  {
    var fs := Filters(c);
    assert fs[0].keep(x) ==
      (x.center.Some? && x.center.value.country.Some? && x.center.value.country.value.idGeoPole == c.geoPoleId);
    assert PassesAll(fs, x) <==>
      (fs[0].active ==> fs[0].keep(x)) &&
      (fs[1].active ==> fs[1].keep(x)) &&
      (fs[2].active ==> fs[2].keep(x)) &&
      (fs[3].active ==> fs[3].keep(x));
  }

  /** The filters keep exactly the session centers that match the criteria, in their stored order. */
  lemma QueryKeepsMatches(q: seq<InventorySessionCenter>, c: Criteria)
    ensures Query(q, c) == Where(q, (x: InventorySessionCenter) => Matches(x, c))
  {
    var fs := Filters(c);
    ApplyFiltersIsWhere(q, fs);
    forall x | x in q ensures PassesAll(fs, x) == Matches(x, c) {
      FiltersMeanMatches(c, x);
    }
    WhereExt(q, x => PassesAll(fs, x), x => Matches(x, c));
  }

  /** The session-center properties a sort field can name. */
  function FieldKey(field: string): (k: Option<InventorySessionCenter -> Key>)
    ensures k.Some? <==> field in {"Id", "PGEO", "IdSession", "IdLocalIT", "Status", "LocalSessionDate"}
  {
    if field == "Id" then Some((x: InventorySessionCenter) => [x.id])
    else if field == "PGEO" then Some((x: InventorySessionCenter) => OptStrKey(x.pgeo))
    else if field == "IdSession" then Some((x: InventorySessionCenter) => [x.idSession])
    else if field == "IdLocalIT" then Some((x: InventorySessionCenter) => OptIntKey(x.idLocalIT))
    else if field == "Status" then Some((x: InventorySessionCenter) => [x.status])
    else if field == "LocalSessionDate" then Some((x: InventorySessionCenter) => OptIntKey(x.localSessionDate))
    else None
  }

  /** `ResolveSortBy`: kept as it is, so that a null SortBy reaches the sorting step. */
  function ResolveSortBy(sortBy: Option<string>): (r: Option<string>)
    ensures r == sortBy
  {
    sortBy
  }

  /** The default ordering: by local session date (null first), then by PGEO code (null first). */
  const DefaultOrdering: Ordering<InventorySessionCenter> :=
    Ordering((x: InventorySessionCenter) => OptIntKey(x.localSessionDate) + OptStrKey(x.pgeo), Asc)

  /**
   * `AddSortingCondition`: a null SortBy orders by local session date then PGEO code,
   * ascending whatever the SortType; any other field is sorted by the base rule.
   */
  function SortingCondition(c: Criteria, sortBy: Option<string>, dir: SortType): (r: Result<Ordering<InventorySessionCenter>>)
    ensures sortBy.None? ==> r == Ok(DefaultOrdering)
    ensures sortBy.Some? ==> r == BaseAddSortingCondition(FieldKey, sortBy, dir)
  {
    if sortBy.None? then Ok(DefaultOrdering) else BaseAddSortingCondition(FieldKey, sortBy, dir)
  }

  /**
   * The default ordering puts a before b exactly when a's date is earlier, or the dates are
   * equal and a's code is not after b's.
   */
  lemma DefaultOrderingOrder(a: InventorySessionCenter, b: InventorySessionCenter)
    ensures Before(DefaultOrdering, a, b) <==>
      OptIntLess(a.localSessionDate, b.localSessionDate) ||
      (a.localSessionDate == b.localSessionDate && LexLe(OptStrKey(a.pgeo), OptStrKey(b.pgeo)))
  {
    OptIntKeyThen(a.localSessionDate, OptStrKey(a.pgeo), b.localSessionDate, OptStrKey(b.pgeo));
  }

  /**
   * `ResolveChildEntities`: the center (by PGEO code), the session (by `IdSession`, always
   * given) and the local IT contact (by `IdLocalIT`), in that order, each replaced by the
   * stored record; the first one not found fails the resolution.
   */
  function Resolve(centers: seq<Center>, sessions: seq<InventorySession>, contacts: seq<LocalIT>,
                   x: InventorySessionCenter): (r: Result<InventorySessionCenter>)
    ensures r.Ok? <==>
      ResolveChildEntity(centers, CenterId, x.center, StrRef(x.pgeo), false).Ok? &&
      (exists s :: s in sessions && s.id == x.idSession) &&
      ResolveChildEntity(contacts, LocalITId, x.localIT, IntRef(x.idLocalIT), false).Ok?
    ensures r.Err? ==> r.error == NotFound
    ensures r.Ok? ==> r.value == x.(center := r.value.center, session := r.value.session, localIT := r.value.localIT)
    ensures r.Ok? && x.pgeo.Some? ==>
      r.value.center.Some? && r.value.center.value in centers && r.value.center.value.pgeo == x.pgeo.value
    ensures r.Ok? ==>
      r.value.session.Some? && r.value.session.value in sessions && r.value.session.value.id == x.idSession
    ensures r.Ok? && x.idLocalIT.Some? ==>
      r.value.localIT.Some? && r.value.localIT.value in contacts && r.value.localIT.value.id == x.idLocalIT.value
  {
    match ResolveChildEntity(centers, CenterId, x.center, StrRef(x.pgeo), false)
    case Err(e) => Err(e)
    case Ok(center) =>
      match ResolveChildEntity(sessions, SessionId, x.session, Some(IntId(x.idSession)), false)
      case Err(e) => Err(e)
      case Ok(session) =>
        match ResolveChildEntity(contacts, LocalITId, x.localIT, IntRef(x.idLocalIT), false)
        case Err(e) => Err(e)
        case Ok(contact) => Ok(x.(center := center, session := session, localIT := contact))
  }

  /** `UpdateEntityFields`: the center, session, local IT contact and every scalar value are the incoming ones. */
  function UpdateFields(existing: InventorySessionCenter, incoming: InventorySessionCenter): (r: InventorySessionCenter)
    ensures r.id == incoming.id && r.pgeo == incoming.pgeo && r.idSession == incoming.idSession
    ensures r.idLocalIT == incoming.idLocalIT && r.status == incoming.status
    ensures r.localSessionDate == incoming.localSessionDate
    ensures r.center == incoming.center && r.session == incoming.session && r.localIT == incoming.localIT
  {
    existing.(id := incoming.id, pgeo := incoming.pgeo, idSession := incoming.idSession,
              idLocalIT := incoming.idLocalIT, status := incoming.status,
              localSessionDate := incoming.localSessionDate,
              center := incoming.center, session := incoming.session, localIT := incoming.localIT)
  }

  /** The generic engine specialised to session centers. */
  const SessionCenterHooks: Hooks<InventorySessionCenter, Criteria> := Hooks(
    SessionCenterId,
    (x: InventorySessionCenter, id: Id) => BaseMatchesId(SessionCenterId, x, id),
    Query,
    ResolveSortBy,
    SortingCondition,
    UpdateFields)

  /**
   * A search with no SortBy sorts by the default ordering: the sort fields are the single
   * null field, whose ordering is the date-then-code ordering.
   */
  lemma SearchDefaultOrder(rows: seq<InventorySessionCenter>, c: Criteria, dir: SortType)
    ensures var os := ResolveOrderings(SessionCenterHooks, c, dir, SortFields(SessionCenterHooks.resolveSortBy(None)));
            os == Ok([DefaultOrdering])
  {
    var fields: seq<Option<string>> := [None];
    assert SessionCenterHooks.resolveSortBy(None) == None;
    assert SortFields(None) == fields;
    assert fields[..0] == [];
    assert SessionCenterHooks.addSortingCondition(c, None, dir) == Ok(DefaultOrdering);
    assert ResolveOrderings(SessionCenterHooks, c, dir, fields[..0]) == Ok([]);
    assert fields[0] == None && |fields| - 1 == 0;
    assert [] + [DefaultOrdering] == [DefaultOrdering];
    assert ResolveOrderings(SessionCenterHooks, c, dir, fields) == Ok([DefaultOrdering]);
  }

  /**
   * `UploadInventoryRecords(sessionCenterId, items)`: the session center is looked up in
   * full (NotFound when absent, nothing changed); then the records of its session and PGEO
   * code are listed and deleted, and `items` are inserted (a null list re-inserts every
   * remaining record).
   */
  method UploadInventoryRecords<R(==)>(repo: Repository<InventorySessionCenter, Criteria>, table: RecordTable<R>,
                                      sessionOf: R -> int, pgeoOf: R -> Option<string>,
                                      sessionCenterId: int, items: Option<seq<R>>) returns (r: Outcome)
    requires repo.hooks == SessionCenterHooks
    modifies table
    ensures var found := repo.Find(Some(IntId(sessionCenterId)), true);
      (found.Err? ==> r == Failed(found.error) && table.rows == old(table.rows)) &&
      (found.Ok? ==> r == Done && table.rows == ReplaceScope(old(table.rows),
         x => sessionOf(x) == found.value.entity.idSession && pgeoOf(x) == found.value.entity.pgeo, items))
  {
    var found := repo.Find(Some(IntId(sessionCenterId)), true);
    if found.Err? {
      return Failed(found.error);
    }
    var sc := found.value.entity;
    ReplaceRecords(table, x => sessionOf(x) == sc.idSession && pgeoOf(x) == sc.pgeo, items);
    r := Done;
  }

  /** `GetCount(criteria)` is the number of stored session centers the criteria match. */
  lemma GetCountMatches(repo: Repository<InventorySessionCenter, Criteria>, c: Criteria)
    requires repo.hooks == SessionCenterHooks
    ensures repo.GetCount(c) == |Where(repo.rows, (x: InventorySessionCenter) => Matches(x, c))|
  {
    QueryKeepsMatches(repo.rows, c);
  }
}
