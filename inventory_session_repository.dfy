/**
 * The inventory-session repository: the generic engine with the session filters (some of
 * them over the session's centers), resolution of the session's center list element by
 * element, and the upload that replaces a session's inventory records.
 */
module InventorySessionRepository {
  import opened Wrappers
  import opened Queries
  import opened Ordering
  import opened Text
  import opened GenericRepository
  import opened Entities

  /** The session search criteria's own filter fields. */
  datatype Criteria = Criteria(status: Option<int>, geoPoleId: Option<int>, pgeo: Option<string>,
                               excludedStatus: Option<int>, name: Option<string>)

  /** `Centers.Any(...)` on the pole: some center of the session lies in the pole. */
  predicate AnyCenterOnPole(x: InventorySession, pole: Option<int>)
  {
    exists y :: y in x.centers && CenterPole(y.center) == pole
  }

  /** `Centers.Any(...)` on the PGEO code: some center of the session has the code. */
  predicate AnyCenterWithCode(x: InventorySession, pgeo: Option<string>)
  {
    exists y :: y in x.centers && y.pgeo == pgeo
  }

  /** Whether a session satisfies every filter the criteria set. */
  predicate Matches(x: InventorySession, c: Criteria)
  {
    StatusHit(x.status, c.status, c.excludedStatus) &&
    (c.geoPoleId.Some? ==> AnyCenterOnPole(x, c.geoPoleId)) &&
    (c.pgeo.Some? ==> AnyCenterWithCode(x, c.pgeo)) &&
    (NonBlank(c.name) ==> NameHit(x.name, c.name.value))
  }

  /** The optional filters of `ConstructQueryConditions`, in the order it applies them. */
  function Filters(c: Criteria): (fs: seq<Filter<InventorySession>>)
    ensures |fs| == 5
  {
    [Filter(c.status.Some?, (x: InventorySession) => c.status == Some(x.status)),
     Filter(c.geoPoleId.Some?, (x: InventorySession) => AnyCenterOnPole(x, c.geoPoleId)),
     Filter(c.pgeo.Some?, (x: InventorySession) => AnyCenterWithCode(x, c.pgeo)),
     Filter(c.excludedStatus.Some?, (x: InventorySession) => c.excludedStatus != Some(x.status)),
     Filter(NonBlank(c.name), (x: InventorySession) => c.name.Some? && NameHit(x.name, c.name.value))]
  }

  /** `ConstructQueryConditions`: the optional filters applied one after another. */
  function Query(q: seq<InventorySession>, c: Criteria): seq<InventorySession>
  {
    ApplyFilters(q, Filters(c))
  }

  /** Passing every active filter is matching the criteria. */
  lemma FiltersMeanMatches(c: Criteria, x: InventorySession)
    ensures PassesAll(Filters(c), x) == Matches(x, c)
  {
    var fs := Filters(c);
    assert fs[4].keep(x) == (c.name.Some? && NameHit(x.name, c.name.value));
    assert PassesAll(fs, x) <==>
      (fs[0].active ==> fs[0].keep(x)) &&
      (fs[1].active ==> fs[1].keep(x)) &&
      (fs[2].active ==> fs[2].keep(x)) &&
      (fs[3].active ==> fs[3].keep(x)) &&
      (fs[4].active ==> fs[4].keep(x));
  }

  /** The filters keep exactly the sessions that match the criteria, in their stored order. */
  lemma QueryKeepsMatches(q: seq<InventorySession>, c: Criteria)
    ensures Query(q, c) == Where(q, (x: InventorySession) => Matches(x, c))
  {
    var fs := Filters(c);
    ApplyFiltersIsWhere(q, fs);
    forall x | x in q ensures PassesAll(fs, x) == Matches(x, c) {
      FiltersMeanMatches(c, x);
    }
    WhereExt(q, x => PassesAll(fs, x), x => Matches(x, c));
  }

  /** The session properties a sort field can name. */
  function FieldKey(field: string): (k: Option<InventorySession -> Key>)
    ensures k.Some? <==> field in {"Id", "Name", "Status"}
  {
    if field == "Id" then Some((x: InventorySession) => [x.id])
    else if field == "Name" then Some((x: InventorySession) => StrKey(x.name))
    else if field == "Status" then Some((x: InventorySession) => [x.status])
    else None
  }

  /** The session's center list as the nullable references `ResolveEntities` walks. */
  function CenterRefs(cs: seq<InventorySessionCenter>): (r: seq<Option<InventorySessionCenter>>)
    ensures |r| == |cs| && forall i :: 0 <= i < |cs| ==> r[i] == Some(cs[i])
  {
    seq(|cs|, i requires 0 <= i < |cs| => Some(cs[i]))
  }

  /** The records of a fully resolved reference list. */
  function Unwrap(rs: seq<Option<InventorySessionCenter>>): (r: seq<InventorySessionCenter>)
    requires forall i :: 0 <= i < |rs| ==> rs[i].Some?
    ensures |r| == |rs| && forall i :: 0 <= i < |rs| ==> r[i] == rs[i].value
  {
    seq(|rs|, i requires 0 <= i < |rs| => rs[i].value)
  }

  /** A center part resolves exactly when a stored part has its id. */
  lemma PartResolves(parts: seq<InventorySessionCenter>, y: InventorySessionCenter)
    ensures ResolveItem(parts, SessionCenterId, Some(y)).Ok? <==> exists z :: z in parts && z.id == y.id
  {
    var r := ResolveItem(parts, SessionCenterId, Some(y));
    if exists z :: z in parts && z.id == y.id {
      var z :| z in parts && z.id == y.id;
      assert SessionCenterId(z) == SessionCenterId(y);
    }
    if r.Ok? {
      assert r.value.value in parts && r.value.value.id == y.id;
    }
  }

  /** The whole center list resolves exactly when every part has a stored part with its id. */
  lemma PartsResolve(parts: seq<InventorySessionCenter>, cs: seq<InventorySessionCenter>)
    ensures var r := ResolveAll(parts, SessionCenterId, CenterRefs(cs));
      (r.Ok? <==> forall i :: 0 <= i < |cs| ==> exists y :: y in parts && y.id == cs[i].id) &&
      (r.Ok? ==> forall i :: 0 <= i < |cs| ==>
         r.value[i].Some? && r.value[i].value in parts && r.value[i].value.id == cs[i].id)
  {
    var refs := CenterRefs(cs);
    forall i | 0 <= i < |cs|
      ensures ResolveItem(parts, SessionCenterId, refs[i]).Ok? <==> exists y :: y in parts && y.id == cs[i].id
    {
      PartResolves(parts, cs[i]);
    }
  }

  /**
   * `ResolveChildEntities`: `ResolveEntities(Centers)`, every center part of the session
   * replaced by the stored one with its id; one that is not stored fails the resolution.
   */
  function Resolve(parts: seq<InventorySessionCenter>, x: InventorySession): (r: Result<InventorySession>)
    ensures r.Err? ==> r.error == NotFound
    ensures r.Ok? <==> forall i :: 0 <= i < |x.centers| ==> exists y :: y in parts && y.id == x.centers[i].id
    ensures r.Ok? ==>
      r.value == x.(centers := r.value.centers) && |r.value.centers| == |x.centers| &&
      forall i :: 0 <= i < |x.centers| ==> r.value.centers[i] in parts && r.value.centers[i].id == x.centers[i].id
  {
    PartsResolve(parts, x.centers);
    match ResolveAll(parts, SessionCenterId, CenterRefs(x.centers))
    case Err(e) => Err(e)
    case Ok(resolved) => Ok(x.(centers := Unwrap(resolved)))
  }

  /** `UpdateEntityFields`: the center list and every scalar value are the incoming ones. */
  function UpdateFields(existing: InventorySession, incoming: InventorySession): (r: InventorySession)
    ensures r.id == incoming.id && r.name == incoming.name && r.status == incoming.status
    ensures r.centers == incoming.centers
  {
    existing.(id := incoming.id, name := incoming.name, status := incoming.status, centers := incoming.centers)
  }

  /** The generic engine specialised to sessions. */
  const SessionHooks: Hooks<InventorySession, Criteria> := Hooks(
    SessionId,
    (x: InventorySession, id: Id) => BaseMatchesId(SessionId, x, id),
    Query,
    BaseResolveSortBy,
    (c: Criteria, sortBy: Option<string>, dir: SortType) => BaseAddSortingCondition(FieldKey, sortBy, dir),
    UpdateFields)

  /**
   * `UploadInventoryRecords(sessionId, items)`: the records of the session are listed and
   * deleted, then `items` are inserted (a null list re-inserts every remaining record).
   * `sessionOf` reads a record's session id.
   */
  method UploadInventoryRecords<R(==)>(table: RecordTable<R>, sessionOf: R -> int, sessionId: int, items: Option<seq<R>>)
    modifies table
    ensures table.rows == ReplaceScope(old(table.rows), x => sessionOf(x) == sessionId, items)
  {
    ReplaceRecords(table, x => sessionOf(x) == sessionId, items);
  }

  /**
   * After an upload the session's records are exactly the uploaded records of that session,
   * and the other sessions' records are the ones stored before, then the uploaded ones.
   * A null list leaves the session without records and every other record there twice.
   */
  lemma UploadEffect<R>(rows: seq<R>, sessionOf: R -> int, sessionId: int, items: Option<seq<R>>)
    ensures var after := ReplaceScope(rows, x => sessionOf(x) == sessionId, items);
            var others := Where(rows, x => sessionOf(x) != sessionId);
            (items.Some? ==>
              Where(after, x => sessionOf(x) == sessionId) == Where(items.value, x => sessionOf(x) == sessionId) &&
              Where(after, x => sessionOf(x) != sessionId) == others + Where(items.value, x => sessionOf(x) != sessionId)) &&
            (items.None? ==>
              Where(after, x => sessionOf(x) == sessionId) == [] &&
              Where(after, x => sessionOf(x) != sessionId) == others + others)
  {
    var inScope := (x: R) => sessionOf(x) == sessionId;
    ReplaceScopeEffect(rows, inScope, items);
    var after := ReplaceScope(rows, inScope, items);
    WhereExt(after, x => !inScope(x), x => sessionOf(x) != sessionId);
    WhereExt(rows, x => !inScope(x), x => sessionOf(x) != sessionId);
    if items.Some? {
      WhereExt(items.value, x => !inScope(x), x => sessionOf(x) != sessionId);
    }
  }

  /** `GetCount(criteria)` is the number of stored sessions the criteria match. */
  lemma GetCountMatches(repo: Repository<InventorySession, Criteria>, c: Criteria)
    requires repo.hooks == SessionHooks
    ensures repo.GetCount(c) == |Where(repo.rows, (x: InventorySession) => Matches(x, c))|
  {
    QueryKeepsMatches(repo.rows, c);
  }
}
