/**
 * The user repository: the generic engine with the lookup by login, the user filters,
 * resolution of the role, center and pole, and a field copy that never changes the
 * stored password hash.
 */
module UserRepository {
  import opened Wrappers
  import opened Queries
  import opened Ordering
  import opened Text
  import opened GenericRepository
  import opened Entities

  /** The user search criteria's own filter fields. */
  datatype Criteria = Criteria(status: Option<int>, pgeo: Option<string>, regionId: Option<int>,
                               excludedStatus: Option<int>, name: Option<string>)

  /**
   * `GetByLogin(login)`: the first user, loaded in full, whose login equals `login`, or null
   * when there is none (a null login finds no user).
   */
  function GetByLogin(rows: seq<User>, login: Option<string>): (r: Option<User>)
    ensures r.Some? ==> r.value in rows && Some(r.value.login) == login
    ensures r.None? <==> forall x :: x in rows ==> Some(x.login) != login
    ensures r.Some? ==> exists k :: 0 <= k < |rows| && rows[k] == r.value &&
                                    forall i :: 0 <= i < k ==> Some(rows[i].login) != login
  {
    if rows == [] then None
    else if Some(rows[0].login) == login then Some(rows[0])
    else
      var r := GetByLogin(rows[1..], login);
      if r.Some? then
        var k :| 0 <= k < |rows[1..]| && rows[1..][k] == r.value &&
                 forall i :: 0 <= i < k ==> Some(rows[1..][i].login) != login;
        assert rows[k + 1] == r.value;
        r
      else r
  }

  /** The name filter: the text occurs in the login, first or last name, e-mail, or the center's country name. */
  predicate NameFilterHit(x: User, name: string)
  {
    NameHit(x.login, name) || OptNameHit(x.firstName, name) || OptNameHit(x.lastName, name) ||
    NameHit(x.email, name) ||
    (x.center.Some? && x.center.value.country.Some? && OptNameHit(x.center.value.country.value.name, name))
  }

  /** Whether a user satisfies every filter the criteria set. */
  predicate Matches(x: User, c: Criteria)
  {
    StatusHit(x.status, c.status, c.excludedStatus) &&
    (c.pgeo.Some? ==> x.pgeo == c.pgeo) &&
    (c.regionId.Some? ==> x.geoPoleId == c.regionId) &&
    (NonBlank(c.name) ==> NameFilterHit(x, c.name.value))
  }

  /** The optional filters of `ConstructQueryConditions`, in the order it applies them. */
  function Filters(c: Criteria): (fs: seq<Filter<User>>)
    ensures |fs| == 5
  {
    [Filter(c.status.Some?, (x: User) => c.status == Some(x.status)),
     Filter(c.pgeo.Some?, (x: User) => x.pgeo == c.pgeo),
     Filter(c.regionId.Some?, (x: User) => x.geoPoleId == c.regionId),
     Filter(c.excludedStatus.Some?, (x: User) => c.excludedStatus != Some(x.status)),
     Filter(NonBlank(c.name), (x: User) => c.name.Some? && NameFilterHit(x, c.name.value))]
  }

  /** `ConstructQueryConditions`: the optional filters applied one after another. */
  function Query(q: seq<User>, c: Criteria): seq<User>
  {
    ApplyFilters(q, Filters(c))
  }

  /** Passing every active filter is matching the criteria. */
  lemma FiltersMeanMatches(c: Criteria, x: User)
    ensures PassesAll(Filters(c), x) == Matches(x, c)
  {
    var fs := Filters(c);
    assert fs[4].keep(x) == (c.name.Some? && NameFilterHit(x, c.name.value));
    assert PassesAll(fs, x) <==>
      (fs[0].active ==> fs[0].keep(x)) &&
      (fs[1].active ==> fs[1].keep(x)) &&
      (fs[2].active ==> fs[2].keep(x)) &&
      (fs[3].active ==> fs[3].keep(x)) &&
      (fs[4].active ==> fs[4].keep(x));
  }

  /** The filters keep exactly the users that match the criteria, in their stored order. */
  lemma QueryKeepsMatches(q: seq<User>, c: Criteria)
    ensures Query(q, c) == Where(q, (x: User) => Matches(x, c))
  {
    var fs := Filters(c);
    ApplyFiltersIsWhere(q, fs);
    forall x | x in q ensures PassesAll(fs, x) == Matches(x, c) {
      FiltersMeanMatches(c, x);
    }
    WhereExt(q, x => PassesAll(fs, x), x => Matches(x, c));
  }

  /** The user properties a sort field can name. */
  function FieldKey(field: string): (k: Option<User -> Key>)
    ensures k.Some? <==> field in {"Id", "Login", "FirstName", "LastName", "Email", "Status", "PGEO", "GeoPoleId", "RoleId"}
  {
    if field == "Id" then Some((x: User) => [x.id])
    else if field == "Login" then Some((x: User) => StrKey(x.login))
    else if field == "FirstName" then Some((x: User) => OptStrKey(x.firstName))
    else if field == "LastName" then Some((x: User) => OptStrKey(x.lastName))
    else if field == "Email" then Some((x: User) => StrKey(x.email))
    else if field == "Status" then Some((x: User) => [x.status])
    else if field == "PGEO" then Some((x: User) => OptStrKey(x.pgeo))
    else if field == "GeoPoleId" then Some((x: User) => OptIntKey(x.geoPoleId))
    else if field == "RoleId" then Some((x: User) => OptIntKey(x.roleId))
    else None
  }

  /**
   * `ResolveChildEntities`: the role, the center and the pole, in that order, each replaced
   * by the stored record its key names (or its placeholder's id when the key is null); the
   * first reference that cannot be found fails the whole resolution.
   */
  function Resolve(roles: seq<Role>, centers: seq<Center>, poles: seq<GeoPole>, x: User): (r: Result<User>)
    ensures r.Ok? <==>
      ResolveChildEntity(roles, RoleId, x.role, IntRef(x.roleId), false).Ok? &&
      ResolveChildEntity(centers, CenterId, x.center, StrRef(x.pgeo), false).Ok? &&
      ResolveChildEntity(poles, GeoPoleId, x.geoPole, IntRef(x.geoPoleId), false).Ok?
    ensures r.Err? ==> r.error == NotFound
    ensures r.Ok? ==> r.value == x.(role := r.value.role, center := r.value.center, geoPole := r.value.geoPole)
    ensures r.Ok? && x.roleId.Some? ==>
      r.value.role.Some? && r.value.role.value in roles && r.value.role.value.id == x.roleId.value
    ensures r.Ok? && x.pgeo.Some? ==>
      r.value.center.Some? && r.value.center.value in centers && r.value.center.value.pgeo == x.pgeo.value
    ensures r.Ok? && x.geoPoleId.Some? ==>
      r.value.geoPole.Some? && r.value.geoPole.value in poles && r.value.geoPole.value.id == x.geoPoleId.value
  {
    match ResolveChildEntity(roles, RoleId, x.role, IntRef(x.roleId), false)
    case Err(e) => Err(e)
    case Ok(role) =>
      match ResolveChildEntity(centers, CenterId, x.center, StrRef(x.pgeo), false)
      case Err(e) => Err(e)
      case Ok(center) =>
        match ResolveChildEntity(poles, GeoPoleId, x.geoPole, IntRef(x.geoPoleId), false)
        case Err(e) => Err(e)
        case Ok(pole) => Ok(x.(role := role, center := center, geoPole := pole))
  }

  /**
   * `UpdateEntityFields`: the stored password hash is kept; every other value, the role,
   * center and pole included, is the incoming one.
   */
  function UpdateFields(existing: User, incoming: User): (r: User)
    ensures r.passwordHash == existing.passwordHash
    ensures r.(passwordHash := incoming.passwordHash) == incoming
  {
    incoming.(passwordHash := existing.passwordHash)
  }

  /** The generic engine specialised to users. */
  const UserHooks: Hooks<User, Criteria> := Hooks(
    UserId,
    (x: User, id: Id) => BaseMatchesId(UserId, x, id),
    Query,
    BaseResolveSortBy,
    (c: Criteria, sortBy: Option<string>, dir: SortType) => BaseAddSortingCondition(FieldKey, sortBy, dir),
    UpdateFields)

  /**
   * `Update(user)` on the user repository, with the role, center and pole references resolved
   * against their tables. No stored password hash ever changes; on success the stored user
   * with the id takes every other value of the resolved incoming user, and no other user changes.
   */
  method UpdateUser(repo: Repository<User, Criteria>, user: Option<User>,
                    roles: seq<Role>, centers: seq<Center>, poles: seq<GeoPole>) returns (r: Outcome)
    requires repo.hooks == UserHooks
    modifies repo
    ensures |repo.rows| == |old(repo.rows)|
    ensures forall k :: 0 <= k < |repo.rows| ==> repo.rows[k].passwordHash == old(repo.rows[k].passwordHash)
    ensures r == Done ==>
      user.Some? && Resolve(roles, centers, poles, user.value).Ok? &&
      old(repo.IndexOf(UserId(user.value))).Some? &&
      var k := old(repo.IndexOf(UserId(user.value))).value;
      repo.rows[k].(passwordHash := user.value.passwordHash) == Resolve(roles, centers, poles, user.value).value.(passwordHash := user.value.passwordHash) &&
      forall i :: 0 <= i < |repo.rows| && i != k ==> repo.rows[i] == old(repo.rows[i])
    ensures r != Done ==> repo.rows == old(repo.rows)
  {
    r := repo.Update(user, (x: User) => Resolve(roles, centers, poles, x));
  }

  /** `GetCount(criteria)` is the number of stored users the criteria match. */
  lemma GetCountMatches(repo: Repository<User, Criteria>, c: Criteria)
    requires repo.hooks == UserHooks
    ensures repo.GetCount(c) == |Where(repo.rows, (x: User) => Matches(x, c))|
  {
    QueryKeepsMatches(repo.rows, c);
  }
}
