/**
 * The reference-data entities the repositories store, as values. A navigation property is
 * the related record embedded in the value (null when not loaded or not set); the foreign
 * key that names it is a separate field. Status codes are integers.
 */
module Entities {
  import opened Wrappers
  import opened Text
  import opened GenericRepository

  /** A geographic pole (region) and the countries it contains. */
  datatype GeoPole = GeoPole(id: int, name: string, status: int, countries: seq<Country>)

  /** A country, with the pole it belongs to. */
  datatype Country = Country(id: int, name: Option<string>, status: int,
                             idGeoPole: Option<int>, geoPole: Option<GeoPole>)

  /** A center, keyed by its PGEO code, with its country. */
  datatype Center = Center(pgeo: string, name: string, status: int,
                           idCountry: Option<int>, country: Option<Country>)

  /** A user role. */
  datatype Role = Role(id: int, name: string)

  /** A local IT contact of a session center. */
  datatype LocalIT = LocalIT(id: int, name: string)

  /** A user, with its role, center and pole. */
  datatype User = User(id: int, login: string, firstName: Option<string>, lastName: Option<string>,
                       email: string, status: int, pgeo: Option<string>, geoPoleId: Option<int>,
                       roleId: Option<int>, passwordHash: Option<string>,
                       role: Option<Role>, center: Option<Center>, geoPole: Option<GeoPole>)

  /** An inventory session and the centers taking part in it. */
  datatype InventorySession = InventorySession(id: int, name: string, status: int,
                                               centers: seq<InventorySessionCenter>)

  /**
   * One center's part in an inventory session. The local session date is a point in time
   * (ticks), null when not set.
   */
  datatype InventorySessionCenter = InventorySessionCenter(
    id: int, pgeo: Option<string>, idSession: int, idLocalIT: Option<int>, status: int,
    localSessionDate: Option<int>,
    center: Option<Center>, session: Option<InventorySession>, localIT: Option<LocalIT>)

  function GeoPoleId(g: GeoPole): Id { IntId(g.id) }
  function CountryId(c: Country): Id { IntId(c.id) }
  /** A center's `Id` is its PGEO code. */
  function CenterId(c: Center): Id { StrId(c.pgeo) }
  function RoleId(r: Role): Id { IntId(r.id) }
  function LocalITId(l: LocalIT): Id { IntId(l.id) }
  function UserId(u: User): Id { IntId(u.id) }
  function SessionId(s: InventorySession): Id { IntId(s.id) }
  function SessionCenterId(s: InventorySessionCenter): Id { IntId(s.id) }

  /** A nullable integer foreign key as the id passed to the child lookup. */
  function IntRef(n: Option<int>): (r: Option<Id>)
    ensures r.Some? <==> n.Some?
    ensures n.Some? ==> r.value == IntId(n.value)
  {
    if n.Some? then Some(IntId(n.value)) else None
  }

  /** A nullable string foreign key as the id passed to the child lookup. */
  function StrRef(s: Option<string>): (r: Option<Id>)
    ensures r.Some? <==> s.Some?
    ensures s.Some? ==> r.value == StrId(s.value)
  {
    if s.Some? then Some(StrId(s.value)) else None
  }

  /**
   * The free-text name test of the search criteria: the field, lower-cased, contains the
   * lower-cased criterion (which is not trimmed).
   */
  predicate NameHit(field: string, name: string)
  {
    Contains(Lower(field), Lower(name))
  }

  /** The same test on a nullable column: a null column never matches. */
  predicate OptNameHit(field: Option<string>, name: string)
  {
    field.Some? && NameHit(field.value, name)
  }

  /** The status filters: equal to `Status` when given, different from `ExcludedStatus` when given. */
  predicate StatusHit(status: int, wanted: Option<int>, excluded: Option<int>)
  {
    (wanted.Some? ==> status == wanted.value) && (excluded.Some? ==> status != excluded.value)
  }

  /** The pole a center belongs to through its country, null when either link is missing. */
  function CenterPole(c: Option<Center>): (r: Option<int>)
    ensures r.Some? ==> c.Some? && c.value.country.Some? && c.value.country.value.idGeoPole == r
  {
    if c.Some? && c.value.country.Some? then c.value.country.value.idGeoPole else None
  }
}
