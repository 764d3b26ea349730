# VSchool repositories in Dafny

A model of the data-access core of the VSchool back end (namespace
`CarInventory.Data.Repositories.Impl`). It covers two parts.

**The generic engine** `BaseGenericRepository<T, S>` provides:
- `Search` with paging, filtering, counting and sorting;
- `GetCount`;
- `Get` / `GetShallow`;
- `Create`, `Update` and `Delete`;
- child-reference resolution.

**The entity repositories** that plug their overrides into it:
- centers, users, countries and geographical poles;
- inventory sessions and session centers;
- the translated-text repository, which builds the corporate-code tables.

The storage provider is an in-memory table. `GenericRepository.Repository` holds `rows`, the
stored records in storage order, and `saveCount`, the number of `SaveChanges` commits. The bulk
helpers write to a `RecordTable`. Each entity's overrides of the engine's virtual members are
one `Hooks` value: the id, `GetById`, `ConstructQueryConditions`, `ResolveSortBy`,
`AddSortingCondition` and `UpdateEntityFields`. Entities are values (`Entities`), and their
navigation properties are nested values.

Module layout:
- `Wrappers`: Option and Result.
- `Queries`: LINQ `Where`, `Skip` and `Take`, and the optional-filter chain.
- `Ordering`: sort keys and `OrderBy` as a stable sort.
- `Text`: lower-casing, substring search, `Trim`, `Split` and `int.TryParse`.
- `GenericRepository`: the engine.
- `Entities`: the records.
- One module per repository file.

`Search` applies each field of a comma-separated `SortBy` as a fresh `OrderBy` with the same
`SortType`, so the **last** field listed is the primary key. In this model `OrderBy` is a stable
sort on sequences, so each earlier field breaks the ties of the later ones
(`GenericRepository.SortAllSorted`).

## Model

| member | source | states |
|---|---|---|
| GenericRepository.IdText | VSchool/Data/Repositories/Impl/CenterRepository.cs:54 | `id.ToString()`: a string id is itself, an integer id is its decimal text |
| GenericRepository.BaseResolveSortBy | VSchool/Data/Repositories/Impl/BaseGenericRepository.cs:424-433 | a null SortBy becomes "Id"; any other value is kept |
| GenericRepository.BaseAddSortingCondition | VSchool/Data/Repositories/Impl/BaseGenericRepository.cs:502-507 | the ordering is the key of the property named (by its exact name, white space around it trimmed) in the criteria's direction; a null or unknown property fails |
| GenericRepository.CheckSearchCriteria | VSchool/Data/Repositories/Impl/BaseGenericRepository.cs:193-195 | fails with an invalid argument exactly when PageIndex < 0, or PageIndex > 0 and PageSize <= 0 |
| GenericRepository.Page | VSchool/Data/Repositories/Impl/BaseGenericRepository.cs:239-242 | the page is the slice starting at PageSize*(PageIndex-1), at most PageSize long, empty past the end |
| GenericRepository.PageOverflowCounterexample | VSchool/Data/Repositories/Impl/BaseGenericRepository.cs:241 | with 32-bit arithmetic, page 65537 of size 65536 wraps to offset 0 and returns the first record instead of an empty page |
| GenericRepository.PageAsWrittenAgrees | VSchool/Data/Repositories/Impl/BaseGenericRepository.cs:241 | when the product fits in 32 bits, the page as written is the intended page |
| GenericRepository.SortFields | VSchool/Data/Repositories/Impl/BaseGenericRepository.cs:219-236 | a SortBy containing "," is split into its fields, in order; any other value, null included, is applied once |
| GenericRepository.ResolveOrderings | VSchool/Data/Repositories/Impl/BaseGenericRepository.cs:222-228 | on success there is one ordering per field, each the one `AddSortingCondition` gives for that field |
| GenericRepository.ResolveOrderingsErrPersists | VSchool/Data/Repositories/Impl/BaseGenericRepository.cs:222-228 | once a field fails, the fields after it do not change the error |
| GenericRepository.ResolveOrderingsError | VSchool/Data/Repositories/Impl/BaseGenericRepository.cs:222-228 | a failure carries the error of one of the fields |
| GenericRepository.FirstFailure | VSchool/Data/Repositories/Impl/BaseGenericRepository.cs:222-228 | a failed resolution has a first failing field: every field before it resolves and it does not |
| GenericRepository.FirstFailureAt | VSchool/Data/Repositories/Impl/BaseGenericRepository.cs:222-228 | a field that fails after every earlier field resolved is the first failing field, and the whole resolution fails |
| GenericRepository.SortAll | VSchool/Data/Repositories/Impl/BaseGenericRepository.cs:222-228 | applying the orderings one after another keeps the records, as a permutation |
| GenericRepository.SortAllSorted | VSchool/Data/Repositories/Impl/BaseGenericRepository.cs:219-228 | the result is sorted with the last ordering applied as the primary key, and ties broken by the earlier ones in reverse order |
| GenericRepository.SortedMatches | VSchool/Data/Repositories/Impl/BaseGenericRepository.cs:205-236 | the sorted records are a permutation of the filtered records |
| GenericRepository.SearchRejectsBadPaging | VSchool/Data/Repositories/Impl/BaseGenericRepository.cs:202-204 | invalid paging makes the search fail with an invalid argument, whatever the other fields |
| GenericRepository.SearchTotalCount | VSchool/Data/Repositories/Impl/BaseGenericRepository.cs:205-214 | TotalCount is the filtered count, the same as `GetCount`, whatever the valid page index and size |
| GenericRepository.SortedMatchesSorted | VSchool/Data/Repositories/Impl/BaseGenericRepository.cs:216-236 | before paging, the records are sorted by the resolved orderings, with the last one primary |
| GenericRepository.SearchUnpaged | VSchool/Data/Repositories/Impl/BaseGenericRepository.cs:238-245 | with page index 0, the items are every match: as many as TotalCount, a permutation of the filtered records, and sorted |
| GenericRepository.PageSorted | VSchool/Data/Repositories/Impl/BaseGenericRepository.cs:239-242 | a page of a sorted sequence is sorted |
| GenericRepository.SearchPaged | VSchool/Data/Repositories/Impl/BaseGenericRepository.cs:239-242 | with page index > 0, the items are that page of the unpaged items: at most PageSize of them, still sorted |
| GenericRepository.FindIndex | VSchool/Data/Repositories/Impl/BaseGenericRepository.cs:482-485 | `FirstOrDefault`: the first matching position, or none when no record matches |
| GenericRepository.FindByKey | VSchool/Data/Repositories/Impl/BaseGenericRepository.cs:376 | `DbSet.Find`: a stored record with that key, or null only when none has it |
| GenericRepository.ResolveChildEntity | VSchool/Data/Repositories/Impl/BaseGenericRepository.cs:361-384 | the effective id is the explicit id, else the placeholder's id. With none: required gives an invalid argument, optional gives null. With one: NotFound exactly when no stored record has it, otherwise the stored record with that id |
| GenericRepository.ResolveItem | VSchool/Data/Repositories/Impl/BaseGenericRepository.cs:343 | a null element stays null; otherwise it is the stored record with its id, or NotFound |
| GenericRepository.ResolveAll | VSchool/Data/Repositories/Impl/BaseGenericRepository.cs:336-346 | succeeds exactly when every element resolves; the result keeps length and order, element by element |
| GenericRepository.ResolveEntities | VSchool/Data/Repositories/Impl/BaseGenericRepository.cs:336-346 | a null list is left alone. Otherwise each element is overwritten in place with its resolved record. On failure, the elements before the failing one are replaced and the rest are untouched |
| GenericRepository.ResolveAllErr | VSchool/Data/Repositories/Impl/BaseGenericRepository.cs:341-344 | one unresolvable element fails the list |
| GenericRepository.Repository.IndexOf | VSchool/Data/Repositories/Impl/BaseGenericRepository.cs:482-485 | the position of the first record `GetById` accepts, or none |
| GenericRepository.Repository.Find | VSchool/Data/Repositories/Impl/BaseGenericRepository.cs:456-474 | a null id is ArgumentNull; NotFound exactly when no record matches; otherwise the first match, hydrated exactly when `full` is set |
| GenericRepository.Repository.Get | VSchool/Data/Repositories/Impl/BaseGenericRepository.cs:124-127 | a null id is ArgumentNull; NotFound exactly when no record matches the id; otherwise the first matching record, hydrated |
| GenericRepository.Repository.GetShallow | VSchool/Data/Repositories/Impl/BaseGenericRepository.cs:135-138 | the same lookup as `Get` (ArgumentNull, NotFound iff no match, else the first matching record), not hydrated |
| GenericRepository.Repository.GetAll | VSchool/Data/Repositories/Impl/BaseGenericRepository.cs:152-155 | every stored record, unfiltered, in storage order |
| GenericRepository.Repository.GetCount | VSchool/Data/Repositories/Impl/BaseGenericRepository.cs:256-261 | the number of records the criteria's filters keep |
| GenericRepository.Repository.Create | VSchool/Data/Repositories/Impl/BaseGenericRepository.cs:56-66 | a null entity or a failing resolution changes nothing; otherwise the resolved entity is appended and committed once |
| GenericRepository.Repository.Update | VSchool/Data/Repositories/Impl/BaseGenericRepository.cs:90-103 | a null entity is ArgumentNull. A missing record is NotFound before any resolution, and a failing resolution changes nothing. Otherwise only the stored record changes, to `UpdateEntityFields(stored, resolved)`, with one commit |
| GenericRepository.Repository.Delete | VSchool/Data/Repositories/Impl/BaseGenericRepository.cs:175-184 | a null id is ArgumentNull and a missing record is NotFound, with nothing changed; otherwise exactly that record is removed, with one commit |
| GenericRepository.Repository.ApplySortFields | VSchool/Data/Repositories/Impl/BaseGenericRepository.cs:219-235 | the query is sorted by every field's ordering in turn and `criteria.SortBy` ends on the last field; or the first failing field's error, with `criteria.SortBy` left on that failing field |
| GenericRepository.Repository.Search | VSchool/Data/Repositories/Impl/BaseGenericRepository.cs:202-247 | null criteria is ArgumentNull. Otherwise the result is the search specification of the criteria and no other criteria field changes. Invalid paging leaves SortBy as it was; a failed sort leaves SortBy on the first field that failed; on success SortBy holds the last field applied |
| GenericRepository.RecordTable.DeleteChildEntity | VSchool/Data/Repositories/Impl/BaseGenericRepository.cs:307-314 | a null entity removes nothing; otherwise the entity is gone and every other record stays, in order |
| GenericRepository.RecordTable.DeleteAll | VSchool/Data/Repositories/Impl/BaseRepository.cs:105-116 | exactly the listed records are removed |
| GenericRepository.RecordTable.InsertAll | VSchool/Data/Repositories/Impl/BaseRepository.cs:81-86 | the records are appended; a null list appends every stored record again |
| GenericRepository.ReplaceScopeEffect | VSchool/Data/Repositories/Impl/InventorySessionRepository.cs:40-46 | after a scoped replace, the records in scope are exactly the new ones in scope; the others are the old out-of-scope records, in order, then the new out-of-scope ones. With a null list nothing is in scope and every out-of-scope record is there twice |
| GenericRepository.ReplaceRecords | VSchool/Data/Repositories/Impl/InventorySessionRepository.cs:43-45 | listing the records in scope, deleting them and inserting the items is a scoped replace |
| Queries.Where | VSchool/Data/Repositories/Impl/GeoPoleRepository.cs:46 | keeps exactly the elements satisfying the predicate, as a sub-multiset |
| Queries.WhereIsSubsequence | VSchool/Data/Repositories/Impl/GeoPoleRepository.cs:41-61 | a filter keeps the original order |
| Queries.ApplyFiltersIsWhere | VSchool/Data/Repositories/Impl/GeoPoleRepository.cs:41-61 | a chain of optional `Where` calls is one `Where` on the conjunction of the active filters |
| Queries.Skip | VSchool/Data/Repositories/Impl/BaseGenericRepository.cs:241 | LINQ `Skip` on every count, negative and past-the-end included |
| Queries.Take | VSchool/Data/Repositories/Impl/BaseGenericRepository.cs:241 | LINQ `Take` on every count, negative and past-the-end included |
| Ordering.SortBy | VSchool/Data/Repositories/Impl/BaseGenericRepository.cs:504-506 | `OrderBy` / `OrderByDescending`: a sorted permutation |
| Ordering.SortByStable | VSchool/Data/Repositories/Impl/BaseGenericRepository.cs:504-506 | sorting a sequence already sorted by earlier orderings keeps it sorted by them among the records the new ordering ties |
| Ordering.SortByTies | VSchool/Data/Repositories/Impl/BaseGenericRepository.cs:504-506 | the sort is stable: the records of one key come out in the order they went in |
| Ordering.InsertTies | VSchool/Data/Repositories/Impl/BaseGenericRepository.cs:504-506 | a stable insertion puts a record after every record with its key |
| Ordering.OptIntKeyThen | VSchool/Data/Repositories/Impl/InventorySessionCenterRepository.cs:158 | a nullable-integer key followed by a second key orders null first, then by value, then by the second key |
| Text.Lower | VSchool/Data/Repositories/Impl/CenterRepository.cs:89-90 | `ToLower`, character by character |
| Text.NonBlankIff | VSchool/Data/Repositories/Impl/CenterRepository.cs:87 | `Name != null && Name.Trim().Length > 0` holds exactly when the name has a non-white-space character |
| Text.Split | VSchool/Data/Repositories/Impl/BaseGenericRepository.cs:221 | `Split(",")` yields at least one part, and no part contains the separator |
| Text.JoinSplit | VSchool/Data/Repositories/Impl/BaseGenericRepository.cs:221 | joining the parts with the separator gives back the string |
| Text.TryParseInt | VSchool/Data/Repositories/Impl/TranslatedTextRepository.cs:82 | `int.TryParse` succeeds only with a 32-bit value |
| Text.StripTrailingNul | VSchool/Data/Repositories/Impl/TranslatedTextRepository.cs:82 | the run of NUL characters `int.TryParse` accepts at the end: what is left is a prefix not ending in NUL, and everything cut off is NUL |
| Text.TrailingNulIgnored | VSchool/Data/Repositories/Impl/TranslatedTextRepository.cs:82 | one more NUL at the end of the input never changes the parse |
| Text.ParseWithTrailingNul | VSchool/Data/Repositories/Impl/TranslatedTextRepository.cs:82 | the digits of a non-negative 32-bit value followed by a NUL parse to that value, as "12" then NUL gives 12 |
| Text.ParseNegToString | VSchool/Data/Repositories/Impl/TranslatedTextRepository.cs:82 | a minus sign before the digits of a magnitude up to 2^31 parses to the negative value |
| Text.ParseIntToString | VSchool/Data/Repositories/Impl/TranslatedTextRepository.cs:82 | every 32-bit integer's decimal text parses back to it |
| Entities.CenterPole | VSchool/Data/Repositories/Impl/InventorySessionCenterRepository.cs:52 | `Center.Country.IdGeoPole`, non-null only through a center and its country |
| GeoPoleRepository.FiltersMeanMatches | VSchool/Data/Repositories/Impl/GeoPoleRepository.cs:44-58 | passing the active filters is equality with Status, inequality with ExcludedStatus, and a case-insensitive Name substring when the name is non-blank |
| GeoPoleRepository.QueryKeepsMatches | VSchool/Data/Repositories/Impl/GeoPoleRepository.cs:41-61 | the filter chain keeps exactly the matching poles, in stored order |
| GeoPoleRepository.GetCountMatches | VSchool/Data/Repositories/Impl/BaseGenericRepository.cs:256-261 | `GetCount` is the number of stored poles the criteria match |
| GeoPoleRepository.BlankCriteriaKeepAll | VSchool/Data/Repositories/Impl/GeoPoleRepository.cs:41-61 | with no status and a blank name, every pole passes |
| GeoPoleRepository.QueryIsSubsequence | VSchool/Data/Repositories/Impl/GeoPoleRepository.cs:41-61 | the result is a subsequence of the stored poles |
| GeoPoleRepository.FieldKey | VSchool/Data/Repositories/Impl/BaseGenericRepository.cs:505-506 | the pole properties a SortBy can name |
| GeoPoleRepository.UpdateFields | VSchool/Data/Repositories/Impl/BaseGenericRepository.cs:392-395 | the scalar values become the incoming ones and the country list is kept |
| CountryRepository.FiltersMeanMatches | VSchool/Data/Repositories/Impl/CountryRepository.cs:33-52 | Status equal, IdGeoPole equal, ExcludedStatus different, and a case-insensitive Name substring, each only when set |
| CountryRepository.QueryKeepsMatches | VSchool/Data/Repositories/Impl/CountryRepository.cs:30-55 | the filter chain keeps exactly the matching countries, in stored order |
| CountryRepository.GetCountMatches | VSchool/Data/Repositories/Impl/BaseGenericRepository.cs:256-261 | `GetCount` is the number of stored countries the criteria match |
| CountryRepository.FieldKey | VSchool/Data/Repositories/Impl/BaseGenericRepository.cs:505-506 | the country properties a SortBy can name |
| CountryRepository.Resolve | VSchool/Data/Repositories/Impl/CountryRepository.cs:90-93 | the pole becomes the stored pole named by IdGeoPole, or by the placeholder's id; only the pole changes; an unknown id is NotFound |
| CountryRepository.UpdateFields | VSchool/Data/Repositories/Impl/CountryRepository.cs:101-106 | the pole and every scalar value are the incoming ones |
| CenterRepository.FirstWithCode | VSchool/Data/Repositories/Impl/CenterRepository.cs:39 | the first center with the code, or none |
| CenterRepository.GetByPgeo | VSchool/Data/Repositories/Impl/CenterRepository.cs:32-44 | a null code is ArgumentNull; NotFound exactly when no center has the code; otherwise the first stored center with it |
| CenterRepository.GetByIdIsGetByPgeo | VSchool/Data/Repositories/Impl/CenterRepository.cs:52-56 | the generic lookup by id finds the same center as the lookup by the id's text as a PGEO code |
| CenterRepository.FiltersMeanMatches | VSchool/Data/Repositories/Impl/CenterRepository.cs:67-91 | RegionId via the country, PGEO, Status and ExcludedStatus, and a case-insensitive substring of Name or PGEO, each only when set |
| CenterRepository.QueryKeepsMatches | VSchool/Data/Repositories/Impl/CenterRepository.cs:64-94 | the filter chain keeps exactly the matching centers, in stored order |
| CenterRepository.GetCountMatches | VSchool/Data/Repositories/Impl/BaseGenericRepository.cs:256-261 | `GetCount` is the number of stored centers the criteria match |
| CenterRepository.FieldKey | VSchool/Data/Repositories/Impl/BaseGenericRepository.cs:505-506 | the center properties a SortBy can name; Id is the PGEO code |
| CenterRepository.AssociatedRank | VSchool/Data/Repositories/Impl/CenterRepository.cs:108-110 | ascending ranks associated centers 0, descending ranks them 1 |
| CenterRepository.SortingCondition | VSchool/Data/Repositories/Impl/CenterRepository.cs:104-114 | any SortBy other than "IsAssociated" with associated centers falls through to the base ordering |
| CenterRepository.IsAssociatedOrder | VSchool/Data/Repositories/Impl/CenterRepository.cs:106-111 | "IsAssociated" in any case, with associated centers set: ascending puts associated centers first, descending last, ties by ascending PGEO |
| CenterRepository.Resolve | VSchool/Data/Repositories/Impl/CenterRepository.cs:149-152 | the country becomes the stored country named by IdCountry, or by the placeholder's id; only the country changes; an unknown id is NotFound |
| CenterRepository.UpdateFields | VSchool/Data/Repositories/Impl/CenterRepository.cs:160-164 | the country and every scalar value are the incoming ones |
| UserRepository.GetByLogin | VSchool/Data/Repositories/Impl/UserRepository.cs:31-35 | the first user with the login, or null exactly when no user has it |
| UserRepository.FiltersMeanMatches | VSchool/Data/Repositories/Impl/UserRepository.cs:46-75 | Status, PGEO, RegionId against GeoPoleId, ExcludedStatus, and a case-insensitive substring of login, first or last name, e-mail or the center's country name, with the null fields guarded |
| UserRepository.QueryKeepsMatches | VSchool/Data/Repositories/Impl/UserRepository.cs:43-78 | the filter chain keeps exactly the matching users, in stored order |
| UserRepository.GetCountMatches | VSchool/Data/Repositories/Impl/BaseGenericRepository.cs:256-261 | `GetCount` is the number of stored users the criteria match |
| UserRepository.FieldKey | VSchool/Data/Repositories/Impl/BaseGenericRepository.cs:505-506 | the user properties a SortBy can name |
| UserRepository.Resolve | VSchool/Data/Repositories/Impl/UserRepository.cs:117-122 | the role, center and pole are resolved by RoleId, PGEO and GeoPoleId; the first failure is NotFound; nothing else changes |
| UserRepository.UpdateFields | VSchool/Data/Repositories/Impl/UserRepository.cs:130-139 | the stored password hash is kept and everything else is the incoming record |
| UserRepository.UpdateUser | VSchool/Data/Repositories/Impl/UserRepository.cs:130-139 | the generic `Update` with the user overrides never changes any stored password hash; on success the matched user is the resolved incoming user except for its hash, and no other row changes; on failure nothing changes |
| InventorySessionRepository.FiltersMeanMatches | VSchool/Data/Repositories/Impl/InventorySessionRepository.cs:57-81 | Status and ExcludedStatus; some center whose country has the pole; some center with the PGEO; and a case-insensitive Name substring |
| InventorySessionRepository.QueryKeepsMatches | VSchool/Data/Repositories/Impl/InventorySessionRepository.cs:54-84 | the filter chain keeps exactly the matching sessions, in stored order |
| InventorySessionRepository.GetCountMatches | VSchool/Data/Repositories/Impl/BaseGenericRepository.cs:256-261 | `GetCount` is the number of stored sessions the criteria match |
| InventorySessionRepository.FieldKey | VSchool/Data/Repositories/Impl/BaseGenericRepository.cs:505-506 | the session properties a SortBy can name |
| InventorySessionRepository.PartsResolve | VSchool/Data/Repositories/Impl/InventorySessionRepository.cs:107-110 | the center list resolves exactly when every part has a stored part with its id, and each resolved part is that stored part |
| InventorySessionRepository.Resolve | VSchool/Data/Repositories/Impl/InventorySessionRepository.cs:107-110 | succeeds exactly when every center part is stored; each is then replaced by the stored one with its id, keeping length and order |
| InventorySessionRepository.UpdateFields | VSchool/Data/Repositories/Impl/InventorySessionRepository.cs:118-122 | the center list is replaced wholesale and the scalars are the incoming ones |
| InventorySessionRepository.UploadInventoryRecords | VSchool/Data/Repositories/Impl/InventorySessionRepository.cs:40-46 | the table becomes the other sessions' records followed by the items; a null list of items re-inserts the other sessions' records |
| InventorySessionRepository.UploadEffect | VSchool/Data/Repositories/Impl/InventorySessionRepository.cs:40-46 | afterwards the session's records are exactly the uploaded ones of that session, and the other sessions' records are kept in order; with a null list the session has no records and every other record is there twice |
| InventorySessionCenterRepository.FiltersMeanMatches | VSchool/Data/Repositories/Impl/InventorySessionCenterRepository.cs:50-68 | GeoPoleId via the center's country, PGEO, ExcludedStatus and SessionId, each only when set |
| InventorySessionCenterRepository.QueryKeepsMatches | VSchool/Data/Repositories/Impl/InventorySessionCenterRepository.cs:47-71 | the filter chain keeps exactly the matching session centers, in stored order |
| InventorySessionCenterRepository.GetCountMatches | VSchool/Data/Repositories/Impl/BaseGenericRepository.cs:256-261 | `GetCount` is the number of stored session centers the criteria match |
| InventorySessionCenterRepository.FieldKey | VSchool/Data/Repositories/Impl/BaseGenericRepository.cs:505-506 | the session-center properties a SortBy can name |
| InventorySessionCenterRepository.ResolveSortBy | VSchool/Data/Repositories/Impl/InventorySessionCenterRepository.cs:140-144 | SortBy is unchanged, so null stays null |
| InventorySessionCenterRepository.SortingCondition | VSchool/Data/Repositories/Impl/InventorySessionCenterRepository.cs:154-164 | a null SortBy gives the date-then-code ordering, ascending whatever the SortType; any other value gives the base ordering |
| InventorySessionCenterRepository.DefaultOrderingOrder | VSchool/Data/Repositories/Impl/InventorySessionCenterRepository.cs:158 | by LocalSessionDate with null first, then by PGEO with null first |
| InventorySessionCenterRepository.SearchDefaultOrder | VSchool/Data/Repositories/Impl/InventorySessionCenterRepository.cs:140-159 | a search without SortBy sorts by the default date-then-code ordering alone |
| InventorySessionCenterRepository.Resolve | VSchool/Data/Repositories/Impl/InventorySessionCenterRepository.cs:112-117 | the center, session and local IT are resolved by PGEO, IdSession and IdLocalIT; the first failure is NotFound; nothing else changes |
| InventorySessionCenterRepository.UpdateFields | VSchool/Data/Repositories/Impl/InventorySessionCenterRepository.cs:125-131 | the three references and every scalar are the incoming ones |
| InventorySessionCenterRepository.UploadInventoryRecords | VSchool/Data/Repositories/Impl/InventorySessionCenterRepository.cs:31-39 | an absent session center fails with NotFound and changes nothing; otherwise the records of its (IdSession, PGEO) pair are replaced by the items, and a null list re-inserts the records outside that pair |
| TranslatedTextRepository.KindIndex | VSchool/Data/Repositories/Impl/TranslatedTextRepository.cs:39-52 | every corporate-code table has its place in the fixed order |
| TranslatedTextRepository.DefaultKindsListEachTableOnce | VSchool/Data/Repositories/Impl/TranslatedTextRepository.cs:39-52 | the fixed order lists the 11 tables, each exactly once |
| TranslatedTextRepository.CorporateCodeValues | VSchool/Data/Repositories/Impl/TranslatedTextRepository.cs:103-115 | the table's mapped name and every row as (id, value), in stored order |
| TranslatedTextRepository.GetDefaultText | VSchool/Data/Repositories/Impl/TranslatedTextRepository.cs:37-55 | 11 corporate codes, the i-th being the values of the i-th table in the fixed order |
| TranslatedTextRepository.DefaultTextCoversEveryTable | VSchool/Data/Repositories/Impl/TranslatedTextRepository.cs:37-55 | every table's values appear in the default text |
| TranslatedTextRepository.Translations | VSchool/Data/Repositories/Impl/TranslatedTextRepository.cs:67-69 | exactly the rows in the language, and in the variant when one is given |
| TranslatedTextRepository.TableNames | VSchool/Data/Repositories/Impl/TranslatedTextRepository.cs:72 | the distinct table names, each present exactly when some row has it |
| TranslatedTextRepository.FirstPos | VSchool/Data/Repositories/Impl/TranslatedTextRepository.cs:72 | the position of the first row of a table: that row has the table and no earlier row does; the row count when no row has it |
| TranslatedTextRepository.TableNamesFirstAppearance | VSchool/Data/Repositories/Impl/TranslatedTextRepository.cs:72 | the table names come in order of their first row: each has a row, and earlier names have earlier first rows |
| TranslatedTextRepository.OfTable | VSchool/Data/Repositories/Impl/TranslatedTextRepository.cs:72 | exactly the rows of one table |
| TranslatedTextRepository.GroupBy | VSchool/Data/Repositories/Impl/TranslatedTextRepository.cs:72 | one group per distinct table name, in order of first appearance, holding that table's rows in order |
| TranslatedTextRepository.GroupSizesTotal | VSchool/Data/Repositories/Impl/TranslatedTextRepository.cs:72 | the groups partition the rows: their sizes add up to the number of rows |
| TranslatedTextRepository.ItemOf | VSchool/Data/Repositories/Impl/TranslatedTextRepository.cs:82-89 | a row yields an item exactly when its key parses; the item is (parsed key, translated value) |
| TranslatedTextRepository.ParsedItemsSound | VSchool/Data/Repositories/Impl/TranslatedTextRepository.cs:80-90 | every item comes from a row of the group whose key parses to it |
| TranslatedTextRepository.ParsedItemsComplete | VSchool/Data/Repositories/Impl/TranslatedTextRepository.cs:80-90 | every row of the group whose key parses yields its item |
| TranslatedTextRepository.ParsedItemsInOrder | VSchool/Data/Repositories/Impl/TranslatedTextRepository.cs:80-90 | the items are those of the rows whose key parses, one per row, in row order |
| TranslatedTextRepository.ParseGroup | VSchool/Data/Repositories/Impl/TranslatedTextRepository.cs:80-90 | the inner loop builds the group's parsed items, in row order |
| TranslatedTextRepository.BuildGroupCodes | VSchool/Data/Repositories/Impl/TranslatedTextRepository.cs:72-93 | the outer loop turns each group, in order, into its table's corporate code |
| TranslatedTextRepository.GetTranslatedText | VSchool/Data/Repositories/Impl/TranslatedTextRepository.cs:65-96 | the nested loops build one corporate code per group, its items the group's parsed items |
| TranslatedTextRepository.TranslatedTablesDistinct | VSchool/Data/Repositories/Impl/TranslatedTextRepository.cs:72-78 | one corporate code per table name among the filtered rows, none twice, in order of each table's first filtered row; a group with no parsable key still appears |
| TranslatedTextRepository.TranslatedItemsSound | VSchool/Data/Repositories/Impl/TranslatedTextRepository.cs:80-92 | each item of table t comes from a filtered row of t whose key parses to its code, and carries that row's text |
| TranslatedTextRepository.TranslatedItemsComplete | VSchool/Data/Repositories/Impl/TranslatedTextRepository.cs:80-92 | each filtered row whose key parses appears as an item of its table's corporate code |
| TranslatedTextRepository.TranslatedItemsBound | VSchool/Data/Repositories/Impl/TranslatedTextRepository.cs:67-95 | the number of items is at most the number of filtered rows |

## Left out

- Query execution by EF Core, with `IQueryable` translation to SQL, is replaced by the same operators on sequences. SQL collation is replaced by ordinal comparison of characters, and SQL null comparison by C# null semantics.
- `Include` / `ThenInclude` loading (`IncludeNavigationProperties`, `IncludeSearchItemNavigationProperties`) is not modelled. Navigation values are part of each record, and a lookup reports loading as a flag. The filters read the navigation values the record holds.
- `PopulateAdditionalFields` and `QueryFull` are left out: the first does nothing in every core repository, the second only builds a query.
- `DeleteAssociatedEntities` does nothing in every core repository, so `Delete` removes only the record.
- `SaveChanges` and the bulk helpers are left out: their batching (batch size 2000), transactions, concurrency and row-version checks do not appear. A commit is a counter.
- `DeleteAll` with a null list (delete every record of the type) is left out. In the core it is called only with the list of existing records.
- Storage-assigned keys and constraint violations on insert are not modelled. `Create` returns the resolved entity as it is appended.
- `GenericRepository.Repository.Update` does not model aliasing: the source mutates the caller's entity objects in place, and the model returns new values.
  - `UserRepository.UpdateFields` returns the stored record with the kept hash. It does not model that the source also overwrites the incoming entity's `PasswordHash`.
  - The `Resolve` functions return the resolved entity rather than assigning its navigation fields in place.
- The source of `Util.CheckSearchCriteria`, `Util.ValidateArgumentNotNull`, `Util.CheckFoundEntity`, `SearchResult` and the criteria and entity classes is not part of this model. Their behaviour is taken from the doc comments and the call sites in BaseGenericRepository.cs (lines 193-195, 202-214, 446-448 and 458-466), and they are modelled as `CheckSearchCriteria`, `SearchResult`, `SearchCriteria` and the `Entities` datatypes. Nullability of entity fields is modelled as it is used: `Option` where the code null-checks the field.
- `GenericRepository.Repository.Find` does not reject a non-positive id. The doc comment at BaseGenericRepository.cs lines 444-445 promises an ArgumentException for one, but the code at line 458 only checks for null, so `Find`, `Get`, `GetShallow`, `Update` and `Delete` look such an id up like any other.
- `GenericRepository.Repository.GetCount` does not model null criteria; `ConstructQueryConditions` would dereference it.
- `GenericRepository.BaseAddSortingCondition` rests on an assumption: the string overloads of `OrderBy` / `OrderByDescending` it calls (BaseGenericRepository.cs lines 504-506) come from a helper that is not part of this model. The model takes a SortBy field to name one property by its exact name with white space around it trimmed, as each `FieldKey` lists; any other field fails. If the helper does not trim, a field such as " Status" from "Name, Status" would fail where the model sorts by `Status`.
- `Ordering.SortBy` is a stable sort, so records with equal keys keep their storage order and earlier `SortBy` fields break ties. EF Core translates the chained `OrderBy` calls to SQL `ORDER BY`, which promises neither; the tie-breaking is a choice of the sequence model.
- `InventorySession.Centers` is a list of records, never null and with no null element, so the null list that `ResolveEntities` skips and a null element that `ResolveChildEntity` turns into null (BaseGenericRepository.cs lines 339 and 364-372) do not arise for sessions.
- `Center.PGEO`, a center's key, is a non-null string, so the ArgumentNull that `Update` raises for a null `entity.Id` (BaseGenericRepository.cs line 94) does not arise for centers.
- `Text.Lower` lower-cases ASCII letters only. Culture-specific case mapping is not modelled.
- `Text.TryParseInt` accepts ASCII `+` and `-` only. Culture-specific sign symbols are not modelled.
- The name mapper (`INameMapper.GetTableName`) and the corporate-code tables are parameters of `TranslatedTextRepository.GetDefaultText`.
- The session-center navigations `LocalITUpdateUser`, `LocalPhysicalUpdateUser` and `CentralStatusUpdateUser` are loaded only by `Include`, so they are not modelled.
- `UserRepository.GetByLogin` returns null for an unknown login, as the code does. The interface documents an EntityNotFoundException instead.
- ReportRepository, TranscodingRepository, Startup, the EF mappings and the database context are outside this model.

## Findings

| source | as written | input that shows it | evidently intended | confidence | as-written member | corrected member |
|---|---|---|---|---|---|---|
| VSchool/Data/Repositories/Impl/BaseGenericRepository.cs:241 | the skip count `PageSize * (PageIndex - 1)` is a 32-bit `int` product, which wraps around silently | PageIndex = 65537, PageSize = 65536 on one stored record: the product wraps to 0 and the first page is returned | the page past the end is empty | medium, not executed | GenericRepository.PageOverflowCounterexample | GenericRepository.Page |
