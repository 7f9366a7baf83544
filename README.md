# Asset store: a verified Dafny model

This project models the asset store of a small inventory-tracking API. The
store is the `AssetCRUD` class, the `Asset` table it reads and writes, and the
request schemas that validate what clients send. Each asset has an id, name,
category, value, purchase date, status, optional description, creation and
update stamps, and a soft-delete marker with its timestamp.

Modules, one per concern of the source:

- `Wrappers` (wrappers.dfy): `Option`.
- `Text` (text.dfy): what the database does with text. It covers ASCII case
  folding, `ilike` as case-insensitive equality and as case-insensitive
  substring search, and the code-point order used by ORDER BY.
- `Models` (models.dfy): the `Asset` row and the `AssetStatus.all()` and
  `AssetCategory.all()` string lists. It also holds the row invariant
  `WellFormed`, the primary-key invariant `DistinctIds`, and the column
  defaults of an inserted row.
- `Schemas` (schemas.dfy): the status and category enumerations and their
  string values. It validates create payloads, including the `active` status
  default. It validates update payloads, where every field is optional. A JSON
  field is modelled as `Input<T>`: `Omitted`, `Null` or `Given(v)`. This keeps
  pydantic's "unset" apart from an explicit `null`.
- `Query` (query.dfy): `get_all`, `count` and `get_by_id` as functions over the
  rows in storage order. `get_all` is a filter, then a stable insertion sort by
  the `sort_by` column, then an offset/limit page.
- `QueryFacts` (query_facts.dfy): what the reads promise.
- `Crud` (crud.dfy): class `AssetStore` (`var rows: seq<Asset>`) with
  `Create`, `Update`, `SoftDelete` and `Delete`. Each method's new state is a
  function of the old rows (`AfterUpdate`, `AfterSoftDelete`, `AfterDelete`).
  Lemmas state the update merge, the soft-delete lifecycle and invariant
  preservation. `Update` runs the source's `setattr` loop over the dumped patch.
  It is proved equal to a field-by-field `Merge`.

Behaviour captured as written:

- `get_all` matches category and status with `==`, but `count` uses `ilike`,
  which ignores case. They agree when the filter strings are lower case, since
  stored values always are. They disagree otherwise (see Findings).
- A falsy parameter imposes no constraint. This covers an empty string, and a
  value bound of `0`. So `max_value=0` keeps every row instead of none.
- `order` other than `"asc"` sorts descending.
- Hard `delete` looks the row up with `get_by_id`. So it cannot purge a row
  that is already soft-deleted, and it returns `False` for it. The HTTP route
  `delete_asset` (app/routes/assets.py:48-56) looks the row up by id alone, so
  it does remove soft-deleted rows. That route is not part of this model.
- `update` applies exactly the fields the client set. An explicit `null` on
  `description` clears it. An explicit `null` on a not-null column (name,
  category, value, purchase_date, status) passes validation, because every
  `AssetUpdate` field is `Optional`. The commit then fails on the NOT NULL
  constraint. The model returns `NotNullViolation` and leaves the table
  unchanged.
- `updated_at` is re-stamped by the column's `onupdate`. That fires only when a
  flush issues an UPDATE, that is, when some column actually changed. So an
  update that changes nothing leaves `updated_at` as it was. A soft delete
  always changes the marker, so it always re-stamps `updated_at` and
  `deleted_at`.
- The future-date validator on `purchase_date` is commented out. Any purchase
  date is accepted.

Parameters instead of effects: the id generator (`uuid4`) is the `freshId`
argument of `Create`, and the clock (`datetime.utcnow`) is the `now` argument.
A generated id that clashes with a stored id is the primary-key failure
`DuplicateId`, and nothing is written.

## Model

| member | source | states |
|---|---|---|
| `Models.StatusAll` | app/models.py:29-36 | exactly three distinct status strings, all lower case |
| `Models.CategoryAll` | app/models.py:39-49 | exactly five distinct category strings, all lower case |
| `Schemas.ParseStatus` | app/schemas.py:11-14 | a string is a status member iff it is one of `AssetStatus.all()`, and the member's value is that string |
| `Schemas.ParseCategory` | app/schemas.py:17-22 | a string is a category member iff it is one of `AssetCategory.all()`, and the member's value is that string |
| `Schemas.EnumRoundTrip` | app/schemas.py:11-22 | every status and category member parses back from its string value |
| `Schemas.ValidateCreate` | app/schemas.py:26-33 | a create payload is accepted iff name has length 1..200, category and value and purchase date are present, category is a member, value > 0, status is absent or a member (not null), and description is absent, null or at most 500 characters; an accepted payload keeps the given values, with status `active` when omitted; a rejection reports `NotPositive(value)` exactly when a non-positive value was given |
| `Schemas.FuturePurchaseDateAccepted` | app/schemas.py:35-40 | acceptance does not depend on the purchase date, so a date after today is accepted |
| `Schemas.ValidateUpdate` | app/schemas.py:63-70 | an update payload is accepted iff every supplied field meets its create constraint; unset and null fields always pass; the patch keeps which fields were unset, null or set |
| `Text.ContainsCI` | app/routes/crud.py:72-77 | the `ilike '%s%'` scan is true iff the pattern occurs at some offset, ignoring ASCII case |
| `Text.EqualsCI` | app/routes/crud.py:102-106 | `ilike` without wildcards is true iff the strings have equal length and agree character by character up to case |
| `Text.EqualsCIOfLower` | app/routes/crud.py:102-106 | between two lower-case strings, `ilike` is plain equality |
| `Query.VisibleIndex` | app/routes/crud.py:131-136 | the first row with the id that is not soft-deleted, or none when no such row exists |
| `Query.GetById` | app/routes/crud.py:131-136 | finds a row iff some stored row has the id and is not soft-deleted; what it returns has that id and is not deleted |
| `QueryFacts.GetByIdFindsTheVisibleRow` | app/routes/crud.py:133-136 | with distinct ids, `get_by_id` of a stored row's id is that row if live, and absent if soft-deleted |
| `Query.Where` | app/routes/crud.py:50-77 | the filtered rows are exactly the stored rows the conjunctive filter accepts |
| `Query.WhereMultiplicity` | app/routes/crud.py:50-77 | each accepted row appears in the result exactly as often as it is stored, and no other row appears |
| `Query.Page` | app/routes/crud.py:86 | `.offset(skip).limit(limit)`: the page holds `limit` rows, or what remains after `skip`, and its `i`-th row is row `skip + i` of the listing |
| `Query.GetAll` | app/routes/crud.py:33-86 | `get_all`: at most `limit` rows; its full contract is stated by `QueryFacts.GetAllSound`, `QueryFacts.GetAllSortedPage` and `QueryFacts.GetAllWholeListing` |
| `Query.Count` | app/routes/crud.py:89-128 | `count`: at most the number of stored rows; related to `get_all` by `QueryFacts.CountNeverBelowExact`, `QueryFacts.CountAgreesForLowerCaseFilters` and `QueryFacts.CountDisagreesWithGetAll` |
| `Query.Matches` | app/routes/crud.py:50-77 | the `get_all` filter chain; what it accepts is stated by `QueryFacts.GetAllSound`, `QueryFacts.FalsyParametersIgnored`, `QueryFacts.BoundsInclusive` and `QueryFacts.SearchIsSubstringOfNameOrDescription` |
| `Query.CountMatches` | app/routes/crud.py:101-125 | the `count` filter chain, with `ilike` on category and status; compared with `Query.Matches` by `QueryFacts.CountNeverBelowExact` and `QueryFacts.CountAgreesForLowerCaseFilters` |
| `Query.SortedPermutationUnique` | app/routes/crud.py:79-82 | two sorted arrangements of the same rows with no tied keys are equal |
| `Query.SortRows` | app/routes/crud.py:79-82 | sorting keeps exactly the same rows (a permutation) |
| `Query.SortRowsSorted` | app/routes/crud.py:79-82 | the sorted rows are in `sort_by` key order, ascending or descending as asked |
| `QueryFacts.GetAllSound` | app/routes/crud.py:50-77 | every returned row is stored and not soft-deleted; its category and status equal the filter strings exactly; it lies within the inclusive value and date bounds; it matches the search; at most `limit` rows are returned |
| `QueryFacts.GetAllSortedPage` | app/routes/crud.py:79-86 | a page is sorted by `sort_by`, ascending iff `order == "asc"`; its size is `limit`, or what remains of the filtered rows after `skip` |
| `QueryFacts.GetAllPagesAdjoin` | app/routes/crud.py:86 | when both page queries see the same tie order (the model's stable order), the page at `skip` of size a, followed by the page at `skip + a` of size b, is the page at `skip` of size a + b |
| `QueryFacts.UniqueKeyFixesOrder` | app/routes/crud.py:79-82 | when no two matching rows share a `sort_by` key, every order the database may return for the query is the model's listing |
| `QueryFacts.IdKeysDistinct` | app/routes/crud.py:79-82 | sorting by `id`, the primary key, leaves no ties |
| `QueryFacts.PagesAdjoinAnyOrder` | app/routes/crud.py:79-86 | without ties, two adjacent page queries adjoin into the spanning page whatever orders the database returns for each |
| `QueryFacts.TiedRowsMayRepeatAcrossPages` | app/routes/crud.py:79-86 | with two rows tied on `created_at`, both orders are sorted, and reading page 0 from one and page 1 from the other returns the same row twice |
| `QueryFacts.PagedSizeAnyOrder` | app/routes/crud.py:79-86 | whatever order the database returns for each page query, paging until the rows run out reads as many rows as the corrected count |
| `QueryFacts.GetAllWholeListing` | app/routes/crud.py:86 | with `skip = 0` and a large enough `limit`, the listing holds a row iff it is stored and matches, each matching row as many times as it is stored |
| `QueryFacts.CountExactIsPagedTotal` | app/routes/crud.py:89-128 | when every page query sees the same tie order (the model's stable order), paging through `get_all` with any page size until exhausted yields each matching stored row as many times as it is stored and no other row, as many rows as the corrected count |
| `QueryFacts.CountAgreesForLowerCaseFilters` | app/routes/crud.py:102-106 | on a well-formed table with lower-case category and status filters, `count` equals the number of rows the `get_all` filter accepts |
| `QueryFacts.CountIsListingSize` | app/routes/crud.py:89-128 | under the same conditions, `count` equals the size of the `get_all` listing with `skip = 0` and a large enough `limit` |
| `QueryFacts.CountDisagreesWithGetAll` | app/routes/crud.py:52-56 | with one `electronics` row and the filter `Electronics`, `count` is 1 while `get_all` is empty |
| `QueryFacts.CountNeverBelowExact` | app/routes/crud.py:102-106 | for every table and filter, `count` is at least the number of rows the `get_all` filter accepts |
| `QueryFacts.FalsyParametersIgnored` | app/routes/crud.py:52-72 | an empty category, status or search string, or a zero value bound, filters like an absent one |
| `QueryFacts.BoundsInclusive` | app/routes/crud.py:60-70 | value and purchase-date bounds include their end points and exclude values just outside |
| `QueryFacts.SearchIsSubstringOfNameOrDescription` | app/routes/crud.py:72-77 | a live row passes the search iff the text occurs, ignoring case, in its name or in its (non-null) description |
| `Crud.AssetStore.Create` | app/routes/crud.py:16-29 | appends the row built from the payload (enumerations stored as strings) under the fresh id, or refuses a clashing id and writes nothing; keeps the table invariant |
| `Crud.NewRow` | app/routes/crud.py:18-25 | the inserted row; its columns are stated by `Crud.CreateThenGetById` and its invariant by `Crud.CreatePreservesTable` |
| `Crud.CreateThenGetById` | app/models.py:20-25 | reading a created row back by id gives the supplied fields, a live row without `deleted_at`, and `created_at == updated_at == now` (one clock reading, see "## Left out") |
| `Crud.CreatePreservesTable` | app/models.py:14-19 | inserting a validated payload under an unused id keeps ids distinct and every row well-formed |
| `Crud.AssetStore.Update` | app/routes/crud.py:138-157 | the outcome and new rows are those of `UpdateResult`/`AfterUpdate`; keeps the table invariant |
| `Crud.Dump` | app/routes/crud.py:144-150 | `model_dump(exclude_unset=True)` with enumerations replaced by their `.value`; what running it through the loop does is stated by `Crud.UpdateLoopIsMerge` |
| `Crud.Touched` | app/models.py:22 | the `onupdate` re-stamp; stated by `Crud.UpdateEffect`: `updated_at` becomes `now` iff a column changed |
| `Crud.SetAttrs` | app/routes/crud.py:152-153 | the `setattr` loop, proved through its invariant, leaves the row that the assignments applied in order give |
| `Crud.UpdateLoopIsMerge` | app/routes/crud.py:144-153 | running the `setattr` loop over the dumped patch gives the field-by-field merge |
| `Crud.MergeChangesOnlySetFields` | app/routes/crud.py:144-153 | the merge changes only the fields the client set; id, stamps and soft-delete columns never change; enumerations are stored as their strings; null clears the description |
| `Crud.MergeIdempotent` | app/routes/crud.py:152-153 | applying the same patch twice equals applying it once |
| `Crud.MergePreservesWellFormed` | app/schemas.py:63-70 | a validated patch without nulls keeps a well-formed row well-formed |
| `Crud.UpdateEffect` | app/routes/crud.py:138-157 | not-found iff `get_by_id` finds nothing, and then nothing changes; otherwise only that row changes, its id and `created_at` stay, `updated_at` becomes `now` iff a column changed, and `get_by_id` then returns it |
| `Crud.UpdatePreservesTable` | app/models.py:15-19 | an update keeps ids distinct and every row well-formed |
| `Crud.AssetStore.SoftDelete` | app/routes/crud.py:171-182 | returns true iff `get_by_id` found the row; the new rows are `AfterSoftDelete` |
| `Crud.Retired` | app/routes/crud.py:178-179 | the soft-deleted row; stated by `Crud.SoftDeleteLifecycle` and `Crud.SoftDeletePreservesTable` |
| `Crud.SoftDeleteLifecycle` | app/routes/crud.py:171-182 | a soft-deleted row stays in place with the marker, `deleted_at` and `updated_at` set; `get_by_id` no longer finds it; a second soft delete or a hard delete changes nothing, and the row is still stored; no `get_all` page contains it |
| `Crud.SoftDeletePreservesTable` | app/models.py:24-25 | soft delete keeps the marker and `deleted_at` set together and the table invariant intact |
| `Crud.AssetStore.Delete` | app/routes/crud.py:159-169 | returns true iff `get_by_id` found the row; the new rows are `AfterDelete` |
| `Crud.HardDeleteEffect` | app/routes/crud.py:159-169 | removes exactly the live row with the id, keeping every other row, after which no row has the id; changes nothing when `get_by_id` finds nothing, even if a soft-deleted row has the id |
| `Crud.DeletePreservesTable` | app/models.py:14 | hard delete keeps ids distinct and every row well-formed |

## Findings

| source | as written | input that shows it | evidently intended | confidence | as-written member | corrected member |
|---|---|---|---|---|---|---|
| app/routes/crud.py:102-106 | `count` filters category and status with `ilike`, ignoring case, while `get_all` uses exact equality (crud.py:52-56, whose comment insists on exact match) | one stored `electronics` row, filter `category="Electronics"`: `count` reports 1, `get_all` returns no rows | `count` applies the same exact filter as `get_all`, so that it equals the number of rows obtained by paging to exhaustion | high (not executed) | `QueryFacts.CountDisagreesWithGetAll` | `QueryFacts.CountExact` |

`Query.Count` models `count` as written. `QueryFacts.CountNeverBelowExact`
proves that, for all inputs, it never reports fewer rows than `get_all`'s
filter accepts. `QueryFacts.CountExact` is the corrected count.
`QueryFacts.CountExactIsPagedTotal` proves it equals the number of rows
obtained by paging through `get_all`.

## Left out

- Session mechanics (`add`, `commit`, `refresh`, query building) are left out.
  The table is a sequence of rows in insertion order, and each operation is one
  atomic step. Concurrent requests are not modelled.
- ORM object identity is not modelled. The store holds rows as values, so the
  live object that `update` returns is not aliased with the stored row.
- `uuid4` and `datetime.utcnow` are parameters (`freshId`, `now`). The model
  uses one `now` per operation, where the source calls the clock separately for
  `created_at` and `updated_at`, and for `deleted_at` and `updated_at`. Because
  the wall clock can go backwards, `updated_at >= created_at` is not claimed.
- Floating-point `value` is modelled as a `real`. It is only compared, never
  computed with.
- Wildcards in `ilike`: `%` and `_` inside a user's search or filter string are
  treated as plain characters. Case folding is ASCII only.
- String `=` is taken as case-sensitive (a binary collation, as in SQLite and
  PostgreSQL). The database comes from `DATABASE_URL` (app/config.py:7); under a
  case-insensitive collation `get_all`'s exact category/status match would
  behave like `count`'s `ilike`, and the Findings row below would not arise.
- Dates are day numbers. The `purchase_date_from`/`to` bounds arrive as
  `datetime`s, and are treated as days compared with the `DATE` column.
- ORDER BY: NULL sorts lowest (the SQLite convention) and strings compare by
  code point. `get_all` orders by one column only, so the database may return
  rows with equal keys in any order, and in a different order for each query.
  The model's `Query.GetAll` breaks ties by storage order. Facts about a single
  query (`QueryFacts.GetAllSound`, `QueryFacts.GetAllSortedPage`,
  `QueryFacts.GetAllWholeListing`) hold for every tie order.
- `QueryFacts.GetAllPagesAdjoin` holds for the program only when both page
  queries break ties the same way, which a single-column ORDER BY does not
  ensure. `QueryFacts.PagesAdjoinAnyOrder` proves it for any orders when the
  sort key has no ties (for example `sort_by=id`).
  `QueryFacts.TiedRowsMayRepeatAcrossPages` shows it failing with ties.
- `QueryFacts.CountExactIsPagedTotal`: its row-by-row clauses assume every page
  query breaks ties the same way. The number of rows read holds for any tie
  order (`QueryFacts.PagedSizeAnyOrder`).
- An unknown `sort_by` raises `AttributeError` through `getattr`. It is not
  modelled, because `sort_by` is the closed type `Query.Column`.
- Negative `skip` or `limit`: the source passes any integer straight to
  `.offset(skip).limit(limit)`, and nothing checks the sign. The model's
  parameters are natural numbers, so what the database does with a negative
  offset or limit is not modelled.
- JSON type errors (for example a string where a number is expected) are left
  out of the validation model. Only the field constraints are modelled.
- The HTTP routes (app/routes/assets.py), the language-model agent
  (app/agent.py), settings loading (app/config.py) and application start-up
  (app/main.py) are not part of this model.
