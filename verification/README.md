# Immutable tag rule repository — a Dafny model

Harbor keeps per-project "immutable tag rules": records that protect container
image tags matching a filter from deletion or overwrite. Each rule has an
identifier, a project identifier, an opaque tag filter and a `Disabled` flag.
The repository in `src/pkg/immutabletag/dao/immutable.go` (`immutableRuleDao`)
is the only code that reads or writes the rule table. It offers seven
operations: create, update, toggle, get, list by project, list enabled rules
by project, and delete. It also translates store failures into the caller's
error kinds: Conflict, NotFound, wrapped, or handed back unchanged.

The model has five modules.

- `Orm` (`orm.dfy`) is the store as the repository observes it:
  - a table `map<int, Rule>` plus a serial identifier allocator (`Db`);
  - the invariant `Db.Valid`: every row sits under its own identifier, and the allocator is past every key;
  - the schema's uniqueness constraint, as an abstract relation `conflicting(a, b)` between two rows;
  - the store primitives the repository calls: insert, update of named columns, read by key, delete by key, and a filtered query.
  - A driver failure that has nothing to do with the data is an `outage: Option<string>` argument. When present, it preempts everything else.
  - How the driver reports a column update whose key matches no row is a `MissingRowReport` argument: either the no-rows error or a success with zero rows affected.
- `ImmutableDao` (`immutable_dao.dfy`) holds the seven operations. Each one is a pure transition: it takes a store state and returns the new store state and the caller's result. Create and Update also return the caller's rule as they leave it. The two listings are methods, because the store picks the order of the rows.
- `DaoProperties` (`dao_properties.dfy`) relates several calls to each other:
  - reading back what was written;
  - undoing and repeating writes;
  - the uniqueness constraint surviving every write;
  - how writes show up in the listings.
- `Results` (`results.dfy`) holds the `Option` and `Result` datatypes that stand in for Go's nil pointers and `(value, error)` pairs.
- `Decimal` (`decimal.dfy`) models Go's `%d` rendering, which error messages use to name identifiers. It comes with a parser and a round-trip proof, so "the message names the identifier" is a checked property.

Notes on the code's behaviour in `immutable.go`:

- Update and Toggle return the rows-affected count that the store's column update reports. The Go variable holding it is called `id`, but it is not the rule's identifier (`immutable.go:49`, `immutable.go:63`).
- A uniqueness violation during Update or Toggle is handed back unchanged. Only Create maps the duplicate-record condition to Conflict.
- Update and Toggle map the driver's no-rows error to NotFound (`immutable.go:51-52`, `immutable.go:65-66`). Whether a column update that matches no row raises that error or returns zero rows affected without an error is up to the driver. The model allows both: the caller then sees NotFound or `Ok(0)`, and the store is unchanged either way.

## Model

| member | source | states |
|---|---|---|
| ImmutableDao.Create | src/pkg/immutabletag/dao/immutable.go:32-43 | The caller's rule leaves with Disabled false. On success the new identifier was not in the table, the table gains exactly that row (caller's project and filter, enabled), and every existing row is unchanged. An outage is handed back unchanged. Without an outage the insert fails exactly when the row would violate the uniqueness constraint, and that failure is Conflict(Duplicate). A failed call leaves the store unchanged. Table validity is preserved. |
| ImmutableDao.Update | src/pkg/immutabletag/dao/immutable.go:46-57 | The caller's rule leaves bound to the given project, with its other fields as passed. A success reports either 1 or 0 rows affected. With 1, the row keyed by `ir.id` existed and only its tag filter changed; its stored project and flag keep their prior values, and every other row, the key set and the allocator are unchanged. With 0, the row was absent and the store is unchanged. For an absent row the result is NotFound(NoRows) when the driver raises the no-rows error, and `Ok(0)` when it reports zero rows; NotFound arises only that way. A uniqueness violation and an outage are handed back unchanged, never as Conflict. A failed call leaves the store unchanged. |
| ImmutableDao.Toggle | src/pkg/immutabletag/dao/immutable.go:60-71 | A success reports either 1 or 0 rows affected. With 1, the row keyed by `id` existed and only its Disabled flag became `status`; every other row, the key set and the allocator are unchanged. With 0, the row was absent and the store is unchanged. For an absent row the result is NotFound(NoRows) when the driver raises the no-rows error, and `Ok(0)` when it reports zero rows; NotFound arises only that way. Other store failures are handed back unchanged. A failed call leaves the store unchanged. |
| ImmutableDao.Get | src/pkg/immutabletag/dao/immutable.go:74-86 | Without an outage it succeeds exactly when the key is present, and then returns exactly the stored row, whose identifier is the key. For an absent key it returns NotFound(NoRows) with a message from which the key reads back. An outage is handed back unchanged. The store is never changed. |
| ImmutableDao.ListByProject | src/pkg/immutabletag/dao/immutable.go:89-98 | Without an outage it succeeds. It returns each stored rule of the project exactly once and nothing else, as many rows as the project has; an empty project yields an empty list. On failure the cause is wrapped with a context naming the project. |
| ImmutableDao.ListEnabledByProject | src/pkg/immutabletag/dao/immutable.go:101-110 | Without an outage it succeeds. It returns each stored rule of the project with Disabled false exactly once and nothing else. On failure the cause is wrapped with a context naming the project. |
| ImmutableDao.Delete | src/pkg/immutabletag/dao/immutable.go:113-117 | Without an outage it reports 1 row affected exactly when the key was present and 0, with no error, when it was absent. Afterwards the key is gone and every other row is unchanged. An outage is handed back unchanged and leaves the store as it was. Validity and the allocator are preserved. |
| ImmutableDao.NotFoundMessageNamesId | src/pkg/immutabletag/dao/immutable.go:80-81 | The not-found message of Get contains the decimal identifier right after its fixed prefix, and parsing the message gives the identifier back. |
| ImmutableDao.ListContextNamesProject | src/pkg/immutabletag/dao/immutable.go:95 | Both listing error contexts start with their fixed text and end in the project identifier, which parses back. |
| Orm.All | src/pkg/immutabletag/dao/immutable.go:91-93 | A filtered query returns every row that satisfies all filters, each row once and no other row, or the outage that stopped it. |
| Decimal.FormatRoundTrip | src/pkg/immutabletag/dao/immutable.go:81 | Parsing the `%d` rendering of any integer, negative ones included, gives back that integer. |
| Decimal.FormatInjective | src/pkg/immutabletag/dao/immutable.go:81 | Two identifiers have the same `%d` rendering only if they are equal, so a message names exactly one identifier. |
| DaoProperties.CreateThenGet | src/pkg/immutabletag/dao/immutable.go:32-35 | After a successful Create, Get of the returned identifier yields the caller's project and filter with Disabled false. |
| DaoProperties.CreateThenDeleteRestores | src/pkg/immutabletag/dao/immutable.go:35 | Deleting the rule just created affects one row and gives back the original table. |
| DaoProperties.CreateShowsInListings | src/pkg/immutabletag/dao/immutable.go:33 | After a successful Create, the project's rules and its enabled rules are each the old set plus the new row, because the new rule is always enabled. |
| DaoProperties.UpdateThenGet | src/pkg/immutabletag/dao/immutable.go:47-49 | After an Update that affected one row, Get returns the old row with only the new tag filter. The project passed to Update does not reach the store. |
| DaoProperties.UpdateIdempotent | src/pkg/immutabletag/dao/immutable.go:49 | Repeating a successful Update succeeds and leaves the store as the first call left it. |
| DaoProperties.ToggleIdempotent | src/pkg/immutabletag/dao/immutable.go:62-63 | Repeating a successful Toggle succeeds and leaves the store as the first call left it. |
| DaoProperties.ToggleBackRestores | src/pkg/immutabletag/dao/immutable.go:62-63 | Suppose the table satisfies its uniqueness constraint. Then toggling an existing rule (one row affected) and toggling it back to its former flag succeeds and restores the original store. |
| DaoProperties.ToggleAndEnabledListing | src/pkg/immutabletag/dao/immutable.go:63 | After a Toggle that affected one row, the toggled rule is among its project's enabled rules exactly when `status` is false. No other rule enters or leaves either listing of that project. |
| DaoProperties.DeleteThenGetAndDeleteAgain | src/pkg/immutabletag/dao/immutable.go:113-117 | After Delete, Get of that identifier is NotFound. A second Delete affects 0 rows, reports no error and changes nothing. |
| DaoProperties.EnabledListingIsFilteredProjectListing | src/pkg/immutabletag/dao/immutable.go:103 | The enabled rules of a project are exactly its rules with Disabled false. In particular they are a subset of the project's rules. |
| DaoProperties.WritesKeepConsistent | src/pkg/immutabletag/dao/immutable.go:35-49 | If the table satisfies its uniqueness constraint, it still does after any Create, Update, Toggle or Delete, whether the call succeeds or fails. |
| DaoProperties.CreateExample | src/pkg/immutabletag/dao/immutable.go:32-43 | In an empty table, creating `{project 7, "release-*", disabled}` yields identifier 1. Get(1) then returns it enabled. Deleting an identifier that was never created affects 0 rows. |

## Left out

- The ORM mechanics (`dao.GetOrmer`, `QueryTable`, `Filter`, `All`): the model replaces them with the table primitives of `Orm`. The driver itself is not part of this model.
- Which columns the uniqueness constraint covers: that is decided by the database schema, which is not part of this model. It is the abstract relation `conflicting`.
- What exactly `dao.IsDupRecErr` recognises: the model has one `Duplicate` condition, raised exactly when a write violates `conflicting`.
- How the store allocates identifiers: the model uses a serial counter `nextId` that a successful insert advances and a failed insert leaves as it was. A database sequence may be consumed by a failed insert too; the model does not represent that. Create's contract promises that a new identifier is fresh, and it decides a uniqueness violation on the row as it would be stored under `nextId`.
- Row order in listings: the store picks it. The listing methods choose keys nondeterministically, and their contracts fix only which rows are returned and that none repeats.
- The 64-bit width of identifiers and project identifiers: they are unbounded integers here. The repository does no arithmetic on them; the only arithmetic is the model's own counter step `nextId + 1`, and overflow of the identifier sequence is out of scope.
- The numeric value Go returns next to an error from Create, Update, Toggle and Delete: the model returns an error instead of a (value, error) pair, because callers do not use the value when there is an error.
- The write-back of the new identifier into the caller's rule by the ORM's insert: it is driver behaviour, so `ArgStep.arg` promises only the fields this file sets or keeps.
- How the error package builds its errors and renders them (`internal_errors`), and the `", error: %w"` tail of the listing messages: errors are datatypes that keep their cause. Message text is modelled only for Get's not-found message and the listing contexts.
- Transactions, concurrency, timeouts and retries: the database handles these.
- The constructor `New` and the Go interface declaration: they carry no behaviour.
- The meaning of `TagFilter`: it is opaque text.
