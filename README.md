# Data-access repository, shared helpers and multi-select control

This project models four parts of the application.

- **Repository** (`services/api/src/common/Repository.ts`). This is the generic data-access layer that every resource of the API goes through. Each repository is bound to one table. It reads rows filtered by the current user's grants and hides soft-deleted rows. It creates, upserts, updates and removes rows. It checks create permissions and logs each write as an audit activity. `runInTransaction` runs a piece of work so that it either commits all its writes or rolls them all back, and it gives up after a timeout.
- **Helpers** (`services/common/src/helpers.ts`). These clean plain objects (`emptyToUndefined`, `stringValuesToBoolean`) and convert objects to and from query strings. They also truncate text and validate emails and UUIDs.
- **Date** (`services/common/src/date.ts`). `secondsToTimeSpan` writes a number of seconds as "1d 2h 50min 30sec".
- **SelectMulti** (`services/ui/src/control/SelectMulti.tsx`). This is the list logic of the multi-select form control: how the `options` prop becomes entries, which entries are offered and shown as picked, and what the handlers write into the form field.

## Structure

| file | module | what it holds |
|---|---|---|
| `wrappers.dfy` | `Wrappers` | `Option` and `Result` |
| `js.dfy` | `Js` | JavaScript values and their operations (see below) |
| `helpers.dfy` | `Helpers` | the helpers |
| `date.dfy` | `Date` | the time-span formatter |
| `select_multi.dfy` | `SelectMulti` | the control's functions and a `SelectState` class |
| `permission.dfy` | `Permission` | the grant rule and the SQL condition of `enforcePermissions` |
| `query.dfy` | `Query` | the relational semantics of the query builder |
| `repository.dfy` | `Repository` | the repository specification functions, the `Repository` class and the transaction runner |

`Js` holds JavaScript values, `String(v)`, truthiness, `trim` and white space. It also holds plain objects as ordered lists of properties, with `Lookup`, `Put` and `Remove`.

### The query builder

A query is a where-chain of `AND`/`OR` terms, an `ORDER BY` key list and an optional `LIMIT`. A chain of terms is evaluated with SQL precedence: `AND` binds tighter than `OR`. A query returns the matching rows, stably sorted and then cut to the limit.

### The repository

Each write operation is a pure function from a database state to a `Written(result, db)` value. The state holds the table's rows and the activities table. The `Repository` class holds that state in fields. Each of its methods promises that the pair (result, new state) is what the corresponding function gives for the old state. Properties of the operations are lemmas about those functions.

Some inputs come from outside the repository and are parameters of the model:

- the clock (`now`);
- the ids the database generates;
- the current user, a constant of the repository object;
- the administrator group id;
- whether the transaction timer fired first.

Reading a property of `undefined` throws a `TypeError` in JavaScript. The model returns `Err(Thrown(TypeError))` in those cases, with the state unchanged. Two examples: `update` finds no row while activities are registered, or `remove` finds no row while activities are registered.

## Model

| member | source | states |
|---|---|---|
| Helpers.EmptyToUndefined | services/common/src/helpers.ts:65-71 | The copy keeps every property that is neither "" nor null, with its value and in its place, and drops the others. Keys stay distinct, and every lookup answers as before unless the old value was blank. |
| Helpers.DropBlankLookup | services/common/src/helpers.ts:65-71 | Dropping blank properties keeps keys distinct and leaves every non-blank lookup unchanged. |
| Helpers.StringValuesToBoolean | services/common/src/helpers.ts:129-136 | The same keys stay in the same order. "true" and "false" become booleans and every other value is kept, and lookups answer converted. |
| Helpers.FromQuerystring | services/common/src/helpers.ts:138-144 | An excluded key holds nothing and an array key holds all its values in order. Any other key holds its last value, as written, with the boolean flag having no effect. |
| Helpers.FromEntriesLookup | services/common/src/helpers.ts:139 | `Object.fromEntries` keeps the last value for each name. |
| Helpers.ConvertFlagIgnored | services/common/src/helpers.ts:140 | For `?active=true` the code as written leaves the string "true", while the evidently intended conversion gives `true`. |
| Helpers.FromQuerystringConverting | services/common/src/helpers.ts:138-144 | With the flag set, every value left is converted. Without it, the result equals the as-written result. |
| Helpers.ToQuerystring | services/common/src/helpers.ts:146-159 | The pairs are built property by property. An array gives one appended pair per element, `false` and truthy values give one pair, and other falsy values give none. |
| Helpers.QueryPairsOfKey | services/common/src/helpers.ts:146-159 | The pairs named `k` are exactly the values emitted for property `k`, in order. |
| Helpers.QuerystringRoundTripScalar | services/common/src/helpers.ts:138-159 | Parsing the query string of an object gives back each scalar property as its string form. |
| Helpers.QuerystringRoundTripArray | services/common/src/helpers.ts:138-159 | Parsing gives back a string-array property when its key is listed as an array key. |
| Helpers.Truncate | services/common/src/helpers.ts:161 | A text that is not too long is returned as is. A longer text keeps its first `length` characters (none for a negative length) followed by the suffix. |
| Helpers.IsValidEmailRules | services/common/src/helpers.ts:183-186 | The regex accepts exactly the strings with one '@', no white space, something before the '@', and a '.' after it that is neither first nor last in the domain. |
| Helpers.IsUUIDPositions | services/common/src/helpers.ts:188 | Accepted exactly: 36 characters, '-' at indices 8, 13, 18 and 23, and hex digits everywhere else. |
| Helpers.UUIDGroups | services/common/src/helpers.ts:188 | Hex groups of 8, 4, 4, 4 and 12 digits joined by '-' are accepted, and only those. |
| Date.Breakdown | services/common/src/date.ts:36-44 | The days, hours, minutes and seconds add back up to the input, and hours, minutes and seconds stay within their ranges even for negative input. |
| Date.BreakdownUnique | services/common/src/date.ts:36-44 | No other counts satisfy those two facts. |
| Date.SecondsToTimeSpan | services/common/src/date.ts:35-53 | The subtract-and-floor steps and the trim and white-space collapse render the unique breakdown of the input. |
| Date.TimeSpanWords | services/common/src/date.ts:46-51 | The words are "<n>d", "<n>h", "<n>min" and "<n>sec" in that order, each present exactly when its count is positive, and single-spaced. |
| Date.TimeSpanEmpty | services/common/src/date.ts:35-53 | For non-negative input the string is empty exactly for 0. |
| Date.TimeSpanNegative | services/common/src/date.ts:35-53 | A negative input shows no days; it reads as the time of day reached counting back from midnight. |
| SelectMulti.EveryChoiceSpec | services/ui/src/control/SelectMulti.tsx:226 | The `every` guard is true exactly when all items are ready-made entries. It throws exactly when a null or undefined item follows ready-made entries only. |
| SelectMulti.ToOptionsList | services/ui/src/control/SelectMulti.tsx:222-232 | An array of entries is taken as it is. Any other array gives one entry per element, in order, labelled with `String(element)`. It throws only where `every` reaches a nullish element. |
| SelectMulti.ToOptionsPrimitivesRoundTrip | services/ui/src/control/SelectMulti.tsx:222-232 | An array of primitives never throws, and picking every entry in 'many' mode gives the array back. |
| SelectMulti.ToOptionsMap | services/ui/src/control/SelectMulti.tsx:234-238 | A Map gives one entry per map entry in order, valued with the key and labelled with `String(value)`. Picking them all gives the keys. |
| SelectMulti.ToOptionsRecord | services/ui/src/control/SelectMulti.tsx:241-246 | An object gives one entry per property, valued with the key as a string. Picking them all stores the keys. |
| SelectMulti.CreatedToOptions | services/ui/src/control/SelectMulti.tsx:81 | Created strings become entries labelled and valued with the string. |
| SelectMulti.OfferedOrder | services/ui/src/control/SelectMulti.tsx:77-90 | The offered list is the created entries first, then the loaded getter's entries or the direct prop's entries, and nothing else. |
| SelectMulti.SelectState.OfferedOptions | services/ui/src/control/SelectMulti.tsx:77-90 | The memo pushes exactly the list of `Offered`. |
| SelectMulti.FilterByStringSpec | services/ui/src/control/SelectMulti.tsx:126 | The 'one' filter keeps exactly the offered entries whose value prints like the field value. |
| SelectMulti.FilterIncludedSpec | services/ui/src/control/SelectMulti.tsx:127 | The 'many' filter keeps exactly the offered entries whose value prints like one of the field's values. |
| SelectMulti.PickOneShown | services/ui/src/control/SelectMulti.tsx:124-161 | After picks in 'one' mode whose last pick has a value, exactly the entries that print like that value are shown, which includes that pick when it is offered. |
| SelectMulti.PickOneNothingShown | services/ui/src/control/SelectMulti.tsx:151-161 | With nothing picked, or a last pick whose value is null or undefined, the field becomes null and exactly the entries that print like "null" are shown. |
| SelectMulti.PickManyShown | services/ui/src/control/SelectMulti.tsx:124-161 | After picks in 'many' mode, exactly the entries that print like some pick are shown, which includes every offered pick. |
| SelectMulti.IndexOfStringSpec | services/ui/src/control/SelectMulti.tsx:111 | `indexOf` gives the first position printing like the key, or none exactly when no position does. |
| SelectMulti.UnselectedSpec | services/ui/src/control/SelectMulti.tsx:107-116 | Exactly the first element printing like the value is cut out, and the rest keep their order. Nothing changes when no element matches. |
| SelectMulti.SelectState.Unselect | services/ui/src/control/SelectMulti.tsx:107-116 | The field becomes `Unselected` of its old value, and the created list is kept. |
| SelectMulti.SelectState.OnCreateOption | services/ui/src/control/SelectMulti.tsx:99-105 | The raw string is appended to the created list and to the field. The trimmed entry is returned. A non-iterable field value throws after the created list has grown. |
| SelectMulti.CreatedOptionShown | services/ui/src/control/SelectMulti.tsx:77-127 | A typed string is offered and shown as picked in 'many' mode. The returned entry equals it only when the string has no surrounding white space. |
| Permission.PermissionFilter | services/api/src/common/Repository.ts:278-304 | The loop builds `false` exactly when no grant is relevant. A row passes the built condition exactly when a relevant grant reaches it. |
| Permission.FilterOfSpec | services/api/src/common/Repository.ts:278-304 | The same two facts hold for the condition as a function of the grants. |
| Permission.RelevantGrantsSpec | services/api/src/common/Repository.ts:278-280 | Exactly the grants for this table or '*' and for this action or '*' are kept. |
| Permission.ConditionOfCovers | services/api/src/common/Repository.ts:289-297 | The condition written for a grant holds for a row exactly when the grant reaches it: the owner and the id are equal to the grant's wherever the grant has no '*'. |
| Permission.SingleGrant | services/api/src/common/Repository.ts:278-304 | The filter built from one relevant grant is that grant's own condition, and a row passes it exactly when its owner and id match the grant's where they are not '*'. |
| Permission.CreateWithoutId | services/api/src/common/Repository.ts:266 | Create grants limited to specific ids never allow a row without an id (the target is '*'). |
| Query.RunSpec | services/api/src/common/Repository.ts:53-99 | A query returns only rows of the table that satisfy its chain, ordered by its keys and at most its limit. Without a limit it returns all of them. |
| Query.RunLimit | services/api/src/common/Repository.ts:94-96 | A query with a limit returns as many rows as the limit allows of those its chain selects, and no selected row it leaves out sorts before one it returns. |
| Query.FirstSpec | services/api/src/common/Repository.ts:53 | `first()` gives a satisfying row, and none exactly when no row satisfies the chain. |
| Query.WhereAllMatches | services/api/src/common/Repository.ts:67 | `where(object)` on an AND-chain selects the rows equal on every property. |
| Repository.GetSpec | services/api/src/common/Repository.ts:52-60 | `get(id)` returns a row with that id that is not soft-deleted and that the user may read, or null exactly when no such row exists. |
| Repository.GetBySpec | services/api/src/common/Repository.ts:62-82 | `getBy` returns a row equal on all properties (or on any, with `any`) that is live and readable, or null exactly when there is none. This holds for the corrected query. |
| Repository.GetByAsWrittenFindsDeleted | services/api/src/common/Repository.ts:71-77 | With `any`, the chain as written returns a soft-deleted row that the corrected query hides. |
| Repository.GetAllSpec | services/api/src/common/Repository.ts:84-102 | `getAll` returns only rows that are equal on the filters, pass the deleted filter and are readable. They are ordered by the sort key, then `created_at`. There are at most `limit` of them, or all of them without a limit. |
| Repository.GetAllLimit | services/api/src/common/Repository.ts:84-102 | With a limit, `getAll` returns the smaller of the limit and the number of selected rows, and no matching, readable row it leaves out sorts before a returned one. |
| Repository.GetAllShape | services/api/src/common/Repository.ts:94-96 | The ORDER BY is the sort key then `created_at`. A zero limit means no limit. |
| Repository.ExistsSpec | services/api/src/common/Repository.ts:203-206 | `exists` is true exactly when some row matches, deleted or not readable included. |
| Repository.ActivitySpec | services/api/src/common/Repository.ts:221-250 | The activity is an audit entry for the table, attributed to the user, or to the admin-group system user when nobody is signed in. Its description is the role, the first 8 characters of the user's id (all of a shorter id), the name, the action, the table and the resource id. |
| Repository.FirstFailureSpec | services/api/src/common/Repository.ts:128-130 | `createAll`'s checks pass exactly when every input passes, and what they throw is an HTTP error. |
| Repository.FirstFailureAt | services/api/src/common/Repository.ts:128-130 | What is thrown is the first failing input's error. |
| Repository.CreateSpecProps | services/api/src/common/Repository.ts:104-111 | These cases hold: 400 without owner; 401 without a create grant; no HTTP error unless permissions are enforced; success exactly when the check passes and the keys hold. On success the row is appended with every input column and an id, and one 'create' is logged. A failure writes nothing. |
| Repository.CreateAllSpecProps | services/api/src/common/Repository.ts:126-139 | Any failing input fails the call with an HTTP error before writing. The call succeeds exactly when every input passes its check and the table with the new rows keeps its keys. It then returns the created rows in input order, carrying their inputs, and appends them. With activities on, one 'create' per returned row, naming its id, is appended in that order. |
| Repository.CreateOrUpdateSpecProps | services/api/src/common/Repository.ts:113-124 | Only the id or a unique column can be the conflict target. On one, the call succeeds exactly when the table it leaves keeps its keys. A conflicting row is then overwritten in place and keeps its id unless the input sets one; otherwise the row is inserted. One 'update' is logged, and a failure writes nothing. |
| Repository.CreateOrUpdateIsBatchOfOne | services/api/src/common/Repository.ts:113-156 | `createOrUpdate(x)` does what `createOrUpdateAll([x])` does. |
| Repository.CreateOrUpdateAllSpecProps | services/api/src/common/Repository.ts:141-156 | Only the id or a unique column can be the conflict target. On one, a batch whose proposed rows hold distinct values of it succeeds exactly when the table the statement leaves keeps its keys. On success: one row per input in order, each carrying its input's columns, and no row is removed. With activities on, one 'update' per returned row, naming its id, is appended in that order. |
| Repository.UpsertAllOnce | services/api/src/common/Repository.ts:142-148 | A statement whose proposed rows hold distinct non-null values of the conflict column touches no row twice, so it gets through every input. |
| Repository.CreateOrUpdateAllInPlace | services/api/src/common/Repository.ts:141-148 | On a table whose keys hold, an input colliding with a stored row is merged into that row in place, which keeps its id unless the input sets one (for a batch whose rows have the same keys), and the merged row is returned; any other input is inserted as created; rows no input collides with are unchanged, and only inserted inputs are added. |
| Repository.UpsertStepSpec | services/api/src/common/Repository.ts:113-124 | One input: colliding with a row the statement has not touched, it is merged into that row in place and keeps its id unless it sets one; colliding with a touched row, the statement fails; colliding with none, the created row is appended. |
| Repository.UpsertAllSpec | services/api/src/common/Repository.ts:142-148 | The statement returns one row per input carrying its columns and never shrinks the table. |
| Repository.UpsertSameKeyTwice | services/api/src/common/Repository.ts:141-148 | Two inputs with the same conflict value make the statement fail (a row affected twice), and the database is unchanged. |
| Repository.FindConflictSpec | services/api/src/common/Repository.ts:116-117 | The conflicting row is the first holding the non-null value, or none exactly when no row does. |
| Repository.UpdateMatches | services/api/src/common/Repository.ts:159-166 | `update` targets the rows with that id, equal on every `andWhere` property (null as IS NULL) and allowed by the update grants. |
| Repository.UpdateFailures | services/api/src/common/Repository.ts:158-176 | An unsatisfied `andWhere` gives 422. Any failure writes nothing. Null is returned exactly when there is no `andWhere`, no target and no activity to register. |
| Repository.UpdateChanges | services/api/src/common/Repository.ts:158-176 | When a target exists, the call succeeds and returns a row exactly when the changed table keeps its keys. On success exactly the targets receive the changes, in place, and a changed target is returned. With activities on, exactly one 'update' naming the returned row's id is appended. |
| Repository.Repository.Update | services/api/src/common/Repository.ts:158-176 | The loop builds the `andWhere` chain, and the result and state are those of `UpdateSpec`. |
| Repository.DeletedSpec | services/api/src/common/Repository.ts:179-192 | A soft delete stamps `deleted_at` on exactly the targets in place. A hard delete keeps exactly the non-targets. No targets means no change. |
| Repository.KeptSpec | services/api/src/common/Repository.ts:181 | A DELETE keeps exactly the rows its chain does not select. |
| Repository.RemoveSpecProps | services/api/src/common/Repository.ts:178-186 | True exactly when a deletable row with that id exists; the table is then deleted as `DeletedSpec` says, and with activities on exactly one 'delete' naming that id is appended. With no such row and activities on, reading the missing row's id throws and nothing changes; otherwise false changes nothing. |
| Repository.RemoveByIdTarget | services/api/src/common/Repository.ts:179-182 | A target of `remove(id)` is a row with that id that the delete grants allow. |
| Repository.RemoveBySpecProps | services/api/src/common/Repository.ts:188-201 | True exactly when some deletable row matches. The table is as `DeletedSpec` says. With activities on, the old activities are kept and one 'delete' per removed row is appended, each naming a removed row's id and every removed row's id named; otherwise no activity is added. |
| Repository.LoggedRows | services/api/src/common/Repository.ts:195-199 | The activities logged for some rows are one per row, each naming a row's id, and every row's id is named. |
| Repository.ScriptSplit | services/api/src/common/Repository.ts:30-34 | The work's calls run in sequence: a script of two parts is the first part, then the second on what it left. |
| Repository.ScriptFails | services/api/src/common/Repository.ts:30-34 | Work that throws anywhere fails as a whole. |
| Repository.TransactionSpecProps | services/api/src/common/Repository.ts:21-45 | A timeout rejects with the timeout message. Work that fails makes the call fail with its error and leaves rows and activities as they were. Work that succeeds within the budget commits: the call returns its results and keeps every write. |
| Repository.CreateCommits | services/api/src/common/Repository.spec.ts:79-93 | A transaction whose one call is a create that succeeds returns the created row, and the row is in the table afterwards. |
| Repository.DuplicateCreateRollsBack | services/api/src/common/Repository.spec.ts:95-116 | Two creates with the same unique value inside a transaction fail, and the first row is not kept. |
| Repository.Repository.RunInTransaction | services/api/src/common/Repository.ts:21-45 | The loop runs the steps in order, snapshots the state, and restores it on a timeout or failure. The result and state are those of `TransactionSpec`. |
| Repository.Repository.Create | services/api/src/common/Repository.ts:104-111 | The result and state are those of `CreateSpec`. |
| Repository.Repository.CreateAll | services/api/src/common/Repository.ts:126-139 | The check loop and the inserts give the result and state of `CreateAllSpec`. |
| Repository.Repository.CreateOrUpdate | services/api/src/common/Repository.ts:113-124 | The result and state are those of `CreateOrUpdateSpec`. |
| Repository.Repository.CreateOrUpdateAll | services/api/src/common/Repository.ts:141-156 | The result and state are those of `CreateOrUpdateAllSpec`. |
| Repository.Repository.Remove | services/api/src/common/Repository.ts:178-186 | The result and state are those of `RemoveSpec`. |
| Repository.Repository.RemoveBy | services/api/src/common/Repository.ts:188-201 | The result and state are those of `RemoveBySpec`. |
| Repository.Repository.RegisterActivity | services/api/src/common/Repository.ts:221-250 | Exactly one activity, that of `ActivityFor`, is appended, and the rows are unchanged. |

## Left out

- I/O, knex and the database engine are not modelled. Queries have the relational semantics of `Query`: equality filters, `IS NULL`, AND/OR chains, a stable ORDER BY and LIMIT. The clock and generated ids are parameters.
- SQL's ordering of equal keys and of `RETURNING` rows is not modelled: ties keep table order. A select, update or delete returns its rows in table order; an insert or upsert returns one row per input, in input order. String order is code-point order, not a collation.
- Equality follows JavaScript values; SQL's three-valued NULL logic is reduced to `IS NULL` for null criteria.
- The `AsyncLocalStorage` transaction context and the timer race are not modelled. A transaction's outcome when the timer wins is a boolean input, and the work is a script of repository calls (`Step`) rather than an arbitrary function.
- The reads (`get`, `getBy`, `getAll`, `exists`) are not steps of a transaction's script: they write nothing, and what they return is the same function of the tables inside the transaction as outside. Every write (`create`, `createAll`, `createOrUpdate`, `createOrUpdateAll`, `update`, `remove`, `removeBy`) is a step.
- Concurrency is left out. So is the fire-and-forget nature of `registerActivity`: the model appends activities in order and never fails, while the source swallows their errors and does not await them.
- `hasPermission` (`services/api/src/permission/hasPermission.ts`) is not part of this model. The create check uses the same grant rule as `enforcePermissions`, applied to the input's id, or to '*' when there is none.
- Permission.ConditionOf: reads the grant's owner from `permission.owner`, as the SQL builder does, and treats it as a string. The permission row type has no `owner` field; it is called `resource_owner_id` (`services/types/src/Permission.ts:20`). For grants loaded as that type, `permission.owner` is `undefined`, which is never `'*'`. Every grant then takes an owner branch that writes `owner_id = 'undefined'` (`services/api/src/common/Repository.ts:291-296`), so no row passes, and a grant for one resource id with owner '*' gets `owner_id = 'undefined' and id = ...` instead of `id = ...`. The model follows the builder as if the field were present; how the user's grants are loaded is not part of this model.
- A conflict target made of several columns is not modelled, and neither are knex's DEFAULT columns in a batch whose rows have different keys. knex inserts the union of the inputs' columns and fills the missing ones with DEFAULT, and `merge()` then overwrites every one of them in a colliding row, `id` included. So in such a batch a merged row can lose its id or other columns to their defaults, where the model keeps every column the input leaves out (`CreateOrUpdateAllInPlace`, `UpsertStepSpec`).
- A negative `limit` is not modelled (`limit` is a `nat`).
- `populate` and `populateAll` are the identity in the source, so rows are returned as they are.
- The current user is a constant of each `Repository` object rather than read per call.
- Percent-encoding of query strings is not modelled: a query string is its list of (name, value) pairs.
- SelectMulti: React rendering, the async getter's loading state (given as an optional loaded value), the third-party component and the extra properties of option objects are left out.
- Repository.TimeoutMessage: follows the code, which prints the millisecond budget followed by "s", as the test at `services/api/src/common/Repository.spec.ts:130` expects. The timeout error is a plain `Error` carrying that message, not a dedicated error type.
- Repository.UpdateFailures: follows the code, where an update that matches nothing without `andWhere` reads `.id` of undefined when activities are registered (a `TypeError`) instead of returning null.
- Repository.CreateOrUpdateSpecProps: assumes the stored rows already satisfy the table's keys (`KeysHold`), as a database with those constraints guarantees.
- Repository.CreateOrUpdateAllSpecProps: states the shape of the result for any table, and success only for a batch whose proposed rows hold distinct values of the conflict column (the other case is `UpsertSameKeyTwice` for two inputs). Where each row lands is stated by `CreateOrUpdateAllInPlace`, which assumes the stored rows satisfy the table's keys (`KeysHold`), as a database with those constraints guarantees.
- Repository.UpsertIgnoresPermissions: its empty proof shows that permissions are not consulted (the source's TODO at line 119).
- Date.SecondsToTimeSpan: takes a whole number of seconds. For a fractional input the code prints what it prints for the floor of that input, because every `Math.floor` of a quotient by a whole number equals that of the floored input. NaN, `Infinity` and `-Infinity` are not modelled.
- Helpers.Truncate: counts characters as code points, while JavaScript's `length` and `substring` count UTF-16 units. `truncate("😀", 1, "")` returns a lone surrogate in JavaScript, and the model returns the whole emoji.
- Query.WhereAllMatches: a criterion whose value is `undefined` makes knex throw ("Undefined binding(s) detected") in `where` and `andWhere` (`services/api/src/common/Repository.ts:67`, `:89`, `:159-163`, `:190`). The model compares the column with `undefined` instead, so the criterion matches only rows that hold `undefined` there, which only the model stores (see `Repository.NewRow` below).
- Repository.UpdateChanges: `update(id, {})`, or changes that are all `undefined`, make knex throw "Empty .update() call detected" before the 422 check. The model runs an update that changes nothing.
- Repository.NewRow: keeps a column whose value is `undefined`, while knex leaves such a column out of the INSERT or UPDATE and the database default applies.
- Helpers.FromQuerystring: keys keep the order of their first occurrence. A JavaScript object built by `Object.fromEntries` lists integer-like keys first, in ascending order, which the model does not.

## Findings

| source | as written | input that shows it | evidently intended | confidence | as-written member | corrected member |
|---|---|---|---|---|---|---|
| services/api/src/common/Repository.ts:71-77 | With `any`, `getBy` chains `orWhere` per property and then `whereNull('deleted_at')` and the grants. Because AND binds tighter than OR, the filters apply only to the last equality. | A soft-deleting table holding a deleted row equal to the input on the first of two properties. | `(p1 OR p2) AND deleted_at IS NULL AND grants` | not executed | Repository.GetByAsWrittenFindsDeleted | Repository.GetBySpec |
| services/common/src/helpers.ts:140 | `stringValuesToBoolean(result)` returns a new object, and its result is discarded, so `convertBooleanValues` has no effect. | `?active=true` with the flag set gives "true" | `result = stringValuesToBoolean(result)` gives `true` | not executed | Helpers.ConvertFlagIgnored | Helpers.FromQuerystringConverting |
