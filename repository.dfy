/**
 * The generic repository every table of the API goes through: reads that
 * hide soft-deleted rows and rows the current user may not see, creates that
 * check the user's create grants before writing, updates and removals scoped
 * by the same permission rule, an audit activity for every write, and
 * transactions that keep all writes of a unit of work or none.
 *
 * The database is the table (`rows`, in stored order) and the activities
 * table. The current user, the clock (`now`) and the ids the database would
 * generate (`freshId`) are inputs.
 */
module Repository {
  import opened Wrappers
  import opened Js
  import opened Helpers
  import opened Permission
  import opened Query

  /** `RepositoryConfiguration`. */
  datatype Config = Config(tableName: string, softDelete: bool, enforcePermissions: bool, registerActivity: bool)

  /** The signed-in user as the repository reads it. */
  datatype User = User(id: string, ownerId: string, name: string, role: string, permissions: seq<Grant>)

  /**
   * What a repository call depends on besides the tables: the configuration,
   * the table's unique columns other than `id`, the admin group id that
   * stands in for a missing user in activities, and the current user.
   */
  datatype Context = Context(config: Config, uniqueColumns: seq<string>, adminGroupId: string, user: Option<User>)

  /** A row of the activities table. */
  datatype Activity = Activity(generatorId: string, resourceType: string, resourceId: string, action: string,
                               creatorId: string, ownerId: string, kind: string, description: string)

  /** What a repository call throws: an HTTP error, a database constraint error, or anything else. */
  datatype Failure = HttpError(status: int, message: string) | Constraint(message: string) | Thrown(message: string)

  /** The two tables a repository writes. */
  datatype Db = Db(rows: seq<Row>, activities: seq<Activity>)

  /** The result of a write together with the tables after it. */
  datatype Written<T> = Written(result: Result<T, Failure>, db: Db)

  const DuplicateKey := "duplicate key value violates unique constraint"
  const NoConflictTarget := "there is no unique or exclusion constraint matching the ON CONFLICT specification"
  const AffectedTwice := "ON CONFLICT DO UPDATE command cannot affect row a second time"
  /** What reading `row.id` of a missing row throws. */
  const TypeError := "TypeError: Cannot read properties of undefined (reading 'id')"

  // ---------------------------------------------------------------------------
  // Reads

  /** The permission rule applies (`enforcePermissions` is on and a user is signed in) and lets the user act on the row. */
  predicate Visible(ctx: Context, action: string, row: Row) {
    !ctx.config.enforcePermissions || ctx.user.None?
    || Allowed(ctx.user.value.permissions, ctx.config.tableName, action, Column(row, "id"), Column(row, "owner_id"))
  }

  /** `enforcePermissions(action, query)`. */
  function Enforce(ctx: Context, action: string, q: Query): Query {
    if !ctx.config.enforcePermissions || ctx.user.None? then q
    else AndWhere(q, Permitted(FilterOf(ctx.user.value.permissions, ctx.config.tableName, action)))
  }

  /** `if (softDelete) query.whereNull('deleted_at')`. */
  function NotDeleted(ctx: Context, q: Query): Query {
    if ctx.config.softDelete then AndWhere(q, IsNull("deleted_at")) else q
  }

  /** The row is not soft-deleted, or the table does not soft-delete. */
  predicate Live(ctx: Context, row: Row) {
    !ctx.config.softDelete || Column(row, "deleted_at") == Null
  }

  function ById(id: string): Entries {
    [("id", Str(id))]
  }

  /** `get(id)`. */
  function Get(ctx: Context, rows: seq<Row>, id: string): Option<Row> {
    First(Enforce(ctx, "read", NotDeleted(ctx, WhereAll(NewQuery, ById(id)))), rows)
  }

  /**
   * `getBy(input, any)` with both filters applied to the whole condition:
   * the first row equal on every property, or with `any` on at least one of
   * them (parenthesised), that is not soft-deleted and the user may read.
   */
  function GetBy(ctx: Context, rows: seq<Row>, input: Entries, any: bool): Option<Row> {
    var base :=
      if !any then WhereAll(NewQuery, input)
      else if input == [] then NewQuery
      else AndWhere(NewQuery, EqualsAny(input));
    First(Enforce(ctx, "read", NotDeleted(ctx, base)), rows)
  }

  /** `orWhere(column, value)` for each property in turn. */
  function OrWhereAll(q: Query, criteria: Entries): Query
    decreases |criteria|
  {
    if criteria == [] then q
    else OrWhereAll(OrWhere(q, Equals(criteria[0].0, criteria[0].1)), criteria[1..])
  }

  /**
   * `getBy(input, any)` as the query is chained: with `any` the OR-ed
   * equalities are followed by AND-ed filters, and AND binds tighter, so the
   * filters only guard the last equality.
   */
  function GetByAsWritten(ctx: Context, rows: seq<Row>, input: Entries, any: bool): Option<Row> {
    var base := if !any then WhereAll(NewQuery, input) else OrWhereAll(NewQuery, input);
    First(Enforce(ctx, "read", NotDeleted(ctx, base)), rows)
  }

  /** The ORDER BY of `getAll`: the optional sort key, then `created_at` ascending. */
  function OrderKeys(sort: Option<(string, Direction)>): seq<(string, Direction)> {
    (if sort.Some? then [sort.value] else []) + [("created_at", Asc)]
  }

  /** The deleted-filter of `getAll`: `deleted` asks for soft-deleted rows only. */
  predicate DeletedFilter(ctx: Context, deleted: bool, row: Row) {
    if deleted then Column(row, "deleted_at") != Null else Live(ctx, row)
  }

  function GetAllQuery(ctx: Context, wheres: Entries, sort: Option<(string, Direction)>, limit: nat, deleted: bool): Query {
    var q := WhereAll(NewQuery, wheres);
    var q := if deleted then AndWhere(q, NotNull("deleted_at")) else NotDeleted(ctx, q);
    var q := q.(orderBy := OrderKeys(sort));
    var q := if limit > 0 then q.(limit := Some(limit)) else q;
    Enforce(ctx, "read", q)
  }

  /** `getAll({...wheres, sort, limit, deleted})`; a `limit` of 0 stands for no limit, as `if (limit)` reads it. */
  function GetAll(ctx: Context, rows: seq<Row>, wheres: Entries, sort: Option<(string, Direction)>, limit: nat, deleted: bool): seq<Row> {
    Run(GetAllQuery(ctx, wheres, sort, limit, deleted), rows)
  }

  /** `exists(input)`: no deleted-filter and no permission filter. */
  function Exists(rows: seq<Row>, input: Entries): bool {
    First(WhereAll(NewQuery, input), rows).Some?
  }

  // ---------------------------------------------------------------------------
  // Read lemmas

  lemma EnforceMatches(ctx: Context, action: string, q: Query, row: Row)
    requires AllAnd(q.terms)
    ensures AllAnd(Enforce(ctx, action, q).terms)
    ensures Enforce(ctx, action, q).orderBy == q.orderBy && Enforce(ctx, action, q).limit == q.limit
    ensures Matches(Enforce(ctx, action, q).terms, row) <==> Matches(q.terms, row) && Visible(ctx, action, row)
  {
    if ctx.config.enforcePermissions && ctx.user.Some? {
      var grants := ctx.user.value.permissions;
      var f := FilterOf(grants, ctx.config.tableName, action);
      AndAppend(q.terms, Permitted(f), row);
      FilterOfSpec(grants, ctx.config.tableName, action);
    }
  }

  lemma NotDeletedMatches(ctx: Context, q: Query, row: Row)
    requires AllAnd(q.terms)
    ensures AllAnd(NotDeleted(ctx, q).terms)
    ensures NotDeleted(ctx, q).orderBy == q.orderBy && NotDeleted(ctx, q).limit == q.limit
    ensures Matches(NotDeleted(ctx, q).terms, row) <==> Matches(q.terms, row) && Live(ctx, row)
  {
    if ctx.config.softDelete {
      AndAppend(q.terms, IsNull("deleted_at"), row);
    }
  }

  /** The query of `get` and of `getBy` without `any`: equal on every property, live and readable. */
  lemma ReadMatches(ctx: Context, criteria: Entries, row: Row)
    ensures var q := Enforce(ctx, "read", NotDeleted(ctx, WhereAll(NewQuery, criteria)));
            Matches(q.terms, row) <==> MatchesAll(row, criteria) && Live(ctx, row) && Visible(ctx, "read", row)
  {
    WhereAllMatches(NewQuery, criteria, row);
    var q := WhereAll(NewQuery, criteria);
    NotDeletedMatches(ctx, q, row);
    EnforceMatches(ctx, "read", NotDeleted(ctx, q), row);
  }

  /**
   * `get(id)` returns a row with that id that is not soft-deleted and that
   * the user may read, and returns null exactly when the table has none.
   */
  lemma GetSpec(ctx: Context, rows: seq<Row>, id: string)
    ensures Get(ctx, rows, id).Some? ==>
              var r := Get(ctx, rows, id).value;
              r in rows && Column(r, "id") == Str(id) && Live(ctx, r) && Visible(ctx, "read", r)
    ensures Get(ctx, rows, id).None? <==>
              forall r :: r in rows ==> !(Column(r, "id") == Str(id) && Live(ctx, r) && Visible(ctx, "read", r))
  {
    var q := Enforce(ctx, "read", NotDeleted(ctx, WhereAll(NewQuery, ById(id))));
    FirstSpec(q, rows);
    forall r ensures Matches(q.terms, r) <==> Column(r, "id") == Str(id) && Live(ctx, r) && Visible(ctx, "read", r) {
      ReadMatches(ctx, ById(id), r);
    }
  }

  /** The condition `getBy` asks of a row besides the filters. */
  predicate GetByCondition(row: Row, input: Entries, any: bool) {
    if !any then MatchesAll(row, input) else input == [] || MatchesAny(row, input)
  }

  /**
   * `getBy` returns a row that satisfies the condition, is not soft-deleted
   * and is readable, and returns null exactly when the table has none.
   */
  lemma GetBySpec(ctx: Context, rows: seq<Row>, input: Entries, any: bool)
    ensures GetBy(ctx, rows, input, any).Some? ==>
              var r := GetBy(ctx, rows, input, any).value;
              r in rows && GetByCondition(r, input, any) && Live(ctx, r) && Visible(ctx, "read", r)
    ensures GetBy(ctx, rows, input, any).None? <==>
              forall r :: r in rows ==> !(GetByCondition(r, input, any) && Live(ctx, r) && Visible(ctx, "read", r))
  {
    var base :=
      if !any then WhereAll(NewQuery, input)
      else if input == [] then NewQuery
      else AndWhere(NewQuery, EqualsAny(input));
    var q := Enforce(ctx, "read", NotDeleted(ctx, base));
    FirstSpec(q, rows);
    forall r ensures Matches(q.terms, r) <==> GetByCondition(r, input, any) && Live(ctx, r) && Visible(ctx, "read", r) {
      if !any {
        WhereAllMatches(NewQuery, input, r);
      } else if input != [] {
        AndAppend([], EqualsAny(input), r);
      }
      NotDeletedMatches(ctx, base, r);
      EnforceMatches(ctx, "read", NotDeleted(ctx, base), r);
    }
  }

  /**
   * The chained query of `getBy(input, true)` finds a soft-deleted row
   * through any equality but the last: with a soft-deleting table and a
   * deleted row equal on the first of two properties, the query as written
   * returns the deleted row while the intended query returns null.
   */
  lemma GetByAsWrittenFindsDeleted()
    ensures var ctx := Context(Config("users", true, false, false), [], "admin", None);
            var deleted := map["id" := Str("u1"), "name" := Str("Lex"), "deleted_at" := Str("2024-01-01")];
            var input := [("name", Str("Lex")), ("email", Str("lex@example.com"))];
            GetByAsWritten(ctx, [deleted], input, true) == Some(deleted)
            && GetBy(ctx, [deleted], input, true) == None
  {
    var ctx := Context(Config("users", true, false, false), [], "admin", None);
    var deleted := map["id" := Str("u1"), "name" := Str("Lex"), "deleted_at" := Str("2024-01-01")];
    var input := [("name", Str("Lex")), ("email", Str("lex@example.com"))];
    assert Column(deleted, "name") == Str("Lex");
    assert Column(deleted, "email") == Null;
    var written := NotDeleted(ctx, OrWhereAll(NewQuery, input));
    var last := [Term(And, IsNull("deleted_at"))];
    assert written.terms == [Term(Or, Equals("name", Str("Lex"))), Term(Or, Equals("email", Str("lex@example.com")))] + last;
    assert EvalRest(true, false, last, deleted);
    assert Matches(written.terms, deleted);
    FirstSpec(written, [deleted]);
    GetBySpec(ctx, [deleted], input, true);
    assert !Live(ctx, deleted);
  }

  /** The ORDER BY and LIMIT of `getAll`'s query. */
  lemma GetAllShape(ctx: Context, wheres: Entries, sort: Option<(string, Direction)>, limit: nat, deleted: bool)
    ensures GetAllQuery(ctx, wheres, sort, limit, deleted).orderBy == OrderKeys(sort)
    ensures GetAllQuery(ctx, wheres, sort, limit, deleted).limit == if limit > 0 then Some(limit) else None
  {
    var q0 := WhereAll(NewQuery, wheres);
    var q1 := if deleted then AndWhere(q0, NotNull("deleted_at")) else NotDeleted(ctx, q0);
    var q2 := q1.(orderBy := OrderKeys(sort));
    var q3 := if limit > 0 then q2.(limit := Some(limit)) else q2;
    assert q0.limit == None;
    assert AllAnd(q0.terms) by {
      WhereAllMatches(NewQuery, wheres, map[]);
    }
    EnforceMatches(ctx, "read", q3, map[]);
  }

  /** The rows `getAll`'s where-chain selects. */
  lemma GetAllMatches(ctx: Context, wheres: Entries, sort: Option<(string, Direction)>, limit: nat, deleted: bool, r: Row)
    ensures Matches(GetAllQuery(ctx, wheres, sort, limit, deleted).terms, r)
            <==> MatchesAll(r, wheres) && DeletedFilter(ctx, deleted, r) && Visible(ctx, "read", r)
  {
    var q0 := WhereAll(NewQuery, wheres);
    WhereAllMatches(NewQuery, wheres, r);
    var q1 := if deleted then AndWhere(q0, NotNull("deleted_at")) else NotDeleted(ctx, q0);
    if deleted {
      AndAppend(q0.terms, NotNull("deleted_at"), r);
    } else {
      NotDeletedMatches(ctx, q0, r);
    }
    var q2 := q1.(orderBy := OrderKeys(sort));
    var q3 := if limit > 0 then q2.(limit := Some(limit)) else q2;
    EnforceMatches(ctx, "read", q3, r);
  }

  /**
   * `getAll` returns exactly the rows equal on every given property that
   * pass the deleted-filter and that the user may read (all of them when
   * there is no limit, at most `limit` otherwise), ordered by the sort key
   * and then by `created_at`.
   */
  lemma GetAllSpec(ctx: Context, rows: seq<Row>, wheres: Entries, sort: Option<(string, Direction)>, limit: nat, deleted: bool)
    ensures forall r :: r in GetAll(ctx, rows, wheres, sort, limit, deleted) ==>
              r in rows && MatchesAll(r, wheres) && DeletedFilter(ctx, deleted, r) && Visible(ctx, "read", r)
    ensures Ordered(GetAll(ctx, rows, wheres, sort, limit, deleted), OrderKeys(sort))
    ensures limit > 0 ==> |GetAll(ctx, rows, wheres, sort, limit, deleted)| <= limit
    ensures limit == 0 ==> forall r :: r in rows && MatchesAll(r, wheres) && DeletedFilter(ctx, deleted, r) && Visible(ctx, "read", r)
                                       ==> r in GetAll(ctx, rows, wheres, sort, limit, deleted)
  {
    var q := GetAllQuery(ctx, wheres, sort, limit, deleted);
    RunSpec(q, rows);
    SelectSpec(q.terms, rows);
    GetAllShape(ctx, wheres, sort, limit, deleted);
    forall r ensures Matches(q.terms, r) <==> MatchesAll(r, wheres) && DeletedFilter(ctx, deleted, r) && Visible(ctx, "read", r) {
      GetAllMatches(ctx, wheres, sort, limit, deleted, r);
    }
    if limit == 0 {
      forall r | r in rows && Matches(q.terms, r) ensures r in Run(q, rows) {
        assert r in Select(q.terms, rows);
        assert r in multiset(Select(q.terms, rows));
      }
    }
  }

  /**
   * With a limit, `getAll` returns as many rows as the limit allows of those
   * its where-chain selects, and no selected row it leaves out sorts before
   * one it returns.
   */
  lemma GetAllLimit(ctx: Context, rows: seq<Row>, wheres: Entries, sort: Option<(string, Direction)>, limit: nat, deleted: bool)
    requires limit > 0
    ensures var n := |Select(GetAllQuery(ctx, wheres, sort, limit, deleted).terms, rows)|;
            |GetAll(ctx, rows, wheres, sort, limit, deleted)| == if limit < n then limit else n
    ensures forall x, y :: x in GetAll(ctx, rows, wheres, sort, limit, deleted)
                           && y in rows && MatchesAll(y, wheres) && DeletedFilter(ctx, deleted, y) && Visible(ctx, "read", y)
                           && y !in GetAll(ctx, rows, wheres, sort, limit, deleted) ==>
              CompareRows(x, y, OrderKeys(sort)) <= 0
  {
    var q := GetAllQuery(ctx, wheres, sort, limit, deleted);
    GetAllShape(ctx, wheres, sort, limit, deleted);
    RunLimit(q, rows);
    SelectSpec(q.terms, rows);
    forall y | y in rows && MatchesAll(y, wheres) && DeletedFilter(ctx, deleted, y) && Visible(ctx, "read", y) && y !in Run(q, rows)
      ensures y in multiset(Select(q.terms, rows)) - multiset(Run(q, rows))
    {
      GetAllMatches(ctx, wheres, sort, limit, deleted, y);
      assert y in Select(q.terms, rows);
    }
  }

  /** `exists` looks at every row, soft-deleted or not, readable or not. */
  lemma ExistsSpec(rows: seq<Row>, input: Entries)
    ensures Exists(rows, input) <==> exists r :: r in rows && MatchesAll(r, input)
  {
    FirstSpec(WhereAll(NewQuery, input), rows);
    forall r ensures Matches(WhereAll(NewQuery, input).terms, r) <==> MatchesAll(r, input) {
      WhereAllMatches(NewQuery, input, r);
    }
  }

  // ---------------------------------------------------------------------------
  // Activities

  /** The user an activity is attributed to when nobody is signed in. */
  function SystemUser(ctx: Context): User {
    User(ctx.adminGroupId, ctx.adminGroupId, "System", "ADMIN", [])
  }

  function Actor(ctx: Context): User {
    if ctx.user.Some? then ctx.user.value else SystemUser(ctx)
  }

  /** The activity `registerActivity(action, resourceId)` inserts. */
  function ActivityFor(ctx: Context, action: string, resourceId: string): Activity {
    var u := Actor(ctx);
    var table := ctx.config.tableName;
    Activity(u.id, table, resourceId, action, u.id, u.ownerId, "audit",
             u.role + " " + Truncate(u.id, 8, "") + " " + u.name + ": " + action + " '" + table + "' with id=" + resourceId)
  }

  /** `row.id` as it is interpolated into the activity. */
  function RowId(row: Row): string {
    ToJsString(Column(row, "id"))
  }

  function RowIds(rows: seq<Row>): (r: seq<string>)
    ensures |r| == |rows|
  {
    seq(|rows|, i requires 0 <= i < |rows| => RowId(rows[i]))
  }

  function ActivitiesFor(ctx: Context, action: string, ids: seq<string>): (r: seq<Activity>)
    ensures |r| == |ids|
  {
    seq(|ids|, i requires 0 <= i < |ids| => ActivityFor(ctx, action, ids[i]))
  }

  /** The tables after the activities of a write, when the repository registers activity. */
  function Logged(ctx: Context, db: Db, action: string, ids: seq<string>): Db {
    if ctx.config.registerActivity then db.(activities := db.activities + ActivitiesFor(ctx, action, ids)) else db
  }

  // ---------------------------------------------------------------------------
  // The database's own checks

  /** No two rows share a non-null value of the column. */
  predicate Distinct(rows: seq<Row>, column: string) {
    forall i, j :: 0 <= i < j < |rows| && Column(rows[i], column) != Null ==> Column(rows[i], column) != Column(rows[j], column)
  }

  /** The table's keys: every row has an id, ids are distinct, and so are the values of each unique column. */
  predicate KeysHold(ctx: Context, rows: seq<Row>) {
    (forall i :: 0 <= i < |rows| ==> Column(rows[i], "id") != Null)
    && Distinct(rows, "id")
    && forall c :: c in ctx.uniqueColumns ==> Distinct(rows, c)
  }

  /** The row the database stores for an input: the generated id and `created_at` fill in what the input leaves out. */
  function NewRow(input: Row, freshId: string, now: string): (r: Row)
    ensures forall c :: c in input ==> c in r && r[c] == input[c]
    ensures "id" in r && ("id" !in input ==> r["id"] == Str(freshId))
    ensures "created_at" in r && ("created_at" !in input ==> r["created_at"] == Str(now))
    ensures r.Keys == input.Keys + {"id", "created_at"}
  {
    var withId := if "id" in input then input else input["id" := Str(freshId)];
    if "created_at" in withId then withId else withId["created_at" := Str(now)]
  }

  // ---------------------------------------------------------------------------
  // create / createAll

  function OwnerRequired(ctx: Context): string {
    "[" + ctx.config.tableName + "] Owner ID is required for write operations."
  }

  const NotPermitted := "You do not have permission to perform this write operation."

  /** `enforceCreatePermissions(row)`: what it throws, if anything. */
  function CreateCheck(ctx: Context, input: Row): Option<Failure> {
    var ownerId := Column(input, "owner_id");
    if !ctx.config.enforcePermissions then None
    else if !Truthy(ownerId) then Some(HttpError(400, OwnerRequired(ctx)))
    else if ctx.user.None? then None
    else if !CreateAllowed(ctx.user.value.permissions, ctx.config.tableName, Column(input, "id"), ownerId) then Some(HttpError(401, NotPermitted))
    else None
  }

  /** What the checks of `createAll` throw: the failure of the first input that fails. */
  function FirstFailure(ctx: Context, inputs: seq<Row>): Option<Failure> {
    if inputs == [] then None
    else if CreateCheck(ctx, inputs[0]).Some? then CreateCheck(ctx, inputs[0])
    else FirstFailure(ctx, inputs[1..])
  }

  /** `create(input)`. */
  function CreateSpec(ctx: Context, db: Db, input: Row, freshId: string, now: string): Written<Row> {
    match CreateCheck(ctx, input)
    case Some(f) => Written(Err(f), db)
    case None =>
      var row := NewRow(input, freshId, now);
      if !KeysHold(ctx, db.rows + [row]) then Written(Err(Constraint(DuplicateKey)), db)
      else Written(Ok(row), Logged(ctx, db.(rows := db.rows + [row]), "create", [RowId(row)]))
  }

  function NewRows(inputs: seq<Row>, freshIds: seq<string>, now: string): (r: seq<Row>)
    requires |freshIds| == |inputs|
    ensures |r| == |inputs|
  {
    seq(|inputs|, i requires 0 <= i < |inputs| => NewRow(inputs[i], freshIds[i], now))
  }

  /** `createAll(inputs)`: every input is checked before the one INSERT runs. */
  function CreateAllSpec(ctx: Context, db: Db, inputs: seq<Row>, freshIds: seq<string>, now: string): Written<seq<Row>>
    requires |freshIds| == |inputs|
  {
    match FirstFailure(ctx, inputs)
    case Some(f) => Written(Err(f), db)
    case None =>
      var added := NewRows(inputs, freshIds, now);
      if !KeysHold(ctx, db.rows + added) then Written(Err(Constraint(DuplicateKey)), db)
      else Written(Ok(added), Logged(ctx, db.(rows := db.rows + added), "create", RowIds(added)))
  }

  // ---------------------------------------------------------------------------
  // createOrUpdate / createOrUpdateAll: INSERT ... ON CONFLICT (column) DO UPDATE

  /** The column names a unique constraint: the primary key or one of the unique columns. */
  predicate ConflictTarget(ctx: Context, column: string) {
    column == "id" || column in ctx.uniqueColumns
  }

  /** The stored row the proposed value collides with; NULL never collides. */
  function FindConflict(rows: seq<Row>, column: string, value: JsValue): (r: Option<nat>)
    ensures r.Some? ==> r.value < |rows|
  {
    if rows == [] then None
    else match FindConflict(rows[..|rows| - 1], column, value)
      case Some(k) => Some(k)
      case None => if value != Null && Column(rows[|rows| - 1], column) == value then Some(|rows| - 1) else None
  }

  /** The table during an upsert statement, the rows it returns so far, and the positions it has inserted or updated. */
  datatype Upsert = Upsert(rows: seq<Row>, results: seq<Row>, touched: set<nat>)

  /** One input row of the statement: merge its columns into the row it collides with, or insert it. */
  function UpsertStep(u: Upsert, input: Row, freshId: string, column: string, now: string): (r: Result<Upsert, Failure>)
    ensures r.Ok? ==> |r.value.results| == |u.results| + 1
  {
    var proposed := NewRow(input, freshId, now);
    match FindConflict(u.rows, column, Column(proposed, column))
    case Some(k) =>
      if k in u.touched then Err(Constraint(AffectedTwice))
      else
        var merged := u.rows[k] + input;
        Ok(Upsert(u.rows[k := merged], u.results + [merged], u.touched + {k}))
    case None => Ok(Upsert(u.rows + [proposed], u.results + [proposed], u.touched + {|u.rows|}))
  }

  /** The input rows in order. */
  function UpsertAll(rows: seq<Row>, inputs: seq<Row>, freshIds: seq<string>, column: string, now: string): Result<Upsert, Failure>
    requires |freshIds| == |inputs|
  {
    if inputs == [] then Ok(Upsert(rows, [], {}))
    else
      var n := |inputs| - 1;
      match UpsertAll(rows, inputs[..n], freshIds[..n], column, now)
      case Err(f) => Err(f)
      case Ok(u) => UpsertStep(u, inputs[n], freshIds[n], column, now)
  }

  /** `createOrUpdateAll(inputs, column)`: no permission check; every returned row is logged as 'update'. */
  function CreateOrUpdateAllSpec(ctx: Context, db: Db, inputs: seq<Row>, column: string, freshIds: seq<string>, now: string): Written<seq<Row>>
    requires |freshIds| == |inputs|
  {
    if !ConflictTarget(ctx, column) then Written(Err(Constraint(NoConflictTarget)), db)
    else match UpsertAll(db.rows, inputs, freshIds, column, now)
      case Err(f) => Written(Err(f), db)
      case Ok(u) =>
        if !KeysHold(ctx, u.rows) then Written(Err(Constraint(DuplicateKey)), db)
        else Written(Ok(u.results), Logged(ctx, db.(rows := u.rows), "update", RowIds(u.results)))
  }

  /** `createOrUpdate(input, column)`. */
  function CreateOrUpdateSpec(ctx: Context, db: Db, input: Row, column: string, freshId: string, now: string): Written<Row> {
    if !ConflictTarget(ctx, column) then Written(Err(Constraint(NoConflictTarget)), db)
    else match UpsertStep(Upsert(db.rows, [], {}), input, freshId, column, now)
      case Err(f) => Written(Err(f), db)
      case Ok(u) =>
        if !KeysHold(ctx, u.rows) then Written(Err(Constraint(DuplicateKey)), db)
        else Written(Ok(u.results[0]), Logged(ctx, db.(rows := u.rows), "update", [RowId(u.results[0])]))
  }

  // ---------------------------------------------------------------------------
  // update / remove / removeBy

  /** The table after an UPDATE that sets `changes` on the rows the where-chain selects. */
  function Changed(terms: seq<Term>, rows: seq<Row>, changes: Row): (r: seq<Row>)
    ensures |r| == |rows|
  {
    seq(|rows|, i requires 0 <= i < |rows| => if Matches(terms, rows[i]) then rows[i] + changes else rows[i])
  }

  /** The table after a DELETE with the where-chain, in stored order. */
  function Kept(terms: seq<Term>, rows: seq<Row>): seq<Row> {
    if rows == [] then []
    else Kept(terms, rows[..|rows| - 1]) + (if Matches(terms, rows[|rows| - 1]) then [] else [rows[|rows| - 1]])
  }

  /** The query of `update(id, input, andWhere)`. */
  function UpdateQuery(ctx: Context, id: string, andWhere: Entries): Query {
    Enforce(ctx, "update", WhereAll(WhereAll(NewQuery, ById(id)), andWhere))
  }

  function Unsatisfied(id: string): string {
    "Resource with id=" + id + " cannot be updated because it does not satisfy the where clause."
  }

  /**
   * `update(id, changes, andWhere)`. When nothing matches: 422 if there is
   * an `andWhere`, otherwise reading `resource.id` throws when activity is
   * registered and the call returns nothing when it is not.
   */
  function UpdateSpec(ctx: Context, db: Db, id: string, changes: Row, andWhere: Entries): Written<Option<Row>> {
    var terms := UpdateQuery(ctx, id, andWhere).terms;
    var matched := Select(terms, db.rows);
    if matched == [] then
      if andWhere != [] then Written(Err(HttpError(422, Unsatisfied(id))), db)
      else if ctx.config.registerActivity then Written(Err(Thrown(TypeError)), db)
      else Written(Ok(None), db)
    else
      var table := Changed(terms, db.rows, changes);
      if !KeysHold(ctx, table) then Written(Err(Constraint(DuplicateKey)), db)
      else
        var resource := matched[0] + changes;
        Written(Ok(Some(resource)), Logged(ctx, db.(rows := table), "update", [RowId(resource)]))
  }

  /** The table after the soft or hard delete of the rows the where-chain selects. */
  function Deleted(ctx: Context, terms: seq<Term>, rows: seq<Row>, now: string): seq<Row> {
    if ctx.config.softDelete then Changed(terms, rows, map["deleted_at" := Str(now)]) else Kept(terms, rows)
  }

  function RemoveQuery(ctx: Context, criteria: Entries): Query {
    Enforce(ctx, "delete", WhereAll(NewQuery, criteria))
  }

  /** `remove(id)`: true when a row was removed; reading `row.id` of no row throws when activity is registered. */
  function RemoveSpec(ctx: Context, db: Db, id: string, now: string): Written<bool> {
    var terms := RemoveQuery(ctx, ById(id)).terms;
    var matched := Select(terms, db.rows);
    if matched == [] then
      if ctx.config.registerActivity then Written(Err(Thrown(TypeError)), db) else Written(Ok(false), db)
    else Written(Ok(true), Logged(ctx, db.(rows := Deleted(ctx, terms, db.rows, now)), "delete", [RowId(matched[0])]))
  }

  /** `removeBy(input)`: every removed row is logged; true when there was one. */
  function RemoveBySpec(ctx: Context, db: Db, input: Entries, now: string): (bool, Db) {
    var terms := RemoveQuery(ctx, input).terms;
    var matched := Select(terms, db.rows);
    (matched != [], Logged(ctx, db.(rows := Deleted(ctx, terms, db.rows, now)), "delete", RowIds(matched)))
  }

  // ---------------------------------------------------------------------------
  // runInTransaction

  /** One repository call made by the function a transaction runs, or that function throwing. */
  datatype Step =
    | CreateStep(input: Row, freshId: string)
    | CreateAllStep(batch: seq<(Row, string)>)
    | CreateOrUpdateStep(upsert: Row, column: string, upsertId: string)
    | CreateOrUpdateAllStep(upserts: seq<(Row, string)>, batchColumn: string)
    | UpdateStep(id: string, changes: Row, andWhere: Entries)
    | RemoveStep(removeId: string)
    | RemoveByStep(criteria: Entries)
    | FailStep(message: string)

  datatype Outcome =
    | Created(row: Row)
    | CreatedAll(rows: seq<Row>)
    | Upserted(upserted: Row)
    | UpsertedAll(upsertedRows: seq<Row>)
    | Updated(updated: Option<Row>)
    | Removed(removed: bool)

  /** The input rows of a batch step, each given with the id the database would generate for it. */
  function BatchInputs(batch: seq<(Row, string)>): (r: seq<Row>)
    ensures |r| == |batch|
  {
    seq(|batch|, i requires 0 <= i < |batch| => batch[i].0)
  }

  function BatchIds(batch: seq<(Row, string)>): (r: seq<string>)
    ensures |r| == |batch|
  {
    seq(|batch|, i requires 0 <= i < |batch| => batch[i].1)
  }

  function StepSpec(ctx: Context, db: Db, step: Step, now: string): Written<Outcome> {
    match step
    case CreateStep(input, freshId) =>
      var w := CreateSpec(ctx, db, input, freshId, now);
      Written(if w.result.Ok? then Ok(Created(w.result.value)) else Err(w.result.error), w.db)
    case CreateAllStep(batch) =>
      var w := CreateAllSpec(ctx, db, BatchInputs(batch), BatchIds(batch), now);
      Written(if w.result.Ok? then Ok(CreatedAll(w.result.value)) else Err(w.result.error), w.db)
    case CreateOrUpdateStep(input, column, freshId) =>
      var w := CreateOrUpdateSpec(ctx, db, input, column, freshId, now);
      Written(if w.result.Ok? then Ok(Upserted(w.result.value)) else Err(w.result.error), w.db)
    case CreateOrUpdateAllStep(batch, column) =>
      var w := CreateOrUpdateAllSpec(ctx, db, BatchInputs(batch), column, BatchIds(batch), now);
      Written(if w.result.Ok? then Ok(UpsertedAll(w.result.value)) else Err(w.result.error), w.db)
    case UpdateStep(id, changes, andWhere) =>
      var w := UpdateSpec(ctx, db, id, changes, andWhere);
      Written(if w.result.Ok? then Ok(Updated(w.result.value)) else Err(w.result.error), w.db)
    case RemoveStep(id) =>
      var w := RemoveSpec(ctx, db, id, now);
      Written(if w.result.Ok? then Ok(Removed(w.result.value)) else Err(w.result.error), w.db)
    case RemoveByStep(criteria) =>
      var (removed, db') := RemoveBySpec(ctx, db, criteria, now);
      Written(Ok(Removed(removed)), db')
    case FailStep(message) => Written(Err(Thrown(message)), db)
  }

  /** Outcomes already collected in front of the rest of a script. */
  function Prepend(outcomes: seq<Outcome>, w: Written<seq<Outcome>>): Written<seq<Outcome>> {
    if w.result.Ok? then Written(Ok(outcomes + w.result.value), w.db) else w
  }

  /** The calls in order on the transaction's view of the tables, up to the first that throws. */
  function ScriptSpec(ctx: Context, db: Db, steps: seq<Step>, now: string): Written<seq<Outcome>>
    decreases |steps|
  {
    if steps == [] then Written(Ok([]), db)
    else
      var w := StepSpec(ctx, db, steps[0], now);
      if w.result.Err? then Written(Err(w.result.error), w.db)
      else Prepend([w.result.value], ScriptSpec(ctx, w.db, steps[1..], now))
  }

  const DefaultTimeout := 30000

  function TimeoutMessage(timeout: int): string {
    "Transaction took more than " + IntToString(timeout) + "s to process."
  }

  /**
   * `runInTransaction(fn, timeout)`: `timedOut` says whether the timer
   * fires before the function settles. A timeout or a throw rolls back;
   * otherwise the function's writes are committed.
   */
  function TransactionSpec(ctx: Context, db: Db, steps: seq<Step>, now: string, timedOut: bool, timeout: int): Written<seq<Outcome>> {
    if timedOut then Written(Err(Thrown(TimeoutMessage(timeout))), db)
    else
      var w := ScriptSpec(ctx, db, steps, now);
      if w.result.Err? then Written(w.result, db) else w
  }

  // ---------------------------------------------------------------------------
  // The repository object

  /**
   * A repository bound to its configuration, the table's unique columns, the
   * admin group id and the request's user, over the two tables it writes.
   */
  class Repository {
    const config: Config
    const uniqueColumns: seq<string>
    const adminGroupId: string
    const user: Option<User>
    var rows: seq<Row>
    var activities: seq<Activity>

    constructor (config: Config, uniqueColumns: seq<string>, adminGroupId: string, user: Option<User>, rows: seq<Row>)
      ensures Ctx() == Context(config, uniqueColumns, adminGroupId, user)
      ensures State() == Db(rows, [])
    {
      this.config := config;
      this.uniqueColumns := uniqueColumns;
      this.adminGroupId := adminGroupId;
      this.user := user;
      this.rows := rows;
      this.activities := [];
    }

    function Ctx(): Context {
      Context(config, uniqueColumns, adminGroupId, user)
    }

    function State(): Db
      reads this
    {
      Db(rows, activities)
    }

    /** `registerActivity(action, resourceId)`. */
    method RegisterActivity(action: string, resourceId: string)
      modifies this
      ensures rows == old(rows)
      ensures activities == old(activities) + [ActivityFor(Ctx(), action, resourceId)]
    {
      var u := if user.Some? then user.value else User(adminGroupId, adminGroupId, "System", "ADMIN", []);
      var description := u.role + " " + Truncate(u.id, 8, "") + " " + u.name + ": " + action + " '" + config.tableName + "' with id=" + resourceId;
      activities := activities + [Activity(u.id, config.tableName, resourceId, action, u.id, u.ownerId, "audit", description)];
    }

    /** The loop that registers one activity per returned row. */
    method RegisterAll(action: string, ids: seq<string>)
      modifies this
      ensures State() == Logged(Ctx(), old(State()), action, ids)
    {
      if !config.registerActivity {
        return;
      }
      for i := 0 to |ids|
        invariant rows == old(rows)
        invariant activities == old(activities) + ActivitiesFor(Ctx(), action, ids[..i])
      {
        RegisterActivity(action, ids[i]);
        assert ActivitiesFor(Ctx(), action, ids[..i + 1]) == ActivitiesFor(Ctx(), action, ids[..i]) + [ActivityFor(Ctx(), action, ids[i])];
      }
      assert ids[..|ids|] == ids;
    }

    method Create(input: Row, freshId: string, now: string) returns (r: Result<Row, Failure>)
      modifies this
      ensures Written(r, State()) == CreateSpec(Ctx(), old(State()), input, freshId, now)
    {
      var check := CreateCheck(Ctx(), input);
      if check.Some? {
        return Err(check.value);
      }
      var row := NewRow(input, freshId, now);
      if !KeysHold(Ctx(), rows + [row]) {
        return Err(Constraint(DuplicateKey));
      }
      rows := rows + [row];
      RegisterAll("create", [RowId(row)]);
      r := Ok(row);
    }

    method CreateAll(inputs: seq<Row>, freshIds: seq<string>, now: string) returns (r: Result<seq<Row>, Failure>)
      requires |freshIds| == |inputs|
      modifies this
      ensures Written(r, State()) == CreateAllSpec(Ctx(), old(State()), inputs, freshIds, now)
    {
      FirstFailureSpec(Ctx(), inputs);
      for i := 0 to |inputs|
        invariant forall j :: 0 <= j < i ==> CreateCheck(Ctx(), inputs[j]).None?
      {
        var check := CreateCheck(Ctx(), inputs[i]);
        if check.Some? {
          FirstFailureAt(Ctx(), inputs, i);
          return Err(check.value);
        }
      }
      var added := NewRows(inputs, freshIds, now);
      if !KeysHold(Ctx(), rows + added) {
        return Err(Constraint(DuplicateKey));
      }
      rows := rows + added;
      RegisterAll("create", RowIds(added));
      r := Ok(added);
    }

    method CreateOrUpdate(input: Row, column: string, freshId: string, now: string) returns (r: Result<Row, Failure>)
      modifies this
      ensures Written(r, State()) == CreateOrUpdateSpec(Ctx(), old(State()), input, column, freshId, now)
    {
      if !ConflictTarget(Ctx(), column) {
        return Err(Constraint(NoConflictTarget));
      }
      var u := UpsertStep(Upsert(rows, [], {}), input, freshId, column, now);
      if u.Err? {
        return Err(u.error);
      }
      if !KeysHold(Ctx(), u.value.rows) {
        return Err(Constraint(DuplicateKey));
      }
      rows := u.value.rows;
      var row := u.value.results[0];
      RegisterAll("update", [RowId(row)]);
      r := Ok(row);
    }

    method CreateOrUpdateAll(inputs: seq<Row>, column: string, freshIds: seq<string>, now: string) returns (r: Result<seq<Row>, Failure>)
      requires |freshIds| == |inputs|
      modifies this
      ensures Written(r, State()) == CreateOrUpdateAllSpec(Ctx(), old(State()), inputs, column, freshIds, now)
    {
      if !ConflictTarget(Ctx(), column) {
        return Err(Constraint(NoConflictTarget));
      }
      var u := UpsertAll(rows, inputs, freshIds, column, now);
      if u.Err? {
        return Err(u.error);
      }
      if !KeysHold(Ctx(), u.value.rows) {
        return Err(Constraint(DuplicateKey));
      }
      rows := u.value.rows;
      RegisterAll("update", RowIds(u.value.results));
      r := Ok(u.value.results);
    }

    method Update(id: string, changes: Row, andWhere: Entries) returns (r: Result<Option<Row>, Failure>)
      modifies this
      ensures Written(r, State()) == UpdateSpec(Ctx(), old(State()), id, changes, andWhere)
    {
      var q := WhereAll(NewQuery, ById(id));
      ghost var base := q;
      for i := 0 to |andWhere|
        invariant q == WhereAll(base, andWhere[..i])
        invariant State() == old(State())
      {
        var (column, value) := andWhere[i];
        WhereAllSnoc(base, andWhere[..i], column, value);
        assert andWhere[..i + 1] == andWhere[..i] + [(column, value)];
        if value == Null {
          q := AndWhere(q, IsNull(column));
        } else {
          q := AndWhere(q, Equals(column, value));
        }
      }
      assert andWhere[..|andWhere|] == andWhere;
      q := Enforce(Ctx(), "update", q);
      assert q == UpdateQuery(Ctx(), id, andWhere);
      var matched := Select(q.terms, rows);
      if matched == [] {
        if |andWhere| > 0 {
          return Err(HttpError(422, Unsatisfied(id)));
        }
        if config.registerActivity {
          return Err(Thrown(TypeError));
        }
        return Ok(None);
      }
      var table := Changed(q.terms, rows, changes);
      if !KeysHold(Ctx(), table) {
        return Err(Constraint(DuplicateKey));
      }
      rows := table;
      var resource := matched[0] + changes;
      RegisterAll("update", [RowId(resource)]);
      r := Ok(Some(resource));
    }

    method Remove(id: string, now: string) returns (r: Result<bool, Failure>)
      modifies this
      ensures Written(r, State()) == RemoveSpec(Ctx(), old(State()), id, now)
    {
      var q := RemoveQuery(Ctx(), ById(id));
      var matched := Select(q.terms, rows);
      if matched == [] && config.registerActivity {
        return Err(Thrown(TypeError));
      }
      if matched == [] {
        return Ok(false);
      }
      rows := Deleted(Ctx(), q.terms, rows, now);
      RegisterAll("delete", [RowId(matched[0])]);
      r := Ok(true);
    }

    method RemoveBy(input: Entries, now: string) returns (r: bool)
      modifies this
      ensures (r, State()) == RemoveBySpec(Ctx(), old(State()), input, now)
    {
      var q := RemoveQuery(Ctx(), input);
      var matched := Select(q.terms, rows);
      rows := Deleted(Ctx(), q.terms, rows, now);
      RegisterAll("delete", RowIds(matched));
      r := |matched| > 0;
    }

    method ExecuteStep(step: Step, now: string) returns (r: Result<Outcome, Failure>)
      modifies this
      ensures Written(r, State()) == StepSpec(Ctx(), old(State()), step, now)
    {
      match step
      case CreateStep(input, freshId) =>
        var c := Create(input, freshId, now);
        r := if c.Ok? then Ok(Created(c.value)) else Err(c.error);
      case CreateAllStep(batch) =>
        var c := CreateAll(BatchInputs(batch), BatchIds(batch), now);
        r := if c.Ok? then Ok(CreatedAll(c.value)) else Err(c.error);
      case CreateOrUpdateStep(input, column, freshId) =>
        var c := CreateOrUpdate(input, column, freshId, now);
        r := if c.Ok? then Ok(Upserted(c.value)) else Err(c.error);
      case CreateOrUpdateAllStep(batch, column) =>
        var c := CreateOrUpdateAll(BatchInputs(batch), column, BatchIds(batch), now);
        r := if c.Ok? then Ok(UpsertedAll(c.value)) else Err(c.error);
      case UpdateStep(id, changes, andWhere) =>
        var c := Update(id, changes, andWhere);
        r := if c.Ok? then Ok(Updated(c.value)) else Err(c.error);
      case RemoveStep(id) =>
        var c := Remove(id, now);
        r := if c.Ok? then Ok(Removed(c.value)) else Err(c.error);
      case RemoveByStep(criteria) =>
        var c := RemoveBy(criteria, now);
        r := Ok(Removed(c));
      case FailStep(message) =>
        r := Err(Thrown(message));
    }

    /** `runInTransaction`: the calls run on the transaction; a throw or the timeout restores the tables. */
    method RunInTransaction(steps: seq<Step>, now: string, timedOut: bool, timeout: int) returns (r: Result<seq<Outcome>, Failure>)
      modifies this
      ensures Written(r, State()) == TransactionSpec(Ctx(), old(State()), steps, now, timedOut, timeout)
    {
      ghost var saved := State();
      var savedRows, savedActivities := rows, activities;
      var outcomes: seq<Outcome> := [];
      var failure: Option<Failure> := None;
      var i := 0;
      assert steps[0..] == steps;
      PrependNothing(ScriptSpec(Ctx(), saved, steps, now));
      while i < |steps| && failure.None?
        invariant 0 <= i <= |steps|
        invariant saved == Db(savedRows, savedActivities)
        invariant failure.None? ==> Prepend(outcomes, ScriptSpec(Ctx(), State(), steps[i..], now)) == ScriptSpec(Ctx(), saved, steps, now)
        invariant failure.Some? ==> ScriptSpec(Ctx(), saved, steps, now).result == Err(failure.value)
        decreases |steps| - i, if failure.None? then 1 else 0
      {
        ghost var before := State();
        assert steps[i..][0] == steps[i] && steps[i..][1..] == steps[i + 1..];
        var o := ExecuteStep(steps[i], now);
        if o.Err? {
          assert ScriptSpec(Ctx(), before, steps[i..], now) == Written(Err(o.error), State());
          failure := Some(o.error);
        } else {
          var rest := ScriptSpec(Ctx(), State(), steps[i + 1..], now);
          assert ScriptSpec(Ctx(), before, steps[i..], now) == Prepend([o.value], rest);
          PrependConcat(outcomes, [o.value], rest);
          outcomes := outcomes + [o.value];
          i := i + 1;
        }
      }
      if timedOut || failure.Some? {
        rows, activities := savedRows, savedActivities;
        r := if timedOut then Err(Thrown(TimeoutMessage(timeout))) else Err(failure.value);
      } else {
        assert steps[i..] == [];
        assert outcomes + [] == outcomes;
        r := Ok(outcomes);
      }
    }
  }

  lemma PrependNothing(w: Written<seq<Outcome>>)
    ensures Prepend([], w) == w
  {
    if w.result.Ok? {
      assert [] + w.result.value == w.result.value;
    }
  }

  lemma PrependConcat(first: seq<Outcome>, second: seq<Outcome>, w: Written<seq<Outcome>>)
    ensures Prepend(first, Prepend(second, w)) == Prepend(first + second, w)
  {
    if w.result.Ok? {
      assert first + (second + w.result.value) == (first + second) + w.result.value;
    }
  }

  // ---------------------------------------------------------------------------
  // Write lemmas

  /** `createAll`'s checks pass exactly when every input passes; what they throw is an HTTP error. */
  lemma {:induction false} FirstFailureSpec(ctx: Context, inputs: seq<Row>)
    ensures FirstFailure(ctx, inputs).None? <==> forall j :: 0 <= j < |inputs| ==> CreateCheck(ctx, inputs[j]).None?
    ensures FirstFailure(ctx, inputs).Some? ==> FirstFailure(ctx, inputs).value.HttpError?
  {
    if inputs != [] {
      FirstFailureSpec(ctx, inputs[1..]);
      assert forall j :: 0 <= j < |inputs| - 1 ==> inputs[1..][j] == inputs[j + 1];
    }
  }

  /** What `createAll`'s checks throw is the failure of the first input that fails. */
  lemma {:induction false} FirstFailureAt(ctx: Context, inputs: seq<Row>, i: nat)
    requires i < |inputs| && CreateCheck(ctx, inputs[i]).Some?
    requires forall j :: 0 <= j < i ==> CreateCheck(ctx, inputs[j]).None?
    ensures FirstFailure(ctx, inputs) == CreateCheck(ctx, inputs[i])
  {
    if i > 0 {
      assert CreateCheck(ctx, inputs[0]).None?;
      assert inputs[1..][i - 1] == inputs[i];
      assert forall j :: 0 <= j < i - 1 ==> inputs[1..][j] == inputs[j + 1];
      FirstFailureAt(ctx, inputs[1..], i - 1);
    }
  }

  /** The rows `update(id, changes, andWhere)` changes: that id, every `andWhere` property, and the update grants. */
  predicate UpdateTarget(ctx: Context, id: string, andWhere: Entries, row: Row) {
    Column(row, "id") == Str(id) && MatchesAll(row, andWhere) && Visible(ctx, "update", row)
  }

  lemma UpdateMatches(ctx: Context, id: string, andWhere: Entries, row: Row)
    ensures Matches(UpdateQuery(ctx, id, andWhere).terms, row) <==> UpdateTarget(ctx, id, andWhere, row)
  {
    var q0 := WhereAll(NewQuery, ById(id));
    WhereAllMatches(NewQuery, ById(id), row);
    WhereAllMatches(q0, andWhere, row);
    EnforceMatches(ctx, "update", WhereAll(q0, andWhere), row);
  }

  /** The rows `removeBy(criteria)` removes: every property, and the delete grants. */
  predicate RemoveTarget(ctx: Context, criteria: Entries, row: Row) {
    MatchesAll(row, criteria) && Visible(ctx, "delete", row)
  }

  lemma RemoveMatches(ctx: Context, criteria: Entries, row: Row)
    ensures Matches(RemoveQuery(ctx, criteria).terms, row) <==> RemoveTarget(ctx, criteria, row)
  {
    WhereAllMatches(NewQuery, criteria, row);
    EnforceMatches(ctx, "delete", WhereAll(NewQuery, criteria), row);
  }

  /** A DELETE keeps exactly the rows its where-chain does not select. */
  lemma {:induction false} KeptSpec(terms: seq<Term>, rows: seq<Row>)
    ensures forall r :: r in Kept(terms, rows) <==> r in rows && !Matches(terms, r)
    ensures |Kept(terms, rows)| <= |rows|
  {
    if rows != [] {
      var init := rows[..|rows| - 1];
      KeptSpec(terms, init);
      assert rows == init + [rows[|rows| - 1]];
    }
  }

  /** Where the database finds the row a proposed value collides with: the first with that non-null value. */
  lemma {:induction false} FindConflictSpec(rows: seq<Row>, column: string, value: JsValue)
    ensures FindConflict(rows, column, value).Some? ==>
              var k := FindConflict(rows, column, value).value;
              value != Null && Column(rows[k], column) == value && forall j :: 0 <= j < k ==> Column(rows[j], column) != value
    ensures FindConflict(rows, column, value).None? ==> value == Null || forall j :: 0 <= j < |rows| ==> Column(rows[j], column) != value
  {
    if rows != [] {
      var init := rows[..|rows| - 1];
      FindConflictSpec(init, column, value);
      assert forall j :: 0 <= j < |init| ==> init[j] == rows[j];
    }
  }

  /** Under the table's keys, the row a non-null value collides with is the one that holds it. */
  lemma ConflictAt(ctx: Context, rows: seq<Row>, column: string, k: nat)
    requires KeysHold(ctx, rows) && ConflictTarget(ctx, column)
    requires k < |rows| && Column(rows[k], column) != Null
    ensures FindConflict(rows, column, Column(rows[k], column)) == Some(k)
  {
    var value := Column(rows[k], column);
    FindConflictSpec(rows, column, value);
    assert Distinct(rows, column);
  }

  /**
   * One input of the statement: when a row collides with the proposed row
   * and the statement has not touched it yet, that row takes the input's
   * columns in place and keeps its id unless the input sets one; when no row
   * collides, the proposed row is appended; a row touched before is an error.
   */
  lemma UpsertStepSpec(u: Upsert, input: Row, freshId: string, column: string, now: string)
    ensures var r := UpsertStep(u, input, freshId, column, now);
            r.Ok? ==>
              r.value.results[..|u.results|] == u.results
              && |r.value.rows| >= |u.rows|
              && forall c :: c in input ==> c in r.value.results[|u.results|] && r.value.results[|u.results|][c] == input[c]
    ensures var r := UpsertStep(u, input, freshId, column, now);
            var found := FindConflict(u.rows, column, Column(NewRow(input, freshId, now), column));
            && (found.Some? && found.value in u.touched ==> r == Err(Constraint(AffectedTwice)))
            && (found.Some? && found.value !in u.touched ==>
                  var k := found.value;
                  r.Ok? && r.value.rows == u.rows[k := u.rows[k] + input]
                  && r.value.results == u.results + [u.rows[k] + input]
                  && ("id" !in input ==> Column(r.value.rows[k], "id") == Column(u.rows[k], "id")))
            && (found.None? ==>
                  r == Ok(Upsert(u.rows + [NewRow(input, freshId, now)], u.results + [NewRow(input, freshId, now)], u.touched + {|u.rows|})))
  {
    var r := UpsertStep(u, input, freshId, column, now);
    if r.Ok? {
      assert (u.results + [r.value.results[|u.results|]])[..|u.results|] == u.results;
    }
  }

  /** Each returned row carries the columns of the input at the same position. */
  predicate Carries(results: seq<Row>, inputs: seq<Row>) {
    |results| == |inputs| && forall i, c :: 0 <= i < |inputs| && c in inputs[i] ==> c in results[i] && results[i][c] == inputs[i][c]
  }

  lemma CarriesSnoc(results: seq<Row>, inputs: seq<Row>, row: Row, input: Row)
    requires Carries(results, inputs)
    requires forall c :: c in input ==> c in row && row[c] == input[c]
    ensures Carries(results + [row], inputs + [input])
  {
    var r, ins := results + [row], inputs + [input];
    forall i, c | 0 <= i < |ins| && c in ins[i] ensures c in r[i] && r[i][c] == ins[i][c] {
      if i < |inputs| {
        assert r[i] == results[i] && ins[i] == inputs[i];
      }
    }
  }

  /** The statement returns one row per input, in input order, each carrying that input's columns; it never removes a row. */
  lemma {:induction false} UpsertAllSpec(rows: seq<Row>, inputs: seq<Row>, freshIds: seq<string>, column: string, now: string)
    requires |freshIds| == |inputs|
    ensures var r := UpsertAll(rows, inputs, freshIds, column, now);
            r.Ok? ==> Carries(r.value.results, inputs) && |r.value.rows| >= |rows|
  {
    if inputs != [] {
      var n := |inputs| - 1;
      UpsertAllSpec(rows, inputs[..n], freshIds[..n], column, now);
      var prefix := UpsertAll(rows, inputs[..n], freshIds[..n], column, now);
      if prefix.Ok? {
        var u := prefix.value;
        UpsertStepSpec(u, inputs[n], freshIds[n], column, now);
        var r := UpsertStep(u, inputs[n], freshIds[n], column, now);
        if r.Ok? {
          assert r.value.results == u.results + [r.value.results[n]];
          assert inputs == inputs[..n] + [inputs[n]];
          CarriesSnoc(u.results, inputs[..n], r.value.results[n], inputs[n]);
        }
      }
    }
  }

  /** Stored row `k` holds the non-null value the proposed row has in the conflict column. */
  predicate Collides(rows: seq<Row>, k: int, proposed: Row, column: string) {
    0 <= k < |rows| && Column(rows[k], column) != Null && Column(proposed, column) == Column(rows[k], column)
  }

  /** No stored row holds the proposed row's value of the conflict column, or that value is NULL. */
  predicate CollidesWithNone(rows: seq<Row>, proposed: Row, column: string) {
    Column(proposed, column) == Null || forall k :: 0 <= k < |rows| ==> Column(rows[k], column) != Column(proposed, column)
  }

  /** The first row holding a non-null value is the one the statement collides with. */
  lemma FirstHolder(rows: seq<Row>, column: string, value: JsValue, k: nat)
    requires k < |rows| && value != Null && Column(rows[k], column) == value
    requires forall j :: 0 <= j < k ==> Column(rows[j], column) != value
    ensures FindConflict(rows, column, value) == Some(k)
  {
    FindConflictSpec(rows, column, value);
  }

  /** The stored rows keep their conflict-column values, untouched ones stay as they were, and appended ones count as touched. */
  ghost predicate RowsKept(rows: seq<Row>, column: string, u: Upsert) {
    && |rows| <= |u.rows|
    && (forall k :: 0 <= k < |rows| ==> Column(u.rows[k], column) == Column(rows[k], column))
    && (forall k :: 0 <= k < |rows| && k !in u.touched ==> u.rows[k] == rows[k])
    && (forall k :: |rows| <= k < |u.rows| ==> k in u.touched)
  }

  /** Merging into stored row `k` without changing its conflict-column value keeps `RowsKept`. */
  lemma RowsKeptMerge(rows: seq<Row>, column: string, u: Upsert, k: int, merged: Row, v: Upsert)
    requires RowsKept(rows, column, u) && 0 <= k < |rows| && Column(merged, column) == Column(rows[k], column)
    requires v.rows == u.rows[k := merged] && v.touched == u.touched + {k}
    ensures RowsKept(rows, column, v)
  {
  }

  /** Appending a row keeps `RowsKept`. */
  lemma RowsKeptInsert(rows: seq<Row>, column: string, u: Upsert, row: Row, v: Upsert)
    requires RowsKept(rows, column, u)
    requires v.rows == u.rows + [row] && v.touched == u.touched + {|u.rows|}
    ensures RowsKept(rows, column, v)
  {
  }

  /** Every stored row the statement touched collides with one of the proposed rows. */
  ghost predicate TouchedCollide(rows: seq<Row>, proposed: seq<Row>, column: string, u: Upsert) {
    forall k :: 0 <= k < |rows| && k in u.touched ==> exists i :: 0 <= i < |proposed| && Collides(rows, k, proposed[i], column)
  }

  /** Each input whose proposed row collides with stored row `k` was merged into that row in place. */
  ghost predicate MergedInPlace(rows: seq<Row>, inputs: seq<Row>, proposed: seq<Row>, column: string, u: Upsert) {
    forall i, k :: 0 <= i < |inputs| && i < |proposed| && i < |u.results| && Collides(rows, k, proposed[i], column) ==>
      u.results[i] == rows[k] + inputs[i] && k < |u.rows| && u.rows[k] == u.results[i] && k in u.touched
  }

  /** Each input whose proposed row collides with no stored row was inserted as proposed. */
  ghost predicate InsertedAsProposed(rows: seq<Row>, proposed: seq<Row>, column: string, u: Upsert) {
    forall i :: 0 <= i < |proposed| && i < |u.results| && CollidesWithNone(rows, proposed[i], column) ==> u.results[i] == proposed[i]
  }

  /** Each row past the stored ones is the proposed row of an input that collides with no stored row. */
  ghost predicate AppendedAsProposed(rows: seq<Row>, proposed: seq<Row>, column: string, u: Upsert) {
    forall k :: |rows| <= k < |u.rows| ==> IsInserted(rows, proposed, column, u.rows[k])
  }

  /** The row is the proposed row of an input that collides with no stored row. */
  ghost predicate IsInserted(rows: seq<Row>, proposed: seq<Row>, column: string, row: Row) {
    exists i :: 0 <= i < |proposed| && row == proposed[i] && CollidesWithNone(rows, proposed[i], column)
  }

  /** Changing only stored rows, or appending a proposed row that collides with none, keeps `AppendedAsProposed`. */
  lemma AppendedAsProposedKept(rows: seq<Row>, proposed: seq<Row>, column: string, u: Upsert, p: Row, v: Upsert)
    requires AppendedAsProposed(rows, proposed, column, u) && |rows| <= |u.rows| <= |v.rows|
    requires forall k :: |rows| <= k < |u.rows| ==> v.rows[k] == u.rows[k]
    requires forall k :: |u.rows| <= k < |v.rows| ==> v.rows[k] == p && CollidesWithNone(rows, p, column)
    ensures AppendedAsProposed(rows, proposed + [p], column, v)
  {
    var ps := proposed + [p];
    forall k | |rows| <= k < |v.rows| ensures IsInserted(rows, ps, column, v.rows[k]) {
      if k < |u.rows| {
        var i :| 0 <= i < |proposed| && u.rows[k] == proposed[i] && CollidesWithNone(rows, proposed[i], column);
        assert ps[i] == proposed[i] && v.rows[k] == ps[i];
      } else {
        assert ps[|proposed|] == p && v.rows[k] == ps[|proposed|];
      }
    }
  }

  /**
   * What the statement has done after some inputs, in terms of the stored
   * rows and the rows proposed for the inputs: one result per input, the
   * stored rows kept as `RowsKept` says, every input merged in place or
   * inserted, nothing else touched and nothing else appended.
   */
  ghost predicate UpsertDone(rows: seq<Row>, inputs: seq<Row>, proposed: seq<Row>, column: string, u: Upsert) {
    && |u.results| == |inputs| == |proposed|
    && RowsKept(rows, column, u)
    && TouchedCollide(rows, proposed, column, u)
    && MergedInPlace(rows, inputs, proposed, column, u)
    && InsertedAsProposed(rows, proposed, column, u)
    && AppendedAsProposed(rows, proposed, column, u)
  }

  /** Touching one more row that collides with the new proposed row keeps `TouchedCollide`. */
  lemma TouchedCollideKept(rows: seq<Row>, proposed: seq<Row>, column: string, u: Upsert, p: Row, t: nat, v: Upsert)
    requires TouchedCollide(rows, proposed, column, u)
    requires v.touched == u.touched + {t} && (t < |rows| ==> Collides(rows, t, p, column))
    ensures TouchedCollide(rows, proposed + [p], column, v)
  {
    var ps := proposed + [p];
    forall k | 0 <= k < |rows| && k in v.touched ensures exists i :: 0 <= i < |ps| && Collides(rows, k, ps[i], column) {
      if k == t {
        assert ps[|proposed|] == p;
      } else {
        var i :| 0 <= i < |proposed| && Collides(rows, k, proposed[i], column);
        assert ps[i] == proposed[i];
      }
    }
  }

  /** The earlier inputs' merges survive one more input that keeps their rows. */
  lemma MergedInPlaceKept(rows: seq<Row>, inputs: seq<Row>, proposed: seq<Row>, column: string, u: Upsert,
                          input: Row, p: Row, v: Upsert)
    requires MergedInPlace(rows, inputs, proposed, column, u)
    requires |u.results| == |inputs| == |proposed| && |v.results| == |inputs| + 1 && v.results[..|inputs|] == u.results
    requires |u.rows| <= |v.rows| && u.touched <= v.touched
    requires forall k :: 0 <= k < |u.rows| && k in u.touched ==> v.rows[k] == u.rows[k]
    requires forall k :: Collides(rows, k, p, column) ==>
               v.results[|inputs|] == rows[k] + input && k < |v.rows| && v.rows[k] == v.results[|inputs|] && k in v.touched
    ensures MergedInPlace(rows, inputs + [input], proposed + [p], column, v)
  {
    var ins, ps := inputs + [input], proposed + [p];
    forall i, k | 0 <= i < |ins| && i < |ps| && i < |v.results| && Collides(rows, k, ps[i], column)
      ensures v.results[i] == rows[k] + ins[i] && k < |v.rows| && v.rows[k] == v.results[i] && k in v.touched
    {
      if i < |inputs| {
        assert ins[i] == inputs[i] && ps[i] == proposed[i] && v.results[i] == v.results[..|inputs|][i];
      } else {
        assert ins[i] == input && ps[i] == p;
      }
    }
  }

  /** The earlier inputs' inserts survive one more input. */
  lemma InsertedAsProposedKept(rows: seq<Row>, proposed: seq<Row>, column: string, u: Upsert, p: Row, v: Upsert)
    requires InsertedAsProposed(rows, proposed, column, u)
    requires |u.results| == |proposed| && |v.results| == |proposed| + 1 && v.results[..|proposed|] == u.results
    requires CollidesWithNone(rows, p, column) ==> v.results[|proposed|] == p
    ensures InsertedAsProposed(rows, proposed + [p], column, v)
  {
    var ps := proposed + [p];
    forall i | 0 <= i < |ps| && i < |v.results| && CollidesWithNone(rows, ps[i], column) ensures v.results[i] == ps[i] {
      if i < |proposed| {
        assert ps[i] == proposed[i] && v.results[i] == v.results[..|proposed|][i];
      }
    }
  }

  /** An input that collides with stored row `k` merges into it and keeps `UpsertDone`. */
  lemma UpsertDoneMerge(ctx: Context, rows: seq<Row>, inputs: seq<Row>, proposed: seq<Row>, column: string, now: string,
                        u: Upsert, input: Row, freshId: string, k: int)
    requires KeysHold(ctx, rows) && ConflictTarget(ctx, column)
    requires UpsertDone(rows, inputs, proposed, column, u)
    requires UpsertStep(u, input, freshId, column, now).Ok?
    requires Collides(rows, k, NewRow(input, freshId, now), column)
    ensures UpsertDone(rows, inputs + [input], proposed + [NewRow(input, freshId, now)], column, UpsertStep(u, input, freshId, column, now).value)
  {
    var v := UpsertStep(u, input, freshId, column, now).value;
    var p := NewRow(input, freshId, now);
    var value := Column(p, column);
    assert Distinct(rows, column);
    forall j | 0 <= j < k ensures Column(u.rows[j], column) != value {
      assert Column(u.rows[j], column) == Column(rows[j], column);
    }
    FirstHolder(u.rows, column, value, k);
    UpsertStepSpec(u, input, freshId, column, now);
    var merged := rows[k] + input;
    assert v.rows == u.rows[k := merged] && v.results == u.results + [merged] && v.touched == u.touched + {k};
    assert Column(merged, column) == Column(rows[k], column) by {
      if column in input {
        assert input[column] == p[column];
      }
    }
    forall k' | Collides(rows, k', p, column) ensures k' == k {
    }
    RowsKeptMerge(rows, column, u, k, merged, v);
    TouchedCollideKept(rows, proposed, column, u, p, k, v);
    assert v.results[..|inputs|] == u.results;
    MergedInPlaceKept(rows, inputs, proposed, column, u, input, p, v);
    InsertedAsProposedKept(rows, proposed, column, u, p, v);
    AppendedAsProposedKept(rows, proposed, column, u, p, v);
  }

  /** An input that collides with no stored row is appended and keeps `UpsertDone`. */
  lemma UpsertDoneInsert(rows: seq<Row>, inputs: seq<Row>, proposed: seq<Row>, column: string, now: string,
                         u: Upsert, input: Row, freshId: string)
    requires UpsertDone(rows, inputs, proposed, column, u)
    requires UpsertStep(u, input, freshId, column, now).Ok?
    requires CollidesWithNone(rows, NewRow(input, freshId, now), column)
    ensures UpsertDone(rows, inputs + [input], proposed + [NewRow(input, freshId, now)], column, UpsertStep(u, input, freshId, column, now).value)
  {
    var v := UpsertStep(u, input, freshId, column, now).value;
    var p := NewRow(input, freshId, now);
    var value := Column(p, column);
    FindConflictSpec(u.rows, column, value);
    UpsertStepSpec(u, input, freshId, column, now);
    assert FindConflict(u.rows, column, value).None?;
    assert v.rows == u.rows + [p] && v.results == u.results + [p] && v.touched == u.touched + {|u.rows|};
    RowsKeptInsert(rows, column, u, p, v);
    TouchedCollideKept(rows, proposed, column, u, p, |u.rows|, v);
    assert v.results[..|inputs|] == u.results;
    MergedInPlaceKept(rows, inputs, proposed, column, u, input, p, v);
    InsertedAsProposedKept(rows, proposed, column, u, p, v);
    AppendedAsProposedKept(rows, proposed, column, u, p, v);
  }

  /** One more input keeps `UpsertDone`. */
  lemma UpsertDoneStep(ctx: Context, rows: seq<Row>, inputs: seq<Row>, proposed: seq<Row>, column: string, now: string,
                       u: Upsert, input: Row, freshId: string, inputs': seq<Row>, proposed': seq<Row>)
    requires KeysHold(ctx, rows) && ConflictTarget(ctx, column)
    requires UpsertDone(rows, inputs, proposed, column, u)
    requires UpsertStep(u, input, freshId, column, now).Ok?
    requires inputs' == inputs + [input] && proposed' == proposed + [NewRow(input, freshId, now)]
    ensures UpsertDone(rows, inputs', proposed', column, UpsertStep(u, input, freshId, column, now).value)
  {
    var p := NewRow(input, freshId, now);
    if k :| Collides(rows, k, p, column) {
      UpsertDoneMerge(ctx, rows, inputs, proposed, column, now, u, input, freshId, k);
    } else {
      forall k | 0 <= k < |rows| && Column(p, column) != Null ensures Column(rows[k], column) != Column(p, column) {
        assert !Collides(rows, k, p, column);
      }
      UpsertDoneInsert(rows, inputs, proposed, column, now, u, input, freshId);
    }
  }

  /** The proposed rows of all inputs are those of all but the last, then the last one's. */
  lemma NewRowsSnoc(inputs: seq<Row>, freshIds: seq<string>, now: string)
    requires |freshIds| == |inputs| > 0
    ensures var n := |inputs| - 1;
            NewRows(inputs[..n], freshIds[..n], now) + [NewRow(inputs[n], freshIds[n], now)] == NewRows(inputs, freshIds, now)
  {
  }

  /** `UpsertDone` holds after the inputs whenever the statement gets through them. */
  lemma {:induction false} UpsertAllDone(ctx: Context, rows: seq<Row>, inputs: seq<Row>, freshIds: seq<string>, column: string, now: string)
    requires KeysHold(ctx, rows) && ConflictTarget(ctx, column) && |freshIds| == |inputs|
    ensures UpsertAll(rows, inputs, freshIds, column, now).Ok? ==>
              UpsertDone(rows, inputs, NewRows(inputs, freshIds, now), column, UpsertAll(rows, inputs, freshIds, column, now).value)
  {
    if inputs != [] {
      var n := |inputs| - 1;
      UpsertAllDone(ctx, rows, inputs[..n], freshIds[..n], column, now);
      var prefix := UpsertAll(rows, inputs[..n], freshIds[..n], column, now);
      if prefix.Ok? && UpsertStep(prefix.value, inputs[n], freshIds[n], column, now).Ok? {
        assert inputs[..n] + [inputs[n]] == inputs;
        NewRowsSnoc(inputs, freshIds, now);
        UpsertDoneStep(ctx, rows, inputs[..n], NewRows(inputs[..n], freshIds[..n], now), column, now, prefix.value, inputs[n], freshIds[n],
                       inputs, NewRows(inputs, freshIds, now));
      }
    }
  }

  /** The values the rows hold in the column, in order. */
  function ColumnValues(rows: seq<Row>, column: string): (r: seq<JsValue>)
    ensures |r| == |rows| && forall i :: 0 <= i < |rows| ==> r[i] == Column(rows[i], column)
  {
    seq(|rows|, i requires 0 <= i < |rows| => Column(rows[i], column))
  }

  /** Every position the statement has touched holds, in the conflict column, the value of one of the proposed rows. */
  ghost predicate TouchedHoldProposed(u: Upsert, proposed: seq<Row>, column: string) {
    forall t :: t in u.touched ==> t < |u.rows| && Column(u.rows[t], column) in ColumnValues(proposed, column)
  }

  /** An input whose conflict value no earlier proposed row holds touches no row twice, and keeps `TouchedHoldProposed`. */
  lemma UpsertStepOnce(u: Upsert, proposed: seq<Row>, input: Row, freshId: string, column: string, now: string)
    requires TouchedHoldProposed(u, proposed, column)
    requires var value := Column(NewRow(input, freshId, now), column);
             value == Null || value !in ColumnValues(proposed, column)
    ensures UpsertStep(u, input, freshId, column, now).Ok?
    ensures TouchedHoldProposed(UpsertStep(u, input, freshId, column, now).value, proposed + [NewRow(input, freshId, now)], column)
  {
    var p := NewRow(input, freshId, now);
    var value := Column(p, column);
    var ps := proposed + [p];
    FindConflictSpec(u.rows, column, value);
    assert ColumnValues(ps, column) == ColumnValues(proposed, column) + [value];
    var v := UpsertStep(u, input, freshId, column, now).value;
    match FindConflict(u.rows, column, value)
    case Some(k) =>
      var merged := u.rows[k] + input;
      assert v.rows == u.rows[k := merged] && v.touched == u.touched + {k};
      assert Column(merged, column) == value by {
        if column in input {
          assert input[column] == p[column];
        }
      }
    case None =>
      assert v.rows == u.rows + [p] && v.touched == u.touched + {|u.rows|};
  }

  /**
   * A statement whose proposed rows hold distinct non-null values of the
   * conflict column never touches a row twice: it gets through all its
   * inputs.
   */
  lemma {:induction false} UpsertAllOnce(rows: seq<Row>, inputs: seq<Row>, freshIds: seq<string>, column: string, now: string)
    requires |freshIds| == |inputs| && Distinct(NewRows(inputs, freshIds, now), column)
    ensures UpsertAll(rows, inputs, freshIds, column, now).Ok?
    ensures TouchedHoldProposed(UpsertAll(rows, inputs, freshIds, column, now).value, NewRows(inputs, freshIds, now), column)
  {
    if inputs != [] {
      var n := |inputs| - 1;
      var proposed := NewRows(inputs, freshIds, now);
      var prefix := NewRows(inputs[..n], freshIds[..n], now);
      NewRowsSnoc(inputs, freshIds, now);
      assert prefix == proposed[..n];
      assert Distinct(prefix, column);
      UpsertAllOnce(rows, inputs[..n], freshIds[..n], column, now);
      var u := UpsertAll(rows, inputs[..n], freshIds[..n], column, now).value;
      var p := proposed[n];
      UpsertStepOnce(u, prefix, inputs[n], freshIds[n], column, now);
    }
  }

  /**
   * `create(input)`: the create check runs first and a failure writes
   * nothing; without permission enforcement it never fails with an HTTP
   * error; a created row keeps every input column, gets an id, is appended
   * to the table and is logged as 'create'.
   */
  lemma CreateSpecProps(ctx: Context, db: Db, input: Row, freshId: string, now: string)
    ensures var w := CreateSpec(ctx, db, input, freshId, now);
            && (w.result.Err? ==> w.db == db)
            && (ctx.config.enforcePermissions && !Truthy(Column(input, "owner_id")) ==>
                  w.result == Err(HttpError(400, OwnerRequired(ctx))))
            && (ctx.config.enforcePermissions && Truthy(Column(input, "owner_id")) && ctx.user.Some?
                && !CreateAllowed(ctx.user.value.permissions, ctx.config.tableName, Column(input, "id"), Column(input, "owner_id")) ==>
                  w.result == Err(HttpError(401, NotPermitted)))
            && (w.result.Err? && w.result.error.HttpError? ==> ctx.config.enforcePermissions)
            && (CreateCheck(ctx, input).None? && KeysHold(ctx, db.rows + [NewRow(input, freshId, now)]) <==> w.result.Ok?)
            && (w.result.Ok? ==>
                  w.db.rows == db.rows + [w.result.value]
                  && Column(w.result.value, "id") != Null
                  && (forall c :: c in input ==> c in w.result.value && w.result.value[c] == input[c])
                  && w.db.activities == db.activities + (if ctx.config.registerActivity then [ActivityFor(ctx, "create", RowId(w.result.value))] else []))
  {
    var w := CreateSpec(ctx, db, input, freshId, now);
    if w.result.Ok? {
      var table := db.rows + [w.result.value];
      assert table[|db.rows|] == w.result.value;
      assert ActivitiesFor(ctx, "create", [RowId(w.result.value)]) == [ActivityFor(ctx, "create", RowId(w.result.value))];
    }
  }

  /**
   * `createAll(inputs)`: one input failing its check fails the whole call
   * with an HTTP error before anything is written; on success the rows come
   * back in input order, carry their inputs' columns, are appended to the
   * table and get one 'create' activity each, in the order of the rows,
   * naming the row's id. The call succeeds exactly when every input passes
   * its check and the table with the new rows keeps its keys.
   */
  lemma CreateAllSpecProps(ctx: Context, db: Db, inputs: seq<Row>, freshIds: seq<string>, now: string)
    requires |freshIds| == |inputs|
    ensures var w := CreateAllSpec(ctx, db, inputs, freshIds, now);
            && (w.result.Err? ==> w.db == db)
            && ((exists i :: 0 <= i < |inputs| && CreateCheck(ctx, inputs[i]).Some?) ==> w.result.Err? && w.result.error.HttpError?)
            && ((forall i :: 0 <= i < |inputs| ==> CreateCheck(ctx, inputs[i]).None?) && KeysHold(ctx, db.rows + NewRows(inputs, freshIds, now))
                <==> w.result.Ok?)
            && (w.result.Ok? ==>
                  w.result.value == NewRows(inputs, freshIds, now)
                  && |w.result.value| == |inputs|
                  && w.db.rows == db.rows + w.result.value
                  && (forall i, c :: 0 <= i < |inputs| && c in inputs[i] ==> c in w.result.value[i] && w.result.value[i][c] == inputs[i][c])
                  && |w.db.activities| == |db.activities| + (if ctx.config.registerActivity then |inputs| else 0)
                  && w.db.activities == db.activities + if ctx.config.registerActivity then ActivitiesFor(ctx, "create", RowIds(w.result.value)) else [])
  {
    FirstFailureSpec(ctx, inputs);
  }

  /**
   * `createOrUpdate(input, column)`. Only the primary key or a unique column
   * can be the conflict target. When a stored row holds the input's value
   * of that column, that row is overwritten with the input's columns in
   * place and keeps its id unless the input sets one; otherwise the row is
   * inserted. Either way it is logged as 'update', and a failure writes
   * nothing. On a key column the call succeeds exactly when the table it
   * leaves keeps its keys.
   */
  lemma CreateOrUpdateSpecProps(ctx: Context, db: Db, input: Row, column: string, freshId: string, now: string)
    requires KeysHold(ctx, db.rows)
    ensures var w := CreateOrUpdateSpec(ctx, db, input, column, freshId, now);
            var value := Column(NewRow(input, freshId, now), column);
            && (w.result.Err? ==> w.db == db)
            && (!ConflictTarget(ctx, column) ==> w.result == Err(Constraint(NoConflictTarget)))
            && (forall k :: ConflictTarget(ctx, column) && Collides(db.rows, k, NewRow(input, freshId, now), column) ==>
                  (w.result.Ok? <==> KeysHold(ctx, db.rows[k := db.rows[k] + input])))
            && (ConflictTarget(ctx, column) && CollidesWithNone(db.rows, NewRow(input, freshId, now), column) ==>
                  (w.result.Ok? <==> KeysHold(ctx, db.rows + [NewRow(input, freshId, now)])))
            && (w.result.Ok? ==> forall c :: c in input ==> c in w.result.value && w.result.value[c] == input[c])
            && (forall k :: 0 <= k < |db.rows| && value != Null && Column(db.rows[k], column) == value && w.result.Ok? ==>
                  && |w.db.rows| == |db.rows|
                  && w.result.value == db.rows[k] + input
                  && w.db.rows == db.rows[k := w.result.value]
                  && ("id" !in input ==> Column(w.result.value, "id") == Column(db.rows[k], "id")))
            && ((value == Null || forall k :: 0 <= k < |db.rows| ==> Column(db.rows[k], column) != value) && w.result.Ok? ==>
                  w.result.value == NewRow(input, freshId, now) && w.db.rows == db.rows + [w.result.value])
            && (w.result.Ok? ==>
                  w.db.activities == db.activities + (if ctx.config.registerActivity then [ActivityFor(ctx, "update", RowId(w.result.value))] else []))
  {
    var w := CreateOrUpdateSpec(ctx, db, input, column, freshId, now);
    var value := Column(NewRow(input, freshId, now), column);
    FindConflictSpec(db.rows, column, value);
    forall k | ConflictTarget(ctx, column) && Collides(db.rows, k, NewRow(input, freshId, now), column)
      ensures FindConflict(db.rows, column, value) == Some(k)
    {
      ConflictAt(ctx, db.rows, column, k);
    }
    if w.result.Ok? {
      assert ActivitiesFor(ctx, "update", [RowId(w.result.value)]) == [ActivityFor(ctx, "update", RowId(w.result.value))];
      forall k | 0 <= k < |db.rows| && value != Null && Column(db.rows[k], column) == value
        ensures FindConflict(db.rows, column, value) == Some(k)
      {
        ConflictAt(ctx, db.rows, column, k);
      }
    }
  }

  /** The upsert ignores the current user and the permission settings: only the unique columns matter to what it writes. */
  lemma UpsertIgnoresPermissions(ctx: Context, other: Context, db: Db, input: Row, column: string, freshId: string, now: string)
    requires other.uniqueColumns == ctx.uniqueColumns
    ensures CreateOrUpdateSpec(ctx, db, input, column, freshId, now).result == CreateOrUpdateSpec(other, db, input, column, freshId, now).result
    ensures CreateOrUpdateSpec(ctx, db, input, column, freshId, now).db.rows == CreateOrUpdateSpec(other, db, input, column, freshId, now).db.rows
  {
  }

  /** `createOrUpdate(input)` does what `createOrUpdateAll([input])` does. */
  lemma CreateOrUpdateIsBatchOfOne(ctx: Context, db: Db, input: Row, column: string, freshId: string, now: string)
    ensures var one := CreateOrUpdateSpec(ctx, db, input, column, freshId, now);
            var all := CreateOrUpdateAllSpec(ctx, db, [input], column, [freshId], now);
            all.db == one.db && (all.result.Ok? <==> one.result.Ok?)
            && (one.result.Ok? ==> all.result.value == [one.result.value])
            && (one.result.Err? ==> all.result.error == one.result.error)
  {
    assert [input][..0] == [] && [freshId][..0] == [];
    assert UpsertAll(db.rows, [input], [freshId], column, now) == UpsertStep(Upsert(db.rows, [], {}), input, freshId, column, now);
    var one := CreateOrUpdateSpec(ctx, db, input, column, freshId, now);
    if one.result.Ok? {
      var u := UpsertStep(Upsert(db.rows, [], {}), input, freshId, column, now).value;
      assert u.results == [u.results[0]];
      assert RowIds(u.results) == [RowId(u.results[0])];
    }
  }

  /**
   * `createOrUpdateAll(inputs, column)` returns one row per input in input
   * order, each carrying its input's columns, never removes a row, and logs
   * one 'update' per returned row, in that order, naming the row's id. On a
   * key column, a batch whose proposed rows hold distinct values of it
   * touches no row twice and succeeds exactly when the table it leaves
   * keeps its keys.
   */
  lemma CreateOrUpdateAllSpecProps(ctx: Context, db: Db, inputs: seq<Row>, column: string, freshIds: seq<string>, now: string)
    requires |freshIds| == |inputs|
    ensures var w := CreateOrUpdateAllSpec(ctx, db, inputs, column, freshIds, now);
            && (w.result.Err? ==> w.db == db)
            && (!ConflictTarget(ctx, column) ==> w.result == Err(Constraint(NoConflictTarget)))
            && (ConflictTarget(ctx, column) && Distinct(NewRows(inputs, freshIds, now), column) ==>
                  UpsertAll(db.rows, inputs, freshIds, column, now).Ok?
                  && (w.result.Ok? <==> KeysHold(ctx, UpsertAll(db.rows, inputs, freshIds, column, now).value.rows)))
            && (w.result.Ok? ==>
                  |w.result.value| == |inputs| && |w.db.rows| >= |db.rows|
                  && (forall i, c :: 0 <= i < |inputs| && c in inputs[i] ==> c in w.result.value[i] && w.result.value[i][c] == inputs[i][c])
                  && |w.db.activities| == |db.activities| + (if ctx.config.registerActivity then |inputs| else 0)
                  && w.db.activities == db.activities + if ctx.config.registerActivity then ActivitiesFor(ctx, "update", RowIds(w.result.value)) else [])
  {
    UpsertAllSpec(db.rows, inputs, freshIds, column, now);
    if Distinct(NewRows(inputs, freshIds, now), column) {
      UpsertAllOnce(db.rows, inputs, freshIds, column, now);
    }
  }

  /**
   * `createOrUpdateAll(inputs, column)` on a table whose keys hold: an input
   * whose value of the conflict column a stored row holds is merged into
   * that row in place, which keeps its id unless the input sets one (the
   * statement is one whose rows have the same keys, so no column is filled
   * with DEFAULT), and
   * that merged row is what the statement returns for it; any other input
   * is inserted as created; stored rows no input collides with are left as
   * they were, and the only rows added are inserted inputs.
   */
  lemma CreateOrUpdateAllInPlace(ctx: Context, db: Db, inputs: seq<Row>, column: string, freshIds: seq<string>, now: string)
    requires |freshIds| == |inputs| && KeysHold(ctx, db.rows)
    ensures var w := CreateOrUpdateAllSpec(ctx, db, inputs, column, freshIds, now);
            var proposed := NewRows(inputs, freshIds, now);
            w.result.Ok? ==>
              && |w.result.value| == |inputs| && |db.rows| <= |w.db.rows| && |proposed| == |inputs|
              && (forall i, k :: 0 <= i < |inputs| && Collides(db.rows, k, proposed[i], column) ==>
                    w.result.value[i] == db.rows[k] + inputs[i] && w.db.rows[k] == w.result.value[i]
                    && ("id" !in inputs[i] ==> Column(w.db.rows[k], "id") == Column(db.rows[k], "id")))
              && (forall i :: 0 <= i < |inputs| && CollidesWithNone(db.rows, proposed[i], column) ==>
                    w.result.value[i] == proposed[i])
              && (forall k :: 0 <= k < |db.rows| && (forall i :: 0 <= i < |inputs| ==> !Collides(db.rows, k, proposed[i], column)) ==>
                    w.db.rows[k] == db.rows[k])
              && (forall k :: |db.rows| <= k < |w.db.rows| ==> IsInserted(db.rows, proposed, column, w.db.rows[k]))
  {
    var w := CreateOrUpdateAllSpec(ctx, db, inputs, column, freshIds, now);
    var proposed := NewRows(inputs, freshIds, now);
    if w.result.Ok? {
      UpsertAllDone(ctx, db.rows, inputs, freshIds, column, now);
      var u := UpsertAll(db.rows, inputs, freshIds, column, now).value;
      assert w.db.rows == u.rows && w.result.value == u.results;
      forall i, k | 0 <= i < |inputs| && Collides(db.rows, k, proposed[i], column) && "id" !in inputs[i]
        ensures Column(w.db.rows[k], "id") == Column(db.rows[k], "id")
      {
        assert w.db.rows[k] == db.rows[k] + inputs[i];
      }
    }
  }

  /** After the first input, the row holding its value of the conflict column is one the statement has touched. */
  lemma FirstUpsertTouches(ctx: Context, rows: seq<Row>, a: Row, idA: string, column: string, now: string)
    requires KeysHold(ctx, rows) && ConflictTarget(ctx, column) && Column(a, column) != Null
    ensures var r := UpsertStep(Upsert(rows, [], {}), a, idA, column, now);
            r.Ok? && FindConflict(r.value.rows, column, Column(a, column)).Some?
            && FindConflict(r.value.rows, column, Column(a, column)).value in r.value.touched
  {
    var value := Column(a, column);
    assert Column(NewRow(a, idA, now), column) == value;
    var u1 := UpsertStep(Upsert(rows, [], {}), a, idA, column, now).value;
    FindConflictSpec(rows, column, value);
    FindConflictSpec(u1.rows, column, value);
    match FindConflict(rows, column, value)
    case Some(k) =>
      ConflictAt(ctx, rows, column, k);
      assert Column(u1.rows[k], column) == value;
      forall j | 0 <= j < k ensures Column(u1.rows[j], column) != value {
        assert u1.rows[j] == rows[j];
      }
    case None =>
      var n := |rows|;
      assert Column(u1.rows[n], column) == value;
      forall j | 0 <= j < n ensures Column(u1.rows[j], column) != value {
        assert u1.rows[j] == rows[j];
      }
  }

  /** Two inputs with the same non-null value of the conflict column make the statement touch one row twice, which the database refuses. */
  lemma UpsertSameKeyTwice(ctx: Context, db: Db, a: Row, b: Row, column: string, idA: string, idB: string, now: string)
    requires KeysHold(ctx, db.rows) && ConflictTarget(ctx, column)
    requires Column(a, column) != Null && Column(a, column) == Column(b, column)
    ensures CreateOrUpdateAllSpec(ctx, db, [a, b], column, [idA, idB], now) == Written(Err(Constraint(AffectedTwice)), db)
  {
    FirstUpsertTouches(ctx, db.rows, a, idA, column, now);
    var u1 := UpsertStep(Upsert(db.rows, [], {}), a, idA, column, now).value;
    assert [a, b][..1] == [a] && [idA, idB][..1] == [idA] && [a][..0] == [] && [idA][..0] == [];
    assert UpsertAll(db.rows, [a], [idA], column, now) == Ok(u1);
    assert Column(NewRow(b, idB, now), column) == Column(a, column);
    assert UpsertStep(u1, b, idB, column, now) == Err(Constraint(AffectedTwice));
  }

  /** Which rows the query of `update` selects. */
  lemma UpdateSelects(ctx: Context, rows: seq<Row>, id: string, andWhere: Entries)
    ensures var terms := UpdateQuery(ctx, id, andWhere).terms;
            && (forall r :: Matches(terms, r) <==> UpdateTarget(ctx, id, andWhere, r))
            && (Select(terms, rows) == [] <==> forall r :: r in rows ==> !UpdateTarget(ctx, id, andWhere, r))
            && (Select(terms, rows) != [] ==> Select(terms, rows)[0] in rows && UpdateTarget(ctx, id, andWhere, Select(terms, rows)[0]))
  {
    var terms := UpdateQuery(ctx, id, andWhere).terms;
    SelectSpec(terms, rows);
    forall r ensures Matches(terms, r) <==> UpdateTarget(ctx, id, andWhere, r) {
      UpdateMatches(ctx, id, andWhere, r);
    }
    if Select(terms, rows) != [] {
      assert Select(terms, rows)[0] in Select(terms, rows);
    }
  }

  /**
   * `update(id, changes, andWhere)` when it fails or finds nothing: an
   * `andWhere` no row satisfies gives 422; a failure writes nothing; nothing
   * is returned only when there is no `andWhere`, no target row and no
   * activity to register. Soft-deleted rows are not excluded.
   */
  lemma UpdateFailures(ctx: Context, db: Db, id: string, changes: Row, andWhere: Entries)
    ensures var w := UpdateSpec(ctx, db, id, changes, andWhere);
            && (w.result.Err? ==> w.db == db)
            && (andWhere != [] && (forall r :: r in db.rows ==> !UpdateTarget(ctx, id, andWhere, r)) ==>
                  w.result == Err(HttpError(422, Unsatisfied(id))))
            && (w.result == Ok(None) <==>
                  andWhere == [] && !ctx.config.registerActivity && forall r :: r in db.rows ==> !UpdateTarget(ctx, id, andWhere, r))
            && (w.result == Ok(None) ==> w.db == db)
  {
    UpdateSelects(ctx, db.rows, id, andWhere);
  }

  /**
   * A successful `update` sets `changes` on exactly the target rows, in
   * place, returns one of them as changed and, when activity is registered,
   * logs one 'update' naming the returned row's id. When a target row
   * exists, the call succeeds, returning a row, exactly when the changed
   * table keeps its keys.
   */
  lemma UpdateChanges(ctx: Context, db: Db, id: string, changes: Row, andWhere: Entries)
    ensures var w := UpdateSpec(ctx, db, id, changes, andWhere);
            && ((exists r :: r in db.rows && UpdateTarget(ctx, id, andWhere, r)) ==>
                  (w.result.Ok? <==> KeysHold(ctx, Changed(UpdateQuery(ctx, id, andWhere).terms, db.rows, changes)))
                  && (w.result.Ok? ==> w.result.value.Some?))
            && (w.result.Ok? ==>
                  |w.db.rows| == |db.rows|
                  && forall i :: 0 <= i < |db.rows| ==>
                       w.db.rows[i] == if UpdateTarget(ctx, id, andWhere, db.rows[i]) then db.rows[i] + changes else db.rows[i])
            && (w.result.Ok? && w.result.value.Some? ==>
                  exists r :: r in db.rows && UpdateTarget(ctx, id, andWhere, r) && w.result.value.value == r + changes)
            && (w.result.Ok? && w.result.value.Some? ==>
                  w.db.activities == db.activities + if ctx.config.registerActivity then [ActivityFor(ctx, "update", RowId(w.result.value.value))] else [])
  {
    UpdateSelects(ctx, db.rows, id, andWhere);
  }

  /** Which rows the query of `remove`/`removeBy` selects. */
  lemma RemoveSelects(ctx: Context, rows: seq<Row>, criteria: Entries)
    ensures var terms := RemoveQuery(ctx, criteria).terms;
            && (forall r :: Matches(terms, r) <==> RemoveTarget(ctx, criteria, r))
            && (Select(terms, rows) == [] <==> forall r :: r in rows ==> !RemoveTarget(ctx, criteria, r))
            && (forall r :: r in Kept(terms, rows) <==> r in rows && !RemoveTarget(ctx, criteria, r))
  {
    var terms := RemoveQuery(ctx, criteria).terms;
    SelectSpec(terms, rows);
    KeptSpec(terms, rows);
    forall r ensures Matches(terms, r) <==> RemoveTarget(ctx, criteria, r) {
      RemoveMatches(ctx, criteria, r);
    }
    if Select(terms, rows) != [] {
      assert Select(terms, rows)[0] in Select(terms, rows);
    }
  }

  /** The table after removing the target rows: stamped in place by a soft delete, dropped by a hard one. */
  lemma DeletedSpec(ctx: Context, rows: seq<Row>, criteria: Entries, now: string)
    ensures var after := Deleted(ctx, RemoveQuery(ctx, criteria).terms, rows, now);
            && (ctx.config.softDelete ==>
                  |after| == |rows|
                  && forall i :: 0 <= i < |rows| ==>
                       after[i] == if RemoveTarget(ctx, criteria, rows[i]) then rows[i]["deleted_at" := Str(now)] else rows[i])
            && (!ctx.config.softDelete ==> forall r :: r in after <==> r in rows && !RemoveTarget(ctx, criteria, r))
            && ((forall r :: r in rows ==> !RemoveTarget(ctx, criteria, r)) ==> after == rows)
  {
    var terms := RemoveQuery(ctx, criteria).terms;
    RemoveSelects(ctx, rows, criteria);
    forall i | 0 <= i < |rows| ensures rows[i] + map["deleted_at" := Str(now)] == rows[i]["deleted_at" := Str(now)] {
    }
    if forall r :: r in rows ==> !RemoveTarget(ctx, criteria, r) {
      NothingKept(ctx, terms, rows, now);
    }
  }

  /**
   * `remove(id)`: true exactly when a row with that id may be deleted by the
   * user (soft-deleted rows included), and then the table is that of
   * `DeletedSpec` and one 'delete' of that id is logged; with no such row and activity
   * registered, reading the missing row's id throws; otherwise nothing
   * changes.
   */
  lemma RemoveSpecProps(ctx: Context, db: Db, id: string, now: string)
    ensures var w := RemoveSpec(ctx, db, id, now);
            && (w.result.Err? ==>
                  w.result == Err(Thrown(TypeError)) && w.db == db && ctx.config.registerActivity
                  && forall r :: r in db.rows ==> !RemoveTarget(ctx, ById(id), r))
            && (w.result.Ok? ==> (w.result.value <==> exists r :: r in db.rows && RemoveTarget(ctx, ById(id), r)))
            && (w.result.Ok? ==> w.db.rows == Deleted(ctx, RemoveQuery(ctx, ById(id)).terms, db.rows, now))
            && (w.result == Ok(true) ==>
                  w.db.activities == db.activities + if ctx.config.registerActivity then [ActivityFor(ctx, "delete", id)] else [])
            && (w.result == Ok(false) ==> w.db == db)
  {
    RemoveSelects(ctx, db.rows, ById(id));
    DeletedSpec(ctx, db.rows, ById(id), now);
    var matched := Select(RemoveQuery(ctx, ById(id)).terms, db.rows);
    if matched != [] {
      SelectSpec(RemoveQuery(ctx, ById(id)).terms, db.rows);
      assert matched[0] in matched;
      RemoveByIdTarget(ctx, id, matched[0]);
      assert RowId(matched[0]) == id;
    }
  }

  /** A row is a target of `remove(id)` exactly when it has that id and the user may delete it. */
  lemma RemoveByIdTarget(ctx: Context, id: string, row: Row)
    ensures RemoveTarget(ctx, ById(id), row) <==> Column(row, "id") == Str(id) && Visible(ctx, "delete", row)
  {
    assert ById(id)[0] == ("id", Str(id));
  }

  /**
   * `removeBy(criteria)`: true exactly when some row satisfying every
   * criterion may be deleted by the user; the table is that of
   * `DeletedSpec`; when activity is registered, one 'delete' is logged per
   * removed row, naming that row's id, after the activities already there.
   */
  lemma RemoveBySpecProps(ctx: Context, db: Db, criteria: Entries, now: string)
    ensures var (removed, after) := RemoveBySpec(ctx, db, criteria, now);
            && (removed <==> exists r :: r in db.rows && RemoveTarget(ctx, criteria, r))
            && after.rows == Deleted(ctx, RemoveQuery(ctx, criteria).terms, db.rows, now)
            && (!ctx.config.registerActivity || !removed ==> after.activities == db.activities)
            && (ctx.config.registerActivity ==>
                  var logged := after.activities[|db.activities|..];
                  && after.activities[..|db.activities|] == db.activities
                  && |logged| == |Select(RemoveQuery(ctx, criteria).terms, db.rows)|
                  && (forall a :: a in logged ==> exists r :: r in db.rows && RemoveTarget(ctx, criteria, r) && a == ActivityFor(ctx, "delete", RowId(r)))
                  && (forall r :: r in db.rows && RemoveTarget(ctx, criteria, r) ==> ActivityFor(ctx, "delete", RowId(r)) in logged))
  {
    RemoveSelects(ctx, db.rows, criteria);
    var matched := Select(RemoveQuery(ctx, criteria).terms, db.rows);
    SelectSpec(RemoveQuery(ctx, criteria).terms, db.rows);
    var logged := ActivitiesFor(ctx, "delete", RowIds(matched));
    LoggedRows(ctx, "delete", matched);
    if ctx.config.registerActivity {
      var after := RemoveBySpec(ctx, db, criteria, now).1;
      assert after.activities == db.activities + logged;
      assert after.activities[|db.activities|..] == logged;
    }
  }

  /** The activities logged for some rows: one per row, each naming its row's id. */
  lemma LoggedRows(ctx: Context, action: string, rows: seq<Row>)
    ensures var logged := ActivitiesFor(ctx, action, RowIds(rows));
            && |logged| == |rows|
            && (forall a :: a in logged ==> exists r :: r in rows && a == ActivityFor(ctx, action, RowId(r)))
            && (forall r :: r in rows ==> ActivityFor(ctx, action, RowId(r)) in logged)
  {
    var logged := ActivitiesFor(ctx, action, RowIds(rows));
    forall a | a in logged ensures exists r :: r in rows && a == ActivityFor(ctx, action, RowId(r)) {
      var i :| 0 <= i < |logged| && logged[i] == a;
      assert rows[i] in rows;
    }
    forall r | r in rows ensures ActivityFor(ctx, action, RowId(r)) in logged {
      var i :| 0 <= i < |rows| && rows[i] == r;
      assert logged[i] == ActivityFor(ctx, action, RowId(r));
    }
  }

  lemma {:induction false} NothingKept(ctx: Context, terms: seq<Term>, rows: seq<Row>, now: string)
    requires forall r :: r in rows ==> !Matches(terms, r)
    ensures Deleted(ctx, terms, rows, now) == rows
  {
    if !ctx.config.softDelete && rows != [] {
      var init := rows[..|rows| - 1];
      NothingKept(ctx, terms, init, now);
      assert rows == init + [rows[|rows| - 1]];
    }
  }

  /** A transaction's calls run one after the other: the script of two parts is the first part, then the second on what it left. */
  lemma {:induction false} ScriptSplit(ctx: Context, db: Db, first: seq<Step>, second: seq<Step>, now: string)
    ensures ScriptSpec(ctx, db, first + second, now) ==
            var w := ScriptSpec(ctx, db, first, now);
            if w.result.Err? then w else Prepend(w.result.value, ScriptSpec(ctx, w.db, second, now))
    decreases |first|
  {
    if first == [] {
      assert first + second == second;
      PrependNothing(ScriptSpec(ctx, db, second, now));
    } else {
      assert (first + second)[0] == first[0] && (first + second)[1..] == first[1..] + second;
      var step := StepSpec(ctx, db, first[0], now);
      if step.result.Ok? {
        ScriptSplit(ctx, step.db, first[1..], second, now);
        var rest := ScriptSpec(ctx, step.db, first[1..], now);
        if rest.result.Ok? {
          PrependConcat([step.result.value], rest.result.value, ScriptSpec(ctx, rest.db, second, now));
        }
      }
    }
  }

  /** A script whose function throws at some point fails as a whole. */
  lemma {:induction false} ScriptFails(ctx: Context, db: Db, steps: seq<Step>, now: string)
    requires exists i :: 0 <= i < |steps| && steps[i].FailStep?
    ensures ScriptSpec(ctx, db, steps, now).result.Err?
    decreases |steps|
  {
    var step := StepSpec(ctx, db, steps[0], now);
    if step.result.Ok? {
      var i :| 0 <= i < |steps| && steps[i].FailStep?;
      assert i > 0 && steps[1..][i - 1] == steps[i];
      ScriptFails(ctx, step.db, steps[1..], now);
    }
  }

  /**
   * `runInTransaction`: a timeout rejects with the timeout message; any
   * failure, or a throw anywhere in the function, leaves both tables as they
   * were; otherwise the function's writes are all kept.
   */
  lemma TransactionSpecProps(ctx: Context, db: Db, steps: seq<Step>, now: string, timedOut: bool, timeout: int)
    ensures var w := TransactionSpec(ctx, db, steps, now, timedOut, timeout);
            && (w.result.Err? ==> w.db == db)
            && (timedOut ==> w.result == Err(Thrown(TimeoutMessage(timeout))))
            && (!timedOut && ScriptSpec(ctx, db, steps, now).result.Ok? ==> w == ScriptSpec(ctx, db, steps, now))
            && (!timedOut && ScriptSpec(ctx, db, steps, now).result.Err? ==> w == Written(ScriptSpec(ctx, db, steps, now).result, db))
            && ((exists i :: 0 <= i < |steps| && steps[i].FailStep?) ==> w.result.Err? && w.db == db)
            && (!timedOut && w.result.Ok? ==> w == ScriptSpec(ctx, db, steps, now))
  {
    if exists i :: 0 <= i < |steps| && steps[i].FailStep? {
      ScriptFails(ctx, db, steps, now);
    }
  }

  /**
   * A transaction whose one call is a create that succeeds commits: it
   * returns the created row, and the row is in the table afterwards.
   */
  lemma CreateCommits(ctx: Context, db: Db, a: Row, idA: string, now: string, timeout: int)
    requires CreateCheck(ctx, a).None? && KeysHold(ctx, db.rows + [NewRow(a, idA, now)])
    ensures var w := TransactionSpec(ctx, db, [CreateStep(a, idA)], now, false, timeout);
            w.result == Ok([Created(NewRow(a, idA, now))]) && w.db.rows == db.rows + [NewRow(a, idA, now)]
            && NewRow(a, idA, now) in w.db.rows
  {
    var row := NewRow(a, idA, now);
    var w1 := CreateSpec(ctx, db, a, idA, now);
    assert w1.result == Ok(row) && w1.db.rows == db.rows + [row];
    assert [CreateStep(a, idA)][1..] == [] && [Created(row)] + [] == [Created(row)];
    assert ScriptSpec(ctx, db, [CreateStep(a, idA)], now) == Prepend([Created(NewRow(a, idA, now))], Written(Ok([]), w1.db));
    assert (db.rows + [NewRow(a, idA, now)])[|db.rows|] == NewRow(a, idA, now);
  }

  /**
   * Inside a transaction, a create followed by a create that breaks a
   * unique column rolls back both: the first row is not kept.
   */
  lemma DuplicateCreateRollsBack(ctx: Context, db: Db, a: Row, b: Row, column: string, idA: string, idB: string, now: string)
    requires !ctx.config.enforcePermissions && column in ctx.uniqueColumns
    requires Column(a, column) != Null && Column(a, column) == Column(b, column)
    requires KeysHold(ctx, db.rows + [NewRow(a, idA, now)])
    ensures TransactionSpec(ctx, db, [CreateStep(a, idA), CreateStep(b, idB)], now, false, DefaultTimeout)
            == Written(Err(Constraint(DuplicateKey)), db)
  {
    var ra := NewRow(a, idA, now);
    var rb := NewRow(b, idB, now);
    var w1 := CreateSpec(ctx, db, a, idA, now);
    assert w1.result == Ok(ra);
    var table := w1.db.rows + [rb];
    assert table[|db.rows|] == ra && table[|db.rows| + 1] == rb;
    assert !Distinct(table, column);
    assert !KeysHold(ctx, table);
    assert CreateSpec(ctx, w1.db, b, idB, now) == Written(Err(Constraint(DuplicateKey)), w1.db);
    var steps := [CreateStep(a, idA), CreateStep(b, idB)];
    assert steps[0] == CreateStep(a, idA) && steps[1..] == [CreateStep(b, idB)];
    assert ScriptSpec(ctx, w1.db, [CreateStep(b, idB)], now) == Written(Err(Constraint(DuplicateKey)), w1.db);
    assert ScriptSpec(ctx, db, steps, now) == Prepend([Created(ra)], ScriptSpec(ctx, w1.db, [CreateStep(b, idB)], now));
  }

  /**
   * Activities are audit entries for the repository's table, attributed to
   * the current user, or to the system user of the admin group when nobody
   * is signed in; the description names the first 8 characters of the
   * user's id, or all of a shorter one.
   */
  lemma ActivitySpec(ctx: Context, action: string, resourceId: string)
    ensures var a := ActivityFor(ctx, action, resourceId);
            && a.kind == "audit" && a.resourceType == ctx.config.tableName && a.resourceId == resourceId && a.action == action
            && (ctx.user.None? ==> a.generatorId == ctx.adminGroupId && a.creatorId == ctx.adminGroupId && a.ownerId == ctx.adminGroupId)
            && (ctx.user.Some? ==> a.generatorId == ctx.user.value.id && a.creatorId == ctx.user.value.id && a.ownerId == ctx.user.value.ownerId)
            && var u := Actor(ctx);
               a.description == u.role + " " + u.id[..if |u.id| < 8 then |u.id| else 8] + " " + u.name + ": " + action
                                + " '" + ctx.config.tableName + "' with id=" + resourceId
  {
  }
}
