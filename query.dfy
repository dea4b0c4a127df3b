/**
 * The part of the query builder and of the database the repository relies
 * on: a row is a map from column names to values (a missing column reads as
 * NULL); a query is a chain of where-terms joined by AND or OR, evaluated
 * with SQL precedence (AND binds tighter), an ORDER BY list and an optional
 * LIMIT. Running a query filters the table in its stored order, sorts the
 * survivors and keeps the first rows.
 */
module Query {
  import opened Wrappers
  import opened Js
  import opened Permission

  type Row = map<string, JsValue>

  /** The value of a column; a column the row does not have is NULL. */
  function Column(row: Row, column: string): JsValue {
    if column in row then row[column] else Null
  }

  datatype Connective = And | Or

  /**
   * One where-condition. `Equals` with a null value is `IS NULL`, as knex
   * writes it; `EqualsAny` is a parenthesised group of such equalities joined
   * by OR; `Permitted` is the raw permission condition.
   */
  datatype Pred =
    | Equals(column: string, value: JsValue)
    | EqualsAny(criteria: Entries)
    | IsNull(column: string)
    | NotNull(column: string)
    | Permitted(filter: Filter)

  datatype Term = Term(conn: Connective, pred: Pred)

  datatype Direction = Asc | Desc

  datatype Query = Query(terms: seq<Term>, orderBy: seq<(string, Direction)>, limit: Option<nat>)

  /** A fresh query builder: no conditions, no order, no limit. */
  const NewQuery := Query([], [], None)

  /** `column = value`, or `column IS NULL` for a null value. */
  predicate EqualsHolds(row: Row, column: string, value: JsValue) {
    if value == Null then Column(row, column) == Null else Column(row, column) == value
  }

  predicate Satisfies(row: Row, p: Pred) {
    match p
    case Equals(c, v) => EqualsHolds(row, c, v)
    case EqualsAny(cs) => MatchesAny(row, cs)
    case IsNull(c) => Column(row, c) == Null
    case NotNull(c) => Column(row, c) != Null
    case Permitted(f) => Passes(f, Column(row, "id"), Column(row, "owner_id"))
  }

  /** The rest of the chain, given the OR of the finished AND-groups and the value of the open group. */
  predicate EvalRest(done: bool, group: bool, terms: seq<Term>, row: Row)
    decreases |terms|
  {
    if terms == [] then done || group
    else if terms[0].conn == Or then EvalRest(done || group, Satisfies(row, terms[0].pred), terms[1..], row)
    else EvalRest(done, group && Satisfies(row, terms[0].pred), terms[1..], row)
  }

  /** A chain made only of `where`/`andWhere` calls. */
  predicate AllAnd(terms: seq<Term>) {
    forall i :: 0 <= i < |terms| ==> terms[i].conn == And
  }

  /** The WHERE clause; the connective of the first term is not written. */
  predicate Matches(terms: seq<Term>, row: Row) {
    terms == [] || EvalRest(false, Satisfies(row, terms[0].pred), terms[1..], row)
  }

  /** `query.where(column, value)` / `andWhere`. */
  function AndWhere(q: Query, p: Pred): Query {
    q.(terms := q.terms + [Term(And, p)])
  }

  /** `query.orWhere(column, value)`. */
  function OrWhere(q: Query, p: Pred): Query {
    q.(terms := q.terms + [Term(Or, p)])
  }

  /** The condition one property of a criteria object stands for. */
  function CriterionPred(column: string, value: JsValue): Pred {
    if value == Null then IsNull(column) else Equals(column, value)
  }

  /** `query.where(object)`: one AND-ed condition per property, in property order. */
  function WhereAll(q: Query, criteria: Entries): (r: Query)
    ensures r.orderBy == q.orderBy && r.limit == q.limit
    decreases |criteria|
  {
    if criteria == [] then q
    else WhereAll(AndWhere(q, CriterionPred(criteria[0].0, criteria[0].1)), criteria[1..])
  }

  /** The row equals every criterion (null meaning IS NULL). */
  predicate MatchesAll(row: Row, criteria: Entries) {
    forall i :: 0 <= i < |criteria| ==> EqualsHolds(row, criteria[i].0, criteria[i].1)
  }

  /** The row equals at least one criterion. */
  predicate MatchesAny(row: Row, criteria: Entries) {
    exists i :: 0 <= i < |criteria| && EqualsHolds(row, criteria[i].0, criteria[i].1)
  }

  // ---------------------------------------------------------------------------
  // Ordering

  /** Strings compare by character code. */
  function CompareStrings(a: string, b: string): int {
    if a == [] && b == [] then 0
    else if a == [] then -1
    else if b == [] then 1
    else if a[0] < b[0] then -1
    else if a[0] > b[0] then 1
    else CompareStrings(a[1..], b[1..])
  }

  /** Booleans, then numbers, then strings, then other values; NULL sorts last in ascending order. */
  function KindRank(v: JsValue): int {
    match v
    case Bool(_) => 0
    case Num(_) => 1
    case Str(_) => 2
    case Arr(_) => 3
    case Obj(_) => 3
    case Null => 4
    case Undefined => 4
  }

  function CompareValues(a: JsValue, b: JsValue): int {
    if KindRank(a) != KindRank(b) then (if KindRank(a) < KindRank(b) then -1 else 1)
    else match (a, b)
      case (Bool(x), Bool(y)) => if x == y then 0 else if !x then -1 else 1
      case (Num(x), Num(y)) => if x == y then 0 else if x < y then -1 else 1
      case (Str(x), Str(y)) => CompareStrings(x, y)
      case _ => 0
  }

  /** ORDER BY: the first key that tells the rows apart decides; DESC reverses (and so puts NULL first). */
  function CompareRows(x: Row, y: Row, keys: seq<(string, Direction)>): int
    decreases |keys|
  {
    if keys == [] then 0
    else
      var c := CompareValues(Column(x, keys[0].0), Column(y, keys[0].0));
      var d := if keys[0].1 == Asc then c else -c;
      if d != 0 then d else CompareRows(x, y, keys[1..])
  }

  /** Each row is not after the next one. */
  predicate Ordered(rows: seq<Row>, keys: seq<(string, Direction)>) {
    forall i :: 0 < i < |rows| ==> CompareRows(rows[i - 1], rows[i], keys) <= 0
  }

  function Insert(x: Row, sorted: seq<Row>, keys: seq<(string, Direction)>): seq<Row> {
    if sorted == [] || CompareRows(x, sorted[0], keys) < 0 then [x] + sorted
    else [sorted[0]] + Insert(x, sorted[1..], keys)
  }

  /** The database's sort, stable on the stored order. */
  function Sort(rows: seq<Row>, keys: seq<(string, Direction)>): seq<Row> {
    if rows == [] then [] else Insert(rows[|rows| - 1], Sort(rows[..|rows| - 1], keys), keys)
  }

  /** The rows that satisfy the where-chain, in stored order. */
  function Select(terms: seq<Term>, table: seq<Row>): seq<Row> {
    if table == [] then []
    else Select(terms, table[..|table| - 1]) + (if Matches(terms, table[|table| - 1]) then [table[|table| - 1]] else [])
  }

  function Take(rows: seq<Row>, limit: Option<nat>): seq<Row> {
    if limit.Some? && limit.value < |rows| then rows[..limit.value] else rows
  }

  /** `await query`. */
  function Run(q: Query, table: seq<Row>): seq<Row> {
    Take(Sort(Select(q.terms, table), q.orderBy), q.limit)
  }

  /** `await query.first()`. */
  function First(q: Query, table: seq<Row>): Option<Row> {
    var rows := Run(q.(limit := Some(1)), table);
    if rows == [] then None else Some(rows[0])
  }

  // ---------------------------------------------------------------------------

  lemma {:induction false} CompareStringsFlip(a: string, b: string)
    ensures CompareStrings(a, b) == -CompareStrings(b, a)
    ensures CompareStrings(a, b) == 0 <==> a == b
  {
    if a != [] && b != [] && a[0] == b[0] {
      CompareStringsFlip(a[1..], b[1..]);
      assert a == [a[0]] + a[1..] && b == [b[0]] + b[1..];
    }
  }

  lemma CompareValuesFlip(a: JsValue, b: JsValue)
    ensures CompareValues(a, b) == -CompareValues(b, a)
  {
    if a.Str? && b.Str? {
      CompareStringsFlip(a.s, b.s);
    }
  }

  /** Comparing rows is antisymmetric, so the result of the sort is ordered both ways round. */
  lemma {:induction false} CompareRowsFlip(x: Row, y: Row, keys: seq<(string, Direction)>)
    ensures CompareRows(x, y, keys) == -CompareRows(y, x, keys)
    decreases |keys|
  {
    if keys != [] {
      CompareValuesFlip(Column(x, keys[0].0), Column(y, keys[0].0));
      CompareRowsFlip(x, y, keys[1..]);
    }
  }

  /** Strictly before is transitive on strings. */
  lemma {:induction false} CompareStringsTrans(a: string, b: string, c: string)
    ensures CompareStrings(a, b) < 0 && CompareStrings(b, c) < 0 ==> CompareStrings(a, c) < 0
  {
    if a != [] && b != [] && c != [] && a[0] == b[0] == c[0] {
      CompareStringsTrans(a[1..], b[1..], c[1..]);
    }
  }

  /** Strictly before is transitive on values, and values that compare equal compare alike with any third. */
  lemma CompareValuesTrans(a: JsValue, b: JsValue, c: JsValue)
    ensures CompareValues(a, b) < 0 && CompareValues(b, c) < 0 ==> CompareValues(a, c) < 0
    ensures CompareValues(a, b) == 0 ==> CompareValues(a, c) == CompareValues(b, c)
  {
    if a.Str? && b.Str? && c.Str? {
      CompareStringsTrans(a.s, b.s, c.s);
      CompareStringsFlip(a.s, b.s);
    }
  }

  /** Not after is transitive on rows, so the sort's neighbour order extends to every pair. */
  lemma {:induction false} CompareRowsTrans(x: Row, y: Row, z: Row, keys: seq<(string, Direction)>)
    ensures CompareRows(x, y, keys) <= 0 && CompareRows(y, z, keys) <= 0 ==> CompareRows(x, z, keys) <= 0
    decreases |keys|
  {
    if keys != [] {
      var a, b, c := Column(x, keys[0].0), Column(y, keys[0].0), Column(z, keys[0].0);
      CompareValuesTrans(a, b, c);
      CompareValuesTrans(c, b, a);
      CompareValuesTrans(c, a, b);
      CompareValuesFlip(a, b);
      CompareValuesFlip(b, c);
      CompareValuesFlip(a, c);
      CompareRowsTrans(x, y, z, keys[1..]);
    }
  }

  /** In an ordered list every row is not after any later row. */
  lemma {:induction false} OrderedPairs(rows: seq<Row>, keys: seq<(string, Direction)>)
    requires Ordered(rows, keys)
    ensures forall i, j :: 0 <= i < j < |rows| ==> CompareRows(rows[i], rows[j], keys) <= 0
  {
    forall i, j | 0 <= i < j < |rows| ensures CompareRows(rows[i], rows[j], keys) <= 0 {
      OrderedReach(rows, keys, i, j);
    }
  }

  /** In an ordered sequence a row compares at most equal to every later one, step by step. */
  lemma {:induction false} OrderedReach(rows: seq<Row>, keys: seq<(string, Direction)>, i: nat, j: nat)
    requires Ordered(rows, keys) && i < j < |rows|
    ensures CompareRows(rows[i], rows[j], keys) <= 0
    decreases j - i
  {
    if i + 1 < j {
      OrderedReach(rows, keys, i, j - 1);
      CompareRowsTrans(rows[i], rows[j - 1], rows[j], keys);
    }
  }

  lemma OrderedCons(h: Row, rest: seq<Row>, keys: seq<(string, Direction)>)
    requires Ordered(rest, keys)
    requires rest != [] ==> CompareRows(h, rest[0], keys) <= 0
    ensures Ordered([h] + rest, keys)
  {
    var r := [h] + rest;
    forall i | 0 < i < |r| ensures CompareRows(r[i - 1], r[i], keys) <= 0 {
      if i > 1 {
        assert r[i - 1] == rest[i - 2] && r[i] == rest[i - 1];
      }
    }
  }

  lemma OrderedTail(sorted: seq<Row>, keys: seq<(string, Direction)>)
    requires sorted != [] && Ordered(sorted, keys)
    ensures Ordered(sorted[1..], keys)
    ensures |sorted| > 1 ==> CompareRows(sorted[0], sorted[1], keys) <= 0
  {
    var rest := sorted[1..];
    forall i | 0 < i < |rest| ensures CompareRows(rest[i - 1], rest[i], keys) <= 0 {
      assert rest[i - 1] == sorted[i] && rest[i] == sorted[i + 1];
    }
  }

  lemma {:induction false} InsertMultiset(x: Row, sorted: seq<Row>, keys: seq<(string, Direction)>)
    ensures multiset(Insert(x, sorted, keys)) == multiset(sorted) + multiset{x}
  {
    if sorted != [] && CompareRows(x, sorted[0], keys) >= 0 {
      InsertMultiset(x, sorted[1..], keys);
      assert sorted == [sorted[0]] + sorted[1..];
      assert Insert(x, sorted, keys) == [sorted[0]] + Insert(x, sorted[1..], keys);
    }
  }

  /** The inserted row goes in front, or the old first row stays first. */
  lemma InsertHead(x: Row, sorted: seq<Row>, keys: seq<(string, Direction)>)
    ensures Insert(x, sorted, keys)[0] == x || Insert(x, sorted, keys)[0] == sorted[0]
  {
  }

  lemma {:induction false} InsertOrdered(x: Row, sorted: seq<Row>, keys: seq<(string, Direction)>)
    requires Ordered(sorted, keys)
    ensures Ordered(Insert(x, sorted, keys), keys)
  {
    if sorted == [] || CompareRows(x, sorted[0], keys) < 0 {
      OrderedCons(x, sorted, keys);
    } else {
      var rest := sorted[1..];
      OrderedTail(sorted, keys);
      InsertOrdered(x, rest, keys);
      InsertMultiset(x, rest, keys);
      InsertHead(x, rest, keys);
      CompareRowsFlip(x, sorted[0], keys);
      OrderedCons(sorted[0], Insert(x, rest, keys), keys);
    }
  }

  /** The sort returns the same rows, ordered by the keys. */
  lemma {:induction false} SortSpec(rows: seq<Row>, keys: seq<(string, Direction)>)
    ensures Ordered(Sort(rows, keys), keys)
    ensures multiset(Sort(rows, keys)) == multiset(rows)
  {
    if rows != [] {
      var init := rows[..|rows| - 1];
      SortSpec(init, keys);
      InsertOrdered(rows[|rows| - 1], Sort(init, keys), keys);
      InsertMultiset(rows[|rows| - 1], Sort(init, keys), keys);
      assert rows == init + [rows[|rows| - 1]];
    }
  }

  /** A row is selected exactly when it is in the table and satisfies the where-chain. */
  lemma {:induction false} SelectSpec(terms: seq<Term>, table: seq<Row>)
    ensures forall r :: r in Select(terms, table) <==> r in table && Matches(terms, r)
    ensures multiset(Select(terms, table)) <= multiset(table)
  {
    if table != [] {
      var init := table[..|table| - 1];
      SelectSpec(terms, init);
      assert table == init + [table[|table| - 1]];
    }
  }

  /**
   * What a query returns: rows of the table that satisfy the where-chain,
   * ordered by the ORDER BY keys, at most LIMIT of them, and every such row
   * when there is no limit.
   */
  lemma TakeSpec(rows: seq<Row>, limit: Option<nat>, keys: seq<(string, Direction)>)
    requires Ordered(rows, keys)
    ensures Ordered(Take(rows, limit), keys)
    ensures multiset(Take(rows, limit)) <= multiset(rows)
    ensures limit.Some? ==> |Take(rows, limit)| <= limit.value
    ensures limit.None? ==> Take(rows, limit) == rows
    ensures Take(rows, limit) == [] <==> rows == [] || limit == Some(0)
  {
    if limit.Some? && limit.value < |rows| {
      assert rows == rows[..limit.value] + rows[limit.value..];
      assert multiset(rows) == multiset(rows[..limit.value]) + multiset(rows[limit.value..]);
    }
  }

  /**
   * What a query returns: rows of the table that satisfy the where-chain,
   * ordered by the ORDER BY keys, at most LIMIT of them, and every such row
   * when there is no limit.
   */
  lemma RunSpec(q: Query, table: seq<Row>)
    ensures forall r :: r in Run(q, table) ==> r in table && Matches(q.terms, r)
    ensures Ordered(Run(q, table), q.orderBy)
    ensures q.limit.Some? ==> |Run(q, table)| <= q.limit.value
    ensures q.limit.None? ==> multiset(Run(q, table)) == multiset(Select(q.terms, table))
    ensures Run(q, table) == [] <==> Select(q.terms, table) == [] || q.limit == Some(0)
  {
    var selected := Select(q.terms, table);
    var sorted := Sort(selected, q.orderBy);
    SelectSpec(q.terms, table);
    SortSpec(selected, q.orderBy);
    TakeSpec(sorted, q.limit, q.orderBy);
    assert sorted == [] <==> selected == [] by {
      assert |sorted| == |multiset(sorted)| == |multiset(selected)| == |selected|;
    }
    forall r | r in Run(q, table) ensures r in table && Matches(q.terms, r) {
      assert r in multiset(Run(q, table));
      assert r in multiset(selected);
    }
  }

  /** What a cut at `n` drops is the rest of the list. */
  lemma DroppedRest(rows: seq<Row>, n: nat)
    requires n <= |rows|
    ensures multiset(rows) - multiset(rows[..n]) == multiset(rows[n..])
  {
    assert rows == rows[..n] + rows[n..];
  }

  /** In an ordered list no row after the cut sorts before one before it. */
  lemma OrderedCut(rows: seq<Row>, n: nat, keys: seq<(string, Direction)>)
    requires n <= |rows| && Ordered(rows, keys)
    ensures forall x, y :: x in rows[..n] && y in rows[n..] ==> CompareRows(x, y, keys) <= 0
  {
    OrderedPairs(rows, keys);
    forall x, y | x in rows[..n] && y in rows[n..] ensures CompareRows(x, y, keys) <= 0 {
      var i :| 0 <= i < n && rows[..n][i] == x;
      var j :| 0 <= j < |rows| - n && rows[n..][j] == y;
      assert rows[i] == x && rows[n + j] == y;
    }
  }

  /** Cutting an ordered list keeps as many rows as the limit allows, and no dropped row sorts before a kept one. */
  lemma TakeLimit(rows: seq<Row>, limit: Option<nat>, keys: seq<(string, Direction)>)
    requires Ordered(rows, keys)
    ensures |Take(rows, limit)| == if limit.Some? && limit.value < |rows| then limit.value else |rows|
    ensures forall x, y :: x in Take(rows, limit) && y in multiset(rows) - multiset(Take(rows, limit)) ==>
              CompareRows(x, y, keys) <= 0
  {
    var n := |Take(rows, limit)|;
    assert Take(rows, limit) == rows[..n];
    DroppedRest(rows, n);
    OrderedCut(rows, n, keys);
    forall x, y | x in rows[..n] && y in multiset(rows[n..]) ensures CompareRows(x, y, keys) <= 0 {
      assert y in rows[n..];
    }
  }

  /**
   * With a limit, a query returns as many rows as it may, up to the number
   * that match, and no matching row it leaves out sorts before one it
   * returns.
   */
  lemma RunLimit(q: Query, table: seq<Row>)
    ensures var n := |Select(q.terms, table)|;
            |Run(q, table)| == if q.limit.Some? && q.limit.value < n then q.limit.value else n
    ensures forall x, y :: x in Run(q, table) && y in multiset(Select(q.terms, table)) - multiset(Run(q, table)) ==>
              CompareRows(x, y, q.orderBy) <= 0
  {
    var selected := Select(q.terms, table);
    var sorted := Sort(selected, q.orderBy);
    SortSpec(selected, q.orderBy);
    TakeLimit(sorted, q.limit, q.orderBy);
    assert |sorted| == |selected| by {
      assert |sorted| == |multiset(sorted)| == |multiset(selected)| == |selected|;
    }
  }

  /** `first()` gives a row of the table satisfying the chain, and one exists exactly when some row does. */
  lemma FirstSpec(q: Query, table: seq<Row>)
    ensures First(q, table).Some? ==> First(q, table).value in table && Matches(q.terms, First(q, table).value)
    ensures First(q, table).None? <==> forall r :: r in table ==> !Matches(q.terms, r)
  {
    var q1 := q.(limit := Some(1));
    RunSpec(q1, table);
    SelectSpec(q.terms, table);
    if exists r :: r in table && Matches(q.terms, r) {
      var r :| r in table && Matches(q.terms, r);
      assert r in Select(q.terms, table);
    }
  }

  lemma {:induction false} AndRest(done: bool, group: bool, terms: seq<Term>, row: Row)
    requires forall i :: 0 <= i < |terms| ==> terms[i].conn == And
    ensures EvalRest(done, group, terms, row) <==> done || (group && forall i :: 0 <= i < |terms| ==> Satisfies(row, terms[i].pred))
  {
    if terms != [] {
      AndRest(done, group && Satisfies(row, terms[0].pred), terms[1..], row);
      assert forall i :: 0 < i < |terms| ==> terms[i] == terms[1..][i - 1];
    }
  }

  /** A chain of AND-terms holds exactly when every term does. */
  lemma AndChain(terms: seq<Term>, row: Row)
    requires AllAnd(terms)
    ensures Matches(terms, row) <==> forall i :: 0 <= i < |terms| ==> Satisfies(row, terms[i].pred)
  {
    if terms != [] {
      AndRest(false, Satisfies(row, terms[0].pred), terms[1..], row);
      assert forall i :: 0 < i < |terms| ==> terms[i] == terms[1..][i - 1];
    }
  }

  /** Adding an AND-term to an AND-chain adds one more condition the row must meet. */
  lemma AndAppend(terms: seq<Term>, p: Pred, row: Row)
    requires AllAnd(terms)
    ensures AllAnd(terms + [Term(And, p)])
    ensures Matches(terms + [Term(And, p)], row) <==> Matches(terms, row) && Satisfies(row, p)
  {
    var t := terms + [Term(And, p)];
    AndChain(terms, row);
    AndChain(t, row);
    assert forall i :: 0 <= i < |terms| ==> t[i] == terms[i];
    assert t[|terms|] == Term(And, p);
    if Matches(terms, row) && Satisfies(row, p) {
      forall i | 0 <= i < |t| ensures Satisfies(row, t[i].pred) {
        if i < |terms| {
          assert t[i] == terms[i];
        }
      }
    }
  }

  /** `where(object)` on an AND-chain: the row must also equal every property. */
  lemma {:induction false} WhereAllMatches(q: Query, criteria: Entries, row: Row)
    requires AllAnd(q.terms)
    ensures AllAnd(WhereAll(q, criteria).terms)
    ensures Matches(WhereAll(q, criteria).terms, row) <==> Matches(q.terms, row) && MatchesAll(row, criteria)
    decreases |criteria|
  {
    if criteria != [] {
      var p := CriterionPred(criteria[0].0, criteria[0].1);
      AndAppend(q.terms, p, row);
      WhereAllMatches(AndWhere(q, p), criteria[1..], row);
      assert forall i :: 0 < i < |criteria| ==> criteria[i] == criteria[1..][i - 1];
    }
  }

  /** `where(object)` is the same as adding the properties' conditions one by one. */
  lemma {:induction false} WhereAllSnoc(q: Query, criteria: Entries, column: string, value: JsValue)
    ensures WhereAll(q, criteria + [(column, value)]) == AndWhere(WhereAll(q, criteria), CriterionPred(column, value))
    decreases |criteria|
  {
    if criteria == [] {
      assert [(column, value)][1..] == [];
    } else {
      assert (criteria + [(column, value)])[1..] == criteria[1..] + [(column, value)];
      WhereAllSnoc(AndWhere(q, CriterionPred(criteria[0].0, criteria[0].1)), criteria[1..], column, value);
    }
  }
}
