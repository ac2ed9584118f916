/** The relational store underneath the rule repository, reduced to what the
    repository can observe: a table of rule rows keyed by their identifier, a
    serial identifier allocator, a uniqueness constraint the schema declares,
    and the four primitives the repository calls (insert, column update, read
    by key, delete by key) plus a filtered query. A failure of the driver that
    has nothing to do with the data (a lost connection, say) is an `outage`
    argument: when present it preempts everything else. */
module Orm {
  import opened Results

  /** One row of the immutable tag rule table. `tagFilter` is opaque text. */
  datatype Rule = Rule(id: int, projectId: int, tagFilter: string, disabled: bool)

  /** The table and the next value of its identifier sequence. */
  datatype Db = Db(rows: map<int, Rule>, nextId: int) {

    /** Every row sits under its own identifier, and the sequence is past
        every identifier already used. */
    predicate Valid() {
      forall k :: k in rows ==> rows[k].id == k && k < nextId
    }
  }

  /** The two conditions the driver distinguishes, and everything else. */
  datatype DbError =
    | NoRows             // no row matched the key of a read (or of an update, by some drivers)
    | Duplicate          // the write would violate a unique index
    | Failure(text: string)

  /** The schema's uniqueness constraint: `conflicting(a, b)` holds when rows
      `a` and `b` may not both be in the table. Which columns it looks at is
      the schema's business. */
  type Constraint = (Rule, Rule) -> bool

  /** Writing `row` under `key` would violate the constraint against some
      row of `rows` under another key. */
  predicate Clashes(rows: map<int, Rule>, key: int, row: Rule, conflicting: Constraint) {
    exists k :: k in rows && k != key && (conflicting(rows[k], row) || conflicting(row, rows[k]))
  }

  /** No two rows of the table violate the constraint. */
  predicate Consistent(rows: map<int, Rule>, conflicting: Constraint) {
    forall j, k :: j in rows && k in rows && j != k ==> !conflicting(rows[j], rows[k])
  }

  /** The outcome of a writing primitive: the table afterwards and what the
      driver returned. */
  datatype Write<T> = Write(db: Db, result: Result<T, DbError>)

  /** `Insert`: the store assigns the next identifier, whatever `row.id` says. */
  function InsertRow(db: Db, row: Rule, conflicting: Constraint, outage: Option<string>): Write<int> {
    if outage.Some? then Write(db, Err(Failure(outage.value)))
    else
      var stored := row.(id := db.nextId);
      if Clashes(db.rows, stored.id, stored, conflicting) then Write(db, Err(Duplicate))
      else Write(Db(db.rows[stored.id := stored], db.nextId + 1), Ok(stored.id))
  }

  /** The columns an update may name. */
  datatype Column = ProjectIdColumn | TagFilterColumn | DisabledColumn

  /** `row` with the named columns taken from `src`. */
  function Assign(row: Rule, src: Rule, cols: set<Column>): Rule {
    Rule(row.id,
         if ProjectIdColumn in cols then src.projectId else row.projectId,
         if TagFilterColumn in cols then src.tagFilter else row.tagFilter,
         if DisabledColumn in cols then src.disabled else row.disabled)
  }

  /** How the driver reports a column update whose key matched no row: as
      the distinguished no-rows error, or as a success that affected zero
      rows. Which of the two happens is the driver's behaviour, not the
      repository's. */
  datatype MissingRowReport = NoRowsError | ZeroAffected

  /** `Update(src, cols...)`: writes the named columns of the row keyed by
      `src.id` and reports one row affected; a missing key changes nothing
      and is reported as `report` says. */
  function UpdateColumns(db: Db, src: Rule, cols: set<Column>, conflicting: Constraint,
                         report: MissingRowReport, outage: Option<string>): Write<int> {
    if outage.Some? then Write(db, Err(Failure(outage.value)))
    else if src.id !in db.rows then
      Write(db, if report == NoRowsError then Err(NoRows) else Ok(0))
    else
      var updated := Assign(db.rows[src.id], src, cols);
      if Clashes(db.rows, src.id, updated, conflicting) then Write(db, Err(Duplicate))
      else Write(db.(rows := db.rows[src.id := updated]), Ok(1))
  }

  /** `Read`: the whole row keyed by `id`. */
  function ReadRow(db: Db, id: int, outage: Option<string>): Result<Rule, DbError> {
    if outage.Some? then Err(Failure(outage.value))
    else if id !in db.rows then Err(NoRows)
    else Ok(db.rows[id])
  }

  /** `Delete`: removes the row keyed by `id` and reports how many rows went;
      a missing key is not an error. */
  function DeleteRow(db: Db, id: int, outage: Option<string>): Write<int> {
    if outage.Some? then Write(db, Err(Failure(outage.value)))
    else if id in db.rows then Write(db.(rows := db.rows - {id}), Ok(1))
    else Write(db, Ok(0))
  }

  /** One `Filter(column, value)` of a query. */
  datatype Cond = ProjectIs(projectId: int) | DisabledIs(disabled: bool)

  predicate Holds(row: Rule, cond: Cond) {
    match cond
    case ProjectIs(p) => row.projectId == p
    case DisabledIs(d) => row.disabled == d
  }

  predicate MatchesAll(row: Rule, conds: seq<Cond>) {
    forall i :: 0 <= i < |conds| ==> Holds(row, conds[i])
  }

  /** No row appears twice in a query result. */
  predicate NoRowTwice(rs: seq<Rule>) {
    forall i, j :: 0 <= i < j < |rs| ==> rs[i].id != rs[j].id
  }

  /** `QueryTable(...).Filter(...)...All(&r)`: every row satisfying all the
      filters, each once, in an order the store chooses. */
  method All(db: Db, conds: seq<Cond>, outage: Option<string>) returns (r: Result<seq<Rule>, DbError>)
    requires db.Valid()
    ensures outage.Some? ==> r == Err(Failure(outage.value))
    ensures outage.None? ==> r.Ok?
    ensures r.Ok? ==> forall row :: row in r.value <==> row in db.rows.Values && MatchesAll(row, conds)
    ensures r.Ok? ==> NoRowTwice(r.value)
  {
    if outage.Some? {
      return Err(Failure(outage.value));
    }
    var todo := db.rows.Keys;
    var acc: seq<Rule> := [];
    while todo != {}
      invariant todo <= db.rows.Keys
      invariant forall i :: 0 <= i < |acc| ==>
                  acc[i].id in db.rows && acc[i].id !in todo && db.rows[acc[i].id] == acc[i] && MatchesAll(acc[i], conds)
      invariant forall k :: k in db.rows && k !in todo && MatchesAll(db.rows[k], conds) ==> db.rows[k] in acc
      invariant NoRowTwice(acc)
      decreases todo
    {
      NonEmptyHasMember(todo);
      var k :| k in todo;
      if MatchesAll(db.rows[k], conds) {
        acc := acc + [db.rows[k]];
      }
      todo := todo - {k};
    }
    forall row | row in db.rows.Values && MatchesAll(row, conds)
      ensures row in acc
    {
      ValueHasKey(db.rows, row);
    }
    return Ok(acc);
  }

  lemma NonEmptyHasMember(s: set<int>)
    requires s != {}
    ensures exists x :: x in s
  {
    if forall x :: x !in s {
      assert false;
    }
  }

  lemma ValueHasKey(m: map<int, Rule>, v: Rule)
    requires v in m.Values
    ensures exists k :: k in m && m[k] == v
  {
    if forall k :: k in m ==> m[k] != v {
      assert false;
    }
  }
}
