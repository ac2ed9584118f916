/** The immutable tag rule repository: seven operations over the rule table,
    each a transition from one store state to the next together with what the
    caller sees. Store failures are translated into the caller's error kinds:
    a duplicate record on insert becomes Conflict, the no-rows condition on
    update, toggle or read becomes NotFound, a failed listing is wrapped with the
    project it was for, and everything else is handed back unchanged. */
module ImmutableDao {
  import opened Results
  import opened Orm
  import Decimal

  /** What a caller of the repository can receive as an error. */
  datatype Error =
    | Conflict(cause: DbError)
    | NotFound(cause: DbError, message: Option<string>)
    | Propagated(cause: DbError)
    | Wrapped(context: string, cause: DbError)

  /** The store after a call, and the call's result. */
  datatype Step<T> = Step(db: Db, result: Result<T, Error>)

  /** As `Step`, for the two operations that also write to the rule the caller
      passed in: `arg` is that rule as the caller sees it afterwards. */
  datatype ArgStep = ArgStep(db: Db, arg: Rule, result: Result<int, Error>)

  const NotFoundPrefix := "the immutable rule "
  const NotFoundSuffix := " is not found."

  /** The message of the error a read of a missing rule returns. */
  function NotFoundMessage(id: int): string {
    NotFoundPrefix + Decimal.Format(id) + NotFoundSuffix
  }

  /** Reads the identifier back out of a not-found message. */
  function IdInNotFoundMessage(msg: string): Option<int> {
    if |msg| >= |NotFoundPrefix| + |NotFoundSuffix|
       && msg[..|NotFoundPrefix|] == NotFoundPrefix
       && msg[|msg| - |NotFoundSuffix|..] == NotFoundSuffix
    then Decimal.Parse(msg[|NotFoundPrefix|..|msg| - |NotFoundSuffix|])
    else None
  }

  /** The not-found message embeds the decimal identifier, and the identifier
      can be read back from it. */
  lemma NotFoundMessageNamesId(id: int)
    ensures var msg := NotFoundMessage(id);
            && msg[|NotFoundPrefix|..|NotFoundPrefix| + |Decimal.Format(id)|] == Decimal.Format(id)
            && IdInNotFoundMessage(msg) == Some(id)
  {
    var msg := NotFoundMessage(id);
    var digits := Decimal.Format(id);
    assert msg[..|NotFoundPrefix|] == NotFoundPrefix;
    assert msg[|msg| - |NotFoundSuffix|..] == NotFoundSuffix;
    assert msg[|NotFoundPrefix|..|msg| - |NotFoundSuffix|] == digits;
    Decimal.FormatRoundTrip(id);
  }

  const ByProjectPrefix := "failed to get immutable tag rule by projectID "
  const EnabledByProjectPrefix := "failed to get enabled immutable tag rule for by projectID "

  /** The context a failed listing is wrapped with; the cause follows it
      after ", error: " in the rendered message. */
  function ListContext(enabledOnly: bool, projectId: int): string {
    (if enabledOnly then EnabledByProjectPrefix else ByProjectPrefix) + Decimal.Format(projectId)
  }

  /** Both listing contexts name the project, recoverably. */
  lemma ListContextNamesProject(enabledOnly: bool, projectId: int)
    ensures var prefix := if enabledOnly then EnabledByProjectPrefix else ByProjectPrefix;
            && ListContext(enabledOnly, projectId)[..|prefix|] == prefix
            && Decimal.Parse(ListContext(enabledOnly, projectId)[|prefix|..]) == Some(projectId)
  {
    var prefix := if enabledOnly then EnabledByProjectPrefix else ByProjectPrefix;
    assert ListContext(enabledOnly, projectId)[|prefix|..] == Decimal.Format(projectId);
    Decimal.FormatRoundTrip(projectId);
  }

  /** The rules of a project, and those of them that are enabled: what the
      two listing operations return, as sets. */
  function ProjectRules(db: Db, projectId: int): set<Rule> {
    set k | k in db.rows && db.rows[k].projectId == projectId :: db.rows[k]
  }

  function EnabledProjectRules(db: Db, projectId: int): set<Rule> {
    set k | k in db.rows && db.rows[k].projectId == projectId && !db.rows[k].disabled :: db.rows[k]
  }

  /** Create: the rule is stored enabled, whatever the caller set, under a
      fresh identifier; a uniqueness violation is a Conflict. */
  function Create(db: Db, ir: Rule, conflicting: Constraint, outage: Option<string>): (s: ArgStep)
    requires db.Valid()
    ensures s.db.Valid()
    ensures s.arg.disabled == false && s.arg.projectId == ir.projectId && s.arg.tagFilter == ir.tagFilter
    ensures s.result.Err? ==> s.db == db
    ensures s.result.Ok? ==>
              var id := s.result.value;
              && id !in db.rows
              && s.db.rows.Keys == db.rows.Keys + {id}
              && s.db.rows[id] == Rule(id, ir.projectId, ir.tagFilter, false)
              && (forall k :: k in db.rows ==> s.db.rows[k] == db.rows[k])
    ensures outage.Some? ==> s.result == Err(Propagated(Failure(outage.value)))
    ensures outage.None? ==>
              (s.result.Ok? <==> !Clashes(db.rows, db.nextId, Rule(db.nextId, ir.projectId, ir.tagFilter, false), conflicting))
    ensures outage.None? && s.result.Err? ==> s.result.error == Conflict(Duplicate)
  {
    var arg := ir.(disabled := false);
    var w := InsertRow(db, arg, conflicting, outage);
    var result := match w.result
      case Ok(id) => Ok(id)
      case Err(e) => Err(if e == Duplicate then Conflict(e) else Propagated(e));
    ArgStep(w.db, arg, result)
  }

  /** The translation Update and Toggle apply to a failed column update. */
  function NoRowsToNotFound(e: DbError): Error {
    if e == NoRows then NotFound(e, None) else Propagated(e)
  }

  /** Update: binds the caller's rule to `projectId`, then writes only its tag
      filter to the stored row with the same identifier. The stored project
      and enabled flag stay as they were. The result is the number of rows
      the store reports affected; the driver's no-rows error becomes
      NotFound. */
  function Update(db: Db, projectId: int, ir: Rule, conflicting: Constraint,
                  report: MissingRowReport, outage: Option<string>): (s: ArgStep)
    ensures db.Valid() ==> s.db.Valid()
    ensures s.arg.projectId == projectId
    ensures s.arg.id == ir.id && s.arg.tagFilter == ir.tagFilter && s.arg.disabled == ir.disabled
    ensures s.result.Err? ==> s.db == db
    ensures s.result.Ok? ==>
              || (&& s.result.value == 1
                  && ir.id in db.rows
                  && s.db.nextId == db.nextId
                  && s.db.rows.Keys == db.rows.Keys
                  && s.db.rows[ir.id] == db.rows[ir.id].(tagFilter := ir.tagFilter)
                  && (forall k :: k in db.rows && k != ir.id ==> s.db.rows[k] == db.rows[k]))
              || (s.result.value == 0 && ir.id !in db.rows && s.db == db)
    ensures outage.Some? ==> s.result == Err(Propagated(Failure(outage.value)))
    ensures outage.None? && ir.id !in db.rows ==>
              && s.db == db
              && (report == NoRowsError ==> s.result == Err(NotFound(NoRows, None)))
              && (report == ZeroAffected ==> s.result == Ok(0))
    ensures s.result.Err? && s.result.error.NotFound? ==>
              ir.id !in db.rows && s.result.error.cause == NoRows && s.result.error.message.None?
    ensures outage.None? && ir.id in db.rows ==>
              (s.result.Ok? <==> !Clashes(db.rows, ir.id, db.rows[ir.id].(tagFilter := ir.tagFilter), conflicting))
    ensures outage.None? && ir.id in db.rows && s.result.Err? ==> s.result.error == Propagated(Duplicate)
  {
    var arg := ir.(projectId := projectId);
    var w := UpdateColumns(db, arg, {TagFilterColumn}, conflicting, report, outage);
    var result := match w.result
      case Ok(n) => Ok(n)
      case Err(e) => Err(NoRowsToNotFound(e));
    ArgStep(w.db, arg, result)
  }

  /** Toggle: writes only the enabled flag of the row keyed by `id`. The
      result is the number of rows the store reports affected; the driver's
      no-rows error becomes NotFound. */
  function Toggle(db: Db, id: int, status: bool, conflicting: Constraint,
                  report: MissingRowReport, outage: Option<string>): (s: Step<int>)
    ensures db.Valid() ==> s.db.Valid()
    ensures s.result.Err? ==> s.db == db
    ensures s.result.Ok? ==>
              || (&& s.result.value == 1
                  && id in db.rows
                  && s.db.nextId == db.nextId
                  && s.db.rows.Keys == db.rows.Keys
                  && s.db.rows[id] == db.rows[id].(disabled := status)
                  && (forall k :: k in db.rows && k != id ==> s.db.rows[k] == db.rows[k]))
              || (s.result.value == 0 && id !in db.rows && s.db == db)
    ensures outage.Some? ==> s.result == Err(Propagated(Failure(outage.value)))
    ensures outage.None? && id !in db.rows ==>
              && s.db == db
              && (report == NoRowsError ==> s.result == Err(NotFound(NoRows, None)))
              && (report == ZeroAffected ==> s.result == Ok(0))
    ensures s.result.Err? && s.result.error.NotFound? ==>
              id !in db.rows && s.result.error.cause == NoRows && s.result.error.message.None?
    ensures outage.None? && id in db.rows ==>
              (s.result.Ok? <==> !Clashes(db.rows, id, db.rows[id].(disabled := status), conflicting))
    ensures outage.None? && id in db.rows && s.result.Err? ==> s.result.error == Propagated(Duplicate)
  {
    // The rule handed to the store carries only the key and the flag; its
    // other fields are zero values and are not written.
    var w := UpdateColumns(db, Rule(id, 0, "", status), {DisabledColumn}, conflicting, report, outage);
    var result := match w.result
      case Ok(n) => Ok(n)
      case Err(e) => Err(NoRowsToNotFound(e));
    Step(w.db, result)
  }

  /** Get: the stored row keyed by `id`, or NotFound with a message naming
      `id`. The store is not changed: only a value is returned. */
  function Get(db: Db, id: int, outage: Option<string>): (r: Result<Rule, Error>)
    ensures outage.Some? ==> r == Err(Propagated(Failure(outage.value)))
    ensures outage.None? ==> (r.Ok? <==> id in db.rows)
    ensures r.Ok? ==> id in db.rows && r.value == db.rows[id]
    ensures r.Ok? && db.Valid() ==> r.value.id == id
    ensures outage.None? && id !in db.rows ==>
              && r.Err? && r.error.NotFound? && r.error.cause == NoRows
              && r.error.message.Some?
              && IdInNotFoundMessage(r.error.message.value) == Some(id)
  {
    match ReadRow(db, id, outage)
    case Ok(row) => Ok(row)
    case Err(e) =>
      if e == NoRows then
        NotFoundMessageNamesId(id);
        Err(NotFound(e, Some(NotFoundMessage(id))))
      else Err(Propagated(e))
  }

  /** ListByProject: every rule of the project, each once, in the store's
      order; no rules is an empty list, not an error. */
  method ListByProject(db: Db, projectId: int, outage: Option<string>) returns (r: Result<seq<Rule>, Error>)
    requires db.Valid()
    ensures outage.Some? ==> r == Err(Wrapped(ListContext(false, projectId), Failure(outage.value)))
    ensures outage.None? ==> r.Ok?
    ensures r.Ok? ==> forall row :: row in r.value <==> row in ProjectRules(db, projectId)
    ensures r.Ok? ==> NoRowTwice(r.value)
    ensures r.Ok? ==> |r.value| == |ProjectRules(db, projectId)|
  {
    var q := All(db, [ProjectIs(projectId)], outage);
    match q
    case Err(e) =>
      r := Err(Wrapped(ListContext(false, projectId), e));
    case Ok(rows) =>
      forall row | row in rows
        ensures row in ProjectRules(db, projectId)
      {
        assert Holds(row, [ProjectIs(projectId)][0]);
        ValueHasKey(db.rows, row);
      }
      forall row | row in ProjectRules(db, projectId)
        ensures row in rows
      {
        assert MatchesAll(row, [ProjectIs(projectId)]);
      }
      DistinctRowsCount(rows, ProjectRules(db, projectId));
      r := Ok(rows);
  }

  /** ListEnabledByProject: every enabled rule of the project, each once, in
      the store's order; no such rules is an empty list, not an error. */
  method ListEnabledByProject(db: Db, projectId: int, outage: Option<string>) returns (r: Result<seq<Rule>, Error>)
    requires db.Valid()
    ensures outage.Some? ==> r == Err(Wrapped(ListContext(true, projectId), Failure(outage.value)))
    ensures outage.None? ==> r.Ok?
    ensures r.Ok? ==> forall row :: row in r.value <==> row in EnabledProjectRules(db, projectId)
    ensures r.Ok? ==> NoRowTwice(r.value)
    ensures r.Ok? ==> |r.value| == |EnabledProjectRules(db, projectId)|
  {
    var conds := [ProjectIs(projectId), DisabledIs(false)];
    var q := All(db, conds, outage);
    match q
    case Err(e) =>
      r := Err(Wrapped(ListContext(true, projectId), e));
    case Ok(rows) =>
      forall row | row in rows
        ensures row in EnabledProjectRules(db, projectId)
      {
        assert Holds(row, conds[0]) && Holds(row, conds[1]);
        ValueHasKey(db.rows, row);
      }
      forall row | row in EnabledProjectRules(db, projectId)
        ensures row in rows
      {
        assert MatchesAll(row, conds);
      }
      DistinctRowsCount(rows, EnabledProjectRules(db, projectId));
      r := Ok(rows);
  }

  /** A list holding each member of a set exactly once is as long as the set
      is large. */
  lemma {:induction false} DistinctRowsCount(rows: seq<Rule>, s: set<Rule>)
    requires forall row :: row in rows <==> row in s
    requires NoRowTwice(rows)
    ensures |rows| == |s|
    decreases |rows|
  {
    if rows != [] {
      var last := rows[|rows| - 1];
      var init := rows[..|rows| - 1];
      assert last !in init;
      forall row | row in init
        ensures row in s - {last}
      {
        assert row in rows;
      }
      forall row | row in s - {last}
        ensures row in init
      {
        assert row in rows;
        var i :| 0 <= i < |rows| && rows[i] == row;
        assert i < |rows| - 1;
        assert init[i] == row;
      }
      DistinctRowsCount(init, s - {last});
    }
  }

  /** Delete: removes the row keyed by `id`, reporting one row affected when
      there was one and zero, without an error, when there was none. Store
      errors are handed back unchanged. */
  function Delete(db: Db, id: int, outage: Option<string>): (s: Step<int>)
    ensures db.Valid() ==> s.db.Valid()
    ensures s.db.nextId == db.nextId
    ensures outage.Some? ==> s.db == db && s.result == Err(Propagated(Failure(outage.value)))
    ensures outage.None? ==> s.result.Ok? && (s.result.value == 1 <==> id in db.rows) && (s.result.value == 0 <==> id !in db.rows)
    ensures outage.None? ==>
              && id !in s.db.rows
              && s.db.rows.Keys == db.rows.Keys - {id}
              && (forall k :: k in s.db.rows ==> s.db.rows[k] == db.rows[k])
  {
    var w := DeleteRow(db, id, outage);
    Step(w.db, match w.result case Ok(n) => Ok(n) case Err(e) => Err(Propagated(e)))
  }
}
