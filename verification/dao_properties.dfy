/** Properties that relate several repository calls: reading back what was
    written, undoing a write, repeating a write, the table's uniqueness
    constraint surviving every write, and how writes show in the listings. */
module DaoProperties {
  import opened Results
  import opened Orm
  import opened ImmutableDao

  /** A created rule reads back with the caller's project and filter, enabled. */
  lemma CreateThenGet(db: Db, ir: Rule, conflicting: Constraint)
    requires db.Valid()
    requires Create(db, ir, conflicting, None).result.Ok?
    ensures var s := Create(db, ir, conflicting, None);
            var id := s.result.value;
            Get(s.db, id, None) == Ok(Rule(id, ir.projectId, ir.tagFilter, false))
  {
  }

  /** Deleting a rule just created gives back the table as it was. */
  lemma CreateThenDeleteRestores(db: Db, ir: Rule, conflicting: Constraint)
    requires db.Valid()
    requires Create(db, ir, conflicting, None).result.Ok?
    ensures var s := Create(db, ir, conflicting, None);
            var d := Delete(s.db, s.result.value, None);
            d.result == Ok(1) && d.db.rows == db.rows
  {
  }

  /** A created rule shows in both listings of its project. */
  lemma CreateShowsInListings(db: Db, ir: Rule, conflicting: Constraint)
    requires db.Valid()
    requires Create(db, ir, conflicting, None).result.Ok?
    ensures var s := Create(db, ir, conflicting, None);
            var row := Rule(s.result.value, ir.projectId, ir.tagFilter, false);
            && ProjectRules(s.db, ir.projectId) == ProjectRules(db, ir.projectId) + {row}
            && EnabledProjectRules(s.db, ir.projectId) == EnabledProjectRules(db, ir.projectId) + {row}
  {
  }

  /** Reading a rule after updating it gives the stored rule with only the
      new tag filter; the project passed to Update does not reach the store. */
  lemma UpdateThenGet(db: Db, projectId: int, ir: Rule, conflicting: Constraint, report: MissingRowReport)
    requires Update(db, projectId, ir, conflicting, report, None).result == Ok(1)
    ensures var s := Update(db, projectId, ir, conflicting, report, None);
            && Get(s.db, ir.id, None) == Ok(db.rows[ir.id].(tagFilter := ir.tagFilter))
            && Get(s.db, ir.id, None).value.projectId == db.rows[ir.id].projectId
  {
  }

  /** Repeating an Update that succeeded succeeds and changes nothing more. */
  lemma UpdateIdempotent(db: Db, projectId: int, ir: Rule, conflicting: Constraint, report: MissingRowReport)
    requires Update(db, projectId, ir, conflicting, report, None).result.Ok?
    ensures var s := Update(db, projectId, ir, conflicting, report, None);
            var t := Update(s.db, projectId, ir, conflicting, report, None);
            t.result.Ok? && t.db == s.db
  {
  }

  /** Repeating a Toggle that succeeded succeeds and changes nothing more. */
  lemma ToggleIdempotent(db: Db, id: int, status: bool, conflicting: Constraint, report: MissingRowReport)
    requires Toggle(db, id, status, conflicting, report, None).result.Ok?
    ensures var s := Toggle(db, id, status, conflicting, report, None);
            var t := Toggle(s.db, id, status, conflicting, report, None);
            t.result.Ok? && t.db == s.db
  {
  }

  /** Toggling a rule back to its former flag restores the table, provided
      the table satisfied its uniqueness constraint to begin with. */
  lemma ToggleBackRestores(db: Db, id: int, status: bool, conflicting: Constraint, report: MissingRowReport)
    requires Consistent(db.rows, conflicting)
    requires Toggle(db, id, status, conflicting, report, None).result == Ok(1)
    ensures var s := Toggle(db, id, status, conflicting, report, None);
            var t := Toggle(s.db, id, db.rows[id].disabled, conflicting, report, None);
            t.result.Ok? && t.db == db
  {
  }

  /** Disabling a rule drops it from its project's enabled listing and
      enabling it adds it; no other rule enters or leaves that listing, and
      the full project listing keeps the same rules. */
  lemma ToggleAndEnabledListing(db: Db, id: int, status: bool, conflicting: Constraint, report: MissingRowReport)
    requires db.Valid()
    requires Toggle(db, id, status, conflicting, report, None).result == Ok(1)
    ensures var s := Toggle(db, id, status, conflicting, report, None);
            var p := db.rows[id].projectId;
            var row := s.db.rows[id];
            && (row in EnabledProjectRules(s.db, p) <==> !status)
            && (forall r: Rule :: r.id != id ==> (r in EnabledProjectRules(s.db, p) <==> r in EnabledProjectRules(db, p)))
            && (forall r: Rule :: r.id != id ==> (r in ProjectRules(s.db, p) <==> r in ProjectRules(db, p)))
  {
  }

  /** Reading a deleted rule is NotFound, and deleting it again affects no
      row and changes nothing. */
  lemma DeleteThenGetAndDeleteAgain(db: Db, id: int)
    ensures var d := Delete(db, id, None);
            && Get(d.db, id, None).Err?
            && Get(d.db, id, None).error.NotFound?
            && Delete(d.db, id, None) == Step(d.db, Ok(0))
  {
  }

  /** The enabled listing of a project is the project listing without the
      disabled rules. */
  lemma EnabledListingIsFilteredProjectListing(db: Db, projectId: int)
    ensures EnabledProjectRules(db, projectId) == set r | r in ProjectRules(db, projectId) && !r.disabled
    ensures EnabledProjectRules(db, projectId) <= ProjectRules(db, projectId)
  {
  }

  /** No write lets two rows that violate the uniqueness constraint into the
      table. */
  lemma WritesKeepConsistent(db: Db, ir: Rule, projectId: int, id: int, status: bool,
                             conflicting: Constraint, report: MissingRowReport, outage: Option<string>)
    requires db.Valid()
    requires Consistent(db.rows, conflicting)
    ensures Consistent(Create(db, ir, conflicting, outage).db.rows, conflicting)
    ensures Consistent(Update(db, projectId, ir, conflicting, report, outage).db.rows, conflicting)
    ensures Consistent(Toggle(db, id, status, conflicting, report, outage).db.rows, conflicting)
    ensures Consistent(Delete(db, id, outage).db.rows, conflicting)
  {
  }

  /** The worked example: a rule created disabled in an empty table reads
      back enabled under the first identifier; deleting an identifier that
      was never created affects no row. */
  lemma CreateExample(conflicting: Constraint)
    ensures var db := Db(map[], 1);
            var s := Create(db, Rule(0, 7, "release-*", true), conflicting, None);
            && s.result == Ok(1)
            && Get(s.db, 1, None) == Ok(Rule(1, 7, "release-*", false))
            && Delete(s.db, 2, None) == Step(s.db, Ok(0))
  {
  }
}
