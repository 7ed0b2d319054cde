/**
 * Saving a list of contributor names cleans up the old rows and ensures placeholder rows for every
 * year of the project (ensureContributorFundingRows in
 * src/plugins/projects/services/project-funding-contributors-sync-service.js). One after the other
 * this gives what it should; src/plugins/projects/upsert-project/upsert-project.js:178-191 starts
 * both at once, and here is exactly when that matters.
 */
module ContributorNames {
  import opened Wrappers
  import opened FundingTables
  import opened ContributorCleanup

  /** Array.from with a length of end - start + 1; a negative length gives no years. */
  function Years(start: Year, end: Year): (years: seq<Year>)
    ensures forall y :: y in years <==> start <= y <= end
    decreases end - start
  {
    if end < start then [] else [start] + Years(start + 1, end)
  }

  function YearRows(l: Ledger, project: Project, years: seq<Year>): set<RowId> {
    set y | y in years && (project, y) in l.values :: l.values[(project, y)].id
  }

  /** Missing year rows are created empty, then missing contributor rows without an amount. */
  function Ensured(l: Ledger, project: Project, kind: Kind, names: seq<string>, years: seq<Year>): Ledger {
    var l1 := WithMissingValues(l, project, years);
    l1.(contributors := WithPlaceholders(l.contributors, Placed(YearRows(l1, project, years), kind, names)))
  }

  /** The edit a clean-up makes on this ledger, for some order of the names. */
  ghost predicate EditsLedger(e: Edit, l: Ledger, project: Project, current: seq<string>) {
    e.ids == RowsOf(l, project) && IsEditOf(e, l.contributors, current)
  }

  function CleanedUp(l: Ledger, e: Edit): Option<Ledger>
    requires Below(InOrder(|e.removed|), |e.removed|)
  {
    match RunChanges(l.contributors, e, InOrder(|e.removed|))
    case None => None
    case Some(m) => Some(l.(contributors := m))
  }

  // ---------- The rows an ensure step works on ----------

  lemma RowYear(l: Ledger, project: Project, id: RowId) returns (y: Year)
    requires id in RowsOf(l, project)
    ensures (project, y) in l.values && l.values[(project, y)].id == id
  {
    var k :| k in l.values && k.0 == project && l.values[k].id == id;
    y := k.1;
    assert k == (project, y);
  }

  /** A row of the project after the ensure step is one it had, or one of a listed year. */
  lemma EnsuredRow(l: Ledger, project: Project, years: seq<Year>, id: RowId)
    ensures var l1 := WithMissingValues(l, project, years);
            && (id in RowsOf(l1, project) <==> id in RowsOf(l, project) || id in YearRows(l1, project, years))
            && (id in YearRows(l1, project, years) && id !in RowsOf(l, project) ==> l.nextId <= id)
  {
    MissingValuesAdd(l, project, years);
    NewIdsAreNew(l, project, years);
    var l1 := WithMissingValues(l, project, years);
    if id in RowsOf(l1, project) {
      var y := RowYear(l1, project, id);
      assert (project, y) !in l.values ==> y in years;
    }
    if id in RowsOf(l, project) {
      var y := RowYear(l, project, id);
      assert l1.values[(project, y)] == l.values[(project, y)];
    }
  }

  lemma {:induction false} NewIdsAreNew(l: Ledger, project: Project, years: seq<Year>)
    ensures var l1 := WithMissingValues(l, project, years);
            forall k | k in l1.values && k !in l.values :: l.nextId <= l1.values[k].id
    decreases years
  {
    if years != [] {
      MissingValueAdds(l, project, years[0]);
      NewIdsAreNew(WithMissingValue(l, project, years[0]), project, years[1..]);
      MissingValuesAdd(WithMissingValue(l, project, years[0]), project, years[1..]);
    }
  }

  /** The contributors of an ensured ledger, row by row. */
  lemma EnsuredAt(l: Ledger, project: Project, kind: Kind, names: seq<string>, years: seq<Year>, key: Key)
    ensures var l' := Ensured(l, project, kind, names, years);
            var placed := key.row in YearRows(l', project, years) && key.kind == kind && key.name in names;
            && (key in l'.contributors <==> key in l.contributors || placed)
            && (key in l'.contributors ==>
                  l'.contributors[key] == if key in l.contributors then l.contributors[key] else PLACEHOLDER)
  {
  }

  // ---------- Clean up, then ensure ----------

  /**
   * Cleaning up and then ensuring leaves every year of the range with exactly the current names, and
   * rows that already bore one of them as they were.
   */
  lemma CleanupThenEnsure(l: Ledger, project: Project, kind: Kind, current: seq<string>, years: seq<Year>, e: Edit)
    requires IdsIdentify(l) && e.kind == kind && EditsLedger(e, l, project, current)
    ensures Below(InOrder(|e.removed|), |e.removed|) && CleanedUp(l, e).Some?
    ensures var l' := Ensured(CleanedUp(l, e).value, project, kind, current, years);
            && (forall y | y in years ::
                  && (project, y) in l'.values
                  && NamesAt(l'.contributors, l'.values[(project, y)].id, kind) == set n | n in current)
            && (forall key | key in l.contributors && key.row in e.ids && key.kind == kind && key.name in current ::
                  key in l'.contributors && l'.contributors[key] == l.contributors[key])
  {
    InOrderComplete(|e.removed|);
    OrderIsIrrelevant(l.contributors, e, current, InOrder(|e.removed|));
    var m := CleanedUp(l, e).value.contributors;
    var l' := Ensured(CleanedUp(l, e).value, project, kind, current, years);
    var l1 := WithMissingValues(CleanedUp(l, e).value, project, years);
    SameValues(l, CleanedUp(l, e).value, project, years);
    MissingValuesAdd(l, project, years);
    forall y | y in years
      ensures (project, y) in l'.values
      ensures NamesAt(l'.contributors, l'.values[(project, y)].id, kind) == set n | n in current
    {
      YearHasCurrentNames(l, project, kind, current, years, e, m, y);
    }
    forall key | key in l.contributors && key.row in e.ids && key.kind == kind && key.name in current
      ensures key in l'.contributors && l'.contributors[key] == l.contributors[key]
    {
      OnlyCurrentNamesLeft(l.contributors, e, current, InOrder(|e.removed|), key);
    }
  }

  /** Creating year rows looks at the values only. */
  lemma {:induction false} SameValues(l: Ledger, l': Ledger, project: Project, years: seq<Year>)
    requires l'.values == l.values && l'.nextId == l.nextId
    ensures var a, b := WithMissingValues(l, project, years), WithMissingValues(l', project, years);
            a.values == b.values && a.nextId == b.nextId && b.contributors == l'.contributors
    decreases years
  {
    if years != [] {
      SameValues(WithMissingValue(l, project, years[0]), WithMissingValue(l', project, years[0]), project, years[1..]);
    }
  }

  lemma YearHasCurrentNames(l: Ledger, project: Project, kind: Kind, current: seq<string>, years: seq<Year>, e: Edit,
                            m: Contributors, y: Year)
    requires IdsIdentify(l) && e.kind == kind && EditsLedger(e, l, project, current)
    requires Complete(InOrder(|e.removed|), |e.removed|)
    requires RunChanges(l.contributors, e, InOrder(|e.removed|)) == Some(m) && y in years
    ensures var l' := Ensured(l.(contributors := m), project, kind, current, years);
            && (project, y) in l'.values
            && NamesAt(l'.contributors, l'.values[(project, y)].id, kind) == set n | n in current
  {
    var lc := l.(contributors := m);
    MissingValuesAdd(lc, project, years);
    var l' := Ensured(lc, project, kind, current, years);
    var row := l'.values[(project, y)].id;
    assert row in YearRows(l', project, years);
    EnsuredRow(lc, project, years, row);
    forall n: string
      ensures n in NamesAt(l'.contributors, row, kind) <==> n in current
    {
      var key := Key(row, kind, n);
      NameAt(l'.contributors, row, kind, n);
      EnsuredAt(lc, project, kind, current, years, key);
      if key in m {
        OldRowsAreCurrent(l, e, current, m, key);
      }
    }
  }

  /** A contributor of the kind that is left has a current name, or belongs to some other old row. */
  lemma OldRowsAreCurrent(l: Ledger, e: Edit, current: seq<string>, m: Contributors, key: Key)
    requires IdsIdentify(l) && IsEditOf(e, l.contributors, current)
    requires Complete(InOrder(|e.removed|), |e.removed|)
    requires RunChanges(l.contributors, e, InOrder(|e.removed|)) == Some(m)
    requires key in m && key.kind == e.kind
    ensures key.row < l.nextId && (key.row in e.ids ==> key.name in current)
  {
    OnlyCurrentNamesLeft(l.contributors, e, current, InOrder(|e.removed|), key);
    ChangesCommute(l.contributors, e, current, InOrder(|e.removed|));
    CleanedAt(l.contributors, m, e, Members(InOrder(|e.removed|)), key);
  }
}
