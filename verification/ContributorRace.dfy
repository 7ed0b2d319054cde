/**
 * The clean-up and the ensure step of one save are started together
 * (src/plugins/projects/upsert-project/upsert-project.js:173-191, whose comment calls them safe to run
 * in parallel). Here is exactly when their order makes no difference, and when a rename is refused.
 */
module ContributorRace {
  import opened Wrappers
  import opened FundingTables
  import opened ContributorCleanup
  import opened ContributorNames

  /** What both orders work on: a ledger, the list being saved and the project's years. */
  datatype Save = Save(ledger: Ledger, project: Project, kind: Kind, current: seq<string>, years: seq<Year>) {
    ghost predicate Valid() {
      IdsIdentify(ledger) && current != []
    }

    function Ensure(l: Ledger): Ledger {
      Ensured(l, project, kind, current, years)
    }

    /** The rows of the listed years once they all exist. */
    function Placing(): set<RowId> {
      YearRows(WithMissingValues(ledger, project, years), project, years)
    }

    ghost predicate Edits(e: Edit, l: Ledger) {
      && e.kind == kind && EditsLedger(e, l, project, current)
      && Complete(InOrder(|e.removed|), |e.removed|) && CleanedUp(l, e).Some?
    }
  }

  /** No clean-up the code computes is refused on its own. */
  lemma EditsExist(s: Save, e: Edit, l: Ledger)
    requires e.kind == s.kind && EditsLedger(e, l, s.project, s.current)
    ensures s.Edits(e, l)
  {
    InOrderComplete(|e.removed|);
    OrderIsIrrelevant(l.contributors, e, s.current, InOrder(|e.removed|));
  }

  /** Clean up first: a renamed row keeps its data, and placeholders fill the gaps. */
  lemma CleanupFirst(s: Save, e: Edit, key: Key)
    requires s.Valid() && s.Edits(e, s.ledger)
    ensures var l, l' := s.ledger, s.Ensure(CleanedUp(s.ledger, e).value);
            var source := Source(e, Members(InOrder(|e.removed|)), key);
            var cleaned := source.Some? && source.value in l.contributors;
            var placed := key.row in s.Placing() && key.kind == s.kind && key.name in s.current;
            && (key in l'.contributors <==> cleaned || placed)
            && (key in l'.contributors ==>
                  l'.contributors[key] == if cleaned then l.contributors[source.value] else PLACEHOLDER)
  {
    var lc := CleanedUp(s.ledger, e).value;
    SameValues(s.ledger, lc, s.project, s.years);
    EnsuredAt(lc, s.project, s.kind, s.current, s.years, key);
    ChangesCommute(s.ledger.contributors, e, s.current, InOrder(|e.removed|));
    CleanedAt(s.ledger.contributors, lc.contributors, e, Members(InOrder(|e.removed|)), key);
  }

  /** Ensure first: every current name is there already, so the clean-up only deletes. */
  lemma EditAfterEnsure(s: Save, e: Edit, e2: Edit)
    requires s.Valid() && s.years != [] && s.Edits(e, s.ledger) && s.Edits(e2, s.Ensure(s.ledger))
    ensures e2.added == [] && forall n :: n in e2.removed <==> n in e.removed
  {
    var m, l1 := s.ledger.contributors, s.Ensure(s.ledger);
    assert |e2.added| > 0 ==> e2.added[0] in e2.added;
    forall n: string
      ensures n in NamesIn(l1.contributors, e2.ids, s.kind) <==> n in NamesIn(m, e.ids, s.kind) || n in s.current
    {
      NamesAfterEnsure(s, e, e2, n);
    }
  }

  lemma NamesAfterEnsure(s: Save, e: Edit, e2: Edit, n: string)
    requires s.Valid() && s.years != [] && s.Edits(e, s.ledger) && s.Edits(e2, s.Ensure(s.ledger))
    ensures n in NamesIn(s.Ensure(s.ledger).contributors, e2.ids, s.kind) <==>
            n in NamesIn(s.ledger.contributors, e.ids, s.kind) || n in s.current
  {
    var l, l1 := s.ledger, s.Ensure(s.ledger);
    if n in NamesIn(l1.contributors, e2.ids, s.kind) {
      var key :| key in l1.contributors && key.row in e2.ids && key.kind == s.kind && key.name == n;
      EnsuredAt(l, s.project, s.kind, s.current, s.years, key);
      EnsuredRow(l, s.project, s.years, key.row);
      if key in l.contributors {
        assert key.row in e.ids;
      }
    }
    if n in NamesIn(l.contributors, e.ids, s.kind) {
      var key :| key in l.contributors && key.row in e.ids && key.kind == s.kind && key.name == n;
      EnsuredAt(l, s.project, s.kind, s.current, s.years, key);
      EnsuredRow(l, s.project, s.years, key.row);
      assert key in l1.contributors && key.row in e2.ids;
    }
    if n in s.current {
      MissingValuesAdd(l, s.project, s.years);
      var row := l1.values[(s.project, s.years[0])].id;
      assert row in YearRows(l1, s.project, s.years);
      var key := Key(row, s.kind, n);
      EnsuredAt(l, s.project, s.kind, s.current, s.years, key);
      EnsuredRow(l, s.project, s.years, row);
      assert key in l1.contributors && key.row in e2.ids;
    }
  }

  lemma EnsureFirst(s: Save, e: Edit, e2: Edit, key: Key)
    requires s.Valid() && s.years != [] && s.Edits(e, s.ledger) && s.Edits(e2, s.Ensure(s.ledger))
    ensures var l, l' := s.ledger, CleanedUp(s.Ensure(s.ledger), e2).value;
            var placed := key.row in s.Placing() && key.kind == s.kind && key.name in s.current;
            && (key in l'.contributors <==>
                  (key in l.contributors || placed) && (e2.Covers(key) ==> key.name in s.current))
            && (key in l'.contributors ==>
                  l'.contributors[key] == if key in l.contributors then l.contributors[key] else PLACEHOLDER)
  {
    var l1 := s.Ensure(s.ledger);
    EnsuredAt(s.ledger, s.project, s.kind, s.current, s.years, key);
    EditAfterEnsure(s, e, e2);
    var order := InOrder(|e2.removed|);
    ChangesCommute(l1.contributors, e2, s.current, order);
    CleanedAt(l1.contributors, CleanedUp(l1, e2).value.contributors, e2, Members(order), key);
    OnlyCurrentNamesLeft(l1.contributors, e2, s.current, order, key);
  }

  /** The row with this key is one that the clean-up renames when it goes first. */
  ghost predicate IsRenamed(s: Save, e: Edit, i: nat, id: RowId) {
    i < |e.removed| && i < |e.added| && id in e.ids && Key(id, e.kind, e.removed[i]) in s.ledger.contributors
  }

  /** Renaming it or deleting it and placing a new row comes to the same. */
  ghost predicate Expendable(s: Save, e: Edit, i: nat, id: RowId)
    requires IsRenamed(s, e, i, id)
  {
    id in s.Placing() && s.ledger.contributors[Key(id, e.kind, e.removed[i])] == PLACEHOLDER
  }

  lemma AgreeAt(s: Save, e: Edit, e2: Edit, key: Key)
    requires s.Valid() && s.years != [] && s.Edits(e, s.ledger) && s.Edits(e2, s.Ensure(s.ledger))
    requires forall i: nat, id: RowId | IsRenamed(s, e, i, id) :: Expendable(s, e, i, id)
    ensures var a, b := s.Ensure(CleanedUp(s.ledger, e).value).contributors, CleanedUp(s.Ensure(s.ledger), e2).value.contributors;
            (key in a <==> key in b) && (key in a ==> a[key] == b[key])
  {
    CleanupFirst(s, e, key);
    EnsureFirst(s, e, e2, key);
    EnsuredRow(s.ledger, s.project, s.years, key.row);
    var m := s.ledger.contributors;
    var r, a := IndexOf(e.removed, key.name), IndexOf(e.added, key.name);
    assert r >= 0 ==> r in InOrder(|e.removed|);
    if e.Covers(key) {
      assert key in m ==> key.name in NamesIn(m, e.ids, e.kind);
      if 0 <= a < |e.removed| && Key(key.row, e.kind, e.removed[a]) in m {
        assert a in InOrder(|e.removed|);
        assert IsRenamed(s, e, a, key.row);
        assert Expendable(s, e, a, key.row);
      }
    }
  }

  /**
   * Clean-up and ensure give the same ledger in either order if and only if there are no years or every row the
   * clean-up would rename lies in one of the listed years and carries no data. In all other cases the amounts
   * and flags of the renamed rows survive only when the clean-up goes first.
   */
  lemma OrderMattersExactlyWhen(s: Save, e: Edit, e2: Edit)
    requires s.Valid() && s.Edits(e, s.ledger) && s.Edits(e2, s.Ensure(s.ledger))
    requires s.Ensure(s.ledger) == s.ledger ==> e2 == e
    ensures s.Ensure(CleanedUp(s.ledger, e).value) == CleanedUp(s.Ensure(s.ledger), e2).value <==>
            s.years == [] || forall i: nat, id: RowId | IsRenamed(s, e, i, id) :: Expendable(s, e, i, id)
  {
    var a, b := s.Ensure(CleanedUp(s.ledger, e).value), CleanedUp(s.Ensure(s.ledger), e2).value;
    if s.years == [] {
      NothingToEnsure(s, s.ledger);
      NothingToEnsure(s, CleanedUp(s.ledger, e).value);
    } else if forall i: nat, id: RowId | IsRenamed(s, e, i, id) :: Expendable(s, e, i, id) {
      SameValues(s.ledger, CleanedUp(s.ledger, e).value, s.project, s.years);
      forall key: Key
        ensures (key in a.contributors <==> key in b.contributors) &&
                (key in a.contributors ==> a.contributors[key] == b.contributors[key])
      {
        AgreeAt(s, e, e2, key);
      }
      assert a.contributors == b.contributors;
    } else {
      var i: nat, id: RowId :| IsRenamed(s, e, i, id) && !Expendable(s, e, i, id);
      DifferAt(s, e, e2, i, id);
    }
  }

  lemma NothingToEnsure(s: Save, l: Ledger)
    requires s.years == []
    ensures s.Ensure(l) == l
  {
  }

  lemma DifferAt(s: Save, e: Edit, e2: Edit, i: nat, id: RowId)
    requires s.Valid() && s.years != [] && s.Edits(e, s.ledger) && s.Edits(e2, s.Ensure(s.ledger))
    requires IsRenamed(s, e, i, id) && !Expendable(s, e, i, id)
    ensures s.Ensure(CleanedUp(s.ledger, e).value) != CleanedUp(s.Ensure(s.ledger), e2).value
  {
    var key := Key(id, e.kind, e.added[i]);
    var a, b := s.Ensure(CleanedUp(s.ledger, e).value).contributors, CleanedUp(s.Ensure(s.ledger), e2).value.contributors;
    CleanupFirst(s, e, key);
    EnsureFirst(s, e, e2, key);
    RenamedSource(s, e, i, id);
    assert key in a && a[key] == s.ledger.contributors[Key(id, e.kind, e.removed[i])];
    assert key in b ==> id in s.Placing() && b[key] == PLACEHOLDER;
  }

  lemma RenamedSource(s: Save, e: Edit, i: nat, id: RowId)
    requires s.Valid() && s.Edits(e, s.ledger) && IsRenamed(s, e, i, id)
    ensures var key := Key(id, e.kind, e.added[i]);
            && Source(e, Members(InOrder(|e.removed|)), key) == Some(Key(id, e.kind, e.removed[i]))
            && key !in s.ledger.contributors
  {
    var key := Key(id, e.kind, e.added[i]);
    IndexOfDistinct(e.added, i);
    assert i in InOrder(|e.removed|);
    assert e.added[i] in e.added;
    assert key in s.ledger.contributors ==> key.name in NamesIn(s.ledger.contributors, e.ids, e.kind);
  }

  /**
   * When the ensure step slips in between the clean-up's look at the names and its statements, the
   * database refuses a rename exactly when some row of a listed year bears the old name.
   */
  lemma LateRenameRefused(s: Save, e: Edit, i: nat)
    requires s.Valid() && s.Edits(e, s.ledger) && i < |e.removed| && i < |e.added|
    ensures Exec(s.Ensure(s.ledger), Change(e, i)) == None <==>
            exists id :: IsRenamed(s, e, i, id) && id in s.Placing()
  {
    var l1 := s.Ensure(s.ledger);
    forall id | id in e.ids
      ensures Key(id, e.kind, e.removed[i]) in l1.contributors <==> IsRenamed(s, e, i, id)
      ensures Key(id, e.kind, e.added[i]) in l1.contributors <==> id in s.Placing()
    {
      LateCell(s, e, i, id);
    }
    assert e.removed[i] in e.removed && e.added[i] in e.added;
    assert Exec(l1, Change(e, i)) == None <==> Collides(l1.contributors, e.ids, e.kind, e.removed[i], e.added[i]);
  }

  lemma LateCell(s: Save, e: Edit, i: nat, id: RowId)
    requires s.Valid() && s.Edits(e, s.ledger) && i < |e.removed| && i < |e.added| && id in e.ids
    ensures Key(id, e.kind, e.removed[i]) in s.Ensure(s.ledger).contributors <==> IsRenamed(s, e, i, id)
    ensures Key(id, e.kind, e.added[i]) in s.Ensure(s.ledger).contributors <==> id in s.Placing()
  {
    var r, a := e.removed[i], e.added[i];
    assert r in e.removed && a in e.added;
    EnsuredAt(s.ledger, s.project, s.kind, s.current, s.years, Key(id, e.kind, r));
    EnsuredAt(s.ledger, s.project, s.kind, s.current, s.years, Key(id, e.kind, a));
    assert Key(id, e.kind, a) in s.ledger.contributors ==> a in NamesIn(s.ledger.contributors, e.ids, e.kind);
  }

  // ---------- One renamed contributor ----------

  /** One year with one contributor, which is given another name. */
  function OneContributor(c: Contributor): Save {
    Save(Ledger(map[(1, 2025) := FundingValue(0, NO_AMOUNTS, 0)], map[Key(0, PublicContributions, "old") := c], 1),
         1, PublicContributions, ["new"], [2025])
  }

  const RENAME := Edit({0}, PublicContributions, ["old"], ["new"])
  const DELETE := Edit({0}, PublicContributions, ["old"], [])

  lemma NamesDiffer()
    ensures "old" != "new"
  {
    assert "old"[0] != "new"[0];
  }

  lemma OneContributorNames(s: Save, c: Contributor)
    requires s == OneContributor(c)
    ensures NamesIn(s.ledger.contributors, {0}, PublicContributions) == {"old"}
    ensures NamesIn(s.Ensure(s.ledger).contributors, {0}, PublicContributions) == {"old", "new"}
  {
    OneContributorRows(s, c);
    var m, m1 := s.ledger.contributors, s.Ensure(s.ledger).contributors;
    assert Key(0, PublicContributions, "old") in m;
    assert NamesIn(m, {0}, PublicContributions) == {"old"};
    forall n: string
      ensures n in NamesIn(m1, {0}, PublicContributions) <==> n == "old" || n == "new"
    {
      EnsuredAt(s.ledger, 1, s.kind, s.current, s.years, Key(0, PublicContributions, n));
      if n in NamesIn(m1, {0}, PublicContributions) {
        assert Key(0, PublicContributions, n) in m1;
      }
      if n == "old" || n == "new" {
        assert Key(0, PublicContributions, n) in m1;
      }
    }
  }

  lemma OneContributorRows(s: Save, c: Contributor)
    requires s == OneContributor(c)
    ensures RowsOf(s.ledger, 1) == {0} && RowsOf(s.Ensure(s.ledger), 1) == {0} && s.Placing() == {0}
    ensures YearRows(s.Ensure(s.ledger), 1, s.years) == {0}
  {
    assert (1, 2025) in s.ledger.values;
    assert s.years[1..] == [];
    assert WithMissingValues(s.ledger, 1, s.years) == s.ledger;
  }

  /** The edits that the clean-up computes before and after the ensure step. */
  lemma OneContributorEdits(s: Save, c: Contributor)
    requires s == OneContributor(c)
    ensures s.Valid() && s.Edits(RENAME, s.ledger) && s.Edits(DELETE, s.Ensure(s.ledger))
  {
    NamesDiffer();
    OneContributorRows(s, c);
    OneContributorNames(s, c);
    EditsExist(s, RENAME, s.ledger);
    EditsExist(s, DELETE, s.Ensure(s.ledger));
  }

  lemma OneContributorRenamed(s: Save, c: Contributor)
    requires s == OneContributor(c) && s.Valid() && s.Edits(RENAME, s.ledger)
    ensures IsRenamed(s, RENAME, 0, 0) && 0 in s.Placing()
    ensures forall i: nat, id: RowId :: IsRenamed(s, RENAME, i, id) ==> i == 0 && id == 0
  {
    OneContributorRows(s, c);
  }

  /** Whatever the contributor carries, a rename after the ensure step is refused. */
  lemma OneRenameRefused(c: Contributor)
    ensures var s := OneContributor(c);
            && s.Valid() && s.Edits(RENAME, s.ledger)
            && Exec(s.Ensure(s.ledger), Change(RENAME, 0)) == None
  {
    var s := OneContributor(c);
    OneContributorEdits(s, c);
    OneContributorRenamed(s, c);
    LateRenameRefused(s, RENAME, 0);
  }

  /** And with an amount: cleaned up first it survives, ensured first it is lost. */
  lemma RenamedAmountLost(c: Contributor)
    requires c != PLACEHOLDER
    ensures var s := OneContributor(c);
            && s.Valid() && s.Edits(RENAME, s.ledger) && s.Edits(DELETE, s.Ensure(s.ledger))
            && var a, b := s.Ensure(CleanedUp(s.ledger, RENAME).value).contributors, CleanedUp(s.Ensure(s.ledger), DELETE).value.contributors;
               var key := Key(0, PublicContributions, "new");
               key in a && a[key] == c && key in b && b[key] == PLACEHOLDER
  {
    var s, key := OneContributor(c), Key(0, PublicContributions, "new");
    OneContributorEdits(s, c);
    OneContributorRenamed(s, c);
    RenamedSource(s, RENAME, 0, 0);
    CleanupFirst(s, RENAME, key);
    EnsureFirst(s, RENAME, DELETE, key);
  }

  /** Without one, the two whole orders agree, and still the rename is refused in between. */
  lemma PlaceholderRenameRefused()
    ensures var s := OneContributor(PLACEHOLDER);
            && s.Valid() && s.Edits(RENAME, s.ledger) && s.Edits(DELETE, s.Ensure(s.ledger))
            && s.Ensure(CleanedUp(s.ledger, RENAME).value) == CleanedUp(s.Ensure(s.ledger), DELETE).value
            && Exec(s.Ensure(s.ledger), Change(RENAME, 0)) == None
  {
    var s := OneContributor(PLACEHOLDER);
    OneContributorEdits(s, PLACEHOLDER);
    OneContributorRenamed(s, PLACEHOLDER);
    OneRenameRefused(PLACEHOLDER);
    EnsureAddsName(s, PLACEHOLDER);
    OrderMattersExactlyWhen(s, RENAME, DELETE);
  }

  lemma EnsureAddsName(s: Save, c: Contributor)
    requires s == OneContributor(c)
    ensures s.Ensure(s.ledger) != s.ledger
  {
    NamesDiffer();
    OneContributorNames(s, c);
    assert "new" in NamesIn(s.Ensure(s.ledger).contributors, {0}, PublicContributions);
    assert "new" !in {"old"};
  }
}
