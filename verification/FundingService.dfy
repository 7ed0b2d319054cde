/**
 * The funding services as an object over the two tables
 * (src/plugins/projects/services/project-funding-sources-service.js and its base classes). A ghost
 * field records whether the tables have been sound after every single statement so far.
 */
module FundingServices {
  import opened Wrappers
  import opened JsMaps
  import opened FundingTables
  import opened ContributorCleanup
  import opened ContributorNames
  import opened YearSave
  import opened FundingOutcomes
  import YearInterleaving
  import SavedYears
  import Sorting

  // ---------- What the bulk operations do ----------

  function WithoutProject(l: Ledger, project: Project): Ledger {
    Ledger(map k | k in l.values && k.0 != project :: l.values[k], WithoutRows(l.contributors, RowsOf(l, project)), l.nextId)
  }

  lemma WithoutProjectExactly(l: Ledger, project: Project)
    ensures ProjectGone(l, WithoutProject(l, project), project)
  {
    forall id: RowId
      ensures id in RowsOf(l, project) <==> BelongsTo(l, project, id)
    {
      RowsBelong(l, project, id);
    }
  }

  predicate OutOfRange(k: (Project, Year), project: Project, start: Year, end: Year) {
    k.0 == project && (k.1 < start || k.1 > end)
  }

  function RowsOutOfRange(l: Ledger, project: Project, start: Year, end: Year): set<RowId> {
    set k | k in l.values && OutOfRange(k, project, start, end) :: l.values[k].id
  }

  function OutOfRangeCleared(l: Ledger, project: Project, start: Year, end: Year): Ledger {
    var ids := RowsOutOfRange(l, project, start, end);
    Ledger(WithCleared(l, ids).values, WithoutAmounts(l.contributors, ids), l.nextId)
  }

  /**
   * Exactly the project's years outside the range are emptied, amounts of contributors included; no row and no
   * contributor is removed and no flag changed.
   */
  ghost predicate ClearedExactly(l: Ledger, l': Ledger, project: Project, start: Year, end: Year) {
    && l'.values.Keys == l.values.Keys && l'.contributors.Keys == l.contributors.Keys
    && (forall k | k in l.values ::
          if k.0 == project && !(start <= k.1 <= end)
          then l'.values[k].id == l.values[k].id && l'.values[k].total == 0 && forall c :: 0 <= c < 14 ==> l'.values[k].columns[c] == None
          else l'.values[k] == l.values[k])
    && (forall c, k | c in l.contributors && k in l.values && l.values[k].id == c.row ::
          var was, now := l.contributors[c], l'.contributors[c];
          if k.0 == project && !(start <= k.1 <= end) then now == Contributor(None, was.secured, was.constrained) else now == was)
  }

  lemma OutOfRangeExactly(l: Ledger, project: Project, start: Year, end: Year)
    requires Sound(l)
    ensures ClearedExactly(l, OutOfRangeCleared(l, project, start, end), project, start, end)
  {
  }

  /**
   * The statements that deselecting funding sources runs side by side - nulling columns and deleting
   * contributors of a kind - give the same ledger in either order.
   */
  lemma DeselectionsCommute(l: Ledger, project: Project, nulled: set<nat>, others: set<nat>, kind: Kind, other: Kind)
    ensures WithNulled(WithNulled(l, project, nulled), project, others) == WithNulled(l, project, nulled + others)
    ensures WithNulled(WithNulled(l, project, nulled), project, others) == WithNulled(WithNulled(l, project, others), project, nulled)
    ensures RowsOf(WithNulled(l, project, nulled), project) == RowsOf(l, project)
    ensures var ids := RowsOf(l, project);
            WithoutKind(WithoutKind(l.contributors, ids, kind), ids, other) == WithoutKind(WithoutKind(l.contributors, ids, other), ids, kind)
  {
    NulledTwice(l, project, nulled, others);
    NulledTwice(l, project, others, nulled);
    assert nulled + others == others + nulled;
    RowsSurviveNulling(l, project, nulled);
  }

  lemma NulledTwice(l: Ledger, project: Project, nulled: set<nat>, others: set<nat>)
    ensures WithNulled(WithNulled(l, project, nulled), project, others) == WithNulled(l, project, nulled + others)
  {
    forall columns: Columns
      ensures Nulled(Nulled(columns, nulled), others) == Nulled(columns, nulled + others)
    {
    }
  }

  lemma RowsSurviveNulling(l: Ledger, project: Project, nulled: set<nat>)
    ensures RowsOf(WithNulled(l, project, nulled), project) == RowsOf(l, project)
  {
  }

  function NamesNotIn(names: seq<string>, excluded: set<string>): (r: seq<string>)
    ensures forall n :: n in r <==> n in names && n !in excluded
  {
    if names == [] then []
    else (if names[0] in excluded then [] else [names[0]]) + NamesNotIn(names[1..], excluded)
  }

  lemma {:induction false} NamesNotInDistinct(names: seq<string>, excluded: set<string>)
    requires Distinct(names)
    ensures Distinct(NamesNotIn(names, excluded))
  {
    if names != [] {
      NamesNotInDistinct(names[1..], excluded);
      assert names[0] !in names[1..];
    }
  }

  lemma DistinctPrepend(name: string, names: seq<string>)
    requires Distinct(names) && name !in names
    ensures Distinct([name] + names)
  {
  }

  lemma {:induction false} InsertKeepsDistinct(name: string, names: seq<string>, leq: (string, string) -> bool)
    requires Distinct(names) && name !in names
    ensures Distinct(Sorting.Insert(name, names, leq))
    ensures forall n :: n in Sorting.Insert(name, names, leq) <==> n in names || n == name
  {
    if names != [] {
      assert names == [names[0]] + names[1..];
      assert names[0] !in names[1..];
      if leq(name, names[0]) {
        DistinctPrepend(name, names);
      } else {
        InsertKeepsDistinct(name, names[1..], leq);
        DistinctPrepend(names[0], Sorting.Insert(name, names[1..], leq));
      }
    }
  }

  lemma {:induction false} SortedNames(names: seq<string>, leq: (string, string) -> bool)
    requires Distinct(names)
    ensures Distinct(Sorting.Sort(names, leq)) && forall n :: n in Sorting.Sort(names, leq) <==> n in names
  {
    if names != [] {
      SortedNames(names[1..], leq);
      assert names[0] !in names[1..];
      InsertKeepsDistinct(names[0], Sorting.Sort(names[1..], leq), leq);
    }
  }

  /** The changes from the i-th on, made in turn, turn m into end. */
  ghost predicate LeadsTo(m: Contributors, e: Edit, i: nat, end: Contributors)
    decreases |e.removed| - i
  {
    if i >= |e.removed| then m == end
    else Changed(m, e, i).Some? && LeadsTo(Changed(m, e, i).value, e, i + 1, end)
  }

  lemma NextLeadsTo(m: Contributors, e: Edit, i: nat, end: Contributors)
    requires i < |e.removed| && LeadsTo(m, e, i, end)
    ensures Changed(m, e, i).Some? && LeadsTo(Changed(m, e, i).value, e, i + 1, end)
  {
  }

  lemma NextInOrder(m0: Contributors, e: Edit, current: seq<string>, i: nat, m: Contributors)
    requires IsEditOf(e, m0, current) && i < |e.removed|
    requires Below(InOrder(i), |e.removed|) && RunChanges(m0, e, InOrder(i)) == Some(m)
    ensures Below(InOrder(i + 1), |e.removed|)
    ensures Changed(m, e, i).Some? && RunChanges(m0, e, InOrder(i + 1)) == Changed(m, e, i)
  {
    InOrderComplete(i);
    ChangesCommute(m0, e, current, InOrder(i));
    ChangeCleans(m0, m, e, current, Members(InOrder(i)), i);
    InOrderComplete(i + 1);
    InOrderPrefix(i);
  }

  lemma {:induction false} LeadsToInOrder(m0: Contributors, e: Edit, current: seq<string>, i: nat, m: Contributors)
    requires IsEditOf(e, m0, current) && i <= |e.removed|
    requires Below(InOrder(i), |e.removed|) && RunChanges(m0, e, InOrder(i)) == Some(m)
    ensures Below(InOrder(|e.removed|), |e.removed|)
    ensures var r := RunChanges(m0, e, InOrder(|e.removed|)); r.Some? && LeadsTo(m, e, i, r.value)
    decreases |e.removed| - i
  {
    if i < |e.removed| {
      NextInOrder(m0, e, current, i, m);
      LeadsToInOrder(m0, e, current, i + 1, Changed(m, e, i).value);
    }
  }

  class FundingService {
    var db: Ledger

    /** The tables were sound at the start and have been so after every single statement since. */
    ghost var sound: bool

    ghost predicate Valid()
      reads this
    {
      sound ==> Sound(db)
    }

    constructor (l: Ledger)
      ensures Valid() && db == l && sound == Sound(l)
    {
      db := l;
      sound := Sound(l);
    }

    method Execute(s: Statement) returns (ok: bool)
      requires Valid()
      modifies this
      ensures Valid() && ok == Exec(old(db), s).Some?
      ensures db == Exec(old(db), s).GetOr(old(db))
      ensures sound == (old(sound) && Sound(db))
    {
      var next := Exec(db, s);
      if next.None? {
        return false;
      }
      db := next.value;
      sound := sound && Sound(db);
      return true;
    }

    /** A statement that is safe on a sound ledger leaves it sound. */
    method ExecuteSafely(s: Statement)
      requires Valid() && Exec(db, s).Some?
      modifies this
      ensures Valid() && Some(db) == Exec(old(db), s)
      ensures old(sound) && Safe(old(db), s) ==> sound
    {
      if Sound(db) && Safe(db, s) {
        SafeKeepsSound(db, s);
      }
      var _ := Execute(s);
    }

    method UpsertFundingValue(project: Project, year: Year, columns: Columns, total: int) returns (id: RowId)
      requires Valid()
      modifies this
      ensures db == Upserted(old(db), project, year, columns, total)
      ensures id == SavedYears.IdFor(old(db), (project, year)) && db.contributors == old(db).contributors
      ensures db.values == old(db).values[(project, year) := FundingValue(id, columns, total)]
      ensures Valid() && (old(sound) && total == SumColumns(columns) ==> sound)
    {
      ExecuteSafely(UpsertValue(project, year, columns, total));
      id := db.values[(project, year)].id;
    }

    method DeleteFundingValueWithContributors(project: Project, year: Year)
      requires Valid()
      modifies this
      ensures db == WithoutYear(old(db), project, year)
      ensures IdsIdentify(old(db)) ==> YearGone(old(db), db, project, year)
      ensures Valid() && (old(sound) ==> sound)
    {
      if (project, year) !in db.values {
        return;
      }
      var id := db.values[(project, year)].id;
      ExecuteSafely(DeleteContributors({id}));
      ExecuteSafely(DeleteValues({id}));
    }

    method DeleteAllFundingData(project: Project)
      requires IdsIdentify(db)
      requires Valid()
      modifies this
      ensures db == WithoutProject(old(db), project) && ProjectGone(old(db), db, project)
      ensures Valid() && (old(sound) ==> sound)
    {
      var ids := RowsOf(db, project);
      ExecuteSafely(DeleteContributors(ids));
      ExecuteSafely(DeleteValues(ids));
      assert forall k | k in old(db).values :: old(db).values[k].id in ids <==> k.0 == project;
      WithoutProjectExactly(old(db), project);
    }

    method ClearOutOfRangeFundingData(project: Project, start: Year, end: Year)
      requires Valid()
      modifies this
      ensures db == OutOfRangeCleared(old(db), project, start, end)
      ensures old(sound) ==> ClearedExactly(old(db), db, project, start, end)
      ensures Valid() && (old(sound) ==> sound)
    {
      ClearRange(project, start, end);
      if old(sound) {
        OutOfRangeExactly(old(db), project, start, end);
      }
    }

    /** The two statements, if there is anything to clear. */
    method ClearRange(project: Project, start: Year, end: Year)
      requires Valid()
      modifies this
      ensures db == OutOfRangeCleared(old(db), project, start, end)
      ensures Valid() && (old(sound) ==> sound)
    {
      var ids := RowsOutOfRange(db, project, start, end);
      if ids == {} {
        return;
      }
      ExecuteSafely(ClearValues(ids));
      ExecuteSafely(ClearContributors(ids));
    }

    /** Fields that are not amount columns are ignored; with none left there is no statement. */
    method NullSpecificFundingColumns(project: Project, fields: set<nat>)
      requires Valid()
      modifies this
      ensures var nulled := set f | f in fields && f < COLUMN_COUNT;
              if nulled == {} then db == old(db) else db == WithNulled(old(db), project, nulled) && ColumnsGone(old(db), db, project, fields)
      ensures Valid() && (old(sound) ==> sound)
    {
      var nulled := set f | f in fields && f < COLUMN_COUNT;
      if nulled == {} {
        return;
      }
      ExecuteSafely(NullColumns(project, nulled));
      WithNulledExactly(old(db), project, nulled);
    }

    method NullAdditionalGiaColumns(project: Project)
      requires Valid()
      modifies this
      ensures db == WithNulled(old(db), project, ADDITIONAL_GIA_COLUMNS)
      ensures ColumnsGone(old(db), db, project, {7, 8, 9, 10, 11, 12, 13})
      ensures Valid() && (old(sound) ==> sound)
    {
      ExecuteSafely(NullColumns(project, ADDITIONAL_GIA_COLUMNS));
      WithNulledExactly(old(db), project, ADDITIONAL_GIA_COLUMNS);
    }

    method DeleteContributorsByType(project: Project, kind: Kind)
      requires Valid()
      modifies this
      ensures db == old(db).(contributors := WithoutKind(old(db).contributors, RowsOf(old(db), project), kind))
      ensures KindGone(old(db), db, project, kind)
      ensures Valid() && (old(sound) ==> sound)
    {
      ExecuteSafely(DeleteKind(RowsOf(db, project), kind));
      WithoutKindExactly(old(db), project, kind);
    }

    /** The names in the table, in the order the database happens to give them. */
    method DistinctNames(ids: set<RowId>, kind: Kind) returns (names: seq<string>)
      ensures Distinct(names) && forall n :: n in names <==> n in NamesIn(db.contributors, ids, kind)
    {
      names := [];
      var left := NamesIn(db.contributors, ids, kind);
      while left != {}
        invariant Distinct(names)
        invariant left <= NamesIn(db.contributors, ids, kind)
        invariant forall n :: n in names <==> n in NamesIn(db.contributors, ids, kind) && n !in left
        decreases left
      {
        var n :| n in left;
        names := names + [n];
        left := left - {n};
      }
    }

    /** The removed and the added names, each sorted, as the clean-up computes them. */
    method ContributorNameChanges(ids: set<RowId>, kind: Kind, current: seq<string>, leq: (string, string) -> bool)
      returns (e: Edit)
      ensures e.ids == ids && e.kind == kind
      ensures Distinct(current) ==> IsEditOf(e, db.contributors, current)
      ensures Sorting.TotalPreorder(leq) ==> InOrderOf(e, leq)
    {
      var rows := DistinctNames(ids, kind);
      SortedNames(rows, leq);
      var existing := Sorting.Sort(rows, leq);
      var removed := NamesNotIn(existing, set n | n in current);
      NamesNotInDistinct(existing, set n | n in current);
      SortedNames(removed, leq);
      var added := NamesNotIn(current, set n | n in existing);
      if Distinct(current) {
        NamesNotInDistinct(current, set n | n in existing);
        SortedNames(added, leq);
      }
      e := Edit(ids, kind, Sorting.Sort(removed, leq), Sorting.Sort(added, leq));
      if Sorting.TotalPreorder(leq) {
        Sorting.SortSorts(removed, leq);
        Sorting.SortSorts(added, leq);
      }
    }

    /** The changes in the order of issue; one that is refused does not stop the others. */
    method ApplyContributorNameChanges(e: Edit) returns (ok: bool)
      requires Valid()
      modifies this
      ensures forall end :: LeadsTo(old(db).contributors, e, 0, end) ==> ok && db == old(db).(contributors := end)
      ensures Valid() && (old(sound) ==> sound)
    {
      ghost var l0 := db;
      var i := 0;
      ok := true;
      while i < |e.removed|
        invariant 0 <= i <= |e.removed|
        invariant Valid() && (old(sound) ==> sound)
        invariant db.values == l0.values && db.nextId == l0.nextId
        invariant forall end :: LeadsTo(l0.contributors, e, 0, end) ==> ok && LeadsTo(db.contributors, e, i, end)
      {
        forall end | LeadsTo(db.contributors, e, i, end)
          ensures Changed(db.contributors, e, i).Some? && LeadsTo(Changed(db.contributors, e, i).value, e, i + 1, end)
        {
          NextLeadsTo(db.contributors, e, i, end);
        }
        var done := ExecuteChange(e, i);
        ok := ok && done;
        i := i + 1;
      }
    }

    method ExecuteChange(e: Edit, i: nat) returns (done: bool)
      requires Valid() && i < |e.removed|
      modifies this
      ensures Some(db.contributors) == if done then Changed(old(db).contributors, e, i) else Some(old(db).contributors)
      ensures done == Changed(old(db).contributors, e, i).Some?
      ensures db.values == old(db).values && db.nextId == old(db).nextId
      ensures Valid() && (old(sound) ==> sound)
    {
      ExecChange(db, e, i);
      if Sound(db) && Exec(db, Change(e, i)).Some? {
        SafeKeepsSound(db, Change(e, i));
      }
      done := Execute(Change(e, i));
    }

    /**
     * With distinct names - which validation guarantees - no statement is refused, and the table is
     * what the changes of an edit make of it; `leq` is the comparison used to sort names.
     */
    method CleanupContributorsByName(project: Project, kind: Kind, current: seq<string>, leq: (string, string) -> bool)
      returns (ok: bool, ghost e: Edit)
      requires Valid()
      modifies this
      ensures Distinct(current) ==> ok
      ensures current == [] && RowsOf(old(db), project) != {} ==>
                && db == old(db).(contributors := WithoutKind(old(db).contributors, RowsOf(old(db), project), kind))
                && KindGone(old(db), db, project, kind)
      ensures current != [] && RowsOf(old(db), project) != {} && Distinct(current) ==>
                db.values == old(db).values && NamesMoved(old(db).contributors, db.contributors, e)
      ensures current != [] && RowsOf(old(db), project) != {} && Sorting.TotalPreorder(leq) ==> InOrderOf(e, leq)
      ensures current != [] && RowsOf(old(db), project) != {} && Distinct(current) ==>
                && e.kind == kind && EditsLedger(e, old(db), project, current)
                && Complete(InOrder(|e.removed|), |e.removed|) && CleanedUp(old(db), e) == Some(db)
      ensures RowsOf(old(db), project) == {} ==> db == old(db)
      ensures Valid() && (old(sound) ==> sound)
    {
      var ids := RowsOf(db, project);
      e := Edit(ids, kind, [], []);
      if ids == {} {
        return true, e;
      }
      if current == [] {
        ExecuteSafely(DeleteKind(ids, kind));
        WithoutKindExactly(old(db), project, kind);
        return true, e;
      }
      var edit := ContributorNameChanges(ids, kind, current, leq);
      e := edit;
      if Distinct(current) {
        LeadsToInOrder(db.contributors, e, current, 0, db.contributors);
        InOrderComplete(|e.removed|);
        CleanupMoves(db.contributors, e, current, InOrder(|e.removed|));
      }
      ok := ApplyContributorNameChanges(edit);
    }

    /** The years given by the caller when both are there, else those stored with the project. */
    method EnsureContributorFundingRows(project: Project, kind: Kind, names: seq<string>,
                                        given: (Option<Year>, Option<Year>), stored: (Option<Year>, Option<Year>))
      requires Valid()
      modifies this
      ensures db == match FinancialYears(given, stored)
                    case None => old(db)
                    case Some((start, end)) => Ensured(old(db), project, kind, names, Years(start, end))
      ensures FinancialYears(given, stored).Some? ==>
                var (start, end) := FinancialYears(given, stored).value; PlaceholdersStand(old(db), db, project, kind, names, start, end)
      ensures Valid() && (old(sound) ==> sound)
    {
      match FinancialYears(given, stored)
      case None =>
      case Some((start, end)) =>
        PersistContributorRows(project, Years(start, end), kind, names);
        EnsuredExactly(old(db), project, kind, names, start, end);
    }

    /** The two statements that skip what is already there. */
    method PersistContributorRows(project: Project, years: seq<Year>, kind: Kind, names: seq<string>)
      requires Valid()
      modifies this
      ensures db == Ensured(old(db), project, kind, names, years)
      ensures Valid() && (old(sound) ==> sound)
    {
      ExecuteSafely(CreateMissingValues(project, years));
      var ids := YearRows(db, project, years);
      MissingValuesAdd(old(db), project, years);
      YearRowsStand(db, project, years);
      ExecuteSafely(CreateMissingContributors(ids, kind, names));
    }

    /** The upserts of a year in the order of the list, then the deletion of stale rows. */
    method SyncFundingContributorsForYear(id: RowId, wanted: seq<Wanted>)
      requires Valid()
      modifies this
      ensures db == old(db).(contributors := Synced(old(db).contributors, id, wanted))
      ensures Valid() && (old(sound) && HasRow(old(db), id) ==> sound)
    {
      var i := 0;
      while i < |wanted|
        invariant 0 <= i <= |wanted|
        invariant db == old(db).(contributors := UpsertAll(old(db).contributors, id, wanted[..i]))
        invariant Valid() && (old(sound) && HasRow(old(db), id) ==> sound)
      {
        assert wanted[..i + 1][..i] == wanted[..i];
        if old(sound) && HasRow(old(db), id) {
          RowStays(old(db), db, id);
        }
        ExecuteSafely(UpsertContributor(id, wanted[i].kind, wanted[i].name, wanted[i].amount));
        i := i + 1;
      }
      assert wanted[..i] == wanted;
      ExecuteSafely(DeleteStale(id, Names(wanted)));
    }

    method ProcessFundingValueRow(project: Project, row: Row)
      requires row.Valid()
      requires Valid()
      modifies this
      ensures db == SavedRow(old(db), project, row, AllWanted(row))
      ensures IdsIdentify(old(db)) ==> SavedYears.SavesYear(old(db), db, (project, row.year), row)
      ensures Valid() && (old(sound) ==> sound)
    {
      var fields := Merged(row);
      if IdsIdentify(db) {
        SavedYears.SavedYearExactly(db, project, row);
      }
      if !HasAnyAmount(fields) {
        DeleteFundingValueWithContributors(project, row.year);
        return;
      }
      StoredTotal(fields);
      var id := UpsertFundingValue(project, row.year, ColumnsOf(fields), Number(TotalText(fields)));
      HasRowIn(db, id, (project, row.year));
      SyncFundingContributorsForYear(id, AllWanted(row));
    }

    /** The rows one by one, upserts in the order of the payload; YearInterleaving is about running them together. */
    method HandleFundingSourcesData(project: Project, rows: seq<Row>)
      requires forall i :: 0 <= i < |rows| ==> rows[i].Valid()
      requires Valid()
      modifies this
      ensures db == YearInterleaving.SaveAll(old(db), project, rows, PayloadOrders(rows))
      ensures IdsIdentify(old(db)) && YearInterleaving.DistinctYears(rows) ==>
                forall i :: 0 <= i < |rows| ==> SavedYears.YearHolds(old(db), db, (project, rows[i].year), rows[i])
      ensures IdsIdentify(old(db)) ==>
                forall k: YearInterleaving.YearKey | k.0 != project || (forall i :: 0 <= i < |rows| ==> rows[i].year != k.1) ::
                  YearInterleaving.SameYear(old(db), db, k)
      ensures Valid() && (old(sound) ==> sound)
    {
      var i := 0;
      while i < |rows|
        invariant 0 <= i <= |rows|
        invariant db == YearInterleaving.SaveAll(old(db), project, rows[..i], PayloadOrders(rows[..i]))
        invariant Valid() && (old(sound) ==> sound)
      {
        assert rows[..i + 1][..i] == rows[..i];
        assert PayloadOrders(rows[..i + 1])[..i] == PayloadOrders(rows[..i]);
        ProcessFundingValueRow(project, rows[i]);
        i := i + 1;
      }
      assert rows[..i] == rows;
      if IdsIdentify(old(db)) {
        AllRowsSaved(old(db), project, rows);
      }
    }
  }

  /** Each row's upserts in the order of its lists. */
  function PayloadOrders(rows: seq<Row>): (orders: seq<seq<Wanted>>)
    ensures |orders| == |rows|
  {
    seq(|rows|, i requires 0 <= i < |rows| => AllWanted(rows[i]))
  }

  /** Each submitted year holds what its row says, and the other years stand. */
  lemma AllRowsSaved(l: Ledger, project: Project, rows: seq<Row>)
    requires IdsIdentify(l) && YearInterleaving.AllValid(rows)
    ensures var l' := YearInterleaving.SaveAll(l, project, rows, PayloadOrders(rows));
            && (YearInterleaving.DistinctYears(rows) ==>
                  forall i :: 0 <= i < |rows| ==> SavedYears.YearHolds(l, l', (project, rows[i].year), rows[i]))
            && forall k: YearInterleaving.YearKey | k.0 != project || (forall i :: 0 <= i < |rows| ==> rows[i].year != k.1) ::
                 YearInterleaving.SameYear(l, l', k)
  {
    if YearInterleaving.DistinctYears(rows) {
      forall i | 0 <= i < |rows|
        ensures SavedYears.YearHolds(l, YearInterleaving.SaveAll(l, project, rows, PayloadOrders(rows)), (project, rows[i].year), rows[i])
      {
        SavedYears.SavedYearsExactly(l, project, rows, PayloadOrders(rows), i);
      }
    }
    forall k: YearInterleaving.YearKey | k.0 != project || (forall i :: 0 <= i < |rows| ==> rows[i].year != k.1)
      ensures YearInterleaving.SameYear(l, YearInterleaving.SaveAll(l, project, rows, PayloadOrders(rows)), k)
    {
      YearInterleaving.SaveAllSkips(l, project, rows, PayloadOrders(rows), k);
    }
  }

  lemma YearRowsStand(l: Ledger, project: Project, years: seq<Year>)
    ensures AllHaveRows(l, YearRows(l, project, years))
    ensures IdsIdentify(l) ==> AllBelow(YearRows(l, project, years), l.nextId)
  {
  }

  lemma RowStays(l: Ledger, l': Ledger, id: RowId)
    requires HasRow(l, id) && IdsIdentify(l) && l'.values == l.values && l'.nextId == l.nextId
    ensures HasRow(l', id) && id < l'.nextId
  {
  }

  /** _resolveFinancialYears: a stored year of zero counts as missing, a given one does not. */
  function FinancialYears(given: (Option<Year>, Option<Year>), stored: (Option<Year>, Option<Year>)): Option<(Year, Year)> {
    if given.0.Some? && given.1.Some? then Some((given.0.value, given.1.value))
    else if stored.0.GetOr(0) == 0 || stored.1.GetOr(0) == 0 then None
    else Some((stored.0.value, stored.1.value))
  }

  /** The years used are the given ones when both are there; else the stored ones when neither is missing or zero. */
  lemma YearsResolved(given: (Option<Year>, Option<Year>), stored: (Option<Year>, Option<Year>), start: Year, end: Year)
    ensures FinancialYears(given, stored) == Some((start, end)) <==>
            || given == (Some(start), Some(end))
            || ((given.0 == None || given.1 == None) && stored == (Some(start), Some(end)) && start != 0 && end != 0)
    ensures FinancialYears(given, stored) == None <==>
            (given.0 == None || given.1 == None) && !(exists s, e :: stored == (Some(s), Some(e)) && s != 0 && e != 0)
  {
  }
}
