/**
 * What each funding operation leaves in the two tables, row by row
 * (src/plugins/projects/services/project-funding-sources-service.js and the contributor services it
 * extends).
 */
module FundingOutcomes {
  import opened Wrappers
  import opened JsMaps
  import opened FundingTables
  import opened ContributorCleanup
  import opened ContributorNames
  import Sorting
  import SavedYears

  ghost predicate BelongsTo(l: Ledger, project: Project, id: RowId) {
    exists year :: (project, year) in l.values && l.values[(project, year)].id == id
  }

  lemma RowsBelong(l: Ledger, project: Project, id: RowId)
    ensures id in RowsOf(l, project) <==> BelongsTo(l, project, id)
  {
    if id in RowsOf(l, project) {
      var k :| k in l.values && k.0 == project && l.values[k].id == id;
      var year := k.1;
      assert k == (project, year);
      assert (project, year) in l.values && l.values[(project, year)].id == id;
    }
    if BelongsTo(l, project, id) {
      var year :| (project, year) in l.values && l.values[(project, year)].id == id;
      var k := (project, year);
      assert k in l.values && k.0 == project && l.values[k].id == id;
    }
  }

  /** Keys at which the two tables differ in nothing. */
  ghost predicate SameAt<K, V>(a: map<K, V>, b: map<K, V>, k: K) {
    (k in a <==> k in b) && (k in a ==> a[k] == b[k])
  }

  // ---------- Deletions ----------

  /** The year and its contributors are gone, everything else stands. */
  ghost predicate YearGone(l: Ledger, l': Ledger, project: Project, year: Year) {
    && (forall k :: if k == (project, year) then k !in l'.values else SameAt(l.values, l'.values, k))
    && (forall key: Key :: if (project, year) in l.values && key.row == l.values[(project, year)].id
                           then key !in l'.contributors else SameAt(l.contributors, l'.contributors, key))
  }

  /** Every year of the project and every contributor of those years is gone, everything else stands. */
  ghost predicate ProjectGone(l: Ledger, l': Ledger, project: Project) {
    && (forall k: (Project, Year) :: if k.0 == project then k !in l'.values else SameAt(l.values, l'.values, k))
    && (forall key: Key :: if BelongsTo(l, project, key.row) then key !in l'.contributors
                           else SameAt(l.contributors, l'.contributors, key))
  }

  /** The project's contributors of one kind are gone, everything else stands. */
  ghost predicate KindGone(l: Ledger, l': Ledger, project: Project, kind: Kind) {
    && l'.values == l.values
    && (forall key: Key :: if key.kind == kind && BelongsTo(l, project, key.row) then key !in l'.contributors
                           else SameAt(l.contributors, l'.contributors, key))
  }

  lemma WithoutKindExactly(l: Ledger, project: Project, kind: Kind)
    ensures KindGone(l, l.(contributors := WithoutKind(l.contributors, RowsOf(l, project), kind)), project, kind)
  {
    forall id: RowId
      ensures id in RowsOf(l, project) <==> BelongsTo(l, project, id)
    {
      RowsBelong(l, project, id);
    }
  }

  // ---------- Nulled columns ----------

  /** These columns of the project are empty, the others stand, and each total is the sum of what is left. */
  ghost predicate ColumnsGone(l: Ledger, l': Ledger, project: Project, columns: set<nat>) {
    && l'.contributors == l.contributors && l'.values.Keys == l.values.Keys
    && (forall k | k in l.values && k.0 != project :: l'.values[k] == l.values[k])
    && (forall k | k in l.values && k.0 == project ::
          && l'.values[k].id == l.values[k].id && l'.values[k].total == SavedYears.SumOf(l'.values[k].columns)
          && forall c :: 0 <= c < 14 ==> l'.values[k].columns[c] == if c in columns then None else l.values[k].columns[c])
  }

  lemma WithNulledExactly(l: Ledger, project: Project, columns: set<nat>)
    ensures ColumnsGone(l, WithNulled(l, project, columns), project, columns)
  {
    forall k | k in l.values && k.0 == project
      ensures SumColumns(Nulled(l.values[k].columns, columns)) == SavedYears.SumOf(Nulled(l.values[k].columns, columns))
    {
      SavedYears.SumOfColumns(Nulled(l.values[k].columns, columns));
    }
  }

  // ---------- Names ----------

  /**
   * What becomes of the contributors when names are edited: the one under the i-th removed name stands under
   * the i-th added name, with its amount and flags, or is gone when there is no i-th added name.
   */
  ghost predicate NamesMoved(before: Contributors, after: Contributors, e: Edit) {
    && (forall key: Key | key.row !in e.ids || key.kind != e.kind :: SameAt(before, after, key))
    && (forall id, name | id in e.ids && name !in e.removed && name !in e.added ::
          SameAt(before, after, Key(id, e.kind, name)))
    && (forall id, i | id in e.ids && 0 <= i < |e.removed| :: Moved(before, after, e, id, i))
    && (forall id, i | id in e.ids && |e.removed| <= i < |e.added| :: Key(id, e.kind, e.added[i]) !in after)
  }

  ghost predicate Moved(before: Contributors, after: Contributors, e: Edit, id: RowId, i: nat)
    requires i < |e.removed|
  {
    var from := Key(id, e.kind, e.removed[i]);
    && from !in after
    && (i < |e.added| ==>
          var to := Key(id, e.kind, e.added[i]);
          (to in after <==> from in before) && (to in after ==> after[to] == before[from]))
  }

  lemma MovedExactly(m: Contributors, m': Contributors, e: Edit, current: seq<string>, done: set<nat>, id: RowId, i: nat)
    requires IsEditOf(e, m, current) && Cleaned(m, m', e, done) && id in e.ids && i < |e.removed| && i in done
    ensures Moved(m, m', e, id, i)
  {
    IndexOfDistinct(e.removed, i);
    CleanedAt(m, m', e, done, Key(id, e.kind, e.removed[i]));
    if i < |e.added| {
      IndexOfDistinct(e.added, i);
      assert e.added[i] in e.added;
      CleanedAt(m, m', e, done, Key(id, e.kind, e.added[i]));
    }
  }

  lemma FreshStaysAway(m: Contributors, m': Contributors, e: Edit, current: seq<string>, done: set<nat>, id: RowId, i: nat)
    requires IsEditOf(e, m, current) && Cleaned(m, m', e, done) && id in e.ids && |e.removed| <= i < |e.added|
    ensures Key(id, e.kind, e.added[i]) !in m'
  {
    var key := Key(id, e.kind, e.added[i]);
    IndexOfDistinct(e.added, i);
    assert e.added[i] in e.added;
    CleanedAt(m, m', e, done, key);
    assert key in m ==> key.name in NamesIn(m, e.ids, e.kind);
  }

  /** A clean-up moves exactly the contributors that its two lists pair. */
  lemma CleanupMoves(m: Contributors, e: Edit, current: seq<string>, order: seq<nat>)
    requires IsEditOf(e, m, current) && Complete(order, |e.removed|)
    ensures RunChanges(m, e, order).Some? && NamesMoved(m, RunChanges(m, e, order).value, e)
  {
    ChangesCommute(m, e, current, order);
    var m', done := RunChanges(m, e, order).value, Members(order);
    forall key: Key | key.row !in e.ids || key.kind != e.kind || (key.name !in e.removed && key.name !in e.added)
      ensures SameAt(m, m', key)
    {
      CleanedAt(m, m', e, done, key);
    }
    forall id, i | id in e.ids && 0 <= i < |e.removed|
      ensures Moved(m, m', e, id, i)
    {
      MovedExactly(m, m', e, current, done, id, i);
    }
    forall id, i | id in e.ids && |e.removed| <= i < |e.added|
      ensures Key(id, e.kind, e.added[i]) !in m'
    {
      FreshStaysAway(m, m', e, current, done, id, i);
    }
  }

  /** The two lists of an edit in sorted order. */
  ghost predicate InOrderOf(e: Edit, leq: (string, string) -> bool) {
    Sorting.Sorted(e.removed, leq) && Sorting.Sorted(e.added, leq)
  }

  lemma {:induction false} EachNameOnce(names: seq<string>, name: string)
    requires Distinct(names)
    ensures multiset(names)[name] == if name in names then 1 else 0
  {
    if names != [] {
      assert names == [names[0]] + names[1..];
      assert names[0] !in names[1..];
      EachNameOnce(names[1..], name);
    }
  }

  lemma SameNamesSameCount(a: seq<string>, b: seq<string>)
    requires Distinct(a) && Distinct(b) && forall n :: n in a <==> n in b
    ensures multiset(a) == multiset(b)
  {
    forall n: string
      ensures multiset(a)[n] == multiset(b)[n]
    {
      EachNameOnce(a, n);
      EachNameOnce(b, n);
    }
  }

  /** Where the order has no ties the lists, and so the pairing, are settled by the tables and the payload. */
  lemma PairingIsSettled(a: Edit, b: Edit, m: Contributors, current: seq<string>, leq: (string, string) -> bool)
    requires a.ids == b.ids && a.kind == b.kind && IsEditOf(a, m, current) && IsEditOf(b, m, current)
    requires Sorting.Antisymmetric(leq) && InOrderOf(a, leq) && InOrderOf(b, leq)
    ensures a == b
  {
    SameNamesSameCount(a.removed, b.removed);
    SameNamesSameCount(a.added, b.added);
    Sorting.SortedUnique(a.removed, b.removed, leq);
    Sorting.SortedUnique(a.added, b.added, leq);
  }

  // ---------- Placeholders ----------

  /**
   * Every year from start to end has a row, an empty one where there was none, and in it a contributor of each
   * name, a placeholder where there was none; all that was there stands.
   */
  ghost predicate PlaceholdersStand(l: Ledger, l': Ledger, project: Project, kind: Kind, names: seq<string>, start: Year, end: Year) {
    && (forall k: (Project, Year) :: k in l'.values <==> k in l.values || (k.0 == project && start <= k.1 <= end))
    && (forall k | k in l'.values ::
          if k in l.values then l'.values[k] == l.values[k]
          else (forall c :: 0 <= c < 14 ==> l'.values[k].columns[c] == None) && l'.values[k].total == 0 && l.nextId <= l'.values[k].id)
    && (forall key: Key :: key in l'.contributors <==>
          key in l.contributors || (key.kind == kind && key.name in names && InYears(l', project, key.row, start, end)))
    && (forall key | key in l'.contributors ::
          l'.contributors[key] == if key in l.contributors then l.contributors[key] else Contributor(None, false, false))
  }

  ghost predicate InYears(l: Ledger, project: Project, id: RowId, start: Year, end: Year) {
    exists year :: start <= year <= end && (project, year) in l.values && l.values[(project, year)].id == id
  }

  lemma EnsuredExactly(l: Ledger, project: Project, kind: Kind, names: seq<string>, start: Year, end: Year)
    ensures PlaceholdersStand(l, Ensured(l, project, kind, names, Years(start, end)), project, kind, names, start, end)
  {
    var years := Years(start, end);
    var l' := Ensured(l, project, kind, names, years);
    MissingValuesAdd(l, project, years);
    NewIdsAreNew(l, project, years);
    forall key: Key
      ensures key in l'.contributors <==>
              key in l.contributors || (key.kind == kind && key.name in names && InYears(l', project, key.row, start, end))
      ensures key in l'.contributors ==>
                l'.contributors[key] == if key in l.contributors then l.contributors[key] else Contributor(None, false, false)
    {
      EnsuredAt(l, project, kind, names, years, key);
      assert key.row in YearRows(l', project, years) <==> InYears(l', project, key.row, start, end);
    }
  }
}
