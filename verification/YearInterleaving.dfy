/**
 * All submitted rows are processed at the same time (handleFundingSourcesData in
 * src/plugins/projects/helpers/funding-sources-normalizers.js). Each row is a task; between two of
 * its database statements any statements of other rows may run.
 */
module YearInterleaving {
  import opened Wrappers
  import opened FundingTables
  import opened YearSave

  type YearKey = (Project, Year)

  // ---------- What belongs to one year, whatever its row id ----------

  predicate SameCell(a: Contributors, i: RowId, b: Contributors, j: RowId, kind: Kind, name: string) {
    && (Key(i, kind, name) in a <==> Key(j, kind, name) in b)
    && (Key(i, kind, name) in a ==> a[Key(i, kind, name)] == b[Key(j, kind, name)])
  }

  ghost predicate SameCells(a: Contributors, i: RowId, b: Contributors, j: RowId) {
    forall kind: Kind, name: string :: SameCell(a, i, b, j, kind, name)
  }

  /** The two ledgers agree on this year: same amounts, same total, same contributors. */
  ghost predicate SameYear(a: Ledger, b: Ledger, k: YearKey) {
    && (k in a.values <==> k in b.values)
    && (k in a.values ==>
          && a.values[k].columns == b.values[k].columns && a.values[k].total == b.values[k].total
          && SameCells(a.contributors, a.values[k].id, b.contributors, b.values[k].id))
  }

  lemma SameYearTransitive(a: Ledger, b: Ledger, c: Ledger, k: YearKey)
    requires SameYear(a, b, k) && SameYear(b, c, k)
    ensures SameYear(a, c, k)
  {
    if k in a.values {
      forall kind: Kind, name: string
        ensures SameCell(a.contributors, a.values[k].id, c.contributors, c.values[k].id, kind, name)
      {
        assert SameCell(a.contributors, a.values[k].id, b.contributors, b.values[k].id, kind, name);
        assert SameCell(b.contributors, b.values[k].id, c.contributors, c.values[k].id, kind, name);
      }
    }
  }

  lemma SameYearSymmetric(a: Ledger, b: Ledger, k: YearKey)
    requires SameYear(a, b, k)
    ensures SameYear(b, a, k)
  {
    if k in a.values {
      forall kind: Kind, name: string
        ensures SameCell(b.contributors, b.values[k].id, a.contributors, a.values[k].id, kind, name)
      {
        assert SameCell(a.contributors, a.values[k].id, b.contributors, b.values[k].id, kind, name);
      }
    }
  }

  /** Nothing but the year `k` and the contributors of its row `id` has changed. */
  ghost predicate Touches(l: Ledger, l': Ledger, k: YearKey, id: RowId) {
    && (forall k' | k' != k :: (k' in l.values <==> k' in l'.values) && (k' in l.values ==> l'.values[k'] == l.values[k']))
    && (forall c: Key | c.row != id ::
          (c in l.contributors <==> c in l'.contributors) && (c in l.contributors ==> l'.contributors[c] == l.contributors[c]))
  }

  lemma TouchesOthersNot(l: Ledger, l': Ledger, k: YearKey, id: RowId, other: YearKey)
    requires Touches(l, l', k, id) && other != k
    requires other in l.values ==> l.values[other].id != id
    ensures SameYear(l, l', other)
  {
  }

  // ---------- The tasks ----------

  /** `made` are the upserts of a row that have run, in their order; `pending` those still to run. */
  datatype Task =
    | Waiting
    | DeletingContributors(id: RowId)
    | DeletingValue(id: RowId)
    | Syncing(id: RowId, made: seq<Wanted>, pending: multiset<Wanted>)
    | Done(made: seq<Wanted>)

  /** The submitted rows of one project, each with its task. */
  datatype State = State(ledger: Ledger, project: Project, rows: seq<Row>, tasks: seq<Task>) {
    predicate Valid() {
      |tasks| == |rows| && AllValid(rows)
    }

    function YearOf(i: nat): YearKey
      requires i < |rows|
    {
      (project, rows[i].year)
    }
  }

  predicate AllValid(rows: seq<Row>) {
    forall i :: 0 <= i < |rows| ==> rows[i].Valid()
  }

  predicate HasAmounts(row: Row)
    requires row.Valid()
  {
    HasAnyAmount(Merged(row))
  }

  /** Start and Proceed run a row's next statement; Upsert runs one of those issued together. */
  datatype Move = Start(row: nat) | Proceed(row: nat) | Upsert(row: nat, wanted: Wanted)

  predicate Enabled(s: State, move: Move)
    requires s.Valid()
  {
    && move.row < |s.rows|
    && match move
       case Start(i) => s.tasks[i].Waiting?
       case Proceed(i) =>
         || s.tasks[i].DeletingContributors? || s.tasks[i].DeletingValue?
         || (s.tasks[i].Syncing? && s.tasks[i].pending == multiset{})
       case Upsert(i, w) => s.tasks[i].Syncing? && w in s.tasks[i].pending
  }

  /** The statement of a move; a row that has no amounts, and nothing stored, needs none. */
  function StatementOf(s: State, move: Move): Option<Statement>
    requires s.Valid() && Enabled(s, move)
  {
    var row := s.rows[move.row];
    match move
    case Start(_) =>
      if HasAmounts(row)
      then Some(UpsertValue(s.project, row.year, ColumnsOf(Merged(row)), Number(TotalText(Merged(row)))))
      else None
    case Proceed(i) =>
      (match s.tasks[i]
       case DeletingContributors(id) => Some(DeleteContributors({id}))
       case DeletingValue(id) => Some(DeleteValues({id}))
       case Syncing(id, _, _) => Some(DeleteStale(id, Names(AllWanted(row)))))
    case Upsert(i, w) => Some(UpsertContributor(s.tasks[i].id, w.kind, w.name, w.amount))
  }

  function After(s: State, move: Move): Ledger
    requires s.Valid() && Enabled(s, move)
  {
    match StatementOf(s, move)
    case None => s.ledger
    case Some(statement) => Exec(s.ledger, statement).value
  }

  function NextTask(s: State, move: Move): Task
    requires s.Valid() && Enabled(s, move)
  {
    var row, k, l := s.rows[move.row], s.YearOf(move.row), s.ledger;
    match move
    case Start(_) =>
      if HasAmounts(row) then Syncing(After(s, move).values[k].id, [], multiset(AllWanted(row)))
      else if k in l.values then DeletingContributors(l.values[k].id)
      else Done([])
    case Proceed(i) =>
      (match s.tasks[i]
       case DeletingContributors(id) => DeletingValue(id)
       case DeletingValue(_) => Done([])
       case Syncing(_, made, _) => Done(made))
    case Upsert(i, w) => Syncing(s.tasks[i].id, s.tasks[i].made + [w], s.tasks[i].pending - multiset{w})
  }

  function Apply(s: State, move: Move): (s': State)
    requires s.Valid() && Enabled(s, move)
    ensures s'.Valid() && s'.rows == s.rows && s'.project == s.project
  {
    State(After(s, move), s.project, s.rows, s.tasks[move.row := NextTask(s, move)])
  }

  // ---------- How far each row has come ----------

  function RowIdAt(l: Ledger, k: YearKey): Option<RowId> {
    if k in l.values then Some(l.values[k].id) else None
  }

  /** The id that the year's row has, or would be given next. */
  function RowIdOrNext(l: Ledger, k: YearKey): RowId {
    RowIdAt(l, k).GetOr(l.nextId)
  }

  ghost predicate RowStands(l: Ledger, k: YearKey, id: RowId) {
    k in l.values && l.values[k].id == id
  }

  predicate RowIsEmpty(m: Contributors, id: RowId) {
    forall c | c in m :: c.row != id
  }

  predicate ValueSaved(v: FundingValue, row: Row)
    requires row.Valid()
  {
    v.columns == ColumnsOf(Merged(row)) && v.total == Number(TotalText(Merged(row)))
  }

  /** The contributors of the row `id` are what the upserts of `made` make of the year's in `start`. */
  ghost predicate PartlySynced(start: Ledger, l: Ledger, k: YearKey, id: RowId, made: seq<Wanted>) {
    SameCells(UpsertAll(start.contributors, RowIdOrNext(start, k), made), RowIdOrNext(start, k), l.contributors, id)
  }

  ghost predicate PartlySaved(start: Ledger, l: Ledger, k: YearKey, row: Row, id: RowId, made: seq<Wanted>,
                              pending: multiset<Wanted>)
    requires row.Valid()
  {
    && HasAmounts(row) && RowStands(l, k, id) && ValueSaved(l.values[k], row)
    && multiset(made) + pending == multiset(AllWanted(row))
    && PartlySynced(start, l, k, id, made)
  }

  /** The year `k` of the ledger, against what it was in `start` and what its row's task has done since. */
  ghost predicate Progress(start: Ledger, l: Ledger, k: YearKey, row: Row, task: Task)
    requires row.Valid()
  {
    match task
    case Waiting => SameYear(start, l, k)
    case DeletingContributors(id) => !HasAmounts(row) && SameYear(start, l, k) && RowStands(l, k, id)
    case DeletingValue(id) =>
      !HasAmounts(row) && k in start.values && RowStands(l, k, id) && RowIsEmpty(l.contributors, id)
    case Syncing(id, made, pending) => PartlySaved(start, l, k, row, id, made, pending)
    case Done(made) =>
      (HasAmounts(row) ==> multiset(made) == multiset(AllWanted(row))) && SameYear(SavedRow(start, k.0, row, made), l, k)
  }

  ghost predicate DistinctYears(rows: seq<Row>) {
    forall i, j :: 0 <= i < j < |rows| ==> rows[i].year != rows[j].year
  }

  ghost predicate Submitted(rows: seq<Row>, y: Year) {
    exists i :: 0 <= i < |rows| && rows[i].year == y
  }

  ghost predicate Inv(start: Ledger, s: State)
    requires s.Valid()
  {
    && Sound(s.ledger)
    && (forall i :: 0 <= i < |s.rows| ==> Progress(start, s.ledger, s.YearOf(i), s.rows[i], s.tasks[i]))
    && (forall k: YearKey | !(k.0 == s.project && Submitted(s.rows, k.1)) :: SameYear(start, s.ledger, k))
  }

  // ---------- Each statement is safe and touches one year ----------

  /** The row a move works on: the one its task remembers, the year's own, or the one about to be made. */
  function RowOfMove(s: State, move: Move): RowId
    requires s.Valid() && Enabled(s, move)
  {
    match s.tasks[move.row]
    case DeletingContributors(id) => id
    case DeletingValue(id) => id
    case Syncing(id, _, _) => id
    case _ => RowIdOrNext(s.ledger, s.YearOf(move.row))
  }

  lemma UpsertValueTouches(l: Ledger, k: YearKey, columns: Columns, total: int)
    ensures Touches(l, Upserted(l, k.0, k.1, columns, total), k, RowIdOrNext(l, k))
  {
  }

  lemma RowStatementTouches(l: Ledger, k: YearKey, id: RowId, statement: Statement)
    requires IdsIdentify(l) && RowStands(l, k, id) && Exec(l, statement).Some?
    requires
      || statement == DeleteContributors({id})
      || statement == DeleteValues({id})
      || (statement.UpsertContributor? && statement.row == id)
      || (statement.DeleteStale? && statement.row == id)
    ensures Touches(l, Exec(l, statement).value, k, id)
  {
  }

  /** A task that remembers a row id remembers the one its year has. */
  lemma TaskRowStands(start: Ledger, s: State, i: nat)
    requires s.Valid() && Inv(start, s) && i < |s.tasks|
    requires s.tasks[i].DeletingContributors? || s.tasks[i].DeletingValue? || s.tasks[i].Syncing?
    ensures RowStands(s.ledger, s.YearOf(i), s.tasks[i].id)
  {
    assert Progress(start, s.ledger, s.YearOf(i), s.rows[i], s.tasks[i]);
  }

  lemma MoveTouches(start: Ledger, s: State, move: Move)
    requires s.Valid() && Enabled(s, move) && Inv(start, s)
    ensures Touches(s.ledger, After(s, move), s.YearOf(move.row), RowOfMove(s, move))
  {
    match move
    case Start(i) => StartTouches(s, i);
    case _ =>
      TaskRowStands(start, s, move.row);
      LaterMoveTouches(s, move);
  }

  lemma StartTouches(s: State, i: nat)
    requires s.Valid() && Enabled(s, Start(i))
    ensures Touches(s.ledger, After(s, Start(i)), s.YearOf(i), RowOfMove(s, Start(i)))
  {
    var statement := StatementOf(s, Start(i));
    if statement.Some? {
      UpsertValueTouches(s.ledger, s.YearOf(i), statement.value.columns, statement.value.total);
    }
  }

  lemma LaterMoveTouches(s: State, move: Move)
    requires s.Valid() && Enabled(s, move) && !move.Start? && IdsIdentify(s.ledger)
    requires RowStands(s.ledger, s.YearOf(move.row), RowOfMove(s, move))
    ensures Touches(s.ledger, After(s, move), s.YearOf(move.row), RowOfMove(s, move))
  {
    RowStatementTouches(s.ledger, s.YearOf(move.row), RowOfMove(s, move), StatementOf(s, move).value);
  }

  lemma MoveIsSafe(start: Ledger, s: State, move: Move)
    requires s.Valid() && Enabled(s, move) && Inv(start, s)
    ensures Sound(After(s, move))
  {
    var k := s.YearOf(move.row);
    assert Progress(start, s.ledger, k, s.rows[move.row], s.tasks[move.row]);
    StoredTotal(Merged(s.rows[move.row]));
    if StatementOf(s, move).Some? {
      var statement := StatementOf(s, move).value;
      if statement.UpsertContributor? {
        HasRowIn(s.ledger, statement.row, k);
      }
      assert Safe(s.ledger, statement);
      SafeKeepsSound(s.ledger, statement);
    }
  }

  // ---------- A move keeps the progress of the other years ----------

  lemma OtherYearKept(start: Ledger, l: Ledger, l': Ledger, k: YearKey, id: RowId, other: YearKey, row: Row, task: Task)
    requires row.Valid() && Progress(start, l, other, row, task)
    requires Touches(l, l', k, id) && other != k && (other in l.values ==> l.values[other].id != id)
    ensures Progress(start, l', other, row, task)
  {
    TouchesOthersNot(l, l', k, id, other);
    match task
    case Waiting => SameYearTransitive(start, l, l', other);
    case DeletingContributors(_) => SameYearTransitive(start, l, l', other);
    case DeletingValue(_) =>
    case Syncing(rowId, made, _) =>
      var base := RowIdOrNext(start, other);
      CellsKept(UpsertAll(start.contributors, base, made), base, l.contributors, l'.contributors, rowId);
    case Done(made) => SameYearTransitive(SavedRow(start, other.0, row, made), l, l', other);
  }

  lemma CellsKept(m0: Contributors, base: RowId, m: Contributors, m': Contributors, id: RowId)
    requires SameCells(m0, base, m, id)
    requires forall c: Key | c.row == id :: (c in m <==> c in m') && (c in m ==> m'[c] == m[c])
    ensures SameCells(m0, base, m', id)
  {
    forall kind: Kind, name: string
      ensures SameCell(m0, base, m', id, kind, name)
    {
      assert SameCell(m0, base, m, id, kind, name);
    }
  }

  // ---------- A move advances its own row ----------

  lemma StartAdvances(start: Ledger, s: State, i: nat)
    requires IdsIdentify(start) && s.Valid() && Enabled(s, Start(i)) && Inv(start, s)
    ensures Progress(start, After(s, Start(i)), s.YearOf(i), s.rows[i], NextTask(s, Start(i)))
  {
    var k, row, l, l' := s.YearOf(i), s.rows[i], s.ledger, After(s, Start(i));
    assert Progress(start, l, k, row, Waiting);
    if HasAmounts(row) {
      var id := l'.values[k].id;
      assert UpsertAll(start.contributors, RowIdOrNext(start, k), []) == start.contributors;
      forall kind: Kind, name: string
        ensures SameCell(start.contributors, RowIdOrNext(start, k), l'.contributors, id, kind, name)
      {
        if k in l.values {
          assert SameCell(start.contributors, start.values[k].id, l.contributors, id, kind, name);
        } else {
          assert Key(id, kind, name) !in l.contributors && Key(start.nextId, kind, name) !in start.contributors;
        }
      }
    }
  }

  lemma DeletionAdvances(start: Ledger, s: State, i: nat)
    requires s.Valid() && Enabled(s, Proceed(i)) && Inv(start, s) && !s.tasks[i].Syncing?
    ensures Progress(start, After(s, Proceed(i)), s.YearOf(i), s.rows[i], NextTask(s, Proceed(i)))
  {
    var k := s.YearOf(i);
    assert Progress(start, s.ledger, k, s.rows[i], s.tasks[i]);
  }

  lemma UpsertedCells(m0: Contributors, base: RowId, made: seq<Wanted>, m: Contributors, id: RowId, w: Wanted)
    requires SameCells(UpsertAll(m0, base, made), base, m, id)
    ensures SameCells(UpsertAll(m0, base, made + [w]), base, WithAmount(m, Key(id, w.kind, w.name), w.amount), id)
  {
    assert (made + [w])[..|made|] == made;
    var before := UpsertAll(m0, base, made);
    assert UpsertAll(m0, base, made + [w]) == WithAmount(before, Key(base, w.kind, w.name), w.amount);
    forall kind: Kind, name: string
      ensures SameCell(UpsertAll(m0, base, made + [w]), base, WithAmount(m, Key(id, w.kind, w.name), w.amount), id, kind, name)
    {
      assert SameCell(before, base, m, id, kind, name);
      assert SameCell(before, base, m, id, w.kind, w.name);
    }
  }

  lemma UpsertAdvances(start: Ledger, s: State, i: nat, w: Wanted)
    requires s.Valid() && Enabled(s, Upsert(i, w)) && Inv(start, s)
    ensures Progress(start, After(s, Upsert(i, w)), s.YearOf(i), s.rows[i], NextTask(s, Upsert(i, w)))
  {
    var task := s.tasks[i];
    assert Progress(start, s.ledger, s.YearOf(i), s.rows[i], task);
    UpsertedYear(start, s.ledger, s.YearOf(i), s.rows[i], task.id, task.made, task.pending, w);
  }

  lemma UpsertedYear(start: Ledger, l: Ledger, k: YearKey, row: Row, id: RowId, made: seq<Wanted>,
                     pending: multiset<Wanted>, w: Wanted)
    requires row.Valid() && w in pending && PartlySaved(start, l, k, row, id, made, pending)
    ensures PartlySaved(start, Exec(l, UpsertContributor(id, w.kind, w.name, w.amount)).value, k, row,
                        id, made + [w], pending - multiset{w})
  {
    var l', made', pending' := Exec(l, UpsertContributor(id, w.kind, w.name, w.amount)).value, made + [w], pending - multiset{w};
    MoveOver(made, pending, w);
    UpsertedPartly(start, l, k, id, made, w);
    assert RowStands(l', k, id) && ValueSaved(l'.values[k], row);
    assert multiset(made') + pending' == multiset(AllWanted(row));
    assert PartlySynced(start, l', k, id, made');
  }

  lemma UpsertedPartly(start: Ledger, l: Ledger, k: YearKey, id: RowId, made: seq<Wanted>, w: Wanted)
    requires PartlySynced(start, l, k, id, made)
    ensures PartlySynced(start, Exec(l, UpsertContributor(id, w.kind, w.name, w.amount)).value, k, id, made + [w])
  {
    UpsertedCells(start.contributors, RowIdOrNext(start, k), made, l.contributors, id, w);
  }

  lemma MoveOver(made: seq<Wanted>, pending: multiset<Wanted>, w: Wanted)
    requires w in pending
    ensures multiset(made + [w]) + (pending - multiset{w}) == multiset(made) + pending
  {
  }

  lemma SameNames(a: seq<Wanted>, b: seq<Wanted>)
    requires multiset(a) == multiset(b)
    ensures Names(a) == Names(b)
  {
    assert forall w :: w in a <==> w in multiset(a);
    assert forall w :: w in b <==> w in multiset(b);
  }

  lemma SyncAdvances(start: Ledger, s: State, i: nat)
    requires IdsIdentify(start) && s.Valid() && Enabled(s, Proceed(i)) && Inv(start, s) && s.tasks[i].Syncing?
    ensures Progress(start, After(s, Proceed(i)), s.YearOf(i), s.rows[i], NextTask(s, Proceed(i)))
  {
    var k, row, task := s.YearOf(i), s.rows[i], s.tasks[i];
    assert Progress(start, s.ledger, k, row, task);
    assert multiset(task.made) + multiset{} == multiset(task.made);
    SyncedYear(start, s.ledger, k, row, task.id, task.made);
  }

  /** When the upserts have run and the stale rows are deleted, the year is the saved one. */
  lemma SyncedYear(start: Ledger, l: Ledger, k: YearKey, row: Row, id: RowId, made: seq<Wanted>)
    requires row.Valid() && row.year == k.1 && HasAmounts(row) && multiset(made) == multiset(AllWanted(row))
    requires RowStands(l, k, id) && ValueSaved(l.values[k], row) && PartlySynced(start, l, k, id, made)
    ensures SameYear(SavedRow(start, k.0, row, made), Exec(l, DeleteStale(id, Names(AllWanted(row)))).value, k)
  {
    SameNames(made, AllWanted(row));
    var base := RowIdOrNext(start, k);
    var upserted := UpsertAll(start.contributors, base, made);
    forall kind: Kind, name: string
      ensures SameCell(Synced(start.contributors, base, made), base, WithoutStale(l.contributors, id, Names(made)), id, kind, name)
    {
      assert SameCell(upserted, base, l.contributors, id, kind, name);
    }
    var saved := SavedRow(start, k.0, row, made);
    assert saved.contributors == Synced(start.contributors, base, made) && saved.values[k].id == base;
  }

  lemma MoveAdvances(start: Ledger, s: State, move: Move)
    requires IdsIdentify(start) && s.Valid() && Enabled(s, move) && Inv(start, s)
    ensures Progress(start, After(s, move), s.YearOf(move.row), s.rows[move.row], NextTask(s, move))
  {
    match move
    case Start(i) => StartAdvances(start, s, i);
    case Proceed(i) =>
      if s.tasks[i].Syncing? {
        SyncAdvances(start, s, i);
      } else {
        DeletionAdvances(start, s, i);
      }
    case Upsert(i, w) => UpsertAdvances(start, s, i, w);
  }

  lemma MoveKeepsInv(start: Ledger, s: State, move: Move)
    requires IdsIdentify(start) && s.Valid() && Enabled(s, move) && DistinctYears(s.rows) && Inv(start, s)
    ensures Inv(start, Apply(s, move))
  {
    var s' := Apply(s, move);
    var k, id := s.YearOf(move.row), RowOfMove(s, move);
    MoveIsSafe(start, s, move);
    MoveTouches(start, s, move);
    MoveAdvances(start, s, move);
    assert Progress(start, s.ledger, k, s.rows[move.row], s.tasks[move.row]);
    assert forall other: YearKey | other != k && other in s.ledger.values :: s.ledger.values[other].id != id;
    forall i | 0 <= i < |s'.rows|
      ensures Progress(start, s'.ledger, s'.YearOf(i), s'.rows[i], s'.tasks[i])
    {
      if i != move.row {
        OtherYearKept(start, s.ledger, s'.ledger, k, id, s.YearOf(i), s.rows[i], s.tasks[i]);
      }
    }
    assert Submitted(s.rows, s.rows[move.row].year);
    forall other: YearKey | !(other.0 == s.project && Submitted(s.rows, other.1))
      ensures SameYear(start, s'.ledger, other)
    {
      TouchesOthersNot(s.ledger, s'.ledger, k, id, other);
      SameYearTransitive(start, s.ledger, s'.ledger, other);
    }
  }

  // ---------- Whole runs ----------

  predicate Possible(s: State, moves: seq<Move>)
    requires s.Valid()
    decreases moves
  {
    moves == [] || (Enabled(s, moves[0]) && Possible(Apply(s, moves[0]), moves[1..]))
  }

  function Run(s: State, moves: seq<Move>): (end: State)
    requires s.Valid() && Possible(s, moves)
    ensures end.Valid() && end.rows == s.rows && end.project == s.project
    decreases moves
  {
    if moves == [] then s else Run(Apply(s, moves[0]), moves[1..])
  }

  lemma {:induction false} RunKeepsInv(start: Ledger, s: State, moves: seq<Move>)
    requires IdsIdentify(start) && s.Valid() && DistinctYears(s.rows) && Inv(start, s) && Possible(s, moves)
    ensures Inv(start, Run(s, moves))
    decreases moves
  {
    if moves != [] {
      MoveKeepsInv(start, s, moves[0]);
      RunKeepsInv(start, Apply(s, moves[0]), moves[1..]);
    }
  }

  /** As long as a row is unfinished, one of its statements can run. */
  lemma NeverStuck(s: State, i: nat) returns (move: Move)
    requires s.Valid() && i < |s.tasks| && !s.tasks[i].Done?
    ensures Enabled(s, move) && move.row == i
  {
    match s.tasks[i]
    case Waiting => move := Start(i);
    case DeletingContributors(_) => move := Proceed(i);
    case DeletingValue(_) => move := Proceed(i);
    case Syncing(_, _, pending) =>
      if pending == multiset{} {
        move := Proceed(i);
      } else {
        var w :| w in pending;
        move := Upsert(i, w);
      }
  }

  // ---------- One row after the other ----------

  /** The rows saved one after the other, each with its upserts in the given order. */
  function SaveAll(l: Ledger, project: Project, rows: seq<Row>, orders: seq<seq<Wanted>>): Ledger
    requires AllValid(rows) && |orders| == |rows|
    decreases |rows|
  {
    if rows == [] then l
    else
      var n := |rows| - 1;
      SavedRow(SaveAll(l, project, rows[..n], orders[..n]), project, rows[n], orders[n])
  }

  lemma SavedRowTouches(l: Ledger, project: Project, row: Row, wanted: seq<Wanted>)
    requires IdsIdentify(l) && row.Valid()
    ensures var k := (project, row.year);
            var l' := SavedRow(l, project, row, wanted);
            IdsIdentify(l') && Touches(l, l', k, RowIdOrNext(l, k))
  {
    var k := (project, row.year);
    var id := RowIdOrNext(l, k);
    var l' := SavedRow(l, project, row, wanted);
    if HasAnyAmount(Merged(row)) {
      var l1 := Upserted(l, project, row.year, ColumnsOf(Merged(row)), Number(TotalText(Merged(row))));
      UpsertValueTouches(l, k, ColumnsOf(Merged(row)), Number(TotalText(Merged(row))));
      ExecKeepsIds(l, UpsertValue(project, row.year, ColumnsOf(Merged(row)), Number(TotalText(Merged(row)))));
      assert l1.contributors == l.contributors && l'.contributors == Synced(l.contributors, id, wanted);
      forall c: Key
        ensures c.row != id ==> (c in l.contributors <==> c in l'.contributors)
        ensures c.row != id && c in l.contributors ==> l'.contributors[c] == l.contributors[c]
      {
        SyncedExactly(l.contributors, id, wanted, c);
      }
      forall c | c in l'.contributors
        ensures c.row < l'.nextId
      {
        SyncedExactly(l.contributors, id, wanted, c);
      }
    }
  }

  /** What a saved year becomes depends on what that year was, and on nothing else. */
  lemma SavedRowLocal(a: Ledger, b: Ledger, project: Project, row: Row, wanted: seq<Wanted>)
    requires IdsIdentify(a) && IdsIdentify(b) && row.Valid() && SameYear(a, b, (project, row.year))
    ensures SameYear(SavedRow(a, project, row, wanted), SavedRow(b, project, row, wanted), (project, row.year))
  {
    var k := (project, row.year);
    if HasAnyAmount(Merged(row)) {
      var i, j := RowIdOrNext(a, k), RowIdOrNext(b, k);
      forall kind: Kind, name: string
        ensures SameCell(Synced(a.contributors, i, wanted), i, Synced(b.contributors, j, wanted), j, kind, name)
      {
        SyncedExactly(a.contributors, i, wanted, Key(i, kind, name));
        SyncedExactly(b.contributors, j, wanted, Key(j, kind, name));
        assert k in a.values ==> SameCell(a.contributors, i, b.contributors, j, kind, name);
      }
    }
  }

  /** Saving a row leaves every other year as it was. */
  lemma SavedRowKeepsOthers(l: Ledger, project: Project, row: Row, wanted: seq<Wanted>, k: YearKey)
    requires IdsIdentify(l) && row.Valid() && (project, row.year) != k
    ensures SameYear(l, SavedRow(l, project, row, wanted), k)
  {
    var own := (project, row.year);
    SavedRowTouches(l, project, row, wanted);
    TouchesOthersNot(l, SavedRow(l, project, row, wanted), own, RowIdOrNext(l, own), k);
  }

  lemma {:induction false} SaveAllKeepsIds(l: Ledger, project: Project, rows: seq<Row>, orders: seq<seq<Wanted>>)
    requires IdsIdentify(l) && AllValid(rows) && |orders| == |rows|
    ensures IdsIdentify(SaveAll(l, project, rows, orders))
    decreases |rows|
  {
    if rows != [] {
      var n := |rows| - 1;
      SaveAllKeepsIds(l, project, rows[..n], orders[..n]);
      SavedRowTouches(SaveAll(l, project, rows[..n], orders[..n]), project, rows[n], orders[n]);
    }
  }

  lemma {:induction false} SaveAllSkips(l: Ledger, project: Project, rows: seq<Row>, orders: seq<seq<Wanted>>, k: YearKey)
    requires IdsIdentify(l) && AllValid(rows) && |orders| == |rows|
    requires forall i :: 0 <= i < |rows| ==> (project, rows[i].year) != k
    ensures SameYear(l, SaveAll(l, project, rows, orders), k)
    decreases |rows|
  {
    if rows != [] {
      var n := |rows| - 1;
      var before := SaveAll(l, project, rows[..n], orders[..n]);
      SaveAllSkips(l, project, rows[..n], orders[..n], k);
      SaveAllKeepsIds(l, project, rows[..n], orders[..n]);
      SavedRowKeepsOthers(before, project, rows[n], orders[n], k);
      SameYearTransitive(l, before, SaveAll(l, project, rows, orders), k);
    }
  }

  /** Each row ends up as if it alone had been saved. */
  lemma {:induction false} SaveAllSaves(l: Ledger, project: Project, rows: seq<Row>, orders: seq<seq<Wanted>>, i: nat)
    requires IdsIdentify(l) && AllValid(rows) && DistinctYears(rows) && |orders| == |rows| && i < |rows|
    ensures SameYear(SavedRow(l, project, rows[i], orders[i]), SaveAll(l, project, rows, orders), (project, rows[i].year))
    decreases |rows|
  {
    var n, k := |rows| - 1, (project, rows[i].year);
    var rest, first := rows[..n], orders[..n];
    if i == n {
      SaveLast(l, project, rest, first, rows[n], orders[n]);
    } else {
      assert rest[i] == rows[i] && first[i] == orders[i];
      SaveAllSaves(l, project, rest, first, i);
      SaveNext(l, project, rest, first, rows[n], orders[n], SavedRow(l, project, rows[i], orders[i]), k);
    }
  }

  /** One more row leaves a year that is not its own what it was. */
  lemma SaveNext(l: Ledger, project: Project, rest: seq<Row>, orders: seq<seq<Wanted>>, row: Row, wanted: seq<Wanted>,
                 alone: Ledger, k: YearKey)
    requires IdsIdentify(l) && AllValid(rest) && row.Valid() && |orders| == |rest| && (project, row.year) != k
    requires SameYear(alone, SaveAll(l, project, rest, orders), k)
    ensures SameYear(alone, SavedRow(SaveAll(l, project, rest, orders), project, row, wanted), k)
  {
    var before := SaveAll(l, project, rest, orders);
    SaveAllKeepsIds(l, project, rest, orders);
    SavedRowKeepsOthers(before, project, row, wanted, k);
    SameYearTransitive(alone, before, SavedRow(before, project, row, wanted), k);
  }

  lemma SaveLast(l: Ledger, project: Project, rest: seq<Row>, orders: seq<seq<Wanted>>, row: Row, wanted: seq<Wanted>)
    requires IdsIdentify(l) && AllValid(rest) && row.Valid() && |orders| == |rest|
    requires forall i :: 0 <= i < |rest| ==> rest[i].year != row.year
    ensures SameYear(SavedRow(l, project, row, wanted),
                     SavedRow(SaveAll(l, project, rest, orders), project, row, wanted), (project, row.year))
  {
    SaveAllKeepsIds(l, project, rest, orders);
    SaveAllSkips(l, project, rest, orders, (project, row.year));
    SavedRowLocal(l, SaveAll(l, project, rest, orders), project, row, wanted);
  }

  predicate AllWaiting(s: State) {
    forall i :: 0 <= i < |s.tasks| ==> s.tasks[i] == Waiting
  }

  predicate AllDone(s: State) {
    forall i :: 0 <= i < |s.tasks| ==> s.tasks[i].Done?
  }

  /** The orders in which the upserts of the rows have run. */
  function OrdersOf(s: State): (orders: seq<seq<Wanted>>)
    requires AllDone(s)
    ensures |orders| == |s.tasks|
  {
    seq(|s.tasks|, i requires 0 <= i < |s.tasks| => s.tasks[i].made)
  }

  lemma StartKeepsInv(s: State)
    requires s.Valid() && Sound(s.ledger) && AllWaiting(s)
    ensures Inv(s.ledger, s)
  {
    forall k: YearKey
      ensures SameYear(s.ledger, s.ledger, k)
    {
    }
  }

  /**
   * However the statements of rows of distinct years interleave, the ledger is sound after each one; and once
   * all rows are done, every year of every project holds what it would hold had the rows been saved one
   * by one, each with its upserts in some order - the one in which they ran.
   */
  lemma EveryInterleavingIsSequential(s: State, moves: seq<Move>)
    requires s.Valid() && Sound(s.ledger) && AllWaiting(s) && DistinctYears(s.rows) && Possible(s, moves)
    ensures Sound(Run(s, moves).ledger)
    ensures AllDone(Run(s, moves)) ==>
              && (forall i :: 0 <= i < |s.rows| && HasAmounts(s.rows[i]) ==>
                    multiset(OrdersOf(Run(s, moves))[i]) == multiset(AllWanted(s.rows[i])))
              && forall k: YearKey ::
                   SameYear(SaveAll(s.ledger, s.project, s.rows, OrdersOf(Run(s, moves))), Run(s, moves).ledger, k)
  {
    StartKeepsInv(s);
    RunKeepsInv(s.ledger, s, moves);
    var end := Run(s, moves);
    if AllDone(end) {
      forall i | 0 <= i < |s.rows| && HasAmounts(s.rows[i])
        ensures multiset(OrdersOf(end)[i]) == multiset(AllWanted(s.rows[i]))
      {
        assert Progress(s.ledger, end.ledger, end.YearOf(i), end.rows[i], end.tasks[i]);
      }
      forall k: YearKey
        ensures SameYear(SaveAll(s.ledger, s.project, s.rows, OrdersOf(end)), end.ledger, k)
      {
        FinalYear(s, end, k);
      }
    }
  }

  lemma FinalYear(s: State, end: State, k: YearKey)
    requires s.Valid() && Sound(s.ledger) && DistinctYears(s.rows)
    requires end.Valid() && Inv(s.ledger, end) && AllDone(end) && end.rows == s.rows && end.project == s.project
    ensures SameYear(SaveAll(s.ledger, s.project, s.rows, OrdersOf(end)), end.ledger, k)
  {
    var orders := OrdersOf(end);
    var all := SaveAll(s.ledger, s.project, s.rows, orders);
    if k.0 == s.project && Submitted(s.rows, k.1) {
      var i :| 0 <= i < |s.rows| && s.rows[i].year == k.1;
      var saved := SavedRow(s.ledger, s.project, s.rows[i], orders[i]);
      assert k == end.YearOf(i);
      SaveAllSaves(s.ledger, s.project, s.rows, orders, i);
      assert Progress(s.ledger, end.ledger, k, end.rows[i], end.tasks[i]);
      SameYearSymmetric(saved, all, k);
      SameYearTransitive(all, saved, end.ledger, k);
    } else {
      SaveAllSkips(s.ledger, s.project, s.rows, orders, k);
      SameYearSymmetric(s.ledger, all, k);
      SameYearTransitive(all, s.ledger, end.ledger, k);
    }
  }
}
