/**
 * Submitted rows may repeat a year. Running them together can then orphan a contributor - here is exactly when.
 */
module YearRepeats {
  import opened FundingTables
  import opened YearSave
  import opened YearInterleaving
  import opened YearSchedules

  /** One row of a year has nothing to save, and another one has a contributor. */
  ghost predicate Clash(rows: seq<Row>)
    requires AllValid(rows)
  {
    exists i, j :: 0 <= i < |rows| && 0 <= j < |rows| && ClashAt(rows, i, j)
  }

  predicate ClashAt(rows: seq<Row>, i: nat, j: nat)
    requires AllValid(rows) && i < |rows| && j < |rows|
  {
    rows[i].year == rows[j].year && !HasAmounts(rows[i]) && HasAmounts(rows[j]) && AllWanted(rows[j]) != []
  }

  // ---------- Without a clash every statement is safe ----------

  /** What a task may rely on: a deleted row is the year's own and stays empty, and a synced one stands. */
  ghost predicate TaskFits(l: Ledger, k: YearKey, row: Row, task: Task)
    requires row.Valid()
  {
    match task
    case DeletingContributors(id) => !HasAmounts(row) && id < l.nextId && OnlyAt(l, k, id)
    case DeletingValue(id) => !HasAmounts(row) && id < l.nextId && OnlyAt(l, k, id) && RowIsEmpty(l.contributors, id)
    case Syncing(id, _, pending) =>
      && HasAmounts(row) && id < l.nextId && pending <= multiset(AllWanted(row))
      && (AllWanted(row) != [] ==> RowStands(l, k, id))
    case _ => true
  }

  ghost predicate OnlyAt(l: Ledger, k: YearKey, id: RowId) {
    forall k' | k' in l.values && l.values[k'].id == id :: k' == k
  }

  ghost predicate Steady(s: State)
    requires s.Valid()
  {
    && Sound(s.ledger)
    && forall i :: 0 <= i < |s.rows| ==> TaskFits(s.ledger, s.YearOf(i), s.rows[i], s.tasks[i])
  }

  lemma MoveIsSafe(s: State, move: Move)
    requires s.Valid() && Enabled(s, move) && Steady(s)
    ensures Sound(After(s, move))
  {
    var row := s.rows[move.row];
    assert TaskFits(s.ledger, s.YearOf(move.row), row, s.tasks[move.row]);
    StoredTotal(Merged(row));
    if StatementOf(s, move).Some? {
      var statement := StatementOf(s, move).value;
      if move.Upsert? {
        PendingIsWanted(row, s.tasks[move.row].pending, move.wanted);
        HasRowIn(s.ledger, statement.row, s.YearOf(move.row));
      }
      assert Safe(s.ledger, statement);
      SafeKeepsSound(s.ledger, statement);
    }
  }

  lemma PendingIsWanted(row: Row, pending: multiset<Wanted>, w: Wanted)
    requires pending <= multiset(AllWanted(row)) && w in pending
    ensures AllWanted(row) != []
  {
    assert w in multiset(AllWanted(row));
  }

  lemma OwnTaskFits(s: State, move: Move)
    requires s.Valid() && Enabled(s, move) && Steady(s)
    ensures TaskFits(After(s, move), s.YearOf(move.row), s.rows[move.row], NextTask(s, move))
  {
    assert TaskFits(s.ledger, s.YearOf(move.row), s.rows[move.row], s.tasks[move.row]);
    match move
    case Start(i) => StartFits(s, i);
    case Proceed(i) => ProceedFits(s, i);
    case Upsert(i, w) => UpsertFits(s, i, w);
  }

  lemma UpsertFits(s: State, i: nat, w: Wanted)
    requires s.Valid() && Enabled(s, Upsert(i, w)) && IdsIdentify(s.ledger)
    requires TaskFits(s.ledger, s.YearOf(i), s.rows[i], s.tasks[i])
    ensures TaskFits(After(s, Upsert(i, w)), s.YearOf(i), s.rows[i], NextTask(s, Upsert(i, w)))
  {
    var task := s.tasks[i];
    ExecFits(s.ledger, StatementOf(s, Upsert(i, w)).value, s.YearOf(i), s.rows[i], task);
    FewerPending(After(s, Upsert(i, w)), s.YearOf(i), s.rows[i], task, task.made + [w], w);
  }

  lemma FewerPending(l: Ledger, k: YearKey, row: Row, task: Task, made: seq<Wanted>, w: Wanted)
    requires row.Valid() && task.Syncing? && TaskFits(l, k, row, task)
    ensures TaskFits(l, k, row, Syncing(task.id, made, task.pending - multiset{w}))
  {
    assert task.pending - multiset{w} <= task.pending;
  }

  lemma StartFits(s: State, i: nat)
    requires s.Valid() && Enabled(s, Start(i)) && IdsIdentify(s.ledger)
    ensures TaskFits(After(s, Start(i)), s.YearOf(i), s.rows[i], NextTask(s, Start(i)))
  {
  }

  lemma ProceedFits(s: State, i: nat)
    requires s.Valid() && Enabled(s, Proceed(i)) && TaskFits(s.ledger, s.YearOf(i), s.rows[i], s.tasks[i])
    ensures TaskFits(After(s, Proceed(i)), s.YearOf(i), s.rows[i], NextTask(s, Proceed(i)))
  {
  }

  /** The statements that could disturb another row's task, and the rows they would have to be about. */
  predicate Disturbs(statement: Statement, row: Row, task: Task) {
    match statement
    case DeleteValues(ids) => task.Syncing? && AllWanted(row) != [] && task.id in ids
    case UpsertContributor(id, _, _, _) => task.DeletingValue? && task.id == id
    case _ => false
  }

  lemma ExecFits(l: Ledger, statement: Statement, k: YearKey, row: Row, task: Task)
    requires row.Valid() && IdsIdentify(l) && TaskFits(l, k, row, task) && !Disturbs(statement, row, task)
    requires
      || statement.DeleteContributors? || statement.DeleteValues? || statement.UpsertContributor?
      || statement.DeleteStale?
    ensures TaskFits(Exec(l, statement).value, k, row, task)
  {
    var l' := Exec(l, statement).value;
    if statement.DeleteValues? {
      assert l'.contributors == l.contributors;
    } else {
      assert l'.values == l.values && l'.nextId == l.nextId;
    }
  }

  lemma OtherTaskFits(s: State, move: Move, j: nat)
    requires s.Valid() && Enabled(s, move) && Steady(s) && !Clash(s.rows) && j < |s.rows|
    ensures TaskFits(After(s, move), s.YearOf(j), s.rows[j], s.tasks[j])
  {
    assert TaskFits(s.ledger, s.YearOf(j), s.rows[j], s.tasks[j]);
    if move.Start? {
      ValueUpsertFits(s, move.row, j);
    } else {
      NotDisturbed(s, move, j);
      ExecFits(s.ledger, StatementOf(s, move).value, s.YearOf(j), s.rows[j], s.tasks[j]);
    }
  }

  lemma NotDisturbed(s: State, move: Move, j: nat)
    requires s.Valid() && Enabled(s, move) && Steady(s) && !Clash(s.rows) && j < |s.rows| && !move.Start?
    ensures !Disturbs(StatementOf(s, move).value, s.rows[j], s.tasks[j])
  {
    var i := move.row;
    assert TaskFits(s.ledger, s.YearOf(i), s.rows[i], s.tasks[i]);
    assert TaskFits(s.ledger, s.YearOf(j), s.rows[j], s.tasks[j]);
    assert !ClashAt(s.rows, i, j) && !ClashAt(s.rows, j, i);
    if move.Upsert? {
      PendingIsWanted(s.rows[i], s.tasks[i].pending, move.wanted);
    }
  }

  lemma ValueUpsertFits(s: State, i: nat, j: nat)
    requires s.Valid() && Enabled(s, Start(i)) && Steady(s) && j < |s.rows|
    ensures TaskFits(After(s, Start(i)), s.YearOf(j), s.rows[j], s.tasks[j])
  {
    assert TaskFits(s.ledger, s.YearOf(j), s.rows[j], s.tasks[j]);
  }

  lemma MoveKeepsSteady(s: State, move: Move)
    requires s.Valid() && Enabled(s, move) && Steady(s) && !Clash(s.rows)
    ensures Steady(Apply(s, move))
  {
    MoveIsSafe(s, move);
    OwnTaskFits(s, move);
    forall j | 0 <= j < |s.rows| && j != move.row
      ensures TaskFits(After(s, move), s.YearOf(j), s.rows[j], s.tasks[j])
    {
      OtherTaskFits(s, move, j);
    }
  }

  lemma {:induction false} RunKeepsSteady(s: State, moves: seq<Move>)
    requires s.Valid() && Steady(s) && !Clash(s.rows) && Possible(s, moves)
    ensures Steady(Run(s, moves))
    decreases moves
  {
    if moves != [] {
      MoveKeepsSteady(s, moves[0]);
      RunKeepsSteady(Apply(s, moves[0]), moves[1..]);
    }
  }

  // ---------- With a clash some run orphans a contributor ----------

  /** The contributor of the one row is inserted between the two deletions of the other. */
  lemma ClashOrphans(s: State, i: nat, j: nat) returns (moves: seq<Move>)
    requires s.Valid() && Sound(s.ledger) && AllWaiting(s) && i < |s.rows| && j < |s.rows| && ClashAt(s.rows, i, j)
    ensures Possible(s, moves) && !NoOrphans(Run(s, moves).ledger)
  {
    var w := AllWanted(s.rows[j])[0];
    StartTask(s, j);
    var s1 := Apply(s, Start(j));
    var id := s1.tasks[j].id;
    var s2 := DeletionStarted(s1, i, id);
    assert s1.ledger.values[s.YearOf(j)].id == id && w in s2.tasks[j].pending;
    UpsertTask(s2, j, w);
    var s3 := Apply(s2, Upsert(j, w));
    assert Key(id, w.kind, w.name) in s3.ledger.contributors;
    ProceedTask(s3, i);
    var s4 := Apply(s3, Proceed(i));
    assert Key(id, w.kind, w.name) in s4.ledger.contributors && !HasRow(s4.ledger, id);
    RunCons(s3, Proceed(i), []);
    RunCons(s2, Upsert(j, w), [Proceed(i)] + []);
    RunCons(Apply(s1, Start(i)), Proceed(i), [Upsert(j, w)] + ([Proceed(i)] + []));
    RunCons(s1, Start(i), [Proceed(i)] + ([Upsert(j, w)] + ([Proceed(i)] + [])));
    moves := [Start(j)] + ([Start(i)] + ([Proceed(i)] + ([Upsert(j, w)] + ([Proceed(i)] + []))));
    RunCons(s, Start(j), [Start(i)] + ([Proceed(i)] + ([Upsert(j, w)] + ([Proceed(i)] + []))));
  }

  lemma DeletionStarted(s1: State, i: nat, id: RowId) returns (s2: State)
    requires s1.Valid() && i < |s1.rows| && s1.tasks[i].Waiting? && !HasAmounts(s1.rows[i])
    requires RowStands(s1.ledger, s1.YearOf(i), id)
    ensures Enabled(s1, Start(i)) && Enabled(Apply(s1, Start(i)), Proceed(i))
    ensures s2 == Apply(Apply(s1, Start(i)), Proceed(i))
    ensures s2.tasks == s1.tasks[i := DeletingValue(id)] && s2.ledger.values == s1.ledger.values
  {
    var s' := Apply(s1, Start(i));
    assert s'.tasks[i] == DeletingContributors(id);
    s2 := Apply(s', Proceed(i));
    ProceedTask(s', i);
  }

  /** Every statement of every run leaves a sound ledger if and only if no two rows clash. */
  lemma RepeatedYearsSoundExactly(s: State)
    requires s.Valid() && Sound(s.ledger) && AllWaiting(s)
    ensures (forall moves | Possible(s, moves) :: Sound(Run(s, moves).ledger)) <==> !Clash(s.rows)
  {
    if Clash(s.rows) {
      var i, j :| 0 <= i < |s.rows| && 0 <= j < |s.rows| && ClashAt(s.rows, i, j);
      var moves := ClashOrphans(s, i, j);
      assert !Sound(Run(s, moves).ledger);
    } else {
      forall moves | Possible(s, moves)
        ensures Sound(Run(s, moves).ledger)
      {
        RunKeepsSteady(s, moves);
      }
    }
  }
}
