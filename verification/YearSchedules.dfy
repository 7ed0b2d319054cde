/**
 * When all schedules of the submitted rows come to the same: if and only if the contributors of each row agree.
 * Every order of a row's upserts is reached by some schedule.
 */
module YearSchedules {
  import opened Wrappers
  import opened FundingTables
  import opened YearSave
  import opened YearInterleaving

  // ---------- Every order is reached ----------

  lemma {:induction false} RunAppend(s: State, first: seq<Move>, second: seq<Move>)
    requires s.Valid() && Possible(s, first) && Possible(Run(s, first), second)
    ensures Possible(s, first + second) && Run(s, first + second) == Run(Run(s, first), second)
    decreases first
  {
    if first == [] {
      assert first + second == second;
    } else {
      assert (first + second)[1..] == first[1..] + second;
      RunAppend(Apply(s, first[0]), first[1..], second);
    }
  }

  /** The pending upserts of a row, in the given order, and its last statement. */
  function Steered(i: nat, order: seq<Wanted>): seq<Move> {
    if order == [] then [Proceed(i)] else [Upsert(i, order[0])] + Steered(i, order[1..])
  }

  lemma RunCons(s: State, move: Move, rest: seq<Move>)
    requires s.Valid() && Enabled(s, move) && Possible(Apply(s, move), rest)
    ensures Possible(s, [move] + rest) && Run(s, [move] + rest) == Run(Apply(s, move), rest)
  {
    assert ([move] + rest)[1..] == rest;
  }

  lemma UpsertTask(s: State, i: nat, w: Wanted)
    requires s.Valid() && Enabled(s, Upsert(i, w))
    ensures var task := s.tasks[i];
            Apply(s, Upsert(i, w)).tasks == s.tasks[i := Syncing(task.id, task.made + [w], task.pending - multiset{w})]
  {
  }

  lemma ProceedTask(s: State, i: nat)
    requires s.Valid() && Enabled(s, Proceed(i))
    ensures Apply(s, Proceed(i)).tasks ==
            s.tasks[i := match s.tasks[i]
                         case DeletingContributors(id) => DeletingValue(id)
                         case DeletingValue(_) => Done([])
                         case Syncing(_, made, _) => Done(made)]
  {
  }

  lemma {:induction false} SteeredRuns(s: State, i: nat, order: seq<Wanted>)
    requires s.Valid() && i < |s.tasks| && s.tasks[i].Syncing? && s.tasks[i].pending == multiset(order)
    ensures Possible(s, Steered(i, order))
    ensures Run(s, Steered(i, order)).tasks == s.tasks[i := Done(s.tasks[i].made + order)]
    decreases order
  {
    if order == [] {
      assert s.tasks[i].made + [] == s.tasks[i].made;
      ProceedTask(s, i);
      RunCons(s, Proceed(i), []);
    } else {
      var w, rest := order[0], order[1..];
      assert order == [w] + rest;
      SteerOne(s, i, w, rest);
      SteeredRuns(Apply(s, Upsert(i, w)), i, rest);
      RunCons(s, Upsert(i, w), Steered(i, rest));
    }
  }

  lemma SteerOne(s: State, i: nat, w: Wanted, rest: seq<Wanted>)
    requires s.Valid() && i < |s.tasks| && s.tasks[i].Syncing? && s.tasks[i].pending == multiset([w] + rest)
    ensures Enabled(s, Upsert(i, w))
    ensures var s1 := Apply(s, Upsert(i, w));
            && s1.tasks[i].Syncing? && s1.tasks[i].pending == multiset(rest)
            && s1.tasks[i := Done(s1.tasks[i].made + rest)] == s.tasks[i := Done(s.tasks[i].made + ([w] + rest))]
  {
    assert multiset([w] + rest) == multiset{w} + multiset(rest);
    UpsertTask(s, i, w);
    assert s.tasks[i].made + [w] + rest == s.tasks[i].made + ([w] + rest);
  }

  /** From start to end a row can have its upserts in any order; without amounts it is deleted. */
  lemma RowRuns(s: State, i: nat, order: seq<Wanted>) returns (moves: seq<Move>)
    requires s.Valid() && i < |s.tasks| && s.tasks[i].Waiting?
    requires HasAmounts(s.rows[i]) ==> multiset(order) == multiset(AllWanted(s.rows[i]))
    ensures Possible(s, moves)
    ensures Run(s, moves).tasks == s.tasks[i := Done(if HasAmounts(s.rows[i]) then order else [])]
  {
    StartTask(s, i);
    var s1 := Apply(s, Start(i));
    var rest := StartedRuns(s1, i, if HasAmounts(s.rows[i]) then order else []);
    RunCons(s, Start(i), rest);
    moves := [Start(i)] + rest;
  }

  lemma StartedRuns(s: State, i: nat, order: seq<Wanted>) returns (moves: seq<Move>)
    requires s.Valid() && i < |s.tasks|
    requires
      || (s.tasks[i].Syncing? && s.tasks[i].made == [] && s.tasks[i].pending == multiset(order))
      || (order == [] && (s.tasks[i].DeletingContributors? || s.tasks[i] == Done([])))
    ensures Possible(s, moves) && Run(s, moves).tasks == s.tasks[i := Done(order)]
  {
    moves := [];
    if s.tasks[i].Syncing? {
      SteeredRuns(s, i, order);
      moves := Steered(i, order);
      assert [] + order == order;
    } else if s.tasks[i].DeletingContributors? {
      DeletionRuns(s, i);
      moves := [Proceed(i), Proceed(i)];
    }
  }

  lemma StartTask(s: State, i: nat)
    requires s.Valid() && i < |s.tasks| && s.tasks[i].Waiting?
    ensures var s1 := Apply(s, Start(i));
            && s1.tasks == s.tasks[i := s1.tasks[i]]
            && (if HasAmounts(s.rows[i])
                then s1.tasks[i].Syncing? && s1.tasks[i].made == [] && s1.tasks[i].pending == multiset(AllWanted(s.rows[i]))
                else s1.tasks[i].DeletingContributors? || s1.tasks[i] == Done([]))
  {
  }

  lemma DeletionRuns(s: State, i: nat)
    requires s.Valid() && i < |s.tasks| && s.tasks[i].DeletingContributors?
    ensures Possible(s, [Proceed(i), Proceed(i)])
    ensures Run(s, [Proceed(i), Proceed(i)]).tasks == s.tasks[i := Done([])]
  {
    ProceedTask(s, i);
    var s1 := Apply(s, Proceed(i));
    ProceedTask(s1, i);
    RunCons(s1, Proceed(i), []);
    RunCons(s, Proceed(i), [Proceed(i)]);
    assert [Proceed(i)] + [] == [Proceed(i)];
    assert [Proceed(i)] + [Proceed(i)] == [Proceed(i), Proceed(i)];
  }

  ghost predicate AreOrders(rows: seq<Row>, orders: seq<seq<Wanted>>)
    requires AllValid(rows)
  {
    |orders| == |rows| &&
    forall i :: 0 <= i < |rows| && HasAmounts(rows[i]) ==> multiset(orders[i]) == multiset(AllWanted(rows[i]))
  }

  /** The first n rows are done, each in its order, and the others have not started. */
  ghost predicate FirstDone(rows: seq<Row>, tasks: seq<Task>, orders: seq<seq<Wanted>>, n: nat)
    requires AllValid(rows) && |orders| == |rows|
  {
    && |tasks| == |rows|
    && (forall i :: n <= i < |rows| ==> tasks[i].Waiting?)
    && (forall i :: 0 <= i < n && i < |rows| ==> tasks[i] == Done(if HasAmounts(rows[i]) then orders[i] else []))
  }

  lemma {:induction false} FirstRowsRun(s: State, orders: seq<seq<Wanted>>, n: nat) returns (moves: seq<Move>)
    requires s.Valid() && AllWaiting(s) && AreOrders(s.rows, orders) && n <= |s.rows|
    ensures Possible(s, moves) && FirstDone(s.rows, Run(s, moves).tasks, orders, n)
  {
    moves := [];
    if n > 0 {
      var first := FirstRowsRun(s, orders, n - 1);
      var s1 := Run(s, first);
      assert s1.rows == s.rows && s1.tasks[n - 1].Waiting?;
      var last := RowRuns(s1, n - 1, orders[n - 1]);
      RunAppend(s, first, last);
      moves := first + last;
      assert Run(s, moves).tasks == s1.tasks[n - 1 := Done(if HasAmounts(s.rows[n - 1]) then orders[n - 1] else [])];
    }
  }

  /** A schedule to the end in which each row's upserts run in the order chosen for it. */
  lemma ScheduleFor(s: State, orders: seq<seq<Wanted>>) returns (moves: seq<Move>)
    requires s.Valid() && AllWaiting(s) && AreOrders(s.rows, orders)
    ensures Possible(s, moves) && AllDone(Run(s, moves))
    ensures forall i :: 0 <= i < |s.rows| && HasAmounts(s.rows[i]) ==> Run(s, moves).tasks[i] == Done(orders[i])
  {
    moves := FirstRowsRun(s, orders, |s.rows|);
  }

  // ---------- When the end does not depend on the schedule ----------

  ghost predicate SameEnd(s: State, moves: seq<Move>, moves': seq<Move>)
    requires s.Valid() && Possible(s, moves) && Possible(s, moves')
  {
    forall k: YearKey :: SameYear(Run(s, moves).ledger, Run(s, moves').ledger, k)
  }

  ghost predicate SchedulesAgree(s: State)
    requires s.Valid()
  {
    forall moves, moves' | Possible(s, moves) && Possible(s, moves') && AllDone(Run(s, moves)) && AllDone(Run(s, moves')) ::
      SameEnd(s, moves, moves')
  }

  ghost predicate RowsAgree(rows: seq<Row>)
    requires AllValid(rows)
  {
    forall i :: 0 <= i < |rows| && HasAmounts(rows[i]) ==> Agreeing(AllWanted(rows[i]))
  }

  lemma DoneYear(s: State, moves: seq<Move>, i: nat)
    requires s.Valid() && Sound(s.ledger) && AllWaiting(s) && DistinctYears(s.rows)
    requires Possible(s, moves) && AllDone(Run(s, moves)) && i < |s.rows|
    ensures var made := Run(s, moves).tasks[i].made;
            && (HasAmounts(s.rows[i]) ==> multiset(made) == multiset(AllWanted(s.rows[i])))
            && SameYear(SavedRow(s.ledger, s.project, s.rows[i], made), Run(s, moves).ledger, s.YearOf(i))
  {
    StartKeepsInv(s);
    RunKeepsInv(s.ledger, s, moves);
    var end := Run(s, moves);
    assert Progress(s.ledger, end.ledger, end.YearOf(i), end.rows[i], end.tasks[i]);
  }

  lemma SavedSame(l: Ledger, project: Project, row: Row, a: seq<Wanted>, b: seq<Wanted>)
    requires row.Valid() && (HasAmounts(row) ==> Agreeing(AllWanted(row)))
    requires HasAmounts(row) ==> multiset(a) == multiset(AllWanted(row)) == multiset(b)
    ensures SavedRow(l, project, row, a) == SavedRow(l, project, row, b)
  {
    if HasAmounts(row) {
      var l1 := Upserted(l, project, row.year, ColumnsOf(Merged(row)), Number(TotalText(Merged(row))));
      AgreeingOrder(l1.contributors, l1.values[(project, row.year)].id, AllWanted(row), a, b);
    }
  }

  lemma AgreeingSchedules(s: State, moves: seq<Move>, moves': seq<Move>, k: YearKey)
    requires s.Valid() && Sound(s.ledger) && AllWaiting(s) && DistinctYears(s.rows) && RowsAgree(s.rows)
    requires Possible(s, moves) && Possible(s, moves') && AllDone(Run(s, moves)) && AllDone(Run(s, moves'))
    ensures SameYear(Run(s, moves).ledger, Run(s, moves').ledger, k)
  {
    var a, b := Run(s, moves), Run(s, moves');
    if k.0 == s.project && Submitted(s.rows, k.1) {
      var i :| 0 <= i < |s.rows| && s.rows[i].year == k.1;
      DoneYear(s, moves, i);
      DoneYear(s, moves', i);
      SavedSame(s.ledger, s.project, s.rows[i], a.tasks[i].made, b.tasks[i].made);
      var saved := SavedRow(s.ledger, s.project, s.rows[i], a.tasks[i].made);
      SameYearSymmetric(saved, a.ledger, k);
      SameYearTransitive(a.ledger, saved, b.ledger, k);
    } else {
      StartKeepsInv(s);
      RunKeepsInv(s.ledger, s, moves);
      RunKeepsInv(s.ledger, s, moves');
      SameYearSymmetric(s.ledger, a.ledger, k);
      SameYearTransitive(a.ledger, s.ledger, b.ledger, k);
    }
  }

  /** Two schedules of a row with entries that disagree, and the contributor that tells their ends apart. */
  lemma DisagreeingSchedules(s: State, i: nat) returns (moves: seq<Move>, moves': seq<Move>)
    requires s.Valid() && Sound(s.ledger) && AllWaiting(s) && DistinctYears(s.rows)
    requires i < |s.rows| && HasAmounts(s.rows[i]) && !Agreeing(AllWanted(s.rows[i]))
    ensures Possible(s, moves) && Possible(s, moves') && AllDone(Run(s, moves)) && AllDone(Run(s, moves'))
    ensures !SameYear(Run(s, moves).ledger, Run(s, moves').ledger, s.YearOf(i))
  {
    var wanted := AllWanted(s.rows[i]);
    var p, q :| 0 <= p < |wanted| && 0 <= q < |wanted| && SameName(wanted[p], wanted[q].kind, wanted[q].name) &&
      wanted[p].amount != wanted[q].amount;
    moves := LastSchedule(s, i, p);
    moves' := LastSchedule(s, i, q);
    SavedDiffer(s.ledger, s.project, s.rows[i], p, q);
    var k, end, end' := s.YearOf(i), Run(s, moves).ledger, Run(s, moves').ledger;
    var a := SavedRow(s.ledger, s.project, s.rows[i], WithLast(wanted, p));
    var b := SavedRow(s.ledger, s.project, s.rows[i], WithLast(wanted, q));
    if SameYear(end, end', k) {
      SameYearTransitive(a, end, end', k);
      SameYearSymmetric(b, end', k);
      SameYearTransitive(a, end', b, k);
    }
  }

  /** A schedule in which the p-th upsert of a row runs last. */
  lemma LastSchedule(s: State, i: nat, p: nat) returns (moves: seq<Move>)
    requires s.Valid() && Sound(s.ledger) && AllWaiting(s) && DistinctYears(s.rows)
    requires i < |s.rows| && HasAmounts(s.rows[i]) && p < |AllWanted(s.rows[i])|
    ensures Possible(s, moves) && AllDone(Run(s, moves))
    ensures SameYear(SavedRow(s.ledger, s.project, s.rows[i], WithLast(AllWanted(s.rows[i]), p)), Run(s, moves).ledger, s.YearOf(i))
  {
    var given := seq(|s.rows|, j requires 0 <= j < |s.rows| => AllWanted(s.rows[j]));
    WithLastPermutes(AllWanted(s.rows[i]), p);
    moves := ScheduleFor(s, given[i := WithLast(AllWanted(s.rows[i]), p)]);
    DoneYear(s, moves, i);
  }

  lemma SavedDiffer(l: Ledger, project: Project, row: Row, p: nat, q: nat)
    requires row.Valid() && HasAmounts(row) && p < |AllWanted(row)| && q < |AllWanted(row)|
    requires var w, v := AllWanted(row)[p], AllWanted(row)[q]; SameName(w, v.kind, v.name) && w.amount != v.amount
    ensures var wanted := AllWanted(row);
            !SameYear(SavedRow(l, project, row, WithLast(wanted, p)), SavedRow(l, project, row, WithLast(wanted, q)),
                      (project, row.year))
  {
    var wanted := AllWanted(row);
    var a, b := SavedRow(l, project, row, WithLast(wanted, p)), SavedRow(l, project, row, WithLast(wanted, q));
    var l1 := Upserted(l, project, row.year, ColumnsOf(Merged(row)), Number(TotalText(Merged(row))));
    var id := l1.values[(project, row.year)].id;
    DisagreeingOrders(l1.contributors, id, wanted, p, q);
    assert !SameCell(a.contributors, id, b.contributors, id, wanted[p].kind, wanted[p].name);
  }

  /**
   * All schedules of rows of distinct years end in the same contents if and only if, in each row that is not
   * empty, contributors entered twice under one name and kind carry the same amount.
   */
  lemma SchedulesAgreeExactly(s: State)
    requires s.Valid() && Sound(s.ledger) && AllWaiting(s) && DistinctYears(s.rows)
    ensures SchedulesAgree(s) <==> RowsAgree(s.rows)
  {
    if RowsAgree(s.rows) {
      forall moves, moves' | Possible(s, moves) && Possible(s, moves') && AllDone(Run(s, moves)) && AllDone(Run(s, moves'))
        ensures SameEnd(s, moves, moves')
      {
        forall k: YearKey
          ensures SameYear(Run(s, moves).ledger, Run(s, moves').ledger, k)
        {
          AgreeingSchedules(s, moves, moves', k);
        }
      }
    } else {
      var i :| 0 <= i < |s.rows| && HasAmounts(s.rows[i]) && !Agreeing(AllWanted(s.rows[i]));
      var moves, moves' := DisagreeingSchedules(s, i);
      assert !SameEnd(s, moves, moves');
    }
  }

  const NO_FIELDS: seq<Text> :=
    [None, None, None, None, None, None, None, None, None, None, None, None, None, None]

  /** One public contributor entered twice with different amounts, and nothing else. */
  function RepeatedRow(): (row: Row)
    ensures row.Valid()
  {
    var one: Text, two: Text := Some("1"), Some("2");
    Row(2025, NO_FIELDS, Some([Entry("A", one), Entry("A", two)]), None, None)
  }

  lemma RepeatedRowWants()
    ensures AllWanted(RepeatedRow()) == [Wanted(PublicContributions, "A", 1), Wanted(PublicContributions, "A", 2)]
    ensures SumEntries(RepeatedRow().Entries(PublicContributions)) == 3 && HasAmounts(RepeatedRow())
    ensures Blank(RepeatedRow().fields[PublicContributions.Column()])
  {
    var row := RepeatedRow();
    var entries := row.Entries(PublicContributions);
    assert "1"[..0] == [] && "2"[..0] == [];
    assert entries[..1] == [entries[0]] && entries[..1][..0] == [];
    assert WantedOf(PublicContributions, entries[..1]) == [Wanted(PublicContributions, "A", 1)];
    assert SumEntries(entries[..1]) == 1 && SumEntries(entries) == 3;
    assert Decimal.ToString(3) == "3" && "3" != "0" by { assert "3"[0] != "0"[0]; }
    assert Merged(row)[3] == Some("3");
  }

  /** What is stored of it depends on the schedule. */
  lemma RepeatedNameDepends() returns (s: State)
    ensures s.Valid() && Sound(s.ledger) && AllWaiting(s) && s.rows == [RepeatedRow()]
    ensures !SchedulesAgree(s)
  {
    s := State(Ledger(map[], map[], 0), 1, [RepeatedRow()], [Waiting]);
    RepeatedRowWants();
    var wanted := AllWanted(RepeatedRow());
    assert wanted[0].amount != wanted[1].amount && SameName(wanted[0], wanted[1].kind, wanted[1].name);
    assert !Agreeing(AllWanted(s.rows[0])) && HasAmounts(s.rows[0]);
    SchedulesAgreeExactly(s);
  }

  /** What a saved row stores of one of its names, and in a blank column. */
  lemma SavedName(l: Ledger, project: Project, row: Row, order: seq<Wanted>, kind: Kind, name: string)
    requires row.Valid() && HasAmounts(row) && Blank(row.fields[kind.Column()]) && name in LastAmounts(order, kind)
    ensures var l', k := SavedRow(l, project, row, order), (project, row.year);
            && k in l'.values && AmountOf(l'.values[k].columns[kind.Column()]) == SumEntries(row.Entries(kind))
            && Key(l'.values[k].id, kind, name) in l'.contributors
            && l'.contributors[Key(l'.values[k].id, kind, name)].amount == Some(LastAmounts(order, kind)[name])
  {
    BlankColumn(row, kind);
    LastAmountsNames(order, kind, name);
    var l1 := Upserted(l, project, row.year, ColumnsOf(Merged(row)), Number(TotalText(Merged(row))));
    var id := l1.values[(project, row.year)].id;
    SyncedExactly(l1.contributors, id, order, Key(id, kind, name));
  }

  /** And in every order of its upserts its column is 3, while its one contributor carries 1 or 2. */
  ghost predicate BreaksColumn(l: Ledger, project: Project, row: Row, order: seq<Wanted>)
    requires row.Valid()
  {
    var l', k := SavedRow(l, project, row, order), (project, row.year);
    && !ColumnMatches(l, project, row, order, PublicContributions)
    && k in l'.values && AmountOf(l'.values[k].columns[PublicContributions.Column()]) == 3
    && Key(l'.values[k].id, PublicContributions, "A") in l'.contributors
    && l'.contributors[Key(l'.values[k].id, PublicContributions, "A")].amount in {Some(1), Some(2)}
  }

  lemma RepeatedNameBreaksColumn(l: Ledger, project: Project, order: seq<Wanted>)
    requires multiset(order) == multiset(AllWanted(RepeatedRow()))
    ensures BreaksColumn(l, project, RepeatedRow(), order)
  {
    RepeatedRowWants();
    TwoWantedBreakColumn(l, project, RepeatedRow(), order);
  }

  lemma TwoWantedBreakColumn(l: Ledger, project: Project, row: Row, order: seq<Wanted>)
    requires row.Valid() && HasAmounts(row) && Blank(row.fields[PublicContributions.Column()])
    requires SumEntries(row.Entries(PublicContributions)) == 3
    requires AllWanted(row) == [Wanted(PublicContributions, "A", 1), Wanted(PublicContributions, "A", 2)]
    requires multiset(order) == multiset(AllWanted(row))
    ensures BreaksColumn(l, project, row, order)
  {
    TwoOfOneName(AllWanted(row), order);
    SavedName(l, project, row, order, PublicContributions, "A");
    ColumnIsContributorSum(l, project, row, order, PublicContributions);
  }

  lemma TwoOfOneName(wanted: seq<Wanted>, order: seq<Wanted>)
    requires wanted == [Wanted(PublicContributions, "A", 1), Wanted(PublicContributions, "A", 2)]
    requires multiset(order) == multiset(wanted)
    ensures !NothingOverwritten(order, PublicContributions) && (PublicContributions, "A") in Names(order)
    ensures "A" in LastAmounts(order, PublicContributions) && LastAmounts(order, PublicContributions)["A"] in {1, 2}
  {
    assert |order| == |multiset(order)| == 2;
    var i, j := TwoPlaces(wanted, order, 0, 1);
    assert order[0] in multiset(wanted) && order[1] in multiset(wanted);
    assert SameName(order[0], PublicContributions, order[1].name) && order[0].amount != 0;
    assert (order[0].kind, order[0].name) in Names(order);
    LastAmountsNames(order, PublicContributions, "A");
    var p := LastAmountFound(order, PublicContributions, "A");
    assert order[p] in multiset(wanted);
  }
}
