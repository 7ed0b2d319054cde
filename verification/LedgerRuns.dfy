/**
 * Requests on the funding tables that overlap in any way: a run is any sequence of their statements, where
 * the row ids in a statement were read from the tables at some earlier point, by whichever request.
 */
module LedgerRuns {
  import opened FundingTables

  /** A refused statement changes nothing. */
  function AfterStatement(l: Ledger, s: Statement): Ledger {
    Exec(l, s).GetOr(l)
  }

  /** The row stood at some point up to position j. */
  ghost predicate WasRead(run: seq<Ledger>, j: nat, id: RowId)
    requires j < |run|
  {
    exists i :: 0 <= i <= j && HasRow(run[i], id)
  }

  /** What each request makes sure of: ids come from reads, and a stored total from its columns. */
  ghost predicate Requested(run: seq<Ledger>, j: nat, s: Statement)
    requires j < |run|
  {
    match s
    case UpsertValue(_, _, columns, total) => total == SumColumns(columns)
    case UpsertContributor(row, _, _, _) => WasRead(run, j, row)
    case CreateMissingContributors(ids, _, _) => forall id | id in ids :: WasRead(run, j, id)
    case _ => true
  }

  ghost predicate IsRun(run: seq<Ledger>, statements: seq<Statement>) {
    && |run| == |statements| + 1
    && (forall j :: 0 <= j < |statements| ==> run[j + 1] == AfterStatement(run[j], statements[j]))
    && (forall j :: 0 <= j < |statements| ==> Requested(run, j, statements[j]))
  }

  lemma NextIdGrows(l: Ledger, s: Statement)
    ensures l.nextId <= AfterStatement(l, s).nextId
  {
    match s
    case CreateMissingValues(project, years) => MissingValuesAdd(l, project, years);
    case _ =>
  }

  /** Ids that were handed out stay below the next one. */
  ghost predicate IdsKnown(run: seq<Ledger>, j: nat)
    requires j < |run|
  {
    IdsIdentify(run[j]) && forall i :: 0 <= i <= j ==> IdsIdentify(run[i]) && run[i].nextId <= run[j].nextId
  }

  lemma ReadsAreKnown(run: seq<Ledger>, j: nat, s: Statement)
    requires j < |run| && IdsKnown(run, j) && Requested(run, j, s)
    ensures KnowsIds(run[j], s)
  {
    forall id: RowId | WasRead(run, j, id)
      ensures id < run[j].nextId
    {
      var i :| 0 <= i <= j && HasRow(run[i], id);
    }
  }

  /** In every state of every run each total is the sum of its columns and ids identify rows. */
  lemma {:induction false} TotalsAndIdsHold(run: seq<Ledger>, statements: seq<Statement>, j: nat)
    requires IsRun(run, statements) && TotalsAgree(run[0]) && IdsIdentify(run[0]) && j < |run|
    ensures TotalsAgree(run[j]) && IdsKnown(run, j)
    decreases j
  {
    if j > 0 {
      TotalsAndIdsHold(run, statements, j - 1);
      var l, s := run[j - 1], statements[j - 1];
      assert run[j - 1 + 1] == AfterStatement(l, s) && Requested(run, j - 1, s);
      ReadsAreKnown(run, j - 1, s);
      NextIdGrows(l, s);
      if Exec(l, s).Some? {
        ExecKeepsTotals(l, s);
        ExecKeepsIds(l, s);
      }
    }
  }

  /** A statement that goes through and takes the row from under a contributor, old or new. */
  ghost predicate Orphans(l: Ledger, s: Statement) {
    Exec(l, s).Some? && !KeepsRows(l, s)
  }

  /**
   * A run that starts sound has no orphan in any of its states if and only if none of its statements deletes
   * a row that has contributors at that moment, or adds one to a row that is gone by then.
   */
  lemma OrphanFreeExactly(run: seq<Ledger>, statements: seq<Statement>)
    requires IsRun(run, statements) && Sound(run[0])
    ensures (forall j :: 0 <= j < |run| ==> NoOrphans(run[j])) <==>
            (forall j :: 0 <= j < |statements| ==> !Orphans(run[j], statements[j]))
  {
    if forall j :: 0 <= j < |run| ==> NoOrphans(run[j]) {
      forall j | 0 <= j < |statements|
        ensures !Orphans(run[j], statements[j])
      {
        StepOrphansExactly(run, statements, j);
      }
    }
    if forall j :: 0 <= j < |statements| ==> !Orphans(run[j], statements[j]) {
      forall j | 0 <= j < |run|
        ensures NoOrphans(run[j])
      {
        HarmlessKeeps(run, statements, j);
      }
    }
  }

  lemma StepOrphansExactly(run: seq<Ledger>, statements: seq<Statement>, j: nat)
    requires IsRun(run, statements) && Sound(run[0]) && j < |statements| && NoOrphans(run[j])
    ensures NoOrphans(run[j + 1]) <==> !Orphans(run[j], statements[j])
  {
    TotalsAndIdsHold(run, statements, j);
    assert run[j + 1] == AfterStatement(run[j], statements[j]);
    if Exec(run[j], statements[j]).Some? {
      ExecKeepsRows(run[j], statements[j]);
    }
  }

  lemma {:induction false} HarmlessKeeps(run: seq<Ledger>, statements: seq<Statement>, j: nat)
    requires IsRun(run, statements) && Sound(run[0]) && j < |run|
    requires forall i :: 0 <= i < |statements| ==> !Orphans(run[i], statements[i])
    ensures NoOrphans(run[j])
    decreases j
  {
    if j > 0 {
      HarmlessKeeps(run, statements, j - 1);
      StepOrphansExactly(run, statements, j - 1);
    }
  }
}
