/**
 * When overlapping password resets keep the guarantee of the history: if no reset reads the history while the
 * password that another one has replaced is still to be archived.
 */
module PasswordOrder {
  import opened Wrappers
  import opened Passwords
  import opened PasswordRace

  /** No reset has changed the password without having archived the old one yet. */
  ghost predicate NothingUnarchived(s: State) {
    forall id | id in s.tasks :: !s.tasks[id].phase.Claimed?
  }

  /** The history is read only then, and archiving does not fail. */
  ghost predicate Orderly(s: State, step: Step) {
    match step
    case Advance(id) => id in s.tasks && s.tasks[id].phase.Compared? ==> NothingUnarchived(s)
    case FailArchiving(id) => id in s.tasks ==> !s.tasks[id].phase.Claimed?
    case _ => true
  }

  // ---------- What orderly steps keep ----------

  /** The history is the log from position `first` on, and reaches back far enough. */
  ghost predicate Records(history: seq<Old>, log: seq<string>, first: nat, limit: nat) {
    && first + |history| <= |log| && (|history| >= limit || first + |history| == |log|)
    && forall i :: 0 <= i < |history| ==> history[i].password == log[first + i]
  }

  /** The rows with these ids are the oldest ones, none of them within the limit. */
  ghost predicate TrimsSuffix(history: seq<Old>, limit: nat, ids: set<nat>) {
    exists n: nat :: n >= limit && TrimsFrom(history, n, ids)
  }

  predicate TrimsFrom(history: seq<Old>, n: nat, ids: set<nat>) {
    forall i :: 0 <= i < |history| ==> (history[i].id in ids <==> i >= n)
  }

  ghost predicate TaskInOrder(s: State, config: Config, task: Task) {
    match task.phase
    case Checked(_) =>
      s.account.token == Some(task.token) ==> NothingUnarchived(s) && task.password !in Take(s.log, Window(config))
    case Claimed(current) => |s.log| > 1 && current == Some(s.log[1]) && Records(s.account.history, s.log, 2, config.limit)
    case Trimming(ids) => TrimsSuffix(s.account.history, config.limit, ids) && forall id | id in ids :: id < s.account.nextId
    case _ => true
  }

  ghost predicate InOrder(s: State, config: Config) {
    && Inv(s) && ValidHistory(s.account.history, s.account.nextId) && ApartWithin(s.log, Window(config))
    && (forall id | id in s.tasks :: TaskInOrder(s, config, s.tasks[id]))
    && (forall a, b | a in s.tasks && b in s.tasks && s.tasks[a].phase.Claimed? && s.tasks[b].phase.Claimed? :: a == b)
    && (NothingUnarchived(s) ==> Remembers(Trail(s.account, s.log), config))
  }

  /** Reading the history, when it is complete. */
  lemma CheckKeeps(s: State, config: Config, id: TaskId)
    requires config.historyEnabled && InOrder(s, config) && Enabled(s, Advance(id)) && Orderly(s, Advance(id))
    requires s.tasks[id].phase.Compared?
    ensures InOrder(Apply(s, config, Advance(id)), config)
  {
    var s', task := Apply(s, config, Advance(id)), s.tasks[id];
    StepKeepsInv(s, config, Advance(id));
    ReusedExactly(Trail(s.account, s.log), config, task.password);
    assert ComparisonHolds(s, task);
    SameAccountInOrder(s, s', config, id);
  }

  /** The update: the password joins the log, and the one it replaces is now the one to archive. */
  lemma ClaimKeeps(s: State, config: Config, id: TaskId)
    requires config.historyEnabled && InOrder(s, config) && Enabled(s, Advance(id)) && s.tasks[id].phase.Checked?
    ensures InOrder(Apply(s, config, Advance(id)), config)
  {
    var s', task := Apply(s, config, Advance(id)), s.tasks[id];
    StepKeepsInv(s, config, Advance(id));
    assert ComparisonHolds(s, task) && TaskInOrder(s, config, task);
    if s.account.token == Some(task.token) {
      NewestApart(s.log, task.password, Window(config));
      ClaimedRecords(s, s', config, id);
    } else {
      SameAccountInOrder(s, s', config, id);
    }
  }

  lemma ClaimedRecords(s: State, s': State, config: Config, id: TaskId)
    requires config.historyEnabled && InOrder(s, config) && Enabled(s, Advance(id)) && s.tasks[id].phase.Checked?
    requires s' == Apply(s, config, Advance(id)) && s.account.token == Some(s.tasks[id].token)
    ensures forall other | other in s'.tasks :: TaskInOrder(s', config, s'.tasks[other])
    ensures forall other | other in s'.tasks && other != id :: !s'.tasks[other].phase.Claimed?
    ensures NothingUnarchived(s') ==> Remembers(Trail(s'.account, s'.log), config)
  {
    var task := s.tasks[id];
    assert ComparisonHolds(s, task) && TaskInOrder(s, config, task);
    assert s'.log == [task.password] + s.log;
    forall other | other in s'.tasks
      ensures TaskInOrder(s', config, s'.tasks[other])
      ensures other != id ==> !s'.tasks[other].phase.Claimed?
    {
      assert s'.tasks[id].phase.Claimed? <==> s.account.password.Some?;
      if other != id {
        assert TaskInOrder(s, config, s.tasks[other]);
      }
    }
    if NothingUnarchived(s') {
      assert !s'.tasks[id].phase.Claimed?;
    }
  }

  /** The account and the log stay, and the task that moved is in order by itself. */
  lemma SameAccountInOrder(s: State, s': State, config: Config, id: TaskId)
    requires InOrder(s, config) && Inv(s') && s'.account == s.account && s'.log == s.log
    requires id in s'.tasks && s'.tasks == s.tasks[id := s'.tasks[id]]
    requires TaskInOrder(s', config, s'.tasks[id])
    requires s'.tasks[id].phase.Claimed? ==> id in s.tasks && s.tasks[id].phase.Claimed?
    requires id in s.tasks && s.tasks[id].phase.Claimed? ==> s'.tasks[id].phase.Claimed?
    ensures InOrder(s', config)
  {
    forall other | other in s'.tasks
      ensures TaskInOrder(s', config, s'.tasks[other])
    {
      if other != id {
        assert TaskInOrder(s, config, s.tasks[other]);
      }
    }
    assert forall other | other in s.tasks :: other in s'.tasks && s'.tasks[other].phase.Claimed? == s.tasks[other].phase.Claimed?;
    assert NothingUnarchived(s) <==> NothingUnarchived(s');
  }

  /** Archiving: the replaced password becomes the newest row of the history. */
  lemma CreateKeeps(s: State, config: Config, id: TaskId)
    requires config.historyEnabled && InOrder(s, config) && Enabled(s, Advance(id)) && s.tasks[id].phase.Claimed?
    ensures InOrder(Apply(s, config, Advance(id)), config)
  {
    var s', task := Apply(s, config, Advance(id)), s.tasks[id];
    StepKeepsInv(s, config, Advance(id));
    assert TaskInOrder(s, config, task);
    var row := Old(s.account.nextId, s.log[1]);
    assert s'.account.history == [row] + s.account.history;
    forall other | other in s'.tasks
      ensures TaskInOrder(s', config, s'.tasks[other])
    {
      if other != id {
        assert TaskInOrder(s, config, s.tasks[other]);
        if s.tasks[other].phase.Trimming? {
          PrependTrims(s.account.history, row, config.limit, s.tasks[other].phase.ids);
        }
      }
    }
  }

  lemma PrependTrims(history: seq<Old>, row: Old, limit: nat, ids: set<nat>)
    requires TrimsSuffix(history, limit, ids) && row.id !in ids
    ensures TrimsSuffix([row] + history, limit, ids)
  {
    var n: nat :| n >= limit && TrimsFrom(history, n, ids);
    assert TrimsFrom([row] + history, n + 1, ids);
  }

  lemma TakeTrims(history: seq<Old>, n: nat, limit: nat, ids: set<nat>)
    requires TrimsSuffix(history, limit, ids)
    ensures TrimsSuffix(Take(history, n), limit, ids)
  {
    var m: nat :| m >= limit && TrimsFrom(history, m, ids);
    assert TrimsFrom(Take(history, n), m, ids);
  }

  /** Deleting the oldest rows beyond the limit, some of which may be gone already. */
  lemma TrimKeeps(s: State, config: Config, id: TaskId)
    requires config.historyEnabled && InOrder(s, config) && Enabled(s, Advance(id)) && s.tasks[id].phase.Trimming?
    ensures InOrder(Apply(s, config, Advance(id)), config)
  {
    var s', task := Apply(s, config, Advance(id)), s.tasks[id];
    StepKeepsInv(s, config, Advance(id));
    assert TaskInOrder(s, config, task);
    var history := s.account.history;
    var n: nat :| n >= config.limit && TrimsFrom(history, n, task.phase.ids);
    DeletingBeyond(history, s.account.nextId, n, task.phase.ids);
    assert s'.account == s.account.(history := Take(history, n));
    if NothingUnarchived(s) {
      TakeRemembers(s.account, s.log, config, n);
    }
    assert forall other :: other in s.tasks && other != id ==> s'.tasks[other] == s.tasks[other];
    assert NothingUnarchived(s') <==> NothingUnarchived(s);
    forall other | other in s'.tasks
      ensures TaskInOrder(s', config, s'.tasks[other])
    {
      if other != id {
        assert TaskInOrder(s, config, s.tasks[other]);
        TrimmedTask(s, s', config, s.tasks[other], n);
      }
    }
  }

  lemma TakeRemembers(a: Account, log: seq<string>, config: Config, n: nat)
    requires Remembers(Trail(a, log), config) && n >= config.limit
    ensures Remembers(Trail(a.(history := Take(a.history, n)), log), config)
  {
  }

  lemma TrimmedTask(s: State, s': State, config: Config, task: Task, n: nat)
    requires TaskInOrder(s, config, task) && n >= config.limit && s'.log == s.log
    requires s'.account == s.account.(history := Take(s.account.history, n))
    requires NothingUnarchived(s) ==> NothingUnarchived(s')
    ensures TaskInOrder(s', config, task)
  {
    if task.phase.Trimming? {
      TakeTrims(s.account.history, n, config.limit, task.phase.ids);
    }
  }

  /** The look at the ids beyond the limit. */
  lemma LookKeeps(s: State, config: Config, id: TaskId)
    requires config.historyEnabled && InOrder(s, config) && Enabled(s, Advance(id)) && s.tasks[id].phase.Created?
    ensures InOrder(Apply(s, config, Advance(id)), config)
  {
    var s' := Apply(s, config, Advance(id));
    StepKeepsInv(s, config, Advance(id));
    if s'.tasks[id].phase.Trimming? {
      assert TrimsFrom(s.account.history, config.limit, s'.tasks[id].phase.ids);
    }
    SameAccountInOrder(s, s', config, id);
  }

  lemma AdvanceKeeps(s: State, config: Config, id: TaskId)
    requires config.historyEnabled && InOrder(s, config) && Enabled(s, Advance(id)) && Orderly(s, Advance(id))
    ensures InOrder(Apply(s, config, Advance(id)), config)
  {
    match s.tasks[id].phase
    case Started =>
      StepKeepsInv(s, config, Advance(id));
      SameAccountInOrder(s, Apply(s, config, Advance(id)), config, id);
    case Compared(_) => CheckKeeps(s, config, id);
    case Checked(_) => ClaimKeeps(s, config, id);
    case Claimed(_) => CreateKeeps(s, config, id);
    case Created => LookKeeps(s, config, id);
    case Trimming(_) => TrimKeeps(s, config, id);
  }

  /** A new token is sent: no reset carries it yet. */
  lemma IssueKeeps(s: State, config: Config, token: string)
    requires InOrder(s, config) && Enabled(s, Issue(token))
    ensures InOrder(Apply(s, config, Issue(token)), config)
  {
    var s' := Apply(s, config, Issue(token));
    StepKeepsInv(s, config, Issue(token));
    forall other | other in s'.tasks
      ensures TaskInOrder(s', config, s'.tasks[other])
    {
      assert TaskInOrder(s, config, s.tasks[other]) && s.tasks[other].token in s.issued;
    }
    assert NothingUnarchived(s') ==> NothingUnarchived(s);
  }

  lemma StepKeepsOrder(s: State, config: Config, step: Step)
    requires config.historyEnabled && InOrder(s, config) && Enabled(s, step) && Orderly(s, step)
    ensures InOrder(Apply(s, config, step), config)
  {
    StepKeepsInv(s, config, step);
    match step
    case Issue(token) => IssueKeeps(s, config, token);
    case Begin(id, _, _) => SameAccountInOrder(s, Apply(s, config, step), config, id);
    case Advance(id) => AdvanceKeeps(s, config, id);
    case FailArchiving(id) => SameAccountInOrder(s, Apply(s, config, step), config, id);
  }

  // ---------- Orderly runs ----------

  ghost predicate IsOrderlyStep(config: Config, s: State, s': State) {
    exists step :: Enabled(s, step) && Orderly(s, step) && s' == Apply(s, config, step)
  }

  ghost predicate IsOrderlyRun(config: Config, run: seq<State>) {
    && IsRun(config, run) && ValidHistory(run[0].account.history, run[0].account.nextId)
    && Remembers(Trail(run[0].account, run[0].log), config) && ApartWithin(run[0].log, Window(config))
    && forall i :: 0 <= i < |run| - 1 ==> IsOrderlyStep(config, run[i], run[i + 1])
  }

  lemma {:induction false} RunKeepsOrder(config: Config, run: seq<State>)
    requires config.historyEnabled && IsOrderlyRun(config, run)
    ensures InOrder(run[|run| - 1], config)
  {
    if |run| > 1 {
      var last := |run| - 2;
      assert IsOrderlyStep(config, run[last], run[last + 1]);
      RunKeepsOrder(config, run[..last + 1]);
      var step :| Enabled(run[last], step) && Orderly(run[last], step) && run[last + 1] == Apply(run[last], config, step);
      StepKeepsOrder(run[last], config, step);
    }
  }

  /**
   * However resets overlap: as long as none reads the history while a replaced password is still to be
   * archived, and archiving works, any limit + 2 consecutive passwords are pairwise distinct.
   */
  lemma OrderlyResetsKeepDistinct(config: Config, run: seq<State>)
    requires config.historyEnabled && IsOrderlyRun(config, run)
    ensures ApartWithin(run[|run| - 1].log, config.limit + 1)
  {
    RunKeepsOrder(config, run);
  }

  // ---------- Why it has to be so ----------

  /** Whether a reset that starts now to a password that is not the current one goes through. */
  lemma FreshResetExactly(s: State, config: Config, id: TaskId, password: string, token: string)
    requires config.historyEnabled && s.account.password.Some? && s.account.password != Some(password)
    requires token !in s.issued && id !in s.tasks
    ensures ApplyAll(s, config, UpToClaim(id, password, token)) == Some(Claiming(s, id, password, token)) <==>
            !Matches(password, Take(s.account.history, config.limit))
  {
    if Matches(password, Take(s.account.history, config.limit)) {
      RefusedReset(s, config, id, password, token);
    } else {
      ClaimGoesThrough(s, config, id, password, token);
    }
  }

  lemma RefusedReset(s: State, config: Config, id: TaskId, password: string, token: string)
    requires config.historyEnabled && Matches(password, Take(s.account.history, config.limit))
    requires token !in s.issued && id !in s.tasks && s.account.password != Some(password)
    ensures ApplyAll(s, config, UpToClaim(id, password, token)) == None
  {
    var steps := UpToClaim(id, password, token);
    var s1 := Apply(s, config, steps[0]);
    var s2 := Apply(s1, config, steps[1]);
    var s3 := Apply(s2, config, steps[2]);
    var s4 := Apply(s3, config, steps[3]);
    assert s3.tasks == s.tasks[id := Task(password, token, Compared(s.account.password))];
    assert s4.tasks[id].phase == Refused;
    assert ApplyAll(s4, config, steps[1..][1..][1..][1..]) == None;
    assert ApplyAll(s3, config, steps[1..][1..][1..]) == None;
    assert ApplyAll(s2, config, steps[1..][1..]) == None;
  }

  /**
   * In a state that orderly steps have led to: the password before the current one can be brought back by a
   * reset that starts now if and only if it is still to be archived (or the limit is 0).
   */
  lemma BroughtBackExactly(s: State, config: Config, id: TaskId, token: string)
    requires config.historyEnabled && InOrder(s, config) && |s.log| > 1
    requires token !in s.issued && id !in s.tasks
    ensures ApplyAll(s, config, UpToClaim(id, s.log[1], token)) == Some(Claiming(s, id, s.log[1], token)) <==>
            config.limit == 0 || !NothingUnarchived(s)
  {
    FreshResetExactly(s, config, id, s.log[1], token);
    assert s.log[0] != s.log[1];
    var recent := Take(s.account.history, config.limit);
    if NothingUnarchived(s) {
      if config.limit > 0 {
        assert recent[0].password == s.log[1];
      }
    } else {
      var other :| other in s.tasks && s.tasks[other].phase.Claimed?;
      assert TaskInOrder(s, config, s.tasks[other]);
      forall i | 0 <= i < |recent|
        ensures recent[i].password != s.log[1]
      {
        assert recent[i].password == s.log[2 + i];
      }
    }
  }
}
