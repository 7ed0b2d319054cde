/** Password resets that overlap: every database access of resetPassword is a step of its own. */
module PasswordRace {
  import opened Wrappers
  import opened Passwords

  type TaskId = nat

  datatype Phase =
    | Started
    | Compared(current: Option<string>)
    | Checked(current: Option<string>)
    | Claimed(current: Option<string>)
    | Created
    | Trimming(ids: set<nat>)
    | Done
    | Refused

  datatype Task = Task(password: string, token: string, phase: Phase) {
    /** The update has gone through; what follows cannot undo that. */
    predicate Succeeded() {
      phase.Claimed? || phase.Created? || phase.Trimming? || phase.Done?
    }
  }

  /** The account, the tokens sent out so far, the resets and, newest first, all passwords the account had. */
  datatype State = State(account: Account, issued: set<string>, tasks: map<TaskId, Task>, log: seq<string>)

  datatype Step =
    | Issue(token: string)
    | Begin(started: TaskId, password: string, with: string)
    | Advance(id: TaskId)
    | FailArchiving(failed: TaskId)

  /**
   * Tokens are random, so a new one was never sent before; a reset begins after validateToken has found its
   * token stored.
   */
  predicate Enabled(s: State, step: Step) {
    match step
    case Issue(token) => token !in s.issued
    case Begin(id, _, token) => id !in s.tasks && s.account.token == Some(token)
    case Advance(id) => id in s.tasks && !s.tasks[id].phase.Done? && !s.tasks[id].phase.Refused?
    case FailArchiving(id) => id in s.tasks && s.tasks[id].Succeeded()
  }

  function AfterPhase(s: State, config: Config, task: Task): Phase {
    match task.phase
    case Started => if s.account.password == Some(task.password) then Refused else Compared(s.account.password)
    case Compared(current) =>
      if config.historyEnabled && Matches(task.password, Take(s.account.history, config.limit)) then Refused
      else Checked(current)
    case Checked(current) =>
      if s.account.token != Some(task.token) then Refused
      else if config.historyEnabled && current.Some? then Claimed(current)
      else Done
    case Claimed(_) => Created
    case Created => if |s.account.history| > config.limit then Trimming(IdsBeyond(s.account.history, config.limit)) else Done
    case _ => Done
  }

  function AfterAccount(a: Account, task: Task): Account {
    match task.phase
    case Checked(_) => if a.token == Some(task.token) then a.(password := Some(task.password), token := None) else a
    case Claimed(current) =>
      if current.None? then a
      else a.(history := [Old(a.nextId, current.value)] + a.history, nextId := a.nextId + 1)
    case Trimming(ids) => a.(history := WithoutIds(a.history, ids))
    case _ => a
  }

  function Apply(s: State, config: Config, step: Step): State
    requires Enabled(s, step)
  {
    match step
    case Issue(token) => State(s.account.(token := Some(token)), s.issued + {token}, s.tasks, s.log)
    case Begin(id, password, token) => s.(tasks := s.tasks[id := Task(password, token, Started)])
    case Advance(id) =>
      var task := s.tasks[id];
      var task' := Task(task.password, task.token, AfterPhase(s, config, task));
      State(AfterAccount(s.account, task), s.issued, s.tasks[id := task'],
            if !task.Succeeded() && task'.Succeeded() then [task.password] + s.log else s.log)
    case FailArchiving(id) => s.(tasks := s.tasks[id := s.tasks[id].(phase := Done)])
  }

  ghost predicate IsRun(config: Config, run: seq<State>) {
    && run != []
    && run[0].tasks == map[] && (run[0].account.token.Some? ==> run[0].account.token.value in run[0].issued)
    && run[0].account.password == (if run[0].log == [] then None else Some(run[0].log[0])) && NeighboursDiffer(run[0].log)
    && forall i :: 0 <= i < |run| - 1 ==> IsStep(config, run[i], run[i + 1])
  }

  ghost predicate IsStep(config: Config, s: State, s': State) {
    exists step :: Enabled(s, step) && s' == Apply(s, config, step)
  }

  // ---------- What every step keeps ----------

  ghost predicate TokensSpent(s: State) {
    && (s.account.token.Some? ==> s.account.token.value in s.issued)
    && (forall id | id in s.tasks :: s.tasks[id].token in s.issued)
    && (forall id | id in s.tasks && s.tasks[id].Succeeded() :: s.account.token != Some(s.tasks[id].token))
    && (forall a, b | a in s.tasks && b in s.tasks && s.tasks[a].Succeeded() && s.tasks[b].Succeeded() ::
          s.tasks[a].token == s.tasks[b].token ==> a == b)
  }

  /** While a reset's token is stored, the password it compared with is still the current one. */
  ghost predicate ComparisonHolds(s: State, task: Task) {
    (task.phase.Compared? || task.phase.Checked?) && s.account.token == Some(task.token) ==>
      task.phase.current == s.account.password && s.account.password != Some(task.password)
  }

  ghost predicate NeighboursDiffer(log: seq<string>) {
    forall i :: 0 <= i < |log| - 1 ==> log[i] != log[i + 1]
  }

  ghost predicate Inv(s: State) {
    && TokensSpent(s)
    && (forall id | id in s.tasks :: ComparisonHolds(s, s.tasks[id]))
    && s.account.password == (if s.log == [] then None else Some(s.log[0]))
    && NeighboursDiffer(s.log)
  }

  lemma AdvanceKeepsInv(s: State, config: Config, id: TaskId)
    requires Inv(s) && Enabled(s, Advance(id))
    ensures Inv(Apply(s, config, Advance(id)))
  {
    var s' := Apply(s, config, Advance(id));
    var task := s.tasks[id];
    assert ComparisonHolds(s, task);
    forall other | other in s'.tasks
      ensures ComparisonHolds(s', s'.tasks[other])
    {
      if other != id {
        assert ComparisonHolds(s, s.tasks[other]);
      }
    }
    assert TokensSpent(s');
    if s'.log != s.log && s.log != [] {
      assert s'.log[0] != s.log[0];
      assert forall i :: 0 < i < |s'.log| ==> s'.log[i] == s.log[i - 1];
    }
  }

  lemma StepKeepsInv(s: State, config: Config, step: Step)
    requires Inv(s) && Enabled(s, step)
    ensures Inv(Apply(s, config, step))
  {
    var s' := Apply(s, config, step);
    match step
    case Advance(id) => AdvanceKeepsInv(s, config, id);
    case _ =>
      forall other | other in s'.tasks
        ensures ComparisonHolds(s', s'.tasks[other])
      {
        if other in s.tasks {
          assert ComparisonHolds(s, s.tasks[other]);
        }
      }
  }

  lemma {:induction false} RunKeepsInv(config: Config, run: seq<State>)
    requires IsRun(config, run)
    ensures Inv(run[|run| - 1])
  {
    if |run| > 1 {
      var last := |run| - 2;
      assert IsStep(config, run[last], run[last + 1]);
      RunKeepsInv(config, run[..last + 1]);
      var step :| Enabled(run[last], step) && run[last + 1] == Apply(run[last], config, step);
      StepKeepsInv(run[last], config, step);
    }
  }

  /** However resets overlap, a token changes the password at most once. */
  lemma OneResetPerToken(config: Config, run: seq<State>, a: TaskId, b: TaskId)
    requires IsRun(config, run)
    requires var s := run[|run| - 1];
             a in s.tasks && b in s.tasks && s.tasks[a].Succeeded() && s.tasks[b].Succeeded() &&
             s.tasks[a].token == s.tasks[b].token
    ensures a == b
  {
    RunKeepsInv(config, run);
  }

  /** However resets overlap, no change leaves the password what it was. */
  lemma ConsecutivePasswordsDiffer(config: Config, run: seq<State>)
    requires IsRun(config, run)
    ensures NeighboursDiffer(run[|run| - 1].log)
  {
    RunKeepsInv(config, run);
  }

  // ---------- What overlapping resets can still do ----------

  /** The state after a list of steps, if each can be taken where it comes. */
  function ApplyAll(s: State, config: Config, steps: seq<Step>): Option<State>
    decreases steps
  {
    if steps == [] then Some(s)
    else if !Enabled(s, steps[0]) then None
    else ApplyAll(Apply(s, config, steps[0]), config, steps[1..])
  }

  lemma {:induction false} ApplyAllAppend(s: State, config: Config, first: seq<Step>, second: seq<Step>)
    requires ApplyAll(s, config, first).Some?
    ensures ApplyAll(s, config, first + second) == ApplyAll(ApplyAll(s, config, first).value, config, second)
    decreases first
  {
    if first == [] {
      assert first + second == second;
    } else {
      assert (first + second)[1..] == first[1..] + second;
      ApplyAllAppend(Apply(s, config, first[0]), config, first[1..], second);
    }
  }

  // ---------- One reset on its own ----------

  /** How far a reset that nobody disturbs has come, from the account it found. */
  ghost predicate Along(a: Account, log: seq<string>, config: Config, id: TaskId, s: State) {
    id in s.tasks &&
    var password, token := s.tasks[id].password, s.tasks[id].token;
    var claimed, archived := a.(password := Some(password), token := None), Old(a.nextId, a.password.GetOr(""));
    var created := claimed.(history := [archived] + a.history, nextId := a.nextId + 1);
    && a.token == Some(token)
    && s.log == (if s.tasks[id].Succeeded() then [password] + log else log)
    && match s.tasks[id].phase
       case Started => s.account == a
       case Compared(current) => s.account == a && current == a.password && current != Some(password)
       case Checked(current) => s.account == a && current == a.password && !Reused(a, config, password)
       case Claimed(current) =>
         s.account == claimed && current == a.password && current.Some? && config.historyEnabled && !Reused(a, config, password)
       case Created => s.account == created && a.password.Some? && config.historyEnabled && !Reused(a, config, password)
       case Trimming(ids) =>
         && s.account == created && ids == IdsBeyond(created.history, config.limit)
         && a.password.Some? && config.historyEnabled && !Reused(a, config, password)
       case Done => (s.account, Changed) == AfterReset(a, config, password, Some(token), Works)
       case Refused => (s.account, UsedPreviously) == AfterReset(a, config, password, Some(token), Works)
  }

  lemma AdvanceAlong(a: Account, log: seq<string>, config: Config, id: TaskId, s: State)
    requires ValidHistory(a.history, a.nextId) && Along(a, log, config, id, s) && Enabled(s, Advance(id))
    ensures Along(a, log, config, id, Apply(s, config, Advance(id)))
    ensures Left(Apply(s, config, Advance(id)).tasks[id].phase) < Left(s.tasks[id].phase)
  {
    if s.tasks[id].phase.Trimming? {
      DeletingBeyond(s.account.history, s.account.nextId, config.limit, s.tasks[id].phase.ids);
    }
  }

  /** The steps that are left at most. */
  function Left(phase: Phase): nat {
    match phase
    case Started => 6
    case Compared(_) => 5
    case Checked(_) => 4
    case Claimed(_) => 3
    case Created => 2
    case Trimming(_) => 1
    case _ => 0
  }

  /** Undisturbed, the steps of a reset come to an end and make of the account what the reset at once does. */
  lemma {:induction false} AloneIsReset(a: Account, log: seq<string>, config: Config, id: TaskId, s: State) returns (n: nat)
    requires ValidHistory(a.history, a.nextId) && Along(a, log, config, id, s)
    ensures var end := ApplyAll(s, config, seq(n, _ => Advance(id)));
            && end.Some? && id in end.value.tasks
            && var task, (account, outcome) := s.tasks[id], AfterReset(a, config, s.tasks[id].password, Some(s.tasks[id].token), Works);
               && end.value.account == account
               && end.value.tasks[id].phase == (if outcome.Changed? then Done else Refused)
               && end.value.log == (if outcome.Changed? then [task.password] + log else log)
    decreases Left(s.tasks[id].phase)
  {
    n := 0;
    if Enabled(s, Advance(id)) {
      AdvanceAlong(a, log, config, id, s);
      var rest := AloneIsReset(a, log, config, id, Apply(s, config, Advance(id)));
      n := rest + 1;
      assert seq(n, _ => Advance(id)) == [Advance(id)] + seq(rest, _ => Advance(id));
    }
  }

  function UpToClaim(id: TaskId, password: string, token: string): seq<Step> {
    [Issue(token), Begin(id, password, token), Advance(id), Advance(id), Advance(id)]
  }

  function Claiming(s: State, id: TaskId, password: string, token: string): State {
    State(s.account.(password := Some(password), token := None), s.issued + {token},
          s.tasks[id := Task(password, token, Claimed(s.account.password))], [password] + s.log)
  }

  lemma ClaimGoesThrough(s: State, config: Config, id: TaskId, password: string, token: string)
    requires config.historyEnabled && !Matches(password, Take(s.account.history, config.limit))
    requires token !in s.issued && id !in s.tasks && s.account.password.Some? && s.account.password != Some(password)
    ensures ApplyAll(s, config, UpToClaim(id, password, token)) == Some(Claiming(s, id, password, token))
  {
    var steps := UpToClaim(id, password, token);
    var s1 := Apply(s, config, steps[0]);
    var s2 := Apply(s1, config, steps[1]);
    var s3 := Apply(s2, config, steps[2]);
    var s4 := Apply(s3, config, steps[3]);
    var s5 := Apply(s4, config, steps[4]);
    assert s3.tasks == s.tasks[id := Task(password, token, Compared(s.account.password))];
    assert s4.tasks == s.tasks[id := Task(password, token, Checked(s.account.password))];
    assert s5 == Claiming(s, id, password, token);
    assert steps[1..][1..][1..][1..][1..] == [];
    assert ApplyAll(s4, config, steps[1..][1..][1..][1..]) == Some(s5);
    assert ApplyAll(s3, config, steps[1..][1..][1..]) == Some(s5);
    assert ApplyAll(s2, config, steps[1..][1..]) == Some(s5);
  }

  /**
   * So the guarantee of the history is one for resets that do not overlap: whatever the limit, a second reset
   * that checks before the first one has archived brings the password back that the first one replaced.
   */
  lemma LateArchiveAllowsReuse(s: State, config: Config, password: string, a: TaskId, b: TaskId, t: string, u: string)
    requires config.historyEnabled && s.account.password.Some? && s.account.password != Some(password)
    requires !Matches(password, Take(s.account.history, config.limit))
    requires !Matches(s.account.password.value, Take(s.account.history, config.limit))
    requires a !in s.tasks && b !in s.tasks && a != b && t !in s.issued && u !in s.issued && t != u
    ensures var current := s.account.password.value;
            var end := ApplyAll(s, config, UpToClaim(a, password, t) + UpToClaim(b, current, u));
            && end.Some? && end.value.log == [current, password] + s.log
            && a in end.value.tasks && b in end.value.tasks
            && end.value.tasks[a].Succeeded() && end.value.tasks[b].Succeeded()
  {
    ClaimGoesThrough(s, config, a, password, t);
    var s' := Claiming(s, a, password, t);
    ClaimGoesThrough(s', config, b, s.account.password.value, u);
    ApplyAllAppend(s, config, UpToClaim(a, password, t), UpToClaim(b, s.account.password.value, u));
  }
}
