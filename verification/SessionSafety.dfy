/**
 * What a superseded session can still do. The bound of SessionBounds is reached; a superseded
 * session never returns to the database; and an instance that has evicted it, or a refresh that
 * has consumed it, is final exactly when no handler that already read the old row is in flight.
 */
module SessionSafety {
  import opened Wrappers
  import opened JsMaps
  import opened AuthCaches
  import opened TokenValidation
  import opened SessionProtocol

  // ---------- The bound is tight ----------

  const TOKEN := Claims(1, "a")
  const OWNER := Credentials(1, "a", false)

  function SlowAnswerSteps(latency: nat): seq<Step> {
    [StartValidate(0, 0, TOKEN), Read(0, false), Login(1, 1, 1, "b"), Tick(latency), Deliver(0),
     Tick(10_000), StartValidate(0, 0, TOKEN)]
  }

  /** Instance 0 after it stored, at time `now`, an answer that was read at time 0. */
  function LateCache(now: nat): CacheState {
    StoreVersion(Store(EMPTY_CACHE, 1, "a", OWNER, now), 1, Some("a"), now)
  }

  function Moment(now: nat, session: string, c: CacheState, tasks: map<TaskId, Task>): State {
    State(now, map[1 := UserRow(false, false, false, Some(session))], map[0 := c, 1 := EMPTY_CACHE], tasks,
          if session == "a" then {"a"} else {"a", "b"})
  }

  /** One user, two instances; an answer waits for `latency` while a login goes through. */
  function SlowAnswerRun(latency: nat): seq<State> {
    var found := Found(UserRow(false, false, false, Some("a")));
    [Moment(0, "a", EMPTY_CACHE, map[]),
     Moment(0, "a", EMPTY_CACHE, map[0 := ReadingUser(0, TOKEN, 0)]),
     Moment(0, "a", EMPTY_CACHE, map[0 := UserArrived(0, TOKEN, found, 0)]),
     Moment(0, "b", EMPTY_CACHE, map[0 := UserArrived(0, TOKEN, found, 0), 1 := Evicting(1, 1)]),
     Moment(latency, "b", EMPTY_CACHE, map[0 := UserArrived(0, TOKEN, found, 0), 1 := Evicting(1, 1)]),
     Moment(latency, "b", LateCache(latency), map[1 := Evicting(1, 1)]),
     Moment(latency + 10_000, "b", LateCache(latency), map[1 := Evicting(1, 1)]),
     Moment(latency + 10_000, "b", LateCache(latency), map[1 := Evicting(1, 1)])]
  }

  lemma DifferentSessions()
    ensures "a" != "b"
  {
  }

  lemma LateCacheHits(now: nat)
    ensures Begin(LateCache(now), TOKEN, now + 10_000) == (LateCache(now), Answered(Accepted(OWNER)))
  {
  }

  /** The state that step i leads to, field by field. */
  lemma SlowAnswerStep(latency: nat, i: nat)
    requires i < 7
    ensures var s, step := SlowAnswerRun(latency)[i], SlowAnswerSteps(latency)[i];
            Enabled(latency, s, step) && SlowAnswerRun(latency)[i + 1] == Apply(latency, s, step)
  {
    DifferentSessions();
    if i == 4 {
      SlowAnswerDelivered(latency);
    } else if i == 6 {
      LateCacheHits(latency);
      SlowAnswerHit(latency);
    } else if i < 4 {
      SlowAnswerStepEarly(latency, i);
    } else {
      var s, step, next := SlowAnswerRun(latency)[i], SlowAnswerSteps(latency)[i], SlowAnswerRun(latency)[i + 1];
      assert Apply(latency, s, step).tasks == next.tasks;
      assert Apply(latency, s, step).caches == next.caches;
    }
  }

  lemma SlowAnswerStepEarly(latency: nat, i: nat)
    requires i < 4
    ensures var s, step := SlowAnswerRun(latency)[i], SlowAnswerSteps(latency)[i];
            Enabled(latency, s, step) && SlowAnswerRun(latency)[i + 1] == Apply(latency, s, step)
  {
    DifferentSessions();
    var s, step, next := SlowAnswerRun(latency)[i], SlowAnswerSteps(latency)[i], SlowAnswerRun(latency)[i + 1];
    assert Apply(latency, s, step).tasks == next.tasks;
    assert Apply(latency, s, step).caches == next.caches;
  }

  lemma SlowAnswerDelivered(latency: nat)
    ensures var run := SlowAnswerRun(latency);
            Enabled(latency, run[4], Deliver(0)) && run[5] == Apply(latency, run[4], Deliver(0))
  {
    var run := SlowAnswerRun(latency);
    assert Delivered(run[4], 0) == (LateCache(latency), Accepted(OWNER));
    assert run[4].tasks - {0} == run[5].tasks;
    assert run[4].caches[0 := LateCache(latency)] == run[5].caches;
  }

  lemma SlowAnswerHit(latency: nat)
    ensures var run := SlowAnswerRun(latency);
            var step := StartValidate(0, 0, TOKEN);
            && Enabled(latency, run[6], step) && run[7] == Apply(latency, run[6], step)
            && ResponseOf(latency, run[6], step) == Response(0, TOKEN, Accepted(OWNER), true)
  {
    LateCacheHits(latency);
    var run := SlowAnswerRun(latency);
    assert run[6].caches[0 := LateCache(latency)] == run[6].caches;
  }

  /** For every latency some run accepts a token that was superseded exactly 10 s + latency before. */
  lemma BoundIsReached(latency: nat) returns (run: seq<State>, steps: seq<Step>, j: nat)
    ensures IsRun(latency, run, steps) && j < |steps|
    ensures var r := ResponseOf(latency, run[j], steps[j]);
            && r.Response? && r.reply.Accepted? && r.checked
            && !HadSession(run, j, r.claims.userId, r.claims.sessionId, run[j].now - 10_000 - latency + 1)
  {
    run, steps, j := SlowAnswerRun(latency), SlowAnswerSteps(latency), 6;
    forall i | 0 <= i < |steps|
      ensures Enabled(latency, run[i], steps[i]) && run[i + 1] == Apply(latency, run[i], steps[i])
    {
      SlowAnswerStep(latency, i);
    }
    SlowAnswerHit(latency);
    SlowAnswerSuperseded(latency);
  }

  /** By the time the clock leaves 0 the session has moved on. */
  lemma SlowAnswerSuperseded(latency: nat)
    ensures !HadSession(SlowAnswerRun(latency), 6, 1, "a", 1)
  {
    DifferentSessions();
    var run := SlowAnswerRun(latency);
    forall i | 0 <= i <= 6 && 1 <= run[i].now
      ensures !SessionIs(run[i], 1, "a")
    {
      assert 3 <= i;
    }
  }

  // ---------- A superseded session stays superseded ----------

  predicate SessionsIssued(s: State) {
    forall u | u in s.users :: s.users[u].session.Some? ==> s.users[u].session.value in s.issued
  }

  predicate Superseded(s: State, userId: nat, sessionId: string) {
    sessionId in s.issued && !SessionIs(s, userId, sessionId)
  }

  lemma SupersededStep(latency: nat, s: State, step: Step, userId: nat, sessionId: string)
    requires Enabled(latency, s, step)
    ensures SessionsIssued(s) ==> SessionsIssued(Apply(latency, s, step))
    ensures Superseded(s, userId, sessionId) ==> Superseded(Apply(latency, s, step), userId, sessionId)
  {
  }

  lemma {:induction false} RunSessionsIssued(latency: nat, run: seq<State>, steps: seq<Step>, i: nat)
    requires IsRun(latency, run, steps) && i < |run|
    ensures SessionsIssued(run[i])
    decreases i
  {
    if i > 0 {
      RunSessionsIssued(latency, run, steps, i - 1);
      SupersededStep(latency, run[i - 1], steps[i - 1], 0, "");
    }
  }

  lemma {:induction false} IssuedStaysIssued(latency: nat, run: seq<State>, steps: seq<Step>, i: nat, j: nat, sessionId: string)
    requires IsRun(latency, run, steps) && i <= j < |run| && sessionId in run[i].issued
    ensures sessionId in run[j].issued
    decreases j
  {
    if i < j {
      IssuedStaysIssued(latency, run, steps, i, j - 1, sessionId);
      assert run[j] == Apply(latency, run[j - 1], steps[j - 1]);
    }
  }

  /** Once the database has moved on from a session it never shows that session again. */
  lemma {:induction false} SupersededForever(latency: nat, run: seq<State>, steps: seq<Step>, i: nat, j: nat, k: nat,
                                             userId: nat, sessionId: string)
    requires IsRun(latency, run, steps) && i <= j <= k < |run|
    requires SessionIs(run[i], userId, sessionId) && !SessionIs(run[j], userId, sessionId)
    ensures Superseded(run[k], userId, sessionId)
    decreases k
  {
    if k == j {
      RunSessionsIssued(latency, run, steps, i);
      IssuedStaysIssued(latency, run, steps, i, j, sessionId);
    } else {
      SupersededForever(latency, run, steps, i, j, k - 1, userId, sessionId);
      SupersededNext(latency, run, steps, k - 1, userId, sessionId);
    }
  }

  lemma SupersededNext(latency: nat, run: seq<State>, steps: seq<Step>, k: nat, userId: nat, sessionId: string)
    requires IsRun(latency, run, steps) && k < |steps| && Superseded(run[k], userId, sessionId)
    ensures Superseded(run[k + 1], userId, sessionId)
  {
    assert Enabled(latency, run[k], steps[k]) && run[k + 1] == Apply(latency, run[k], steps[k]);
    SupersededStep(latency, run[k], steps[k], userId, sessionId);
  }

  // ---------- The caches stay bounded, and an eviction is complete ----------

  lemma CachesValidStep(latency: nat, s: State, step: Step)
    requires Enabled(latency, s, step) && forall i | i in s.caches :: s.caches[i].Valid()
    ensures var s' := Apply(latency, s, step);
            forall i | i in s'.caches :: s'.caches[i].Valid()
  {
    match step
    case StartValidate(id, inst, claims) => StartKeepsValid(latency, s, id, inst, claims);
    case Deliver(id) => DeliverKeepsValid(latency, s, id);
    case Evict(id) => EvictKeepsValid(latency, s, id);
    case _ =>
  }

  lemma StartKeepsValid(latency: nat, s: State, id: TaskId, inst: Instance, claims: Claims)
    requires Enabled(latency, s, StartValidate(id, inst, claims)) && forall i | i in s.caches :: s.caches[i].Valid()
    ensures var s' := Apply(latency, s, StartValidate(id, inst, claims));
            forall i | i in s'.caches :: s'.caches[i].Valid()
  {
    BeginKeepsValid(s.caches[inst], claims, s.now);
  }

  lemma DeliverKeepsValid(latency: nat, s: State, id: TaskId)
    requires Enabled(latency, s, Deliver(id)) && forall i | i in s.caches :: s.caches[i].Valid()
    ensures var s' := Apply(latency, s, Deliver(id));
            forall i | i in s'.caches :: s'.caches[i].Valid()
  {
    var task := s.tasks[id];
    FinishKeepsValid(s.caches[task.inst], task, s.now);
  }

  lemma EvictKeepsValid(latency: nat, s: State, id: TaskId)
    requires Enabled(latency, s, Evict(id)) && forall i | i in s.caches :: s.caches[i].Valid()
    ensures var s' := Apply(latency, s, Evict(id));
            forall i | i in s'.caches :: s'.caches[i].Valid()
  {
    var task := s.tasks[id];
    OperationsKeepValid(s.caches[task.inst], task.userId, if task.EvictingSession? then task.sessionId else "",
                        Credentials(0, "", false), None, s.now);
  }

  lemma BeginCaches(c: CacheState, claims: Claims, now: nat)
    ensures var c1 := Lookup(c, claims.userId, claims.sessionId, now).0;
            var c2 := LookupVersion(c1, claims.userId, now).0;
            Begin(c, claims, now).0 in {c, c1, c2, Invalidate(c2, claims.userId, claims.sessionId)}
  {
  }

  lemma BeginKeepsValid(c: CacheState, claims: Claims, now: nat)
    requires c.Valid()
    ensures Begin(c, claims, now).0.Valid()
  {
    BeginCaches(c, claims, now);
    var u, sessionId, result := claims.userId, claims.sessionId, Credentials(0, "", false);
    OperationsKeepValid(c, u, sessionId, result, None, now);
    var c1 := Lookup(c, u, sessionId, now).0;
    OperationsKeepValid(c1, u, sessionId, result, None, now);
    OperationsKeepValid(LookupVersion(c1, u, now).0, u, sessionId, result, None, now);
  }

  lemma FinishKeepsValid(c: CacheState, task: Task, now: nat)
    requires c.Valid()
    ensures task.VersionArrived? ==> FinishVersion(c, task.claims, task.cached, task.version, now).0.Valid()
    ensures task.UserArrived? ==> FinishUser(c, task.claims, task.user, now).0.Valid()
  {
    if task.VersionArrived? {
      var u, sessionId := task.claims.userId, task.claims.sessionId;
      var session := if task.version.Found? then task.version.row else None;
      OperationsKeepValid(c, u, sessionId, task.cached, session, now);
      OperationsKeepValid(StoreVersion(c, u, session, now), u, sessionId, task.cached, session, now);
    } else if task.UserArrived? && task.user.Found? {
      var u, sessionId := task.claims.userId, task.claims.sessionId;
      var result := Credentials(u, sessionId, task.user.row.isAdmin);
      OperationsKeepValid(c, u, sessionId, result, Some(sessionId), now);
      OperationsKeepValid(Store(c, u, sessionId, result, now), u, sessionId, result, Some(sessionId), now);
    }
  }

  /** In every state of every run each instance holds at most 500 entries in either tier. */
  lemma {:induction false} CachesStayBounded(latency: nat, run: seq<State>, steps: seq<Step>, j: nat)
    requires IsRun(latency, run, steps) && j < |run|
    ensures forall i | i in run[j].caches ::
              && run[j].caches[i].Valid()
              && |run[j].caches[i].store.entries| <= 500 && |run[j].caches[i].versions.entries| <= 500
    decreases j
  {
    if j > 0 {
      CachesStayBounded(latency, run, steps, j - 1);
      CachesValidStep(latency, run[j - 1], steps[j - 1]);
    }
    forall i | i in run[j].caches
      ensures |run[j].caches[i].store.entries| <= 500 && |run[j].caches[i].versions.entries| <= 500
    {
      EntriesFit(run[j].caches[i].store);
      EntriesFit(run[j].caches[i].versions);
    }
  }

  lemma EntriesFit<V>(m: JsMap<string, V>)
    requires m.Valid()
    ensures |m.entries| == m.Size()
  {
    DistinctCount(m.order);
    assert (set k | k in m.order) == m.entries.Keys;
  }

  lemma {:induction false} DistinctCount(keys: seq<string>)
    requires Distinct(keys)
    ensures |set k | k in keys| == |keys|
  {
    if keys != [] {
      DistinctCount(keys[1..]);
      assert (set k | k in keys) == {keys[0]} + set k | k in keys[1..];
    }
  }

  /** The eviction that ends a login or a refresh leaves this user nothing on the instance. */
  lemma EvictionIsComplete(latency: nat, run: seq<State>, steps: seq<Step>, j: nat, sessionId: string)
    requires IsRun(latency, run, steps) && j < |steps|
    requires steps[j].Evict? && run[j].tasks[steps[j].id].Evicting?
    ensures var task := run[j].tasks[steps[j].id];
            && task.inst in run[j + 1].caches
            && AuthKey(task.userId, sessionId) !in run[j + 1].caches[task.inst].store.entries
  {
    CachesStayBounded(latency, run, steps, j);
    var task := run[j].tasks[steps[j].id];
    InvalidateUserExact(run[j].caches[task.inst], task.userId, task.userId, sessionId);
  }

  // ---------- What can still happen from a state ----------

  ghost predicate Possible(latency: nat, s: State, steps: seq<Step>)
    decreases steps
  {
    steps == [] || (Enabled(latency, s, steps[0]) && Possible(latency, Apply(latency, s, steps[0]), steps[1..]))
  }

  lemma OneStepPossible(latency: nat, s: State, step: Step)
    requires Enabled(latency, s, step)
    ensures Possible(latency, s, [step])
  {
  }

  predicate Accepts(latency: nat, s: State, step: Step, inst: Instance, claims: Claims)
    requires Enabled(latency, s, step)
  {
    var r := ResponseOf(latency, s, step);
    r.Response? && r.inst == inst && r.claims == claims && r.reply.Accepted?
  }

  ghost predicate EverAccepts(latency: nat, s: State, steps: seq<Step>, inst: Instance, claims: Claims)
    requires Possible(latency, s, steps)
    decreases steps
  {
    steps != [] && (Accepts(latency, s, steps[0], inst, claims) ||
                    EverAccepts(latency, Apply(latency, s, steps[0]), steps[1..], inst, claims))
  }

  /** A handler that is past the point where it would notice that the session has gone. */
  predicate CanStillAccept(latency: nat, s: State, task: Task, inst: Instance, claims: Claims) {
    match task
    case ReadingVersion(inst', claims', _, since) =>
      inst' == inst && claims' == claims && s.now <= since + latency
    case VersionArrived(inst', claims', _, version, since) =>
      && inst' == inst && claims' == claims && s.now <= since + latency
      && (version == Unavailable || version == Found(Some(claims.sessionId)))
    case UserArrived(inst', claims', user, since) =>
      && inst' == inst && claims' == claims && s.now <= since + latency
      && user.Found? && StatusError(user.row, claims) == None
    case _ => false
  }

  ghost predicate InFlight(latency: nat, s: State, inst: Instance, claims: Claims) {
    exists id :: id in s.tasks && CanStillAccept(latency, s, s.tasks[id], inst, claims)
  }

  ghost predicate Gone(s: State, inst: Instance, claims: Claims) {
    && Superseded(s, claims.userId, claims.sessionId)
    && inst in s.caches
    && AuthKey(claims.userId, claims.sessionId) !in s.caches[inst].store.entries
  }

  lemma GoneStep(latency: nat, s: State, step: Step, inst: Instance, claims: Claims)
    requires Gone(s, inst, claims) && !InFlight(latency, s, inst, claims) && Enabled(latency, s, step)
    ensures var s' := Apply(latency, s, step);
            && !Accepts(latency, s, step, inst, claims)
            && Gone(s', inst, claims) && !InFlight(latency, s', inst, claims)
  {
    SupersededStep(latency, s, step, claims.userId, claims.sessionId);
    StillNotInFlight(latency, s, step, inst, claims);
    NothingAccepted(latency, s, step, inst, claims);
    StillNotCached(latency, s, step, inst, claims);
  }

  lemma NothingAccepted(latency: nat, s: State, step: Step, inst: Instance, claims: Claims)
    requires Gone(s, inst, claims) && !InFlight(latency, s, inst, claims) && Enabled(latency, s, step)
    ensures !Accepts(latency, s, step, inst, claims)
  {
  }

  lemma StillNotInFlight(latency: nat, s: State, step: Step, inst: Instance, claims: Claims)
    requires Gone(s, inst, claims) && !InFlight(latency, s, inst, claims) && Enabled(latency, s, step)
    ensures !InFlight(latency, Apply(latency, s, step), inst, claims)
  {
    var s' := Apply(latency, s, step);
    forall id | id in s'.tasks
      ensures !CanStillAccept(latency, s', s'.tasks[id], inst, claims)
    {
      if id in s.tasks {
        assert !CanStillAccept(latency, s, s.tasks[id], inst, claims);
      }
    }
  }

  lemma StillNotCached(latency: nat, s: State, step: Step, inst: Instance, claims: Claims)
    requires Gone(s, inst, claims) && !InFlight(latency, s, inst, claims) && Enabled(latency, s, step)
    ensures var s' := Apply(latency, s, step);
            inst in s'.caches && AuthKey(claims.userId, claims.sessionId) !in s'.caches[inst].store.entries
  {
    var key := AuthKey(claims.userId, claims.sessionId);
    match step
    case Deliver(id) =>
      var task := s.tasks[id];
      assert !CanStillAccept(latency, s, task, inst, claims);
      if task.UserArrived? {
        AuthKeyInjective(claims.userId, claims.sessionId, task.claims.userId, task.claims.sessionId);
      }
    case Evict(id) =>
      DeletePrefixedShrinksKeys(s.caches[s.tasks[id].inst].store, s.caches[s.tasks[id].inst].store.order,
                                UserPrefix(s.tasks[id].userId));
    case _ =>
  }

  lemma {:induction false} DeletePrefixedShrinksKeys<V>(m: JsMap<string, V>, keys: seq<string>, prefix: string)
    ensures DeletePrefixed(m, keys, prefix).entries.Keys <= m.entries.Keys
    decreases keys
  {
    if keys != [] {
      DeletePrefixedShrinksKeys(if prefix <= keys[0] then m.Delete(keys[0]) else m, keys[1..], prefix);
    }
  }

  lemma {:induction false} NeverAccepts(latency: nat, s: State, steps: seq<Step>, inst: Instance, claims: Claims)
    requires Gone(s, inst, claims) && !InFlight(latency, s, inst, claims) && Possible(latency, s, steps)
    ensures !EverAccepts(latency, s, steps, inst, claims)
    decreases steps
  {
    if steps != [] {
      GoneStep(latency, s, steps[0], inst, claims);
      NeverAccepts(latency, Apply(latency, s, steps[0]), steps[1..], inst, claims);
    }
  }

  /**
   * An instance that has evicted a superseded session accepts it again in some continuation if and
   * only if one of its handlers is already past its database read, or about to have that read fail.
   */
  lemma EvictedForGood(latency: nat, s: State, inst: Instance, claims: Claims)
    requires Gone(s, inst, claims)
    ensures InFlight(latency, s, inst, claims) <==>
            exists steps :: Possible(latency, s, steps) && EverAccepts(latency, s, steps, inst, claims)
  {
    if InFlight(latency, s, inst, claims) {
      var id :| id in s.tasks && CanStillAccept(latency, s, s.tasks[id], inst, claims);
      if s.tasks[id].ReadingVersion? {
        var s1 := Apply(latency, s, Read(id, true));
        OneStepPossible(latency, s1, Deliver(id));
        var steps := [Read(id, true), Deliver(id)];
        assert steps[1..] == [Deliver(id)];
        assert Accepts(latency, s1, Deliver(id), inst, claims);
        assert exists p :: Possible(latency, s, p) && EverAccepts(latency, s, p, inst, claims) by {
          assert Possible(latency, s, steps) && EverAccepts(latency, s, steps, inst, claims);
        }
      } else {
        OneStepPossible(latency, s, Deliver(id));
        assert Accepts(latency, s, Deliver(id), inst, claims);
        var steps := [Deliver(id)];
        assert exists p :: Possible(latency, s, p) && EverAccepts(latency, s, p, inst, claims) by {
          assert Possible(latency, s, steps) && EverAccepts(latency, s, steps, inst, claims);
        }
      }
    } else {
      forall steps | Possible(latency, s, steps)
        ensures !EverAccepts(latency, s, steps, inst, claims)
      {
        NeverAccepts(latency, s, steps, inst, claims);
      }
    }
  }

  /** A handler has read the row, and then a login on the same instance replaces the session and evicts. */
  function LateReader(): (seq<State>, seq<Step>) {
    var task := UserArrived(0, TOKEN, Found(UserRow(false, false, false, Some("a"))), 0);
    ([Moment(0, "a", EMPTY_CACHE, map[]),
      Moment(0, "a", EMPTY_CACHE, map[0 := ReadingUser(0, TOKEN, 0)]),
      Moment(0, "a", EMPTY_CACHE, map[0 := task]),
      Moment(0, "b", EMPTY_CACHE, map[0 := task, 1 := Evicting(0, 1)]),
      Moment(0, "b", EMPTY_CACHE, map[0 := task])],
     [StartValidate(0, 0, TOKEN), Read(0, false), Login(1, 0, 1, "b"), Evict(1)])
  }

  lemma LateReaderStep(latency: nat, i: nat)
    requires i < 4
    ensures var (run, steps) := LateReader();
            Enabled(latency, run[i], steps[i]) && run[i + 1] == Apply(latency, run[i], steps[i])
  {
    DifferentSessions();
    var (run, steps) := LateReader();
    assert Apply(latency, run[i], steps[i]).tasks == run[i + 1].tasks;
    if i == 3 {
      assert InvalidateUser(EMPTY_CACHE, 1) == EMPTY_CACHE;
      assert Apply(latency, run[i], steps[i]).caches == run[i + 1].caches;
    }
  }

  /** Such states are reached: the instance that handled the login accepts the superseded session afterwards. */
  lemma EvictedIsAcceptedAgain(latency: nat) returns (run: seq<State>, steps: seq<Step>)
    ensures IsRun(latency, run, steps) && |steps| == 4 && steps[2] == Login(1, 0, 1, "b") && steps[3] == Evict(1)
    ensures Gone(run[4], 0, TOKEN) && InFlight(latency, run[4], 0, TOKEN)
    ensures Enabled(latency, run[4], Deliver(0)) && Accepts(latency, run[4], Deliver(0), 0, TOKEN)
  {
    run, steps := LateReader().0, LateReader().1;
    forall i | 0 <= i < |steps|
      ensures Enabled(latency, run[i], steps[i]) && run[i + 1] == Apply(latency, run[i], steps[i])
    {
      LateReaderStep(latency, i);
    }
    DifferentSessions();
    assert CanStillAccept(latency, run[4], run[4].tasks[0], 0, TOKEN);
  }

  // ---------- Refresh tokens ----------

  predicate IsRefreshOf(task: Task, userId: nat, sessionId: string) {
    task.WritingRefresh? && task.userId == userId && task.sessionId == sessionId
  }

  /** The step in which a refresh with this token gets its new session. */
  predicate Refreshes(s: State, step: Step, userId: nat, sessionId: string) {
    step.WriteRefresh? && step.id in s.tasks && IsRefreshOf(s.tasks[step.id], userId, sessionId)
  }

  ghost predicate EverRefreshes(latency: nat, s: State, steps: seq<Step>, userId: nat, sessionId: string)
    requires Possible(latency, s, steps)
    decreases steps
  {
    steps != [] && (Refreshes(s, steps[0], userId, sessionId) ||
                    EverRefreshes(latency, Apply(latency, s, steps[0]), steps[1..], userId, sessionId))
  }

  ghost predicate RefreshPending(s: State, userId: nat, sessionId: string) {
    exists id :: id in s.tasks && IsRefreshOf(s.tasks[id], userId, sessionId)
  }

  lemma {:induction false} NeverRefreshes(latency: nat, s: State, steps: seq<Step>, userId: nat, sessionId: string)
    requires Superseded(s, userId, sessionId) && !RefreshPending(s, userId, sessionId) && Possible(latency, s, steps)
    ensures !EverRefreshes(latency, s, steps, userId, sessionId)
    decreases steps
  {
    if steps != [] {
      var s' := Apply(latency, s, steps[0]);
      SupersededStep(latency, s, steps[0], userId, sessionId);
      forall id | id in s'.tasks
        ensures !IsRefreshOf(s'.tasks[id], userId, sessionId)
      {
        if id in s.tasks {
          assert !IsRefreshOf(s.tasks[id], userId, sessionId);
        }
      }
      NeverRefreshes(latency, s', steps[1..], userId, sessionId);
    }
  }

  lemma {:induction false} LongerThanAll(issued: set<string>) returns (n: nat)
    ensures forall s | s in issued :: |s| < n
    decreases issued
  {
    if issued == {} {
      n := 0;
    } else {
      var s :| s in issued;
      var m := LongerThanAll(issued - {s});
      n := if |s| < m then m else |s| + 1;
    }
  }

  /**
   * A token whose session has been superseded - by its own first refresh, say - buys another session
   * if and only if a refresh with it has already passed its check: the write itself is unconditional.
   */
  lemma RefreshedAgainOnlyIfPending(latency: nat, s: State, userId: nat, sessionId: string)
    requires Superseded(s, userId, sessionId) && userId in s.users
    ensures RefreshPending(s, userId, sessionId) <==>
            exists steps :: Possible(latency, s, steps) && EverRefreshes(latency, s, steps, userId, sessionId)
  {
    if RefreshPending(s, userId, sessionId) {
      var id :| id in s.tasks && IsRefreshOf(s.tasks[id], userId, sessionId);
      var n := LongerThanAll(s.issued);
      var newId := seq(n, _ => 'x');
      assert newId !in s.issued;
      OneStepPossible(latency, s, WriteRefresh(id, newId));
      var steps := [WriteRefresh(id, newId)];
      assert exists p :: Possible(latency, s, p) && EverRefreshes(latency, s, p, userId, sessionId) by {
        assert Possible(latency, s, steps) && EverRefreshes(latency, s, steps, userId, sessionId);
      }
    } else {
      forall steps | Possible(latency, s, steps)
        ensures !EverRefreshes(latency, s, steps, userId, sessionId)
      {
        NeverRefreshes(latency, s, steps, userId, sessionId);
      }
    }
  }

  function Refreshing(session: string, tasks: map<TaskId, Task>, issued: set<string>): State {
    State(0, map[1 := UserRow(false, false, false, Some(session))], map[0 := EMPTY_CACHE], tasks, issued)
  }

  const TWO_REFRESHES := [StartRefresh(0, 0, 1, "a"), StartRefresh(1, 0, 1, "a"), CheckRefresh(0), CheckRefresh(1),
                          WriteRefresh(0, "b"), WriteRefresh(1, "cc")]

  function TwoRefreshesRun(): seq<State> {
    var checking, writing := CheckingRefresh(0, 1, "a"), WritingRefresh(0, 1, "a");
    [Refreshing("a", map[], {"a"}),
     Refreshing("a", map[0 := checking], {"a"}),
     Refreshing("a", map[0 := checking, 1 := checking], {"a"}),
     Refreshing("a", map[0 := writing, 1 := checking], {"a"}),
     Refreshing("a", map[0 := writing, 1 := writing], {"a"}),
     Refreshing("b", map[0 := Evicting(0, 1), 1 := writing], {"a", "b"}),
     Refreshing("cc", map[0 := Evicting(0, 1), 1 := Evicting(0, 1)], {"a", "b", "cc"})]
  }

  lemma TwoRefreshesStep(latency: nat, i: nat)
    requires i < 6
    ensures var s, step := TwoRefreshesRun()[i], TWO_REFRESHES[i];
            Enabled(latency, s, step) && TwoRefreshesRun()[i + 1] == Apply(latency, s, step)
  {
    if i < 4 {
      var s, step, next := TwoRefreshesRun()[i], TWO_REFRESHES[i], TwoRefreshesRun()[i + 1];
      assert Enabled(latency, s, step);
      assert Apply(latency, s, step).tasks == next.tasks;
    } else {
      TwoRefreshesWrite(latency, i);
    }
  }

  lemma TwoRefreshesWrite(latency: nat, i: nat)
    requires 4 <= i < 6
    ensures var s, step := TwoRefreshesRun()[i], TWO_REFRESHES[i];
            Enabled(latency, s, step) && TwoRefreshesRun()[i + 1] == Apply(latency, s, step)
  {
    DifferentSessions();
    assert |"cc"| == 2;
    var s, step, next := TwoRefreshesRun()[i], TWO_REFRESHES[i], TwoRefreshesRun()[i + 1];
    assert Enabled(latency, s, step);
    assert Apply(latency, s, step).tasks == next.tasks;
    assert Apply(latency, s, step).users == next.users;
    assert Apply(latency, s, step).issued == next.issued;
  }

  /** Such states are reached: two requests with one token, both checked before either writes. */
  lemma OneTokenRefreshedTwice(latency: nat) returns (run: seq<State>, steps: seq<Step>)
    ensures IsRun(latency, run, steps) && |steps| == 6
    ensures SessionIs(run[0], 1, "a")
    ensures Refreshes(run[4], steps[4], 1, "a") && Refreshes(run[5], steps[5], 1, "a")
    ensures Superseded(run[5], 1, "a")
  {
    run, steps := TwoRefreshesRun(), TWO_REFRESHES;
    forall i | 0 <= i < |steps|
      ensures Enabled(latency, run[i], steps[i]) && run[i + 1] == Apply(latency, run[i], steps[i])
    {
      TwoRefreshesStep(latency, i);
    }
    DifferentSessions();
  }

  // ---------- A refresh in one step ----------

  /** Whenever a refresh passes its check, its write comes next. */
  ghost predicate RefreshesAtOnce(run: seq<State>, steps: seq<Step>)
    requires |run| == |steps| + 1
  {
    forall k :: 0 <= k < |steps| - 1 && PassesCheck(run, steps, k) ==> steps[k + 1].WriteRefresh? && steps[k + 1].id == steps[k].id
  }

  predicate PassesCheck(run: seq<State>, steps: seq<Step>, k: nat)
    requires |run| == |steps| + 1 && k < |steps|
  {
    steps[k].CheckRefresh? && steps[k].id in run[k + 1].tasks && run[k + 1].tasks[steps[k].id].WritingRefresh?
  }

  /** A refresh that is about to write has passed its check in the step before. */
  lemma {:induction false} WriterJustChecked(latency: nat, run: seq<State>, steps: seq<Step>, j: nat, id: TaskId)
    requires IsRun(latency, run, steps) && RefreshesAtOnce(run, steps) && j < |run|
    requires id in run[j].tasks && run[j].tasks[id].WritingRefresh?
    ensures j > 0 && PassesCheck(run, steps, j - 1) && steps[j - 1].id == id
    decreases j
  {
    if j > 0 {
      assert Enabled(latency, run[j - 1], steps[j - 1]) && run[j] == Apply(latency, run[j - 1], steps[j - 1]);
      if !(steps[j - 1].CheckRefresh? && steps[j - 1].id == id) {
        OnlyChecksMakeWriters(latency, run[j - 1], steps[j - 1], id);
        WriterJustChecked(latency, run, steps, j - 1, id);
      }
    }
  }

  lemma OnlyChecksMakeWriters(latency: nat, s: State, step: Step, id: TaskId)
    requires Enabled(latency, s, step) && !(step.CheckRefresh? && step.id == id)
    requires var s' := Apply(latency, s, step); id in s'.tasks && s'.tasks[id].WritingRefresh?
    ensures id in s.tasks && s.tasks[id].WritingRefresh? && !(step.WriteRefresh? && step.id == id)
  {
  }

  /** What the check right before a refresh's write saw, and what the write leaves. */
  ghost predicate ReplacedAt(run: seq<State>, steps: seq<Step>, k: nat, userId: nat, sessionId: string)
    requires |run| == |steps| + 1 && k + 1 < |steps|
  {
    steps[k].CheckRefresh? && SessionIs(run[k], userId, sessionId) && Superseded(run[k + 2], userId, sessionId)
  }

  lemma RefreshReplaces(latency: nat, run: seq<State>, steps: seq<Step>, j: nat, userId: nat, sessionId: string)
    requires IsRun(latency, run, steps) && RefreshesAtOnce(run, steps) && j < |steps|
    requires Refreshes(run[j], steps[j], userId, sessionId)
    ensures j > 0 && ReplacedAt(run, steps, j - 1, userId, sessionId)
  {
    WriterJustChecked(latency, run, steps, j, steps[j].id);
    var k := j - 1;
    assert Enabled(latency, run[k], steps[k]) && run[k + 1] == Apply(latency, run[k], steps[k]);
    CheckThenWrite(latency, run[k], steps[k], run[j], userId, sessionId);
    RunSessionsIssued(latency, run, steps, j);
    assert Enabled(latency, run[j], steps[j]) && run[j + 1] == Apply(latency, run[j], steps[j]);
    WriteSupersedes(latency, run[j], steps[j], userId, sessionId);
  }

  lemma CheckThenWrite(latency: nat, s: State, step: Step, s': State, userId: nat, sessionId: string)
    requires Enabled(latency, s, step) && s' == Apply(latency, s, step) && step.CheckRefresh?
    requires step.id in s'.tasks && IsRefreshOf(s'.tasks[step.id], userId, sessionId)
    ensures SessionIs(s, userId, sessionId) && SessionIs(s', userId, sessionId)
  {
  }

  lemma WriteSupersedes(latency: nat, s: State, step: Step, userId: nat, sessionId: string)
    requires Enabled(latency, s, step) && Refreshes(s, step, userId, sessionId) && SessionsIssued(s) && SessionIs(s, userId, sessionId)
    ensures Superseded(Apply(latency, s, step), userId, sessionId)
  {
  }

  /** If check and write are one step, a refresh token buys one new session in all of a run. */
  lemma RefreshedOnceAtOnce(latency: nat, run: seq<State>, steps: seq<Step>, i: nat, j: nat, userId: nat, sessionId: string)
    requires IsRun(latency, run, steps) && RefreshesAtOnce(run, steps) && i < |steps| && j < |steps|
    requires Refreshes(run[i], steps[i], userId, sessionId) && Refreshes(run[j], steps[j], userId, sessionId)
    ensures i == j
  {
    RefreshReplaces(latency, run, steps, i, userId, sessionId);
    RefreshReplaces(latency, run, steps, j, userId, sessionId);
    assert steps[i].WriteRefresh? && steps[j].WriteRefresh?;
    if i < j {
      ReplacedOnce(latency, run, steps, i - 1, j - 1, userId, sessionId);
    } else if j < i {
      ReplacedOnce(latency, run, steps, j - 1, i - 1, userId, sessionId);
    }
  }

  lemma ReplacedOnce(latency: nat, run: seq<State>, steps: seq<Step>, k: nat, m: nat, userId: nat, sessionId: string)
    requires IsRun(latency, run, steps) && k < m && m + 1 < |steps|
    requires ReplacedAt(run, steps, k, userId, sessionId) && ReplacedAt(run, steps, m, userId, sessionId)
    ensures m == k + 1
  {
    if m > k + 1 {
      SupersededForever(latency, run, steps, k, k + 2, m, userId, sessionId);
    }
  }

  // ---------- What login, refresh and logout do to the row, and what is left of a logout ----------

  /** The session that a step gives a user: a new one, none, or the one it was. */
  lemma StepSetsSession(latency: nat, s: State, step: Step, userId: nat)
    requires Enabled(latency, s, step) && userId in s.users && !step.EditUser? && !step.RemoveUser?
    ensures var s' := Apply(latency, s, step);
            && userId in s'.users
            && (step.Login? && step.userId == userId ==> s'.users[userId].session == Some(step.sessionId) && !s'.users[userId].locked)
            && (step.WriteRefresh? && s.tasks[step.id].userId == userId ==> s'.users[userId].session == Some(step.newSession))
            && (step.WriteLogout? && s.tasks[step.id].userId == userId ==> s'.users[userId].session == None)
            && (s'.users[userId].session != s.users[userId].session ==>
                  || (step.Login? && step.userId == userId)
                  || ((step.WriteRefresh? || step.WriteLogout?) && s.tasks[step.id].userId == userId))
            && s'.users[userId].disabled == s.users[userId].disabled && s'.users[userId].isAdmin == s.users[userId].isAdmin
            && (step.Login? ==> step.id in s'.tasks && s'.tasks[step.id] == Evicting(step.inst, step.userId))
            && (step.WriteRefresh? ==>
                  step.id in s'.tasks && s'.tasks[step.id] == Evicting(s.tasks[step.id].inst, s.tasks[step.id].userId))
  {
  }

  /** A restarted instance has nothing cached and no handler; users, clock and the other instances are as they were. */
  lemma RestartForgets(latency: nat, s: State, inst: Instance)
    requires Enabled(latency, s, Restart(inst))
    ensures var s' := Apply(latency, s, Restart(inst));
            && s'.caches[inst] == EMPTY_CACHE && s'.users == s.users && s'.now == s.now && s'.issued == s.issued
            && (forall i | i in s.caches && i != inst :: i in s'.caches && s'.caches[i] == s.caches[i])
            && (forall id :: id in s'.tasks <==> id in s.tasks && s.tasks[id].inst != inst)
            && (forall id | id in s'.tasks :: s'.tasks[id] == s.tasks[id])
  {
  }

  /** A logout goes on to write only while its session is the user's. */
  lemma LogoutChecks(latency: nat, s: State, id: TaskId)
    requires Enabled(latency, s, CheckLogout(id))
    ensures var task, s' := s.tasks[id], Apply(latency, s, CheckLogout(id));
            && s'.users == s.users
            && (if task.userId in s.users && s.users[task.userId].session == Some(task.sessionId)
                then id in s'.tasks && s'.tasks[id] == WritingLogout(task.inst, task.userId, task.sessionId)
                else id !in s'.tasks)
  {
  }

  /** A refresh goes on to write only while its session is that of a user who is not disabled. */
  lemma RefreshChecks(latency: nat, s: State, id: TaskId)
    requires Enabled(latency, s, CheckRefresh(id))
    ensures var task, s' := s.tasks[id], Apply(latency, s, CheckRefresh(id));
            && s'.users == s.users
            && (if task.userId in s.users && s.users[task.userId].session == Some(task.sessionId) && !s.users[task.userId].disabled
                then id in s'.tasks && s'.tasks[id] == WritingRefresh(task.inst, task.userId, task.sessionId)
                else id !in s'.tasks)
  {
  }

  /** The eviction that ends a logout takes that session's result on the instance, and nobody else's. */
  lemma LogoutEvicts(latency: nat, s: State, id: TaskId)
    requires Enabled(latency, s, Evict(id)) && s.tasks[id].EvictingSession?
    ensures var task, s' := s.tasks[id], Apply(latency, s, Evict(id));
            var c, c' := s.caches[task.inst], s'.caches[task.inst];
            && AuthKey(task.userId, task.sessionId) !in c'.store.entries && VersionKey(task.userId) !in c'.versions.entries
            && SameBut(c.store, c'.store, AuthKey(task.userId, task.sessionId))
            && SameBut(c.versions, c'.versions, VersionKey(task.userId))
            && (forall i | i in s.caches && i != task.inst :: s'.caches[i] == s.caches[i])
  {
    InvalidateExact(s.caches[s.tasks[id].inst], s.tasks[id].userId, s.tasks[id].sessionId);
  }

  /** So a session that was logged out is gone from that instance, for good unless a handler is in flight there. */
  lemma LoggedOutIsGone(latency: nat, s: State, id: TaskId)
    requires Enabled(latency, s, Evict(id)) && s.tasks[id].EvictingSession?
    requires Superseded(s, s.tasks[id].userId, s.tasks[id].sessionId)
    ensures var task := s.tasks[id];
            var s', claims := Apply(latency, s, Evict(id)), Claims(task.userId, task.sessionId);
            && Gone(s', task.inst, claims)
            && (!InFlight(latency, s', task.inst, claims) ==>
                  forall steps | Possible(latency, s', steps) :: !EverAccepts(latency, s', steps, task.inst, claims))
  {
    var task := s.tasks[id];
    LogoutEvicts(latency, s, id);
    SupersededStep(latency, s, Evict(id), task.userId, task.sessionId);
    EvictedForGood(latency, Apply(latency, s, Evict(id)), task.inst, Claims(task.userId, task.sessionId));
  }

  /** The write of a logout supersedes the session and leaves its eviction to do. */
  lemma LogoutSupersedes(latency: nat, s: State, id: TaskId)
    requires Enabled(latency, s, WriteLogout(id)) && s.tasks[id].sessionId in s.issued
    ensures var task, s' := s.tasks[id], Apply(latency, s, WriteLogout(id));
            && Superseded(s', task.userId, task.sessionId)
            && id in s'.tasks && s'.tasks[id] == EvictingSession(task.inst, task.userId, task.sessionId)
  {
  }
}
