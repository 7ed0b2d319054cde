/**
 * How stale an accepted token can be. Everything an instance holds in memory - cache entries and
 * answers still on their way to a handler - is traced back to a state of the run in which the
 * database said it; the age of that state is what the lifetimes of the caches bound.
 */
module SessionBounds {
  import opened Wrappers
  import opened JsMaps
  import opened AuthCaches
  import opened TokenValidation
  import opened SessionProtocol

  ghost predicate CacheTraced(latency: nat, run: seq<State>, j: nat, c: CacheState)
    requires j < |run|
  {
    && (forall u: nat, s: string :: AuthKey(u, s) in c.store.entries ==>
          var e := c.store.entries[AuthKey(u, s)];
          && e.result.userId == u && e.result.sessionId == s
          && WasEntitled(run, j, e.result, e.expiresAt - AUTH_CACHE_TTL_MS - latency))
    && (forall u: nat :: VersionKey(u) in c.versions.entries ==>
          var e := c.versions.entries[VersionKey(u)];
          e.sessionId.Some? ==>
            HadSession(run, j, u, e.sessionId.value, e.expiresAt - SESSION_VERSION_CACHE_TTL_MS - latency))
  }

  ghost predicate CachedTraced(latency: nat, run: seq<State>, j: nat, claims: Claims, cached: Credentials, since: nat)
    requires j < |run|
  {
    && cached.userId == claims.userId && cached.sessionId == claims.sessionId
    && WasEntitled(run, j, cached, since - AUTH_CACHE_TTL_MS - latency)
  }

  ghost predicate TaskTraced(latency: nat, run: seq<State>, j: nat, task: Task)
    requires j < |run|
  {
    match task
    case ReadingVersion(_, claims, cached, since) =>
      since <= run[j].now && CachedTraced(latency, run, j, claims, cached, since)
    case VersionArrived(_, claims, cached, version, since) =>
      && CachedTraced(latency, run, j, claims, cached, since)
      && (version.Found? && version.row.Some? ==> HadSession(run, j, claims.userId, version.row.value, since))
    case ReadingUser(_, claims, since) => since <= run[j].now
    case UserArrived(_, claims, user, since) =>
      user.Found? && StatusError(user.row, claims) == None ==>
        WasEntitled(run, j, Credentials(claims.userId, claims.sessionId, user.row.isAdmin), since)
    case _ => true
  }

  ghost predicate Traced(latency: nat, run: seq<State>, j: nat)
    requires j < |run|
  {
    && (forall inst | inst in run[j].caches :: CacheTraced(latency, run, j, run[j].caches[inst]))
    && (forall id | id in run[j].tasks :: TaskTraced(latency, run, j, run[j].tasks[id]))
  }

  // ---------- Evidence does not go away, and weaker bounds follow from stronger ones ----------

  lemma HadSessionWeaken(run: seq<State>, j: nat, u: nat, s: string, since: int, k: nat, earlier: int)
    requires j <= k < |run| && earlier <= since && HadSession(run, j, u, s, since)
    ensures HadSession(run, k, u, s, earlier)
  {
  }

  lemma WasEntitledWeaken(run: seq<State>, j: nat, c: Credentials, since: int, k: nat, earlier: int)
    requires j <= k < |run| && earlier <= since && WasEntitled(run, j, c, since)
    ensures WasEntitled(run, k, c, earlier)
  {
  }

  lemma EntitledHadSession(run: seq<State>, j: nat, c: Credentials, since: int)
    requires j < |run| && WasEntitled(run, j, c, since)
    ensures HadSession(run, j, c.userId, c.sessionId, since)
  {
  }

  ghost predicate Shrinks(c': CacheState, c: CacheState) {
    && (forall k | k in c'.store.entries :: k in c.store.entries && c'.store.entries[k] == c.store.entries[k])
    && (forall k | k in c'.versions.entries ::
          k in c.versions.entries && c'.versions.entries[k] == c.versions.entries[k])
  }

  lemma CacheTracedLater(latency: nat, run: seq<State>, j: nat, c: CacheState, k: nat, c': CacheState)
    requires j <= k < |run| && CacheTraced(latency, run, j, c) && Shrinks(c', c)
    ensures CacheTraced(latency, run, k, c')
  {
  }

  lemma TaskTracedLater(latency: nat, run: seq<State>, j: nat, task: Task, k: nat)
    requires j <= k < |run| && run[j].now <= run[k].now && TaskTraced(latency, run, j, task)
    ensures TaskTraced(latency, run, k, task)
  {
  }

  // ---------- The operations of the cache ----------

  lemma LookupsShrink(c: CacheState, userId: nat, sessionId: string, now: nat)
    ensures Shrinks(Lookup(c, userId, sessionId, now).0, c)
    ensures Shrinks(LookupVersion(c, userId, now).0, c)
    ensures Shrinks(Invalidate(c, userId, sessionId), c)
  {
  }

  lemma {:induction false} DeletePrefixedShrinks<V>(m: JsMap<string, V>, keys: seq<string>, prefix: string)
    ensures var r := DeletePrefixed(m, keys, prefix);
            forall k | k in r.entries :: k in m.entries && r.entries[k] == m.entries[k]
    decreases keys
  {
    if keys != [] {
      DeletePrefixedShrinks(if prefix <= keys[0] then m.Delete(keys[0]) else m, keys[1..], prefix);
    }
  }

  lemma InvalidateUserShrinks(c: CacheState, userId: nat)
    ensures Shrinks(InvalidateUser(c, userId), c)
  {
    DeletePrefixedShrinks(c.store, c.store.order, UserPrefix(userId));
  }

  lemma StoreVersionTraced(latency: nat, run: seq<State>, j: nat, c: CacheState, userId: nat,
                           session: Option<string>, now: nat)
    requires j < |run| && CacheTraced(latency, run, j, c)
    requires session.Some? ==> HadSession(run, j, userId, session.value, now - latency)
    ensures CacheTraced(latency, run, j, StoreVersion(c, userId, session, now))
  {
    var c' := StoreVersion(c, userId, session, now);
    forall u: nat | VersionKey(u) in c'.versions.entries && c'.versions.entries[VersionKey(u)].sessionId.Some?
      ensures var e := c'.versions.entries[VersionKey(u)];
              HadSession(run, j, u, e.sessionId.value, e.expiresAt - SESSION_VERSION_CACHE_TTL_MS - latency)
    {
      if VersionKey(u) == VersionKey(userId) {
        AuthKeyInjective(u, "", userId, "");
      }
    }
  }

  lemma StoreTraced(latency: nat, run: seq<State>, j: nat, c: CacheState, result: Credentials, now: nat)
    requires j < |run| && CacheTraced(latency, run, j, c)
    requires WasEntitled(run, j, result, now - latency)
    ensures CacheTraced(latency, run, j, Store(c, result.userId, result.sessionId, result, now))
  {
    var c' := Store(c, result.userId, result.sessionId, result, now);
    forall u: nat, s: string | AuthKey(u, s) in c'.store.entries
      ensures var e := c'.store.entries[AuthKey(u, s)];
              && e.result.userId == u && e.result.sessionId == s
              && WasEntitled(run, j, e.result, e.expiresAt - AUTH_CACHE_TTL_MS - latency)
    {
      AuthKeyInjective(u, s, result.userId, result.sessionId);
    }
  }

  // ---------- The handler's two stretches of code ----------

  /** What makes a reply safe to give at time `now`, when it accepts. */
  ghost predicate ReplyTraced(latency: nat, run: seq<State>, j: nat, claims: Claims, reply: Reply, checked: bool, now: nat)
    requires j < |run|
  {
    reply.Accepted? ==>
      && reply.credentials.userId == claims.userId && reply.credentials.sessionId == claims.sessionId
      && WasEntitled(run, j, reply.credentials, now - AUTH_CACHE_TTL_MS - 2 * latency)
      && (checked ==> HadSession(run, j, claims.userId, claims.sessionId, now - SESSION_VERSION_CACHE_TTL_MS - latency))
  }

  lemma BeginCacheTraced(latency: nat, run: seq<State>, j: nat, c: CacheState, claims: Claims, now: nat)
    requires j < |run| && CacheTraced(latency, run, j, c)
    ensures CacheTraced(latency, run, j, Begin(c, claims, now).0)
  {
    var c' := Begin(c, claims, now).0;
    assert Shrinks(c', c);
    CacheTracedLater(latency, run, j, c, j, c');
  }

  lemma BeginTraced(latency: nat, run: seq<State>, j: nat, c: CacheState, claims: Claims, now: nat)
    requires j < |run| && CacheTraced(latency, run, j, c)
    ensures var started := Begin(c, claims, now).1;
            && (started.Answered? ==> ReplyTraced(latency, run, j, claims, started.reply, true, now))
            && (started.AwaitsVersion? ==> CachedTraced(latency, run, j, claims, started.cached, now))
  {
  }

  lemma FinishVersionTraced(latency: nat, run: seq<State>, j: nat, c: CacheState, claims: Claims, cached: Credentials,
                            answer: Answer<Option<string>>, since: nat, now: nat)
    requires j < |run| && CacheTraced(latency, run, j, c) && now <= since + latency
    requires CachedTraced(latency, run, j, claims, cached, since)
    requires answer.Found? && answer.row.Some? ==> HadSession(run, j, claims.userId, answer.row.value, since)
    ensures var (c', reply) := FinishVersion(c, claims, cached, answer, now);
            && CacheTraced(latency, run, j, c')
            && ReplyTraced(latency, run, j, claims, reply, answer != Unavailable, now)
  {
    var u, s := claims.userId, claims.sessionId;
    LookupsShrink(c, u, s, now);
    CacheTracedLater(latency, run, j, c, j, Invalidate(c, u, s));
    WasEntitledWeaken(run, j, cached, since - AUTH_CACHE_TTL_MS - latency, j, now - AUTH_CACHE_TTL_MS - 2 * latency);
    if answer.Found? {
      if answer.row.Some? {
        HadSessionWeaken(run, j, u, answer.row.value, since, j, now - latency);
        HadSessionWeaken(run, j, u, answer.row.value, since, j, now - SESSION_VERSION_CACHE_TTL_MS - latency);
      }
      StoreVersionTraced(latency, run, j, c, u, answer.row, now);
      var c1 := StoreVersion(c, u, answer.row, now);
      LookupsShrink(c1, u, s, now);
      CacheTracedLater(latency, run, j, c1, j, Invalidate(c1, u, s));
    }
  }

  lemma FinishUserTraced(latency: nat, run: seq<State>, j: nat, c: CacheState, claims: Claims,
                         answer: Answer<UserRow>, since: nat, now: nat)
    requires j < |run| && CacheTraced(latency, run, j, c) && now <= since + latency
    requires answer.Found? && StatusError(answer.row, claims) == None ==>
               WasEntitled(run, j, Credentials(claims.userId, claims.sessionId, answer.row.isAdmin), since)
    ensures var (c', reply) := FinishUser(c, claims, answer, now);
            && CacheTraced(latency, run, j, c')
            && ReplyTraced(latency, run, j, claims, reply, true, now)
  {
    if answer.Found? && StatusError(answer.row, claims) == None {
      var result := Credentials(claims.userId, claims.sessionId, answer.row.isAdmin);
      WasEntitledWeaken(run, j, result, since, j, now - latency);
      WasEntitledWeaken(run, j, result, since, j, now - AUTH_CACHE_TTL_MS - 2 * latency);
      EntitledHadSession(run, j, result, now - latency);
      HadSessionWeaken(run, j, result.userId, result.sessionId, now - latency,
                       j, now - SESSION_VERSION_CACHE_TTL_MS - latency);
      StoreTraced(latency, run, j, c, result, now);
      StoreVersionTraced(latency, run, j, Store(c, claims.userId, claims.sessionId, result, now),
                         claims.userId, Some(claims.sessionId), now);
    }
  }

  // ---------- Every step keeps everything traced ----------

  lemma DeliveredTraced(latency: nat, run: seq<State>, j: nat, id: TaskId)
    requires j < |run| && Traced(latency, run, j) && Enabled(latency, run[j], Deliver(id))
    ensures var st := run[j];
            var task := st.tasks[id];
            && CacheTraced(latency, run, j, Delivered(st, id).0)
            && ReplyTraced(latency, run, j, task.claims, Delivered(st, id).1,
                           task.VersionArrived? ==> task.version != Unavailable, st.now)
  {
    var st := run[j];
    assert TaskTraced(latency, run, j, st.tasks[id]);
    match st.tasks[id]
    case VersionArrived(inst, claims, cached, version, since) =>
      FinishVersionTraced(latency, run, j, st.caches[inst], claims, cached, version, since, st.now);
    case UserArrived(inst, claims, user, since) =>
      FinishUserTraced(latency, run, j, st.caches[inst], claims, user, since, st.now);
  }

  /** Only the start of a validation, a delivery, an eviction and a restart touch a cache, and only one. */
  lemma CacheAfterStep(latency: nat, st: State, step: Step, inst: Instance)
    requires Enabled(latency, st, step) && inst in st.caches
    ensures inst in Apply(latency, st, step).caches
    ensures var c, c' := st.caches[inst], Apply(latency, st, step).caches[inst];
            match step
            case StartValidate(_, inst', claims) => c' == if inst == inst' then Begin(c, claims, st.now).0 else c
            case Deliver(id) => c' == if inst == st.tasks[id].inst then Delivered(st, id).0 else c
            case Evict(id) => Shrinks(c', c)
            case Restart(_) => Shrinks(c', c)
            case _ => c' == c
  {
    if step.Evict? {
      var task, c := st.tasks[step.id], st.caches[inst];
      InvalidateUserShrinks(c, task.userId);
      if task.EvictingSession? {
        LookupsShrink(c, task.userId, task.sessionId, st.now);
      }
    }
  }

  /** The cache that a step rewrites, if it rewrites one, stays traced. */
  lemma StepCacheTraced(latency: nat, run: seq<State>, steps: seq<Step>, j: nat, inst: Instance)
    requires IsRun(latency, run, steps) && j < |steps| && Traced(latency, run, j)
    requires inst in run[j].caches
    ensures inst in run[j + 1].caches && CacheTraced(latency, run, j, run[j + 1].caches[inst])
  {
    var st, c := run[j], run[j].caches[inst];
    CacheAfterStep(latency, st, steps[j], inst);
    match steps[j]
    case StartValidate(_, _, claims) =>
      BeginCacheTraced(latency, run, j, c, claims, st.now);
    case Deliver(id) =>
      DeliveredTraced(latency, run, j, id);
    case Evict(_) =>
      CacheTracedLater(latency, run, j, c, j, run[j + 1].caches[inst]);
    case Restart(_) =>
      CacheTracedLater(latency, run, j, c, j, run[j + 1].caches[inst]);
    case _ =>
  }

  /** A database read puts into the waiting handler what the state of that moment says. */
  lemma ReadTraced(latency: nat, run: seq<State>, j: nat, id: TaskId, fails: bool)
    requires j < |run| && Enabled(latency, run[j], Read(id, fails)) && TaskTraced(latency, run, j, run[j].tasks[id])
    ensures TaskTraced(latency, run, j, Apply(latency, run[j], Read(id, fails)).tasks[id])
  {
  }

  /** Apart from a read and the start of a validation, no step makes a task that carries evidence. */
  lemma OtherTasksUnchanged(latency: nat, st: State, step: Step, id: TaskId)
    requires Enabled(latency, st, step) && id in Apply(latency, st, step).tasks
    requires step.StartValidate? || step.Read? ==> step.id != id
    ensures var task := Apply(latency, st, step).tasks[id];
            || (id in st.tasks && task == st.tasks[id])
            || !(task.ReadingVersion? || task.VersionArrived? || task.ReadingUser? || task.UserArrived?)
  {
  }

  lemma StepTaskTraced(latency: nat, run: seq<State>, steps: seq<Step>, j: nat, id: TaskId)
    requires IsRun(latency, run, steps) && j < |steps| && Traced(latency, run, j)
    requires id in run[j + 1].tasks
    ensures TaskTraced(latency, run, j, run[j + 1].tasks[id])
  {
    var st, step := run[j], steps[j];
    if step.StartValidate? && step.id == id {
      BeginTraced(latency, run, j, st.caches[step.inst], step.claims, st.now);
    } else if step.Read? && step.id == id {
      ReadTraced(latency, run, j, id, step.fails);
    } else {
      OtherTasksUnchanged(latency, st, step, id);
    }
  }

  lemma StepTraced(latency: nat, run: seq<State>, steps: seq<Step>, j: nat)
    requires IsRun(latency, run, steps) && j < |steps| && Traced(latency, run, j)
    ensures Traced(latency, run, j + 1)
  {
    var next := run[j + 1];
    TimeAndInstances(latency, run[j], steps[j]);
    forall inst | inst in next.caches
      ensures CacheTraced(latency, run, j + 1, next.caches[inst])
    {
      StepCacheTraced(latency, run, steps, j, inst);
      CacheTracedLater(latency, run, j, next.caches[inst], j + 1, next.caches[inst]);
    }
    forall id | id in next.tasks
      ensures TaskTraced(latency, run, j + 1, next.tasks[id])
    {
      StepTaskTraced(latency, run, steps, j, id);
      TaskTracedLater(latency, run, j, next.tasks[id], j + 1);
    }
  }

  lemma TimeAndInstances(latency: nat, st: State, step: Step)
    requires Enabled(latency, st, step)
    ensures var next := Apply(latency, st, step);
            st.now <= next.now && next.caches.Keys == st.caches.Keys
  {
  }

  lemma {:induction false} RunTraced(latency: nat, run: seq<State>, steps: seq<Step>, j: nat)
    requires IsRun(latency, run, steps) && j < |run|
    ensures Traced(latency, run, j)
    decreases j
  {
    if j > 0 {
      RunTraced(latency, run, steps, j - 1);
      StepTraced(latency, run, steps, j - 1);
    }
  }

  lemma ResponseTraced(latency: nat, run: seq<State>, steps: seq<Step>, j: nat)
    requires IsRun(latency, run, steps) && j < |steps|
    ensures var r := ResponseOf(latency, run[j], steps[j]);
            r.Response? ==> ReplyTraced(latency, run, j, r.claims, r.reply, r.checked, run[j].now)
  {
    RunTraced(latency, run, steps, j);
    var st := run[j];
    match steps[j]
    case StartValidate(_, inst, claims) =>
      BeginTraced(latency, run, j, st.caches[inst], claims, st.now);
    case Deliver(id) =>
      DeliveredTraced(latency, run, j, id);
    case _ =>
  }

  // ---------- The theorems ----------

  /**
   * A token accepted at time t without falling back on the cache after a failed read: the user's
   * database session was that token's session at some instant of the last 10 s plus the latency.
   */
  lemma AcceptedSessionIsRecent(latency: nat, run: seq<State>, steps: seq<Step>, j: nat)
    requires IsRun(latency, run, steps) && j < |steps|
    ensures var r := ResponseOf(latency, run[j], steps[j]);
            r.Response? && r.reply.Accepted? && r.checked ==>
              HadSession(run, j, r.claims.userId, r.claims.sessionId, run[j].now - 10_000 - latency)
  {
    ResponseTraced(latency, run, steps, j);
  }

  /** When handlers run without delay, the bound is the 10 s that the source states. */
  lemma AcceptedSessionIsRecentAtomic(run: seq<State>, steps: seq<Step>, j: nat)
    requires IsRun(0, run, steps) && j < |steps|
    ensures var r := ResponseOf(0, run[j], steps[j]);
            r.Response? && r.reply.Accepted? && r.checked ==>
              HadSession(run, j, r.claims.userId, r.claims.sessionId, run[j].now - 10_000)
  {
    AcceptedSessionIsRecent(0, run, steps, j);
  }

  /**
   * Whatever reads fail: an accepted token's user had a row within the last 15 minutes (plus twice
   * the latency) with that session, neither disabled nor locked, and with the role the reply carries.
   */
  lemma AcceptedUserWasEntitled(latency: nat, run: seq<State>, steps: seq<Step>, j: nat)
    requires IsRun(latency, run, steps) && j < |steps|
    ensures var r := ResponseOf(latency, run[j], steps[j]);
            r.Response? && r.reply.Accepted? ==>
              && r.reply.credentials.userId == r.claims.userId
              && r.reply.credentials.sessionId == r.claims.sessionId
              && WasEntitled(run, j, r.reply.credentials, run[j].now - 900_000 - 2 * latency)
  {
    ResponseTraced(latency, run, steps, j);
  }
}
