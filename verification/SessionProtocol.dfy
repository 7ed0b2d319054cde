/**
 * Many server instances, one user table. Every handler is a task that gives up control at each
 * await, so the steps of different requests interleave freely; a database statement is one step.
 * A run is a sequence of states; what "the database said at some instant" means is read off it.
 */
module SessionProtocol {
  import opened Wrappers
  import opened AuthCaches
  import opened TokenValidation

  type Instance = nat
  type TaskId = nat

  /** `since` is when the validation request started; answers carry what the database said. */
  datatype Task =
    | ReadingVersion(inst: Instance, claims: Claims, cached: Credentials, since: nat)
    | VersionArrived(inst: Instance, claims: Claims, cached: Credentials, version: Answer<Option<string>>, since: nat)
    | ReadingUser(inst: Instance, claims: Claims, since: nat)
    | UserArrived(inst: Instance, claims: Claims, user: Answer<UserRow>, since: nat)
    | Evicting(inst: Instance, userId: nat)
    | CheckingRefresh(inst: Instance, userId: nat, sessionId: string)
    | WritingRefresh(inst: Instance, userId: nat, sessionId: string)
    | CheckingLogout(inst: Instance, userId: nat, sessionId: string)
    | WritingLogout(inst: Instance, userId: nat, sessionId: string)
    | EvictingSession(inst: Instance, userId: nat, sessionId: string)

  /** `issued` holds every session id handed out so far, so that new ones are new. */
  datatype State = State(now: nat, users: map<nat, UserRow>, caches: map<Instance, CacheState>,
                         tasks: map<TaskId, Task>, issued: set<string>)

  datatype Step =
    | Tick(ms: nat)
    | StartValidate(id: TaskId, inst: Instance, claims: Claims)
    | Read(id: TaskId, fails: bool)
    | Deliver(id: TaskId)
    | Login(id: TaskId, inst: Instance, userId: nat, sessionId: string)
    | Evict(id: TaskId)
    | StartRefresh(id: TaskId, inst: Instance, userId: nat, sessionId: string)
    | CheckRefresh(id: TaskId)
    | WriteRefresh(id: TaskId, newSession: string)
    | StartLogout(id: TaskId, inst: Instance, userId: nat, sessionId: string)
    | CheckLogout(id: TaskId)
    | WriteLogout(id: TaskId)
    | EditUser(userId: nat, row: UserRow)     // admin edits, locking, password changes: session kept or cleared
    | RemoveUser(userId: nat)
    | StartEvict(id: TaskId, inst: Instance, userId: nat)   // an account edit that has cleared the session
    | Restart(restarted: Instance)
    | Drop(id: TaskId)                        // a handler ends with an exception

  predicate SessionIs(s: State, userId: nat, sessionId: string) {
    userId in s.users && s.users[userId].session == Some(sessionId)
  }

  /** The row that entitles its user to exactly these credentials. */
  predicate Entitles(s: State, c: Credentials) {
    && c.userId in s.users
    && s.users[c.userId] == UserRow(c.isAdmin, false, false, Some(c.sessionId))
  }

  predicate Enabled(latency: nat, s: State, step: Step) {
    match step
    case Tick(_) => true
    case StartValidate(id, inst, _) => id !in s.tasks && inst in s.caches
    case Read(id, _) => id in s.tasks && (s.tasks[id].ReadingVersion? || s.tasks[id].ReadingUser?)
    case Deliver(id) =>
      && id in s.tasks && (s.tasks[id].VersionArrived? || s.tasks[id].UserArrived?)
      && s.tasks[id].inst in s.caches && s.now <= s.tasks[id].since + latency
    case Login(id, inst, userId, sessionId) =>
      id !in s.tasks && inst in s.caches && userId in s.users && sessionId !in s.issued
    case Evict(id) =>
      && id in s.tasks && (s.tasks[id].Evicting? || s.tasks[id].EvictingSession?)
      && s.tasks[id].inst in s.caches
    case StartRefresh(id, inst, _, _) => id !in s.tasks && inst in s.caches
    case CheckRefresh(id) => id in s.tasks && s.tasks[id].CheckingRefresh?
    case WriteRefresh(id, newSession) =>
      id in s.tasks && s.tasks[id].WritingRefresh? && s.tasks[id].userId in s.users && newSession !in s.issued
    case StartLogout(id, inst, _, _) => id !in s.tasks && inst in s.caches
    case CheckLogout(id) => id in s.tasks && s.tasks[id].CheckingLogout?
    case WriteLogout(id) => id in s.tasks && s.tasks[id].WritingLogout? && s.tasks[id].userId in s.users
    case EditUser(userId, row) =>
      row.session == None || (userId in s.users && row.session == s.users[userId].session)
    case RemoveUser(userId) => userId in s.users
    case StartEvict(id, inst, _) => id !in s.tasks && inst in s.caches
    case Restart(inst) => inst in s.caches
    case Drop(id) => id in s.tasks
  }

  function ReadUser(s: State, userId: nat, fails: bool): Answer<UserRow> {
    if fails then Unavailable else if userId in s.users then Found(s.users[userId]) else Missing
  }

  function ReadVersion(s: State, userId: nat, fails: bool): Answer<Option<string>> {
    if fails then Unavailable else if userId in s.users then Found(s.users[userId].session) else Missing
  }

  function WithTask(s: State, id: TaskId, task: Task): State {
    s.(tasks := s.tasks[id := task])
  }

  function WithoutTask(s: State, id: TaskId): State {
    s.(tasks := s.tasks - {id})
  }

  function WithCache(s: State, inst: Instance, c: CacheState): State {
    s.(caches := s.caches[inst := c])
  }

  function WithSession(s: State, userId: nat, session: Option<string>): State
    requires userId in s.users
  {
    s.(users := s.users[userId := s.users[userId].(session := session)])
  }

  /** An instance starts again with empty caches; its handlers are gone. */
  function Restarted(s: State, inst: Instance): State {
    State(s.now, s.users, s.caches[inst := EMPTY_CACHE], map id | id in s.tasks && s.tasks[id].inst != inst :: s.tasks[id], s.issued)
  }

  /** What Deliver computes: the instance's new cache and the reply. */
  function Delivered(s: State, id: TaskId): (CacheState, Reply)
    requires id in s.tasks && (s.tasks[id].VersionArrived? || s.tasks[id].UserArrived?)
    requires s.tasks[id].inst in s.caches
  {
    var c := s.caches[s.tasks[id].inst];
    match s.tasks[id]
    case VersionArrived(_, claims, cached, version, _) => FinishVersion(c, claims, cached, version, s.now)
    case UserArrived(_, claims, user, _) => FinishUser(c, claims, user, s.now)
  }

  function Apply(latency: nat, s: State, step: Step): State
    requires Enabled(latency, s, step)
  {
    match step
    case Tick(ms) => s.(now := s.now + ms)
    case StartValidate(id, inst, claims) =>
      var (c, started) := Begin(s.caches[inst], claims, s.now);
      var s1 := WithCache(s, inst, c);
      (match started
       case Answered(_) => s1
       case AwaitsVersion(cached) => WithTask(s1, id, ReadingVersion(inst, claims, cached, s.now))
       case AwaitsUser => WithTask(s1, id, ReadingUser(inst, claims, s.now)))
    case Read(id, fails) =>
      (match s.tasks[id]
       case ReadingVersion(inst, claims, cached, since) =>
         WithTask(s, id, VersionArrived(inst, claims, cached, ReadVersion(s, claims.userId, fails), since))
       case ReadingUser(inst, claims, since) =>
         WithTask(s, id, UserArrived(inst, claims, ReadUser(s, claims.userId, fails), since)))
    case Deliver(id) =>
      WithoutTask(WithCache(s, s.tasks[id].inst, Delivered(s, id).0), id)
    case Login(id, inst, userId, sessionId) =>
      var row := s.users[userId].(session := Some(sessionId), locked := false);
      WithTask(s.(users := s.users[userId := row], issued := s.issued + {sessionId}), id, Evicting(inst, userId))
    case Evict(id) =>
      var task := s.tasks[id];
      var c := s.caches[task.inst];
      WithoutTask(WithCache(s, task.inst,
                            if task.Evicting? then InvalidateUser(c, task.userId)
                            else Invalidate(c, task.userId, task.sessionId)), id)
    case StartRefresh(id, inst, userId, sessionId) =>
      WithTask(s, id, CheckingRefresh(inst, userId, sessionId))
    case CheckRefresh(id) =>
      var t := s.tasks[id];
      if SessionIs(s, t.userId, t.sessionId) && !s.users[t.userId].disabled
      then WithTask(s, id, WritingRefresh(t.inst, t.userId, t.sessionId))
      else WithoutTask(s, id)
    case WriteRefresh(id, newSession) =>
      var t := s.tasks[id];
      WithTask(WithSession(s, t.userId, Some(newSession)).(issued := s.issued + {newSession}),
               id, Evicting(t.inst, t.userId))
    case StartLogout(id, inst, userId, sessionId) =>
      WithTask(s, id, CheckingLogout(inst, userId, sessionId))
    case CheckLogout(id) =>
      var t := s.tasks[id];
      if SessionIs(s, t.userId, t.sessionId)
      then WithTask(s, id, WritingLogout(t.inst, t.userId, t.sessionId))
      else WithoutTask(s, id)
    case WriteLogout(id) =>
      var t := s.tasks[id];
      WithTask(WithSession(s, t.userId, None), id, EvictingSession(t.inst, t.userId, t.sessionId))
    case EditUser(userId, row) => s.(users := s.users[userId := row])
    case RemoveUser(userId) => s.(users := s.users - {userId})
    case StartEvict(id, inst, userId) => WithTask(s, id, Evicting(inst, userId))
    case Restart(inst) => Restarted(s, inst)
    case Drop(id) => WithoutTask(s, id)
  }

  /** A reply to a validation request; `checked` is false when the database read failed. */
  datatype Response = NoResponse | Response(inst: Instance, claims: Claims, reply: Reply, checked: bool)

  function ResponseOf(latency: nat, s: State, step: Step): Response
    requires Enabled(latency, s, step)
  {
    match step
    case StartValidate(_, inst, claims) =>
      (match Begin(s.caches[inst], claims, s.now).1
       case Answered(reply) => Response(inst, claims, reply, true)
       case _ => NoResponse)
    case Deliver(id) =>
      var t := s.tasks[id];
      Response(t.inst, t.claims, Delivered(s, id).1, t.VersionArrived? ==> t.version != Unavailable)
    case _ => NoResponse
  }

  // ---------- Runs ----------

  predicate Initial(s: State) {
    && (forall i | i in s.caches :: s.caches[i] == EMPTY_CACHE)
    && s.tasks == map[]
    && (forall u | u in s.users :: s.users[u].session.Some? ==> s.users[u].session.value in s.issued)
  }

  ghost predicate IsRun(latency: nat, run: seq<State>, steps: seq<Step>) {
    && |run| == |steps| + 1
    && Initial(run[0])
    && forall i :: 0 <= i < |steps| ==> Enabled(latency, run[i], steps[i]) && run[i + 1] == Apply(latency, run[i], steps[i])
  }

  /** Some state of the run up to position j, no earlier than `since`, shows the session. */
  ghost predicate HadSession(run: seq<State>, j: nat, userId: nat, sessionId: string, since: int)
    requires j < |run|
  {
    exists i :: 0 <= i <= j && since <= run[i].now && SessionIs(run[i], userId, sessionId)
  }

  /** Some such state shows a row that entitles its user to the credentials. */
  ghost predicate WasEntitled(run: seq<State>, j: nat, c: Credentials, since: int)
    requires j < |run|
  {
    exists i :: 0 <= i <= j && since <= run[i].now && Entitles(run[i], c)
  }
}
