/**
 * Validation of an access token on one instance (createValidateFn and verifySessionVersion in
 * src/plugins/jwt/jwt-auth.js). The handler awaits the database at most once; the functions
 * below are the stretches of code on either side of that await, and Validate is the handler.
 */
module TokenValidation {
  import opened Wrappers
  import opened JsMaps
  import opened AuthCaches

  datatype UserRow = UserRow(isAdmin: bool, disabled: bool, locked: bool, session: Option<string>)

  /** What a database read ends with: a row, no row, or an exception. */
  datatype Answer<+T> = Found(row: T) | Missing | Unavailable

  datatype ErrorCode = TokenExpiredOrInvalid | AccountNotFound | AccountDisabled | AccountLocked | SessionMismatch

  datatype Reply = Accepted(credentials: Credentials) | Rejected(code: ErrorCode)

  /** The claims of a verified token; an absent claim is 0 or the empty string. */
  datatype Claims = Claims(userId: nat, sessionId: string)

  /** Where the handler stands when it first gives up control. */
  datatype Started =
    | Answered(reply: Reply)
    | AwaitsVersion(cached: Credentials)
    | AwaitsUser

  /** checkUserStatus: the first check that fails names the error. */
  function StatusError(user: UserRow, claims: Claims): Option<ErrorCode> {
    if user.disabled then Some(AccountDisabled)
    else if user.locked then Some(AccountLocked)
    else if user.session != Some(claims.sessionId) then Some(SessionMismatch)
    else None
  }

  /** From the request up to the first database read, or to the reply when none is needed. */
  function Begin(c: CacheState, claims: Claims, now: nat): (CacheState, Started) {
    if claims.userId == 0 || claims.sessionId == "" then (c, Answered(Rejected(TokenExpiredOrInvalid)))
    else
      var (c1, cached) := Lookup(c, claims.userId, claims.sessionId, now);
      match cached
      case None => (c1, AwaitsUser)
      case Some(result) =>
        var (c2, version) := LookupVersion(c1, claims.userId, now);
        match version
        case None => (c2, AwaitsVersion(result))
        case Some(session) =>
          if session == claims.sessionId then (c2, Answered(Accepted(result)))
          else (Invalidate(c2, claims.userId, claims.sessionId), Answered(Rejected(SessionMismatch)))
  }

  /** From the arrival of the user's current session id to the reply. */
  function FinishVersion(c: CacheState, claims: Claims, cached: Credentials,
                         answer: Answer<Option<string>>, now: nat): (CacheState, Reply) {
    match answer
    case Unavailable => (c, Accepted(cached))
    case Missing => (Invalidate(c, claims.userId, claims.sessionId), Rejected(AccountNotFound))
    case Found(session) =>
      var c1 := StoreVersion(c, claims.userId, session, now);
      if session == Some(claims.sessionId) then (c1, Accepted(cached))
      else (Invalidate(c1, claims.userId, claims.sessionId), Rejected(SessionMismatch))
  }

  /** From the arrival of the user row to the reply. */
  function FinishUser(c: CacheState, claims: Claims, answer: Answer<UserRow>, now: nat): (CacheState, Reply) {
    match answer
    case Unavailable => (c, Rejected(TokenExpiredOrInvalid))
    case Missing => (c, Rejected(AccountNotFound))
    case Found(user) =>
      match StatusError(user, claims)
      case Some(code) => (c, Rejected(code))
      case None =>
        var result := Credentials(claims.userId, claims.sessionId, user.isAdmin);
        var c1 := Store(c, claims.userId, claims.sessionId, result, now);
        (StoreVersion(c1, claims.userId, Some(claims.sessionId), now), Accepted(result))
  }

  /** The whole handler when nothing happens between its steps. */
  function ValidateAtOnce(c: CacheState, claims: Claims, user: Answer<UserRow>,
                          version: Answer<Option<string>>, now: nat): (CacheState, Reply) {
    var (c1, started) := Begin(c, claims, now);
    match started
    case Answered(reply) => (c1, reply)
    case AwaitsVersion(cached) => FinishVersion(c1, claims, cached, version, now)
    case AwaitsUser => FinishUser(c1, claims, user, now)
  }

  /** A token without a cached result is accepted if and only if the row entitles its user to the reply. */
  lemma ColdAcceptsExactly(c: CacheState, claims: Claims, user: Answer<UserRow>, version: Answer<Option<string>>,
                           now: nat, credentials: Credentials)
    requires Lookup(c, claims.userId, claims.sessionId, now).1 == None
    ensures ValidateAtOnce(c, claims, user, version, now).1 == Accepted(credentials) <==>
            && claims.userId != 0 && claims.sessionId != ""
            && user == Found(UserRow(credentials.isAdmin, false, false, Some(claims.sessionId)))
            && credentials == Credentials(claims.userId, claims.sessionId, credentials.isAdmin)
  {
  }

  /**
   * For 10 s after that the token is accepted whatever has happened to the row; for the rest of the
   * 15 minutes the session id alone decides, and a failed read accepts. The credentials stay those to which
   * the row entitled its user at the first.
   */
  lemma AfterColdAccept(c: CacheState, claims: Claims, user: Answer<UserRow>, version: Answer<Option<string>>,
                        now: nat, later: nat, user': Answer<UserRow>, version': Answer<Option<string>>)
    requires Lookup(c, claims.userId, claims.sessionId, now).1 == None
    requires ValidateAtOnce(c, claims, user, version, now).1.Accepted? && now <= later <= now + AUTH_CACHE_TTL_MS
    ensures var (c1, reply) := ValidateAtOnce(c, claims, user, version, now);
            var reply' := ValidateAtOnce(c1, claims, user', version', later).1;
            && (reply'.Accepted? <==>
                  later <= now + SESSION_VERSION_CACHE_TTL_MS || version' in {Unavailable, Found(Some(claims.sessionId))})
            && (reply'.Accepted? ==>
                  reply' == reply && user == Found(UserRow(reply.credentials.isAdmin, false, false, Some(claims.sessionId))))
  {
    ColdAcceptsExactly(c, claims, user, version, now, ValidateAtOnce(c, claims, user, version, now).1.credentials);
    var c1 := ValidateAtOnce(c, claims, user, version, now).0;
    var key := AuthKey(claims.userId, claims.sessionId);
    assert c1.store.Get(key).value.expiresAt == now + AUTH_CACHE_TTL_MS;
    assert c1.versions.Get(VersionKey(claims.userId)) ==
           Some(VersionEntry(Some(claims.sessionId), now + SESSION_VERSION_CACHE_TTL_MS));
  }

  /** What a token without a cached result is answered, by the first thing that is wrong with it. */
  lemma ColdAnswers(c: CacheState, claims: Claims, user: Answer<UserRow>, version: Answer<Option<string>>, now: nat)
    requires Lookup(c, claims.userId, claims.sessionId, now).1 == None
    ensures var reply, named := ValidateAtOnce(c, claims, user, version, now).1, claims.userId != 0 && claims.sessionId != "";
            && (reply == Rejected(TokenExpiredOrInvalid) <==> !named || user == Unavailable)
            && (reply == Rejected(AccountNotFound) <==> named && user == Missing)
            && (reply == Rejected(AccountDisabled) <==> named && user.Found? && user.row.disabled)
            && (reply == Rejected(AccountLocked) <==> named && user.Found? && !user.row.disabled && user.row.locked)
            && (reply == Rejected(SessionMismatch) <==>
                  named && user.Found? && !user.row.disabled && !user.row.locked && user.row.session != Some(claims.sessionId))
  {
  }

  /** The session that the instance believes the user to have: the cached one, or else the one that is read. */
  function Believed(c: CacheState, userId: nat, version: Answer<Option<string>>, now: nat): Answer<Option<string>> {
    var known := LookupVersion(c, userId, now).1;
    if known.Some? then Found(known) else version
  }

  /** What a token with a cached result is answered. */
  lemma WarmAnswers(c: CacheState, claims: Claims, user: Answer<UserRow>, version: Answer<Option<string>>, now: nat)
    requires claims.userId != 0 && claims.sessionId != "" && Lookup(c, claims.userId, claims.sessionId, now).1.Some?
    ensures var reply, believed := ValidateAtOnce(c, claims, user, version, now).1, Believed(c, claims.userId, version, now);
            && (reply == Rejected(AccountNotFound) <==> believed == Missing)
            && (reply == Rejected(SessionMismatch) <==> believed.Found? && believed.row != Some(claims.sessionId))
            && (reply == Accepted(Lookup(c, claims.userId, claims.sessionId, now).1.value) <==>
                  believed == Unavailable || believed == Found(Some(claims.sessionId)))
  {
  }

  /**
   * A cached result that is rejected leaves the cache, and the user's version with it. All other results stay, and
   * so do the other versions, unless the tier was full and the rejection came with a fresh read.
   */
  lemma RejectionEvicts(c: CacheState, claims: Claims, user: Answer<UserRow>, version: Answer<Option<string>>, now: nat)
    requires c.Valid() && claims.userId != 0 && claims.sessionId != ""
    requires Lookup(c, claims.userId, claims.sessionId, now).1.Some? && ValidateAtOnce(c, claims, user, version, now).1.Rejected?
    ensures var r, key, versionKey := ValidateAtOnce(c, claims, user, version, now).0,
                                      AuthKey(claims.userId, claims.sessionId), VersionKey(claims.userId);
            && key !in r.store.entries && versionKey !in r.versions.entries
            && SameBut(c.store, r.store, key)
            && forall k :: k != versionKey ==>
                 r.versions.Get(k) == c.versions.Get(k) || (r.versions.Get(k) == None && c.versions.Size() >= 500 && k == c.versions.order[0])
  {
    LookupVersionExact(c, claims.userId, now);
    var c2 := LookupVersion(c, claims.userId, now).0;
    InvalidateExact(c2, claims.userId, claims.sessionId);
    if LookupVersion(c, claims.userId, now).1.None? && version.Found? {
      FreshReadEvicts(c, c2, claims, version.row, now);
    }
  }

  lemma FreshReadEvicts(c: CacheState, c2: CacheState, claims: Claims, session: Option<string>, now: nat)
    requires c.Valid() && c2 == LookupVersion(c, claims.userId, now).0
    ensures var r, versionKey := Invalidate(StoreVersion(c2, claims.userId, session, now), claims.userId, claims.sessionId),
                                 VersionKey(claims.userId);
            && AuthKey(claims.userId, claims.sessionId) !in r.store.entries && versionKey !in r.versions.entries
            && SameBut(c.store, r.store, AuthKey(claims.userId, claims.sessionId))
            && forall k :: k != versionKey ==>
                 r.versions.Get(k) == c.versions.Get(k) || (r.versions.Get(k) == None && c.versions.Size() >= 500 && k == c.versions.order[0])
  {
    OperationsKeepValid(c, claims.userId, claims.sessionId, Credentials(0, "", false), None, now);
    LookupVersionExact(c, claims.userId, now);
    StoreExact(c2, claims.userId, claims.sessionId, Credentials(0, "", false), session, now);
    InvalidateExact(StoreVersion(c2, claims.userId, session, now), claims.userId, claims.sessionId);
    if c2.versions.Size() >= 500 {
      DeleteExact(c.versions, VersionKey(claims.userId));
    }
  }

  /** Deleting an absent key leaves a map of 500 keys; deleting a present one does not. */
  lemma DeleteExact(m: JsMap<string, VersionEntry>, key: string)
    requires m.Valid()
    ensures key !in m.entries ==> m.Delete(key).order == m.order
    ensures key in m.entries ==> m.Delete(key).Size() < m.Size()
  {
    if key !in m.entries {
      WithoutAbsent(m.order, key);
    }
  }

  lemma {:induction false} WithoutAbsent(keys: seq<string>, key: string)
    requires key !in keys
    ensures Without(keys, key) == keys
  {
    if keys != [] {
      WithoutAbsent(keys[1..], key);
    }
  }

  /** So the next validation of that token on that instance accepts only what the row then entitles its user to. */
  lemma RejectedStaysOut(c: CacheState, claims: Claims, user: Answer<UserRow>, version: Answer<Option<string>>, now: nat,
                         user': Answer<UserRow>, version': Answer<Option<string>>, later: nat)
    requires c.Valid() && claims.userId != 0 && claims.sessionId != ""
    requires Lookup(c, claims.userId, claims.sessionId, now).1.Some? && ValidateAtOnce(c, claims, user, version, now).1.Rejected?
    ensures var reply := ValidateAtOnce(ValidateAtOnce(c, claims, user, version, now).0, claims, user', version', later).1;
            && (reply.Accepted? ==> user' == Found(UserRow(reply.credentials.isAdmin, false, false, Some(claims.sessionId))))
            && (user' == Unavailable ==> reply == Rejected(TokenExpiredOrInvalid))
  {
    RejectionEvicts(c, claims, user, version, now);
    var r := ValidateAtOnce(c, claims, user, version, now).0;
    assert Lookup(r, claims.userId, claims.sessionId, later).1 == None;
    ColdAnswers(r, claims, user', version', later);
    var reply := ValidateAtOnce(r, claims, user', version', later).1;
    if reply.Accepted? {
      ColdAcceptsExactly(r, claims, user', version', later, reply.credentials);
    }
  }

  /** verifySessionVersion: the error that makes a cached result unusable, or None. */
  method VerifySessionVersion(cache: AuthCache, claims: Claims, version: Answer<Option<string>>, now: nat)
    returns (error: Option<ErrorCode>)
    modifies cache
    ensures var (c1, known) := LookupVersion(old(cache.State()), claims.userId, now);
            match known
            case Some(session) =>
              && cache.State() == c1
              && error == if session == claims.sessionId then None else Some(SessionMismatch)
            case None =>
              && (version.Found? ==> cache.State() == StoreVersion(c1, claims.userId, version.row, now))
              && (!version.Found? ==> cache.State() == c1)
              && error == match version
                          case Unavailable => None
                          case Missing => Some(AccountNotFound)
                          case Found(session) =>
                            if session == Some(claims.sessionId) then None else Some(SessionMismatch)
  {
    var cachedVersion := cache.GetSessionVersion(claims.userId, now);
    if cachedVersion.Some? {
      return if cachedVersion.value == claims.sessionId then None else Some(SessionMismatch);
    }
    match version {
      case Unavailable =>
        return None;
      case Missing =>
        return Some(AccountNotFound);
      case Found(session) =>
        cache.SetSessionVersion(claims.userId, session, now);
        return if session == Some(claims.sessionId) then None else Some(SessionMismatch);
    }
  }

  method Validate(cache: AuthCache, claims: Claims, user: Answer<UserRow>,
                  version: Answer<Option<string>>, now: nat)
    returns (reply: Reply)
    modifies cache
    ensures (cache.State(), reply) == ValidateAtOnce(old(cache.State()), claims, user, version, now)
  {
    if claims.userId == 0 || claims.sessionId == "" {
      return Rejected(TokenExpiredOrInvalid);
    }
    var cached := cache.Get(claims.userId, claims.sessionId, now);
    if cached.Some? {
      var versionError := VerifySessionVersion(cache, claims, version, now);
      if versionError.Some? {
        cache.InvalidateSession(claims.userId, claims.sessionId);
        return Rejected(versionError.value);
      }
      return Accepted(cached.value);
    }
    match user {
      case Unavailable =>
        return Rejected(TokenExpiredOrInvalid);
      case Missing =>
        return Rejected(AccountNotFound);
      case Found(row) =>
        var statusError := StatusError(row, claims);
        if statusError.Some? {
          return Rejected(statusError.value);
        }
        var result := Credentials(claims.userId, claims.sessionId, row.isAdmin);
        cache.Set(claims.userId, claims.sessionId, result, now);
        cache.SetSessionVersion(claims.userId, Some(claims.sessionId), now);
        return Accepted(result);
    }
  }
}
