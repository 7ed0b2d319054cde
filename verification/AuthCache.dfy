/**
 * The two-tier authentication cache that every server instance keeps in memory
 * (src/plugins/jwt/jwt-auth.js). Time is in milliseconds and is passed in.
 */
module AuthCaches {
  import opened Wrappers
  import opened JsMaps
  import Decimal

  const AUTH_CACHE_TTL_MS: nat := 15 * 60 * 1000
  const SESSION_VERSION_CACHE_TTL_MS: nat := 10 * 1000
  const AUTH_CACHE_MAX_SIZE: nat := 500

  /** What an accepted token is answered with; the profile fields are left out. */
  datatype Credentials = Credentials(userId: nat, sessionId: string, isAdmin: bool)

  datatype AuthEntry = AuthEntry(result: Credentials, expiresAt: nat)

  /** The stored session may be null, because the user row's session may be. */
  datatype VersionEntry = VersionEntry(sessionId: Option<string>, expiresAt: nat)

  /** The value of a cache: tier 1 by user and session, tier 2 by user. */
  datatype CacheState = CacheState(store: JsMap<string, AuthEntry>, versions: JsMap<string, VersionEntry>) {
    ghost predicate Valid() {
      && store.Valid() && versions.Valid()
      && store.Size() <= AUTH_CACHE_MAX_SIZE
      && versions.Size() <= AUTH_CACHE_MAX_SIZE
    }
  }

  const EMPTY_CACHE := CacheState(Empty<string, AuthEntry>(), Empty<string, VersionEntry>())

  function UserPrefix(userId: nat): string {
    Decimal.ToString(userId) + ":"
  }

  function AuthKey(userId: nat, sessionId: string): string {
    UserPrefix(userId) + sessionId
  }

  function VersionKey(userId: nat): string {
    Decimal.ToString(userId)
  }

  // ---------- What each operation does to the value of the cache ----------

  function Lookup(c: CacheState, userId: nat, sessionId: string, now: nat): (CacheState, Option<Credentials>) {
    var key := AuthKey(userId, sessionId);
    match c.store.Get(key)
    case None => (c, None)
    case Some(entry) =>
      if now > entry.expiresAt then (c.(store := c.store.Delete(key)), None) else (c, Some(entry.result))
  }

  function MakeRoom<V>(m: JsMap<string, V>): JsMap<string, V> {
    if m.Size() >= AUTH_CACHE_MAX_SIZE then m.DeleteOldest() else m
  }

  function Store(c: CacheState, userId: nat, sessionId: string, result: Credentials, now: nat): CacheState {
    c.(store := MakeRoom(c.store).Set(AuthKey(userId, sessionId), AuthEntry(result, now + AUTH_CACHE_TTL_MS)))
  }

  function LookupVersion(c: CacheState, userId: nat, now: nat): (CacheState, Option<string>) {
    var key := VersionKey(userId);
    match c.versions.Get(key)
    case None => (c, None)
    case Some(entry) =>
      if now > entry.expiresAt then (c.(versions := c.versions.Delete(key)), None) else (c, entry.sessionId)
  }

  function StoreVersion(c: CacheState, userId: nat, sessionId: Option<string>, now: nat): CacheState {
    c.(versions := MakeRoom(c.versions).Set(VersionKey(userId),
                                            VersionEntry(sessionId, now + SESSION_VERSION_CACHE_TTL_MS)))
  }

  function Invalidate(c: CacheState, userId: nat, sessionId: string): CacheState {
    CacheState(c.store.Delete(AuthKey(userId, sessionId)), c.versions.Delete(VersionKey(userId)))
  }

  /** Walks the listed keys and deletes those that start with the prefix. */
  function DeletePrefixed<V>(m: JsMap<string, V>, keys: seq<string>, prefix: string): JsMap<string, V>
    decreases keys
  {
    if keys == [] then m
    else DeletePrefixed(if prefix <= keys[0] then m.Delete(keys[0]) else m, keys[1..], prefix)
  }

  function InvalidateUser(c: CacheState, userId: nat): CacheState {
    CacheState(DeletePrefixed(c.store, c.store.order, UserPrefix(userId)), c.versions.Delete(VersionKey(userId)))
  }

  // ---------- Keys ----------

  /** The string test `key.startsWith(userId + ':')` picks out exactly the keys of that user. */
  lemma PrefixPicksUser(userId: nat, other: nat, sessionId: string)
    ensures UserPrefix(userId) <= AuthKey(other, sessionId) <==> userId == other
  {
    var mine, key := UserPrefix(userId), AuthKey(other, sessionId);
    var a, b := Decimal.ToString(userId), Decimal.ToString(other);
    assert |a| < |b| ==> key[|a|] == b[|a|];
    assert |b| < |a| ==> mine[|b|] == a[|b|];
    if mine <= key {
      assert key[|a|] == mine[|a|] == ':';
      assert mine[..|a|] == key[..|a|];
      assert a == b;
      Decimal.ToStringInjective(userId, other);
    }
  }

  lemma AuthKeyInjective(userId: nat, sessionId: string, otherId: nat, otherSession: string)
    ensures AuthKey(userId, sessionId) == AuthKey(otherId, otherSession) <==>
            userId == otherId && sessionId == otherSession
  {
    if AuthKey(userId, sessionId) == AuthKey(otherId, otherSession) {
      PrefixPicksUser(userId, otherId, otherSession);
      var n := |UserPrefix(userId)|;
      assert sessionId == AuthKey(userId, sessionId)[n..] == otherSession;
    }
  }

  // ---------- The operations keep the cache well formed and bounded ----------

  lemma MakeRoomKeepsValid<V>(m: JsMap<string, V>)
    requires m.Valid() && m.Size() <= AUTH_CACHE_MAX_SIZE
    ensures MakeRoom(m).Valid() && MakeRoom(m).Size() < AUTH_CACHE_MAX_SIZE
  {
    if m.Size() >= AUTH_CACHE_MAX_SIZE {
      DeleteKeepsValid(m, m.order[0]);
    }
  }

  lemma {:induction false} DeletePrefixedExact<V>(m: JsMap<string, V>, keys: seq<string>, prefix: string)
    requires m.Valid()
    ensures var r := DeletePrefixed(m, keys, prefix);
            && r.Valid() && r.Size() <= m.Size()
            && r.entries == map k | k in m.entries && !(prefix <= k && k in keys) :: m.entries[k]
    decreases keys
  {
    if keys != [] {
      var m' := if prefix <= keys[0] then m.Delete(keys[0]) else m;
      DeleteKeepsValid(m, keys[0]);
      DeletePrefixedExact(m', keys[1..], prefix);
      assert forall k :: k in keys <==> k == keys[0] || k in keys[1..];
    }
  }

  /** Evicting a user takes all of that user's sessions and nobody else's. */
  lemma InvalidateUserExact(c: CacheState, userId: nat, other: nat, sessionId: string)
    requires c.Valid()
    ensures var r := InvalidateUser(c, userId);
            && (AuthKey(other, sessionId) in r.store.entries <==>
                other != userId && AuthKey(other, sessionId) in c.store.entries)
            && (VersionKey(other) in r.versions.entries <==>
                other != userId && VersionKey(other) in c.versions.entries)
  {
    PrefixPicksUser(userId, other, sessionId);
    DeletePrefixedExact(c.store, c.store.order, UserPrefix(userId));
    if VersionKey(userId) == VersionKey(other) {
      Decimal.ToStringInjective(userId, other);
    }
  }

  /** Two caches hold the same under every key but one. */
  ghost predicate SameBut<V>(m: JsMap<string, V>, m': JsMap<string, V>, key: string) {
    forall k :: k != key ==> m'.Get(k) == m.Get(k)
  }

  /** Evicting a session takes its result and the user's version, and nothing else. */
  lemma InvalidateExact(c: CacheState, userId: nat, sessionId: string)
    ensures var r := Invalidate(c, userId, sessionId);
            && AuthKey(userId, sessionId) !in r.store.entries && VersionKey(userId) !in r.versions.entries
            && SameBut(c.store, r.store, AuthKey(userId, sessionId)) && SameBut(c.versions, r.versions, VersionKey(userId))
  {
  }

  /** A result is found until its time, and gone after it. */
  lemma LookupExact(c: CacheState, userId: nat, sessionId: string, now: nat)
    ensures var key, (r, found) := AuthKey(userId, sessionId), Lookup(c, userId, sessionId, now);
            && r.versions == c.versions && SameBut(c.store, r.store, key)
            && (if key in c.store.entries && now <= c.store.entries[key].expiresAt
                then found == Some(c.store.entries[key].result) && r.store == c.store
                else found == None && key !in r.store.entries)
  {
  }

  /** The same for the version, where a stored null is never found. */
  lemma LookupVersionExact(c: CacheState, userId: nat, now: nat)
    ensures var key, (r, found) := VersionKey(userId), LookupVersion(c, userId, now);
            && r.store == c.store && SameBut(c.versions, r.versions, key)
            && (if key in c.versions.entries && now <= c.versions.entries[key].expiresAt
                then found == c.versions.entries[key].sessionId && r.versions == c.versions
                else found == None && key !in r.versions.entries)
  {
  }

  /** Storing in a tier of 500 entries costs the one that came first its place, and no other. */
  ghost predicate StoredIn<V>(m: JsMap<string, V>, m': JsMap<string, V>, key: string, value: V) {
    && m'.Get(key) == Some(value)
    && forall k :: k != key ==> m'.Get(k) == if m.Size() >= 500 && k == m.order[0] then None else m.Get(k)
  }

  lemma StoreExact(c: CacheState, userId: nat, sessionId: string, result: Credentials, version: Option<string>, now: nat)
    requires c.Valid()
    ensures var r := Store(c, userId, sessionId, result, now);
            r.versions == c.versions && StoredIn(c.store, r.store, AuthKey(userId, sessionId), AuthEntry(result, now + 900_000))
    ensures var r := StoreVersion(c, userId, version, now);
            r.store == c.store && StoredIn(c.versions, r.versions, VersionKey(userId), VersionEntry(version, now + 10_000))
  {
  }

  lemma OperationsKeepValid(c: CacheState, userId: nat, sessionId: string, result: Credentials,
                            version: Option<string>, now: nat)
    requires c.Valid()
    ensures Lookup(c, userId, sessionId, now).0.Valid()
    ensures LookupVersion(c, userId, now).0.Valid()
    ensures Store(c, userId, sessionId, result, now).Valid()
    ensures StoreVersion(c, userId, version, now).Valid()
    ensures Invalidate(c, userId, sessionId).Valid()
    ensures InvalidateUser(c, userId).Valid()
  {
    var key, versionKey := AuthKey(userId, sessionId), VersionKey(userId);
    DeleteKeepsValid(c.store, key);
    DeleteKeepsValid(c.versions, versionKey);
    MakeRoomKeepsValid(c.store);
    MakeRoomKeepsValid(c.versions);
    SetKeepsValid(MakeRoom(c.store), key, AuthEntry(result, now + AUTH_CACHE_TTL_MS));
    SetKeepsValid(MakeRoom(c.versions), versionKey, VersionEntry(version, now + SESSION_VERSION_CACHE_TTL_MS));
    DeletePrefixedExact(c.store, c.store.order, UserPrefix(userId));
  }

  // ---------- The cache object ----------

  class AuthCache {
    var store: JsMap<string, AuthEntry>
    var versionStore: JsMap<string, VersionEntry>

    ghost function State(): CacheState
      reads this
    {
      CacheState(store, versionStore)
    }

    constructor ()
      ensures State() == EMPTY_CACHE
    {
      store, versionStore := Empty(), Empty();
    }

    method Get(userId: nat, sessionId: string, now: nat) returns (r: Option<Credentials>)
      modifies this
      ensures (State(), r) == Lookup(old(State()), userId, sessionId, now)
    {
      var key := AuthKey(userId, sessionId);
      var entry := store.Get(key);
      if entry.None? {
        return None;
      }
      if now > entry.value.expiresAt {
        store := store.Delete(key);
        return None;
      }
      return Some(entry.value.result);
    }

    method Set(userId: nat, sessionId: string, result: Credentials, now: nat)
      modifies this
      ensures State() == Store(old(State()), userId, sessionId, result, now)
    {
      if store.Size() >= AUTH_CACHE_MAX_SIZE {
        store := store.DeleteOldest();
      }
      var key := AuthKey(userId, sessionId);
      store := store.Set(key, AuthEntry(result, now + AUTH_CACHE_TTL_MS));
    }

    method GetSessionVersion(userId: nat, now: nat) returns (r: Option<string>)
      modifies this
      ensures (State(), r) == LookupVersion(old(State()), userId, now)
    {
      var entry := versionStore.Get(VersionKey(userId));
      if entry.None? {
        return None;
      }
      if now > entry.value.expiresAt {
        versionStore := versionStore.Delete(VersionKey(userId));
        return None;
      }
      return entry.value.sessionId;
    }

    method SetSessionVersion(userId: nat, sessionId: Option<string>, now: nat)
      modifies this
      ensures State() == StoreVersion(old(State()), userId, sessionId, now)
    {
      if versionStore.Size() >= AUTH_CACHE_MAX_SIZE {
        versionStore := versionStore.DeleteOldest();
      }
      versionStore := versionStore.Set(VersionKey(userId),
                                       VersionEntry(sessionId, now + SESSION_VERSION_CACHE_TTL_MS));
    }

    method InvalidateSession(userId: nat, sessionId: string)
      modifies this
      ensures State() == Invalidate(old(State()), userId, sessionId)
      ensures AuthKey(userId, sessionId) !in store.entries && VersionKey(userId) !in versionStore.entries
      ensures SameBut(old(store), store, AuthKey(userId, sessionId)) && SameBut(old(versionStore), versionStore, VersionKey(userId))
    {
      store := store.Delete(AuthKey(userId, sessionId));
      versionStore := versionStore.Delete(VersionKey(userId));
    }

    method InvalidateAllOf(userId: nat)
      modifies this
      ensures State() == InvalidateUser(old(State()), userId)
    {
      var prefix := UserPrefix(userId);
      var keys := store.order;
      var i := 0;
      while i < |keys|
        invariant 0 <= i <= |keys|
        invariant versionStore == old(versionStore)
        invariant DeletePrefixed(store, keys[i..], prefix) == DeletePrefixed(old(store), keys, prefix)
      {
        if prefix <= keys[i] {
          store := store.Delete(keys[i]);
        }
        i := i + 1;
      }
      versionStore := versionStore.Delete(VersionKey(userId));
    }
  }
}
