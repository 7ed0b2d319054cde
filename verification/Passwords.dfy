/**
 * Changing a password with a reset token (src/plugins/auth/services/password-service.js and
 * src/plugins/auth/helpers/password-history.js). A stored hash is modelled by the password it verifies.
 */
module Passwords {
  import opened Wrappers

  datatype Config = Config(historyEnabled: bool, limit: nat)

  /** A row of old_passwords; rows are kept newest first, as every query orders them. */
  datatype Old = Old(id: nat, password: string)

  datatype Account = Account(password: Option<string>, token: Option<string>, history: seq<Old>, nextId: nat)

  datatype Outcome = Changed | UsedPreviously | TokenGone

  /** How the best-effort archiving of the replaced password goes. */
  datatype Archiving = Works | CreateFails | CleanupFails

  predicate ValidHistory(history: seq<Old>, nextId: nat) {
    && (forall i :: 0 <= i < |history| ==> history[i].id < nextId)
    && (forall i, j :: 0 <= i < j < |history| ==> history[i].id != history[j].id)
  }

  function Take<T>(s: seq<T>, n: nat): (r: seq<T>)
    ensures |r| <= n && r <= s
    ensures |s| <= n ==> r == s
  {
    if |s| <= n then s else s[..n]
  }

  predicate Matches(password: string, olds: seq<Old>) {
    exists i :: 0 <= i < |olds| && olds[i].password == password
  }

  predicate Reused(a: Account, config: Config, password: string) {
    a.password == Some(password) || (config.historyEnabled && Matches(password, Take(a.history, config.limit)))
  }

  /** A reset that carries a token takes place only while that token is stored. */
  predicate TokenMatches(a: Account, token: Option<string>) {
    token.Some? ==> a.token == token
  }

  function Archived(a: Account, config: Config, previous: Option<string>, archiving: Archiving): Account {
    if !config.historyEnabled || previous.None? || archiving.CreateFails? then a
    else
      var history := [Old(a.nextId, previous.value)] + a.history;
      Account(a.password, a.token, if archiving.Works? then Take(history, config.limit) else history, a.nextId + 1)
  }

  /** What one reset, undisturbed, does to the account. */
  function AfterReset(a: Account, config: Config, password: string, token: Option<string>, archiving: Archiving)
    : (Account, Outcome)
  {
    if Reused(a, config, password) then (a, UsedPreviously)
    else if !TokenMatches(a, token) then (a, TokenGone)
    else (Archived(a.(password := Some(password), token := None), config, a.password, archiving), Changed)
  }

  /** The password is the current one or, with the history on, one of the newest rows up to the limit. */
  ghost predicate IsKnown(a: Account, config: Config, password: string) {
    || a.password == Some(password)
    || (config.historyEnabled && exists i :: 0 <= i < |a.history| && i < config.limit && a.history[i].password == password)
  }

  /** A new row in front, and rows from the limit on gone if the clean-up works. */
  ghost predicate IsArchived(a: Account, a': Account, previous: string, limit: nat, archiving: Archiving) {
    var rows := [Old(a.nextId, previous)] + a.history;
    && a'.nextId == a.nextId + 1
    && |a'.history| == (if archiving.Works? && limit < |rows| then limit else |rows|)
    && forall i :: 0 <= i < |a'.history| ==> a'.history[i] == rows[i]
  }

  /**
   * A reset is refused first for a known password, then for a token that is not the stored one, and then leaves the
   * account alone; otherwise the account has the new password, no token, and the replaced password archived.
   */
  lemma ResetExactly(a: Account, config: Config, password: string, token: Option<string>, archiving: Archiving)
    ensures var (a', outcome) := AfterReset(a, config, password, token, archiving);
            && (outcome == UsedPreviously <==> IsKnown(a, config, password))
            && (outcome == TokenGone <==> !IsKnown(a, config, password) && token != None && a.token != token)
            && (outcome != Changed ==> a' == a)
            && (outcome == Changed ==>
                  && a'.password == Some(password) && a'.token == None
                  && (if config.historyEnabled && a.password.Some? && archiving != CreateFails
                      then IsArchived(a, a', a.password.value, config.limit, archiving)
                      else a'.history == a.history && a'.nextId == a.nextId))
  {
    var recent := Take(a.history, config.limit);
    if Matches(password, recent) {
      var i :| 0 <= i < |recent| && recent[i].password == password;
      assert a.history[i].password == password;
    }
    if config.historyEnabled && exists i :: 0 <= i < |a.history| && i < config.limit && a.history[i].password == password {
      var i :| 0 <= i < |a.history| && i < config.limit && a.history[i].password == password;
      assert recent[i].password == password;
    }
  }

  function WithoutIds(olds: seq<Old>, ids: set<nat>): seq<Old> {
    if olds == [] then []
    else (if olds[0].id in ids then [] else [olds[0]]) + WithoutIds(olds[1..], ids)
  }

  /** Deleting the ids beyond the limit leaves the newest rows. */
  lemma {:induction false} DeletingBeyond(olds: seq<Old>, nextId: nat, limit: nat, ids: set<nat>)
    requires ValidHistory(olds, nextId)
    requires forall i :: 0 <= i < |olds| ==> (olds[i].id in ids <==> i >= limit)
    ensures WithoutIds(olds, ids) == Take(olds, limit)
  {
    if olds != [] {
      assert olds[0].id in ids <==> limit == 0;
      DeletingBeyond(olds[1..], nextId, if limit == 0 then 0 else limit - 1, ids);
      assert limit > 0 ==> Take(olds, limit) == [olds[0]] + Take(olds[1..], limit - 1);
    }
  }

  function IdsBeyond(olds: seq<Old>, limit: nat): set<nat> {
    set i | limit <= i < |olds| :: olds[i].id
  }

  class PasswordService {
    const config: Config
    var account: Account

    predicate Valid()
      reads this
    {
      ValidHistory(account.history, account.nextId)
    }

    constructor (config: Config, account: Account)
      requires ValidHistory(account.history, account.nextId)
      ensures Valid() && this.config == config && this.account == account
    {
      this.config := config;
      this.account := account;
    }

    method CheckPasswordHistory(password: string, olds: seq<Old>) returns (reused: bool)
      ensures reused <==> config.historyEnabled && Matches(password, olds)
    {
      if !config.historyEnabled {
        return false;
      }
      for i := 0 to |olds|
        invariant !Matches(password, olds[..i])
      {
        if olds[i].password == password {
          return true;
        }
        assert olds[..i + 1] == olds[..i] + [olds[i]];
      }
      assert olds[..|olds|] == olds;
      return false;
    }

    method UpdateUserPassword(password: string, token: Option<string>) returns (updated: bool)
      modifies this
      ensures updated == old(TokenMatches(account, token))
      ensures account == if updated then old(account).(password := Some(password), token := None) else old(account)
    {
      updated := token.None? || account.token == token;
      if updated {
        account := account.(password := Some(password), token := None);
      }
    }

    method CleanupOldPasswords()
      requires Valid()
      modifies this
      ensures Valid() && account == old(account).(history := Take(old(account.history), config.limit))
    {
      if |account.history| > config.limit {
        var idsToDelete := IdsBeyond(account.history, config.limit);
        DeletingBeyond(account.history, account.nextId, config.limit, idsToDelete);
        account := account.(history := WithoutIds(account.history, idsToDelete));
      }
    }

    method ArchiveOldPassword(oldPassword: Option<string>, archiving: Archiving)
      requires Valid()
      modifies this
      ensures Valid() && account == Archived(old(account), config, oldPassword, archiving)
    {
      if !config.historyEnabled || oldPassword.None? || archiving.CreateFails? {
        return;
      }
      account := account.(history := [Old(account.nextId, oldPassword.value)] + account.history,
                          nextId := account.nextId + 1);
      if archiving.Works? {
        CleanupOldPasswords();
      }
    }

    method ResetPassword(password: string, token: Option<string>, archiving: Archiving) returns (outcome: Outcome)
      requires Valid()
      modifies this
      ensures Valid() && (account, outcome) == AfterReset(old(account), config, password, token, archiving)
    {
      var current := account.password;
      if current == Some(password) {
        return UsedPreviously;
      }
      var reused := CheckPasswordHistory(password, Take(account.history, config.limit));
      if reused {
        return UsedPreviously;
      }
      var updated := UpdateUserPassword(password, token);
      if !updated {
        return TokenGone;
      }
      ArchiveOldPassword(current, archiving);
      return Changed;
    }
  }

  // ---------- One reset after another ----------

  datatype Operation =
    | RequestReset(issued: string)
    | Reset(password: string, token: Option<string>, archiving: Archiving)

  /** The account and, newest first, every password it has had. */
  datatype Trail = Trail(account: Account, log: seq<string>)

  function Perform(t: Trail, config: Config, op: Operation): Trail {
    match op
    case RequestReset(token) => Trail(t.account.(token := Some(token)), t.log)
    case Reset(password, token, archiving) =>
      var (account, outcome) := AfterReset(t.account, config, password, token, archiving);
      Trail(account, if outcome.Changed? then [password] + t.log else t.log)
  }

  function PerformAll(t: Trail, config: Config, ops: seq<Operation>): Trail {
    if ops == [] then t else Perform(PerformAll(t, config, ops[..|ops| - 1]), config, ops[|ops| - 1])
  }

  /** How many of the latest passwords a new one is compared with. */
  function Window(config: Config): nat {
    if config.historyEnabled then config.limit + 1 else 1
  }

  /** Any `window + 1` consecutive passwords are pairwise distinct. */
  ghost predicate ApartWithin(log: seq<string>, window: nat) {
    forall i, j :: 0 <= i < j < |log| && j - i <= window ==> log[i] != log[j]
  }

  /** The account remembers the latest passwords: the current one and, in order, those before it. */
  ghost predicate Remembers(t: Trail, config: Config) {
    && t.account.password == (if t.log == [] then None else Some(t.log[0]))
    && (config.historyEnabled ==>
          && (t.log == [] ==> t.account.history == [])
          && (t.log != [] ==>
                && |t.account.history| <= |t.log| - 1
                && (|t.account.history| >= config.limit || |t.account.history| == |t.log| - 1)
                && forall i :: 0 <= i < |t.account.history| ==> t.account.history[i].password == t.log[i + 1]))
  }

  /** The two checks together compare a password with exactly the latest ones. */
  lemma ReusedExactly(t: Trail, config: Config, password: string)
    requires Remembers(t, config)
    ensures Reused(t.account, config, password) <==> password in Take(t.log, Window(config))
  {
    var recent := Take(t.account.history, config.limit);
    if t.log != [] {
      var latest := Take(t.log, Window(config));
      assert latest[0] == t.log[0];
      if config.historyEnabled {
        assert |recent| == |latest| - 1;
        assert forall i :: 0 <= i < |recent| ==> recent[i].password == latest[i + 1];
      }
      if password in latest {
        var i :| 0 <= i < |latest| && latest[i] == password;
        if i > 0 {
          assert recent[i - 1].password == password;
        }
      }
    }
  }

  /** A reset goes through if and only if its token fits and its password is not one of the latest. */
  lemma AcceptedExactly(t: Trail, config: Config, password: string, token: Option<string>, archiving: Archiving)
    requires Remembers(t, config)
    ensures AfterReset(t.account, config, password, token, archiving).1 == Changed <==>
            TokenMatches(t.account, token) && password !in Take(t.log, Window(config))
  {
    ReusedExactly(t, config, password);
  }

  lemma ArchivedRemembers(a: Account, config: Config, log: seq<string>, password: string, archiving: Archiving)
    requires Remembers(Trail(a, log), config) && !archiving.CreateFails?
    ensures Remembers(Trail(Archived(a.(password := Some(password), token := None), config, a.password, archiving),
                            [password] + log), config)
  {
  }

  lemma NewestApart(log: seq<string>, password: string, window: nat)
    requires ApartWithin(log, window) && password !in Take(log, window)
    ensures ApartWithin([password] + log, window)
  {
  }

  lemma ResetKeeps(t: Trail, config: Config, op: Operation)
    requires Remembers(t, config) && ApartWithin(t.log, Window(config)) && op.Reset? && !op.archiving.CreateFails?
    ensures Remembers(Perform(t, config, op), config) && ApartWithin(Perform(t, config, op).log, Window(config))
  {
    AcceptedExactly(t, config, op.password, op.token, op.archiving);
    var (account, outcome) := AfterReset(t.account, config, op.password, op.token, op.archiving);
    if outcome.Changed? {
      ArchivedRemembers(t.account, config, t.log, op.password, op.archiving);
      NewestApart(t.log, op.password, Window(config));
    }
  }

  /**
   * As long as replaced passwords are archived, any limit + 2 consecutive passwords are pairwise distinct
   * (any two, when the history is off), whatever resets are attempted and refused in between.
   */
  lemma {:induction false} RecentPasswordsDistinct(t: Trail, config: Config, ops: seq<Operation>)
    requires Remembers(t, config) && ApartWithin(t.log, Window(config))
    requires forall i :: 0 <= i < |ops| && ops[i].Reset? ==> !ops[i].archiving.CreateFails?
    ensures Remembers(PerformAll(t, config, ops), config)
    ensures ApartWithin(PerformAll(t, config, ops).log, Window(config))
  {
    if ops != [] {
      var rest := ops[..|ops| - 1];
      RecentPasswordsDistinct(t, config, rest);
      if ops[|ops| - 1].Reset? {
        ResetKeeps(PerformAll(t, config, rest), config, ops[|ops| - 1]);
      }
    }
  }

  /** The stored history stays within the limit as long as clean-up works, even where archiving fails. */
  lemma {:induction false} HistoryBounded(t: Trail, config: Config, ops: seq<Operation>)
    requires |t.account.history| <= config.limit
    requires forall i :: 0 <= i < |ops| && ops[i].Reset? ==> !ops[i].archiving.CleanupFails?
    ensures |PerformAll(t, config, ops).account.history| <= config.limit
  {
    if ops != [] {
      HistoryBounded(t, config, ops[..|ops| - 1]);
    }
  }

  /** The limit is exact: the password before the latest limit + 1 may be chosen again. */
  lemma OldPasswordsReturn(t: Trail, config: Config, i: nat, archiving: Archiving)
    requires Remembers(t, config) && ApartWithin(t.log, i) && Window(config) <= i < |t.log|
    ensures AfterReset(t.account, config, t.log[i], None, archiving).1 == Changed
  {
    AcceptedExactly(t, config, t.log[i], None, archiving);
    forall j | 0 <= j < |Take(t.log, Window(config))|
      ensures Take(t.log, Window(config))[j] != t.log[i]
    {
      assert t.log[j] != t.log[i];
    }
  }

  /** setInitialPassword: no check and nothing archived. */
  function AfterInitial(a: Account, password: string): Account {
    a.(password := Some(password))
  }

  /**
   * So the password that it replaces is forgotten, and the next reset may bring it back - with the token, too,
   * that was sent out before and is left stored.
   */
  lemma InitialPasswordForgets(t: Trail, config: Config, password: string, token: Option<string>, archiving: Archiving)
    requires Remembers(t, config) && ApartWithin(t.log, Window(config))
    requires t.log != [] && password != t.log[0] && (token == None || token == t.account.token)
    ensures AfterInitial(t.account, password).password == Some(password)
    ensures AfterReset(AfterInitial(t.account, password), config, t.log[0], token, archiving).1 == Changed
  {
    var recent := Take(t.account.history, config.limit);
    if config.historyEnabled {
      forall i | 0 <= i < |recent|
        ensures recent[i].password != t.log[0]
      {
        assert t.log[i + 1] != t.log[0];
      }
    }
  }
}
