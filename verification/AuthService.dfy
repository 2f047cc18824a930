/**
 * The service object: three tables rewritten statement by statement.  Every call keeps every family
 * a chain with one live end; each method also states what its caller may rely on.
 */
module AuthServices {
  import opened Base
  import opened AuthTables
  import Chains = AuthChains
  import Families = AuthFamilies

  datatype RefreshResult = Issued(token: nat) | Refused(verdict: Verdict)

  predicate Known(users: seq<User>, uid: Option<nat>) {
    uid.Some? && uid.value < |users| && users[uid.value].deletedAt.None?
  }

  predicate LockedAt(user: User, now: nat) {
    user.lockedUntil.Some? && user.lockedUntil.value > now
  }

  /** Token `i` is of the family of the presented token. */
  predicate InFamilyOf(tokens: seq<Token>, raw: Option<nat>, i: nat)
    requires i < |tokens|
  {
    raw.Some? && raw.value < |tokens| && tokens[i].sessionId == tokens[raw.value].sessionId
  }

  class AuthService {
    var users: seq<User>
    var sessions: seq<Session>
    var tokens: seq<Token>
    const config: Config

    ghost predicate Valid()
      reads this
    {
      ForeignKeys(Tables(users, sessions, tokens)) && Chains.AllChains(Tables(users, sessions, tokens))
    }

    ghost function Rows(): Db
      requires Valid()
      reads this
    {
      Tables(users, sessions, tokens)
    }

    /** The ids of a session's live tokens. */
    ghost function Live(sid: nat): set<nat>
      requires Valid()
      reads this
    {
      Families.Live(Rows(), sid)
    }

    /** The session is over: no access token of it validates, none of its tokens is live or refreshes. */
    ghost predicate Ended(sid: nat)
      requires Valid() && sid < |sessions|
      reads this
    {
      && sessions[sid].revokedAt.Some? && Live(sid) == {}
      && forall raw: nat, later: nat :: raw < |tokens| && tokens[raw].sessionId == sid ==>
            Check(Rows(), Some(raw), later) != Pass
    }

    /** One failure more, and locked for a window from the configured number of failures on. */
    ghost function OnceMoreFailed(user: User, now: nat): User {
      var failed := user.failedLoginCount + 1;
      user.(failedLoginCount := failed,
            lockedUntil := if failed >= config.maxAttempts then Some(now + config.lockMillis) else None)
    }

    /** A token signed at `now`: it expires `refreshTtlSeconds` later, in the token and in its row. */
    ghost function FirstToken(uid: nat, sid: nat, now: nat): Token {
      var ttl := config.refreshTtlSeconds;
      Token(uid, sid, Jwt(now / 1000, now / 1000 + ttl), now + 1000 * ttl, None, None, None, None)
    }

    /** The tokens once `raw` has been exchanged: it is used, and its successor is new. */
    ghost function Exchanged(tokens: seq<Token>, raw: nat, now: nat): seq<Token>
      requires raw < |tokens|
    {
      var t := tokens[raw];
      tokens[raw := t.(usedAt := Some(now), replacedById := Some(|tokens|))]
      + [FirstToken(t.userId, t.sessionId, now).(origin := Some(raw))]
    }

    constructor (config: Config)
      ensures Valid() && Rows() == Tables([], [], []) && this.config == config
    {
      users, sessions, tokens := [], [], [];
      this.config := config;
    }

    method RevokeSession(sid: nat, now: nat)
      requires Valid() && sid < |sessions|
      modifies this`sessions, this`tokens
      ensures Valid() && Rows() == AuthTables.RevokeSession(old(Rows()), sid, now)
      ensures |sessions| == |old(sessions)| && |tokens| == |old(tokens)| && Ended(sid)
      ensures forall s :: 0 <= s < |sessions| && s != sid ==> sessions[s] == old(sessions)[s]
      ensures forall i :: 0 <= i < |tokens| && tokens[i].sessionId != sid ==> tokens[i] == old(tokens)[i]
      ensures sessions[sid] == old(sessions)[sid].(revokedAt := Some(now))
      ensures forall i :: 0 <= i < |tokens| && tokens[i].sessionId == sid ==>
        tokens[i] == if old(tokens)[i].revokedAt.None? then old(tokens)[i].(revokedAt := Some(now)) else old(tokens)[i]
    {
      Chains.RevokeKeepsChains(Rows(), sid, now);
      Chains.ChainHasOneLiveEnd(AuthTables.RevokeSession(Rows(), sid, now), sid);
      sessions := sessions[sid := sessions[sid].(revokedAt := Some(now))];
      tokens := RevokeTokensOf(tokens, sid, now);
    }

    method StartSession(uid: nat, now: nat) returns (token: nat)
      requires Valid() && uid < |users|
      modifies this`sessions, this`tokens
      ensures Valid() && Rows() == AuthTables.StartSession(old(Rows()), uid, now, config)
      ensures token == |old(tokens)| && |sessions| == |old(sessions)| + 1
      ensures sessions[|old(sessions)|] == Session(uid, None) && Live(|old(sessions)|) == {token}
      ensures sessions == old(sessions) + [Session(uid, None)]
      ensures tokens == old(tokens) + [FirstToken(uid, |old(sessions)|, now)]
    {
      ghost var begun := AuthTables.StartSession(Rows(), uid, now, config);
      StartKeepsAll(Rows(), uid, now, config);
      var sid := |sessions|;
      sessions := sessions + [Session(uid, None)];
      var jwt := Sign(now, config);
      token := |tokens|;
      tokens := tokens + [Token(uid, sid, jwt, ExpiresAt(now, config), None, None, None, None)];
    }

    method Login(uid: Option<nat>, passwordOk: bool, now: nat) returns (r: LoginResult, token: Option<nat>)
      requires Valid()
      modifies this
      ensures Valid() && Rows() == AuthTables.Login(old(Rows()), uid, passwordOk, now, config)
      ensures r == LoginCheck(old(Rows()), uid, passwordOk, now)
      ensures token == if r == LoggedIn then Some(|old(tokens)|) else None
      ensures r == NoSuchUser <==> !Known(old(users), uid)
      ensures r == Locked <==> Known(old(users), uid) && LockedAt(old(users)[uid.value], now)
      ensures r == BadPassword <==> Known(old(users), uid) && !LockedAt(old(users)[uid.value], now) && !passwordOk
      ensures r == LoggedIn <==>
        Known(old(users), uid) && !LockedAt(old(users)[uid.value], now) && passwordOk
          && old(users)[uid.value].status == Active
      ensures r == Unverified ==> old(users)[uid.value].status == PendingVerification
      ensures r == NotActive ==> old(users)[uid.value].status in {Suspended, Deleted}
      ensures r == LoggedIn ==>
        && sessions == old(sessions) + [Session(uid.value, None)]
        && tokens == old(tokens) + [FirstToken(uid.value, |old(sessions)|, now)]
        && Live(|old(sessions)|) == {token.value}
        && users[uid.value] == old(users)[uid.value].(failedLoginCount := 0, lockedUntil := None)
      ensures r != LoggedIn ==> sessions == old(sessions) && tokens == old(tokens)
      ensures r == BadPassword ==> users[uid.value] == OnceMoreFailed(old(users)[uid.value], now)
      ensures |users| == |old(users)|
      ensures r != LoggedIn && r != BadPassword ==> users == old(users)
      ensures forall u: nat :: u < |users| && uid != Some(u) ==> users[u] == old(users)[u]
    {
      Chains.LoginKeepsChains(Rows(), uid, passwordOk, now, config);
      token := None;
      if uid.None? || uid.value >= |users| || users[uid.value].deletedAt.Some? {
        return NoSuchUser, None;
      }
      var user := users[uid.value];
      if user.lockedUntil.Some? && user.lockedUntil.value > now {
        return Locked, None;
      }
      if !passwordOk {
        var failed := user.failedLoginCount + 1;
        var lock := if failed >= config.maxAttempts then Some(now + config.lockMillis) else None;
        users := users[uid.value := user.(failedLoginCount := failed, lockedUntil := lock)];
        return BadPassword, None;
      }
      if user.status == PendingVerification {
        return Unverified, None;
      }
      if user.status != Active {
        return NotActive, None;
      }
      var t := StartSession(uid.value, now);
      assert Live(|old(sessions)|) == {t};
      users := users[uid.value := user.(failedLoginCount := 0, lockedUntil := None)];
      return LoggedIn, Some(t);
    }

    method Refresh(raw: Option<nat>, now: nat) returns (r: RefreshResult)
      requires Valid()
      modifies this`sessions, this`tokens
      ensures Valid() && Rows() == AuthTables.Refresh(old(Rows()), raw, now, config)
      ensures r == (var v := Check(old(Rows()), raw, now); if v == Pass then Issued(|old(tokens)|) else Refused(v))
      ensures |sessions| == |old(sessions)| && |old(tokens)| <= |tokens|
      ensures r.Issued? <==> Exchangeable(old(Rows()), raw, now)
      ensures OutOfDate(old(Rows()), raw, now) ==> Rows() == old(Rows())
      ensures r == Refused(PasswordCut) <==> (Sound(old(Rows()), raw, now) && Outlived(old(Rows()), raw.value))
      ensures r == Refused(Reuse) <==>
        (raw.Some? && raw.value < |old(tokens)| && !OutOfDate(old(Rows()), raw, now)
         && (old(tokens)[raw.value].usedAt.Some? || old(tokens)[raw.value].revokedAt.Some?))
      ensures r.Issued? ==>
        && raw.Some? && raw.value < |old(tokens)| && r.token == |old(tokens)| < |tokens|
        && tokens == Exchanged(old(tokens), raw.value, now)
        && Live(old(tokens)[raw.value].sessionId) == {r.token} && sessions == old(sessions)
        && forall later :: Check(Rows(), raw, later) != Pass
      ensures r == Refused(Reuse) || r == Refused(PasswordCut) ==>
        raw.Some? && raw.value < |tokens| && tokens[raw.value].sessionId < |sessions|
          && Ended(tokens[raw.value].sessionId)
      ensures r.Refused? && r.verdict != Reuse && r.verdict != PasswordCut ==> Rows() == old(Rows())
      ensures forall i :: 0 <= i < |old(tokens)| && !InFamilyOf(old(tokens), raw, i) ==> tokens[i] == old(tokens)[i]
    {
      RefreshLeavesOneEnd(Rows(), raw, now, config);
      ExactlyExchangeablePass(Rows(), raw, now);
      if raw.None? {
        return Refused(Missing);
      }
      if raw.value >= |tokens| || now / 1000 >= tokens[raw.value].jwt.exp {
        return Refused(Expired);
      }
      var stored := tokens[raw.value];
      if stored.usedAt.Some? || stored.revokedAt.Some? {
        RevokeSession(stored.sessionId, now);
        return Refused(Reuse);
      }
      if stored.expiresAt < now || sessions[stored.sessionId].revokedAt.Some? {
        return Refused(Expired);
      }
      var user := users[stored.userId];
      if user.status != Active || user.deletedAt.Some? {
        return Refused(Inactive);
      }
      if user.passwordChangedAt.Some? && stored.jwt.iat != 0 && stored.jwt.iat * 1000 < user.passwordChangedAt.value {
        RevokeSession(stored.sessionId, now);
        return Refused(PasswordCut);
      }
      var next := Sign(now, config);
      var created := |tokens|;
      tokens := tokens + [Token(stored.userId, stored.sessionId, next, ExpiresAt(now, config), None, None, None, raw)];
      tokens := tokens[raw.value := tokens[raw.value].(usedAt := Some(now), replacedById := Some(created))];
      return Issued(created);
    }

    method Logout(raw: Option<nat>, now: nat)
      requires Valid()
      modifies this`sessions, this`tokens
      ensures Valid() && Rows() == AuthTables.Logout(old(Rows()), raw, now)
      ensures |sessions| == |old(sessions)| && |tokens| == |old(tokens)|
      ensures raw.Some? && raw.value < |tokens| ==> Ended(tokens[raw.value].sessionId)
      ensures raw.None? || raw.value >= |tokens| ==> Rows() == old(Rows())
      ensures forall s :: 0 <= s < |sessions| ==>
        (raw.Some? && raw.value < |tokens| && tokens[raw.value].sessionId == s) || sessions[s] == old(sessions)[s]
      ensures forall i :: 0 <= i < |tokens| && !InFamilyOf(old(tokens), raw, i) ==> tokens[i] == old(tokens)[i]
    {
      if raw.Some? && raw.value < |tokens| {
        RevokeSession(tokens[raw.value].sessionId, now);
      }
    }

    /** `findMany where userId and revokedAt is null`. */
    function LiveSessionIds(uid: nat, n: nat): (ids: seq<nat>)
      requires n <= |sessions|
      reads this
      ensures forall i :: i in ids <==> 0 <= i < n && sessions[i].userId == uid && sessions[i].revokedAt.None?
    {
      if n == 0 then []
      else
        var rest := LiveSessionIds(uid, n - 1);
        if sessions[n - 1].userId == uid && sessions[n - 1].revokedAt.None? then rest + [n - 1] else rest
    }

    /** One revocation after another amounts to ending all of them at once. */
    method LogoutAll(uid: nat, now: nat) returns (count: nat)
      requires Valid()
      modifies this`sessions, this`tokens
      ensures Valid() && Rows() == AuthTables.LogoutAll(old(Rows()), uid, now)
      ensures |sessions| == |old(sessions)| && |tokens| == |old(tokens)|
      ensures forall s :: 0 <= s < |sessions| ==>
        sessions[s] == if old(sessions)[s].userId == uid && old(sessions)[s].revokedAt.None?
                       then old(sessions)[s].(revokedAt := Some(now)) else old(sessions)[s]
      ensures forall s :: 0 <= s < |sessions| && sessions[s].userId == uid ==> Ended(s)
      ensures forall i :: 0 <= i < |tokens| && old(sessions)[tokens[i].sessionId].userId != uid ==>
        tokens[i] == old(tokens)[i]
    {
      var live := LiveSessionIds(uid, |sessions|);
      assert forall k :: 0 <= k < |live| ==> live[k] in live;
      count := |live|;
      for k := 0 to |live|
        invariant Valid() && |sessions| == |old(sessions)| && |tokens| == |old(tokens)|
        invariant forall i :: 0 <= i < |sessions| ==>
          sessions[i] == if i in live[..k] then old(sessions)[i].(revokedAt := Some(now)) else old(sessions)[i]
        invariant forall i :: 0 <= i < |tokens| ==>
          tokens[i] == if old(tokens)[i].sessionId in live[..k]
                       then old(tokens)[i].(revokedAt := Stamp(old(tokens)[i].revokedAt, now)) else old(tokens)[i]
      {
        assert live[..k + 1] == live[..k] + [live[k]];
        RevokeSession(live[k], now);
      }
      assert live[..|live|] == live;
      ghost var spec := AuthTables.LogoutAll(old(Rows()), uid, now);
      assert forall i :: 0 <= i < |sessions| ==> sessions[i] == spec.sessions[i];
      assert forall i :: 0 <= i < |tokens| ==> tokens[i] == spec.tokens[i];
      forall s | 0 <= s < |sessions| && sessions[s].userId == uid
        ensures Live(s) == {}
      {
        assert Chains.IsChain(Rows(), s);
        Chains.ChainHasOneLiveEnd(Rows(), s);
      }
    }

    method ResetPassword(uid: nat, now: nat)
      requires Valid() && uid < |users|
      modifies this
      ensures Valid() && Rows() == AuthTables.ResetPassword(old(Rows()), uid, now)
      ensures |users| == |old(users)| && |sessions| == |old(sessions)| && |tokens| == |old(tokens)|
      ensures users[uid] == old(users)[uid].(
        status := Active, failedLoginCount := 0, lockedUntil := None, passwordChangedAt := Some(now))
      ensures forall u: nat :: u < |users| && u != uid ==> users[u] == old(users)[u]
      ensures forall s :: 0 <= s < |sessions| && sessions[s].userId == uid ==> Ended(s)
      ensures forall s :: 0 <= s < |sessions| && sessions[s].userId != uid ==> sessions[s] == old(sessions)[s]
      ensures forall i :: 0 <= i < |tokens| && tokens[i].userId != uid ==> tokens[i] == old(tokens)[i]
    {
      Chains.ResetKeepsChains(Rows(), uid, now);
      ghost var reset := AuthTables.ResetPassword(Rows(), uid, now);
      forall s | 0 <= s < |sessions|
        ensures reset.sessions[s].revokedAt.Some? ==> Families.Live(reset, s) == {}
      {
        assert Chains.IsChain(reset, s);
        Chains.ChainHasOneLiveEnd(reset, s);
      }
      var user := users[uid].(status := Active, failedLoginCount := 0, lockedUntil := None);
      users := users[uid := user.(passwordChangedAt := Some(now))];
      sessions := RevokeSessionsOfUser(sessions, uid, now);
      tokens := RevokeTokensOfUser(tokens, uid, now);
    }

    method ChangePassword(uid: nat, currentOk: bool, now: nat) returns (ok: bool)
      requires Valid()
      modifies this`users
      ensures Valid() && Rows() == AuthTables.ChangePassword(old(Rows()), uid, currentOk, now)
      ensures ok == (uid < |users| && currentOk)
      ensures ok ==> forall raw: nat, later: nat ::
        raw < |tokens| && tokens[raw].userId == uid && 0 < tokens[raw].jwt.iat && tokens[raw].jwt.iat * 1000 < now ==>
        Check(Rows(), Some(raw), later) != Pass
      ensures users == if ok then old(users)[uid := old(users)[uid].(passwordChangedAt := Some(now))] else old(users)
    {
      Chains.UsersKeepChains(Rows(), AuthTables.ChangePassword(Rows(), uid, currentOk, now));
      ok := uid < |users| && currentOk;
      if ok {
        users := users[uid := users[uid].(passwordChangedAt := Some(now))];
      }
    }

    method Register(now: nat) returns (uid: nat)
      requires Valid()
      modifies this`users
      ensures Valid() && Rows() == AuthTables.Register(old(Rows()), now)
      ensures uid == |old(users)| && users == old(users) + [User(PendingVerification, None, 0, None, Some(now))]
    {
      Chains.UsersKeepChains(Rows(), AuthTables.Register(Rows(), now));
      uid := |users|;
      users := users + [User(PendingVerification, None, 0, None, Some(now))];
    }

    /** The access-token check made on every request. */
    method Validate(sid: nat) returns (ok: bool)
      requires Valid()
      ensures ok == AccessValid(Rows(), sid)
      ensures ok <==> sid < |sessions| && sessions[sid].revokedAt.None?
    {
      ok := sid < |sessions| && sessions[sid].revokedAt.None?;
    }
  }

  lemma StartKeepsAll(db: Db, uid: nat, now: nat, config: Config)
    requires Chains.AllChains(db) && uid < |db.users|
    ensures var begun := AuthTables.StartSession(db, uid, now, config);
      Chains.AllChains(begun) && Families.Live(begun, |db.sessions|) == {|db.tokens|}
  {
    var begun := AuthTables.StartSession(db, uid, now, config);
    forall sid | 0 <= sid < |begun.sessions|
      ensures Chains.IsChain(begun, sid)
    {
      Chains.StartKeepsChains(db, uid, now, config, sid);
    }
    Chains.ChainHasOneLiveEnd(begun, |db.sessions|);
    Chains.EmptyChain(db.tokens, |db.sessions|);
    Chains.ChainGrows(db.tokens, begun.tokens[|db.tokens|], |db.sessions|);
  }

  lemma RefreshLeavesOneEnd(db: Db, raw: Option<nat>, now: nat, config: Config)
    requires Chains.AllChains(db)
    ensures Chains.AllChains(AuthTables.Refresh(db, raw, now, config))
    ensures Check(db, raw, now) == Pass ==>
      var after := AuthTables.Refresh(db, raw, now, config);
      && Families.Live(after, db.tokens[raw.value].sessionId) == {|db.tokens|}
      && forall later :: Check(after, raw, later) != Pass
  {
    Chains.RefreshKeepsChains(db, raw, now, config);
    if Check(db, raw, now) == Pass {
      var sid := db.tokens[raw.value].sessionId;
      var after := AuthTables.Refresh(db, raw, now, config);
      assert Chains.IsChain(after, sid);
      Chains.ChainHasOneLiveEnd(after, sid);
      assert |db.tokens| in Families.Live(after, sid);
    }
  }
}
