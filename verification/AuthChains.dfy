/** Whole runs of service calls that do not overlap: each family is one chain with one live end. */
module AuthChains {
  import opened Base
  import opened AuthTables
  import opened AuthRace
  import opened AuthFamilies

  datatype Op =
    | DoRegister
    | DoLogin(uid: Option<nat>, passwordOk: bool)
    | DoRefresh(raw: Option<nat>)
    | DoLogout(raw: Option<nat>)
    | DoLogoutAll(user: nat)
    | DoReset(user: nat)
    | DoChange(user: nat, currentOk: bool)
    | DoStatus(user: nat, status: UserStatus, deletedAt: Option<nat>)

  /** A call made `wait` milliseconds after the previous one. */
  datatype Timed = Timed(wait: nat, op: Op)

  datatype Served = Served(db: Db, clock: nat)

  function Serve(s: Served, t: Timed, config: Config): Served {
    var now := s.clock + t.wait;
    var db := match t.op
      case DoRegister => Register(s.db, now)
      case DoLogin(uid, passwordOk) => Login(s.db, uid, passwordOk, now, config)
      case DoRefresh(raw) => Refresh(s.db, raw, now, config)
      case DoLogout(raw) => Logout(s.db, raw, now)
      case DoLogoutAll(user) => LogoutAll(s.db, user, now)
      case DoReset(user) => if user < |s.db.users| then ResetPassword(s.db, user, now) else s.db
      case DoChange(user, currentOk) => ChangePassword(s.db, user, currentOk, now)
      case DoStatus(user, status, deletedAt) => SetStatus(s.db, user, status, deletedAt);
    Served(db, now)
  }

  function ServeAll(s: Served, run: seq<Timed>, config: Config): Served {
    if run == [] then s else Serve(ServeAll(s, run[..|run| - 1], config), run[|run| - 1], config)
  }

  const START: Served := Served(Tables([], [], []), 0)

  // ---- the chain of a session -----------------------------------------------------------------

  /** Ids of the family's tokens, oldest first. */
  function Chain(tokens: seq<Token>, sid: nat): seq<nat> {
    if tokens == [] then []
    else
      var rest := Chain(tokens[..|tokens| - 1], sid);
      if tokens[|tokens| - 1].sessionId == sid then rest + [|tokens| - 1] else rest
  }

  lemma {:induction false} ChainMembers(tokens: seq<Token>, sid: nat)
    ensures forall k :: 0 <= k < |Chain(tokens, sid)| ==>
      Chain(tokens, sid)[k] < |tokens| && tokens[Chain(tokens, sid)[k]].sessionId == sid
    ensures forall k, l :: 0 <= k < l < |Chain(tokens, sid)| ==> Chain(tokens, sid)[k] < Chain(tokens, sid)[l]
    ensures forall i :: 0 <= i < |tokens| && tokens[i].sessionId == sid ==> i in Chain(tokens, sid)
  {
    if tokens != [] {
      ChainMembers(tokens[..|tokens| - 1], sid);
      var rest := Chain(tokens[..|tokens| - 1], sid);
      assert forall i :: i in rest ==> i in rest + [|tokens| - 1];
    }
  }

  lemma {:induction false} SameChain(a: seq<Token>, b: seq<Token>, sid: nat)
    requires |a| == |b| && forall i :: 0 <= i < |a| ==> a[i].sessionId == b[i].sessionId
    ensures Chain(a, sid) == Chain(b, sid)
  {
    if a != [] {
      SameChain(a[..|a| - 1], b[..|b| - 1], sid);
    }
  }

  lemma ChainGrows(tokens: seq<Token>, t: Token, sid: nat)
    ensures Chain(tokens + [t], sid) == if t.sessionId == sid then Chain(tokens, sid) + [|tokens|]
      else Chain(tokens, sid)
  {
    assert (tokens + [t])[..|tokens|] == tokens;
  }

  lemma {:induction false} EmptyChain(tokens: seq<Token>, sid: nat)
    requires forall i :: 0 <= i < |tokens| ==> tokens[i].sessionId != sid
    ensures Chain(tokens, sid) == []
  {
    if tokens != [] {
      EmptyChain(tokens[..|tokens| - 1], sid);
    }
  }

  /** Position `k` of a chain: a spent link to the next position, or the unspent head. */
  predicate ChainRow(db: Db, sid: nat, chain: seq<nat>, k: nat)
    requires k < |chain| && sid < |db.sessions| && chain[k] < |db.tokens|
  {
    var t := db.tokens[chain[k]];
    && t.userId == db.sessions[sid].userId
    && (t.revokedAt.Some? <==> db.sessions[sid].revokedAt.Some?)
    && (t.usedAt.Some? <==> k + 1 < |chain|)
    && t.replacedById == if k + 1 < |chain| then Some(chain[k + 1]) else None
  }

  /** The family of `sid` is one chain, from its login token to its only unspent token. */
  predicate IsChain(db: Db, sid: nat)
    requires sid < |db.sessions|
  {
    var chain := Chain(db.tokens, sid);
    && |chain| >= 1
    && forall k :: 0 <= k < |chain| ==> chain[k] < |db.tokens| && ChainRow(db, sid, chain, k)
  }

  predicate AllChains(db: Db) {
    forall sid :: 0 <= sid < |db.sessions| ==> IsChain(db, sid)
  }

  /** A revocation that stamps a whole family together with its session, or neither. */
  lemma StampKeepsChain(db: Db, db': Db, sid: nat)
    requires sid < |db.sessions| && sid < |db'.sessions| && IsChain(db, sid)
    requires |db'.tokens| == |db.tokens| && db'.sessions[sid].userId == db.sessions[sid].userId
    requires forall i :: 0 <= i < |db.tokens| ==> db'.tokens[i] == db.tokens[i].(revokedAt := db'.tokens[i].revokedAt)
    requires forall i | 0 <= i < |db.tokens| ::
      (db.tokens[i].sessionId == sid && db.tokens[i].userId == db.sessions[sid].userId
       && (db.tokens[i].revokedAt.Some? <==> db.sessions[sid].revokedAt.Some?)) ==>
      (db'.tokens[i].revokedAt.Some? <==> db'.sessions[sid].revokedAt.Some?)
    ensures IsChain(db', sid)
  {
    SameChain(db.tokens, db'.tokens, sid);
    ChainMembers(db.tokens, sid);
    var chain := Chain(db.tokens, sid);
    forall k | 0 <= k < |chain|
      ensures chain[k] < |db'.tokens| && ChainRow(db', sid, chain, k)
    {
      assert ChainRow(db, sid, chain, k);
    }
  }

  /** Rows untouched and the family no larger: the chain stands as it was. */
  lemma AppendKeepsChain(db: Db, db': Db, sid: nat)
    requires sid < |db.sessions| && sid < |db'.sessions| && IsChain(db, sid) && db'.sessions[sid] == db.sessions[sid]
    requires |db'.tokens| == |db.tokens| + 1 && db'.tokens[..|db.tokens|] == db.tokens
      && db'.tokens[|db.tokens|].sessionId != sid
    ensures IsChain(db', sid)
  {
    assert db'.tokens == db.tokens + [db'.tokens[|db.tokens|]];
    ChainGrows(db.tokens, db'.tokens[|db.tokens|], sid);
    var chain := Chain(db.tokens, sid);
    forall k | 0 <= k < |chain|
      ensures chain[k] < |db'.tokens| && ChainRow(db', sid, chain, k)
    {
      assert ChainRow(db, sid, chain, k);
      assert db'.tokens[chain[k]] == db'.tokens[..|db.tokens|][chain[k]];
    }
  }

  lemma StartKeepsChains(db: Db, uid: nat, now: nat, config: Config, sid: nat)
    requires AllChains(db) && uid < |db.users| && sid <= |db.sessions|
    ensures IsChain(StartSession(db, uid, now, config), sid)
  {
    var db' := StartSession(db, uid, now, config);
    if sid < |db.sessions| {
      AppendKeepsChain(db, db', sid);
    } else {
      EmptyChain(db.tokens, sid);
      ChainGrows(db.tokens, db'.tokens[|db.tokens|], sid);
    }
  }

  lemma RotateKeepsChain(db: Db, raw: nat, jwt: Jwt, expiresAt: nat, now: nat, sid: nat)
    requires sid < |db.sessions| && IsChain(db, sid) && raw < |db.tokens| && db.tokens[raw].usedAt.None?
    requires db.tokens[raw].sessionId == sid ==> db.sessions[sid].revokedAt.None?
    ensures IsChain(Rotate(db, raw, jwt, expiresAt, now), sid)
  {
    var db' := Rotate(db, raw, jwt, expiresAt, now);
    var n := |db.tokens|;
    var chain := Chain(db.tokens, sid);
    SameChain(db.tokens + [db'.tokens[n]], db'.tokens, sid);
    ChainGrows(db.tokens, db'.tokens[n], sid);
    ChainMembers(db.tokens, sid);
    var chain' := Chain(db'.tokens, sid);
    if db.tokens[raw].sessionId == sid {
      var at :| 0 <= at < |chain| && chain[at] == raw;
      assert ChainRow(db, sid, chain, at);
      assert at == |chain| - 1;
    }
    forall k | 0 <= k < |chain'|
      ensures chain'[k] < |db'.tokens| && ChainRow(db', sid, chain', k)
    {
      if k < |chain| {
        assert ChainRow(db, sid, chain, k);
        assert chain[k] == raw ==> db.tokens[raw].sessionId == sid;
      }
    }
  }

  lemma UsersKeepChains(db: Db, db': Db)
    requires AllChains(db) && db'.tokens == db.tokens && db'.sessions == db.sessions
    ensures AllChains(db')
  {
    forall sid | 0 <= sid < |db.sessions|
      ensures IsChain(db', sid)
    {
      assert IsChain(db, sid);
      StampKeepsChain(db, db', sid);
    }
  }

  lemma LoginKeepsChains(db: Db, uid: Option<nat>, passwordOk: bool, now: nat, config: Config)
    requires AllChains(db)
    ensures AllChains(Login(db, uid, passwordOk, now, config))
  {
    var db' := Login(db, uid, passwordOk, now, config);
    if LoginCheck(db, uid, passwordOk, now) == LoggedIn {
      var begun := StartSession(db, uid.value, now, config);
      forall sid | 0 <= sid < |begun.sessions|
        ensures IsChain(begun, sid)
      {
        StartKeepsChains(db, uid.value, now, config, sid);
      }
      UsersKeepChains(begun, db');
    } else {
      UsersKeepChains(db, db');
    }
  }

  lemma RevokeKeepsChains(db: Db, sid: nat, now: nat)
    requires AllChains(db) && sid < |db.sessions|
    ensures AllChains(RevokeSession(db, sid, now))
  {
    forall s | 0 <= s < |db.sessions|
      ensures IsChain(RevokeSession(db, sid, now), s)
    {
      StampKeepsChain(db, RevokeSession(db, sid, now), s);
    }
  }

  lemma LogoutAllKeepsChains(db: Db, uid: nat, now: nat)
    requires AllChains(db)
    ensures AllChains(LogoutAll(db, uid, now))
  {
    var db' := LogoutAll(db, uid, now);
    forall sid | 0 <= sid < |db.sessions|
      ensures IsChain(db', sid)
    {
      forall i | 0 <= i < |db.tokens| && db.tokens[i].sessionId == sid && db.tokens[i].userId == db.sessions[sid].userId
                 && (db.tokens[i].revokedAt.Some? <==> db.sessions[sid].revokedAt.Some?)
        ensures db'.tokens[i].revokedAt.Some? <==> db'.sessions[sid].revokedAt.Some?
      {
      }
      StampKeepsChain(db, db', sid);
    }
  }

  lemma ResetKeepsChains(db: Db, uid: nat, now: nat)
    requires AllChains(db) && uid < |db.users|
    ensures AllChains(ResetPassword(db, uid, now))
  {
    var db' := ResetPassword(db, uid, now);
    forall sid | 0 <= sid < |db.sessions|
      ensures IsChain(db', sid)
    {
      forall i | 0 <= i < |db.tokens| && db.tokens[i].sessionId == sid && db.tokens[i].userId == db.sessions[sid].userId
                 && (db.tokens[i].revokedAt.Some? <==> db.sessions[sid].revokedAt.Some?)
        ensures db'.tokens[i].revokedAt.Some? <==> db'.sessions[sid].revokedAt.Some?
      {
      }
      StampKeepsChain(db, db', sid);
    }
  }

  lemma RefreshKeepsChains(db: Db, raw: Option<nat>, now: nat, config: Config)
    requires AllChains(db)
    ensures AllChains(Refresh(db, raw, now, config))
  {
    match Check(db, raw, now)
    case Pass =>
      forall sid | 0 <= sid < |db.sessions|
        ensures IsChain(Refresh(db, raw, now, config), sid)
      {
        RotateKeepsChain(db, raw.value, Sign(now, config), ExpiresAt(now, config), now, sid);
      }
    case Reuse => RevokeKeepsChains(db, db.tokens[raw.value].sessionId, now);
    case PasswordCut => RevokeKeepsChains(db, db.tokens[raw.value].sessionId, now);
    case _ =>
  }

  lemma ServeKeepsChains(s: Served, t: Timed, config: Config)
    requires AllChains(s.db)
    ensures AllChains(Serve(s, t, config).db)
  {
    var now := s.clock + t.wait;
    var db' := Serve(s, t, config).db;
    match t.op
    case DoLogin(uid, ok) => LoginKeepsChains(s.db, uid, ok, now, config);
    case DoRefresh(raw) => RefreshKeepsChains(s.db, raw, now, config);
    case DoLogout(raw) =>
      if raw.Some? && raw.value < |s.db.tokens| { RevokeKeepsChains(s.db, s.db.tokens[raw.value].sessionId, now); }
    case DoLogoutAll(user) =>
      LogoutAllKeepsChains(s.db, user, now);
    case DoReset(user) =>
      if user < |s.db.users| { ResetKeepsChains(s.db, user, now); }
    case _ => UsersKeepChains(s.db, db');
  }

  lemma ChainHasOneLiveEnd(db: Db, sid: nat)
    requires sid < |db.sessions| && IsChain(db, sid)
    ensures var chain := Chain(db.tokens, sid);
      Live(db, sid) == if AccessValid(db, sid) then {chain[|chain| - 1]} else {}
  {
    var chain := Chain(db.tokens, sid);
    ChainMembers(db.tokens, sid);
    var head := chain[|chain| - 1];
    assert ChainRow(db, sid, chain, |chain| - 1);
    forall i | i in Family(db, sid)
      ensures i in Live(db, sid) <==> AccessValid(db, sid) && i == head
    {
      var k :| 0 <= k < |chain| && chain[k] == i;
      assert ChainRow(db, sid, chain, k);
    }
    assert head in Family(db, sid);
  }

  /**
   * In every run of calls: every family is a single `replacedById` chain from its login token to
   * its head, exactly the tokens before the head are used, all belong to the session's user, and
   * the live tokens are the head alone, or none once the session is revoked.
   */
  lemma {:induction false} FamiliesAreChains(run: seq<Timed>, config: Config, sid: nat)
    requires sid < |ServeAll(START, run, config).db.sessions|
    ensures var db := ServeAll(START, run, config).db;
      && IsChain(db, sid)
      && var chain := Chain(db.tokens, sid);
         Live(db, sid) == if AccessValid(db, sid) then {chain[|chain| - 1]} else {}
  {
    RunKeepsChains(run, config);
    var db := ServeAll(START, run, config).db;
    assert IsChain(db, sid);
    ChainHasOneLiveEnd(db, sid);
  }

  lemma {:induction false} RunKeepsChains(run: seq<Timed>, config: Config)
    ensures AllChains(ServeAll(START, run, config).db)
  {
    if run != [] {
      RunKeepsChains(run[..|run| - 1], config);
      ServeKeepsChains(ServeAll(START, run[..|run| - 1], config), run[|run| - 1], config);
    }
  }

  // ---- re-use ends one family -------------------------------------------------------------------

  /**
   * Presenting a spent or revoked token whose signature is still in date revokes its session and
   * changes no row of any other; from then on, whatever calls were racing (`calls`) and whatever
   * follows (`after`), nothing of that family refreshes and none of its access tokens validates.
   */
  lemma {:induction false} ReuseEndsExactlyOneFamily(db: Db, raw: nat, now: nat, config: Config, calls: seq<Call>,
      after: seq<Event>, k: nat)
    requires raw < |db.tokens| && now / 1000 < db.tokens[raw].jwt.exp
    requires db.tokens[raw].usedAt.Some? || db.tokens[raw].revokedAt.Some?
    requires CallsRefer(Machine(db, calls, now)) && k < |after|
    ensures var db' := Refresh(db, Some(raw), now, config);
      var sid := db.tokens[raw].sessionId;
      && CallsRefer(Machine(db', calls, now))
      && db'.users == db.users && |db'.sessions| == |db.sessions| && |db'.tokens| == |db.tokens|
      && (forall s :: 0 <= s < |db.sessions| && s != sid ==> db'.sessions[s] == db.sessions[s])
      && (forall i :: 0 <= i < |db.tokens| && db.tokens[i].sessionId != sid ==> db'.tokens[i] == db.tokens[i])
      && (forall i :: 0 <= i < |db.tokens| && db.tokens[i].sessionId == sid ==> db'.tokens[i].revokedAt.Some?)
      && !AccessValid(Run(Machine(db', calls, now), after, config).db, sid)
      && !Admits(Run(Machine(db', calls, now), after[..k], config), after[k], sid)
  {
    var db' := Refresh(db, Some(raw), now, config);
    assert forall c :: 0 <= c < |calls| ==> CallRefers(db, calls[c]) && CallRefers(db', calls[c]);
    var m: Machine := Machine(db', calls, now);
    RevocationIsPermanent(m, after, config, db.tokens[raw].sessionId);
    NoRefreshAfterRevocation(m, after, config, db.tokens[raw].sessionId, k);
  }
}
