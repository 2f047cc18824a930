/**
 * `refresh` and `login` split at every await, racing with each other and with revocations.
 *
 * A refresh reads the token, its session and its user in one query; what it decides there is
 * remembered in `calls` while other calls run.  Signing the successor and the transaction that
 * inserts it are two later steps; so is the revocation a re-used token triggers.  A login inserts
 * the session, then signs, then inserts the first token.
 */
module AuthRace {
  import opened Base
  import opened AuthTables

  datatype Call =
    | Unsigned(origin: Option<nat>, sid: nat, uid: nat)
    | Signed(origin: Option<nat>, sid: nat, uid: nat, jwt: Jwt, expiresAt: nat)
    | MustRevoke(sid: nat)
    | Done

  datatype RawMachine = Machine(db: Db, calls: seq<Call>, clock: nat)

  predicate CallRefers(db: Db, c: Call) {
    match c
    case Unsigned(origin, sid, uid) =>
      && sid < |db.sessions| && uid < |db.users|
      && (origin.Some? ==> origin.value < |db.tokens| && db.tokens[origin.value].sessionId == sid)
    case Signed(origin, sid, uid, _, _) =>
      && sid < |db.sessions| && uid < |db.users|
      && (origin.Some? ==> origin.value < |db.tokens| && db.tokens[origin.value].sessionId == sid)
    case MustRevoke(sid) => sid < |db.sessions|
    case Done => true
  }

  predicate CallsRefer(m: RawMachine) {
    forall i :: 0 <= i < |m.calls| ==> CallRefers(m.db, m.calls[i])
  }

  type Machine = m: RawMachine | CallsRefer(m) witness Machine(Tables([], [], []), [], 0)

  datatype Step =
    | Present(raw: Option<nat>)
    | OpenSession(uid: nat)
    | SignNext(call: nat)
    | Finish(call: nat)
    | Revoke(sid: nat)
    | Reset(uid: nat)
    | Change(uid: nat)
    | Status(uid: nat, status: UserStatus, deletedAt: Option<nat>)
    | NewUser

  /** A step taken `wait` milliseconds after the previous one. */
  datatype Event = Event(wait: nat, step: Step)

  function CommitToken(db: Db, c: Call, now: nat): Db
    requires c.Signed? && CallRefers(db, c)
  {
    var db1 := AddToken(db, c.uid, c.sid, c.jwt, c.expiresAt, c.origin);
    if c.origin.None? then db1
    else
      var t := c.origin.value;
      db1.(tokens := db1.tokens[t := db1.tokens[t].(usedAt := Some(now), replacedById := Some(|db.tokens|))])
  }

  function FinishCall(m: Machine, i: nat, now: nat): Machine
    requires i < |m.calls|
  {
    match m.calls[i]
    case Signed(_, _, _, _, _) => Machine(CommitToken(m.db, m.calls[i], now), m.calls[i := Done], now)
    case MustRevoke(sid) => Machine(RevokeSession(m.db, sid, now), m.calls[i := Done], now)
    case _ => m.(clock := now)
  }

  function PresentToken(m: Machine, raw: Option<nat>, now: nat): Machine {
    match Check(m.db, raw, now)
    case Pass =>
      var t := m.db.tokens[raw.value];
      Machine(m.db, m.calls + [Unsigned(raw, t.sessionId, t.userId)], now)
    case Reuse | PasswordCut =>
      Machine(m.db, m.calls + [MustRevoke(m.db.tokens[raw.value].sessionId)], now)
    case _ => m.(clock := now)
  }

  function Next(m: Machine, e: Event, config: Config): Machine {
    var now := m.clock + e.wait;
    match e.step
    case Present(raw) => PresentToken(m, raw, now)
    case OpenSession(uid) =>
      if uid < |m.db.users|
      then Machine(AddSession(m.db, uid), m.calls + [Unsigned(None, |m.db.sessions|, uid)], now)
      else m.(clock := now)
    case SignNext(i) =>
      if i < |m.calls| && m.calls[i].Unsigned? then
        var c := m.calls[i];
        Machine(m.db, m.calls[i := Signed(c.origin, c.sid, c.uid, Sign(now, config), ExpiresAt(now, config))], now)
      else m.(clock := now)
    case Finish(i) => if i < |m.calls| then FinishCall(m, i, now) else m.(clock := now)
    case Revoke(sid) => Machine(if sid < |m.db.sessions| then RevokeSession(m.db, sid, now) else m.db, m.calls, now)
    case Reset(uid) => Machine(if uid < |m.db.users| then ResetPassword(m.db, uid, now) else m.db, m.calls, now)
    case Change(uid) => Machine(ChangePassword(m.db, uid, true, now), m.calls, now)
    case Status(uid, status, deletedAt) => Machine(SetStatus(m.db, uid, status, deletedAt), m.calls, now)
    case NewUser => Machine(Register(m.db, now), m.calls, now)
  }

  function Run(m: Machine, run: seq<Event>, config: Config): Machine {
    if run == [] then m else Next(Run(m, run[..|run| - 1], config), run[|run| - 1], config)
  }

  lemma RunSnoc(m: Machine, run: seq<Event>, e: Event, config: Config)
    ensures Run(m, run + [e], config) == Next(Run(m, run, config), e, config)
  {
    assert (run + [e])[..|run|] == run;
  }

  // ---- what is counted ------------------------------------------------------------------------

  function Family(db: Db, sid: nat): set<nat> {
    set i | 0 <= i < |db.tokens| && db.tokens[i].sessionId == sid
  }

  predicate Passed(c: Call, sid: nat) {
    (c.Unsigned? || c.Signed?) && c.sid == sid
  }

  /** Calls that have passed their read of family `sid` and not yet inserted their token. */
  function InFlight(calls: seq<Call>, sid: nat): set<nat> {
    set i | 0 <= i < |calls| && Passed(calls[i], sid)
  }

  predicate Revoked(m: Machine, sid: nat) {
    sid < |m.db.sessions| && m.db.sessions[sid].revokedAt.Some?
  }

  /** This step's read lets a token of family `sid` through. */
  predicate Admits(m: Machine, e: Event, sid: nat) {
    && e.step.Present?
    && Check(m.db, e.step.raw, m.clock + e.wait) == Pass
    && m.db.tokens[e.step.raw.value].sessionId == sid
  }

  predicate Opens(m: Machine, e: Event, sid: nat) {
    e.step.OpenSession? && e.step.uid < |m.db.users| && |m.db.sessions| == sid
  }

  // ---- one step -------------------------------------------------------------------------------

  lemma SameFamily(db: Db, db': Db, sid: nat)
    requires |db.tokens| == |db'.tokens|
    requires forall i :: 0 <= i < |db.tokens| ==> db.tokens[i].sessionId == db'.tokens[i].sessionId
    ensures Family(db, sid) == Family(db', sid)
  {
  }

  lemma CommitGrowsFamily(db: Db, c: Call, now: nat, sid: nat)
    requires c.Signed? && CallRefers(db, c)
    ensures var db' := CommitToken(db, c, now);
      Family(db', sid) == if c.sid == sid then Family(db, sid) + {|db.tokens|} else Family(db, sid)
  {
    var db' := CommitToken(db, c, now);
    assert |db'.tokens| == |db.tokens| + 1 && db'.tokens[|db.tokens|].sessionId == c.sid;
    assert forall i :: 0 <= i < |db.tokens| ==> db'.tokens[i].sessionId == db.tokens[i].sessionId;
  }

  lemma CallLeaves(calls: seq<Call>, i: nat, c: Call, sid: nat)
    requires i < |calls|
    requires Passed(c, sid) ==> Passed(calls[i], sid)
    ensures InFlight(calls[i := c], sid) == if Passed(c, sid) then InFlight(calls, sid) else InFlight(calls, sid) - {i}
  {
  }

  lemma CallEnters(calls: seq<Call>, c: Call, sid: nat)
    ensures InFlight(calls + [c], sid) == if Passed(c, sid) then InFlight(calls, sid) + {|calls|}
      else InFlight(calls, sid)
  {
  }

  lemma FinishConserves(m: Machine, i: nat, now: nat, sid: nat)
    requires i < |m.calls|
    ensures var n := FinishCall(m, i, now);
      |Family(n.db, sid)| + |InFlight(n.calls, sid)| == |Family(m.db, sid)| + |InFlight(m.calls, sid)|
  {
    CallLeaves(m.calls, i, Done, sid);
    match m.calls[i]
    case Signed(_, _, _, _, _) =>
      CommitGrowsFamily(m.db, m.calls[i], now, sid);
    case MustRevoke(s) =>
      SameFamily(m.db, RevokeSession(m.db, s, now), sid);
    case _ =>
  }

  lemma PresentConserves(m: Machine, raw: Option<nat>, now: nat, sid: nat)
    ensures var n := PresentToken(m, raw, now);
      |Family(n.db, sid)| + |InFlight(n.calls, sid)| == |Family(m.db, sid)| + |InFlight(m.calls, sid)|
        + (if Check(m.db, raw, now) == Pass && m.db.tokens[raw.value].sessionId == sid then 1 else 0)
  {
    var n := PresentToken(m, raw, now);
    if |n.calls| > |m.calls| {
      CallEnters(m.calls, n.calls[|m.calls|], sid);
      assert n.calls == m.calls + [n.calls[|m.calls|]];
    }
  }

  lemma OpenConserves(m: Machine, uid: nat, sid: nat)
    requires uid < |m.db.users|
    ensures var db := AddSession(m.db, uid);
      var calls := m.calls + [Unsigned(None, |m.db.sessions|, uid)];
      |Family(db, sid)| + |InFlight(calls, sid)| ==
      |Family(m.db, sid)| + |InFlight(m.calls, sid)| + (if sid == |m.db.sessions| then 1 else 0)
  {
    SameFamily(m.db, AddSession(m.db, uid), sid);
    CallEnters(m.calls, Unsigned(None, |m.db.sessions|, uid), sid);
  }

  predicate Inserts(e: Event) {
    e.step.Present? || e.step.OpenSession? || e.step.SignNext? || e.step.Finish?
  }

  lemma QuietStepConserves(m: Machine, e: Event, config: Config, sid: nat)
    requires !Inserts(e)
    ensures var n := Next(m, e, config); Family(n.db, sid) == Family(m.db, sid) && n.calls == m.calls
  {
    SameFamily(m.db, Next(m, e, config).db, sid);
  }

  predicate Reads(e: Event) {
    e.step.Present? || e.step.OpenSession?
  }

  lemma ReadConserves(m: Machine, e: Event, config: Config, sid: nat)
    requires Reads(e)
    ensures var n := Next(m, e, config);
      |Family(n.db, sid)| + |InFlight(n.calls, sid)| ==
      |Family(m.db, sid)| + |InFlight(m.calls, sid)| + (if Admits(m, e, sid) || Opens(m, e, sid) then 1 else 0)
  {
    if e.step.Present? {
      PresentConserves(m, e.step.raw, m.clock + e.wait, sid);
    } else if e.step.uid < |m.db.users| {
      OpenConserves(m, e.step.uid, sid);
    }
  }

  lemma WriteConserves(m: Machine, e: Event, config: Config, sid: nat)
    requires !Reads(e)
    ensures var n := Next(m, e, config);
      |Family(n.db, sid)| + |InFlight(n.calls, sid)| == |Family(m.db, sid)| + |InFlight(m.calls, sid)|
  {
    if !Inserts(e) {
      QuietStepConserves(m, e, config, sid);
    } else if e.step.call < |m.calls| {
      if e.step.Finish? {
        FinishConserves(m, e.step.call, m.clock + e.wait, sid);
      } else if m.calls[e.step.call].Unsigned? {
        CallLeaves(m.calls, e.step.call, Next(m, e, config).calls[e.step.call], sid);
      }
    }
  }

  /** Tokens inserted plus calls in flight grow only by a passed read (or by the login itself). */
  lemma StepConserves(m: Machine, e: Event, config: Config, sid: nat)
    ensures var n := Next(m, e, config);
      |Family(n.db, sid)| + |InFlight(n.calls, sid)| ==
      |Family(m.db, sid)| + |InFlight(m.calls, sid)| + (if Admits(m, e, sid) || Opens(m, e, sid) then 1 else 0)
  {
    if Reads(e) { ReadConserves(m, e, config, sid); } else { WriteConserves(m, e, config, sid); }
  }

  lemma StepKeepsRevoked(m: Machine, e: Event, config: Config, sid: nat)
    requires Revoked(m, sid)
    ensures Revoked(Next(m, e, config), sid)
    ensures !Admits(m, e, sid) && !Opens(m, e, sid)
  {
  }

  // ---- whole runs -----------------------------------------------------------------------------

  /** In every continuation a revoked session stays revoked: no access token of it validates. */
  lemma {:induction false} RevocationIsPermanent(m: Machine, run: seq<Event>, config: Config, sid: nat)
    requires Revoked(m, sid)
    ensures Revoked(Run(m, run, config), sid)
    ensures !AccessValid(Run(m, run, config).db, sid)
  {
    if run != [] {
      RevocationIsPermanent(m, run[..|run| - 1], config, sid);
      StepKeepsRevoked(Run(m, run[..|run| - 1], config), run[|run| - 1], config, sid);
    }
  }

  /**
   * After a revocation no read of any token of the family passes, however many calls race and
   * whatever they insert: the new tokens are refused too, though they carry no `revokedAt`.
   */
  lemma NoRefreshAfterRevocation(m: Machine, run: seq<Event>, config: Config, sid: nat, k: nat)
    requires Revoked(m, sid) && k < |run|
    ensures !Admits(Run(m, run[..k], config), run[k], sid)
  {
    RevocationIsPermanent(m, run[..k], config, sid);
    StepKeepsRevoked(Run(m, run[..k], config), run[k], config, sid);
  }

  /**
   * The exact price of the race: every token inserted into a revoked family was already in
   * flight at the revocation, each such call inserts at most one, and nothing else can.
   */
  lemma {:induction false} RevokedFamilyIsClosed(m: Machine, run: seq<Event>, config: Config, sid: nat)
    requires Revoked(m, sid)
    ensures var n := Run(m, run, config);
      |Family(n.db, sid)| + |InFlight(n.calls, sid)| == |Family(m.db, sid)| + |InFlight(m.calls, sid)|
  {
    if run != [] {
      var before := Run(m, run[..|run| - 1], config);
      RevokedFamilyIsClosed(m, run[..|run| - 1], config, sid);
      RevocationIsPermanent(m, run[..|run| - 1], config, sid);
      StepKeepsRevoked(before, run[|run| - 1], config, sid);
      StepConserves(before, run[|run| - 1], config, sid);
    }
  }

  // ---- password cut-off -----------------------------------------------------------------------

  /** No step records a password change in the future. */
  predicate ChangesPast(m: Machine) {
    forall u :: 0 <= u < |m.db.users| ==>
                  m.db.users[u].passwordChangedAt.Some? ==> m.db.users[u].passwordChangedAt.value <= m.clock
  }

  predicate ChangedSince(m: Machine, uid: nat, at: nat) {
    && uid < |m.db.users|
    && m.db.users[uid].passwordChangedAt.Some?
    && at <= m.db.users[uid].passwordChangedAt.value
  }

  lemma StepRaisesCutoff(m: Machine, e: Event, config: Config)
    requires ChangesPast(m)
    ensures var n := Next(m, e, config);
      && ChangesPast(n) && m.clock <= n.clock
      && forall uid: nat, at: nat :: at <= m.clock && ChangedSince(m, uid, at) ==> ChangedSince(n, uid, at)
  {
    var n := Next(m, e, config);
    forall u | 0 <= u < |n.db.users|
      ensures (u < |m.db.users| && n.db.users[u].passwordChangedAt == m.db.users[u].passwordChangedAt)
              || n.db.users[u].passwordChangedAt == Some(n.clock)
    {
    }
  }

  const EMPTY: Machine := Machine(Tables([], [], []), [], 0)

  predicate ChangesPasswordOf(e: Event, uid: nat) {
    e.step == Change(uid) || e.step == Reset(uid)
  }

  lemma ChangeSetsCutoff(m: Machine, e: Event, config: Config, uid: nat)
    requires ChangesPasswordOf(e, uid) && uid < |m.db.users|
    ensures ChangedSince(Next(m, e, config), uid, m.clock + e.wait) && Next(m, e, config).clock == m.clock + e.wait
  {
  }

  /** The change is in the user's row, at the time of the step that made it. */
  lemma {:induction false} ChangeIsRecorded(run: seq<Event>, k: nat, config: Config, uid: nat)
    requires k < |run| && ChangesPasswordOf(run[k], uid) && uid < |Run(EMPTY, run[..k], config).db.users|
    ensures var n := Run(EMPTY, run[..k + 1], config); ChangesPast(n) && ChangedSince(n, uid, n.clock)
  {
    var m := Run(EMPTY, run[..k], config);
    RunSnoc(EMPTY, run[..k], run[k], config);
    assert run[..k + 1] == run[..k] + [run[k]];
    ReachableChangesPast(run[..k + 1], config);
    ChangeSetsCutoff(m, run[k], config, uid);
  }

  lemma {:induction false} ChangeLasts(run: seq<Event>, k: nat, config: Config, uid: nat)
    requires k < |run| && ChangesPasswordOf(run[k], uid) && uid < |Run(EMPTY, run[..k], config).db.users|
    ensures var at := Run(EMPTY, run[..k + 1], config).clock;
      var n := Run(EMPTY, run, config);
      ChangesPast(n) && ChangedSince(n, uid, at) && at <= n.clock
  {
    if k == |run| - 1 {
      ChangeIsRecorded(run, k, config, uid);
      assert run[..k + 1] == run;
    } else {
      var before := run[..|run| - 1];
      assert before[..k] == run[..k] && before[..k + 1] == run[..k + 1];
      ChangeLasts(before, k, config, uid);
      StepRaisesCutoff(Run(EMPTY, before, config), run[|run| - 1], config);
    }
  }

  /** A token of `uid` that carries an issue second before millisecond `at`. */
  predicate IssuedBefore(m: Machine, uid: nat, raw: nat, at: nat) {
    raw < |m.db.tokens| && m.db.tokens[raw].userId == uid && 0 < m.db.tokens[raw].jwt.iat
      && m.db.tokens[raw].jwt.iat * 1000 < at
  }

  lemma EarlierTokenFails(m: Machine, uid: nat, at: nat, raw: nat, now: nat)
    requires ChangedSince(m, uid, at) && IssuedBefore(m, uid, raw, at)
    ensures Check(m.db, Some(raw), now) != Pass
  {
  }

  /**
   * In every run: once step `k` has changed the password of `uid`, no token of that user carrying
   * an earlier issue time passes the read again, whether it was stored before the change or signed
   * before it and inserted afterwards.
   */
  lemma {:induction false} PasswordChangeCutsOff(run: seq<Event>, k: nat, config: Config, uid: nat, raw: nat, now: nat)
    requires k < |run| && ChangesPasswordOf(run[k], uid) && uid < |Run(EMPTY, run[..k], config).db.users|
    requires IssuedBefore(Run(EMPTY, run, config), uid, raw, Run(EMPTY, run[..k + 1], config).clock)
    ensures Check(Run(EMPTY, run, config).db, Some(raw), now) != Pass
  {
    ChangeLasts(run, k, config, uid);
    EarlierTokenFails(Run(EMPTY, run, config), uid, Run(EMPTY, run[..k + 1], config).clock, raw, now);
  }

  lemma {:induction false} ReachableChangesPast(run: seq<Event>, config: Config)
    ensures ChangesPast(Run(EMPTY, run, config))
  {
    if run != [] {
      ReachableChangesPast(run[..|run| - 1], config);
      StepRaisesCutoff(Run(EMPTY, run[..|run| - 1], config), run[|run| - 1], config);
    }
  }

  /** The first use of an outlived token that is otherwise sound ends its whole family. */
  lemma CutTokenEndsItsFamily(db: Db, raw: nat, now: nat, config: Config)
    requires Sound(db, Some(raw), now) && Outlived(db, raw)
    ensures var sid, after := db.tokens[raw].sessionId, Refresh(db, Some(raw), now, config);
      && !AccessValid(after, sid) && |after.tokens| == |db.tokens|
      && forall i :: i in Family(db, sid) ==> after.tokens[i].revokedAt.Some?
  {
    ExactlyExchangeablePass(db, Some(raw), now);
  }

  /**
   * Where whole-second issue times put the line: a token signed at millisecond `signedAt` is cut
   * by a change at `at` exactly when it was signed before the first whole second at or after
   * `at`.  A token signed after the change but inside its second is therefore refused as well.
   */
  lemma CutoffIsRoundedUp(signedAt: nat, at: nat, config: Config)
    requires signedAt >= 1000
    ensures CutBy(Sign(signedAt, config), Some(at)) <==> signedAt < (at + 999) / 1000 * 1000
  {
  }

  // ---- expiry -----------------------------------------------------------------------------------

  /** Signed for `refreshTtlSeconds`, and stored until the same time to the millisecond. */
  predicate Timely(jwt: Jwt, expiresAt: nat, clock: nat, config: Config) {
    && jwt.exp == jwt.iat + config.refreshTtlSeconds
    && 1000 * jwt.exp <= expiresAt < 1000 * (jwt.exp + 1)
    && 1000 * jwt.iat <= clock
  }

  predicate RowsTimely(m: Machine, config: Config) {
    forall i :: 0 <= i < |m.db.tokens| ==> Timely(m.db.tokens[i].jwt, m.db.tokens[i].expiresAt, m.clock, config)
  }

  predicate CallsTimely(m: Machine, config: Config) {
    forall c :: 0 <= c < |m.calls| && m.calls[c].Signed? ==>
      Timely(m.calls[c].jwt, m.calls[c].expiresAt, m.clock, config)
  }

  lemma SignedIsTimely(now: nat, config: Config)
    ensures Timely(Sign(now, config), ExpiresAt(now, config), now, config)
  {
  }

  lemma StepKeepsRowsTimely(m: Machine, e: Event, config: Config)
    requires RowsTimely(m, config) && CallsTimely(m, config)
    ensures RowsTimely(Next(m, e, config), config)
  {
    var n := Next(m, e, config);
    forall i | 0 <= i < |n.db.tokens|
      ensures Timely(n.db.tokens[i].jwt, n.db.tokens[i].expiresAt, n.clock, config)
    {
      if i < |m.db.tokens| {
        assert n.db.tokens[i].jwt == m.db.tokens[i].jwt && n.db.tokens[i].expiresAt == m.db.tokens[i].expiresAt;
      } else {
        assert e.step.Finish? && m.calls[e.step.call].Signed?;
      }
    }
  }

  lemma StepKeepsCallsTimely(m: Machine, e: Event, config: Config)
    requires CallsTimely(m, config)
    ensures CallsTimely(Next(m, e, config), config)
  {
    var n := Next(m, e, config);
    forall c | 0 <= c < |n.calls| && n.calls[c].Signed?
      ensures Timely(n.calls[c].jwt, n.calls[c].expiresAt, n.clock, config)
    {
      if c < |m.calls| && m.calls[c].Signed? {
        assert n.calls[c] == m.calls[c];
      } else {
        SignedIsTimely(n.clock, config);
      }
    }
  }

  /** In every run, every token expires `refreshTtlSeconds` after it was signed, in both its records. */
  lemma {:induction false} TokensExpireOnTime(run: seq<Event>, config: Config)
    ensures RowsTimely(Run(EMPTY, run, config), config) && CallsTimely(Run(EMPTY, run, config), config)
  {
    if run != [] {
      TokensExpireOnTime(run[..|run| - 1], config);
      StepKeepsRowsTimely(Run(EMPTY, run[..|run| - 1], config), run[|run| - 1], config);
      StepKeepsCallsTimely(Run(EMPTY, run[..|run| - 1], config), run[|run| - 1], config);
    }
  }

  lemma StepKeepsJwt(m: Machine, e: Event, config: Config, raw: nat)
    requires raw < |m.db.tokens|
    ensures var n := Next(m, e, config);
      raw < |n.db.tokens| && n.db.tokens[raw].jwt == m.db.tokens[raw].jwt && m.clock <= n.clock
  {
  }

  lemma {:induction false} RunKeepsJwt(m: Machine, run: seq<Event>, config: Config, raw: nat)
    requires raw < |m.db.tokens|
    ensures var n := Run(m, run, config);
      raw < |n.db.tokens| && n.db.tokens[raw].jwt == m.db.tokens[raw].jwt && m.clock <= n.clock
  {
    if run != [] {
      RunKeepsJwt(m, run[..|run| - 1], config, raw);
      StepKeepsJwt(Run(m, run[..|run| - 1], config), run[|run| - 1], config, raw);
    }
  }

  lemma OutOfDateDoesNothing(m: Machine, wait: nat, raw: nat, config: Config)
    requires OutOfDate(m.db, Some(raw), m.clock + wait)
    ensures Next(m, Event(wait, Present(Some(raw))), config) == m.(clock := m.clock + wait)
  {
    ExactlyExchangeablePass(m.db, Some(raw), m.clock + wait);
  }

  /**
   * A token past its signed expiry has no effect in any continuation, spent or not: presenting it
   * starts neither an exchange nor a revocation.
   */
  lemma {:induction false} ExpiryIsFinal(m: Machine, run: seq<Event>, config: Config, raw: nat, wait: nat)
    requires OutOfDate(m.db, Some(raw), m.clock)
    ensures var n := Run(m, run, config);
      Next(n, Event(wait, Present(Some(raw))), config) == n.(clock := n.clock + wait)
  {
    RunKeepsJwt(m, run, config, raw);
    OutOfDateDoesNothing(Run(m, run, config), wait, raw, config);
  }

  /** What passes the read, in the source's own terms. */
  lemma AdmitsExactlyExchangeable(m: Machine, e: Event, sid: nat)
    ensures Admits(m, e, sid) <==>
      (e.step.Present? && Exchangeable(m.db, e.step.raw, m.clock + e.wait)
       && m.db.tokens[e.step.raw.value].sessionId == sid)
  {
    if e.step.Present? {
      ExactlyExchangeablePass(m.db, e.step.raw, m.clock + e.wait);
    }
  }

  // ---- the atomic call is three of these steps -------------------------------------------------

  /** Run back to back, the split steps do what the whole call does. */
  lemma {:induction false} RefreshIsItsSteps(m: Machine, raw: Option<nat>, config: Config)
    ensures var i := |m.calls|;
      var n := Run(m, [Event(0, Present(raw)), Event(0, SignNext(i)), Event(0, Finish(i))], config);
      n.db == Refresh(m.db, raw, m.clock, config) && n.clock == m.clock
  {
    var i := |m.calls|;
    var run := [Event(0, Present(raw)), Event(0, SignNext(i)), Event(0, Finish(i))];
    var m1 := Next(m, run[0], config);
    var m2 := Next(m1, run[1], config);
    var m3 := Next(m2, run[2], config);
    assert run[..2][..1][..0] == [] && run[..2][..1] == [run[0]] && run[..2] == [run[0], run[1]];
    assert Run(m, [run[0]], config) == m1;
    assert Run(m, run[..2], config) == m2;
    assert Run(m, run, config) == m3;
  }
}
