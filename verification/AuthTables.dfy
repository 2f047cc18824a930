/**
 * The auth-service tables that carry the session protocol, and what each service call does to
 * them when it runs on its own.
 *
 * Rows of these tables are never deleted, so a table is a sequence: a row's id is its position
 * and an insert appends, which makes every new id fresh.  A presented refresh token is named by
 * the id of the row that holds its hash (the hash is injective), and the row carries the issue
 * and expiry seconds that the signed token itself carries.
 */
module AuthTables {
  import opened Base

  datatype UserStatus = PendingVerification | Active | Suspended | Deleted

  datatype User = User(
    status: UserStatus,
    deletedAt: Option<nat>,
    failedLoginCount: nat,
    lockedUntil: Option<nat>,
    passwordChangedAt: Option<nat>)

  datatype Session = Session(userId: nat, revokedAt: Option<nat>)

  /** Issue and expiry times inside the signed token, in whole seconds. */
  datatype Jwt = Jwt(iat: nat, exp: nat)

  /**
   * `origin` is a history variable: the token that was exchanged for this one, None for the
   * token a login hands out.  No service call reads it.
   */
  datatype Token = Token(
    userId: nat,
    sessionId: nat,
    jwt: Jwt,
    expiresAt: nat,
    usedAt: Option<nat>,
    revokedAt: Option<nat>,
    replacedById: Option<nat>,
    origin: Option<nat>)

  datatype Tables = Tables(users: seq<User>, sessions: seq<Session>, tokens: seq<Token>)

  predicate ForeignKeys(t: Tables) {
    && (forall i :: 0 <= i < |t.sessions| ==> t.sessions[i].userId < |t.users|)
    && (forall i :: 0 <= i < |t.tokens| ==>
                      t.tokens[i].userId < |t.users| && t.tokens[i].sessionId < |t.sessions|)
  }

  type Db = t: Tables | ForeignKeys(t) witness Tables([], [], [])

  datatype Config = Config(maxAttempts: int, lockMillis: nat, refreshTtlSeconds: nat)

  // ---- single statements ----------------------------------------------------------------------

  function SetUser(db: Db, uid: nat, user: User): Db
    requires uid < |db.users|
  {
    db.(users := db.users[uid := user])
  }

  function AddSession(db: Db, uid: nat): Db
    requires uid < |db.users|
  {
    db.(sessions := db.sessions + [Session(uid, None)])
  }

  function AddToken(db: Db, uid: nat, sid: nat, jwt: Jwt, expiresAt: nat, origin: Option<nat>): Db
    requires uid < |db.users| && sid < |db.sessions|
  {
    db.(tokens := db.tokens + [Token(uid, sid, jwt, expiresAt, None, None, None, origin)])
  }

  function Stamp(revokedAt: Option<nat>, now: nat): Option<nat> {
    if revokedAt.None? then Some(now) else revokedAt
  }

  /** `updateMany where sessionId = sid and revokedAt is null`. */
  function RevokeTokensOf(tokens: seq<Token>, sid: nat, now: nat): seq<Token> {
    seq(|tokens|, i requires 0 <= i < |tokens| =>
      if tokens[i].sessionId == sid then tokens[i].(revokedAt := Stamp(tokens[i].revokedAt, now)) else tokens[i])
  }

  /** `updateMany where userId = uid and revokedAt is null`, on sessions and on tokens. */
  function RevokeSessionsOfUser(sessions: seq<Session>, uid: nat, now: nat): seq<Session> {
    seq(|sessions|, i requires 0 <= i < |sessions| =>
      if sessions[i].userId == uid then sessions[i].(revokedAt := Stamp(sessions[i].revokedAt, now)) else sessions[i])
  }

  function RevokeTokensOfUser(tokens: seq<Token>, uid: nat, now: nat): seq<Token> {
    seq(|tokens|, i requires 0 <= i < |tokens| =>
      if tokens[i].userId == uid then tokens[i].(revokedAt := Stamp(tokens[i].revokedAt, now)) else tokens[i])
  }

  // ---- the service calls ----------------------------------------------------------------------

  function Sign(now: nat, config: Config): Jwt {
    Jwt(now / 1000, now / 1000 + config.refreshTtlSeconds)
  }

  function ExpiresAt(now: nat, config: Config): nat {
    now + 1000 * config.refreshTtlSeconds
  }

  datatype Verdict = Pass | Missing | Expired | Reuse | Inactive | PasswordCut

  /** A password change in the way of a token: strictly later than the token's issue second. */
  predicate CutBy(jwt: Jwt, passwordChangedAt: Option<nat>) {
    passwordChangedAt.Some? && jwt.iat != 0 && jwt.iat * 1000 < passwordChangedAt.value
  }

  /** Everything `refresh` decides from its read. */
  function Check(db: Db, raw: Option<nat>, now: nat): Verdict {
    if raw.None? then Missing
    else if raw.value >= |db.tokens| then Expired
    else
      var t := db.tokens[raw.value];
      var user := db.users[t.userId];
      if now / 1000 >= t.jwt.exp then Expired
      else if t.usedAt.Some? || t.revokedAt.Some? then Reuse
      else if t.expiresAt < now || db.sessions[t.sessionId].revokedAt.Some? then Expired
      else if user.status != Active || user.deletedAt.Some? then Inactive
      else if CutBy(t.jwt, user.passwordChangedAt) then PasswordCut
      else Pass
  }

  /**
   * A presented token that is stored, never used or revoked, before both its expiries, of a live
   * session and of an active and undeleted user.
   */
  predicate Sound(db: Db, raw: Option<nat>, now: nat) {
    && raw.Some? && raw.value < |db.tokens|
    && var t := db.tokens[raw.value];
       && t.usedAt.None? && t.revokedAt.None?
       && now / 1000 < t.jwt.exp && now <= t.expiresAt
       && db.sessions[t.sessionId].revokedAt.None?
       && db.users[t.userId].status == Active && db.users[t.userId].deletedAt.None?
  }

  /** Signed before the last password change of its user. */
  predicate Outlived(db: Db, raw: nat)
    requires raw < |db.tokens|
  {
    var t := db.tokens[raw];
    && db.users[t.userId].passwordChangedAt.Some? && t.jwt.iat != 0
    && t.jwt.iat * 1000 < db.users[t.userId].passwordChangedAt.value
  }

  /** What a presented token must be to be exchanged, as the source promises it. */
  predicate Exchangeable(db: Db, raw: Option<nat>, now: nat) {
    Sound(db, raw, now) && !Outlived(db, raw.value)
  }

  /** Past the expiry inside the signed token. */
  predicate OutOfDate(db: Db, raw: Option<nat>, now: nat) {
    raw.Some? && raw.value < |db.tokens| && db.tokens[raw.value].jwt.exp <= now / 1000
  }

  lemma ExactlyExchangeablePass(db: Db, raw: Option<nat>, now: nat)
    ensures Check(db, raw, now) == Pass <==> Exchangeable(db, raw, now)
    ensures Check(db, raw, now) == PasswordCut <==> Sound(db, raw, now) && Outlived(db, raw.value)
    ensures OutOfDate(db, raw, now) ==> Check(db, raw, now) == Expired
  {
  }

  function RevokeSession(db: Db, sid: nat, now: nat): Db
    requires sid < |db.sessions|
  {
    db.(sessions := db.sessions[sid := db.sessions[sid].(revokedAt := Some(now))],
        tokens := RevokeTokensOf(db.tokens, sid, now))
  }

  /** The rotation transaction: insert the successor, then mark the presented token. */
  function Rotate(db: Db, raw: nat, jwt: Jwt, expiresAt: nat, now: nat): Db
    requires raw < |db.tokens|
  {
    var t := db.tokens[raw];
    var db1 := AddToken(db, t.userId, t.sessionId, jwt, expiresAt, Some(raw));
    db1.(tokens := db1.tokens[raw := db1.tokens[raw].(usedAt := Some(now), replacedById := Some(|db.tokens|))])
  }

  function Refresh(db: Db, raw: Option<nat>, now: nat, config: Config): Db {
    match Check(db, raw, now)
    case Pass => Rotate(db, raw.value, Sign(now, config), ExpiresAt(now, config), now)
    case Reuse | PasswordCut => RevokeSession(db, db.tokens[raw.value].sessionId, now)
    case _ => db
  }

  datatype LoginResult = LoggedIn | NoSuchUser | Locked | BadPassword | Unverified | NotActive

  /** What a login decides from the row it has read. */
  function RowCheck(user: User, passwordOk: bool, now: nat): LoginResult {
    if user.deletedAt.Some? then NoSuchUser
    else if user.lockedUntil.Some? && user.lockedUntil.value > now then Locked
    else if !passwordOk then BadPassword
    else if user.status == PendingVerification then Unverified
    else if user.status != Active then NotActive
    else LoggedIn
  }

  function LoginCheck(db: Db, uid: Option<nat>, passwordOk: bool, now: nat): LoginResult {
    if uid.None? || uid.value >= |db.users| then NoSuchUser else RowCheck(db.users[uid.value], passwordOk, now)
  }

  function CountFailure(user: User, now: nat, config: Config): User {
    var failed := user.failedLoginCount + 1;
    user.(failedLoginCount := failed,
          lockedUntil := if failed >= config.maxAttempts then Some(now + config.lockMillis) else None)
  }

  function StartSession(db: Db, uid: nat, now: nat, config: Config): Db
    requires uid < |db.users|
  {
    AddToken(AddSession(db, uid), uid, |db.sessions|, Sign(now, config), ExpiresAt(now, config), None)
  }

  function Login(db: Db, uid: Option<nat>, passwordOk: bool, now: nat, config: Config): Db {
    match LoginCheck(db, uid, passwordOk, now)
    case BadPassword => SetUser(db, uid.value, CountFailure(db.users[uid.value], now, config))
    case LoggedIn =>
      SetUser(StartSession(db, uid.value, now, config), uid.value,
              db.users[uid.value].(failedLoginCount := 0, lockedUntil := None))
    case _ => db
  }

  function Logout(db: Db, raw: Option<nat>, now: nat): Db {
    if raw.Some? && raw.value < |db.tokens| then RevokeSession(db, db.tokens[raw.value].sessionId, now) else db
  }

  predicate LiveSessionOf(db: Db, sid: nat, uid: nat)
    requires sid < |db.sessions|
  {
    db.sessions[sid].userId == uid && db.sessions[sid].revokedAt.None?
  }

  /** Every live session of the user, and every live token of those sessions, ends at `now`. */
  function LogoutAll(db: Db, uid: nat, now: nat): Db {
    db.(sessions := seq(|db.sessions|, i requires 0 <= i < |db.sessions| =>
          if LiveSessionOf(db, i, uid) then db.sessions[i].(revokedAt := Some(now)) else db.sessions[i]),
        tokens := seq(|db.tokens|, i requires 0 <= i < |db.tokens| =>
          if LiveSessionOf(db, db.tokens[i].sessionId, uid)
          then db.tokens[i].(revokedAt := Stamp(db.tokens[i].revokedAt, now)) else db.tokens[i]))
  }

  /** The reset transaction, once the mailed link has been accepted. */
  function ResetPassword(db: Db, uid: nat, now: nat): Db
    requires uid < |db.users|
  {
    db.(users := db.users[uid := db.users[uid].(status := Active, failedLoginCount := 0, lockedUntil := None,
                                                passwordChangedAt := Some(now))],
        sessions := RevokeSessionsOfUser(db.sessions, uid, now),
        tokens := RevokeTokensOfUser(db.tokens, uid, now))
  }

  function ChangePassword(db: Db, uid: nat, currentOk: bool, now: nat): Db {
    if uid < |db.users| && currentOk
    then SetUser(db, uid, db.users[uid].(passwordChangedAt := Some(now)))
    else db
  }

  /** `register` for an address nobody has registered yet. */
  function Register(db: Db, now: nat): Db {
    db.(users := db.users + [User(PendingVerification, None, 0, None, Some(now))])
  }

  /** `verifyEmail` through a good link, and the account changes an administrator makes. */
  function SetStatus(db: Db, uid: nat, status: UserStatus, deletedAt: Option<nat>): Db {
    if uid < |db.users| then SetUser(db, uid, db.users[uid].(status := status, deletedAt := deletedAt)) else db
  }

  /** `JwtStrategy.validate`: an access token of session `sid` is accepted. */
  predicate AccessValid(db: Db, sid: nat) {
    sid < |db.sessions| && db.sessions[sid].revokedAt.None?
  }
}
