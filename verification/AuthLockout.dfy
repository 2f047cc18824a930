/** How many wrong passwords the lockout lets through over a whole run, and that it is that many. */
module AuthLockout {
  import opened Base
  import opened AuthTables
  import opened AuthChains

  predicate WrongCheck(s: Served, t: Timed, uid: nat) {
    t.op.DoLogin? && t.op.uid == Some(uid)
      && LoginCheck(s.db, t.op.uid, t.op.passwordOk, s.clock + t.wait) == BadPassword
  }

  /** The two calls that clear the counter of `uid`. */
  predicate Clears(s: Served, t: Timed, uid: nat) {
    || t.op == DoReset(uid)
    || (t.op.DoLogin? && t.op.uid == Some(uid)
          && LoginCheck(s.db, t.op.uid, t.op.passwordOk, s.clock + t.wait) == LoggedIn)
  }

  function WrongChecks(s: Served, run: seq<Timed>, uid: nat, config: Config): nat {
    if run == [] then 0
    else
      var before := ServeAll(s, run[..|run| - 1], config);
      WrongChecks(s, run[..|run| - 1], uid, config) + (if WrongCheck(before, run[|run| - 1], uid) then 1 else 0)
  }

  predicate NeverClears(s: Served, run: seq<Timed>, uid: nat, config: Config) {
    run == []
    || (NeverClears(s, run[..|run| - 1], uid, config)
        && !Clears(ServeAll(s, run[..|run| - 1], config), run[|run| - 1], uid))
  }

  function Free(config: Config): nat {
    if config.maxAttempts >= 1 then config.maxAttempts else 1
  }

  /** What `n` wrong checks since `start` have left in the user's row. */
  predicate Spaced(user: User, clock: nat, start: nat, n: nat, config: Config) {
    && start <= clock
    && (user.failedLoginCount < config.maxAttempts ==> n <= user.failedLoginCount)
    && (user.failedLoginCount >= config.maxAttempts && n > 0 ==>
          && user.lockedUntil.Some?
          && user.lockedUntil.value <= clock + config.lockMillis
          && (n - Free(config)) * config.lockMillis + config.lockMillis <= user.lockedUntil.value - start)
  }

  lemma FailureSpaces(user: User, now: nat, start: nat, n: nat, config: Config)
    requires Spaced(user, now, start, n, config)
    requires user.lockedUntil.Some? ==> user.lockedUntil.value <= now
    ensures Spaced(CountFailure(user, now, config), now, start, n + 1, config)
  {
    var w := config.lockMillis;
    if user.failedLoginCount + 1 >= config.maxAttempts {
      if user.failedLoginCount >= config.maxAttempts && n > 0 {
        assert (n + 1 - Free(config)) * w == (n - Free(config)) * w + w;
      } else {
        assert (n + 1 - Free(config)) * w <= 0 by { NonPositive(n + 1 - Free(config), w); }
      }
    }
  }

  lemma NonPositive(x: int, w: nat)
    requires x <= 0
    ensures x * w <= 0
  {
  }

  lemma StepSpaces(s: Served, t: Timed, uid: nat, start: nat, n: nat, config: Config)
    requires uid < |s.db.users| && Spaced(s.db.users[uid], s.clock, start, n, config) && !Clears(s, t, uid)
    ensures var s' := Serve(s, t, config);
      uid < |s'.db.users|
        && Spaced(s'.db.users[uid], s'.clock, start, n + (if WrongCheck(s, t, uid) then 1 else 0), config)
  {
    if WrongCheck(s, t, uid) {
      FailureSpaces(s.db.users[uid], s.clock + t.wait, start, n, config);
    } else {
      var user, user' := s.db.users[uid], Serve(s, t, config).db.users[uid];
      assert user'.failedLoginCount == user.failedLoginCount && user'.lockedUntil == user.lockedUntil;
    }
  }

  lemma {:induction false} RunSpaces(s: Served, run: seq<Timed>, uid: nat, config: Config)
    requires uid < |s.db.users| && NeverClears(s, run, uid, config)
    ensures var s' := ServeAll(s, run, config);
      uid < |s'.db.users| && Spaced(s'.db.users[uid], s'.clock, s.clock, WrongChecks(s, run, uid, config), config)
  {
    if run != [] {
      var before := run[..|run| - 1];
      RunSpaces(s, before, uid, config);
      StepSpaces(ServeAll(s, before, config), run[|run| - 1], uid, s.clock, WrongChecks(s, before, uid, config),
        config);
    }
  }

  /** Each check beyond the free ones has cost one lock window. */
  lemma SpacedProduct(user: User, clock: nat, start: nat, n: nat, config: Config)
    requires Spaced(user, clock, start, n, config)
    ensures (n - Free(config)) * config.lockMillis <= clock - start
  {
    if n <= Free(config) {
      NonPositive(n - Free(config), config.lockMillis);
    }
  }

  lemma {:induction false} SpacedIsBounded(user: User, clock: nat, start: nat, n: nat, config: Config)
    requires Spaced(user, clock, start, n, config) && config.lockMillis > 0
    ensures n <= Free(config) + (clock - start) / config.lockMillis
  {
    SpacedProduct(user, clock, start, n, config);
    if n > Free(config) {
      DivAtLeast(n - Free(config), config.lockMillis, clock - start);
    }
  }

  /**
   * From any state on, as long as `uid` neither signs in nor resets the password, a run of D
   * milliseconds makes at most maxAttempts + floor(D / lock window) wrong-password checks on the
   * account, whatever else happens in the run.
   */
  lemma {:induction false} LockoutBound(s: Served, run: seq<Timed>, uid: nat, config: Config)
    requires uid < |s.db.users| && NeverClears(s, run, uid, config) && config.lockMillis > 0
    ensures WrongChecks(s, run, uid, config) <= Free(config)
      + (ServeAll(s, run, config).clock - s.clock) / config.lockMillis
  {
    RunSpaces(s, run, uid, config);
    var s' := ServeAll(s, run, config);
    SpacedIsBounded(s'.db.users[uid], s'.clock, s.clock, WrongChecks(s, run, uid, config), config);
  }

  lemma DivAtLeast(k: nat, w: nat, d: nat)
    requires w > 0 && k * w <= d
    ensures k <= d / w
  {
    if k > d / w {
      assert (d / w + 1) * w <= k * w by { MulMonotone(d / w + 1, k, w); }
    }
  }

  // ---- the bound is met -------------------------------------------------------------------------

  /** The n-th wrong password, sent as soon as the lock allows. */
  function GuessAt(uid: nat, n: nat, config: Config): Timed {
    Timed(if n <= Free(config) then 0 else config.lockMillis, DoLogin(Some(uid), false))
  }

  predicate FreshUser(s: Served, uid: nat) {
    uid < |s.db.users| && s.db.users[uid].deletedAt.None? && s.db.users[uid].failedLoginCount == 0
      && s.db.users[uid].lockedUntil.None?
  }

  lemma QuotientFits(d: nat, w: nat)
    requires w > 0
    ensures d / w * w <= d
  {
  }

  /** What the account looks like after `n` guesses. */
  predicate Guessed(s: Served, uid: nat, n: nat, config: Config) {
    && uid < |s.db.users|
    && var user := s.db.users[uid];
       && user.deletedAt.None?
       && user.failedLoginCount == n
       && (user.lockedUntil.Some? ==> n >= Free(config) && user.lockedUntil.value <= s.clock + config.lockMillis)
  }

  lemma NextGuess(s: Served, uid: nat, n: nat, config: Config)
    requires Guessed(s, uid, n, config)
    ensures var t := GuessAt(uid, n + 1, config);
      && WrongCheck(s, t, uid) && !Clears(s, t, uid) && Guessed(Serve(s, t, config), uid, n + 1, config)
      && Serve(s, t, config).clock == s.clock + t.wait
  {
  }

  function LeastTime(n: nat, config: Config): nat {
    if n <= Free(config) then 0 else LeastTime(n - 1, config) + config.lockMillis
  }

  lemma {:induction false} LeastTimeIsLinear(k: nat, config: Config)
    ensures LeastTime(Free(config) + k, config) == k * config.lockMillis
  {
    if k > 0 {
      LeastTimeIsLinear(k - 1, config);
      assert k * config.lockMillis == (k - 1) * config.lockMillis + config.lockMillis;
    }
  }

  lemma RunGrows(s: Served, run: seq<Timed>, t: Timed, uid: nat, config: Config)
    ensures var before := ServeAll(s, run, config);
      && ServeAll(s, run + [t], config) == Serve(before, t, config)
      && WrongChecks(s, run + [t], uid, config) ==
            WrongChecks(s, run, uid, config) + (if WrongCheck(before, t, uid) then 1 else 0)
      && NeverClears(s, run + [t], uid, config) == (NeverClears(s, run, uid, config) && !Clears(before, t, uid))
  {
    assert (run + [t])[..|run|] == run;
  }

  predicate AllCount(s: Served, run: seq<Timed>, uid: nat, n: nat, config: Config) {
    && NeverClears(s, run, uid, config)
    && WrongChecks(s, run, uid, config) == n
    && Guessed(ServeAll(s, run, config), uid, n, config)
    && ServeAll(s, run, config).clock == s.clock + LeastTime(n, config)
  }

  lemma OneMoreCounts(s: Served, run: seq<Timed>, uid: nat, n: nat, config: Config)
    requires AllCount(s, run, uid, n, config)
    ensures AllCount(s, run + [GuessAt(uid, n + 1, config)], uid, n + 1, config)
  {
    NextGuess(ServeAll(s, run, config), uid, n, config);
    RunGrows(s, run, GuessAt(uid, n + 1, config), uid, config);
  }

  lemma NoGuessCounts(s: Served, uid: nat, config: Config)
    requires FreshUser(s, uid)
    ensures AllCount(s, [], uid, 0, config)
  {
  }

  lemma {:induction false} GuessesCount(s: Served, uid: nat, n: nat, config: Config) returns (run: seq<Timed>)
    requires FreshUser(s, uid)
    ensures AllCount(s, run, uid, n, config)
  {
    if n == 0 {
      run := [];
      NoGuessCounts(s, uid, config);
    } else {
      run := GuessesCount(s, uid, n - 1, config);
      OneMoreCounts(s, run, uid, n - 1, config);
      run := run + [GuessAt(uid, n, config)];
    }
  }

  /**
   * The bound is met exactly: on a fresh account, for every span D there is a run of no more than
   * D milliseconds whose wrong checks number maxAttempts + floor(D / lock window).
   */
  lemma {:induction false} LockoutBoundIsMet(s: Served, uid: nat, span: nat, config: Config) returns (run: seq<Timed>)
    requires FreshUser(s, uid) && config.lockMillis > 0
    ensures NeverClears(s, run, uid, config)
    ensures ServeAll(s, run, config).clock - s.clock <= span
    ensures WrongChecks(s, run, uid, config) == Free(config) + span / config.lockMillis
  {
    var n := Free(config) + span / config.lockMillis;
    LeastTimeIsLinear(span / config.lockMillis, config);
    QuotientFits(span, config.lockMillis);
    run := GuessesCount(s, uid, n, config);
  }
}
