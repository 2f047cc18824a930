/**
 * `login` split at its password comparison: it reads the account row, compares, and only then looks
 * at the lock and writes the counter, both from the row it has read.  Overlapping failures can
 * therefore overwrite each other's count; this says how much that can loosen the lockout.
 */
module LoginRaces {
  import opened Base
  import opened AuthTables
  import opened AuthChains
  import Lockout = AuthLockout

  /** A login between its read and its decision, with the row it has read. */
  datatype Reading = Reading(uid: nat, row: User)

  datatype Machine = Machine(served: Served, logins: seq<Option<Reading>>)

  /** `Whole` is any other call, or a login that nothing overlaps. */
  datatype Step = Begin(uid: nat) | Decide(login: nat, passwordOk: bool) | Whole(op: Op)

  datatype Event = Event(wait: nat, step: Step)

  function Conclude(db: Db, r: Reading, passwordOk: bool, now: nat, config: Config): Db
    requires r.uid < |db.users|
  {
    match RowCheck(r.row, passwordOk, now)
    case BadPassword =>
      var counted := CountFailure(r.row, now, config);
      SetUser(db, r.uid,
        db.users[r.uid].(failedLoginCount := counted.failedLoginCount, lockedUntil := counted.lockedUntil))
    case LoggedIn =>
      SetUser(StartSession(db, r.uid, now, config), r.uid, db.users[r.uid].(failedLoginCount := 0, lockedUntil := None))
    case _ => db
  }

  /** The login this step concludes. */
  function Concluded(m: Machine, e: Event): Option<Reading> {
    if e.step.Decide? && e.step.login < |m.logins| && m.logins[e.step.login].Some?
       && m.logins[e.step.login].value.uid < |m.served.db.users|
    then m.logins[e.step.login] else None
  }

  function Next(m: Machine, e: Event, config: Config): Machine {
    var now := m.served.clock + e.wait;
    match e.step
    case Begin(uid) =>
      Machine(Served(m.served.db, now), m.logins
        + [if uid < |m.served.db.users| then Some(Reading(uid, m.served.db.users[uid])) else None])
    case Decide(i, passwordOk) =>
      var r := Concluded(m, e);
      if r.None? then m.(served := Served(m.served.db, now))
      else Machine(Served(Conclude(m.served.db, r.value, passwordOk, now, config), now), m.logins[i := None])
    case Whole(op) => m.(served := Serve(m.served, Timed(e.wait, op), config))
  }

  /** Read and decision back to back are the whole login. */
  lemma LoginIsItsSteps(m: Machine, uid: nat, passwordOk: bool, config: Config)
    requires uid < |m.served.db.users|
    ensures var n := Next(Next(m, Event(0, Begin(uid)), config), Event(0, Decide(|m.logins|, passwordOk)), config);
      n.served == Serve(m.served, Timed(0, DoLogin(Some(uid), passwordOk)), config)
  {
    var begun := Next(m, Event(0, Begin(uid)), config);
    assert begun.logins[|m.logins|] == Some(Reading(uid, m.served.db.users[uid]));
  }

  // ---- what is counted --------------------------------------------------------------------------

  predicate Concludes(m: Machine, e: Event, uid: nat, outcome: LoginResult) {
    var r := Concluded(m, e);
    r.Some? && r.value.uid == uid && RowCheck(r.value.row, e.step.passwordOk, m.served.clock + e.wait) == outcome
  }

  predicate WrongCheck(m: Machine, e: Event, uid: nat) {
    Concludes(m, e, uid, BadPassword) || (e.step.Whole? && Lockout.WrongCheck(m.served, Timed(e.wait, e.step.op), uid))
  }

  predicate Clears(m: Machine, e: Event, uid: nat) {
    Concludes(m, e, uid, LoggedIn) || (e.step.Whole? && Lockout.Clears(m.served, Timed(e.wait, e.step.op), uid))
  }

  /** A failure that counts from an outdated row: another write came between its read and its own. */
  predicate Overlapped(m: Machine, e: Event, uid: nat) {
    && Concludes(m, e, uid, BadPassword)
    && var row, user := Concluded(m, e).value.row, m.served.db.users[uid];
       row.failedLoginCount != user.failedLoginCount || row.lockedUntil != user.lockedUntil
  }

  /** A run so far: where it has come to, and what it has done to one account. */
  datatype Tally = Tally(m: Machine, wrongs: nat, overlaps: nat, cleared: bool)

  function CountStep(t: Tally, e: Event, uid: nat, config: Config): Tally {
    Tally(Next(t.m, e, config),
          t.wrongs + (if WrongCheck(t.m, e, uid) then 1 else 0),
          t.overlaps + (if Overlapped(t.m, e, uid) then 1 else 0),
          t.cleared || Clears(t.m, e, uid))
  }

  function CountFrom(t: Tally, run: seq<Event>, uid: nat, config: Config): Tally
    decreases |run|, 1
  {
    if run == [] then t else CountLast(t, run, uid, config)
  }

  function CountLast(t: Tally, run: seq<Event>, uid: nat, config: Config): Tally
    requires run != []
    decreases |run|, 0
  {
    CountStep(CountFrom(t, run[..|run| - 1], uid, config), run[|run| - 1], uid, config)
  }

  function Run(m: Machine, run: seq<Event>, uid: nat, config: Config): Tally {
    CountFrom(Tally(m, 0, 0, false), run, uid, config)
  }

  // ---- the bound ----------------------------------------------------------------------------------

  /**
   * The run so far, cut at its last overlapped failure: `base` checks up to then, at time `from`,
   * and `n` since, which the lock has spaced.
   */
  predicate Spread(m: Machine, uid: nat, start: nat, overlaps: nat, base: nat, from: nat, n: nat, config: Config) {
    && uid < |m.served.db.users|
    && start <= from
    && Lockout.Spaced(m.served.db.users[uid], m.served.clock, from, n, config)
    && (base - overlaps * Lockout.Free(config)) * config.lockMillis <= from - start
  }

  lemma CutHere(base: nat, n: nat, overlaps: nat, start: nat, from: nat, now: nat, free: nat, w: nat)
    requires (base - overlaps * free) * w <= from - start && (n - free) * w <= now - from
    ensures (base + n - (overlaps + 1) * free) * w <= now - start
  {
    var a, b := base - overlaps * free, n - free;
    assert base + n - (overlaps + 1) * free == a + b by {
      assert (overlaps + 1) * free == overlaps * free + free;
    }
    assert (a + b) * w == a * w + b * w;
  }

  /** A failure counted from the current row is one more spaced check; any other is the first of a new cut. */
  lemma FailureSpreads(m: Machine, e: Event, uid: nat, start: nat, overlaps: nat, base: nat, from: nat, n: nat,
      config: Config)
    returns (base': nat, from': nat, n': nat)
    requires Spread(m, uid, start, overlaps, base, from, n, config) && Concludes(m, e, uid, BadPassword)
    ensures base' + n' == base + n + 1
    ensures var overlaps' := overlaps + (if Overlapped(m, e, uid) then 1 else 0);
      Spread(Next(m, e, config), uid, start, overlaps', base', from', n', config)
  {
    var now := m.served.clock + e.wait;
    if Overlapped(m, e, uid) {
      base', from', n' := base + n, now, 1;
      Lockout.SpacedProduct(m.served.db.users[uid], m.served.clock, from, n, config);
      CutHere(base, n, overlaps, start, from, now, Lockout.Free(config), config.lockMillis);
      Lockout.NonPositive(1 - Lockout.Free(config), config.lockMillis);
    } else {
      base', from', n' := base, from, n + 1;
      Lockout.FailureSpaces(m.served.db.users[uid], now, from, n, config);
    }
  }

  lemma OtherSpreads(m: Machine, e: Event, uid: nat, start: nat, overlaps: nat, base: nat, from: nat, n: nat,
      config: Config)
    requires Spread(m, uid, start, overlaps, base, from, n, config) && !Clears(m, e, uid) && !e.step.Whole?
    requires !Concludes(m, e, uid, BadPassword)
    ensures Spread(Next(m, e, config), uid, start, overlaps, base, from, n, config)
  {
    var user, user' := m.served.db.users[uid], Next(m, e, config).served.db.users[uid];
    assert user'.failedLoginCount == user.failedLoginCount && user'.lockedUntil == user.lockedUntil;
  }

  lemma StepSpreads(m: Machine, e: Event, uid: nat, start: nat, overlaps: nat, base: nat, from: nat, n: nat,
      config: Config)
    returns (base': nat, from': nat, n': nat)
    requires Spread(m, uid, start, overlaps, base, from, n, config) && !Clears(m, e, uid)
    ensures base' + n' == base + n + (if WrongCheck(m, e, uid) then 1 else 0)
    ensures var overlaps' := overlaps + (if Overlapped(m, e, uid) then 1 else 0);
      Spread(Next(m, e, config), uid, start, overlaps', base', from', n', config)
  {
    base', from', n' := base, from, n;
    if e.step.Whole? {
      Lockout.StepSpaces(m.served, Timed(e.wait, e.step.op), uid, from, n, config);
      n' := n + (if WrongCheck(m, e, uid) then 1 else 0);
    } else if Concludes(m, e, uid, BadPassword) {
      base', from', n' := FailureSpreads(m, e, uid, start, overlaps, base, from, n, config);
    } else {
      OtherSpreads(m, e, uid, start, overlaps, base, from, n, config);
    }
  }

  lemma {:induction false} RunSpreads(m: Machine, run: seq<Event>, uid: nat, config: Config)
    returns (base: nat, from: nat, n: nat)
    requires uid < |m.served.db.users| && !Run(m, run, uid, config).cleared
    ensures var t := Run(m, run, uid, config);
      t.wrongs == base + n && Spread(t.m, uid, m.served.clock, t.overlaps, base, from, n, config)
  {
    if run == [] {
      base, from, n := 0, m.served.clock, 0;
    } else {
      var t, e := Run(m, run[..|run| - 1], uid, config), run[|run| - 1];
      assert Run(m, run, uid, config) == CountLast(Tally(m, 0, 0, false), run, uid, config) ==
        CountStep(t, e, uid, config);
      base, from, n := RunSpreads(m, run[..|run| - 1], uid, config);
      base, from, n := StepSpreads(t.m, e, uid, m.served.clock, t.overlaps, base, from, n, config);
    }
  }

  /** The wrong checks that a run ending at `t` may make when no logins overlap. */
  function Allowance(m: Machine, t: Tally, config: Config): int
    requires config.lockMillis > 0
  {
    Lockout.Free(config) + (t.m.served.clock - m.served.clock) / config.lockMillis
  }

  /**
   * From any state on, with any logins in flight: as long as `uid` neither signs in nor resets the
   * password, a run of D milliseconds makes at most maxAttempts + floor(D / lock window) wrong
   * checks on the account, plus another maxAttempts for each failure another one overlapped.
   */
  lemma {:induction false} OverlapBound(m: Machine, run: seq<Event>, uid: nat, config: Config)
    requires uid < |m.served.db.users| && !Run(m, run, uid, config).cleared && config.lockMillis > 0
    ensures var t := Run(m, run, uid, config); t.wrongs <= Allowance(m, t, config) + t.overlaps * Lockout.Free(config)
  {
    var base, from, n := RunSpreads(m, run, uid, config);
    var t := Run(m, run, uid, config);
    TallyIsBounded(m, t, uid, base, from, n, config);
  }

  lemma TallyIsBounded(m: Machine, t: Tally, uid: nat, base: nat, from: nat, n: nat, config: Config)
    requires Spread(t.m, uid, m.served.clock, t.overlaps, base, from, n, config) && t.wrongs == base + n
    requires config.lockMillis > 0
    ensures t.wrongs <= Allowance(m, t, config) + t.overlaps * Lockout.Free(config)
  {
    SpreadIsBounded(t.m.served.db.users[uid], t.m.served.clock, m.served.clock, t.overlaps, base, from, n, config);
  }

  lemma SpreadIsBounded(user: User, clock: nat, start: nat, overlaps: nat, base: nat, from: nat, n: nat, config: Config)
    requires Lockout.Spaced(user, clock, from, n, config) && start <= from && config.lockMillis > 0
    requires (base - overlaps * Lockout.Free(config)) * config.lockMillis <= from - start
    ensures base + n <= Lockout.Free(config) + (clock - start) / config.lockMillis + overlaps * Lockout.Free(config)
  {
    Lockout.SpacedProduct(user, clock, from, n, config);
    CutHere(base, n, overlaps, start, from, clock, Lockout.Free(config), config.lockMillis);
    Quotient(base + n, overlaps, Lockout.Free(config), config.lockMillis, clock - start);
  }

  lemma Quotient(total: nat, overlaps: nat, free: nat, w: nat, d: nat)
    requires w > 0 && (total - (overlaps + 1) * free) * w <= d
    ensures total <= free + d / w + overlaps * free
  {
    assert (overlaps + 1) * free == overlaps * free + free;
    var extra := total - (overlaps + 1) * free;
    if extra > 0 {
      Lockout.DivAtLeast(extra, w, d);
    }
  }

  // ---- the bound is met ---------------------------------------------------------------------------

  lemma {:induction false} CountSnoc(t: Tally, run: seq<Event>, e: Event, uid: nat, config: Config)
    ensures CountFrom(t, run + [e], uid, config) == CountStep(CountFrom(t, run, uid, config), e, uid, config)
  {
    assert (run + [e])[..|run|] == run;
    assert CountFrom(t, run + [e], uid, config) == CountLast(t, run + [e], uid, config);
  }

  lemma {:induction false} CountAppend(t: Tally, a: seq<Event>, b: seq<Event>, uid: nat, config: Config)
    ensures CountFrom(t, a + b, uid, config) == CountFrom(CountFrom(t, a, uid, config), b, uid, config)
  {
    if b == [] {
      assert a + b == a;
    } else {
      CountAppend(t, a, b[..|b| - 1], uid, config);
      CountSnoc(t, a + b[..|b| - 1], b[|b| - 1], uid, config);
      assert (a + b[..|b| - 1]) + [b[|b| - 1]] == a + b;
    }
  }

  /** Logins `lo` to `hi` have read the account before any failure. */
  predicate Outdated(m: Machine, uid: nat, lo: nat, hi: nat) {
    && hi <= |m.logins|
    && forall i :: lo <= i < hi ==>
         && m.logins[i].Some? && m.logins[i].value.uid == uid
         && m.logins[i].value.row.deletedAt.None?
         && m.logins[i].value.row.failedLoginCount == 0 && m.logins[i].value.row.lockedUntil.None?
  }

  /** The account has just counted `n` failures, and logins `lo` to `hi` are still to be concluded. */
  predicate At(t: Tally, uid: nat, lo: nat, hi: nat, n: nat, config: Config) {
    !t.cleared && Lockout.Guessed(t.m.served, uid, n, config) && Outdated(t.m, uid, lo, hi)
  }

  lemma BeginStep(t: Tally, uid: nat, lo: nat, config: Config)
    requires At(t, uid, lo, |t.m.logins|, 0, config)
    ensures var u := CountStep(t, Event(0, Begin(uid)), uid, config);
      && At(u, uid, lo, |t.m.logins| + 1, 0, config) && |u.m.logins| == |t.m.logins| + 1
      && u.wrongs == t.wrongs && u.overlaps == t.overlaps && u.m.served.clock == t.m.served.clock
  {
  }

  /** The next wrong password, as soon as the lock allows. */
  function NextGuess(uid: nat, n: nat, config: Config): Event {
    var guess := Lockout.GuessAt(uid, n + 1, config);
    Event(guess.wait, Whole(guess.op))
  }

  lemma GuessStep(t: Tally, uid: nat, lo: nat, hi: nat, n: nat, config: Config)
    requires At(t, uid, lo, hi, n, config)
    ensures var e := NextGuess(uid, n, config);
      var u := CountStep(t, e, uid, config);
      && At(u, uid, lo, hi, n + 1, config) && u.wrongs == t.wrongs + 1 && u.overlaps == t.overlaps
      && u.m.served.clock == t.m.served.clock + e.wait
  {
    Lockout.NextGuess(t.m.served, uid, n, config);
  }

  lemma DecideStep(t: Tally, uid: nat, lo: nat, hi: nat, n: nat, config: Config)
    requires At(t, uid, lo, hi, n, config) && lo < hi && n > 0
    ensures var u := CountStep(t, Event(0, Decide(lo, false)), uid, config);
      && At(u, uid, lo + 1, hi, 1, config) && u.wrongs == t.wrongs + 1 && u.overlaps == t.overlaps + 1
      && u.m.served.clock == t.m.served.clock
  {
  }

  /** `k` logins read the fresh account. */
  lemma {:induction false} BeginAll(t: Tally, uid: nat, k: nat, config: Config) returns (run: seq<Event>, u: Tally)
    requires At(t, uid, |t.m.logins|, |t.m.logins|, 0, config)
    ensures u == CountFrom(t, run, uid, config) && At(u, uid, |t.m.logins|, |t.m.logins| + k, 0, config)
    ensures |u.m.logins| == |t.m.logins| + k
    ensures u.wrongs == t.wrongs && u.overlaps == t.overlaps && u.m.served.clock == t.m.served.clock
  {
    if k == 0 {
      run, u := [], t;
    } else {
      run, u := BeginAll(t, uid, k - 1, config);
      BeginStep(u, uid, |t.m.logins|, config);
      CountSnoc(t, run, Event(0, Begin(uid)), uid, config);
      run, u := run + [Event(0, Begin(uid))], CountStep(u, Event(0, Begin(uid)), uid, config);
    }
  }

  lemma {:induction false} GuessOne(t: Tally, run: seq<Event>, u: Tally, uid: nat, lo: nat, hi: nat, n: nat,
      config: Config)
    returns (longer: seq<Event>, v: Tally)
    requires u == CountFrom(t, run, uid, config) && At(u, uid, lo, hi, n, config)
    ensures v == CountFrom(t, longer, uid, config) && At(v, uid, lo, hi, n + 1, config)
    ensures v.wrongs == u.wrongs + 1 && v.overlaps == u.overlaps
    ensures v.m.served.clock == u.m.served.clock + Lockout.LeastTime(n + 1, config) - Lockout.LeastTime(n, config)
  {
    var e := NextGuess(uid, n, config);
    GuessStep(u, uid, lo, hi, n, config);
    CountSnoc(t, run, e, uid, config);
    longer, v := run + [e], CountStep(u, e, uid, config);
  }

  /** Guesses, as fast as the lock allows, until the account counts `more` more failures. */
  lemma {:induction false} Climb(t: Tally, uid: nat, lo: nat, hi: nat, n: nat, more: nat, config: Config)
    returns (run: seq<Event>, u: Tally)
    requires At(t, uid, lo, hi, n, config)
    ensures u == CountFrom(t, run, uid, config) && At(u, uid, lo, hi, n + more, config)
    ensures u.wrongs == t.wrongs + more && u.overlaps == t.overlaps
    ensures u.m.served.clock == t.m.served.clock + Lockout.LeastTime(n + more, config) - Lockout.LeastTime(n, config)
  {
    if more == 0 {
      run, u := [], t;
    } else {
      run, u := Climb(t, uid, lo, hi, n, more - 1, config);
      run, u := GuessOne(t, run, u, uid, lo, hi, n + more - 1, config);
    }
  }

  /** An outdated login, concluded after a lock, takes the account back to its first failure. */
  lemma {:induction false} Round(t: Tally, uid: nat, lo: nat, hi: nat, config: Config)
      returns (run: seq<Event>, u: Tally)
    requires At(t, uid, lo, hi, Lockout.Free(config), config) && lo < hi
    ensures u == CountFrom(t, run, uid, config) && At(u, uid, lo + 1, hi, Lockout.Free(config), config)
    ensures u.wrongs == t.wrongs + Lockout.Free(config) && u.overlaps == t.overlaps + 1
    ensures u.m.served.clock == t.m.served.clock
  {
    var e := Event(0, Decide(lo, false));
    var first := CountStep(t, e, uid, config);
    DecideStep(t, uid, lo, hi, Lockout.Free(config), config);
    CountSnoc(t, [], e, uid, config);
    assert [] + [e] == [e];
    Lockout.LeastTimeIsLinear(0, config);
    run, u := Climb(first, uid, lo + 1, hi, 1, Lockout.Free(config) - 1, config);
    CountAppend(t, [e], run, uid, config);
    run := [e] + run;
  }

  /** `k` times `x`, one round at a time. */
  function Repeat(k: nat, x: nat): nat {
    if k == 0 then 0 else Repeat(k - 1, x) + x
  }

  lemma {:induction false} RepeatIsProduct(k: nat, x: nat)
    ensures Repeat(k, x) == k * x
  {
    if k > 0 {
      RepeatIsProduct(k - 1, x);
      assert k * x == (k - 1) * x + x;
    }
  }

  lemma {:induction false} RoundOn(t: Tally, run: seq<Event>, u: Tally, uid: nat, lo: nat, hi: nat, config: Config)
    returns (longer: seq<Event>, v: Tally)
    requires u == CountFrom(t, run, uid, config) && At(u, uid, lo, hi, Lockout.Free(config), config) && lo < hi
    ensures v == CountFrom(t, longer, uid, config) && At(v, uid, lo + 1, hi, Lockout.Free(config), config)
    ensures v.wrongs == u.wrongs + Lockout.Free(config) && v.overlaps == u.overlaps + 1
    ensures v.m.served.clock == u.m.served.clock
  {
    var round;
    round, v := Round(u, uid, lo, hi, config);
    CountAppend(t, run, round, uid, config);
    longer := run + round;
  }

  lemma {:induction false} Rounds(t: Tally, uid: nat, lo: nat, hi: nat, k: nat, config: Config)
    returns (run: seq<Event>, u: Tally)
    requires lo + k <= hi && At(t, uid, lo, hi, Lockout.Free(config), config)
    ensures u == CountFrom(t, run, uid, config) && At(u, uid, lo + k, hi, Lockout.Free(config), config)
    ensures u.wrongs == t.wrongs + Repeat(k, Lockout.Free(config)) && u.overlaps == t.overlaps + k
    ensures u.m.served.clock == t.m.served.clock
  {
    if k == 0 {
      run, u := [], t;
    } else {
      run, u := Rounds(t, uid, lo, hi, k - 1, config);
      run, u := RoundOn(t, run, u, uid, lo + k - 1, hi, config);
    }
  }

  /** `k` logins read the fresh account, and guesses then lock it. */
  lemma {:induction false} FirstLock(t: Tally, uid: nat, k: nat, config: Config) returns (run: seq<Event>, u: Tally)
    requires At(t, uid, |t.m.logins|, |t.m.logins|, 0, config)
    ensures u == CountFrom(t, run, uid, config)
    ensures At(u, uid, |t.m.logins|, |t.m.logins| + k, Lockout.Free(config), config)
    ensures u.wrongs == t.wrongs + Lockout.Free(config) && u.overlaps == t.overlaps
    ensures u.m.served.clock == t.m.served.clock
  {
    var lo := |t.m.logins|;
    Lockout.LeastTimeIsLinear(0, config);
    var a, mid := BeginAll(t, uid, k, config);
    var b;
    b, u := Climb(mid, uid, lo, lo + k, 0, Lockout.Free(config), config);
    CountAppend(t, a, b, uid, config);
    run := a + b;
  }

  lemma {:induction false} AllRounds(t: Tally, uid: nat, k: nat, config: Config) returns (run: seq<Event>, u: Tally)
    requires At(t, uid, |t.m.logins|, |t.m.logins|, 0, config)
    ensures u == CountFrom(t, run, uid, config)
    ensures At(u, uid, |t.m.logins| + k, |t.m.logins| + k, Lockout.Free(config), config)
    ensures u.wrongs == t.wrongs + Repeat(k + 1, Lockout.Free(config)) && u.overlaps == t.overlaps + k
    ensures u.m.served.clock == t.m.served.clock
  {
    var lo := |t.m.logins|;
    var a, mid := FirstLock(t, uid, k, config);
    var b;
    b, u := Rounds(mid, uid, lo, lo + k, k, config);
    CountAppend(t, a, b, uid, config);
    run := a + b;
  }

  /** After the rounds, one guess for every lock window. */
  lemma {:induction false} WorstRun(t: Tally, uid: nat, k: nat, extra: nat, config: Config)
      returns (run: seq<Event>, u: Tally)
    requires At(t, uid, |t.m.logins|, |t.m.logins|, 0, config)
    ensures u == CountFrom(t, run, uid, config) && !u.cleared
    ensures u.wrongs == t.wrongs + Repeat(k + 1, Lockout.Free(config)) + extra && u.overlaps == t.overlaps + k
    ensures u.m.served.clock == t.m.served.clock + Lockout.LeastTime(Lockout.Free(config) + extra, config)
  {
    var lo := |t.m.logins| + k;
    Lockout.LeastTimeIsLinear(0, config);
    var a, mid := AllRounds(t, uid, k, config);
    var b;
    b, u := Climb(mid, uid, lo, lo, Lockout.Free(config), extra, config);
    CountAppend(t, a, b, uid, config);
    run := a + b;
  }

  /** What the worst run comes to, in numbers. */
  lemma WorstNumbers(k: nat, span: nat, config: Config)
    requires config.lockMillis > 0
    ensures var free, extra := Lockout.Free(config), span / config.lockMillis;
      var time := Lockout.LeastTime(free + extra, config);
      && Repeat(k + 1, free) == free + k * free
      && time <= span && time / config.lockMillis == extra
  {
    var free, extra := Lockout.Free(config), span / config.lockMillis;
    RepeatIsProduct(k + 1, free);
    assert (k + 1) * free == k * free + free;
    Lockout.LeastTimeIsLinear(extra, config);
    Lockout.QuotientFits(span, config.lockMillis);
    ExactQuotient(extra, config.lockMillis);
  }

  /**
   * The bound is met exactly: from any state with a fresh account, for every span D and every
   * number of overlaps there is a run of no more than D milliseconds that makes that many wrong
   * checks.
   */
  lemma {:induction false} OverlapBoundIsMet(m: Machine, uid: nat, k: nat, span: nat, config: Config)
    returns (run: seq<Event>)
    requires Lockout.FreshUser(m.served, uid) && config.lockMillis > 0
    ensures var t := Run(m, run, uid, config);
      && !t.cleared && t.overlaps == k && m.served.clock <= t.m.served.clock <= m.served.clock + span
      && t.wrongs == Lockout.Free(config) + span / config.lockMillis + k * Lockout.Free(config)
      && t.wrongs == Allowance(m, t, config) + k * Lockout.Free(config)
  {
    WorstNumbers(k, span, config);
    var t;
    run, t := WorstRun(Tally(m, 0, 0, false), uid, k, span / config.lockMillis, config);
  }

  lemma ExactQuotient(k: nat, w: nat)
    requires w > 0
    ensures k * w / w == k
  {
    Lockout.DivAtLeast(k, w, k * w);
    Lockout.QuotientFits(k * w, w);
  }

  ghost predicate LockoutHolds(m: Machine, uid: nat, overlaps: nat, config: Config)
    requires config.lockMillis > 0
  {
    forall run :: var t := Run(m, run, uid, config); !t.cleared && t.overlaps <= overlaps ==>
      t.wrongs <= Allowance(m, t, config)
  }

  /** The lockout holds as it stands if and only if no failure may overlap another. */
  lemma LockoutHoldsIffNoOverlap(m: Machine, uid: nat, overlaps: nat, config: Config)
    requires Lockout.FreshUser(m.served, uid) && config.lockMillis > 0
    ensures LockoutHolds(m, uid, overlaps, config) <==> overlaps == 0
  {
    if overlaps == 0 {
      forall run: seq<Event>
        ensures var t := Run(m, run, uid, config); !t.cleared && t.overlaps <= overlaps ==>
          t.wrongs <= Allowance(m, t, config)
      {
        if !Run(m, run, uid, config).cleared {
          OverlapBound(m, run, uid, config);
        }
      }
    } else {
      var run := OverlapBoundIsMet(m, uid, 1, 0, config);
      assert Run(m, run, uid, config).wrongs > Allowance(m, Run(m, run, uid, config), config);
    }
  }
}
