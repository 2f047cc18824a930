/**
 * Lab sessions: quota, one-time tickets, and the sweep that ends sessions past their lifetime or
 * idle too long.  Session ids are positions in an append-only table, and the ticket of a session
 * (whose hash is injective) is named by the session's id.
 */
module Labs {
  import opened Base

  datatype Status = Provisioning | Running | Stopping | Ended | Failed | Expired

  /** `idleSeconds` is the idle timeout of the session's template. */
  datatype Session = Session(
    user: nat,
    status: Status,
    ticketUsedAt: Option<nat>,
    lastActivityAt: Option<nat>,
    endedAt: Option<nat>,
    expiresAt: nat,
    idleSeconds: nat)

  /** An active template, as `start` finds it. */
  datatype Template = Template(ttlSeconds: nat, idleSeconds: nat)

  predicate IsLive(s: Session) {
    s.status == Provisioning || s.status == Running
  }

  function Live(sessions: seq<Session>): set<nat> {
    set i | 0 <= i < |sessions| && IsLive(sessions[i])
  }

  function LiveOf(sessions: seq<Session>, user: nat): set<nat> {
    set i | 0 <= i < |sessions| && IsLive(sessions[i]) && sessions[i].user == user
  }

  predicate MayStart(sessions: seq<Session>, user: nat, entitled: bool, template: Option<Template>, max: int) {
    entitled && template.Some? && |LiveOf(sessions, user)| < max
  }

  function Start(sessions: seq<Session>, user: nat, entitled: bool, template: Option<Template>, provisioned: bool,
      max: int, now: nat)
    : seq<Session>
  {
    if !MayStart(sessions, user, entitled, template, max) then sessions
    else
      var expiresAt := now + 1000 * template.value.ttlSeconds;
      sessions + [if provisioned
                  then Session(user, Running, None, Some(now), None, expiresAt, template.value.idleSeconds)
                  else Session(user, Failed, None, None, Some(now), expiresAt, template.value.idleSeconds)]
  }

  datatype RedeemResult = Attached | InvalidTicket | AlreadyUsed | NotRunning | TooLate

  function RedeemCheck(sessions: seq<Session>, ticket: nat, now: nat): RedeemResult {
    if ticket >= |sessions| then InvalidTicket
    else if sessions[ticket].ticketUsedAt.Some? then AlreadyUsed
    else if sessions[ticket].status != Running then NotRunning
    else if sessions[ticket].expiresAt < now then TooLate
    else Attached
  }

  function Redeem(sessions: seq<Session>, ticket: nat, now: nat): seq<Session> {
    if RedeemCheck(sessions, ticket, now) == Attached
    then sessions[ticket := sessions[ticket].(ticketUsedAt := Some(now), lastActivityAt := Some(now))]
    else sessions
  }

  function Touch(sessions: seq<Session>, id: nat, now: nat): seq<Session> {
    if id < |sessions| then sessions[id := sessions[id].(lastActivityAt := Some(now))] else sessions
  }

  /** `stop` on one row; when destroying the container throws, the row stays STOPPING. */
  function Stopped(s: Session, expired: bool, destroyed: bool, now: nat): Session {
    if s.status == Ended then s
    else if !destroyed then s.(status := Stopping)
    else s.(status := if expired then Expired else Ended, endedAt := Some(now))
  }

  function Stop(sessions: seq<Session>, id: nat, user: Option<nat>, expired: bool, destroyed: bool,
      now: nat): seq<Session> {
    if id >= |sessions| || (user.Some? && sessions[id].user != user.value) then sessions
    else sessions[id := Stopped(sessions[id], expired, destroyed, now)]
  }

  // ---- the sweep ------------------------------------------------------------------------------------

  predicate PastLifetime(s: Session, now: nat) {
    s.expiresAt < now
  }

  predicate Idle(s: Session, now: nat) {
    s.lastActivityAt.Some? && now > s.lastActivityAt.value + 1000 * s.idleSeconds
  }

  const BATCH := 100

  /** A result `findMany … take: 100` may return: that many live sessions, in no stated order. */
  predicate Batch(sessions: seq<Session>, candidates: set<nat>) {
    candidates <= Live(sessions) && |candidates| == if |Live(sessions)| <= BATCH then |Live(sessions)| else BATCH
  }

  /** All candidates that are due end at once; `failing` are those whose container will not die. */
  function Sweep(sessions: seq<Session>, candidates: set<nat>, failing: set<nat>, now: nat): seq<Session> {
    seq(|sessions|, i requires 0 <= i < |sessions| =>
      if i in candidates && (PastLifetime(sessions[i], now) || Idle(sessions[i], now))
      then Stopped(sessions[i], PastLifetime(sessions[i], now), i !in failing, now)
      else sessions[i])
  }

  // ---- runs -----------------------------------------------------------------------------------------

  datatype Step =
    | DoStart(user: nat, entitled: bool, template: Option<Template>, provisioned: bool)
    | DoRedeem(ticket: nat)
    | DoTouch(id: nat)
    | DoStop(id: nat, owner: Option<nat>, expired: bool, destroyed: bool)
    | DoSweep(candidates: set<nat>, failing: set<nat>)

  datatype Event = Event(wait: nat, step: Step)

  /** `swept` is the time of the last sweep, 0 before the first; a history variable. */
  datatype Machine = Machine(sessions: seq<Session>, clock: nat, swept: nat)

  const EMPTY := Machine([], 0, 0)

  function Next(m: Machine, e: Event, max: int): Machine {
    var now := m.clock + e.wait;
    match e.step
    case DoStart(user, entitled, template, provisioned) =>
      Machine(Start(m.sessions, user, entitled, template, provisioned, max, now), now, m.swept)
    case DoRedeem(ticket) => Machine(Redeem(m.sessions, ticket, now), now, m.swept)
    case DoTouch(id) => Machine(Touch(m.sessions, id, now), now, m.swept)
    case DoStop(id, user, expired, destroyed) =>
      Machine(Stop(m.sessions, id, user, expired, destroyed, now), now, m.swept)
    case DoSweep(candidates, failing) =>
      if Batch(m.sessions, candidates) then Machine(Sweep(m.sessions, candidates, failing, now), now, now)
      else Machine(m.sessions, now, m.swept)
  }

  function Run(m: Machine, run: seq<Event>, max: int): Machine {
    if run == [] then m else Next(Run(m, run[..|run| - 1], max), run[|run| - 1], max)
  }

  // ---- never live again, one redemption, quota --------------------------------------------------------

  lemma {:induction false} NeverLiveAgain(m: Machine, run: seq<Event>, max: int, id: nat)
    requires id < |m.sessions|
    ensures id < |Run(m, run, max).sessions|
    ensures !IsLive(m.sessions[id]) ==> !IsLive(Run(m, run, max).sessions[id])
    ensures m.sessions[id].ticketUsedAt.Some? ==> Run(m, run, max).sessions[id].ticketUsedAt.Some?
  {
    if run != [] {
      NeverLiveAgain(m, run[..|run| - 1], max, id);
      StepKeepsEnds(Run(m, run[..|run| - 1], max), run[|run| - 1], max, id);
    }
  }

  lemma StepKeepsEnds(m: Machine, e: Event, max: int, id: nat)
    requires id < |m.sessions|
    ensures var n := Next(m, e, max);
      && id < |n.sessions|
      && (!IsLive(m.sessions[id]) ==> !IsLive(n.sessions[id]))
      && (m.sessions[id].ticketUsedAt.Some? ==> n.sessions[id].ticketUsedAt.Some?)
      && n.sessions[id].user == m.sessions[id].user
  {
  }

  predicate Redeems(m: Machine, e: Event, ticket: nat) {
    e.step == DoRedeem(ticket) && RedeemCheck(m.sessions, ticket, m.clock + e.wait) == Attached
  }

  lemma {:induction false} RunSplits(m: Machine, a: seq<Event>, b: seq<Event>, max: int)
    ensures Run(m, a + b, max) == Run(Run(m, a, max), b, max)
  {
    if b == [] {
      assert a + b == a;
    } else {
      RunSplits(m, a, b[..|b| - 1], max);
      assert (a + b)[..|a + b| - 1] == a + b[..|b| - 1];
    }
  }

  lemma RedeemMarks(m: Machine, e: Event, max: int, ticket: nat)
    requires Redeems(m, e, ticket)
    ensures var n := Next(m, e, max); ticket < |n.sessions| && n.sessions[ticket].ticketUsedAt.Some?
  {
  }

  lemma {:induction false} RedeemedStaysUsed(run: seq<Event>, max: int, ticket: nat, k: nat, l: nat)
    requires k < l <= |run| && Redeems(Run(EMPTY, run[..k], max), run[k], ticket)
    ensures var m := Run(EMPTY, run[..l], max); ticket < |m.sessions| && m.sessions[ticket].ticketUsedAt.Some?
  {
    var n := Next(Run(EMPTY, run[..k], max), run[k], max);
    RedeemMarks(Run(EMPTY, run[..k], max), run[k], max, ticket);
    assert run[..k + 1][..k] == run[..k];
    assert Run(EMPTY, run[..k + 1], max) == n;
    assert run[..l] == run[..k + 1] + run[k + 1..l];
    RunSplits(EMPTY, run[..k + 1], run[k + 1..l], max);
    NeverLiveAgain(n, run[k + 1..l], max, ticket);
  }

  /** A ticket is honoured once, in any run, and only for a running session within its lifetime. */
  lemma {:induction false} TicketHonouredOnce(run: seq<Event>, max: int, ticket: nat, k: nat, l: nat)
    requires k <= l < |run|
    requires Redeems(Run(EMPTY, run[..k], max), run[k], ticket) && Redeems(Run(EMPTY, run[..l], max), run[l], ticket)
    ensures k == l
    ensures var m := Run(EMPTY, run[..k], max);
      m.sessions[ticket].status == Running && m.clock + run[k].wait <= m.sessions[ticket].expiresAt
  {
    if k < l {
      RedeemedStaysUsed(run, max, ticket, k, l);
    }
  }

  lemma StepKeepsQuota(m: Machine, e: Event, max: int, user: nat)
    ensures var n := Next(m, e, max);
      |LiveOf(n.sessions, user)| <= |LiveOf(m.sessions, user)| || |LiveOf(n.sessions, user)| <= max
  {
    var n := Next(m, e, max);
    forall i | i in LiveOf(n.sessions, user) && i < |m.sessions|
      ensures i in LiveOf(m.sessions, user)
    {
      StepKeepsEnds(m, e, max, i);
    }
    if |n.sessions| == |m.sessions| {
      SubsetSize(LiveOf(n.sessions, user), LiveOf(m.sessions, user));
    } else {
      assert LiveOf(n.sessions, user) <= LiveOf(m.sessions, user) + {|m.sessions|};
      SubsetSize(LiveOf(n.sessions, user), LiveOf(m.sessions, user) + {|m.sessions|});
      if n.sessions[|m.sessions|].user != user {
        assert LiveOf(n.sessions, user) <= LiveOf(m.sessions, user);
        SubsetSize(LiveOf(n.sessions, user), LiveOf(m.sessions, user));
      }
    }
  }

  ghost predicate Quotas(sessions: seq<Session>, max: nat) {
    forall user :: |LiveOf(sessions, user)| <= max
  }

  /** No user ever holds more live sessions than the quota. */
  lemma {:induction false} QuotaHolds(run: seq<Event>, max: nat, user: nat)
    ensures |LiveOf(Run(EMPTY, run, max).sessions, user)| <= max
  {
    if run == [] {
      assert LiveOf(EMPTY.sessions, user) == {};
    } else {
      QuotaHolds(run[..|run| - 1], max, user);
      StepKeepsQuota(Run(EMPTY, run[..|run| - 1], max), run[|run| - 1], max, user);
    }
  }

  // ---- how late a session can be ended ------------------------------------------------------------------

  /** Every live session was neither past its lifetime nor idle too long at the last sweep. */
  predicate FreshAtSweep(m: Machine) {
    && m.swept <= m.clock
    && forall i :: 0 <= i < |m.sessions| && IsLive(m.sessions[i]) ==>
         && m.swept <= m.sessions[i].expiresAt
         && m.sessions[i].lastActivityAt.Some?
         && m.swept <= m.sessions[i].lastActivityAt.value + 1000 * m.sessions[i].idleSeconds
  }

  predicate Uncrowded(m: Machine, e: Event) {
    e.step.DoSweep? ==> |Live(m.sessions)| <= BATCH
  }

  predicate NeverCrowded(run: seq<Event>, max: int) {
    run == [] || (NeverCrowded(run[..|run| - 1], max) && Uncrowded(Run(EMPTY, run[..|run| - 1], max), run[|run| - 1]))
  }

  lemma FullBatch(sessions: seq<Session>, candidates: set<nat>)
    requires Batch(sessions, candidates) && |Live(sessions)| <= BATCH
    ensures candidates == Live(sessions)
  {
    if candidates != Live(sessions) {
      var x :| x in Live(sessions) && x !in candidates;
      SubsetSize(candidates, Live(sessions) - {x});
    }
  }

  lemma StepKeepsFresh(m: Machine, e: Event, max: int)
    requires FreshAtSweep(m) && Uncrowded(m, e)
    ensures FreshAtSweep(Next(m, e, max))
  {
    if e.step.DoSweep? && Batch(m.sessions, e.step.candidates) {
      FullBatch(m.sessions, e.step.candidates);
    }
  }

  lemma {:induction false} RunKeepsFresh(run: seq<Event>, max: int)
    requires NeverCrowded(run, max)
    ensures FreshAtSweep(Run(EMPTY, run, max))
  {
    if run != [] {
      RunKeepsFresh(run[..|run| - 1], max);
      StepKeepsFresh(Run(EMPTY, run[..|run| - 1], max), run[|run| - 1], max);
    }
  }

  // ---- the columns, read off the run ------------------------------------------------------------------

  datatype Birth = Birth(at: nat, template: Template)

  predicate Starts(m: Machine, e: Event, max: int, id: nat) {
    e.step.DoStart? && id == |m.sessions| && MayStart(m.sessions, e.step.user, e.step.entitled, e.step.template, max)
  }

  /** When and from which template session `id` was started. */
  function Born(run: seq<Event>, max: int, id: nat): Option<Birth> {
    if run == [] then None
    else
      var m, e := Run(EMPTY, run[..|run| - 1], max), run[|run| - 1];
      if Starts(m, e, max, id) then Some(Birth(m.clock + e.wait, e.step.template.value))
        else Born(run[..|run| - 1], max, id)
  }

  /** This event is activity on session `id`: its successful start, an honoured ticket, or a touch. */
  predicate Active(m: Machine, e: Event, max: int, id: nat) {
    match e.step
    case DoStart(_, _, _, provisioned) => Starts(m, e, max, id) && provisioned
    case DoRedeem(ticket) => ticket == id && Redeems(m, e, ticket)
    case DoTouch(touched) => touched == id && id < |m.sessions|
    case _ => false
  }

  /** When session `id` was last active. */
  function LastSeen(run: seq<Event>, max: int, id: nat): Option<nat> {
    if run == [] then None
    else
      var m := Run(EMPTY, run[..|run| - 1], max);
      if Active(m, run[|run| - 1], max, id) then Some(m.clock + run[|run| - 1].wait)
        else LastSeen(run[..|run| - 1], max, id)
  }

  predicate RowTells(m: Machine, id: nat, born: Option<Birth>, seen: Option<nat>) {
    && (id >= |m.sessions| ==> born.None? && seen.None?)
    && (id < |m.sessions| ==>
          && born.Some?
          && m.sessions[id].expiresAt == born.value.at + 1000 * born.value.template.ttlSeconds
          && m.sessions[id].idleSeconds == born.value.template.idleSeconds
          && m.sessions[id].lastActivityAt == seen)
  }

  lemma StepTells(m: Machine, e: Event, max: int, id: nat, born: Option<Birth>, seen: Option<nat>)
    requires RowTells(m, id, born, seen)
    ensures var now := m.clock + e.wait;
      RowTells(Next(m, e, max), id,
               if Starts(m, e, max, id) then Some(Birth(now, e.step.template.value)) else born,
               if Active(m, e, max, id) then Some(now) else seen)
  {
  }

  /** A session row records its run: its lifetime from its start, its activity from its last one. */
  lemma {:induction false} RowsTellTheRun(run: seq<Event>, max: int, id: nat)
    ensures RowTells(Run(EMPTY, run, max), id, Born(run, max, id), LastSeen(run, max, id))
  {
    if run != [] {
      var before := run[..|run| - 1];
      RowsTellTheRun(before, max, id);
      StepTells(Run(EMPTY, before, max), run[|run| - 1], max, id, Born(before, max, id), LastSeen(before, max, id));
    }
  }

  /**
   * With a sweep in the last `period` milliseconds and never more than 100 live sessions at one,
   * no session is live more than `period` past its start plus its template's lifetime, nor more
   * than `period` past the idle limit counted from its last start, attach or touch, whether or
   * not destroying containers succeeds.
   */
  lemma {:induction false} SweptInTime(run: seq<Event>, max: int, period: nat, id: nat)
    requires NeverCrowded(run, max)
    requires var m := Run(EMPTY, run, max); m.clock <= m.swept + period && id < |m.sessions| && IsLive(m.sessions[id])
    ensures var now := Run(EMPTY, run, max).clock;
      && Born(run, max, id).Some?
      && now <= Born(run, max, id).value.at + 1000 * Born(run, max, id).value.template.ttlSeconds + period
      && LastSeen(run, max, id).Some?
      && now <= LastSeen(run, max, id).value + 1000 * Born(run, max, id).value.template.idleSeconds + period
  {
    RunKeepsFresh(run, max);
    RowsTellTheRun(run, max, id);
  }

  // ---- what ends a session ----------------------------------------------------------------------------

  /**
   * After the run `before`, this event ends session `id`: a stop by its user or by nobody in particular,
   * or a sweep that finds it later than its template's lifetime after its start, or later than its
   * template's idle limit after its last activity.
   */
  predicate Ends(before: seq<Event>, e: Event, max: int, id: nat) {
    var m := Run(EMPTY, before, max);
    var now, born, seen := m.clock + e.wait, Born(before, max, id), LastSeen(before, max, id);
    match e.step
    case DoStop(stopped, user, _, _) =>
      stopped == id && id < |m.sessions| && (user == None || user == Some(m.sessions[id].user))
    case DoSweep(candidates, _) =>
      && Batch(m.sessions, candidates) && id in candidates && born.Some?
      && (|| now > born.value.at + 1000 * born.value.template.ttlSeconds
          || (seen.Some? && now > seen.value + 1000 * born.value.template.idleSeconds))
    case _ => false
  }

  lemma {:induction false} StepEnds(before: seq<Event>, e: Event, max: int, id: nat)
    requires var m := Run(EMPTY, before, max); id < |m.sessions| && IsLive(m.sessions[id])
    ensures var n := Next(Run(EMPTY, before, max), e, max);
      id < |n.sessions| && (IsLive(n.sessions[id]) <==> !Ends(before, e, max, id))
  {
    RowsTellTheRun(before, max, id);
  }

  ghost predicate NeverEnds(run: seq<Event>, max: int, id: nat, k: nat) {
    forall j :: k <= j < |run| ==> !Ends(run[..j], run[j], max, id)
  }

  lemma {:induction false} NeverEndsSplits(run: seq<Event>, max: int, id: nat, k: nat)
    requires k < |run|
    ensures var before, last := run[..|run| - 1], |run| - 1;
      NeverEnds(run, max, id, k) <==> NeverEnds(before, max, id, k) && !Ends(before, run[last], max, id)
  {
    var before := run[..|run| - 1];
    assert forall j :: k <= j < |before| ==> before[..j] == run[..j] && before[j] == run[j];
  }

  /**
   * A live session is live after any further events if and only if none of them was its stop or a
   * sweep it was due at: nothing else ends a session, and each of these does.
   */
  lemma {:induction false} LivesUntilStoppedOrDue(run: seq<Event>, max: int, id: nat, k: nat)
    requires k <= |run|
    requires var m := Run(EMPTY, run[..k], max); id < |m.sessions| && IsLive(m.sessions[id])
    ensures var n := Run(EMPTY, run, max);
      && id < |n.sessions|
      && (IsLive(n.sessions[id]) <==> NeverEnds(run, max, id, k))
  {
    if k == |run| {
      assert run[..k] == run;
    } else {
      var before, e := run[..|run| - 1], run[|run| - 1];
      assert before[..k] == run[..k];
      LivesUntilStoppedOrDue(before, max, id, k);
      NeverEndsSplits(run, max, id, k);
      if IsLive(Run(EMPTY, before, max).sessions[id]) {
        StepEnds(before, e, max, id);
      } else {
        StepKeepsEnds(Run(EMPTY, before, max), e, max, id);
      }
    }
  }

  lemma {:induction false} PickSome(from: set<nat>, size: nat) returns (picked: set<nat>)
    requires size <= |from|
    ensures picked <= from && |picked| == size
    decreases size
  {
    if size == 0 {
      picked := {};
    } else {
      var x :| x in from;
      picked := PickSome(from - {x}, size - 1);
      picked := picked + {x};
    }
  }

  /** The 100 is tight: a sweep is sure to see a given live session only if at most 100 are live. */
  lemma SweepSeesAllIff(sessions: seq<Session>, id: nat)
    requires id in Live(sessions)
    ensures (forall candidates :: Batch(sessions, candidates) ==> id in candidates) <==> |Live(sessions)| <= BATCH
  {
    if |Live(sessions)| <= BATCH {
      forall candidates | Batch(sessions, candidates)
        ensures id in candidates
      {
        FullBatch(sessions, candidates);
      }
    } else {
      var others := PickSome(Live(sessions) - {id}, BATCH);
      assert Batch(sessions, others) && id !in others;
    }
  }
}
