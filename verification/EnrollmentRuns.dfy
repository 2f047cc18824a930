/**
 * Enrollment-service under at-least-once delivery: handlers are split between their ledger look-up
 * and their transaction, lesson completion between its entitlement check and its writes, and any
 * number of both race with each other and with administrators.
 */
module EnrollmentRuns {
  import opened Base
  import opened Enrollments

  datatype Pending = Consuming(evt: Envelope) | Completing(user: nat, lesson: Lesson) | Settled

  /**
   * What took effect, in commit order; a history variable.  `finishedAt` is set on the recount that
   * finished the course for the first time.
   */
  datatype Action =
    | Granted(key: Key, source: Source)
    | Withdrawn(key: Key, at: nat)
    | Consumed(evt: Envelope, at: nat)
    | Recounted(key: Key, percent: nat, finishedAt: Option<nat>)

  datatype Machine = Machine(db: Db, pending: seq<Pending>, log: seq<Action>, clock: nat)

  /** `Abort` is a handler or a request that fails before it has written anything. */
  datatype Step =
    | Deliver(evt: Envelope)
    | AskComplete(user: nat, lesson: Lesson)
    | Commit(call: nat, catalog: map<nat, nat>)
    | Abort(call: nat)
    | Grant(key: Key)
    | Enroll(key: Key, isFree: bool, priceMinor: int)
    | Withdraw(key: Key)
    | Heartbeat(user: nat, lesson: Lesson, position: real)

  datatype Event = Event(wait: nat, step: Step)

  const EMPTY := Machine(Db(map[], {}, map[], []), [], [], 0)

  function Recount(marked: Db, key: Key, total: nat, now: nat): Action {
    Recounted(key, Percent(|CompletedLessons(marked, key)|, total),
              if FirstFinish(marked, key, total) then Some(now) else None)
  }

  function CommitCall(m: Machine, i: nat, catalog: map<nat, nat>, now: nat): Machine
    requires i < |m.pending|
  {
    match m.pending[i]
    case Consuming(evt) =>
      Machine(Consume(m.db, evt, now), m.pending[i := Settled],
              if evt.id in m.db.ledger then m.log else m.log + [Consumed(evt, now)], now)
    case Completing(user, lesson) =>
      var total := Total(catalog, lesson.course);
      var key := Key(user, lesson.course);
      Machine(Complete(m.db, user, lesson, total, now), m.pending[i := Settled],
              if key in m.db.enrollments
              then m.log + [Recount(MarkComplete(m.db, user, lesson, now), key, total, now)] else m.log, now)
    case Settled => m.(clock := now)
  }

  function Next(m: Machine, e: Event): Machine {
    var now := m.clock + e.wait;
    match e.step
    case Deliver(evt) =>
      m.(pending := if evt.id in m.db.ledger then m.pending else m.pending + [Consuming(evt)], clock := now)
    case AskComplete(user, lesson) =>
      m.(pending := if Entitled(m.db, Key(user, lesson.course), now) then m.pending + [Completing(user, lesson)]
                    else m.pending,
         clock := now)
    case Commit(i, catalog) => if i < |m.pending| then CommitCall(m, i, catalog, now) else m.(clock := now)
    case Abort(i) => m.(pending := if i < |m.pending| then m.pending[i := Settled] else m.pending, clock := now)
    case Grant(key) => Machine(Admit(m.db, key, ByAdmin, None), m.pending, m.log + [Granted(key, ByAdmin)], now)
    case Enroll(key, isFree, priceMinor) =>
      Machine(EnrollFree(m.db, key, isFree, priceMinor), m.pending,
              if !isFree && priceMinor > 0 then m.log else m.log + [Granted(key, ByFree)], now)
    case Withdraw(key) =>
      Machine(Expel(m.db, key, now), m.pending,
              if key in m.db.enrollments then m.log + [Withdrawn(key, now)] else m.log, now)
    case Heartbeat(user, lesson, position) =>
      m.(db := SavePosition(m.db, user, lesson, position, now), clock := now)
  }

  /** With nothing in between, look-up and transaction are the handler. */
  lemma DeliveryIsItsSteps(m: Machine, evt: Envelope, catalog: map<nat, nat>, wait: nat)
    ensures var now := m.clock + wait;
      Next(Next(m, Event(wait, Deliver(evt))), Event(0, Commit(|m.pending|, catalog))).db == Consume(m.db, evt, now)
  {
    if evt.id !in m.db.ledger {
      assert Next(m, Event(wait, Deliver(evt))).pending[|m.pending|] == Consuming(evt);
    }
  }

  function Run(m: Machine, run: seq<Event>): Machine {
    if run == [] then m else Next(Run(m, run[..|run| - 1]), run[|run| - 1])
  }

  // ---- the table is a fold over the log -----------------------------------------------------------

  type Rows = map<Key, Enrollment>

  function Enter(t: Rows, key: Key, source: Source, paymentId: Option<nat>): Rows {
    t[key := if key in t
             then Enrollment(Active, t[key].source, if paymentId.Some? then paymentId else t[key].paymentId,
                             t[key].expiresAt, t[key].progressPercent, t[key].completedAt, None)
             else Enrollment(Active, source, paymentId, None, 0, None, None)]
  }

  function Leave(t: Rows, key: Key, at: nat): Rows {
    if key in t then t[key := t[key].(status := Revoked, revokedAt := Some(at))] else t
  }

  function Score(t: Rows, key: Key, percent: nat, finishedAt: Option<nat>): Rows {
    if key !in t then t
    else if finishedAt.None? then t[key := t[key].(progressPercent := percent)]
    else t[key := t[key].(progressPercent := percent, completedAt := finishedAt, status := Completed)]
  }

  function Apply(t: Rows, a: Action): Rows {
    match a
    case Granted(key, source) => Enter(t, key, source, None)
    case Withdrawn(key, at) => Leave(t, key, at)
    case Recounted(key, percent, finishedAt) => Score(t, key, percent, finishedAt)
    case Consumed(evt, at) =>
      if evt.kind == PaymentCompleted then Enter(t, evt.key, ByPayment, Some(evt.payment)) else Leave(t, evt.key, at)
  }

  function Fold(log: seq<Action>): Rows {
    if log == [] then map[] else Apply(Fold(log[..|log| - 1]), log[|log| - 1])
  }

  lemma FoldSnoc(log: seq<Action>, a: Action)
    ensures Fold(log + [a]) == Apply(Fold(log), a)
  {
    assert (log + [a])[..|log|] == log;
  }

  /** The rows changed as the logged action says, or nothing was logged and none changed. */
  ghost predicate Logged(m: Machine, n: Machine) {
    || (n.log == m.log && n.db.enrollments == m.db.enrollments)
    || (exists a :: n.log == m.log + [a] && n.db.enrollments == Apply(m.db.enrollments, a))
  }

  lemma CommitApplies(m: Machine, i: nat, catalog: map<nat, nat>, now: nat)
    requires i < |m.pending|
    ensures Logged(m, CommitCall(m, i, catalog, now))
  {
    var n := CommitCall(m, i, catalog, now);
    if n.log != m.log {
      var a := n.log[|m.log|];
      assert n.log == m.log + [a];
      assert n.db.enrollments == Apply(m.db.enrollments, a);
    }
  }

  lemma StepApplies(m: Machine, e: Event)
    ensures Logged(m, Next(m, e))
  {
    var n := Next(m, e);
    if e.step.Commit? {
      if e.step.call < |m.pending| {
        CommitApplies(m, e.step.call, e.step.catalog, m.clock + e.wait);
      }
    } else if n.log != m.log {
      var a := n.log[|m.log|];
      assert n.log == m.log + [a];
      assert n.db.enrollments == Apply(m.db.enrollments, a);
    }
  }

  lemma StepFolds(m: Machine, e: Event)
    requires m.db.enrollments == Fold(m.log)
    ensures Next(m, e).db.enrollments == Fold(Next(m, e).log)
  {
    StepApplies(m, e);
    var n := Next(m, e);
    if n.log != m.log {
      var a :| n.log == m.log + [a] && n.db.enrollments == Apply(m.db.enrollments, a);
      FoldSnoc(m.log, a);
    }
  }

  /** Ids of the consumed events, in commit order. */
  function ConsumedIds(log: seq<Action>): seq<nat> {
    if log == [] then []
    else
      var last := log[|log| - 1];
      ConsumedIds(log[..|log| - 1]) + (if last.Consumed? then [last.evt.id] else [])
  }

  predicate Distinct(s: seq<nat>) {
    forall i, j :: 0 <= i < j < |s| ==> s[i] != s[j]
  }

  predicate LedgerAgrees(m: Machine) {
    && Distinct(ConsumedIds(m.log))
    && m.db.ledger == set id | id in ConsumedIds(m.log)
  }

  lemma ConsumedSnoc(log: seq<Action>, a: Action)
    ensures ConsumedIds(log + [a]) == ConsumedIds(log) + (if a.Consumed? then [a.evt.id] else [])
  {
    assert (log + [a])[..|log|] == log;
  }

  /** Only the consumer's transaction touches the ledger, and it logs the id it inserts. */
  lemma StepNotes(m: Machine, e: Event)
    ensures var n := Next(m, e);
      || (n.db.ledger == m.db.ledger && n.log == m.log)
      || exists a :: n.log == m.log + [a] && n.db.ledger == m.db.ledger + (if a.Consumed? then {a.evt.id} else {})
                     && (a.Consumed? ==> a.evt.id !in m.db.ledger)
  {
    var n := Next(m, e);
    if |n.log| > |m.log| {
      var a := n.log[|m.log|];
      assert n.log == m.log + [a];
      if a.Consumed? {
        assert a.evt.id !in m.db.ledger && n.db.ledger == m.db.ledger + {a.evt.id};
      }
    }
  }

  lemma LedgerGrows(log: seq<Action>, ledger: set<nat>, a: Action)
    requires Distinct(ConsumedIds(log)) && ledger == set id | id in ConsumedIds(log)
    requires a.Consumed? ==> a.evt.id !in ledger
    ensures Distinct(ConsumedIds(log + [a]))
    ensures (set id | id in ConsumedIds(log + [a])) == ledger + (if a.Consumed? then {a.evt.id} else {})
  {
    ConsumedSnoc(log, a);
  }

  lemma StepKeepsLedger(m: Machine, e: Event)
    requires LedgerAgrees(m)
    ensures LedgerAgrees(Next(m, e))
  {
    var n := Next(m, e);
    StepNotes(m, e);
    if n.log != m.log {
      var a :| n.log == m.log + [a] && n.db.ledger == m.db.ledger + (if a.Consumed? then {a.evt.id} else {})
        && (a.Consumed? ==> a.evt.id !in m.db.ledger);
      LedgerGrows(m.log, m.db.ledger, a);
    }
  }

  /**
   * For every interleaving, duplication, redelivery and failure: the table is the plain fold of
   * what committed, in commit order, in every column; and every event id took effect at most once.
   */
  lemma {:induction false} TableIsFoldOfLog(run: seq<Event>)
    ensures var m := Run(EMPTY, run); m.db.enrollments == Fold(m.log) && LedgerAgrees(m)
  {
    if run != [] {
      TableIsFoldOfLog(run[..|run| - 1]);
      StepFolds(Run(EMPTY, run[..|run| - 1]), run[|run| - 1]);
      StepKeepsLedger(Run(EMPTY, run[..|run| - 1]), run[|run| - 1]);
    }
  }

  /** A redelivered event changes nothing, whenever its transaction gets to run. */
  lemma RedeliveryIsNoAction(m: Machine, i: nat, catalog: map<nat, nat>, wait: nat)
    requires i < |m.pending| && m.pending[i].Consuming? && m.pending[i].evt.id in ConsumedIds(m.log) && LedgerAgrees(m)
    ensures var n := Next(m, Event(wait, Commit(i, catalog))); n.db == m.db && n.log == m.log
  {
  }
}
