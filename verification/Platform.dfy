/**
 * Payments, the event bus, enrollment and certificates as one system: published events are
 * delivered to enrollment-service any number of times and in any order, and its transactions,
 * lesson completions and certificate claims interleave freely.
 */
module Platform {
  import opened Base
  import opened Enrollments
  import ER = EnrollmentRuns
  import opened AccessHistory
  import opened ProgressRuns
  import Pay = Payments
  import Certs = Certificates

  datatype Claim = Asked(key: Key) | Cleared(key: Key) | Answered

  datatype System = System(pay: Pay.PayDb, learn: ER.Machine, certs: seq<Certs.Certificate>, claims: seq<Claim>)

  datatype Step =
    | PayCall(call: Pay.Call)
    | Redeliver(wait: nat, id: nat)
    | Learn(event: ER.Event)
    | AskCertificate(key: Key)
    | CheckProgress(claim: nat)
    | MintCertificate(claim: nat, year: nat, bytes: seq<nat>)
    | RevokeCertificate(serial: string)

  const EMPTY := System(Pay.PayDb([], []), ER.EMPTY, [], [])

  predicate AccessNotice(n: Pay.Notice) {
    n.AccessOpened? || n.AccessClosed?
  }

  function Letter(id: nat, n: Pay.Notice): Envelope
    requires AccessNotice(n)
  {
    Envelope(id, if n.AccessOpened? then PaymentCompleted else PaymentRefunded, n.key, n.payment)
  }

  /** The one thing a step asks of enrollment-service; only published events reach its consumer. */
  function LearnEvent(s: System, step: Step): Option<ER.Event> {
    match step
    case Redeliver(wait, id) =>
      if id < |s.pay.bus| && AccessNotice(s.pay.bus[id])
      then Some(ER.Event(wait, ER.Deliver(Letter(id, s.pay.bus[id])))) else None
    case Learn(event) => if event.step.Deliver? then None else Some(event)
    case _ => None
  }

  predicate HasCertificate(s: System, key: Key) {
    exists i :: 0 <= i < |s.certs| && s.certs[i].key == key
  }

  /** What certificate-service reads back from enrollment-service before minting. */
  predicate MayClaim(learn: ER.Machine, key: Key) {
    Entitled(learn.db, key, learn.clock) && learn.db.enrollments[key].progressPercent >= 100
  }

  function Next(s: System, step: Step): System {
    var learn := var e := LearnEvent(s, step); if e.Some? then ER.Next(s.learn, e.value) else s.learn;
    match step
    case PayCall(call) => s.(pay := Pay.Serve(s.pay, call))
    case AskCertificate(key) => if HasCertificate(s, key) then s else s.(claims := s.claims + [Asked(key)])
    case CheckProgress(i) =>
      if i < |s.claims| && s.claims[i].Asked? then
        var key := s.claims[i].key;
        s.(claims := s.claims[i := if MayClaim(s.learn, key) then Cleared(key) else Answered])
      else s
    case MintCertificate(i, year, bytes) =>
      if i < |s.claims| && s.claims[i].Cleared? && |bytes| == 12
      then s.(certs := Certs.Mint(s.certs, s.claims[i].key, Certs.NewSerial(year, bytes), s.learn.clock),
        claims := s.claims[i := Answered])
      else s
    case RevokeCertificate(serial) => s.(certs := Certs.Revoke(s.certs, serial, s.learn.clock))
    case _ => s.(learn := learn)
  }

  function Run(run: seq<Step>): System {
    if run == [] then EMPTY else Next(Run(run[..|run| - 1]), run[|run| - 1])
  }

  /** The run as enrollment-service sees it. */
  function Trace(run: seq<Step>): seq<ER.Event> {
    if run == [] then []
    else
      var e := LearnEvent(Run(run[..|run| - 1]), run[|run| - 1]);
      Trace(run[..|run| - 1]) + (if e.Some? then [e.value] else [])
  }

  /** The run as payment-service sees it. */
  function Calls(run: seq<Step>): seq<Pay.Call> {
    if run == [] then []
    else Calls(run[..|run| - 1]) + (if run[|run| - 1].PayCall? then [run[|run| - 1].call] else [])
  }

  lemma NextParts(s: System, step: Step)
    ensures Next(s, step).pay == if step.PayCall? then Pay.Serve(s.pay, step.call) else s.pay
    ensures var e := LearnEvent(s, step);
      Next(s, step).learn == if e.Some? then ER.Next(s.learn, e.value) else s.learn
  {
  }

  lemma {:induction false} LearnIsRun(run: seq<Step>)
    ensures Run(run).learn == ER.Run(ER.EMPTY, Trace(run))
  {
    if run != [] {
      var before, last := run[..|run| - 1], run[|run| - 1];
      LearnIsRun(before);
      NextParts(Run(before), last);
      var e := LearnEvent(Run(before), last);
      if e.Some? {
        RunAppend(ER.EMPTY, Trace(before), [e.value]);
        assert [e.value][..0] == [];
      } else {
        assert Trace(run) == Trace(before);
      }
    }
  }

  lemma {:induction false} PayIsRun(run: seq<Step>)
    ensures Run(run).pay == Pay.ServeAll(Calls(run))
  {
    if run != [] {
      var before, last := run[..|run| - 1], run[|run| - 1];
      PayIsRun(before);
      NextParts(Run(before), last);
      if last.PayCall? {
        assert (Calls(before) + [last.call])[..|Calls(before)|] == Calls(before);
      } else {
        assert Calls(run) == Calls(before);
      }
    }
  }

  // ---- the consumer only ever sees what was published -----------------------------------------------

  predicate Published(bus: seq<Pay.Notice>, evt: Envelope) {
    evt.id < |bus| && AccessNotice(bus[evt.id]) && evt == Letter(evt.id, bus[evt.id])
  }

  predicate PendingPublished(s: System) {
    forall i :: 0 <= i < |s.learn.pending| && s.learn.pending[i].Consuming? ==>
      Published(s.pay.bus, s.learn.pending[i].evt)
  }

  predicate LogPublished(log: seq<ER.Action>, bus: seq<Pay.Notice>) {
    forall i :: 0 <= i < |log| && log[i].Consumed? ==> Published(bus, log[i].evt)
  }

  lemma LearnKeepsEnvelopes(m: ER.Machine, e: ER.Event, bus: seq<Pay.Notice>)
    requires forall i :: 0 <= i < |m.pending| && m.pending[i].Consuming? ==> Published(bus, m.pending[i].evt)
    requires LogPublished(m.log, bus)
    requires e.step.Deliver? ==> Published(bus, e.step.evt)
    ensures var n := ER.Next(m, e);
      && (forall i :: 0 <= i < |n.pending| && n.pending[i].Consuming? ==> Published(bus, n.pending[i].evt))
      && LogPublished(n.log, bus)
  {
  }

  lemma BusGrows(pay: Pay.PayDb, call: Pay.Call)
    ensures pay.bus <= Pay.Serve(pay, call).bus
  {
  }

  lemma {:induction false} ConsumerSeesPublished(run: seq<Step>)
    ensures PendingPublished(Run(run)) && LogPublished(Run(run).learn.log, Run(run).pay.bus)
  {
    if run != [] {
      var before, last := Run(run[..|run| - 1]), run[|run| - 1];
      ConsumerSeesPublished(run[..|run| - 1]);
      var e := LearnEvent(before, last);
      if e.Some? {
        LearnKeepsEnvelopes(before.learn, e.value, before.pay.bus);
      } else if last.PayCall? {
        BusGrows(before.pay, last.call);
      }
    }
  }

  // ---- agreement between payment and access -----------------------------------------------------------

  /** Ids of the events about `key` that took effect, in commit order. */
  function ConsumedFor(log: seq<ER.Action>, key: Key): seq<nat> {
    if log == [] then []
    else
      var a := log[|log| - 1];
      ConsumedFor(log[..|log| - 1], key) + (if a.Consumed? && a.evt.key == key then [a.evt.id] else [])
  }

  /** Ids of the access events about `key`, in publish order. */
  function PublishedFor(bus: seq<Pay.Notice>, key: Key): seq<nat> {
    if bus == [] then []
    else
      var n := bus[|bus| - 1];
      PublishedFor(bus[..|bus| - 1], key) + (if AccessNotice(n) && n.key == key then [|bus| - 1] else [])
  }

  predicate NoAdministration(log: seq<ER.Action>, key: Key) {
    forall i :: 0 <= i < |log| ==> !((log[i].Granted? || log[i].Withdrawn?) && log[i].key == key)
  }

  predicate OpensAccess(bus: seq<Pay.Notice>, id: nat) {
    id < |bus| && bus[id].AccessOpened?
  }

  predicate LastOpens(bus: seq<Pay.Notice>, ids: seq<nat>) {
    ids != [] && OpensAccess(bus, ids[|ids| - 1])
  }

  lemma {:induction false} LastConsumedDecides(log: seq<ER.Action>, bus: seq<Pay.Notice>, key: Key)
    requires NoAdministration(log, key) && LogPublished(log, bus)
    ensures Held(log, key) <==> LastOpens(bus, ConsumedFor(log, key))
  {
    if log != [] {
      var before, a := log[..|log| - 1], log[|log| - 1];
      LastConsumedDecides(before, bus, key);
      assert log == before + [a];
      HeldSnoc(before, a, key);
    }
  }

  lemma {:induction false} LastPublishedIsStatus(bus: seq<Pay.Notice>, key: Key, p: nat)
    requires forall i :: 0 <= i < |bus| ==> (bus[i].key == key <==> bus[i].payment == p)
    ensures match Pay.LastAccess(bus, p)
      case Nothing => PublishedFor(bus, key) == []
      case Opened => LastOpens(bus, PublishedFor(bus, key))
      case Closed => PublishedFor(bus, key) != [] && !LastOpens(bus, PublishedFor(bus, key))
  {
    if bus != [] {
      LastPublishedIsStatus(bus[..|bus| - 1], key, p);
      PublishedInRange(bus[..|bus| - 1], key);
    }
  }

  lemma {:induction false} PublishedInRange(bus: seq<Pay.Notice>, key: Key)
    ensures forall i :: 0 <= i < |PublishedFor(bus, key)| ==> PublishedFor(bus, key)[i] < |bus|
  {
    if bus != [] {
      PublishedInRange(bus[..|bus| - 1], key);
    }
  }

  /**
   * Access is exactly what the last first-time-consumed event says, in any run without
   * administrators, whatever was duplicated, delayed or reordered; unless a completion re-opened it.
   */
  lemma {:induction false} AccessIsLastConsumed(run: seq<Step>, key: Key, now: nat)
    requires NoAdministration(Run(run).learn.log, key)
    ensures var s := Run(run);
      Entitled(s.learn.db, key, now) <==>
        LastOpens(s.pay.bus, ConsumedFor(s.learn.log, key)) || Reopened(s.learn.log, key)
  {
    var s := Run(run);
    LearnIsRun(run);
    ConsumerSeesPublished(run);
    AccessIsDecidedByHistory(Trace(run), key, now);
    LastConsumedDecides(s.learn.log, s.pay.bus, key);
  }

  /**
   * The last event about `key` to take effect is the last one published.  It is so once everything
   * has been consumed in publish order, and whatever older duplicates arrive after that.
   */
  predicate Heard(s: System, key: Key) {
    var consumed, published := ConsumedFor(s.learn.log, key), PublishedFor(s.pay.bus, key);
    if published == [] then consumed == []
    else consumed != [] && consumed[|consumed| - 1] == published[|published| - 1]
  }

  lemma {:induction false} AccessIsLastPublished(run: seq<Step>, key: Key, now: nat)
    requires NoAdministration(Run(run).learn.log, key) && Heard(Run(run), key)
    ensures var s := Run(run);
      Entitled(s.learn.db, key, now) <==>
        LastOpens(s.pay.bus, PublishedFor(s.pay.bus, key)) || Reopened(s.learn.log, key)
  {
    AccessIsLastConsumed(run, key, now);
  }

  predicate OnlyPaymentFor(pay: Pay.PayDb, p: nat, key: Key) {
    p < |pay.payments| && forall q :: 0 <= q < |pay.payments| ==> (pay.payments[q].key == key <==> q == p)
  }

  /**
   * End to end, in every run without an administrator and with one payment for the course, once its
   * last event has been heard: a completed payment means access; a refunded or pending one means
   * none, and a failed one what its last access event says, unless a completion that was let through
   * before has re-opened it.
   */
  lemma {:induction false} PaymentAndAccessAgree(run: seq<Step>, key: Key, p: nat, now: nat)
    requires NoAdministration(Run(run).learn.log, key) && Heard(Run(run), key)
    requires OnlyPaymentFor(Run(run).pay, p, key)
    ensures var s := Run(run);
      && (s.pay.payments[p].status == Pay.Paid && Pay.Truthy(s.pay.payments[p].razorpayId) ==>
            Entitled(s.learn.db, key, now))
      && (s.pay.payments[p].status in {Pay.Refunded, Pay.Pending} ==>
            (Entitled(s.learn.db, key, now) <==> Reopened(s.learn.log, key)))
      && (s.pay.payments[p].status == Pay.Failed ==>
            (Entitled(s.learn.db, key, now) <==>
             Pay.LastAccess(s.pay.bus, p) == Pay.Opened || Reopened(s.learn.log, key)))
  {
    var s := Run(run);
    PayIsRun(run);
    Pay.StatusIsLastAnnounced(Calls(run), p);
    AccessIsLastPublished(run, key, now);
    LastPublishedIsStatus(s.pay.bus, key, p);
  }

  // ---- any number of payments for one course ---------------------------------------------------------

  /** The payment whose access event about `key` was published last. */
  function LastMover(bus: seq<Pay.Notice>, key: Key): (p: Option<nat>)
    ensures p.Some? ==> exists i :: 0 <= i < |bus| && bus[i].payment == p.value && bus[i].key == key
  {
    if bus == [] then None
    else
      var n := bus[|bus| - 1];
      if AccessNotice(n) && n.key == key then Some(n.payment) else LastMover(bus[..|bus| - 1], key)
  }

  lemma {:induction false} LastMoverIsLast(bus: seq<Pay.Notice>, key: Key)
    requires forall i, j :: 0 <= i < |bus| && 0 <= j < |bus| && bus[i].payment == bus[j].payment ==>
      bus[i].key == bus[j].key
    ensures match LastMover(bus, key)
      case None => PublishedFor(bus, key) == []
      case Some(p) => match Pay.LastAccess(bus, p)
        case Nothing => false
        case Opened => LastOpens(bus, PublishedFor(bus, key))
        case Closed => PublishedFor(bus, key) != [] && !LastOpens(bus, PublishedFor(bus, key))
  {
    if bus != [] {
      LastMoverIsLast(bus[..|bus| - 1], key);
      PublishedInRange(bus[..|bus| - 1], key);
    }
  }

  /**
   * With any number of payments of one learner for one course, the one whose access event was
   * published last decides: completed, it means access; refunded, it takes access away although
   * another payment may still be completed.
   */
  lemma {:induction false} LastMoverDecides(run: seq<Step>, key: Key, now: nat)
    requires NoAdministration(Run(run).learn.log, key) && Heard(Run(run), key)
    ensures var s := Run(run);
      match LastMover(s.pay.bus, key)
      case None => Entitled(s.learn.db, key, now) <==> Reopened(s.learn.log, key)
      case Some(p) =>
        && p < |s.pay.payments| && s.pay.payments[p].key == key
        && (s.pay.payments[p].status == Pay.Paid && Pay.Truthy(s.pay.payments[p].razorpayId) ==>
              Entitled(s.learn.db, key, now))
        && (s.pay.payments[p].status == Pay.Refunded ==>
              (Entitled(s.learn.db, key, now) <==> Reopened(s.learn.log, key)))
  {
    var s := Run(run);
    PayIsRun(run);
    var mover := LastMover(s.pay.bus, key);
    Pay.StatusIsLastAnnounced(Calls(run), if mover.Some? then mover.value else 0);
    AccessIsLastPublished(run, key, now);
    LastMoverIsLast(s.pay.bus, key);
  }

  // ---- certificates -----------------------------------------------------------------------------------

  predicate Enrolled(log: seq<ER.Action>, key: Key) {
    exists i :: 0 <= i < |log| && AccessHistory.Opens(log[i], key)
  }

  /** Enrolled at some point, and at or beyond the finish line of a course of `total` lessons. */
  predicate Earned(m: ER.Machine, key: Key, total: nat) {
    && key in m.db.enrollments
    && total > 0
    && 200 * |CompletedLessons(m.db, key)| >= 199 * total
  }

  predicate ClaimsEarned(s: System, key: Key, total: nat) {
    && ((exists i :: 0 <= i < |s.claims| && s.claims[i] == Cleared(key)) ==> Earned(s.learn, key, total))
    && (HasCertificate(s, key) ==> Earned(s.learn, key, total))
  }

  lemma EarnedStays(m: ER.Machine, e: ER.Event, key: Key, total: nat)
    requires RowsExist(m) && Earned(m, key, total)
    ensures Earned(ER.Next(m, e), key, total)
  {
    StepKeepsRows(m, e);
    StepKeepsLessons(m, e, key);
    SubsetSize(CompletedLessons(m.db, key), CompletedLessons(ER.Next(m, e).db, key));
  }

  lemma ClearedIsEarned(m: ER.Machine, key: Key, total: nat)
    requires MayClaim(m, key) && CacheExact(m.db, key, total)
    ensures Earned(m, key, total)
  {
    FinishLine(|CompletedLessons(m.db, key)|, total);
  }

  lemma RevokeKeepsKeys(certs: seq<Certs.Certificate>, serial: string, now: nat)
    ensures var c := Certs.Revoke(certs, serial, now);
      |c| == |certs| && forall i :: 0 <= i < |certs| ==> c[i].key == certs[i].key
  {
  }

  lemma StepKeepsClaims(s: System, step: Step, key: Key, total: nat)
    requires RowsExist(s.learn) && CacheExact(s.learn.db, key, total) && ClaimsEarned(s, key, total)
    ensures ClaimsEarned(Next(s, step), key, total)
  {
    var n := Next(s, step);
    var e := LearnEvent(s, step);
    if e.Some? {
      if Earned(s.learn, key, total) { EarnedStays(s.learn, e.value, key, total); }
    } else if step.CheckProgress? {
      if MayClaim(s.learn, key) { ClearedIsEarned(s.learn, key, total); }
      assert forall i :: 0 <= i < |n.claims| && n.claims[i] == Cleared(key) ==>
        s.claims[i] == Cleared(key) || MayClaim(s.learn, key);
    } else if step.RevokeCertificate? {
      RevokeKeepsKeys(s.certs, step.serial, s.learn.clock);
    } else {
      assert forall i :: 0 <= i < |n.claims| && n.claims[i] == Cleared(key) ==>
        i < |s.claims| && s.claims[i] == Cleared(key);
    }
  }

  /** Enrollment-service once answered that the learner is entitled with a cached percent of 100 or more. */
  ghost predicate Observed(run: seq<Step>, key: Key) {
    exists k :: 0 <= k <= |run| && MayClaim(Run(run[..k]).learn, key)
  }

  predicate ClaimedOrHeld(s: System, key: Key) {
    HasCertificate(s, key) || exists i :: 0 <= i < |s.claims| && s.claims[i] == Cleared(key)
  }

  lemma StepClaims(s: System, step: Step, key: Key)
    requires ClaimedOrHeld(Next(s, step), key)
    ensures ClaimedOrHeld(s, key) || MayClaim(s.learn, key)
  {
    var n := Next(s, step);
    if !HasCertificate(n, key) {
      var i :| 0 <= i < |n.claims| && n.claims[i] == Cleared(key);
      assert i < |s.claims|;
      assert s.claims[i] == Cleared(key) || MayClaim(s.learn, key);
    } else if step.RevokeCertificate? {
      RevokeKeepsKeys(s.certs, step.serial, s.learn.clock);
    }
  }

  lemma {:induction false} ClaimsWereObserved(run: seq<Step>, key: Key)
    requires ClaimedOrHeld(Run(run), key)
    ensures Observed(run, key)
  {
    var before := run[..|run| - 1];
    StepClaims(Run(before), run[|run| - 1], key);
    if ClaimedOrHeld(Run(before), key) {
      ClaimsWereObserved(before, key);
      var k :| 0 <= k <= |before| && MayClaim(Run(before[..k]).learn, key);
      assert before[..k] == run[..k];
    }
  }

  /**
   * In every run, whatever interleaves: a certificate exists only if its learner was observed
   * entitled to the course with a cached percent of at least 100.
   */
  lemma {:induction false} CertificateWasObserved(run: seq<Step>, i: nat)
    requires i < |Run(run).certs|
    ensures var key := Run(run).certs[i].key;
      exists k :: 0 <= k <= |run| && Entitled(Run(run[..k]).learn.db, key, Run(run[..k]).learn.clock)
        && Run(run[..k]).learn.db.enrollments[key].progressPercent >= 100
  {
    var key := Run(run).certs[i].key;
    ClaimsWereObserved(run, key);
    var k :| 0 <= k <= |run| && MayClaim(Run(run[..k]).learn, key);
    assert MayClaim(Run(run[..k]).learn, key);
  }

  lemma FixedPrefix(a: seq<ER.Event>, b: seq<ER.Event>, course: nat, total: nat)
    requires FixedTotal(a + b, course, total)
    ensures FixedTotal(a, course, total)
  {
    assert forall i :: 0 <= i < |a| ==> (a + b)[i] == a[i];
  }

  lemma {:induction false} ClaimsAreEarned(run: seq<Step>, key: Key, total: nat)
    requires FixedTotal(Trace(run), key.course, total)
    ensures ClaimsEarned(Run(run), key, total)
  {
    if run != [] {
      var before := run[..|run| - 1];
      var e := LearnEvent(Run(before), run[|run| - 1]);
      FixedPrefix(Trace(before), if e.Some? then [e.value] else [], key.course, total);
      ClaimsAreEarned(before, key, total);
      LearnIsRun(before);
      CachedPercentIsExact(Trace(before), key, total);
      StepKeepsClaims(Run(before), run[|run| - 1], key, total);
    }
  }

  lemma {:induction false} CertificateTable(run: seq<Step>)
    ensures Certs.OnePerKey(Run(run).certs) && Certs.WellSigned(Run(run).certs)
  {
    if run != [] {
      var s, last := Run(run[..|run| - 1]), run[|run| - 1];
      CertificateTable(run[..|run| - 1]);
      if last.MintCertificate? && last.claim < |s.claims| && s.claims[last.claim].Cleared? && |last.bytes| == 12 {
        Certs.NewSerialIsProper(last.year, last.bytes);
        Certs.MintKeepsTable(s.certs, s.claims[last.claim].key, Certs.NewSerial(last.year, last.bytes), s.learn.clock);
      } else if last.RevokeCertificate? {
        Certs.RevokeKeepsTable(s.certs, last.serial, s.learn.clock);
      }
    }
  }

  lemma {:induction false} RowsComeFromOpenings(run: seq<ER.Event>, key: Key)
    ensures var m := ER.Run(ER.EMPTY, run); key in m.db.enrollments ==> Enrolled(m.log, key)
  {
    if run != [] {
      var before := ER.Run(ER.EMPTY, run[..|run| - 1]);
      var n := ER.Next(before, run[|run| - 1]);
      RowsComeFromOpenings(run[..|run| - 1], key);
      if Enrolled(before.log, key) {
        var i :| 0 <= i < |before.log| && AccessHistory.Opens(before.log[i], key);
        assert before.log <= n.log && n.log[i] == before.log[i];
      } else if key in n.db.enrollments {
        assert |n.log| > |before.log| && AccessHistory.Opens(n.log[|before.log|], key);
      }
    }
  }

  /**
   * A consequence of the two unique keys, which reject the second of two racing inserts: under any
   * interleaving a learner has at most one certificate per course, and no two share a serial.
   */
  lemma {:induction false} CertificatesAreUnique(run: seq<Step>, i: nat, j: nat)
    requires i < |Run(run).certs| && j < |Run(run).certs|
    requires Run(run).certs[i].key == Run(run).certs[j].key || Run(run).certs[i].serial == Run(run).certs[j].serial
    ensures i == j
  {
    CertificateTable(run);
  }

  /**
   * In a run that keeps the lesson count at `total`, the observation amounts to this: the holder was
   * let into the course by a grant or a consumed payment, and the lessons marked complete under the
   * course, whether or not they are in its curriculum, number at least 99.5% of `total`.
   */
  lemma {:induction false} CertificateMeansCompletion(run: seq<Step>, i: nat, total: nat)
    requires i < |Run(run).certs| && FixedTotal(Trace(run), Run(run).certs[i].key.course, total)
    ensures var s := Run(run);
      && Enrolled(s.learn.log, s.certs[i].key)
      && total > 0 && 200 * |CompletedLessons(s.learn.db, s.certs[i].key)| >= 199 * total
  {
    var key := Run(run).certs[i].key;
    ClaimsAreEarned(run, key, total);
    assert HasCertificate(Run(run), key);
    LearnIsRun(run);
    RowsComeFromOpenings(Trace(run), key);
  }

  /**
   * In every run, the public page calls a text valid if and only if it is the serial of an issued,
   * unrevoked certificate, in any spelling that upper-cases to it and with any blanks around it; as
   * printed, in particular.
   */
  lemma {:induction false} IssuedCertificateVerifies(run: seq<Step>, typed: string)
    ensures Certs.Verify(Run(run).certs, typed).Valid? <==>
      exists i :: 0 <= i < |Run(run).certs| && Run(run).certs[i].revokedAt.None?
        && Certs.ReadsAs(typed, Run(run).certs[i].serial)
    ensures forall i :: 0 <= i < |Run(run).certs| && Run(run).certs[i].revokedAt.None? ==>
      Certs.Verify(Run(run).certs, Run(run).certs[i].serial) == Certs.Valid(Run(run).certs[i])
  {
    CertificateTable(run);
    var certs := Run(run).certs;
    assert Certs.ProperSerials(certs);
    Certs.VerifyRecognises(certs, typed);
    forall i | 0 <= i < |certs| && certs[i].revokedAt.None?
      ensures Certs.Verify(certs, certs[i].serial) == Certs.Valid(certs[i])
    {
      Certs.PrintedVerifies(certs, i);
    }
  }

  lemma {:induction false} RunsJoin(a: seq<Step>, e: Step, b: seq<Step>)
    ensures Run(a + [e]) == Next(Run(a), e)
    ensures b != [] ==> Run(a + b) == Next(Run(a + b[..|b| - 1]), b[|b| - 1])
  {
    assert (a + [e])[..|a|] == a;
    if b != [] {
      assert (a + b)[..|a + b| - 1] == a + b[..|b| - 1];
    }
  }

  predicate Revokes(steps: seq<Step>, serial: string) {
    exists k :: 0 <= k < |steps| && steps[k] == RevokeCertificate(serial)
  }

  /** The columns a certificate is issued with. */
  predicate SameIssue(a: Certs.Certificate, b: Certs.Certificate) {
    a.key == b.key && a.serial == b.serial && a.issuedAt == b.issuedAt && a.signature == b.signature
  }

  lemma StepRevokes(s: System, step: Step, i: nat)
    requires i < |s.certs| && Certs.OnePerKey(s.certs)
    ensures var n := Next(s, step);
      && i < |n.certs| && SameIssue(n.certs[i], s.certs[i])
      && (n.certs[i].revokedAt.Some? <==>
            s.certs[i].revokedAt.Some? || step == RevokeCertificate(s.certs[i].serial))
  {
    if step.RevokeCertificate? {
      Certs.RevokeMarks(s.certs, step.serial, s.learn.clock);
    }
  }

  /**
   * In every run an issued certificate keeps its columns, and it is revoked exactly from the first
   * call that revokes its serial on: no other step revokes it, and nothing makes it good again.
   */
  lemma {:induction false} RevokedIffCalledFor(before: seq<Step>, after: seq<Step>, i: nat)
    requires i < |Run(before).certs|
    ensures var was, certs := Run(before).certs[i], Run(before + after).certs;
      && i < |certs| && SameIssue(certs[i], was)
      && (certs[i].revokedAt.Some? <==> was.revokedAt.Some? || Revokes(after, was.serial))
  {
    if after == [] {
      assert before + after == before;
    } else {
      var rest, e := after[..|after| - 1], after[|after| - 1];
      RevokedIffCalledFor(before, rest, i);
      RunsJoin(before, e, after);
      CertificateTable(before + rest);
      StepRevokes(Run(before + rest), e, i);
      assert after == rest + [e];
      assert forall k :: 0 <= k < |rest| ==> rest[k] == after[k];
    }
  }

  /**
   * So the public page's answer to a spelling of its serial is, after any further steps: "revoked" if
   * the certificate was revoked or its revocation is among them, and else that it is valid.
   */
  lemma {:induction false} RevokedNeverVerifies(before: seq<Step>, after: seq<Step>, i: nat, typed: string)
    requires i < |Run(before).certs| && Certs.ReadsAs(typed, Run(before).certs[i].serial)
    ensures var was, certs := Run(before).certs[i], Run(before + after).certs;
      Certs.Verify(certs, typed) ==
      if was.revokedAt.Some? || Revokes(after, was.serial) then Certs.WasRevoked
      else Certs.Valid(was)
  {
    RevokedIffCalledFor(before, after, i);
    CertificateTable(before + after);
    assert Certs.ProperSerials(Run(before + after).certs);
    Certs.VerifyRecognises(Run(before + after).certs, typed);
  }
}
