/**
 * Payment-service calls, each a read, a status update and at most one published event.
 *
 * A payment's order id is one-to-one with its row, so a call names the row by position.  The bus
 * mints a fresh id for every event it publishes: an event's id is its position in `bus`.
 */
module Payments {
  import opened Base
  import opened Enrollments

  datatype PayStatus = Pending | Paid | Failed | Refunded

  datatype Payment = Payment(key: Key, status: PayStatus, razorpayId: Option<string>)

  datatype Notice =
    | AccessOpened(payment: nat, key: Key)
    | AccessClosed(payment: nat, key: Key)
    | PaymentFailed(payment: nat, key: Key)

  datatype PayDb = PayDb(payments: seq<Payment>, bus: seq<Notice>)

  /** How the signature in a verification request compares with the expected one. */
  datatype Signature = Genuine | Forged | WrongLength

  datatype Call =
    | Order(key: Key)
    | Verify(user: nat, payment: nat, orderMatches: bool, razorpayId: string, signature: Signature)
    | Refund(user: nat, payment: nat, gatewayAccepts: bool)
    | Captured(order: Option<nat>, entityId: Option<string>)
    | FailedWebhook(order: Option<nat>)
    | RefundProcessed(entityId: Option<string>)

  /** JavaScript's truthiness of a nullable string. */
  predicate Truthy(s: Option<string>) {
    s.Some? && s.value != ""
  }

  /** The unique key on `razorpay_payment_id`. */
  predicate TakenByOther(payments: seq<Payment>, p: nat, razorpayId: string) {
    exists q :: 0 <= q < |payments| && q != p && payments[q].razorpayId == Some(razorpayId)
  }

  function SetStatus(db: PayDb, p: nat, status: PayStatus): PayDb
    requires p < |db.payments|
  {
    db.(payments := db.payments[p := db.payments[p].(status := status)])
  }

  /** Mark `p` paid and publish; without a Razorpay id nothing is published. */
  function Settle(db: PayDb, p: nat, razorpayId: string): PayDb
    requires p < |db.payments|
  {
    if TakenByOther(db.payments, p, razorpayId) then db
    else
      var key := db.payments[p].key;
      PayDb(db.payments[p := Payment(key, Paid, Some(razorpayId))],
            if razorpayId == "" then db.bus else db.bus + [AccessOpened(p, key)])
  }

  function Reverse(db: PayDb, p: nat): PayDb
    requires p < |db.payments|
  {
    SetStatus(db, p, Refunded).(bus := db.bus + [AccessClosed(p, db.payments[p].key)])
  }

  function VerifyPayment(db: PayDb, user: nat, p: nat, orderMatches: bool, razorpayId: string,
      signature: Signature): PayDb {
    if p >= |db.payments| || db.payments[p].key.user != user || !orderMatches || signature == WrongLength then db
    else if signature == Forged then SetStatus(db, p, Failed)
    else if db.payments[p].status == Paid && db.payments[p].razorpayId == Some(razorpayId) then db
    else Settle(db, p, razorpayId)
  }

  function CreateRefund(db: PayDb, user: nat, p: nat, gatewayAccepts: bool): PayDb {
    if p >= |db.payments| || db.payments[p].key.user != user || db.payments[p].status != Paid
       || !Truthy(db.payments[p].razorpayId) || !gatewayAccepts
    then db
    else Reverse(db, p)
  }

  function OnCaptured(db: PayDb, payment: Option<nat>, razorpayId: Option<string>): PayDb {
    if payment.None? || !Truthy(razorpayId) || payment.value >= |db.payments|
      || db.payments[payment.value].status == Paid
    then db
    else Settle(db, payment.value, razorpayId.value)
  }

  function OnFailed(db: PayDb, payment: Option<nat>): PayDb {
    if payment.None? || payment.value >= |db.payments| || db.payments[payment.value].status == Paid then db
    else
      var p := payment.value;
      SetStatus(db, p, Failed).(bus := db.bus + [PaymentFailed(p, db.payments[p].key)])
  }

  /** The row holding a Razorpay id; the unique key makes it the only one. */
  function FindByRazorpayId(payments: seq<Payment>, razorpayId: string): (p: Option<nat>)
    ensures p.Some? ==> p.value < |payments| && payments[p.value].razorpayId == Some(razorpayId)
    ensures p.None? ==> forall q :: 0 <= q < |payments| ==> payments[q].razorpayId != Some(razorpayId)
  {
    if payments == [] then None
    else if payments[|payments| - 1].razorpayId == Some(razorpayId) then Some(|payments| - 1)
    else FindByRazorpayId(payments[..|payments| - 1], razorpayId)
  }

  function OnRefundProcessed(db: PayDb, razorpayId: Option<string>): PayDb {
    if !Truthy(razorpayId) then db
    else
      var p := FindByRazorpayId(db.payments, razorpayId.value);
      if p.None? || db.payments[p.value].status == Refunded then db else Reverse(db, p.value)
  }

  function Serve(db: PayDb, call: Call): PayDb {
    match call
    case Order(key) => db.(payments := db.payments + [Payment(key, Pending, None)])
    case Verify(user, p, orderMatches, razorpayId, signature) =>
      VerifyPayment(db, user, p, orderMatches, razorpayId, signature)
    case Refund(user, p, gatewayAccepts) => CreateRefund(db, user, p, gatewayAccepts)
    case Captured(p, razorpayId) => OnCaptured(db, p, razorpayId)
    case FailedWebhook(p) => OnFailed(db, p)
    case RefundProcessed(razorpayId) => OnRefundProcessed(db, razorpayId)
  }

  function ServeAll(calls: seq<Call>): PayDb {
    if calls == [] then PayDb([], []) else Serve(ServeAll(calls[..|calls| - 1]), calls[|calls| - 1])
  }

  // ---- the last access event of a payment -------------------------------------------------------

  datatype Last = Nothing | Opened | Closed

  function LastAccess(bus: seq<Notice>, p: nat): Last {
    if bus == [] then Nothing
    else
      match bus[|bus| - 1]
      case AccessOpened(q, _) => if q == p then Opened else LastAccess(bus[..|bus| - 1], p)
      case AccessClosed(q, _) => if q == p then Closed else LastAccess(bus[..|bus| - 1], p)
      case PaymentFailed(_, _) => LastAccess(bus[..|bus| - 1], p)
  }

  lemma LastAccessSnoc(bus: seq<Notice>, n: Notice, p: nat)
    ensures LastAccess(bus + [n], p) ==
      match n
      case AccessOpened(q, _) => if q == p then Opened else LastAccess(bus, p)
      case AccessClosed(q, _) => if q == p then Closed else LastAccess(bus, p)
      case PaymentFailed(_, _) => LastAccess(bus, p)
  {
    assert (bus + [n])[..|bus|] == bus;
  }

  predicate StatusAnnounced(db: PayDb, p: nat)
    requires p < |db.payments|
  {
    && (db.payments[p].status == Paid && Truthy(db.payments[p].razorpayId) ==> LastAccess(db.bus, p) == Opened)
    && (db.payments[p].status == Refunded ==> LastAccess(db.bus, p) == Closed)
    && (db.payments[p].status == Pending ==> LastAccess(db.bus, p) == Nothing)
  }

  predicate BusRefers(db: PayDb) {
    forall i :: 0 <= i < |db.bus| ==>
      db.bus[i].payment < |db.payments| && db.bus[i].key == db.payments[db.bus[i].payment].key
  }

  predicate UniqueIds(payments: seq<Payment>) {
    forall p, q | 0 <= p < q < |payments| :: payments[p].razorpayId.None?
      || payments[p].razorpayId != payments[q].razorpayId
  }

  lemma {:induction false} NothingYet(bus: seq<Notice>, p: nat)
    requires forall i :: 0 <= i < |bus| ==> bus[i].payment != p
    ensures LastAccess(bus, p) == Nothing
  {
    if bus != [] {
      NothingYet(bus[..|bus| - 1], p);
    }
  }

  lemma ServeKeepsBus(db: PayDb, call: Call)
    requires BusRefers(db)
    ensures BusRefers(Serve(db, call))
  {
  }

  lemma ServeAnnounces(db: PayDb, call: Call, p: nat)
    requires BusRefers(db) && (p < |db.payments| ==> StatusAnnounced(db, p))
    ensures var db' := Serve(db, call); p < |db'.payments| ==> StatusAnnounced(db', p)
  {
    var db' := Serve(db, call);
    if |db'.bus| > |db.bus| {
      assert db'.bus == db.bus + [db'.bus[|db.bus|]];
      LastAccessSnoc(db.bus, db'.bus[|db.bus|], p);
    }
    if p == |db.payments| {
      NothingYet(db.bus, p);
    }
  }

  lemma ServeKeepsUnique(db: PayDb, call: Call)
    requires UniqueIds(db.payments)
    ensures UniqueIds(Serve(db, call).payments)
  {
  }

  /** What every call keeps: the bus names payments, ids are unique, every status is announced. */
  predicate Coherent(db: PayDb) {
    BusRefers(db) && UniqueIds(db.payments) && forall p :: 0 <= p < |db.payments| ==> StatusAnnounced(db, p)
  }

  lemma ServeKeepsCoherent(db: PayDb, call: Call)
    requires Coherent(db)
    ensures Coherent(Serve(db, call))
  {
    ServeKeepsBus(db, call);
    ServeKeepsUnique(db, call);
    forall p | 0 <= p < |Serve(db, call).payments|
      ensures StatusAnnounced(Serve(db, call), p)
    {
      ServeAnnounces(db, call, p);
    }
  }

  /**
   * In every run of calls, whatever order webhooks and clients come in: a paid payment's last
   * published access event opened access, a refunded one's closed it, a pending one has none.
   */
  lemma {:induction false} StatusIsLastAnnounced(calls: seq<Call>, p: nat)
    ensures var db := ServeAll(calls);
      BusRefers(db) && UniqueIds(db.payments) && (p < |db.payments| ==> StatusAnnounced(db, p))
  {
    if calls != [] {
      StatusIsLastAnnounced(calls[..|calls| - 1], p);
      ServeKeepsBus(ServeAll(calls[..|calls| - 1]), calls[|calls| - 1]);
      ServeAnnounces(ServeAll(calls[..|calls| - 1]), calls[|calls| - 1], p);
      ServeKeepsUnique(ServeAll(calls[..|calls| - 1]), calls[|calls| - 1]);
    }
  }

  /** A forged verification of a completed payment marks it failed and publishes nothing. */
  lemma PaidThenForged(key: Key)
    ensures var db := ServeAll([Order(key), Captured(Some(0), Some("a")), Verify(key.user, 0, true, "a", Forged)]);
      db == PayDb([Payment(key, Failed, Some("a"))], [AccessOpened(0, key)]) && LastAccess(db.bus, 0) == Opened
  {
    var c := [Order(key), Captured(Some(0), Some("a")), Verify(key.user, 0, true, "a", Forged)];
    assert c[..2][..1] == [Order(key)] && [Order(key)][..0] == [];
    assert ServeAll(c[..1]) == PayDb([Payment(key, Pending, None)], []);
    assert ServeAll(c[..2]) == PayDb([Payment(key, Paid, Some("a"))], [AccessOpened(0, key)]);
  }

  // ---- the payment that is paid without an event ------------------------------------------------

  /** Settling announces the payment exactly when the id is not empty, or it was announced already. */
  lemma SettlingAnnouncesIff(db: PayDb, p: nat, razorpayId: string)
    requires p < |db.payments| && !TakenByOther(db.payments, p, razorpayId)
    ensures Settle(db, p, razorpayId).payments[p].status == Paid
    ensures LastAccess(Settle(db, p, razorpayId).bus, p) == Opened <==>
      razorpayId != "" || LastAccess(db.bus, p) == Opened
  {
    LastAccessSnoc(db.bus, AccessOpened(p, db.payments[p].key), p);
  }

  /** A verification that carries an empty payment id leaves a paid payment nobody hears of. */
  lemma PaidWithoutEvent(key: Key)
    ensures ServeAll([Order(key), Verify(key.user, 0, true, "", Genuine)]) == PayDb([Payment(key, Paid, Some(""))], [])
  {
    var calls := [Order(key), Verify(key.user, 0, true, "", Genuine)];
    assert calls[..1] == [Order(key)] && calls[..1][..0] == [];
    assert ServeAll(calls[..1]) == PayDb([Payment(key, Pending, None)], []);
  }

  predicate NamesPayment(call: Call) {
    call.Verify? ==> call.razorpayId != ""
  }

  lemma ServeKeepsIds(db: PayDb, call: Call, p: nat)
    requires NamesPayment(call)
      && (p < |db.payments| && db.payments[p].status == Paid ==> Truthy(db.payments[p].razorpayId))
    ensures var db' := Serve(db, call); p < |db'.payments| && db'.payments[p].status == Paid ==>
      Truthy(db'.payments[p].razorpayId)
  {
  }

  /** When no verification carries an empty id, every paid payment has been announced. */
  lemma {:induction false} PaidIsAnnounced(calls: seq<Call>, p: nat)
    requires forall i :: 0 <= i < |calls| ==> NamesPayment(calls[i])
    ensures var db := ServeAll(calls);
      p < |db.payments| && db.payments[p].status == Paid ==>
        Truthy(db.payments[p].razorpayId) && LastAccess(db.bus, p) == Opened
  {
    StatusIsLastAnnounced(calls, p);
    if calls != [] {
      PaidIsAnnounced(calls[..|calls| - 1], p);
      ServeKeepsIds(ServeAll(calls[..|calls| - 1]), calls[|calls| - 1], p);
    }
  }

  /** Refunding one of two payments for a course closes access last, with the other still paid. */
  lemma SecondPaymentStaysPaid(key: Key)
    ensures ServeAll([Order(key), Order(key), Captured(Some(0), Some("a")), Captured(Some(1), Some("b")),
      Refund(key.user, 0, true)])
      == PayDb([Payment(key, Refunded, Some("a")), Payment(key, Paid, Some("b"))],
               [AccessOpened(0, key), AccessOpened(1, key), AccessClosed(0, key)])
  {
    var c := [Order(key), Order(key), Captured(Some(0), Some("a")), Captured(Some(1), Some("b")),
      Refund(key.user, 0, true)];
    assert c[..4][..3] == c[..3] && c[..3][..2] == c[..2] && c[..2][..1] == [Order(key)] && [Order(key)][..0] == [];
    assert ServeAll(c[..1]) == PayDb([Payment(key, Pending, None)], []);
    assert ServeAll(c[..2]) == PayDb([Payment(key, Pending, None), Payment(key, Pending, None)], []);
    assert ServeAll(c[..3]).payments == [Payment(key, Paid, Some("a")), Payment(key, Pending, None)];
    assert ServeAll(c[..4]).payments == [Payment(key, Paid, Some("a")), Payment(key, Paid, Some("b"))];
  }
}
