/**
 * The payment service over its table, publishing through the bus object.  Every call keeps every
 * status in step with the last event published about it; each method also states what its caller
 * may rely on.
 */
module PaymentServices {
  import opened Base
  import opened Bus
  import opened Enrollments
  import opened Payments

  predicate PaidUnder(payment: Payment, razorpayId: string) {
    payment.status == Paid && payment.razorpayId == Some(razorpayId)
  }

  /** No payment but `p` holds the id. */
  predicate FreeFor(payments: seq<Payment>, p: nat, razorpayId: string) {
    forall q :: 0 <= q < |payments| && payments[q].razorpayId == Some(razorpayId) ==> q == p
  }

  /** A webhook that carries an id, for a known payment that is not completed, unless the id is another's. */
  predicate Captures(payments: seq<Payment>, order: Option<nat>, razorpayId: Option<string>) {
    && order.Some? && order.value < |payments| && razorpayId.Some? && razorpayId.value != ""
    && payments[order.value].status != Paid && FreeFor(payments, order.value, razorpayId.value)
  }

  /** The webhook carries this payment's id. */
  predicate Names(payment: Payment, razorpayId: Option<string>) {
    razorpayId.Some? && razorpayId.value != "" && payment.razorpayId == razorpayId
  }

  class PaymentService {
    var payments: seq<Payment>
    const bus: EventBus<Notice>

    ghost function Rows(): PayDb
      reads this, bus
    {
      PayDb(payments, bus.sent)
    }

    ghost predicate Valid()
      reads this, bus
    {
      bus.Valid() && Coherent(Rows())
    }

    /** The last access event published about payment `p`. */
    ghost function Announced(p: nat): Last
      reads bus
    {
      LastAccess(bus.sent, p)
    }

    constructor ()
      ensures Valid() && Rows() == PayDb([], []) && fresh(bus)
    {
      payments := [];
      bus := new EventBus<Notice>();
    }

    method CreateOrder(key: Key) returns (p: nat)
      requires Valid()
      modifies this
      ensures Valid() && Rows() == Serve(old(Rows()), Order(key))
      ensures p == |old(payments)| && payments == old(payments) + [Payment(key, Pending, None)]
        && Announced(p) == Nothing
    {
      ServeKeepsCoherent(Rows(), Order(key));
      p := |payments|;
      payments := payments + [Payment(key, Pending, None)];
      assert StatusAnnounced(Rows(), p);
    }

    /** Fails on the unique key; otherwise marks the row and publishes unless the id is empty. */
    method MarkPaid(p: nat, razorpayId: string) returns (ok: bool)
      requires bus.Valid() && p < |payments|
      modifies this, bus
      ensures bus.Valid() && Rows() == Settle(old(Rows()), p, razorpayId)
      ensures ok == !TakenByOther(old(payments), p, razorpayId)
    {
      if exists q :: 0 <= q < |payments| && q != p && payments[q].razorpayId == Some(razorpayId) {
        return false;
      }
      payments := payments[p := payments[p].(razorpayId := Some(razorpayId), status := Paid)];
      if razorpayId != "" {
        var _ := bus.Publish(AccessOpened(p, payments[p].key));
      }
      return true;
    }

    method MarkRefunded(p: nat)
      requires bus.Valid() && p < |payments|
      modifies this, bus
      ensures bus.Valid() && Rows() == Reverse(old(Rows()), p)
    {
      payments := payments[p := payments[p].(status := Refunded)];
      var _ := bus.Publish(AccessClosed(p, payments[p].key));
    }

    method Verify(user: nat, p: nat, orderMatches: bool, razorpayId: string, signature: Signature) returns (ok: bool)
      requires Valid()
      modifies this, bus
      ensures Valid() && Rows() == VerifyPayment(old(Rows()), user, p, orderMatches, razorpayId, signature)
      ensures ok <==> (p < |payments| && payments[p].key.user == user && orderMatches && signature == Genuine
                       && payments[p].status == Paid && payments[p].razorpayId == Some(razorpayId))
      ensures ok <==> (p < |old(payments)| && old(payments)[p].key.user == user && orderMatches && signature == Genuine
                       && (PaidUnder(old(payments)[p], razorpayId) || FreeFor(old(payments), p, razorpayId)))
      ensures ok && razorpayId != "" ==> Announced(p) == Opened
      ensures ok ==> payments == old(payments)[p := Payment(old(payments)[p].key, Paid, Some(razorpayId))]
      ensures !ok ==>
        payments == if p < |old(payments)| && old(payments)[p].key.user == user && orderMatches && signature == Forged
          then old(payments)[p := old(payments)[p].(status := Failed)] else old(payments)
      ensures bus.sent == old(bus.sent) +
        (if ok && !PaidUnder(old(payments)[p], razorpayId) && razorpayId != ""
         then [AccessOpened(p, old(payments)[p].key)] else [])
    {
      ServeKeepsCoherent(Rows(), Payments.Verify(user, p, orderMatches, razorpayId, signature));
      if p >= |payments| || payments[p].key.user != user || !orderMatches || signature == WrongLength {
        return false;
      }
      if signature == Forged {
        payments := payments[p := payments[p].(status := Failed)];
        return false;
      }
      if payments[p].status == Paid && payments[p].razorpayId == Some(razorpayId) {
        assert StatusAnnounced(Rows(), p);
        return true;
      }
      ok := MarkPaid(p, razorpayId);
      assert StatusAnnounced(Rows(), p);
    }

    method Refund(user: nat, p: nat, gatewayAccepts: bool) returns (ok: bool)
      requires Valid()
      modifies this, bus
      ensures Valid() && Rows() == CreateRefund(old(Rows()), user, p, gatewayAccepts)
      ensures ok <==> (p < |old(payments)| && old(payments)[p].key.user == user && old(payments)[p].status == Paid
                       && old(payments)[p].razorpayId.Some? && old(payments)[p].razorpayId.value != ""
                             && gatewayAccepts)
      ensures payments == if ok then old(payments)[p := old(payments)[p].(status := Refunded)] else old(payments)
      ensures bus.sent == old(bus.sent) + (if ok then [AccessClosed(p, old(payments)[p].key)] else [])
      ensures ok ==> Announced(p) == Closed
    {
      ServeKeepsCoherent(Rows(), Payments.Refund(user, p, gatewayAccepts));
      if p >= |payments| || payments[p].key.user != user {
        return false;
      }
      if payments[p].status != Paid || !Truthy(payments[p].razorpayId) || !gatewayAccepts {
        return false;
      }
      MarkRefunded(p);
      return true;
    }

    /** A captured payment ends completed and announced under its id; no other row moves. */
    method HandleCaptured(order: Option<nat>, razorpayId: Option<string>)
      requires Valid()
      modifies this, bus
      ensures Valid() && Rows() == OnCaptured(old(Rows()), order, razorpayId)
      ensures payments == if Captures(old(payments), order, razorpayId)
        then old(payments)[order.value := Payment(old(payments)[order.value].key, Paid, razorpayId)] else old(payments)
      ensures bus.sent == old(bus.sent) +
        (if Captures(old(payments), order, razorpayId)
         then [AccessOpened(order.value, old(payments)[order.value].key)] else [])
      ensures Captures(old(payments), order, razorpayId) ==> Announced(order.value) == Opened
    {
      ServeKeepsCoherent(Rows(), Captured(order, razorpayId));
      if !Truthy(razorpayId) || order.None? {
        return;
      }
      if order.value >= |payments| || payments[order.value].status == Paid {
        return;
      }
      var _ := MarkPaid(order.value, razorpayId.value);
    }

    /** A failure marks any payment but a completed one, and changes nobody's access. */
    method HandleFailed(order: Option<nat>)
      requires Valid()
      modifies this, bus
      ensures Valid() && Rows() == OnFailed(old(Rows()), order)
      ensures |payments| == |old(payments)|
      ensures forall q: nat :: q < |payments| ==>
        payments[q] == if order == Some(q) && old(payments)[q].status != Paid then old(payments)[q].(status := Failed)
          else old(payments)[q]
      ensures forall q: nat :: Announced(q) == old(Announced(q))
      ensures bus.sent == old(bus.sent) +
        (if order.Some? && order.value < |payments| && old(payments)[order.value].status != Paid
         then [PaymentFailed(order.value, old(payments)[order.value].key)] else [])
    {
      ServeKeepsCoherent(Rows(), FailedWebhook(order));
      if order.None? || order.value >= |payments| || payments[order.value].status == Paid {
        return;
      }
      payments := payments[order.value := payments[order.value].(status := Failed)];
      var notice := PaymentFailed(order.value, payments[order.value].key);
      forall q: nat
        ensures LastAccess(bus.sent + [notice], q) == Announced(q)
      {
        LastAccessSnoc(bus.sent, notice, q);
      }
      var _ := bus.Publish(notice);
    }

    /** Whoever holds the id ends refunded and announced; no other row moves. */
    method HandleRefundProcessed(razorpayId: Option<string>)
      requires Valid()
      modifies this, bus
      ensures Valid() && Rows() == OnRefundProcessed(old(Rows()), razorpayId)
      ensures |payments| == |old(payments)|
      ensures forall q: nat :: q < |payments| && Names(old(payments)[q], razorpayId) ==>
        payments[q] == old(payments)[q].(status := Refunded) && Announced(q) == Closed
      ensures forall q: nat :: q < |payments| && !Names(old(payments)[q], razorpayId) ==>
        payments[q] == old(payments)[q]
      ensures (forall q: nat :: q < |payments| && Names(old(payments)[q], razorpayId) ==>
                old(payments)[q].status == Refunded) ==> bus.sent == old(bus.sent)
      ensures forall q: nat :: q < |payments| ==>
        (Names(old(payments)[q], razorpayId) && old(payments)[q].status != Refunded) ==>
          bus.sent == old(bus.sent) + [AccessClosed(q, old(payments)[q].key)]
    {
      ServeKeepsCoherent(Rows(), RefundProcessed(razorpayId));
      if !Truthy(razorpayId) {
        return;
      }
      var p := FindByRazorpayId(payments, razorpayId.value);
      assert forall q: nat :: q < |payments| && payments[q].razorpayId == razorpayId ==> p == Some(q);
      assert p.Some? ==> StatusAnnounced(Rows(), p.value);
      if p.None? || payments[p.value].status == Refunded {
        return;
      }
      MarkRefunded(p.value);
      assert StatusAnnounced(Rows(), p.value);
    }
  }
}
