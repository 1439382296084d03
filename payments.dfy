/** The `payments` table as create-order and verify-payment write it. */
module Payments {
  import opened Clock
  import opened Schema

  predicate PaymentIdInUse(payments: seq<Payment>, paymentId: string)
  {
    exists i :: 0 <= i < |payments| && payments[i].paymentId == paymentId
  }

  /** The UNIQUE constraint on `payments.payment_id`. */
  predicate PaymentIdsUnique(payments: seq<Payment>)
  {
    forall i, j :: 0 <= i < j < |payments| ==> payments[i].paymentId != payments[j].paymentId
  }

  /** The row create-order inserts: payment_id and order_id are both the gateway's order id. */
  function PendingPayment(orderId: string, user: UserId, amount: int, now: Time): Payment
  {
    Payment(orderId, orderId, user, amount, Pending, now)
  }

  /**
   * The UPDATE of verify-payment, keyed by order id: the rows of the order take
   * the gateway's payment id, the caller, the amount, status success and the
   * time now; the other rows stay.
   */
  function MarkPaid(payments: seq<Payment>, orderId: string, paymentId: string, user: UserId, amount: int,
                    now: Time): (r: seq<Payment>)
    ensures |r| == |payments|
    ensures forall i :: 0 <= i < |payments| && payments[i].orderId == orderId ==>
              r[i] == Payment(paymentId, orderId, user, amount, Success, now)
    ensures forall i :: 0 <= i < |payments| && payments[i].orderId != orderId ==> r[i] == payments[i]
  {
    if payments == [] then []
    else
      var head := if payments[0].orderId == orderId then Payment(paymentId, orderId, user, amount, Success, now)
                  else payments[0];
      var tail := MarkPaid(payments[1..], orderId, paymentId, user, amount, now);
      assert forall i :: 1 <= i < |payments| ==> payments[i] == payments[1..][i - 1] && ([head] + tail)[i] == tail[i - 1];
      [head] + tail
  }

  /** A fresh order id keeps payment ids unique. */
  lemma InsertPendingUnique(payments: seq<Payment>, orderId: string, user: UserId, amount: int, now: Time)
    requires PaymentIdsUnique(payments) && !PaymentIdInUse(payments, orderId)
    ensures PaymentIdsUnique(payments + [PendingPayment(orderId, user, amount, now)])
  {
    var t := payments + [PendingPayment(orderId, user, amount, now)];
    forall i, j | 0 <= i < j < |t| ensures t[i].paymentId != t[j].paymentId {
      assert t[i] == payments[i];
      if j < |payments| {
        assert t[j] == payments[j];
      }
    }
  }

  /** Verifying the same payment twice, at the same instant, writes nothing new the second time. */
  lemma MarkPaidIdempotent(payments: seq<Payment>, orderId: string, paymentId: string, user: UserId, amount: int,
                           now: Time)
    ensures var once := MarkPaid(payments, orderId, paymentId, user, amount, now);
      MarkPaid(once, orderId, paymentId, user, amount, now) == once
  {
    var once := MarkPaid(payments, orderId, paymentId, user, amount, now);
    var twice := MarkPaid(once, orderId, paymentId, user, amount, now);
    assert forall i :: 0 <= i < |payments| ==> once[i].orderId == payments[i].orderId;
    assert forall i :: 0 <= i < |payments| ==> twice[i] == once[i];
  }

  /**
   * The pending row of a fresh order becomes a success once its payment is
   * verified, and the other rows of the table are left as they were.
   */
  lemma PendingThenPaid(payments: seq<Payment>, orderId: string, paymentId: string, user: UserId,
                        amount: int, paidAmount: int, created: Time, now: Time)
    requires forall i :: 0 <= i < |payments| ==> payments[i].orderId != orderId
    ensures var t := payments + [PendingPayment(orderId, user, amount, created)];
            var r := MarkPaid(t, orderId, paymentId, user, paidAmount, now);
      && t[|payments|].paymentStatus == Pending
      && r[|payments|] == Payment(paymentId, orderId, user, paidAmount, Success, now)
      && r[..|payments|] == payments
  {
    var t := payments + [PendingPayment(orderId, user, amount, created)];
    var r := MarkPaid(t, orderId, paymentId, user, paidAmount, now);
    assert forall i :: 0 <= i < |payments| ==> t[i] == payments[i] && r[i] == payments[i];
  }
}
