/** runStripeReconciliation itself: two loops that update the counters and the database in place. */
module ReconciliationScript {
  import opened Wrappers
  import opened Reconciliation

  lemma {:induction false} AfterSnoc(db: Db, env: Env, items: seq<Item>, i: nat)
    requires AllPresent(db, items) && i < |items|
    ensures AllPresent(db, items[..i]) && AllPresent(db, items[..i + 1])
    ensures Present(After(db, env, items[..i]), items[i])
    ensures After(db, env, items[..i + 1]) == Step(After(db, env, items[..i]), env, items[i])
    ensures CountResolved(env.stripe, items[..i + 1]) ==
            CountResolved(env.stripe, items[..i]) + if Resolves(env.stripe, items[i]) then 1 else 0
  {
    assert Present(db, items[i]);
    assert items[..i + 1][..i] == items[..i];
  }

  lemma {:induction false} CountConcat(stripe: Stripe, items: seq<Item>, more: seq<Item>)
    ensures CountResolved(stripe, items + more) == CountResolved(stripe, items) + CountResolved(stripe, more)
  {
    if more == [] {
      assert items + more == items;
    } else {
      assert (items + more)[..|items + more| - 1] == items + more[..|more| - 1];
      CountConcat(stripe, items, more[..|more| - 1]);
    }
  }

  /** The inspected rows that Stripe does not settle, in order. */
  function LeftAmbiguous(stripe: Stripe, items: seq<Item>): seq<Item> {
    if items == [] then []
    else
      var last := items[|items| - 1];
      LeftAmbiguous(stripe, items[..|items| - 1]) + if Resolves(stripe, last) then [] else [last]
  }

  lemma {:induction false} LeftAmbiguousSnoc(stripe: Stripe, items: seq<Item>, i: nat)
    requires i < |items|
    ensures LeftAmbiguous(stripe, items[..i + 1]) ==
            LeftAmbiguous(stripe, items[..i]) + if Resolves(stripe, items[i]) then [] else [items[i]]
  {
    assert items[..i + 1][..i] == items[..i];
  }

  lemma {:induction false} LeftAmbiguousConcat(stripe: Stripe, items: seq<Item>, more: seq<Item>)
    ensures LeftAmbiguous(stripe, items + more) == LeftAmbiguous(stripe, items) + LeftAmbiguous(stripe, more)
  {
    if more == [] {
      assert items + more == items;
    } else {
      assert (items + more)[..|items + more| - 1] == items + more[..|more| - 1];
      LeftAmbiguousConcat(stripe, items, more[..|more| - 1]);
    }
  }

  lemma {:induction false} LeftAmbiguousItems(stripe: Stripe, items: seq<Item>)
    ensures forall item :: item in LeftAmbiguous(stripe, items) <==> item in items && !Resolves(stripe, item)
    ensures CountResolved(stripe, items) + |LeftAmbiguous(stripe, items)| == |items|
  {
    if items != [] {
      LeftAmbiguousItems(stripe, items[..|items| - 1]);
      assert items == items[..|items| - 1] + [items[|items| - 1]];
    }
  }

  class Database {
    var payments: map<Id, Payment>
    var refunds: map<Id, Refund>
    var incidents: seq<Incident>
    /** The rows for which the flagging code was entered, in order. */
    ghost var flagged: seq<Item>

    ghost function View(): Db
      reads this
    {
      Db(payments, refunds, incidents)
    }

    constructor (db: Db)
      ensures View() == db && flagged == []
    {
      payments, refunds, incidents, flagged := db.payments, db.refunds, db.incidents, [];
    }

    /** The code after a row that was not auto-resolved. */
    method FlagIncident(env: Env, item: Item)
      modifies this`incidents, this`flagged
      ensures flagged == old(flagged) + [item]
      ensures incidents == Flag(old(incidents), NewIncident(env, item))
      ensures HasOpen(incidents, env.org, item.Pid())
    {
      flagged := flagged + [item];
      var existingIncident := HasOpen(incidents, env.org, item.Pid());
      if !existingIncident {
        incidents := incidents + [NewIncident(env, item)];
        assert IsOpen(incidents[|incidents| - 1], env.org, item.Pid());
      }
    }

    /** The body of the payment loop. */
    method InspectPayment(env: Env, id: Id, payment: Payment) returns (resolved: bool)
      requires id in payments
      modifies this
      ensures View() == Step(old(View()), env, PaymentItem(id, payment))
      ensures resolved <==> Resolves(env.stripe, PaymentItem(id, payment))
      ensures flagged == old(flagged) + if resolved then [] else [PaymentItem(id, payment)]
    {
      if env.stripe.Client? && payment.providerPaymentId != "" {
        var answer := env.stripe.intent(payment.providerPaymentId);
        if answer.Some? {
          var intent := answer.value;
          if intent.status == "succeeded" {
            var amount := if intent.amountReceived != 0 then intent.amountReceived else payment.amountCents;
            payments := payments[id := payments[id].(status := SUCCEEDED, amountCents := amount, updatedAt := env.now)];
            incidents := CloseAll(incidents, env.org, payment.providerPaymentId, PaymentConfirmed);
            return true;
          } else if intent.status == "canceled" {
            payments := payments[id := payments[id].(status := FAILED, updatedAt := env.now)];
            incidents := CloseAll(incidents, env.org, payment.providerPaymentId, PaymentCanceled);
            return true;
          }
        }
      }
      FlagIncident(env, PaymentItem(id, payment));
      resolved := false;
    }

    /** The body of the refund loop. */
    method InspectRefund(env: Env, id: Id, refund: Refund, payment: Payment) returns (resolved: bool)
      requires id in refunds
      modifies this
      ensures View() == Step(old(View()), env, RefundItem(id, refund, payment))
      ensures resolved <==> Resolves(env.stripe, RefundItem(id, refund, payment))
      ensures flagged == old(flagged) + if resolved then [] else [RefundItem(id, refund, payment)]
    {
      if env.stripe.Client? && payment.providerPaymentId != "" {
        var answer := env.stripe.refunds(payment.providerPaymentId);
        if answer.Some? {
          var matched := Match(answer.value, refund.amountCents);
          if matched.Some? && matched.value.status == "succeeded" {
            refunds := refunds[id := refunds[id].(
              status := RefundSucceeded, providerRefundId := Some(matched.value.id),
              processedAt := Some(env.now), updatedAt := env.now)];
            incidents := CloseAll(incidents, env.org, payment.providerPaymentId, RefundConfirmed(matched.value.id));
            return true;
          }
        }
      }
      FlagIncident(env, RefundItem(id, refund, payment));
      resolved := false;
    }

    /** The payment loop. */
    method ReconcilePayments(env: Env, rows: seq<Item>) returns (discrepancies: nat, autoResolved: nat)
      requires AllPresent(View(), rows) && forall i | 0 <= i < |rows| :: rows[i].PaymentItem?
      modifies this
      ensures View() == After(old(View()), env, rows)
      ensures discrepancies == |rows| && autoResolved == CountResolved(env.stripe, rows)
      ensures flagged == old(flagged) + LeftAmbiguous(env.stripe, rows)
    {
      hide Step, After, Resolves, CountResolved, LeftAmbiguous;
      discrepancies, autoResolved := 0, 0;
      ghost var db := View();
      StartOfFold(db, env, rows);
      assert rows[..|rows|] == rows;
      for i := 0 to |rows|
        invariant View() == After(db, env, rows[..i])
        invariant discrepancies == i && autoResolved == CountResolved(env.stripe, rows[..i])
        invariant flagged == old(flagged) + LeftAmbiguous(env.stripe, rows[..i])
      {
        AfterSnoc(db, env, rows, i);
        LeftAmbiguousSnoc(env.stripe, rows, i);
        discrepancies := discrepancies + 1;
        var resolved := InspectPayment(env, rows[i].id, rows[i].payment);
        if resolved { autoResolved := autoResolved + 1; }
      }
    }

    /** The refund loop. */
    method ReconcileRefunds(env: Env, rows: seq<Item>) returns (discrepancies: nat, autoResolved: nat)
      requires AllPresent(View(), rows) && forall i | 0 <= i < |rows| :: rows[i].RefundItem?
      modifies this
      ensures View() == After(old(View()), env, rows)
      ensures discrepancies == |rows| && autoResolved == CountResolved(env.stripe, rows)
      ensures flagged == old(flagged) + LeftAmbiguous(env.stripe, rows)
    {
      hide Step, After, Resolves, CountResolved, LeftAmbiguous;
      discrepancies, autoResolved := 0, 0;
      ghost var db := View();
      StartOfFold(db, env, rows);
      assert rows[..|rows|] == rows;
      for i := 0 to |rows|
        invariant View() == After(db, env, rows[..i])
        invariant discrepancies == i && autoResolved == CountResolved(env.stripe, rows[..i])
        invariant flagged == old(flagged) + LeftAmbiguous(env.stripe, rows[..i])
      {
        AfterSnoc(db, env, rows, i);
        LeftAmbiguousSnoc(env.stripe, rows, i);
        discrepancies := discrepancies + 1;
        var resolved := InspectRefund(env, rows[i].id, rows[i].refund, rows[i].payment);
        if resolved { autoResolved := autoResolved + 1; }
      }
    }

    /** `order` is how the two queries list their rows. Every inspected row is counted as a discrepancy, and
      * is either auto-resolved or enters the flagging code, in the order of inspection.
      */
    method RunStripeReconciliation(env: Env, order: Order)
      returns (discrepanciesCount: nat, autoResolvedCount: nat)
      requires Listing(View(), env, order)
      modifies this
      ensures View() == Run(old(View()), env, order)
      ensures discrepanciesCount == |Inspected(old(View()), env, order)| == |order.payments| + |order.refunds|
      ensures autoResolvedCount == CountResolved(env.stripe, Inspected(old(View()), env, order))
      ensures flagged == old(flagged) + LeftAmbiguous(env.stripe, Inspected(old(View()), env, order))
      ensures discrepanciesCount == autoResolvedCount + |flagged| - |old(flagged)|
    {
      hide After, Resolves, CountResolved, LeftAmbiguous;
      ghost var db := View();
      var ambiguousPayments := PaymentItems(Db(payments, refunds, incidents), order.payments);
      PresentPayments(db, order.payments);
      PaymentPhase(db, env, ambiguousPayments);
      discrepanciesCount, autoResolvedCount := ReconcilePayments(env, ambiguousPayments);

      ghost var db1 := View();
      var ambiguousRefunds := RefundItems(Db(payments, refunds, incidents), order.refunds);
      PresentRefunds(db1, order.refunds);
      var more, moreResolved := ReconcileRefunds(env, ambiguousRefunds);
      discrepanciesCount, autoResolvedCount := discrepanciesCount + more, autoResolvedCount + moreResolved;
      CountConcat(env.stripe, ambiguousPayments, ambiguousRefunds);
      LeftAmbiguousConcat(env.stripe, ambiguousPayments, ambiguousRefunds);
      LeftAmbiguousItems(env.stripe, ambiguousPayments + ambiguousRefunds);
    }
  }

  lemma StartOfFold(db: Db, env: Env, items: seq<Item>)
    requires AllPresent(db, items)
    ensures AllPresent(db, items[..0]) && After(db, env, items[..0]) == db
    ensures CountResolved(env.stripe, items[..0]) == 0 && LeftAmbiguous(env.stripe, items[..0]) == []
  {}
}
