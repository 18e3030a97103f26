/** What one run of the reconciliation, and repeated runs, keep and reach. */
module ReconciliationLaws {
  import opened Wrappers
  import opened Reconciliation

  // ---------- rows ----------

  predicate IsItemOf(item: Item, isPayment: bool, id: Id) {
    item.PaymentItem? == isPayment && item.id == id
  }

  ghost predicate SomeResolved(stripe: Stripe, items: seq<Item>, isPayment: bool, id: Id) {
    exists i | 0 <= i < |items| :: IsItemOf(items[i], isPayment, id) && Resolves(stripe, items[i])
  }

  lemma SomeResolvedSnoc(stripe: Stripe, items: seq<Item>, isPayment: bool, id: Id)
    requires items != []
    ensures var last := items[|items| - 1];
            SomeResolved(stripe, items, isPayment, id) <==>
            SomeResolved(stripe, items[..|items| - 1], isPayment, id) ||
            (IsItemOf(last, isPayment, id) && Resolves(stripe, last))
  {
    var front := items[..|items| - 1];
    if SomeResolved(stripe, front, isPayment, id) {
      var i :| 0 <= i < |front| && IsItemOf(front[i], isPayment, id) && Resolves(stripe, front[i]);
      assert items[i] == front[i];
    }
    if i :| 0 <= i < |items| && IsItemOf(items[i], isPayment, id) && Resolves(stripe, items[i]) {
      assert i < |front| ==> front[i] == items[i];
    }
  }

  predicate SameIdentity(p: Payment, q: Payment) {
    p.org == q.org && p.provider == q.provider && p.providerPaymentId == q.providerPaymentId &&
    p.appointmentId == q.appointmentId && p.bookingHoldId == q.bookingHoldId
  }

  /** A payment changes only if one of its items resolves, and then to SUCCEEDED or FAILED. */
  lemma {:induction false} PaymentRow(db: Db, env: Env, items: seq<Item>, id: Id)
    requires AllPresent(db, items) && id in db.payments
    ensures !SomeResolved(env.stripe, items, true, id) ==> After(db, env, items).payments[id] == db.payments[id]
    ensures SomeResolved(env.stripe, items, true, id) ==>
              After(db, env, items).payments[id].status in {SUCCEEDED, FAILED}
    ensures SameIdentity(After(db, env, items).payments[id], db.payments[id])
  {
    hide CloseAll, Flag, RefundVerdict, AmbiguousPayment;
    if items != [] {
      PaymentRow(db, env, items[..|items| - 1], id);
      SomeResolvedSnoc(env.stripe, items, true, id);
    }
  }

  lemma {:induction false} RefundRow(db: Db, env: Env, items: seq<Item>, id: Id)
    requires AllPresent(db, items) && id in db.refunds
    ensures !SomeResolved(env.stripe, items, false, id) ==> After(db, env, items).refunds[id] == db.refunds[id]
    ensures SomeResolved(env.stripe, items, false, id) ==> After(db, env, items).refunds[id].status == RefundSucceeded
    ensures After(db, env, items).refunds[id].paymentId == db.refunds[id].paymentId
  {
    if items != [] {
      RefundRow(db, env, items[..|items| - 1], id);
      SomeResolvedSnoc(env.stripe, items, false, id);
    }
  }

  lemma RunKeepsConsistent(db: Db, env: Env, order: Order)
    requires Listing(db, env, order)
    ensures Consistent(Run(db, env, order))
  {
    RunIsFold(db, env, order);
    var db' := Run(db, env, order);
    forall r | r in db'.refunds ensures db'.refunds[r].paymentId in db'.payments {
      RefundRow(db, env, Inspected(db, env, order), r);
    }
  }

  /** The item of an inspected payment, and of an inspected refund. */
  lemma InspectedItems(db: Db, env: Env, order: Order, i: nat)
    requires Listing(db, env, order) && i < |Inspected(db, env, order)|
    ensures var item := Inspected(db, env, order)[i];
            if i < |order.payments| then
              item.id == order.payments[i] && item.id in db.payments &&
              item == PaymentItem(item.id, db.payments[item.id])
            else
              item.RefundItem? && i - |order.payments| < |order.refunds| &&
              item.id == order.refunds[i - |order.payments|] &&
              item.id in db.refunds && item.refund == db.refunds[item.id] &&
              db.refunds[item.id].paymentId in db.payments &&
              SameIdentity(item.payment, db.payments[db.refunds[item.id].paymentId])
  {
    hide After, AmbiguousPayment, AmbiguousRefund, SettledPayment;
    var ps := PaymentItems(db, order.payments);
    PresentPayments(db, order.payments);
    PaymentPhase(db, env, ps);
    if i < |order.payments| {
      assert order.payments[i] in order.payments;
    } else {
      var id := order.refunds[i - |order.payments|];
      assert id in order.refunds;
      PaymentRow(db, env, ps, db.refunds[id].paymentId);
    }
  }

  lemma InspectedSize(db: Db, env: Env, order: Order)
    requires Listing(db, env, order)
    ensures |Inspected(db, env, order)| == |order.payments| + |order.refunds|
  {}

  /** Where a run inspects an ambiguous payment. */
  lemma PaymentIndex(db: Db, env: Env, order: Order, id: Id) returns (i: nat)
    requires Listing(db, env, order) && id in db.payments && AmbiguousPayment(env, db.payments[id])
    ensures i < |order.payments| && i < |Inspected(db, env, order)|
    ensures Inspected(db, env, order)[i] == PaymentItem(id, db.payments[id])
  {
    hide Inspected;
    assert id in order.payments;
    i :| 0 <= i < |order.payments| && order.payments[i] == id;
    InspectedSize(db, env, order);
    InspectedItems(db, env, order, i);
  }

  /** Where a run inspects an ambiguous refund. */
  lemma RefundIndex(db: Db, env: Env, order: Order, id: Id) returns (i: nat)
    requires Listing(db, env, order) && id in db.refunds && AmbiguousRefund(env, db.refunds[id])
    ensures i < |Inspected(db, env, order)|
    ensures db.refunds[id].paymentId in db.payments
    ensures var item := Inspected(db, env, order)[i];
            item == RefundItem(id, db.refunds[id], item.payment) &&
            SameIdentity(item.payment, db.payments[db.refunds[id].paymentId])
  {
    hide Inspected;
    assert id in order.refunds;
    var k :| 0 <= k < |order.refunds| && order.refunds[k] == id;
    i := |order.payments| + k;
    InspectedSize(db, env, order);
    InspectedItems(db, env, order, i);
  }

  /** What is not ambiguous is not inspected. */
  lemma InspectedIsAmbiguous(db: Db, env: Env, order: Order, i: nat)
    requires Listing(db, env, order) && i < |Inspected(db, env, order)|
    ensures var item := Inspected(db, env, order)[i];
            if item.PaymentItem? then item.id in db.payments && AmbiguousPayment(env, db.payments[item.id])
            else item.id in db.refunds && AmbiguousRefund(env, db.refunds[item.id])
  {
    hide Inspected;
    InspectedSize(db, env, order);
    InspectedItems(db, env, order, i);
    if i < |order.payments| {
      assert order.payments[i] in order.payments;
    } else {
      assert order.refunds[i - |order.payments|] in order.refunds;
    }
  }

  /** How Stripe's answer settles a payment: a received amount of 0 keeps the recorded one. */
  function SettledPayment(env: Env, p: Payment): Payment {
    match PaymentVerdict(env.stripe, p)
    case Succeeded(amount) => p.(status := SUCCEEDED, amountCents := amount, updatedAt := env.now)
    case Canceled => p.(status := FAILED, updatedAt := env.now)
    case Unresolved => p
  }

  function SettledRefund(env: Env, r: Refund, p: Payment): Refund {
    match RefundVerdict(env.stripe, r, p)
    case Some(sr) => r.(status := RefundSucceeded, providerRefundId := Some(sr.id),
                        processedAt := Some(env.now), updatedAt := env.now)
    case None => r
  }

  ghost predicate OnlyItem(items: seq<Item>, i: nat) {
    forall j | 0 <= j < |items| && j != i && i < |items| :: !IsItemOf(items[j], items[i].PaymentItem?, items[i].id)
  }

  lemma StepSettlesPayment(db: Db, env: Env, item: Item)
    requires item.PaymentItem? && item.id in db.payments && db.payments[item.id] == item.payment
    ensures Step(db, env, item).payments[item.id] == SettledPayment(env, item.payment)
  {}

  lemma StepSettlesRefund(db: Db, env: Env, item: Item)
    requires item.RefundItem? && item.id in db.refunds && db.refunds[item.id] == item.refund
    ensures Step(db, env, item).refunds[item.id] == SettledRefund(env, item.refund, item.payment)
  {}

  lemma StepLeavesOthers(db: Db, env: Env, item: Item, id: Id)
    requires Present(db, item)
    ensures id in db.payments && !IsItemOf(item, true, id) ==> Step(db, env, item).payments[id] == db.payments[id]
    ensures id in db.refunds && !IsItemOf(item, false, id) ==> Step(db, env, item).refunds[id] == db.refunds[id]
  {}

  lemma {:induction false} OnlyPaymentRow(db: Db, env: Env, items: seq<Item>, i: nat)
    requires AllPresent(db, items) && i < |items| && OnlyItem(items, i)
    requires items[i].PaymentItem? && items[i].id in db.payments && items[i].payment == db.payments[items[i].id]
    ensures After(db, env, items).payments[items[i].id] == SettledPayment(env, items[i].payment)
  {
    hide Step, Resolves, SettledPayment;
    var n := |items| - 1;
    var front := items[..n];
    if i < n {
      OnlyPaymentRow(db, env, front, i);
      StepLeavesOthers(After(db, env, front), env, items[n], items[i].id);
    } else {
      assert !SomeResolved(env.stripe, front, true, items[i].id);
      PaymentRow(db, env, front, items[i].id);
      StepSettlesPayment(After(db, env, front), env, items[n]);
    }
  }

  lemma {:induction false} OnlyRefundRow(db: Db, env: Env, items: seq<Item>, i: nat)
    requires AllPresent(db, items) && i < |items| && OnlyItem(items, i)
    requires items[i].RefundItem? && items[i].id in db.refunds && items[i].refund == db.refunds[items[i].id]
    ensures After(db, env, items).refunds[items[i].id] == SettledRefund(env, items[i].refund, items[i].payment)
  {
    hide Step, Resolves, SettledRefund;
    var n := |items| - 1;
    var front := items[..n];
    if i < n {
      OnlyRefundRow(db, env, front, i);
      StepLeavesOthers(After(db, env, front), env, items[n], items[i].id);
    } else {
      assert !SomeResolved(env.stripe, front, false, items[i].id);
      RefundRow(db, env, front, items[i].id);
      StepSettlesRefund(After(db, env, front), env, items[n]);
    }
  }

  lemma InspectedOnce(db: Db, env: Env, order: Order, i: nat)
    requires Listing(db, env, order) && i < |Inspected(db, env, order)|
    ensures OnlyItem(Inspected(db, env, order), i)
  {
    InspectedItems(db, env, order, i);
    forall j | 0 <= j < |Inspected(db, env, order)| && j != i
      ensures !IsItemOf(Inspected(db, env, order)[j], Inspected(db, env, order)[i].PaymentItem?,
                        Inspected(db, env, order)[i].id)
    {
      InspectedItems(db, env, order, j);
    }
  }

  /** A run settles exactly the ambiguous payments Stripe has an answer for; all others, settled ones
    * among them, stay as they are.
    */
  lemma RunOnPayment(db: Db, env: Env, order: Order, id: Id)
    requires Listing(db, env, order) && id in db.payments
    ensures id in Run(db, env, order).payments
    ensures Run(db, env, order).payments[id] ==
            if AmbiguousPayment(env, db.payments[id]) then SettledPayment(env, db.payments[id]) else db.payments[id]
  {
    hide Run, Inspected, After, Listing, SettledPayment, AmbiguousPayment, Resolves;
    RunIsFold(db, env, order);
    var items := Inspected(db, env, order);
    if AmbiguousPayment(env, db.payments[id]) {
      var i := PaymentIndex(db, env, order, id);
      InspectedOnce(db, env, order, i);
      OnlyPaymentRow(db, env, items, i);
    } else {
      forall i | 0 <= i < |items| ensures !IsItemOf(items[i], true, id) {
        InspectedIsAmbiguous(db, env, order, i);
      }
      PaymentRow(db, env, items, id);
    }
  }

  lemma RunOnRefund(db: Db, env: Env, order: Order, id: Id)
    requires Listing(db, env, order) && id in db.refunds
    ensures id in Run(db, env, order).refunds && db.refunds[id].paymentId in db.payments
    ensures Run(db, env, order).refunds[id] ==
            if AmbiguousRefund(env, db.refunds[id])
            then SettledRefund(env, db.refunds[id], db.payments[db.refunds[id].paymentId]) else db.refunds[id]
  {
    assert Consistent(db);
    hide Run, Inspected, After, Listing, SettledRefund, AmbiguousRefund, Resolves;
    RunIsFold(db, env, order);
    var items := Inspected(db, env, order);
    if AmbiguousRefund(env, db.refunds[id]) {
      var i := RefundIndex(db, env, order, id);
      InspectedOnce(db, env, order, i);
      OnlyRefundRow(db, env, items, i);
      SettledByPid(env, db.refunds[id], items[i].payment, db.payments[db.refunds[id].paymentId]);
    } else {
      forall i | 0 <= i < |items| ensures !IsItemOf(items[i], false, id) {
        InspectedIsAmbiguous(db, env, order, i);
      }
      RefundRow(db, env, items, id);
    }
  }

  /** Stripe is asked by payment id only. */
  lemma SettledByPid(env: Env, r: Refund, p: Payment, q: Payment)
    requires SameIdentity(p, q)
    ensures SettledRefund(env, r, p) == SettledRefund(env, r, q)
  {}

  lemma RunKeepsRowSets(db: Db, env: Env, order: Order)
    requires Listing(db, env, order)
    ensures Run(db, env, order).payments.Keys == db.payments.Keys
    ensures Run(db, env, order).refunds.Keys == db.refunds.Keys
  {
    RunIsFold(db, env, order);
  }

  // ---------- what Stripe's answers do, in their own terms ----------

  /** Once a payment of the organisation with Stripe waits for reconciliation, or is pending for more than 15
    * minutes, "succeeded" makes it SUCCEEDED with the received amount, or its own if that is 0; "canceled"
    * makes it FAILED. Any other payment, and any other outcome of the query, leaves it as it is.
    */
  lemma PaymentOutcome(db: Db, env: Env, order: Order, id: Id)
    requires Listing(db, env, order) && id in db.payments
    ensures id in Run(db, env, order).payments
    ensures var p, p' := db.payments[id], Run(db, env, order).payments[id];
            var ambiguous := p.org == env.org && p.provider == "STRIPE" &&
                             (p.status == REQUIRES_RECONCILIATION ||
                              (p.status == PENDING && env.now - p.updatedAt > 900_000));
            var asked := ambiguous && env.stripe.Client? && |p.providerPaymentId| > 0;
            && (!asked || env.stripe.intent(p.providerPaymentId).None? ==> p' == p)
            && forall status, amount | asked &&
                 env.stripe.intent(p.providerPaymentId) == Some(Intent(status, amount)) ::
                 && SameIdentity(p', p)
                 && (status == "succeeded" ==> p'.status == SUCCEEDED && p'.updatedAt == env.now)
                 && (status == "succeeded" && amount != 0 ==> p'.amountCents == amount)
                 && (status == "succeeded" && amount == 0 ==> p'.amountCents == p.amountCents)
                 && (status == "canceled" ==> p'.status == FAILED && p'.amountCents == p.amountCents &&
                                              p'.updatedAt == env.now)
                 && (status != "succeeded" && status != "canceled" ==> p' == p)
  {
    hide Run, Listing;
    RunOnPayment(db, env, order, id);
  }

  /** The first refund of the list with that amount that succeeded or is pending did succeed, and has this
    * id.
    */
  ghost predicate FirstConfirms(list: seq<StripeRefund>, amountCents: int, refundId: string) {
    exists i | 0 <= i < |list| ::
      list[i] == StripeRefund(refundId, amountCents, "succeeded") &&
      forall j | 0 <= j < i ::
        list[j].amount != amountCents || (list[j].status != "succeeded" && list[j].status != "pending")
  }

  lemma {:induction false} MatchIsFirst(list: seq<StripeRefund>, amountCents: int, refundId: string)
    ensures (Match(list, amountCents).Some? && Match(list, amountCents).value.status == "succeeded" &&
             Match(list, amountCents).value.id == refundId) <==> FirstConfirms(list, amountCents, refundId)
  {
    if list != [] {
      MatchIsFirst(list[1..], amountCents, refundId);
      var head := list[0].amount == amountCents && (list[0].status == "succeeded" || list[0].status == "pending");
      if i :| 0 <= i < |list| && list[i] == StripeRefund(refundId, amountCents, "succeeded") &&
              forall j | 0 <= j < i ::
                list[j].amount != amountCents || (list[j].status != "succeeded" && list[j].status != "pending")
      {
        if i > 0 {
          assert list[1..][i - 1] == list[i];
          assert FirstConfirms(list[1..], amountCents, refundId);
        }
      }
      if !head && FirstConfirms(list[1..], amountCents, refundId) {
        var i :| 0 <= i < |list[1..]| && list[1..][i] == StripeRefund(refundId, amountCents, "succeeded") &&
                 forall j | 0 <= j < i ::
                   list[1..][j].amount != amountCents ||
                   (list[1..][j].status != "succeeded" && list[1..][j].status != "pending");
        forall j | 0 <= j < i + 1
          ensures list[j].amount != amountCents || (list[j].status != "succeeded" && list[j].status != "pending")
        {
          assert j > 0 ==> list[1..][j - 1] == list[j];
        }
        assert list[i + 1] == list[1..][i];
      }
    }
  }

  /** A refund of the organisation that is pending for more than 10 minutes becomes SUCCEEDED under the id of
    * the Stripe refund that confirms it, and stays as it is if there is none; any other refund stays.
    */
  lemma RefundOutcome(db: Db, env: Env, order: Order, id: Id)
    requires Listing(db, env, order) && id in db.refunds
    ensures id in Run(db, env, order).refunds && db.refunds[id].paymentId in db.payments
    ensures var r, r' := db.refunds[id], Run(db, env, order).refunds[id];
            var pid := db.payments[r.paymentId].providerPaymentId;
            var asked := r.org == env.org && r.status == RefundPending && env.now - r.updatedAt > 600_000 &&
                         env.stripe.Client? && |pid| > 0 && env.stripe.refunds(pid).Some?;
            && (!asked ==> r' == r)
            && (asked && (forall x :: !FirstConfirms(env.stripe.refunds(pid).value, r.amountCents, x)) ==> r' == r)
            && forall x | asked && FirstConfirms(env.stripe.refunds(pid).value, r.amountCents, x) ::
                 r' == Refund(r.org, r.paymentId, r.amountCents, RefundSucceeded, env.now, Some(x), Some(env.now))
  {
    hide Run, Match, FirstConfirms, Listing;
    RunOnRefund(db, env, order, id);
    var pid := db.payments[db.refunds[id].paymentId].providerPaymentId;
    if env.stripe.Client? && env.stripe.refunds(pid).Some? {
      var list, amount := env.stripe.refunds(pid).value, db.refunds[id].amountCents;
      forall x ensures FirstConfirms(list, amount, x) <==>
                       Match(list, amount).Some? && Match(list, amount).value.status == "succeeded" &&
                       Match(list, amount).value.id == x
      {
        MatchIsFirst(list, amount, x);
      }
      var m := Match(list, amount);
      if m.Some? && m.value.status == "succeeded" { assert FirstConfirms(list, amount, m.value.id); }
    }
  }

  // ---------- open incidents ----------

  /** Some item of the payment was flagged, and none of its items resolved after that. */
  ghost predicate FlaggedLast(stripe: Stripe, items: seq<Item>, pid: string) {
    exists i | 0 <= i < |items| :: items[i].Pid() == pid && NoneResolvedFrom(stripe, items, i, pid)
  }

  ghost predicate NoneResolvedFrom(stripe: Stripe, items: seq<Item>, from: nat, pid: string) {
    forall j | from <= j < |items| && items[j].Pid() == pid :: !Resolves(stripe, items[j])
  }

  lemma StepOpens(db: Db, env: Env, item: Item, pid: string)
    requires Present(db, item)
    ensures HasOpen(Step(db, env, item).incidents, env.org, pid) <==>
            if item.Pid() == pid then !Resolves(env.stripe, item) else HasOpen(db.incidents, env.org, pid)
  {
    var before, after := db.incidents, Step(db, env, item).incidents;
    if Resolves(env.stripe, item) {
      assert |after| == |before|;
      if item.Pid() != pid && HasOpen(before, env.org, pid) {
        var i :| 0 <= i < |before| && IsOpen(before[i], env.org, pid);
        assert IsOpen(after[i], env.org, pid);
      }
    } else {
      var inc := NewIncident(env, item);
      assert IsOpen(inc, env.org, item.Pid());
      if after == before + [inc] {
        assert after[|before|] == inc;
      }
      if HasOpen(before, env.org, pid) {
        var i :| 0 <= i < |before| && IsOpen(before[i], env.org, pid);
        assert IsOpen(after[i], env.org, pid);
      }
      if HasOpen(after, env.org, pid) {
        var i :| 0 <= i < |after| && IsOpen(after[i], env.org, pid);
        assert i < |before| ==> IsOpen(before[i], env.org, pid);
      }
    }
  }

  lemma NoneResolvedSnoc(stripe: Stripe, items: seq<Item>, from: nat, pid: string)
    requires items != [] && from < |items|
    ensures var last := items[|items| - 1];
            NoneResolvedFrom(stripe, items, from, pid) <==>
            NoneResolvedFrom(stripe, items[..|items| - 1], from, pid) &&
            (last.Pid() == pid ==> !Resolves(stripe, last))
  {
    var front := items[..|items| - 1];
    forall j | from <= j < |front| ensures front[j] == items[j] {}
    if NoneResolvedFrom(stripe, items, from, pid) {
      forall j | from <= j < |front| && front[j].Pid() == pid ensures !Resolves(stripe, front[j]) {
        assert items[j] == front[j];
      }
    }
  }

  lemma FlaggedLastSnoc(stripe: Stripe, items: seq<Item>, pid: string)
    requires items != []
    ensures var last := items[|items| - 1];
            FlaggedLast(stripe, items, pid) <==>
            if last.Pid() == pid then !Resolves(stripe, last) else FlaggedLast(stripe, items[..|items| - 1], pid)
  {
    var n := |items| - 1;
    var front, last := items[..n], items[n];
    if last.Pid() == pid && !Resolves(stripe, last) {
      assert NoneResolvedFrom(stripe, items, n, pid);
    }
    if FlaggedLast(stripe, front, pid) {
      var i :| 0 <= i < |front| && front[i].Pid() == pid && NoneResolvedFrom(stripe, front, i, pid);
      NoneResolvedSnoc(stripe, items, i, pid);
      assert items[i] == front[i];
    }
    if FlaggedLast(stripe, items, pid) {
      var i :| 0 <= i < |items| && items[i].Pid() == pid && NoneResolvedFrom(stripe, items, i, pid);
      NoneResolvedSnoc(stripe, items, i, pid);
      assert i < n ==> front[i] == items[i];
    }
  }

  /** After a fold a payment id has an OPEN incident exactly when its last inspected item was flagged,
    * or it had one before and none of its items resolved.
    */
  lemma {:induction false} OpenAfter(db: Db, env: Env, items: seq<Item>, pid: string)
    requires AllPresent(db, items)
    ensures HasOpen(After(db, env, items).incidents, env.org, pid) <==>
            FlaggedLast(env.stripe, items, pid) ||
            (HasOpen(db.incidents, env.org, pid) && NoneResolvedFrom(env.stripe, items, 0, pid))
  {
    if items != [] {
      var front, last := items[..|items| - 1], items[|items| - 1];
      OpenAfter(db, env, front, pid);
      StepOpens(After(db, env, front), env, last, pid);
      FlaggedLastSnoc(env.stripe, items, pid);
      NoneResolvedSnoc(env.stripe, items, 0, pid);
    }
  }

  /** One run, exactly: a payment id ends with an OPEN incident if and only if some row of it was flagged
    * and none of its rows inspected later was auto-resolved, or it had one before and none was.
    */
  lemma OpenAfterRun(db: Db, env: Env, order: Order, pid: string)
    requires Listing(db, env, order)
    ensures HasOpen(Run(db, env, order).incidents, env.org, pid) <==>
            FlaggedLast(env.stripe, Inspected(db, env, order), pid) ||
            (HasOpen(db.incidents, env.org, pid) && NoneResolvedFrom(env.stripe, Inspected(db, env, order), 0, pid))
  {
    RunIsFold(db, env, order);
    OpenAfter(db, env, Inspected(db, env, order), pid);
  }

  /** At most one OPEN incident per organisation and payment id. */
  ghost predicate UniqueOpen(incidents: seq<Incident>) {
    forall i, j | 0 <= i < j < |incidents| && incidents[i].status == OPEN && incidents[j].status == OPEN ::
      !(incidents[i].org == incidents[j].org && incidents[i].providerPaymentId == incidents[j].providerPaymentId)
  }

  /** Incidents are never removed or reopened, and those of other organisations are never touched. */
  ghost predicate Extends(before: seq<Incident>, after: seq<Incident>, org: Id) {
    && |before| <= |after|
    && (forall i | 0 <= i < |before| && (before[i].org != org || before[i].status != OPEN) :: after[i] == before[i])
    && (forall i | 0 <= i < |before| ::
          after[i] == before[i] || after[i] == before[i].(status := RESOLVED, note := after[i].note))
    && (forall i | |before| <= i < |after| :: after[i].org == org)
  }

  lemma StepIncidents(db: Db, env: Env, item: Item)
    requires Present(db, item)
    ensures UniqueOpen(db.incidents) ==> UniqueOpen(Step(db, env, item).incidents)
    ensures Extends(db.incidents, Step(db, env, item).incidents, env.org)
  {
    var before, after := db.incidents, Step(db, env, item).incidents;
    if UniqueOpen(before) {
      forall i, j | 0 <= i < j < |after| && after[i].status == OPEN && after[j].status == OPEN
        ensures !(after[i].org == after[j].org && after[i].providerPaymentId == after[j].providerPaymentId)
      {
        if j < |before| {
          assert after[i] == before[i] && after[j] == before[j];
        } else {
          assert !IsOpen(before[i], env.org, item.Pid());
        }
      }
    }
  }

  lemma {:induction false} FoldIncidents(db: Db, env: Env, items: seq<Item>)
    requires AllPresent(db, items)
    ensures UniqueOpen(db.incidents) ==> UniqueOpen(After(db, env, items).incidents)
    ensures Extends(db.incidents, After(db, env, items).incidents, env.org)
  {
    if items != [] {
      var front := items[..|items| - 1];
      FoldIncidents(db, env, front);
      StepIncidents(After(db, env, front), env, items[|items| - 1]);
    }
  }

  lemma RunKeepsIncidents(db: Db, env: Env, order: Order)
    requires Listing(db, env, order)
    ensures UniqueOpen(db.incidents) ==> UniqueOpen(Run(db, env, order).incidents)
    ensures Extends(db.incidents, Run(db, env, order).incidents, env.org)
  {
    RunIsFold(db, env, order);
    FoldIncidents(db, env, Inspected(db, env, order));
  }

  // ---------- what incidents say ----------

  /** The incident is about the row: its kind, its payment and what the payment is for. */
  ghost predicate Describes(env: Env, row: Item, inc: Incident) {
    && inc.org == env.org && inc.providerPaymentId == Some(row.payment.providerPaymentId)
    && inc.appointmentId == row.payment.appointmentId
    && inc.kind == (if row.PaymentItem? then UNFINALIZED_PAYMENT else AMBIGUOUS_REFUND)
    && inc.bookingHoldId == (if row.PaymentItem? then row.payment.bookingHoldId else None)
  }

  /** The note of an incident that was made for the row. */
  ghost predicate OpeningNote(row: Item, note: Note) {
    if row.PaymentItem? then note == NeedsReconciliation(row.id, row.payment.status)
    else note == NeedsVerification(row.id, row.refund.paymentId, row.refund.amountCents)
  }

  /** The note with which Stripe's answer about the row closes incidents. */
  ghost predicate ClosingNote(stripe: Stripe, row: Item, note: Note) {
    var pid := row.payment.providerPaymentId;
    stripe.Client? && |pid| > 0 &&
    if row.PaymentItem? then
      stripe.intent(pid).Some? &&
      ((stripe.intent(pid).value.status == "succeeded" && note == PaymentConfirmed) ||
       (stripe.intent(pid).value.status == "canceled" && note == PaymentCanceled))
    else
      stripe.refunds(pid).Some? && note.RefundConfirmed? &&
      FirstConfirms(stripe.refunds(pid).value, row.refund.amountCents, note.stripeRefund)
  }

  ghost predicate Made(env: Env, row: Item, inc: Incident) {
    Describes(env, row, inc) && inc.status == OPEN && OpeningNote(row, inc.note)
  }

  /** b is the incident a after the row of its payment id closed it. */
  ghost predicate Closed(env: Env, row: Item, a: Incident, b: Incident) {
    a.org == env.org && a.status == OPEN && a.providerPaymentId == Some(row.payment.providerPaymentId) &&
    b == a.(status := RESOLVED, note := b.note) && ClosingNote(env.stripe, row, b.note)
  }

  /** One row: every incident stays or is closed by it, and at most one is made, for it. */
  lemma StepExplained(db: Db, env: Env, row: Item)
    requires Present(db, row)
    ensures var before, after := db.incidents, Step(db, env, row).incidents;
            && |before| <= |after| <= |before| + 1
            && (forall k | 0 <= k < |before| :: after[k] == before[k] || Closed(env, row, before[k], after[k]))
            && (|after| > |before| ==> Made(env, row, after[|before|]))
  {
    hide FirstConfirms, Match;
    if row.RefundItem? && env.stripe.Client? && env.stripe.refunds(row.Pid()).Some? {
      var m := Match(env.stripe.refunds(row.Pid()).value, row.refund.amountCents);
      if m.Some? { MatchIsFirst(env.stripe.refunds(row.Pid()).value, row.refund.amountCents, m.value.id); }
    }
  }

  /** The incident was made for one of the rows, and is still open or was closed by a later one. */
  ghost predicate MadeForOne(env: Env, rows: seq<Item>, inc: Incident) {
    exists i | 0 <= i < |rows| ::
      Made(env, rows[i], inc) ||
      exists j, made | i < j < |rows| && Made(env, rows[i], made) :: Closed(env, rows[j], made, inc)
  }

  ghost predicate ClosedByOne(env: Env, rows: seq<Item>, a: Incident, b: Incident) {
    exists i | 0 <= i < |rows| :: Closed(env, rows[i], a, b)
  }

  ghost predicate Explained(env: Env, rows: seq<Item>, before: seq<Incident>, after: seq<Incident>) {
    && |before| <= |after|
    && (forall k | 0 <= k < |before| :: after[k] == before[k] || ClosedByOne(env, rows, before[k], after[k]))
    && (forall k | |before| <= k < |after| :: MadeForOne(env, rows, after[k]))
  }

  lemma MadeForMore(env: Env, rows: seq<Item>, row: Item, a: Incident, b: Incident)
    requires MadeForOne(env, rows, a) && (b == a || Closed(env, row, a, b))
    ensures MadeForOne(env, rows + [row], b)
  {
    hide Made, Closed;
    var more := rows + [row];
    assert more[|rows|] == row;
    var i :| 0 <= i < |rows| &&
             (Made(env, rows[i], a) ||
              exists j, made | i < j < |rows| && Made(env, rows[i], made) :: Closed(env, rows[j], made, a));
    assert more[i] == rows[i];
    if Made(env, rows[i], a) {
      if b != a { assert Closed(env, more[|rows|], a, b); }
    } else {
      var j, made :| i < j < |rows| && Made(env, rows[i], made) && Closed(env, rows[j], made, a);
      assert b == a by { ClosedIsFinal(env, rows[j], row, made, a, b); }
      assert Closed(env, more[j], made, b);
    }
  }

  lemma ClosedIsFinal(env: Env, row: Item, other: Item, a: Incident, b: Incident, c: Incident)
    requires Closed(env, row, a, b) && (c == b || Closed(env, other, b, c))
    ensures c == b
  {}

  lemma {:induction false} FoldExplained(db: Db, env: Env, rows: seq<Item>)
    requires AllPresent(db, rows)
    ensures Explained(env, rows, db.incidents, After(db, env, rows).incidents)
  {
    if rows != [] {
      var n := |rows| - 1;
      var front, row := rows[..n], rows[n];
      FoldExplained(db, env, front);
      StepExplained(After(db, env, front), env, row);
      assert rows == front + [row];
      ExplainedSnoc(env, front, row, db.incidents, After(db, env, front).incidents, After(db, env, rows).incidents);
    }
  }

  lemma ExplainedSnoc(env: Env, rows: seq<Item>, row: Item,
                      before: seq<Incident>, mid: seq<Incident>, after: seq<Incident>)
    requires Explained(env, rows, before, mid) && |mid| <= |after| <= |mid| + 1
    requires forall k | 0 <= k < |mid| :: after[k] == mid[k] || Closed(env, row, mid[k], after[k])
    requires |after| > |mid| ==> Made(env, row, after[|mid|])
    ensures Explained(env, rows + [row], before, after)
  {
    hide Made, Closed, MadeForOne;
    var more := rows + [row];
    assert more[|rows|] == row;
    forall k | 0 <= k < |before| ensures after[k] == before[k] || ClosedByOne(env, more, before[k], after[k]) {
      if ClosedByOne(env, rows, before[k], mid[k]) {
        var i :| 0 <= i < |rows| && Closed(env, rows[i], before[k], mid[k]);
        ClosedIsFinal(env, rows[i], row, before[k], mid[k], after[k]);
        assert Closed(env, more[i], before[k], after[k]);
      } else if after[k] != mid[k] {
        assert Closed(env, more[|rows|], before[k], after[k]);
      }
    }
    forall k | |before| <= k < |after| ensures MadeForOne(env, more, after[k]) {
      if k < |mid| {
        MadeForMore(env, rows, row, mid[k], after[k]);
      } else {
        MadeForLast(env, rows, row, after[k]);
      }
    }
  }

  lemma MadeForLast(env: Env, rows: seq<Item>, row: Item, inc: Incident)
    requires Made(env, row, inc)
    ensures MadeForOne(env, rows + [row], inc)
  {
    assert Made(env, (rows + [row])[|rows|], inc);
  }

  /** What a run does to the incidents, in the terms of the rows it inspects: it closes OPEN ones of payment
    * ids that Stripe settled, with the note of that answer, makes new ones that describe a row, and leaves all
    * others as they are.
    */
  lemma RunExplainsIncidents(db: Db, env: Env, order: Order)
    requires Listing(db, env, order)
    ensures Explained(env, Inspected(db, env, order), db.incidents, Run(db, env, order).incidents)
  {
    RunIsFold(db, env, order);
    FoldExplained(db, env, Inspected(db, env, order));
  }

  // ---------- repeated runs ----------

  /** Stripe settles none of the ambiguous rows. */
  ghost predicate Stuck(db: Db, env: Env) {
    && Consistent(db)
    && (forall id | id in db.payments && AmbiguousPayment(env, db.payments[id]) ::
          PaymentVerdict(env.stripe, db.payments[id]) == Unresolved)
    && (forall id | id in db.refunds && AmbiguousRefund(env, db.refunds[id]) ::
          RefundVerdict(env.stripe, db.refunds[id], db.payments[db.refunds[id].paymentId]).None?)
  }

  /** Every ambiguous row has an OPEN incident for its payment id. */
  ghost predicate AllFlagged(db: Db, env: Env) {
    && Consistent(db)
    && (forall id | id in db.payments && AmbiguousPayment(env, db.payments[id]) ::
          HasOpen(db.incidents, env.org, db.payments[id].providerPaymentId))
    && (forall id | id in db.refunds && AmbiguousRefund(env, db.refunds[id]) ::
          HasOpen(db.incidents, env.org, db.payments[db.refunds[id].paymentId].providerPaymentId))
  }

  lemma FirstRunIsStuck(db: Db, env: Env, order: Order)
    requires Listing(db, env, order)
    ensures Stuck(Run(db, env, order), env)
  {
    hide Run;
    var db' := Run(db, env, order);
    RunKeepsConsistent(db, env, order);
    RunKeepsRowSets(db, env, order);
    forall id | id in db'.payments && AmbiguousPayment(env, db'.payments[id])
      ensures PaymentVerdict(env.stripe, db'.payments[id]) == Unresolved
    {
      RunOnPayment(db, env, order, id);
    }
    forall id | id in db'.refunds && AmbiguousRefund(env, db'.refunds[id])
      ensures RefundVerdict(env.stripe, db'.refunds[id], db'.payments[db'.refunds[id].paymentId]).None?
    {
      RunOnRefund(db, env, order, id);
      RunOnPayment(db, env, order, db.refunds[id].paymentId);
    }
  }

  lemma {:induction false} UnresolvedFold(db: Db, env: Env, items: seq<Item>)
    requires AllPresent(db, items) && forall i | 0 <= i < |items| :: !Resolves(env.stripe, items[i])
    ensures After(db, env, items).payments == db.payments && After(db, env, items).refunds == db.refunds
    ensures (forall i | 0 <= i < |items| :: HasOpen(db.incidents, env.org, items[i].Pid())) ==>
              After(db, env, items).incidents == db.incidents
  {
    if items != [] {
      UnresolvedFold(db, env, items[..|items| - 1]);
    }
  }

  lemma StuckItem(db: Db, env: Env, order: Order, i: nat)
    requires Stuck(db, env) && Listing(db, env, order) && i < |Inspected(db, env, order)|
    ensures !Resolves(env.stripe, Inspected(db, env, order)[i])
    ensures AllFlagged(db, env) ==> HasOpen(db.incidents, env.org, Inspected(db, env, order)[i].Pid())
  {
    hide Inspected, HasOpen;
    InspectedSize(db, env, order);
    InspectedItems(db, env, order, i);
    InspectedIsAmbiguous(db, env, order, i);
  }

  lemma StuckItems(db: Db, env: Env, order: Order)
    requires Stuck(db, env) && Listing(db, env, order)
    ensures forall i | 0 <= i < |Inspected(db, env, order)| :: !Resolves(env.stripe, Inspected(db, env, order)[i])
    ensures AllFlagged(db, env) ==>
              forall i | 0 <= i < |Inspected(db, env, order)| ::
                HasOpen(db.incidents, env.org, Inspected(db, env, order)[i].Pid())
  {
    hide Inspected, Stuck, AllFlagged, Resolves, HasOpen;
    forall i | 0 <= i < |Inspected(db, env, order)|
      ensures !Resolves(env.stripe, Inspected(db, env, order)[i])
      ensures AllFlagged(db, env) ==> HasOpen(db.incidents, env.org, Inspected(db, env, order)[i].Pid())
    {
      StuckItem(db, env, order, i);
    }
  }

  lemma StuckRunChangesNoRow(db: Db, env: Env, order: Order)
    requires Stuck(db, env) && Listing(db, env, order)
    ensures Run(db, env, order).payments == db.payments && Run(db, env, order).refunds == db.refunds
    ensures AllFlagged(db, env) ==> Run(db, env, order) == db
  {
    hide Run, Inspected, After, Stuck, AllFlagged, Listing;
    RunIsFold(db, env, order);
    StuckItems(db, env, order);
    UnresolvedFold(db, env, Inspected(db, env, order));
  }

  lemma StuckPaymentIsFlagged(db: Db, env: Env, order: Order, id: Id)
    requires Stuck(db, env) && Listing(db, env, order)
    requires id in db.payments && AmbiguousPayment(env, db.payments[id])
    ensures HasOpen(Run(db, env, order).incidents, env.org, db.payments[id].providerPaymentId)
  {
    hide Run, Inspected, After, Stuck;
    RunIsFold(db, env, order);
    StuckItems(db, env, order);
    var i := PaymentIndex(db, env, order, id);
    ItemIsFlagged(db, env, Inspected(db, env, order), i);
  }

  lemma StuckRefundIsFlagged(db: Db, env: Env, order: Order, id: Id)
    requires Stuck(db, env) && Listing(db, env, order)
    requires id in db.refunds && AmbiguousRefund(env, db.refunds[id])
    ensures HasOpen(Run(db, env, order).incidents, env.org, db.payments[db.refunds[id].paymentId].providerPaymentId)
  {
    hide Run, Inspected, After, Stuck;
    RunIsFold(db, env, order);
    StuckItems(db, env, order);
    var i := RefundIndex(db, env, order, id);
    ItemIsFlagged(db, env, Inspected(db, env, order), i);
  }

  /** A run that settles nothing flags everything. */
  lemma StuckRunFlagsAll(db: Db, env: Env, order: Order)
    requires Stuck(db, env) && Listing(db, env, order)
    ensures AllFlagged(Run(db, env, order), env)
  {
    hide Run;
    var db' := Run(db, env, order);
    StuckRunChangesNoRow(db, env, order);
    forall id | id in db'.payments && AmbiguousPayment(env, db'.payments[id])
      ensures HasOpen(db'.incidents, env.org, db'.payments[id].providerPaymentId)
    {
      StuckPaymentIsFlagged(db, env, order, id);
    }
    forall id | id in db'.refunds && AmbiguousRefund(env, db'.refunds[id])
      ensures HasOpen(db'.incidents, env.org, db'.payments[db'.refunds[id].paymentId].providerPaymentId)
    {
      StuckRefundIsFlagged(db, env, order, id);
    }
  }

  lemma ItemIsFlagged(db: Db, env: Env, items: seq<Item>, i: nat)
    requires AllPresent(db, items) && i < |items|
    requires forall j | 0 <= j < |items| :: !Resolves(env.stripe, items[j])
    ensures HasOpen(After(db, env, items).incidents, env.org, items[i].Pid())
  {
    OpenAfter(db, env, items, items[i].Pid());
    assert NoneResolvedFrom(env.stripe, items, i, items[i].Pid());
  }

  /** With fixed answers and a fixed clock, in any listing orders: the second run changes no payment and
    * no refund and leaves every ambiguous one with an OPEN incident; the third run changes nothing.
    */
  lemma ThirdRunIsIdle(db: Db, env: Env, first: Order, second: Order, third: Order)
    requires Listing(db, env, first)
    requires Listing(Run(db, env, first), env, second)
    requires Listing(Run(Run(db, env, first), env, second), env, third)
    ensures var db1 := Run(db, env, first);
            var db2 := Run(db1, env, second);
            && db2.payments == db1.payments && db2.refunds == db1.refunds
            && AllFlagged(db2, env)
            && Run(db2, env, third) == db2
  {
    hide Run, Listing, Stuck, AllFlagged;
    var db1 := Run(db, env, first);
    FirstRunIsStuck(db, env, first);
    StuckRunChangesNoRow(db1, env, second);
    StuckRunFlagsAll(db1, env, second);
    FirstRunIsStuck(db1, env, second);
    StuckRunChangesNoRow(Run(db1, env, second), env, third);
  }

  // ---------- when one run is enough ----------

  /** The rows that are still ambiguous after a run are the inspected ones Stripe does not settle. */
  lemma AllFlaggedByItems(db: Db, env: Env, order: Order)
    requires Listing(db, env, order)
    ensures AllFlagged(Run(db, env, order), env) <==>
            forall i | 0 <= i < |Inspected(db, env, order)| && !Resolves(env.stripe, Inspected(db, env, order)[i]) ::
              HasOpen(Run(db, env, order).incidents, env.org, Inspected(db, env, order)[i].Pid())
  {
    hide Run, Inspected, Listing, Resolves, HasOpen;
    var db', items := Run(db, env, order), Inspected(db, env, order);
    if AllFlagged(db', env) {
      forall i | 0 <= i < |items| && !Resolves(env.stripe, items[i])
        ensures HasOpen(db'.incidents, env.org, items[i].Pid())
      {
        UnsettledItemStays(db, env, order, i);
      }
    }
    if forall i | 0 <= i < |items| && !Resolves(env.stripe, items[i]) ::
         HasOpen(db'.incidents, env.org, items[i].Pid())
    {
      RunKeepsConsistent(db, env, order);
      forall id | id in db'.payments && AmbiguousPayment(env, db'.payments[id])
        ensures HasOpen(db'.incidents, env.org, db'.payments[id].providerPaymentId)
      {
        var i := LeftPaymentItem(db, env, order, id);
      }
      forall id | id in db'.refunds && AmbiguousRefund(env, db'.refunds[id])
        ensures HasOpen(db'.incidents, env.org, db'.payments[db'.refunds[id].paymentId].providerPaymentId)
      {
        var i := LeftRefundItem(db, env, order, id);
      }
    }
  }

  /** An inspected row that Stripe does not settle is still ambiguous after the run. */
  lemma UnsettledItemStays(db: Db, env: Env, order: Order, i: nat)
    requires Listing(db, env, order) && i < |Inspected(db, env, order)|
    requires !Resolves(env.stripe, Inspected(db, env, order)[i])
    ensures var db', item := Run(db, env, order), Inspected(db, env, order)[i];
            if item.PaymentItem? then
              item.id in db'.payments && AmbiguousPayment(env, db'.payments[item.id]) &&
              db'.payments[item.id].providerPaymentId == item.Pid()
            else
              item.id in db'.refunds && AmbiguousRefund(env, db'.refunds[item.id]) &&
              db'.refunds[item.id].paymentId in db'.payments &&
              db'.payments[db'.refunds[item.id].paymentId].providerPaymentId == item.Pid()
  {
    hide Run, Inspected;
    var item := Inspected(db, env, order)[i];
    InspectedSize(db, env, order);
    InspectedItems(db, env, order, i);
    InspectedIsAmbiguous(db, env, order, i);
    RunKeepsRowSets(db, env, order);
    if item.PaymentItem? {
      RunOnPayment(db, env, order, item.id);
    } else {
      RunOnRefund(db, env, order, item.id);
      RunOnPayment(db, env, order, db.refunds[item.id].paymentId);
    }
  }

  lemma LeftPaymentItem(db: Db, env: Env, order: Order, id: Id) returns (i: nat)
    requires Listing(db, env, order)
    requires id in Run(db, env, order).payments && AmbiguousPayment(env, Run(db, env, order).payments[id])
    ensures i < |Inspected(db, env, order)| && !Resolves(env.stripe, Inspected(db, env, order)[i])
    ensures Inspected(db, env, order)[i].Pid() == Run(db, env, order).payments[id].providerPaymentId
  {
    hide Run, Inspected;
    RunKeepsRowSets(db, env, order);
    RunOnPayment(db, env, order, id);
    i := PaymentIndex(db, env, order, id);
  }

  lemma LeftRefundItem(db: Db, env: Env, order: Order, id: Id) returns (i: nat)
    requires Listing(db, env, order)
    requires id in Run(db, env, order).refunds && AmbiguousRefund(env, Run(db, env, order).refunds[id])
    ensures i < |Inspected(db, env, order)| && !Resolves(env.stripe, Inspected(db, env, order)[i])
    ensures Run(db, env, order).refunds[id].paymentId in Run(db, env, order).payments
    ensures Inspected(db, env, order)[i].Pid() ==
            Run(db, env, order).payments[Run(db, env, order).refunds[id].paymentId].providerPaymentId
  {
    hide Run, Inspected;
    RunKeepsRowSets(db, env, order);
    RunOnRefund(db, env, order, id);
    RunOnPayment(db, env, order, db.refunds[id].paymentId);
    i := RefundIndex(db, env, order, id);
    SettledByPid(env, db.refunds[id], Inspected(db, env, order)[i].payment, db.payments[db.refunds[id].paymentId]);
  }

  /** Whenever a settled row comes after an unsettled one of the same payment id, yet another unsettled one
    * comes after it and flags the id again.
    */
  ghost predicate FlaggedAgain(stripe: Stripe, items: seq<Item>) {
    forall i, j | 0 <= i < j < |items| && items[i].Pid() == items[j].Pid() &&
                  !Resolves(stripe, items[i]) && Resolves(stripe, items[j]) ::
      exists k | j < k < |items| :: items[k].Pid() == items[j].Pid() && !Resolves(stripe, items[k])
  }

  lemma {:induction false} FlaggedAgainIsLast(stripe: Stripe, items: seq<Item>, i: nat)
    requires FlaggedAgain(stripe, items) && i < |items| && !Resolves(stripe, items[i])
    ensures FlaggedLast(stripe, items, items[i].Pid())
    decreases |items| - i
  {
    var pid := items[i].Pid();
    if !NoneResolvedFrom(stripe, items, i, pid) {
      var j :| i <= j < |items| && items[j].Pid() == pid && Resolves(stripe, items[j]);
      assert i < j;
      var k :| j < k < |items| && items[k].Pid() == items[j].Pid() && !Resolves(stripe, items[k]);
      FlaggedAgainIsLast(stripe, items, k);
    }
  }

  lemma LastIsFlaggedAgain(stripe: Stripe, items: seq<Item>)
    requires forall i | 0 <= i < |items| && !Resolves(stripe, items[i]) :: FlaggedLast(stripe, items, items[i].Pid())
    ensures FlaggedAgain(stripe, items)
  {
    forall i, j | 0 <= i < j < |items| && items[i].Pid() == items[j].Pid() &&
                  !Resolves(stripe, items[i]) && Resolves(stripe, items[j])
      ensures exists k | j < k < |items| :: items[k].Pid() == items[j].Pid() && !Resolves(stripe, items[k])
    {
      var k :| 0 <= k < |items| && items[k].Pid() == items[i].Pid() &&
               NoneResolvedFrom(stripe, items, k, items[i].Pid());
      assert !Resolves(stripe, items[k]);
      assert k > j;
    }
  }

  lemma EnoughByInspected(db: Db, env: Env, order: Order)
    requires Listing(db, env, order)
    ensures AllFlagged(Run(db, env, order), env) <==> FlaggedAgain(env.stripe, Inspected(db, env, order))
  {
    hide Run, Inspected, Listing, Resolves, HasOpen, AllFlagged, FlaggedAgain;
    var items := Inspected(db, env, order);
    AllFlaggedByItems(db, env, order);
    forall i | 0 <= i < |items| && !Resolves(env.stripe, items[i])
      ensures HasOpen(Run(db, env, order).incidents, env.org, items[i].Pid()) <==>
              FlaggedLast(env.stripe, items, items[i].Pid())
    {
      var pid := items[i].Pid();
      OpenAfterRun(db, env, order, pid);
      if NoneResolvedFrom(env.stripe, items, 0, pid) {
        assert NoneResolvedFrom(env.stripe, items, i, pid);
      }
    }
    if FlaggedAgain(env.stripe, items) {
      forall i | 0 <= i < |items| && !Resolves(env.stripe, items[i])
        ensures FlaggedLast(env.stripe, items, items[i].Pid())
      {
        FlaggedAgainIsLast(env.stripe, items, i);
      }
    }
    if forall i | 0 <= i < |items| && !Resolves(env.stripe, items[i]) ::
         FlaggedLast(env.stripe, items, items[i].Pid())
    {
      LastIsFlaggedAgain(env.stripe, items);
    }
  }

  /** The rows a run inspects, as they are before the run. */
  ghost function Listed(db: Db, env: Env, order: Order): seq<Item>
    requires Listing(db, env, order)
  {
    PaymentItems(db, order.payments) + RefundItems(db, order.refunds)
  }

  /** What the payment loop does to a payment changes neither the payment id of its refunds nor Stripe's
    * answer to them.
    */
  lemma InspectedAsListed(db: Db, env: Env, order: Order, i: nat)
    requires Listing(db, env, order) && i < |Inspected(db, env, order)|
    ensures i < |Listed(db, env, order)|
    ensures Inspected(db, env, order)[i].Pid() == Listed(db, env, order)[i].Pid()
    ensures Resolves(env.stripe, Inspected(db, env, order)[i]) <==> Resolves(env.stripe, Listed(db, env, order)[i])
  {
    hide Inspected, AmbiguousPayment, AmbiguousRefund;
    InspectedSize(db, env, order);
    InspectedItems(db, env, order, i);
  }

  lemma FlaggedAgainAlike(stripe: Stripe, items: seq<Item>, others: seq<Item>)
    requires |items| == |others| && FlaggedAgain(stripe, items)
    requires forall i | 0 <= i < |items| :: items[i].Pid() == others[i].Pid()
    requires forall i | 0 <= i < |items| :: Resolves(stripe, items[i]) <==> Resolves(stripe, others[i])
    ensures FlaggedAgain(stripe, others)
  {
    hide Resolves;
    forall i, j | 0 <= i < j < |others| && others[i].Pid() == others[j].Pid() &&
                  !Resolves(stripe, others[i]) && Resolves(stripe, others[j])
      ensures exists k | j < k < |others| :: others[k].Pid() == others[j].Pid() && !Resolves(stripe, others[k])
    {
      assert items[i].Pid() == items[j].Pid() && !Resolves(stripe, items[i]) && Resolves(stripe, items[j]);
      var k :| j < k < |items| && items[k].Pid() == items[j].Pid() && !Resolves(stripe, items[k]);
      assert others[k].Pid() == others[j].Pid() && !Resolves(stripe, others[k]);
    }
  }

  /** One run leaves every row that is still ambiguous with an OPEN incident exactly when, among the rows
    * before the run, each one that Stripe settles after one of the same payment id that it does not settle
    * is followed by yet another it does not settle.
    */
  lemma OneRunIsEnough(db: Db, env: Env, order: Order)
    requires Listing(db, env, order)
    ensures AllFlagged(Run(db, env, order), env) <==> FlaggedAgain(env.stripe, Listed(db, env, order))
  {
    hide Run, Inspected, Listing, Resolves, AllFlagged, FlaggedAgain, Listed;
    var items, rows := Inspected(db, env, order), Listed(db, env, order);
    EnoughByInspected(db, env, order);
    InspectedSize(db, env, order);
    ListedSize(db, env, order);
    forall i | 0 <= i < |items|
      ensures items[i].Pid() == rows[i].Pid() && (Resolves(env.stripe, items[i]) <==> Resolves(env.stripe, rows[i]))
    {
      InspectedAsListed(db, env, order, i);
    }
    if FlaggedAgain(env.stripe, items) { FlaggedAgainAlike(env.stripe, items, rows); }
    if FlaggedAgain(env.stripe, rows) { FlaggedAgainAlike(env.stripe, rows, items); }
  }

  lemma ListedSize(db: Db, env: Env, order: Order)
    requires Listing(db, env, order)
    ensures |Listed(db, env, order)| == |order.payments| + |order.refunds|
  {}

  // ---------- listings exist ----------

  lemma {:induction false} SomeSequence(s: set<Id>) returns (ids: seq<Id>)
    ensures forall i, j | 0 <= i < j < |ids| :: ids[i] != ids[j]
    ensures forall id :: id in ids <==> id in s
  {
    if s == {} {
      ids := [];
    } else {
      var id :| id in s;
      ids := SomeSequence(s - {id});
      ids := [id] + ids;
    }
  }

  /** Every consistent database can be listed, so that runs exist from it. */
  lemma SomeListing(db: Db, env: Env) returns (order: Order)
    requires Consistent(db)
    ensures Listing(db, env, order)
  {
    var ps := SomeSequence(set id | id in db.payments && AmbiguousPayment(env, db.payments[id]));
    var rs := SomeSequence(set id | id in db.refunds && AmbiguousRefund(env, db.refunds[id]));
    order := Order(ps, rs);
  }

  /** From every consistent database there are three successive runs, as `ThirdRunIsIdle` has them. */
  lemma ThreeRunsExist(db: Db, env: Env) returns (first: Order, second: Order, third: Order)
    requires Consistent(db)
    ensures Listing(db, env, first)
    ensures Listing(Run(db, env, first), env, second)
    ensures Listing(Run(Run(db, env, first), env, second), env, third)
  {
    hide Run;
    first := SomeListing(db, env);
    RunKeepsConsistent(db, env, first);
    second := SomeListing(Run(db, env, first), env);
    RunKeepsConsistent(Run(db, env, first), env, second);
    third := SomeListing(Run(Run(db, env, first), env, second), env);
  }

  // ---------- one run is not enough ----------

  const SUCCEEDED_PAYMENT := Payment("org", "STRIPE", "pi", 300, SUCCEEDED, 0, None, None)

  function PendingRefund(amountCents: int): Refund {
    Refund("org", "p", amountCents, RefundPending, 0, None, None)
  }

  /** Two stale refunds of one payment, of which Stripe confirms the second. */
  const TWO_REFUNDS :=
    Db(map["p" := SUCCEEDED_PAYMENT], map["a" := PendingRefund(100), "b" := PendingRefund(200)], [])

  const CONFIRMS_B := Client((pid: string) => None, (pid: string) => Some([StripeRefund("re", 200, "succeeded")]))

  const LATER := Env("org", 1_000_000, CONFIRMS_B)

  /** The first refund stays pending, and the incident flagged for it is closed by the second one. */
  lemma OneRunMayLeaveNoIncident()
    ensures var order := Order([], ["a", "b"]);
            && Listing(TWO_REFUNDS, LATER, order)
            && AmbiguousRefund(LATER, TWO_REFUNDS.refunds["a"])
            && "a" in Run(TWO_REFUNDS, LATER, order).refunds
            && Run(TWO_REFUNDS, LATER, order).refunds["a"] == TWO_REFUNDS.refunds["a"]
            && !HasOpen(Run(TWO_REFUNDS, LATER, order).incidents, "org", "pi")
  {
    hide Run, Inspected;
    var order := Order([], ["a", "b"]);
    TwoRefundsAreListed();
    RunOnRefund(TWO_REFUNDS, LATER, order, "a");
    SecondRefundResolves();
  }

  lemma TwoRefundsAreListed()
    ensures Listing(TWO_REFUNDS, LATER, Order([], ["a", "b"]))
  {}

  lemma SecondRefundResolves()
    requires Listing(TWO_REFUNDS, LATER, Order([], ["a", "b"]))
    ensures !HasOpen(Run(TWO_REFUNDS, LATER, Order([], ["a", "b"])).incidents, "org", "pi")
  {
    hide Run, Inspected, Listing;
    var order := Order([], ["a", "b"]);
    OpenAfterRun(TWO_REFUNDS, LATER, order, "pi");
    InspectedSize(TWO_REFUNDS, LATER, order);
    InspectedItems(TWO_REFUNDS, LATER, order, 1);
    var item := Inspected(TWO_REFUNDS, LATER, order)[1];
    assert item.Pid() == "pi" && Resolves(LATER.stripe, item);
  }

  /** Three stale refunds of one payment, of which Stripe confirms the second. */
  const THREE_REFUNDS :=
    TWO_REFUNDS.(refunds := map["a" := PendingRefund(100), "b" := PendingRefund(200), "c" := PendingRefund(100)])

  /** A row left ambiguous may be followed by a settled one of its payment id and still end with an OPEN
    * incident, when a third row flags the id again.
    */
  lemma ClosedIncidentMayReopen()
    ensures var order := Order([], ["a", "b", "c"]);
            && Listing(THREE_REFUNDS, LATER, order)
            && |Inspected(THREE_REFUNDS, LATER, order)| == 3
            && !Resolves(LATER.stripe, Inspected(THREE_REFUNDS, LATER, order)[0])
            && Resolves(LATER.stripe, Inspected(THREE_REFUNDS, LATER, order)[1])
            && Inspected(THREE_REFUNDS, LATER, order)[0].Pid() == Inspected(THREE_REFUNDS, LATER, order)[1].Pid()
            && AllFlagged(Run(THREE_REFUNDS, LATER, order), LATER)
  {
    hide Run, Inspected, AllFlagged, Listing;
    var order := Order([], ["a", "b", "c"]);
    ThreeRefundsAreListed();
    EnoughByInspected(THREE_REFUNDS, LATER, order);
    InspectedSize(THREE_REFUNDS, LATER, order);
    InspectedItems(THREE_REFUNDS, LATER, order, 0);
    InspectedItems(THREE_REFUNDS, LATER, order, 1);
    InspectedItems(THREE_REFUNDS, LATER, order, 2);
    var items := Inspected(THREE_REFUNDS, LATER, order);
    assert !Resolves(LATER.stripe, items[2]) && items[2].Pid() == "pi";
  }

  lemma ThreeRefundsAreListed()
    ensures Listing(THREE_REFUNDS, LATER, Order([], ["a", "b", "c"]))
  {}
}
