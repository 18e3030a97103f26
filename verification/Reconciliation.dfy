/** The Stripe reconciliation run of stripe-reconciliation.ts. The database is three tables, Stripe an
  * oracle, the clock a constant of the run. `findMany` lists its rows in an order of its own.
  */
module Reconciliation {
  import opened Wrappers

  type Id = string

  datatype PaymentStatus =
    PENDING | SUCCEEDED | FAILED | CANCELLED | REQUIRES_RECONCILIATION | REFUNDED | PARTIALLY_REFUNDED

  datatype Payment = Payment(
    org: Id, provider: string, providerPaymentId: string, amountCents: int, status: PaymentStatus,
    updatedAt: int, appointmentId: Option<Id>, bookingHoldId: Option<Id>)

  datatype RefundStatus = RefundPending | RefundSucceeded | RefundFailed

  datatype Refund = Refund(
    org: Id, paymentId: Id, amountCents: int, status: RefundStatus, updatedAt: int,
    providerRefundId: Option<string>, processedAt: Option<int>)

  datatype IncidentStatus = OPEN | RESOLVED | AUTO_REFUNDED

  datatype IncidentKind = UNFINALIZED_PAYMENT | AMBIGUOUS_REFUND | OtherKind

  datatype Note =
    | NeedsReconciliation(payment: Id, status: PaymentStatus)
    | NeedsVerification(refund: Id, ofPayment: Id, amountCents: int)
    | PaymentConfirmed
    | PaymentCanceled
    | RefundConfirmed(stripeRefund: string)
    | OtherNote

  datatype Incident = Incident(
    org: Id, kind: IncidentKind, providerPaymentId: Option<string>, status: IncidentStatus, note: Note,
    appointmentId: Option<Id>, bookingHoldId: Option<Id>)

  datatype Db = Db(payments: map<Id, Payment>, refunds: map<Id, Refund>, incidents: seq<Incident>)

  /** The foreign key of refunds. */
  ghost predicate Consistent(db: Db) {
    forall r | r in db.refunds :: db.refunds[r].paymentId in db.payments
  }

  // ---------- Stripe ----------

  datatype Intent = Intent(status: string, amountReceived: int)

  datatype StripeRefund = StripeRefund(id: string, amount: int, status: string)

  /** Without an API key there is no client. `None` is a query that throws; refund lists are the page
    * of at most ten that Stripe returns.
    */
  datatype Stripe = NoClient | Client(intent: string -> Option<Intent>, refunds: string -> Option<seq<StripeRefund>>)

  datatype Env = Env(org: Id, now: int, stripe: Stripe)

  datatype Verdict = Succeeded(amountCents: int) | Canceled | Unresolved

  function PaymentVerdict(stripe: Stripe, p: Payment): Verdict {
    if stripe.NoClient? || p.providerPaymentId == "" then Unresolved
    else
      match stripe.intent(p.providerPaymentId)
      case None => Unresolved
      case Some(intent) =>
        if intent.status == "succeeded" then
          Succeeded(if intent.amountReceived != 0 then intent.amountReceived else p.amountCents)
        else if intent.status == "canceled" then Canceled
        else Unresolved
  }

  /** `data.find`: the first refund of that amount that succeeded or is pending. */
  function Match(list: seq<StripeRefund>, amountCents: int): Option<StripeRefund> {
    if list == [] then None
    else if list[0].amount == amountCents && (list[0].status == "succeeded" || list[0].status == "pending")
    then Some(list[0])
    else Match(list[1..], amountCents)
  }

  /** The Stripe refund that confirms r. */
  function RefundVerdict(stripe: Stripe, r: Refund, p: Payment): Option<StripeRefund> {
    if stripe.NoClient? || p.providerPaymentId == "" then None
    else
      match stripe.refunds(p.providerPaymentId)
      case None => None
      case Some(list) =>
        var m := Match(list, r.amountCents);
        if m.Some? && m.value.status == "succeeded" then m else None
  }

  // ---------- what a run inspects ----------

  predicate AmbiguousPayment(env: Env, p: Payment) {
    && p.org == env.org
    && p.provider == "STRIPE"
    && (p.status == REQUIRES_RECONCILIATION || (p.status == PENDING && p.updatedAt < env.now - 15 * 60 * 1000))
  }

  predicate AmbiguousRefund(env: Env, r: Refund) {
    r.org == env.org && r.status == RefundPending && r.updatedAt < env.now - 10 * 60 * 1000
  }

  /** A row as `findMany` returned it; a refund comes with its payment. */
  datatype Item =
    | PaymentItem(id: Id, payment: Payment)
    | RefundItem(id: Id, refund: Refund, payment: Payment)
  {
    function Pid(): string {
      payment.providerPaymentId
    }
  }

  predicate Resolves(stripe: Stripe, item: Item) {
    match item
    case PaymentItem(_, p) => PaymentVerdict(stripe, p) != Unresolved
    case RefundItem(_, r, p) => RefundVerdict(stripe, r, p).Some?
  }

  /** ids lists the ambiguous rows, each once. */
  ghost predicate ListsPayments(db: Db, env: Env, ids: seq<Id>) {
    && (forall i, j | 0 <= i < j < |ids| :: ids[i] != ids[j])
    && (forall id :: id in ids <==> id in db.payments && AmbiguousPayment(env, db.payments[id]))
  }

  ghost predicate ListsRefunds(db: Db, env: Env, ids: seq<Id>) {
    && (forall i, j | 0 <= i < j < |ids| :: ids[i] != ids[j])
    && (forall id :: id in ids <==> id in db.refunds && AmbiguousRefund(env, db.refunds[id]))
  }

  function PaymentItems(db: Db, ids: seq<Id>): (r: seq<Item>)
    requires forall id | id in ids :: id in db.payments
    ensures |r| == |ids|
    ensures forall i | 0 <= i < |ids| :: r[i] == PaymentItem(ids[i], db.payments[ids[i]])
  {
    seq(|ids|, i requires 0 <= i < |ids| =>
      assert ids[i] in ids;
      PaymentItem(ids[i], db.payments[ids[i]]))
  }

  function RefundItems(db: Db, ids: seq<Id>): (r: seq<Item>)
    requires forall id | id in ids :: id in db.refunds && db.refunds[id].paymentId in db.payments
    ensures |r| == |ids|
    ensures forall i | 0 <= i < |ids| ::
              r[i] == RefundItem(ids[i], db.refunds[ids[i]], db.payments[db.refunds[ids[i]].paymentId])
  {
    seq(|ids|, i requires 0 <= i < |ids| =>
      assert ids[i] in ids;
      RefundItem(ids[i], db.refunds[ids[i]], db.payments[db.refunds[ids[i]].paymentId]))
  }

  // ---------- one item ----------

  predicate IsOpen(inc: Incident, org: Id, pid: string) {
    inc.org == org && inc.providerPaymentId == Some(pid) && inc.status == OPEN
  }

  predicate HasOpen(incidents: seq<Incident>, org: Id, pid: string) {
    exists i | 0 <= i < |incidents| :: IsOpen(incidents[i], org, pid)
  }

  /** `updateMany` on the OPEN incidents of a payment. */
  function CloseAll(incidents: seq<Incident>, org: Id, pid: string, note: Note): (r: seq<Incident>)
    ensures |r| == |incidents|
    ensures forall i | 0 <= i < |r| ::
              r[i] == if IsOpen(incidents[i], org, pid) then incidents[i].(status := RESOLVED, note := note)
                      else incidents[i]
  {
    seq(|incidents|, i requires 0 <= i < |incidents| =>
      if IsOpen(incidents[i], org, pid) then incidents[i].(status := RESOLVED, note := note) else incidents[i])
  }

  /** Create an incident unless one is open for the payment. */
  function Flag(incidents: seq<Incident>, incident: Incident): seq<Incident>
    requires incident.providerPaymentId.Some?
  {
    if HasOpen(incidents, incident.org, incident.providerPaymentId.value) then incidents
    else incidents + [incident]
  }

  function NewIncident(env: Env, item: Item): Incident {
    match item
    case PaymentItem(id, p) =>
      Incident(env.org, UNFINALIZED_PAYMENT, Some(p.providerPaymentId), OPEN, NeedsReconciliation(id, p.status),
               p.appointmentId, p.bookingHoldId)
    case RefundItem(id, r, p) =>
      Incident(env.org, AMBIGUOUS_REFUND, Some(p.providerPaymentId), OPEN,
               NeedsVerification(id, r.paymentId, r.amountCents), p.appointmentId, None)
  }

  ghost predicate Present(db: Db, item: Item) {
    if item.PaymentItem? then item.id in db.payments else item.id in db.refunds
  }

  function Step(db: Db, env: Env, item: Item): (r: Db)
    requires Present(db, item)
    ensures r.payments.Keys == db.payments.Keys && r.refunds.Keys == db.refunds.Keys
  {
    match item
    case PaymentItem(id, p) =>
      var row := db.payments[id];
      (match PaymentVerdict(env.stripe, p)
       case Succeeded(amount) =>
         db.(payments := db.payments[id := row.(status := SUCCEEDED, amountCents := amount, updatedAt := env.now)],
             incidents := CloseAll(db.incidents, env.org, p.providerPaymentId, PaymentConfirmed))
       case Canceled =>
         db.(payments := db.payments[id := row.(status := FAILED, updatedAt := env.now)],
             incidents := CloseAll(db.incidents, env.org, p.providerPaymentId, PaymentCanceled))
       case Unresolved =>
         db.(incidents := Flag(db.incidents, NewIncident(env, item))))
    case RefundItem(id, r, p) =>
      var confirmed := RefundVerdict(env.stripe, r, p);
      if confirmed.Some? then
        db.(refunds := db.refunds[id := db.refunds[id].(
              status := RefundSucceeded, providerRefundId := Some(confirmed.value.id),
              processedAt := Some(env.now), updatedAt := env.now)],
            incidents := CloseAll(db.incidents, env.org, p.providerPaymentId, RefundConfirmed(confirmed.value.id)))
      else
        db.(incidents := Flag(db.incidents, NewIncident(env, item)))
  }

  ghost predicate AllPresent(db: Db, items: seq<Item>) {
    forall i | 0 <= i < |items| :: Present(db, items[i])
  }

  function After(db: Db, env: Env, items: seq<Item>): (r: Db)
    requires AllPresent(db, items)
    ensures r.payments.Keys == db.payments.Keys && r.refunds.Keys == db.refunds.Keys
  {
    if items == [] then db
    else Step(After(db, env, items[..|items| - 1]), env, items[|items| - 1])
  }

  function CountResolved(stripe: Stripe, items: seq<Item>): nat {
    if items == [] then 0
    else CountResolved(stripe, items[..|items| - 1]) + if Resolves(stripe, items[|items| - 1]) then 1 else 0
  }

  // ---------- a whole run ----------

  /** The order in which a run lists its rows. */
  datatype Order = Order(payments: seq<Id>, refunds: seq<Id>)

  ghost predicate Listing(db: Db, env: Env, order: Order) {
    Consistent(db) && ListsPayments(db, env, order.payments) && ListsRefunds(db, env, order.refunds)
  }

  ghost function AfterPayments(db: Db, env: Env, order: Order): Db
    requires Listing(db, env, order)
  {
    PresentPayments(db, order.payments);
    After(db, env, PaymentItems(db, order.payments))
  }

  lemma PresentPayments(db: Db, ids: seq<Id>)
    requires forall id | id in ids :: id in db.payments
    ensures AllPresent(db, PaymentItems(db, ids))
  {}

  lemma PresentRefunds(db: Db, ids: seq<Id>)
    requires forall id | id in ids :: id in db.refunds && db.refunds[id].paymentId in db.payments
    ensures AllPresent(db, RefundItems(db, ids))
  {}

  /** The rows a run inspects, as it saw them: first payments, then refunds. */
  ghost function Inspected(db: Db, env: Env, order: Order): seq<Item>
    requires Listing(db, env, order)
  {
    var db1 := AfterPayments(db, env, order);
    PaymentPhase(db, env, PaymentItems(db, order.payments));
    PaymentItems(db, order.payments) + RefundItems(db1, order.refunds)
  }

  ghost function Run(db: Db, env: Env, order: Order): Db
    requires Listing(db, env, order)
  {
    var db1 := AfterPayments(db, env, order);
    PaymentPhase(db, env, PaymentItems(db, order.payments));
    PresentRefunds(db1, order.refunds);
    After(db1, env, RefundItems(db1, order.refunds))
  }

  /** The payment loop leaves refunds alone. */
  lemma {:induction false} PaymentPhase(db: Db, env: Env, items: seq<Item>)
    requires AllPresent(db, items) && forall i | 0 <= i < |items| :: items[i].PaymentItem?
    ensures After(db, env, items).refunds == db.refunds
  {
    if items != [] {
      PaymentPhase(db, env, items[..|items| - 1]);
    }
  }

  lemma {:induction false} AfterConcat(db: Db, env: Env, items: seq<Item>, more: seq<Item>)
    requires AllPresent(db, items) && AllPresent(db, items + more)
    ensures AllPresent(After(db, env, items), more)
    ensures After(db, env, items + more) == After(After(db, env, items), env, more)
  {
    forall i | 0 <= i < |more| ensures Present(db, more[i]) { assert (items + more)[|items| + i] == more[i]; }
    if more == [] {
      assert items + more == items;
    } else {
      var front := more[..|more| - 1];
      assert (items + more)[..|items + more| - 1] == items + front;
      AfterConcat(db, env, items, front);
    }
  }

  /** A run is the fold of its steps over all the rows it inspects. */
  lemma RunIsFold(db: Db, env: Env, order: Order)
    requires Listing(db, env, order)
    ensures AllPresent(db, Inspected(db, env, order))
    ensures Run(db, env, order) == After(db, env, Inspected(db, env, order))
  {
    var ps := PaymentItems(db, order.payments);
    PresentPayments(db, order.payments);
    PaymentPhase(db, env, ps);
    var db1 := AfterPayments(db, env, order);
    PresentRefunds(db1, order.refunds);
    AfterConcat(db, env, ps, RefundItems(db1, order.refunds));
  }
}
