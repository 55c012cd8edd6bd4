/**
 The billing tables and the transactions on them: the credit charge for a reply, the
 usage report and the Stripe webhook. A transaction commits as a whole or leaves the
 tables as they were; `commits` stands for every outside reason to roll back.
 Row timestamps kept only for ordering (`created_at`, `updated_at`) are not modelled.
 */
module Billing {
  import opened Wrappers
  import opened Credits

  type UserId = nat
  type TeamId = nat
  type RowId = nat

  datatype Status = Active | PastDue | Canceled | Trialing | Incomplete | IncompleteExpired | Unpaid

  predicate Billable(s: Status) { s.Active? || s.Trialing? || s.PastDue? }

  const TIERS: set<string> := {"basic", "essentials", "duo", "plus", "pro", "enterprise"}

  datatype Subscription = Subscription(
    user: UserId,
    team: TeamId,
    customer: Option<string>,
    stripeId: Option<string>,
    tier: string,
    status: Status,
    periodStart: Option<int>,
    periodEnd: Option<int>,
    cancelAtPeriodEnd: bool,
    creditsUsed: int,
    creditsPeriodStart: Option<int>)

  type Subscriptions = map<RowId, Subscription>

  datatype Metric = AiReply | BrokerPoll | CsvIntel | MarketRefresh

  datatype LedgerEntry = LedgerEntry(user: UserId, metric: Metric, units: int, cost: int,
                                     model: Option<string>, kind: Option<string>)

  datatype Db = Db(subs: Subscriptions, ledger: seq<LedgerEntry>, events: map<string, string>)

  // ---- Constraints of the schema ----

  /** The unique columns and the two partial unique indexes over billable rows. */
  predicate NoClash(a: Subscription, b: Subscription) {
    && (a.customer.Some? ==> a.customer != b.customer)
    && (a.stripeId.Some? ==> a.stripeId != b.stripeId)
    && (Billable(a.status) && Billable(b.status) ==> a.user != b.user && a.team != b.team)
  }

  predicate RowOk(s: Subscription) {
    s.tier in TIERS && I32_MIN <= s.creditsUsed <= I32_MAX
  }

  predicate TableOk(t: Subscriptions) {
    && (forall r :: r in t ==> RowOk(t[r]))
    && (forall r, q :: r in t && q in t && r != q ==> NoClash(t[r], t[q]))
  }

  // ---- Statements ----

  predicate PaysFor(s: Subscription, user: UserId) {
    s.user == user && Billable(s.status)
  }

  /** `UPDATE ... SET ai_credits_used = ai_credits_used + n ... RETURNING`, failing on no row or `i32` overflow. */
  function AddCredits(t: Subscriptions, user: UserId, n: int): Option<Subscriptions> {
    if (exists r :: r in t && PaysFor(t[r], user))
       && (forall r :: r in t && PaysFor(t[r], user) ==> I32_MIN <= t[r].creditsUsed + n <= I32_MAX)
    then Some(map r | r in t :: if PaysFor(t[r], user) then t[r].(creditsUsed := t[r].creditsUsed + n) else t[r])
    else None
  }

  function ResetCredits(t: Subscriptions, stripeId: string, periodStart: int): Subscriptions {
    map r | r in t ::
      if t[r].stripeId == Some(stripeId)
      then t[r].(creditsUsed := 0, creditsPeriodStart := Some(periodStart))
      else t[r]
  }

  datatype SubscriptionObject = SubscriptionObject(
    customer: string,
    stripeId: string,
    tier: string,
    status: Option<Status>,
    periodStart: Option<int>,
    periodEnd: Option<int>,
    cancelAtPeriodEnd: bool)

  /**
   The upsert by Stripe subscription id. Without a matching row it would insert, and an
   inserted row lacks the mandatory team, so it fails; a status outside the enumeration,
   or an update that breaks a constraint, fails too.
   */
  function Upsert(t: Subscriptions, o: SubscriptionObject): Subscriptions {
    map r | r in t ::
      if t[r].stripeId == Some(o.stripeId) && o.status.Some?
      then t[r].(status := o.status.value, tier := o.tier, periodStart := o.periodStart,
                 periodEnd := o.periodEnd, cancelAtPeriodEnd := o.cancelAtPeriodEnd)
      else t[r]
  }

  predicate UpsertSucceeds(t: Subscriptions, o: SubscriptionObject) {
    && o.status.Some?
    && (exists r :: r in t && t[r].stripeId == Some(o.stripeId))
    && TableOk(Upsert(t, o))
  }

  predicate KnownCustomer(t: Subscriptions, customer: string) {
    exists r :: r in t && t[r].customer == Some(customer)
  }

  // ---- Transactions ----

  datatype TokenUsage = TokenUsage(prompt: Tokens, completion: Tokens, total: Tokens)

  /** A completed reply to charge for. */
  datatype Reply = Reply(user: UserId, usage: TokenUsage, model: string, kind: string, commits: bool)

  function WrapI32(n: Tokens): int {
    if n > I32_MAX then n - 0x1_0000_0000 else n
  }

  function Charge(r: Reply): int { CreditsForTokens(r.usage.prompt, r.usage.completion) }

  function ReplyEntry(r: Reply): LedgerEntry {
    LedgerEntry(r.user, AiReply, WrapI32(r.usage.total), Charge(r), Some(r.model), Some(r.kind))
  }

  /** Ledger row and counter move together or not at all. */
  function ReconcileTx(db: Db, r: Reply): Db {
    var e := ReplyEntry(r);
    if !r.commits || e.units < 0 then db
    else match AddCredits(db.subs, r.user, e.cost)
      case None => db
      case Some(t) => db.(subs := t, ledger := db.ledger + [e])
  }

  datatype WebhookBody =
    | SubscriptionChanged(sub: SubscriptionObject)
    | InvoicePaid(subscription: Option<string>, periodStart: Option<int>)
    | Malformed
    | OtherEvent

  datatype Delivery = Delivery(id: string, eventType: string, body: WebhookBody, commits: bool)

  /** The subscriptions after a body takes effect, or None when its statements fail. */
  function Effect(t: Subscriptions, body: WebhookBody): Option<Subscriptions> {
    match body
    case SubscriptionChanged(o) =>
      if !KnownCustomer(t, o.customer) then Some(t)
      else if UpsertSucceeds(t, o) then Some(Upsert(t, o))
      else None
    case InvoicePaid(Some(id), Some(start)) => Some(ResetCredits(t, id, start))
    case InvoicePaid(_, _) => Some(t)
    case Malformed => None
    case OtherEvent => Some(t)
  }

  function DeliverTx(db: Db, d: Delivery): Db {
    if d.id in db.events || !d.commits then db
    else match Effect(db.subs, d.body)
      case None => db
      case Some(t) => db.(subs := t, events := db.events[d.id := d.eventType])
  }

  datatype Action =
    | Settle(reply: Reply)
    | Deliver(delivery: Delivery)
    | ReportUsage(user: UserId, metric: Metric, units: int, model: Option<string>, kind: Option<string>)

  function Apply(db: Db, a: Action): Db {
    match a
    case Settle(r) => ReconcileTx(db, r)
    case Deliver(d) => DeliverTx(db, d)
    case ReportUsage(u, m, n, model, kind) =>
      if n < 0 then db else db.(ledger := db.ledger + [LedgerEntry(u, m, n, 0, model, kind)])
  }

  // ---- The tables as the program updates them ----

  class BillingStore {
    var subs: Subscriptions
    var ledger: seq<LedgerEntry>
    var events: map<string, string>

    ghost function Value(): Db
      reads this
    {
      Db(subs, ledger, events)
    }

    constructor (db: Db)
      ensures Value() == db
    {
      subs, ledger, events := db.subs, db.ledger, db.events;
    }

    method RecordUsage(e: LedgerEntry) returns (ok: bool)
      modifies this`ledger
      ensures ok <==> e.units >= 0 && e.cost >= 0
      ensures ledger == if ok then old(ledger) + [e] else old(ledger)
    {
      ok := e.units >= 0 && e.cost >= 0;
      if ok {
        ledger := ledger + [e];
      }
    }

    method AddAiCreditsUsed(user: UserId, credits: int) returns (total: Option<int>)
      modifies this`subs
      ensures match AddCredits(old(subs), user, credits)
              case None => total == None && subs == old(subs)
              case Some(t) =>
                && subs == t
                && total.Some?
                && exists r :: r in t && PaysFor(t[r], user) && t[r].creditsUsed == total.value
    {
      match AddCredits(subs, user, credits) {
        case None =>
          total := None;
        case Some(t) =>
          var r :| r in subs && PaysFor(subs[r], user);
          subs := t;
          assert PaysFor(t[r], user);
          total := Some(t[r].creditsUsed);
      }
    }

    method TryRecordStripeEvent(id: string, eventType: string) returns (isNew: bool)
      modifies this`events
      ensures isNew <==> id !in old(events)
      ensures events == if isNew then old(events)[id := eventType] else old(events)
    {
      isNew := id !in events;
      if isNew {
        events := events[id := eventType];
      }
    }

    /** The reconciliation at the end of a stream: two writes in one transaction. */
    method Reconcile(r: Reply)
      modifies this
      ensures Value() == ReconcileTx(old(Value()), r)
    {
      var charged := CreditsForTokens(r.usage.prompt, r.usage.completion);
      ChargeIsExact(r.usage.prompt, r.usage.completion);
      var units := WrapI32(r.usage.total);
      var subs0, ledger0 := subs, ledger;
      var ok := RecordUsage(LedgerEntry(r.user, AiReply, units, charged, Some(r.model), Some(r.kind)));
      if !ok {
        return;
      }
      var total := AddAiCreditsUsed(r.user, charged);
      if total.None? || !r.commits {
        subs, ledger := subs0, ledger0;
      }
    }

    /** The webhook: event id and effect in one transaction. */
    method ReceiveWebhook(d: Delivery)
      modifies this
      ensures Value() == DeliverTx(old(Value()), d)
    {
      var subs0, events0 := subs, events;
      var isNew := TryRecordStripeEvent(d.id, d.eventType);
      if !isNew {
        return;
      }
      var ok := true;
      match d.body {
        case SubscriptionChanged(o) =>
          if KnownCustomer(subs, o.customer) {
            ok := UpsertSucceeds(subs, o);
            subs := Upsert(subs, o);
          }
        case InvoicePaid(id, start) =>
          if id.Some? && start.Some? {
            subs := ResetCredits(subs, id.value, start.value);
          }
        case Malformed =>
          ok := false;
        case OtherEvent =>
      }
      if !ok || !d.commits {
        subs, events := subs0, events0;
      }
    }
  }
}
