/**
 What every run of billing transactions keeps: the schema constraints, the agreement of
 credit counters with the ledger, and at-most-once webhook effects.
 */
module CreditAccounting {
  import opened Wrappers
  import opened Credits
  import opened Billing

  ghost function Run(db: Db, acts: seq<Action>): Db {
    if acts == [] then db else Apply(Run(db, acts[..|acts| - 1]), acts[|acts| - 1])
  }

  /** The columns no statement of the program ever changes. */
  ghost predicate SameIdentity(a: Subscription, b: Subscription) {
    a.user == b.user && a.team == b.team && a.customer == b.customer && a.stripeId == b.stripeId
  }

  /** Every transaction keeps the constraints, the set of rows, and each row's identity. */
  lemma ApplyKeepsTable(db: Db, a: Action)
    requires TableOk(db.subs)
    ensures var t := Apply(db, a).subs;
            && TableOk(t) && t.Keys == db.subs.Keys
            && forall r :: r in t ==> SameIdentity(db.subs[r], t[r])
  {
    match a
    case Settle(reply) => AddCreditsKeepsTable(db.subs, reply.user, Charge(reply));
    case Deliver(d) => EffectKeepsTable(db.subs, d.body);
    case ReportUsage(_, _, _, _, _) =>
  }

  lemma EffectKeepsTable(t: Subscriptions, body: WebhookBody)
    requires TableOk(t)
    ensures var o := Effect(t, body);
            o.Some? ==> TableOk(o.value) && o.value.Keys == t.Keys && forall r :: r in t ==> SameIdentity(t[r], o.value[r])
  {
    match body
    case InvoicePaid(Some(id), Some(start)) => ResetKeepsTable(t, id, start);
    case _ =>
  }

  lemma AddCreditsKeepsTable(t: Subscriptions, user: UserId, n: int)
    requires TableOk(t)
    ensures var o := AddCredits(t, user, n);
            o.Some? ==> TableOk(o.value) && o.value.Keys == t.Keys
                        && forall r :: r in t ==> SameIdentity(t[r], o.value[r]) && t[r].status == o.value[r].status
  {
    var o := AddCredits(t, user, n);
    if o.Some? {
      forall r, q | r in t && q in t && r != q
        ensures NoClash(o.value[r], o.value[q])
      {
        assert NoClash(t[r], t[q]);
      }
    }
  }

  lemma ResetKeepsTable(t: Subscriptions, id: string, start: int)
    requires TableOk(t)
    ensures TableOk(ResetCredits(t, id, start))
  {
    var u := ResetCredits(t, id, start);
    forall r, q | r in u && q in u && r != q
      ensures NoClash(u[r], u[q])
    {
      assert NoClash(t[r], t[q]);
    }
  }

  lemma {:induction false} RunKeepsTable(db: Db, acts: seq<Action>)
    requires TableOk(db.subs)
    ensures var t := Run(db, acts).subs;
            && TableOk(t) && t.Keys == db.subs.Keys
            && forall r :: r in t ==> SameIdentity(db.subs[r], t[r])
  {
    if acts == [] {
    } else {
      var front := acts[..|acts| - 1];
      RunKeepsTable(db, front);
      ApplyKeepsTable(Run(db, front), acts[|acts| - 1]);
    }
  }

  // ---- What the constraints and the transactions come to ----

  /** The statuses under which a user has one subscription at most. */
  ghost predicate Subscribes(s: Subscription, user: UserId) {
    s.user == user && s.status in {Active, Trialing, PastDue}
  }

  /** The schema, constraint by constraint. */
  lemma TableOkMeans(t: Subscriptions)
    ensures TableOk(t) <==>
            && (forall r :: r in t ==> t[r].tier in {"basic", "essentials", "duo", "plus", "pro", "enterprise"})
            && (forall r :: r in t ==> -0x8000_0000 <= t[r].creditsUsed <= 0x7FFF_FFFF)
            && (forall r, q :: r in t && q in t && t[r].customer.Some? && t[r].customer == t[q].customer ==> r == q)
            && (forall r, q :: r in t && q in t && t[r].stripeId.Some? && t[r].stripeId == t[q].stripeId ==> r == q)
            && (forall r, q :: r in t && q in t && Subscribes(t[r], t[r].user) && Subscribes(t[q], t[r].user) ==> r == q)
            && (forall r, q :: r in t && q in t && r != q && t[r].team == t[q].team ==>
                  !(Subscribes(t[r], t[r].user) && Subscribes(t[q], t[q].user)))
  {
    assert forall r :: r in t ==> (Subscribes(t[r], t[r].user) <==> Billable(t[r].status));
    if TableOk(t) {
      assert forall r, q :: r in t && q in t && r != q ==> NoClash(t[r], t[q]);
    }
  }

  /**
   The charge of a reply, from its tokens to the tables: with `c` the price of its tokens,
   one credit per started thousand and one at least, the tables change if and only if the
   reply commits, its total fits 32 bits and the user has a billable row with room for `c`;
   and then by one ledger row and by `c` on that row.
   */
  lemma ReconcileMeans(db: Db, reply: Reply) returns (c: int, payer: Option<RowId>)
    requires TableOk(db.subs)
    ensures IsPrice(c, reply.usage.prompt, reply.usage.completion)
    ensures forall r :: r in db.subs && Subscribes(db.subs[r], reply.user) <==> payer == Some(r)
    ensures var goes := reply.commits && reply.usage.total <= 0x7FFF_FFFF
                        && payer.Some? && db.subs[payer.value].creditsUsed + c <= 0x7FFF_FFFF;
            && (ReconcileTx(db, reply) != db <==> goes)
            && (goes ==> ReconcileTx(db, reply) == ChargedDb(db, reply, c, payer.value))
  {
    c := PriceOf(reply);
    if exists r :: r in db.subs && Subscribes(db.subs[r], reply.user) {
      var r :| r in db.subs && Subscribes(db.subs[r], reply.user);
      payer := Some(r);
      OneRowPays(db.subs, r, reply.user, c);
      ReconcileCase(db, reply, c, r);
    } else {
      payer := None;
      assert forall r :: r in db.subs ==> !PaysFor(db.subs[r], reply.user);
    }
  }

  /** One credit per started thousand of prompt tokens and three times the completion tokens, and one at least. */
  ghost predicate IsPrice(c: int, prompt: Tokens, completion: Tokens) {
    var weight := prompt + 3 * completion;
    c >= 1 && weight <= 1000 * c && (c > 1 ==> 1000 * (c - 1) < weight)
  }

  /** One more ledger row, and its cost on the paying row. */
  ghost function ChargedDb(db: Db, reply: Reply, c: int, r: RowId): Db
    requires r in db.subs
  {
    Db(db.subs[r := db.subs[r].(creditsUsed := db.subs[r].creditsUsed + c)],
       db.ledger + [LedgerEntry(reply.user, AiReply, reply.usage.total, c, Some(reply.model), Some(reply.kind))],
       db.events)
  }

  lemma PriceOf(reply: Reply) returns (c: int)
    ensures c == Charge(reply) && IsPrice(c, reply.usage.prompt, reply.usage.completion)
  {
    ChargeCovers(reply.usage.prompt, reply.usage.completion);
    c := Charge(reply);
  }

  lemma ReconcileCase(db: Db, reply: Reply, c: int, r: RowId)
    requires c == Charge(reply) && r in db.subs
    requires AddCredits(db.subs, reply.user, c) ==
             if db.subs[r].creditsUsed + c <= 0x7FFF_FFFF
             then Some(db.subs[r := db.subs[r].(creditsUsed := db.subs[r].creditsUsed + c)]) else None
    ensures var goes := reply.commits && reply.usage.total <= 0x7FFF_FFFF && db.subs[r].creditsUsed + c <= 0x7FFF_FFFF;
            && (ReconcileTx(db, reply) != db <==> goes)
            && (goes ==> ReconcileTx(db, reply) == ChargedDb(db, reply, c, r))
  {
    assert ReconcileTx(db, reply) != db ==> |ReconcileTx(db, reply).ledger| == |db.ledger| + 1;
  }


  lemma OneRowPays(t: Subscriptions, r: RowId, user: UserId, c: int)
    requires TableOk(t) && r in t && Subscribes(t[r], user) && c >= 1
    ensures forall q :: q in t && Subscribes(t[q], user) ==> q == r
    ensures AddCredits(t, user, c) ==
            if t[r].creditsUsed + c <= 0x7FFF_FFFF then Some(t[r := t[r].(creditsUsed := t[r].creditsUsed + c)]) else None
  {
    assert forall q :: q in t && q != r ==> NoClash(t[r], t[q]);
    assert forall q :: q in t ==> (PaysFor(t[q], user) <==> q == r);
    var o := AddCredits(t, user, c);
    if t[r].creditsUsed + c <= 0x7FFF_FFFF {
      assert o.value == t[r := t[r].(creditsUsed := t[r].creditsUsed + c)];
    }
  }

  /** A usage report appends one row at no cost, unless its units are negative, and does nothing else. */
  lemma UsageReportMeans(db: Db, user: UserId, metric: Metric, units: int, model: Option<string>, kind: Option<string>)
    ensures var db' := Apply(db, ReportUsage(user, metric, units, model, kind));
            && db'.subs == db.subs && db'.events == db.events
            && db'.ledger == db.ledger + if units >= 0 then [LedgerEntry(user, metric, units, 0, model, kind)] else []
  {
  }

  /** The subscriptions after the event's values are written to the rows with its subscription id. */
  ghost function Updated(t: Subscriptions, o: SubscriptionObject, status: Status): Subscriptions {
    map r | r in t ::
      if t[r].stripeId == Some(o.stripeId)
      then Subscription(t[r].user, t[r].team, t[r].customer, t[r].stripeId, o.tier, status, o.periodStart, o.periodEnd,
                        o.cancelAtPeriodEnd, t[r].creditsUsed, t[r].creditsPeriodStart)
      else t[r]
  }

  ghost predicate Recordable(t: Subscriptions, body: WebhookBody) {
    || body.OtherEvent?
    || body.InvoicePaid?
    || (body.SubscriptionChanged? && forall r :: r in t ==> t[r].customer != Some(body.sub.customer))
    || (&& body.SubscriptionChanged? && body.sub.status.Some?
        && (exists r :: r in t && t[r].stripeId == Some(body.sub.stripeId))
        && TableOk(Updated(t, body.sub, body.sub.status.value)))
  }

  /**
   A delivery, from its body to the tables. A seen id, or statements that fail, change
   nothing. Otherwise the id is recorded, with the event type, exactly for: other events;
   paid invoices, complete or not; subscription events of a customer on no row; and those of
   known status whose subscription id is on a row and whose update meets the constraints.
   */
  lemma DeliveryMeans(db: Db, d: Delivery)
    ensures d.id in db.events || !d.commits ==> DeliverTx(db, d) == db
    ensures d.id !in db.events && d.commits ==> (d.id in DeliverTx(db, d).events <==> Recordable(db.subs, d.body))
    ensures var db' := DeliverTx(db, d);
            d.id !in db.events ==>
              if d.id in db'.events then db'.events == db.events[d.id := d.eventType] && db'.ledger == db.ledger else db' == db
    ensures var db' := DeliverTx(db, d);
            d.id !in db.events && d.id in db'.events ==>
              db'.subs ==
              if d.body.InvoicePaid? && d.body.subscription.Some? && d.body.periodStart.Some? then
                map r | r in db.subs ::
                  if db.subs[r].stripeId == d.body.subscription
                  then db.subs[r].(creditsUsed := 0, creditsPeriodStart := d.body.periodStart) else db.subs[r]
              else if d.body.SubscriptionChanged?
                      && exists r :: r in db.subs && db.subs[r].customer == Some(d.body.sub.customer) then
                if d.body.sub.status.Some? then Updated(db.subs, d.body.sub, d.body.sub.status.value) else db.subs
              else db.subs
  {
    if d.body.SubscriptionChanged? && d.body.sub.status.Some? {
      assert Upsert(db.subs, d.body.sub) == Updated(db.subs, d.body.sub, d.body.sub.status.value);
    }
  }

  // ---- Conservation of credits ----

  /** The cost of what a transaction appended to the ledger. */
  ghost function AppendedCost(db: Db, db': Db): int {
    if |db'.ledger| == |db.ledger| + 1 then db'.ledger[|db.ledger|].cost else 0
  }

  ghost predicate ChargedTo(db: Db, db': Db, r: RowId) {
    r in db.subs && r in db'.subs && db'.subs[r].creditsUsed != db.subs[r].creditsUsed
  }

  /** The action is a paid invoice of this very row, and it takes effect. */
  ghost predicate Resets(db: Db, a: Action, r: RowId) {
    && r in db.subs && a.Deliver? && a.delivery.commits && a.delivery.id !in db.events
    && a.delivery.body.InvoicePaid? && a.delivery.body.subscription.Some? && a.delivery.body.periodStart.Some?
    && db.subs[r].stripeId == a.delivery.body.subscription
  }

  /**
   A transaction that spends credits appends one ledger entry, raises exactly one row by
   exactly its cost, and that row belongs to the user of the entry.
   */
  lemma ChargesExactlyOneRow(db: Db, a: Action)
    requires TableOk(db.subs)
    ensures var db' := Apply(db, a);
            AppendedCost(db, db') > 0 ==>
              exists r :: && ChargedTo(db, db', r)
                          && db'.subs[r].creditsUsed == db.subs[r].creditsUsed + AppendedCost(db, db')
                          && db.subs[r].user == db'.ledger[|db.ledger|].user
                          && Billable(db.subs[r].status)
                          && forall q :: ChargedTo(db, db', q) ==> q == r
  {
    var db' := Apply(db, a);
    if AppendedCost(db, db') > 0 {
      assert a.Settle?;
      var user := a.reply.user;
      var r :| r in db.subs && PaysFor(db.subs[r], user);
      assert ChargedTo(db, db', r);
      assert forall q :: q in db.subs && q != r ==> NoClash(db.subs[r], db.subs[q]);
    }
  }

  lemma SettleConserves(db: Db, reply: Reply, r: RowId)
    requires r in db.subs
    ensures var db' := ReconcileTx(db, reply);
            && r in db'.subs
            && db'.subs[r].creditsUsed - db.subs[r].creditsUsed
               == if ChargedTo(db, db', r) then AppendedCost(db, db') else 0
  {
    var e := ReplyEntry(reply);
    assert (db.ledger + [e])[|db.ledger|] == e;
  }

  lemma DeliverConserves(db: Db, d: Delivery, r: RowId)
    requires r in db.subs && !Resets(db, Deliver(d), r)
    ensures var t := DeliverTx(db, d).subs;
            r in t && t[r].creditsUsed == db.subs[r].creditsUsed
  {
  }

  lemma StepConserves(db: Db, a: Action, r: RowId)
    requires r in db.subs && !Resets(db, a, r)
    ensures var db' := Apply(db, a);
            && r in db'.subs
            && db'.subs[r].creditsUsed - db.subs[r].creditsUsed
               == if ChargedTo(db, db', r) then AppendedCost(db, db') else 0
  {
    match a
    case Settle(reply) => SettleConserves(db, reply, r);
    case Deliver(d) => DeliverConserves(db, d, r);
    case ReportUsage(_, _, _, _, _) =>
  }

  /** What the ledger says was charged to row `r` by `acts[from..]`. */
  ghost function LedgerTotal(db: Db, acts: seq<Action>, from: nat, r: RowId): int
    requires from <= |acts|
  {
    if |acts| == from then 0
    else
      var front := acts[..|acts| - 1];
      var before, after := Run(db, front), Run(db, acts);
      LedgerTotal(db, front, from, r) + if ChargedTo(before, after, r) then AppendedCost(before, after) else 0
  }

  /**
   Conservation: in every run, since any point after which a row was not reset, its
   counter has grown by exactly the ledger cost charged to it.
   */
  lemma {:induction false} CreditsMatchLedger(db: Db, acts: seq<Action>, from: nat, r: RowId)
    requires TableOk(db.subs) && r in db.subs && from <= |acts|
    requires forall i :: from <= i < |acts| ==> !Resets(Run(db, acts[..i]), acts[i], r)
    ensures r in Run(db, acts[..from]).subs && r in Run(db, acts).subs
    ensures Run(db, acts).subs[r].creditsUsed
            == Run(db, acts[..from]).subs[r].creditsUsed + LedgerTotal(db, acts, from, r)
  {
    if |acts| == from {
      assert acts[..from] == acts;
      RunKeepsTable(db, acts);
    } else {
      var n := |acts| - 1;
      var front := acts[..n];
      assert forall i :: from <= i < n ==> acts[..i] == front[..i];
      assert front[..from] == acts[..from];
      CreditsMatchLedger(db, front, from, r);
      OneMoreCharge(db, acts, from, r);
    }
  }

  lemma {:induction false} OneMoreCharge(db: Db, acts: seq<Action>, from: nat, r: RowId)
    requires from < |acts| && r in Run(db, acts[..|acts| - 1]).subs
    requires !Resets(Run(db, acts[..|acts| - 1]), acts[|acts| - 1], r)
    ensures var front := acts[..|acts| - 1];
            && r in Run(db, acts).subs
            && Run(db, acts).subs[r].creditsUsed - Run(db, front).subs[r].creditsUsed
               == LedgerTotal(db, acts, from, r) - LedgerTotal(db, front, from, r)
  {
    StepConserves(Run(db, acts[..|acts| - 1]), acts[|acts| - 1], r);
  }

  /** A reset starts the count again from zero. */
  lemma CountSinceReset(db: Db, acts: seq<Action>, at: nat, r: RowId)
    requires TableOk(db.subs) && r in db.subs && at < |acts|
    requires Resets(Run(db, acts[..at]), acts[at], r)
    requires forall i :: at < i < |acts| ==> !Resets(Run(db, acts[..i]), acts[i], r)
    ensures r in Run(db, acts).subs
    ensures Run(db, acts).subs[r].creditsUsed == LedgerTotal(db, acts, at + 1, r)
  {
    CreditsMatchLedger(db, acts, at + 1, r);
    assert acts[..at + 1][..at] == acts[..at];
  }

  // ---- Webhook effects ----

  ghost predicate Mirrors(s: Subscription, o: SubscriptionObject) {
    && s.stripeId == Some(o.stripeId) && Some(s.status) == o.status && s.tier == o.tier
    && s.periodStart == o.periodStart && s.periodEnd == o.periodEnd && s.cancelAtPeriodEnd == o.cancelAtPeriodEnd
  }

  /**
   A subscription event of a known customer that takes effect leaves exactly one row with
   its subscription id, mirroring the event, and touches neither credits nor other rows.
   This is what the update arm of the upsert promises. PostgreSQL checks the mandatory
   `team_id` of the proposed row before it looks for the conflict, so there the statement
   fails instead (`commits` false) as long as the insert names no team.
   */
  lemma EventMirrorsSubscription(db: Db, d: Delivery) returns (r: RowId)
    requires TableOk(db.subs) && d.body.SubscriptionChanged? && KnownCustomer(db.subs, d.body.sub.customer)
    requires d.id !in db.events && d.id in DeliverTx(db, d).events
    ensures var t := DeliverTx(db, d).subs;
            && r in t && r in db.subs && Mirrors(t[r], d.body.sub)
            && t[r].creditsUsed == db.subs[r].creditsUsed && t[r].creditsPeriodStart == db.subs[r].creditsPeriodStart
            && forall q :: q in t && q != r ==> q in db.subs && t[q] == db.subs[q] && !Mirrors(t[q], d.body.sub)
  {
    r :| r in db.subs && db.subs[r].stripeId == Some(d.body.sub.stripeId);
    assert forall q :: q in db.subs && q != r ==> NoClash(db.subs[r], db.subs[q]);
  }

  /** A paid invoice that takes effect zeroes exactly the row of its subscription and notes the period. */
  lemma InvoiceResetsItsRow(db: Db, d: Delivery, r: RowId)
    requires TableOk(db.subs) && Resets(db, Deliver(d), r)
    ensures var t := DeliverTx(db, d).subs;
            && t[r] == db.subs[r].(creditsUsed := 0, creditsPeriodStart := d.body.periodStart)
            && forall q :: q in db.subs && q != r ==> t[q] == db.subs[q]
  {
    assert forall q :: q in db.subs && q != r ==> NoClash(db.subs[r], db.subs[q]);
  }

  /** The transaction of this delivery would reach its commit on these subscriptions. */
  ghost predicate Goes(t: Subscriptions, d: Delivery) {
    d.commits && Effect(t, d.body).Some?
  }

  ghost predicate GoesAt(db: Db, acts: seq<Action>, i: nat, id: string) {
    i < |acts| && acts[i].Deliver? && acts[i].delivery.id == id
    && Goes(Run(db, acts[..i]).subs, acts[i].delivery)
  }

  lemma GoesEarlier(db: Db, acts: seq<Action>, i: nat, id: string)
    requires i < |acts| - 1
    ensures GoesAt(db, acts, i, id) <==> GoesAt(db, acts[..|acts| - 1], i, id)
  {
    assert acts[..i] == acts[..|acts| - 1][..i];
  }

  lemma RecordedStep(db: Db, a: Action, id: string)
    ensures id in Apply(db, a).events <==>
            id in db.events || (a.Deliver? && a.delivery.id == id && Goes(db.subs, a.delivery))
  {
  }

  /** An event id is recorded exactly when some delivery of it reached its commit. */
  lemma {:induction false} RecordedIffCommitted(db: Db, acts: seq<Action>, id: string)
    ensures id in Run(db, acts).events <==> id in db.events || exists i :: GoesAt(db, acts, i, id)
  {
    if acts == [] {
    } else {
      var n := |acts| - 1;
      var front := acts[..n];
      RecordedIffCommitted(db, front, id);
      RecordedStep(Run(db, front), acts[n], id);
      forall i: nat | i < n
        ensures GoesAt(db, acts, i, id) <==> GoesAt(db, front, i, id)
      {
        GoesEarlier(db, acts, i, id);
      }
      assert GoesAt(db, acts, n, id) <==>
             acts[n].Deliver? && acts[n].delivery.id == id && Goes(Run(db, front).subs, acts[n].delivery);
      if exists i :: GoesAt(db, front, i, id) {
        var i :| GoesAt(db, front, i, id);
        assert GoesAt(db, acts, i, id);
      }
    }
  }

  /** The delivery at `i` is the first of its id to reach its commit. */
  ghost predicate FirstCommitted(db: Db, acts: seq<Action>, i: nat)
    requires i < |acts| && acts[i].Deliver?
  {
    var id := acts[i].delivery.id;
    id !in db.events && GoesAt(db, acts, i, id) && forall j: nat :: j < i ==> !GoesAt(db, acts, j, id)
  }

  /** The run with every delivery dropped that is not the first committed one of its id. */
  ghost function Deduplicated(db: Db, acts: seq<Action>): seq<Action> {
    if acts == [] then []
    else
      var n := |acts| - 1;
      var kept := Deduplicated(db, acts[..n]);
      if acts[n].Deliver? && !FirstCommitted(db, acts, n) then kept else kept + [acts[n]]
  }

  lemma DroppedIsIdle(db: Db, acts: seq<Action>, n: nat)
    requires |acts| == n + 1 && acts[n].Deliver? && !FirstCommitted(db, acts, n)
    ensures Run(db, acts) == Run(db, acts[..n])
  {
    var front, d := acts[..n], acts[n].delivery;
    RecordedIffCommitted(db, front, d.id);
    if d.id !in Run(db, front).events {
      forall j: nat | j < n
        ensures !GoesAt(db, acts, j, d.id)
      {
        assert acts[..j] == front[..j];
        assert !GoesAt(db, front, j, d.id);
      }
      assert !GoesAt(db, acts, n, d.id);
    }
  }

  /** Repeated and aborted deliveries leave no trace: dropping them changes no table. */
  lemma {:induction false} EffectsAtMostOnce(db: Db, acts: seq<Action>)
    ensures Run(db, Deduplicated(db, acts)) == Run(db, acts)
  {
    if acts == [] {
    } else {
      var n := |acts| - 1;
      var front, a := acts[..n], acts[n];
      var kept := Deduplicated(db, front);
      EffectsAtMostOnce(db, front);
      if a.Deliver? && !FirstCommitted(db, acts, n) {
        DroppedIsIdle(db, acts, n);
      } else {
        assert (kept + [a])[..|kept|] == kept;
      }
    }
  }

  lemma {:induction false} KeptAreCommitted(db: Db, acts: seq<Action>)
    ensures forall k :: 0 <= k < |Deduplicated(db, acts)| && Deduplicated(db, acts)[k].Deliver?
              ==> exists i: nat :: GoesAt(db, acts, i, Deduplicated(db, acts)[k].delivery.id)
  {
    if acts == [] {
    } else {
      var n := |acts| - 1;
      var front, kept := acts[..n], Deduplicated(db, acts);
      KeptAreCommitted(db, front);
      forall k | 0 <= k < |kept| && kept[k].Deliver?
        ensures exists i: nat :: GoesAt(db, acts, i, kept[k].delivery.id)
      {
        var id := kept[k].delivery.id;
        if k < |Deduplicated(db, front)| {
          var i: nat :| GoesAt(db, front, i, id);
          assert acts[..i] == front[..i];
          assert GoesAt(db, acts, i, id);
        } else {
          assert GoesAt(db, acts, n, id);
        }
      }
    }
  }

  ghost predicate DistinctIds(acts: seq<Action>) {
    forall i, j :: 0 <= i < j < |acts| && acts[i].Deliver? && acts[j].Deliver?
      ==> acts[i].delivery.id != acts[j].delivery.id
  }

  lemma DistinctAppend(kept: seq<Action>, a: Action)
    requires DistinctIds(kept)
    requires a.Deliver? ==> forall k :: 0 <= k < |kept| && kept[k].Deliver? ==> kept[k].delivery.id != a.delivery.id
    ensures DistinctIds(kept + [a])
  {
  }

  /** The deduplicated run delivers no event id twice. */
  lemma {:induction false} OneDeliveryPerId(db: Db, acts: seq<Action>)
    ensures DistinctIds(Deduplicated(db, acts))
  {
    if acts == [] {
    } else {
      var n := |acts| - 1;
      var front, a := acts[..n], acts[n];
      OneDeliveryPerId(db, front);
      var kept := Deduplicated(db, front);
      if a.Deliver? && FirstCommitted(db, acts, n) {
        KeptAreCommitted(db, front);
        forall k | 0 <= k < |kept| && kept[k].Deliver?
          ensures kept[k].delivery.id != a.delivery.id
        {
          var i: nat :| GoesAt(db, front, i, kept[k].delivery.id);
          assert acts[..i] == front[..i];
          assert GoesAt(db, acts, i, kept[k].delivery.id);
        }
      }
      if !a.Deliver? || FirstCommitted(db, acts, n) {
        DistinctAppend(kept, a);
      }
    }
  }
}
