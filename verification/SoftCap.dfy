/**
 The monthly credit cap is checked before a stream opens and charged after it ends, so
 it can be overshot. This module bounds the overshoot over every run.
 */
module SoftCap {
  import opened Wrappers
  import opened Credits
  import opened Billing
  import opened CreditAccounting

  datatype Cap = NoManagedAi | Unlimited | Limited(monthly: int)

  /** The AI part of the entitlement table. */
  function MonthlyCap(tier: string, status: Status): (c: Cap)
    ensures c.Limited? ==> 0 < c.monthly <= 1500
  {
    if !(status.Active? || status.Trialing?) || tier == "free" then NoManagedAi
    else if tier == "basic" then Limited(300)
    else if tier == "enterprise" || tier == "advisor" then Unlimited
    else Limited(1500)
  }

  datatype Admission = Admitted | Forbidden | CapReached

  /** The pre-flight gates of a chat request, on the user's billable row if there is one. */
  function Admit(row: Option<Subscription>, kind: RequestKind): (a: Admission)
    ensures a.Admitted? ==> row.Some? && (row.value.status.Active? || row.value.status.Trialing?)
    ensures row.Some? && MonthlyCap(row.value.tier, row.value.status).Limited? ==>
              (a.Admitted? <==> row.value.creditsUsed + EstimatedCost(kind) <= MonthlyCap(row.value.tier, row.value.status).monthly)
  {
    match row
    case None => Forbidden
    case Some(s) =>
      match MonthlyCap(s.tier, s.status)
      case NoManagedAi => Forbidden
      case Unlimited => Admitted
      case Limited(monthly) =>
        if s.creditsUsed + EstimatedCost(kind) > monthly then CapReached else Admitted
  }

  /** Which plans have which cap. */
  lemma MonthlyCapMeans(tier: string, status: Status)
    ensures var c := MonthlyCap(tier, status);
            if status !in {Active, Trialing} || tier == "free" then c.NoManagedAi?
            else if tier in {"enterprise", "advisor"} then c.Unlimited?
            else c == Limited(if tier == "basic" then 300 else 1500)
  {
  }

  /** Who may open a stream: active plans, as long as used credits and the reservation fit a finite cap. */
  lemma AdmitMeans(row: Option<Subscription>, kind: RequestKind)
    ensures var estimate := match kind
                            case Simple => 1 case Analysis => 5 case CsvMapping => 10
                            case MonthlyReport => 25 case DeepReport => 50;
            Admit(row, kind) ==
            if row.None? || row.value.status !in {Active, Trialing} || row.value.tier == "free" then Forbidden
            else if row.value.tier in {"enterprise", "advisor"} then Admitted
            else if row.value.creditsUsed + estimate <= (if row.value.tier == "basic" then 300 else 1500) then Admitted
            else CapReached
  {
    if row.Some? {
      MonthlyCapMeans(row.value.tier, row.value.status);
    }
  }

  ghost predicate IsActiveRow(t: Subscriptions, user: UserId, row: Option<Subscription>) {
    match row
    case None => forall r :: r in t ==> !PaysFor(t[r], user)
    case Some(s) => exists r :: r in t && PaysFor(t[r], user) && t[r] == s
  }

  /** The tables, and how many admitted requests of each user are still streaming. */
  datatype World = World(db: Db, inFlight: map<UserId, nat>) {
    function Streaming(u: UserId): nat { if u in inFlight then inFlight[u] else 0 }
  }

  datatype Step =
    | Open(user: UserId, kind: RequestKind)
    | Abort(user: UserId)
    | Finish(reply: Reply)
    | Commit(action: Action)

  /** The step can happen here: it is admitted, or there is a stream to end, or it is some other transaction. */
  ghost predicate Enabled(w: World, s: Step, cap: int, charge: int, atOnce: nat) {
    match s
    case Open(u, kind) =>
      && w.Streaming(u) < atOnce
      && exists row :: && IsActiveRow(w.db.subs, u, row) && Admit(row, kind).Admitted?
                       && MonthlyCap(row.value.tier, row.value.status).Limited?
                       && MonthlyCap(row.value.tier, row.value.status).monthly <= cap
    case Abort(u) => w.Streaming(u) > 0
    case Finish(r) => w.Streaming(r.user) > 0 && Charge(r) <= charge
    case Commit(a) => !a.Settle?
  }

  ghost function Next(w: World, s: Step): World {
    match s
    case Open(u, _) => w.(inFlight := w.inFlight[u := w.Streaming(u) + 1])
    case Abort(u) => w.(inFlight := w.inFlight[u := if w.Streaming(u) > 0 then w.Streaming(u) - 1 else 0])
    case Finish(r) =>
      World(Apply(w.db, Settle(r)), w.inFlight[r.user := if w.Streaming(r.user) > 0 then w.Streaming(r.user) - 1 else 0])
    case Commit(a) => w.(db := Apply(w.db, a))
  }

  ghost function RunSteps(w: World, steps: seq<Step>): World {
    if steps == [] then w else Next(RunSteps(w, steps[..|steps| - 1]), steps[|steps| - 1])
  }

  /** Each step can happen where the ones before it lead. */
  ghost predicate ValidRun(w: World, steps: seq<Step>, cap: int, charge: int, atOnce: nat) {
    steps == [] ||
    (var front := steps[..|steps| - 1];
     ValidRun(w, front, cap, charge, atOnce) && Enabled(RunSteps(w, front), steps[|steps| - 1], cap, charge, atOnce))
  }

  ghost predicate Fresh(w: World) {
    TableOk(w.db.subs) && w.inFlight == map[] && forall r :: r in w.db.subs ==> w.db.subs[r].creditsUsed == 0
  }

  /** Each counter, with every stream of its user charged in full, stays within the bound. */
  ghost predicate Within(w: World, cap: int, charge: int, atOnce: nat) {
    && TableOk(w.db.subs)
    && (forall u :: u in w.inFlight ==> w.inFlight[u] <= atOnce)
    && forall r :: r in w.db.subs ==> RowWithin(w.db.subs[r], w.Streaming(w.db.subs[r].user), cap, charge, atOnce)
  }

  ghost predicate RowWithin(s: Subscription, streaming: nat, cap: int, charge: int, atOnce: nat) {
    && 0 <= s.creditsUsed <= cap - 1 + charge * atOnce
    && (Billable(s.status) ==> s.creditsUsed + charge * streaming <= cap - 1 + charge * atOnce)
  }

  /** A webhook that makes this row the billable one. */
  ghost predicate Activates(t: Subscriptions, t': Subscriptions, r: RowId) {
    r in t && r in t' && !Billable(t[r].status) && Billable(t'[r].status)
  }

  /** Every row that the transaction makes billable has room for the charges of the open streams. */
  ghost predicate Fits(w: World, s: Step, cap: int, charge: int, atOnce: nat) {
    s.Commit? ==>
      var t, t' := w.db.subs, Apply(w.db, s.action).subs;
      forall r :: Activates(t, t', r) ==> t[r].creditsUsed + charge * w.Streaming(t[r].user) <= cap - 1 + charge * atOnce
  }

  ghost predicate AllFit(w: World, steps: seq<Step>, cap: int, charge: int, atOnce: nat) {
    steps == [] ||
    (var front := steps[..|steps| - 1];
     AllFit(w, front, cap, charge, atOnce) && Fits(RunSteps(w, front), steps[|steps| - 1], cap, charge, atOnce))
  }

  lemma Scaled(charge: int, a: nat, b: nat)
    requires charge >= 0 && a <= b
    ensures 0 <= charge * a <= charge * b && charge * (a + 1) == charge * a + charge
  {
  }

  lemma OpenKeepsWithin(w: World, u: UserId, kind: RequestKind, cap: int, charge: int, atOnce: nat)
    requires cap >= 1 && charge >= 0
    requires Within(w, cap, charge, atOnce) && Enabled(w, Open(u, kind), cap, charge, atOnce)
    ensures Within(Next(w, Open(u, kind)), cap, charge, atOnce)
  {
    var t, w' := w.db.subs, Next(w, Open(u, kind));
    var row :| IsActiveRow(t, u, row) && Admit(row, kind).Admitted?
               && MonthlyCap(row.value.tier, row.value.status).Limited?
               && MonthlyCap(row.value.tier, row.value.status).monthly <= cap;
    var active :| active in t && PaysFor(t[active], u) && t[active] == row.value;
    forall r | r in t
      ensures RowWithin(t[r], w'.Streaming(t[r].user), cap, charge, atOnce)
    {
      assert RowWithin(t[r], w.Streaming(t[r].user), cap, charge, atOnce);
      if t[r].user == u {
        assert r != active ==> NoClash(t[r], t[active]);
        Scaled(charge, w'.Streaming(u), atOnce);
      }
    }
  }

  lemma FinishKeepsRow(s: Subscription, s': Subscription, n: nat, n': nat, cap: int, charge: int, atOnce: nat)
    requires RowWithin(s, n, cap, charge, atOnce) && charge >= 0
    requires if s' == s then n' <= n
             else n' == n - 1 && Billable(s.status) && s'.status == s.status
                  && s.creditsUsed <= s'.creditsUsed <= s.creditsUsed + charge
    ensures RowWithin(s', n', cap, charge, atOnce)
  {
    Scaled(charge, n', n);
    if s' != s {
      Scaled(charge, n', n');
    }
  }

  lemma {:induction false} FinishKeepsWithin(w: World, reply: Reply, cap: int, charge: int, atOnce: nat)
    requires charge >= 0
    requires Within(w, cap, charge, atOnce) && Enabled(w, Finish(reply), cap, charge, atOnce)
    ensures Within(Next(w, Finish(reply)), cap, charge, atOnce)
  {
    var u := reply.user;
    var t, w' := w.db.subs, Next(w, Finish(reply));
    var t' := w'.db.subs;
    ApplyKeepsTable(w.db, Settle(reply));
    ChargeIsExact(reply.usage.prompt, reply.usage.completion);
    forall r | r in t'
      ensures RowWithin(t'[r], w'.Streaming(t'[r].user), cap, charge, atOnce)
    {
      assert t'[r] == t[r] || (PaysFor(t[r], u) && t'[r] == t[r].(creditsUsed := t[r].creditsUsed + Charge(reply)));
      FinishKeepsRow(t[r], t'[r], w.Streaming(t[r].user), w'.Streaming(t[r].user), cap, charge, atOnce);
    }
  }

  lemma AbortKeepsWithin(w: World, u: UserId, cap: int, charge: int, atOnce: nat)
    requires charge >= 0
    requires Within(w, cap, charge, atOnce) && Enabled(w, Abort(u), cap, charge, atOnce)
    ensures Within(Next(w, Abort(u)), cap, charge, atOnce)
  {
    var t, w' := w.db.subs, Next(w, Abort(u));
    forall r | r in t
      ensures RowWithin(t[r], w'.Streaming(t[r].user), cap, charge, atOnce)
    {
      assert RowWithin(t[r], w.Streaming(t[r].user), cap, charge, atOnce);
      if t[r].user == u {
        Scaled(charge, w'.Streaming(u), atOnce);
      }
    }
  }

  /** A transaction that is no charge leaves each counter alone or zeroes it; only an event activates a row. */
  lemma CommitEffect(db: Db, a: Action, r: RowId)
    requires TableOk(db.subs) && !a.Settle? && r in db.subs
    ensures var t, t' := db.subs, Apply(db, a).subs;
            && r in t' && t'[r].user == t[r].user
            && (t'[r].creditsUsed == t[r].creditsUsed || (t'[r].creditsUsed == 0 && t'[r].status == t[r].status))
            && (Activates(t, t', r) ==> a.Deliver? && a.delivery.body.SubscriptionChanged?)
  {
    ApplyKeepsTable(db, a);
  }

  /** Webhooks and usage reports keep the bound exactly when the rows they make billable fit. */
  lemma CommitKeepsWithinIff(w: World, a: Action, cap: int, charge: int, atOnce: nat)
    requires cap >= 1 && charge >= 0
    requires Within(w, cap, charge, atOnce) && !a.Settle?
    ensures Within(Next(w, Commit(a)), cap, charge, atOnce) <==> Fits(w, Commit(a), cap, charge, atOnce)
  {
    var w' := Next(w, Commit(a));
    var t, t' := w.db.subs, w'.db.subs;
    ApplyKeepsTable(w.db, a);
    forall r | r in t
      ensures RowWithin(t'[r], w'.Streaming(t'[r].user), cap, charge, atOnce)
              <==> (Activates(t, t', r) ==> t[r].creditsUsed + charge * w.Streaming(t[r].user) <= cap - 1 + charge * atOnce)
    {
      assert RowWithin(t[r], w.Streaming(t[r].user), cap, charge, atOnce);
      CommitEffect(w.db, a, r);
      Scaled(charge, w.Streaming(t[r].user), atOnce);
    }
    assert forall r :: Activates(t, t', r) ==> r in t;
  }

  lemma Room(used: int, n: nat, cap: int, charge: int, atOnce: nat)
    requires charge >= 0 && n <= atOnce && used <= cap - 1 + charge * atOnce && (n == 0 || used <= cap - 1)
    ensures used + charge * n <= cap - 1 + charge * atOnce
  {
    if n == 0 {
      assert charge * n == 0;
    } else {
      Scaled(charge, n, atOnce);
    }
  }

  /** A row fits when no stream of its user is open, or when it is itself below the cap. */
  lemma QuietActivationFits(w: World, a: Action, cap: int, charge: int, atOnce: nat)
    requires cap >= 1 && charge >= 0 && Within(w, cap, charge, atOnce)
    requires forall r :: Activates(w.db.subs, Apply(w.db, a).subs, r) ==>
               w.Streaming(w.db.subs[r].user) == 0 || w.db.subs[r].creditsUsed <= cap - 1
    ensures Fits(w, Commit(a), cap, charge, atOnce)
  {
    var t, t' := w.db.subs, Apply(w.db, a).subs;
    forall r | Activates(t, t', r)
      ensures t[r].creditsUsed + charge * w.Streaming(t[r].user) <= cap - 1 + charge * atOnce
    {
      assert RowWithin(t[r], w.Streaming(t[r].user), cap, charge, atOnce);
      Room(t[r].creditsUsed, w.Streaming(t[r].user), cap, charge, atOnce);
    }
  }

  lemma StepKeepsWithin(w: World, s: Step, cap: int, charge: int, atOnce: nat)
    requires cap >= 1 && charge >= 0 && Within(w, cap, charge, atOnce)
    requires Enabled(w, s, cap, charge, atOnce) && Fits(w, s, cap, charge, atOnce)
    ensures Within(Next(w, s), cap, charge, atOnce)
  {
    match s
    case Open(u, kind) => OpenKeepsWithin(w, u, kind, cap, charge, atOnce);
    case Abort(u) => AbortKeepsWithin(w, u, cap, charge, atOnce);
    case Finish(reply) => FinishKeepsWithin(w, reply, cap, charge, atOnce);
    case Commit(a) => CommitKeepsWithinIff(w, a, cap, charge, atOnce);
  }

  lemma FreshIsWithin(w: World, cap: int, charge: int, atOnce: nat)
    requires cap >= 1 && charge >= 0 && Fresh(w)
    ensures Within(w, cap, charge, atOnce)
  {
    Scaled(charge, 0, atOnce);
  }

  lemma {:induction false} RunStaysWithin(w: World, steps: seq<Step>, cap: int, charge: int, atOnce: nat)
    requires cap >= 1 && charge >= 0 && Within(w, cap, charge, atOnce)
    requires ValidRun(w, steps, cap, charge, atOnce) && AllFit(w, steps, cap, charge, atOnce)
    ensures Within(RunSteps(w, steps), cap, charge, atOnce)
  {
    if steps == [] {
    } else {
      var n := |steps| - 1;
      RunStaysWithin(w, steps[..n], cap, charge, atOnce);
      StepKeepsWithin(RunSteps(w, steps[..n]), steps[n], cap, charge, atOnce);
    }
  }

  lemma {:induction false} RunKeepsTableOk(w: World, steps: seq<Step>)
    requires TableOk(w.db.subs)
    ensures TableOk(RunSteps(w, steps).db.subs)
  {
    if steps == [] {
    } else {
      var v, s := RunSteps(w, steps[..|steps| - 1]), steps[|steps| - 1];
      RunKeepsTableOk(w, steps[..|steps| - 1]);
      match s
      case Finish(reply) => ApplyKeepsTable(v.db, Settle(reply));
      case Commit(a) => ApplyKeepsTable(v.db, a);
      case _ =>
    }
  }

  /** In runs without subscription events, that is with resets and usage reports only, all fits. */
  lemma {:induction false} AllFitWithoutEvents(w: World, steps: seq<Step>, cap: int, charge: int, atOnce: nat)
    requires TableOk(w.db.subs) && ValidRun(w, steps, cap, charge, atOnce)
    requires forall i :: 0 <= i < |steps| && steps[i].Commit? && steps[i].action.Deliver? ==>
               !steps[i].action.delivery.body.SubscriptionChanged?
    ensures AllFit(w, steps, cap, charge, atOnce)
  {
    if steps == [] {
    } else {
      var front, s := steps[..|steps| - 1], steps[|steps| - 1];
      AllFitWithoutEvents(w, front, cap, charge, atOnce);
      RunKeepsTableOk(w, front);
      var v := RunSteps(w, front);
      if s.Commit? {
        forall r | r in v.db.subs
          ensures !Activates(v.db.subs, Apply(v.db, s.action).subs, r)
        {
          CommitEffect(v.db, s.action, r);
        }
      }
    }
  }

  /**
   The overshoot bound. From zero, with at most `atOnce` streams of a user open at once,
   charges of at most `charge`, finite caps of at most `cap`, and events that activate a row
   only where it fits, no counter ever exceeds `cap - 1 + atOnce * charge`.
   */
  lemma OvershootIsBounded(w: World, steps: seq<Step>, cap: int, charge: int, atOnce: nat, r: RowId)
    requires cap >= 1 && charge >= 0
    requires Fresh(w) && ValidRun(w, steps, cap, charge, atOnce) && AllFit(w, steps, cap, charge, atOnce)
    requires r in RunSteps(w, steps).db.subs
    ensures 0 <= RunSteps(w, steps).db.subs[r].creditsUsed <= cap - 1 + charge * atOnce
  {
    var v := RunSteps(w, steps);
    FreshIsWithin(w, cap, charge, atOnce);
    RunStaysWithin(w, steps, cap, charge, atOnce);
    assert RowWithin(v.db.subs[r], v.Streaming(v.db.subs[r].user), cap, charge, atOnce);
    Scaled(charge, v.Streaming(v.db.subs[r].user), atOnce);
  }

  /**
   With the real largest charge and the real largest finite cap, up to 124 streams of a
   user at once can never overflow the 32-bit sums, neither at admission nor at the charge.
   */
  lemma NoOverflowUpTo124(w: World, steps: seq<Step>, atOnce: nat, r: RowId, kind: RequestKind)
    requires atOnce <= 124
    requires Fresh(w) && ValidRun(w, steps, 1500, MAX_CHARGE, atOnce) && AllFit(w, steps, 1500, MAX_CHARGE, atOnce)
    requires r in RunSteps(w, steps).db.subs
    ensures var v := RunSteps(w, steps);
            var used := v.db.subs[r].creditsUsed;
            && used + EstimatedCost(kind) <= I32_MAX
            && (Billable(v.db.subs[r].status) && v.Streaming(v.db.subs[r].user) > 0 ==> used + MAX_CHARGE <= I32_MAX)
  {
    var v := RunSteps(w, steps);
    FreshIsWithin(w, 1500, MAX_CHARGE, atOnce);
    RunStaysWithin(w, steps, 1500, MAX_CHARGE, atOnce);
    assert RowWithin(v.db.subs[r], v.Streaming(v.db.subs[r].user), 1500, MAX_CHARGE, atOnce);
  }

  // ---- The bound is the best one ----

  ghost predicate Holds(w: World, t: Subscriptions, streaming: nat) {
    w.db.subs == t && w.Streaming(0) == streaming
  }

  /** The one row that pays for this user. */
  ghost predicate IsPayer(t: Subscriptions, r: RowId, user: UserId) {
    r in t && PaysFor(t[r], user) && forall q :: q in t && PaysFor(t[q], user) ==> q == r
  }

  /** Every cost up to the largest is that of some reply. */
  lemma ReplyCosting(user: UserId, cost: int) returns (r: Reply)
    requires 1 <= cost <= MAX_CHARGE
    ensures Costs(r, user, cost)
  {
    var n: Tokens := if 250 * cost <= U32_MAX then 250 * cost else U32_MAX;
    r := Reply(user, TokenUsage(n, n, 0), "", "", true);
    ChargeIsExact(n, n);
  }

  ghost predicate Costs(r: Reply, user: UserId, cost: int) {
    r.user == user && r.usage.total == 0 && r.commits && Charge(r) == cost
  }

  lemma ExtendRun(w: World, steps: seq<Step>, s: Step, cap: int, charge: int, atOnce: nat)
    requires ValidRun(w, steps, cap, charge, atOnce) && Enabled(RunSteps(w, steps), s, cap, charge, atOnce)
    ensures ValidRun(w, steps + [s], cap, charge, atOnce)
    ensures RunSteps(w, steps + [s]) == Next(RunSteps(w, steps), s)
  {
    assert (steps + [s])[..|steps|] == steps;
  }

  ghost predicate Admits(s: Subscription) {
    s.tier == "pro" && s.status.Active? && s.creditsUsed + 1 <= 1500
  }

  lemma OpenOne(w: World, t: Subscriptions, r: RowId, streaming: nat, atOnce: nat)
    requires Holds(w, t, streaming) && IsPayer(t, r, 0) && Admits(t[r]) && streaming < atOnce
    ensures Enabled(w, Open(0, Simple), 1500, MAX_CHARGE, atOnce)
    ensures Holds(Next(w, Open(0, Simple)), t, streaming + 1)
  {
    var row := Some(t[r]);
    assert IsActiveRow(t, 0, row);
    assert Admit(row, Simple).Admitted?;
  }

  function Raised(t: Subscriptions, r: RowId, cost: int): Subscriptions
    requires r in t
  {
    t[r := t[r].(creditsUsed := t[r].creditsUsed + cost)]
  }

  lemma PayerIsCharged(t: Subscriptions, r: RowId, cost: int)
    requires r in t && IsPayer(t, r, t[r].user) && 0 <= t[r].creditsUsed && cost >= 0
    ensures AddCredits(t, t[r].user, cost) == if t[r].creditsUsed + cost <= I32_MAX then Some(Raised(t, r, cost)) else None
  {
    var o := AddCredits(t, t[r].user, cost);
    if t[r].creditsUsed + cost <= I32_MAX {
      assert o.value == Raised(t, r, cost);
    }
  }

  lemma FinishOne(w: World, t: Subscriptions, r: RowId, streaming: nat, reply: Reply, cost: int, atOnce: nat)
    requires Holds(w, t, streaming) && IsPayer(t, r, 0) && 0 <= t[r].creditsUsed && streaming > 0 && Costs(reply, 0, cost)
    ensures Enabled(w, Finish(reply), 1500, MAX_CHARGE, atOnce)
    ensures Holds(Next(w, Finish(reply)), if t[r].creditsUsed + cost <= I32_MAX then Raised(t, r, cost) else t, streaming - 1)
  {
    ChargeIsExact(reply.usage.prompt, reply.usage.completion);
    PayerIsCharged(t, r, cost);
  }

  /** A run from `w`, ending with these rows and so many streams open. */
  ghost predicate Reaches(w: World, steps: seq<Step>, t: Subscriptions, streaming: nat, atOnce: nat) {
    ValidRun(w, steps, 1500, MAX_CHARGE, atOnce) && Holds(RunSteps(w, steps), t, streaming)
  }

  /** The event ids recorded by then. */
  ghost function Seen(w: World, steps: seq<Step>): set<string> { RunSteps(w, steps).db.events.Keys }

  lemma ThenOpen(w: World, steps: seq<Step>, t: Subscriptions, r: RowId, streaming: nat, atOnce: nat)
    requires Reaches(w, steps, t, streaming, atOnce) && IsPayer(t, r, 0) && Admits(t[r]) && streaming < atOnce
    ensures Reaches(w, steps + [Open(0, Simple)], t, streaming + 1, atOnce)
    ensures Seen(w, steps + [Open(0, Simple)]) == Seen(w, steps)
  {
    OpenOne(RunSteps(w, steps), t, r, streaming, atOnce);
    ExtendRun(w, steps, Open(0, Simple), 1500, MAX_CHARGE, atOnce);
  }

  lemma ThenFinish(w: World, steps: seq<Step>, t: Subscriptions, r: RowId, streaming: nat,
                   cost: int, atOnce: nat)
    returns (reply: Reply)
    requires Reaches(w, steps, t, streaming, atOnce) && IsPayer(t, r, 0) && streaming > 0
    requires 1 <= cost <= MAX_CHARGE && 0 <= t[r].creditsUsed && t[r].creditsUsed + cost <= I32_MAX
    ensures Reaches(w, steps + [Finish(reply)], Raised(t, r, cost), streaming - 1, atOnce)
    ensures Seen(w, steps + [Finish(reply)]) == Seen(w, steps)
  {
    reply := ReplyCosting(0, cost);
    FinishOne(RunSteps(w, steps), t, r, streaming, reply, cost, atOnce);
    ExtendRun(w, steps, Finish(reply), 1500, MAX_CHARGE, atOnce);
  }

  function Row(used: int): Subscription {
    Subscription(0, 0, None, None, "pro", Active, None, None, false, used, None)
  }

  lemma RowPays(used: int, cost: int)
    ensures IsPayer(map[0 := Row(used)], 0, 0) && Raised(map[0 := Row(used)], 0, cost) == map[0 := Row(used + cost)]
  {
    var t: Subscriptions := map[0 := Row(used)];
    assert PaysFor(t[0], 0);
  }

  lemma Begin(t: Subscriptions, atOnce: nat) returns (w: World)
    requires TableOk(t) && forall r :: r in t ==> t[r].creditsUsed == 0
    ensures Fresh(w) && Reaches(w, [], t, 0, atOnce) && Seen(w, []) == {}
  {
    w := World(Db(t, [], map[]), map[]);
  }

  /** Only streams that open and end. */
  ghost predicate NoCommits(steps: seq<Step>) {
    forall i :: 0 <= i < |steps| ==> !steps[i].Commit?
  }

  /** From zero to one credit below the cap, then `begun` streams. */
  lemma {:induction false} ReachOpen(begun: nat, atOnce: nat) returns (w: World, steps: seq<Step>)
    requires begun <= atOnce && atOnce >= 1
    ensures Fresh(w) && Reaches(w, steps, map[0 := Row(1499)], begun, atOnce) && NoCommits(steps)
  {
    if begun == 0 {
      assert RowOk(Row(0));
      RowPays(0, 1499);
      w := Begin(map[0 := Row(0)], atOnce);
      steps := [];
      ThenOpen(w, steps, map[0 := Row(0)], 0, 0, atOnce);
      steps := steps + [Open(0, Simple)];
      var reply := ThenFinish(w, steps, map[0 := Row(0)], 0, 1, 1499, atOnce);
      steps := steps + [Finish(reply)];
    } else {
      w, steps := ReachOpen(begun - 1, atOnce);
      RowPays(1499, 0);
      ThenOpen(w, steps, map[0 := Row(1499)], 0, begun - 1, atOnce);
      steps := steps + [Open(0, Simple)];
    }
  }

  lemma FinishRow(w: World, steps: seq<Step>, used: int, streaming: nat, atOnce: nat) returns (reply: Reply)
    requires Reaches(w, steps, map[0 := Row(used)], streaming, atOnce) && streaming > 0
    requires 0 <= used && used + MAX_CHARGE <= I32_MAX
    ensures Reaches(w, steps + [Finish(reply)], map[0 := Row(used + MAX_CHARGE)], streaming - 1, atOnce)
  {
    RowPays(used, MAX_CHARGE);
    reply := ThenFinish(w, steps, map[0 := Row(used)], 0, streaming, MAX_CHARGE, atOnce);
  }

  /** And then `finished` of them end at the largest charge. */
  lemma {:induction false} ReachFinish(begun: nat, finished: nat, atOnce: nat) returns (w: World, steps: seq<Step>)
    requires finished <= begun <= atOnce && atOnce >= 1 && 1499 + MAX_CHARGE * finished <= I32_MAX
    ensures Fresh(w) && Reaches(w, steps, map[0 := Row(1499 + MAX_CHARGE * finished)], begun - finished, atOnce)
    ensures NoCommits(steps)
  {
    if finished == 0 {
      w, steps := ReachOpen(begun, atOnce);
    } else {
      w, steps := ReachFinish(begun, finished - 1, atOnce);
      var reply := FinishRow(w, steps, 1499 + MAX_CHARGE * (finished - 1), begun - finished + 1, atOnce);
      steps := steps + [Finish(reply)];
    }
  }

  /** For every number of streams within 32 bits some run does reach the overshoot bound. */
  lemma BoundIsReached(atOnce: nat) returns (w: World, steps: seq<Step>)
    requires 1 <= atOnce <= 124
    ensures Fresh(w) && ValidRun(w, steps, 1500, MAX_CHARGE, atOnce) && AllFit(w, steps, 1500, MAX_CHARGE, atOnce)
    ensures 0 in RunSteps(w, steps).db.subs
    ensures RunSteps(w, steps).db.subs[0].creditsUsed == 1500 - 1 + MAX_CHARGE * atOnce
  {
    w, steps := ReachFinish(atOnce, atOnce, atOnce);
    AllFitWithoutEvents(w, steps, 1500, MAX_CHARGE, atOnce);
  }

  /** 124 is the most: with 125 streams at once some run ends in a charge that overflows and is lost. */
  lemma OverflowAt125() returns (w: World, steps: seq<Step>, r: Reply)
    ensures Fresh(w) && ValidRun(w, steps + [Finish(r)], 1500, MAX_CHARGE, 125)
    ensures AllFit(w, steps + [Finish(r)], 1500, MAX_CHARGE, 125)
    ensures var v := RunSteps(w, steps);
            && 0 in v.db.subs && PaysFor(v.db.subs[0], r.user) && r.commits
            && v.db.subs[0].creditsUsed + Charge(r) > I32_MAX
            && RunSteps(w, steps + [Finish(r)]).db == v.db
  {
    w, steps := ReachFinish(125, 124, 125);
    r := ReplyCosting(0, MAX_CHARGE);
    var v := RunSteps(w, steps);
    RowPays(1499 + MAX_CHARGE * 124, 0);
    FinishOne(v, v.db.subs, 0, 1, r, MAX_CHARGE, 125);
    ExtendRun(w, steps, Finish(r), 1500, MAX_CHARGE, 125);
    AllFitWithoutEvents(w, steps + [Finish(r)], 1500, MAX_CHARGE, 125);
  }

  // ---- Where an activated row does not fit, the bound can be passed ----

  ghost predicate BoundHolds(w: World, cap: int, charge: int, atOnce: nat) {
    forall r :: r in w.db.subs ==> w.db.subs[r].creditsUsed <= cap - 1 + charge * atOnce
  }

  /** One of the open streams of the user of this billable row ends, at a cost of our choice. */
  lemma FinishAt(w: World, r: RowId, cost: int, cap: int, charge: int, atOnce: nat) returns (s: Step)
    requires TableOk(w.db.subs) && r in w.db.subs && Billable(w.db.subs[r].status) && w.Streaming(w.db.subs[r].user) > 0
    requires 1 <= cost <= charge && cost <= MAX_CHARGE && 0 <= w.db.subs[r].creditsUsed
    requires w.db.subs[r].creditsUsed + cost <= I32_MAX
    ensures s.Finish? && Enabled(w, s, cap, charge, atOnce)
    ensures Next(w, s).db.subs == Raised(w.db.subs, r, cost) && TableOk(Next(w, s).db.subs)
    ensures Next(w, s).Streaming(w.db.subs[r].user) == w.Streaming(w.db.subs[r].user) - 1
  {
    var t, u := w.db.subs, w.db.subs[r].user;
    var reply := ReplyCosting(u, cost);
    assert forall q :: q in t && q != r ==> NoClash(t[r], t[q]);
    PayerIsCharged(t, r, cost);
    ApplyKeepsTable(w.db, Settle(reply));
    s := Finish(reply);
  }

  lemma FinishStep(w: World, steps: seq<Step>, r: RowId, cost: int, cap: int, charge: int, atOnce: nat) returns (more: seq<Step>)
    requires ValidRun(w, steps, cap, charge, atOnce) && AllFit(w, steps, cap, charge, atOnce)
    requires var v := RunSteps(w, steps);
             && TableOk(v.db.subs) && r in v.db.subs && Billable(v.db.subs[r].status) && v.Streaming(v.db.subs[r].user) > 0
             && 1 <= cost <= charge && cost <= MAX_CHARGE
             && 0 <= v.db.subs[r].creditsUsed && v.db.subs[r].creditsUsed + cost <= I32_MAX
    ensures ValidRun(w, more, cap, charge, atOnce) && AllFit(w, more, cap, charge, atOnce)
    ensures var v, v' := RunSteps(w, steps), RunSteps(w, more);
            && TableOk(v'.db.subs) && v'.db.subs == Raised(v.db.subs, r, cost)
            && v'.Streaming(v.db.subs[r].user) == v.Streaming(v.db.subs[r].user) - 1
  {
    var s := FinishAt(RunSteps(w, steps), r, cost, cap, charge, atOnce);
    ExtendRun(w, steps, s, cap, charge, atOnce);
    assert (steps + [s])[..|steps|] == steps;
    more := steps + [s];
  }

  /** The open streams of a user can take a billable row past any bound they leave no room under. */
  lemma {:induction false} StreamsPass(w: World, steps: seq<Step>, r: RowId, bound: int, cap: int, charge: int, atOnce: nat)
    returns (more: seq<Step>)
    requires 1 <= charge <= MAX_CHARGE
    requires ValidRun(w, steps, cap, charge, atOnce) && AllFit(w, steps, cap, charge, atOnce)
    requires var v := RunSteps(w, steps);
             && TableOk(v.db.subs) && r in v.db.subs && Billable(v.db.subs[r].status)
             && 0 <= v.db.subs[r].creditsUsed <= bound < I32_MAX
             && v.db.subs[r].creditsUsed + charge * v.Streaming(v.db.subs[r].user) > bound
    ensures ValidRun(w, more, cap, charge, atOnce) && AllFit(w, more, cap, charge, atOnce)
    ensures r in RunSteps(w, more).db.subs && RunSteps(w, more).db.subs[r].creditsUsed > bound
    decreases var v := RunSteps(w, steps); if r in v.db.subs then v.Streaming(v.db.subs[r].user) else 0
  {
    var v := RunSteps(w, steps);
    var used, n := v.db.subs[r].creditsUsed, v.Streaming(v.db.subs[r].user);
    if n == 0 {
      assert false;
    }
    Scaled(charge, n - 1, n);
    var cost := if used + charge > bound then bound + 1 - used else charge;
    more := FinishStep(w, steps, r, cost, cap, charge, atOnce);
    if used + charge <= bound {
      more := StreamsPass(w, more, r, bound, cap, charge, atOnce);
    }
  }

  /**
   The condition is exact for the bound itself. After a webhook or usage report, every
   continuation in which later events fit keeps the bound if and only if this one fits; for
   any cap and largest charge with the bound inside 32 bits, so for 1500 and the real one up
   to 124 streams.
   */
  lemma BoundSurvivesIff(w: World, a: Action, cap: int, charge: int, atOnce: nat)
    requires cap >= 1 && 1 <= charge <= MAX_CHARGE && cap - 1 + charge * atOnce < I32_MAX
    requires Within(w, cap, charge, atOnce) && !a.Settle?
    ensures var w' := Next(w, Commit(a));
            (forall more :: ValidRun(w', more, cap, charge, atOnce) && AllFit(w', more, cap, charge, atOnce)
               ==> BoundHolds(RunSteps(w', more), cap, charge, atOnce))
            <==> Fits(w, Commit(a), cap, charge, atOnce)
  {
    var w' := Next(w, Commit(a));
    if Fits(w, Commit(a), cap, charge, atOnce) {
      CommitKeepsWithinIff(w, a, cap, charge, atOnce);
      forall more | ValidRun(w', more, cap, charge, atOnce) && AllFit(w', more, cap, charge, atOnce)
        ensures BoundHolds(RunSteps(w', more), cap, charge, atOnce)
      {
        RunStaysWithin(w', more, cap, charge, atOnce);
        WithinHolds(RunSteps(w', more), cap, charge, atOnce);
      }
    } else {
      var more, r := MisfitPasses(w, a, cap, charge, atOnce);
      assert !BoundHolds(RunSteps(w', more), cap, charge, atOnce);
    }
  }

  lemma WithinHolds(w: World, cap: int, charge: int, atOnce: nat)
    requires Within(w, cap, charge, atOnce)
    ensures BoundHolds(w, cap, charge, atOnce)
  {
    forall r | r in w.db.subs
      ensures w.db.subs[r].creditsUsed <= cap - 1 + charge * atOnce
    {
      assert RowWithin(w.db.subs[r], w.Streaming(w.db.subs[r].user), cap, charge, atOnce);
    }
  }

  /** An activation that does not fit lets the streams already open pass the bound. */
  lemma MisfitPasses(w: World, a: Action, cap: int, charge: int, atOnce: nat) returns (more: seq<Step>, r: RowId)
    requires cap >= 1 && 1 <= charge <= MAX_CHARGE && cap - 1 + charge * atOnce < I32_MAX
    requires Within(w, cap, charge, atOnce) && !a.Settle?
    requires !Fits(w, Commit(a), cap, charge, atOnce)
    ensures var w' := Next(w, Commit(a));
            && ValidRun(w', more, cap, charge, atOnce) && AllFit(w', more, cap, charge, atOnce)
            && r in RunSteps(w', more).db.subs
            && RunSteps(w', more).db.subs[r].creditsUsed > cap - 1 + charge * atOnce
  {
    var w' := Next(w, Commit(a));
    var t, t' := w.db.subs, w'.db.subs;
    r :| Activates(t, t', r) && t[r].creditsUsed + charge * w.Streaming(t[r].user) > cap - 1 + charge * atOnce;
    assert RowWithin(t[r], w.Streaming(t[r].user), cap, charge, atOnce);
    CommitEffect(w.db, a, r);
    ApplyKeepsTable(w.db, a);
    assert RunSteps(w', []) == w';
    more := StreamsPass(w', [], r, cap - 1 + charge * atOnce, cap, charge, atOnce);
  }

  // ---- An event that activates a row while a stream is open can pass the bound ----

  function Seat(i: RowId, used: int, status: Status): Subscription {
    Subscription(0, i, Some(if i == 0 then "c0" else "c1"), Some(if i == 0 then "s0" else "s1"),
                 "pro", status, None, None, false, used, None)
  }

  /** Two rows of one user, at most one of them billable. */
  function Two(used: int, status: Status, used': int, status': Status): Subscriptions {
    map[0 := Seat(0, used, status), 1 := Seat(1, used', status')]
  }

  /** The event that gives a row a new status and changes nothing else of it. */
  function StatusEvent(s: Subscription, status: Status, id: string): Step
    requires s.customer.Some? && s.stripeId.Some?
  {
    var o := SubscriptionObject(s.customer.value, s.stripeId.value, s.tier, Some(status),
                                s.periodStart, s.periodEnd, s.cancelAtPeriodEnd);
    Commit(Deliver(Delivery(id, "", SubscriptionChanged(o), true)))
  }

  lemma {:induction false} UpsertSetsStatus(t: Subscriptions, r: RowId, status: Status, id: string)
    requires TableOk(t) && r in t && t[r].customer.Some? && t[r].stripeId.Some?
    requires TableOk(t[r := t[r].(status := status)])
    ensures Effect(t, StatusEvent(t[r], status, id).action.delivery.body) == Some(t[r := t[r].(status := status)])
  {
    var o := StatusEvent(t[r], status, id).action.delivery.body.sub;
    assert forall q :: q in t && q != r ==> NoClash(t[r], t[q]);
    assert Upsert(t, o) == t[r := t[r].(status := status)];
    assert KnownCustomer(t, o.customer);
  }

  lemma ThenStatus(w: World, steps: seq<Step>, t: Subscriptions, r: RowId, streaming: nat,
                   status: Status, id: string, atOnce: nat)
    requires Reaches(w, steps, t, streaming, atOnce) && id !in Seen(w, steps)
    requires TableOk(t) && r in t && t[r].customer.Some? && t[r].stripeId.Some? && TableOk(t[r := t[r].(status := status)])
    ensures Reaches(w, steps + [StatusEvent(t[r], status, id)], t[r := t[r].(status := status)], streaming, atOnce)
    ensures Seen(w, steps + [StatusEvent(t[r], status, id)]) == Seen(w, steps) + {id}
  {
    UpsertSetsStatus(t, r, status, id);
    ExtendRun(w, steps, StatusEvent(t[r], status, id), 1500, MAX_CHARGE, atOnce);
  }

  ghost predicate AtMostOneBillable(a: Status, b: Status) { !Billable(a) || !Billable(b) }

  lemma TwoRows(used: int, status: Status, used': int, status': Status)
    requires AtMostOneBillable(status, status') && 0 <= used <= I32_MAX && 0 <= used' <= I32_MAX
    ensures var t := Two(used, status, used', status');
            && TableOk(t)
            && (Billable(status) ==> IsPayer(t, 0, 0)) && (Billable(status') ==> IsPayer(t, 1, 0))
  {
    var t := Two(used, status, used', status');
    assert "c0"[1] != "c1"[1] && "s0"[1] != "s1"[1];
    assert RowOk(t[0]) && RowOk(t[1]);
    assert NoClash(t[0], t[1]) && NoClash(t[1], t[0]);
  }

  /** A run to these two rows, with these events seen. */
  ghost predicate ReachesTwo(w: World, steps: seq<Step>, used: int, s: Status, s': Status, streaming: nat, seen: set<string>) {
    && Fresh(w) && Reaches(w, steps, Two(used, s, 0, s'), streaming, 1) && Seen(w, steps) == seen
    && AtMostOneBillable(s, s') && 0 <= used <= I32_MAX
  }

  /** An event gives one of the rows a new status. */
  lemma {:induction false} Switch(w: World, steps: seq<Step>, used: int, s: Status, s': Status, to: Status, to': Status,
                                  streaming: nat, seen: set<string>, id: string)
    returns (e: Step)
    requires ReachesTwo(w, steps, used, s, s', streaming, seen) && id !in seen
    requires (to == s || to' == s') && AtMostOneBillable(to, to')
    ensures ReachesTwo(w, steps + [e], used, to, to', streaming, seen + {id})
  {
    TwoRows(used, s, 0, s');
    TwoRows(used, to, 0, to');
    var t := Two(used, s, 0, s');
    if to' == s' {
      assert t[0 := t[0].(status := to)] == Two(used, to, 0, to');
      ThenStatus(w, steps, t, 0, streaming, to, id, 1);
      e := StatusEvent(t[0], to, id);
    } else {
      assert t[1 := t[1].(status := to')] == Two(used, to, 0, to');
      ThenStatus(w, steps, t, 1, streaming, to', id, 1);
      e := StatusEvent(t[1], to', id);
    }
  }

  lemma OpenTwo(w: World, steps: seq<Step>, used: int, s: Status, s': Status, seen: set<string>)
    requires ReachesTwo(w, steps, used, s, s', 0, seen)
    requires if s.Active? then used == 0 else s'.Active?
    ensures ReachesTwo(w, steps + [Open(0, Simple)], used, s, s', 1, seen)
  {
    TwoRows(used, s, 0, s');
    ThenOpen(w, steps, Two(used, s, 0, s'), if s.Active? then 0 else 1, 0, 1);
  }

  lemma RaisedTwo(used: int, s: Status, s': Status, cost: int)
    ensures Raised(Two(used, s, 0, s'), 0, cost) == Two(used + cost, s, 0, s')
  {
  }

  lemma FinishFirst(w: World, steps: seq<Step>, used: int, s: Status, s': Status, seen: set<string>)
    returns (reply: Reply)
    requires ReachesTwo(w, steps, used, s, s', 1, seen) && s.Active? && used + MAX_CHARGE <= I32_MAX
    ensures ReachesTwo(w, steps + [Finish(reply)], used + MAX_CHARGE, s, s', 0, seen)
  {
    TwoRows(used, s, 0, s');
    RaisedTwo(used, s, s', MAX_CHARGE);
    reply := ThenFinish(w, steps, Two(used, s, 0, s'), 0, 1, MAX_CHARGE, 1);
  }

  lemma BeginTwo() returns (w: World, steps: seq<Step>)
    ensures ReachesTwo(w, steps, 0, Active, Canceled, 0, {})
  {
    TwoRows(0, Active, 0, Canceled);
    w := Begin(Two(0, Active, 0, Canceled), 1);
    steps := [];
  }

  /** The first row spends, is cancelled, and the second takes over and opens a stream. */
  lemma SecondRowStreams() returns (w: World, steps: seq<Step>)
    ensures ReachesTwo(w, steps, MAX_CHARGE, Canceled, Active, 1, {"1", "2"})
  {
    w, steps := BeginTwo();
    OpenTwo(w, steps, 0, Active, Canceled, {});
    steps := steps + [Open(0, Simple)];
    var reply := FinishFirst(w, steps, 0, Active, Canceled, {});
    steps := steps + [Finish(reply)];
    var e := Switch(w, steps, MAX_CHARGE, Active, Canceled, Canceled, Canceled, 0, {}, "1");
    steps := steps + [e];
    e := Switch(w, steps, MAX_CHARGE, Canceled, Canceled, Canceled, Active, 0, {"1"}, "2");
    steps := steps + [e];
    assert {"1"} + {"2"} == {"1", "2"};
    OpenTwo(w, steps, MAX_CHARGE, Canceled, Active, {"1", "2"});
    steps := steps + [Open(0, Simple)];
  }

  /**
   Such a misfit can be reached from zero: while the stream is open the rows change places
   again, and the charge lands on the row that has no room for it. PostgreSQL refuses these
   upserts as long as the insert names no team (see `EventMirrorsSubscription`); this is
   about the update arm that the statement is written for.
   */
  lemma EventsCanPassBound() returns (w: World, steps: seq<Step>)
    ensures Fresh(w) && ValidRun(w, steps, 1500, MAX_CHARGE, 1)
    ensures 0 in RunSteps(w, steps).db.subs
    ensures RunSteps(w, steps).db.subs[0].creditsUsed > 1500 - 1 + MAX_CHARGE * 1
  {
    w, steps := SecondRowStreams();
    var e := Switch(w, steps, MAX_CHARGE, Canceled, Active, Canceled, Canceled, 1, {"1", "2"}, "3");
    steps := steps + [e];
    var seen := {"1", "2"} + {"3"};
    e := Switch(w, steps, MAX_CHARGE, Canceled, Canceled, Active, Canceled, 1, seen, "4");
    steps := steps + [e];
    var reply := FinishFirst(w, steps, MAX_CHARGE, Active, Canceled, seen + {"4"});
    steps := steps + [Finish(reply)];
  }
}
