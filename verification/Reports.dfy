/**
 The monthly report table: enqueueing by the cron job and on demand, and the worker that
 drains the oldest pending rows five at a time. A worker tick is a fetch and then one
 update per fetched row; ticks may overlap, and rows may arrive in between.
 */
module Reports {
  import opened Wrappers
  import opened Calendar

  type UserId = nat
  type ReportId = nat

  const WORKER_PARALLELISM: nat := 5

  datatype Status = Pending | Succeeded | Failed

  datatype Report = Report(user: UserId, start: Date, end: Date, requestedAt: int, status: Status)

  type Rows = map<ReportId, Report>

  // ---- Enqueueing ----

  predicate HasPeriod(rows: Rows, user: UserId, start: Date) {
    exists id :: id in rows && rows[id].user == user && rows[id].start == start
  }

  ghost predicate UniquePeriods(rows: Rows) {
    forall a, b :: a in rows && b in rows && a != b ==> rows[a].user != rows[b].user || rows[a].start != rows[b].start
  }

  ghost predicate MonthRows(rows: Rows) {
    forall id :: id in rows ==> IsMonth(rows[id].start, rows[id].end)
  }

  ghost predicate IsMonth(start: Date, end: Date) {
    exists i :: CoversMonth(start, end, i)
  }

  ghost predicate Overlap(a: Report, b: Report)
    requires a.start.month >= 1 && a.end.month >= 1 && b.start.month >= 1 && b.end.month >= 1
  {
    Ordinal(a.start) <= Ordinal(b.end) && Ordinal(b.start) <= Ordinal(a.end)
  }

  /** The unique key on the start day is enough: the periods of one user never share a day. */
  lemma PeriodsAreDisjoint(rows: Rows, a: ReportId, b: ReportId)
    requires UniquePeriods(rows) && MonthRows(rows)
    requires a in rows && b in rows && a != b && rows[a].user == rows[b].user
    ensures rows[a].start.month >= 1 && rows[a].end.month >= 1 && rows[b].start.month >= 1 && rows[b].end.month >= 1
    ensures !Overlap(rows[a], rows[b])
  {
    assert IsMonth(rows[a].start, rows[a].end) && IsMonth(rows[b].start, rows[b].end);
    var i :| CoversMonth(rows[a].start, rows[a].end, i);
    var j :| CoversMonth(rows[b].start, rows[b].end, j);
    WindowsTile(rows[a].start, rows[a].end, i, rows[b].start, rows[b].end, j);
    WindowsTile(rows[b].start, rows[b].end, j, rows[a].start, rows[a].end, i);
  }

  // ---- The worker's choice ----

  function PendingIds(rows: Rows): set<ReportId> {
    set id | id in rows && rows[id].status == Pending
  }

  /** A legal answer of the fetch: pending, at most five, none passed over for a later one. */
  ghost predicate Oldest(rows: Rows, chosen: set<ReportId>) {
    && chosen <= PendingIds(rows)
    && |chosen| <= WORKER_PARALLELISM
    && (|chosen| < WORKER_PARALLELISM ==> chosen == PendingIds(rows))
    && forall c, p :: c in chosen && p in PendingIds(rows) && p !in chosen ==> rows[c].requestedAt <= rows[p].requestedAt
  }

  lemma {:induction false} EarliestExists(rows: Rows, ids: set<ReportId>)
    requires ids != {} && forall id :: id in ids ==> id in rows
    ensures exists id :: id in ids && IsEarliest(rows, ids, id)
    decreases |ids|
  {
    var x :| x in ids;
    var rest := ids - {x};
    if rest == {} {
      assert ids == {x};
      assert IsEarliest(rows, ids, x);
    } else {
      EarliestExists(rows, rest);
      var y :| y in rest && IsEarliest(rows, rest, y);
      if rows[x].requestedAt <= rows[y].requestedAt {
        assert IsEarliest(rows, ids, x);
      } else {
        assert IsEarliest(rows, ids, y);
      }
    }
  }

  predicate IsEarliest(rows: Rows, ids: set<ReportId>, id: ReportId)
    requires id in ids && forall q :: q in ids ==> q in rows
  {
    forall q :: q in ids ==> rows[id].requestedAt <= rows[q].requestedAt
  }

  // ---- The table ----

  ghost predicate Keeps(before: Rows, after: Rows) {
    forall id :: id in before ==> id in after && after[id] == before[id]
  }

  /** Old rows are kept, and every new row is a pending report of this period for a listed user. */
  ghost predicate Grown(before: Rows, after: Rows, users: seq<UserId>, start: Date, end: Date, now: int) {
    && Keeps(before, after)
    && (forall id :: id in after && id !in before ==>
          after[id] == Report(after[id].user, start, end, now, Pending) && after[id].user in users)
  }

  lemma InsertGrows(first: Rows, before: Rows, id: ReportId, r: Report, users: seq<UserId>)
    requires Grown(first, before, users, r.start, r.end, r.requestedAt)
    requires id !in before && r.status == Pending && r.user in users
    ensures Grown(first, before[id := r], users, r.start, r.end, r.requestedAt)
    ensures |before[id := r]| == |before| + 1
  {
  }

  ghost predicate Covered(rows: Rows, users: seq<UserId>, failing: set<UserId>, start: Date) {
    forall u :: u in users && u !in failing ==> HasPeriod(rows, u, start)
  }

  lemma CoversOneMore(before: Rows, after: Rows, users: seq<UserId>, i: nat, failing: set<UserId>, start: Date)
    requires i < |users| && Covered(before, users[..i], failing, start)
    requires Keeps(before, after)
    requires users[i] in failing || HasPeriod(after, users[i], start)
    ensures Covered(after, users[..i + 1], failing, start)
  {
    forall u | u in users[..i + 1] && u !in failing
      ensures HasPeriod(after, u, start)
    {
      if u != users[i] {
        assert u in users[..i];
        var id :| id in before && before[id].user == u && before[id].start == start;
        assert id in after && after[id] == before[id];
      }
    }
  }

  lemma InsertKeepsPeriods(rows: Rows, id: ReportId, r: Report)
    requires UniquePeriods(rows) && id !in rows && !HasPeriod(rows, r.user, r.start)
    ensures UniquePeriods(rows[id := r])
    ensures MonthRows(rows) && IsMonth(r.start, r.end) ==> MonthRows(rows[id := r])
  {
  }

  lemma MarkKeepsPeriods(rows: Rows, id: ReportId, status: Status)
    requires UniquePeriods(rows) && id in rows
    ensures var after := rows[id := rows[id].(status := status)];
            UniquePeriods(after) && (MonthRows(rows) ==> MonthRows(after))
  {
    var after := rows[id := rows[id].(status := status)];
    assert forall q :: q in after ==> after[q].(status := Pending) == rows[q].(status := Pending);
    assert forall q :: q in after ==> after[q].start == rows[q].start && after[q].end == rows[q].end;
  }

  class ReportTable {
    var rows: Rows
    var nextId: ReportId

    ghost predicate Valid()
      reads this
    {
      UniquePeriods(rows) && forall id :: id in rows ==> id < nextId
    }

    constructor ()
      ensures Valid() && MonthRows(rows) && rows == map[]
    {
      rows, nextId := map[], 0;
    }

    /** Insert, unless the user already has a row with this start day. */
    method EnqueuePending(user: UserId, start: Date, end: Date, now: int) returns (inserted: bool)
      requires Valid()
      modifies this
      ensures Valid() && (MonthRows(old(rows)) && IsMonth(start, end) ==> MonthRows(rows))
      ensures inserted <==> !HasPeriod(old(rows), user, start)
      ensures rows == if inserted then old(rows)[old(nextId) := Report(user, start, end, now, Pending)] else old(rows)
      ensures HasPeriod(rows, user, start) && Keeps(old(rows), rows)
      ensures nextId == if inserted then old(nextId) + 1 else old(nextId)
    {
      inserted := !HasPeriod(rows, user, start);
      if inserted {
        var r := Report(user, start, end, now, Pending);
        InsertKeepsPeriods(rows, nextId, r);
        rows := rows[nextId := r];
        assert nextId in rows && rows[nextId].user == user && rows[nextId].start == start;
        nextId := nextId + 1;
      }
    }

    /** The loop of the cron job. `failing` are the users whose insert errors; they are skipped. */
    method EnqueueAll(users: seq<UserId>, failing: set<UserId>, start: Date, end: Date, now: int) returns (inserted: nat)
      requires Valid()
      modifies this
      ensures Valid() && (MonthRows(old(rows)) && IsMonth(start, end) ==> MonthRows(rows))
      ensures |rows| == |old(rows)| + inserted
      ensures Grown(old(rows), rows, users, start, end, now)
      ensures Covered(rows, users, failing, start)
    {
      inserted := 0;
      for i := 0 to |users|
        invariant Valid() && (MonthRows(old(rows)) && IsMonth(start, end) ==> MonthRows(rows))
        invariant |rows| == |old(rows)| + inserted
        invariant Grown(old(rows), rows, users, start, end, now)
        invariant Covered(rows, users[..i], failing, start)
      {
        ghost var before, id := rows, nextId;
        if users[i] !in failing {
          var ok := EnqueuePending(users[i], start, end, now);
          if ok {
            InsertGrows(old(rows), before, id, Report(users[i], start, end, now, Pending), users);
            inserted := inserted + 1;
          }
        }
        CoversOneMore(before, rows, users, i, failing, start);
      }
      assert users[..|users|] == users;
    }

    /** The cron job: last month's report for every subscriber, counting the new rows. */
    method RunEnqueue(users: seq<UserId>, failing: set<UserId>, today: Date, now: int) returns (inserted: nat)
      requires Valid() && Exists(today)
      modifies this
      ensures Valid() && (MonthRows(old(rows)) ==> MonthRows(rows))
      ensures |rows| == |old(rows)| + inserted
      ensures match PreviousMonthWindow(today)
              case None => rows == old(rows)
              case Some((start, end)) =>
                && Grown(old(rows), rows, users, start, end, now)
                && Covered(rows, users, failing, start)
    {
      WindowIsPreviousMonth(today);
      match PreviousMonthWindow(today) {
        case None =>
          inserted := 0;
        case Some((start, end)) =>
          inserted := EnqueueAll(users, failing, start, end, now);
      }
    }

    /** On demand, for one user: afterwards the row is there, new or old. */
    method RequestMonthlyReport(user: UserId, today: Date, now: int) returns (inserted: bool, id: Option<ReportId>)
      requires Valid() && Exists(today)
      modifies this
      ensures Valid() && (MonthRows(old(rows)) ==> MonthRows(rows))
      ensures Keeps(old(rows), rows)
      ensures match PreviousMonthWindow(today)
              case None => id == None && rows == old(rows)
              case Some((start, end)) =>
                && id.Some? && id.value in rows
                && rows[id.value].user == user && rows[id.value].start == start
                && (inserted <==> id.value !in old(rows))
                && (!inserted ==> rows == old(rows))
    {
      WindowIsPreviousMonth(today);
      match PreviousMonthWindow(today) {
        case None =>
          inserted, id := false, None;
        case Some((start, end)) =>
          inserted := EnqueuePending(user, start, end, now);
          var q :| q in rows && rows[q].user == user && rows[q].start == start;
          id := Some(q);
      }
    }

    /** The fetch: pick the earliest pending row, up to five times. */
    method FetchPending() returns (chosen: set<ReportId>)
      ensures Oldest(rows, chosen)
    {
      chosen := {};
      var rest := PendingIds(rows);
      while rest != {} && |chosen| < WORKER_PARALLELISM
        invariant chosen !! rest && chosen + rest == PendingIds(rows)
        invariant |chosen| <= WORKER_PARALLELISM
        invariant forall c, p :: c in chosen && p in rest ==> rows[c].requestedAt <= rows[p].requestedAt
        decreases rest
      {
        EarliestExists(rows, rest);
        var id :| id in rest && IsEarliest(rows, rest, id);
        chosen := chosen + {id};
        rest := rest - {id};
      }
    }

    /** `mark_succeeded` or `mark_failed`; the update does not look at the old status. */
    method Mark(id: ReportId, succeeded: bool)
      requires Valid()
      modifies this`rows
      ensures Valid() && (MonthRows(old(rows)) ==> MonthRows(rows))
      ensures rows == if id in old(rows)
                      then old(rows)[id := old(rows)[id].(status := if succeeded then Succeeded else Failed)]
                      else old(rows)
    {
      var status := if succeeded then Succeeded else Failed;
      if id in rows {
        MarkKeepsPeriods(rows, id, status);
        rows := rows[id := rows[id].(status := status)];
      }
    }

    /**
     One worker tick. `ok` tells for which rows the success update works and `fallback`
     for which the failure update does; a row for which neither works stays pending.
     */
    method RunWorkerTick(ok: set<ReportId>, fallback: set<ReportId>) returns (chosen: set<ReportId>, settled: set<ReportId>)
      requires Valid()
      modifies this`rows
      ensures Valid() && (MonthRows(old(rows)) ==> MonthRows(rows))
      ensures TickStep(old(rows), rows, chosen, settled, ok)
      ensures forall id :: id in settled ==> id in rows && rows[id].status == if id in ok then Succeeded else Failed
      ensures settled == set id | id in chosen && (id in ok || id in fallback)
    {
      chosen := FetchPending();
      settled := set id | id in chosen && (id in ok || id in fallback);
      MarkAll(settled, ok);
    }

    /** The worker's tasks, in any order. */
    method MarkAll(ids: set<ReportId>, ok: set<ReportId>)
      requires Valid() && forall id :: id in ids ==> id in rows
      modifies this`rows
      ensures Valid() && (MonthRows(old(rows)) ==> MonthRows(rows))
      ensures AllSettled(old(rows), rows, ids)
      ensures forall id :: id in ids ==> id in rows && rows[id].status == if id in ok then Succeeded else Failed
    {
      var done: set<ReportId> := {};
      while ids - done != {}
        invariant Valid() && (MonthRows(old(rows)) ==> MonthRows(rows))
        invariant done <= ids && AllSettled(old(rows), rows, done)
        invariant forall id :: id in done ==> id in rows && rows[id].status == if id in ok then Succeeded else Failed
        decreases ids - done
      {
        var id :| id in ids - done;
        MarkSettles(old(rows), rows, done, id, if id in ok then Succeeded else Failed);
        Mark(id, id in ok);
        done := done + {id};
      }
      assert done == ids;
    }
  }

  ghost predicate Settled(before: Report, after: Report, settled: bool) {
    && after == before.(status := after.status)
    && if settled then after.status != Pending else after == before
  }

  /** A tick, as a relation: an oldest choice, of which the settled part is marked succeeded where `ok`, else failed. */
  ghost predicate TickStep(rows: Rows, rows': Rows, chosen: set<ReportId>, settled: set<ReportId>, ok: set<ReportId>) {
    && Oldest(rows, chosen) && settled <= chosen && AllSettled(rows, rows', settled)
    && forall id :: id in settled ==> id in rows' && rows'[id].status == if id in ok then Succeeded else Failed
  }

  ghost predicate AllSettled(rows: Rows, rows': Rows, settled: set<ReportId>) {
    rows'.Keys == rows.Keys && forall id :: id in rows ==> Settled(rows[id], rows'[id], id in settled)
  }

  lemma MarkSettles(first: Rows, rows: Rows, settled: set<ReportId>, id: ReportId, status: Status)
    requires AllSettled(first, rows, settled) && id in first && status != Pending
    ensures AllSettled(first, rows[id := rows[id].(status := status)], settled + {id})
  {
    var after := rows[id := rows[id].(status := status)];
    forall q | q in first
      ensures Settled(first[q], after[q], q in settled + {id})
    {
      assert Settled(first[q], rows[q], q in settled);
    }
  }

  // ---- Runs: arrivals, fetches and updates in any order ----

  type TickId = nat

  /** The rows, and for each worker tick the rows it fetched and has yet to settle. */
  datatype Queue = Queue(rows: Rows, ticks: map<TickId, set<ReportId>>)

  /** An update that fails in both forms, or a crash, is an update that does not come. */
  datatype Event =
    | Arrive(id: ReportId, user: UserId, today: Date, now: int)
    | Fetch(tick: TickId, chosen: set<ReportId>)
    | Settle(tick: TickId, id: ReportId, status: Status)

  /** The insert of last month's report, by the cron job or on demand. */
  ghost predicate Arrives(rows: Rows, id: ReportId, user: UserId, today: Date, now: int, rows': Rows)
    requires Exists(today)
  {
    match PreviousMonthWindow(today)
    case None => rows' == rows
    case Some((start, end)) =>
      rows' == if HasPeriod(rows, user, start) then rows else rows[id := Report(user, start, end, now, Pending)]
  }

  ghost predicate Step(q: Queue, e: Event, q': Queue) {
    match e
    case Arrive(id, user, today, now) =>
      Exists(today) && id !in q.rows && Arrives(q.rows, id, user, today, now, q'.rows) && q'.ticks == q.ticks
    case Fetch(k, chosen) => k !in q.ticks && Oldest(q.rows, chosen) && q' == q.(ticks := q.ticks[k := chosen])
    case Settle(k, id, status) =>
      && k in q.ticks && id in q.ticks[k] && id in q.rows && status != Pending
      && q' == Queue(q.rows[id := q.rows[id].(status := status)], q.ticks[k := q.ticks[k] - {id}])
  }

  ghost predicate Trace(qs: seq<Queue>, events: seq<Event>) {
    |qs| == |events| + 1 && forall i :: 0 <= i < |events| ==> Step(qs[i], events[i], qs[i + 1])
  }

  lemma StepKeepsRow(q: Queue, e: Event, q': Queue, id: ReportId)
    requires Step(q, e, q') && id in q.rows
    ensures id in q'.rows && q'.rows[id] == q.rows[id].(status := q'.rows[id].status)
    ensures q.rows[id].status != Pending ==> q'.rows[id].status != Pending
  {
  }

  /** No row is lost, and no row ever returns to pending. */
  lemma {:induction false} NeverPendingAgain(qs: seq<Queue>, events: seq<Event>, i: nat, j: nat, id: ReportId)
    requires Trace(qs, events) && i <= j < |qs| && id in qs[i].rows
    ensures id in qs[j].rows && qs[j].rows[id] == qs[i].rows[id].(status := qs[j].rows[id].status)
    ensures qs[i].rows[id].status != Pending ==> qs[j].rows[id].status != Pending
  {
    if i == j {
    } else {
      NeverPendingAgain(qs, events, i, j - 1, id);
      StepKeepsRow(qs[j - 1], events[j - 1], qs[j], id);
    }
  }

  lemma StepKeepsPeriods(q: Queue, e: Event, q': Queue)
    requires Step(q, e, q') && UniquePeriods(q.rows) && MonthRows(q.rows)
    ensures UniquePeriods(q'.rows) && MonthRows(q'.rows)
  {
    match e
    case Arrive(id, user, today, now) =>
      WindowIsPreviousMonth(today);
      match PreviousMonthWindow(today) {
        case None =>
        case Some((start, end)) =>
          if !HasPeriod(q.rows, user, start) {
            InsertKeepsPeriods(q.rows, id, Report(user, start, end, now, Pending));
          }
      }
    case Fetch(_, _) =>
    case Settle(_, id, status) => MarkKeepsPeriods(q.rows, id, status);
  }

  lemma {:induction false} RunKeepsPeriods(qs: seq<Queue>, events: seq<Event>, j: nat)
    requires Trace(qs, events) && qs[0].rows == map[] && j < |qs|
    ensures UniquePeriods(qs[j].rows) && MonthRows(qs[j].rows)
  {
    if j == 0 {
    } else {
      RunKeepsPeriods(qs, events, j - 1);
      StepKeepsPeriods(qs[j - 1], events[j - 1], qs[j]);
    }
  }

  /** In every run from the empty table, the periods of one user never share a day. */
  lemma PeriodsStayDisjoint(qs: seq<Queue>, events: seq<Event>, j: nat, a: ReportId, b: ReportId)
    requires Trace(qs, events) && qs[0].rows == map[] && j < |qs|
    requires a in qs[j].rows && b in qs[j].rows && a != b && qs[j].rows[a].user == qs[j].rows[b].user
    ensures var r, s := qs[j].rows[a], qs[j].rows[b];
            && r.start.month >= 1 && r.end.month >= 1 && s.start.month >= 1 && s.end.month >= 1
            && !Overlap(r, s)
  {
    RunKeepsPeriods(qs, events, j);
    PeriodsAreDisjoint(qs[j].rows, a, b);
  }

  // ---- Bounded waiting ----

  ghost function Ahead(rows: Rows, id: ReportId): set<ReportId>
    requires id in rows
  {
    set q | q in rows && q != id && rows[q].status == Pending && rows[q].requestedAt <= rows[id].requestedAt
  }

  /** The tick that fetched at event `f` has settled all it fetched by state `d`. */
  ghost predicate CleanTick(qs: seq<Queue>, events: seq<Event>, f: nat, d: nat)
    requires Trace(qs, events)
  {
    && f < d < |qs| && events[f].Fetch?
    && events[f].tick in qs[d].ticks && qs[d].ticks[events[f].tick] == {}
  }

  lemma {:induction false} SubsetSize(a: set<ReportId>, b: set<ReportId>)
    requires a <= b
    ensures |a| <= |b|
    decreases |a|
  {
    if a == {} {
    } else {
      var x :| x in a;
      SubsetSize(a - {x}, b - {x});
    }
  }

  lemma Shrinks(a: set<ReportId>, b: set<ReportId>, c: set<ReportId>)
    requires c <= b && a <= b - c
    ensures |a| + |c| <= |b|
  {
    assert b == (b - c) + c;
    SubsetSize(a, b - c);
  }

  /** A fetched row is still to be settled by its tick, or has left pending. */
  lemma {:induction false} FetchedIsSettled(qs: seq<Queue>, events: seq<Event>, f: nat, m: nat, id: ReportId)
    requires Trace(qs, events) && f < m < |qs| && events[f].Fetch? && id in events[f].chosen
    ensures events[f].tick in qs[m].ticks && id in qs[m].rows
    ensures id in qs[m].ticks[events[f].tick] || qs[m].rows[id].status != Pending
  {
    if m == f + 1 {
    } else {
      FetchedIsSettled(qs, events, f, m - 1, id);
      StepKeepsRow(qs[m - 1], events[m - 1], qs[m], id);
    }
  }

  ghost predicate OnlyLater(events: seq<Event>, i: nat, j: nat, t: int) {
    forall m :: i <= m < j && m < |events| && events[m].Arrive? ==> events[m].now > t
  }

  lemma StepAheadShrinks(q: Queue, e: Event, q': Queue, id: ReportId)
    requires Step(q, e, q') && id in q.rows && id in q'.rows
    requires e.Arrive? ==> e.now > q.rows[id].requestedAt
    ensures Ahead(q'.rows, id) <= Ahead(q.rows, id)
  {
    StepKeepsRow(q, e, q', id);
    forall p | p in Ahead(q'.rows, id)
      ensures p in Ahead(q.rows, id)
    {
      if p in q.rows {
        StepKeepsRow(q, e, q', p);
      }
    }
  }

  /** Only strictly later rows arriving, nobody gets ahead. */
  lemma {:induction false} AheadShrinks(qs: seq<Queue>, events: seq<Event>, i: nat, j: nat, id: ReportId)
    requires Trace(qs, events) && i <= j < |qs| && id in qs[i].rows && OnlyLater(events, i, j, qs[i].rows[id].requestedAt)
    ensures id in qs[j].rows && Ahead(qs[j].rows, id) <= Ahead(qs[i].rows, id)
  {
    if i == j {
    } else {
      NeverPendingAgain(qs, events, i, j - 1, id);
      NeverPendingAgain(qs, events, i, j, id);
      AheadShrinks(qs, events, i, j - 1, id);
      StepAheadShrinks(qs[j - 1], events[j - 1], qs[j], id);
    }
  }

  /** A clean tick that does not reach a pending row takes five rows from ahead of it. */
  lemma TickShortensQueue(qs: seq<Queue>, events: seq<Event>, f: nat, d: nat, id: ReportId)
    requires Trace(qs, events) && CleanTick(qs, events, f, d)
    requires id in qs[f].rows && OnlyLater(events, f, d, qs[f].rows[id].requestedAt)
    requires id in qs[d].rows && qs[d].rows[id].status == Pending
    ensures |Ahead(qs[d].rows, id)| + WORKER_PARALLELISM <= |Ahead(qs[f].rows, id)|
  {
    var rows, chosen := qs[f].rows, events[f].chosen;
    var a, a' := Ahead(rows, id), Ahead(qs[d].rows, id);
    NeverPendingAgain(qs, events, f, d, id);
    AheadShrinks(qs, events, f, d, id);
    forall c | c in chosen
      ensures c in qs[d].rows && qs[d].rows[c].status != Pending
    {
      FetchedIsSettled(qs, events, f, d, c);
    }
    assert Step(qs[f], events[f], qs[f + 1]) && Oldest(rows, chosen);
    assert id in PendingIds(rows) && id !in chosen;
    assert forall c :: c in chosen ==> c in a;
    Shrinks(a', a, chosen);
  }

  /** Clean ticks of which each fetched after the one before had settled everything. */
  ghost predicate OneAfterAnother(qs: seq<Queue>, events: seq<Event>, spans: seq<(nat, nat)>, n: nat)
    requires Trace(qs, events)
  {
    && (forall i :: 0 <= i < |spans| ==> CleanTick(qs, events, spans[i].0, spans[i].1) && spans[i].1 <= n)
    && (forall i, j :: 0 <= i < j < |spans| ==> spans[i].1 <= spans[j].0)
  }

  lemma {:induction false} QueueShortens(qs: seq<Queue>, events: seq<Event>, spans: seq<(nat, nat)>, n: nat, id: ReportId)
    requires Trace(qs, events) && n < |qs| && OneAfterAnother(qs, events, spans, n)
    requires id in qs[0].rows && OnlyLater(events, 0, n, qs[0].rows[id].requestedAt)
    requires id in qs[n].rows && qs[n].rows[id].status == Pending
    ensures |Ahead(qs[n].rows, id)| + WORKER_PARALLELISM * |spans| <= |Ahead(qs[0].rows, id)|
    decreases |spans|
  {
    if spans == [] {
      AheadShrinks(qs, events, 0, n, id);
      SubsetSize(Ahead(qs[n].rows, id), Ahead(qs[0].rows, id));
    } else {
      var front, last := spans[..|spans| - 1], spans[|spans| - 1];
      var (f, d) := last;
      assert CleanTick(qs, events, f, d);
      NeverPendingAgain(qs, events, 0, f, id);
      NeverPendingAgain(qs, events, f, d, id);
      NeverPendingAgain(qs, events, d, n, id);
      AheadShrinks(qs, events, d, n, id);
      SubsetSize(Ahead(qs[n].rows, id), Ahead(qs[d].rows, id));
      TickShortensQueue(qs, events, f, d, id);
      QueueShortens(qs, events, front, f, id);
    }
  }

  /**
   Bounded waiting. A pending row with k pending rows requested no later leaves pending by
   the time floor(k / 5) + 1 clean ticks have run one after another, whatever strictly later
   rows arrive, and whatever other ticks fail, crash or overlap with these.
   */
  lemma BoundedWaiting(qs: seq<Queue>, events: seq<Event>, spans: seq<(nat, nat)>, id: ReportId)
    requires Trace(qs, events) && OneAfterAnother(qs, events, spans, |events|)
    requires id in qs[0].rows && OnlyLater(events, 0, |events|, qs[0].rows[id].requestedAt)
    requires |spans| >= |Ahead(qs[0].rows, id)| / WORKER_PARALLELISM + 1
    ensures id in qs[|events|].rows && qs[|events|].rows[id].status != Pending
  {
    NeverPendingAgain(qs, events, 0, |events|, id);
    if qs[|events|].rows[id].status == Pending {
      QueueShortens(qs, events, spans, |events|, id);
    }
  }

  // ---- A whole tick is its own steps, and overlapping ticks count once ----

  lemma Prepend(q: Queue, e: Event, qs: seq<Queue>, events: seq<Event>)
    requires Trace(qs, events) && Step(q, e, qs[0])
    ensures Trace([q] + qs, [e] + events)
  {
  }

  lemma JoinTraces(qs: seq<Queue>, events: seq<Event>, qs': seq<Queue>, events': seq<Event>)
    requires Trace(qs, events) && Trace(qs', events') && qs[|events|] == qs'[0]
    ensures Trace(qs + qs'[1..], events + events')
    ensures (qs + qs'[1..])[|events| + |events'|] == qs'[|events'|]
  {
    var all, es := qs + qs'[1..], events + events';
    assert forall i :: 0 <= i < |qs'| ==> all[|events| + i] == qs'[i];
    forall i | 0 <= i < |es|
      ensures Step(all[i], es[i], all[i + 1])
    {
      if i >= |events| {
        var j := i - |events|;
        assert all[|events| + j] == qs'[j] && all[|events| + (j + 1)] == qs'[j + 1];
        assert Step(qs'[j], events'[j], qs'[j + 1]);
      } else {
        assert Step(qs[i], events[i], qs[i + 1]);
      }
    }
  }

  /** The updates of a tick, one by one, lead to any rows with just these settled. */
  lemma {:induction false} SettleAll(q: Queue, k: TickId, ids: set<ReportId>, rows': Rows)
    returns (qs: seq<Queue>, events: seq<Event>)
    requires k in q.ticks && ids <= q.ticks[k] && ids <= q.rows.Keys && AllSettled(q.rows, rows', ids)
    ensures Trace(qs, events) && qs[0] == q
    ensures qs[|events|] == Queue(rows', q.ticks[k := q.ticks[k] - ids])
    ensures forall i :: 0 <= i < |events| ==> Marks(events[i], k, ids, rows')
    decreases |ids|
  {
    if ids == {} {
      assert forall id :: id in q.rows ==> Settled(q.rows[id], rows'[id], false);
      assert q.rows == rows' && q.ticks[k] - ids == q.ticks[k];
      assert q.ticks[k := q.ticks[k]] == q.ticks;
      qs, events := [q], [];
    } else {
      var x :| x in ids;
      var q1 := SettleOne(q, k, ids, x, rows');
      var e := Settle(k, x, rows'[x].status);
      var rest, es := SettleAll(q1, k, ids - {x}, rows');
      Prepend(q, e, rest, es);
      qs, events := [q] + rest, [e] + es;
      assert q.ticks[k] - {x} - (ids - {x}) == q.ticks[k] - ids;
      assert forall i :: 0 < i < |events| ==> events[i] == es[i - 1] && Marks(es[i - 1], k, ids - {x}, rows');
    }
  }

  /** The update that gives one of these rows its status. */
  ghost predicate Marks(e: Event, k: TickId, ids: set<ReportId>, rows': Rows) {
    e.Settle? && e.tick == k && e.id in ids && e.id in rows' && e.status == rows'[e.id].status
  }

  lemma SettleOne(q: Queue, k: TickId, ids: set<ReportId>, x: ReportId, rows': Rows) returns (q': Queue)
    requires k in q.ticks && ids <= q.ticks[k] && x in ids && x in q.rows && AllSettled(q.rows, rows', ids)
    ensures Step(q, Settle(k, x, rows'[x].status), q')
    ensures q'.ticks == q.ticks[k := q.ticks[k] - {x}] && q'.rows.Keys == q.rows.Keys
    ensures AllSettled(q'.rows, rows', ids - {x})
  {
    assert Settled(q.rows[x], rows'[x], true);
    q' := Queue(q.rows[x := q.rows[x].(status := rows'[x].status)], q.ticks[k := q.ticks[k] - {x}]);
    forall id | id in q'.rows
      ensures Settled(q'.rows[id], rows'[id], id in ids - {x})
    {
      assert Settled(q.rows[id], rows'[id], id in ids);
    }
  }

  /** What the worker method does is a fetch and then updates, with nothing in between. */
  lemma TickIsItsSteps(q: Queue, k: TickId, rows': Rows, chosen: set<ReportId>, settled: set<ReportId>, ok: set<ReportId>)
    returns (qs: seq<Queue>, events: seq<Event>)
    requires k !in q.ticks && TickStep(q.rows, rows', chosen, settled, ok)
    ensures Trace(qs, events) && qs[0] == q && events != [] && events[0] == Fetch(k, chosen)
    ensures qs[|events|] == Queue(rows', q.ticks[k := chosen - settled])
    ensures settled == chosen ==> CleanTick(qs, events, 0, |events|)
    ensures forall i :: 0 < i < |events| ==>
              && events[i].Settle? && events[i].tick == k && events[i].id in settled
              && events[i].status == if events[i].id in ok then Succeeded else Failed
  {
    var q1 := q.(ticks := q.ticks[k := chosen]);
    var rest, es := SettleAll(q1, k, settled, rows');
    Prepend(q, Fetch(k, chosen), rest, es);
    qs, events := [q] + rest, [Fetch(k, chosen)] + es;
    assert q.ticks[k := chosen][k := chosen - settled] == q.ticks[k := chosen - settled];
    assert forall i :: 0 < i < |events| ==> events[i] == es[i - 1] && Marks(es[i - 1], k, settled, rows');
  }

  lemma NestedChoices(rows: Rows, a: set<ReportId>, b: set<ReportId>)
    requires Oldest(rows, a) && Oldest(rows, b) && a <= b
    ensures a == b
  {
    assert b == a + (b - a);
    assert |b| == |a| + |b - a|;
  }

  /** Ticks that fetch from the same rows take the same ones, unless requests share an instant. */
  lemma SameChoice(rows: Rows, a: set<ReportId>, b: set<ReportId>)
    requires Oldest(rows, a) && Oldest(rows, b)
    requires forall p, q :: p in rows && q in rows && p != q ==> rows[p].requestedAt != rows[q].requestedAt
    ensures a == b
  {
    assert forall x, y :: x in a && x !in b && y in b ==> y in a;
    if a <= b {
      NestedChoices(rows, a, b);
    } else {
      NestedChoices(rows, b, a);
    }
  }

  /** The rows with these reports done. */
  function Finished(rows: Rows, ids: set<ReportId>): Rows {
    map id | id in rows :: if id in ids then rows[id].(status := Succeeded) else rows[id]
  }

  lemma FinishedSettles(rows: Rows, ids: set<ReportId>)
    ensures AllSettled(rows, Finished(rows, ids), ids) && AllSettled(Finished(rows, ids), Finished(rows, ids), ids)
    ensures PendingIds(Finished(rows, ids)) == PendingIds(rows) - ids
  {
  }

  lemma AppendEvent(qs: seq<Queue>, events: seq<Event>, e: Event, q: Queue)
    requires Trace(qs, events) && Step(qs[|events|], e, q)
    ensures Trace(qs + [q], events + [e])
  {
  }

  /** A trace that continues another one. */
  ghost predicate Continues(qs: seq<Queue>, events: seq<Event>, qs': seq<Queue>, events': seq<Event>) {
    Trace(qs, events) && Trace(qs', events') && qs <= qs' && events <= events'
  }

  /** Ticks `first` to `first + n - 1` fetched these rows; the first `m` of them have settled all. */
  ghost predicate Working(ticks: map<TickId, set<ReportId>>, first: TickId, n: nat, m: nat, chosen: set<ReportId>) {
    forall k :: first <= k < first + n ==> k in ticks && ticks[k] == if k < first + m then {} else chosen
  }

  lemma {:induction false} FetchMany(qs0: seq<Queue>, events0: seq<Event>, first: TickId, n: nat, chosen: set<ReportId>)
    returns (qs: seq<Queue>, events: seq<Event>)
    requires Trace(qs0, events0) && Oldest(qs0[|events0|].rows, chosen)
    requires forall k :: k in qs0[|events0|].ticks ==> k < first
    ensures Continues(qs0, events0, qs, events) && |events| == |events0| + n
    ensures forall i :: |events0| <= i < |events| ==> events[i] == Fetch(first + (i - |events0|), chosen)
    ensures var q := qs[|events|];
            && q.rows == qs0[|events0|].rows && Working(q.ticks, first, n, 0, chosen)
            && forall k :: k in q.ticks ==> k < first + n
  {
    if n == 0 {
      qs, events := qs0, events0;
    } else {
      qs, events := FetchMany(qs0, events0, first, n - 1, chosen);
      var q, e := qs[|events|], Fetch(first + (n - 1), chosen);
      var q' := q.(ticks := q.ticks[first + (n - 1) := chosen]);
      AppendEvent(qs, events, e, q');
      qs, events := qs + [q'], events + [e];
    }
  }

  lemma {:induction false} SettleMany(qs0: seq<Queue>, events0: seq<Event>, first: TickId, n: nat, m: nat,
                                      chosen: set<ReportId>, rows': Rows)
    returns (qs: seq<Queue>, events: seq<Event>)
    requires Trace(qs0, events0) && m <= n && Working(qs0[|events0|].ticks, first, n, m, chosen)
    requires var rows := qs0[|events0|].rows;
             chosen <= rows.Keys && AllSettled(rows, rows', chosen) && (m == n ==> rows == rows')
    requires AllSettled(rows', rows', chosen)
    ensures Continues(qs0, events0, qs, events)
    ensures qs[|events|].rows == rows' && Working(qs[|events|].ticks, first, n, n, chosen)
    decreases n - m
  {
    if m == n {
      qs, events := qs0, events0;
    } else {
      var q, k := qs0[|events0|], first + m;
      var a, es := SettleAll(q, k, chosen, rows');
      JoinTraces(qs0, events0, a, es);
      assert chosen - chosen == {};
      qs, events := SettleMany(qs0 + a[1..], events0 + es, first, n, m + 1, chosen, rows');
    }
  }

  /**
   Ticks that overlap count once. After any run, any number of ticks that fetch before any
   of them updates may all take the same rows and all be clean, and then what has left
   pending is what one of them fetched.
   */
  lemma OverlappingTicks(qs0: seq<Queue>, events0: seq<Event>, first: TickId, n: nat, chosen: set<ReportId>)
    returns (qs: seq<Queue>, events: seq<Event>)
    requires Trace(qs0, events0) && Oldest(qs0[|events0|].rows, chosen) && n >= 1
    requires forall k :: k in qs0[|events0|].ticks ==> k < first
    ensures Continues(qs0, events0, qs, events)
    ensures forall i :: |events0| <= i < |events0| + n ==> CleanTick(qs, events, i, |events|)
    ensures qs[|events|].rows == Finished(qs0[|events0|].rows, chosen)
    ensures PendingIds(qs[|events|].rows) == PendingIds(qs0[|events0|].rows) - chosen
  {
    var rows := qs0[|events0|].rows;
    FinishedSettles(rows, chosen);
    var a, es := FetchMany(qs0, events0, first, n, chosen);
    qs, events := SettleMany(a, es, first, n, 0, chosen, Finished(rows, chosen));
    forall i | |events0| <= i < |events0| + n
      ensures CleanTick(qs, events, i, |events|)
    {
      assert events[i] == es[i];
      var k := events[i].tick;
      assert first <= k < first + n;
    }
  }

  // ---- A backlog that overlapping ticks do not clear ----

  /** The reports of users 0 to n - 1 for one period, requested in that order. */
  function Backlog(n: nat, start: Date, end: Date): (rows: Rows)
    ensures forall id: ReportId :: id in rows <==> id < n
    ensures forall id: ReportId :: id in rows ==> rows[id] == Report(id, start, end, id, Pending)
    ensures |rows| == n
  {
    if n == 0 then map[]
    else
      var front := Backlog(n - 1, start, end);
      front[n - 1 := Report(n - 1, start, end, n - 1, Pending)]
  }

  lemma BacklogGrows(n: nat, today: Date, start: Date, end: Date)
    requires Exists(today) && PreviousMonthWindow(today) == Some((start, end))
    ensures Step(Queue(Backlog(n, start, end), map[]), Arrive(n, n, today, n), Queue(Backlog(n + 1, start, end), map[]))
  {
    assert !HasPeriod(Backlog(n, start, end), n, start);
  }

  /** It builds up from the empty table, one request after another. */
  lemma {:induction false} BacklogArrives(n: nat, today: Date, start: Date, end: Date) returns (qs: seq<Queue>, events: seq<Event>)
    requires Exists(today) && PreviousMonthWindow(today) == Some((start, end))
    ensures Trace(qs, events) && qs[0] == Queue(map[], map[]) && qs[|events|] == Queue(Backlog(n, start, end), map[])
  {
    if n == 0 {
      qs, events := [Queue(map[], map[])], [];
    } else {
      qs, events := BacklogArrives(n - 1, today, start, end);
      var q, e := Queue(Backlog(n, start, end), map[]), Arrive(n - 1, n - 1, today, n - 1);
      BacklogGrows(n - 1, today, start, end);
      AppendEvent(qs, events, e, q);
      qs, events := qs + [q], events + [e];
    }
  }

  /** A tick takes the first five of it, and everyone else is ahead of the last. */
  lemma BacklogChoice(size: nat, start: Date, end: Date) returns (chosen: set<ReportId>)
    requires size >= 6
    ensures Oldest(Backlog(size, start, end), chosen) && size - 1 !in chosen
  {
    chosen := {0, 1, 2, 3, 4};
    assert |chosen| == 5;
    assert forall id: nat :: id in chosen <==> id < 5;
  }

  lemma BacklogAhead(size: nat, start: Date, end: Date)
    requires size >= 1
    ensures |Ahead(Backlog(size, start, end), size - 1)| == size - 1
  {
    assert Ahead(Backlog(size, start, end), size - 1) == Backlog(size - 1, start, end).Keys;
  }

  /** However many ticks overlap on a backlog above five, the last row is still pending. */
  lemma BacklogStays(qs0: seq<Queue>, events0: seq<Event>, size: nat, start: Date, end: Date, n: nat)
    returns (qs: seq<Queue>, events: seq<Event>)
    requires Trace(qs0, events0) && qs0[|events0|] == Queue(Backlog(size, start, end), map[]) && size >= 6 && n >= 1
    ensures Continues(qs0, events0, qs, events) && |events0| + n <= |events|
    ensures forall i :: |events0| <= i < |events0| + n ==> CleanTick(qs, events, i, |events|)
    ensures size - 1 in PendingIds(qs[|events|].rows)
  {
    var chosen := BacklogChoice(size, start, end);
    qs, events := OverlappingTicks(qs0, events0, 0, n, chosen);
    assert CleanTick(qs, events, |events0| + (n - 1), |events|);
    assert size - 1 in PendingIds(qs0[|events0|].rows);
  }

  /**
   So ticks must run in turn to count. From the empty table a backlog of any size above five
   builds up, with `size - 1` rows ahead of the last one; then however many ticks overlap,
   all of them clean, the last one is still pending.
   */
  lemma OverlapCountsOnce(today: Date, size: nat, n: nat) returns (qs: seq<Queue>, events: seq<Event>, at: nat)
    requires Exists(today) && PreviousMonthWindow(today).Some? && size >= 6 && n >= 1
    ensures Trace(qs, events) && qs[0] == Queue(map[], map[]) && at + n <= |events|
    ensures size - 1 in qs[at].rows && |Ahead(qs[at].rows, size - 1)| == size - 1
    ensures forall i :: at <= i < at + n ==> CleanTick(qs, events, i, |events|)
    ensures size - 1 in PendingIds(qs[|events|].rows)
  {
    var (start, end) := PreviousMonthWindow(today).value;
    var qs0, events0 := BacklogArrives(size, today, start, end);
    qs, events := BacklogStays(qs0, events0, size, start, end, n);
    at := |events0|;
    BacklogAhead(size, start, end);
    assert qs[at] == qs0[at] && qs[0] == qs0[0];
  }

  // ---- A failed report stays failed ----

  /** Done with, and in the hands of no tick. */
  ghost predicate Closed(q: Queue, id: ReportId) {
    id in q.rows && q.rows[id].status != Pending && forall k :: k in q.ticks ==> id !in q.ticks[k]
  }

  /**
   A failed report is meant to be made again on demand. A request for its period inserts
   nothing, and no tick fetches it: once no tick has it in hand, it stays as it is in every
   run, whatever is requested.
   */
  lemma {:induction false} ClosedStaysClosed(qs: seq<Queue>, events: seq<Event>, i: nat, j: nat, id: ReportId)
    requires Trace(qs, events) && i <= j < |qs| && Closed(qs[i], id)
    ensures Closed(qs[j], id) && qs[j].rows[id] == qs[i].rows[id]
  {
    if i == j {
    } else {
      ClosedStaysClosed(qs, events, i, j - 1, id);
      assert Step(qs[j - 1], events[j - 1], qs[j]);
      assert events[j - 1].Fetch? ==> id !in events[j - 1].chosen;
    }
  }

  /** In particular a new request for the period of a failed report changes nothing. */
  lemma FailedIsNotRemade(qs: seq<Queue>, events: seq<Event>, i: nat, m: nat, id: ReportId)
    requires Trace(qs, events) && i <= m < |events| && Closed(qs[i], id) && qs[i].rows[id].status == Failed
    requires events[m].Arrive? && events[m].user == qs[i].rows[id].user
    requires var window := PreviousMonthWindow(events[m].today);
             window.Some? && window.value.0 == qs[i].rows[id].start
    ensures qs[m + 1].rows == qs[m].rows && id in qs[m].rows && qs[m].rows[id].status == Failed
  {
    ClosedStaysClosed(qs, events, i, m, id);
    assert Step(qs[m], events[m], qs[m + 1]);
    assert HasPeriod(qs[m].rows, events[m].user, qs[m].rows[id].start);
  }
}
