/**
 The broker-connection table and the three handlers that change it: login portal,
 callback and disconnect. Each handler is a task of several separate steps, and any steps
 of any tasks may interleave, together with the broker's own. A task may also stop
 anywhere: an error or a crash.
 */
module Connections {
  import opened Wrappers
  import opened Authorizations

  type UserId = nat
  type RowId = nat
  type TaskId = nat

  datatype Connection = Connection(
    user: UserId,
    brokerUser: string,
    secret: seq<int>,
    auth: Option<AuthId>,
    slug: Option<string>,
    institution: Option<string>,
    active: bool,
    disabled: bool,
    createdAt: int)

  type Table = map<RowId, Connection>

  predicate IsPending(c: Connection) { !c.active && !c.disabled && c.auth.None? }

  predicate IsLinked(c: Connection) { c.active && !c.disabled && c.auth.Some? }

  predicate IsRemoved(c: Connection) { !c.active && c.disabled && c.auth.Some? }

  /** The two partial unique indexes: one active row per user, one row per broker user id. */
  ghost predicate IndexesHold(t: Table) {
    forall r, q :: r in t && q in t && r != q ==> Distinct(t[r], t[q])
  }

  ghost predicate Distinct(a: Connection, b: Connection) {
    a.brokerUser != b.brokerUser && !(a.user == b.user && a.active && b.active)
  }

  // ---- Statements ----

  predicate BrokerUserTaken(t: Table, brokerUser: string) {
    exists r :: r in t && t[r].brokerUser == brokerUser
  }

  predicate OtherActive(t: Table, id: RowId)
    requires id in t
  {
    exists r :: r in t && r != id && t[r].user == t[id].user && t[r].active
  }

  function Fresh(user: UserId, brokerUser: string, secret: seq<int>, now: int): Connection {
    Connection(user, brokerUser, secret, None, None, None, false, false, now)
  }

  function Coalesce(a: Option<string>, b: Option<string>): Option<string> {
    if a.Some? then a else b
  }

  function Completed(c: Connection, a: Authorization): Connection {
    c.(auth := Some(a.id), slug := Coalesce(a.slug, c.slug), institution := Coalesce(a.institution, c.institution),
       active := true, disabled := false)
  }

  /** The row is linked to the authorization; a name it brings replaces the old one, a missing one does not. */
  ghost predicate IsCompletion(c: Connection, d: Connection, a: Authorization) {
    && d.auth == Some(a.id) && d.active && !d.disabled
    && (a.slug.Some? ==> d.slug == a.slug) && (a.slug.None? ==> d.slug == c.slug)
    && (a.institution.Some? ==> d.institution == a.institution) && (a.institution.None? ==> d.institution == c.institution)
    && d.user == c.user && d.brokerUser == c.brokerUser && d.secret == c.secret && d.createdAt == c.createdAt
  }

  /** The update by row id; a second active row of the user makes it fail. */
  function MarkCompleted(t: Table, id: RowId, a: Authorization): Table {
    if id !in t || OtherActive(t, id) then t else t[id := Completed(t[id], a)]
  }

  function SoftDelete(t: Table, user: UserId, id: RowId): Table {
    if id in t && t[id].user == user then t[id := t[id].(active := false, disabled := true)] else t
  }

  function InsertPending(t: Table, id: RowId, c: Connection): Table {
    if BrokerUserTaken(t, c.brokerUser) then t else t[id := c]
  }

  ghost predicate OneRowEach(t: Table) {
    forall r, q :: r in t && q in t && r != q ==> t[r].user != t[q].user
  }

  /** A legal answer of "any row of the user, newest first". */
  ghost predicate IsNewestRow(t: Table, user: UserId, id: RowId) {
    id in t && t[id].user == user && forall r :: r in t && t[r].user == user ==> t[r].createdAt <= t[id].createdAt
  }

  /** The table as the program updates it. */
  class ConnectionTable {
    var rows: Table
    var nextId: RowId

    ghost predicate Valid()
      reads this
    {
      IndexesHold(rows) && forall r :: r in rows ==> r < nextId
    }

    constructor ()
      ensures Valid() && rows == map[]
    {
      rows, nextId := map[], 0;
    }

    method Insert(user: UserId, brokerUser: string, secret: seq<int>, now: int) returns (id: Option<RowId>)
      requires Valid()
      modifies this
      ensures Valid()
      ensures id.None? <==> BrokerUserTaken(old(rows), brokerUser)
      ensures id.Some? ==> id.value !in old(rows) && id.value in rows
      ensures rows == InsertPending(old(rows), old(nextId), Fresh(user, brokerUser, secret, now))
      ensures id.None? <==> exists r :: r in old(rows) && old(rows)[r].brokerUser == brokerUser
      ensures rows == if id.None? then old(rows)
                      else old(rows)[id.value := Connection(user, brokerUser, secret, None, None, None, false, false, now)]
    {
      if BrokerUserTaken(rows, brokerUser) {
        return None;
      }
      id := Some(nextId);
      rows := rows[nextId := Connection(user, brokerUser, secret, None, None, None, false, false, now)];
      nextId := nextId + 1;
    }

    method Complete(id: RowId, a: Authorization) returns (ok: bool)
      requires Valid()
      modifies this`rows
      ensures Valid()
      ensures ok <==> id !in old(rows) || !OtherActive(old(rows), id)
      ensures rows == MarkCompleted(old(rows), id, a)
      ensures id in old(rows) ==>
                && (ok <==> forall r :: r in old(rows) && r != id && old(rows)[r].active ==> old(rows)[r].user != old(rows)[id].user)
                && (ok ==> rows == old(rows)[id := rows[id]] && IsCompletion(old(rows)[id], rows[id], a))
      ensures id !in old(rows) || !ok ==> rows == old(rows)
    {
      ok := id !in rows || !OtherActive(rows, id);
      if ok && id in rows {
        CompletedKeepsIndexes(rows, id, a);
        var slug := if a.slug.Some? then a.slug else rows[id].slug;
        var institution := if a.institution.Some? then a.institution else rows[id].institution;
        rows := rows[id := rows[id].(auth := Some(a.id), slug := slug, institution := institution,
                                     active := true, disabled := false)];
      }
    }

    method Disable(user: UserId, id: RowId) returns (affected: nat)
      requires Valid()
      modifies this`rows
      ensures Valid()
      ensures affected == if id in old(rows) && old(rows)[id].user == user then 1 else 0
      ensures rows == SoftDelete(old(rows), user, id)
      ensures rows == if affected == 0 then old(rows)
                      else old(rows)[id := old(rows)[id].(active := false, disabled := true)]
    {
      affected := 0;
      if id in rows && rows[id].user == user {
        SoftDeleteKeepsIndexes(rows, user, id);
        rows := rows[id := rows[id].(active := false, disabled := true)];
        affected := 1;
      }
    }
  }

  lemma CompletedKeepsIndexes(t: Table, id: RowId, a: Authorization)
    requires IndexesHold(t)
    ensures IndexesHold(MarkCompleted(t, id, a)) && Lasts(t, MarkCompleted(t, id, a))
    ensures Shaped(t) ==> Shaped(MarkCompleted(t, id, a))
  {
    var u := MarkCompleted(t, id, a);
    forall r, q | r in u && q in u && r != q
      ensures Distinct(u[r], u[q])
    {
      assert Distinct(t[r], t[q]);
    }
  }

  lemma SoftDeleteKeepsIndexes(t: Table, user: UserId, id: RowId)
    requires IndexesHold(t)
    ensures IndexesHold(SoftDelete(t, user, id)) && Lasts(t, SoftDelete(t, user, id))
    ensures Shaped(t) && id in t && !IsPending(t[id]) ==> Shaped(SoftDelete(t, user, id))
  {
    var u := SoftDelete(t, user, id);
    forall r, q | r in u && q in u && r != q
      ensures Distinct(u[r], u[q])
    {
      assert Distinct(t[r], t[q]);
    }
  }

  lemma InsertKeepsIndexes(t: Table, id: RowId, c: Connection)
    requires IndexesHold(t) && id !in t && IsPending(c)
    ensures IndexesHold(InsertPending(t, id, c)) && Lasts(t, InsertPending(t, id, c))
    ensures Shaped(t) ==> Shaped(InsertPending(t, id, c))
  {
  }

  // ---- Handlers as tasks ----

  /** Where a handler stands between two of its steps, with what it remembers. */
  datatype Task =
    | Registering(user: UserId)
    | Listing(user: UserId, row: RowId, recorded: Option<AuthId>, brokerUser: string)
    | Completing(row: RowId, chosen: Authorization)
    | Removing(user: UserId, row: RowId, auth: AuthId, disabled: bool, brokerUser: string)
    | Deleting(user: UserId, row: RowId, auth: AuthId)

  /** Authorizations live at the broker, each under one broker user, and all ever issued. */
  datatype Broker = Broker(live: map<AuthId, string>, issued: map<AuthId, string>)

  datatype World = World(rows: Table, tasks: map<TaskId, Task>, broker: Broker)

  ghost predicate ListingOf(b: Broker, brokerUser: string, l: Listing) {
    forall i :: 0 <= i < |l| ==> l[i].id in b.live && b.live[l[i].id] == brokerUser
  }

  /** Issued, not live, and on no linked row. */
  ghost predicate Dead(t: Table, b: Broker, a: AuthId) {
    a in b.issued && a !in b.live && forall r :: r in t && IsLinked(t[r]) ==> t[r].auth != Some(a)
  }

  function Upstream(b: Broker, auth: AuthId, brokerUser: string): Broker {
    if auth in b.live && b.live[auth] == brokerUser then b.(live := b.live - {auth}) else b
  }

  datatype Step =
    | PortalRead(task: TaskId, user: UserId)
    | PortalInsert(task: TaskId, row: RowId, brokerUser: string, secret: seq<int>, now: int)
    | CallbackRead(task: TaskId, user: UserId, row: RowId)
    | CallbackList(task: TaskId, listing: Listing)
    | CallbackWrite(task: TaskId)
    | DisconnectRead(task: TaskId, user: UserId, auth: AuthId, row: RowId)
    | DisconnectUpstream(task: TaskId)
    | DisconnectWrite(task: TaskId)
    | Stop(task: TaskId)
    | Issue(auth: AuthId, brokerUser: string)
    | Revoke(auth: AuthId)

  ghost predicate Enabled(w: World, s: Step) {
    match s
    case PortalRead(k, u) => k !in w.tasks
    case PortalInsert(k, r, _, _, _) => k in w.tasks && w.tasks[k].Registering? && r !in w.rows
    case CallbackRead(k, u, r) => k !in w.tasks && IsNewestRow(w.rows, u, r)
    case CallbackList(k, l) => k in w.tasks && w.tasks[k].Listing? && ListingOf(w.broker, w.tasks[k].brokerUser, l)
    case CallbackWrite(k) => k in w.tasks && w.tasks[k].Completing?
    case DisconnectRead(k, u, a, r) => k !in w.tasks && r in w.rows && w.rows[r].user == u && w.rows[r].auth == Some(a)
    case DisconnectUpstream(k) => k in w.tasks && w.tasks[k].Removing?
    case DisconnectWrite(k) => k in w.tasks && w.tasks[k].Deleting?
    case Stop(k) => k in w.tasks
    case Issue(a, _) => a !in w.broker.issued
    case Revoke(a) => true
  }

  ghost function Next(w: World, s: Step): World
    requires Enabled(w, s)
  {
    match s
    case PortalRead(k, u) =>
      if exists r :: r in w.rows && w.rows[r].user == u then w else w.(tasks := w.tasks[k := Registering(u)])
    case PortalInsert(k, r, b, secret, now) =>
      w.(rows := InsertPending(w.rows, r, Fresh(w.tasks[k].user, b, secret, now)), tasks := w.tasks - {k})
    case CallbackRead(k, u, r) =>
      w.(tasks := w.tasks[k := Listing(u, r, w.rows[r].auth, w.rows[r].brokerUser)])
    case CallbackList(k, l) =>
      (match PickNewest(l, w.tasks[k].recorded)
       case None => w.(tasks := w.tasks - {k})
       case Some(a) => w.(tasks := w.tasks[k := Completing(w.tasks[k].row, a)]))
    case CallbackWrite(k) =>
      w.(rows := MarkCompleted(w.rows, w.tasks[k].row, w.tasks[k].chosen), tasks := w.tasks - {k})
    case DisconnectRead(k, u, a, r) =>
      w.(tasks := w.tasks[k := Removing(u, r, a, w.rows[r].disabled, w.rows[r].brokerUser)])
    case DisconnectUpstream(k) =>
      var t := w.tasks[k];
      w.(broker := if t.disabled then w.broker else Upstream(w.broker, t.auth, t.brokerUser),
         tasks := w.tasks[k := Deleting(t.user, t.row, t.auth)])
    case DisconnectWrite(k) =>
      w.(rows := SoftDelete(w.rows, w.tasks[k].user, w.tasks[k].row), tasks := w.tasks - {k})
    case Stop(k) => w.(tasks := w.tasks - {k})
    case Issue(a, b) => w.(broker := Broker(w.broker.live[a := b], w.broker.issued[a := b]))
    case Revoke(a) => w.(broker := w.broker.(live := w.broker.live - {a}))
  }

  /** What the reads of callback and disconnect find: a newest row of the user, and a row of the user with that authorization. */
  lemma ReadsMean(w: World, k: TaskId, u: UserId, a: AuthId, r: RowId)
    ensures Enabled(w, CallbackRead(k, u, r)) <==>
            && k !in w.tasks && r in w.rows && w.rows[r].user == u
            && forall q :: q in w.rows && w.rows[q].user == u ==> w.rows[q].createdAt <= w.rows[r].createdAt
    ensures Enabled(w, DisconnectRead(k, u, a, r)) <==>
            k !in w.tasks && r in w.rows && w.rows[r].user == u && w.rows[r].auth == Some(a)
  {
  }

  // ---- What every interleaving keeps ----

  ghost predicate Shaped(t: Table) {
    forall r :: r in t ==> IsPending(t[r]) || IsLinked(t[r]) || IsRemoved(t[r])
  }

  /** A disconnect only ever holds a row that had left pending; such a row never returns. */
  ghost predicate TaskOk(t: Table, k: Task) {
    match k
    case Registering(_) => true
    case Listing(_, r, _, _) => r in t
    case Completing(r, _) => r in t
    case Removing(_, r, _, _, _) => r in t && !IsPending(t[r])
    case Deleting(_, r, _) => r in t && !IsPending(t[r])
  }

  ghost predicate Inv(w: World) {
    && IndexesHold(w.rows) && Shaped(w.rows)
    && forall k :: k in w.tasks ==> TaskOk(w.rows, w.tasks[k])
  }

  /** A row is never dropped, keeps owner and credentials, and does not go back to pending. */
  ghost predicate Lasts(before: Table, after: Table) {
    forall r :: r in before ==>
      && r in after && after[r].user == before[r].user && after[r].brokerUser == before[r].brokerUser
      && after[r].secret == before[r].secret && after[r].createdAt == before[r].createdAt
      && (!IsPending(before[r]) ==> !IsPending(after[r]))
  }

  lemma TasksSurvive(before: Table, after: Table, tasks: map<TaskId, Task>)
    requires Lasts(before, after) && forall k :: k in tasks ==> TaskOk(before, tasks[k])
    ensures forall k :: k in tasks ==> TaskOk(after, tasks[k])
  {
  }

  lemma RowStep(w: World, s: Step)
    requires Inv(w) && Enabled(w, s)
    ensures var t := Next(w, s).rows;
            IndexesHold(t) && Shaped(t) && Lasts(w.rows, t)
  {
    match s
    case PortalInsert(k, r, b, secret, now) =>
      InsertKeepsIndexes(w.rows, r, Fresh(w.tasks[k].user, b, secret, now));
    case CallbackWrite(k) =>
      CompletedKeepsIndexes(w.rows, w.tasks[k].row, w.tasks[k].chosen);
    case DisconnectWrite(k) =>
      SoftDeleteKeepsIndexes(w.rows, w.tasks[k].user, w.tasks[k].row);
    case _ =>
  }

  /** One step of any handler, of the broker, or a crash keeps the invariant. */
  lemma StepKeepsInv(w: World, s: Step)
    requires Inv(w) && Enabled(w, s)
    ensures Inv(Next(w, s)) && Lasts(w.rows, Next(w, s).rows)
  {
    RowStep(w, s);
    TasksSurvive(w.rows, Next(w, s).rows, w.tasks);
  }

  ghost predicate Run(ws: seq<World>, steps: seq<Step>) {
    && |ws| == |steps| + 1
    && forall i :: 0 <= i < |steps| ==> Enabled(ws[i], steps[i]) && ws[i + 1] == Next(ws[i], steps[i])
  }

  lemma {:induction false} RunKeepsInv(ws: seq<World>, steps: seq<Step>, i: nat, j: nat)
    requires Run(ws, steps) && Inv(ws[0]) && i <= j < |ws|
    ensures Inv(ws[j]) && Lasts(ws[i].rows, ws[j].rows)
    decreases j
  {
    if j == 0 {
    } else {
      RunKeepsInv(ws, steps, if i < j then i else j - 1, j - 1);
      StepKeepsInv(ws[j - 1], steps[j - 1]);
    }
  }

  /**
   In every interleaving, from a table that meets it: each row is exactly one of pending,
   linked and removed; each user has at most one active row; no broker user id has two
   rows; and whatever happens later, a row keeps its owner and credentials and never
   returns to pending.
   */
  lemma LifecycleHolds(ws: seq<World>, steps: seq<Step>, i: nat, j: nat, r: RowId)
    requires Run(ws, steps) && Inv(ws[0]) && i <= j < |ws| && r in ws[i].rows
    ensures r in ws[j].rows
    ensures var a, b := ws[i].rows[r], ws[j].rows[r];
            && a.user == b.user && a.brokerUser == b.brokerUser && a.secret == b.secret
            && (IsPending(b) ==> IsPending(a))
            && (IsPending(b) || IsLinked(b) || IsRemoved(b))
    ensures forall q :: q in ws[j].rows && q != r ==>
              && ws[j].rows[q].brokerUser != ws[j].rows[r].brokerUser
              && !(ws[j].rows[q].user == ws[j].rows[r].user && ws[j].rows[q].active && ws[j].rows[r].active)
  {
    RunKeepsInv(ws, steps, i, j);
    assert forall q :: q in ws[j].rows && q != r ==> Distinct(ws[j].rows[q], ws[j].rows[r]);
  }
}
