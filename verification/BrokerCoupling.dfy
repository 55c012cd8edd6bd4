/**
 The connection table and the broker together, with each handler run as a whole: a
 removed row's authorization is never live at the broker, and a disconnected
 authorization is never linked again. The broker never issues an id twice.
 */
module BrokerCoupling {
  import opened Wrappers
  import opened Authorizations
  import opened Connections

  /** Table, broker, and the rows of the audit log that disconnects write. */
  datatype State = State(rows: Table, broker: Broker, audit: seq<AuditRow>)

  datatype AuditRow = AuditRow(user: UserId, auth: AuthId)

  /** The audit row of a disconnect is written at the end if it can be; `logged` tells. */
  datatype Handler =
    | Portal(user: UserId, row: RowId, brokerUser: string, secret: seq<int>, now: int)
    | Callback(user: UserId, row: RowId, listing: Listing)
    | Disconnect(user: UserId, auth: AuthId, row: RowId, logged: bool)
    | DisconnectStopped(user: UserId, auth: AuthId, row: RowId)
    | IssueAuth(auth: AuthId, brokerUser: string)
    | RevokeAuth(auth: AuthId)

  ghost predicate Possible(s: State, h: Handler) {
    match h
    case Portal(u, r, _, _, _) => r !in s.rows
    case Callback(u, r, l) => IsNewestRow(s.rows, u, r) && ListingOf(s.broker, s.rows[r].brokerUser, l)
    case Disconnect(u, a, r, _) => r in s.rows && s.rows[r].user == u && s.rows[r].auth == Some(a)
    case DisconnectStopped(u, a, r) => r in s.rows && s.rows[r].user == u && s.rows[r].auth == Some(a)
    case IssueAuth(a, _) => a !in s.broker.issued
    case RevokeAuth(_) => true
  }

  /** The upstream half of a disconnect: skipped for a row already disabled. */
  function RemoveUpstream(s: State, r: RowId, a: AuthId): State
    requires r in s.rows
  {
    if s.rows[r].disabled then s else s.(broker := Upstream(s.broker, a, s.rows[r].brokerUser))
  }

  ghost function After(s: State, h: Handler): State
    requires Possible(s, h)
  {
    match h
    case Portal(u, r, b, secret, now) =>
      if exists q :: q in s.rows && s.rows[q].user == u then s
      else s.(rows := InsertPending(s.rows, r, Fresh(u, b, secret, now)))
    case Callback(u, r, l) =>
      (match PickNewest(l, s.rows[r].auth)
       case None => s
       case Some(a) => s.(rows := MarkCompleted(s.rows, r, a)))
    case Disconnect(u, a, r, logged) =>
      var t := RemoveUpstream(s, r, a);
      t.(rows := SoftDelete(t.rows, u, r), audit := if logged then t.audit + [AuditRow(u, a)] else t.audit)
    case DisconnectStopped(u, a, r) => RemoveUpstream(s, r, a)
    case IssueAuth(a, b) => s.(broker := Broker(s.broker.live[a := b], s.broker.issued[a := b]))
    case RevokeAuth(a) => s.(broker := s.broker.(live := s.broker.live - {a}))
  }

  /** Live authorizations are issued ones, and a recorded one was issued to the row's broker user. */
  ghost predicate Coupled(s: State) {
    && IndexesHold(s.rows) && Shaped(s.rows)
    && (forall a :: a in s.broker.live ==> a in s.broker.issued && s.broker.issued[a] == s.broker.live[a])
    && (forall r :: r in s.rows ==> RowCoupled(s.rows[r], s.broker))
  }

  ghost predicate RowCoupled(c: Connection, b: Broker) {
    && (c.auth.Some? ==> c.auth.value in b.issued && b.issued[c.auth.value] == c.brokerUser)
    && (IsRemoved(c) ==> c.auth.value !in b.live)
  }

  lemma RemovalKeepsRow(s: State, r: RowId, a: AuthId, c: Connection)
    requires r in s.rows && RowCoupled(c, s.broker)
    ensures RowCoupled(c, RemoveUpstream(s, r, a).broker)
  {
  }

  lemma DisconnectKeepsCoupled(s: State, h: Handler)
    requires Coupled(s) && Possible(s, h) && (h.Disconnect? || h.DisconnectStopped?)
    ensures Coupled(After(s, h)) && h.auth !in After(s, h).broker.live
  {
    var s', r := After(s, h), h.row;
    SoftDeleteKeepsIndexes(s.rows, h.user, r);
    assert RowCoupled(s.rows[r], s.broker);
    assert h.auth !in s'.broker.live;
    forall q | q in s'.rows
      ensures RowCoupled(s'.rows[q], s'.broker)
    {
      RemovalKeepsRow(s, r, h.auth, s.rows[q]);
    }
  }

  lemma CallbackKeepsCoupled(s: State, h: Handler)
    requires Coupled(s) && Possible(s, h) && h.Callback?
    ensures Coupled(After(s, h))
  {
    var s' := After(s, h);
    var pick := PickNewest(h.listing, s.rows[h.row].auth);
    if pick.Some? {
      var i := PickIndex(h.listing, s.rows[h.row].auth).value;
      assert pick.value == h.listing[i];
      CompletedKeepsIndexes(s.rows, h.row, pick.value);
      forall q | q in s'.rows
        ensures RowCoupled(s'.rows[q], s'.broker)
      {
        assert RowCoupled(s.rows[q], s.broker);
      }
    }
  }

  lemma OthersKeepCoupled(s: State, h: Handler)
    requires Coupled(s) && Possible(s, h) && (h.Portal? || h.IssueAuth? || h.RevokeAuth?)
    ensures Coupled(After(s, h))
  {
    var s' := After(s, h);
    if h.Portal? {
      InsertKeepsIndexes(s.rows, h.row, Fresh(h.user, h.brokerUser, h.secret, h.now));
    }
    forall q | q in s'.rows
      ensures RowCoupled(s'.rows[q], s'.broker)
    {
      assert q in s.rows ==> RowCoupled(s.rows[q], s.broker);
    }
  }

  /** Every whole handler, and every move of the broker, keeps table and broker coupled. */
  lemma HandlerKeepsCoupled(s: State, h: Handler)
    requires Coupled(s) && Possible(s, h)
    ensures Coupled(After(s, h))
  {
    match h
    case Callback(_, _, _) => CallbackKeepsCoupled(s, h);
    case Disconnect(_, _, _, _) => DisconnectKeepsCoupled(s, h);
    case DisconnectStopped(_, _, _) => DisconnectKeepsCoupled(s, h);
    case _ => OthersKeepCoupled(s, h);
  }

  ghost predicate Run(ss: seq<State>, hs: seq<Handler>) {
    && |ss| == |hs| + 1
    && forall i :: 0 <= i < |hs| ==> Possible(ss[i], hs[i]) && ss[i + 1] == After(ss[i], hs[i])
  }

  /** In every run: no removed row's authorization is live upstream. */
  lemma {:induction false} RemovedIsNeverLive(ss: seq<State>, hs: seq<Handler>, j: nat)
    requires Run(ss, hs) && Coupled(ss[0]) && j < |ss|
    ensures Coupled(ss[j])
    ensures forall r :: r in ss[j].rows && IsRemoved(ss[j].rows[r]) ==> ss[j].rows[r].auth.value !in ss[j].broker.live
  {
    if j == 0 {
    } else {
      RemovedIsNeverLive(ss, hs, j - 1);
      HandlerKeepsCoupled(ss[j - 1], hs[j - 1]);
    }
    assert forall r :: r in ss[j].rows ==> RowCoupled(ss[j].rows[r], ss[j].broker);
  }

  /** No two rows record the same authorization. */
  lemma AuthorizationsAreNotShared(s: State, r: RowId, q: RowId)
    requires Coupled(s) && r in s.rows && q in s.rows && s.rows[r].auth.Some? && s.rows[r].auth == s.rows[q].auth
    ensures r == q
  {
  }

  lemma DeadStaysDead(s: State, h: Handler, a: AuthId)
    requires Possible(s, h) && Dead(s.rows, s.broker, a)
    ensures Dead(After(s, h).rows, After(s, h).broker, a)
  {
  }

  /** In every run: an authorization disconnected at step `i` is never linked again. */
  lemma NeverLinkedAgain(ss: seq<State>, hs: seq<Handler>, i: nat, j: nat)
    requires Run(ss, hs) && Coupled(ss[0]) && i < j < |ss| && hs[i].Disconnect?
    ensures Dead(ss[j].rows, ss[j].broker, hs[i].auth)
  {
    var a, r := hs[i].auth, hs[i].row;
    if j == i + 1 {
      RemovedIsNeverLive(ss, hs, i);
      RemovedIsNeverLive(ss, hs, j);
      DisconnectKeepsCoupled(ss[i], hs[i]);
      var s := ss[j];
      assert RowCoupled(s.rows[r], s.broker);
      forall q | q in s.rows && IsLinked(s.rows[q])
        ensures s.rows[q].auth != Some(a)
      {
        if s.rows[q].auth == Some(a) {
          AuthorizationsAreNotShared(s, q, r);
        }
      }
    } else {
      NeverLinkedAgain(ss, hs, i, j - 1);
      DeadStaysDead(ss[j - 1], hs[j - 1], a);
    }
  }

  ghost predicate SameTables(s: State, t: State) { s.rows == t.rows && s.broker == t.broker }

  /**
   A disconnect that stopped between the broker and the table is finished by a retry, and
   a disconnect repeated after success changes neither; it does write its audit row again.
   */
  lemma RetryConverges(s: State, u: UserId, a: AuthId, r: RowId, logged: bool)
    requires Coupled(s) && Possible(s, Disconnect(u, a, r, logged))
    ensures var half := After(s, DisconnectStopped(u, a, r));
            && Possible(half, Disconnect(u, a, r, logged))
            && var done := After(half, Disconnect(u, a, r, logged));
               && done == After(s, Disconnect(u, a, r, logged))
               && IsRemoved(done.rows[r]) && done.rows[r].auth == Some(a) && a !in done.broker.live
               && Possible(done, Disconnect(u, a, r, logged))
               && var again := After(done, Disconnect(u, a, r, logged));
                  SameTables(again, done) && again.audit == if logged then done.audit + [AuditRow(u, a)] else done.audit
  {
  }

  /** A disconnect of this authorization by this user whose audit insert works. */
  ghost predicate Logs(h: Handler, row: AuditRow) {
    h.Disconnect? && h.logged && AuditRow(h.user, h.auth) == row
  }

  /** Which of the first `j` handlers are that. */
  ghost function Logged(hs: seq<Handler>, j: nat, row: AuditRow): set<nat>
    requires j <= |hs|
  {
    set i: nat | i < j && Logs(hs[i], row)
  }

  lemma LoggedGrows(hs: seq<Handler>, j: nat, row: AuditRow)
    requires j < |hs|
    ensures |Logged(hs, j + 1, row)| == |Logged(hs, j, row)| + if Logs(hs[j], row) then 1 else 0
  {
    assert Logged(hs, j + 1, row) == Logged(hs, j, row) + if Logs(hs[j], row) then {j} else {};
  }

  ghost function Rows(s: State, row: AuditRow): nat { multiset(s.audit)[row] }

  lemma AuditGrows(ss: seq<State>, hs: seq<Handler>, i: nat, row: AuditRow)
    requires Run(ss, hs) && i < |hs|
    ensures Rows(ss[i + 1], row) == Rows(ss[i], row) + if Logs(hs[i], row) then 1 else 0
  {
    var s, h := ss[i], hs[i];
    assert ss[i + 1] == After(s, h);
    assert After(s, h).audit == s.audit + if h.Disconnect? && h.logged then [AuditRow(h.user, h.auth)] else [];
  }

  /**
   In every run the audit log gains a row for each time an authorization is disconnected,
   the first time and every repeat, and none for anything else.
   */
  lemma EveryDisconnectIsAudited(ss: seq<State>, hs: seq<Handler>, j: nat, row: AuditRow)
    requires Run(ss, hs) && j < |ss|
    ensures Rows(ss[j], row) == Rows(ss[0], row) + |Logged(hs, j, row)|
  {
    var counts := seq(|ss|, i requires 0 <= i < |ss| => Rows(ss[i], row));
    forall i: nat | i < |hs|
      ensures counts[i + 1] == counts[i] + if Logs(hs[i], row) then 1 else 0
    {
      AuditGrows(ss, hs, i, row);
    }
    CountsLogged(counts, hs, j, row);
  }

  lemma {:induction false} CountsLogged(counts: seq<nat>, hs: seq<Handler>, j: nat, row: AuditRow)
    requires |counts| == |hs| + 1 && j <= |hs|
    requires forall i: nat :: i < |hs| ==> counts[i + 1] == counts[i] + if Logs(hs[i], row) then 1 else 0
    ensures counts[j] == counts[0] + |Logged(hs, j, row)|
  {
    if j == 0 {
      assert Logged(hs, j, row) == {};
    } else {
      CountsLogged(counts, hs, j - 1, row);
      LoggedGrows(hs, j - 1, row);
    }
  }

  /** A callback on the table records what the choice says, unless another active row forbids it. */
  lemma CallbackRecords(s: State, u: UserId, r: RowId, l: Listing)
    requires Possible(s, Callback(u, r, l)) && !OtherActive(s.rows, r)
    ensures var t := After(s, Callback(u, r, l)).rows;
            && t[r].auth == AfterCallback(l, s.rows[r].auth)
            && (Writes(l, s.rows[r].auth) ==> IsLinked(t[r])) && (!Writes(l, s.rows[r].auth) ==> t == s.rows)
            && forall q :: q in s.rows && q != r ==> t[q] == s.rows[q]
  {
  }

  /** The login portal registers a user without a row, under a broker user id without one, and nobody else. */
  lemma PortalMeans(s: State, u: UserId, r: RowId, b: string, secret: seq<int>, now: int)
    requires Possible(s, Portal(u, r, b, secret, now))
    ensures var unknown := forall q :: q in s.rows ==> s.rows[q].user != u && s.rows[q].brokerUser != b;
            After(s, Portal(u, r, b, secret, now)) ==
            if unknown then s.(rows := s.rows[r := Connection(u, b, secret, None, None, None, false, false, now)]) else s
  {
  }

  /** In every run of whole handlers each user has one row at most. */
  lemma {:induction false} OneRowPerUser(ss: seq<State>, hs: seq<Handler>, j: nat)
    requires Run(ss, hs) && OneRowEach(ss[0].rows) && j < |ss|
    ensures OneRowEach(ss[j].rows)
  {
    if j == 0 {
    } else {
      OneRowPerUser(ss, hs, j - 1);
      HandlerKeepsOneRow(ss[j - 1], hs[j - 1]);
    }
  }

  lemma HandlerKeepsOneRow(s: State, h: Handler)
    requires Possible(s, h) && OneRowEach(s.rows)
    ensures OneRowEach(After(s, h).rows)
  {
  }

  // ---- A whole handler is its own steps, with nothing in between ----

  ghost predicate Shows(w: World, s: State) { w.rows == s.rows && w.broker == s.broker }

  lemma DisconnectIsItsSteps(w: World, k: TaskId, u: UserId, a: AuthId, r: RowId, s: State, logged: bool)
    requires k !in w.tasks && Shows(w, s) && Possible(s, Disconnect(u, a, r, logged))
    ensures Enabled(w, DisconnectRead(k, u, a, r))
    ensures var w1 := Next(w, DisconnectRead(k, u, a, r));
            && Enabled(w1, DisconnectUpstream(k))
            && var w2 := Next(w1, DisconnectUpstream(k));
               && Shows(w2, After(s, DisconnectStopped(u, a, r)))
               && Enabled(w2, DisconnectWrite(k))
               && var w3 := Next(w2, DisconnectWrite(k));
                  Shows(w3, After(s, Disconnect(u, a, r, logged))) && w3.tasks == w.tasks
  {
  }

  lemma PortalIsItsSteps(w: World, k: TaskId, u: UserId, r: RowId, b: string, secret: seq<int>, now: int, s: State)
    requires k !in w.tasks && Shows(w, s) && Possible(s, Portal(u, r, b, secret, now))
    ensures Enabled(w, PortalRead(k, u))
    ensures var w1 := Next(w, PortalRead(k, u));
            if k !in w1.tasks then
              Shows(w1, After(s, Portal(u, r, b, secret, now))) && w1.tasks == w.tasks
            else
              && Enabled(w1, PortalInsert(k, r, b, secret, now))
              && var w2 := Next(w1, PortalInsert(k, r, b, secret, now));
                 Shows(w2, After(s, Portal(u, r, b, secret, now))) && w2.tasks == w.tasks
  {
  }

  lemma CallbackIsItsSteps(w: World, k: TaskId, u: UserId, r: RowId, l: Listing, s: State)
    requires k !in w.tasks && Shows(w, s) && Possible(s, Callback(u, r, l))
    ensures Enabled(w, CallbackRead(k, u, r))
    ensures var w1 := Next(w, CallbackRead(k, u, r));
            && Enabled(w1, CallbackList(k, l))
            && var w2 := Next(w1, CallbackList(k, l));
               if PickNewest(l, w.rows[r].auth).None? then
                 Shows(w2, After(s, Callback(u, r, l))) && w2.tasks == w.tasks
               else
                 && Enabled(w2, CallbackWrite(k))
                 && var w3 := Next(w2, CallbackWrite(k));
                    Shows(w3, After(s, Callback(u, r, l))) && w3.tasks == w.tasks
  {
  }
}
