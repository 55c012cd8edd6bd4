/**
 The connection table and the broker when the steps of the handlers interleave. What
 whole handlers keep then fails in general; this module says exactly at which writes, and
 which re-check at the write would be enough.
 */
module Interleavings {
  import opened Wrappers
  import opened Authorizations
  import opened Connections

  /** No removed row's authorization is live at the broker. */
  ghost predicate Clean(w: World) {
    forall r :: r in w.rows && IsRemoved(w.rows[r]) ==> w.rows[r].auth.value !in w.broker.live
  }

  ghost predicate IssuedTo(b: Broker, a: AuthId, brokerUser: string) {
    a in b.issued && b.issued[a] == brokerUser
  }

  /** What a task remembers of its row is still so, and its authorization was issued for that row. */
  ghost predicate TaskSound(w: World, t: Task) {
    match t
    case Registering(_) => true
    case Listing(_, r, _, b) => r in w.rows && w.rows[r].brokerUser == b
    case Completing(r, a) => r in w.rows && IssuedTo(w.broker, a.id, w.rows[r].brokerUser)
    case Removing(u, r, a, _, b) =>
      r in w.rows && w.rows[r].user == u && w.rows[r].brokerUser == b && IssuedTo(w.broker, a, b)
    case Deleting(u, r, a) => r in w.rows && w.rows[r].user == u && IssuedTo(w.broker, a, w.rows[r].brokerUser)
  }

  ghost predicate RowsSound(w: World) {
    forall r :: r in w.rows && w.rows[r].auth.Some? ==> IssuedTo(w.broker, w.rows[r].auth.value, w.rows[r].brokerUser)
  }

  ghost predicate BrokerSound(b: Broker) {
    forall a :: a in b.live ==> IssuedTo(b, a, b.live[a])
  }

  ghost predicate Sound(w: World) {
    Inv(w) && BrokerSound(w.broker) && RowsSound(w) && forall k :: k in w.tasks ==> TaskSound(w, w.tasks[k])
  }

  lemma StepKeepsBroker(w: World, s: Step)
    requires Sound(w) && Enabled(w, s)
    ensures BrokerSound(Next(w, s).broker)
    ensures forall a, b :: IssuedTo(w.broker, a, b) ==> IssuedTo(Next(w, s).broker, a, b)
  {
  }

  lemma StepKeepsRowsSound(w: World, s: Step)
    requires Sound(w) && Enabled(w, s)
    ensures RowsSound(Next(w, s))
  {
    StepKeepsBroker(w, s);
    if s.CallbackWrite? {
      assert TaskSound(w, w.tasks[s.task]);
    }
  }

  lemma ListKeepsTask(w: World, s: Step)
    requires Sound(w) && Enabled(w, s) && s.CallbackList? && s.task in Next(w, s).tasks
    ensures TaskSound(Next(w, s), Next(w, s).tasks[s.task])
  {
    assert TaskSound(w, w.tasks[s.task]);
    var pick := PickIndex(s.listing, w.tasks[s.task].recorded);
    assert pick.Some? ==> PickNewest(s.listing, w.tasks[s.task].recorded) == Some(s.listing[pick.value]);
  }

  /** A task sleeps through the steps of others. */
  lemma SleepingTask(w: World, s: Step, t: Task)
    requires Sound(w) && Enabled(w, s) && TaskSound(w, t)
    ensures TaskSound(Next(w, s), t)
  {
    StepKeepsBroker(w, s);
    StepKeepsInv(w, s);
  }

  lemma StepKeepsTask(w: World, s: Step, k: TaskId)
    requires Sound(w) && Enabled(w, s) && k in Next(w, s).tasks
    ensures TaskSound(Next(w, s), Next(w, s).tasks[k])
  {
    if k in w.tasks && Next(w, s).tasks[k] == w.tasks[k] {
      SleepingTask(w, s, w.tasks[k]);
    } else if s.CallbackList? {
      ListKeepsTask(w, s);
    } else {
      assert k in w.tasks ==> TaskSound(w, w.tasks[k]);
    }
  }

  lemma StepKeepsSound(w: World, s: Step)
    requires Sound(w) && Enabled(w, s)
    ensures Sound(Next(w, s))
  {
    StepKeepsInv(w, s);
    StepKeepsBroker(w, s);
    StepKeepsRowsSound(w, s);
    forall k | k in Next(w, s).tasks
      ensures TaskSound(Next(w, s), Next(w, s).tasks[k])
    {
      StepKeepsTask(w, s, k);
    }
  }

  lemma {:induction false} RunKeepsSound(ws: seq<World>, steps: seq<Step>, j: nat)
    requires Run(ws, steps) && Sound(ws[0]) && j < |ws|
    ensures Sound(ws[j])
  {
    if j == 0 {
    } else {
      RunKeepsSound(ws, steps, j - 1);
      StepKeepsSound(ws[j - 1], steps[j - 1]);
    }
  }

  // ---- Removed rows and live authorizations ----

  /** The write of a disconnect meets a row that by now records a live authorization. */
  ghost predicate HidesLive(w: World, s: Step)
    requires Enabled(w, s)
  {
    && s.DisconnectWrite? && w.tasks[s.task].row in w.rows
    && w.rows[w.tasks[s.task].row].auth.Some? && w.rows[w.tasks[s.task].row].auth.value in w.broker.live
  }

  /** Those writes, and no other step, break the coupling. */
  lemma StepKeepsCleanIff(w: World, s: Step)
    requires Sound(w) && Clean(w) && Enabled(w, s)
    ensures Clean(Next(w, s)) <==> !HidesLive(w, s)
  {
    var w' := Next(w, s);
    if s.DisconnectWrite? {
      var t := w.tasks[s.task];
      assert TaskSound(w, t) && TaskOk(w.rows, t);
      assert IsRemoved(w'.rows[t.row]) && w'.rows[t.row].auth == w.rows[t.row].auth;
    }
  }

  ghost predicate HidesAt(ws: seq<World>, steps: seq<Step>, i: nat, n: nat)
    requires Run(ws, steps) && n < |ws|
  {
    i < n && HidesLive(ws[i], steps[i])
  }

  /** In every interleaving, the coupling holds all along exactly when no such write happens. */
  lemma {:induction false} CleanRunIff(ws: seq<World>, steps: seq<Step>, n: nat)
    requires Run(ws, steps) && Sound(ws[0]) && Clean(ws[0]) && n < |ws|
    ensures (forall j: nat :: j <= n ==> Clean(ws[j])) <==> !exists i: nat :: HidesAt(ws, steps, i, n)
  {
    if n == 0 {
    } else {
      var m := n - 1;
      CleanRunIff(ws, steps, m);
      assert forall i: nat :: HidesAt(ws, steps, i, n) <==> HidesAt(ws, steps, i, m) || (i == m && HidesLive(ws[m], steps[m]));
      if forall j: nat :: j <= m ==> Clean(ws[j]) {
        RunKeepsSound(ws, steps, m);
        assert Clean(ws[m]);
        StepKeepsCleanIff(ws[m], steps[m]);
        assert Clean(ws[n]) <==> !HidesLive(ws[m], steps[m]);
        assert HidesLive(ws[m], steps[m]) ==> HidesAt(ws, steps, m, n);
      } else {
        var i: nat :| HidesAt(ws, steps, i, m);
        assert HidesAt(ws, steps, i, n);
      }
    }
  }

  /** A disconnect under way holds an authorization that is off the broker, or will be before it writes. */
  ghost predicate TaskDead(b: Broker, t: Task) {
    && (t.Removing? && t.disabled ==> t.auth !in b.live)
    && (t.Deleting? ==> t.auth !in b.live)
  }

  ghost predicate TasksDead(w: World) {
    forall k :: k in w.tasks ==> TaskDead(w.broker, w.tasks[k])
  }

  lemma StepKeepsTasksDead(w: World, s: Step)
    requires Sound(w) && Clean(w) && TasksDead(w) && Enabled(w, s)
    ensures TasksDead(Next(w, s))
  {
    var w' := Next(w, s);
    forall k | k in w'.tasks
      ensures TaskDead(w'.broker, w'.tasks[k])
    {
      assert k in w.tasks ==> TaskDead(w.broker, w.tasks[k]) && TaskSound(w, w.tasks[k]);
    }
  }

  /** The row of this disconnect no longer records the authorization that was asked to be removed. */
  ghost predicate Stale(w: World, s: Step)
    requires Enabled(w, s)
  {
    s.DisconnectWrite? && w.tasks[s.task].row in w.rows
    && w.rows[w.tasks[s.task].row].auth != Some(w.tasks[s.task].auth)
  }

  /**
   A re-check at the write would be enough: as long as every disconnect finds its row still
   recording the authorization it read, no removed row's authorization is live.
   */
  lemma {:induction false} RecheckedRunIsClean(ws: seq<World>, steps: seq<Step>, n: nat)
    requires Run(ws, steps) && Sound(ws[0]) && Clean(ws[0]) && TasksDead(ws[0]) && n < |ws|
    requires forall i: nat :: i < n ==> !Stale(ws[i], steps[i])
    ensures Clean(ws[n]) && TasksDead(ws[n])
  {
    if n == 0 {
    } else {
      var w, s := ws[n - 1], steps[n - 1];
      RecheckedRunIsClean(ws, steps, n - 1);
      RunKeepsSound(ws, steps, n - 1);
      StepKeepsTasksDead(w, s);
      assert !Stale(w, s);
      assert s.DisconnectWrite? ==> TaskDead(w.broker, w.tasks[s.task]);
      StepKeepsCleanIff(w, s);
    }
  }

  lemma {:induction false} CleanRunKeepsTasksDead(ws: seq<World>, steps: seq<Step>, n: nat)
    requires Run(ws, steps) && Sound(ws[0]) && TasksDead(ws[0]) && n < |ws|
    requires forall j: nat :: j <= n ==> Clean(ws[j])
    ensures TasksDead(ws[n])
  {
    if n == 0 {
    } else {
      CleanRunKeepsTasksDead(ws, steps, n - 1);
      RunKeepsSound(ws, steps, n - 1);
      assert Clean(ws[n - 1]);
      StepKeepsTasksDead(ws[n - 1], steps[n - 1]);
    }
  }

  /** The write of a callback that records an authorization on this row. */
  ghost predicate Records(w: World, s: Step, r: RowId)
    requires Enabled(w, s)
  {
    s.CallbackWrite? && w.tasks[s.task].row == r && r in w.rows && !OtherActive(w.rows, r)
  }

  /** A row's authorization changes between two points only if a callback wrote the row between them. */
  lemma {:induction false} OnlyCallbacksRecord(ws: seq<World>, steps: seq<Step>, i: nat, j: nat, r: RowId)
    requires Run(ws, steps) && Inv(ws[0]) && i <= j < |ws| && r in ws[i].rows
    requires forall m: nat :: i <= m < j ==> !Records(ws[m], steps[m], r)
    ensures r in ws[j].rows && ws[j].rows[r].auth == ws[i].rows[r].auth
  {
    if i == j {
    } else {
      OnlyCallbacksRecord(ws, steps, i, j - 1, r);
      assert !Records(ws[j - 1], steps[j - 1], r);
    }
  }

  /** So a disconnect with no callback on its row between its read and its write is never stale. */
  lemma UndisturbedIsNotStale(ws: seq<World>, steps: seq<Step>, i: nat, j: nat)
    requires Run(ws, steps) && Inv(ws[0]) && i < j < |steps|
    requires steps[i].DisconnectRead? && steps[j].DisconnectWrite?
    requires ws[j].tasks[steps[j].task] == Deleting(steps[i].user, steps[i].row, steps[i].auth)
    requires forall m: nat :: i <= m < j ==> !Records(ws[m], steps[m], steps[i].row)
    ensures !Stale(ws[j], steps[j])
  {
    OnlyCallbacksRecord(ws, steps, i, j, steps[i].row);
  }

  // ---- Disconnected authorizations ----

  /** The write of a callback that chose this authorization before it died. */
  ghost predicate Revives(w: World, s: Step, a: AuthId)
    requires Enabled(w, s)
  {
    s.CallbackWrite? && w.tasks[s.task].chosen.id == a && Records(w, s, w.tasks[s.task].row)
  }

  /** Those writes, and no other step, link a dead authorization again. */
  lemma StepKeepsDeadIff(w: World, s: Step, a: AuthId)
    requires Enabled(w, s) && Dead(w.rows, w.broker, a)
    ensures Dead(Next(w, s).rows, Next(w, s).broker, a) <==> !Revives(w, s, a)
  {
    if Revives(w, s, a) {
      var r := w.tasks[s.task].row;
      assert IsLinked(Next(w, s).rows[r]) && Next(w, s).rows[r].auth == Some(a);
    }
  }

  ghost predicate RevivesAt(ws: seq<World>, steps: seq<Step>, m: nat, n: nat, a: AuthId)
    requires Run(ws, steps) && n < |ws|
  {
    m < n && Revives(ws[m], steps[m], a)
  }

  lemma DisconnectKills(w: World, s: Step)
    requires Sound(w) && Enabled(w, s) && s.DisconnectWrite? && w.tasks[s.task].auth !in w.broker.live
    ensures Dead(Next(w, s).rows, Next(w, s).broker, w.tasks[s.task].auth)
  {
    var t, w' := w.tasks[s.task], Next(w, s);
    assert TaskSound(w, t);
    forall r | r in w'.rows && IsLinked(w'.rows[r])
      ensures w'.rows[r].auth != Some(t.auth)
    {
      assert r != t.row;
      assert Distinct(w.rows[r], w.rows[t.row]);
    }
  }

  /**
   In every interleaving, an authorization whose disconnect is written at step `i` is never
   live or linked again exactly when it is off the broker at that write and no callback that
   chose it earlier writes after that.
   */
  lemma {:induction false} StaysDeadIff(ws: seq<World>, steps: seq<Step>, i: nat, n: nat, a: AuthId)
    requires Run(ws, steps) && Sound(ws[0]) && i < n < |ws| && steps[i].DisconnectWrite?
    requires a == ws[i].tasks[steps[i].task].auth
    ensures (forall j: nat :: i < j <= n ==> Dead(ws[j].rows, ws[j].broker, a))
            <==> a !in ws[i].broker.live && !exists m: nat :: i < m && RevivesAt(ws, steps, m, n, a)
  {
    if a in ws[i].broker.live {
      assert !Dead(ws[i + 1].rows, ws[i + 1].broker, a);
    } else if n == i + 1 {
      RunKeepsSound(ws, steps, i);
      DisconnectKills(ws[i], steps[i]);
    } else {
      var l := n - 1;
      StaysDeadIff(ws, steps, i, l, a);
      assert forall m: nat ::
          RevivesAt(ws, steps, m, n, a) <==> RevivesAt(ws, steps, m, l, a) || (m == l && Revives(ws[l], steps[l], a));
      if forall j: nat :: i < j <= l ==> Dead(ws[j].rows, ws[j].broker, a) {
        assert Dead(ws[l].rows, ws[l].broker, a);
        StepKeepsDeadIff(ws[l], steps[l], a);
        assert Dead(ws[n].rows, ws[n].broker, a) <==> !Revives(ws[l], steps[l], a);
        assert Revives(ws[l], steps[l], a) ==> RevivesAt(ws, steps, l, n, a);
      } else {
        var m: nat :| i < m && RevivesAt(ws, steps, m, l, a);
        assert RevivesAt(ws, steps, m, n, a);
      }
    }
  }

  // ---- How long a broken coupling lasts ----

  /** A removed row whose authorization is live. */
  ghost predicate Broken(w: World, r: RowId) {
    r in w.rows && IsRemoved(w.rows[r]) && w.rows[r].auth.value in w.broker.live
  }

  /**
   The steps that mend it: a callback records on the row, the broker revokes the
   authorization, or a disconnect that read the row before it was disabled removes it.
   */
  ghost predicate Mends(w: World, s: Step, r: RowId)
    requires Enabled(w, s) && Broken(w, r)
  {
    var a := w.rows[r].auth.value;
    || Records(w, s, r)
    || s == Revoke(a)
    || (s.DisconnectUpstream? && w.tasks[s.task].auth == a && !w.tasks[s.task].disabled)
  }

  lemma StepKeepsBrokenIff(w: World, s: Step, r: RowId)
    requires Sound(w) && Enabled(w, s) && Broken(w, r)
    ensures Broken(Next(w, s), r) <==> !Mends(w, s, r)
  {
    assert IssuedTo(w.broker, w.rows[r].auth.value, w.rows[r].brokerUser);
    if s.DisconnectUpstream? {
      assert TaskSound(w, w.tasks[s.task]);
    }
  }

  ghost predicate MendsAt(ws: seq<World>, steps: seq<Step>, m: nat, n: nat, r: RowId)
    requires Run(ws, steps) && n < |ws|
  {
    m < n && Broken(ws[m], r) && Mends(ws[m], steps[m], r)
  }

  /** In every interleaving a broken row stays broken exactly until the first step that mends it. */
  lemma {:induction false} StaysBrokenIff(ws: seq<World>, steps: seq<Step>, i: nat, n: nat, r: RowId)
    requires Run(ws, steps) && Sound(ws[0]) && i <= n < |ws| && Broken(ws[i], r)
    ensures (forall j: nat :: i <= j <= n ==> Broken(ws[j], r)) <==> !exists m: nat :: i <= m && MendsAt(ws, steps, m, n, r)
  {
    if n == i {
    } else {
      var l := n - 1;
      StaysBrokenIff(ws, steps, i, l, r);
      if forall j: nat :: i <= j <= l ==> Broken(ws[j], r) {
        assert Broken(ws[l], r);
        RunKeepsSound(ws, steps, l);
        StepKeepsBrokenIff(ws[l], steps[l], r);
        assert Broken(ws[n], r) <==> !Mends(ws[l], steps[l], r);
        assert Mends(ws[l], steps[l], r) ==> MendsAt(ws, steps, l, n, r);
        assert forall m: nat :: MendsAt(ws, steps, m, n, r) ==> MendsAt(ws, steps, m, l, r) || m == l;
      } else {
        var m: nat :| i <= m && MendsAt(ws, steps, m, l, r);
        assert MendsAt(ws, steps, m, n, r);
      }
    }
  }

  /** No disconnect under way read the row while it was enabled. */
  ghost predicate NoneToRemove(w: World, a: AuthId) {
    forall k :: k in w.tasks && w.tasks[k].Removing? && w.tasks[k].auth == a ==> w.tasks[k].disabled
  }

  lemma StepKeepsNoneToRemove(w: World, s: Step, r: RowId)
    requires Sound(w) && Enabled(w, s) && Broken(w, r) && NoneToRemove(w, w.rows[r].auth.value)
    ensures NoneToRemove(Next(w, s), w.rows[r].auth.value)
  {
    if s.DisconnectRead? && s.auth == w.rows[r].auth.value {
      assert s.row == r;
    }
  }

  /**
   Disconnecting again never mends it: with no earlier disconnect still to remove it, a
   broken row stays broken through any number of disconnects, until a callback records on
   it or the broker revokes its authorization.
   */
  lemma {:induction false} DisconnectsNeverMend(ws: seq<World>, steps: seq<Step>, i: nat, n: nat, r: RowId)
    requires Run(ws, steps) && Sound(ws[0]) && i <= n < |ws|
    requires Broken(ws[i], r) && NoneToRemove(ws[i], ws[i].rows[r].auth.value)
    requires forall m: nat :: i <= m < n ==> !Records(ws[m], steps[m], r) && steps[m] != Revoke(ws[i].rows[r].auth.value)
    ensures Broken(ws[n], r) && ws[n].rows[r].auth == ws[i].rows[r].auth
    ensures NoneToRemove(ws[n], ws[i].rows[r].auth.value)
  {
    if n == i {
    } else {
      var w, s := ws[n - 1], steps[n - 1];
      DisconnectsNeverMend(ws, steps, i, n - 1, r);
      RunKeepsSound(ws, steps, n - 1);
      assert !Records(w, s, r) && s != Revoke(w.rows[r].auth.value);
      StepKeepsBrokenIff(w, s, r);
      StepKeepsNoneToRemove(w, s, r);
    }
  }

  // ---- One row per user ----

  /** The insert of a login portal whose user got a row since it looked. */
  ghost predicate Duplicates(w: World, s: Step)
    requires Enabled(w, s)
  {
    && s.PortalInsert? && (forall r :: r in w.rows ==> w.rows[r].brokerUser != s.brokerUser)
    && exists r :: r in w.rows && w.rows[r].user == w.tasks[s.task].user
  }

  lemma StepKeepsOneRowIff(w: World, s: Step)
    requires Enabled(w, s) && OneRowEach(w.rows)
    ensures OneRowEach(Next(w, s).rows) <==> !Duplicates(w, s)
  {
    var t := Next(w, s).rows;
    if Duplicates(w, s) {
      var r :| r in w.rows && w.rows[r].user == w.tasks[s.task].user;
      assert s.row in t && r in t && r != s.row && t[r].user == t[s.row].user;
    }
  }

  ghost predicate DuplicatesAt(ws: seq<World>, steps: seq<Step>, i: nat, n: nat)
    requires Run(ws, steps) && n < |ws|
  {
    i < n && Duplicates(ws[i], steps[i])
  }

  /** In every interleaving each user has one row at most all along exactly when no such insert happens. */
  lemma {:induction false} OneRowEachIff(ws: seq<World>, steps: seq<Step>, n: nat)
    requires Run(ws, steps) && OneRowEach(ws[0].rows) && n < |ws|
    ensures (forall j: nat :: j <= n ==> OneRowEach(ws[j].rows)) <==> !exists i: nat :: DuplicatesAt(ws, steps, i, n)
  {
    if n == 0 {
    } else {
      var m := n - 1;
      OneRowEachIff(ws, steps, m);
      assert forall i: nat ::
          DuplicatesAt(ws, steps, i, n) <==> DuplicatesAt(ws, steps, i, m) || (i == m && Duplicates(ws[m], steps[m]));
      if forall j: nat :: j <= m ==> OneRowEach(ws[j].rows) {
        assert OneRowEach(ws[m].rows);
        StepKeepsOneRowIff(ws[m], steps[m]);
        assert OneRowEach(ws[n].rows) <==> !Duplicates(ws[m], steps[m]);
        assert Duplicates(ws[m], steps[m]) ==> DuplicatesAt(ws, steps, m, n);
      } else {
        var i: nat :| DuplicatesAt(ws, steps, i, m);
        assert DuplicatesAt(ws, steps, i, n);
      }
    }
  }

  // ---- Both failures happen ----

  const PENDING: Connection := Connection(7, "u", [], None, None, None, false, false, 0)
  const FIRST: Authorization := Authorization("a", None, None, None)
  const SECOND: Authorization := Authorization("b", None, None, None)
  const LINKED: Connection := Completed(PENDING, FIRST)
  const BOTH: map<AuthId, string> := map["a" := "u", "b" := "u"]
  const ONLY_A: map<AuthId, string> := map["a" := "u"]
  const ONLY_B: map<AuthId, string> := map["b" := "u"]

  /** A world with one row, these tasks and these live authorizations. */
  ghost function One(c: Connection, tasks: map<TaskId, Task>, live: map<AuthId, string>): World {
    World(map[0 := c], tasks, Broker(live, BOTH))
  }

  ghost predicate Moves(w: World, s: Step, w': World) { Enabled(w, s) && Next(w, s) == w' }

  /** Everything a run may start from: no request under way, nothing broken. */
  ghost predicate Begins(w: World) { Sound(w) && Clean(w) && w.tasks == map[] }

  /** A disconnect reads the row linked to "a" and removes "a" at the broker. */
  lemma FirstHalf(others: map<TaskId, Task>, live: map<AuthId, string>)
    requires 3 !in others && "a" in live && live["a"] == "u"
    ensures var t := Removing(7, 0, "a", false, "u");
            && Moves(One(LINKED, others, live), DisconnectRead(3, 7, "a", 0), One(LINKED, others[3 := t], live))
            && Moves(One(LINKED, others[3 := t], live), DisconnectUpstream(3),
                     One(LINKED, others[3 := Deleting(7, 0, "a")], live - {"a"}))
  {
    var t := Removing(7, 0, "a", false, "u");
    assert others[3 := t][3 := Deleting(7, 0, "a")] == others[3 := Deleting(7, 0, "a")];
  }

  /** A callback lists one authorization that is not the recorded one, and remembers it. */
  lemma Listed(c: Connection, others: map<TaskId, Task>, k: TaskId, a: Authorization, live: map<AuthId, string>)
    requires k !in others && c.user == 7 && c.brokerUser == "u" && c.auth != Some(a.id)
    requires a.id in live && live[a.id] == "u"
    ensures var w := One(c, others[k := Task.Listing(7, 0, c.auth, "u")], live);
            && Moves(One(c, others, live), CallbackRead(k, 7, 0), w)
            && Moves(w, CallbackList(k, [a]), One(c, others[k := Completing(0, a)], live))
  {
    var l := [a];
    assert Eligible(l[0], c.auth);
    assert PickNewest(l, c.auth) == Some(a);
    var t := Task.Listing(7, 0, c.auth, "u");
    assert others[k := t][k := Completing(0, a)] == others[k := Completing(0, a)];
  }

  lemma Recorded(c: Connection, others: map<TaskId, Task>, k: TaskId, a: Authorization, live: map<AuthId, string>)
    requires k !in others
    ensures Moves(One(c, others[k := Completing(0, a)], live), CallbackWrite(k), One(Completed(c, a), others, live))
  {
    assert others[k := Completing(0, a)] - {k} == others;
  }

  lemma Deleted(c: Connection, others: map<TaskId, Task>, k: TaskId, a: AuthId, live: map<AuthId, string>)
    requires k !in others && c.user == 7
    ensures Moves(One(c, others[k := Deleting(7, 0, a)], live), DisconnectWrite(k),
                  One(c.(active := false, disabled := true), others, live))
  {
    assert others[k := Deleting(7, 0, a)] - {k} == others;
  }

  /**
   A callback that records a second authorization between the two halves of a disconnect
   leaves a removed row whose authorization is live.
   */
  lemma {:induction false} InterleavingBreaksCoupling() returns (ws: seq<World>, steps: seq<Step>)
    ensures Run(ws, steps) && Begins(ws[0]) && |steps| == 6
    ensures HidesLive(ws[5], steps[5]) && Stale(ws[5], steps[5])
    ensures ws[6] == One(Completed(LINKED, SECOND).(active := false, disabled := true), map[], ONLY_B)
    ensures Broken(ws[6], 0)
  {
    var d := Deleting(7, 0, "a");
    var other := Completed(LINKED, SECOND);
    FirstHalf(map[], BOTH);
    assert BOTH - {"a"} == ONLY_B;
    Listed(LINKED, map[3 := d], 1, SECOND, ONLY_B);
    Recorded(LINKED, map[3 := d], 1, SECOND, ONLY_B);
    Deleted(other, map[], 3, "a", ONLY_B);
    ws := [One(LINKED, map[], BOTH),
           One(LINKED, map[3 := Removing(7, 0, "a", false, "u")], BOTH),
           One(LINKED, map[3 := d], ONLY_B),
           One(LINKED, map[3 := d][1 := Task.Listing(7, 0, Some("a"), "u")], ONLY_B),
           One(LINKED, map[3 := d][1 := Completing(0, SECOND)], ONLY_B),
           One(other, map[3 := d], ONLY_B),
           One(other.(active := false, disabled := true), map[], ONLY_B)];
    steps := [DisconnectRead(3, 7, "a", 0), DisconnectUpstream(3), CallbackRead(1, 7, 0),
              CallbackList(1, [SECOND]), CallbackWrite(1), DisconnectWrite(3)];
  }

  /** A disconnect repeated on a disabled row does not ask the broker. */
  lemma Skipped(c: Connection, a: AuthId, live: map<AuthId, string>)
    requires c.user == 7 && c.brokerUser == "u" && c.disabled && !c.active && c.auth == Some(a)
    ensures var t := Removing(7, 0, a, true, "u");
            && Moves(One(c, map[], live), DisconnectRead(4, 7, a, 0), One(c, map[4 := t], live))
            && Moves(One(c, map[4 := t], live), DisconnectUpstream(4), One(c, map[4 := Deleting(7, 0, a)], live))
            && Moves(One(c, map[4 := Deleting(7, 0, a)], live), DisconnectWrite(4), One(c, map[], live))
  {
    Deleted(c, map[], 4, a, live);
    assert c.(active := false, disabled := true) == c;
  }

  /**
   And so a disconnect can be written while its authorization is live: after that run, the
   user disconnects the second authorization, and it stays live.
   */
  lemma RepeatLeavesLive() returns (ws: seq<World>, steps: seq<Step>)
    ensures Run(ws, steps) && Begins(ws[0]) && |steps| == 9
    ensures steps[8] == DisconnectWrite(4) && ws[8].tasks[4] == Deleting(7, 0, "b") && "b" in ws[8].broker.live
    ensures Broken(ws[9], 0) && !Dead(ws[9].rows, ws[9].broker, "b")
  {
    var ws1, steps1 := InterleavingBreaksCoupling();
    var c := Completed(LINKED, SECOND).(active := false, disabled := true);
    Skipped(c, "b", ONLY_B);
    var t := Removing(7, 0, "b", true, "u");
    var ws2 := [One(c, map[], ONLY_B), One(c, map[4 := t], ONLY_B),
                One(c, map[4 := Deleting(7, 0, "b")], ONLY_B), One(c, map[], ONLY_B)];
    var steps2 := [DisconnectRead(4, 7, "b", 0), DisconnectUpstream(4), DisconnectWrite(4)];
    JoinRuns(ws1, steps1, ws2, steps2);
    ws, steps := ws1 + ws2[1..], steps1 + steps2;
    assert ws[6 + 2] == ws2[2] && ws[6 + 3] == ws2[3];
  }

  const LATE: map<TaskId, Task> := map[2 := Completing(0, FIRST)]

  /** Two callbacks choose the same authorization, and one of them records it. */
  lemma {:induction false} BothChoose() returns (ws: seq<World>, steps: seq<Step>)
    ensures Run(ws, steps) && Begins(ws[0]) && |steps| == 5 && ws[5] == One(LINKED, LATE, ONLY_A)
  {
    Listed(PENDING, map[], 2, FIRST, ONLY_A);
    Listed(PENDING, LATE, 1, FIRST, ONLY_A);
    Recorded(PENDING, LATE, 1, FIRST, ONLY_A);
    ws := [One(PENDING, map[], ONLY_A),
           One(PENDING, map[2 := Task.Listing(7, 0, None, "u")], ONLY_A),
           One(PENDING, LATE, ONLY_A),
           One(PENDING, LATE[1 := Task.Listing(7, 0, None, "u")], ONLY_A),
           One(PENDING, LATE[1 := Completing(0, FIRST)], ONLY_A),
           One(LINKED, LATE, ONLY_A)];
    steps := [CallbackRead(2, 7, 0), CallbackList(2, [FIRST]), CallbackRead(1, 7, 0), CallbackList(1, [FIRST]), CallbackWrite(1)];
  }

  /** A whole disconnect removes it, and then the other callback records it again. */
  lemma DisconnectedThenRecorded() returns (ws: seq<World>, steps: seq<Step>)
    ensures Run(ws, steps) && |steps| == 4 && ws[0] == One(LINKED, LATE, ONLY_A)
    ensures steps[2] == DisconnectWrite(3) && ws[2].tasks[3] == Deleting(7, 0, "a") && Dead(ws[3].rows, ws[3].broker, "a")
    ensures Revives(ws[3], steps[3], "a")
    ensures 0 in ws[4].rows && IsLinked(ws[4].rows[0]) && ws[4].rows[0].auth == Some("a") && "a" !in ws[4].broker.live
  {
    var gone := LINKED.(active := false, disabled := true);
    FirstHalf(LATE, ONLY_A);
    assert ONLY_A - {"a"} == map[];
    Deleted(LINKED, LATE, 3, "a", map[]);
    Recorded(gone, map[], 2, FIRST, map[]);
    ws := [One(LINKED, LATE, ONLY_A),
           One(LINKED, LATE[3 := Removing(7, 0, "a", false, "u")], ONLY_A),
           One(LINKED, LATE[3 := Deleting(7, 0, "a")], map[]),
           One(gone, LATE, map[]),
           One(Completed(gone, FIRST), map[], map[])];
    steps := [DisconnectRead(3, 7, "a", 0), DisconnectUpstream(3), DisconnectWrite(3), CallbackWrite(2)];
  }

  lemma JoinRuns(ws: seq<World>, steps: seq<Step>, ws': seq<World>, steps': seq<Step>)
    requires Run(ws, steps) && Run(ws', steps') && ws[|steps|] == ws'[0]
    ensures Run(ws + ws'[1..], steps + steps')
    ensures forall i :: 0 <= i < |ws'| ==> (ws + ws'[1..])[|steps| + i] == ws'[i]
  {
    var all := ws + ws'[1..];
    assert forall i :: 0 <= i < |ws'| ==> all[|steps| + i] == ws'[i];
    forall i | 0 <= i < |steps + steps'|
      ensures Enabled(all[i], (steps + steps')[i]) && all[i + 1] == Next(all[i], (steps + steps')[i])
    {
      if i >= |steps| {
        var j := i - |steps|;
        assert all[|steps| + j] == ws'[j] && all[|steps| + (j + 1)] == ws'[j + 1];
      }
    }
  }

  /**
   The disconnected authorization is linked again, though dead: the callback that chose it
   before the disconnect writes after it.
   */
  lemma LateCallbackRevives() returns (ws: seq<World>, steps: seq<Step>)
    ensures Run(ws, steps) && Begins(ws[0]) && |steps| == 9
    ensures steps[7] == DisconnectWrite(3) && ws[7].tasks[3] == Deleting(7, 0, "a") && Dead(ws[8].rows, ws[8].broker, "a")
    ensures Revives(ws[8], steps[8], "a")
    ensures 0 in ws[9].rows && IsLinked(ws[9].rows[0]) && ws[9].rows[0].auth == Some("a") && "a" !in ws[9].broker.live
  {
    var ws1, steps1 := BothChoose();
    var ws2, steps2 := DisconnectedThenRecorded();
    JoinRuns(ws1, steps1, ws2, steps2);
    ws, steps := ws1 + ws2[1..], steps1 + steps2;
    assert ws[5 + 2] == ws2[2] && ws[5 + 3] == ws2[3] && ws[5 + 4] == ws2[4];
  }

  /**
   Two login portals of one user, both of which look before either inserts. It takes a broker
   that answers them with different broker user ids; the program asks for one made from the
   user's own id, and if the broker keeps to it the index on broker user ids stops the second.
   */
  lemma PortalsRace() returns (ws: seq<World>, steps: seq<Step>)
    ensures Run(ws, steps) && Begins(ws[0]) && |steps| == 4 && Duplicates(ws[3], steps[3])
    ensures !OneRowEach(ws[4].rows)
  {
    var none: map<AuthId, string> := map[];
    var b, t := Broker(none, none), Registering(7);
    var one, two := Fresh(7, "u", [], 0), Fresh(7, "v", [], 0);
    ws := [World(map[], map[], b), World(map[], map[1 := t], b), World(map[], map[1 := t, 2 := t], b),
           World(map[0 := one], map[2 := t], b), World(map[0 := one, 5 := two], map[], b)];
    steps := [PortalRead(1, 7), PortalRead(2, 7), PortalInsert(1, 0, "u", [], 0), PortalInsert(2, 5, "v", [], 0)];
    assert map[1 := t, 2 := t] - {1} == map[2 := t];
    assert !BrokerUserTaken(ws[3].rows, "v");
    assert ws[4].rows[0].user == ws[4].rows[5].user;
  }
}
