/**
 Team invites: creation and acceptance as separate read and write steps that interleave
 freely. The write of an acceptance re-checks nothing, so what holds of a membership is
 traced back to the reads that led to it. Case folding and trimming of text are parameters.
 */
module Teams {
  import opened Wrappers

  type UserId = nat
  type TeamId = nat
  type TaskId = nat
  type Token = string

  datatype Text = Text(lower: string -> string, trim: string -> string)

  datatype Role = Owner | Advisor | Viewer

  datatype Invite = Invite(team: TeamId, invitedBy: UserId, email: string, role: Role, expiresAt: int,
                           redeemedBy: Option<UserId>)

  type Members = map<(TeamId, UserId), Role>

  type Invites = map<Token, Invite>

  // ---- Statements ----

  function InsertInvite(invites: Invites, token: Token, v: Invite): Invites {
    if token in invites then invites else invites[token := v]
  }

  function Redeem(invites: Invites, token: Token, user: UserId): Invites {
    if token in invites then invites[token := invites[token].(redeemedBy := Some(user))] else invites
  }

  /** The two tables as the program updates them. */
  class TeamStore {
    var members: Members
    var invites: Invites

    constructor (members: Members, invites: Invites)
      ensures this.members == members && this.invites == invites
    {
      this.members, this.invites := members, invites;
    }

    method CreateInvite(token: Token, v: Invite) returns (ok: bool)
      modifies this`invites
      ensures ok <==> token !in old(invites)
      ensures invites == InsertInvite(old(invites), token, v)
    {
      ok := token !in invites;
      if ok {
        invites := invites[token := v];
      }
    }

    /** The transaction of an acceptance: member upsert and redemption, with no second look. */
    method AcceptInvite(token: Token, user: UserId, team: TeamId, role: Role, commits: bool)
      modifies this
      ensures members == if commits then old(members)[(team, user) := role] else old(members)
      ensures invites == if commits then Redeem(old(invites), token, user) else old(invites)
    {
      var members0, invites0 := members, invites;
      members := members[(team, user) := role];
      if token in invites {
        invites := invites[token := invites[token].(redeemedBy := Some(user))];
      }
      if !commits {
        members, invites := members0, invites0;
      }
    }
  }

  // ---- Requests as tasks ----

  datatype Task =
    | Creating(team: TeamId, user: UserId, email: string, role: Role)
    | Accepting(token: Token, user: UserId, email: string, team: TeamId, role: Role)

  datatype World = World(members: Members, invites: Invites, tasks: map<TaskId, Task>)

  datatype Step =
    | CreateCheck(task: TaskId, team: TeamId, user: UserId, address: string, role: Role)
    | CreateInsert(task: TaskId, token: Token, expiresAt: int)
    | AcceptRead(task: TaskId, token: Token, user: UserId, email: string, now: int)
    | AcceptWrite(task: TaskId)
    | Stop(task: TaskId)

  ghost predicate Owns(w: World, team: TeamId, user: UserId) {
    (team, user) in w.members && w.members[(team, user)] == Owner
  }

  /** The reads of an acceptance pass: unredeemed, unexpired, addressed to this email. */
  ghost predicate MayAccept(w: World, token: Token, email: string, now: int) {
    && token in w.invites && w.invites[token].redeemedBy.None?
    && now < w.invites[token].expiresAt && email == w.invites[token].email
  }

  ghost predicate Enabled(w: World, s: Step) {
    match s
    case CreateCheck(k, _, _, _, _) => k !in w.tasks
    case CreateInsert(k, token, _) => k in w.tasks && w.tasks[k].Creating?
    case AcceptRead(k, _, _, _, _) => k !in w.tasks
    case AcceptWrite(k) => k in w.tasks && w.tasks[k].Accepting?
    case Stop(k) => k in w.tasks
  }

  /** One step. A token already taken makes the insert fail; a failed check ends the request. */
  ghost function Next(w: World, s: Step, x: Text): World
    requires Enabled(w, s)
  {
    match s
    case CreateCheck(k, team, user, address, role) =>
      if Owns(w, team, user) && role != Owner
      then w.(tasks := w.tasks[k := Creating(team, user, x.lower(x.trim(address)), role)]) else w
    case CreateInsert(k, token, expiresAt) =>
      var t := w.tasks[k];
      w.(invites := InsertInvite(w.invites, token, Invite(t.team, t.user, t.email, t.role, expiresAt, None)),
         tasks := w.tasks - {k})
    case AcceptRead(k, token, user, email, now) =>
      if MayAccept(w, token, x.lower(email), now)
      then w.(tasks := w.tasks[k := Accepting(token, user, x.lower(email), w.invites[token].team, w.invites[token].role)])
      else w
    case AcceptWrite(k) =>
      var t := w.tasks[k];
      World(w.members[(t.team, t.user) := t.role], Redeem(w.invites, t.token, t.user), w.tasks - {k})
    case Stop(k) => w.(tasks := w.tasks - {k})
  }

  /** A run, from a state with no invites and no requests under way. */
  datatype History = History(ws: seq<World>, steps: seq<Step>, x: Text) {
    ghost predicate Valid() {
      && |ws| == |steps| + 1 && ws[0].invites == map[] && ws[0].tasks == map[]
      && forall i :: 0 <= i < |steps| ==> Enabled(ws[i], steps[i]) && ws[i + 1] == Next(ws[i], steps[i], x)
    }
  }

  // ---- Provenance ----

  /** At step `c` the issuer was checked to own the team, for this email and a role that can be given. */
  ghost predicate CheckedAt(h: History, c: nat, team: TeamId, user: UserId, email: string, role: Role)
    requires h.Valid()
  {
    && c < |h.steps| && h.steps[c].CreateCheck?
    && h.steps[c].team == team && h.steps[c].user == user && h.steps[c].role == role
    && h.x.lower(h.x.trim(h.steps[c].address)) == email
    && Owns(h.ws[c], team, user) && role != Owner
  }

  ghost predicate Checked(h: History, n: nat, team: TeamId, user: UserId, email: string, role: Role)
    requires h.Valid()
  {
    exists c: nat :: c < n && CheckedAt(h, c, team, user, email, role)
  }

  /** At step `a` the invite was read as redeemable by this user, and it says this team and role. */
  ghost predicate ReadAt(h: History, a: nat, t: Task)
    requires h.Valid()
  {
    && t.Accepting? && a < |h.steps| && h.steps[a].AcceptRead?
    && h.steps[a].token == t.token && h.steps[a].user == t.user && h.x.lower(h.steps[a].email) == t.email
    && MayAccept(h.ws[a], t.token, t.email, h.steps[a].now)
    && h.ws[a].invites[t.token].team == t.team && h.ws[a].invites[t.token].role == t.role
  }

  ghost predicate WasRead(h: History, n: nat, t: Task)
    requires h.Valid()
  {
    exists a: nat :: a < n && ReadAt(h, a, t)
  }

  ghost predicate InviteTraced(h: History, n: nat, v: Invite)
    requires h.Valid()
  {
    Checked(h, n, v.team, v.invitedBy, v.email, v.role)
  }

  /** A request stands on the checks it made, and the invite it read is still the same. */
  ghost predicate TaskTraced(h: History, n: nat, t: Task)
    requires h.Valid() && n < |h.ws|
  {
    match t
    case Creating(team, user, email, role) => Checked(h, n, team, user, email, role)
    case Accepting(token, _, email, team, role) =>
      && WasRead(h, n, t) && token in h.ws[n].invites && h.ws[n].invites[token].email == email
      && h.ws[n].invites[token].team == team && h.ws[n].invites[token].role == role
  }

  ghost predicate Traced(h: History, n: nat)
    requires h.Valid() && n < |h.ws|
  {
    && (forall token :: token in h.ws[n].invites ==> InviteTraced(h, n, h.ws[n].invites[token]))
    && (forall k :: k in h.ws[n].tasks ==> TaskTraced(h, n, h.ws[n].tasks[k]))
  }

  /** An invite, once there, keeps everything but its redemption. */
  ghost predicate InvitesLast(a: Invites, b: Invites) {
    forall token :: token in a ==> token in b && b[token].(redeemedBy := None) == a[token].(redeemedBy := None)
  }

  lemma StepKeepsInvites(w: World, s: Step, x: Text)
    requires Enabled(w, s)
    ensures InvitesLast(w.invites, Next(w, s, x).invites)
  {
  }

  lemma {:induction false} RunKeepsInvites(h: History, i: nat, j: nat)
    requires h.Valid() && i <= j < |h.ws|
    ensures InvitesLast(h.ws[i].invites, h.ws[j].invites)
  {
    if i == j {
    } else {
      RunKeepsInvites(h, i, j - 1);
      StepKeepsInvites(h.ws[j - 1], h.steps[j - 1], h.x);
    }
  }

  lemma CheckedLater(h: History, n: nat, team: TeamId, user: UserId, email: string, role: Role)
    requires h.Valid() && Checked(h, n, team, user, email, role)
    ensures Checked(h, n + 1, team, user, email, role)
  {
    var c: nat :| c < n && CheckedAt(h, c, team, user, email, role);
    assert c < n + 1;
  }

  lemma TracedLater(h: History, n: nat, t: Task)
    requires h.Valid() && n < |h.steps| && TaskTraced(h, n, t)
    ensures TaskTraced(h, n + 1, t)
  {
    match t
    case Creating(team, user, email, role) => CheckedLater(h, n, team, user, email, role);
    case Accepting(_, _, _, _, _) =>
      StepKeepsInvites(h.ws[n], h.steps[n], h.x);
      var a: nat :| a < n && ReadAt(h, a, t);
      assert a < n + 1;
  }

  lemma StepKeepsInviteTrace(h: History, n: nat, token: Token)
    requires h.Valid() && n < |h.steps| && Traced(h, n) && token in h.ws[n + 1].invites
    ensures InviteTraced(h, n + 1, h.ws[n + 1].invites[token])
  {
    var v := h.ws[n + 1].invites[token];
    if token in h.ws[n].invites {
      StepKeepsInvites(h.ws[n], h.steps[n], h.x);
      assert InviteTraced(h, n, h.ws[n].invites[token]);
    } else {
      assert TaskTraced(h, n, h.ws[n].tasks[h.steps[n].task]);
    }
    CheckedLater(h, n, v.team, v.invitedBy, v.email, v.role);
  }

  lemma NewTaskIsTraced(h: History, n: nat, k: TaskId)
    requires h.Valid() && n < |h.steps| && k in h.ws[n + 1].tasks && k !in h.ws[n].tasks
    ensures TaskTraced(h, n + 1, h.ws[n + 1].tasks[k])
  {
    var t := h.ws[n + 1].tasks[k];
    assert h.ws[n + 1] == Next(h.ws[n], h.steps[n], h.x);
    if t.Creating? {
      assert CheckedAt(h, n, t.team, t.user, t.email, t.role);
    } else {
      assert ReadAt(h, n, t);
    }
  }

  lemma StepKeepsTaskTrace(h: History, n: nat, k: TaskId)
    requires h.Valid() && n < |h.steps| && Traced(h, n) && k in h.ws[n + 1].tasks
    ensures TaskTraced(h, n + 1, h.ws[n + 1].tasks[k])
  {
    if k in h.ws[n].tasks {
      assert h.ws[n + 1].tasks[k] == h.ws[n].tasks[k];
      TracedLater(h, n, h.ws[n].tasks[k]);
    } else {
      NewTaskIsTraced(h, n, k);
    }
  }

  /** Every invite and every request under way can be traced to its checks. */
  lemma {:induction false} RunIsTraced(h: History, n: nat)
    requires h.Valid() && n < |h.ws|
    ensures Traced(h, n)
  {
    if n == 0 {
    } else {
      RunIsTraced(h, n - 1);
      forall token | token in h.ws[n].invites
        ensures InviteTraced(h, n, h.ws[n].invites[token])
      {
        StepKeepsInviteTrace(h, n - 1, token);
      }
      forall k | k in h.ws[n].tasks
        ensures TaskTraced(h, n, h.ws[n].tasks[k])
      {
        StepKeepsTaskTrace(h, n - 1, k);
      }
    }
  }

  /**
   Provenance. A step that adds or changes a membership is the write of an acceptance `t`
   of that user. At the earlier step `a` its request read an invite for that team and role,
   unredeemed, unexpired and addressed to the user's lower-cased email; and at the still
   earlier step `c` the issuer of that invite was checked to own the team.
   */
  lemma MembershipIsTraced(h: History, n: nat, team: TeamId, user: UserId)
    returns (a: nat, c: nat, t: Task, issuer: UserId)
    requires h.Valid() && n < |h.steps| && (team, user) in h.ws[n + 1].members
    requires (team, user) !in h.ws[n].members || h.ws[n].members[(team, user)] != h.ws[n + 1].members[(team, user)]
    ensures c < a < n
    ensures t.Accepting? && t.team == team && t.user == user && t.role == h.ws[n + 1].members[(team, user)]
    ensures ReadAt(h, a, t) && CheckedAt(h, c, team, issuer, t.email, t.role)
    ensures && h.steps[a].AcceptRead? && h.steps[a].user == user && h.steps[a].token in h.ws[a].invites
            && var v := h.ws[a].invites[h.steps[a].token];
               && v.redeemedBy.None? && h.steps[a].now < v.expiresAt && v.email == h.x.lower(h.steps[a].email)
               && v.team == team && v.role == h.ws[n + 1].members[(team, user)] && v.role != Owner && v.invitedBy == issuer
    ensures && h.steps[c].CreateCheck? && h.steps[c].user == issuer && h.steps[c].team == team
            && h.x.lower(h.x.trim(h.steps[c].address)) == h.x.lower(h.steps[a].email)
            && (team, issuer) in h.ws[c].members && h.ws[c].members[(team, issuer)] == Owner
  {
    t := h.ws[n].tasks[h.steps[n].task];
    RunIsTraced(h, n);
    assert TaskTraced(h, n, t);
    a :| a < n && ReadAt(h, a, t);
    RunIsTraced(h, a);
    var v := h.ws[a].invites[t.token];
    issuer := v.invitedBy;
    assert InviteTraced(h, a, v);
    c :| c < a && CheckedAt(h, c, v.team, v.invitedBy, v.email, v.role);
  }

  /**
   Which requests get past their reads: an acceptance exactly when its invite is there,
   unredeemed, not expired and addressed to the user's lower-cased email; a creation exactly
   when the user owns the team and the role is not the owner's.
   */
  lemma RequestsPassIff(w: World, k: TaskId, token: Token, team: TeamId, user: UserId, email: string, role: Role, now: int, x: Text)
    requires k !in w.tasks
    ensures var w' := Next(w, AcceptRead(k, token, user, email, now), x);
            && (k in w'.tasks <==> && token in w.invites && w.invites[token].redeemedBy.None?
                                   && now < w.invites[token].expiresAt && w.invites[token].email == x.lower(email))
            && (k in w'.tasks ==>
                  var v := w.invites[token];
                  w'.tasks == w.tasks[k := Accepting(token, user, x.lower(email), v.team, v.role)])
            && w'.members == w.members && w'.invites == w.invites
    ensures var w' := Next(w, CreateCheck(k, team, user, email, role), x);
            && (k in w'.tasks <==> (team, user) in w.members && w.members[(team, user)] == Owner && role != Owner)
            && (k in w'.tasks ==> w'.tasks == w.tasks[k := Creating(team, user, x.lower(x.trim(email)), role)])
            && w'.members == w.members && w'.invites == w.invites
  {
  }

  /** What the writes do: a creation adds its invite if the token is new; an acceptance sets role and redemption. */
  lemma WritesMean(w: World, k: TaskId, token: Token, expiresAt: int, x: Text)
    requires k in w.tasks
    ensures w.tasks[k].Creating? ==>
              var t := w.tasks[k];
              Next(w, CreateInsert(k, token, expiresAt), x) ==
              World(w.members,
                    if token in w.invites then w.invites
                    else w.invites[token := Invite(t.team, t.user, t.email, t.role, expiresAt, None)],
                    w.tasks - {k})
    ensures w.tasks[k].Accepting? ==>
              var t := w.tasks[k];
              Next(w, AcceptWrite(k), x) ==
              World(w.members[(t.team, t.user) := t.role],
                    if t.token !in w.invites then w.invites
                    else w.invites[t.token := w.invites[t.token].(redeemedBy := Some(t.user))],
                    w.tasks - {k})
  {
  }

  /** No run makes anyone an owner who was not one before. */
  lemma OwnersNeverGrow(h: History, i: nat, j: nat, team: TeamId, user: UserId)
    requires h.Valid() && i <= j < |h.ws| && Owns(h.ws[j], team, user)
    ensures Owns(h.ws[i], team, user)
    decreases j
  {
    if i == j {
    } else {
      if !Owns(h.ws[j - 1], team, user) {
        var a, c, t, issuer := MembershipIsTraced(h, j - 1, team, user);
        assert false;
      }
      OwnersNeverGrow(h, i, j - 1, team, user);
    }
  }

  ghost predicate Redeems(h: History, n: nat, t: Task)
    requires h.Valid()
  {
    n < |h.steps| && h.steps[n].AcceptWrite? && h.ws[n].tasks[h.steps[n].task] == t
  }

  /**
   A token may be redeemed twice, as acceptances read before they write, but only by users
   whose request carried the same lower-cased email.
   */
  lemma RedeemersShareEmail(h: History, n: nat, t: Task, m: nat, t': Task)
    returns (a: nat, a': nat)
    requires h.Valid() && n <= m && Redeems(h, n, t) && Redeems(h, m, t') && t.token == t'.token
    ensures a < n && ReadAt(h, a, t) && a' < m && ReadAt(h, a', t')
    ensures h.x.lower(h.steps[a].email) == h.x.lower(h.steps[a'].email)
  {
    RunIsTraced(h, n);
    RunIsTraced(h, m);
    assert TaskTraced(h, n, t) && TaskTraced(h, m, t');
    RunKeepsInvites(h, n, m);
    a :| a < n && ReadAt(h, a, t);
    a' :| a' < m && ReadAt(h, a', t');
  }

  ghost predicate RedeemsToken(h: History, m: nat, token: Token)
    requires h.Valid()
  {
    m < |h.steps| && h.steps[m].AcceptWrite? && h.ws[m].tasks[h.steps[m].task].token == token
  }

  lemma RedeemStep(h: History, n: nat, token: Token)
    requires h.Valid() && n < |h.steps| && token in h.ws[n].invites
    ensures token in h.ws[n + 1].invites
    ensures h.ws[n + 1].invites[token].redeemedBy.Some?
            <==> h.ws[n].invites[token].redeemedBy.Some? || RedeemsToken(h, n, token)
  {
    assert h.ws[n + 1] == Next(h.ws[n], h.steps[n], h.x);
  }

  lemma {:induction false} RedeemedSince(h: History, a: nat, i: nat, token: Token)
    requires h.Valid() && a <= i < |h.ws| && token in h.ws[a].invites && h.ws[a].invites[token].redeemedBy.None?
    ensures token in h.ws[i].invites
    ensures h.ws[i].invites[token].redeemedBy.Some? <==> exists m: nat :: a <= m < i && RedeemsToken(h, m, token)
  {
    if a == i {
    } else {
      RedeemedSince(h, a, i - 1, token);
      RedeemStep(h, i - 1, token);
    }
  }

  /**
   An invite is meant to be used once. An acceptance finds it still unused when it writes
   exactly when no other acceptance of the token wrote since this one read it.
   */
  lemma SingleUseIff(h: History, a: nat, n: nat, t: Task)
    requires h.Valid() && a < n && ReadAt(h, a, t) && Redeems(h, n, t)
    ensures t.token in h.ws[n].invites
    ensures h.ws[n].invites[t.token].redeemedBy.None? <==> !exists m: nat :: a < m < n && RedeemsToken(h, m, t.token)
  {
    RedeemedSince(h, a, n, t.token);
    assert !RedeemsToken(h, a, t.token);
  }

  /** Step `m` is the write of an acceptance by this user into this team. */
  ghost predicate Accepts(h: History, m: nat, team: TeamId, user: UserId)
    requires h.Valid()
  {
    && m < |h.steps| && h.steps[m].AcceptWrite?
    && h.ws[m].tasks[h.steps[m].task].team == team && h.ws[m].tasks[h.steps[m].task].user == user
  }

  /** Such a write never gives the owner's role, and no other step touches the membership. */
  lemma AcceptsIffChanged(h: History, m: nat, team: TeamId, user: UserId)
    requires h.Valid() && m < |h.steps| && Owns(h.ws[m], team, user)
    ensures Owns(h.ws[m + 1], team, user) <==> !Accepts(h, m, team, user)
  {
    if Accepts(h, m, team, user) {
      var t := h.ws[m].tasks[h.steps[m].task];
      RunIsTraced(h, m);
      assert TaskTraced(h, m, t);
      assert InviteTraced(h, m, h.ws[m].invites[t.token]);
    }
  }

  /**
   An owner keeps the role over a stretch of a run exactly when no acceptance of the
   owner's own, into that team, is written in it: the upsert does not look at the role
   that is there.
   */
  lemma {:induction false} OwnerKeepsRoleIff(h: History, i: nat, j: nat, team: TeamId, user: UserId)
    requires h.Valid() && i <= j < |h.ws| && Owns(h.ws[i], team, user)
    ensures Owns(h.ws[j], team, user) <==> !exists m: nat :: i <= m < j && Accepts(h, m, team, user)
    decreases j
  {
    if i == j {
    } else {
      OwnerKeepsRoleIff(h, i, j - 1, team, user);
      if Owns(h.ws[j - 1], team, user) {
        AcceptsIffChanged(h, j - 1, team, user);
      } else if Owns(h.ws[j], team, user) {
        OwnersNeverGrow(h, j - 1, j, team, user);
      }
    }
  }

  // ---- Runs in which both happen ----

  ghost predicate Moves(w: World, s: Step, w': World, x: Text) { Enabled(w, s) && Next(w, s, x) == w' }

  /** An invite of user 1 to team 1, and what an acceptance by a user remembers of it. */
  function Offer(x: Text, email: string): Invite { Invite(1, 1, x.lower(email), Viewer, 10, None) }

  function Taken(x: Text, email: string, user: UserId): Task { Accepting("t", user, x.lower(email), 1, Viewer) }

  lemma Invited(x: Text, email: string)
    requires x.trim(email) == email
    ensures var m: Members, t := map[(1, 1) := Owner], Creating(1, 1, x.lower(email), Viewer);
            && Moves(World(m, map[], map[]), CreateCheck(0, 1, 1, email, Viewer), World(m, map[], map[0 := t]), x)
            && Moves(World(m, map[], map[0 := t]), CreateInsert(0, "t", 10), World(m, map["t" := Offer(x, email)], map[]), x)
  {
  }

  /** A run from these members to this state. */
  ghost predicate Leads(h: History, m: Members, w: World) {
    h.Valid() && h.ws[0].members == m && h.ws[|h.steps|] == w
  }

  lemma Extend(h: History, m: Members, w: World, s: Step, w': World) returns (h': History)
    requires Leads(h, m, w) && Moves(w, s, w', h.x)
    ensures Leads(h', m, w') && h'.x == h.x
  {
    h' := History(h.ws + [w'], h.steps + [s], h.x);
  }

  /** The invite is made. */
  lemma Opening(x: Text, email: string) returns (h: History)
    requires x.trim(email) == email
    ensures Leads(h, map[(1, 1) := Owner], World(map[(1, 1) := Owner], map["t" := Offer(x, email)], map[])) && h.x == x
  {
    var m: Members := map[(1, 1) := Owner];
    var t := Creating(1, 1, x.lower(email), Viewer);
    Invited(x, email);
    h := History([World(m, map[], map[])], [], x);
    h := Extend(h, m, World(m, map[], map[]), CreateCheck(0, 1, 1, email, Viewer), World(m, map[], map[0 := t]));
    h := Extend(h, m, World(m, map[], map[0 := t]), CreateInsert(0, "t", 10), World(m, map["t" := Offer(x, email)], map[]));
  }

  lemma Reads(w: World, k: TaskId, user: UserId, x: Text, email: string)
    requires k !in w.tasks && "t" in w.invites && w.invites["t"] == Offer(x, email)
    ensures Moves(w, AcceptRead(k, "t", user, email, 5), w.(tasks := w.tasks[k := Taken(x, email, user)]), x)
  {
  }

  lemma Writes(m: Members, invites: Invites, others: map<TaskId, Task>, k: TaskId, t: Task, x: Text)
    requires k !in others && t.Accepting? && t.token in invites
    ensures Moves(World(m, invites, others[k := t]), AcceptWrite(k),
                  World(m[(t.team, t.user) := t.role],
                        invites[t.token := invites[t.token].(redeemedBy := Some(t.user))], others), x)
  {
    assert others[k := t] - {k} == others;
  }

  /**
   Nothing stops the only owner of a team from accepting an invite to it: the upsert then
   lowers the role, and the team is left without an owner.
   */
  lemma OwnerCanBeLowered(x: Text, email: string) returns (h: History)
    requires x.trim(email) == email
    ensures h.Valid() && h.ws[0].members == map[(1, 1) := Owner] && Owns(h.ws[0], 1, 1)
    ensures h.ws[|h.steps|].members == map[(1, 1) := Viewer]
  {
    var m: Members, v, t := map[(1, 1) := Owner], Offer(x, email), Taken(x, email, 1);
    var w, w' := World(m, map["t" := v], map[]), World(m, map["t" := v], map[0 := t]);
    h := Opening(x, email);
    Reads(w, 0, 1, x, email);
    h := Extend(h, m, w, AcceptRead(0, "t", 1, email, 5), w');
    Writes(m, map["t" := v], map[], 0, t, x);
    h := Extend(h, m, w', AcceptWrite(0), World(m[(1, 1) := Viewer], map["t" := v.(redeemedBy := Some(1))], map[]));
  }

  /** Two users with one email read the same invite before either writes: both become members. */
  lemma TokenCanBeUsedTwice(x: Text, email: string) returns (h: History)
    requires x.trim(email) == email
    ensures h.Valid() && h.ws[0].members == map[(1, 1) := Owner]
    ensures h.ws[|h.steps|].members == map[(1, 1) := Owner, (1, 2) := Viewer, (1, 3) := Viewer]
    ensures h.ws[|h.steps|].invites.Keys == {"t"}
  {
    var m: Members, v := map[(1, 1) := Owner], Offer(x, email);
    var one, two := Taken(x, email, 2), Taken(x, email, 3);
    var m', v' := m[(1, 2) := Viewer], v.(redeemedBy := Some(2));
    var w0, w1 := World(m, map["t" := v], map[]), World(m, map["t" := v], map[0 := one]);
    var w2, w3 := World(m, map["t" := v], map[1 := two][0 := one]), World(m', map["t" := v'], map[1 := two]);
    h := Opening(x, email);
    Reads(w0, 0, 2, x, email);
    h := Extend(h, m, w0, AcceptRead(0, "t", 2, email, 5), w1);
    Reads(w1, 1, 3, x, email);
    assert map[0 := one][1 := two] == map[1 := two][0 := one];
    h := Extend(h, m, w1, AcceptRead(1, "t", 3, email, 5), w2);
    Writes(m, map["t" := v], map[1 := two], 0, one, x);
    h := Extend(h, m, w2, AcceptWrite(0), w3);
    Writes(m', map["t" := v'], map[], 1, two, x);
    h := Extend(h, m, w3, AcceptWrite(1), World(m'[(1, 3) := Viewer], map["t" := v'.(redeemedBy := Some(3))], map[]));
  }
}
