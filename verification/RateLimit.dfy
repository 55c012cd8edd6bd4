/**
 The login-portal rate limiter: ten accepted calls per user in any rolling hour,
 kept in a map of pruned timestamp lists. The class is proved against the full
 history of calls, which it does not keep. Instants are integer nanoseconds.
 */
module RateLimit {
  type UserId = nat

  const WINDOW: int := 3_600_000_000_000
  const MAX_PER_WINDOW: nat := 10

  datatype Answer = Allowed | RetryAfter(wait: int)

  /** One critical section, in lock order, with the clock reading taken before the lock. */
  datatype Event = Call(user: UserId, at: int) | Sweep(at: int)

  /** The entries of `ts` strictly later than `cutoff`, in order. */
  function Recent(ts: seq<int>, cutoff: int): seq<int> {
    if ts == [] then []
    else
      var front, last := ts[..|ts| - 1], ts[|ts| - 1];
      if last > cutoff then Recent(front, cutoff) + [last] else Recent(front, cutoff)
  }

  // ---- The reference: a limiter that remembers everything ----

  ghost predicate Monotone(h: seq<Event>) {
    forall i, j :: 0 <= i < j < |h| ==> h[i].at <= h[j].at
  }

  ghost predicate AllUpTo(h: seq<Event>, now: int) {
    forall i :: 0 <= i < |h| ==> h[i].at <= now
  }

  /** The instants of the calls by `u` that were accepted, judged on the whole history. */
  ghost function Accepted(h: seq<Event>, u: UserId): seq<int> {
    if h == [] then []
    else
      var prev, e := Accepted(h[..|h| - 1], u), h[|h| - 1];
      if e.Call? && e.user == u && |Recent(prev, e.at - WINDOW)| < MAX_PER_WINDOW
      then prev + [e.at] else prev
  }

  /** The answer due to a call by `u` at `now`, given every call before it. */
  ghost function HistoryAnswer(h: seq<Event>, u: UserId, now: int): Answer {
    var live := Recent(Accepted(h, u), now - WINDOW);
    if |live| < MAX_PER_WINDOW then Allowed else RetryAfter(live[0] + WINDOW - now)
  }

  // ---- The limiter itself ----

  /** The pruned lists carry, for every instant still to come, what the history carries. */
  ghost predicate Refines(slots: map<UserId, seq<int>>, h: seq<Event>) {
    forall u: UserId, now: int :: AllUpTo(h, now) ==> AgreesAt(slots, h, u, now)
  }

  ghost predicate AgreesAt(slots: map<UserId, seq<int>>, h: seq<Event>, u: UserId, now: int) {
    Recent(SlotsOf(slots, u), now - WINDOW) == Recent(Accepted(h, u), now - WINDOW)
  }

  function SlotsOf(slots: map<UserId, seq<int>>, u: UserId): seq<int> {
    if u in slots then slots[u] else []
  }

  class LoginPortalLimiter {
    var slots: map<UserId, seq<int>>
    ghost var log: seq<Event>

    /** Refinement is promised while the clock readings never go back in lock order. */
    ghost predicate Valid()
      reads this
    {
      Monotone(log) ==> Refines(slots, log)
    }

    constructor ()
      ensures Valid() && log == [] && slots == map[]
    {
      slots := map[];
      log := [];
    }

    method Check(user: UserId, now: int) returns (a: Answer)
      requires Valid()
      modifies this
      ensures Valid() && log == old(log) + [Call(user, now)]
      ensures Monotone(log) ==> a == HistoryAnswer(old(log), user, now)
      ensures var kept := Recent(SlotsOf(old(slots), user), now - WINDOW);
              && (a.Allowed? <==> |kept| < MAX_PER_WINDOW)
              && slots == old(slots)[user := if a.Allowed? then kept + [now] else kept]
              && (a.RetryAfter? ==> a.wait == kept[0] + 3_600_000_000_000 - now && a.wait > 0)
    {
      var cutoff := now - WINDOW;
      var kept := Recent(SlotsOf(slots, user), cutoff);
      ghost var h, h' := log, log + [Call(user, now)];
      ghost var before := slots;
      RecentIsLater(SlotsOf(slots, user), cutoff);
      if Monotone(h') {
        MonotoneSplit(h, Call(user, now));
        assert AgreesAt(slots, h, user, now);
      }
      if |kept| >= MAX_PER_WINDOW {
        var oldest := kept[0];
        var wait := oldest + WINDOW - now;
        a := RetryAfter(if wait > 0 then wait else 0);
        slots := slots[user := kept];
      } else {
        slots := slots[user := kept + [now]];
        a := Allowed;
      }
      log := h';
      if Monotone(h') {
        CheckRefines(before, h, user, now, slots);
      }
    }

    method Sweep(now: int)
      requires Valid()
      modifies this
      ensures Valid() && log == old(log) + [Event.Sweep(now)]
      ensures slots == map u | u in old(slots) && Recent(old(slots)[u], now - WINDOW) != []
                           :: Recent(old(slots)[u], now - WINDOW)
    {
      ghost var h, before := log, slots;
      slots := map u | u in slots && Recent(slots[u], now - WINDOW) != []
                   :: Recent(slots[u], now - WINDOW);
      log := log + [Event.Sweep(now)];
      if Monotone(log) {
        MonotoneSplit(h, Event.Sweep(now));
        SweepRefines(before, h, now, slots);
      }
    }
  }

  // ---- Pruning ----

  lemma {:induction false} RecentIsLater(ts: seq<int>, cutoff: int)
    ensures forall i :: 0 <= i < |Recent(ts, cutoff)| ==> Recent(ts, cutoff)[i] > cutoff
  {
    if ts == [] {
    } else {
      RecentIsLater(ts[..|ts| - 1], cutoff);
    }
  }

  /** Pruning at an earlier cutoff first does not change what a later cutoff keeps. */
  lemma {:induction false} RecentTwice(ts: seq<int>, c: int, d: int)
    requires c <= d
    ensures Recent(Recent(ts, c), d) == Recent(ts, d)
  {
    if ts == [] {
    } else {
      var front, last := ts[..|ts| - 1], ts[|ts| - 1];
      RecentTwice(front, c, d);
      if last > c {
        assert (Recent(front, c) + [last])[..|Recent(front, c)|] == Recent(front, c);
      }
    }
  }

  lemma RecentAppend(ts: seq<int>, t: int, c: int)
    ensures Recent(ts + [t], c) == if t > c then Recent(ts, c) + [t] else Recent(ts, c)
  {
    assert (ts + [t])[..|ts|] == ts;
  }

  lemma MonotoneSplit(h: seq<Event>, e: Event)
    requires Monotone(h + [e])
    ensures Monotone(h) && AllUpTo(h, e.at)
    ensures (h + [e])[..|h|] == h
    ensures forall now :: AllUpTo(h + [e], now) ==> e.at <= now && AllUpTo(h, now)
  {
    var g := h + [e];
    assert forall i :: 0 <= i < |h| ==> g[i] == h[i];
    assert g[|h|] == e;
  }

  lemma AcceptedStep(h: seq<Event>, e: Event, u: UserId)
    ensures Accepted(h + [e], u) ==
            if e.Call? && e.user == u && |Recent(Accepted(h, u), e.at - WINDOW)| < MAX_PER_WINDOW
            then Accepted(h, u) + [e.at] else Accepted(h, u)
  {
    assert (h + [e])[..|h|] == h;
  }

  /** One call, seen from one later instant: pruned and full lists still agree there. */
  lemma PrunedAgrees(s: seq<int>, acc: seq<int>, now: int, later: int)
    requires now <= later
    requires Recent(s, now - WINDOW) == Recent(acc, now - WINDOW)
    requires Recent(s, later - WINDOW) == Recent(acc, later - WINDOW)
    ensures Recent(Recent(s, now - WINDOW), later - WINDOW) == Recent(acc, later - WINDOW)
    ensures Recent(Recent(s, now - WINDOW) + [now], later - WINDOW) == Recent(acc + [now], later - WINDOW)
  {
    RecentTwice(s, now - WINDOW, later - WINDOW);
    RecentAppend(Recent(s, now - WINDOW), now, later - WINDOW);
    RecentAppend(acc, now, later - WINDOW);
  }

  lemma CheckAgrees(slots: map<UserId, seq<int>>, h: seq<Event>, user: UserId, now: int,
                    slots': map<UserId, seq<int>>, u: UserId, later: int)
    requires now <= later && AgreesAt(slots, h, user, now) && AgreesAt(slots, h, u, later)
    requires var kept := Recent(SlotsOf(slots, user), now - WINDOW);
             slots' == slots[user := if |kept| < MAX_PER_WINDOW then kept + [now] else kept]
    ensures AgreesAt(slots', h + [Call(user, now)], u, later)
  {
    var s, acc := SlotsOf(slots, user), Accepted(h, user);
    AcceptedStep(h, Call(user, now), u);
    if u == user {
      var kept := Recent(s, now - WINDOW);
      PrunedAgrees(s, acc, now, later);
      assert SlotsOf(slots', u) == if |kept| < MAX_PER_WINDOW then kept + [now] else kept;
    } else {
      assert SlotsOf(slots', u) == SlotsOf(slots, u);
    }
  }

  lemma CheckRefines(slots: map<UserId, seq<int>>, h: seq<Event>, user: UserId, now: int,
                     slots': map<UserId, seq<int>>)
    requires Monotone(h + [Call(user, now)]) && Refines(slots, h)
    requires var kept := Recent(SlotsOf(slots, user), now - WINDOW);
             slots' == slots[user := if |kept| < MAX_PER_WINDOW then kept + [now] else kept]
    ensures Refines(slots', h + [Call(user, now)])
  {
    var e := Call(user, now);
    MonotoneSplit(h, e);
    assert AgreesAt(slots, h, user, now);
    forall u: UserId, later: int | AllUpTo(h + [e], later)
      ensures AgreesAt(slots', h + [e], u, later)
    {
      assert AllUpTo(h, later) && AgreesAt(slots, h, u, later);
      CheckAgrees(slots, h, user, now, slots', u, later);
    }
  }

  lemma SweepRefines(slots: map<UserId, seq<int>>, h: seq<Event>, now: int,
                     slots': map<UserId, seq<int>>)
    requires Monotone(h + [Event.Sweep(now)]) && Refines(slots, h)
    requires slots' == map u | u in slots && Recent(slots[u], now - WINDOW) != []
                           :: Recent(slots[u], now - WINDOW)
    ensures Refines(slots', h + [Event.Sweep(now)])
  {
    var e := Event.Sweep(now);
    MonotoneSplit(h, e);
    forall u: UserId, later: int | AllUpTo(h + [e], later)
      ensures AgreesAt(slots', h + [e], u, later)
    {
      assert AllUpTo(h, later) && AgreesAt(slots, h, u, later);
      AcceptedStep(h, e, u);
      RecentTwice(SlotsOf(slots, u), now - WINDOW, later - WINDOW);
    }
  }

  // ---- What the history guarantees ----

  /** How many instants of `ts` fall in the half-open window `(lo, hi]`. */
  ghost function CountIn(ts: seq<int>, lo: int, hi: int): nat {
    if ts == [] then 0
    else CountIn(ts[..|ts| - 1], lo, hi) + if lo < ts[|ts| - 1] <= hi then 1 else 0
  }

  lemma {:induction false} CountBelowRecent(ts: seq<int>, lo: int, hi: int, cutoff: int)
    requires cutoff <= lo
    ensures CountIn(ts, lo, hi) <= |Recent(ts, cutoff)|
    ensures cutoff == lo && (forall i :: 0 <= i < |ts| ==> ts[i] <= hi) ==> CountIn(ts, lo, hi) == |Recent(ts, cutoff)|
  {
    if ts == [] {
    } else {
      CountBelowRecent(ts[..|ts| - 1], lo, hi, cutoff);
    }
  }

  lemma {:induction false} AcceptedUpTo(h: seq<Event>, u: UserId, now: int)
    requires AllUpTo(h, now)
    ensures forall i :: 0 <= i < |Accepted(h, u)| ==> Accepted(h, u)[i] <= now
  {
    if h == [] {
    } else {
      AcceptedUpTo(h[..|h| - 1], u, now);
    }
  }

  /** No one-hour window ever holds more than ten accepted calls of one user. */
  lemma {:induction false} AtMostTenPerWindow(h: seq<Event>, u: UserId, lo: int)
    requires Monotone(h)
    ensures CountIn(Accepted(h, u), lo, lo + 3_600_000_000_000) <= 10
  {
    if h == [] {
    } else {
      var g, e := h[..|h| - 1], h[|h| - 1];
      AtMostTenPerWindow(g, u, lo);
      var prev := Accepted(g, u);
      if Accepted(h, u) != prev {
        assert (prev + [e.at])[..|prev|] == prev;
        if lo < e.at <= lo + WINDOW {
          CountBelowRecent(prev, lo, lo + WINDOW, e.at - WINDOW);
        }
      }
    }
  }

  /** A call is allowed exactly when the hour before it holds fewer than ten accepted calls. */
  lemma AllowedIff(h: seq<Event>, u: UserId, now: int)
    requires AllUpTo(h, now)
    ensures HistoryAnswer(h, u, now).Allowed? <==> CountIn(Accepted(h, u), now - 3_600_000_000_000, now) < 10
  {
    AcceptedUpTo(h, u, now);
    CountBelowRecent(Accepted(h, u), now - WINDOW, now, now - WINDOW);
  }

  ghost function OwnCalls(h: seq<Event>, u: UserId): seq<Event> {
    if h == [] then []
    else
      var rest, e := OwnCalls(h[..|h| - 1], u), h[|h| - 1];
      if e.Call? && e.user == u then rest + [e] else rest
  }

  lemma {:induction false} OwnCallsDecide(h: seq<Event>, u: UserId)
    ensures Accepted(h, u) == Accepted(OwnCalls(h, u), u)
  {
    if h == [] {
    } else {
      var g, e := h[..|h| - 1], h[|h| - 1];
      OwnCallsDecide(g, u);
      assert g + [e] == h;
      AcceptedStep(g, e, u);
      if e.Call? && e.user == u {
        AcceptedStep(OwnCalls(g, u), e, u);
        assert OwnCalls(h, u) == OwnCalls(g, u) + [e];
      } else {
        assert OwnCalls(h, u) == OwnCalls(g, u);
      }
    }
  }

  /** Sweeps and the calls of other users never change what a user is answered. */
  lemma OthersDoNotMatter(h: seq<Event>, u: UserId, now: int)
    ensures Accepted(h, u) == Accepted(OwnCalls(h, u), u)
    ensures HistoryAnswer(h, u, now) == HistoryAnswer(OwnCalls(h, u), u, now)
  {
    OwnCallsDecide(h, u);
  }

  lemma {:induction false} RecentSorted(ts: seq<int>, cutoff: int)
    requires forall i, j :: 0 <= i < j < |ts| ==> ts[i] <= ts[j]
    ensures forall i, j :: 0 <= i < j < |Recent(ts, cutoff)| ==> Recent(ts, cutoff)[i] <= Recent(ts, cutoff)[j]
    ensures forall i :: 0 <= i < |Recent(ts, cutoff)| ==> Recent(ts, cutoff)[i] in ts
  {
    if ts == [] {
    } else {
      RecentSorted(ts[..|ts| - 1], cutoff);
    }
  }

  lemma {:induction false} AcceptedSorted(h: seq<Event>, u: UserId)
    requires Monotone(h)
    ensures forall i, j :: 0 <= i < j < |Accepted(h, u)| ==> Accepted(h, u)[i] <= Accepted(h, u)[j]
  {
    if h == [] {
    } else {
      var g := h[..|h| - 1];
      AcceptedSorted(g, u);
      AcceptedUpTo(g, u, h[|h| - 1].at);
    }
  }

  lemma {:induction false} RecentKeepsAll(ts: seq<int>, cutoff: int)
    requires forall i :: 0 <= i < |ts| ==> ts[i] > cutoff
    ensures Recent(ts, cutoff) == ts
  {
    if ts == [] {
    } else {
      RecentKeepsAll(ts[..|ts| - 1], cutoff);
    }
  }

  lemma {:induction false} RecentDropsFirst(ts: seq<int>, cutoff: int)
    requires ts != [] && ts[0] <= cutoff
    ensures |Recent(ts, cutoff)| < |ts|
  {
    if |ts| == 1 {
    } else {
      RecentDropsFirst(ts[..|ts| - 1], cutoff);
    }
  }

  lemma {:induction false} FullListFreesWithOldest(acc: seq<int>, now: int, t: int)
    requires forall i, j :: 0 <= i < j < |acc| ==> acc[i] <= acc[j]
    requires now <= t && |Recent(acc, now - WINDOW)| == MAX_PER_WINDOW
    ensures Recent(acc, now - WINDOW)[0] > now - WINDOW
    ensures |Recent(acc, t - WINDOW)| < MAX_PER_WINDOW <==> t >= Recent(acc, now - WINDOW)[0] + WINDOW
  {
    var live := Recent(acc, now - WINDOW);
    RecentIsLater(acc, now - WINDOW);
    RecentTwice(acc, now - WINDOW, t - WINDOW);
    if t < live[0] + WINDOW {
      RecentSorted(acc, now - WINDOW);
      RecentKeepsAll(live, t - WINDOW);
    } else {
      RecentDropsFirst(live, t - WINDOW);
    }
  }

  /** With ten live calls, the user is refused exactly until the oldest leaves the window. */
  lemma FullUntilOldestLeaves(h: seq<Event>, u: UserId, now: int, t: int)
    requires Monotone(h) && AllUpTo(h, now) && now <= t
    requires HistoryAnswer(h, u, now).RetryAfter?
    ensures HistoryAnswer(h, u, now).wait > 0
    ensures HistoryAnswer(h, u, t).Allowed? <==> t >= now + HistoryAnswer(h, u, now).wait
  {
    var acc := Accepted(h, u);
    AcceptedUpTo(h, u, now);
    CountBelowRecent(acc, now - WINDOW, now, now - WINDOW);
    AtMostTenPerWindow(h, u, now - WINDOW);
    AcceptedSorted(h, u);
    FullListFreesWithOldest(acc, now, t);
  }

  /**
   The returned wait is exact. After a refusal at `now`, whatever else happens, every
   further call by that user before the wait elapses is refused, and the next one at
   or after it is accepted.
   */
  lemma {:induction false} RetryAfterIsExact(h: seq<Event>, u: UserId, now: int, later: seq<Event>, t: int)
    requires Monotone(h + [Call(u, now)] + later + [Call(u, t)])
    requires HistoryAnswer(h, u, now).RetryAfter?
    requires forall i :: 0 <= i < |later| && later[i].Call? && later[i].user == u
                         ==> later[i].at < now + HistoryAnswer(h, u, now).wait
    ensures Accepted(h + [Call(u, now)] + later, u) == Accepted(h, u)
    ensures HistoryAnswer(h + [Call(u, now)] + later, u, t).Allowed?
            <==> t >= now + HistoryAnswer(h, u, now).wait
    decreases |later|
  {
    var base := h + [Call(u, now)];
    MonotoneEnds(h, Call(u, now), later, Call(u, t));
    if later == [] {
      assert base + later == base;
      AcceptedStep(h, Call(u, now), u);
    } else {
      var front, e := later[..|later| - 1], later[|later| - 1];
      assert base + later == base + front + [e];
      MonotoneSplit(base + later, Call(u, t));
      SameInstants(base + front, e, Call(u, e.at));
      RetryAfterIsExact(h, u, now, front, e.at);
      AcceptedStep(base + front, e, u);
    }
    FullUntilOldestLeaves(h, u, now, t);
  }

  lemma MonotoneEnds(h: seq<Event>, c: Event, later: seq<Event>, e: Event)
    requires Monotone(h + [c] + later + [e])
    ensures Monotone(h) && AllUpTo(h, c.at) && c.at <= e.at
  {
    var all := h + [c] + later + [e];
    assert all[|h|] == c && all[|all| - 1] == e;
    assert forall i :: 0 <= i < |h| ==> all[i] == h[i];
  }

  /** Only the instants matter to the order. */
  lemma SameInstants(g: seq<Event>, e: Event, e': Event)
    requires Monotone(g + [e]) && e.at == e'.at
    ensures Monotone(g + [e'])
  {
    assert forall i :: 0 <= i < |g| + 1 ==> (g + [e'])[i].at == (g + [e])[i].at;
  }
}
