/**
 The callback's choice among a user's broker authorizations, "the newest other than the
 recorded one", and what repeating the callback on an unchanged listing does.
 */
module Authorizations {
  import opened Wrappers

  type AuthId = string

  /** One listed authorization; `created` is the parsed date, None if missing or unparseable. */
  datatype Authorization = Authorization(id: AuthId, created: Option<int>, slug: Option<string>, institution: Option<string>)

  type Listing = seq<Authorization>

  predicate Eligible(a: Authorization, recorded: Option<AuthId>) {
    recorded != Some(a.id)
  }

  predicate NoEarlier(a: Option<int>, b: Option<int>) {
    b.None? || (a.Some? && a.value >= b.value)
  }

  /** The order of the choice: date first, missing dates lowest, then position. */
  predicate AtLeast(l: Listing, i: nat, j: nat)
    requires i < |l| && j < |l|
  {
    && NoEarlier(l[i].created, l[j].created)
    && (l[i].created == l[j].created ==> i >= j)
  }

  ghost predicate IsNewest(l: Listing, recorded: Option<AuthId>, i: nat) {
    && i < |l| && Eligible(l[i], recorded)
    && forall j :: 0 <= j < |l| && Eligible(l[j], recorded) ==> AtLeast(l, i, j)
  }

  /** The position of the newest eligible authorization. */
  function PickIndex(l: Listing, recorded: Option<AuthId>): (r: Option<nat>)
    ensures r.Some? ==> IsNewest(l, recorded, r.value)
    ensures r.None? ==> forall j :: 0 <= j < |l| ==> !Eligible(l[j], recorded)
  {
    if l == [] then None
    else
      var n := |l| - 1;
      var best := PickIndex(l[..n], recorded);
      if !Eligible(l[n], recorded) then best
      else if best.None? || NoEarlier(l[n].created, l[best.value].created) then Some(n)
      else best
  }

  function PickNewest(l: Listing, recorded: Option<AuthId>): Option<Authorization> {
    match PickIndex(l, recorded)
    case None => None
    case Some(i) => Some(l[i])
  }

  /** The recorded authorization after one callback; it writes exactly when something is picked. */
  function AfterCallback(l: Listing, recorded: Option<AuthId>): Option<AuthId> {
    match PickNewest(l, recorded)
    case None => recorded
    case Some(a) => Some(a.id)
  }

  predicate Writes(l: Listing, recorded: Option<AuthId>) { PickNewest(l, recorded).Some? }

  function Iterate(l: Listing, recorded: Option<AuthId>, n: nat): Option<AuthId> {
    if n == 0 then recorded else AfterCallback(l, Iterate(l, recorded, n - 1))
  }

  // ---- The choice is determined ----

  /** If the overall newest is eligible, it is the one picked. */
  lemma PicksOverallNewest(l: Listing, recorded: Option<AuthId>)
    requires l != []
    ensures PickIndex(l, None).Some?
    ensures recorded != Some(l[PickIndex(l, None).value].id) ==> PickIndex(l, recorded) == PickIndex(l, None)
  {
  }

  /**
   The choice, written out. Nothing is picked exactly when every listed id is the recorded
   one. Otherwise the pick has another id, and every listed one of another id has no date,
   or a date not later than the pick's; and if the dates are the same, or both missing, it is
   not listed after it.
   */
  lemma PickMeans(l: Listing, recorded: Option<AuthId>)
    ensures PickNewest(l, recorded).None? <==> forall j :: 0 <= j < |l| ==> Some(l[j].id) == recorded
    ensures PickNewest(l, recorded).Some? ==>
              exists i: nat ::
                && i < |l| && PickNewest(l, recorded) == Some(l[i]) && Some(l[i].id) != recorded
                && forall j :: 0 <= j < |l| && Some(l[j].id) != recorded ==>
                     match (l[i].created, l[j].created)
                     case (Some(a), Some(b)) => a > b || (a == b && i >= j)
                     case (Some(_), None) => true
                     case (None, Some(_)) => false
                     case (None, None) => i >= j
  {
    var r := PickIndex(l, recorded);
    if r.Some? {
      assert IsNewest(l, recorded, r.value);
      assert forall j :: 0 <= j < |l| ==> (Eligible(l[j], recorded) <==> Some(l[j].id) != recorded);
    }
  }

  // ---- Repeated callbacks on one listing ----

  ghost predicate AllAre(l: Listing, id: Option<AuthId>) {
    forall i :: 0 <= i < |l| ==> Some(l[i].id) == id
  }

  ghost predicate OneIdAtMost(l: Listing) {
    forall i, j :: 0 <= i < |l| && 0 <= j < |l| ==> l[i].id == l[j].id
  }

  /** A callback leaves the row alone exactly when every listed id is the recorded one. */
  lemma WritesIff(l: Listing, recorded: Option<AuthId>)
    ensures Writes(l, recorded) <==> !AllAre(l, recorded)
  {
  }

  /** Nothing new listed: no number of callbacks writes. */
  lemma {:induction false} IdleForever(l: Listing, recorded: Option<AuthId>, n: nat)
    requires AllAre(l, recorded)
    ensures Iterate(l, recorded, n) == recorded && !Writes(l, Iterate(l, recorded, n))
  {
    WritesIff(l, recorded);
    if n == 0 {
    } else {
      IdleForever(l, recorded, n - 1);
    }
  }

  /** One id listed, not yet recorded: the first callback writes it and later ones do nothing. */
  lemma SettlesAfterOne(l: Listing, recorded: Option<AuthId>, n: nat)
    requires l != [] && OneIdAtMost(l) && recorded != Some(l[0].id)
    ensures Writes(l, recorded)
    ensures n >= 1 ==> Iterate(l, recorded, n) == Some(l[0].id) && !Writes(l, Iterate(l, recorded, n))
  {
  }

  ghost function NewestId(l: Listing): AuthId
    requires l != []
  {
    PicksOverallNewest(l, None);
    l[PickIndex(l, None).value].id
  }

  /** The newest one with a different id; with one id only, that id again. */
  ghost function RunnerUpId(l: Listing): AuthId
    requires l != []
  {
    match PickNewest(l, Some(NewestId(l)))
    case None => NewestId(l)
    case Some(a) => a.id
  }

  lemma TwoIdsTurn(l: Listing, recorded: Option<AuthId>)
    requires !OneIdAtMost(l)
    ensures l != [] && NewestId(l) != RunnerUpId(l) && Writes(l, recorded)
    ensures AfterCallback(l, recorded) == Some(if recorded == Some(NewestId(l)) then RunnerUpId(l) else NewestId(l))
  {
  }

  /**
   Two or more ids listed: every callback writes, and from the first one on the row
   alternates between the newest authorization and the newest with a different id.
   */
  lemma {:induction false} AlternatesForever(l: Listing, recorded: Option<AuthId>, n: nat)
    requires !OneIdAtMost(l)
    ensures l != [] && NewestId(l) != RunnerUpId(l) && Writes(l, Iterate(l, recorded, n))
    ensures n >= 1 ==>
              var newestTurn := (n % 2 == 1) != (recorded == Some(NewestId(l)));
              Iterate(l, recorded, n) == Some(if newestTurn then NewestId(l) else RunnerUpId(l))
  {
    TwoIdsTurn(l, Iterate(l, recorded, n));
    if n == 0 {
    } else {
      var before := Iterate(l, recorded, n - 1);
      assert Iterate(l, recorded, n) == AfterCallback(l, before);
      TwoIdsTurn(l, before);
      AlternatesForever(l, recorded, n - 1);
    }
  }

  /**
   The documented promise, that a replayed callback touches nothing, holds exactly when
   the listing shows at most one id.
   */
  lemma ReplayIsIdleIff(l: Listing, recorded: Option<AuthId>)
    ensures !Writes(l, AfterCallback(l, recorded)) <==> OneIdAtMost(l)
  {
  }

  /** A listing on which it fails: two authorizations, replayed once. */
  lemma ReplayCanWrite()
    ensures var l := [Authorization("old", Some(1), None, None), Authorization("new", Some(2), None, None)];
            AfterCallback(l, None) == Some("new") && AfterCallback(l, Some("new")) == Some("old")
  {
  }
}
