/** Community roles: who may change whose role or membership, and what no sequence of member updates,
    removals, joins, reviews, direct additions, bans and unbans can do. */
module CommunityRoles {
  import opened History
  import opened Texts

  type User = nat

  datatype Member = Member(role: string, active: bool)

  type Members = map<User, Member>

  /** The membership rows of one community, and the users that have a ban record in it. */
  datatype State = State(members: Members, bans: set<User>)

  // ----- Ranks -------------------------------------------------------------------------------------

  const RANK: map<string, int> := map[
    "viewer" := 0, "user" := 1, "tech" := 2, "admin_sec" := 3, "admin" := 4, "owner" := 5
  ]

  /** A missing key of a Go map reads as zero. */
  function Rank(role: string): int {
    if role in RANK then RANK[role] else 0
  }

  predicate CanManageRole(actor: string, target: string) {
    Rank(actor) > Rank(target)
  }

  predicate CanPromoteTo(actor: string, desired: string) {
    actor == "owner" || (actor in {"admin", "admin_sec"} && Rank(desired) <= Rank("tech"))
  }

  // ----- Steps ---------------------------------------------------------------------------------------

  predicate IsMember(t: Members, u: User) {
    u in t && t[u].active
  }

  /** `IsCommunityMember`: the role of an active member, "" for anybody else. */
  function RoleOf(t: Members, u: User): string {
    if IsMember(t, u) then t[u].role else ""
  }

  predicate IsStaff(role: string) {
    role in {"owner", "admin", "admin_sec"}
  }

  datatype Event =
    | Update(actor: User, target: User, role: string)
    | Remove(actor: User, target: User)
    | Join(actor: User)  // of a public community, by code
    | Approve(actor: User, target: User)
    | AddDirect(actor: User, target: User, role: string)
    | Ban(actor: User, target: User)
    | Unban(actor: User, target: User)

  /** Whether the handler gets past its role check. */
  predicate Permitted(t: Members, e: Event) {
    var role := RoleOf(t, e.actor);
    match e
    case Update(actor, target, desired) =>
      IsMember(t, actor) && CanManageRole(role, RoleOf(t, target)) && CanPromoteTo(role, desired)
    case Remove(actor, target) => CanManageRole(role, RoleOf(t, target))
    case Join(_) => true
    case _ => IsStaff(role)
  }

  /** An empty role keeps the old one; a role outside the schema's check fails. Rows of former members
      are updated like any other. */
  function SetRole(t: Members, u: User, role: string): Members {
    if u !in t || role !in RANK then t else t[u := t[u].(role := role)]
  }

  function Deactivate(t: Members, u: User): Members {
    if u in t then t[u := t[u].(active := false)] else t
  }

  /** `AddCommunityMember`: an upsert that overwrites role and membership; a role outside the schema's
      check fails. */
  function Add(t: Members, u: User, role: string): Members {
    if role in RANK then t[u := Member(role, true)] else t
  }

  /** A blank role in a direct addition means "user"; any other is taken as it comes. */
  function DirectRole(role: string): string {
    if AllSpace(role) then "user" else role
  }

  /** A second ban record for the same user violates the unique key, and nothing is done then. */
  function Step(s: State, e: Event): State {
    if !Permitted(s.members, e) then s
    else match e
      case Update(_, target, desired) => s.(members := SetRole(s.members, target, desired))
      case Remove(_, target) => s.(members := Deactivate(s.members, target))
      case Join(actor) => s.(members := Add(s.members, actor, "user"))
      case Approve(_, target) => s.(members := Add(s.members, target, "user"))
      case AddDirect(_, target, role) => s.(members := Add(s.members, target, DirectRole(role)))
      case Ban(_, target) =>
        if target in s.bans then s else State(Deactivate(s.members, target), s.bans + {target})
      case Unban(_, target) => s.(bans := s.bans - {target})
  }

  function Run(s: State, es: seq<Event>): State {
    if es == [] then s else Step(Run(s, es[..|es| - 1]), es[|es| - 1])
  }

  // ----- Who outranks whom --------------------------------------------------------------------------------

  /** The roles, the lowest first. */
  const LADDER: seq<string> := ["viewer", "user", "tech", "admin_sec", "admin", "owner"]

  lemma LadderIsRank()
    ensures forall i :: 0 <= i < 6 ==> LADDER[i] in RANK && Rank(LADDER[i]) == i && LADDER[i] != ""
    ensures forall role :: role in RANK ==> role in LADDER
    ensures Rank("") == 0
  {
    assert LADDER[0] == "viewer" && LADDER[1] == "user" && LADDER[2] == "tech";
    assert LADDER[3] == "admin_sec" && LADDER[4] == "admin" && LADDER[5] == "owner";
  }

  /** Of two active members, one can remove the other exactly when standing higher on the ladder. */
  lemma RemovesExactly(s: State, a: User, u: User, i: nat, j: nat)
    requires i < 6 && j < 6 && IsMember(s.members, a) && IsMember(s.members, u)
    requires RoleOf(s.members, a) == LADDER[i] && RoleOf(s.members, u) == LADDER[j]
    ensures !IsMember(Step(s, Remove(a, u)).members, u) <==> j < i
  {
    LadderIsRank();
  }

  /** Of two active members, one can give the other a new role exactly when standing higher, and then an
      owner any role, an admin or admin_sec one up to tech, and nobody else any. */
  lemma PromotesExactly(s: State, a: User, u: User, i: nat, j: nat, k: nat)
    requires i < 6 && j < 6 && k < 6 && k != j && IsMember(s.members, a) && IsMember(s.members, u)
    requires RoleOf(s.members, a) == LADDER[i] && RoleOf(s.members, u) == LADDER[j]
    ensures RoleOf(Step(s, Update(a, u, LADDER[k])).members, u) == LADDER[k] <==>
            j < i && (i == 5 || (i >= 3 && k <= 2))
  {
    LadderIsRank();
    assert LADDER[0] == "viewer" && LADDER[1] == "user" && LADDER[2] == "tech";
    assert LADDER[3] == "admin_sec" && LADDER[4] == "admin" && LADDER[5] == "owner";
  }

  /** Whoever is no active member can do nothing but join. */
  lemma OutsidersChangeNothing(s: State, e: Event)
    requires !IsMember(s.members, e.actor) && !e.Join?
    ensures Step(s, e) == s
  {
    LadderIsRank();
  }

  /** The step is an update or a removal by somebody who stands no higher than position `j`. */
  ghost predicate ByNoneAbove(s: State, e: Event, j: nat) {
    (e.Update? || e.Remove?) &&
    (!IsMember(s.members, e.actor) || exists i :: 0 <= i <= j && i < 6 && RoleOf(s.members, e.actor) == LADDER[i])
  }

  lemma HarmlessStep(s: State, e: Event, u: User, j: nat)
    requires j < 6 && IsMember(s.members, u) && RoleOf(s.members, u) == LADDER[j] && ByNoneAbove(s, e, j)
    ensures u in Step(s, e).members && Step(s, e).members[u] == s.members[u]
  {
    LadderIsRank();
    assert Rank(RoleOf(s.members, e.actor)) <= j;
  }

  /** Over any run of updates and removals by members who then stand no higher, a member keeps role and
      membership: an admin_sec, say, never touches an admin. */
  lemma {:induction false} EqualsAndJuniorsAreHarmless(s: State, es: seq<Event>, u: User, j: nat)
    requires j < 6 && IsMember(s.members, u) && RoleOf(s.members, u) == LADDER[j]
    requires forall k :: 0 <= k < |es| ==> ByNoneAbove(Run(s, es[..k]), es[k], j)
    ensures u in Run(s, es).members && Run(s, es).members[u] == s.members[u]
  {
    if es == [] {
    } else {
      var before, e := es[..|es| - 1], es[|es| - 1];
      assert forall k :: 0 <= k < |before| ==> before[..k] == es[..k] && before[k] == es[k];
      EqualsAndJuniorsAreHarmless(s, before, u, j);
      assert ByNoneAbove(Run(s, es[..|es| - 1]), es[|es| - 1], j);
      HarmlessStep(Run(s, before), e, u, j);
    }
  }

  /** Ban records come from bans by staff and go with unbans by staff, and with nothing else. */
  lemma BansChangeExactly(s: State, e: Event, u: User)
    ensures u in Step(s, e).bans <==>
            var staff := IsStaff(RoleOf(s.members, e.actor));
            || (e.Ban? && e.target == u && staff)
            || (u in s.bans && !(e.Unban? && e.target == u && staff))
  {
  }

  /** A step changes at most the row of its target, or of whoever joins. */
  lemma OthersAreUntouched(s: State, e: Event, u: User)
    requires u != if e.Join? then e.actor else e.target
    ensures u in Step(s, e).members <==> u in s.members
    ensures u in s.members ==> Step(s, e).members[u] == s.members[u]
  {
  }

  // ----- Owners -----------------------------------------------------------------------------------------

  predicate IsOwner(t: Members, u: User) {
    RoleOf(t, u) == "owner"
  }

  /** The steps that cost an owner the role or the membership: joining their own public community again,
      being approved into it, being added to it directly under another role, or being banned while no ban
      record of theirs is left from before. */
  predicate Unseats(s: State, e: Event, o: User) {
    var staff := IsStaff(RoleOf(s.members, e.actor));
    || e == Join(o)
    || (e.Approve? && e.target == o && staff)
    || (e.AddDirect? && e.target == o && staff && DirectRole(e.role) in RANK && DirectRole(e.role) != "owner")
    || (e.Ban? && e.target == o && staff && o !in s.bans)
  }

  /** The steps that make somebody an owner: an owner's update of another active member, or a direct
      addition by anybody on the staff. */
  predicate Seats(s: State, e: Event, o: User) {
    || (e.Update? && e.target == o && e.role == "owner" && IsMember(s.members, o)
        && IsOwner(s.members, e.actor) && !IsOwner(s.members, o))
    || (e.AddDirect? && e.target == o && e.role == "owner" && IsStaff(RoleOf(s.members, e.actor)))
  }

  /** No other step costs an active owner the role or the membership; no update and no removal does. */
  lemma OwnerIsLostExactly(s: State, e: Event, o: User)
    requires IsOwner(s.members, o)
    ensures !IsOwner(Step(s, e).members, o) <==> Unseats(s, e, o)
  {
    assert IsMember(s.members, o) && s.members[o].role == "owner";
  }

  lemma OwnerStep(s: State, e: Event, o: User)
    ensures IsOwner(Step(s, e).members, o) <==> Seats(s, e, o) || (IsOwner(s.members, o) && !Unseats(s, e, o))
  {
    assert "owner"[0] == 'o' && 'o' in "owner";
    if IsOwner(s.members, o) {
      OwnerIsLostExactly(s, e, o);
    }
  }

  function Seating(s: State, o: User): (seq<Event>, Event) -> bool {
    (before: seq<Event>, e: Event) => Seats(Run(s, before), e, o)
  }

  function Unseating(s: State, o: User): (seq<Event>, Event) -> bool {
    (before: seq<Event>, e: Event) => Unseats(Run(s, before), e, o)
  }

  /** Over any run, somebody is an owner at the end exactly when they were made one at some step, or were
      one at the start, and none of the four losses happened since. */
  lemma {:induction false} OwnersExactly(s: State, es: seq<Event>, o: User)
    ensures IsOwner(Run(s, es).members, o) <==>
            || EverSince(es, Seating(s, o), Unseating(s, o))
            || (IsOwner(s.members, o) && Unended(es, Unseating(s, o)))
  {
    if es == [] {
    } else {
      var n := |es| - 1;
      OwnersExactly(s, es[..n], o);
      OwnerStep(Run(s, es[..n]), es[n], o);
      EverSinceStep(es, Seating(s, o), Unseating(s, o));
      UnendedStep(es, Unseating(s, o));
    }
  }

  /** Over any run of member updates, removals and unbans an active owner stays one. */
  lemma {:induction false} OwnersSurviveUpdatesAndRemovals(s: State, es: seq<Event>, o: User)
    requires IsOwner(s.members, o) && forall e :: e in es ==> e.Update? || e.Remove? || e.Unban?
    ensures IsOwner(Run(s, es).members, o)
  {
    if es == [] {
    } else {
      var before, e := es[..|es| - 1], es[|es| - 1];
      assert es == before + [e];
      OwnersSurviveUpdatesAndRemovals(s, before, o);
      OwnerIsLostExactly(Run(s, before), e, o);
    }
  }

  /** The lowest of the staff can take the sole owner's role in one request. */
  lemma OwnerLostToStaff(o: User, a: User)
    requires o != a
    ensures var s := State(map[o := Member("owner", true), a := Member("admin_sec", true)], {});
            && IsOwner(s.members, o)
            && forall u :: !IsOwner(Step(s, AddDirect(a, o, "viewer")).members, u)
  {
  }

  /** A ban record outlives the membership it ended: once the banned owner has joined again and is back
      in office, the next ban fails and changes nothing. */
  lemma SecondBanChangesNothing(o: User, p: User)
    requires o != p
    ensures var start := State(map[o := Member("owner", true), p := Member("owner", true)], {});
            var banned := Step(start, Ban(p, o));
            var joined := Step(banned, Join(o));
            var restored := Step(joined, Update(p, o, "owner"));
            && !IsMember(banned.members, o)
            && IsOwner(restored.members, o) && IsOwner(restored.members, p)
            && Step(restored, Ban(p, o)) == restored
  {
  }

  // ----- Who rises above tech ------------------------------------------------------------------------------

  predicate IsSenior(t: Members, u: User) {
    Rank(RoleOf(t, u)) > Rank("tech")
  }

  /** The step lifts `u` above tech: an owner's update of an active member, or anybody on the staff
      adding `u` directly under a senior role, which no rank check prevents. */
  predicate Raises(s: State, e: Event, u: User) {
    || (e.Update? && e.target == u && e.actor != u && IsOwner(s.members, e.actor) && IsMember(s.members, u)
        && Rank(e.role) > Rank("tech"))
    || (e.AddDirect? && e.target == u && IsStaff(RoleOf(s.members, e.actor)) && Rank(e.role) > Rank("tech"))
  }

  /** What it takes for a step to make somebody senior. */
  lemma RaisedExactly(s: State, e: Event, u: User)
    requires !IsSenior(s.members, u)
    ensures IsSenior(Step(s, e).members, u) <==> Raises(s, e, u)
  {
    if e.AddDirect? && Rank(e.role) > Rank("tech") {
      assert exists c :: c in e.role && !IsSpace(c) by {
        assert e.role[0] in e.role;
      }
    }
  }

  /** Somebody rises without an owner acting exactly when staff below owner adds them directly under a
      senior role. */
  lemma OnlyOwnersRaise(s: State, e: Event, u: User)
    requires !IsSenior(s.members, u)
    ensures IsSenior(Step(s, e).members, u) && !IsOwner(s.members, e.actor) <==>
            e.AddDirect? && e.target == u && RoleOf(s.members, e.actor) in {"admin", "admin_sec"}
            && Rank(e.role) > Rank("tech")
  {
    RaisedExactly(s, e, u);
  }

  /** So the lowest of the staff can make anybody an owner, themselves included. */
  lemma StaffMakesOwner(a: User, u: User)
    ensures var s := State(map[a := Member("admin_sec", true)], {});
            IsOwner(Step(s, AddDirect(a, u, "owner")).members, u)
  {
    assert "owner"[0] == 'o' && 'o' in "owner";
  }

  /** Nobody was added directly under a senior role, and no step was taken by somebody who was an owner
      then. */
  ghost predicate WithoutOwners(s: State, es: seq<Event>) {
    forall k :: 0 <= k < |es| ==>
      !IsOwner(Run(s, es[..k]).members, es[k].actor) && !(es[k].AddDirect? && Rank(es[k].role) > Rank("tech"))
  }

  /** Over any run, of all seven kinds of steps: whoever is senior at the end was so at the start or was
      raised at some step. */
  lemma {:induction false} SeniorsWereRaised(s: State, es: seq<Event>, u: User)
    requires IsSenior(Run(s, es).members, u) && !IsSenior(s.members, u)
    ensures exists k :: 0 <= k < |es| && Raises(Run(s, es[..k]), es[k], u)
  {
    if es == [] {
    } else {
      var before, e := es[..|es| - 1], es[|es| - 1];
      if IsSenior(Run(s, before).members, u) {
        SeniorsWereRaised(s, before, u);
        var k :| 0 <= k < |before| && Raises(Run(s, before[..k]), before[k], u);
        assert before[..k] == es[..k] && Raises(Run(s, es[..k]), es[k], u);
      } else {
        RaisedExactly(Run(s, before), e, u);
        assert Raises(Run(s, es[..|es| - 1]), es[|es| - 1], u);
      }
    }
  }

  /** In particular, while no owner acts and nobody is added under a senior role, the senior members only
      grow fewer, and a community without an owner never gets one. */
  lemma {:induction false} SeniorsOnlyShrinkWithoutOwners(s: State, es: seq<Event>, u: User)
    requires WithoutOwners(s, es) && IsSenior(Run(s, es).members, u)
    ensures IsSenior(s.members, u)
  {
    if !IsSenior(s.members, u) {
      SeniorsWereRaised(s, es, u);
    }
  }

  /** A permitted update by anybody but an owner leaves the actor strictly above the target, and never
      touches the actor. */
  lemma UpdatesKeepDistance(s: State, e: Event)
    requires e.Update? && Permitted(s.members, e)
    ensures var t, t' := s.members, Step(s, e).members;
            && e.actor != e.target && RoleOf(t', e.actor) == RoleOf(t, e.actor)
            && (!IsOwner(t, e.actor) ==> Rank(RoleOf(t', e.actor)) > Rank(RoleOf(t', e.target)))
  {
  }

  // ----- The handlers --------------------------------------------------------------------------------------

  class Community {
    var members: Members
    var bans: set<User>

    function Current(): State
      reads this
    {
      State(members, bans)
    }

    constructor (owner: User)
      ensures Current() == State(map[owner := Member("owner", true)], {}) && IsOwner(members, owner)
    {
      members, bans := map[owner := Member("owner", true)], {};
    }

    method UpdateCommunityMember(actor: User, target: User, desired: string) returns (ok: bool)
      modifies this
      ensures Current() == Step(old(Current()), Update(actor, target, desired))
      ensures ok <==> Permitted(old(members), Update(actor, target, desired))
                      && (desired == "" || desired in RANK || target !in old(members))
      ensures ok && !IsOwner(old(members), actor) ==> Rank(RoleOf(members, actor)) > Rank(RoleOf(members, target))
      ensures members - {target} == old(members) - {target}
      ensures ok && target in members ==>
                members[target] ==
                if desired == "" then old(members)[target] else old(members)[target].(role := desired)
      ensures !ok || target !in members ==> members == old(members)
    {
      if !IsMember(members, actor) {
        return false;
      }
      var actorRole, targetRole := RoleOf(members, actor), RoleOf(members, target);
      if !CanManageRole(actorRole, targetRole) || !CanPromoteTo(actorRole, desired) {
        return false;
      }
      UpdatesKeepDistance(Current(), Update(actor, target, desired));
      if desired != "" && desired !in RANK && target in members {
        return false;
      }
      if desired != "" && target in members {
        members := members[target := members[target].(role := desired)];
      }
      return true;
    }

    method RemoveCommunityMember(actor: User, target: User) returns (ok: bool)
      modifies this
      ensures Current() == Step(old(Current()), Remove(actor, target))
      ensures ok <==> Permitted(old(members), Remove(actor, target))
      ensures ok ==> !IsMember(members, target)
      ensures members - {target} == old(members) - {target} && bans == old(bans)
      ensures ok && target in members ==> members[target] == old(members)[target].(active := false)
    {
      if !CanManageRole(RoleOf(members, actor), RoleOf(members, target)) {
        return false;
      }
      if target in members {
        members := members[target := members[target].(active := false)];
      }
      return true;
    }

    method AddCommunityMember(user: User, role: string) returns (ok: bool)
      modifies this`members
      ensures ok <==> role in RANK
      ensures members == Add(old(members), user, role)
      ensures ok ==> RoleOf(members, user) == role && members - {user} == old(members) - {user}
    {
      if role !in RANK {
        return false;
      }
      members := members[user := Member(role, true)];
      return true;
    }

    method JoinByCode(user: User)
      modifies this
      ensures Current() == Step(old(Current()), Join(user))
      ensures RoleOf(members, user) == "user" && members - {user} == old(members) - {user}
    {
      var _ := AddCommunityMember(user, "user");
    }

    method ReviewJoinRequest(reviewer: User, user: User, approve: bool) returns (ok: bool)
      modifies this
      ensures Current() == if approve then Step(old(Current()), Approve(reviewer, user)) else old(Current())
      ensures ok <==> IsStaff(RoleOf(old(members), reviewer))
      ensures ok && approve ==> RoleOf(members, user) == "user" && members - {user} == old(members) - {user}
    {
      if !IsStaff(RoleOf(members, reviewer)) {
        return false;
      }
      if approve {
        var _ := AddCommunityMember(user, "user");
      }
      return true;
    }

    method AddCommunityMemberDirect(actor: User, user: User, role: string) returns (ok: bool)
      modifies this
      ensures Current() == Step(old(Current()), AddDirect(actor, user, role))
      ensures ok <==> IsStaff(RoleOf(old(members), actor)) && (AllSpace(role) || role in RANK)
      ensures ok ==> RoleOf(members, user) == DirectRole(role) && members - {user} == old(members) - {user}
      ensures ok ==> RoleOf(members, user) == if AllSpace(role) then "user" else role
    {
      if !IsStaff(RoleOf(members, actor)) {
        return false;
      }
      var desired := role;
      if AllSpace(role) {
        desired := "user";
      }
      ok := AddCommunityMember(user, desired);
      assert role in RANK ==> role[0] in role && !AllSpace(role);
    }

    method BanCommunityMember(actor: User, target: User) returns (ok: bool)
      modifies this
      ensures Current() == Step(old(Current()), Ban(actor, target))
      ensures ok <==> Permitted(old(members), Ban(actor, target)) && target !in old(bans)
      ensures ok ==> !IsMember(members, target) && bans == old(bans) + {target}
      ensures ok && target in members ==> members[target] == old(members)[target].(active := false)
      ensures members - {target} == old(members) - {target}
      ensures !ok ==> Current() == old(Current())
    {
      if !IsStaff(RoleOf(members, actor)) {
        return false;
      }
      if target in bans {
        return false;
      }
      bans := bans + {target};
      if target in members {
        members := members[target := members[target].(active := false)];
      }
      return true;
    }

    method UnbanCommunityMember(actor: User, target: User) returns (ok: bool)
      modifies this
      ensures Current() == Step(old(Current()), Unban(actor, target))
      ensures ok <==> Permitted(old(members), Unban(actor, target))
      ensures ok ==> target !in bans && members == old(members)
    {
      if !IsStaff(RoleOf(members, actor)) {
        return false;
      }
      bans := bans - {target};
      return true;
    }
  }
}
