/** The friendships table and the handlers that change it. Rows are never removed, only marked as
    deleted, so a row's position serves as its ID. The unique index on the unordered pair and the
    check against self-rows are those of the schema. */
module Friendships {
  import opened Options
  import opened Lists
  import opened History

  type User = nat

  datatype Status = Pending | Accepted | Blocked

  datatype Row = Row(requester: User, addressee: User, status: Status, deleted: bool)

  type Table = seq<Row>

  predicate SamePair(r: Row, a: User, b: User) {
    (r.requester == a && r.addressee == b) || (r.requester == b && r.addressee == a)
  }

  // ----- Repository ---------------------------------------------------------------------------------

  /** The row of the unordered pair, if there is one. */
  function FindPair(t: Table, a: User, b: User): (i: Option<nat>)
    ensures i.Some? ==> i.value < |t| && SamePair(t[i.value], a, b)
    ensures i.None? ==> forall k :: 0 <= k < |t| ==> !SamePair(t[k], a, b)
  {
    if t == [] then None
    else if SamePair(t[|t| - 1], a, b) then Some(|t| - 1)
    else FindPair(t[..|t| - 1], a, b)
  }

  datatype Outcome = Ok(id: nat) | Yourself | AlreadyFriends | PairBlocked

  /** `resolveFriendRequestPair`: what a request does to the row the other user once made. */
  function ResolvePair(t: Table, i: nat, a: User, b: User): (Table, Outcome)
    requires i < |t|
  {
    if t[i].deleted then (t[i := Row(a, b, Pending, false)], Ok(i))
    else match t[i].status
      case Accepted => (t, AlreadyFriends)
      case Blocked => (t, PairBlocked)
      case Pending =>
        if t[i].requester == b && t[i].addressee == a then (t[i := t[i].(status := Accepted)], Ok(i)) else (t, Ok(i))
  }

  /** `CreateFriendRequest`: the upsert overwrites the requester's own earlier row, whatever its
      status; a row in the other direction violates the pair index and is resolved instead. */
  function CreateRequest(t: Table, a: User, b: User): (Table, Outcome) {
    if a == b then (t, Yourself)
    else
      match FindPair(t, a, b)
      case None => (t + [Row(a, b, Pending, false)], Ok(|t|))
      case Some(i) =>
        if t[i].requester == a then (t[i := Row(a, b, Pending, false)], Ok(i))
        else ResolvePair(t, i, a, b)
  }

  function SetStatus(t: Table, i: nat, status: Status): Table {
    if i < |t| then t[i := t[i].(status := status)] else t
  }

  function DeletePair(t: Table, a: User, b: User): Table {
    seq(|t|, i requires 0 <= i < |t| =>
      if SamePair(t[i], a, b) && !t[i].deleted then t[i].(deleted := true) else t[i])
  }

  // ----- Handlers --------------------------------------------------------------------------------------

  datatype Event =
    | Send(actor: User, target: User)
    | Resolve(actor: User, id: nat, accept: bool)
    | Block(actor: User, target: User)
    | Delete(actor: User, target: User)  // removing a friend and unblocking are the same update

  function Step(t: Table, e: Event): Table {
    match e
    case Send(a, b) => CreateRequest(t, a, b).0
    case Resolve(a, i, accept) =>
      if i >= |t| || t[i].deleted || t[i].addressee != a then t
      else SetStatus(t, i, if accept then Accepted else Blocked)
    case Block(a, b) =>
      var (t', outcome) := CreateRequest(t, a, b);
      if outcome.Ok? then SetStatus(t', outcome.id, Blocked) else t'
    case Delete(a, b) => DeletePair(t, a, b)
  }

  function Run(t: Table, es: seq<Event>): Table {
    if es == [] then t else Step(Run(t, es[..|es| - 1]), es[|es| - 1])
  }

  // ----- One row per pair -------------------------------------------------------------------------------

  ghost predicate TableInv(t: Table) {
    && (forall i :: 0 <= i < |t| ==> t[i].requester != t[i].addressee)
    && (forall i, j :: 0 <= i < j < |t| ==> !SamePair(t[j], t[i].requester, t[i].addressee))
  }

  /** What a step does to the rows that were there: each keeps its pair, none goes away, and at most
      one is added, for a pair that had none. */
  lemma StepKeepsPairs(t: Table, e: Event)
    requires TableInv(t)
    ensures |t| <= |Step(t, e)| <= |t| + 1
    ensures forall i :: 0 <= i < |t| ==> SamePair(Step(t, e)[i], t[i].requester, t[i].addressee)
    ensures |Step(t, e)| > |t| ==>
              (e.Send? || e.Block?) && e.actor != e.target && FindPair(t, e.actor, e.target).None?
              && Step(t, e)[|t|].requester == e.actor && Step(t, e)[|t|].addressee == e.target
  {
  }

  /** Every reachable table has at most one row per unordered pair, live or deleted, and no self-row. */
  lemma {:induction false} OneRowPerPair(t: Table, es: seq<Event>)
    requires TableInv(t)
    ensures TableInv(Run(t, es))
  {
    if es == [] {
    } else {
      var before, e := es[..|es| - 1], es[|es| - 1];
      OneRowPerPair(t, before);
      StepKeepsInv(Run(t, before), e);
    }
  }

  lemma StepKeepsInv(t: Table, e: Event)
    requires TableInv(t)
    ensures TableInv(Step(t, e))
  {
    StepKeepsPairs(t, e);
  }

  // ----- Derived queries ------------------------------------------------------------------------------------

  predicate IsFriendship(r: Row) {
    r.status == Accepted && !r.deleted
  }

  /** `AreFriends`: some live accepted row of the pair. */
  predicate AreFriends(t: Table, a: User, b: User) {
    exists i :: 0 <= i < |t| && IsFriendship(t[i]) && SamePair(t[i], a, b)
  }

  function Other(r: Row, u: User): User {
    if r.requester == u then r.addressee else r.requester
  }

  /** `ListAcceptedFriendIDs`: one ID for every live accepted row that touches the user. */
  function FriendIDs(t: Table, u: User): seq<User> {
    if t == [] then []
    else
      var r, ids := t[|t| - 1], FriendIDs(t[..|t| - 1], u);
      if IsFriendship(r) && (r.requester == u || r.addressee == u) then ids + [Other(r, u)] else ids
  }

  function Count(x: User, ids: seq<User>): nat {
    if ids == [] then 0 else Count(x, ids[..|ids| - 1]) + if ids[|ids| - 1] == x then 1 else 0
  }

  /** The number of pairs an inner join on equality produces. */
  function JoinCount(xs: seq<User>, ys: seq<User>): nat {
    if xs == [] then 0 else JoinCount(xs[..|xs| - 1], ys) + Count(xs[|xs| - 1], ys)
  }

  /** `GetMutualFriendCount`: a count over the join of the two lists. */
  function MutualFriendCount(t: Table, u: User, v: User): nat {
    JoinCount(FriendIDs(t, u), FriendIDs(t, v))
  }

  ghost function FriendSet(t: Table, u: User): set<User> {
    Elements(FriendIDs(t, u))
  }

  lemma PrefixKeepsInv(t: Table)
    requires TableInv(t) && t != []
    ensures TableInv(t[..|t| - 1])
  {
  }

  /** The list holds exactly the friends, each once. */
  lemma {:induction false} FriendIDsAreTheFriends(t: Table, u: User)
    requires TableInv(t)
    ensures forall x :: x in FriendIDs(t, u) <==> AreFriends(t, u, x)
    ensures Distinct(FriendIDs(t, u))
  {
    if t == [] {
    } else {
      var before, r, n := t[..|t| - 1], t[|t| - 1], |t| - 1;
      PrefixKeepsInv(t);
      FriendIDsAreTheFriends(before, u);
      forall x ensures AreFriends(t, u, x) <==> AreFriends(before, u, x) || (IsFriendship(r) && SamePair(r, u, x)) {
        if AreFriends(before, u, x) {
          var i :| 0 <= i < |before| && IsFriendship(before[i]) && SamePair(before[i], u, x);
          assert IsFriendship(t[i]) && SamePair(t[i], u, x);
        }
        if AreFriends(t, u, x) {
          var i :| 0 <= i < |t| && IsFriendship(t[i]) && SamePair(t[i], u, x);
          assert i < n ==> IsFriendship(before[i]) && SamePair(before[i], u, x);
        }
      }
      if IsFriendship(r) && (r.requester == u || r.addressee == u) {
        assert SamePair(r, u, Other(r, u));
        assert !AreFriends(before, u, Other(r, u));
      }
    }
  }

  lemma {:induction false} CountIsMembership(x: User, ids: seq<User>)
    requires Distinct(ids)
    ensures Count(x, ids) == if x in ids then 1 else 0
  {
    if ids == [] {
    } else {
      CountIsMembership(x, ids[..|ids| - 1]);
      assert ids == ids[..|ids| - 1] + [ids[|ids| - 1]];
    }
  }

  lemma IntersectionGrows(s: set<User>, x: User, r: set<User>)
    requires x !in s
    ensures |(s + {x}) * r| == |s * r| + if x in r then 1 else 0
  {
    assert (s + {x}) * r == (s * r) + if x in r then {x} else {};
  }

  lemma ElementsOfSnoc(xs: seq<User>)
    requires xs != []
    ensures Elements(xs) == Elements(xs[..|xs| - 1]) + {xs[|xs| - 1]}
  {
    assert xs == xs[..|xs| - 1] + [xs[|xs| - 1]];
  }

  lemma {:induction false} JoinCountIsIntersection(xs: seq<User>, ys: seq<User>)
    requires Distinct(xs) && Distinct(ys)
    ensures JoinCount(xs, ys) == |Elements(xs) * Elements(ys)|
  {
    if xs == [] {
      assert Elements(xs) * Elements(ys) == {};
    } else {
      var before, last := xs[..|xs| - 1], xs[|xs| - 1];
      JoinCountIsIntersection(before, ys);
      CountIsMembership(last, ys);
      ElementsOfSnoc(xs);
      IntersectionGrows(Elements(before), last, Elements(ys));
    }
  }

  lemma MutualCountOfTable(t: Table, u: User, v: User)
    requires TableInv(t)
    ensures MutualFriendCount(t, u, v) == |FriendSet(t, u) * FriendSet(t, v)| == MutualFriendCount(t, v, u)
  {
    FriendIDsAreTheFriends(t, u);
    FriendIDsAreTheFriends(t, v);
    JoinCountIsIntersection(FriendIDs(t, u), FriendIDs(t, v));
    JoinCountIsIntersection(FriendIDs(t, v), FriendIDs(t, u));
    assert FriendSet(t, u) * FriendSet(t, v) == FriendSet(t, v) * FriendSet(t, u);
  }

  /** On every reachable table the join counts each mutual friend once: the count is the size of the
      intersection of the two friend sets, and symmetric. */
  lemma MutualCountIsIntersection(t: Table, es: seq<Event>, u: User, v: User)
    requires TableInv(t)
    ensures var t' := Run(t, es);
            && MutualFriendCount(t', u, v) == |FriendSet(t', u) * FriendSet(t', v)| == MutualFriendCount(t', v, u)
            && forall x :: x in FriendSet(t', u) <==> AreFriends(t', u, x)
  {
    OneRowPerPair(t, es);
    MutualCountOfTable(Run(t, es), u, v);
    FriendIDsAreTheFriends(Run(t, es), u);
  }

  // ----- Who made a friendship --------------------------------------------------------------------------------

  /** The step by which `a` opens the row towards `b`; blocking creates the row as well. */
  predicate Opens(e: Event, a: User, b: User) {
    (e.Send? || e.Block?) && e.actor == a && e.target == b
  }

  /** The step by which the addressee `b` answers the row `i` of `a`: accepting it or crossing it. */
  predicate Answers(e: Event, i: nat, a: User, b: User) {
    e == Resolve(b, i, true) || e == Send(b, a)
  }

  /** How a row can come to look as it does after a step. */
  lemma StepOnRow(t: Table, e: Event, i: nat)
    requires TableInv(t) && i < |Step(t, e)|
    ensures var r := Step(t, e)[i];
            || (i < |t| && r == t[i])
            || r.deleted
            || (Opens(e, r.requester, r.addressee) && !IsFriendship(r))
            || (i < |t| && !t[i].deleted && r.requester == t[i].requester && r.addressee == t[i].addressee
                && (IsFriendship(r) ==> Answers(e, i, r.requester, r.addressee)))
  {
  }

  /** The row is live and runs from `a` to `b`. */
  predicate LiveFromTo(t: Table, i: nat, a: User, b: User) {
    i < |t| && !t[i].deleted && t[i].requester == a && t[i].addressee == b
  }

  /** The step gives the pair its row, or revives it, in the direction from `a` to `b`. */
  predicate Starts(t: Table, e: Event, i: nat, a: User, b: User) {
    && Opens(e, a, b) && a != b
    && if i < |t| then t[i].deleted && SamePair(t[i], a, b) else i == |t| && FindPair(t, a, b).None?
  }

  predicate Deletes(e: Event, a: User, b: User) {
    e.Delete? && ((e.actor == a && e.target == b) || (e.actor == b && e.target == a))
  }

  /** The step turns the live row from `a` to `b` into a friendship: `b` accepts it, or crosses it while
      it is pending. */
  predicate Makes(t: Table, e: Event, i: nat, a: User, b: User) {
    LiveFromTo(t, i, a, b) && t[i].status != Accepted && Answers(e, i, a, b) && (e.Send? ==> t[i].status == Pending)
  }

  /** The step ends the friendship of the row from `a` to `b`. */
  predicate Breaks(e: Event, i: nat, a: User, b: User) {
    Opens(e, a, b) || e == Resolve(b, i, false) || Deletes(e, a, b)
  }

  lemma LiveStep(t: Table, e: Event, i: nat, a: User, b: User)
    requires TableInv(t)
    ensures LiveFromTo(Step(t, e), i, a, b) <==>
            Starts(t, e, i, a, b) || (LiveFromTo(t, i, a, b) && !Deletes(e, a, b))
  {
    if e.Send? || e.Block? {
      var found := FindPair(t, e.actor, e.target);
      if i < |t| && found.Some? && SamePair(t[i], e.actor, e.target) {
        OneIndexPerPair(t, i, found.value);
      }
    }
  }

  lemma OneIndexPerPair(t: Table, i: nat, k: nat)
    requires TableInv(t) && i < |t| && k < |t| && SamePair(t[i], t[k].requester, t[k].addressee)
    ensures i == k
  {
    assert SamePair(t[k], t[i].requester, t[i].addressee);
  }

  lemma FriendshipStep(t: Table, e: Event, i: nat, a: User, b: User)
    requires TableInv(t)
    ensures LiveFromTo(Step(t, e), i, a, b) && IsFriendship(Step(t, e)[i]) <==>
            Makes(t, e, i, a, b) || (LiveFromTo(t, i, a, b) && IsFriendship(t[i]) && !Breaks(e, i, a, b))
  {
    if e.Send? || e.Block? {
      var found := FindPair(t, e.actor, e.target);
      if i < |t| && found.Some? && SamePair(t[i], e.actor, e.target) {
        OneIndexPerPair(t, i, found.value);
      }
    }
  }

  function Opening(i: nat, a: User, b: User): (seq<Event>, Event) -> bool {
    (before: seq<Event>, e: Event) => Starts(Run([], before), e, i, a, b)
  }

  function Deletion(a: User, b: User): (seq<Event>, Event) -> bool {
    (before: seq<Event>, e: Event) => Deletes(e, a, b)
  }

  function Answer(i: nat, a: User, b: User): (seq<Event>, Event) -> bool {
    (before: seq<Event>, e: Event) => Makes(Run([], before), e, i, a, b)
  }

  function Breach(i: nat, a: User, b: User): (seq<Event>, Event) -> bool {
    (before: seq<Event>, e: Event) => Breaks(e, i, a, b)
  }

  /** Event `j` gave the row its direction, and the pair was not deleted since. */
  ghost predicate OpenSince(es: seq<Event>, i: nat, a: User, b: User, j: nat) {
    Since(es, Opening(i, a, b), Deletion(a, b), j)
  }

  /** Event `k` answered the row, and nothing ended the friendship since. */
  ghost predicate AnsweredSince(es: seq<Event>, i: nat, a: User, b: User, k: nat) {
    Since(es, Answer(i, a, b), Breach(i, a, b), k)
  }

  /** In every run from the empty table, a row is live in the direction from `a` to `b` exactly when `a`
      opened it and nobody deleted it since. */
  lemma {:induction false} LiveExactlySinceOpened(es: seq<Event>, i: nat, a: User, b: User)
    ensures LiveFromTo(Run([], es), i, a, b) <==> EverSince(es, Opening(i, a, b), Deletion(a, b))
  {
    if es == [] {
    } else {
      var n := |es| - 1;
      LiveExactlySinceOpened(es[..n], i, a, b);
      OneRowPerPair([], es[..n]);
      LiveStep(Run([], es[..n]), es[n], i, a, b);
      EverSinceStep(es, Opening(i, a, b), Deletion(a, b));
    }
  }

  lemma {:induction false} FriendsExactlySinceAnswered(es: seq<Event>, i: nat, a: User, b: User)
    ensures LiveFromTo(Run([], es), i, a, b) && IsFriendship(Run([], es)[i]) <==>
            EverSince(es, Answer(i, a, b), Breach(i, a, b))
  {
    if es == [] {
    } else {
      var n := |es| - 1;
      FriendsExactlySinceAnswered(es[..n], i, a, b);
      OneRowPerPair([], es[..n]);
      FriendshipStep(Run([], es[..n]), es[n], i, a, b);
      EverSinceStep(es, Answer(i, a, b), Breach(i, a, b));
    }
  }

  lemma OpenedBeforeAnswer(es: seq<Event>, i: nat, a: User, b: User, k: nat) returns (j: nat)
    requires AnsweredSince(es, i, a, b, k)
    ensures j < k && OpenSince(es, i, a, b, j)
  {
    LiveExactlySinceOpened(es[..k], i, a, b);
    j :| Since(es[..k], Opening(i, a, b), Deletion(a, b), j);
    assert es[..k][..j] == es[..j] && es[..k][j] == es[j];
    forall m | j < m < |es| ensures !Deletion(a, b)(es[..m], es[m]) {
      if m < k {
        assert es[..k][m] == es[m] && !Deletion(a, b)(es[..k][..m], es[..k][m]);
      } else if m > k {
        assert !Breach(i, a, b)(es[..m], es[m]);
      }
    }
  }

  /** In every run from the empty table, row `i` is a friendship from `a` to `b` exactly when `a` opened
      it, `b` answered it after that, and since then the pair was not deleted and nothing ended the
      friendship. */
  lemma FriendshipsAreAnswered(es: seq<Event>, i: nat, a: User, b: User)
    ensures LiveFromTo(Run([], es), i, a, b) && IsFriendship(Run([], es)[i]) <==>
            exists j, k :: j < k && OpenSince(es, i, a, b, j) && AnsweredSince(es, i, a, b, k)
  {
    FriendsExactlySinceAnswered(es, i, a, b);
    if LiveFromTo(Run([], es), i, a, b) && IsFriendship(Run([], es)[i]) {
      var j, k := OpenedAndAnswered(es, i, a, b);
    } else {
      forall k: nat ensures !AnsweredSince(es, i, a, b, k) {
      }
    }
  }

  lemma OpenedAndAnswered(es: seq<Event>, i: nat, a: User, b: User) returns (j: nat, k: nat)
    requires EverSince(es, Answer(i, a, b), Breach(i, a, b))
    ensures j < k && OpenSince(es, i, a, b, j) && AnsweredSince(es, i, a, b, k)
  {
    k :| Since(es, Answer(i, a, b), Breach(i, a, b), k);
    j := OpenedBeforeAnswer(es, i, a, b, k);
  }

  /** Blocking counts as opening: after a block alone, whoever was blocked can accept the row, and the
      two are friends although no request was ever sent. */
  lemma AcceptedWithoutRequest(a: User, b: User)
    requires a != b
    ensures var es := [Block(a, b), Resolve(b, 0, true)];
            AreFriends(Run([], es), a, b) && forall e :: e in es ==> !e.Send?
  {
    var es := [Block(a, b), Resolve(b, 0, true)];
    assert es[..1] == [Block(a, b)] && es[..1][..0] == [];
    assert Run([], es[..1]) == [Row(a, b, Blocked, false)];
    assert Run([], es) == [Row(a, b, Accepted, false)];
    assert IsFriendship(Run([], es)[0]) && SamePair(Run([], es)[0], a, b);
  }

  /** An accept that answers a standing request. */
  predicate Guarded(t: Table, e: Event) {
    e.Resolve? && e.accept && e.id < |t| ==> t[e.id].status == Pending
  }

  ghost predicate AllGuarded(es: seq<Event>) {
    forall k :: 0 <= k < |es| ==> Guarded(Run([], es[..k]), es[k])
  }

  ghost predicate Requested(es: seq<Event>, r: Row) {
    exists j :: 0 <= j < |es| && es[j] == Send(r.requester, r.addressee)
  }

  predicate Standing(r: Row) {
    !r.deleted && r.status != Blocked
  }

  lemma GuardedStep(t: Table, e: Event, i: nat)
    requires TableInv(t) && Guarded(t, e) && i < |Step(t, e)| && Standing(Step(t, e)[i])
    ensures var r := Step(t, e)[i];
            || e == Send(r.requester, r.addressee)
            || (i < |t| && Standing(t[i]) && r.requester == t[i].requester && r.addressee == t[i].addressee)
  {
  }

  /** With the check the handler leaves out (only a pending row may be accepted), every pending or
      accepted row goes back to a request its requester really sent. */
  lemma {:induction false} GuardedFriendshipsWereRequested(es: seq<Event>, i: nat)
    requires AllGuarded(es) && i < |Run([], es)| && Standing(Run([], es)[i])
    ensures Requested(es, Run([], es)[i])
  {
    if es == [] {
    } else {
      var before, e := es[..|es| - 1], es[|es| - 1];
      var t, r := Run([], before), Run([], es)[i];
      OneRowPerPair([], before);
      assert Guarded(t, e);
      GuardedStep(t, e, i);
      if e == Send(r.requester, r.addressee) {
        assert es[|es| - 1] == Send(r.requester, r.addressee);
      } else {
        assert AllGuarded(before) by {
          assert forall k :: 0 <= k < |before| ==> before[..k] == es[..k] && before[k] == es[k];
        }
        GuardedFriendshipsWereRequested(before, i);
        var j :| 0 <= j < |before| && before[j] == Send(t[i].requester, t[i].addressee);
        assert es[j] == Send(r.requester, r.addressee);
      }
    }
  }

  // ----- When a row is sure to go back to a request ------------------------------------------------------------------

  /** `a` asks on row `i`: it is the pair's first row, or a deleted one, or `a`'s own from before. */
  predicate Asks(t: Table, e: Event, i: nat, a: User, b: User) {
    && e == Send(a, b) && a != b
    && if i < |t| then SamePair(t[i], a, b) && (t[i].deleted || t[i].requester == a)
       else i == |t| && FindPair(t, a, b).None?
  }

  /** The step settles what `a` asked on row `i`, one way or another. */
  predicate Settles(e: Event, i: nat, a: User, b: User) {
    || (e.Resolve? && e.actor == b && e.id == i)
    || e == Send(b, a) || e == Block(a, b) || e == Block(b, a) || Deletes(e, a, b)
  }

  predicate IsPending(t: Table, i: nat, a: User, b: User) {
    LiveFromTo(t, i, a, b) && t[i].status == Pending
  }

  lemma PendingStep(t: Table, e: Event, i: nat, a: User, b: User)
    requires TableInv(t)
    ensures IsPending(Step(t, e), i, a, b) <==> Asks(t, e, i, a, b) || (IsPending(t, i, a, b) && !Settles(e, i, a, b))
  {
    if e.Send? || e.Block? {
      var found := FindPair(t, e.actor, e.target);
      if i < |t| && found.Some? && SamePair(t[i], e.actor, e.target) {
        OneIndexPerPair(t, i, found.value);
      }
    }
  }

  function Asking(i: nat, a: User, b: User): (seq<Event>, Event) -> bool {
    (before: seq<Event>, e: Event) => Asks(Run([], before), e, i, a, b)
  }

  function Settlement(i: nat, a: User, b: User): (seq<Event>, Event) -> bool {
    (before: seq<Event>, e: Event) => Settles(e, i, a, b)
  }

  /** In every run from the empty table, a row of `a` towards `b` is pending exactly when `a` asked and
      nothing settled it since. */
  lemma {:induction false} PendingExactlySinceAsked(es: seq<Event>, i: nat, a: User, b: User)
    ensures IsPending(Run([], es), i, a, b) <==> EverSince(es, Asking(i, a, b), Settlement(i, a, b))
  {
    if es == [] {
    } else {
      var n := |es| - 1;
      PendingExactlySinceAsked(es[..n], i, a, b);
      OneRowPerPair([], es[..n]);
      PendingStep(Run([], es[..n]), es[n], i, a, b);
      EverSinceStep(es, Asking(i, a, b), Settlement(i, a, b));
    }
  }

  /** So a live pending row goes back to a request that nothing has settled since. */
  lemma PendingWasRequested(es: seq<Event>, i: nat)
    requires i < |Run([], es)| && !Run([], es)[i].deleted && Run([], es)[i].status == Pending
    ensures Requested(es, Run([], es)[i])
    ensures var r := Run([], es)[i];
            exists k :: 0 <= k < |es| && es[k] == Send(r.requester, r.addressee)
                        && forall m :: k < m < |es| ==> !Settles(es[m], i, r.requester, r.addressee)
  {
    var a, b := Run([], es)[i].requester, Run([], es)[i].addressee;
    PendingExactlySinceAsked(es, i, a, b);
    var k: nat :| Since(es, Asking(i, a, b), Settlement(i, a, b), k);
    assert es[k] == Send(a, b);
    forall m | k < m < |es| ensures !Settles(es[m], i, a, b) {
      assert !Settlement(i, a, b)(es[..m], es[m]);
    }
  }

  /** The steps that add row `r` behind the first `n`, with a request only for a pending row. */
  function RowEvents(r: Row, n: nat): seq<Event> {
    var a, b := r.requester, r.addressee;
    var made := match r.status
      case Pending => [Send(a, b)]
      case Blocked => [Block(a, b)]
      case Accepted => [Block(a, b), Resolve(b, n, true)];
    made + if r.deleted then [Delete(a, b)] else []
  }

  /** Steps that build a table row by row. */
  function Recipe(t: Table): seq<Event> {
    if t == [] then [] else Recipe(t[..|t| - 1]) + RowEvents(t[|t| - 1], |t| - 1)
  }

  lemma RunOneMore(t: Table, es: seq<Event>, e: Event)
    ensures Run(t, es + [e]) == Step(Run(t, es), e)
  {
    assert (es + [e])[..|es|] == es;
  }

  lemma NewPair(t: Table, r: Row)
    requires TableInv(t + [r])
    ensures TableInv(t) && r.requester != r.addressee && FindPair(t, r.requester, r.addressee).None?
    ensures forall i :: 0 <= i < |t| ==> !SamePair(t[i], r.requester, r.addressee)
  {
    var all := t + [r];
    assert all[|t|] == r && forall i :: 0 <= i < |t| ==> all[i] == t[i];
    forall i | 0 <= i < |t| ensures !SamePair(t[i], r.requester, r.addressee) {
      assert !SamePair(all[|t|], all[i].requester, all[i].addressee);
    }
  }

  lemma StepsOnNewPair(t: Table, a: User, b: User)
    requires a != b && FindPair(t, a, b).None?
    ensures Step(t, Send(a, b)) == t + [Row(a, b, Pending, false)]
    ensures Step(t, Block(a, b)) == t + [Row(a, b, Blocked, false)]
    ensures Step(t + [Row(a, b, Blocked, false)], Resolve(b, |t|, true)) == t + [Row(a, b, Accepted, false)]
  {
  }

  lemma MakesRow(t: Table, r: Row, es: seq<Event>)
    requires TableInv(t + [r]) && Run([], es) == t && !r.deleted
    ensures Run([], es + RowEvents(r, |t|)) == t + [r]
  {
    var a, b := r.requester, r.addressee;
    NewPair(t, r);
    StepsOnNewPair(t, a, b);
    RunOneMore([], es, Send(a, b));
    RunOneMore([], es, Block(a, b));
    RunOneMore([], es + [Block(a, b)], Resolve(b, |t|, true));
    assert es + [Block(a, b), Resolve(b, |t|, true)] == es + [Block(a, b)] + [Resolve(b, |t|, true)];
    assert RowEvents(r, |t|) == match r.status
                                case Pending => [Send(a, b)]
                                case Blocked => [Block(a, b)]
                                case Accepted => [Block(a, b), Resolve(b, |t|, true)];
  }

  lemma DeletesLast(t: Table, r: Row)
    requires !r.deleted && forall i :: 0 <= i < |t| ==> !SamePair(t[i], r.requester, r.addressee)
    ensures DeletePair(t + [r], r.requester, r.addressee) == t + [r.(deleted := true)]
  {
  }

  lemma InvIgnoresDeleted(t: Table, r: Row)
    requires TableInv(t + [r])
    ensures TableInv(t + [r.(deleted := false)])
  {
    var a, b := t + [r], t + [r.(deleted := false)];
    assert forall i :: 0 <= i < |t| ==> a[i] == b[i];
    assert a[|t|] == r && b[|t|] == r.(deleted := false);
  }

  lemma MakesAnyRow(t: Table, r: Row, es: seq<Event>)
    requires TableInv(t + [r]) && Run([], es) == t
    ensures Run([], es + RowEvents(r, |t|)) == t + [r]
  {
    if !r.deleted {
      MakesRow(t, r, es);
    } else {
      var live, a, b := r.(deleted := false), r.requester, r.addressee;
      NewPair(t, r);
      InvIgnoresDeleted(t, r);
      MakesRow(t, live, es);
      RunOneMore([], es + RowEvents(live, |t|), Delete(a, b));
      assert es + RowEvents(r, |t|) == es + RowEvents(live, |t|) + [Delete(a, b)];
      DeletesLast(t, live);
    }
  }

  lemma {:induction false} RecipeBuilds(t: Table)
    requires TableInv(t)
    ensures Run([], Recipe(t)) == t
  {
    if t == [] {
    } else {
      var before, r := t[..|t| - 1], t[|t| - 1];
      assert t == before + [r];
      NewPair(before, r);
      RecipeBuilds(before);
      MakesAnyRow(before, r, Recipe(before));
    }
  }

  lemma {:induction false} RecipeRequestsPendingOnly(t: Table, a: User, b: User)
    requires Send(a, b) in Recipe(t)
    ensures exists k :: 0 <= k < |t| && t[k].requester == a && t[k].addressee == b && t[k].status == Pending
  {
    if t == [] {
    } else {
      var before, r := t[..|t| - 1], t[|t| - 1];
      if Send(a, b) in Recipe(before) {
        RecipeRequestsPendingOnly(before, a, b);
        var k :| 0 <= k < |before| && before[k].requester == a && before[k].addressee == b
                 && before[k].status == Pending;
        assert t[k] == before[k];
      } else {
        assert Send(a, b) in RowEvents(r, |t| - 1);
        assert t[|t| - 1] == r;
      }
    }
  }

  /** The pair invariant is not merely kept: it says exactly which tables can come up. */
  lemma ReachableExactly(t: Table)
    ensures (exists es :: Run([], es) == t) <==> TableInv(t)
  {
    if TableInv(t) {
      RecipeBuilds(t);
    } else {
      forall es | Run([], es) == t ensures false {
        OneRowPerPair([], es);
      }
    }
  }

  /** Whatever run led to the table, the requester of a live row asked for it: that is sure exactly for
      pending rows. */
  lemma RequestedExactlyWhenPending(t: Table, i: nat)
    requires TableInv(t) && i < |t| && !t[i].deleted
    ensures (forall es :: Run([], es) == t ==> Requested(es, t[i])) <==> t[i].status == Pending
  {
    if t[i].status == Pending {
      forall es | Run([], es) == t ensures Requested(es, t[i]) {
        PendingWasRequested(es, i);
      }
    } else {
      RecipeBuilds(t);
      if Requested(Recipe(t), t[i]) {
        RecipeRequestsPendingOnly(t, t[i].requester, t[i].addressee);
        var k :| 0 <= k < |t| && t[k].requester == t[i].requester && t[k].addressee == t[i].addressee
                 && t[k].status == Pending;
        OneIndexPerPair(t, k, i);
      }
    }
  }

  /** So an accept is sure to make friends of two users of whom one asked exactly when it is made on a
      pending row: the check the handler leaves out is the right one, no weaker one would do. */
  lemma AcceptIsSafeExactlyOnPending(t: Table, i: nat)
    requires TableInv(t) && i < |t| && !t[i].deleted
    ensures var e := Resolve(t[i].addressee, i, true);
            && IsFriendship(Step(t, e)[i])
            && ((forall es :: Run([], es) == t ==> Requested(es, Step(t, e)[i])) <==> Guarded(t, e))
  {
    var r := Step(t, Resolve(t[i].addressee, i, true))[i];
    RequestedExactlyWhenPending(t, i);
    forall es | Run([], es) == t ensures Requested(es, r) <==> Requested(es, t[i]) {
      assert r.requester == t[i].requester && r.addressee == t[i].addressee;
    }
  }

  // ----- Nobody makes friends alone ------------------------------------------------------------------------------

  /** Nothing live between `u` and `v` comes from `v`, and they are not friends. */
  ghost predicate Quiet(t: Table, u: User, v: User) {
    forall i :: 0 <= i < |t| && SamePair(t[i], u, v) && !t[i].deleted ==> t[i].requester == u && t[i].status != Accepted
  }

  lemma StepKeepsQuiet(t: Table, e: Event, u: User, v: User)
    requires TableInv(t) && Quiet(t, u, v) && e.actor != v && u != v
    ensures Quiet(Step(t, e), u, v)
  {
    forall i | 0 <= i < |Step(t, e)| && SamePair(Step(t, e)[i], u, v) && !Step(t, e)[i].deleted
      ensures Step(t, e)[i].requester == u && Step(t, e)[i].status != Accepted
    {
      StepOnRow(t, e, i);
    }
  }

  /** In any run in which `v` takes no step, from any table on which nothing live came from `v`,
      nobody becomes a friend of `v`: not by requesting, blocking, resolving and deleting alone or
      together with others. */
  lemma {:induction false} FriendshipTakesTwo(t: Table, es: seq<Event>, u: User, v: User)
    requires TableInv(t) && Quiet(t, u, v) && u != v
    requires forall e :: e in es ==> e.actor != v
    ensures Quiet(Run(t, es), u, v) && !AreFriends(Run(t, es), u, v) && !AreFriends(Run(t, es), v, u)
  {
    if es == [] {
    } else {
      var before, e := es[..|es| - 1], es[|es| - 1];
      assert es == before + [e];
      FriendshipTakesTwo(t, before, u, v);
      OneRowPerPair(t, before);
      StepKeepsQuiet(Run(t, before), e, u, v);
    }
  }

  /** In particular from the empty table. */
  lemma StrangersStayStrangers(es: seq<Event>, u: User, v: User)
    requires u != v && forall e :: e in es ==> e.actor != v
    ensures !AreFriends(Run([], es), u, v) && !AreFriends(Run([], es), v, u)
  {
    FriendshipTakesTwo([], es, u, v);
  }

  // ----- Exactly when blocks and friendships end ------------------------------------------------------------------

  /** A live block ends in exactly four ways: whoever made the row sends again, the addressee accepts
      it, or either side deletes it. */
  lemma BlockEndsExactly(t: Table, e: Event, i: nat)
    requires TableInv(t) && i < |t| && !t[i].deleted && t[i].status == Blocked
    ensures var r, r' := t[i], Step(t, e)[i];
            (r'.deleted || r'.status != Blocked) <==>
            || e == Send(r.requester, r.addressee)
            || e == Resolve(r.addressee, i, true)
            || (e.Delete? && SamePair(r, e.actor, e.target))
  {
  }

  /** A friendship ends when its requester sends or blocks again, its addressee rejects it, or either
      side deletes it; and in no other way, so the addressee cannot block. */
  lemma FriendshipEndsExactly(t: Table, e: Event, i: nat)
    requires TableInv(t) && i < |t| && IsFriendship(t[i])
    ensures var r := t[i];
            !IsFriendship(Step(t, e)[i]) <==>
            || Opens(e, r.requester, r.addressee)
            || e == Resolve(r.addressee, i, false)
            || (e.Delete? && SamePair(r, e.actor, e.target))
  {
  }

  /** A block leaves the pair blocked unless it is aimed at oneself or at a friend who once asked. */
  lemma BlockWorksExactly(t: Table, a: User, b: User)
    requires TableInv(t)
    ensures var t' := Step(t, Block(a, b));
            (exists i :: 0 <= i < |t'| && SamePair(t'[i], a, b) && !t'[i].deleted && t'[i].status == Blocked) <==>
            a != b && !exists i :: 0 <= i < |t| && IsFriendship(t[i]) && t[i].requester == b && t[i].addressee == a
  {
    var t' := Step(t, Block(a, b));
    if a != b {
      var i := FindPair(t, a, b);
      if i.Some? {
        assert SamePair(t'[i.value], a, b);
      } else {
        assert SamePair(t'[|t|], a, b);
      }
    }
  }

  /** So the addressee of a friendship cannot block: after a request and the crossing one, the block
      fails and the two stay friends. */
  lemma FriendCannotBeBlocked(a: User, b: User)
    requires a != b
    ensures var t := Run([], [Send(a, b), Send(b, a)]);
            AreFriends(t, a, b) && Step(t, Block(b, a)) == t
  {
    var es := [Send(a, b), Send(b, a)];
    RunOneMore([], [], Send(a, b));
    RunOneMore([], [Send(a, b)], Send(b, a));
    assert [] + [Send(a, b)] == [Send(a, b)] && [Send(a, b)] + [Send(b, a)] == es;
    assert Run([], [Send(a, b)]) == [Row(a, b, Pending, false)];
    assert Run([], es) == [Row(a, b, Accepted, false)];
    assert IsFriendship(Run([], es)[0]) && SamePair(Run([], es)[0], a, b);
  }

  predicate LiveFrom(t: Table, b: User, a: User) {
    exists k :: 0 <= k < |t| && t[k].requester == b && t[k].addressee == a && !t[k].deleted
  }

  /** What a block makes of the pair: its maker's own row, unless the other user's is live. */
  lemma BlockedRow(t: Table, a: User, b: User) returns (j: nat)
    requires TableInv(t) && a != b
    ensures var t' := Step(t, Block(a, b));
            && j < |t'| && SamePair(t'[j], a, b) && !t'[j].deleted
            && (t'[j].requester == b <==> LiveFrom(t, b, a))
            && (t'[j].requester == a ==> t'[j].status == Blocked)
  {
    var t', i := Step(t, Block(a, b)), FindPair(t, a, b);
    j := if i.Some? then i.value else |t|;
    if LiveFrom(t, b, a) {
      var k :| 0 <= k < |t| && t[k].requester == b && t[k].addressee == a && !t[k].deleted;
      assert k == j by {
        assert SamePair(t[j], t[k].requester, t[k].addressee) && SamePair(t[k], t[j].requester, t[j].addressee);
      }
    }
  }

  /** Whoever was blocked can turn the block into a friendship at once, exactly when they had no live
      row of their own towards the blocker: then the row is the blocker's, and theirs to accept. */
  lemma BlockedCanAcceptExactly(t: Table, a: User, b: User)
    requires TableInv(t) && a != b && !AreFriends(Step(t, Block(a, b)), a, b)
    ensures (exists i: nat :: AreFriends(Step(Step(t, Block(a, b)), Resolve(b, i, true)), a, b)) <==> !LiveFrom(t, b, a)
  {
    var t' := Step(t, Block(a, b));
    var j := BlockedRow(t, a, b);
    OneRowPerPair(t, [Block(a, b)]);
    assert Run(t, [Block(a, b)]) == t' by {
      assert [Block(a, b)][..0] == [];
    }
    if LiveFrom(t, b, a) {
      forall i: nat ensures !AreFriends(Step(t', Resolve(b, i, true)), a, b) {
        OnlyTheAddresseeAccepts(t', i, j, a, b);
      }
    } else {
      var t'' := Step(t', Resolve(b, j, true));
      assert IsFriendship(t''[j]) && SamePair(t''[j], a, b);
    }
  }

  lemma OnlyTheAddresseeAccepts(t: Table, i: nat, j: nat, a: User, b: User)
    requires TableInv(t) && j < |t| && t[j].requester == b && t[j].addressee == a && !AreFriends(t, a, b)
    ensures !AreFriends(Step(t, Resolve(b, i, true)), a, b)
  {
    var t' := Step(t, Resolve(b, i, true));
    forall k | 0 <= k < |t'| && SamePair(t'[k], a, b) ensures !IsFriendship(t'[k]) {
      assert SamePair(t[k], a, b) && k == j by {
        assert SamePair(t[k], t[j].requester, t[j].addressee) && SamePair(t[j], t[k].requester, t[k].addressee);
      }
    }
  }
}
