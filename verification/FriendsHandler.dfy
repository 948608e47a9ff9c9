/** The friend handlers over a table updated in place, each statement one assignment. */
module FriendsHandler {
  import opened Options
  import opened Friendships

  datatype Response = Success | Created | BadRequest | NotFound | Forbidden | InternalError

  class Handler {
    var rows: Table

    constructor ()
      ensures rows == [] && TableInv(rows)
    {
      rows := [];
    }

    method ResolveFriendRequestPair(i: nat, a: User, b: User) returns (outcome: Outcome)
      requires i < |rows|
      modifies this
      ensures (rows, outcome) == ResolvePair(old(rows), i, a, b)
    {
      var existing := rows[i];
      if existing.deleted {
        rows := rows[i := Row(a, b, Pending, false)];
        return Ok(i);
      }
      match existing.status
      case Accepted => return AlreadyFriends;
      case Blocked => return PairBlocked;
      case Pending =>
        if existing.requester == b && existing.addressee == a {
          rows := rows[i := existing.(status := Accepted)];
        }
        return Ok(i);
    }

    method CreateFriendRequest(a: User, b: User) returns (outcome: Outcome)
      modifies this
      ensures (rows, outcome) == CreateRequest(old(rows), a, b)
    {
      if a == b {
        return Yourself;
      }
      var conflict := FindPair(rows, a, b);
      if conflict == None {
        rows := rows + [Row(a, b, Pending, false)];
        return Ok(|rows| - 1);
      }
      if rows[conflict.value].requester == a {
        rows := rows[conflict.value := Row(a, b, Pending, false)];
        return Ok(conflict.value);
      }
      outcome := ResolveFriendRequestPair(conflict.value, a, b);
    }

    method UpdateFriendshipStatus(i: nat, status: Status)
      modifies this
      ensures rows == SetStatus(old(rows), i, status)
    {
      if i < |rows| {
        rows := rows[i := rows[i].(status := status)];
      }
    }

    method SendFriendRequest(a: User, b: User) returns (response: Response)
      requires TableInv(rows)
      modifies this
      ensures rows == Step(old(rows), Send(a, b)) && TableInv(rows)
      ensures response == BadRequest <==> Refused(old(rows), a, b)
      ensures response == BadRequest ==> rows == old(rows)
      ensures response != BadRequest ==> (response == if AreFriends(rows, a, b) then Success else Created)
    {
      RequestOutcome(rows, a, b);
      var outcome := CreateFriendRequest(a, b);
      match outcome
      case Ok(id) => return if rows[id].status == Accepted then Success else Created;
      case _ => return BadRequest;
    }

    method ResolveFriendRequest(actor: User, id: nat, action: string) returns (response: Response)
      requires TableInv(rows)
      modifies this
      ensures response == Success <==>
              && id < |old(rows)| && !old(rows)[id].deleted && old(rows)[id].addressee == actor
              && action in {"accept", "reject"}
      ensures response == NotFound <==> id >= |old(rows)| || old(rows)[id].deleted
      ensures response == Forbidden <==> id < |old(rows)| && !old(rows)[id].deleted && old(rows)[id].addressee != actor
      ensures rows == if response == Success then Step(old(rows), Resolve(actor, id, action == "accept")) else old(rows)
      ensures TableInv(rows)
    {
      if id >= |rows| || rows[id].deleted {
        return NotFound;
      }
      if rows[id].addressee != actor {
        return Forbidden;
      }
      if action != "accept" && action != "reject" {
        return BadRequest;
      }
      StepKeepsInv(rows, Resolve(actor, id, action == "accept"));
      UpdateFriendshipStatus(id, if action == "accept" then Accepted else Blocked);
      return Success;
    }

    method BlockUser(a: User, b: User) returns (response: Response)
      requires TableInv(rows)
      modifies this
      ensures rows == Step(old(rows), Block(a, b)) && TableInv(rows)
      ensures response == if Refused(old(rows), a, b) then InternalError else Success
      ensures response == Success ==> !AreFriends(rows, a, b)
      ensures response != Success ==> rows == old(rows)
    {
      StepKeepsInv(rows, Block(a, b));
      RequestOutcome(rows, a, b);
      if !Refused(rows, a, b) {
        RequestRow(rows, a, b);
      }
      var outcome := CreateFriendRequest(a, b);
      if !outcome.Ok? {
        return InternalError;
      }
      UpdateFriendshipStatus(outcome.id, Blocked);
      OneStatusPerPair(rows, outcome.id, a, b);
      return Success;
    }

    method DeleteFriend(a: User, b: User)
      requires TableInv(rows)
      modifies this
      ensures rows == Step(old(rows), Delete(a, b)) && TableInv(rows)
      ensures !AreFriends(rows, a, b)
    {
      StepKeepsInv(rows, Delete(a, b));
      rows := DeletePair(rows, a, b);
    }
  }

  /** Because a pair has one row, a row that is not accepted rules out a friendship. */
  lemma OneStatusPerPair(t: Table, i: nat, a: User, b: User)
    requires TableInv(t) && i < |t| && SamePair(t[i], a, b) && t[i].status != Accepted
    ensures !AreFriends(t, a, b)
  {
    forall k | 0 <= k < |t| && SamePair(t[k], a, b) ensures k == i {
      assert SamePair(t[i], t[k].requester, t[k].addressee) && SamePair(t[k], t[i].requester, t[i].addressee);
    }
  }

  /** A request to oneself, or to somebody whose own live request was answered already. */
  ghost predicate Refused(t: Table, a: User, b: User) {
    a == b ||
    exists i :: 0 <= i < |t| && t[i].requester == b && t[i].addressee == a && !t[i].deleted && t[i].status != Pending
  }

  /** What a request leaves behind, in terms of the row it names. */
  lemma RequestOutcome(t: Table, a: User, b: User)
    requires TableInv(t)
    ensures var (t', outcome) := CreateRequest(t, a, b);
            && TableInv(t')
            && (outcome.Ok? <==> !Refused(t, a, b))
            && (!outcome.Ok? ==> t' == t)
            && (outcome.Ok? ==> outcome.id < |t'| && (t'[outcome.id].status == Accepted <==> AreFriends(t', a, b)))
  {
    RefusedExactly(t, a, b);
    StepKeepsInv(t, Send(a, b));
    var (t', outcome) := CreateRequest(t, a, b);
    if outcome.Ok? {
      RequestRow(t, a, b);
      if t'[outcome.id].status != Accepted {
        OneStatusPerPair(t', outcome.id, a, b);
      }
    }
  }

  lemma RequestRow(t: Table, a: User, b: User)
    requires CreateRequest(t, a, b).1.Ok?
    ensures var (t', outcome) := CreateRequest(t, a, b);
            outcome.id < |t'| && SamePair(t'[outcome.id], a, b) && !t'[outcome.id].deleted
  {
  }

  lemma RefusedExactly(t: Table, a: User, b: User)
    requires TableInv(t)
    ensures !CreateRequest(t, a, b).1.Ok? <==> Refused(t, a, b)
  {
    if a != b && FindPair(t, a, b).Some? {
      var k := FindPair(t, a, b).value;
      forall i | 0 <= i < |t| && SamePair(t[i], a, b) ensures i == k {
        assert SamePair(t[k], t[i].requester, t[i].addressee) && SamePair(t[i], t[k].requester, t[k].addressee);
      }
    }
  }
}
