/** Keyset pagination over id-ordered listings: one page at a time, and the walk a client makes by
    following `next_cursor`, on a table that stands still or changes between pages. IDs are UUIDs
    read as numbers; the nil UUID is 0. */
module Pagination {
  import opened Lists

  type ID = nat

  const MAX_LIMIT: int := 50

  datatype Cursor = Blank | Malformed | Uuid(id: ID)

  datatype Page = Page(data: seq<ID>, next: Cursor, hasMore: bool) | InvalidCursor

  // ----- Rows ------------------------------------------------------------------------------------

  datatype Message = Message(id: ID, sender: nat, recipient: nat)

  /** The rows of a conversation, whoever asks for it. */
  function Conversation(t: seq<Message>, a: nat, b: nat): seq<ID> {
    if t == [] then []
    else
      var m, ids := t[|t| - 1], Conversation(t[..|t| - 1], a, b);
      if (m.sender == a && m.recipient == b) || (m.sender == b && m.recipient == a) then ids + [m.id] else ids
  }

  lemma {:induction false} ConversationIsShared(t: seq<Message>, a: nat, b: nat)
    ensures Conversation(t, a, b) == Conversation(t, b, a)
  {
    if t == [] {
    } else {
      ConversationIsShared(t[..|t| - 1], a, b);
    }
  }

  predicate Between(m: Message, a: nat, b: nat) {
    (m.sender == a && m.recipient == b) || (m.sender == b && m.recipient == a)
  }

  /** A conversation lists exactly the messages that go from one of the two users to the other. */
  lemma {:induction false} ConversationIsExact(t: seq<Message>, a: nat, b: nat, x: ID)
    ensures x in Conversation(t, a, b) <==> exists m :: m in t && m.id == x && Between(m, a, b)
  {
    if t == [] {
    } else {
      var before, last := t[..|t| - 1], t[|t| - 1];
      ConversationIsExact(before, a, b, x);
      assert t == before + [last];
    }
  }

  predicate DistinctIDs(t: seq<Message>) {
    forall i, j :: 0 <= i < j < |t| ==> t[i].id != t[j].id
  }

  lemma {:induction false} ConversationIsDistinct(t: seq<Message>, a: nat, b: nat)
    requires DistinctIDs(t)
    ensures Distinct(Conversation(t, a, b))
  {
    if t == [] {
    } else {
      var before, last := t[..|t| - 1], t[|t| - 1];
      ConversationIsDistinct(before, a, b);
      ConversationIsExact(before, a, b, last.id);
    }
  }

  /** With distinct IDs every message is in the conversation of its own two users, and in no other. */
  lemma ConversationsArePrivate(t: seq<Message>, m: Message, a: nat, b: nat)
    requires DistinctIDs(t) && m in t
    ensures m.id in Conversation(t, a, b) <==> {a, b} == {m.sender, m.recipient}
  {
    ConversationIsExact(t, a, b, m.id);
    var i :| 0 <= i < |t| && t[i] == m;
    if exists n :: n in t && n.id == m.id && Between(n, a, b) {
      var n :| n in t && n.id == m.id && Between(n, a, b);
      var j :| 0 <= j < |t| && t[j] == n;
      assert i == j;
    }
    if {a, b} == {m.sender, m.recipient} {
      assert a in {m.sender, m.recipient} && b in {m.sender, m.recipient};
      assert m.sender in {a, b} && m.recipient in {a, b};
      assert Between(m, a, b);
    }
  }

  /** The rows of the other listings, with the community or the user they belong to. */
  datatype Owned = Owned(id: ID, owner: nat)

  function OwnedBy(t: seq<Owned>, owner: nat): seq<ID> {
    if t == [] then []
    else
      var r, ids := t[|t| - 1], OwnedBy(t[..|t| - 1], owner);
      if r.owner == owner then ids + [r.id] else ids
  }

  /** Such a listing holds exactly the rows of its owner. */
  lemma {:induction false} OwnedByIsExact(t: seq<Owned>, owner: nat, x: ID)
    ensures x in OwnedBy(t, owner) <==> Owned(x, owner) in t
  {
    if t == [] {
    } else {
      var before, last := t[..|t| - 1], t[|t| - 1];
      OwnedByIsExact(before, owner, x);
      assert t == before + [last];
    }
  }

  // ----- ORDER BY id DESC ----------------------------------------------------------------------------

  predicate Descending(ids: seq<ID>) {
    forall i, j :: 0 <= i < j < |ids| ==> ids[i] > ids[j]
  }

  function InsertDescending(x: ID, ids: seq<ID>): seq<ID> {
    if ids == [] || x > ids[0] then [x] + ids else [ids[0]] + InsertDescending(x, ids[1..])
  }

  function OrderDescending(ids: seq<ID>): seq<ID> {
    if ids == [] then [] else InsertDescending(ids[|ids| - 1], OrderDescending(ids[..|ids| - 1]))
  }

  lemma DescendingJoins(a: seq<ID>, b: seq<ID>)
    requires Descending(a) && Descending(b) && forall x, y :: x in a && y in b ==> x > y
    ensures Descending(a + b)
  {
    forall i, j | 0 <= i < |a| <= j < |a| + |b| ensures (a + b)[i] > (a + b)[j] {
      assert (a + b)[i] in a && (a + b)[j] in b;
    }
  }

  lemma {:induction false} InsertKeepsOrder(x: ID, ids: seq<ID>)
    requires Descending(ids) && x !in ids
    ensures Descending(InsertDescending(x, ids)) && |InsertDescending(x, ids)| == |ids| + 1
    ensures forall y :: y in InsertDescending(x, ids) <==> y == x || y in ids
  {
    if ids == [] {
    } else if x <= ids[0] {
      var rest := ids[1..];
      assert ids == [ids[0]] + rest;
      InsertKeepsOrder(x, rest);
      assert ids[0] in ids;
      assert forall y :: y in rest ==> y < ids[0];
      DescendingJoins([ids[0]], InsertDescending(x, rest));
    }
  }

  lemma {:induction false} OrderIsRight(ids: seq<ID>)
    requires Distinct(ids)
    ensures Descending(OrderDescending(ids)) && |OrderDescending(ids)| == |ids|
    ensures forall x :: x in OrderDescending(ids) <==> x in ids
  {
    if ids == [] {
    } else {
      var before, last := ids[..|ids| - 1], ids[|ids| - 1];
      assert ids == before + [last];
      OrderIsRight(before);
      InsertKeepsOrder(last, OrderDescending(before));
    }
  }

  // ----- One page ---------------------------------------------------------------------------------------

  /** The rows the query may return, in its order: a nil or blank cursor sets no bound. */
  function Below(sorted: seq<ID>, bound: ID): seq<ID> {
    if sorted == [] || bound == 0 || sorted[0] < bound then sorted else Below(sorted[1..], bound)
  }

  function Normalize(limit: int): nat {
    if limit <= 0 || limit > MAX_LIMIT then MAX_LIMIT else limit
  }

  /** The cut the list functions make of the limit + 1 rows they asked for. */
  function Cut(rows: seq<ID>, limit: nat): Page
    requires limit > 0
  {
    var data := if |rows| > limit then rows[..limit] else rows;
    Page(data, if |rows| > limit then Uuid(data[|data| - 1]) else Blank, |rows| > limit)
  }

  function Bound(cursor: Cursor): ID
    requires !cursor.Malformed?
  {
    if cursor.Blank? then 0 else cursor.id
  }

  function List(ids: seq<ID>, cursor: Cursor, limit: int): Page {
    if cursor.Malformed? then InvalidCursor
    else
      var rows := Below(OrderDescending(ids), Bound(cursor));
      var n := Normalize(limit);
      Cut(if |rows| > n + 1 then rows[..n + 1] else rows, n)
  }

  lemma {:induction false} BelowIsSuffix(sorted: seq<ID>, bound: ID)
    requires Descending(sorted)
    ensures Descending(Below(sorted, bound)) && |Below(sorted, bound)| <= |sorted|
    ensures forall x :: x in Below(sorted, bound) <==> x in sorted && (bound == 0 || x < bound)
  {
    if sorted == [] {
    } else if bound != 0 && sorted[0] >= bound {
      assert sorted == [sorted[0]] + sorted[1..];
      BelowIsSuffix(sorted[1..], bound);
    } else {
      assert forall x :: x in sorted ==> x <= sorted[0];
    }
  }

  /** Fetching one row more than asked for tells whether there are more; the last row kept has one below
      it, so its ID is not the least. */
  lemma CutOfFetched(rows: seq<ID>, n: nat)
    requires Descending(rows) && n > 0
    ensures var p := Cut(if |rows| > n + 1 then rows[..n + 1] else rows, n);
            && p.Page? && p.data == rows[..if |rows| > n then n else |rows|]
            && (p.hasMore <==> |rows| > n)
            && (p.hasMore ==> p.next == Uuid(rows[n - 1]) && p.next.id != 0)
            && (!p.hasMore ==> p.next == Blank)
  {
    if |rows| > n {
      assert rows[n - 1] > rows[n];
    }
  }

  /** What a page holds: the greatest rows below the cursor, up to the limit; more are announced
      exactly when more exist; and the cursor announced with them is the last row's ID, never the nil
      UUID that would restart the walk. */
  lemma PageIsTopOfTheRest(ids: seq<ID>, cursor: Cursor, limit: int)
    requires Distinct(ids) && !cursor.Malformed?
    ensures var rows, p := Below(OrderDescending(ids), Bound(cursor)), List(ids, cursor, limit);
            && p.Page? && p.data == rows[..if |rows| > Normalize(limit) then Normalize(limit) else |rows|]
            && (p.hasMore <==> |rows| > Normalize(limit))
            && (p.hasMore ==> p.next == Uuid(rows[Normalize(limit) - 1]) && p.next.id != 0)
            && (!p.hasMore ==> p.next == Blank)
  {
    OrderIsRight(ids);
    BelowIsSuffix(OrderDescending(ids), Bound(cursor));
    CutOfFetched(Below(OrderDescending(ids), Bound(cursor)), Normalize(limit));
  }

  /** How many rows a page has: as many as there are, up to the limit asked for; and a limit below 1 or
      above 50 counts as 50. Only a malformed cursor is refused. */
  lemma PageSize(ids: seq<ID>, cursor: Cursor, limit: int)
    requires Distinct(ids) && !cursor.Malformed?
    ensures var rows, p := Below(OrderDescending(ids), Bound(cursor)), List(ids, cursor, limit);
            var most := if 1 <= limit <= 50 then limit else 50;
            p.Page? && |p.data| == if |rows| < most then |rows| else most
  {
    PageIsTopOfTheRest(ids, cursor, limit);
  }

  lemma OnlyMalformedCursorsAreRefused(ids: seq<ID>, cursor: Cursor, limit: int)
    ensures List(ids, cursor, limit) == InvalidCursor <==> cursor == Malformed
  {
  }

  // ----- The walk --------------------------------------------------------------------------------------------

  /** What the server holds when a page is fetched, and the limit the client asks for then. */
  datatype Fetch = Fetch(ids: seq<ID>, limit: int)

  function Walk(fetches: seq<Fetch>, cursor: Cursor): seq<ID> {
    if fetches == [] then []
    else
      match List(fetches[0].ids, cursor, fetches[0].limit)
      case InvalidCursor => []
      case Page(data, next, hasMore) => data + if hasMore then Walk(fetches[1..], next) else []
  }

  /** The walk reached a page without a successor. */
  predicate Finished(fetches: seq<Fetch>, cursor: Cursor) {
    fetches != [] &&
    match List(fetches[0].ids, cursor, fetches[0].limit)
    case InvalidCursor => true
    case Page(_, next, hasMore) => hasMore ==> Finished(fetches[1..], next)
  }

  ghost predicate AllDistinct(fetches: seq<Fetch>) {
    forall i :: 0 <= i < |fetches| ==> Distinct(fetches[i].ids)
  }

  lemma {:induction false} BelowNext(sorted: seq<ID>, k: nat)
    requires Descending(sorted) && 0 < k < |sorted|
    ensures Below(sorted, sorted[k - 1]) == sorted[k..]
  {
    if k == 1 {
      assert Below(sorted, sorted[0]) == Below(sorted[1..], sorted[0]);
    } else {
      var rest := sorted[1..];
      BelowNext(rest, k - 1);
      assert rest[k - 2] == sorted[k - 1] && rest[k - 1..] == sorted[k..];
      assert sorted[0] > sorted[k - 1] > sorted[k];
    }
  }

  lemma {:induction false} BelowTwice(sorted: seq<ID>, b: ID, c: ID)
    requires Descending(sorted) && c != 0 && (b == 0 || c < b)
    ensures Below(Below(sorted, b), c) == Below(sorted, c)
  {
    if sorted == [] {
    } else if b != 0 && sorted[0] >= b {
      BelowTwice(sorted[1..], b, c);
    }
  }

  /** A page and what is below its cursor make up what is below the cursor before. */
  lemma PageAndRest(ids: seq<ID>, cursor: Cursor, limit: int)
    requires Distinct(ids) && !cursor.Malformed?
    ensures var rest, p := Below(OrderDescending(ids), Bound(cursor)), List(ids, cursor, limit);
            && p.Page? && !p.next.Malformed?
            && (!p.hasMore ==> p.data == rest)
            && (p.hasMore ==> p.data != [] && p.data + Below(OrderDescending(ids), Bound(p.next)) == rest)
  {
    var sorted, n := OrderDescending(ids), Normalize(limit);
    var rest, p := Below(sorted, Bound(cursor)), List(ids, cursor, limit);
    OrderIsRight(ids);
    BelowIsSuffix(sorted, Bound(cursor));
    PageIsTopOfTheRest(ids, cursor, limit);
    if p.hasMore {
      BelowNext(rest, n);
      assert rest[n - 1] in rest;
      BelowTwice(sorted, Bound(cursor), rest[n - 1]);
      assert rest == rest[..n] + rest[n..];
    }
  }

  /** On a table that stands still, whatever limits the client picks, the pages concatenate to the
      rows below the cursor in descending order, and enough fetches reach the end. */
  lemma {:induction false} FixedTableWalk(ids: seq<ID>, fetches: seq<Fetch>, cursor: Cursor)
    requires Distinct(ids) && !cursor.Malformed?
    requires forall i :: 0 <= i < |fetches| ==> fetches[i].ids == ids
    ensures var rest := Below(OrderDescending(ids), Bound(cursor));
            && (Finished(fetches, cursor) ==> Walk(fetches, cursor) == rest)
            && (|fetches| > |rest| ==> Finished(fetches, cursor))
    decreases |fetches|
  {
    if fetches == [] {
    } else {
      PageAndRest(ids, cursor, fetches[0].limit);
      if List(ids, cursor, fetches[0].limit).hasMore {
        FixedTableWalk(ids, fetches[1..], List(ids, cursor, fetches[0].limit).next);
      }
    }
  }

  /** The whole listing, from a blank cursor: no gap, no duplicate, and it ends. */
  lemma {:induction false} WholeListing(ids: seq<ID>, fetches: seq<Fetch>)
    requires Distinct(ids)
    requires |fetches| > |ids| && forall i :: 0 <= i < |fetches| ==> fetches[i].ids == ids
    ensures Finished(fetches, Blank) && Walk(fetches, Blank) == OrderDescending(ids)
  {
    OrderIsRight(ids);
    FixedTableWalk(ids, fetches, Blank);
    assert Below(OrderDescending(ids), 0) == OrderDescending(ids);
  }

  /** A whole conversation: the walk lists every message between the two users once, newest ID first, and
      no other message. */
  lemma WholeConversation(t: seq<Message>, a: nat, b: nat, fetches: seq<Fetch>, x: ID)
    requires DistinctIDs(t) && |fetches| > |Conversation(t, a, b)|
    requires forall i :: 0 <= i < |fetches| ==> fetches[i].ids == Conversation(t, a, b)
    ensures Finished(fetches, Blank) && Descending(Walk(fetches, Blank))
    ensures x in Walk(fetches, Blank) <==> exists m :: m in t && m.id == x && Between(m, a, b)
  {
    var ids := Conversation(t, a, b);
    ConversationIsDistinct(t, a, b);
    WholeListing(ids, fetches);
    OrderIsRight(ids);
    ConversationIsExact(t, a, b, x);
  }

  predicate InBound(x: ID, cursor: Cursor)
    requires !cursor.Malformed?
  {
    Bound(cursor) == 0 || x < Bound(cursor)
  }

  /** The row was there when some page, or every page, was fetched. */
  ghost predicate Sometimes(fetches: seq<Fetch>, x: ID) {
    exists i :: 0 <= i < |fetches| && x in fetches[i].ids
  }

  ghost predicate Throughout(fetches: seq<Fetch>, x: ID) {
    forall i :: 0 <= i < |fetches| ==> x in fetches[i].ids
  }

  lemma CutSplits(rows: seq<ID>, n: nat)
    requires Descending(rows) && 0 < n <= |rows|
    ensures Descending(rows[..n])
    ensures forall x :: x in rows[..n] ==> x in rows && x >= rows[n - 1]
    ensures forall x :: x in rows ==> x in rows[..n] || x < rows[n - 1]
  {
    forall x | x in rows ensures x in rows[..n] || x < rows[n - 1] {
      var i :| 0 <= i < |rows| && rows[i] == x;
      assert i < n ==> rows[..n][i] == x;
    }
  }

  /** One page of a walk: its rows, and what is left below the cursor it hands out. */
  lemma PageSplits(ids: seq<ID>, cursor: Cursor, limit: int)
    requires Distinct(ids) && !cursor.Malformed?
    ensures var p := List(ids, cursor, limit);
            && p.Page? && !p.next.Malformed? && Descending(p.data)
            && (forall x :: x in p.data ==> x in ids && InBound(x, cursor))
            && (p.hasMore ==> p.next.Uuid? && p.next.id in p.data && p.next.id != 0)
            && (p.hasMore ==> forall x :: x in p.data ==> x >= p.next.id)
            && (forall x :: x in ids && InBound(x, cursor) ==> x in p.data || (p.hasMore && x < p.next.id))
  {
    var sorted, n := OrderDescending(ids), Normalize(limit);
    var rows, p := Below(sorted, Bound(cursor)), List(ids, cursor, limit);
    OrderIsRight(ids);
    BelowIsSuffix(sorted, Bound(cursor));
    PageIsTopOfTheRest(ids, cursor, limit);
    if p.hasMore {
      CutSplits(rows, n);
      assert p.data == rows[..n] && p.next.id == p.data[n - 1];
    } else {
      assert p.data == rows;
    }
  }

  /** On a table that changes between pages, everything the walk returns was there at some page and
      lies below the cursor, in strictly descending order: no row is ever returned twice. */
  lemma {:induction false} ChangingTableNoDuplicates(fetches: seq<Fetch>, cursor: Cursor)
    requires AllDistinct(fetches) && !cursor.Malformed?
    ensures Descending(Walk(fetches, cursor))
    ensures forall x :: x in Walk(fetches, cursor) ==> InBound(x, cursor) && Sometimes(fetches, x)
    decreases |fetches|
  {
    if fetches == [] {
    } else {
      var p := List(fetches[0].ids, cursor, fetches[0].limit);
      PageSplits(fetches[0].ids, cursor, fetches[0].limit);
      assert forall x :: x in fetches[0].ids ==> Sometimes(fetches, x);
      if p.hasMore {
        ChangingTableNoDuplicates(fetches[1..], p.next);
        SometimesLater(fetches);
        DescendingJoins(p.data, Walk(fetches[1..], p.next));
      }
    }
  }

  lemma SometimesLater(fetches: seq<Fetch>)
    requires fetches != []
    ensures forall x :: Sometimes(fetches[1..], x) ==> Sometimes(fetches, x)
  {
    forall x | Sometimes(fetches[1..], x) ensures Sometimes(fetches, x) {
      var i :| 0 <= i < |fetches[1..]| && x in fetches[1..][i].ids;
      assert x in fetches[i + 1].ids;
    }
  }

  /** And every row that was there throughout is returned by a walk that finishes; so, exactly once. */
  lemma {:induction false} ChangingTableNoGap(fetches: seq<Fetch>, cursor: Cursor, x: ID)
    requires AllDistinct(fetches) && !cursor.Malformed? && Finished(fetches, cursor)
    requires Throughout(fetches, x) && InBound(x, cursor)
    ensures x in Walk(fetches, cursor)
    decreases |fetches|
  {
    var p := List(fetches[0].ids, cursor, fetches[0].limit);
    PageSplits(fetches[0].ids, cursor, fetches[0].limit);
    if x in p.data {
    } else {
      ChangingTableNoGap(fetches[1..], p.next, x);
    }
  }
}
