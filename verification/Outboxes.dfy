/** The bounded outbound queue of one connection and what becomes of every frame offered to it. */
module Outboxes {
  import opened VideoEnvelope

  const CAPACITY: nat := 256

  /** A frame on its way out, with the kind it was received as. */
  datatype Message = Message(kind: Kind, bytes: Frame)

  /** The relay keeps only the queue and whether the write loop still runs; the other fields record
      what became of every frame offered. */
  datatype Outbox = Outbox(
    writing: bool, queue: seq<Message>,
    offered: seq<Message>, written: seq<Message>, failed: seq<Message>, dropped: seq<Message>)

  const EMPTY: Outbox := Outbox(true, [], [], [], [], [])

  /** `select { case Send <- msg: default: }` on a channel of capacity 256. */
  function Offer(b: Outbox, m: Message): Outbox {
    if |b.queue| < CAPACITY then b.(queue := b.queue + [m], offered := b.offered + [m])
    else b.(dropped := b.dropped + [m], offered := b.offered + [m])
  }

  /** One turn of the write loop; a failed write ends it. */
  function Pop(b: Outbox, ok: bool): Outbox {
    if !b.writing || b.queue == [] then b
    else if ok then b.(queue := b.queue[1..], written := b.written + [b.queue[0]])
    else b.(queue := b.queue[1..], failed := b.failed + [b.queue[0]], writing := false)
  }

  /** What was handed to the socket, in order, and what still waits. */
  function Accepted(b: Outbox): seq<Message> {
    b.written + b.failed + b.queue
  }

  predicate Subsequence(a: seq<Message>, b: seq<Message>)
    decreases |b|
  {
    if a == [] then true
    else if b == [] then false
    else
      var a', b' := a[..|a| - 1], b[..|b| - 1];
      (a[|a| - 1] == b[|b| - 1] && Subsequence(a', b')) || Subsequence(a, b')
  }

  lemma SubsequenceGrows(a: seq<Message>, b: seq<Message>, m: Message)
    requires Subsequence(a, b)
    ensures Subsequence(a + [m], b + [m]) && Subsequence(a, b + [m])
  {
    assert (a + [m])[..|a|] == a && (b + [m])[..|b|] == b;
  }

  /** What a subsequence means: its elements stand in the longer list at increasing positions. */
  lemma {:induction false} SubsequencePositions(a: seq<Message>, b: seq<Message>) returns (at: seq<nat>)
    requires Subsequence(a, b)
    ensures |at| == |a| && forall i :: 0 <= i < |at| ==> at[i] < |b| && b[at[i]] == a[i]
    ensures forall i, j :: 0 <= i < j < |at| ==> at[i] < at[j]
    decreases |b|
  {
    if a == [] {
      at := [];
    } else {
      var a', b' := a[..|a| - 1], b[..|b| - 1];
      if a[|a| - 1] == b[|b| - 1] && Subsequence(a', b') {
        at := SubsequencePositions(a', b');
        at := at + [|b| - 1];
      } else {
        at := SubsequencePositions(a, b');
      }
    }
  }

  /** Every frame offered was handed to the socket, waits, was dropped, or was the one whose write
      failed; order is kept; and every frame will be sent as the kind it came as. */
  ghost predicate Accounted(b: Outbox) {
    && |b.queue| <= CAPACITY
    && |b.failed| <= 1 && (b.writing ==> b.failed == [])
    && Subsequence(Accepted(b), b.offered)
    && multiset(b.offered) == multiset(Accepted(b)) + multiset(b.dropped)
  }

  ghost predicate KindsKept(b: Outbox) {
    forall m :: m in b.offered ==> InferKind(m.bytes) == m.kind
  }

  ghost predicate Sound(b: Outbox) {
    Accounted(b) && KindsKept(b)
  }

  lemma Tally(accepted: seq<Message>, dropped: seq<Message>, offered: seq<Message>, m: Message)
    requires multiset(offered) == multiset(accepted) + multiset(dropped)
    ensures multiset(offered + [m]) == multiset(accepted + [m]) + multiset(dropped)
    ensures multiset(offered + [m]) == multiset(accepted) + multiset(dropped + [m])
  {
  }

  /** Offering keeps the account, and drops the frame exactly when the queue is full. */
  lemma OfferAccounts(b: Outbox, m: Message)
    requires Accounted(b)
    ensures Accounted(Offer(b, m))
    ensures |Offer(b, m).dropped| > |b.dropped| <==> |b.queue| == 256
    ensures Offer(b, m).queue == if |b.queue| < 256 then b.queue + [m] else b.queue
  {
    var a, after := Accepted(b), Offer(b, m);
    SubsequenceGrows(a, b.offered, m);
    Tally(a, b.dropped, b.offered, m);
    if |b.queue| < CAPACITY {
      assert Accepted(after) == a + [m];
      assert Subsequence(a + [m], b.offered + [m]);
    } else {
      assert Accepted(after) == a;
      assert Subsequence(a, b.offered + [m]);
    }
  }

  lemma OfferKeepsSound(b: Outbox, m: Message)
    requires Sound(b) && InferKind(m.bytes) == m.kind
    ensures Sound(Offer(b, m))
  {
    OfferAccounts(b, m);
  }

  /** A turn of the write loop moves a frame without changing what was accepted or its order. */
  lemma PopAccounts(b: Outbox, ok: bool)
    requires Accounted(b)
    ensures Accounted(Pop(b, ok)) && Accepted(Pop(b, ok)) == Accepted(b)
  {
    if b.writing && b.queue != [] {
      assert b.queue == [b.queue[0]] + b.queue[1..];
      assert Accepted(Pop(b, ok)) == Accepted(b);
    }
  }

  /** The three-way split of the offered frames holds exactly when no write has failed. */
  lemma SplitsWithoutFailure(b: Outbox)
    requires Accounted(b)
    ensures multiset(b.offered) == multiset(b.written) + multiset(b.queue) + multiset(b.dropped) <==> b.failed == []
  {
    assert multiset(Accepted(b)) == multiset(b.written) + multiset(b.failed) + multiset(b.queue);
    if b.failed != [] {
      var m := b.failed[0];
      assert multiset(b.failed)[m] > 0;
      assert multiset(b.offered)[m] > (multiset(b.written) + multiset(b.queue) + multiset(b.dropped))[m];
    }
  }

  function Drain(b: Outbox, n: nat): Outbox {
    if n == 0 then b else Pop(Drain(b, n - 1), true)
  }

  /** A write loop whose writes succeed writes everything that waits, in order. */
  lemma {:induction false} DrainWritesAll(b: Outbox, n: nat)
    requires b.writing && n <= |b.queue|
    ensures Drain(b, n) == b.(queue := b.queue[n..], written := b.written + b.queue[..n])
  {
    if n == 0 {
      assert b.queue[..0] == [] && b.queue[0..] == b.queue;
    } else {
      DrainWritesAll(b, n - 1);
      assert b.queue[n - 1..][0] == b.queue[n - 1] && b.queue[n - 1..][1..] == b.queue[n..];
      assert b.written + b.queue[..n - 1] + [b.queue[n - 1]] == b.written + b.queue[..n];
    }
  }

  lemma PopKeepsSound(b: Outbox, ok: bool)
    requires Sound(b)
    ensures Sound(Pop(b, ok))
  {
    PopAccounts(b, ok);
  }

  lemma EmptyIsSound()
    ensures Sound(EMPTY)
  {
    assert Accepted(EMPTY) == [];
  }

  /** The write loop sends every frame as the kind it was received as. */
  lemma SentKindIsReceivedKind(b: Outbox, i: nat)
    requires Sound(b) && i < |Accepted(b)|
    ensures InferKind(Accepted(b)[i].bytes) == Accepted(b)[i].kind
  {
    var at := SubsequencePositions(Accepted(b), b.offered);
    assert b.offered[at[i]] in b.offered;
  }
}
