/** The relay as a state machine: connections come and go, readers take frames in, writers drain
    bounded queues, in any interleaving. Each event is one atomic step. */
module Relay {
  import opened Options
  import opened VideoEnvelope
  import opened Outboxes
  import opened History
  import H = Hub
  import S = Sessions

  /** A connection under its client ID, with the authenticated user or "". */
  datatype Client = Client(id: string, user: string, open: bool)

  datatype State = State(
    clients: map<nat, Client>,
    outboxes: map<nat, Outbox>,
    registry: map<string, nat>,  // client ID to connection
    hub: H.Connections,  // user ID to connections
    sessions: S.Registry)

  datatype Event =
    | Connect(c: nat, clientQuery: string, userQuery: string, authUser: string)
    | Receive(c: nat, kind: Kind, bytes: Frame)
    | WriterPop(c: nat, ok: bool)
    | Disconnect(c: nat)

  // ----- Steps ------------------------------------------------------------------------------------

  /** The ID a client is registered under: query parameters first, then the token's subject. */
  function ClientID(clientQuery: string, userQuery: string, authUser: string): string {
    if clientQuery != "" then clientQuery else if userQuery != "" then userQuery else authUser
  }

  /** The query parameters before the token's subject, and the first of them first. */
  lemma ClientIDPrecedence(c: string, u: string, t: string)
    ensures c != "" ==> ClientID(c, u, t) == c
    ensures u != "" ==> ClientID("", u, t) == u
    ensures ClientID("", "", t) == t
  {
  }

  predicate IsOpen(s: State, c: nat) {
    c in s.clients && s.clients[c].open
  }

  function Accept(s: State, c: nat, id: string, user: string): State {
    if c in s.clients || id == "" then s
    else
      s.(clients := s.clients[c := Client(id, user, true)],
         outboxes := s.outboxes[c := EMPTY],
         registry := s.registry[id := c],
         hub := if user != "" then H.Register(s.hub, user, c) else s.hub)
  }

  /** The reader's deferred clean-up. It removes whatever stands under the client ID. */
  function Close(s: State, c: nat): State {
    if !IsOpen(s, c) then s
    else
      var client := s.clients[c];
      s.(clients := s.clients[c := client.(open := false)],
         registry := s.registry - {client.id},
         hub := if client.user != "" then H.Unregister(s.hub, client.user, c) else s.hub)
  }

  function Forward(s: State, to: string, m: Message): State {
    if to in s.registry && s.registry[to] in s.outboxes then
      var c := s.registry[to];
      s.(outboxes := s.outboxes[c := Offer(s.outboxes[c], m)])
    else s
  }

  /** Go's conversion of bytes to a string. */
  function AsString(id: Frame): string {
    seq(|id|, i requires 0 <= i < |id| => id[i] as char)
  }

  function OnBinary(s: State, c: nat, bytes: Frame): State {
    match ParseTarget(bytes)
    case Ignored => s
    case To(id) => Forward(s, AsString(id), Message(Binary, bytes))
    case OutOfRange => Close(s, c)  // the panic runs the deferred clean-up
  }

  function OnEnvelope(s: State, c: nat, bytes: Frame, env: S.Envelope): State
    requires c in s.clients
  {
    if env.typ == "register" then
      s.(sessions := S.Register(s.sessions, s.clients[c].id, env))
    else if env.typ == "connection_request" then
      Forward(s.(sessions := S.Request(s.sessions, env)), env.to, Message(Text, bytes))
    else if env.typ == "connection_accept" || env.typ == "connection_reject" then
      Forward(s, env.to, Message(Text, bytes))
    else if env.typ == "session_message" && env.data.Some? && S.StringAt(env.data.value, "toUserId") != "" then
      Forward(s, S.StringAt(env.data.value, "toUserId"), Message(Text, bytes))
    else s
  }

  type Decoder = Frame -> Option<S.Envelope>

  /** JSON decoding is a parameter; all that is used of it is that it accepts nothing but JSON. */
  ghost predicate ValidDecoder(decode: Decoder) {
    forall m: Frame :: decode(m).Some? ==> StartsLikeJson(m)
  }

  function OnFrame(decode: Decoder, s: State, c: nat, kind: Kind, bytes: Frame): State {
    if !IsOpen(s, c) then s
    else if kind == Binary then OnBinary(s, c, bytes)
    else if decode(bytes).Some? then OnEnvelope(s, c, bytes, decode(bytes).value)
    else s
  }

  function Step(decode: Decoder, s: State, e: Event): State {
    match e
    case Connect(c, clientQuery, userQuery, authUser) =>
      Accept(s, c, ClientID(clientQuery, userQuery, authUser), authUser)
    case Receive(c, kind, bytes) => OnFrame(decode, s, c, kind, bytes)
    case WriterPop(c, ok) =>
      if c in s.outboxes then s.(outboxes := s.outboxes[c := Pop(s.outboxes[c], ok)]) else s
    case Disconnect(c) => Close(s, c)
  }

  const INIT: State := State(map[], map[], map[], map[], map[])

  function Run(decode: Decoder, es: seq<Event>): State {
    if es == [] then INIT else Step(decode, Run(decode, es[..|es| - 1]), es[|es| - 1])
  }

  // ----- Who is registered ------------------------------------------------------------------------------

  /** A registered client is connected under that ID and its channel is open. */
  ghost predicate RegistryInv(s: State) {
    && s.clients.Keys == s.outboxes.Keys
    && forall id :: id in s.registry ==> IsOpen(s, s.registry[id]) && s.clients[s.registry[id]].id == id
  }

  /** The hub is exactly the set of (user, open connection) pairs, with no user left without one. */
  ghost predicate HubInv(s: State) {
    && H.NoEmptyEntry(s.hub)
    && forall u, c :: H.Has(s.hub, u, c) <==> IsOpen(s, c) && s.clients[c].user == u && u != ""
  }

  lemma AcceptKeepsInv(s: State, c: nat, id: string, user: string)
    requires RegistryInv(s) && HubInv(s)
    ensures RegistryInv(Accept(s, c, id, user)) && HubInv(Accept(s, c, id, user))
  {
    H.RefinesPairs(s.hub, user, c);
  }

  lemma CloseKeepsInv(s: State, c: nat)
    requires RegistryInv(s) && HubInv(s)
    ensures RegistryInv(Close(s, c)) && HubInv(Close(s, c))
  {
    if IsOpen(s, c) {
      H.RefinesPairs(s.hub, s.clients[c].user, c);
    }
  }

  predicate SameMembership(s: State, t: State) {
    t.clients == s.clients && t.registry == s.registry && t.hub == s.hub && t.outboxes.Keys == s.outboxes.Keys
  }

  lemma ForwardIsNotMembership(s: State, to: string, m: Message)
    ensures SameMembership(s, Forward(s, to, m))
  {
  }

  lemma EnvelopeIsNotMembership(s: State, c: nat, bytes: Frame, env: S.Envelope)
    requires c in s.clients
    ensures SameMembership(s, OnEnvelope(s, c, bytes, env))
  {
    ForwardIsNotMembership(s, env.to, Message(Text, bytes));
    ForwardIsNotMembership(s.(sessions := S.Request(s.sessions, env)), env.to, Message(Text, bytes));
    if env.data.Some? {
      ForwardIsNotMembership(s, S.StringAt(env.data.value, "toUserId"), Message(Text, bytes));
    }
  }

  /** Whether the step is a reader's end: its own, or one forced by a frame out of range. */
  predicate Closes(e: Event) {
    e.Disconnect? || (e.Receive? && e.kind == Binary && ParseTarget(e.bytes) == OutOfRange)
  }

  /** Frames and the write loop leave the connections, the registry and the hub alone. */
  lemma TrafficIsNotMembership(decode: Decoder, s: State, e: Event)
    requires !e.Connect? && !Closes(e)
    ensures SameMembership(s, Step(decode, s, e))
  {
    if e.Receive? && IsOpen(s, e.c) {
      if e.kind == Binary {
        if ParseTarget(e.bytes).To? {
          ForwardIsNotMembership(s, AsString(ParseTarget(e.bytes).id), Message(Binary, e.bytes));
        }
      } else if decode(e.bytes).Some? {
        EnvelopeIsNotMembership(s, e.c, e.bytes, decode(e.bytes).value);
      }
    }
  }

  lemma ClosingStep(decode: Decoder, s: State, e: Event)
    requires Closes(e)
    ensures Step(decode, s, e) == Close(s, e.c)
  {
  }

  lemma {:induction false} MembershipInvariant(decode: Decoder, es: seq<Event>)
    ensures RegistryInv(Run(decode, es)) && HubInv(Run(decode, es))
  {
    if es == [] {
    } else {
      var s, e := Run(decode, es[..|es| - 1]), es[|es| - 1];
      MembershipInvariant(decode, es[..|es| - 1]);
      if e.Connect? {
        AcceptKeepsInv(s, e.c, ClientID(e.clientQuery, e.userQuery, e.authUser), e.authUser);
      } else if Closes(e) {
        ClosingStep(decode, s, e);
        CloseKeepsInv(s, e.c);
      } else {
        TrafficIsNotMembership(decode, s, e);
      }
    }
  }

  /** Once every connection has run its deferred close, nothing is left behind. */
  lemma NothingLeftBehind(decode: Decoder, es: seq<Event>)
    requires forall c :: c in Run(decode, es).clients ==> !Run(decode, es).clients[c].open
    ensures Run(decode, es).registry == map[] && Run(decode, es).hub == map[]
  {
    var s := Run(decode, es);
    MembershipInvariant(decode, es);
    if s.hub != map[] {
      var u :| u in s.hub;
      var c :| c in s.hub[u];
      assert H.Has(s.hub, u, c);
    }
  }

  // ----- Who can be reached --------------------------------------------------------------------------------

  /** The step puts connection `c` into the registry under `id`. */
  predicate Adds(s: State, e: Event, id: string, c: nat) {
    e.Connect? && e.c == c && c !in s.clients && id != "" && ClientID(e.clientQuery, e.userQuery, e.authUser) == id
  }

  /** The step ends a connection of `id`, and with it whatever entry stands under `id`. */
  predicate Clears(s: State, e: Event, id: string) {
    Closes(e) && IsOpen(s, e.c) && s.clients[e.c].id == id
  }

  function Addition(decode: Decoder, id: string, c: nat): (seq<Event>, Event) -> bool {
    (before: seq<Event>, e: Event) => Adds(Run(decode, before), e, id, c)
  }

  /** Any connection is added or ended under `id`. */
  function Change(decode: Decoder, id: string): (seq<Event>, Event) -> bool {
    (before: seq<Event>, e: Event) =>
      Clears(Run(decode, before), e, id) || (e.Connect? && Adds(Run(decode, before), e, id, e.c))
  }

  /** Some event added connection `c` under `id`, and since then nothing was added or ended under `id`. */
  ghost predicate AddedLast(decode: Decoder, es: seq<Event>, id: string, c: nat) {
    EverSince(es, Addition(decode, id, c), Change(decode, id))
  }

  ghost predicate Registered(s: State, id: string, c: nat) {
    id in s.registry && s.registry[id] == c
  }

  lemma RegistryStep(decode: Decoder, s: State, e: Event, id: string, c: nat)
    ensures Registered(Step(decode, s, e), id, c) <==>
            Adds(s, e, id, c) ||
            (Registered(s, id, c) && !Clears(s, e, id) && !(e.Connect? && Adds(s, e, id, e.c)))
  {
    if Closes(e) {
      ClosingStep(decode, s, e);
    } else if !e.Connect? {
      TrafficIsNotMembership(decode, s, e);
    }
  }

  /** The registry is last-writer-wins, in both directions: an entry is the last client added under
      its ID, and a client stays reachable exactly as long as no other client of that ID is added or
      ends. */
  lemma {:induction false} ReachableExactlyWhenAddedLast(decode: Decoder, es: seq<Event>, id: string, c: nat)
    ensures Registered(Run(decode, es), id, c) <==> AddedLast(decode, es, id, c)
  {
    if es == [] {
    } else {
      var n := |es| - 1;
      ReachableExactlyWhenAddedLast(decode, es[..n], id, c);
      RegistryStep(decode, Run(decode, es[..n]), es[n], id, c);
      EverSinceStep(es, Addition(decode, id, c), Change(decode, id));
    }
  }

  /** So a live client can be lost: of two connections under one ID, the end of either leaves the
      other connected but unreachable. */
  lemma SharedIDLosesTheSurvivor(decode: Decoder, es: seq<Event>, c: nat, d: nat)
    requires c != d && IsOpen(Run(decode, es), c) && IsOpen(Run(decode, es), d)
    requires Run(decode, es).clients[c].id == Run(decode, es).clients[d].id
    ensures var s := Run(decode, es + [Disconnect(c)]);
            IsOpen(s, d) && s.clients[d].id !in s.registry
  {
    assert (es + [Disconnect(c)])[..|es|] == es;
  }

  /** Two windows of one user are enough. */
  lemma SecondWindowBecomesUnreachable(decode: Decoder)
    ensures var es := [Connect(0, "x", "", ""), Connect(1, "x", "", "")];
            var s, t := Run(decode, es), Run(decode, es + [Disconnect(0)]);
            && IsOpen(s, 0) && IsOpen(s, 1) && s.clients[0].id == s.clients[1].id == "x"
            && IsOpen(t, 1) && "x" !in t.registry
  {
    var es := [Connect(0, "x", "", ""), Connect(1, "x", "", "")];
    assert es[..1] == [Connect(0, "x", "", "")] && es[..1][..0] == [];
    assert Run(decode, es[..1]) == Accept(INIT, 0, "x", "");
    assert Run(decode, es) == Accept(Accept(INIT, 0, "x", ""), 1, "x", "");
    SharedIDLosesTheSurvivor(decode, es, 0, 1);
  }

  // ----- What happens to frames ------------------------------------------------------------------------------

  /** Every queue accounts for all its frames, and every frame in it was received as the kind it is
      marked with. */
  ghost predicate OutboxesInv(s: State) {
    forall c :: c in s.outboxes ==> Sound(s.outboxes[c])
  }

  lemma ForwardKeepsOutboxes(s: State, to: string, m: Message)
    requires OutboxesInv(s) && InferKind(m.bytes) == m.kind
    ensures OutboxesInv(Forward(s, to, m))
  {
    if to in s.registry && s.registry[to] in s.outboxes {
      OfferKeepsSound(s.outboxes[s.registry[to]], m);
    }
  }

  lemma EnvelopeKeepsOutboxes(s: State, c: nat, bytes: Frame, env: S.Envelope)
    requires OutboxesInv(s) && c in s.clients && StartsLikeJson(bytes)
    ensures OutboxesInv(OnEnvelope(s, c, bytes, env))
  {
    ForwardKeepsOutboxes(s, env.to, Message(Text, bytes));
    ForwardKeepsOutboxes(s.(sessions := S.Request(s.sessions, env)), env.to, Message(Text, bytes));
    if env.data.Some? {
      ForwardKeepsOutboxes(s, S.StringAt(env.data.value, "toUserId"), Message(Text, bytes));
    }
  }

  lemma ReplacedOutboxKeepsInv(s: State, c: nat, b: Outbox)
    requires OutboxesInv(s) && Sound(b)
    ensures OutboxesInv(s.(outboxes := s.outboxes[c := b]))
  {
  }

  lemma FrameKeepsOutboxes(decode: Decoder, s: State, c: nat, kind: Kind, bytes: Frame)
    requires ValidDecoder(decode) && OutboxesInv(s)
    ensures OutboxesInv(OnFrame(decode, s, c, kind, bytes))
  {
    if IsOpen(s, c) {
      if kind == Binary {
        if ParseTarget(bytes).To? {
          ForwardKeepsOutboxes(s, AsString(ParseTarget(bytes).id), Message(Binary, bytes));
        }
      } else if decode(bytes).Some? {
        EnvelopeKeepsOutboxes(s, c, bytes, decode(bytes).value);
      }
    }
  }

  lemma StepKeepsOutboxes(decode: Decoder, s: State, e: Event)
    requires ValidDecoder(decode) && OutboxesInv(s)
    ensures OutboxesInv(Step(decode, s, e))
  {
    match e {
      case Connect(c, clientQuery, userQuery, authUser) =>
        EmptyIsSound();
        ReplacedOutboxKeepsInv(s, c, EMPTY);
      case Receive(c, kind, bytes) =>
        FrameKeepsOutboxes(decode, s, c, kind, bytes);
      case WriterPop(c, ok) =>
        if c in s.outboxes {
          PopKeepsSound(s.outboxes[c], ok);
          ReplacedOutboxKeepsInv(s, c, Pop(s.outboxes[c], ok));
        }
      case Disconnect(c) =>
    }
  }

  /** Conservation, over every interleaving: for every connection, open or closed, the frames offered
      split exactly into written, queued, dropped and at most one whose write failed; what was handed
      to the socket, then what waits, is a subsequence of what was offered; the queue never exceeds
      its capacity. And every frame goes out as the kind it was received as (section 5.6 of RFC 6455). */
  lemma {:induction false} FramesAreAccountedFor(decode: Decoder, es: seq<Event>)
    requires ValidDecoder(decode)
    ensures OutboxesInv(Run(decode, es))
  {
    if es == [] {
    } else {
      FramesAreAccountedFor(decode, es[..|es| - 1]);
      StepKeepsOutboxes(decode, Run(decode, es[..|es| - 1]), es[|es| - 1]);
    }
  }

  /** The client ID a step sends a frame to, and the frame; by the kind of frame, not by what the
      relay does with it. */
  function Addressed(decode: Decoder, s: State, e: Event): Option<(string, Message)> {
    if !e.Receive? || !IsOpen(s, e.c) then None
    else if e.kind == Binary then
      if ParseTarget(e.bytes).To? then Some((AsString(ParseTarget(e.bytes).id), Message(Binary, e.bytes))) else None
    else
      match decode(e.bytes)
      case None => None
      case Some(env) =>
        if env.typ in {"connection_request", "connection_accept", "connection_reject"} then
          Some((env.to, Message(Text, e.bytes)))
        else if env.typ != "session_message" || env.data.None? || S.StringAt(env.data.value, "toUserId") == "" then None
        else Some((S.StringAt(env.data.value, "toUserId"), Message(Text, e.bytes)))
  }

  /** The bytes of a client ID of one-byte characters, as the client writes them. */
  function IDBytes(to: string): Frame
    requires forall i :: 0 <= i < |to| ==> to[i] < 256 as char
  {
    seq(|to|, i requires 0 <= i < |to| => to[i] as int)
  }

  /** A frame built for an ID reaches the relay addressed to that very ID, and unchanged. */
  lemma BuiltFramesAreAddressed(
    decode: Decoder, s: State, c: nat, to: string, session: Frame, keyframe: bool, width: nat, height: nat, vp9: Frame)
    requires IsOpen(s, c) && forall i :: 0 <= i < |to| ==> to[i] < 256 as char
    requires |Build(IDBytes(to), session, keyframe, width, height, vp9)| < UINT32
    ensures var msg := Build(IDBytes(to), session, keyframe, width, height, vp9);
            Addressed(decode, s, Receive(c, Binary, msg)) == Some((to, Message(Binary, msg)))
  {
    var id := IDBytes(to);
    var msg := Build(id, session, keyframe, width, height, vp9);
    assert ParseTarget(msg) == To(id) by {
      BuildShape(id, session, keyframe, width, height, vp9);
      RelayFindsTarget(id, session, keyframe, width, height, vp9);
    }
    assert AsString(id) == to by {
      IDsAreReadByteByByte(id, to);
    }
  }

  /** And what the relay reads as an ID are exactly the bytes that name it. */
  lemma IDsAreReadByteByByte(id: Frame, to: string)
    ensures AsString(id) == to <==> |id| == |to| && forall i :: 0 <= i < |id| ==> id[i] == to[i] as int
  {
  }

  /** The frames that were sent, over a whole run, to an ID under which `c` was the last added then. */
  ghost function Deliveries(decode: Decoder, es: seq<Event>, c: nat): seq<Message> {
    if es == [] then []
    else
      var before := es[..|es| - 1];
      var a := Addressed(decode, Run(decode, before), es[|es| - 1]);
      Deliveries(decode, before, c) +
      if a.Some? && AddedLast(decode, before, a.value.0, c) then [a.value.1] else []
  }

  function OfferedTo(s: State, c: nat): seq<Message> {
    if c in s.outboxes then s.outboxes[c].offered else []
  }

  lemma ForwardOffers(s: State, to: string, m: Message, c: nat)
    requires RegistryInv(s)
    ensures OfferedTo(Forward(s, to, m), c) == OfferedTo(s, c) + if Registered(s, to, c) then [m] else []
  {
  }

  lemma EnvelopeOffers(s: State, reader: nat, bytes: Frame, env: S.Envelope, c: nat)
    requires RegistryInv(s) && IsOpen(s, reader)
    ensures var a := Addressed((_) => Some(env), s, Receive(reader, Text, bytes));
            OfferedTo(OnEnvelope(s, reader, bytes, env), c) ==
            OfferedTo(s, c) + if a.Some? && Registered(s, a.value.0, c) then [a.value.1] else []
  {
    var m := Message(Text, bytes);
    if env.typ == "connection_request" {
      ForwardOffers(s.(sessions := S.Request(s.sessions, env)), env.to, m, c);
    } else if env.typ in {"connection_accept", "connection_reject"} {
      ForwardOffers(s, env.to, m, c);
    } else if env.typ == "session_message" && env.data.Some? && S.StringAt(env.data.value, "toUserId") != "" {
      ForwardOffers(s, S.StringAt(env.data.value, "toUserId"), m, c);
    }
  }

  lemma StepOffers(decode: Decoder, s: State, e: Event, c: nat)
    requires RegistryInv(s)
    ensures var a := Addressed(decode, s, e);
            OfferedTo(Step(decode, s, e), c) ==
            OfferedTo(s, c) + if a.Some? && Registered(s, a.value.0, c) then [a.value.1] else []
  {
    if e.Receive? && IsOpen(s, e.c) {
      if e.kind == Binary {
        if ParseTarget(e.bytes).To? {
          ForwardOffers(s, AsString(ParseTarget(e.bytes).id), Message(Binary, e.bytes), c);
        }
      } else if decode(e.bytes).Some? {
        EnvelopeOffers(s, e.c, e.bytes, decode(e.bytes).value, c);
      }
    }
  }

  /** Delivery, over every interleaving: what was offered to a connection is, in order, exactly the
      frames sent to an ID under which it was then the last added; and all of them are accounted for. */
  lemma {:induction false} EveryDeliveryIsAccountedFor(decode: Decoder, es: seq<Event>, c: nat)
    requires ValidDecoder(decode)
    ensures OfferedTo(Run(decode, es), c) == Deliveries(decode, es, c)
    ensures c in Run(decode, es).outboxes ==>
              var b := Run(decode, es).outboxes[c];
              && Subsequence(Accepted(b), Deliveries(decode, es, c))
              && multiset(Deliveries(decode, es, c)) == multiset(Accepted(b)) + multiset(b.dropped)
              && |b.queue| <= 256 && |b.failed| <= 1
  {
    FramesAreAccountedFor(decode, es);
    if es == [] {
    } else {
      var before, e := es[..|es| - 1], es[|es| - 1];
      var s := Run(decode, before);
      EveryDeliveryIsAccountedFor(decode, before, c);
      MembershipInvariant(decode, before);
      StepOffers(decode, s, e, c);
      var a := Addressed(decode, s, e);
      if a.Some? {
        ReachableExactlyWhenAddedLast(decode, before, a.value.0, c);
      }
    }
  }

  /** Event `k` is a write of connection `c` that fails: its loop was still running and a frame waited. */
  ghost predicate FailsAt(decode: Decoder, es: seq<Event>, c: nat, k: nat) {
    k < |es| && es[k] == WriterPop(c, false) && Writable(Run(decode, es[..k]), c)
  }

  /** The write loop of `c` runs and has something to write. */
  predicate Writable(s: State, c: nat) {
    c in s.outboxes && s.outboxes[c].writing && s.outboxes[c].queue != []
  }

  function FailedOf(s: State, c: nat): seq<Message> {
    if c in s.outboxes then s.outboxes[c].failed else []
  }

  lemma ForwardFailsNothing(s: State, to: string, m: Message, c: nat)
    ensures FailedOf(Forward(s, to, m), c) == FailedOf(s, c)
  {
  }

  lemma FrameFailsNothing(decode: Decoder, s: State, from: nat, kind: Kind, bytes: Frame, c: nat)
    ensures FailedOf(OnFrame(decode, s, from, kind, bytes), c) == FailedOf(s, c)
  {
    if IsOpen(s, from) && kind == Binary && ParseTarget(bytes).To? {
      ForwardFailsNothing(s, AsString(ParseTarget(bytes).id), Message(Binary, bytes), c);
    } else if IsOpen(s, from) && kind == Text && decode(bytes).Some? {
      var env := decode(bytes).value;
      ForwardFailsNothing(s, env.to, Message(Text, bytes), c);
      ForwardFailsNothing(s.(sessions := S.Request(s.sessions, env)), env.to, Message(Text, bytes), c);
      if env.data.Some? {
        ForwardFailsNothing(s, S.StringAt(env.data.value, "toUserId"), Message(Text, bytes), c);
      }
    }
  }

  lemma FailedStep(decode: Decoder, s: State, e: Event, c: nat)
    requires RegistryInv(s)
    ensures FailedOf(Step(decode, s, e), c) ==
            FailedOf(s, c) + if e == WriterPop(c, false) && Writable(s, c) then [s.outboxes[c].queue[0]] else []
  {
    if e.Receive? {
      FrameFailsNothing(decode, s, e.c, e.kind, e.bytes, c);
    }
  }

  /** A frame of `c` failed exactly when a write of its running loop did. */
  lemma {:induction false} FailedExactly(decode: Decoder, es: seq<Event>, c: nat)
    ensures FailedOf(Run(decode, es), c) != [] <==> exists k :: FailsAt(decode, es, c, k)
  {
    if es == [] {
    } else {
      var n := |es| - 1;
      FailedExactly(decode, es[..n], c);
      MembershipInvariant(decode, es[..n]);
      FailedStep(decode, Run(decode, es[..n]), es[n], c);
      FailsAtStep(decode, es, c);
    }
  }

  lemma FailsAtStep(decode: Decoder, es: seq<Event>, c: nat)
    requires es != []
    ensures var n := |es| - 1;
            (exists k :: FailsAt(decode, es, c, k)) <==>
            || (exists k :: FailsAt(decode, es[..n], c, k))
            || (es[n] == WriterPop(c, false) && Writable(Run(decode, es[..n]), c))
  {
    var n := |es| - 1;
    assert FailsAt(decode, es, c, n) <==> es[n] == WriterPop(c, false) && Writable(Run(decode, es[..n]), c);
    forall k: nat | k < n ensures FailsAt(decode, es, c, k) <==> FailsAt(decode, es[..n], c, k) {
      assert es[..n][..k] == es[..k];
    }
  }

  /** Written, queued and dropped make up everything that was sent to a connection exactly when no write
      of its running loop ever failed. */
  lemma FramesAreLostExactly(decode: Decoder, es: seq<Event>, c: nat)
    requires ValidDecoder(decode) && c in Run(decode, es).outboxes
    ensures var b := Run(decode, es).outboxes[c];
            multiset(Deliveries(decode, es, c)) == multiset(b.written) + multiset(b.queue) + multiset(b.dropped) <==>
            !exists k :: FailsAt(decode, es, c, k)
  {
    var b := Run(decode, es).outboxes[c];
    assert b.offered == Deliveries(decode, es, c) by {
      EveryDeliveryIsAccountedFor(decode, es, c);
    }
    assert b.failed == [] <==> !exists k :: FailsAt(decode, es, c, k) by {
      FailedExactly(decode, es, c);
    }
    assert OutboxesInv(Run(decode, es)) by {
      FramesAreAccountedFor(decode, es);
    }
    SplitsWithoutFailure(b);
  }

  const HEADER_TO_X: Frame := [0xB1, 0x4D, 0, 0, 1, 0, 0, 0, 0x78]

  /** A frame sent to itself by a client whose connection breaks before the write: it is neither written
      nor queued nor dropped. */
  lemma FailedWriteLosesAFrame(decode: Decoder)
    ensures var es := [Connect(0, "x", "", ""), Receive(0, Binary, HEADER_TO_X), WriterPop(0, false)];
            var m := Message(Binary, HEADER_TO_X);
            && 0 in Run(decode, es).outboxes && FailsAt(decode, es, 0, 2)
            && var b := Run(decode, es).outboxes[0];
            && b.offered == [m] && b.failed == [m] && b.written == b.queue == b.dropped == []
  {
    var es := [Connect(0, "x", "", ""), Receive(0, Binary, HEADER_TO_X), WriterPop(0, false)];
    var m := Message(Binary, HEADER_TO_X);
    var s1 := Accept(INIT, 0, "x", "");
    assert es[..1] == [es[0]] && es[..1][..0] == [] && es[..2][..1] == es[..1];
    assert es[..3] == es && es[..3][..2] == es[..2];
    assert Run(decode, es[..1]) == s1;
    assert HEADER_TO_X[4..8] == [1, 0, 0, 0] && HEADER_TO_X[8..9] == [0x78];
    assert ParseTarget(HEADER_TO_X) == To([0x78]);
    assert AsString([0x78]) == "x";
    var s2 := Forward(s1, "x", m);
    assert Run(decode, es[..2]) == s2;
    assert [] + [m] == [m];
    assert s2.outboxes[0] == Outbox(true, [m], [m], [], [], []);
    assert Run(decode, es).outboxes[0] == Pop(s2.outboxes[0], false);
  }

  /** The kind the write loop infers for any frame it ever sends is the kind that was received. */
  lemma RelayPreservesKind(decode: Decoder, es: seq<Event>, c: nat, i: nat)
    requires ValidDecoder(decode) && c in Run(decode, es).outboxes
    requires i < |Accepted(Run(decode, es).outboxes[c])|
    ensures var m := Accepted(Run(decode, es).outboxes[c])[i]; InferKind(m.bytes) == m.kind
  {
    FramesAreAccountedFor(decode, es);
    SentKindIsReceivedKind(Run(decode, es).outboxes[c], i);
  }

  // ----- What the sessions learn ---------------------------------------------------------------------------------

  /** The message the step brings to the session registry, if any. */
  function SessionMessage(decode: Decoder, s: State, e: Event): seq<S.Message> {
    if e.Receive? && IsOpen(s, e.c) && e.kind == Text && decode(e.bytes).Some? then
      var env := decode(e.bytes).value;
      if env.typ == "register" then [S.Registers(s.clients[e.c].id, env)]
      else if env.typ == "connection_request" then [S.Requests(env)]
      else []
    else []
  }

  function SessionMessages(decode: Decoder, es: seq<Event>): seq<S.Message> {
    if es == [] then []
    else
      var before := es[..|es| - 1];
      SessionMessages(decode, before) + SessionMessage(decode, Run(decode, before), es[|es| - 1])
  }

  lemma StepSessions(decode: Decoder, s: State, e: Event)
    ensures Step(decode, s, e).sessions == S.After(s.sessions, SessionMessage(decode, s, e))
  {
    var ms := SessionMessage(decode, s, e);
    if ms != [] {
      assert ms[..|ms| - 1] == [];
      assert S.After(s.sessions, []) == s.sessions;
    }
  }

  lemma {:induction false} SessionsFollowMessages(decode: Decoder, es: seq<Event>)
    ensures Run(decode, es).sessions == S.After(map[], SessionMessages(decode, es))
  {
    if es == [] {
    } else {
      var before := es[..|es| - 1];
      var ms, m := SessionMessages(decode, before), SessionMessage(decode, Run(decode, before), es[|es| - 1]);
      SessionsFollowMessages(decode, before);
      StepSessions(decode, Run(decode, before), es[|es| - 1]);
      if m == [] {
        assert ms + m == ms;
      } else {
        assert (ms + m)[..|ms + m| - 1] == ms && m[..0] == [];
      }
    }
  }

  predicate Named(s: State) {
    forall c :: c in s.clients ==> s.clients[c].id != ""
  }

  lemma {:induction false} ClientsAreNamed(decode: Decoder, es: seq<Event>)
    ensures Named(Run(decode, es))
  {
    if es == [] {
    } else {
      var s, e := Run(decode, es[..|es| - 1]), es[|es| - 1];
      ClientsAreNamed(decode, es[..|es| - 1]);
      if Closes(e) {
        ClosingStep(decode, s, e);
      } else if !e.Connect? {
        TrafficIsNotMembership(decode, s, e);
      }
    }
  }

  lemma StepForgetsNothing(decode: Decoder, s: State, e: Event, id: string)
    requires Named(s) && id in s.sessions
    ensures var t := Step(decode, s, e).sessions;
            && id in t
            && (s.sessions[id].controller != "" ==> t[id].controller != "")
            && (s.sessions[id].agent != "" ==> t[id].agent != "")
  {
    StepSessions(decode, s, e);
    S.FilledFieldsStayFilled(s.sessions, SessionMessage(decode, s, e), id);
  }

  /** Whatever frames follow, contradictory ones included, a stored session stays and neither of its
      ends, once known, is forgotten. */
  lemma {:induction false} SessionsNeverForget(decode: Decoder, es: seq<Event>, later: seq<Event>, id: string)
    requires id in Run(decode, es).sessions
    ensures var s, t := Run(decode, es).sessions, Run(decode, es + later).sessions;
            && id in t
            && (s[id].controller != "" ==> t[id].controller != "")
            && (s[id].agent != "" ==> t[id].agent != "")
    decreases |later|
  {
    if later == [] {
      assert es + later == es;
    } else {
      var all, before, e := es + later, later[..|later| - 1], later[|later| - 1];
      assert all[..|all| - 1] == es + before;
      SessionsNeverForget(decode, es, before, id);
      ClientsAreNamed(decode, es + before);
      StepForgetsNothing(decode, Run(decode, es + before), e, id);
    }
  }

  /** Two runs of the relay whose readers brought the registry the same set of agreeing messages, in
      whatever order and however often, whatever else happened, store the same session. */
  lemma {:induction false} SessionsConverge(
    decode: Decoder, es: seq<Event>, fs: seq<Event>, id: string, host: string, viewer: string)
    requires host != "" && viewer != "" && S.AllAgree(SessionMessages(decode, es), id, host, viewer)
    requires forall m :: m in SessionMessages(decode, es) <==> m in SessionMessages(decode, fs)
    ensures id in Run(decode, es).sessions <==> id in Run(decode, fs).sessions
    ensures id in Run(decode, es).sessions ==> Run(decode, es).sessions[id] == Run(decode, fs).sessions[id]
  {
    SessionsFollowMessages(decode, es);
    SessionsFollowMessages(decode, fs);
    S.OrderAndRepetitionDoNotMatter(map[], SessionMessages(decode, es), SessionMessages(decode, fs), id, host, viewer);
  }
}
