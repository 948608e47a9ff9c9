/** The session registry of the relay: who hosts and who views each session, learned from register
    and connection_request messages that may arrive in any order, more than once, or not at all. */
module Sessions {
  import opened Options

  datatype Json = Str(s: string) | Other

  type Object = map<string, Json>

  datatype Envelope = Envelope(
    typ: string, sessionID: string, from: string, to: string, data: Option<Object>, payload: Option<Object>)

  /** The host is the controller, the viewer the agent; "" means not known yet. */
  datatype Session = Session(id: string, controller: string, agent: string)

  type Registry = map<string, Session>

  // ----- The handlers --------------------------------------------------------------------------------

  /** `s, _ := m[key].(string)` */
  function StringAt(m: Object, key: string): string {
    if key in m && m[key].Str? then m[key].s else ""
  }

  /** The object a register message describes itself in: the payload, else the data, else nothing. */
  function Details(env: Envelope): Object {
    if env.payload.Some? then env.payload.value
    else if env.data.Some? then env.data.value
    else map[]
  }

  function NamedSession(env: Envelope): string {
    var id := StringAt(Details(env), "sessionId");
    if id != "" then id else StringAt(Details(env), "session_id")
  }

  function Role(env: Envelope): string { StringAt(Details(env), "role") }

  function Peer(env: Envelope): string { StringAt(Details(env), "peerId") }

  function Register(reg: Registry, clientID: string, env: Envelope): Registry {
    var id, role, peer := NamedSession(env), Role(env), Peer(env);
    if id == "" then reg
    else if id in reg then
      var s := reg[id];
      if role == "host" then
        reg[id := s.(controller := clientID, agent := if peer != "" then peer else s.agent)]
      else if role == "viewer" then
        reg[id := s.(agent := clientID, controller := if peer != "" then peer else s.controller)]
      else reg[id := s]
    else
      if role == "host" then reg[id := Session(id, clientID, peer)]
      else if role == "viewer" then reg[id := Session(id, peer, clientID)]
      else reg[id := Session(id, "", "")]
  }

  function Request(reg: Registry, env: Envelope): Registry {
    if env.sessionID != "" && env.from != "" && env.to != "" then
      reg[env.sessionID := Session(env.sessionID, env.from, env.to)]
    else reg
  }

  /** A message that reaches the registry, with the connection's own ID where the handler uses it. */
  datatype Message = Registers(clientID: string, env: Envelope) | Requests(env: Envelope)

  function Handle(reg: Registry, m: Message): Registry {
    match m
    case Registers(clientID, env) => Register(reg, clientID, env)
    case Requests(env) => Request(reg, env)
  }

  function After(reg: Registry, ms: seq<Message>): Registry {
    if ms == [] then reg else Handle(After(reg, ms[..|ms| - 1]), ms[|ms| - 1])
  }

  // ----- What one message says about one session -------------------------------------------------------

  predicate Concerns(m: Message, id: string) {
    id != "" &&
    match m
    case Registers(_, env) => NamedSession(env) == id
    case Requests(env) => env.sessionID == id && env.from != "" && env.to != ""
  }

  predicate FillsController(m: Message, id: string) {
    Concerns(m, id) &&
    (m.Registers? ==> Role(m.env) == "host" || (Role(m.env) == "viewer" && Peer(m.env) != ""))
  }

  predicate FillsAgent(m: Message, id: string) {
    Concerns(m, id) &&
    (m.Registers? ==> Role(m.env) == "viewer" || (Role(m.env) == "host" && Peer(m.env) != ""))
  }

  /** The message names nobody but `host` as the host of session `id` and nobody but `viewer` as its viewer. */
  predicate Agrees(m: Message, id: string, host: string, viewer: string) {
    Concerns(m, id) ==>
      match m
      case Registers(clientID, env) =>
        && (Role(env) == "host" ==> clientID == host && Peer(env) in {"", viewer})
        && (Role(env) == "viewer" ==> clientID == viewer && Peer(env) in {"", host})
      case Requests(env) => env.from == host && env.to == viewer
  }

  ghost predicate AllAgree(ms: seq<Message>, id: string, host: string, viewer: string) {
    forall m :: m in ms ==> Agrees(m, id, host, viewer)
  }

  // ----- Order and repetition do not matter --------------------------------------------------------------

  /** Every key holds its own session, and for `id` nobody but the right two are recorded. */
  ghost predicate Clean(reg: Registry, id: string, host: string, viewer: string) {
    id in reg ==> reg[id].id == id && reg[id].controller in {"", host} && reg[id].agent in {"", viewer}
  }

  /** One agreeing message adds exactly what it says to the stored session. */
  lemma OneMessage(reg: Registry, m: Message, id: string, host: string, viewer: string)
    requires host != "" && viewer != "" && Clean(reg, id, host, viewer) && Agrees(m, id, host, viewer)
    ensures var r := Handle(reg, m);
            && Clean(r, id, host, viewer)
            && (id in r <==> id in reg || Concerns(m, id))
            && (id in r ==>
                  && (r[id].controller == host <==> (id in reg && reg[id].controller == host) || FillsController(m, id))
                  && (r[id].agent == viewer <==> (id in reg && reg[id].agent == viewer) || FillsAgent(m, id)))
  {
  }

  /** The stored session is the union of what the messages say, and nothing else. */
  lemma {:induction false} StoredSessionIsTheUnion(
    reg: Registry, ms: seq<Message>, id: string, host: string, viewer: string)
    requires host != "" && viewer != "" && Clean(reg, id, host, viewer) && AllAgree(ms, id, host, viewer)
    ensures var r := After(reg, ms);
            && (id in r <==> id in reg || exists m :: m in ms && Concerns(m, id))
            && (id in r ==>
                  && r[id].id == id && r[id].controller in {"", host} && r[id].agent in {"", viewer}
                  && (r[id].controller == host <==>
                        (id in reg && reg[id].controller == host) || exists m :: m in ms && FillsController(m, id))
                  && (r[id].agent == viewer <==>
                        (id in reg && reg[id].agent == viewer) || exists m :: m in ms && FillsAgent(m, id)))
  {
    if ms == [] {
    } else {
      var before, last := ms[..|ms| - 1], ms[|ms| - 1];
      assert ms == before + [last];
      assert forall m :: m in ms <==> m in before || m == last;
      assert last in ms && Agrees(last, id, host, viewer);
      StoredSessionIsTheUnion(reg, before, id, host, viewer);
      OneMessage(After(reg, before), last, id, host, viewer);
    }
  }

  /** Two runs that received the same set of messages store the same session. */
  lemma OrderAndRepetitionDoNotMatter(
    reg: Registry, ms: seq<Message>, ns: seq<Message>, id: string, host: string, viewer: string)
    requires host != "" && viewer != "" && Clean(reg, id, host, viewer) && AllAgree(ms, id, host, viewer)
    requires forall m :: m in ms <==> m in ns
    ensures id in After(reg, ms) <==> id in After(reg, ns)
    ensures id in After(reg, ms) ==> After(reg, ms)[id] == After(reg, ns)[id]
  {
    StoredSessionIsTheUnion(reg, ms, id, host, viewer);
    StoredSessionIsTheUnion(reg, ns, id, host, viewer);
  }

  // ----- When messages contradict each other ---------------------------------------------------------------

  /** Whom a message that fills the controller names, and the agent likewise. */
  function ControllerOf(m: Message): string {
    match m
    case Requests(env) => env.from
    case Registers(clientID, env) => if Role(env) == "host" then clientID else Peer(env)
  }

  function AgentOf(m: Message): string {
    match m
    case Requests(env) => env.to
    case Registers(clientID, env) => if Role(env) == "viewer" then clientID else Peer(env)
  }

  /** The last word on a field: what the latest message that fills it says, else what was there. */
  function LastController(ms: seq<Message>, id: string, start: string): string {
    if ms == [] then start
    else
      var m := ms[|ms| - 1];
      if FillsController(m, id) then ControllerOf(m) else LastController(ms[..|ms| - 1], id, start)
  }

  function LastAgent(ms: seq<Message>, id: string, start: string): string {
    if ms == [] then start
    else
      var m := ms[|ms| - 1];
      if FillsAgent(m, id) then AgentOf(m) else LastAgent(ms[..|ms| - 1], id, start)
  }

  lemma OneWord(reg: Registry, m: Message, id: string)
    ensures var before := if id in reg then reg[id] else Session(id, "", "");
            var r := Handle(reg, m);
            && (id in r <==> id in reg || Concerns(m, id))
            && (id in r ==>
                  && r[id].controller == (if FillsController(m, id) then ControllerOf(m) else before.controller)
                  && r[id].agent == (if FillsAgent(m, id) then AgentOf(m) else before.agent))
  {
  }

  /** For any messages, agreeing or not: each end of a stored session is what the last message that named
      it said, a peer named by the other side included. */
  lemma {:induction false} LastWordCounts(reg: Registry, ms: seq<Message>, id: string)
    ensures var start := if id in reg then reg[id] else Session(id, "", "");
            var r := After(reg, ms);
            && (id in r <==> id in reg || exists m :: m in ms && Concerns(m, id))
            && (id in r ==> r[id].controller == LastController(ms, id, start.controller))
            && (id in r ==> r[id].agent == LastAgent(ms, id, start.agent))
            && (id !in r ==> LastController(ms, id, start.controller) == LastAgent(ms, id, start.agent) == "")
  {
    if ms == [] {
    } else {
      var before, last := ms[..|ms| - 1], ms[|ms| - 1];
      LastWordCounts(reg, before, id);
      OneWord(After(reg, before), last, id);
      assert ms == before + [last];
    }
  }

  /** Where a register message is read: in the payload, or in the data if there is no payload; the session
      under either spelling, the first one first; anything but a string counts as absent. */
  lemma FieldsAreRead(env: Envelope, m: Object, id: string)
    requires env.payload == Some(m) || (env.payload == None && env.data == Some(m))
    requires id != ""
    ensures "sessionId" in m && m["sessionId"] == Str(id) ==> NamedSession(env) == id
    ensures ("sessionId" !in m || m["sessionId"] in {Str(""), Other}) && "session_id" in m && m["session_id"] == Str(id)
            ==> NamedSession(env) == id
    ensures "role" in m && m["role"] == Str(id) ==> Role(env) == id
    ensures "peerId" in m && m["peerId"] == Str(id) ==> Peer(env) == id
    ensures ("role" !in m || m["role"] == Other) ==> Role(env) == ""
    ensures ("peerId" !in m || m["peerId"] == Other) ==> Peer(env) == ""
  {
  }

  lemma OneMessageKeepsFields(reg: Registry, m: Message, id: string)
    requires id in reg && (m.Registers? ==> m.clientID != "")
    ensures id in Handle(reg, m)
    ensures reg[id].controller != "" ==> Handle(reg, m)[id].controller != ""
    ensures reg[id].agent != "" ==> Handle(reg, m)[id].agent != ""
  {
  }

  /** Whatever the messages say, even contradictory ones, a session once stored stays, and a field
      once filled is never emptied. */
  lemma {:induction false} FilledFieldsStayFilled(reg: Registry, ms: seq<Message>, id: string)
    requires id in reg && forall m :: m in ms && m.Registers? ==> m.clientID != ""
    ensures id in After(reg, ms)
    ensures reg[id].controller != "" ==> After(reg, ms)[id].controller != ""
    ensures reg[id].agent != "" ==> After(reg, ms)[id].agent != ""
  {
    if ms == [] {
    } else {
      var before, last := ms[..|ms| - 1], ms[|ms| - 1];
      assert ms == before + [last];
      FilledFieldsStayFilled(reg, before, id);
      OneMessageKeepsFields(After(reg, before), last, id);
    }
  }
}
