/** The relay's handlers as they run: registries updated in place, frames offered to channels, the
    session record copied and changed field by field. Each is proved to be its step of `Relay`. */
module Router {
  import opened Options
  import opened VideoEnvelope
  import opened Outboxes
  import opened Relay
  import H = Hub
  import S = Sessions

  /** A connected client. The registry and the connection's reader and writer share the object; `num`
      stands for the connection itself. */
  class Client {
    const num: nat
    const id: string
    const user: string  // the authenticated user or ""
    var open: bool
    var box: Outbox

    constructor (num: nat, id: string, user: string)
      ensures this.num == num && this.id == id && this.user == user && open && box == EMPTY
    {
      this.num, this.id, this.user, open, box := num, id, user, true, EMPTY;
    }

    /** The non-blocking send on the client's channel. */
    method Send(msg: Message)
      modifies this`box
      ensures box == Offer(old(box), msg)
      ensures box.queue == if |old(box.queue)| < CAPACITY then old(box.queue) + [msg] else old(box.queue)
    {
      box := box.(offered := box.offered + [msg]);
      if |box.queue| < CAPACITY {
        box := box.(queue := box.queue + [msg]);
      } else {
        box := box.(dropped := box.dropped + [msg]);
      }
    }
  }

  class Router {
    var registry: map<string, Client>
    var hub: H.Connections
    var sessions: S.Registry
    ghost var accepted: map<nat, Client>  // every client ever accepted, by its connection
    ghost var objects: set<Client>  // the same clients

    /** Each client is known under its own connection, and only such clients are registered. */
    ghost predicate Valid()
      reads this`accepted, this`objects, this`registry
    {
      && (forall c :: c in accepted ==> accepted[c] in objects && accepted[c].num == c)
      && (forall id :: id in registry ==> Known(registry[id]))
    }

    ghost predicate Known(client: Client)
      reads this`accepted
    {
      client.num in accepted && accepted[client.num] == client
    }

    ghost function Clients(): map<nat, Relay.Client>
      requires Valid()
      reads this`accepted, this`objects, this`registry, objects
    {
      map c | c in accepted :: Relay.Client(accepted[c].id, accepted[c].user, accepted[c].open)
    }

    ghost function Outboxes(): map<nat, Outbox>
      requires Valid()
      reads this`accepted, this`objects, this`registry, objects
    {
      map c | c in accepted :: accepted[c].box
    }

    ghost function Entries(): map<string, nat>
      reads this`registry
    {
      map id | id in registry :: registry[id].num
    }

    /** The state of the machine. */
    ghost function Current(): State
      requires Valid()
      reads this, objects
    {
      State(Clients(), Outboxes(), Entries(), hub, sessions)
    }

    constructor ()
      ensures Valid() && Current() == INIT && accepted == map[] && objects == {}
    {
      registry, hub, sessions := map[], map[], map[];
      accepted, objects := map[], {};
    }

    /** The handshake on a new connection; no client stands for the 400 answer. */
    method HandleWS(num: nat, clientQuery: string, userQuery: string, authUser: string) returns (client: Client?)
      requires Valid() && num !in accepted
      modifies this
      ensures Valid()
      ensures Current() == Accept(old(Current()), num, ClientID(clientQuery, userQuery, authUser), authUser)
      ensures client == null <==> clientQuery == "" && userQuery == "" && authUser == ""
      ensures client == null ==> accepted == old(accepted) && objects == old(objects)
      ensures client != null ==>
                && fresh(client) && client.open
                && objects == old(objects) + {client} && accepted == old(accepted)[num := client]
                && registry == old(registry)[ClientID(clientQuery, userQuery, authUser) := client]
    {
      var clientID := clientQuery;
      if clientID == "" {
        clientID := userQuery;
      }
      if clientID == "" && authUser != "" {
        clientID := authUser;
      }
      if clientID == "" {
        return null;
      }
      client := Add(num, clientID, authUser);
      if authUser != "" {
        hub := H.Register(hub, authUser, num);
      }
    }

    /** Creates the client and adds it to the registry. */
    method Add(num: nat, id: string, user: string) returns (client: Client)
      requires Valid() && num !in accepted
      modifies this`registry, this`accepted, this`objects
      ensures Valid() && fresh(client) && client.open
      ensures objects == old(objects) + {client} && accepted == old(accepted)[num := client]
      ensures registry == old(registry)[id := client] && Entries() == old(Entries())[id := num]
      ensures Clients() == old(Clients())[num := Relay.Client(id, user, true)]
      ensures Outboxes() == old(Outboxes())[num := EMPTY]
    {
      client := new Client(num, id, user);
      registry, accepted, objects := registry[id := client], accepted[num := client], objects + {client};
    }

    /** The deferred function of the read loop. */
    method CloseReader(client: Client)
      requires Valid() && Known(client) && client.open
      modifies this`registry, this`hub, client`open
      ensures Valid() && Current() == Close(old(Current()), client.num)
      ensures !client.open && client.id !in registry && registry == old(registry) - {client.id}
    {
      Remove(client);
      if client.user != "" {
        hub := H.Unregister(hub, client.user, client.num);
      }
    }

    /** Removes whatever stands under the client's ID and closes its channel. */
    method Remove(client: Client)
      requires Valid() && Known(client)
      modifies this`registry, client`open
      ensures Valid() && !client.open
      ensures registry == old(registry) - {client.id} && Entries() == old(Entries()) - {client.id}
      ensures Clients() == old(Clients())[client.num := Relay.Client(client.id, client.user, false)]
      ensures Outboxes() == old(Outboxes())
    {
      registry := registry - {client.id};
      client.open := false;
    }

    method ForwardTo(clientID: string, msg: Message)
      requires Valid()
      modifies objects
      ensures Current() == Forward(old(Current()), clientID, msg)
      ensures clientID in registry ==> registry[clientID].box == Offer(old(registry[clientID].box), msg)
    {
      if clientID !in registry {
        return;
      }
      var target := registry[clientID];
      assert Known(target);
      target.Send(msg);
      assert Outboxes() == old(Outboxes())[target.num := target.box];
      assert Clients() == old(Clients());
    }

    method HandleRegister(clientID: string, env: S.Envelope)
      modifies this`sessions
      ensures sessions == S.Register(old(sessions), clientID, env)
      ensures var id := S.NamedSession(env);
              if id == "" then sessions == old(sessions)
              else
                && id in sessions && sessions - {id} == old(sessions) - {id}
                && (S.Role(env) == "host" ==> sessions[id].controller == clientID)
                && (S.Role(env) == "viewer" ==> sessions[id].agent == clientID)
                && (S.Role(env) == "host" && S.Peer(env) != "" ==> sessions[id].agent == S.Peer(env))
                && (S.Role(env) == "viewer" && S.Peer(env) != "" ==> sessions[id].controller == S.Peer(env))
    {
      var payload := env.payload;
      if payload == None && env.data != None {
        payload := env.data;
      }
      if payload == None {
        return;
      }
      var sessionID := S.StringAt(payload.value, "sessionId");
      if sessionID == "" {
        sessionID := S.StringAt(payload.value, "session_id");
      }
      if sessionID == "" {
        return;
      }
      var role, peerID := S.StringAt(payload.value, "role"), S.StringAt(payload.value, "peerId");
      if sessionID in sessions {
        var s := sessions[sessionID];
        if role == "host" {
          s := s.(controller := clientID);
          if peerID != "" {
            s := s.(agent := peerID);
          }
        } else if role == "viewer" {
          s := s.(agent := clientID);
          if peerID != "" {
            s := s.(controller := peerID);
          }
        }
        sessions := sessions[sessionID := s];
        return;
      }
      var s := S.Session(sessionID, "", "");
      if role == "host" {
        s := s.(controller := clientID, agent := peerID);
      } else if role == "viewer" {
        s := s.(agent := clientID, controller := peerID);
      }
      sessions := sessions[sessionID := s];
    }

    method HandleConnectionRequest(raw: Frame, env: S.Envelope)
      requires Valid()
      modifies this`sessions, objects
      ensures Valid()
      ensures var s := old(Current());
              Current() == Forward(s.(sessions := S.Request(s.sessions, env)), env.to, Message(Text, raw))
    {
      if env.sessionID != "" && env.from != "" && env.to != "" {
        sessions := sessions[env.sessionID := S.Session(env.sessionID, env.from, env.to)];
      }
      ForwardTo(env.to, Message(Text, raw));
    }

    method HandleEnvelope(client: Client, raw: Frame, env: S.Envelope)
      requires Valid() && Known(client)
      modifies this`sessions, objects
      ensures Valid()
      ensures client.num in old(Current()).clients
      ensures Current() == OnEnvelope(old(Current()), client.num, raw, env)
    {
      if env.typ == "register" {
        HandleRegister(client.id, env);
        } else if env.typ == "connection_request" {
        HandleConnectionRequest(raw, env);
      } else if env.typ == "connection_accept" || env.typ == "connection_reject" {
        ForwardTo(env.to, Message(Text, raw));
      } else if env.typ == "session_message" {
        if env.data == None {
          return;
        }
        var to := S.StringAt(env.data.value, "toUserId");
        if to == "" {
          return;
        }
        ForwardTo(to, Message(Text, raw));
      }
    }

    /** One frame out of the read loop. */
    method ReadFrame(decode: Decoder, client: Client, kind: Kind, bytes: Frame)
      requires Valid() && Known(client) && client.open
      modifies this, objects
      ensures Valid() && accepted == old(accepted) && objects == old(objects)
      ensures Current() == OnFrame(decode, old(Current()), client.num, kind, bytes)
    {
      if kind == Binary {
        var target := ParseTarget(bytes);
        match target
        case Ignored =>
        case To(id) => ForwardTo(AsString(id), Message(Binary, bytes));
        case OutOfRange => CloseReader(client);
      } else {
        var env := decode(bytes);
        if env.Some? {
          HandleEnvelope(client, bytes, env.value);
        }
      }
    }

    /** One turn of the write loop: the kind is read off the frame itself. */
    method WriteNext(client: Client, ok: bool) returns (kind: Kind)
      requires Valid() && Known(client) && client.box.writing && client.box.queue != []
      modifies client`box
      ensures Valid()
      ensures Current() == Step((m: Frame) => None, old(Current()), WriterPop(client.num, ok))
      ensures client.box.queue == old(client.box.queue)[1..]
      ensures old(Sound(client.box)) ==> kind == old(client.box.queue[0].kind)
    {
      var b := client.box;
      var msg := b.queue[0];
      ghost var n := |b.written + b.failed|;
      assert Accepted(b)[n] == msg;
      if Sound(b) {
        SentKindIsReceivedKind(b, n);
      }
      kind := Text;
      if |msg.bytes| >= 2 && msg.bytes[0] == 0xB1 && msg.bytes[1] == 0x4D {
        kind := Binary;
      }
      client.box := client.box.(queue := client.box.queue[1..]);
      if ok {
        client.box := client.box.(written := client.box.written + [msg]);
      } else {
        client.box := client.box.(failed := client.box.failed + [msg], writing := false);
      }
      assert Outboxes() == old(Outboxes())[client.num := client.box];
      assert Clients() == old(Clients());
    }
  }
}
