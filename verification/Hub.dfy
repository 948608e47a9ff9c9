/** The presence hub: for every user the set of open connections, as a map of sets that keeps no
    empty inner set. */
module Hub {

  type Connections = map<string, set<nat>>

  predicate Has(h: Connections, user: string, c: nat) {
    user in h && c in h[user]
  }

  predicate NoEmptyEntry(h: Connections) {
    forall u :: u in h ==> h[u] != {}
  }

  function Register(h: Connections, user: string, c: nat): Connections {
    var conns := if user in h then h[user] else {};
    h[user := conns + {c}]
  }

  function Unregister(h: Connections, user: string, c: nat): Connections {
    if user !in h then h
    else if h[user] - {c} == {} then h - {user}
    else h[user := h[user] - {c}]
  }

  function HasConnections(h: Connections, user: string): bool {
    user in h && |h[user]| > 0
  }

  /** The map of sets behaves as one set of (user, connection) pairs. */
  lemma RefinesPairs(h: Connections, user: string, c: nat)
    requires NoEmptyEntry(h)
    ensures NoEmptyEntry(Register(h, user, c)) && NoEmptyEntry(Unregister(h, user, c))
    ensures forall u, d :: Has(Register(h, user, c), u, d) <==> Has(h, u, d) || (u == user && d == c)
    ensures forall u, d :: Has(Unregister(h, user, c), u, d) <==> Has(h, u, d) && !(u == user && d == c)
  {
    if user in h {
      assert forall d :: d in h[user] ==> d in h[user] - {c} || d == c;
    }
  }

  /** `HasConnections` answers whether the user has a pair, and no entry outlives its last pair. */
  lemma HasConnectionsIsExact(h: Connections, user: string)
    requires NoEmptyEntry(h)
    ensures HasConnections(h, user) <==> exists c :: Has(h, user, c)
    ensures HasConnections(h, user) <==> user in h
  {
    if user in h {
      var c :| c in h[user];
      assert Has(h, user, c);
    }
  }
}
