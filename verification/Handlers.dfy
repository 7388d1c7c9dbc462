/**
 The server's use of the registry (`cmd/jiejie-masque/main.go`): the part of the request handler
 that registers a session, and the shutdown loop. The methods work on the objects of
 SessionManager; Machine has their interleavings.
 */
module Handlers {
  import opened Common
  import opened Config
  import opened Registry
  import opened Admission
  import opened ClientIndex
  import opened SessionManager

  /** The manager is in order, and no registered session has begun its Close. */
  ghost predicate Healthy(mgr: Manager)
    reads mgr`sessions4, mgr`sessions6, mgr`live, mgr.live
  {
    && mgr.Valid() && mgr.Attached()
    && (forall x :: x in mgr.live ==> !x.closed && !x.removed)
  }

  /**
   A request as the handler sees it: whether its protocol is CONNECT-IP, how many client certificates came
   with it and the key of the first, and what the library's calls answer along the way.
   */
  datatype Request = Request(
    protocolKnown: bool,
    certificates: nat,
    key: string,
    authorityValid: bool,
    parses: bool,
    connection: Option<ConnId>,
    addressesSent: bool,
    routesSent: bool)

  const NOT_IMPLEMENTED := 501
  const UNAUTHORIZED := 401
  const BAD_REQUEST := 400

  datatype Outcome =
    | Rejected(status: nat)
    | NoTunnel
    | Disconnected(conn: ConnId)         // the connection was closed before there was a session
    | ConstructionPanics
    | Conflict(session: Session)
    | Established(session: Session, evicted: seq<Session>)

  /** Registers a new session, or closes it when it is refused. */
  method RegisterOrClose(mgr: Manager, s: Session) returns (r: Result<seq<Session>, ReplaceError>)
    requires Healthy(mgr) && s.conn.Some? && s.manager == null && !s.closed && !s.removed && s !in mgr.live
    modifies mgr, mgr.live, s
    ensures Healthy(mgr)
    ensures r.Err? ==>
              && mgr.State() == old(mgr.State()) && s.closed
              && Verdict(old(mgr.Entries()), s, Describe, mgr.maxSessions).Err?
    ensures r.Ok? ==>
              && s.manager == mgr && s.generation == mgr.nextGeneration
              && (forall x :: x in r.value <==> x in old(mgr.live) && x.desc.identity == s.desc.identity)
              && mgr.live == old(mgr.live) - (set x | x in r.value) + {s}
              && |r.value| <= 1
  {
    ghost var rivals := mgr.Rivals(s);
    r := mgr.Replace(s);
    if r.Err? {
      s.Close();
    } else {
      assert forall x :: x in r.value <==> x in rivals;
      assert forall x :: x in mgr.live ==> x == s || (x in old(mgr.live) && x !in rivals);
    }
  }

  /** The checks and calls of the handler before there is a session. */
  method SetUp(byKey: map<string, ResolvedClient>, q: Request) returns (r: Result<ResolvedClient, Outcome>)
    ensures var accepted := q.protocolKnown && q.certificates == 1 && q.key in byKey && q.authorityValid && q.parses;
            && (r.Ok? <==> accepted && q.connection.Some? && q.addressesSent && q.routesSent)
            && (r.Err? && r.error.Rejected? <==> !accepted)
            && (r.Err? && accepted ==>
                  r.error == if q.connection.None? then NoTunnel else Disconnected(q.connection.value))
    ensures r.Ok? ==> r.value == byKey[q.key]
    ensures r.Err? && r.error.Rejected? ==>
              r.error.status == if !q.protocolKnown then 501
                                else if q.certificates != 1 || q.key !in byKey then 401
                                else 400
  {
    if !q.protocolKnown { return Err(Rejected(NOT_IMPLEMENTED)); }
    if q.certificates != 1 { return Err(Rejected(UNAUTHORIZED)); }
    if q.key !in byKey { return Err(Rejected(UNAUTHORIZED)); }
    if !q.authorityValid { return Err(Rejected(BAD_REQUEST)); }
    if !q.parses { return Err(Rejected(BAD_REQUEST)); }
    if q.connection.None? { return Err(NoTunnel); }
    if !q.addressesSent { return Err(Disconnected(q.connection.value)); }
    if !q.routesSent { return Err(Disconnected(q.connection.value)); }
    return Ok(byKey[q.key]);
  }

  /**
   From a request to a registered session. The session takes the place of the client's previous session,
   if there is one, and of no other; a refused session is closed.
   */
  method HandleRequest(mgr: Manager, byKey: map<string, ResolvedClient>, q: Request) returns (r: Outcome)
    requires Healthy(mgr)
    modifies mgr, mgr.live
    ensures Healthy(mgr)
    ensures !r.Established? ==> mgr.State() == old(mgr.State())
    ensures var accepted := q.protocolKnown && q.certificates == 1 && q.key in byKey && q.authorityValid && q.parses;
            var connected := accepted && q.connection.Some? && q.addressesSent && q.routesSent;
            && (r.Rejected? <==> !accepted)
            && (r.NoTunnel? <==> accepted && q.connection.None?)
            && (r.Disconnected? <==> accepted && q.connection.Some? && !connected)
            && (r.ConstructionPanics? <==> connected && !DescOf(byKey[q.key]).Valid())
            && (r.Conflict? || r.Established? ==> connected)
    ensures r.Rejected? ==>
              r.status == if !q.protocolKnown then 501 else if q.certificates != 1 || q.key !in byKey then 401 else 400
    ensures r.Disconnected? ==> r.conn == q.connection.value
    ensures r.Conflict? ==>
              && fresh(r.session) && r.session.closed && r.session.desc == DescOf(byKey[q.key])
              && Verdict(old(mgr.Entries()), r.session, Describe, mgr.maxSessions).Err?
    ensures r.Established? ==>
              && fresh(r.session) && r.session.desc == DescOf(byKey[q.key]) && r.session.conn == q.connection
              && r.session.manager == mgr && r.session.generation == mgr.nextGeneration
              && mgr.live == old(mgr.live) - (set x | x in r.evicted) + {r.session}
              && (forall x :: x in r.evicted <==> x in old(mgr.live) && x.desc.identity == r.session.desc.identity)
              && |r.evicted| <= 1
  {
    var client := SetUp(byKey, q);
    if client.Err? { return client.error; }
    var ips := Addresses(client.value.Tunnel());
    var built := NewWithAddresses(ips, client.value.publicKey, q.connection);
    if built.Err? { return ConstructionPanics; }
    var s := built.value;
    var evicted := RegisterOrClose(mgr, s);
    return if evicted.Err? then Conflict(s) else Established(s, evicted.value);
  }

  /** The index of a client list, and a manager with room for it, whose live sessions are all its clients'. */
  ghost predicate ServesClients(
      mgr: Manager, byKey: map<string, ResolvedClient>, server: TunnelAddresses, clients: seq<ResolvedClient>)
    reads mgr`live
  {
    && Good(server, clients) && Indexes(byKey, clients)
    && mgr.maxSessions == |clients| && AllFrom(mgr.live, Describe, clients)
  }

  /** A server at its start. */
  datatype Running = Running(
    addresses: TunnelAddresses, clients: seq<ResolvedClient>, byKey: map<string, ResolvedClient>, mgr: Manager)

  /** Starting with an accepted configuration gives the index and the empty manager that serve its clients. */
  method Start(c: Config, validKey: string -> bool) returns (r: Result<Running, Error>)
    ensures r.Ok? <==> Resolved(c, validKey).Ok?
    ensures r.Err? ==> r.error == Resolved(c, validKey).error
    ensures r.Ok? ==>
              && Ok(r.value.addresses) == ServerAddresses(c.server) && Ok(r.value.clients) == Resolved(c, validKey)
              && fresh(r.value.mgr) && Healthy(r.value.mgr) && r.value.mgr.live == {}
              && ServesClients(r.value.mgr, r.value.byKey, r.value.addresses, r.value.clients)
  {
    AcceptedExactly(c, validKey);
    var addresses := ServerAddresses(c.server);
    if addresses.Err? { return Err(addresses.error); }
    var clients := ResolvedClients(c, validKey);
    if clients.Err? { return Err(clients.error); }
    var byKey := BuildIndex(clients.value);
    var mgr := new Manager(|clients.value|);
    return Ok(Running(addresses.value, clients.value, byKey, mgr));
  }

  lemma IndexedClient(
      byKey: map<string, ResolvedClient>, server: TunnelAddresses, clients: seq<ResolvedClient>, key: string)
    requires Good(server, clients) && Indexes(byKey, clients)
    ensures key in byKey <==> exists k :: 0 <= k < |clients| && clients[k].publicKey == key
    ensures key in byKey ==>
              byKey[key].publicKey == key && DescOf(byKey[key]) in Descs(clients) && DescOf(byKey[key]).Valid()
  {
    NoneWithoutTheKey(clients, key);
    assert key in byKey <==> LastWith(clients, key).Some?;
    if k :| 0 <= k < |clients| && clients[k].publicKey == key {
      LastIsTheClient(clients, k);
      ClientsMakeSessions(server, clients[k]);
    }
  }

  /** For the clients of a configuration the handler always builds a session and registers it. */
  method HandleClient(mgr: Manager, byKey: map<string, ResolvedClient>, q: Request,
                      ghost server: TunnelAddresses, ghost clients: seq<ResolvedClient>) returns (r: Outcome)
    requires Healthy(mgr) && ServesClients(mgr, byKey, server, clients)
    modifies mgr, mgr.live
    ensures Healthy(mgr) && ServesClients(mgr, byKey, server, clients)
    ensures r.Established? <==>
              && q.protocolKnown && q.certificates == 1 && q.authorityValid && q.parses
              && q.connection.Some? && q.addressesSent && q.routesSent
              && exists k :: 0 <= k < |clients| && clients[k].publicKey == q.key
    ensures q.key in byKey <==> exists k :: 0 <= k < |clients| && clients[k].publicKey == q.key
    ensures !r.Established? ==> (r.Rejected? || r.NoTunnel? || r.Disconnected?) && mgr.State() == old(mgr.State())
    ensures r.Established? ==> r.session in mgr.live && r.session.desc.identity == q.key
  {
    ghost var t, live := mgr.Entries(), mgr.live;
    IndexedClient(byKey, server, clients, q.key);
    r := HandleRequest(mgr, byKey, q);
    if r.Conflict? {
      ReplaceSucceeds(clients, t, live, Describe, r.session);
      assert false;
    }
  }

  /** The shutdown loop leaves the registry empty and every session of it closed. */
  method CloseSessions(mgr: Manager)
    requires Healthy(mgr)
    modifies mgr, mgr.live
    ensures mgr.live == {} && mgr.Entries() == Tables(map[], map[])
    ensures forall x :: x in old(mgr.live) ==> x.closed && x.cancelled && x.connClosed
  {
    var sessions := mgr.Snapshot();
    for i := 0 to |sessions|
      invariant Healthy(mgr)
      invariant mgr.live == set x | x in sessions[i..]
      invariant forall x :: x in sessions[..i] ==> x.closed && x.cancelled && x.connClosed
    {
      sessions[i].Close();
    }
    NoSessionsNoEntries(mgr.Entries(), mgr.live, Describe);
  }

  /**
   Registering is only right before closing: a session that is closed after its registration stays
   registered exactly if it had been closed, or taken out of a registry, before.
   */
  method RegisterThenClose(mgr: Manager, s: Session) returns (r: Result<seq<Session>, ReplaceError>)
    requires mgr.Valid() && mgr.Attached() && s.conn.Some?
    modifies mgr, s, mgr.live
    ensures mgr.Valid()
    ensures r.Ok? ==> (s in mgr.live <==> old(s.closed) || old(s.removed))
  {
    r := mgr.Replace(s);
    if r.Ok? { s.Close(); }
  }
}
