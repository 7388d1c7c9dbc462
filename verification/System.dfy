/**
 The whole server: a machine whose handlers build sessions from the clients of a resolved
 configuration, whose registry holds as many sessions as there are clients, and whose data
 path parses packets and tests them against the server's networks.
 */
module System {
  import opened Common
  import opened NetAddr
  import opened Config
  import opened Packet
  import opened Forwarding
  import opened Registry
  import opened Admission
  import opened Isolation
  import opened Machine
  import opened MachineInvariants
  import opened MachineRuns
  import opened MachineProgress
  import opened MachineScenarios

  /** The server started with a resolved client list. */
  function Serving(server: TunnelAddresses, clients: seq<ResolvedClient>): Env {
    Env(Descs(clients),
        |clients|,
        Destination,
        (x: Transfer) => PrepareSessionPacket(x.data, x.session.desc.ips, false, server))
  }

  /** A configuration that the server accepts, with what it starts from. */
  ghost predicate Starts(c: Config, validKey: string -> bool, server: TunnelAddresses, clients: seq<ResolvedClient>) {
    ServerAddresses(c.server) == Ok(server) && Resolved(c, validKey) == Ok(clients)
  }

  lemma StartsGood(c: Config, validKey: string -> bool, server: TunnelAddresses, clients: seq<ResolvedClient>)
    requires Starts(c, validKey, server, clients)
    ensures Good(server, clients)
  {
    AcceptedExactly(c, validKey);
  }

  lemma ReplaceSucceedsIn(server: TunnelAddresses, clients: seq<ResolvedClient>, w: World, t: Thread)
    requires PairwiseDistinct(clients) && Inv(Serving(server, clients), w)
    ensures t in w.pc && w.pc[t].InReplace? ==> Verdict(w.reg.tables, w.pc[t].s, Describe, |clients|).Ok?
  {
    if t in w.pc && w.pc[t].InReplace? {
      ReplacedIsNew(Serving(server, clients), w, t);
      ReplaceSucceeds(clients, w.reg.tables, w.reg.live, Describe, w.pc[t].s);
    }
  }

  /** Every Replace that is under way will pass its checks. */
  ghost predicate ChecksPass(w: World, maxSessions: int) {
    forall t :: t in w.pc && w.pc[t].InReplace? ==> Verdict(w.reg.tables, w.pc[t].s, Describe, maxSessions).Ok?
  }

  lemma ChecksPassIn(server: TunnelAddresses, clients: seq<ResolvedClient>, ws: seq<World>, acts: seq<Action>, i: nat)
    requires PairwiseDistinct(clients) && Run(Serving(server, clients), ws, acts) && i <= |acts|
    ensures ChecksPass(ws[i], |clients|)
  {
    RunInv(Serving(server, clients), ws, acts, i);
    forall t | t in ws[i].pc && ws[i].pc[t].InReplace?
      ensures Verdict(ws[i].reg.tables, ws[i].pc[t].s, Describe, |clients|).Ok?
    {
      ReplaceSucceedsIn(server, clients, ws[i], t);
    }
  }

  lemma RefusedStep(env: Env, w: World, a: Action)
    requires Enabled(env, w, a) && ChecksPass(w, env.maxSessions)
    ensures Apply(env, w, a).lives.refused == w.lives.refused
  {
  }

  lemma RefusedStepIn(env: Env, ws: seq<World>, acts: seq<Action>, i: nat)
    requires Run(env, ws, acts) && i < |acts| && ChecksPass(ws[i], env.maxSessions)
    ensures ws[i + 1].lives.refused == ws[i].lives.refused
  {
    assert StepAt(env, ws, acts, i);
    RefusedStep(env, ws[i], acts[i]);
  }

  /**
   For every accepted configuration and every run of the server started with it, Replace refuses no
   session: neither because an address is taken nor for lack of room.
   */
  lemma {:induction false} NoClientIsRefused(
      c: Config, validKey: string -> bool, server: TunnelAddresses, clients: seq<ResolvedClient>,
      ws: seq<World>, acts: seq<Action>, i: nat)
    requires Starts(c, validKey, server, clients) && Run(Serving(server, clients), ws, acts) && i <= |acts|
    ensures ws[i].lives.refused == {}
    ensures ChecksPass(ws[i], |clients|)
    decreases i
  {
    StartsGood(c, validKey, server, clients);
    ChecksPassIn(server, clients, ws, acts, i);
    if i > 0 {
      NoClientIsRefused(c, validKey, server, clients, ws, acts, i - 1);
      RefusedStepIn(Serving(server, clients), ws, acts, i - 1);
    }
  }

  /** A server started with a client list never has more sessions registered than clients. */
  lemma NoMoreSessionsThanClients(
      c: Config, validKey: string -> bool, server: TunnelAddresses, clients: seq<ResolvedClient>,
      ws: seq<World>, acts: seq<Action>, i: nat)
    requires Starts(c, validKey, server, clients) && Run(Serving(server, clients), ws, acts) && i <= |acts|
    ensures |Live(ws[i].reg.tables)| <= |clients|
  {
    AcceptedExactly(c, validKey);
    LimitIsKept(Serving(server, clients), ws, acts, i);
  }

  /** There is always another session object. */
  lemma {:induction false} IdsAreBounded(created: set<Session>) returns (n: nat)
    ensures forall s :: s in created ==> s.id < n
    decreases |created|
  {
    if created == {} { return 0; }
    var s :| s in created;
    n := IdsAreBounded(created - {s});
    n := if s.id < n then n else s.id + 1;
  }

  /**
   For every accepted configuration, in every world of every run every client can still connect: without a
   new call starting, the calls in progress can return, and then a new session of the client can be registered.
   */
  lemma EveryClientCanConnect(
      c: Config, validKey: string -> bool, server: TunnelAddresses, clients: seq<ResolvedClient>,
      ws: seq<World>, acts: seq<Action>, i: nat, k: nat)
    requires Starts(c, validKey, server, clients) && Run(Serving(server, clients), ws, acts) && i <= |acts|
    requires k < |clients|
    ensures exists returning, idle, s: Session, w' ::
              && Leads(Serving(server, clients), ws[i], returning, idle) && Quiet(returning) && idle.pc == map[]
              && Leads(Serving(server, clients), idle, Connecting(0, s), w')
              && s !in ws[i].lives.created && s.desc == DescOf(clients[k]) && s in w'.reg.live
  {
    StartsGood(c, validKey, server, clients);
    RunInv(Serving(server, clients), ws, acts, i);
    var env := Serving(server, clients);
    var returning, idle := Drains(env, ws[i]);
    LockFreeWhenIdle(idle);
    var n := IdsAreBounded(idle.lives.created);
    var s := Session(n, DescOf(clients[k]));
    ClientsMakeSessions(server, clients[k]);
    ReplaceSucceeds(clients, idle.reg.tables, idle.reg.live, Describe, s);
    LeadsToItself(env, idle);
    var w' := Connects(env, idle, [], idle, 0, s, Verdict(idle.reg.tables, s, Describe, |clients|).value);
    assert [] + Connecting(0, s) == Connecting(0, s);
  }

  // ---- packets reach and come from their owners only ----

  /**
   Every packet passed to a session's WritePacket is addressed to an address configured for that
   session's client alone, whatever happened to the session between the lookup and the write; and the
   session was the one registered at that address at some earlier moment.
   */
  lemma DeliveredToItsOwner(c: Config, validKey: string -> bool, server: TunnelAddresses, clients: seq<ResolvedClient>,
                            ws: seq<World>, acts: seq<Action>, i: nat, x: Transfer)
    requires Starts(c, validKey, server, clients) && Run(Serving(server, clients), ws, acts) && i <= |acts|
    requires x in ws[i].log.delivered
    ensures Destination(x.data).Some? && OwnedBy(clients, Destination(x.data).value, x.session.desc.identity)
    ensures exists k :: 0 <= k < i && Lookup(ws[k].reg.tables, Destination(x.data).value) == Some(x.session)
  {
    var env := Serving(server, clients);
    StartsGood(c, validKey, server, clients);
    RunInv(env, ws, acts, i);
    assert env.AddressedTo(x) && x.session.desc in env.descs;
    DescOwns(clients, x.session.desc, Destination(x.data).value);
    var k := WritesFollowLookups(env, ws, acts, i, x);
  }

  /** No session is found for a packet whose destination is an IPv4-mapped IPv6 address. */
  lemma MappedDestinationsReachNoOne(env: Env, ws: seq<World>, acts: seq<Action>, i: nat, ip: Addr)
    requires Run(env, ws, acts) && i <= |acts| && ip.Is4In6()
    ensures Lookup(ws[i].reg.tables, ip) == None
  {
    RunInv(env, ws, acts, i);
    var o := Lookup(ws[i].reg.tables, ip);
    if o.Some? {
      RegistryMeaning(ws[i].reg, ip, o.value);
      OwnedAddressesArePlain(ws[i].reg, o.value, ip);
    }
  }

  lemma OwnedAddressesArePlain(reg: Registered, x: Session, ip: Addr)
    requires Represents(reg.tables, reg.live, Describe) && x in reg.live && ip in x.desc.ips
    ensures !ip.Is4In6()
  {
    assert Describe(x).Valid();
  }

  /**
   Every packet a session reader writes to the tunnel has a source configured for the session's
   client alone, and a destination that is neither a client's address nor the server's own.
   */
  lemma ForwardedFromItsOwner(c: Config, validKey: string -> bool,
                              server: TunnelAddresses, clients: seq<ResolvedClient>,
                              ws: seq<World>, acts: seq<Action>, i: nat, x: Transfer)
    requires Starts(c, validKey, server, clients) && Run(Serving(server, clients), ws, acts) && i <= |acts|
    requires x in ws[i].log.forwarded
    ensures Source(x.data).Some? && OwnedBy(clients, Source(x.data).value, x.session.desc.identity)
    ensures Destination(x.data).Some? && Destination(x.data).value !in server.Addresses()
    ensures forall k :: 0 <= k < |clients| ==> Destination(x.data).value !in clients[k].Addresses()
  {
    var env := Serving(server, clients);
    StartsGood(c, validKey, server, clients);
    RunInv(env, ws, acts, i);
    assert env.mayEnterTunnel(x) && x.session.desc in env.descs;
    PassedPacketIsOwn(server, clients, x.session.desc, x.data);
  }

  /**
   The test lets every own packet through: for every accepted configuration, client and packet from any of the
   client's addresses to outside the server's networks, there is a run that writes the packet to the tunnel.
   */
  lemma OwnPacketsEnter(c: Config, validKey: string -> bool, server: TunnelAddresses, clients: seq<ResolvedClient>,
                        k: nat, data: Bytes)
    requires Starts(c, validKey, server, clients) && k < |clients|
    requires ParseOf(data).Some? && ParseOf(data).value.source in clients[k].Addresses()
    requires !(server.ipv4.IsValid() && Contains(server.ipv4, ParseOf(data).value.destination))
    requires !(server.ipv6.IsValid() && Contains(server.ipv6, ParseOf(data).value.destination))
    ensures exists w, x: Transfer :: && Reaches(Serving(server, clients), w) && x in w.log.forwarded
                                     && x.data == data && x.session.desc == DescOf(clients[k])
  {
    StartsGood(c, validKey, server, clients);
    ClientsMakeSessions(server, clients[k]);
    ForwardingHappens(Serving(server, clients), DescOf(clients[k]), data);
  }

  /**
   And every packet to a client can reach it: for every accepted configuration, client and packet to any of the
   client's addresses, there is a run that passes the packet to a session of the client.
   */
  lemma PacketsReachClients(c: Config, validKey: string -> bool, server: TunnelAddresses, clients: seq<ResolvedClient>,
                            k: nat, data: Bytes)
    requires Starts(c, validKey, server, clients) && k < |clients|
    requires ParseOf(data).Some? && ParseOf(data).value.destination in clients[k].Addresses()
    ensures exists w, x: Transfer :: && Reaches(Serving(server, clients), w) && x in w.log.delivered
                                     && x.data == data && x.session.desc == DescOf(clients[k])
  {
    StartsGood(c, validKey, server, clients);
    ClientsMakeSessions(server, clients[k]);
    var env, d := Serving(server, clients), DescOf(clients[k]);
    DeliveryToAReplacedSession(env, d, ParseOf(data).value.destination, data);
  }
}
