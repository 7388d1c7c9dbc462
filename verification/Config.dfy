/**
 Configuration resolution (`internal/connectip/config/config.go`), from parsed prefixes on:
 the family and reserved-class checks of one field, the loop over the client list, and the
 test for a prefix that may carry public egress.
 */
module Config {
  import opened Common
  import opened NetAddr

  /** An address field of the configuration file, after the library has parsed its text. */
  datatype Field = Empty | Malformed | Parsed(prefix: Prefix)

  datatype Client = Client(publicKey: string, tunnelIPv4: Field, tunnelIPv6: Field)
  datatype Server = Server(tunnelIPv4: Field, tunnelIPv6: Field)
  datatype Config = Config(server: Server, clients: seq<Client>)

  datatype TunnelAddresses = TunnelAddresses(ipv4: Prefix, ipv6: Prefix) {

    /** IPv4 before IPv6, absent families skipped. */
    function Prefixes(): seq<Prefix> {
      (if ipv4.IsValid() then [ipv4] else []) + (if ipv6.IsValid() then [ipv6] else [])
    }

    function Addresses(): seq<Addr> {
      (if ipv4.IsValid() then [ipv4.addr] else []) + (if ipv6.IsValid() then [ipv6.addr] else [])
    }
  }

  datatype ResolvedClient = ResolvedClient(publicKey: string, tunnelIPv4: Prefix, tunnelIPv6: Prefix) {

    function Tunnel(): TunnelAddresses {
      TunnelAddresses(tunnelIPv4, tunnelIPv6)
    }

    function Addresses(): seq<Addr> {
      Tunnel().Addresses()
    }

    /** The address a public key is remembered with. */
    function Primary(): Addr {
      if tunnelIPv4.IsValid() then tunnelIPv4.addr else AddrOrZero(tunnelIPv6)
    }
  }

  datatype Error =
    | InvalidField
    | ReservedAddress
    | NoServerAddress
    | NoClients
    | NotAHostPrefix4
    | NotAHostPrefix6
    | NoClientAddress
    | OutsideServerNetwork4
    | OutsideServerNetwork6
    | DuplicateAddress(ip: Addr)
    | NoPublicKey
    | InvalidPublicKey
    | KeyAtSeveralAddresses

  datatype Family = Four | Six

  function AddrOrZero(p: Prefix): Addr {
    if p.IsValid() then p.addr else NoAddr
  }

  function OptionalPrefix(field: Field, family: Family): Result<Prefix, Error> {
    match field
    case Empty => Ok(NoPrefix)
    case Malformed => Err(InvalidField)
    case Parsed(p) =>
      if || !p.IsValid()
         || (family.Four? && (!p.addr.V4? || p.bits > 32))
         || (family.Six? && (!p.addr.V6? || p.bits > 128))
      then
        Err(InvalidField)
      else
        var a := p.addr;
        if a.IsUnspecified() || a.IsMulticast() || a.IsLoopback() || a.Is4In6() || a.HasZone() then Err(ReservedAddress)
        else Ok(p)
  }

  function ServerAddresses(s: Server): Result<TunnelAddresses, Error> {
    match OptionalPrefix(s.tunnelIPv4, Four)
    case Err(e) => Err(e)
    case Ok(v4) =>
      match OptionalPrefix(s.tunnelIPv6, Six)
      case Err(e) => Err(e)
      case Ok(v6) =>
        if !v4.IsValid() && !v6.IsValid() then Err(NoServerAddress) else Ok(TunnelAddresses(v4, v6))
  }

  predicate OutsideOrServer(server: Prefix, p: Prefix) {
    p.IsValid() && (!server.IsValid() || !Contains(server, p.addr) || p.addr == server.addr)
  }

  /** What the loop checks about one client's addresses on their own. */
  function ResolveOne(server: TunnelAddresses, c: Client): Result<ResolvedClient, Error> {
    match OptionalPrefix(c.tunnelIPv4, Four)
    case Err(e) => Err(e)
    case Ok(v4) =>
      if v4.IsValid() && v4.bits != 32 then Err(NotAHostPrefix4)
      else
        match OptionalPrefix(c.tunnelIPv6, Six)
        case Err(e) => Err(e)
        case Ok(v6) =>
          if v6.IsValid() && v6.bits != 128 then Err(NotAHostPrefix6)
          else if !v4.IsValid() && !v6.IsValid() then Err(NoClientAddress)
          else if OutsideOrServer(server.ipv4, v4) then Err(OutsideServerNetwork4)
          else if OutsideOrServer(server.ipv6, v6) then Err(OutsideServerNetwork6)
          else Ok(ResolvedClient(c.publicKey, v4, v6))
  }

  /** Some client of the list has the address. */
  ghost predicate Taken(out: seq<ResolvedClient>, ip: Addr) {
    exists i :: 0 <= i < |out| && ip in out[i].Addresses()
  }

  /** What the loop decides about the next client, given the ones it has accepted. */
  ghost function Next(server: TunnelAddresses, validKey: string -> bool, out: seq<ResolvedClient>, c: Client)
    : Result<ResolvedClient, Error>
  {
    match ResolveOne(server, c)
    case Err(e) => Err(e)
    case Ok(r) =>
      if r.tunnelIPv4.IsValid() && Taken(out, r.tunnelIPv4.addr) then Err(DuplicateAddress(r.tunnelIPv4.addr))
      else if r.tunnelIPv6.IsValid() && Taken(out, r.tunnelIPv6.addr) then Err(DuplicateAddress(r.tunnelIPv6.addr))
      else if c.publicKey == "" then Err(NoPublicKey)
      else if !validKey(c.publicKey) then Err(InvalidPublicKey)
      else if exists i :: 0 <= i < |out| && out[i].publicKey == c.publicKey && out[i].Primary() != r.Primary() then
        Err(KeyAtSeveralAddresses)
      else Ok(r)
  }

  ghost function ResolveFrom(
      server: TunnelAddresses, validKey: string -> bool, out: seq<ResolvedClient>, clients: seq<Client>)
    : Result<seq<ResolvedClient>, Error>
    decreases |clients|
  {
    if clients == [] then Ok(out)
    else
      match Next(server, validKey, out, clients[0])
      case Err(e) => Err(e)
      case Ok(r) => ResolveFrom(server, validKey, out + [r], clients[1..])
  }

  /** The outcome of resolving a configuration: the client list, or the first client's first error. */
  ghost function Resolved(c: Config, validKey: string -> bool): Result<seq<ResolvedClient>, Error> {
    match ServerAddresses(c.server)
    case Err(e) => Err(e)
    case Ok(server) =>
      if c.clients == [] then Err(NoClients) else ResolveFrom(server, validKey, [], c.clients)
  }

  // ---- what acceptance means ----

  /** No address and no key appears twice in the list. */
  ghost predicate PairwiseDistinct(rs: seq<ResolvedClient>) {
    forall i, j :: 0 <= i < j < |rs| ==>
      rs[i].publicKey != rs[j].publicKey && (forall ip :: ip in rs[i].Addresses() ==> ip !in rs[j].Addresses())
  }

  /** The addresses of the client are host addresses inside the server's networks. */
  predicate PlacedIn(server: TunnelAddresses, r: ResolvedClient) {
    && (r.tunnelIPv4.IsValid() || r.tunnelIPv6.IsValid())
    && (r.tunnelIPv4.IsValid() ==>
          && r.tunnelIPv4.addr.V4? && r.tunnelIPv4.bits == 32
          && Contains(server.ipv4, r.tunnelIPv4.addr) && r.tunnelIPv4.addr != server.ipv4.addr)
    && (r.tunnelIPv6.IsValid() ==>
          && r.tunnelIPv6.addr.V6? && r.tunnelIPv6.bits == 128
          && !r.tunnelIPv6.addr.Is4In6() && !r.tunnelIPv6.addr.HasZone()
          && Contains(server.ipv6, r.tunnelIPv6.addr) && r.tunnelIPv6.addr != server.ipv6.addr)
  }

  /** Every client is in order on its own. */
  ghost predicate EachInOrder(server: TunnelAddresses, validKey: string -> bool, clients: seq<Client>) {
    forall i :: 0 <= i < |clients| ==>
      ResolveOne(server, clients[i]).Ok? && clients[i].publicKey != "" && validKey(clients[i].publicKey)
  }

  /** Every client is in order on its own, and no two clients share an address or a key. */
  ghost predicate Acceptable(server: TunnelAddresses, validKey: string -> bool, clients: seq<Client>) {
    EachInOrder(server, validKey, clients) && PairwiseDistinct(Individually(server, clients))
  }

  /** The clients resolved one by one, up to the first that fails. */
  function Individually(server: TunnelAddresses, clients: seq<Client>): seq<ResolvedClient> {
    if clients == [] || ResolveOne(server, clients[0]).Err? then []
    else [ResolveOne(server, clients[0]).value] + Individually(server, clients[1..])
  }

  lemma ResolvedIsPlaced(server: TunnelAddresses, c: Client)
    requires ResolveOne(server, c).Ok?
    ensures PlacedIn(server, ResolveOne(server, c).value) && ResolveOne(server, c).value.publicKey == c.publicKey
  {
  }

  lemma PrimaryIsAnAddress(server: TunnelAddresses, r: ResolvedClient)
    requires PlacedIn(server, r)
    ensures r.Primary() in r.Addresses()
  {
    if r.tunnelIPv4.IsValid() {
      assert r.Addresses()[0] == r.tunnelIPv4.addr;
    }
  }

  ghost predicate Good(server: TunnelAddresses, out: seq<ResolvedClient>) {
    (forall i :: 0 <= i < |out| ==> PlacedIn(server, out[i])) && PairwiseDistinct(out)
  }

  /**
   The step of the loop in terms of the whole list: the next client is accepted exactly when it is
   in order on its own and shares neither an address nor a key with an accepted one. (A key that
   comes back with the same primary address is caught as a duplicate address.)
   */
  lemma NextKeepsDistinct(server: TunnelAddresses, validKey: string -> bool, out: seq<ResolvedClient>, c: Client)
    requires Good(server, out)
    ensures Next(server, validKey, out, c).Ok?
            <==> && ResolveOne(server, c).Ok? && c.publicKey != "" && validKey(c.publicKey)
                 && Good(server, out + [ResolveOne(server, c).value])
    ensures Next(server, validKey, out, c).Ok? ==> Next(server, validKey, out, c) == ResolveOne(server, c)
  {
    if ResolveOne(server, c).Ok? {
      var r := ResolveOne(server, c).value;
      var all := out + [r];
      ResolvedIsPlaced(server, c);
      PrimaryIsAnAddress(server, r);
      assert forall ip :: ip in r.Addresses() <==>
               || (r.tunnelIPv4.IsValid() && ip == r.tunnelIPv4.addr)
               || (r.tunnelIPv6.IsValid() && ip == r.tunnelIPv6.addr);
      if Next(server, validKey, out, c).Ok? {
        forall i | 0 <= i < |out|
          ensures out[i].publicKey != r.publicKey && forall ip :: ip in out[i].Addresses() ==> ip !in r.Addresses()
        {
          PrimaryIsAnAddress(server, out[i]);
        }
      }
      if PairwiseDistinct(all) {
        forall i | 0 <= i < |out|
          ensures out[i].publicKey != r.publicKey && forall ip :: ip in out[i].Addresses() ==> ip !in r.Addresses()
        {
          assert all[i] == out[i] && all[|out|] == r;
        }
      }
    }
  }

  lemma PairwiseDistinctPrefix(a: seq<ResolvedClient>, b: seq<ResolvedClient>)
    requires PairwiseDistinct(a + b)
    ensures PairwiseDistinct(a)
  {
    assert forall i :: 0 <= i < |a| ==> a[i] == (a + b)[i];
  }

  lemma EachAfterTheFirst(server: TunnelAddresses, validKey: string -> bool, clients: seq<Client>)
    requires clients != []
    ensures EachInOrder(server, validKey, clients)
            <==> && ResolveOne(server, clients[0]).Ok? && clients[0].publicKey != "" && validKey(clients[0].publicKey)
                 && EachInOrder(server, validKey, clients[1..])
  {
    assert forall i :: 0 < i < |clients| ==> clients[i] == clients[1..][i - 1];
    assert forall i :: 0 <= i < |clients| - 1 ==> clients[1..][i] == clients[i + 1];
  }

  lemma {:induction false} ResolveFromIsAcceptance(
      server: TunnelAddresses, validKey: string -> bool, out: seq<ResolvedClient>, clients: seq<Client>)
    requires Good(server, out)
    ensures ResolveFrom(server, validKey, out, clients).Ok?
            <==> && EachInOrder(server, validKey, clients)
                 && PairwiseDistinct(out + Individually(server, clients))
    ensures ResolveFrom(server, validKey, out, clients).Ok? ==>
              var rs := ResolveFrom(server, validKey, out, clients).value;
              rs == out + Individually(server, clients) && |rs| == |out| + |clients| && Good(server, rs)
    decreases |clients|
  {
    if clients == [] {
      assert out + [] == out;
    } else {
      var c, rest := clients[0], clients[1..];
      EachAfterTheFirst(server, validKey, clients);
      NextKeepsDistinct(server, validKey, out, c);
      if ResolveOne(server, c).Ok? {
        var r := ResolveOne(server, c).value;
        assert out + Individually(server, clients) == (out + [r]) + Individually(server, rest);
        ResolvedIsPlaced(server, c);
        if Next(server, validKey, out, c).Ok? {
          ResolveFromIsAcceptance(server, validKey, out + [r], rest);
        } else if PairwiseDistinct(out + Individually(server, clients)) {
          PairwiseDistinctPrefix(out + [r], Individually(server, rest));
        }
      }
    }
  }

  /**
   A configuration is accepted exactly when its server addresses are in order, it has a client,
   every client is in order on its own, and no two clients share an address or a public key.
   The result lists the clients in order.
   */
  lemma AcceptedExactly(c: Config, validKey: string -> bool)
    ensures Resolved(c, validKey).Ok?
            <==> && ServerAddresses(c.server).Ok? && c.clients != []
                 && Acceptable(ServerAddresses(c.server).value, validKey, c.clients)
    ensures Resolved(c, validKey).Ok? ==>
              var rs, server := Resolved(c, validKey).value, ServerAddresses(c.server).value;
              rs == Individually(server, c.clients) && |rs| == |c.clients| && Good(server, rs)
  {
    if ServerAddresses(c.server).Ok? {
      var server := ServerAddresses(c.server).value;
      ResolveFromIsAcceptance(server, validKey, [], c.clients);
      assert [] + Individually(server, c.clients) == Individually(server, c.clients);
    }
  }

  // ---- the code ----

  /** The loop of the source over the prefixes. */
  method Addresses(a: TunnelAddresses) returns (out: seq<Addr>)
    ensures out == a.Addresses()
  {
    out := [];
    var ps := a.Prefixes();
    for i := 0 to |ps|
      invariant |out| == i && forall j :: 0 <= j < i ==> ps[j].IsValid() && out[j] == ps[j].addr
    {
      out := out + [ps[i].addr];
    }
  }

  /** The two maps of the loop describe the clients accepted so far. */
  ghost predicate Tracks(out: seq<ResolvedClient>, seenIP: set<Addr>, seenKeyIP: map<string, Addr>) {
    && (forall ip :: ip in seenIP <==> Taken(out, ip))
    && (forall i :: 0 <= i < |out| ==> out[i].publicKey in seenKeyIP && seenKeyIP[out[i].publicKey] == out[i].Primary())
    && (forall k :: k in seenKeyIP ==> exists i :: 0 <= i < |out| && out[i].publicKey == k)
  }

  lemma TracksOneMore(out: seq<ResolvedClient>, seenIP: set<Addr>, seenKeyIP: map<string, Addr>, r: ResolvedClient)
    requires Tracks(out, seenIP, seenKeyIP)
    requires forall i :: 0 <= i < |out| ==> out[i].publicKey != r.publicKey
    ensures Tracks(out + [r], seenIP + (set ip | ip in r.Addresses()), seenKeyIP[r.publicKey := r.Primary()])
  {
    var all := out + [r];
    assert all[|out|] == r;
    forall ip ensures Taken(all, ip) <==> Taken(out, ip) || ip in r.Addresses() {
      if i :| 0 <= i < |out| && ip in out[i].Addresses() { assert ip in all[i].Addresses(); }
      if ip in r.Addresses() { assert ip in all[|out|].Addresses(); }
    }
    forall k | k in seenKeyIP ensures exists i :: 0 <= i < |all| && all[i].publicKey == k {
      var i :| 0 <= i < |out| && out[i].publicKey == k;
      assert all[i].publicKey == k;
    }
  }

  function Own(p: Prefix): set<Addr> {
    if p.IsValid() then {p.addr} else {}
  }

  /** The loop over the client's one or two addresses. */
  method RecordAddresses(v4: Prefix, v6: Prefix, seenIP: set<Addr>) returns (r: Result<set<Addr>, Error>)
    requires v4.IsValid() ==> v4.addr.V4?
    requires v6.IsValid() ==> v6.addr.V6?
    ensures r ==
            if v4.IsValid() && v4.addr in seenIP then Err(DuplicateAddress(v4.addr))
            else if v6.IsValid() && v6.addr in seenIP then Err(DuplicateAddress(v6.addr))
            else Ok(seenIP + (set ip | ip in TunnelAddresses(v4, v6).Addresses()))
  {
    var seen := seenIP;
    var ips := [AddrOrZero(v4), AddrOrZero(v6)];
    for i := 0 to 2
      invariant seen == seenIP + (if 1 <= i then Own(v4) else {}) + (if 2 <= i then Own(v6) else {})
      invariant 1 <= i ==> Own(v4) !! seenIP
      invariant 2 <= i ==> Own(v6) !! seenIP
    {
      if ips[i].IsValid() {
        if ips[i] in seen { return Err(DuplicateAddress(ips[i])); }
        seen := seen + {ips[i]};
      }
    }
    assert v4.IsValid() ==> v4.addr in Own(v4);
    assert v6.IsValid() ==> v6.addr in Own(v6);
    assert seen == seenIP + (set ip | ip in TunnelAddresses(v4, v6).Addresses());
    return Ok(seen);
  }

  /** The checks on one client's addresses. */
  method ResolveAddresses(server: TunnelAddresses, cl: Client) returns (r: Result<ResolvedClient, Error>)
    ensures r == ResolveOne(server, cl)
  {
    var p4 := OptionalPrefix(cl.tunnelIPv4, Four);
    if p4.Err? { return Err(p4.error); }
    var v4 := p4.value;
    if v4.IsValid() && v4.bits != 32 { return Err(NotAHostPrefix4); }
    var p6 := OptionalPrefix(cl.tunnelIPv6, Six);
    if p6.Err? { return Err(p6.error); }
    var v6 := p6.value;
    if v6.IsValid() && v6.bits != 128 { return Err(NotAHostPrefix6); }
    if !v4.IsValid() && !v6.IsValid() { return Err(NoClientAddress); }
    if v4.IsValid() && (!server.ipv4.IsValid() || !Contains(server.ipv4, v4.addr) || v4.addr == server.ipv4.addr) {
      return Err(OutsideServerNetwork4);
    }
    if v6.IsValid() && (!server.ipv6.IsValid() || !Contains(server.ipv6, v6.addr) || v6.addr == server.ipv6.addr) {
      return Err(OutsideServerNetwork6);
    }
    return Ok(ResolvedClient(cl.publicKey, v4, v6));
  }

  /** The body of the loop over the clients. */
  method ResolveNext(server: TunnelAddresses, validKey: string -> bool, cl: Client,
                     seenIP: set<Addr>, seenKeyIP: map<string, Addr>, ghost out: seq<ResolvedClient>)
      returns (r: Result<ResolvedClient, Error>, seenIP': set<Addr>, seenKeyIP': map<string, Addr>)
    requires Good(server, out) && Tracks(out, seenIP, seenKeyIP)
    ensures r == Next(server, validKey, out, cl)
    ensures r.Ok? ==> Good(server, out + [r.value]) && Tracks(out + [r.value], seenIP', seenKeyIP')
  {
    seenIP', seenKeyIP' := seenIP, seenKeyIP;
    r := ResolveAddresses(server, cl);
    if r.Err? { return; }
    var client := r.value;
    ResolvedIsPlaced(server, cl);
    var recorded := RecordAddresses(client.tunnelIPv4, client.tunnelIPv6, seenIP);
    if recorded.Err? { return Err(recorded.error), seenIP', seenKeyIP'; }
    seenIP' := recorded.value;
    if cl.publicKey == "" { return Err(NoPublicKey), seenIP', seenKeyIP'; }
    if !validKey(cl.publicKey) { return Err(InvalidPublicKey), seenIP', seenKeyIP'; }
    var primary := AddrOrZero(client.tunnelIPv4);
    if !primary.IsValid() { primary := client.tunnelIPv6.addr; }
    if cl.publicKey in seenKeyIP && seenKeyIP[cl.publicKey] != primary {
      return Err(KeyAtSeveralAddresses), seenIP', seenKeyIP';
    }
    seenKeyIP' := seenKeyIP[cl.publicKey := primary];
    NextKeepsDistinct(server, validKey, out, cl);
    assert forall i :: 0 <= i < |out| ==> (out + [client])[i] == out[i] && (out + [client])[|out|] == client;
    TracksOneMore(out, seenIP, seenKeyIP, client);
  }

  method ResolvedClients(c: Config, validKey: string -> bool) returns (r: Result<seq<ResolvedClient>, Error>)
    ensures r == Resolved(c, validKey)
  {
    var s := ServerAddresses(c.server);
    if s.Err? { return Err(s.error); }
    var server, clients := s.value, c.clients;
    if |clients| == 0 { return Err(NoClients); }
    var out: seq<ResolvedClient> := [];
    var seenIP: set<Addr> := {};
    var seenKeyIP: map<string, Addr> := map[];
    for n := 0 to |clients|
      invariant Good(server, out) && Tracks(out, seenIP, seenKeyIP)
      invariant ResolveFrom(server, validKey, [], clients) == ResolveFrom(server, validKey, out, clients[n..])
    {
      assert clients[n..][0] == clients[n] && clients[n..][1..] == clients[n + 1..];
      var next;
      next, seenIP, seenKeyIP := ResolveNext(server, validKey, clients[n], seenIP, seenKeyIP, out);
      if next.Err? { return Err(next.error); }
      out := out + [next.value];
    }
    return Ok(out);
  }

  // ---- the reserved-range check ----

  const RESERVED: seq<Prefix> := [
    Prefix(V6(0x0100_0000_0000_0000_0000_0000_0000_0000, ""), 64),  // 100::/64, discard-only
    Prefix(V6(0x2001_0002_0000_0000_0000_0000_0000_0000, ""), 48),  // 2001:2::/48, benchmarking
    Prefix(V6(0x2001_0db8_0000_0000_0000_0000_0000_0000, ""), 32),  // 2001:db8::/32, documentation
    Prefix(V6(0x3fff_0000_0000_0000_0000_0000_0000_0000, ""), 20)]  // 3fff::/20, documentation

  predicate UsableClass(a: Addr) {
    && a.IsGlobalUnicast() && !a.IsPrivate() && !a.IsLinkLocalUnicast()
    && !a.IsMulticast() && !a.IsLoopback() && !a.IsUnspecified()
  }

  predicate IsUsableGlobalIPv6TunnelPrefix(p: Prefix) {
    && p.IsValid() && p.addr.V6? && !p.addr.Is4In6()
    && UsableClass(p.addr)
    && forall r :: r in RESERVED ==> !(Contains(p, r.addr) || Contains(r, p.addr))
  }

  /**
   The test accepts a prefix exactly when its own address is an ordinary global one and no address
   of the prefix lies in a reserved block. The address classes look at the prefix's own address only.
   */
  lemma UsableExactly(p: Prefix)
    ensures IsUsableGlobalIPv6TunnelPrefix(p)
            <==> && p.IsValid() && p.addr.V6? && !p.addr.Is4In6() && UsableClass(p.addr)
                 && forall r, a :: r in RESERVED && Contains(p, a) ==> !Contains(r, a)
  {
    if p.IsValid() {
      forall r | r in RESERVED
        ensures Contains(p, r.addr) || Contains(r, p.addr) <==> exists a :: Contains(p, a) && Contains(r, a)
      {
        BlocksMeetWhenOneHoldsTheOther(p, r);
      }
    }
  }
}
