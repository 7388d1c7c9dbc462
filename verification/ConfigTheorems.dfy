/**
 What resolution accepts and what the prefix test accepts, in terms of the raw fields and of numbers:
 nothing here asks the functions of Config, or the prefix and address classes they use.
 */
module ConfigTheorems {
  import opened Common
  import opened NetAddr
  import opened Config

  // ---- the prefix test ----

  /** The n numbers from s on and the n' numbers from s' on have one in common. */
  predicate Overlap(s: nat, n: nat, s': nat, n': nat) {
    s < s' + n' && s' < s + n
  }

  /** The IPv6 addresses of the prefix are the `size` numbers from `start` on. */
  ghost predicate IsBlock(p: Prefix, start: nat, size: nat) {
    && p.IsValid() && p.addr.V6?
    && start < ADDRESS_SPACE_6 && 1 <= size
    && (forall y: Bits128 {:trigger V6(y, "")} :: Contains(p, V6(y, "")) <==> start <= y < start + size)
  }

  lemma PrefixIsBlock(p: Prefix)
    requires p.IsValid() && p.addr.V6?
    ensures IsBlock(p, BlockStart(p.addr.v6, 128 - p.bits), Power2(128 - p.bits))
  {
    forall y: Bits128
      ensures var start := BlockStart(p.addr.v6, 128 - p.bits);
              Contains(p, V6(y, "")) <==> start <= y < start + Power2(128 - p.bits)
    {
      ContainsABlock(p, V6(y, ""));
    }
  }

  lemma BlocksOverlap(p: Prefix, s: nat, n: nat, q: Prefix, s': nat, n': nat)
    requires IsBlock(p, s, n) && IsBlock(q, s', n')
    ensures Contains(p, q.addr) || Contains(q, p.addr) <==> Overlap(s, n, s', n')
  {
    BlocksMeetWhenOneHoldsTheOther(p, q);
    if Overlap(s, n, s', n') {
      var y: Bits128 := if s < s' then s' else s;
      assert Contains(p, V6(y, "")) && Contains(q, V6(y, ""));
    }
    if a :| Contains(p, a) && Contains(q, a) {
      assert a == V6(a.v6, "");
    }
  }

  lemma FixedBlock(q: Prefix, host: nat, start: Bits128, size: nat)
    requires host <= 128 && q == Prefix(V6(start, ""), 128 - host)
    requires Power2(host) == size && RoundedDown(start, size) == start
    ensures IsBlock(q, start, size)
  {
    PrefixIsBlock(q);
  }

  lemma ReservedBlocks()
    ensures |RESERVED| == 4
    ensures IsBlock(RESERVED[0], 0x0100_0000_0000_0000_0000_0000_0000_0000, 0x1_0000_0000_0000_0000)
    ensures IsBlock(RESERVED[1], 0x2001_0002_0000_0000_0000_0000_0000_0000, 0x1_0000_0000_0000_0000_0000)
    ensures IsBlock(RESERVED[2], 0x2001_0db8_0000_0000_0000_0000_0000_0000, 0x1_0000_0000_0000_0000_0000_0000)
    ensures IsBlock(RESERVED[3], 0x3fff_0000_0000_0000_0000_0000_0000_0000, 0x1000_0000_0000_0000_0000_0000_0000)
  {
    var a, b, c, d := 64, 80, 96, 108;
    PowerTable(a);
    PowerTable(b);
    PowerTable(c);
    PowerTable(d);
    FixedBlock(RESERVED[0], a, 0x0100_0000_0000_0000_0000_0000_0000_0000, 0x1_0000_0000_0000_0000);
    FixedBlock(RESERVED[1], b, 0x2001_0002_0000_0000_0000_0000_0000_0000, 0x1_0000_0000_0000_0000_0000);
    FixedBlock(RESERVED[2], c, 0x2001_0db8_0000_0000_0000_0000_0000_0000, 0x1_0000_0000_0000_0000_0000_0000);
    FixedBlock(RESERVED[3], d, 0x3fff_0000_0000_0000_0000_0000_0000_0000, 0x1000_0000_0000_0000_0000_0000_0000);
  }

  /** An ordinary global IPv6 address: the refused classes as ranges. */
  predicate GlobalNumber(x: nat) {
    && 2 <= x                                                                     // :: and ::1
    && !(0xffff_0000_0000 <= x < 0x1_0000_0000_0000)                              // ::ffff:0:0/96, IPv4-mapped
    && !(0xfc00_0000_0000_0000_0000_0000_0000_0000 <= x < 0xfe00_0000_0000_0000_0000_0000_0000_0000)  // fc00::/7
    && !(0xfe80_0000_0000_0000_0000_0000_0000_0000 <= x < 0xfec0_0000_0000_0000_0000_0000_0000_0000)  // fe80::/10
    && x < 0xff00_0000_0000_0000_0000_0000_0000_0000                              // ff00::/8
  }

  /** No address of the block x lies in is discard-only, for benchmarking or for documentation. */
  predicate ClearOfReserved(x: nat, host: nat) {
    var start, size := BlockStart(x, host), Power2(host);
    && !Overlap(start, size, 0x0100_0000_0000_0000_0000_0000_0000_0000, 0x1_0000_0000_0000_0000)
    && !Overlap(start, size, 0x2001_0002_0000_0000_0000_0000_0000_0000, 0x1_0000_0000_0000_0000_0000)
    && !Overlap(start, size, 0x2001_0db8_0000_0000_0000_0000_0000_0000, 0x1_0000_0000_0000_0000_0000_0000)
    && !Overlap(start, size, 0x3fff_0000_0000_0000_0000_0000_0000_0000, 0x1000_0000_0000_0000_0000_0000_0000)
  }

  lemma ClearExactly(p: Prefix)
    requires p.IsValid() && p.addr.V6?
    ensures (forall r :: r in RESERVED ==> !(Contains(p, r.addr) || Contains(r, p.addr)))
            <==> ClearOfReserved(p.addr.v6, 128 - p.bits)
  {
    ReservedBlocks();
    PrefixIsBlock(p);
    var s, n := BlockStart(p.addr.v6, 128 - p.bits), Power2(128 - p.bits);
    BlocksOverlap(p, s, n, RESERVED[0], 0x0100_0000_0000_0000_0000_0000_0000_0000, 0x1_0000_0000_0000_0000);
    BlocksOverlap(p, s, n, RESERVED[1], 0x2001_0002_0000_0000_0000_0000_0000_0000, 0x1_0000_0000_0000_0000_0000);
    BlocksOverlap(p, s, n, RESERVED[2], 0x2001_0db8_0000_0000_0000_0000_0000_0000, 0x1_0000_0000_0000_0000_0000_0000);
    BlocksOverlap(p, s, n, RESERVED[3], 0x3fff_0000_0000_0000_0000_0000_0000_0000,
                  0x1000_0000_0000_0000_0000_0000_0000);
    assert forall r :: r in RESERVED <==> r == RESERVED[0] || r == RESERVED[1] || r == RESERVED[2] || r == RESERVED[3];
  }

  /**
   A prefix may carry public egress exactly when its own address is an ordinary global IPv6 address and none of
   its addresses lies in a reserved block.
   */
  lemma UsableByTheNumbers(p: Prefix)
    ensures IsUsableGlobalIPv6TunnelPrefix(p)
            <==> p.Prefix? && p.addr.V6? && GlobalNumber(p.addr.v6) && ClearOfReserved(p.addr.v6, 128 - p.bits)
  {
    if p.Prefix? && p.addr.V6? { ClearExactly(p); }
  }

  // ---- what one field may hold ----

  predicate Field4InOrder(f: Field) {
    || f.Empty?
    || (&& f.Parsed? && f.prefix.Prefix? && f.prefix.addr.V4? && f.prefix.bits <= 32
        && var x := f.prefix.addr.v4;
           x != 0                                        // unspecified
           && !(0x7f00_0000 <= x < 0x8000_0000)          // 127.0.0.0/8, loopback
           && !(0xe000_0000 <= x < 0xf000_0000))         // 224.0.0.0/4, multicast
  }

  predicate Field6InOrder(f: Field) {
    || f.Empty?
    || (&& f.Parsed? && f.prefix.Prefix? && f.prefix.addr.V6? && f.prefix.addr.zone == "" && f.prefix.bits <= 128
        && var x := f.prefix.addr.v6;
           2 <= x                                        // :: and ::1
           && !(0xffff_0000_0000 <= x < 0x1_0000_0000_0000)
           && x < 0xff00_0000_0000_0000_0000_0000_0000_0000)
  }

  predicate ServerInOrder(s: Server) {
    && Field4InOrder(s.tunnelIPv4) && Field6InOrder(s.tunnelIPv6)
    && !(s.tunnelIPv4.Empty? && s.tunnelIPv6.Empty?)
  }

  /** The client's IPv4 field is a host address in the server's IPv4 network, and not the server's own. */
  predicate Host4(server: Field, client: Field)
    requires Field4InOrder(server) && Field4InOrder(client) && client.Parsed?
  {
    && client.prefix.bits == 32
    && Near4(server, client)
  }

  predicate Near4(server: Field, client: Field)
    requires Field4InOrder(server) && Field4InOrder(client) && client.Parsed?
  {
    && server.Parsed?
    && var s, x, size := server.prefix.addr.v4, client.prefix.addr.v4, Power2(32 - server.prefix.bits);
       s / size == x / size && s != x
  }

  predicate Host6(server: Field, client: Field)
    requires Field6InOrder(server) && Field6InOrder(client) && client.Parsed?
  {
    && client.prefix.bits == 128
    && Near6(server, client)
  }

  predicate Near6(server: Field, client: Field)
    requires Field6InOrder(server) && Field6InOrder(client) && client.Parsed?
  {
    && server.Parsed?
    && var s, x, size := server.prefix.addr.v6, client.prefix.addr.v6, Power2(128 - server.prefix.bits);
       s / size == x / size && s != x
  }

  /** The addresses of the client, on their own. */
  predicate AddressesInOrder(s: Server, c: Client)
    requires ServerInOrder(s)
  {
    && Field4InOrder(c.tunnelIPv4) && Field6InOrder(c.tunnelIPv6)
    && !(c.tunnelIPv4.Empty? && c.tunnelIPv6.Empty?)
    && (c.tunnelIPv4.Parsed? ==> Host4(s.tunnelIPv4, c.tunnelIPv4))
    && (c.tunnelIPv6.Parsed? ==> Host6(s.tunnelIPv6, c.tunnelIPv6))
  }

  predicate ClientInOrder(s: Server, c: Client, validKey: string -> bool)
    requires ServerInOrder(s)
  {
    AddressesInOrder(s, c) && c.publicKey != "" && validKey(c.publicKey)
  }

  /** The two clients have different keys, and different addresses where both have one. */
  predicate Apart(c: Client, d: Client) {
    && c.publicKey != d.publicKey
    && (c.tunnelIPv4.Parsed? && d.tunnelIPv4.Parsed? ==> c.tunnelIPv4.prefix != d.tunnelIPv4.prefix)
    && (c.tunnelIPv6.Parsed? && d.tunnelIPv6.Parsed? ==> c.tunnelIPv6.prefix != d.tunnelIPv6.prefix)
  }

  function Given(f: Field): Prefix {
    if f.Parsed? then f.prefix else NoPrefix
  }

  function GivenTunnel(s: Server): TunnelAddresses {
    TunnelAddresses(Given(s.tunnelIPv4), Given(s.tunnelIPv6))
  }

  function GivenClient(c: Client): ResolvedClient {
    ResolvedClient(c.publicKey, Given(c.tunnelIPv4), Given(c.tunnelIPv6))
  }

  // ---- acceptance ----

  lemma FieldExactly(f: Field)
    ensures OptionalPrefix(f, Four).Ok? <==> Field4InOrder(f)
    ensures OptionalPrefix(f, Six).Ok? <==> Field6InOrder(f)
    ensures OptionalPrefix(f, Four).Ok? ==> OptionalPrefix(f, Four).value == Given(f)
    ensures OptionalPrefix(f, Six).Ok? ==> OptionalPrefix(f, Six).value == Given(f)
  {
  }

  lemma ServerExactly(s: Server)
    ensures ServerAddresses(s).Ok? <==> ServerInOrder(s)
    ensures ServerInOrder(s) ==> ServerAddresses(s) == Ok(GivenTunnel(s))
  {
    FieldExactly(s.tunnelIPv4);
    FieldExactly(s.tunnelIPv6);
  }

  lemma NearExactly(s: Server, c: Client)
    requires ServerInOrder(s)
    ensures Field4InOrder(c.tunnelIPv4) ==>
              (OutsideOrServer(Given(s.tunnelIPv4), Given(c.tunnelIPv4))
               <==> c.tunnelIPv4.Parsed? && !Near4(s.tunnelIPv4, c.tunnelIPv4))
    ensures Field6InOrder(c.tunnelIPv6) ==>
              (OutsideOrServer(Given(s.tunnelIPv6), Given(c.tunnelIPv6))
               <==> c.tunnelIPv6.Parsed? && !Near6(s.tunnelIPv6, c.tunnelIPv6))
  {
    if s.tunnelIPv4.Parsed? && c.tunnelIPv4.Parsed? && Field4InOrder(c.tunnelIPv4) {
      ContainsABlock(s.tunnelIPv4.prefix, c.tunnelIPv4.prefix.addr);
    }
    if s.tunnelIPv6.Parsed? && c.tunnelIPv6.Parsed? && Field6InOrder(c.tunnelIPv6) {
      ContainsABlock(s.tunnelIPv6.prefix, c.tunnelIPv6.prefix.addr);
    }
  }

  lemma ClientExactly(s: Server, c: Client)
    requires ServerInOrder(s)
    ensures ResolveOne(GivenTunnel(s), c).Ok? <==> AddressesInOrder(s, c)
    ensures AddressesInOrder(s, c) ==> ResolveOne(GivenTunnel(s), c) == Ok(GivenClient(c))
  {
    FieldExactly(c.tunnelIPv4);
    FieldExactly(c.tunnelIPv6);
    NearExactly(s, c);
  }

  lemma {:induction false} IndividuallyIsGiven(s: Server, clients: seq<Client>)
    requires ServerInOrder(s) && forall i :: 0 <= i < |clients| ==> AddressesInOrder(s, clients[i])
    ensures |Individually(GivenTunnel(s), clients)| == |clients|
    ensures forall i :: 0 <= i < |clients| ==> Individually(GivenTunnel(s), clients)[i] == GivenClient(clients[i])
    decreases |clients|
  {
    if clients != [] {
      ClientExactly(s, clients[0]);
      IndividuallyIsGiven(s, clients[1..]);
    }
  }

  /** The prefixes and the addresses of a tunnel are those of the families it has, IPv4 first. */
  lemma TunnelInOrder(a: TunnelAddresses)
    ensures a.ipv4.Prefix? && a.ipv6.Prefix? ==>
              a.Prefixes() == [a.ipv4, a.ipv6] && a.Addresses() == [a.ipv4.addr, a.ipv6.addr]
    ensures a.ipv4.Prefix? && a.ipv6.NoPrefix? ==> a.Prefixes() == [a.ipv4] && a.Addresses() == [a.ipv4.addr]
    ensures a.ipv4.NoPrefix? && a.ipv6.Prefix? ==> a.Prefixes() == [a.ipv6] && a.Addresses() == [a.ipv6.addr]
    ensures a.ipv4.NoPrefix? && a.ipv6.NoPrefix? ==> a.Prefixes() == [] && a.Addresses() == []
  {
  }

  lemma ApartExactly(s: Server, c: Client, d: Client)
    requires ServerInOrder(s) && AddressesInOrder(s, c) && AddressesInOrder(s, d)
    ensures Apart(c, d)
            <==> && GivenClient(c).publicKey != GivenClient(d).publicKey
                 && forall ip :: ip in GivenClient(c).Addresses() ==> ip !in GivenClient(d).Addresses()
  {
    var r, q := GivenClient(c), GivenClient(d);
    AddressesOfClient(r);
    AddressesOfClient(q);
    if c.tunnelIPv4.Parsed? { assert r.tunnelIPv4.addr in r.Addresses(); }
    if c.tunnelIPv6.Parsed? { assert r.tunnelIPv6.addr in r.Addresses(); }
  }

  lemma AddressesOfClient(r: ResolvedClient)
    ensures forall ip :: ip in r.Addresses()
              <==> || (r.tunnelIPv4.IsValid() && ip == r.tunnelIPv4.addr)
                   || (r.tunnelIPv6.IsValid() && ip == r.tunnelIPv6.addr)
  {
  }

  lemma DistinctExactly(s: Server, clients: seq<Client>)
    requires ServerInOrder(s) && forall i :: 0 <= i < |clients| ==> AddressesInOrder(s, clients[i])
    ensures PairwiseDistinct(Individually(GivenTunnel(s), clients))
            <==> forall i, j :: 0 <= i < j < |clients| ==> Apart(clients[i], clients[j])
  {
    var rs := Individually(GivenTunnel(s), clients);
    IndividuallyIsGiven(s, clients);
    forall i, j | 0 <= i < j < |clients|
      ensures Apart(clients[i], clients[j])
              <==> && rs[i].publicKey != rs[j].publicKey
                   && forall ip :: ip in rs[i].Addresses() ==> ip !in rs[j].Addresses()
    {
      ApartExactly(s, clients[i], clients[j]);
    }
  }

  lemma EachExactly(s: Server, validKey: string -> bool, clients: seq<Client>)
    requires ServerInOrder(s)
    ensures EachInOrder(GivenTunnel(s), validKey, clients)
            <==> forall i :: 0 <= i < |clients| ==> ClientInOrder(s, clients[i], validKey)
  {
    forall i | 0 <= i < |clients|
      ensures ResolveOne(GivenTunnel(s), clients[i]).Ok? <==> AddressesInOrder(s, clients[i])
    {
      ClientExactly(s, clients[i]);
    }
  }

  /**
   A configuration is accepted exactly when its fields say so: the server's are in order, there is a client, each
   client's are in order and its addresses host addresses of the server's networks, and no two clients share a key
   or an address. What comes out is what the fields hold.
   */
  lemma AcceptedByTheFields(c: Config, validKey: string -> bool)
    ensures Resolved(c, validKey).Ok?
            <==> && ServerInOrder(c.server) && c.clients != []
                 && (forall i :: 0 <= i < |c.clients| ==> ClientInOrder(c.server, c.clients[i], validKey))
                 && (forall i, j :: 0 <= i < j < |c.clients| ==> Apart(c.clients[i], c.clients[j]))
    ensures Resolved(c, validKey).Ok? ==>
              var rs := Resolved(c, validKey).value;
              && ServerAddresses(c.server) == Ok(GivenTunnel(c.server))
              && |rs| == |c.clients| && forall i :: 0 <= i < |rs| ==> rs[i] == GivenClient(c.clients[i])
  {
    AcceptedExactly(c, validKey);
    ServerExactly(c.server);
    if ServerInOrder(c.server) {
      EachExactly(c.server, validKey, c.clients);
      if EachInOrder(GivenTunnel(c.server), validKey, c.clients) {
        DistinctExactly(c.server, c.clients);
        IndividuallyIsGiven(c.server, c.clients);
      }
    }
  }

  // ---- what an error says ----

  predicate Unusable4(f: Field) {
    f.Malformed? || (f.Parsed? && !(f.prefix.Prefix? && f.prefix.addr.V4?))
  }

  predicate Unusable6(f: Field) {
    f.Malformed? || (f.Parsed? && !(f.prefix.Prefix? && f.prefix.addr.V6?))
  }

  predicate Reserved4(f: Field) {
    f.Parsed? && f.prefix.Prefix? && f.prefix.addr.V4? && !Field4InOrder(f)
  }

  predicate Reserved6(f: Field) {
    f.Parsed? && f.prefix.Prefix? && f.prefix.addr.V6? && !Field6InOrder(f)
  }

  predicate Has(c: Client, ip: Addr) {
    || (c.tunnelIPv4.Parsed? && c.tunnelIPv4.prefix.Prefix? && c.tunnelIPv4.prefix.addr == ip)
    || (c.tunnelIPv6.Parsed? && c.tunnelIPv6.prefix.Prefix? && c.tunnelIPv6.prefix.addr == ip)
  }

  /** What the error reported for the server's fields means. */
  predicate TrueOfServer(e: Error, s: Server) {
    match e
    case InvalidField => Unusable4(s.tunnelIPv4) || Unusable6(s.tunnelIPv6)
    case ReservedAddress => Reserved4(s.tunnelIPv4) || Reserved6(s.tunnelIPv6)
    case NoServerAddress => s.tunnelIPv4.Empty? && s.tunnelIPv6.Empty?
    case _ => false
  }

  /** What the error reported for the fields of a client on its own means. */
  predicate TrueOfClient(e: Error, s: Server, c: Client)
    requires ServerInOrder(s)
  {
    var f, g := c.tunnelIPv4, c.tunnelIPv6;
    match e
    case InvalidField => Unusable4(f) || Unusable6(g)
    case ReservedAddress => Reserved4(f) || Reserved6(g)
    case NotAHostPrefix4 => Field4InOrder(f) && f.Parsed? && f.prefix.bits != 32
    case NotAHostPrefix6 => Field6InOrder(g) && g.Parsed? && g.prefix.bits != 128
    case NoClientAddress => f.Empty? && g.Empty?
    case OutsideServerNetwork4 => Field4InOrder(f) && f.Parsed? && !Near4(s.tunnelIPv4, f)
    case OutsideServerNetwork6 => Field6InOrder(g) && g.Parsed? && !Near6(s.tunnelIPv6, g)
    case _ => false
  }

  /** What the error reported for the n-th client means, given the clients before it. */
  predicate TrueAt(e: Error, s: Server, validKey: string -> bool, clients: seq<Client>, n: nat)
    requires ServerInOrder(s) && n < |clients|
  {
    match e
    case DuplicateAddress(ip) => Has(clients[n], ip) && exists m :: 0 <= m < n && Has(clients[m], ip)
    case NoPublicKey => clients[n].publicKey == ""
    case InvalidPublicKey => clients[n].publicKey != "" && !validKey(clients[n].publicKey)
    case KeyAtSeveralAddresses => exists m :: 0 <= m < n && clients[m].publicKey == clients[n].publicKey
    case _ => TrueOfClient(e, s, clients[n])
  }

  lemma FieldErrors(f: Field)
    ensures OptionalPrefix(f, Four).Err? ==>
              || (OptionalPrefix(f, Four).error == InvalidField && Unusable4(f))
              || (OptionalPrefix(f, Four).error == ReservedAddress && Reserved4(f))
    ensures OptionalPrefix(f, Six).Err? ==>
              || (OptionalPrefix(f, Six).error == InvalidField && Unusable6(f))
              || (OptionalPrefix(f, Six).error == ReservedAddress && Reserved6(f))
  {
  }

  lemma ServerErrors(s: Server)
    requires ServerAddresses(s).Err?
    ensures TrueOfServer(ServerAddresses(s).error, s)
  {
    FieldErrors(s.tunnelIPv4);
    FieldErrors(s.tunnelIPv6);
    FieldExactly(s.tunnelIPv4);
    FieldExactly(s.tunnelIPv6);
  }

  lemma ClientErrors(s: Server, c: Client)
    requires ServerInOrder(s) && ResolveOne(GivenTunnel(s), c).Err?
    ensures TrueOfClient(ResolveOne(GivenTunnel(s), c).error, s, c)
  {
    FieldErrors(c.tunnelIPv4);
    FieldErrors(c.tunnelIPv6);
    FieldExactly(c.tunnelIPv4);
    FieldExactly(c.tunnelIPv6);
    NearExactly(s, c);
  }

  /** The clients accepted so far are what the first n fields say. */
  ghost predicate AcceptedSoFar(
      s: Server, validKey: string -> bool, clients: seq<Client>, n: nat, out: seq<ResolvedClient>)
    requires ServerInOrder(s)
  {
    && n <= |clients| && |out| == n
    && forall i :: 0 <= i < n ==> ClientInOrder(s, clients[i], validKey) && out[i] == GivenClient(clients[i])
  }

  lemma TakenByEarlier(
      s: Server, validKey: string -> bool, clients: seq<Client>, n: nat, out: seq<ResolvedClient>, ip: Addr)
    requires ServerInOrder(s) && AcceptedSoFar(s, validKey, clients, n, out) && Taken(out, ip)
    ensures exists m :: 0 <= m < n && Has(clients[m], ip)
  {
    var m :| 0 <= m < |out| && ip in out[m].Addresses();
    AddressesOfClient(out[m]);
    assert Has(clients[m], ip);
  }

  lemma NextErrors(s: Server, validKey: string -> bool, clients: seq<Client>, n: nat, out: seq<ResolvedClient>)
    requires ServerInOrder(s) && AcceptedSoFar(s, validKey, clients, n, out) && n < |clients|
    requires Next(GivenTunnel(s), validKey, out, clients[n]).Err?
    ensures TrueAt(Next(GivenTunnel(s), validKey, out, clients[n]).error, s, validKey, clients, n)
  {
    ClientExactly(s, clients[n]);
    var e := Next(GivenTunnel(s), validKey, out, clients[n]).error;
    if ResolveOne(GivenTunnel(s), clients[n]).Err? {
      ClientErrors(s, clients[n]);
    } else if e.DuplicateAddress? {
      TakenByEarlier(s, validKey, clients, n, out, e.ip);
    } else if e.KeyAtSeveralAddresses? {
      var m :| 0 <= m < |out| && out[m].publicKey == clients[n].publicKey;
      assert clients[m].publicKey == clients[n].publicKey;
    }
  }

  lemma NextIsGiven(s: Server, validKey: string -> bool, clients: seq<Client>, n: nat, out: seq<ResolvedClient>)
    requires ServerInOrder(s) && AcceptedSoFar(s, validKey, clients, n, out) && n < |clients|
    requires Next(GivenTunnel(s), validKey, out, clients[n]).Ok?
    ensures AcceptedSoFar(s, validKey, clients, n + 1, out + [Next(GivenTunnel(s), validKey, out, clients[n]).value])
  {
    ClientExactly(s, clients[n]);
  }

  lemma {:induction false} FirstError(
      s: Server, validKey: string -> bool, clients: seq<Client>, n: nat, out: seq<ResolvedClient>)
      returns (m: nat)
    requires ServerInOrder(s) && AcceptedSoFar(s, validKey, clients, n, out)
    requires ResolveFrom(GivenTunnel(s), validKey, out, clients[n..]).Err?
    ensures m < |clients| && (forall i :: 0 <= i < m ==> ClientInOrder(s, clients[i], validKey))
    ensures TrueAt(ResolveFrom(GivenTunnel(s), validKey, out, clients[n..]).error, s, validKey, clients, m)
    decreases |clients| - n
  {
    assert clients[n..] != [] && clients[n..][0] == clients[n] && clients[n..][1..] == clients[n + 1..];
    var next := Next(GivenTunnel(s), validKey, out, clients[n]);
    if next.Err? {
      NextErrors(s, validKey, clients, n, out);
      return n;
    }
    NextIsGiven(s, validKey, clients, n, out);
    m := FirstError(s, validKey, clients, n + 1, out + [next.value]);
  }

  /**
   The error of a refused configuration is true: of the server's fields, or of a client before which all clients
   are in order.
   */
  lemma ErrorsAreTrue(c: Config, validKey: string -> bool)
    requires Resolved(c, validKey).Err?
    ensures !ServerInOrder(c.server) ==> TrueOfServer(Resolved(c, validKey).error, c.server)
    ensures ServerInOrder(c.server) && c.clients == [] ==> Resolved(c, validKey).error == NoClients
    ensures ServerInOrder(c.server) && c.clients != [] ==>
              exists n :: && 0 <= n < |c.clients|
                          && (forall i :: 0 <= i < n ==> ClientInOrder(c.server, c.clients[i], validKey))
                          && TrueAt(Resolved(c, validKey).error, c.server, validKey, c.clients, n)
  {
    ServerExactly(c.server);
    if ServerAddresses(c.server).Err? {
      ServerErrors(c.server);
    } else if c.clients != [] {
      assert c.clients[0..] == c.clients;
      var n := FirstError(c.server, validKey, c.clients, 0, []);
    }
  }
}
