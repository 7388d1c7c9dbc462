/**
 Why a registry built for a resolved client list admits every session built from it: sessions of
 any type `S`, described by `who`, whose descriptions all come from the list.
 */
module Admission {
  import opened Common
  import opened NetAddr
  import opened Config
  import opened Registry

  /** The description a handler builds a session from. */
  function DescOf(r: ResolvedClient): Desc {
    Desc(r.publicKey, r.Addresses())
  }

  function Descs(clients: seq<ResolvedClient>): set<Desc> {
    set r | r in clients :: DescOf(r)
  }

  ghost predicate AllFrom<S>(live: set<S>, who: S -> Desc, clients: seq<ResolvedClient>) {
    forall x :: x in live ==> who(x) in Descs(clients)
  }

  /** A session can be built for every accepted client: construction panics for none. */
  lemma ClientsMakeSessions(server: TunnelAddresses, r: ResolvedClient)
    requires PlacedIn(server, r)
    ensures DescOf(r).Valid()
  {
    var ips := r.Addresses();
    if r.tunnelIPv4.IsValid() && r.tunnelIPv6.IsValid() {
      assert ips == [r.tunnelIPv4.addr, r.tunnelIPv6.addr];
    } else if r.tunnelIPv4.IsValid() {
      assert ips == [r.tunnelIPv4.addr];
    } else {
      assert ips == [r.tunnelIPv6.addr];
    }
  }

  /** The client a description was built from. */
  ghost predicate BuiltFor(clients: seq<ResolvedClient>, d: Desc, k: nat) {
    k < |clients| && d == DescOf(clients[k])
  }

  lemma DescIsAClients(clients: seq<ResolvedClient>, d: Desc) returns (k: nat)
    requires d in Descs(clients)
    ensures BuiltFor(clients, d, k)
  {
    var r :| r in clients && d == DescOf(r);
    k :| 0 <= k < |clients| && clients[k] == r;
  }

  /** Clients that share an address or a key are the same client. */
  lemma SharingIsIdentity(clients: seq<ResolvedClient>, d: Desc, e: Desc, j: nat, k: nat)
    requires PairwiseDistinct(clients) && BuiltFor(clients, d, j) && BuiltFor(clients, e, k)
    requires d.identity == e.identity || exists ip :: ip in d.ips && ip in e.ips
    ensures j == k && d == e
  {
  }

  lemma SameIdentitySameDesc(clients: seq<ResolvedClient>, d: Desc, e: Desc)
    requires PairwiseDistinct(clients) && d in Descs(clients) && e in Descs(clients)
    requires d.identity == e.identity || exists ip :: ip in d.ips && ip in e.ips
    ensures d == e
  {
    var j := DescIsAClients(clients, d);
    var k := DescIsAClients(clients, e);
    SharingIsIdentity(clients, d, e, j, k);
  }

  // ---- no client is ever refused ----

  /** Sessions with distinct identities are no more than the identities they may have. */
  lemma {:induction false} IdentitiesBound<S>(live: set<S>, who: S -> Desc, identities: set<string>)
    requires forall x :: x in live ==> who(x).identity in identities
    requires DistinctIdentities(live, who)
    ensures |live| <= |identities|
    decreases |live|
  {
    if live != {} {
      var x :| x in live;
      IdentitiesBound(live - {x}, who, identities - {who(x).identity});
    }
  }

  ghost predicate DistinctIdentities<S>(live: set<S>, who: S -> Desc) {
    forall x, y {:trigger who(x).identity, who(y).identity} ::
      x in live && y in live && who(x).identity == who(y).identity ==> x == y
  }

  lemma {:induction false} KeysBound(clients: seq<ResolvedClient>)
    ensures |set r | r in clients :: r.publicKey| <= |clients|
    decreases |clients|
  {
    if clients != [] {
      var front, last := clients[..|clients| - 1], clients[|clients| - 1];
      KeysBound(front);
      assert (set r | r in clients :: r.publicKey) == (set r | r in front :: r.publicKey) + {last.publicKey};
    }
  }

  lemma DescKeys(clients: seq<ResolvedClient>, d: Desc)
    requires d in Descs(clients)
    ensures d.identity in set r | r in clients :: r.publicKey
  {
  }

  /** There is room for one more: the live sessions of other identities leave one client out. */
  lemma OthersLeaveRoom<S>(clients: seq<ResolvedClient>, others: set<S>, who: S -> Desc, d: Desc)
    requires d in Descs(clients) && AllFrom(others, who, clients) && DistinctIdentities(others, who)
    requires forall x :: x in others ==> who(x).identity != d.identity
    ensures |others| < |clients|
  {
    var keys := set r | r in clients :: r.publicKey;
    KeysBound(clients);
    DescKeys(clients, d);
    forall x | x in others ensures who(x).identity in keys - {d.identity} { DescKeys(clients, who(x)); }
    IdentitiesBound(others, who, keys - {d.identity});
  }

  lemma NoConflict<S>(clients: seq<ResolvedClient>, t: Tables<S>, live: set<S>, who: S -> Desc, s: S, ip: Addr)
    requires PairwiseDistinct(clients) && Represents(t, live, who)
    requires who(s) in Descs(clients) && AllFrom(live, who, clients) && ip in who(s).ips
    ensures !ConflictAt(t, s, who, ip)
  {
    var owner := Lookup(t, ip);
    if owner.Some? {
      assert owner.value in live && ip in who(owner.value).ips;
      SameIdentitySameDesc(clients, who(s), who(owner.value));
    }
  }

  lemma HasRoom<S>(clients: seq<ResolvedClient>, t: Tables<S>, live: set<S>, who: S -> Desc, s: S)
    requires Represents(t, live, who) && s !in live
    requires who(s) in Descs(clients) && AllFrom(live, who, clients)
    ensures !Full(t, s, who, |clients|)
  {
    RepresentsLive(t, live, who);
    var evicted := Evicted(t, s, who);
    RestCount(live, evicted);
    OthersLeaveRoom(clients, live - evicted, who, who(s));
  }

  lemma RestCount<S>(whole: set<S>, part: set<S>)
    requires part <= whole
    ensures |whole - part| == |whole| - |part|
  {
  }

  /** With the clients of a configuration the checks of Replace never fail. */
  lemma ReplaceSucceeds<S>(clients: seq<ResolvedClient>, t: Tables<S>, live: set<S>, who: S -> Desc, s: S)
    requires PairwiseDistinct(clients) && Represents(t, live, who) && s !in live
    requires who(s) in Descs(clients) && AllFrom(live, who, clients)
    ensures Verdict(t, s, who, |clients|).Ok?
  {
    HasRoom(clients, t, live, who, s);
    forall ip | ip in who(s).ips ensures !ConflictAt(t, s, who, ip) {
      NoConflict(clients, t, live, who, s, ip);
    }
  }

  // ---- who owns an address ----

  /** Address ip is configured for the client with this key, and for no other client. */
  ghost predicate OwnedBy(clients: seq<ResolvedClient>, ip: Addr, key: string) {
    && (exists k :: 0 <= k < |clients| && clients[k].publicKey == key && ip in clients[k].Addresses())
    && (forall k :: 0 <= k < |clients| && ip in clients[k].Addresses() ==> clients[k].publicKey == key)
  }

  lemma DescOwns(clients: seq<ResolvedClient>, d: Desc, ip: Addr)
    requires PairwiseDistinct(clients) && d in Descs(clients) && ip in d.ips
    ensures OwnedBy(clients, ip, d.identity)
  {
    var k := DescIsAClients(clients, d);
    forall j | 0 <= j < |clients| && ip in clients[j].Addresses() ensures clients[j].publicKey == d.identity {
      assert BuiltFor(clients, DescOf(clients[j]), j);
      SharingIsIdentity(clients, d, DescOf(clients[j]), k, j);
    }
  }
}
