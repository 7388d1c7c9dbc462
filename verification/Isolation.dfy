/** What the test of a session's packets achieves for the clients of a resolved configuration. */
module Isolation {
  import opened Common
  import opened NetAddr
  import opened Config
  import opened Packet
  import opened Forwarding
  import opened Registry
  import opened Admission

  /**
   A session may send a packet into the tunnel exactly when the packet parses, its source is any of the session's
   addresses, its destination lies in neither network of the server, and the session's context is not done.
   */
  lemma PassesExactly(pkt: Bytes, ips: seq<Addr>, done: bool, server: TunnelAddresses)
    ensures PrepareSessionPacket(pkt, ips, done, server)
            <==> && ParseOf(pkt).Some? && (exists k :: 0 <= k < |ips| && ParseOf(pkt).value.source == ips[k]) && !done
                 && !(server.ipv4.IsValid() && Contains(server.ipv4, ParseOf(pkt).value.destination))
                 && !(server.ipv6.IsValid() && Contains(server.ipv6, ParseOf(pkt).value.destination))
  {
  }

  /** Every configured client address lies inside the server's networks. */
  lemma ClientsLieInside(server: TunnelAddresses, r: ResolvedClient, ip: Addr)
    requires PlacedIn(server, r) && ip in r.Addresses()
    ensures ContainsPrefix(server, ip)
  {
    if r.tunnelIPv4.IsValid() && ip == r.tunnelIPv4.addr {
      assert server.ipv4.IsValid();
    } else {
      assert ip == r.tunnelIPv6.addr && server.ipv6.IsValid();
    }
  }

  lemma ServerLiesInside(server: TunnelAddresses, ip: Addr)
    requires ip in server.Addresses()
    ensures ContainsPrefix(server, ip)
  {
    if server.ipv4.IsValid() { ContainsItsOwnAddress(server.ipv4); }
    if server.ipv6.IsValid() { ContainsItsOwnAddress(server.ipv6); }
  }

  /**
   A packet that passes the test has a source configured for the session's client alone, and a
   destination that is neither a client's address nor the server's own.
   */
  lemma PassedPacketIsOwn(server: TunnelAddresses, clients: seq<ResolvedClient>, d: Desc, pkt: Bytes)
    requires Good(server, clients) && d in Descs(clients) && PrepareSessionPacket(pkt, d.ips, false, server)
    ensures Source(pkt).Some? && OwnedBy(clients, Source(pkt).value, d.identity)
    ensures Destination(pkt).Some? && Destination(pkt).value !in server.Addresses()
    ensures forall k :: 0 <= k < |clients| ==> Destination(pkt).value !in clients[k].Addresses()
  {
    DescOwns(clients, d, Source(pkt).value);
    var to := Destination(pkt).value;
    forall k | 0 <= k < |clients| ensures to !in clients[k].Addresses() {
      if to in clients[k].Addresses() { ClientsLieInside(server, clients[k], to); }
    }
    if to in server.Addresses() { ServerLiesInside(server, to); }
  }
}
