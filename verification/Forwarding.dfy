/** The two read-only tests of the data path (`cmd/jiejie-masque/main.go`). */
module Forwarding {
  import opened Common
  import opened NetAddr
  import opened Packet
  import opened Config

  predicate ContainsPrefix(a: TunnelAddresses, ip: Addr) {
    (a.ipv4.IsValid() && Contains(a.ipv4, ip)) || (a.ipv6.IsValid() && Contains(a.ipv6, ip))
  }

  /** A session with these addresses may send the packet into the tunnel. */
  predicate PrepareSessionPacket(pkt: Bytes, ips: seq<Addr>, cancelled: bool, server: TunnelAddresses) {
    match ParseOf(pkt)
    case None => false
    case Some(info) => info.source in ips && !ContainsPrefix(server, info.destination) && !cancelled
  }
}
