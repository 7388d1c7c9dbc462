/**
 The inner-packet parser (`internal/connectip/packet`): IPv4 header checks and the
 bounded IPv6 extension-header walk.

 `Walk`, `InfoV4`, `InfoV6` and `ParseOf` are the values the parser computes; the methods
 at the end are the code's own loop and assignments, proved to return those values.
 What the values mean is stated in ExtensionChain and PacketTheorems.
 */
module Packet {
  import opened Common
  import opened NetAddr

  const MAX_IPV6_EXTENSION_HEADERS := 8
  const MAX_IPV6_EXTENSION_BYTES := 256

  const HOP_BY_HOP: Byte := 0
  const TCP: Byte := 6
  const UDP: Byte := 17
  const ROUTING: Byte := 43
  const FRAGMENT: Byte := 44
  const ESP: Byte := 50
  const AUTHENTICATION: Byte := 51
  const NO_NEXT_HEADER: Byte := 59
  const DESTINATION_OPTIONS: Byte := 60

  datatype Info = Info(
    version: nat,
    source: Addr,
    destination: Addr,
    protocol: Byte,
    transportOffset: nat,
    firstFragment: bool,
    fragmented: bool)

  /** Where the walk stopped, and what it learned on the way. */
  datatype WalkEnd = WalkEnd(offset: nat, next: Byte, fragmented: bool, first: bool)

  predicate IsOptionsKind(next: Byte) {
    next == HOP_BY_HOP || next == ROUTING || next == DESTINATION_OPTIONS
  }

  predicate IsExtensionKind(next: Byte) {
    IsOptionsKind(next) || next == AUTHENTICATION || next == FRAGMENT
  }

  // ---- big-endian numbers ----

  function Uint16At(b: Bytes, i: nat): (r: nat)
    requires i + 2 <= |b|
    ensures r < 0x1_0000
  {
    b[i] as int * 256 + b[i + 1] as int
  }

  function Power256(n: nat): (r: nat)
    ensures 1 <= r
  {
    if n == 0 then 1 else Power256(n - 1) * 256
  }

  function BigEndian(b: Bytes): (r: nat)
    ensures r < Power256(|b|)
  {
    if b == [] then 0 else BigEndian(b[..|b| - 1]) * 256 + b[|b| - 1] as int
  }

  lemma WordSizes()
    ensures Power256(4) == ADDRESS_SPACE_4 && Power256(16) == ADDRESS_SPACE_6
  {
    assert Power256(4) == 0x1_0000_0000;
    assert Power256(8) == 0x1_0000_0000_0000_0000;
    assert Power256(12) == 0x1_0000_0000_0000_0000_0000_0000;
    assert Power256(16) == 0x1_0000_0000_0000_0000_0000_0000_0000_0000;
  }

  function AddrFrom4(b: Bytes): Addr
    requires |b| == 4
  {
    WordSizes();
    V4(BigEndian(b))
  }

  function AddrFrom16(b: Bytes): Addr
    requires |b| == 16
  {
    WordSizes();
    V6(BigEndian(b), "")
  }

  // ---- the IPv6 walk ----

  /** A header of `size` bytes at `offset` lies in the buffer and within the byte limit. */
  predicate Fits(b: Bytes, offset: nat, size: nat) {
    8 <= size && offset + size <= |b| && offset + size - 40 <= MAX_IPV6_EXTENSION_BYTES
  }

  /** The bytes the walk skips for the extension header at `offset`, or none when it rejects the packet. */
  function HeaderSize(b: Bytes, offset: nat, kind: Byte): (r: Option<nat>)
    requires IsExtensionKind(kind)
    ensures r.Some? ==> 8 <= r.value && offset + r.value <= |b|
  {
    if kind == FRAGMENT then
      if offset + 8 > |b| then None else Some(8)
    else if offset + 2 > |b| then None
    else
      var size := if kind == AUTHENTICATION then (b[offset + 1] as int + 2) * 4 else (b[offset + 1] as int + 1) * 8;
      if Fits(b, offset, size) then Some(size) else None
  }

  /** The walk from its `i`-th iteration on. */
  function Walk(b: Bytes, i: nat, offset: nat, next: Byte, fragmented: bool, first: bool): Option<WalkEnd>
    decreases MAX_IPV6_EXTENSION_HEADERS - i, b
  {
    if i >= MAX_IPV6_EXTENSION_HEADERS then None
    else if !IsExtensionKind(next) then Some(WalkEnd(offset, next, fragmented, first))
    else
      match HeaderSize(b, offset, next)
      case None => None
      case Some(size) =>
        if next == FRAGMENT && !(first && Uint16At(b, offset + 2) / 8 == 0) then
          Some(WalkEnd(offset + size, b[offset], true, false))
        else
          Walk(b, i + 1, offset + size, b[offset], fragmented || next == FRAGMENT, first)
  }

  // ---- the two address families ----

  /** The header checks of an IPv4 packet: its header length and declared total length. */
  function ValidV4(b: Bytes): Option<(nat, nat)> {
    if |b| < 20 || b[0] / 16 != 4 then None
    else
      var ihl := (b[0] as int % 16) * 4;
      if ihl < 20 || ihl > |b| then None
      else
        var total := Uint16At(b, 2);
        if total < ihl || total > |b| then None else Some((ihl, total))
  }

  function InfoV4(b: Bytes): Option<Info> {
    match ValidV4(b)
    case None => None
    case Some((ihl, total)) =>
      var fragment := Uint16At(b, 6);
      var first := fragment % 0x2000 == 0;
      Some(Info(4, AddrFrom4(b[12..16]), AddrFrom4(b[16..20]), b[9],
                if first then ihl else 0, first, fragment / 0x2000 % 2 == 1 || !first))
  }

  function InfoV6(b: Bytes): Option<Info> {
    if |b| < 40 then None
    else
      var payload := Uint16At(b, 4);
      if payload == 0 || payload != |b| - 40 then None
      else
        match Walk(b, 0, 40, b[6], false, true)
        case None => None
        case Some(w) =>
          Some(Info(6, AddrFrom16(b[8..24]), AddrFrom16(b[24..40]), w.next,
                    if w.first && (w.next == TCP || w.next == UDP) && w.offset + 4 <= |b| then w.offset else 0,
                    w.first, w.fragmented))
  }

  function ParseOf(b: Bytes): Option<Info> {
    if |b| == 0 then None
    else if b[0] / 16 == 4 then InfoV4(b)
    else if b[0] / 16 == 6 then InfoV6(b)
    else None
  }

  function Source(b: Bytes): Option<Addr> {
    match ParseOf(b) case None => None case Some(i) => Some(i.source)
  }

  function Destination(b: Bytes): Option<Addr> {
    match ParseOf(b) case None => None case Some(i) => Some(i.destination)
  }

  predicate IsTCPOrUDPDestinationPort(b: Bytes, port: nat) {
    match ParseOf(b)
    case None => false
    case Some(i) =>
      && (i.protocol == TCP || i.protocol == UDP)
      && i.transportOffset != 0
      && i.transportOffset + 4 <= |b|
      && Uint16At(b, i.transportOffset + 2) == port
  }

  // ---- the code ----

  method WalkIPv6Extensions(b: Bytes, start: nat, startNext: Byte, startFirst: bool) returns (r: Option<WalkEnd>)
    ensures r == Walk(b, 0, start, startNext, false, startFirst)
  {
    var offset: nat, next: Byte, first := start, startNext, startFirst;
    var fragmented := false;
    for i := 0 to MAX_IPV6_EXTENSION_HEADERS
      invariant Walk(b, i, offset, next, fragmented, first) == Walk(b, 0, start, startNext, false, startFirst)
    {
      if next == HOP_BY_HOP || next == ROUTING || next == DESTINATION_OPTIONS {
        if offset + 2 > |b| { return None; }
        var n := b[offset];
        var nlen := (b[offset + 1] as int + 1) * 8;
        if nlen < 8 || offset + nlen > |b| || offset + nlen - 40 > MAX_IPV6_EXTENSION_BYTES { return None; }
        next, offset := n, offset + nlen;
      } else if next == AUTHENTICATION {
        if offset + 2 > |b| { return None; }
        var n := b[offset];
        var nlen := (b[offset + 1] as int + 2) * 4;
        if nlen < 8 || offset + nlen > |b| || offset + nlen - 40 > MAX_IPV6_EXTENSION_BYTES { return None; }
        next, offset := n, offset + nlen;
      } else if next == FRAGMENT {
        if offset + 8 > |b| { return None; }
        fragmented := true;
        var frag := Uint16At(b, offset + 2);
        first := first && frag / 8 == 0;
        next, offset := b[offset], offset + 8;
        if !first { return Some(WalkEnd(offset, next, true, false)); }
      } else if next == NO_NEXT_HEADER || next == ESP {
        return Some(WalkEnd(offset, next, fragmented, first));
      } else {
        return Some(WalkEnd(offset, next, fragmented, first));
      }
    }
    return None;
  }

  method ParseIPv4(b: Bytes) returns (r: Option<Info>)
    ensures r == InfoV4(b)
  {
    var v := ValidV4(b);
    if v.None? { return None; }
    var (ihl, total) := v.value;
    var frag := Uint16At(b, 6);
    var first := frag % 0x2000 == 0;
    var info := Info(4, AddrFrom4(b[12..16]), AddrFrom4(b[16..20]), b[9], ihl, first, frag / 0x2000 % 2 == 1 || !first);
    if first && (info.protocol == TCP || info.protocol == UDP) && total >= ihl + 4 {
      info := info.(transportOffset := ihl);
    }
    if !first {
      info := info.(transportOffset := 0);
    }
    return Some(info);
  }

  method ParseIPv6(b: Bytes) returns (r: Option<Info>)
    ensures r == InfoV6(b)
  {
    if |b| < 40 { return None; }
    var payload := Uint16At(b, 4);
    if payload == 0 || payload != |b| - 40 { return None; }
    var total := 40 + payload;
    if total < 40 || total != |b| { return None; }
    var info := Info(6, AddrFrom16(b[8..24]), AddrFrom16(b[24..40]), b[6], 0, true, false);
    assert b[..total] == b;
    var walk := WalkIPv6Extensions(b[..total], 40, b[6], true);
    if walk.None? { return None; }
    var WalkEnd(offset, next, fragmented, first) := walk.value;
    info := info.(protocol := next, fragmented := fragmented, firstFragment := first);
    if first && (next == TCP || next == UDP) && offset + 4 <= total {
      info := info.(transportOffset := offset);
    }
    return Some(info);
  }

  method Parse(b: Bytes) returns (r: Option<Info>)
    ensures r == ParseOf(b)
  {
    if |b| == 0 { return None; }
    match b[0] / 16 {
      case 4 => r := ParseIPv4(b);
      case 6 => r := ParseIPv6(b);
      case _ => r := None;
    }
  }
}
