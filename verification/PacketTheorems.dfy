/**
 What the parser guarantees to the data plane: packets written by a printer parse back to
 what was printed, the walk's reach is bounded, a result depends only on the bytes up to
 where the walk stopped, and a port is read only from a trustworthy header.
 */
module PacketTheorems {
  import opened Common
  import opened NetAddr
  import opened Packet
  import opened ExtensionChain

  // ---- an IPv6 printer ----

  function ToBytes(v: nat, n: nat): (r: Bytes)
    requires v < Power256(n)
    ensures |r| == n && BigEndian(r) == v
    decreases n, v
  {
    if n == 0 then [] else
      var r := ToBytes(v / 256, n - 1) + [v % 256];
      assert r[..n - 1] == ToBytes(v / 256, n - 1);
      r
  }

  function AddrTo16(v: Bits128): (r: Bytes)
    ensures |r| == 16 && AddrFrom16(r) == V6(v, "")
  {
    WordSizes();
    ToBytes(v, 16)
  }

  /** The first eight bytes; version, traffic class and flow label are the four bytes of `start`. */
  function FixedStart(start: Bytes, length: nat, next: Byte, hopLimit: Byte): (r: Bytes)
    requires |start| == 4 && length < 0x1_0000
    ensures |r| == 8 && r[0] == start[0] && Uint16At(r, 4) == length && r[6] == next
  {
    start + [length / 256, length % 256, next, hopLimit]
  }

  /** What goes into an IPv6 packet. */
  datatype Content = Content(start: Bytes, hopLimit: Byte, source: Bits128, destination: Bits128,
                             chain: Chain, protocol: Byte, payload: Bytes)
  {
    predicate Valid() {
      && |start| == 4 && start[0] / 16 == 6
      && chain.WellFormed()
      && 0 < chain.Size() + |payload| < 0x1_0000
    }

    function Length(): nat {
      chain.Size() + |payload|
    }

    /** Where the walk over the printed packet should end. */
    function End(): WalkEnd {
      WalkEnd(40 + chain.Size(), protocol, chain.HasFragment(), !chain.EndsInLaterFragment())
    }

    function Print(): (b: Bytes)
      requires Valid()
      ensures |b| == 40 + Length()
    {
      FixedStart(start, Length(), chain.FirstKind(protocol), hopLimit)
      + (AddrTo16(source) + (AddrTo16(destination) + (chain.Encode(protocol) + payload)))
    }
  }

  /** The content is one whose chain the parser accepts. */
  predicate Accepted(p: Content) {
    && p.Valid()
    && p.chain.WithinLimits(8, 40, p.chain.FirstKind(p.protocol), p.protocol)
  }

  lemma Concatenation(x: Bytes, y: Bytes, lo: nat, hi: nat)
    ensures forall i :: 0 <= i < |x| ==> (x + y)[i] == x[i]
    ensures lo <= hi <= |x| ==> (x + y)[lo..hi] == x[lo..hi]
    ensures |x| <= lo <= hi <= |x| + |y| ==> (x + y)[lo..hi] == y[lo - |x|..hi - |x|]
  {
  }

  lemma Layout(fixed: Bytes, source: Bytes, destination: Bytes, chain: Bytes, payload: Bytes)
    requires |fixed| == 8 && |source| == |destination| == 16
    ensures var b := fixed + (source + (destination + (chain + payload)));
            && b[0] == fixed[0] && Uint16At(b, 4) == Uint16At(fixed, 4) && b[6] == fixed[6]
            && b[8..24] == source && b[24..40] == destination && b[40..40 + |chain|] == chain
  {
    var p := chain + payload;
    var d := destination + p;
    var s := source + d;
    assert (fixed + s)[8..24] == source by {
      Concatenation(fixed, s, 8, 24);
      Concatenation(source, d, 0, 16);
    }
    assert (fixed + s)[24..40] == destination by {
      Concatenation(fixed, s, 24, 40);
      Concatenation(source, d, 16, 32);
      Concatenation(destination, p, 0, 16);
    }
    assert (fixed + s)[40..40 + |chain|] == chain by {
      Concatenation(fixed, s, 40, 40 + |chain|);
      Concatenation(source, d, 32, 32 + |chain|);
      Concatenation(destination, p, 16, 16 + |chain|);
      Concatenation(chain, payload, 0, |chain|);
    }
  }

  lemma PrintedFields(p: Content)
    requires p.Valid()
    ensures var b := p.Print();
            && b[0] == p.start[0] && Uint16At(b, 4) == p.Length() && b[6] == p.chain.FirstKind(p.protocol)
            && b[8..24] == AddrTo16(p.source) && b[24..40] == AddrTo16(p.destination)
            && b[40..40 + p.chain.Size()] == p.chain.Encode(p.protocol)
  {
    Layout(FixedStart(p.start, p.Length(), p.chain.FirstKind(p.protocol), p.hopLimit),
           AddrTo16(p.source), AddrTo16(p.destination), p.chain.Encode(p.protocol), p.payload);
  }

  /** The walk goes over exactly the printed chain. */
  lemma PrintedWalk(p: Content)
    requires Accepted(p)
    ensures Walk(p.Print(), 0, 40, p.Print()[6], false, true) == Some(p.End())
  {
    PrintedFields(p);
    CarriedIsWalked(p.Print(), p.Print()[6], p.chain, p.End());
  }

  /** What the parser makes of a walk. */
  lemma WalkGivesInfo(b: Bytes, w: WalkEnd)
    requires 40 < |b| && Uint16At(b, 4) == |b| - 40
    requires Walk(b, 0, 40, b[6], false, true) == Some(w)
    ensures InfoV6(b) ==
            Some(Info(6, AddrFrom16(b[8..24]), AddrFrom16(b[24..40]), w.next,
                      if w.first && w.next in {6, 17} && w.offset + 4 <= |b| then w.offset else 0,
                      w.first, w.fragmented))
  {
  }

  /**
   Printing any chain within the parser's limits, any upper protocol it can stop at and any
   payload, and parsing the packet, gives back the addresses, the protocol and what the chain
   says about fragments and about where the transport header starts.
   */
  lemma EncodeThenParse(p: Content)
    requires Accepted(p)
    ensures ParseOf(p.Print())
            == Some(Info(6, V6(p.source, ""), V6(p.destination, ""), p.protocol,
                         if && !p.chain.EndsInLaterFragment() && p.protocol in {6, 17}
                            && 4 <= |p.payload|
                         then 40 + p.chain.Size() else 0,
                         !p.chain.EndsInLaterFragment(), p.chain.HasFragment()))
  {
    PrintedFields(p);
    PrintedWalk(p);
    WalkGivesInfo(p.Print(), p.End());
  }

  // ---- every accepted packet is a printed one ----

  lemma {:induction false} BytesOfNumber(b: Bytes)
    ensures BigEndian(b) < Power256(|b|) && ToBytes(BigEndian(b), |b|) == b
    decreases |b|
  {
    if b != [] {
      var front := b[..|b| - 1];
      BytesOfNumber(front);
      assert b == front + [b[|b| - 1]];
    }
  }

  /** The content of a packet that carries the chain. */
  function ContentOf(b: Bytes, c: Chain, protocol: Byte): Content
    requires 40 + c.Size() <= |b|
  {
    WordSizes();
    Content(b[..4], b[7], BigEndian(b[8..24]), BigEndian(b[24..40]), c, protocol, b[40 + c.Size()..])
  }

  lemma Reassembled(b: Bytes, s: nat)
    requires 40 <= s <= |b|
    ensures b[..8] + (b[8..24] + (b[24..40] + (b[40..s] + b[s..]))) == b
  {
    assert b[40..s] + b[s..] == b[40..];
    assert b[24..40] + b[40..] == b[24..];
    assert b[8..24] + b[24..] == b[8..];
    assert b[..8] + b[8..] == b;
  }

  lemma FixedStartOf(b: Bytes)
    requires 40 < |b| && Uint16At(b, 4) == |b| - 40
    ensures |b| - 40 < 0x1_0000 && FixedStart(b[..4], |b| - 40, b[6], b[7]) == b[..8]
  {
  }

  lemma AddrTo16Of(b: Bytes)
    requires |b| == 16
    ensures BigEndian(b) < ADDRESS_SPACE_6 && AddrTo16(BigEndian(b)) == b
  {
    WordSizes();
    BytesOfNumber(b);
  }

  lemma PrintOfParts(p: Content, b: Bytes)
    requires p.Valid() && 40 + p.chain.Size() <= |b|
    requires FixedStart(p.start, p.Length(), p.chain.FirstKind(p.protocol), p.hopLimit) == b[..8]
    requires AddrTo16(p.source) == b[8..24] && AddrTo16(p.destination) == b[24..40]
    requires p.chain.Encode(p.protocol) == b[40..40 + p.chain.Size()] && p.payload == b[40 + p.chain.Size()..]
    ensures p.Print() == b
  {
    Reassembled(b, 40 + p.chain.Size());
  }

  lemma ContentIsValid(b: Bytes, c: Chain, protocol: Byte)
    requires 40 < |b| && b[0] / 16 == 6 && Uint16At(b, 4) == |b| - 40
    requires c.WellFormed() && 40 + c.Size() <= |b|
    ensures ContentOf(b, c, protocol).Valid() && ContentOf(b, c, protocol).Length() == |b| - 40
  {
  }

  lemma ContentPrints(b: Bytes, c: Chain, protocol: Byte)
    requires 40 < |b| && b[0] / 16 == 6 && Uint16At(b, 4) == |b| - 40
    requires Holds(b, 40, c, protocol) && c.FirstKind(protocol) == b[6]
    ensures ContentOf(b, c, protocol).Valid() && ContentOf(b, c, protocol).Print() == b
  {
    ContentIsValid(b, c, protocol);
    AddrTo16Of(b[8..24]);
    AddrTo16Of(b[24..40]);
    FixedStartOf(b);
    PrintOfParts(ContentOf(b, c, protocol), b);
  }

  lemma ParsedIsPrinted(b: Bytes) returns (p: Content)
    requires b != [] && b[0] / 16 == 6 && ParseOf(b).Some?
    ensures Accepted(p) && p.Print() == b
  {
    var w := Walk(b, 0, 40, b[6], false, true).value;
    WalkIsExact(b, b[6], w);
    var c :| Carries(b, b[6], c, w);
    ContentPrints(b, c, w.next);
    return ContentOf(b, c, w.next);
  }

  /** The parser accepts an IPv6 packet exactly when it can be printed from a content within the limits. */
  lemma AcceptsWhatIsPrinted(b: Bytes)
    requires b != [] && b[0] / 16 == 6
    ensures ParseOf(b).Some? <==> exists p :: Accepted(p) && p.Print() == b
  {
    if ParseOf(b).Some? {
      var p := ParsedIsPrinted(b);
    }
    if p :| Accepted(p) && p.Print() == b {
      EncodeThenParse(p);
    }
  }

  // ---- how far the walk can get ----

  /** Every accepted walk ends on a 4-byte boundary inside the buffer, at most 344 (352 at a later fragment). */
  lemma WalkReach(b: Bytes, next: Byte, w: WalkEnd)
    requires 40 <= |b| && Walk(b, 0, 40, next, false, true) == Some(w)
    ensures w.offset % 4 == 0 && 40 <= w.offset <= |b|
    ensures if w.first then w.offset <= 344 else 48 <= w.offset <= 352 && w.fragmented
  {
    WalkIsExact(b, next, w);
    var c :| Carries(b, next, c, w);
    ReachOfCarried(b, next, c, w);
  }

  lemma ReachOfCarried(b: Bytes, next: Byte, c: Chain, w: WalkEnd)
    requires Carries(b, next, c, w)
    ensures w.offset % 4 == 0 && 40 <= w.offset <= |b|
    ensures if w.first then w.offset <= 344 else 48 <= w.offset <= 352 && w.fragmented
  {
    ChainReach(c, 40);
    LaterFragmentIsAFragment(c);
  }

  lemma {:induction false} LaterFragmentIsAFragment(c: Chain)
    ensures c.EndsInLaterFragment() ==> c.HasFragment() && 8 <= c.Size() && 1 <= c.Length()
    decreases c
  {
    if c.Link? { LaterFragmentIsAFragment(c.tail); }
  }

  /**
   A transport offset the parser reports for IPv6 is 0 or lies in 40..344, and it is only reported for
   a first fragment of a TCP or UDP packet that has the ports.
   */
  lemma TransportOffsetRange(b: Bytes)
    requires InfoV6(b).Some?
    ensures var o := InfoV6(b).value.transportOffset;
            o == 0 || (40 <= o <= 344 && o % 4 == 0 && o + 4 <= |b|)
    ensures var info := InfoV6(b).value;
            info.transportOffset != 0 ==> info.firstFragment && info.protocol in {6, 17}
  {
    WalkReach(b, b[6], Walk(b, 0, 40, b[6], false, true).value);
  }

  // Fragment headers are exempt from the byte limit, so they can follow a header that fills it.

  function FirstFragments(n: nat, last: Chain): (c: Chain)
    requires last.WellFormed()
    ensures c.WellFormed() && c.Size() == 8 * n + last.Size() && c.Length() == n + last.Length()
    ensures c.EndsInLaterFragment() == last.EndsInLaterFragment()
    ensures forall p :: last.Stops(p) ==> c.Stops(p)
  {
    if n == 0 then last else Link(Fragment(0, 1, [0, 0, 0, 0]), FirstFragments(n - 1, last))
  }

  /** A 256-byte header, `n` fragment headers with offset zero, and `last`. */
  function DeepChain(n: nat, last: Chain): (c: Chain)
    requires last.WellFormed()
    ensures c.WellFormed() && c.Size() == 256 + 8 * n + last.Size()
  {
    Link(Options(60, seq(254, _ => 0)), FirstFragments(n, last))
  }

  lemma {:induction false} FragmentsBypassTheByteLimit(n: nat, last: Chain, offset: nat)
    requires last.WellFormed() && forall o :: last.WithinByteLimit(o)
    ensures FirstFragments(n, last).WithinByteLimit(offset)
    decreases n
  {
    if n != 0 { FragmentsBypassTheByteLimit(n - 1, last, offset + 8); }
  }

  lemma DeepChainLimits(n: nat, last: Chain, protocol: Byte)
    requires n <= 6 && last.WellFormed() && (forall o :: last.WithinByteLimit(o)) && last.Stops(protocol)
    requires last.Turns() == 1
    ensures var c := DeepChain(n, last);
            && c.WithinLimits(8, 40, 60, protocol)
            && c.EndsInLaterFragment() == last.EndsInLaterFragment()
  {
    var tail := FirstFragments(n, last);
    FragmentsBypassTheByteLimit(n, last, 296);
    assert DeepChain(n, last).EndsInLaterFragment() == tail.EndsInLaterFragment();
  }

  function DeepContent(n: nat, last: Chain, payload: Bytes): (p: Content)
    requires last.WellFormed() && n <= 6 && last.Size() <= 8 && |payload| == 20
    ensures p.Valid()
  {
    Content([0x60, 0, 0, 0], 64, 1, 2, DeepChain(n, last), 6, payload)
  }

  /** With n leading fragments the TCP header of such a packet is found at 296 + 8n: 344 is reached. */
  lemma DeepTransportOffset(n: nat, payload: Bytes)
    requires n <= 6 && |payload| == 20
    ensures ParseOf(DeepContent(n, End, payload).Print()).Some?
    ensures ParseOf(DeepContent(n, End, payload).Print()).value.transportOffset == 296 + 8 * n
  {
    DeepChainLimits(n, End, 6);
    EncodeThenParse(DeepContent(n, End, payload));
  }

  lemma DeepLaterEnd(n: nat, later: Header, payload: Bytes)
    requires n <= 6 && |payload| == 20 && later.WellFormed() && later.IsLaterFragment()
    ensures var p := DeepContent(n, Link(later, End), payload);
            Accepted(p) && p.End() == WalkEnd(304 + 8 * n, 6, true, false)
  {
    var last := Link(later, End);
    assert End.Length() == 0 && End.Size() == 0 && later.Size() == 8;
    assert last.Length() == 1 && last.Size() == later.Size() + End.Size() && last.EndsInLaterFragment();
    DeepChainLimits(n, last, 6);
    LaterFragmentIsAFragment(DeepChain(n, last));
  }

  /** With a later fragment behind them the walk ends at 304 + 8n: 352 is reached. */
  lemma DeepLaterFragment(n: nat, later: Header, payload: Bytes)
    requires n <= 6 && |payload| == 20 && later.WellFormed() && later.IsLaterFragment()
    ensures var b := DeepContent(n, Link(later, End), payload).Print();
            Walk(b, 0, 40, b[6], false, true) == Some(WalkEnd(304 + 8 * n, 6, true, false))
  {
    DeepLaterEnd(n, later, payload);
    PrintedWalk(DeepContent(n, Link(later, End), payload));
  }

  // ---- locality ----

  /** The walk depends on no byte behind its end. */
  lemma LocalityOfWalk(a: Bytes, b: Bytes, next: Byte, w: WalkEnd)
    requires 40 <= |a| && 40 <= |b| && Walk(a, 0, 40, next, false, true) == Some(w)
    requires w.offset <= |a| && w.offset <= |b| && a[..w.offset] == b[..w.offset]
    ensures Walk(b, 0, 40, next, false, true) == Some(w)
  {
    WalkIsExact(a, next, w);
    var c :| Carries(a, next, c, w);
    CarriedElsewhere(a, b, next, c, w);
    CarriedIsWalked(b, next, c, w);
  }

  lemma CarriedElsewhere(a: Bytes, b: Bytes, next: Byte, c: Chain, w: WalkEnd)
    requires Carries(a, next, c, w)
    requires w.offset <= |a| && w.offset <= |b| && a[..w.offset] == b[..w.offset]
    ensures Carries(b, next, c, w)
  {
    AgreeingSlices(a, b, w.offset, 40, w.offset);
  }

  /** Two IPv6 packets of one length that agree up to where the walk of the first stops parse alike. */
  lemma LocalityV6(a: Bytes, b: Bytes, w: WalkEnd)
    requires |a| == |b| && InfoV6(a).Some?
    requires Walk(a, 0, 40, a[6], false, true) == Some(w)
    requires w.offset <= |a| && a[..w.offset] == b[..w.offset]
    ensures InfoV6(b) == InfoV6(a)
  {
    WalkReach(a, a[6], w);
    AgreeingSlices(a, b, w.offset, 8, 24);
    AgreeingSlices(a, b, w.offset, 24, 40);
    AgreeingBytes(a, b, w.offset);
    LocalityOfWalk(a, b, a[6], w);
    WalkGivesInfo(a, w);
    WalkGivesInfo(b, w);
  }

  /** Two IPv4 packets of one length that agree on the first 20 bytes parse alike. */
  lemma LocalityV4(a: Bytes, b: Bytes)
    requires |a| == |b| && 20 <= |a| && a[..20] == b[..20]
    ensures InfoV4(a) == InfoV4(b)
  {
    AgreeingSlices(a, b, 20, 12, 16);
    AgreeingSlices(a, b, 20, 16, 20);
    AgreeingBytes(a, b, 20);
  }

  lemma AgreeingSlices(a: Bytes, b: Bytes, n: nat, lo: nat, hi: nat)
    requires lo <= hi <= n <= |a| && n <= |b| && a[..n] == b[..n]
    ensures a[lo..hi] == b[lo..hi]
  {
    assert a[lo..hi] == a[..n][lo..hi];
    assert b[lo..hi] == b[..n][lo..hi];
  }

  lemma AgreeingBytes(a: Bytes, b: Bytes, n: nat)
    requires n <= |a| && n <= |b| && a[..n] == b[..n]
    ensures forall i {:trigger a[i]} {:trigger b[i]} :: 0 <= i < n ==> a[i] == b[i]
  {
    forall i | 0 <= i < n ensures a[i] == b[i] {
      assert a[i] == a[..n][i] && b[i] == b[..n][i];
    }
  }

  // ---- ports ----

  /** The port stands right behind the chain `c` of a first fragment, in a TCP or UDP header that reaches that far. */
  predicate PortBehind(b: Bytes, c: Chain, protocol: Byte, port: nat) {
    && 40 < |b| && Uint16At(b, 4) == |b| - 40
    && protocol in {6, 17}
    && Carries(b, b[6], c, WalkEnd(40 + c.Size(), protocol, c.HasFragment(), true))
    && 40 + c.Size() + 4 <= |b|
    && Uint16At(b, 40 + c.Size() + 2) == port
  }

  /** For IPv6 a port matches exactly when it stands right behind the whole chain of a first fragment. */
  lemma PortMatchV6(b: Bytes, port: nat)
    requires |b| > 0 && b[0] / 16 == 6
    ensures IsTCPOrUDPDestinationPort(b, port) <==> exists c, protocol :: PortBehind(b, c, protocol, port)
  {
    if IsTCPOrUDPDestinationPort(b, port) {
      var c, protocol := MatchedPortIsBehind(b, port);
    }
    if c, protocol :| PortBehind(b, c, protocol, port) {
      PortBehindMatches(b, c, protocol, port);
    }
  }

  lemma MatchedPortIsBehind(b: Bytes, port: nat) returns (c: Chain, protocol: Byte)
    requires |b| > 0 && b[0] / 16 == 6 && IsTCPOrUDPDestinationPort(b, port)
    ensures PortBehind(b, c, protocol, port)
  {
    var w := Walk(b, 0, 40, b[6], false, true).value;
    WalkReach(b, b[6], w);
    PortOfAWalk(b, w, port);
    WalkIsExact(b, b[6], w);
    c :| Carries(b, b[6], c, w);
    protocol := w.next;
  }

  lemma PortBehindMatches(b: Bytes, c: Chain, protocol: Byte, port: nat)
    requires b != [] && b[0] / 16 == 6 && PortBehind(b, c, protocol, port)
    ensures IsTCPOrUDPDestinationPort(b, port)
  {
    var w := WalkEnd(40 + c.Size(), protocol, c.HasFragment(), true);
    CarriedIsWalked(b, b[6], c, w);
    PortOfAWalk(b, w, port);
  }

  /** A port match in terms of where the walk ends. */
  lemma PortOfAWalk(b: Bytes, w: WalkEnd, port: nat)
    requires 40 < |b| && b[0] / 16 == 6 && Uint16At(b, 4) == |b| - 40
    requires Walk(b, 0, 40, b[6], false, true) == Some(w) && 40 <= w.offset
    ensures IsTCPOrUDPDestinationPort(b, port)
            <==> && w.first && w.next in {6, 17}
                 && w.offset + 4 <= |b| && Uint16At(b, w.offset + 2) == port
  {
    WalkGivesInfo(b, w);
  }

  /** The IPv4 packet declares a TCP or UDP header up to the ports. */
  predicate DeclaresTransport(b: Bytes)
    requires InfoV4(b).Some?
  {
    var (ihl, total) := ValidV4(b).value;
    b[9] in {6, 17} && ihl + 4 <= total
  }

  /**
   The documentation promises a zero offset unless a trustworthy TCP or UDP header is available. For IPv4
   the promise is kept exactly for later fragments and for packets that do declare such a header.
   */
  lemma OffsetV4(b: Bytes)
    requires InfoV4(b).Some?
    ensures (InfoV4(b).value.transportOffset != 0 ==> DeclaresTransport(b) && InfoV4(b).value.firstFragment)
            <==> Uint16At(b, 6) % 0x2000 != 0 || DeclaresTransport(b)
  {
  }

  /** An ICMP packet, for which the parser reports a transport offset all the same. */
  lemma OffsetWithoutTransportExists()
    ensures var b := [0x45, 0, 0, 20, 0, 0, 0, 0, 64, 1, 0, 0, 10, 0, 0, 1, 10, 0, 0, 2];
            InfoV4(b).Some? && InfoV4(b).value.transportOffset == 20 && !DeclaresTransport(b)
  {
    var b: Bytes := [0x45, 0, 0, 20, 0, 0, 0, 0, 64, 1, 0, 0, 10, 0, 0, 1, 10, 0, 0, 2];
    assert ValidV4(b) == Some((20, 20));
  }

  /** Some port would be read from bytes the IPv4 packet does not declare as its own. */
  ghost predicate ReadsPastDeclaredTotal(b: Bytes)
    requires InfoV4(b).Some?
  {
    exists port: nat ::
      IsTCPOrUDPDestinationPort(b, port) && ValidV4(b).value.1 < InfoV4(b).value.transportOffset + 4
  }

  /**
   For IPv4 a match reads inside the declared packet unless the packet is a first TCP or UDP
   fragment that declares less than four transport bytes and is followed by enough other bytes:
   the total-length test in the parser assigns a value that is already there.
   */
  lemma PortMatchV4(b: Bytes)
    requires InfoV4(b).Some?
    ensures var (ihl, total) := ValidV4(b).value;
            ReadsPastDeclaredTotal(b) <==>
              && b[9] in {6, 17}
              && Uint16At(b, 6) % 0x2000 == 0
              && total < ihl + 4 <= |b|
  {
    var (ihl, total) := ValidV4(b).value;
    if b[9] in {6, 17} && Uint16At(b, 6) % 0x2000 == 0 && total < ihl + 4 <= |b| {
      assert IsTCPOrUDPDestinationPort(b, Uint16At(b, ihl + 2));
    }
  }

  /** A 24-byte buffer that declares 20 bytes of UDP packet: the port is read behind its end. */
  lemma PortPastDeclaredTotalExists()
    ensures var b := [0x45, 0, 0, 20, 0, 0, 0, 0, 64, 17, 0, 0, 10, 0, 0, 1, 10, 0, 0, 2, 0, 0, 0, 53];
            InfoV4(b).Some? && ReadsPastDeclaredTotal(b)
  {
    var b: Bytes := [0x45, 0, 0, 20, 0, 0, 0, 0, 64, 17, 0, 0, 10, 0, 0, 1, 10, 0, 0, 2, 0, 0, 0, 53];
    assert ValidV4(b) == Some((20, 20));
    PortMatchV4(b);
  }
}
