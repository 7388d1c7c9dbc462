/** An IPv4 printer (section 3.1 of RFC 791), and what the parser makes of its output. */
module DatagramTheorems {
  import opened Common
  import opened NetAddr
  import opened Packet
  import opened PacketTheorems

  function AddrTo4(v: Bits32): (r: Bytes)
    ensures |r| == 4 && AddrFrom4(r) == V4(v)
  {
    WordSizes();
    ToBytes(v, 4)
  }

  /** What goes into an IPv4 packet; `trailing` are bytes of the buffer behind the declared total length. */
  datatype Datagram = Datagram(
    service: Byte, id: (Byte, Byte), flags: nat, fragmentOffset: nat, timeToLive: Byte,
    protocol: Byte, checksum: (Byte, Byte),
    source: Bits32, destination: Bits32, options: Bytes, payload: Bytes, trailing: Bytes)
  {
    predicate Valid() {
      && flags < 8 && fragmentOffset < 0x2000
      && |options| % 4 == 0 && |options| <= 40
      && Total() < 0x1_0000
    }

    function HeaderLength(): nat {
      20 + |options|
    }

    function Total(): nat {
      HeaderLength() + |payload|
    }

    predicate MoreFragments() {
      flags % 2 == 1
    }

    function Start(): (r: Bytes)
      requires Valid()
      ensures |r| == 12
    {
      var fragment := flags * 0x2000 + fragmentOffset;
      [0x40 + HeaderLength() / 4, service, Total() / 256, Total() % 256, id.0, id.1,
       fragment / 256, fragment % 256, timeToLive, protocol, checksum.0, checksum.1]
    }

    function Print(): (b: Bytes)
      requires Valid()
      ensures |b| == Total() + |trailing|
    {
      Start() + (AddrTo4(source) + (AddrTo4(destination) + (options + payload + trailing)))
    }
  }

  lemma DatagramFields(d: Datagram)
    requires d.Valid()
    ensures var b := d.Print();
            && (forall i {:trigger b[i]} :: 0 <= i < 12 ==> b[i] == d.Start()[i])
            && b[12..16] == AddrTo4(d.source) && b[16..20] == AddrTo4(d.destination)
  {
    var rest := d.options + d.payload + d.trailing;
    var to := AddrTo4(d.destination) + rest;
    var source := AddrTo4(d.source) + to;
    assert d.Print() == d.Start() + source;
    Concatenation(d.Start(), source, 12, 16);
    Concatenation(AddrTo4(d.source), to, 0, 4);
    Concatenation(d.Start(), source, 16, 20);
    Concatenation(AddrTo4(d.source), to, 4, 8);
    Concatenation(AddrTo4(d.destination), rest, 0, 4);
  }

  /** The header checks accept a printed packet, with its header and total lengths. */
  lemma PrintedIsValid(d: Datagram)
    requires d.Valid()
    ensures ValidV4(d.Print()) == Some((d.HeaderLength(), d.Total()))
  {
    DatagramFields(d);
  }

  /** Printing any IPv4 packet, with options and trailing bytes, and parsing it gives back its fields. */
  lemma EncodeThenParseV4(d: Datagram)
    requires d.Valid()
    ensures ParseOf(d.Print())
            == Some(Info(4, V4(d.source), V4(d.destination), d.protocol,
                         if d.fragmentOffset == 0 then d.HeaderLength() else 0,
                         d.fragmentOffset == 0, d.MoreFragments() || d.fragmentOffset != 0))
  {
    DatagramFields(d);
    PrintedIsValid(d);
    assert Uint16At(d.Print(), 6) == d.flags * 0x2000 + d.fragmentOffset;
  }

  /** The content of a packet with these lengths. */
  function DatagramOf(b: Bytes, headerLength: nat, total: nat): Datagram
    requires 20 <= headerLength <= total <= |b|
  {
    WordSizes();
    Datagram(b[1], (b[4], b[5]), b[6] as int / 0x20, Uint16At(b, 6) % 0x2000, b[8], b[9], (b[10], b[11]),
             BigEndian(b[12..16]), BigEndian(b[16..20]), b[20..headerLength], b[headerLength..total], b[total..])
  }

  /** The flags and the fragment offset make up their two bytes. */
  lemma FragmentField(high: Byte, low: Byte)
    ensures (high as int / 0x20) * 0x2000 + (high as int * 256 + low as int) % 0x2000 == high as int * 256 + low as int
  {
    assert high as int * 256 + low as int == (high as int / 0x20) * 0x2000 + (high as int % 0x20 * 256 + low as int);
  }

  lemma StartOf(b: Bytes, headerLength: nat, total: nat)
    requires ValidV4(b) == Some((headerLength, total))
    ensures DatagramOf(b, headerLength, total).Valid() && DatagramOf(b, headerLength, total).Start() == b[..12]
  {
    FragmentField(b[6], b[7]);
  }

  lemma Reassembled4(b: Bytes, headerLength: nat, total: nat)
    requires 20 <= headerLength <= total <= |b|
    ensures b[..12] + (b[12..16] + (b[16..20] + (b[20..headerLength] + b[headerLength..total] + b[total..]))) == b
  {
    assert b[20..headerLength] + b[headerLength..total] + b[total..] == b[20..];
    assert b[16..20] + b[20..] == b[16..];
    assert b[12..16] + b[16..] == b[12..];
    assert b[..12] + b[12..] == b;
  }

  lemma DatagramPrints(b: Bytes, headerLength: nat, total: nat)
    requires ValidV4(b) == Some((headerLength, total))
    ensures DatagramOf(b, headerLength, total).Valid() && DatagramOf(b, headerLength, total).Print() == b
  {
    BytesOfNumber(b[12..16]);
    BytesOfNumber(b[16..20]);
    StartOf(b, headerLength, total);
    Reassembled4(b, headerLength, total);
  }

  /** The parser accepts an IPv4 packet exactly when it can be printed. */
  lemma AcceptsWhatIsPrintedV4(b: Bytes)
    requires b != [] && b[0] / 16 == 4
    ensures ParseOf(b).Some? <==> exists d: Datagram :: d.Valid() && d.Print() == b
  {
    if ParseOf(b).Some? {
      var (headerLength, total) := ValidV4(b).value;
      DatagramPrints(b, headerLength, total);
    }
    if d: Datagram :| d.Valid() && d.Print() == b {
      EncodeThenParseV4(d);
    }
  }

  lemma Regrouped(start: Bytes, source: Bytes, destination: Bytes, options: Bytes, payload: Bytes, trailing: Bytes)
    ensures start + (source + (destination + (options + payload + trailing)))
            == (start + source + destination + options) + (payload + trailing)
  {
    assert options + payload + trailing == options + (payload + trailing);
  }

  lemma BehindTheHeader(d: Datagram)
    requires d.Valid()
    ensures 4 <= |d.payload + d.trailing| ==>
              Uint16At(d.Print(), d.HeaderLength() + 2) == Uint16At(d.payload + d.trailing, 2)
  {
    Regrouped(d.Start(), AddrTo4(d.source), AddrTo4(d.destination), d.options, d.payload, d.trailing);
  }

  /** A port matches a printed packet exactly when the four bytes behind its header are there and say so. */
  lemma PortOfADatagram(d: Datagram, port: nat)
    requires d.Valid()
    ensures IsTCPOrUDPDestinationPort(d.Print(), port)
            <==> && d.protocol in {6, 17} && d.fragmentOffset == 0
                 && 4 <= |d.payload + d.trailing| && Uint16At(d.payload + d.trailing, 2) == port
  {
    EncodeThenParseV4(d);
    BehindTheHeader(d);
  }
}
