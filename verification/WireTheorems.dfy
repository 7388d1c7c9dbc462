/**
 The parser in bytes and numbers: what each turn of the walk does and what each field of the result is, with the
 next-header values of section 4 of RFC 8200 and the header layouts of RFC 8200 and RFC 791 written out.
 */
module WireTheorems {
  import opened Common
  import opened NetAddr
  import opened Packet

  // ---- the walk, turn by turn ----

  /**
   One turn of the walk. Hop-by-Hop (0), Routing (43) and Destination Options (60) are skipped by their length in
   units of eight bytes, the Authentication Header (51) by its length in units of four, Fragment (44) by eight
   bytes; every other value ends the walk. Only the Fragment header may end beyond byte 296, and it ends the walk
   when its offset is not zero. There is no ninth turn.
   */
  lemma WalkTurnInBytes(b: Bytes, i: nat, offset: nat, next: Byte, fragmented: bool, first: bool)
    ensures i >= 8 ==> Walk(b, i, offset, next, fragmented, first) == None
    ensures i < 8 && next !in {0, 43, 44, 51, 60} ==>
              Walk(b, i, offset, next, fragmented, first) == Some(WalkEnd(offset, next, fragmented, first))
    ensures i < 8 && next in {0, 43, 60} ==>
              Walk(b, i, offset, next, fragmented, first) ==
              if offset + 2 <= |b|
                 && offset + (b[offset + 1] as int + 1) * 8 <= |b|
                 && offset + (b[offset + 1] as int + 1) * 8 <= 296
              then Walk(b, i + 1, offset + (b[offset + 1] as int + 1) * 8, b[offset], fragmented, first)
              else None
    ensures i < 8 && next == 51 ==>
              Walk(b, i, offset, next, fragmented, first) ==
              if offset + 2 <= |b|
                 && offset + (b[offset + 1] as int + 2) * 4 <= |b|
                 && offset + (b[offset + 1] as int + 2) * 4 <= 296
              then Walk(b, i + 1, offset + (b[offset + 1] as int + 2) * 4, b[offset], fragmented, first)
              else None
    ensures i < 8 && next == 44 ==>
              Walk(b, i, offset, next, fragmented, first) ==
              if |b| < offset + 8 then None
              else if first && (b[offset + 2] as int * 256 + b[offset + 3] as int) / 8 == 0
              then Walk(b, i + 1, offset + 8, b[offset], true, first)
              else Some(WalkEnd(offset + 8, b[offset], true, false))
  {
  }

  /** The walk goes on from the fixed header exactly for the five extension-header values. */
  lemma WalkGoesOn(b: Bytes)
    requires 40 <= |b|
    ensures Walk(b, 0, 40, b[6], false, true) == Some(WalkEnd(40, b[6], false, true)) <==> b[6] !in {0, 43, 44, 51, 60}
  {
    WalkTurnInBytes(b, 0, 40, b[6], false, true);
    if b[6] in {0, 43, 44, 51, 60} && Walk(b, 0, 40, b[6], false, true).Some? {
      WalkAdvances(b, 0, 40, b[6], false, true);
    }
  }

  lemma {:induction false} WalkAdvances(b: Bytes, i: nat, offset: nat, next: Byte, fragmented: bool, first: bool)
    requires Walk(b, i, offset, next, fragmented, first).Some?
    ensures offset <= Walk(b, i, offset, next, fragmented, first).value.offset
    ensures next in {0, 43, 44, 51, 60} ==> offset + 8 <= Walk(b, i, offset, next, fragmented, first).value.offset
    decreases 8 - i
  {
    WalkTurnInBytes(b, i, offset, next, fragmented, first);
    if next in {0, 43, 60} {
      WalkAdvances(b, i + 1, offset + (b[offset + 1] as int + 1) * 8, b[offset], fragmented, first);
    } else if next == 51 {
      WalkAdvances(b, i + 1, offset + (b[offset + 1] as int + 2) * 4, b[offset], fragmented, first);
    } else if next == 44 && first && (b[offset + 2] as int * 256 + b[offset + 3] as int) / 8 == 0 {
      WalkAdvances(b, i + 1, offset + 8, b[offset], true, first);
    }
  }

  // ---- addresses ----

  /** Four bytes, the most significant first. */
  function Word(b: Bytes, i: nat): nat
    requires i + 4 <= |b|
  {
    b[i] as int * 0x100_0000 + b[i + 1] as int * 0x1_0000 + b[i + 2] as int * 0x100 + b[i + 3] as int
  }

  lemma AppendByte(x: Bytes, c: Byte)
    ensures BigEndian(x + [c]) == BigEndian(x) * 256 + c as int
  {
    assert (x + [c])[..|x|] == x;
  }

  lemma AppendAt(b: Bytes, lo: nat, hi: nat)
    requires lo <= hi < |b|
    ensures BigEndian(b[lo..hi + 1]) == BigEndian(b[lo..hi]) * 256 + b[hi] as int
  {
    assert b[lo..hi + 1] == b[lo..hi] + [b[hi]];
    AppendByte(b[lo..hi], b[hi]);
  }

  lemma AppendWord(b: Bytes, lo: nat, hi: nat)
    requires lo <= hi && hi + 4 <= |b|
    ensures BigEndian(b[lo..hi + 4]) == BigEndian(b[lo..hi]) * 0x1_0000_0000 + Word(b, hi)
  {
    AppendAt(b, lo, hi);
    AppendAt(b, lo, hi + 1);
    AppendAt(b, lo, hi + 2);
    AppendAt(b, lo, hi + 3);
  }

  lemma Address4InBytes(b: Bytes, i: nat)
    requires i + 4 <= |b|
    ensures AddrFrom4(b[i..i + 4]) == V4(Word(b, i))
  {
    AppendWord(b, i, i);
    assert b[i..i] == [];
  }

  /** The address is the sixteen bytes from the i-th on, the most significant first. */
  predicate Number6(a: Addr, b: Bytes, i: nat)
    requires i + 16 <= |b|
  {
    && a.V6? && a.zone == ""
    && a.v6 == Word(b, i) * 0x1_0000_0000_0000_0000_0000_0000 + Word(b, i + 4) * 0x1_0000_0000_0000_0000
               + Word(b, i + 8) * 0x1_0000_0000 + Word(b, i + 12)
  }

  lemma Address6InBytes(b: Bytes, i: nat)
    requires i + 16 <= |b|
    ensures Number6(AddrFrom16(b[i..i + 16]), b, i)
  {
    AppendWord(b, i, i);
    AppendWord(b, i, i + 4);
    AppendWord(b, i, i + 8);
    AppendWord(b, i, i + 12);
    assert b[i..i] == [];
  }

  // ---- the result ----

  /** Only the version nibbles 4 and 6 are parsed, and each as itself. */
  lemma OnlyTwoVersions(b: Bytes)
    ensures ParseOf(b).Some? ==> b != [] && b[0] / 16 in {4, 6} && ParseOf(b).value.version == b[0] as int / 16
  {
  }

  /** The IPv4 result, byte by byte. */
  lemma Parse4InBytes(b: Bytes)
    requires b != [] && b[0] / 16 == 4
    ensures ParseOf(b).Some?
            <==> && 20 <= |b|
                 && 20 <= (b[0] as int % 16) * 4 <= b[2] as int * 256 + b[3] as int <= |b|
    ensures ParseOf(b).Some? ==>
              var info, fragment := ParseOf(b).value, b[6] as int * 256 + b[7] as int;
              && info.source == V4(Word(b, 12)) && info.destination == V4(Word(b, 16)) && info.protocol == b[9]
              && info.firstFragment == (fragment % 0x2000 == 0)
              && info.fragmented == (fragment / 0x2000 % 2 == 1 || fragment % 0x2000 != 0)
              && info.transportOffset == if fragment % 0x2000 == 0 then (b[0] as int % 16) * 4 else 0
  {
    if 20 <= |b| {
      Address4InBytes(b, 12);
      Address4InBytes(b, 16);
    }
  }

  /** The IPv6 result, from the fixed header and the end of the walk. */
  lemma Parse6InBytes(b: Bytes)
    requires b != [] && b[0] / 16 == 6
    ensures ParseOf(b).Some?
            <==> && 40 < |b| && b[4] as int * 256 + b[5] as int == |b| - 40
                 && Walk(b, 0, 40, b[6], false, true).Some?
    ensures ParseOf(b).Some? ==>
              var info, w := ParseOf(b).value, Walk(b, 0, 40, b[6], false, true).value;
              && info.source == AddrFrom16(b[8..24]) && info.destination == AddrFrom16(b[24..40])
              && info.protocol == w.next && info.firstFragment == w.first && info.fragmented == w.fragmented
              && info.transportOffset == if w.first && w.next in {6, 17} && w.offset + 4 <= |b| then w.offset else 0
  {
  }

  /** Its addresses, byte by byte. */
  lemma Addresses6InBytes(b: Bytes)
    requires b != [] && b[0] / 16 == 6 && ParseOf(b).Some?
    ensures Number6(ParseOf(b).value.source, b, 8) && Number6(ParseOf(b).value.destination, b, 24)
  {
    Parse6InBytes(b);
    Address6InBytes(b, 8);
    Address6InBytes(b, 24);
  }

  /** Where a packet comes from and goes to, byte by byte. */
  lemma EndsInBytes(b: Bytes)
    ensures Source(b).Some? <==> ParseOf(b).Some?
    ensures Destination(b).Some? <==> ParseOf(b).Some?
    ensures ParseOf(b).Some? && b[0] / 16 == 4 ==>
              |b| >= 20 && Source(b) == Some(V4(Word(b, 12))) && Destination(b) == Some(V4(Word(b, 16)))
    ensures ParseOf(b).Some? && b[0] / 16 == 6 ==>
              |b| >= 40 && Number6(Source(b).value, b, 8) && Number6(Destination(b).value, b, 24)
  {
    if ParseOf(b).Some? {
      if b[0] / 16 == 4 {
        Parse4InBytes(b);
      } else {
        Parse6InBytes(b);
        Addresses6InBytes(b);
      }
    }
  }

  /**
   A port matches exactly when the packet parses with protocol 6 or 17 and the third and fourth byte of the
   transport header say so.
   */
  lemma PortInBytes(b: Bytes, port: nat)
    ensures IsTCPOrUDPDestinationPort(b, port)
            <==> && ParseOf(b).Some?
                 && var info := ParseOf(b).value;
                    && info.protocol in {6, 17} && info.transportOffset != 0 && info.transportOffset + 4 <= |b|
                    && b[info.transportOffset + 2] as int * 256 + b[info.transportOffset + 3] as int == port
  {
  }
}
