/**
 What the IPv6 walk means. A chain is a list of extension headers as section 4 of RFC 8200
 defines them (Authentication Header lengths as section 2.2 of RFC 4302); `Encode` writes
 one out. The walk accepts a buffer exactly when it starts with the encoding of a chain
 within the parser's limits, and it returns what that chain says.
 */
module ExtensionChain {
  import opened Common
  import opened Packet

  datatype Header =
    | Options(kind: Byte, body: Bytes)            // Hop-by-Hop, Routing, Destination Options
    | Authentication(body: Bytes)
    | Fragment(reserved: Byte, offsetAndFlags: nat, id: Bytes)
  {
    function Kind(): Byte {
      match this
      case Options(kind, _) => kind
      case Authentication(_) => 51
      case Fragment(_, _, _) => 44
    }

    /** Bytes on the wire, next-header and length bytes included. */
    function Size(): nat {
      match this
      case Options(_, body) => 2 + |body|
      case Authentication(body) => 2 + |body|
      case Fragment(_, _, _) => 8
    }

    /** The size can be written in the header's own length field. */
    predicate WellFormed() {
      match this
      case Options(kind, _) => (kind == 0 || kind == 43 || kind == 60) && Size() % 8 == 0 && 8 <= Size() <= 256 * 8
      case Authentication(_) => Size() % 4 == 0 && 8 <= Size() <= 257 * 4
      case Fragment(_, offsetAndFlags, id) => offsetAndFlags < 0x1_0000 && |id| == 4
    }

    /** A Fragment header whose fragment offset is not zero: what follows is not a header. */
    predicate IsLaterFragment() {
      Fragment? && offsetAndFlags / 8 != 0
    }

    function Encode(next: Byte): (r: Bytes)
      requires WellFormed()
      ensures |r| == Size()
    {
      match this
      case Options(_, body) => [next, Size() / 8 - 1] + body
      case Authentication(body) => [next, Size() / 4 - 2] + body
      case Fragment(reserved, field, id) => [next, reserved, field / 256, field % 256] + id
    }
  }

  /** The headers between the fixed IPv6 header and what the walk stops at. */
  datatype Chain = End | Link(head: Header, tail: Chain) {

    predicate WellFormed() {
      Link? ==> head.WellFormed() && tail.WellFormed()
    }

    function Length(): nat {
      if End? then 0 else 1 + tail.Length()
    }

    /** The next-header value that announces the chain. */
    function FirstKind(protocol: Byte): Byte {
      if End? then protocol else head.Kind()
    }

    function Size(): nat {
      if End? then 0 else head.Size() + tail.Size()
    }

    function Encode(protocol: Byte): (r: Bytes)
      requires WellFormed()
      ensures |r| == Size()
    {
      if End? then [] else head.Encode(tail.FirstKind(protocol)) + tail.Encode(protocol)
    }

    predicate HasFragment() {
      Link? && (head.Fragment? || tail.HasFragment())
    }

    predicate EndsInLaterFragment() {
      Link? && if tail.End? then head.IsLaterFragment() else tail.EndsInLaterFragment()
    }

    /** The chain stops at its end and nowhere before it. */
    predicate Stops(protocol: Byte) {
      if End? then protocol !in {0, 43, 44, 51, 60}
      else if head.IsLaterFragment() then tail.End?
      else tail.Stops(protocol)
    }

    /** A later fragment ends the walk in its own turn, any other protocol needs one more. */
    function Turns(): nat {
      if EndsInLaterFragment() then Length() else Length() + 1
    }

    /** Every header except a Fragment header ends within the byte limit. */
    predicate WithinByteLimit(offset: nat) {
      Link? ==>
        && (!head.Fragment? ==> offset + head.Size() - 40 <= 256)
        && tail.WithinByteLimit(offset + head.Size())
    }

    /** Announced by `next` and standing at `offset`, the chain is one the walk takes in `turns` loop turns. */
    predicate WithinLimits(turns: nat, offset: nat, next: Byte, protocol: Byte) {
      && Stops(protocol)
      && Turns() <= turns
      && WithinByteLimit(offset)
      && FirstKind(protocol) == next
    }
  }

  /** The buffer holds the encoding of the chain at `offset`. */
  predicate Holds(b: Bytes, offset: nat, c: Chain, protocol: Byte) {
    && c.WellFormed()
    && offset + c.Size() <= |b|
    && b[offset..offset + c.Size()] == c.Encode(protocol)
  }

  /** The buffer carries, right after the fixed IPv6 header, the chain `c` that ends in `w`. */
  predicate Carries(b: Bytes, next: Byte, c: Chain, w: WalkEnd) {
    && c.WithinLimits(8, 40, next, w.next)
    && Holds(b, 40, c, w.next)
    && w.offset == 40 + c.Size()
    && w.fragmented == c.HasFragment()
    && w.first == !c.EndsInLaterFragment()
  }

  // ---- one header, read and written ----

  /** A header and the next-header value it announces. */
  datatype Reading = Reading(header: Header, next: Byte)

  /** The header the walk skips over at `offset`, unless it rejects the packet. */
  function ReadHeader(b: Bytes, offset: nat, kind: Byte): (r: Option<Reading>)
    ensures r.Some? ==> r.value.header.WellFormed() && r.value.header.Kind() == kind
    ensures r.Some? ==> IsExtensionKind(kind) && HeaderSize(b, offset, kind) == Some(r.value.header.Size())
  {
    if !IsExtensionKind(kind) then None
    else
      match HeaderSize(b, offset, kind)
      case None => None
      case Some(size) =>
        var h := if kind == FRAGMENT then Fragment(b[offset + 1], Uint16At(b, offset + 2), b[offset + 4..offset + 8])
                 else if kind == AUTHENTICATION then Authentication(b[offset + 2..offset + size])
                 else Options(kind, b[offset + 2..offset + size]);
        Some(Reading(h, b[offset]))
  }

  lemma ReadingEncodes(b: Bytes, offset: nat, kind: Byte)
    requires ReadHeader(b, offset, kind).Some?
    ensures var r := ReadHeader(b, offset, kind).value;
            b[offset..offset + r.header.Size()] == r.header.Encode(r.next)
  {
    var Reading(h, next) := ReadHeader(b, offset, kind).value;
    var s, e := b[offset..offset + h.Size()], h.Encode(next);
    assert s[0] == e[0] && s[1] == e[1];
    if h.Fragment? {
      assert s[2] == e[2] && s[3] == e[3];
      assert s[4..] == e[4..];
      assert s == s[..4] + s[4..] && e == e[..4] + e[4..];
    } else {
      assert s == s[..2] + s[2..];
    }
  }

  lemma EncodingReads(b: Bytes, offset: nat, h: Header, next: Byte)
    requires h.WellFormed() && offset + h.Size() <= |b|
    requires b[offset..offset + h.Size()] == h.Encode(next)
    requires !h.Fragment? ==> offset + h.Size() - 40 <= MAX_IPV6_EXTENSION_BYTES
    ensures ReadHeader(b, offset, h.Kind()) == Some(Reading(h, next))
  {
    var s, e := b[offset..offset + h.Size()], h.Encode(next);
    assert b[offset] == s[0] == e[0] && b[offset + 1] == s[1] == e[1];
    if h.Fragment? {
      assert b[offset + 2] == s[2] == e[2] && b[offset + 3] == s[3] == e[3];
      assert b[offset + 4..offset + 8] == s[4..] == e[4..] == h.id;
    } else {
      assert b[offset + 2..offset + h.Size()] == s[2..] == e[2..] == h.body;
    }
  }

  /** Reading a header gives `h` and `next` exactly when their encoding stands there, within the byte limit. */
  lemma ReadingIsEncoding(b: Bytes, offset: nat, h: Header, next: Byte)
    ensures ReadHeader(b, offset, h.Kind()) == Some(Reading(h, next))
            <==> && h.WellFormed() && offset + h.Size() <= |b|
                 && b[offset..offset + h.Size()] == h.Encode(next)
                 && (!h.Fragment? ==> offset + h.Size() - 40 <= MAX_IPV6_EXTENSION_BYTES)
  {
    if ReadHeader(b, offset, h.Kind()) == Some(Reading(h, next)) {
      ReadingEncodes(b, offset, h.Kind());
    } else if h.WellFormed() && offset + h.Size() <= |b| && b[offset..offset + h.Size()] == h.Encode(next)
              && (!h.Fragment? ==> offset + h.Size() - 40 <= MAX_IPV6_EXTENSION_BYTES) {
      EncodingReads(b, offset, h, next);
    }
  }

  // ---- a chain, header by header ----

  /** Reading header after header from `offset` on gives the chain. */
  predicate Follows(b: Bytes, offset: nat, c: Chain, protocol: Byte)
    decreases c
  {
    match c
    case End => offset <= |b|
    case Link(h, rest) =>
      && ReadHeader(b, offset, h.Kind()) == Some(Reading(h, rest.FirstKind(protocol)))
      && Follows(b, offset + h.Size(), rest, protocol)
  }

  lemma EncodingSplits(b: Bytes, offset: nat, h: Header, c: Chain, protocol: Byte)
    requires h.WellFormed()
    ensures Holds(b, offset, Link(h, c), protocol)
            <==> && offset + h.Size() <= |b|
                 && b[offset..offset + h.Size()] == h.Encode(c.FirstKind(protocol))
                 && Holds(b, offset + h.Size(), c, protocol)
  {
    var m, end := offset + h.Size(), offset + h.Size() + c.Size();
    if c.WellFormed() && end <= |b| {
      var x, y, s := h.Encode(c.FirstKind(protocol)), c.Encode(protocol), b[offset..end];
      assert Link(h, c).Encode(protocol) == x + y;
      assert s == b[offset..m] + b[m..end];
      if s == x + y {
        assert b[offset..m] == s[..|x|] == x;
        assert b[m..end] == s[|x|..] == y;
      }
    }
  }

  lemma HoldsSplits(b: Bytes, offset: nat, h: Header, rest: Chain, protocol: Byte)
    ensures Holds(b, offset, Link(h, rest), protocol) && Link(h, rest).WithinByteLimit(offset)
            <==> && ReadHeader(b, offset, h.Kind()) == Some(Reading(h, rest.FirstKind(protocol)))
                 && Holds(b, offset + h.Size(), rest, protocol) && rest.WithinByteLimit(offset + h.Size())
  {
    if h.WellFormed() {
      ReadingIsEncoding(b, offset, h, rest.FirstKind(protocol));
      EncodingSplits(b, offset, h, rest, protocol);
      assert Link(h, rest).WithinByteLimit(offset) ==
             (&& (!h.Fragment? ==> offset + h.Size() - 40 <= MAX_IPV6_EXTENSION_BYTES)
              && rest.WithinByteLimit(offset + h.Size()));
    }
  }

  lemma {:induction false} FollowsIsHolds(b: Bytes, offset: nat, c: Chain, protocol: Byte)
    ensures Follows(b, offset, c, protocol) <==> Holds(b, offset, c, protocol) && c.WithinByteLimit(offset)
    decreases c
  {
    match c {
      case End =>
        if offset <= |b| { assert b[offset..offset + 0] == []; }
      case Link(h, rest) =>
        HoldsSplits(b, offset, h, rest, protocol);
        FollowsIsHolds(b, offset + h.Size(), rest, protocol);
    }
  }

  /** `c` is what a walk that stands at `offset`, in turn `i`, still covers before it returns `w`. */
  predicate CarriesFrom(b: Bytes, i: nat, offset: nat, next: Byte, fragmented: bool, c: Chain, w: WalkEnd) {
    && i + c.Turns() <= MAX_IPV6_EXTENSION_HEADERS
    && c.Stops(w.next)
    && c.FirstKind(w.next) == next
    && Follows(b, offset, c, w.next)
    && w.offset == offset + c.Size()
    && w.fragmented == (fragmented || c.HasFragment())
    && w.first == !c.EndsInLaterFragment()
  }

  lemma NothingIsCarried(b: Bytes, i: nat, offset: nat, next: Byte, fragmented: bool)
    requires i < MAX_IPV6_EXTENSION_HEADERS && !IsExtensionKind(next) && offset <= |b|
    ensures CarriesFrom(b, i, offset, next, fragmented, End, WalkEnd(offset, next, fragmented, true))
  {
  }

  lemma LaterFragmentIsCarried(b: Bytes, i: nat, offset: nat, fragmented: bool, h: Header, n: Byte)
    requires i < MAX_IPV6_EXTENSION_HEADERS && h.IsLaterFragment()
    requires ReadHeader(b, offset, FRAGMENT) == Some(Reading(h, n))
    ensures CarriesFrom(b, i, offset, FRAGMENT, fragmented, Link(h, End), WalkEnd(offset + 8, n, true, false))
  {
    var c := Link(h, End);
    assert c.EndsInLaterFragment() && c.Length() == 1 + End.Length();
  }

  lemma LongerChainTurns(h: Header, rest: Chain)
    requires !h.IsLaterFragment()
    ensures Link(h, rest).EndsInLaterFragment() == rest.EndsInLaterFragment()
    ensures Link(h, rest).Turns() == 1 + rest.Turns()
  {
  }

  lemma LongerChainIsCarried(b: Bytes, i: nat, offset: nat, fragmented: bool, h: Header, rest: Chain, w: WalkEnd)
    requires !h.IsLaterFragment()
    requires ReadHeader(b, offset, h.Kind()) == Some(Reading(h, rest.FirstKind(w.next)))
    requires CarriesFrom(b, i + 1, offset + h.Size(), rest.FirstKind(w.next), fragmented || h.Fragment?, rest, w)
    ensures CarriesFrom(b, i, offset, h.Kind(), fragmented, Link(h, rest), w)
  {
    LongerChainTurns(h, rest);
  }

  /** One turn of the walk. */
  lemma WalkTurn(b: Bytes, i: nat, offset: nat, next: Byte, fragmented: bool)
    requires i < MAX_IPV6_EXTENSION_HEADERS && IsExtensionKind(next)
    ensures Walk(b, i, offset, next, fragmented, true) ==
            match ReadHeader(b, offset, next)
            case None => None
            case Some(Reading(h, n)) =>
              if h.IsLaterFragment() then Some(WalkEnd(offset + 8, n, true, false))
              else Walk(b, i + 1, offset + h.Size(), n, fragmented || h.Fragment?, true)
  {
  }

  // ---- soundness: an accepted buffer carries a chain ----

  lemma {:induction false} WalkFindsAChain(b: Bytes, i: nat, offset: nat, next: Byte, fragmented: bool, w: WalkEnd)
      returns (c: Chain)
    requires offset <= |b|
    requires Walk(b, i, offset, next, fragmented, true) == Some(w)
    ensures CarriesFrom(b, i, offset, next, fragmented, c, w)
    decreases MAX_IPV6_EXTENSION_HEADERS - i
  {
    if !IsExtensionKind(next) {
      NothingIsCarried(b, i, offset, next, fragmented);
      return End;
    }
    WalkTurn(b, i, offset, next, fragmented);
    var Reading(h, n) := ReadHeader(b, offset, next).value;
    if h.IsLaterFragment() {
      LaterFragmentIsCarried(b, i, offset, fragmented, h, n);
      return Link(h, End);
    }
    var rest := WalkFindsAChain(b, i + 1, offset + h.Size(), n, fragmented || h.Fragment?, w);
    LongerChainIsCarried(b, i, offset, fragmented, h, rest, w);
    return Link(h, rest);
  }

  // ---- completeness: a carried chain is accepted ----

  lemma {:induction false} WalkFollowsAChain(
      b: Bytes, i: nat, offset: nat, next: Byte, fragmented: bool, c: Chain, w: WalkEnd)
    requires CarriesFrom(b, i, offset, next, fragmented, c, w)
    ensures Walk(b, i, offset, next, fragmented, true) == Some(w)
    decreases c
  {
    match c {
      case End =>
      case Link(h, rest) =>
        WalkTurn(b, i, offset, next, fragmented);
        if !h.IsLaterFragment() {
          WalkFollowsAChain(b, i + 1, offset + h.Size(), rest.FirstKind(w.next), fragmented || h.Fragment?, rest, w);
        }
    }
  }

  lemma CarriedIsWalked(b: Bytes, next: Byte, c: Chain, w: WalkEnd)
    requires Carries(b, next, c, w)
    ensures Walk(b, 0, 40, next, false, true) == Some(w)
  {
    FollowsIsHolds(b, 40, c, w.next);
    WalkFollowsAChain(b, 0, 40, next, false, c, w);
  }

  /**
   The walk as the parser calls it succeeds with `w` exactly when the buffer carries some chain
   within the limits that ends in `w`: at most seven headers before an upper-layer protocol, or
   at most eight when the last one is a later fragment.
   */
  lemma WalkIsExact(b: Bytes, next: Byte, w: WalkEnd)
    requires 40 <= |b|
    ensures Walk(b, 0, 40, next, false, true) == Some(w) <==> exists c :: Carries(b, next, c, w)
  {
    if Walk(b, 0, 40, next, false, true) == Some(w) {
      var c := WalkFindsAChain(b, 0, 40, next, false, w);
      FollowsIsHolds(b, 40, c, w.next);
      assert Carries(b, next, c, w);
    }
    if c :| Carries(b, next, c, w) {
      CarriedIsWalked(b, next, c, w);
    }
  }

  // ---- how far the walk can get ----

  lemma {:induction false} ChainReach(c: Chain, offset: nat)
    requires c.WellFormed() && c.WithinByteLimit(offset) && offset % 4 == 0 && 40 <= offset
    ensures (offset + c.Size()) % 4 == 0
    ensures offset + c.Size() <= (if offset < 288 then 288 else offset) + 8 * c.Length()
    decreases c
  {
    if c.Link? {
      ChainReach(c.tail, offset + c.head.Size());
    }
  }
}
