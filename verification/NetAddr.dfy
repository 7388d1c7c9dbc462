/**
 Addresses and prefixes as the server uses them (Go's `net/netip`): an address is
 absent, a 32-bit IPv4 value, or a 128-bit IPv6 value with a zone; a prefix keeps the
 host bits of its address. Prefix membership compares the leading bits only.
 */
module NetAddr {

  const ADDRESS_SPACE_4 := 0x1_0000_0000
  const ADDRESS_SPACE_6 := 0x1_0000_0000_0000_0000_0000_0000_0000_0000

  type Bits32 = x: int | 0 <= x < ADDRESS_SPACE_4
  type Bits128 = x: int | 0 <= x < ADDRESS_SPACE_6

  datatype Addr = NoAddr | V4(v4: Bits32) | V6(v6: Bits128, zone: string) {

    predicate IsValid() { !NoAddr? }

    predicate Is4In6() { V6? && 0xffff_0000_0000 <= v6 < 0x1_0000_0000_0000 }

    predicate HasZone() { V6? && zone != "" }

    predicate IsUnspecified() { (V4? && v4 == 0) || (V6? && v6 == 0 && zone == "") }

    predicate IsLoopback() { (V4? && v4 / 0x100_0000 == 127) || (V6? && v6 == 1) }

    predicate IsMulticast() {
      || (V4? && v4 / 0x1000_0000 == 0xe)
      || (V6? && 0xff00_0000_0000_0000_0000_0000_0000_0000 <= v6)
    }

    // The two classes below are only consulted for plain IPv6 addresses.
    predicate IsLinkLocalUnicast() {
      V6? && 0xfe80_0000_0000_0000_0000_0000_0000_0000 <= v6 < 0xfec0_0000_0000_0000_0000_0000_0000_0000
    }

    predicate IsPrivate() {
      V6? && 0xfc00_0000_0000_0000_0000_0000_0000_0000 <= v6 < 0xfe00_0000_0000_0000_0000_0000_0000_0000
    }

    predicate IsGlobalUnicast() {
      V6? && !IsUnspecified() && !IsLoopback() && !IsMulticast() && !IsLinkLocalUnicast()
    }
  }

  datatype RawPrefix = NoPrefix | Prefix(addr: Addr, bits: nat) {

    predicate IsValid() { Prefix? }

    /** Set by the library for every prefix it hands out: no zone, no more bits than the family has. */
    predicate WellFormed() {
      Prefix? ==> (addr.V4? && bits <= 32) || (addr.V6? && addr.zone == "" && bits <= 128)
    }
  }

  type Prefix = p: RawPrefix | p.WellFormed() witness NoPrefix

  /** Logical right shift. */
  function ShiftRight(x: nat, n: nat): nat
    decreases n
  {
    if n == 0 then x else ShiftRight(x / 2, n - 1)
  }

  /** x and y agree on everything above their `host` lowest bits. */
  predicate SameNetwork(x: nat, y: nat, host: nat) {
    ShiftRight(x, host) == ShiftRight(y, host)
  }

  predicate Contains(p: Prefix, a: Addr) {
    p.IsValid() &&
    match (p.addr, a)
    case (V4(x), V4(y)) => SameNetwork(x, y, 32 - p.bits)
    case (V6(x, _), V6(y, zone)) => zone == "" && SameNetwork(x, y, 128 - p.bits)
    case (_, _) => false
  }

  // ---- prefixes nest or are disjoint ----

  lemma {:induction false} ShiftsCompose(x: nat, m: nat, n: nat)
    ensures ShiftRight(x, m + n) == ShiftRight(ShiftRight(x, m), n)
    decreases m
  {
    if m != 0 { ShiftsCompose(x / 2, m - 1, n); }
  }

  lemma WiderNetworkKeepsAgreement(x: nat, y: nat, narrow: nat, wide: nat)
    requires narrow <= wide && SameNetwork(x, y, narrow)
    ensures SameNetwork(x, y, wide)
  {
    ShiftsCompose(x, narrow, wide - narrow);
    ShiftsCompose(y, narrow, wide - narrow);
  }

  /** Two CIDR blocks share an address exactly when one of them contains the other's own address. */
  lemma BlocksMeetWhenOneHoldsTheOther(p: Prefix, q: Prefix)
    requires p.IsValid() && q.IsValid()
    ensures Contains(p, q.addr) || Contains(q, p.addr) <==> exists a :: Contains(p, a) && Contains(q, a)
  {
    ContainsItsOwnAddress(p);
    ContainsItsOwnAddress(q);
    if a :| Contains(p, a) && Contains(q, a) {
      match a {
        case V4(y) => Nested(p.addr.v4, q.addr.v4, y, 32 - p.bits, 32 - q.bits);
        case V6(y, _) => Nested(p.addr.v6, q.addr.v6, y, 128 - p.bits, 128 - q.bits);
      }
    }
  }

  lemma Nested(x: nat, y: nat, a: nat, hx: nat, hy: nat)
    requires SameNetwork(x, a, hx) && SameNetwork(y, a, hy)
    ensures if hx <= hy then SameNetwork(x, y, hy) else SameNetwork(x, y, hx)
  {
    if hx <= hy {
      WiderNetworkKeepsAgreement(x, a, hx, hy);
    } else {
      WiderNetworkKeepsAgreement(y, a, hy, hx);
    }
  }

  lemma ContainsItsOwnAddress(p: Prefix)
    requires p.IsValid()
    ensures Contains(p, p.addr)
  {
  }

  // ---- membership in numbers ----

  function Power2(n: nat): (r: nat)
    ensures 1 <= r
  {
    if n == 0 then 1 else 2 * Power2(n - 1)
  }

  lemma FourMore(n: nat)
    ensures Power2(n + 4) == 16 * Power2(n)
  {
    assert Power2(n + 2) == 4 * Power2(n);
  }

  lemma SixteenMore(n: nat)
    ensures Power2(n + 16) == 0x1_0000 * Power2(n) && Power2(n + 12) == 0x1000 * Power2(n)
  {
    FourMore(n);
    FourMore(n + 4);
    FourMore(n + 8);
    FourMore(n + 12);
  }

  lemma {:induction false} PowerTable(n: nat)
    ensures n == 16 ==> Power2(n) == 0x1_0000
    ensures n == 32 ==> Power2(n) == 0x1_0000_0000
    ensures n == 48 ==> Power2(n) == 0x1_0000_0000_0000
    ensures n == 64 ==> Power2(n) == 0x1_0000_0000_0000_0000
    ensures n == 80 ==> Power2(n) == 0x1_0000_0000_0000_0000_0000
    ensures n == 96 ==> Power2(n) == 0x1_0000_0000_0000_0000_0000_0000
    ensures n == 112 ==> Power2(n) == 0x1_0000_0000_0000_0000_0000_0000_0000
    ensures n == 128 ==> Power2(n) == 0x1_0000_0000_0000_0000_0000_0000_0000_0000
    ensures n == 8 ==> Power2(n) == 0x100
    ensures n == 108 ==> Power2(n) == 0x1000_0000_0000_0000_0000_0000_0000
    decreases n
  {
    if n == 108 {
      PowerTable(n - 12);
      SixteenMore(n - 12);
    } else if n == 8 {
      FourMore(n - 4);
    } else if n >= 16 {
      PowerTable(n - 16);
      SixteenMore(n - 16);
    }
  }

  lemma {:induction false} ShiftDivides(x: nat, n: nat)
    ensures ShiftRight(x, n) == x / Power2(n)
    decreases n
  {
    if n != 0 {
      ShiftDivides(x / 2, n - 1);
      HalvesThenParts(x, Power2(n - 1));
    }
  }

  lemma HalvesThenParts(x: nat, d: nat)
    requires 1 <= d
    ensures (x / 2) / d == x / (2 * d)
  {
    var q, r := (x / 2) / d, (x / 2) % d;
    assert x / 2 == q * d + r;
    Twice(q, d);
    QuotientIs(x, 2 * d, q, 2 * r + x % 2);
  }

  lemma Twice(q: nat, d: nat)
    ensures q * (2 * d) == 2 * (q * d)
  {
  }

  lemma QuotientIs(x: nat, d: nat, q: nat, r: nat)
    requires x == q * d + r && r < d
    ensures x / d == q
  {
    var q', r' := x / d, x % d;
    assert x == q' * d + r';
    if q' < q { Multiples(q', q, d); }
    if q < q' { Multiples(q, q', d); }
  }

  lemma Distribute(a: nat, b: nat, d: nat)
    ensures (a + b) * d == a * d + b * d
  {
  }

  lemma {:induction false} Multiples(q: nat, q': nat, d: nat)
    requires q < q'
    ensures q * d + d <= q' * d
    decreases q'
  {
    Distribute(q' - 1, 1, d);
    if q < q' - 1 { Multiples(q, q' - 1, d); }
  }

  /** The multiples of d that enclose x enclose exactly what has the same quotient. */
  lemma SameQuotient(x: nat, y: nat, d: nat)
    requires 1 <= d
    ensures x / d * d <= x
    ensures x / d == y / d <==> x / d * d <= y < x / d * d + d
  {
    var q := x / d;
    assert x == q * d + x % d;
    if q * d <= y < q * d + d { QuotientIs(y, d, q, y - q * d); }
    if y / d == q { assert y == q * d + y % d; }
  }

  function RoundedDown(x: nat, d: nat): (r: nat)
    requires 1 <= d
    ensures r <= x
  {
    SameQuotient(x, x, d);
    x / d * d
  }

  /** The first of the 2^host consecutive addresses that x lies among: x with its host bits cleared. */
  function BlockStart(x: nat, host: nat): nat {
    RoundedDown(x, Power2(host))
  }

  lemma SameNetworkIsABlock(x: nat, y: nat, host: nat)
    ensures SameNetwork(x, y, host) <==> x / Power2(host) == y / Power2(host)
    ensures SameNetwork(x, y, host) <==> BlockStart(x, host) <= y < BlockStart(x, host) + Power2(host)
  {
    ShiftDivides(x, host);
    ShiftDivides(y, host);
    SameQuotient(x, y, Power2(host));
  }

  /**
   A prefix contains exactly the addresses of its family, without a zone, that agree with its own above the
   host bits: the 2^(32 - bits) or 2^(128 - bits) consecutive addresses from its own with the host bits cleared.
   */
  lemma ContainsABlock(p: Prefix, a: Addr)
    requires p.IsValid()
    ensures p.addr.V4? ==>
              (Contains(p, a) <==> a.V4? && p.addr.v4 / Power2(32 - p.bits) == a.v4 / Power2(32 - p.bits))
    ensures p.addr.V4? && a.V4? ==>
              var start := BlockStart(p.addr.v4, 32 - p.bits);
              Contains(p, a) <==> start <= a.v4 < start + Power2(32 - p.bits)
    ensures p.addr.V6? ==>
              (Contains(p, a) <==>
               a.V6? && a.zone == "" && p.addr.v6 / Power2(128 - p.bits) == a.v6 / Power2(128 - p.bits))
    ensures p.addr.V6? && a.V6? ==>
              var start := BlockStart(p.addr.v6, 128 - p.bits);
              Contains(p, a) <==> a.zone == "" && start <= a.v6 < start + Power2(128 - p.bits)
  {
    if p.addr.V4? && a.V4? { SameNetworkIsABlock(p.addr.v4, a.v4, 32 - p.bits); }
    if p.addr.V6? && a.V6? { SameNetworkIsABlock(p.addr.v6, a.v6, 128 - p.bits); }
  }
}
