/**
 The two directions of the data path (`cmd/jiejie-masque/main.go`): a packet from the tunnel to
 the session that owns its destination, and the loop that reads a session's packets. What the
 connection and the tunnel answer, and whether the session's context is done when it is looked
 at, are inputs.
 */
module DataPath {
  import opened Common
  import opened NetAddr
  import opened Config
  import opened Packet
  import opened Forwarding
  import opened Registry
  import opened Admission
  import opened Isolation
  import opened SessionManager
  import opened Handlers

  /** What an I/O call answers: success, an error that belongs to closing, or another error. */
  datatype Answer = Fine | Ended | Failed

  predicate Normal(a: Answer, contextDone: bool) {
    contextDone || a.Ended?
  }

  /** The answer of WritePacket, and of writing the ICMP packet it hands back. */
  datatype WriteAnswer = WriteAnswer(icmp: Bytes, tunnel: Answer, answer: Answer, contextDone: bool)

  /** Closing a session that has been registered leaves the manager in order, without the session. */
  method CloseSession(mgr: Manager, s: Session)
    requires Healthy(mgr) && s.conn.Some? && s.manager == mgr
    modifies mgr, s
    ensures Healthy(mgr) && mgr.live == old(mgr.live) - {s} && mgr.nextGeneration == old(mgr.nextGeneration)
    ensures s.closed && (!old(s.closed) ==> s.cancelled && s.connClosed)
  {
    s.Close();
  }

  /** Passes a packet from the tunnel to the session that owns its destination, and closes a session that fails. */
  method DispatchTUNPacket(data: Bytes, mgr: Manager, io: WriteAnswer) returns (sent: Option<Session>)
    requires Healthy(mgr)
    modifies mgr, mgr.live
    ensures Healthy(mgr)
    ensures sent == OwnerOf(old(mgr.Entries()), Destination(data))
    ensures sent.Some? ==> sent.value in old(mgr.live) && Destination(data).value in sent.value.desc.ips
    ensures sent.Some? && ((io.icmp != [] && io.tunnel != Fine) || (io.answer == Failed && !io.contextDone)) ==>
              && mgr.live == old(mgr.live) - {sent.value}
              && sent.value.closed && sent.value.cancelled && sent.value.connClosed
    ensures !(sent.Some? && ((io.icmp != [] && io.tunnel != Fine) || (io.answer == Failed && !io.contextDone))) ==>
              mgr.State() == old(mgr.State()) && unchanged(old(mgr.live))
    ensures forall x :: x in old(mgr.live) && sent != Some(x) ==> unchanged(x)
    ensures mgr.nextGeneration == old(mgr.nextGeneration)
  {
    var dst := Destination(data);
    if dst.None? { return None; }
    var s := mgr.Lookup(dst.value);
    if s == null { return None; }
    sent := Some(s);
    if |io.icmp| != 0 {
      if !io.tunnel.Fine? {
        CloseSession(mgr, s);
        return;
      }
    }
    if !io.answer.Fine? {
      if Normal(io.answer, io.contextDone) { return; }
      CloseSession(mgr, s);
    }
  }

  /** One turn of the reader's loop: the packet read, or why there is none, and the tunnel's answer. */
  datatype Turn = Turn(contextDone: bool, read: Result<Bytes, Answer>, doneAtCheck: bool, tunnel: Answer)

  /** The packets the loop writes to the tunnel. */
  function Passed(turns: seq<Turn>, ips: seq<Addr>, server: TunnelAddresses): seq<Bytes> {
    if turns == [] || turns[0].contextDone then []
    else
      match turns[0].read
      case Err(_) => []
      case Ok(pkt) =>
        if !PrepareSessionPacket(pkt, ips, turns[0].doneAtCheck, server) then Passed(turns[1..], ips, server)
        else if !turns[0].tunnel.Fine? then []
        else [pkt] + Passed(turns[1..], ips, server)
  }

  /** The loop ends by closing the session. */
  predicate Breaks(turns: seq<Turn>, ips: seq<Addr>, server: TunnelAddresses) {
    if turns == [] || turns[0].contextDone then false
    else
      match turns[0].read
      case Err(e) => !Normal(e, turns[0].doneAtCheck)
      case Ok(pkt) =>
        if PrepareSessionPacket(pkt, ips, turns[0].doneAtCheck, server) && !turns[0].tunnel.Fine? then true
        else Breaks(turns[1..], ips, server)
  }

  method SessionReader(s: Session, mgr: Manager, server: TunnelAddresses, turns: seq<Turn>)
      returns (written: seq<Bytes>)
    requires Healthy(mgr) && s.conn.Some? && s.manager == mgr
    modifies mgr, s
    ensures written == Passed(turns, s.desc.ips, server)
    ensures Healthy(mgr) && mgr.nextGeneration == old(mgr.nextGeneration)
    ensures mgr.live == old(mgr.live) - (if Breaks(turns, s.desc.ips, server) then {s} else {})
    ensures s.closed == (old(s.closed) || Breaks(turns, s.desc.ips, server))
    ensures !old(s.closed) && s.closed ==> s.cancelled && s.connClosed
  {
    written := [];
    ghost var ips := s.desc.ips;
    for i := 0 to |turns|
      invariant written + Passed(turns[i..], ips, server) == Passed(turns, ips, server)
      invariant Breaks(turns[i..], ips, server) == Breaks(turns, ips, server)
      invariant Healthy(mgr) && unchanged(mgr) && unchanged(s)
    {
      var turn := turns[i];
      assert turns[i..][0] == turn && turns[i..][1..] == turns[i + 1..];
      if turn.contextDone { return; }
      if turn.read.Err? {
        if !Normal(turn.read.error, turn.doneAtCheck) { CloseSession(mgr, s); }
        return;
      }
      var pkt := turn.read.value;
      if !PrepareSessionPacket(pkt, s.desc.ips, turn.doneAtCheck, server) { continue; }
      if !turn.tunnel.Fine? {
        CloseSession(mgr, s);
        return;
      }
      written := written + [pkt];
    }
  }

  // ---- what the loop writes, turn by turn ----

  /**
   The packet parses, comes from an address of the session, goes to neither network of the server, and the
   context is not done.
   */
  predicate Forwards(turn: Turn, ips: seq<Addr>, server: TunnelAddresses) {
    && turn.read.Ok?
    && ParseOf(turn.read.value).Some?
    && var info := ParseOf(turn.read.value).value;
       && info.source in ips
       && !(server.ipv4.IsValid() && Contains(server.ipv4, info.destination))
       && !(server.ipv6.IsValid() && Contains(server.ipv6, info.destination))
       && !turn.doneAtCheck
  }

  /** The loop ends in this turn: the context is done, the read fails, or the write of a packet to be forwarded does. */
  predicate Ends(turn: Turn, ips: seq<Addr>, server: TunnelAddresses) {
    turn.contextDone || turn.read.Err? || (Forwards(turn, ips, server) && turn.tunnel != Fine)
  }

  /** It ends by closing the session: the read error is not one of closing, or the write failed. */
  predicate EndsClosing(turn: Turn, ips: seq<Addr>, server: TunnelAddresses) {
    && !turn.contextDone
    && (|| (turn.read.Err? && turn.read.error != Ended && !turn.doneAtCheck)
        || (Forwards(turn, ips, server) && turn.tunnel != Fine))
  }

  /** The n-th turn is the first in which the loop ends; n is the number of turns if there is none. */
  ghost predicate FirstEnd(turns: seq<Turn>, ips: seq<Addr>, server: TunnelAddresses, n: nat) {
    && n <= |turns|
    && (forall i :: 0 <= i < n ==> !Ends(turns[i], ips, server))
    && (n < |turns| ==> Ends(turns[n], ips, server))
  }

  /** The packets are those of the turns `at`, in order: of all turns before the n-th that are kept. */
  ghost predicate Selects(turns: seq<Turn>, keep: Turn -> bool, n: nat, at: seq<nat>, packets: seq<Bytes>)
    requires n <= |turns|
  {
    && |at| == |packets|
    && (forall i, j :: 0 <= i < j < |at| ==> at[i] < at[j])
    && (forall k :: 0 <= k < |at| ==> at[k] < n && keep(turns[at[k]]) && turns[at[k]].read == Ok(packets[k]))
    && (forall i :: 0 <= i < n && keep(turns[i]) ==> i in at)
  }

  lemma SelectsOneMore(turns: seq<Turn>, keep: Turn -> bool, n: nat, at: seq<nat>, packets: seq<Bytes>)
    requires n < |turns| && Selects(turns, keep, n, at, packets)
    ensures !keep(turns[n]) ==> Selects(turns, keep, n + 1, at, packets)
    ensures keep(turns[n]) && turns[n].read.Ok? ==>
              Selects(turns, keep, n + 1, at + [n], packets + [turns[n].read.value])
  {
    var a := at + [n];
    assert forall i :: i in at ==> i in a;
    assert a[|at|] == n;
  }

  /** One turn of the loop. */
  lemma TurnOfTheLoop(turns: seq<Turn>, ips: seq<Addr>, server: TunnelAddresses, n: nat)
    requires n < |turns|
    ensures Ends(turns[n], ips, server) ==>
              && Passed(turns[n..], ips, server) == []
              && (Breaks(turns[n..], ips, server) <==> EndsClosing(turns[n], ips, server))
    ensures !Ends(turns[n], ips, server) ==>
              && turns[n].read.Ok?
              && Breaks(turns[n..], ips, server) == Breaks(turns[n + 1..], ips, server)
              && Passed(turns[n..], ips, server)
                 == (if Forwards(turns[n], ips, server) then [turns[n].read.value] else [])
                    + Passed(turns[n + 1..], ips, server)
  {
    assert turns[n..][0] == turns[n] && turns[n..][1..] == turns[n + 1..];
    assert [] + Passed(turns[n + 1..], ips, server) == Passed(turns[n + 1..], ips, server);
  }

  /**
   The loop ends in turn n and has written the packets of the turns `at`; `closes` says whether it closes the session.
   */
  ghost predicate Outcome(turns: seq<Turn>, ips: seq<Addr>, server: TunnelAddresses,
                          n: nat, at: seq<nat>, written: seq<Bytes>, closes: bool)
  {
    && FirstEnd(turns, ips, server, n)
    && Selects(turns, (t: Turn) => Forwards(t, ips, server), n, at, written)
    && (closes <==> n < |turns| && EndsClosing(turns[n], ips, server))
  }

  /** What the first n turns, none of which ended the loop, have written. */
  ghost predicate SoFar(
      turns: seq<Turn>, ips: seq<Addr>, server: TunnelAddresses, n: nat, at: seq<nat>, packets: seq<Bytes>)
  {
    && n <= |turns| && (forall i :: 0 <= i < n ==> !Ends(turns[i], ips, server))
    && Selects(turns, (t: Turn) => Forwards(t, ips, server), n, at, packets)
  }

  lemma LoopGoesOn(turns: seq<Turn>, ips: seq<Addr>, server: TunnelAddresses, n: nat, at: seq<nat>, packets: seq<Bytes>)
      returns (at': seq<nat>, packets': seq<Bytes>)
    requires SoFar(turns, ips, server, n, at, packets) && n < |turns| && !Ends(turns[n], ips, server)
    ensures SoFar(turns, ips, server, n + 1, at', packets')
    ensures packets' + Passed(turns[n + 1..], ips, server) == packets + Passed(turns[n..], ips, server)
    ensures Breaks(turns[n..], ips, server) == Breaks(turns[n + 1..], ips, server)
  {
    TurnOfTheLoop(turns, ips, server, n);
    SelectsOneMore(turns, (t: Turn) => Forwards(t, ips, server), n, at, packets);
    var rest := Passed(turns[n + 1..], ips, server);
    if Forwards(turns[n], ips, server) {
      at', packets' := at + [n], packets + [turns[n].read.value];
      assert packets + ([turns[n].read.value] + rest) == packets' + rest;
    } else {
      at', packets' := at, packets;
      assert [] + rest == rest;
    }
  }

  lemma LoopEnds(turns: seq<Turn>, ips: seq<Addr>, server: TunnelAddresses, n: nat, at: seq<nat>, packets: seq<Bytes>)
    requires SoFar(turns, ips, server, n, at, packets) && (n == |turns| || Ends(turns[n], ips, server))
    ensures Outcome(turns, ips, server, n, at,
                    packets + Passed(turns[n..], ips, server), Breaks(turns[n..], ips, server))
  {
    if n < |turns| { TurnOfTheLoop(turns, ips, server, n); }
    assert packets + [] == packets;
  }

  /** The rest of the loop. */
  lemma {:induction false} WrittenFrom(
      turns: seq<Turn>, ips: seq<Addr>, server: TunnelAddresses, n: nat, at: seq<nat>, packets: seq<Bytes>)
      returns (n': nat, at': seq<nat>)
    requires SoFar(turns, ips, server, n, at, packets)
    ensures Outcome(turns, ips, server, n', at',
                    packets + Passed(turns[n..], ips, server), Breaks(turns[n..], ips, server))
    decreases |turns| - n
  {
    if n == |turns| || Ends(turns[n], ips, server) {
      LoopEnds(turns, ips, server, n, at, packets);
      return n, at;
    }
    var at1, packets1 := LoopGoesOn(turns, ips, server, n, at, packets);
    n', at' := WrittenFrom(turns, ips, server, n + 1, at1, packets1);
  }

  /**
   The loop writes exactly the packets to be forwarded of the turns before the first in which it ends, in order;
   and it closes the session exactly if that turn calls for it.
   */
  lemma WrittenExactly(turns: seq<Turn>, ips: seq<Addr>, server: TunnelAddresses) returns (n: nat, at: seq<nat>)
    ensures Outcome(turns, ips, server, n, at, Passed(turns, ips, server), Breaks(turns, ips, server))
  {
    n, at := WrittenFrom(turns, ips, server, 0, [], []);
    assert turns[0..] == turns && [] + Passed(turns, ips, server) == Passed(turns, ips, server);
  }

  /** The first turn that ends the loop, and the turns whose packets it writes, are determined: so is what it writes. */
  lemma OutcomeIsUnique(turns: seq<Turn>, ips: seq<Addr>, server: TunnelAddresses,
                        n: nat, at: seq<nat>, written: seq<Bytes>, closes: bool,
                        n': nat, at': seq<nat>, written': seq<Bytes>, closes': bool)
    requires Outcome(turns, ips, server, n, at, written, closes)
    requires Outcome(turns, ips, server, n', at', written', closes')
    ensures n == n' && closes == closes' && at == at' && written == written'
  {
    SameTurns(at, at');
    forall k | 0 <= k < |at| ensures written[k] == written'[k] {
      assert turns[at[k]].read == Ok(written[k]) && turns[at'[k]].read == Ok(written'[k]);
    }
  }

  /** Two increasing lists with the same elements are the same. */
  lemma {:induction false} SameTurns(a: seq<nat>, b: seq<nat>)
    requires forall i, j :: 0 <= i < j < |a| ==> a[i] < a[j]
    requires forall i, j :: 0 <= i < j < |b| ==> b[i] < b[j]
    requires forall x :: x in a <==> x in b
    ensures a == b
    decreases |a|
  {
    if a == [] {
      assert forall k :: 0 <= k < |b| ==> b[k] in a;
    } else {
      assert a[0] in b && b[0] in a;
      var i :| 0 <= i < |b| && b[i] == a[0];
      var j :| 0 <= j < |a| && a[j] == b[0];
      forall x ensures x in a[1..] <==> x in b[1..] {
        if x in a[1..] { assert x in a && x != a[0]; }
        if x in b[1..] { assert x in b && x != b[0]; }
      }
      SameTurns(a[1..], b[1..]);
    }
  }

  /**
   Whatever a client sends, what its reader writes to the tunnel comes from the client's own
   addresses and goes to no client and not to the server.
   */
  lemma {:induction false} PassedPacketsAreOwn(
      turns: seq<Turn>, server: TunnelAddresses, clients: seq<ResolvedClient>, d: Desc, pkt: Bytes)
    requires Good(server, clients) && d in Descs(clients) && pkt in Passed(turns, d.ips, server)
    ensures Source(pkt).Some? && OwnedBy(clients, Source(pkt).value, d.identity)
    ensures Destination(pkt).Some? && Destination(pkt).value !in server.Addresses()
    ensures forall k :: 0 <= k < |clients| ==> Destination(pkt).value !in clients[k].Addresses()
    decreases |turns|
  {
    if PrepareSessionPacket(pkt, d.ips, false, server) {
      PassedPacketIsOwn(server, clients, d, pkt);
    } else {
      PassedPacketsAreOwn(turns[1..], server, clients, d, pkt);
    }
  }
}
