/**
 Sessions and their manager as the server updates them in place
 (`internal/connectip/session/manager.go`). Each method is proved against the functions of
 Registry; locks are not represented here, a method body is one critical section at a time
 (Machine has the interleavings).
 */
module SessionManager {
  import opened Common
  import opened NetAddr
  import opened Registry

  /** An opaque handle for a CONNECT-IP connection. */
  type ConnId = nat

  type ValidDesc = d: Desc | d.Valid() witness Desc("", [V4(0)])

  datatype Panic = NoAddress | NotAPlainAddress | SeveralIPv4 | SeveralIPv6

  datatype ReplaceError = SessionOrConnectionMissing | RegistrationRefused(why: Refusal)

  function Describe(s: Session): Desc {
    s.desc
  }

  class Session {
    const desc: ValidDesc          // Identity and ClientIPs
    const clientIPv4: Addr
    const clientIPv6: Addr
    const conn: Option<ConnId>
    var generation: nat
    var manager: Manager?
    var cancelled: bool            // the session's context is done
    var connClosed: bool           // Close was called on the connection
    var removed: bool
    var closed: bool               // closeOnce has run

    constructor (desc: ValidDesc, v4: Addr, v6: Addr, conn: Option<ConnId>)
      ensures this.desc == desc && clientIPv4 == v4 && clientIPv6 == v6 && this.conn == conn
      ensures manager == null && generation == 0 && !cancelled && !connClosed && !removed && !closed
    {
      this.desc, clientIPv4, clientIPv6, this.conn := desc, v4, v6, conn;
      generation, manager := 0, null;
      cancelled, connClosed, removed, closed := false, false, false, false;
    }

    method OwnsAddress(ip: Addr) returns (r: bool)
      ensures r <==> ip in desc.ips
    {
      for i := 0 to |desc.ips|
        invariant ip !in desc.ips[..i]
      {
        if desc.ips[i] == ip { return true; }
      }
      return false;
    }

    /** One-shot: cancel, close the connection, leave the registry. */
    method Close()
      requires conn.Some?
      requires manager != null ==> manager.Valid()
      modifies this, manager
      ensures generation == old(generation) && manager == old(manager)
      ensures closed && (manager != null ==> manager.nextGeneration == old(manager.nextGeneration))
      ensures old(closed) ==> cancelled == old(cancelled) && connClosed == old(connClosed) && removed == old(removed)
      ensures !old(closed) ==> cancelled && connClosed && removed == (old(removed) || manager != null)
      ensures manager != null ==>
                && manager.Valid()
                && manager.live == old(manager.live) - (if old(closed) || old(removed) then {} else {this})
                && manager.Entries() == if old(closed) || old(removed) then old(manager.Entries())
                                        else Remove(old(manager.Entries()), this, Describe)
    {
      if !closed {
        cancelled := true;
        connClosed := true;
        if manager != null {
          var _ := manager.RemoveIfCurrent(this);
        }
        closed := true;
      }
    }
  }

  /** Builds a session; the code panics where this returns a Panic. */
  method NewWithAddresses(ips: seq<Addr>, identity: string, conn: Option<ConnId>) returns (r: Result<Session, Panic>)
    ensures r.Ok? <==> Desc(identity, ips).Valid()
    ensures r.Ok? <==> && (|ips| == 1 || (|ips| == 2 && ips[0].V4? != ips[1].V4?))
                       && forall i :: 0 <= i < |ips| ==>
                            && !ips[i].NoAddr?
                            && (ips[i].V6? ==>
                                  ips[i].zone == "" && !(0xffff_0000_0000 <= ips[i].v6 < 0x1_0000_0000_0000))
    ensures r == Err(NoAddress) <==> ips == []
    ensures r == Err(SeveralIPv4) ==> exists i, j :: 0 <= i < j < |ips| && ips[i].V4? && ips[j].V4?
    ensures r == Err(SeveralIPv6) ==> exists i, j :: 0 <= i < j < |ips| && ips[i].V6? && ips[j].V6?
    ensures r == Err(NotAPlainAddress) ==>
              exists i :: 0 <= i < |ips| && (!ips[i].IsValid() || ips[i].Is4In6() || ips[i].HasZone())
    ensures r.Ok? ==> fresh(r.value) && r.value.desc == Desc(identity, ips) && r.value.conn == conn
    ensures r.Ok? ==> r.value.manager == null && !r.value.removed && !r.value.closed && !r.value.cancelled
    ensures r.Ok? ==> r.value.clientIPv4.NoAddr? || r.value.clientIPv4.V4?
    ensures r.Ok? ==> r.value.clientIPv6.NoAddr? || r.value.clientIPv6.V6?
    ensures r.Ok? ==>
              forall ip :: ip in ips <==> ip.IsValid() && (ip == r.value.clientIPv4 || ip == r.value.clientIPv6)
  {
    if |ips| == 0 { return Err(NoAddress); }
    var v4, v6 := NoAddr, NoAddr;
    for i := 0 to |ips|
      invariant forall ip :: ip in ips[..i] ==> ip.IsValid() && !ip.Is4In6() && !ip.HasZone()
      invariant v4 == NoAddr || v4.V4?
      invariant v6 == NoAddr || v6.V6?
      invariant i == (if v4.IsValid() then 1 else 0) + (if v6.IsValid() then 1 else 0)
      invariant forall ip :: ip in ips[..i] <==> ip.IsValid() && (ip == v4 || ip == v6)
    {
      var a := ips[i];
      assert ips[..i + 1] == ips[..i] + [a];
      if !a.IsValid() || a.Is4In6() || a.HasZone() {
        assert a in ips;
        return Err(NotAPlainAddress);
      }
      if a.V4? {
        if v4.IsValid() {
          assert v4 in ips[..i];
          SameFamilyTwice(ips, i, v4);
          return Err(SeveralIPv4);
        }
        v4 := a;
      } else {
        if v6.IsValid() {
          assert v6 in ips[..i];
          SameFamilyTwice(ips, i, v6);
          return Err(SeveralIPv6);
        }
        v6 := a;
      }
    }
    assert ips[..|ips|] == ips;
    var s := new Session(Desc(identity, ips), v4, v6, conn);
    return Ok(s);
  }

  lemma SameFamilyTwice(ips: seq<Addr>, i: nat, a: Addr)
    requires i < |ips| && a in ips[..i] && a.V4? == ips[i].V4?
    ensures forall identity :: !Desc(identity, ips).Valid()
  {
    var j :| 0 <= j < i && ips[j] == a;
  }

  /** The tables stand for the live sessions, within the limit. */
  ghost predicate Sound(entries: Tables<Session>, live: set<Session>, maxSessions: int) {
    Represents(entries, live, Describe) && (maxSessions > 0 ==> |live| <= maxSessions)
  }

  class Manager {
    var sessions4: map<Addr, Session>
    var sessions6: map<Addr, Session>
    const maxSessions: int
    var nextGeneration: nat
    ghost var live: set<Session>   // the sessions the tables stand for

    function Entries(): Tables<Session>
      reads this`sessions4, this`sessions6
    {
      Tables(sessions4, sessions6)
    }

    ghost function State(): ManagerState<Session>
      reads this`sessions4, this`sessions6, this`nextGeneration, this`live
    {
      ManagerState(Entries(), live, nextGeneration)
    }

    /** The tables stand for the live sessions, within the limit. */
    ghost predicate Valid()
      reads this`sessions4, this`sessions6, this`live
    {
      Sound(Entries(), live, maxSessions)
    }

    /** The live sessions know their manager, so that closing one removes it. */
    ghost predicate Attached()
      reads this`live, live
    {
      forall s :: s in live ==> s.manager == this && s.conn.Some?
    }

    constructor (maxSessions: int)
      ensures Valid() && live == {} && this.maxSessions == maxSessions && nextGeneration == 0
    {
      sessions4, sessions6 := map[], map[];
      live := {};
      this.maxSessions := maxSessions;
      nextGeneration := 0;
      new;
      EmptyRepresents(Describe);
    }

    method LookupLocked(ip: Addr) returns (r: Session?)
      ensures r == match Registry.Lookup(Entries(), ip) case None => null case Some(s) => s
    {
      if ip.V4? { return if ip in sessions4 then sessions4[ip] else null; }
      if ip.V6? { return if ip in sessions6 then sessions6[ip] else null; }
      return null;
    }

    /** The one live session that owns the address, or null when none does. */
    method Lookup(ip: Addr) returns (r: Session?)
      requires Valid()
      ensures r == null ==> forall s :: s in live ==> ip !in s.desc.ips
      ensures r != null ==> r in live && ip in r.desc.ips && forall s :: s in live && ip in s.desc.ips ==> s == r
    {
      r := LookupLocked(ip);
      assert forall s :: s in live && ip in s.desc.ips ==> ip in Describe(s).ips;
    }

    method MapAddressLocked(ip: Addr, s: Session)
      modifies this`sessions4, this`sessions6
      ensures Entries() == MapAddress(old(Entries()), ip, s)
    {
      if ip.V4? {
        sessions4 := sessions4[ip := s];
      } else {
        sessions6 := sessions6[ip := s];
      }
    }

    // ---- counting and listing ----

    method CountLocked() returns (n: nat)
      ensures n == |Live(Entries())|
    {
      var seen: set<Session> := {};
      seen := SeeValues(sessions4, seen);
      seen := SeeValues(sessions6, seen);
      return |seen|;
    }

    method Len() returns (n: nat)
      requires Valid()
      ensures n == |live|
    {
      n := CountLocked();
      RepresentsLive(Entries(), live, Describe);
    }

    method SnapshotLocked() returns (out: seq<Session>)
      ensures NoDuplicates(out) && (set s | s in out) == Live(Entries())
    {
      var seen: set<Session> := {};
      out := [];
      seen, out := AppendSessions(sessions4, seen, out);
      seen, out := AppendSessions(sessions6, seen, out);
    }

    /** Each live session once. */
    method Snapshot() returns (out: seq<Session>)
      requires Valid()
      ensures NoDuplicates(out) && (set s | s in out) == live && |out| == |live|
    {
      out := SnapshotLocked();
      CountNoDuplicates(out);
      RepresentsLive(Entries(), live, Describe);
    }

    // ---- removing ----

    /** The loop over a session's addresses that drops its current entries. */
    method DropEntries(s: Session) returns (removed: bool)
      modifies this`sessions4, this`sessions6
      ensures Entries() == Remove(old(Entries()), s, Describe)
      ensures removed <==> exists ip :: ip in s.desc.ips && Registry.Lookup(old(Entries()), ip) == Some(s)
    {
      ghost var t := Entries();
      var ips := s.desc.ips;
      removed := false;
      UnmapNothing(t, s);
      for i := 0 to |ips|
        invariant Entries() == Unmap(t, s, ips[..i])
        invariant removed <==> exists ip :: ip in ips[..i] && Registry.Lookup(t, ip) == Some(s)
      {
        var ip := ips[i];
        assert ips[..i + 1] == ips[..i] + [ip];
        LookupAfterUnmap(t, s, ips[..i], ip);
        UnmapOneMore(t, s, ips[..i], ip);
        var current := LookupLocked(ip);
        if current == s {
          if ip.V4? {
            sessions4 := sessions4 - {ip};
          } else {
            sessions6 := sessions6 - {ip};
          }
          removed := true;
        }
      }
      assert ips[..|ips|] == ips;
    }

    /** The critical section of RemoveIfCurrent. */
    method DropCurrent(s: Session) returns (removed: bool)
      requires Valid()
      modifies this`sessions4, this`sessions6, this`live
      ensures Valid() && live == old(live) - {s}
      ensures Entries() == Remove(old(Entries()), s, Describe)
      ensures removed == (s in old(live))
    {
      RemoveRefinesDelete(Entries(), live, Describe, s);
      removed := DropEntries(s);
      live := live - {s};
    }

    method RemoveIfCurrent(s: Session?) returns (r: bool)
      requires Valid()
      modifies this`sessions4, this`sessions6, this`live, s
      ensures Valid()
      ensures s == null ==> !r && live == old(live) && Entries() == old(Entries())
      ensures s != null ==>
                && s.removed && s.cancelled == old(s.cancelled) && s.connClosed == old(s.connClosed)
                && s.closed == old(s.closed) && s.generation == old(s.generation) && s.manager == old(s.manager)
                && r == (!old(s.removed) && s in old(live))
                && live == old(live) - (if old(s.removed) then {} else {s})
                && Entries() == if old(s.removed) then old(Entries()) else Remove(old(Entries()), s, Describe)
    {
      if s == null || s.removed { return false; }
      s.removed := true;
      r := DropCurrent(s);
    }

    // ---- replacing ----

    /** The live sessions of the same identity other than `s`. */
    ghost function Rivals(s: Session?): set<Session>
      reads this`live
    {
      set x | x in live && s != null && x != s && x.desc.identity == s.desc.identity
    }

    /**
     The sessions that have to make room for `s`, or the first of its addresses that another
     identity owns: first the live sessions of the same identity, then the owners of its addresses.
     */
    method CollectOld(s: Session) returns (conflict: Option<Addr>, oldSet: set<Session>)
      ensures conflict == FirstConflict(Entries(), s, Describe, s.desc.ips)
      ensures conflict.None? ==> oldSet == Evicted(Entries(), s, Describe)
    {
      ghost var t := Entries();
      var snapshot := SnapshotLocked();
      oldSet := {};
      for i := 0 to |snapshot|
        invariant oldSet == set x | x in snapshot[..i] && x != s && x.desc.identity == s.desc.identity
      {
        var current := snapshot[i];
        assert snapshot[..i + 1] == snapshot[..i] + [current];
        if current != s && current.desc.identity == s.desc.identity {
          oldSet := oldSet + {current};
        }
      }
      assert snapshot[..|snapshot|] == snapshot;
      assert oldSet == Evicted(t, s, Describe);
      var ips := s.desc.ips;
      for i := 0 to |ips|
        invariant FirstConflict(t, s, Describe, ips) == FirstConflict(t, s, Describe, ips[i..])
        invariant oldSet == Evicted(t, s, Describe)
      {
        var current := LookupLocked(ips[i]);
        if current == null || current == s { continue; }
        if current.desc.identity != s.desc.identity { return Some(ips[i]), {}; }
        OwnerIsLive(t, ips[i]);
        oldSet := oldSet + {current};
      }
      return None, oldSet;
    }

    /** The loop that drops the entries of the sessions that make room. */
    method DropAll(oldSet: set<Session>)
      modifies this`sessions4, this`sessions6
      ensures Entries() == UnmapAll(old(Entries()), oldSet, Describe)
    {
      ghost var t := Entries();
      var todo := oldSet;
      while todo != {}
        invariant todo <= oldSet
        invariant Entries() == UnmapAll(t, oldSet - todo, Describe)
        decreases todo
      {
        var x :| x in todo;
        UnmapAllOneMore(t, oldSet - todo, x);
        var _ := DropEntries(x);
        assert oldSet - (todo - {x}) == (oldSet - todo) + {x};
        todo := todo - {x};
      }
    }

    /** The loop that enters every address of the session. */
    method MapAddresses(s: Session)
      modifies this`sessions4, this`sessions6
      ensures Entries() == MapAll(old(Entries()), s, s.desc.ips)
    {
      ghost var t := Entries();
      for i := 0 to |s.desc.ips|
        invariant Entries() == MapAll(t, s, s.desc.ips[..i])
      {
        MapAddressLocked(s.desc.ips[i], s);
        assert s.desc.ips[..i + 1][..i] == s.desc.ips[..i];
      }
      assert s.desc.ips[..|s.desc.ips|] == s.desc.ips;
    }

    /** The checks of Replace. */
    method Decide(s: Session) returns (r: Result<set<Session>, Refusal>)
      ensures r == Verdict(Entries(), s, Describe, maxSessions)
    {
      var conflict, oldSet := CollectOld(s);
      if conflict.Some? { return Err(Owned(conflict.value)); }
      var active := CountLocked();
      if |oldSet| > 0 { active := active - |oldSet|; }
      if maxSessions > 0 && active >= maxSessions { return Err(CapacityExhausted); }
      return Ok(oldSet);
    }

    /** The part of Replace that changes the registry. */
    method Enter(s: Session, oldSet: set<Session>)
      modifies this`sessions4, this`sessions6, this`nextGeneration, this`live, s`generation, s`manager
      ensures State() == old(State()).Enter(s, Describe, oldSet)
      ensures s.generation == nextGeneration && s.manager == this
    {
      DropAll(oldSet);
      nextGeneration := (nextGeneration + 1) % GENERATIONS;
      s.generation := nextGeneration;
      s.manager := this;
      MapAddresses(s);
      live := live - oldSet + {s};
    }

    lemma Admits(s: Session, evicted: set<Session>)
      requires Valid() && Verdict(Entries(), s, Describe, maxSessions) == Ok(evicted)
      ensures evicted == Rivals(s) && |evicted| <= 1
      ensures var after := State().Enter(s, Describe, evicted); Sound(after.entries, after.live, maxSessions)
    {
      ReplaceRefinesInsert(Entries(), live, Describe, s, maxSessions, evicted);
    }

    /** The critical section of Replace. */
    method Register(s: Session) returns (r: Result<set<Session>, Refusal>)
      requires Valid() && Attached() && s.conn.Some?
      modifies this`sessions4, this`sessions6, this`nextGeneration, this`live, s`generation, s`manager
      ensures Valid() && Attached()
      ensures r == Verdict(old(Entries()), s, Describe, maxSessions)
      ensures r.Err? ==> State() == old(State()) && s.generation == old(s.generation) && s.manager == old(s.manager)
      ensures r.Ok? ==>
                && State() == old(State()).Enter(s, Describe, r.value)
                && r.value == old(Rivals(s)) && |r.value| <= 1
                && s.generation == nextGeneration && s.manager == this
    {
      r := Decide(s);
      if r.Ok? {
        Admits(s, r.value);
        Enter(s, r.value);
      }
    }

    /** Closing an evicted session finds nothing of it in the registry. */
    method CloseEvicted(previous: Session)
      requires Valid() && Attached()
      requires previous !in live && previous.manager == this && previous.conn.Some?
      modifies this, previous
      ensures Valid() && Attached()
      ensures State() == old(State())
      ensures previous.generation == old(previous.generation) && previous.manager == old(previous.manager)
      ensures previous.closed && previous.removed == (old(previous.removed) || !old(previous.closed))
      ensures !old(previous.closed) ==> previous.cancelled && previous.connClosed
    {
      RemoveRefinesDelete(Entries(), live, Describe, previous);
      previous.Close();
    }

    /** Closes the evicted sessions, after the critical section. */
    method CloseAll(oldSet: set<Session>) returns (out: seq<Session>)
      requires Valid() && Attached()
      requires oldSet !! live && forall x :: x in oldSet ==> x.manager == this && x.conn.Some?
      modifies this, oldSet
      ensures Valid() && Attached()
      ensures State() == old(State())
      ensures NoDuplicates(out) && (set x | x in out) == oldSet
      ensures forall x :: x in oldSet ==> x.closed
      ensures forall x :: x in oldSet && !old(x.closed) ==> x.cancelled && x.connClosed && x.removed
    {
      out := [];
      var todo := oldSet;
      while todo != {}
        invariant todo <= oldSet
        invariant Valid() && Attached()
        invariant State() == old(State())
        invariant forall x :: x in oldSet ==> x.manager == this
        invariant NoDuplicates(out) && (set x | x in out) == oldSet - todo
        invariant forall x :: x in oldSet - todo ==> x.closed
        invariant forall x :: x in oldSet - todo && !old(x.closed) ==> x.cancelled && x.connClosed && x.removed
        invariant forall x :: x in todo ==> x.closed == old(x.closed)
        decreases todo
      {
        var previous :| previous in todo;
        assert (set x | x in out + [previous]) == (set x | x in out) + {previous};
        out := out + [previous];
        CloseEvicted(previous);
        todo := todo - {previous};
      }
    }

    /**
     Registers every address of `s` in one step. A refusal changes nothing; otherwise at most one
     session is evicted, it had the same identity, and it is closed afterwards. No other session
     is touched.
     */
    method Replace(s: Session?) returns (r: Result<seq<Session>, ReplaceError>)
      requires Valid() && Attached()
      modifies this, s, Rivals(s)
      ensures Valid() && Attached()
      ensures r.Err? ==> State() == old(State()) && (s != null ==> unchanged(s)) && unchanged(old(Rivals(s)))
      ensures s == null || s.conn.None? ==> r == Err(SessionOrConnectionMissing)
      ensures s != null && s.conn.Some? ==>
                match Verdict(old(Entries()), s, Describe, maxSessions)
                case Err(why) => r == Err(RegistrationRefused(why))
                case Ok(evicted) => r.Ok? && NoDuplicates(r.value) && (set x | x in r.value) == evicted
      ensures r.Ok? ==>
                && s != null && s.conn.Some? && |r.value| <= 1
                && State() == old(State()).Enter(s, Describe, set x | x in r.value)
                && s.generation == nextGeneration && s.manager == this
      ensures r.Ok? ==> (set x | x in r.value) == old(Rivals(s))
      ensures r.Ok? ==> s.closed == old(s.closed) && s.removed == old(s.removed) && s.cancelled == old(s.cancelled)
      ensures r.Ok? ==> forall x :: x in old(Rivals(s)) ==>
                x.closed && (old(x.closed) || (x.cancelled && x.connClosed && x.removed))
    {
      if s == null || s.conn.None? { return Err(SessionOrConnectionMissing); }
      var oldSet := Register(s);
      if oldSet.Err? { return Err(RegistrationRefused(oldSet.error)); }
      var previous := CloseAll(oldSet.value);
      CountNoDuplicates(previous);
      return Ok(previous);
    }
  }

  // ---- loops over a table ----

  ghost predicate NoDuplicates<T>(s: seq<T>) {
    forall i, j :: 0 <= i < j < |s| ==> s[i] != s[j]
  }

  lemma {:induction false} CountNoDuplicates<T>(s: seq<T>)
    requires NoDuplicates(s)
    ensures |set x | x in s| == |s|
    decreases |s|
  {
    if s != [] {
      var front, last := s[..|s| - 1], s[|s| - 1];
      CountNoDuplicates(front);
      assert (set x | x in s) == (set x | x in front) + {last};
    }
  }

  method SeeValues(table: map<Addr, Session>, seen: set<Session>) returns (r: set<Session>)
    ensures r == seen + table.Values
  {
    r := seen;
    var todo := table.Keys;
    while todo != {}
      invariant todo <= table.Keys
      invariant r == seen + (set ip | ip in table.Keys - todo :: table[ip])
      decreases todo
    {
      var ip :| ip in todo;
      r := r + {table[ip]};
      todo := todo - {ip};
    }
    assert (set ip | ip in table.Keys - todo :: table[ip]) == table.Values;
  }

  method AppendSessions(table: map<Addr, Session>, seen: set<Session>, out: seq<Session>)
      returns (seen': set<Session>, out': seq<Session>)
    requires NoDuplicates(out) && seen == set s | s in out
    ensures NoDuplicates(out') && seen' == (set s | s in out') == seen + table.Values
  {
    seen', out' := seen, out;
    var todo := table.Keys;
    while todo != {}
      invariant todo <= table.Keys
      invariant NoDuplicates(out') && seen' == set s | s in out'
      invariant seen' == seen + (set ip | ip in table.Keys - todo :: table[ip])
      decreases todo
    {
      var ip :| ip in todo;
      var s := table[ip];
      if s !in seen' {
        ghost var before := out';
        seen' := seen' + {s};
        out' := out' + [s];
        assert (set x | x in out') == (set x | x in before) + {s};
      }
      todo := todo - {ip};
    }
    assert (set ip | ip in table.Keys - todo :: table[ip]) == table.Values;
  }

  // ---- one address at a time ----

  lemma UnmapNothing<S>(t: Tables<S>, s: S)
    ensures Unmap(t, s, []) == t
  {
  }

  lemma UnmapOneMore<S>(t: Tables<S>, s: S, ips: seq<Addr>, ip: Addr)
    ensures Unmap(t, s, ips + [ip]) ==
            if Registry.Lookup(Unmap(t, s, ips), ip) != Some(s) then Unmap(t, s, ips)
            else if ip.V4? then Unmap(t, s, ips).(t4 := Unmap(t, s, ips).t4 - {ip})
            else Unmap(t, s, ips).(t6 := Unmap(t, s, ips).t6 - {ip})
  {
  }

  lemma OwnerIsLive<S>(t: Tables<S>, ip: Addr)
    ensures Registry.Lookup(t, ip).Some? ==> Registry.Lookup(t, ip).value in Live(t)
  {
  }

  lemma UnmapAllOneMore(t: Tables<Session>, olds: set<Session>, x: Session)
    ensures Remove(UnmapAll(t, olds, Describe), x, Describe) == UnmapAll(t, olds + {x}, Describe)
  {
  }
}
