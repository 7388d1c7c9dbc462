/**
 The session registry as values (`internal/connectip/session/manager.go`): the two address
 tables, what `Replace` and `RemoveIfCurrent` make of them, and the set of live sessions they
 stand for. Sessions are of any type `S`; `who` gives a session's identity and addresses.
 The class Manager and the interleaving machine are both stated in these terms.
 */
module Registry {
  import opened Common
  import opened NetAddr

  datatype Desc = Desc(identity: string, ips: seq<Addr>) {

    /** What session construction demands of the addresses; it panics otherwise. */
    predicate Valid() {
      && (|ips| == 1 || (|ips| == 2 && ips[0].V4? != ips[1].V4?))
      && (forall ip :: ip in ips ==> ip.IsValid() && !ip.Is4In6() && !ip.HasZone())
    }
  }

  /** `sessions4` and `sessions6`. */
  datatype Tables<S> = Tables(t4: map<Addr, S>, t6: map<Addr, S>)

  function Lookup<S>(t: Tables<S>, ip: Addr): Option<S> {
    if ip.V4? then if ip in t.t4 then Some(t.t4[ip]) else None
    else if ip.V6? then if ip in t.t6 then Some(t.t6[ip]) else None
    else None
  }

  /** The session at an address, if there is one. */
  function OwnerOf<S>(t: Tables<S>, ip: Option<Addr>): Option<S> {
    match ip
    case None => None
    case Some(a) => Lookup(t, a)
  }

  function Live<S(==)>(t: Tables<S>): set<S> {
    t.t4.Values + t.t6.Values
  }

  /** Deletes the entries of `s` at its addresses. */
  function Unmap<S(==)>(t: Tables<S>, s: S, ips: seq<Addr>): Tables<S> {
    Tables(map ip | ip in t.t4 && !(ip.V4? && ip in ips && t.t4[ip] == s) :: t.t4[ip],
           map ip | ip in t.t6 && !(ip.V6? && ip in ips && t.t6[ip] == s) :: t.t6[ip])
  }

  /** Deletes the entries of every session of `olds` at its addresses. */
  function UnmapAll<S(==)>(t: Tables<S>, olds: set<S>, who: S -> Desc): Tables<S> {
    Tables(map ip | ip in t.t4 && !(ip.V4? && t.t4[ip] in olds && ip in who(t.t4[ip]).ips) :: t.t4[ip],
           map ip | ip in t.t6 && !(ip.V6? && t.t6[ip] in olds && ip in who(t.t6[ip]).ips) :: t.t6[ip])
  }

  function MapAddress<S>(t: Tables<S>, ip: Addr, s: S): Tables<S> {
    if ip.V4? then t.(t4 := t.t4[ip := s]) else t.(t6 := t.t6[ip := s])
  }

  function MapAll<S>(t: Tables<S>, s: S, ips: seq<Addr>): Tables<S> {
    if ips == [] then t else MapAddress(MapAll(t, s, ips[..|ips| - 1]), ips[|ips| - 1], s)
  }

  // ---- Replace and RemoveIfCurrent ----

  datatype Refusal = Owned(ip: Addr) | CapacityExhausted

  /** The live sessions of the same identity other than `s`. */
  function Evicted<S(==)>(t: Tables<S>, s: S, who: S -> Desc): set<S> {
    set x | x in Live(t) && x != s && who(x).identity == who(s).identity
  }

  predicate ConflictAt<S(==)>(t: Tables<S>, s: S, who: S -> Desc, ip: Addr) {
    match Lookup(t, ip)
    case None => false
    case Some(x) => x != s && who(x).identity != who(s).identity
  }

  /** The first address of the list that another identity owns. */
  function FirstConflict<S(==)>(t: Tables<S>, s: S, who: S -> Desc, ips: seq<Addr>): (r: Option<Addr>)
    ensures r.Some? ==> exists i :: 0 <= i < |ips| && ips[i] == r.value && ConflictAt(t, s, who, ips[i])
                                    && forall j :: 0 <= j < i ==> !ConflictAt(t, s, who, ips[j])
    ensures r.None? ==> forall ip :: ip in ips ==> !ConflictAt(t, s, who, ip)
  {
    if ips == [] then None
    else if ConflictAt(t, s, who, ips[0]) then Some(ips[0])
    else
      assert forall j :: 0 < j < |ips| ==> ips[j] == ips[1..][j - 1];
      FirstConflict(t, s, who, ips[1..])
  }

  predicate Full<S(==)>(t: Tables<S>, s: S, who: S -> Desc, maxSessions: int) {
    maxSessions > 0 && |Live(t)| - |Evicted(t, s, who)| >= maxSessions
  }

  /** The checks of Replace: the sessions that make room for `s`, or why it is refused. */
  function Verdict<S(==)>(t: Tables<S>, s: S, who: S -> Desc, maxSessions: int): Result<set<S>, Refusal> {
    var conflict := FirstConflict(t, s, who, who(s).ips);
    if conflict.Some? then Err(Owned(conflict.value))
    else if Full(t, s, who, maxSessions) then Err(CapacityExhausted)
    else Ok(Evicted(t, s, who))
  }

  /** The tables after `s` has taken the place of the evicted sessions. */
  function Entered<S(==)>(t: Tables<S>, s: S, who: S -> Desc, evicted: set<S>): Tables<S> {
    MapAll(UnmapAll(t, evicted, who), s, who(s).ips)
  }

  function Remove<S(==)>(t: Tables<S>, s: S, who: S -> Desc): Tables<S> {
    Unmap(t, s, who(s).ips)
  }

  const GENERATIONS := 0x1_0000_0000_0000_0000

  /** The generation counter is an unsigned 64-bit number. */
  function NextGeneration(g: nat): nat {
    (g + 1) % GENERATIONS
  }

  /** The counter counts up to 2^64 - 1 and starts again at zero. */
  lemma CounterOf64Bits(g: nat)
    ensures g < 0xffff_ffff_ffff_ffff ==> NextGeneration(g) == g + 1
    ensures NextGeneration(0xffff_ffff_ffff_ffff) == 0
  {
  }

  /** What a manager holds: its tables, the set of sessions they should stand for, and its counter. */
  datatype ManagerState<S(==)> = ManagerState(entries: Tables<S>, live: set<S>, nextGeneration: nat) {

    /** `s` takes the place of the evicted sessions and gets the next generation. */
    function Enter(s: S, who: S -> Desc, evicted: set<S>): ManagerState<S> {
      ManagerState(Entered(entries, s, who, evicted), live - evicted + {s}, NextGeneration(nextGeneration))
    }
  }

  // ---- the set the tables stand for ----

  /**
   The tables stand for the set of sessions `live`: an address maps to a session exactly when the
   session is in the set and has the address, in the table of the address's family; and no two
   sessions of the set have the same identity.
   */
  ghost predicate Represents<S>(t: Tables<S>, live: set<S>, who: S -> Desc) {
    && (forall ip :: ip in t.t4 ==> ip.V4?)
    && (forall ip :: ip in t.t6 ==> ip.V6?)
    && (forall ip :: Lookup(t, ip).Some? ==> Lookup(t, ip).value in live && ip in who(Lookup(t, ip).value).ips)
    && (forall x, ip :: x in live && ip in who(x).ips ==> Lookup(t, ip) == Some(x))
    && (forall x :: x in live ==> who(x).Valid())
    && (forall x, y {:trigger who(x).identity, who(y).identity} ::
          x in live && y in live && who(x).identity == who(y).identity ==> x == y)
  }

  lemma EmptyRepresents<S>(who: S -> Desc)
    ensures Represents(Tables(map[], map[]), {}, who)
  {
  }

  /** The tables determine the set. */
  lemma RepresentsLive<S>(t: Tables<S>, live: set<S>, who: S -> Desc)
    requires Represents(t, live, who)
    ensures live == Live(t)
  {
    forall x | x in live ensures x in Live(t) {
      var ip := who(x).ips[0];
      assert ip in who(x).ips && Lookup(t, ip) == Some(x);
    }
    forall x | x in Live(t) ensures x in live {
      if x in t.t4.Values {
        var ip :| ip in t.t4 && t.t4[ip] == x;
        assert Lookup(t, ip) == Some(x);
      } else {
        var ip :| ip in t.t6 && t.t6[ip] == x;
        assert Lookup(t, ip) == Some(x);
      }
    }
  }

  /** Two sessions of the set share no address. */
  lemma AddressesAreDisjoint<S>(t: Tables<S>, live: set<S>, who: S -> Desc, x: S, y: S, ip: Addr)
    requires Represents(t, live, who) && x in live && y in live
    requires ip in who(x).ips && ip in who(y).ips
    ensures x == y
  {
    assert Lookup(t, ip) == Some(x);
  }

  lemma LookupAfterUnmap<S>(t: Tables<S>, s: S, ips: seq<Addr>, ip: Addr)
    ensures Lookup(Unmap(t, s, ips), ip) == if ip in ips && Lookup(t, ip) == Some(s) then None else Lookup(t, ip)
  {
  }

  lemma {:induction false} LookupAfterMapAll<S>(t: Tables<S>, s: S, ips: seq<Addr>, ip: Addr)
    requires forall a :: a in ips ==> a.IsValid()
    ensures Lookup(MapAll(t, s, ips), ip) == if ip in ips then Some(s) else Lookup(t, ip)
    decreases |ips|
  {
    if ips != [] {
      var front, last := ips[..|ips| - 1], ips[|ips| - 1];
      assert ips == front + [last];
      LookupAfterMapAll(t, s, front, ip);
    }
  }

  lemma {:induction false} MapAllKeepsFamilies<S>(t: Tables<S>, s: S, ips: seq<Addr>)
    requires forall a :: a in ips ==> a.IsValid()
    requires (forall ip :: ip in t.t4 ==> ip.V4?) && (forall ip :: ip in t.t6 ==> ip.V6?)
    ensures (forall ip :: ip in MapAll(t, s, ips).t4 ==> ip.V4?) && (forall ip :: ip in MapAll(t, s, ips).t6 ==> ip.V6?)
    decreases |ips|
  {
    if ips != [] {
      assert ips[|ips| - 1] in ips;
      MapAllKeepsFamilies(t, s, ips[..|ips| - 1]);
    }
  }

  // ---- the operations on the set ----

  /** RemoveIfCurrent deletes the session from the set and leaves every other session's entries alone. */
  lemma RemoveRefinesDelete<S>(t: Tables<S>, live: set<S>, who: S -> Desc, s: S)
    requires Represents(t, live, who)
    ensures Represents(Remove(t, s, who), live - {s}, who)
    ensures s !in live ==> Remove(t, s, who) == t
    ensures forall ip :: Lookup(Remove(t, s, who), ip) == if Lookup(t, ip) == Some(s) then None else Lookup(t, ip)
    ensures s in live <==> exists ip :: ip in who(s).ips && Lookup(t, ip) == Some(s)
  {
    var t' := Remove(t, s, who);
    forall ip ensures Lookup(t', ip) == if Lookup(t, ip) == Some(s) then None else Lookup(t, ip) {
      LookupAfterUnmap(t, s, who(s).ips, ip);
    }
    if s !in live {
      forall ip | ip in t.t4 ensures t.t4[ip] != s { assert Lookup(t, ip) == Some(t.t4[ip]); }
      forall ip | ip in t.t6 ensures t.t6[ip] != s { assert Lookup(t, ip) == Some(t.t6[ip]); }
    } else {
      assert who(s).ips[0] in who(s).ips;
    }
  }

  lemma LookupAfterUnmapAll<S>(t: Tables<S>, live: set<S>, who: S -> Desc, olds: set<S>, ip: Addr)
    requires Represents(t, live, who)
    ensures Lookup(UnmapAll(t, olds, who), ip)
            == if Lookup(t, ip).Some? && Lookup(t, ip).value in olds then None else Lookup(t, ip)
  {
  }

  /** What a successful registration does: at most one session leaves, of the same identity, and `s` takes its place. */
  lemma ReplaceRefinesInsert<S>(t: Tables<S>, live: set<S>, who: S -> Desc, s: S, maxSessions: int, evicted: set<S>)
    requires Represents(t, live, who) && who(s).Valid()
    requires Verdict(t, s, who, maxSessions) == Ok(evicted)
    ensures evicted == set x | x in live && x != s && who(x).identity == who(s).identity
    ensures evicted <= live && s !in evicted && |evicted| <= 1
    ensures Represents(Entered(t, s, who, evicted), live - evicted + {s}, who)
    ensures maxSessions > 0 ==> |live - evicted + {s}| <= maxSessions
  {
    RepresentsLive(t, live, who);
    AtMostOneEvicted(t, live, who, s);
    MapAllKeepsFamilies(UnmapAll(t, evicted, who), s, who(s).ips);
    forall ip { LookupAfterReplace(t, live, who, s, evicted, ip); }
    InsertRepresents(t, live, who, s, evicted, Entered(t, s, who, evicted));
    RoomForOne(live, evicted, s, maxSessions);
  }

  /**
   A session passes the checks of Replace exactly when no live session of another identity has one of
   its addresses, and the sessions that would stay, itself included if it is registered, are fewer than a
   positive limit.
   */
  lemma AdmittedExactly<S>(t: Tables<S>, live: set<S>, who: S -> Desc, s: S, maxSessions: int)
    requires Represents(t, live, who)
    ensures Verdict(t, s, who, maxSessions).Ok?
            <==> && (forall x, ip :: x in live && ip in who(x).ips && ip in who(s).ips ==>
                       who(x).identity == who(s).identity)
                 && (maxSessions > 0 ==>
                       |set x | x in live && (x == s || who(x).identity != who(s).identity)| < maxSessions)
  {
    FullExactly(t, live, who, s, maxSessions);
    ConflictsAreForeignOwners(t, live, who, s);
  }

  /** A live session of another identity has the address. */
  ghost predicate ForeignOwner<S>(live: set<S>, who: S -> Desc, s: S, ip: Addr) {
    exists x :: x in live && ip in who(x).ips && who(x).identity != who(s).identity
  }

  /** The first address of the list that a live session of another identity has. */
  ghost predicate FirstForeign<S>(live: set<S>, who: S -> Desc, s: S, ips: seq<Addr>, ip: Addr) {
    exists i :: && 0 <= i < |ips| && ips[i] == ip && ForeignOwner(live, who, s, ips[i])
                && forall j :: 0 <= j < i ==> !ForeignOwner(live, who, s, ips[j])
  }

  lemma FirstConflictExactly<S>(t: Tables<S>, live: set<S>, who: S -> Desc, s: S, ips: seq<Addr>, ip: Addr)
    requires Represents(t, live, who)
    ensures FirstConflict(t, s, who, ips) == Some(ip) <==> FirstForeign(live, who, s, ips, ip)
    ensures FirstConflict(t, s, who, ips) == None
            <==> forall i :: 0 <= i < |ips| ==> !ForeignOwner(live, who, s, ips[i])
  {
    forall a | a in ips ensures ConflictAt(t, s, who, a) <==> ForeignOwner(live, who, s, a) {
      ConflictIsForeign(t, live, who, s, a);
    }
  }

  /**
   Why a session is refused: for the first of its addresses that a live session of another identity has; or, if
   there is none, because the sessions that would stay are as many as a positive limit.
   */
  lemma RefusedExactly<S>(t: Tables<S>, live: set<S>, who: S -> Desc, s: S, maxSessions: int, ip: Addr)
    requires Represents(t, live, who)
    ensures Verdict(t, s, who, maxSessions) == Err(Owned(ip)) <==> FirstForeign(live, who, s, who(s).ips, ip)
    ensures Verdict(t, s, who, maxSessions) == Err(CapacityExhausted)
            <==> && (forall i :: 0 <= i < |who(s).ips| ==> !ForeignOwner(live, who, s, who(s).ips[i]))
                 && maxSessions > 0
                 && |set x | x in live && (x == s || who(x).identity != who(s).identity)| >= maxSessions
  {
    FullExactly(t, live, who, s, maxSessions);
    FirstConflictExactly(t, live, who, s, who(s).ips, ip);
  }

  lemma ConflictIsForeign<S>(t: Tables<S>, live: set<S>, who: S -> Desc, s: S, ip: Addr)
    requires Represents(t, live, who)
    ensures ConflictAt(t, s, who, ip) <==> ForeignOwner(live, who, s, ip)
  {
    if x :| x in live && ip in who(x).ips && who(x).identity != who(s).identity {
      assert Lookup(t, ip) == Some(x);
    }
  }

  lemma FullExactly<S>(t: Tables<S>, live: set<S>, who: S -> Desc, s: S, maxSessions: int)
    requires Represents(t, live, who)
    ensures Full(t, s, who, maxSessions)
            <==> maxSessions > 0 && |set x | x in live && (x == s || who(x).identity != who(s).identity)| >= maxSessions
  {
    RepresentsLive(t, live, who);
    CountParts(live, (set x | x in live && (x == s || who(x).identity != who(s).identity)), Evicted(t, s, who));
  }

  lemma CountParts<S>(whole: set<S>, part: set<S>, rest: set<S>)
    requires part !! rest && forall x :: x in whole <==> x in part || x in rest
    ensures |part| == |whole| - |rest|
  {
    assert whole == part + rest;
  }

  lemma ConflictsAreForeignOwners<S>(t: Tables<S>, live: set<S>, who: S -> Desc, s: S)
    requires Represents(t, live, who)
    ensures FirstConflict(t, s, who, who(s).ips).None?
            <==> forall x, ip :: x in live && ip in who(x).ips && ip in who(s).ips ==>
                   who(x).identity == who(s).identity
  {
    var conflict := FirstConflict(t, s, who, who(s).ips);
    forall x, ip | x in live && ip in who(x).ips && ip in who(s).ips
      ensures ConflictAt(t, s, who, ip) <==> who(x).identity != who(s).identity
    {
      assert Lookup(t, ip) == Some(x);
    }
    if conflict.Some? {
      var ip := conflict.value;
      assert ConflictAt(t, s, who, ip) && ip in who(s).ips;
      var x := Lookup(t, ip).value;
      assert x in live && ip in who(x).ips && who(x).identity != who(s).identity;
    }
  }

  lemma LookupAfterReplace<S>(t: Tables<S>, live: set<S>, who: S -> Desc, s: S, evicted: set<S>, ip: Addr)
    requires Represents(t, live, who) && who(s).Valid()
    ensures Lookup(Entered(t, s, who, evicted), ip) ==
            if ip in who(s).ips then Some(s)
            else if Lookup(t, ip).Some? && Lookup(t, ip).value in evicted then None
            else Lookup(t, ip)
  {
    LookupAfterMapAll(UnmapAll(t, evicted, who), s, who(s).ips, ip);
    LookupAfterUnmapAll(t, live, who, evicted, ip);
  }

  lemma AtMostOneEvicted<S>(t: Tables<S>, live: set<S>, who: S -> Desc, s: S)
    requires Represents(t, live, who)
    ensures |Evicted(t, s, who)| <= 1
  {
    RepresentsLive(t, live, who);
    var e := Evicted(t, s, who);
    if x :| x in e {
      assert forall y :: y in e ==> y == x;
      assert e == {x};
    }
  }

  lemma InsertRepresents<S>(t: Tables<S>, live: set<S>, who: S -> Desc, s: S, evicted: set<S>, t': Tables<S>)
    requires Represents(t, live, who) && who(s).Valid()
    requires evicted == (set x | x in live && x != s && who(x).identity == who(s).identity)
    requires forall ip :: ip in who(s).ips ==> !ConflictAt(t, s, who, ip)
    requires (forall ip :: ip in t'.t4 ==> ip.V4?) && (forall ip :: ip in t'.t6 ==> ip.V6?)
    requires forall ip :: Lookup(t', ip) ==
               if ip in who(s).ips then Some(s)
               else if Lookup(t, ip).Some? && Lookup(t, ip).value in evicted then None
               else Lookup(t, ip)
    ensures Represents(t', live - evicted + {s}, who)
  {
    forall x, ip | x in live - evicted + {s} && ip in who(x).ips ensures Lookup(t', ip) == Some(x) {
      if x != s {
        assert Lookup(t, ip) == Some(x);
        assert ip in who(s).ips ==> !ConflictAt(t, s, who, ip);
      }
    }
  }

  lemma RoomForOne<S>(live: set<S>, evicted: set<S>, s: S, maxSessions: int)
    requires evicted <= live && s !in evicted
    requires maxSessions > 0 ==> |live| - |evicted| < maxSessions
    ensures maxSessions > 0 ==> |live - evicted + {s}| <= maxSessions
  {
    assert |live - evicted| == |live| - |evicted| by {
      assert live == (live - evicted) + evicted;
    }
    if s in live {
      assert live - evicted + {s} == live - evicted;
    }
  }

  /**
   A session that is registered already passes the checks again exactly when the limit is not reached:
   the count of active sessions includes the session itself.
   */
  lemma RegisteringAgain<S>(t: Tables<S>, live: set<S>, who: S -> Desc, s: S, maxSessions: int)
    requires Represents(t, live, who) && s in live
    ensures Verdict(t, s, who, maxSessions)
            == if maxSessions > 0 && |live| >= maxSessions then Err(CapacityExhausted) else Ok({})
  {
    RepresentsLive(t, live, who);
    assert Evicted(t, s, who) == {};
    forall ip | ip in who(s).ips ensures !ConflictAt(t, s, who, ip) {
      assert Lookup(t, ip) == Some(s);
    }
  }

  // ---- counting ----

  /** The total number of addresses of the sessions of a set. */
  ghost function AddressCount<S>(live: set<S>, who: S -> Desc): nat {
    if live == {} then 0 else
      var x :| x in live;
      |who(x).ips| + AddressCount(live - {x}, who)
  }

  lemma RemoveCount<S>(t: Tables<S>, live: set<S>, who: S -> Desc, s: S)
    requires Represents(t, live, who) && s in live
    ensures |Remove(t, s, who).t4| + |Remove(t, s, who).t6| + |who(s).ips| == |t.t4| + |t.t6|
  {
    var a, b := set ip | ip in who(s).ips && ip.V4?, set ip | ip in who(s).ips && ip.V6?;
    RemovedKeys(t, live, who, s, a, b);
    FewerKeys(t.t4, Remove(t, s, who).t4, a);
    FewerKeys(t.t6, Remove(t, s, who).t6, b);
    OneOfEachFamily(who(s), a, b);
  }

  lemma RemovedKeys<S>(t: Tables<S>, live: set<S>, who: S -> Desc, s: S, a: set<Addr>, b: set<Addr>)
    requires Represents(t, live, who) && s in live
    requires a == (set ip | ip in who(s).ips && ip.V4?) && b == (set ip | ip in who(s).ips && ip.V6?)
    ensures a <= t.t4.Keys && Remove(t, s, who).t4.Keys == t.t4.Keys - a
    ensures b <= t.t6.Keys && Remove(t, s, who).t6.Keys == t.t6.Keys - b
  {
    forall ip | ip in a ensures Lookup(t, ip) == Some(s) && ip in t.t4 {}
    forall ip | ip in b ensures Lookup(t, ip) == Some(s) && ip in t.t6 {}
    forall ip | ip in t.t4 && ip !in a ensures ip in Remove(t, s, who).t4 {}
    forall ip | ip in t.t6 && ip !in b ensures ip in Remove(t, s, who).t6 {}
  }

  lemma FewerKeys<S>(m: map<Addr, S>, m': map<Addr, S>, gone: set<Addr>)
    requires gone <= m.Keys && m'.Keys == m.Keys - gone
    ensures |m'| + |gone| == |m|
  {
    assert |m.Keys - gone| == |m.Keys| - |gone|;
  }

  lemma OneOfEachFamily(d: Desc, a: set<Addr>, b: set<Addr>)
    requires d.Valid()
    requires a == (set ip | ip in d.ips && ip.V4?) && b == (set ip | ip in d.ips && ip.V6?)
    ensures |a| + |b| == |d.ips|
  {
    var ips := d.ips;
    assert ips[0].IsValid();
    if |ips| == 1 {
      assert ips == [ips[0]];
      assert if ips[0].V4? then a == {ips[0]} && b == {} else a == {} && b == {ips[0]};
    } else {
      assert ips == [ips[0], ips[1]] && ips[1].IsValid();
      assert if ips[0].V4? then a == {ips[0]} && b == {ips[1]} else a == {ips[1]} && b == {ips[0]};
    }
  }

  lemma SomeValue<S>(m: map<Addr, S>)
    requires m != map[]
    ensures m.Values != {}
  {
    var ip :| ip in m;
    assert m[ip] in m.Values;
  }

  lemma NoSessionsNoEntries<S>(t: Tables<S>, live: set<S>, who: S -> Desc)
    requires Represents(t, live, who) && live == {}
    ensures t == Tables(map[], map[])
  {
    RepresentsLive(t, live, who);
    if t.t4 != map[] { SomeValue(t.t4); }
    if t.t6 != map[] { SomeValue(t.t6); }
  }

  /** The two tables together have one entry for each address of each live session. */
  lemma {:induction false} TablesCountAddresses<S>(t: Tables<S>, live: set<S>, who: S -> Desc)
    requires Represents(t, live, who)
    ensures |t.t4| + |t.t6| == AddressCount(live, who)
    decreases |live|
  {
    if live == {} {
      NoSessionsNoEntries(t, live, who);
    } else {
      var x :| x in live && AddressCount(live, who) == |who(x).ips| + AddressCount(live - {x}, who);
      RemoveRefinesDelete(t, live, who, x);
      RemoveCount(t, live, who, x);
      TablesCountAddresses(Remove(t, x, who), live - {x}, who);
    }
  }
}
