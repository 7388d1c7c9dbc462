/** Worlds the machine does reach: what the theorems about runs allow for, and are not vacuous about. */
module MachineScenarios {
  import opened Common
  import opened NetAddr
  import opened Registry
  import opened Machine
  import opened MachineInvariants
  import opened MachineRuns
  import opened MachineProgress

  lemma StartedIsCreated(env: Env, from: World, acts: seq<Action>, w: World, s: Session)
    requires Inv(env, from) && Leads(env, from, acts, w)
    ensures s in w.lives.started ==> s in w.lives.created
  {
    var ws :| Joins(env, ws, acts, from, w);
    PathInv(env, ws, acts, |acts|);
  }

  function Connecting(t: Thread, s: Session): seq<Action> {
    [Create(s)] + [StartReplace(t, s)] + [AcquireWrite(t)] + [CommitReplace(t)]
  }

  /** A new session that passes the checks can be registered whenever the lock is free. */
  lemma Connects(env: Env, from: World, acts: seq<Action>, w: World, t: Thread, s: Session, evicted: set<Session>)
      returns (w': World)
    requires Inv(env, from) && Leads(env, from, acts, w) && LockFree(w) && t !in w.pc
    requires s !in w.lives.created && s.desc in env.descs && s.desc.Valid()
    requires Verdict(w.reg.tables, s, Describe, env.maxSessions) == Ok(evicted)
    ensures Leads(env, from, acts + Connecting(t, s), w') && LockFree(w') && w'.reg == Enter(w.reg, s, evicted)
    ensures w'.lives.created == w.lives.created + {s} && w'.log == w.log && w'.pc == w.pc[t := Sweeping(evicted)]
    ensures w'.flags == w.flags
  {
    StartedIsCreated(env, from, acts, w, s);
    w' := ConnectsNew(env, from, acts, w, t, s, evicted);
  }

  lemma ConnectsNew(env: Env, from: World, acts: seq<Action>, w: World, t: Thread, s: Session, evicted: set<Session>)
      returns (w': World)
    requires Leads(env, from, acts, w) && LockFree(w) && t !in w.pc
    requires s !in w.lives.created && s !in w.lives.started && s.desc in env.descs && s.desc.Valid()
    requires Verdict(w.reg.tables, s, Describe, env.maxSessions) == Ok(evicted)
    ensures Leads(env, from, acts + Connecting(t, s), w') && LockFree(w') && w'.reg == Enter(w.reg, s, evicted)
    ensures w'.lives.created == w.lives.created + {s} && w'.log == w.log && w'.pc == w.pc[t := Sweeping(evicted)]
    ensures w'.flags == w.flags
  {
    var w1 := Created(env, from, acts, w, t, s);
    var acts1 := acts + [Create(s)] + [StartReplace(t, s)];
    var w2 := Locks(env, from, acts1, w1, t, s);
    var acts2 := acts1 + [AcquireWrite(t)];
    w' := Commits(env, from, acts2, w2, t, s, evicted);
    assert acts2 + [CommitReplace(t)] == acts + Connecting(t, s);
  }

  lemma Created(env: Env, from: World, acts: seq<Action>, w: World, t: Thread, s: Session) returns (w': World)
    requires Leads(env, from, acts, w) && t !in w.pc
    requires s !in w.lives.created && s !in w.lives.started && s.desc in env.descs && s.desc.Valid()
    ensures Leads(env, from, acts + [Create(s)] + [StartReplace(t, s)], w')
    ensures w'.pc == w.pc[t := WantsReplace(s)] && w'.lives.created == w.lives.created + {s}
    ensures w'.reg == w.reg && w'.lock == w.lock && w'.log == w.log && w'.flags == w.flags
  {
    OneMore(env, from, acts, w, Create(s));
    var w1 := Apply(env, w, Create(s));
    OneMore(env, from, acts + [Create(s)], w1, StartReplace(t, s));
    w' := Apply(env, w1, StartReplace(t, s));
  }

  lemma Locks(env: Env, from: World, acts: seq<Action>, w: World, t: Thread, s: Session) returns (w': World)
    requires Leads(env, from, acts, w) && LockFree(w) && t in w.pc && w.pc[t] == WantsReplace(s)
    ensures Leads(env, from, acts + [AcquireWrite(t)], w')
    ensures w' == w.(lock := Lock(Some(t), {}), pc := w.pc[t := InReplace(s)])
  {
    OneMore(env, from, acts, w, AcquireWrite(t));
    w' := Apply(env, w, AcquireWrite(t));
  }

  lemma Commits(env: Env, from: World, acts: seq<Action>, w: World, t: Thread, s: Session, evicted: set<Session>)
      returns (w': World)
    requires Leads(env, from, acts, w) && t in w.pc && w.pc[t] == InReplace(s)
    requires Verdict(w.reg.tables, s, Describe, env.maxSessions) == Ok(evicted)
    ensures Leads(env, from, acts + [CommitReplace(t)], w')
    ensures w'.reg == Enter(w.reg, s, evicted) && w'.lock == w.lock.(writer := None) && w'.log == w.log
    ensures w'.pc == w.pc[t := Sweeping(evicted)] && w'.lives.created == w.lives.created && w'.flags == w.flags
  {
    OneMore(env, from, acts, w, CommitReplace(t));
    w' := Apply(env, w, CommitReplace(t));
  }

  function Looking(t: Thread, data: Bytes): seq<Action> {
    [StartLookup(t, data)] + [AcquireRead(t)] + [CommitLookup(t)]
  }

  /** A packet for a registered address can be about to be written to its session. */
  lemma Looks(env: Env, from: World, acts: seq<Action>, w: World, t: Thread, data: Bytes, s: Session)
      returns (w': World)
    requires Leads(env, from, acts, w) && LockFree(w) && t !in w.pc
    requires OwnerOf(w.reg.tables, env.destination(data)) == Some(s)
    ensures Leads(env, from, acts + Looking(t, data), w')
    ensures w' == w.(pc := w.pc[t := Writing(Transfer(s, data))])
  {
    OneMore(env, from, acts, w, StartLookup(t, data));
    var w1 := Apply(env, w, StartLookup(t, data));
    var acts1 := acts + [StartLookup(t, data)];
    OneMore(env, from, acts1, w1, AcquireRead(t));
    var w2 := Apply(env, w1, AcquireRead(t));
    var acts2 := acts1 + [AcquireRead(t)];
    OneMore(env, from, acts2, w2, CommitLookup(t));
    w' := Apply(env, w2, CommitLookup(t));
    assert w'.lock.readers == w.lock.readers;
    assert acts2 + [CommitLookup(t)] == acts + Looking(t, data);
  }

  lemma Admitted(reg: Registered, s: Session, maxSessions: int)
    requires Represents(reg.tables, reg.live, Describe) && s.desc.Valid() && s !in reg.live
    requires forall x :: x in reg.live ==> x.desc.identity == s.desc.identity
    ensures Verdict(reg.tables, s, Describe, maxSessions) == Ok(reg.live)
    ensures Represents(Enter(reg, s, reg.live).tables, {s}, Describe)
  {
    assert forall x :: Describe(x) == x.desc;
    assert (set x | x in reg.live && (x == s || Describe(x).identity != Describe(s).identity)) == {};
    AdmittedExactly(reg.tables, reg.live, Describe, s, maxSessions);
    RepresentsLive(reg.tables, reg.live, Describe);
    assert Evicted(reg.tables, s, Describe) == reg.live;
    ReplaceRefinesInsert(reg.tables, reg.live, Describe, s, maxSessions, reg.live);
    assert reg.live - reg.live + {s} == {s};
  }

  /** The machine reaches the world from its start. */
  ghost predicate Reaches(env: Env, w: World) {
    exists acts :: Leads(env, Init(), acts, w)
  }

  /**
   The race between a lookup and a takeover is real: for every client and every packet to one of its
   addresses there is a run in which the packet is written to a session that has been replaced.
   */
  lemma DeliveryToAReplacedSession(env: Env, d: Desc, ip: Addr, data: Bytes)
    requires d in env.descs && d.Valid() && ip in d.ips && env.destination(data) == Some(ip)
    ensures exists w, x: Transfer ::
              Reaches(env, w) && x in w.log.delivered && x.data == data && x.session.desc == d && Departed(w, x.session)
  {
    InitInv(env);
    LeadsToItself(env, Init());
    var first, second := Session(0, d), Session(1, d);
    var w1 := FirstConnects(env, [], Init(), 0, first);
    FirstIsFound(w1.reg, first, ip);
    var acts1 := [] + Connecting(0, first);
    var w2 := Looks(env, Init(), acts1, w1, 1, data, first);
    var acts2 := acts1 + Looking(1, data);
    Admitted(w2.reg, second, env.maxSessions);
    var w3 := Connects(env, Init(), acts2, w2, 2, second, {first});
    var w4 := Writes(env, acts2 + Connecting(2, second), w3, 1, Transfer(first, data));
    assert Transfer(first, data) in w4.log.delivered && Departed(w4, first);
  }

  /** The first session of all is registered. */
  lemma FirstConnects(env: Env, acts: seq<Action>, w: World, t: Thread, s: Session) returns (w': World)
    requires Leads(env, Init(), acts, w) && LockFree(w) && t !in w.pc && w.reg == Init().reg
    requires w.lives.created == {} && s.desc in env.descs && s.desc.Valid()
    ensures Leads(env, Init(), acts + Connecting(t, s), w') && LockFree(w')
    ensures w'.lives.created == {s} && w'.pc == w.pc[t := Sweeping({})] && w'.flags == w.flags
    ensures w'.reg.live == {s} && w'.reg.members == {s} && Represents(w'.reg.tables, {s}, Describe)
  {
    InitInv(env);
    EmptyRepresents(Describe);
    Admitted(w.reg, s, env.maxSessions);
    w' := Connects(env, Init(), acts, w, t, s, {});
  }

  lemma Writes(env: Env, acts: seq<Action>, w: World, t: Thread, x: Transfer) returns (w': World)
    requires Leads(env, Init(), acts, w) && t in w.pc && w.pc[t] == Writing(x)
    ensures Reaches(env, w') && x in w'.log.delivered && w'.reg == w.reg
  {
    OneMore(env, Init(), acts, w, WritePacket(t, false));
    w' := Apply(env, w, WritePacket(t, false));
  }

  function Snapshotting(t: Thread): seq<Action> {
    [StartSnapshot(t)] + [AcquireRead(t)] + [CommitSnapshot(t)]
  }

  lemma Snapshots(env: Env, t: Thread) returns (w': World)
    ensures Leads(env, Init(), Snapshotting(t), w') && w' == Init().(pc := map[t := Sweeping({})])
  {
    LeadsToItself(env, Init());
    OneMore(env, Init(), [], Init(), StartSnapshot(t));
    var w1 := Apply(env, Init(), StartSnapshot(t));
    var acts1 := [] + [StartSnapshot(t)];
    OneMore(env, Init(), acts1, w1, AcquireRead(t));
    var w2 := Apply(env, w1, AcquireRead(t));
    var acts2 := acts1 + [AcquireRead(t)];
    OneMore(env, Init(), acts2, w2, CommitSnapshot(t));
    w' := Apply(env, w2, CommitSnapshot(t));
    assert w'.lock.readers == {} && Live(Init().reg.tables) == {};
    assert acts2 + [CommitSnapshot(t)] == Snapshotting(t);
  }

  /**
   A shutdown loop does not empty the tables when a client connects after the snapshot: for every client
   there is a run in which the loop ends with the client registered.
   */
  lemma SweepMissesANewcomer(env: Env, d: Desc)
    requires d in env.descs && d.Valid()
    ensures exists ws: seq<World>, acts, i, j, t, s: Session ::
              Run(env, ws, acts) && Sweeps(acts, i, j, t) && s in ws[j + 1].reg.live && s.desc == d
  {
    var s := Session(0, d);
    var w1 := Snapshots(env, 0);
    var w2 := FirstConnects(env, Snapshotting(0), w1, 1, s);
    var acts := Snapshotting(0) + Connecting(1, s);
    OneMore(env, Init(), acts, w2, EndSweep(0));
    var all := acts + [EndSweep(0)];
    var ws: seq<World> :| Joins(env, ws, all, Init(), Apply(env, w2, EndSweep(0)));
    assert Run(env, ws, all) && Sweeps(all, 2, 7, 0) && s in ws[7 + 1].reg.live;
  }

  // ---- one Close by itself ----

  function ClosingSteps(t: Thread, x: Session): seq<Action> {
    [StartClose(t, x)] + [EnterOnce(t)] + [Cancel(t)] + [CloseConn(t)] + [CheckRegistered(t)]
    + [AcquireWrite(t)] + [CommitRemove(t)] + [LeaveOnce(t)] + [EndSweep(t)]
  }

  lemma CloseBegins(env: Env, from: World, acts: seq<Action>, w: World, t: Thread, x: Session) returns (w': World)
    requires Leads(env, from, acts, w) && t !in w.pc && x in w.lives.attempted && w.flags.OnceOf(x) == Idle
    ensures Leads(env, from, acts + [StartClose(t, x)] + [EnterOnce(t)], w')
    ensures w' == w.(flags := w.flags.(once := w.flags.once[x := Running(t)]),
                     pc := w.pc[t := Closing(x, Cancelling, {})])
  {
    OneMore(env, from, acts, w, StartClose(t, x));
    var w1 := Apply(env, w, StartClose(t, x));
    OneMore(env, from, acts + [StartClose(t, x)], w1, EnterOnce(t));
    w' := Apply(env, w1, EnterOnce(t));
  }

  lemma CloseDisconnects(env: Env, from: World, acts: seq<Action>, w: World, t: Thread, x: Session) returns (w': World)
    requires Leads(env, from, acts, w) && t in w.pc && w.pc[t] == Closing(x, Cancelling, {})
    ensures Leads(env, from, acts + [Cancel(t)] + [CloseConn(t)], w')
    ensures w' == w.(flags := w.flags.(cancelled := w.flags.cancelled + {x}, connClosed := w.flags.connClosed + {x}),
                     pc := w.pc[t := Closing(x, Checking, {})])
  {
    OneMore(env, from, acts, w, Cancel(t));
    var w1 := Apply(env, w, Cancel(t));
    OneMore(env, from, acts + [Cancel(t)], w1, CloseConn(t));
    w' := Apply(env, w1, CloseConn(t));
  }

  lemma CloseLocks(env: Env, from: World, acts: seq<Action>, w: World, t: Thread, x: Session) returns (w': World)
    requires Leads(env, from, acts, w) && LockFree(w) && t in w.pc && w.pc[t] == Closing(x, Checking, {})
    requires x in w.reg.members && x !in w.flags.removed
    ensures Leads(env, from, acts + [CheckRegistered(t)] + [AcquireWrite(t)], w')
    ensures w' == w.(flags := w.flags.(removed := w.flags.removed + {x}), lock := Lock(Some(t), {}),
                     pc := w.pc[t := Closing(x, HasLock, {})])
  {
    OneMore(env, from, acts, w, CheckRegistered(t));
    var w1 := Apply(env, w, CheckRegistered(t));
    OneMore(env, from, acts + [CheckRegistered(t)], w1, AcquireWrite(t));
    w' := Apply(env, w1, AcquireWrite(t));
  }

  lemma CloseLeaves(env: Env, from: World, acts: seq<Action>, w: World, t: Thread, x: Session) returns (w': World)
    requires Leads(env, from, acts, w) && t in w.pc && w.pc[t] == Closing(x, HasLock, {})
    ensures Leads(env, from, acts + [CommitRemove(t)] + [LeaveOnce(t)] + [EndSweep(t)], w')
    ensures w'.reg == w.reg.(tables := Remove(w.reg.tables, x, Describe), live := w.reg.live - {x})
    ensures w'.flags == w.flags.(once := w.flags.once[x := Done]) && w'.lock == w.lock.(writer := None)
    ensures w'.pc == w.pc - {t} && w'.lives == w.lives && w'.log == w.log
  {
    OneMore(env, from, acts, w, CommitRemove(t));
    var w1 := Apply(env, w, CommitRemove(t));
    var acts1 := acts + [CommitRemove(t)];
    OneMore(env, from, acts1, w1, LeaveOnce(t));
    var w2 := Apply(env, w1, LeaveOnce(t));
    var acts2 := acts1 + [LeaveOnce(t)];
    OneMore(env, from, acts2, w2, EndSweep(t));
    w' := Apply(env, w2, EndSweep(t));
  }

  lemma NotBegun(env: Env, w: World, x: Session)
    requires Inv(env, w) && w.pc == map[] && x in w.reg.live
    ensures w.flags.OnceOf(x) == Idle && x !in w.flags.removed && x in w.reg.members && x in w.lives.attempted
  {
    assert forall t :: HeldOnce(w.pc, t) == None;
  }

  /**
   Where no call is in progress, every live session can be closed: its Close cancels it, closes its connection and
   takes it, and nothing else, out of the registry.
   */
  lemma ClosesAlone(env: Env, w: World, x: Session) returns (w': World)
    requires Inv(env, w) && w.pc == map[] && x in w.reg.live
    ensures Leads(env, w, ClosingSteps(0, x), w') && w'.pc == map[] && w'.flags.OnceOf(x) == Done
    ensures w'.flags.cancelled == w.flags.cancelled + {x} && w'.flags.connClosed == w.flags.connClosed + {x}
    ensures w'.reg.live == w.reg.live - {x} && w'.reg.members == w.reg.members
  {
    NotBegun(env, w, x);
    LockFreeWhenIdle(w);
    LeadsToItself(env, w);
    var w1 := CloseBegins(env, w, [], w, 0, x);
    var acts1 := [] + [StartClose(0, x)] + [EnterOnce(0)];
    var w2 := CloseDisconnects(env, w, acts1, w1, 0, x);
    var acts2 := acts1 + [Cancel(0)] + [CloseConn(0)];
    var w3 := CloseLocks(env, w, acts2, w2, 0, x);
    var acts3 := acts2 + [CheckRegistered(0)] + [AcquireWrite(0)];
    w' := CloseLeaves(env, w, acts3, w3, 0, x);
    assert acts3 + [CommitRemove(0)] + [LeaveOnce(0)] + [EndSweep(0)] == ClosingSteps(0, x);
  }

  /**
   In every world of every run, every live session can be closed: the calls in progress can return, and then, if
   none of them has taken the session out, its Close does.
   */
  lemma EverySessionCanBeClosed(env: Env, ws: seq<World>, acts: seq<Action>, i: nat, x: Session)
    requires Run(env, ws, acts) && i <= |acts| && x in ws[i].reg.live
    ensures exists returning, idle ::
              && Leads(env, ws[i], returning, idle) && Quiet(returning) && idle.pc == map[]
              && (x in idle.reg.live ==>
                    exists w' :: Leads(env, idle, ClosingSteps(0, x), w') && Departed(w', x)
                                 && x in w'.flags.cancelled && x in w'.flags.connClosed
                                 && w'.reg.live == idle.reg.live - {x})
  {
    RunInv(env, ws, acts, i);
    var returning, idle := Drains(env, ws[i]);
    if x in idle.reg.live {
      var w' := ClosesAlone(env, idle, x);
      NotBegun(env, idle, x);
      assert Departed(w', x);
    }
  }

  // ---- one packet into the tunnel ----

  /** A packet that a registered session may send into the tunnel can get there. */
  lemma Forwarded(env: Env, acts: seq<Action>, w: World, t: Thread, x: Transfer) returns (w': World)
    requires Leads(env, Init(), acts, w) && t !in w.pc
    requires x.session in w.reg.members && x.session !in w.flags.cancelled && env.mayEnterTunnel(x)
    ensures Reaches(env, w') && x in w'.log.forwarded
  {
    OneMore(env, Init(), acts, w, StartForward(t, x));
    var w1 := Apply(env, w, StartForward(t, x));
    OneMore(env, Init(), acts + [StartForward(t, x)], w1, WriteTunnel(t));
    w' := Apply(env, w1, WriteTunnel(t));
  }

  /** For every client and every packet its sessions may send, there is a run that writes the packet to the tunnel. */
  lemma ForwardingHappens(env: Env, d: Desc, data: Bytes)
    requires d in env.descs && d.Valid() && env.mayEnterTunnel(Transfer(Session(0, d), data))
    ensures exists w, x: Transfer :: Reaches(env, w) && x in w.log.forwarded && x.data == data && x.session.desc == d
  {
    LeadsToItself(env, Init());
    var s := Session(0, d);
    var w1 := FirstConnects(env, [], Init(), 0, s);
    var w2 := Forwarded(env, [] + Connecting(0, s), w1, 1, Transfer(s, data));
    assert Transfer(s, data) in w2.log.forwarded;
  }

  lemma FirstIsFound(reg: Registered, s: Session, ip: Addr)
    requires Represents(reg.tables, {s}, Describe) && ip in s.desc.ips
    ensures Lookup(reg.tables, ip) == Some(s)
  {
    assert ip in Describe(s).ips;
  }
}
