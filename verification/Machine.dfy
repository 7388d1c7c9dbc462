/**
 The server as a machine of interleaved threads. A thread is one call in progress: a Replace
 with the closing of what it evicted, a Close, a dispatch of a packet from the tunnel, a
 shutdown sweep, or the forwarding of one packet into the tunnel. Critical sections are single
 steps taken while the registry lock is held; taking and releasing the lock, and the stages of
 a session's Close, are steps of their own.
 */
module Machine {
  import opened Common
  import opened NetAddr
  import opened Registry

  type Thread = nat

  /** A session object: its identity as an object, and the fields that never change. */
  datatype Session = Session(id: nat, desc: Desc)

  function Describe(s: Session): Desc {
    s.desc
  }

  /** A packet on its way between a session and the tunnel. */
  datatype Transfer = Transfer(session: Session, data: Bytes)

  /**
   What is fixed for a run: the descriptions handlers build sessions from, the session limit, the
   address a packet from the tunnel is looked up by, and the test of a packet from a session.
   */
  datatype Env = Env(
    descs: set<Desc>,
    maxSessions: int,
    destination: Bytes -> Option<Addr>,
    mayEnterTunnel: Transfer -> bool)
  {
    /** The packet is addressed to the session. */
    predicate AddressedTo(x: Transfer) {
      destination(x.data).Some? && destination(x.data).value in x.session.desc.ips
    }
  }

  /** A session's `closeOnce`. */
  datatype Once = Idle | Running(runner: Thread) | Done

  /** How far a thread is in a session's Close: before the one-shot, inside it, or about to leave it. */
  datatype Stage = BeforeOnce | Cancelling | ClosingConn | Checking | WantsLock | HasLock | Leaving

  /** Where a thread is. Threads that are not in a call have no program counter. */
  datatype Pc =
    | WantsReplace(s: Session)
    | InReplace(s: Session)
    | Sweeping(todo: set<Session>)                       // between two Close calls of a loop over sessions
    | Closing(s: Session, stage: Stage, todo: set<Session>)
    | WantsLookup(data: Bytes)
    | InLookup(data: Bytes)
    | Writing(transfer: Transfer)
    | WantsSnapshot
    | InSnapshot
    | Forwarding(transfer: Transfer)
  {
    predicate WantsWriteLock() { WantsReplace? || (Closing? && stage == WantsLock) }
    predicate HoldsWriteLock() { InReplace? || (Closing? && stage == HasLock) }
    predicate WantsReadLock() { WantsLookup? || WantsSnapshot? }
    predicate HoldsReadLock() { InLookup? || InSnapshot? }
  }

  /** The manager, with the set of sessions its tables should stand for. */
  datatype Registered = Registered(
    tables: Tables<Session>,
    live: set<Session>,
    nextGeneration: nat,
    generation: map<Session, nat>,
    members: set<Session>)               // whose Replace succeeded, so that their manager field is set

  /** How far the sessions have come. */
  datatype Lives = Lives(
    created: set<Session>,
    started: set<Session>,               // passed to Replace
    attempted: set<Session>,             // whose Replace has left its critical section
    refused: set<Session>)

  /** The fields of the sessions that their Close changes. */
  datatype Flags = Flags(
    once: map<Session, Once>,
    cancelled: set<Session>,
    connClosed: set<Session>,
    removed: set<Session>)
  {
    function OnceOf(s: Session): Once {
      if s in once then once[s] else Idle
    }
  }

  /** The registry's read-write lock. */
  datatype Lock = Lock(writer: Option<Thread>, readers: set<Thread>)

  /** Every WritePacket call so far, and every packet written to the tunnel by a session reader. */
  datatype Log = Log(delivered: set<Transfer>, forwarded: set<Transfer>)

  datatype World = World(reg: Registered, lives: Lives, flags: Flags, lock: Lock, log: Log, pc: map<Thread, Pc>) {

    function At(t: Thread, p: Pc): World {
      this.(pc := pc[t := p])
    }

    function Finished(t: Thread): World {
      this.(pc := pc - {t})
    }
  }

  function Init(): World {
    World(Registered(Tables(map[], map[]), {}, 0, map[], {}), Lives({}, {}, {}, {}),
          Flags(map[], {}, {}, {}), Lock(None, {}), Log({}, {}), map[])
  }

  datatype Action =
    | Create(s: Session)
    | StartReplace(t: Thread, s: Session)
    | StartClose(t: Thread, s: Session)
    | StartLookup(t: Thread, data: Bytes)
    | StartSnapshot(t: Thread)
    | StartForward(t: Thread, transfer: Transfer)
    | AcquireWrite(t: Thread)
    | AcquireRead(t: Thread)
    | CommitReplace(t: Thread)
    | NextClose(t: Thread, s: Session)
    | EndSweep(t: Thread)
    | EnterOnce(t: Thread)
    | Cancel(t: Thread)
    | CloseConn(t: Thread)
    | CheckRegistered(t: Thread)
    | CommitRemove(t: Thread)
    | LeaveOnce(t: Thread)
    | CommitLookup(t: Thread)
    | WritePacket(t: Thread, failed: bool)
    | CommitSnapshot(t: Thread)
    | WriteTunnel(t: Thread)
  {
    /** The action begins a new call (or a new session); every other action continues one. */
    predicate Starts() {
      Create? || StartReplace? || StartClose? || StartLookup? || StartSnapshot? || StartForward?
    }
  }

  /** Thread t stands at a place of a session's Close. */
  predicate AtStage(w: World, t: Thread, stage: Stage) {
    t in w.pc && w.pc[t].Closing? && w.pc[t].stage == stage
  }

  predicate Enabled(env: Env, w: World, a: Action) {
    match a
    // A handler builds a session from its client's description; building panics on other descriptions.
    case Create(s) => s !in w.lives.created && s.desc in env.descs && s.desc.Valid()
    // A handler passes its session to Replace once, before anyone can close it.
    case StartReplace(t, s) => t !in w.pc && s in w.lives.created && s !in w.lives.started
    case StartClose(t, s) => t !in w.pc && s in w.lives.attempted
    case StartLookup(t, data) => t !in w.pc && env.destination(data).Some?
    case StartSnapshot(t) => t !in w.pc
    case StartForward(t, x) =>
      t !in w.pc && x.session in w.reg.members && x.session !in w.flags.cancelled && env.mayEnterTunnel(x)
    case AcquireWrite(t) => t in w.pc && w.pc[t].WantsWriteLock() && w.lock.writer == None && w.lock.readers == {}
    case AcquireRead(t) => t in w.pc && w.pc[t].WantsReadLock() && w.lock.writer == None
    case CommitReplace(t) => t in w.pc && w.pc[t].InReplace?
    case NextClose(t, s) => t in w.pc && w.pc[t].Sweeping? && s in w.pc[t].todo
    case EndSweep(t) => t in w.pc && w.pc[t].Sweeping? && w.pc[t].todo == {}
    case EnterOnce(t) => AtStage(w, t, BeforeOnce) && !w.flags.OnceOf(w.pc[t].s).Running?
    case Cancel(t) => AtStage(w, t, Cancelling)
    case CloseConn(t) => AtStage(w, t, ClosingConn)
    case CheckRegistered(t) => AtStage(w, t, Checking)
    case CommitRemove(t) => AtStage(w, t, HasLock)
    case LeaveOnce(t) => AtStage(w, t, Leaving)
    case CommitLookup(t) => t in w.pc && w.pc[t].InLookup?
    case WritePacket(t, _) => t in w.pc && w.pc[t].Writing?
    case CommitSnapshot(t) => t in w.pc && w.pc[t].InSnapshot?
    case WriteTunnel(t) => t in w.pc && w.pc[t].Forwarding?
  }

  /** The critical section of Replace for a session that passes its checks. */
  function Enter(r: Registered, s: Session, evicted: set<Session>): Registered {
    var after := ManagerState(r.tables, r.live, r.nextGeneration).Enter(s, Describe, evicted);
    Registered(after.entries, after.live, after.nextGeneration,
               r.generation[s := after.nextGeneration], r.members + {s})
  }

  /** The critical section of Replace, and the release of the lock. */
  function AfterReplace(env: Env, w: World, t: Thread): World
    requires Enabled(env, w, CommitReplace(t))
  {
    var s := w.pc[t].s;
    var lives := w.lives.(attempted := w.lives.attempted + {s});
    match Verdict(w.reg.tables, s, Describe, env.maxSessions)
    case Err(_) =>
      w.(lives := lives.(refused := lives.refused + {s}), lock := w.lock.(writer := None)).Finished(t)
    case Ok(evicted) =>
      w.(reg := Enter(w.reg, s, evicted), lives := lives, lock := w.lock.(writer := None)).At(t, Sweeping(evicted))
  }

  /** The critical section of RemoveIfCurrent, and the release of the lock. */
  function AfterRemove(w: World, t: Thread): World
    requires AtStage(w, t, HasLock)
  {
    var s := w.pc[t].s;
    w.(reg := w.reg.(tables := Remove(w.reg.tables, s, Describe), live := w.reg.live - {s}),
       lock := w.lock.(writer := None))
      .At(t, w.pc[t].(stage := Leaving))
  }

  /** The critical section of Lookup, and the release of the lock. */
  function AfterLookup(env: Env, w: World, t: Thread): World
    requires t in w.pc && w.pc[t].InLookup?
  {
    var data := w.pc[t].data;
    var released := w.(lock := w.lock.(readers := w.lock.readers - {t}));
    match OwnerOf(w.reg.tables, env.destination(data))
    case None => released.Finished(t)
    case Some(s) => released.At(t, Writing(Transfer(s, data)))
  }

  /** The one-shot: a later caller returns once the first has finished. */
  function AfterEnterOnce(w: World, t: Thread): World
    requires AtStage(w, t, BeforeOnce)
  {
    var s := w.pc[t].s;
    if w.flags.OnceOf(s).Done? then w.At(t, Sweeping(w.pc[t].todo))
    else w.(flags := w.flags.(once := w.flags.once[s := Running(t)])).At(t, w.pc[t].(stage := Cancelling))
  }

  /** The manager field is nil unless Replace succeeded; `removed` is set by compare-and-swap. */
  function AfterCheck(w: World, t: Thread): World
    requires AtStage(w, t, Checking)
  {
    var s := w.pc[t].s;
    if s in w.reg.members && s !in w.flags.removed then
      w.(flags := w.flags.(removed := w.flags.removed + {s})).At(t, w.pc[t].(stage := WantsLock))
    else w.At(t, w.pc[t].(stage := Leaving))
  }

  function AfterWrite(w: World, t: Thread, failed: bool): World
    requires t in w.pc && w.pc[t].Writing?
  {
    var x := w.pc[t].transfer;
    var sent := w.(log := w.log.(delivered := w.log.delivered + {x}));
    if failed then sent.At(t, Closing(x.session, BeforeOnce, {})) else sent.Finished(t)
  }

  function Apply(env: Env, w: World, a: Action): World
    requires Enabled(env, w, a)
  {
    match a
    case Create(s) => w.(lives := w.lives.(created := w.lives.created + {s}))
    case StartReplace(t, s) => w.(lives := w.lives.(started := w.lives.started + {s})).At(t, WantsReplace(s))
    case StartClose(t, s) => w.At(t, Closing(s, BeforeOnce, {}))
    case StartLookup(t, data) => w.At(t, WantsLookup(data))
    case StartSnapshot(t) => w.At(t, WantsSnapshot)
    case StartForward(t, x) => w.At(t, Forwarding(x))
    case AcquireWrite(t) =>
      w.(lock := w.lock.(writer := Some(t)))
        .At(t, if w.pc[t].WantsReplace? then InReplace(w.pc[t].s) else w.pc[t].(stage := HasLock))
    case AcquireRead(t) =>
      w.(lock := w.lock.(readers := w.lock.readers + {t}))
        .At(t, if w.pc[t].WantsLookup? then InLookup(w.pc[t].data) else InSnapshot)
    case CommitReplace(t) => AfterReplace(env, w, t)
    case NextClose(t, s) => w.At(t, Closing(s, BeforeOnce, w.pc[t].todo - {s}))
    case EndSweep(t) => w.Finished(t)
    case EnterOnce(t) => AfterEnterOnce(w, t)
    case Cancel(t) =>
      w.(flags := w.flags.(cancelled := w.flags.cancelled + {w.pc[t].s})).At(t, w.pc[t].(stage := ClosingConn))
    case CloseConn(t) =>
      w.(flags := w.flags.(connClosed := w.flags.connClosed + {w.pc[t].s})).At(t, w.pc[t].(stage := Checking))
    case CheckRegistered(t) => AfterCheck(w, t)
    case CommitRemove(t) => AfterRemove(w, t)
    case LeaveOnce(t) => w.(flags := w.flags.(once := w.flags.once[w.pc[t].s := Done])).At(t, Sweeping(w.pc[t].todo))
    case CommitLookup(t) => AfterLookup(env, w, t)
    case WritePacket(t, failed) => AfterWrite(w, t, failed)
    case CommitSnapshot(t) => w.(lock := w.lock.(readers := w.lock.readers - {t})).At(t, Sweeping(Live(w.reg.tables)))
    case WriteTunnel(t) => w.(log := w.log.(forwarded := w.log.forwarded + {w.pc[t].transfer})).Finished(t)
  }

  /** The i-th action is enabled in the i-th world and leads to the next one. */
  predicate StepAt(env: Env, ws: seq<World>, acts: seq<Action>, i: nat) {
    && i < |acts| && i + 1 < |ws|
    && Enabled(env, ws[i], acts[i])
    && ws[i + 1] == Apply(env, ws[i], acts[i])
  }

  /** Worlds joined by enabled actions. */
  ghost predicate Path(env: Env, ws: seq<World>, acts: seq<Action>) {
    && |ws| == |acts| + 1
    && forall i {:trigger StepAt(env, ws, acts, i)} :: 0 <= i < |acts| ==> StepAt(env, ws, acts, i)
  }

  /** A run: a path from the empty world on. */
  ghost predicate Run(env: Env, ws: seq<World>, acts: seq<Action>) {
    Path(env, ws, acts) && ws[0] == Init()
  }
}
