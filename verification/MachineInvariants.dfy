/** What every step of the machine keeps, and hence what holds in every world of every run. */
module MachineInvariants {
  import opened Common
  import opened Registry
  import opened Machine

  // ---- the sets of sessions ----

  /** A session is registered only by an attempt, attempted only once started, started only once created. */
  ghost predicate LivesSound(env: Env, l: Lives, reg: Registered, flags: Flags) {
    && reg.members <= l.attempted <= l.started <= l.created
    && l.refused <= l.attempted
    && flags.removed <= reg.members
    && reg.live <= reg.members
    && (forall s :: s in l.created ==> s.desc in env.descs && s.desc.Valid())
    && flags.once.Keys <= l.attempted
  }

  /** The sessions a thread works on are at the right point of their life. */
  predicate PcSound(l: Lives, reg: Registered, p: Pc) {
    match p
    case WantsReplace(s) => s in l.started && s !in l.attempted
    case InReplace(s) => s in l.started && s !in l.attempted
    case Sweeping(todo) => todo <= l.attempted
    case Closing(s, _, todo) => s in l.attempted && todo <= l.attempted
    case Writing(x) => x.session in reg.members
    case Forwarding(x) => x.session in reg.members
    case _ => true
  }

  ghost predicate PlacesSound(l: Lives, reg: Registered, pc: map<Thread, Pc>) {
    forall t :: t in pc ==> PcSound(l, reg, pc[t])
  }

  /** The session the thread is passing to Replace. */
  function Replacing(pc: map<Thread, Pc>, t: Thread): Option<Session> {
    if t in pc && (pc[t].WantsReplace? || pc[t].InReplace?) then Some(pc[t].s) else None
  }

  /** Each session is passed to Replace by one thread. */
  ghost predicate ReplacersSound(pc: map<Thread, Pc>) {
    forall t, u :: Replacing(pc, t).Some? && Replacing(pc, t) == Replacing(pc, u) ==> t == u
  }

  // ---- the registry ----

  /** The tables stand for the set of live sessions, within the limit. */
  ghost predicate RegistrySound(env: Env, reg: Registered) {
    && Represents(reg.tables, reg.live, Describe)
    && (env.maxSessions > 0 ==> |reg.live| <= env.maxSessions)
  }

  /** Distinct generations, no greater than the latest. */
  ghost predicate Numbered(generation: map<Session, nat>, latest: nat) {
    && (forall s :: s in generation ==> 1 <= generation[s] <= latest)
    && (forall s, s' :: s in generation && s' in generation && generation[s] == generation[s'] ==> s == s')
  }

  /** While fewer than 2^64 sessions have registered: generations count registrations, without repetition. */
  ghost predicate GenerationsSound(reg: Registered) {
    && reg.generation.Keys == reg.members
    && (|reg.members| < GENERATIONS ==>
          reg.nextGeneration == |reg.members| && Numbered(reg.generation, reg.nextGeneration))
  }

  // ---- the locks ----

  /** The lock is held by the threads that stand inside a critical section, a writer alone. */
  ghost predicate LockSound(lock: Lock, pc: map<Thread, Pc>) {
    && (forall t :: lock.writer == Some(t) <==> t in pc && pc[t].HoldsWriteLock())
    && (forall t :: t in lock.readers <==> t in pc && pc[t].HoldsReadLock())
    && (lock.writer.Some? ==> lock.readers == {})
  }

  /** The session whose one-shot the thread stands inside. */
  function HeldOnce(pc: map<Thread, Pc>, t: Thread): Option<Session> {
    if t in pc && pc[t].Closing? && pc[t].stage != BeforeOnce then Some(pc[t].s) else None
  }

  /** A session's one-shot is running exactly in the thread that stands inside it. */
  ghost predicate OnceSound(flags: Flags, pc: map<Thread, Pc>) {
    && (forall t :: HeldOnce(pc, t).Some? ==> flags.OnceOf(HeldOnce(pc, t).value) == Running(t))
    && (forall s :: flags.OnceOf(s).Running? ==> HeldOnce(pc, flags.OnceOf(s).runner) == Some(s))
  }

  // ---- the progress of a Close ----

  /** What has been done when a thread stands at a stage. */
  predicate StageSound(reg: Registered, flags: Flags, p: Pc) {
    p.Closing? && p.stage != BeforeOnce ==>
      && (p.stage == Cancelling || p.s in flags.cancelled)
      && (p.stage == Cancelling || p.stage == ClosingConn || p.s in flags.connClosed)
      && (p.stage == Cancelling || p.stage == ClosingConn || p.stage == Checking ==> p.s !in flags.removed)
      && (p.stage == WantsLock || p.stage == HasLock ==> p.s in flags.removed)
      && (p.stage == Leaving ==> p.s !in reg.live)
  }

  /** A completed Close has cancelled the session, closed its connection and taken it out of the registry. */
  ghost predicate ClosesSound(reg: Registered, flags: Flags, pc: map<Thread, Pc>) {
    && (forall t :: t in pc ==> StageSound(reg, flags, pc[t]))
    && (forall s :: flags.OnceOf(s) == Done ==> s !in reg.live && s in flags.cancelled && s in flags.connClosed)
    && (forall s :: s in flags.removed ==> flags.OnceOf(s) != Idle)
  }

  // ---- the data ----

  predicate TransferSound(env: Env, p: Pc) {
    && (p.Writing? ==> env.AddressedTo(p.transfer))
    && (p.Forwarding? ==> env.mayEnterTunnel(p.transfer))
  }

  ghost predicate TransfersSound(env: Env, l: Lives, log: Log, pc: map<Thread, Pc>) {
    && (forall x :: x in log.delivered ==> x.session in l.created && env.AddressedTo(x))
    && (forall x :: x in log.forwarded ==> x.session in l.created && env.mayEnterTunnel(x))
    && (forall t :: t in pc ==> TransferSound(env, pc[t]))
  }

  ghost predicate Inv(env: Env, w: World) {
    && LivesSound(env, w.lives, w.reg, w.flags)
    && PlacesSound(w.lives, w.reg, w.pc)
    && ReplacersSound(w.pc)
    && RegistrySound(env, w.reg)
    && GenerationsSound(w.reg)
    && LockSound(w.lock, w.pc)
    && OnceSound(w.flags, w.pc)
    && ClosesSound(w.reg, w.flags, w.pc)
    && TransfersSound(env, w.lives, w.log, w.pc)
  }

  // ---- every step keeps them ----

  lemma InitInv(env: Env)
    ensures Inv(env, Init())
  {
    EmptyRepresents(Describe);
  }

  /** Thread t alone has moved. */
  ghost predicate Moves(pc: map<Thread, Pc>, pc': map<Thread, Pc>, t: Thread) {
    forall u {:trigger u in pc'} {:trigger pc'[u]} ::
      u != t ==> (u in pc' <==> u in pc) && (u in pc ==> pc'[u] == pc[u])
  }

  lemma ActionMoves(env: Env, w: World, a: Action)
    requires Enabled(env, w, a) && !a.Create?
    ensures Moves(w.pc, Apply(env, w, a).pc, a.t)
  {
  }

  /** A session whose Replace is under way is new to the registry, and nobody has begun to close it. */
  lemma ReplacedIsNew(env: Env, w: World, t: Thread)
    requires LivesSound(env, w.lives, w.reg, w.flags) && PlacesSound(w.lives, w.reg, w.pc)
    requires t in w.pc && w.pc[t].InReplace?
    ensures var s := w.pc[t].s;
            && s !in w.lives.attempted && s !in w.reg.members && s !in w.reg.live && s in w.lives.created
            && s.desc.Valid() && w.flags.OnceOf(s) == Idle
  {
    assert PcSound(w.lives, w.reg, w.pc[t]);
  }

  lemma EvictedAreLive(reg: Registered, s: Session)
    requires Represents(reg.tables, reg.live, Describe)
    ensures Evicted(reg.tables, s, Describe) <= reg.live
  {
    RepresentsLive(reg.tables, reg.live, Describe);
  }

  lemma EnteringIsSound(env: Env, reg: Registered, s: Session, evicted: set<Session>)
    requires RegistrySound(env, reg) && s.desc.Valid() && s !in reg.live
    requires Verdict(reg.tables, s, Describe, env.maxSessions) == Ok(evicted)
    ensures RegistrySound(env, Enter(reg, s, evicted)) && |evicted| <= 1
    ensures evicted == set x | x in reg.live && x.desc.identity == s.desc.identity
  {
    ReplaceRefinesInsert(reg.tables, reg.live, Describe, s, env.maxSessions, evicted);
    EvictedByIdentity(reg.live, s, evicted);
  }

  lemma EvictedByIdentity(live: set<Session>, s: Session, evicted: set<Session>)
    requires s !in live
    requires evicted == set x | x in live && x != s && Describe(x).identity == Describe(s).identity
    ensures evicted == set x | x in live && x.desc.identity == s.desc.identity
  {
  }

  /** What a registration means for the set of live sessions. */
  lemma ReplaceStep(env: Env, w: World, t: Thread)
    requires LivesSound(env, w.lives, w.reg, w.flags) && PlacesSound(w.lives, w.reg, w.pc) && RegistrySound(env, w.reg)
    requires t in w.pc && w.pc[t].InReplace?
    ensures var s := w.pc[t].s;
            && s !in w.lives.attempted && s !in w.reg.members && s in w.lives.created && s.desc.Valid()
            && var v := Verdict(w.reg.tables, s, Describe, env.maxSessions);
               v.Ok? ==>
                 && RegistrySound(env, Enter(w.reg, s, v.value))
                 && v.value == (set x | x in w.reg.live && x.desc.identity == s.desc.identity)
                 && |v.value| <= 1
  {
    ReplacedIsNew(env, w, t);
    var v := Verdict(w.reg.tables, w.pc[t].s, Describe, env.maxSessions);
    if v.Ok? { EnteringIsSound(env, w.reg, w.pc[t].s, v.value); }
  }

  lemma RemoveStep(env: Env, w: World, t: Thread)
    requires RegistrySound(env, w.reg) && Enabled(env, w, CommitRemove(t))
    ensures RegistrySound(env, Apply(env, w, CommitRemove(t)).reg)
  {
    RemoveRefinesDelete(w.reg.tables, w.reg.live, Describe, w.pc[t].s);
    assert |w.reg.live - {w.pc[t].s}| <= |w.reg.live|;
  }

  lemma EnterStep(env: Env, w: World, t: Thread)
    requires LivesSound(env, w.lives, w.reg, w.flags) && PlacesSound(w.lives, w.reg, w.pc) && RegistrySound(env, w.reg)
    requires Enabled(env, w, CommitReplace(t))
    ensures RegistrySound(env, Apply(env, w, CommitReplace(t)).reg)
  {
    ReplaceStep(env, w, t);
  }

  lemma RegistryStep(env: Env, w: World, a: Action)
    requires LivesSound(env, w.lives, w.reg, w.flags) && PlacesSound(w.lives, w.reg, w.pc) && RegistrySound(env, w.reg)
    requires Enabled(env, w, a)
    ensures RegistrySound(env, Apply(env, w, a).reg)
  {
    match a {
      case CommitReplace(t) => EnterStep(env, w, t);
      case CommitRemove(t) => RemoveStep(env, w, t);
      case _ => assert Apply(env, w, a).reg == w.reg;
    }
  }

  lemma LivesStep(env: Env, w: World, a: Action)
    requires LivesSound(env, w.lives, w.reg, w.flags) && PlacesSound(w.lives, w.reg, w.pc)
    requires Enabled(env, w, a)
    ensures var w' := Apply(env, w, a); LivesSound(env, w'.lives, w'.reg, w'.flags)
  {
    match a {
      case CommitReplace(t) => ReplacedIsNew(env, w, t);
      case EnterOnce(t) => assert PcSound(w.lives, w.reg, w.pc[t]);
      case LeaveOnce(t) => assert PcSound(w.lives, w.reg, w.pc[t]);
      case _ =>
    }
  }

  lemma PlacesMove(
      l: Lives, l': Lives, reg: Registered, reg': Registered, pc: map<Thread, Pc>, pc': map<Thread, Pc>, t: Thread)
    requires PlacesSound(l, reg, pc) && ReplacersSound(pc) && Moves(pc, pc', t)
    requires l.started <= l'.started && l.attempted <= l'.attempted && reg.members <= reg'.members
    requires forall s :: s in l'.attempted ==> s in l.attempted || Replacing(pc, t) == Some(s)
    requires t in pc' ==> PcSound(l', reg', pc'[t])
    ensures PlacesSound(l', reg', pc')
  {
    forall u | u in pc' && u != t ensures PcSound(l', reg', pc'[u]) {
      assert PcSound(l, reg, pc[u]);
      if pc[u].WantsReplace? || pc[u].InReplace? {
        assert Replacing(pc, u) == Some(pc[u].s);
      }
    }
  }

  lemma ReplacersMove(pc: map<Thread, Pc>, pc': map<Thread, Pc>, t: Thread)
    requires ReplacersSound(pc) && Moves(pc, pc', t)
    requires || Replacing(pc', t) == None
             || Replacing(pc', t) == Replacing(pc, t)
             || forall u :: Replacing(pc, u) != Replacing(pc', t)
    ensures ReplacersSound(pc')
  {
    forall u | u != t ensures Replacing(pc', u) == Replacing(pc, u) {}
  }

  /** Where a step leaves its thread. */
  lemma PlaceAfter(env: Env, w: World, a: Action)
    requires LivesSound(env, w.lives, w.reg, w.flags) && PlacesSound(w.lives, w.reg, w.pc) && RegistrySound(env, w.reg)
    requires Enabled(env, w, a) && !a.Create?
    ensures var w' := Apply(env, w, a); a.t in w'.pc ==> PcSound(w'.lives, w'.reg, w'.pc[a.t])
  {
    assert a.t in w.pc ==> PcSound(w.lives, w.reg, w.pc[a.t]);
    match a {
      case CommitReplace(t) => EvictedAreLive(w.reg, w.pc[t].s);
      case CommitLookup(t) => OwnerIsAddressed(env, w.reg, w.pc[t].data);
      case CommitSnapshot(t) => RepresentsLive(w.reg.tables, w.reg.live, Describe);
      case _ =>
    }
  }

  lemma PlacesStep(env: Env, w: World, a: Action)
    requires LivesSound(env, w.lives, w.reg, w.flags) && PlacesSound(w.lives, w.reg, w.pc) && ReplacersSound(w.pc)
    requires RegistrySound(env, w.reg)
    requires Enabled(env, w, a)
    ensures var w' := Apply(env, w, a); PlacesSound(w'.lives, w'.reg, w'.pc)
  {
    if !a.Create? {
      ActionMoves(env, w, a);
      PlaceAfter(env, w, a);
      var w' := Apply(env, w, a);
      PlacesMove(w.lives, w'.lives, w.reg, w'.reg, w.pc, w'.pc, a.t);
    }
  }

  lemma ReplacersStep(env: Env, w: World, a: Action)
    requires PlacesSound(w.lives, w.reg, w.pc) && ReplacersSound(w.pc) && Enabled(env, w, a)
    ensures ReplacersSound(Apply(env, w, a).pc)
  {
    var w' := Apply(env, w, a);
    if !a.Create? {
      ActionMoves(env, w, a);
      if a.StartReplace? {
        forall u ensures Replacing(w.pc, u) != Some(a.s) {
          assert u in w.pc ==> PcSound(w.lives, w.reg, w.pc[u]);
        }
      }
      ReplacersMove(w.pc, w'.pc, a.t);
    }
  }

  /** The session a lookup finds has the destination of the packet among its addresses. */
  lemma OwnerIsAddressed(env: Env, reg: Registered, data: Bytes)
    requires RegistrySound(env, reg)
    ensures var o := OwnerOf(reg.tables, env.destination(data));
            o.Some? ==> o.value in reg.live && env.AddressedTo(Transfer(o.value, data))
  {
  }

  lemma GenerationsEnter(reg: Registered, s: Session, evicted: set<Session>)
    requires GenerationsSound(reg) && s !in reg.members
    ensures GenerationsSound(Enter(reg, s, evicted))
  {
    assert |reg.members + {s}| == |reg.members| + 1;
    if |reg.members| < GENERATIONS { OneMoreNumbered(reg.generation, reg.nextGeneration, s); }
  }

  lemma OneMoreNumbered(generation: map<Session, nat>, latest: nat, s: Session)
    requires Numbered(generation, latest) && s !in generation
    ensures Numbered(generation[s := latest + 1], latest + 1)
  {
  }

  lemma OnlyReplaceRegisters(env: Env, w: World, a: Action)
    requires Enabled(env, w, a)
    ensures var reg, reg' := w.reg, Apply(env, w, a).reg;
            || (a.CommitReplace? && exists evicted :: reg' == Enter(reg, w.pc[a.t].s, evicted))
            || (&& reg'.generation == reg.generation && reg'.members == reg.members
                && reg'.nextGeneration == reg.nextGeneration)
  {
    if a.CommitReplace? {
      var v := Verdict(w.reg.tables, w.pc[a.t].s, Describe, env.maxSessions);
      assert v.Ok? ==> Apply(env, w, a).reg == Enter(w.reg, w.pc[a.t].s, v.value);
    }
  }

  lemma GenerationsStep(env: Env, w: World, a: Action)
    requires LivesSound(env, w.lives, w.reg, w.flags) && PlacesSound(w.lives, w.reg, w.pc)
    requires GenerationsSound(w.reg) && Enabled(env, w, a)
    ensures GenerationsSound(Apply(env, w, a).reg)
  {
    OnlyReplaceRegisters(env, w, a);
    var reg' := Apply(env, w, a).reg;
    if a.CommitReplace? && exists evicted :: reg' == Enter(w.reg, w.pc[a.t].s, evicted) {
      var evicted :| reg' == Enter(w.reg, w.pc[a.t].s, evicted);
      ReplacedIsNew(env, w, a.t);
      GenerationsEnter(w.reg, w.pc[a.t].s, evicted);
    } else {
      GenerationsKept(w.reg, reg');
    }
  }

  lemma GenerationsKept(reg: Registered, reg': Registered)
    requires GenerationsSound(reg)
    requires reg'.generation == reg.generation && reg'.members == reg.members
    requires reg'.nextGeneration == reg.nextGeneration
    ensures GenerationsSound(reg')
  {
  }

  predicate Holds(pc: map<Thread, Pc>, t: Thread, write: bool) {
    t in pc && if write then pc[t].HoldsWriteLock() else pc[t].HoldsReadLock()
  }

  /** A thread that neither takes nor releases the lock. */
  lemma LockMove(lock: Lock, pc: map<Thread, Pc>, pc': map<Thread, Pc>, t: Thread)
    requires LockSound(lock, pc) && Moves(pc, pc', t)
    requires Holds(pc', t, true) == Holds(pc, t, true) && Holds(pc', t, false) == Holds(pc, t, false)
    ensures LockSound(lock, pc')
  {
    forall u ensures Holds(pc', u, true) == Holds(pc, u, true) && Holds(pc', u, false) == Holds(pc, u, false) {}
    forall u ensures lock.writer == Some(u) <==> u in pc' && pc'[u].HoldsWriteLock() {
      assert Holds(pc', u, true) == Holds(pc, u, true);
    }
    forall u ensures u in lock.readers <==> u in pc' && pc'[u].HoldsReadLock() {
      assert Holds(pc', u, false) == Holds(pc, u, false);
    }
  }

  lemma LockTaken(lock: Lock, pc: map<Thread, Pc>, t: Thread, p: Pc)
    requires LockSound(lock, pc) && lock.writer == None && !Holds(pc, t, false)
    requires p.HoldsWriteLock() ==> lock.readers == {}
    ensures p.HoldsWriteLock() ==> LockSound(lock.(writer := Some(t)), pc[t := p])
    ensures p.HoldsReadLock() ==> LockSound(lock.(readers := lock.readers + {t}), pc[t := p])
  {
  }

  lemma LockReleased(lock: Lock, pc: map<Thread, Pc>, pc': map<Thread, Pc>, t: Thread)
    requires LockSound(lock, pc) && Moves(pc, pc', t) && !Holds(pc', t, true) && !Holds(pc', t, false)
    ensures Holds(pc, t, true) ==> LockSound(lock.(writer := None), pc')
    ensures Holds(pc, t, false) ==> LockSound(lock.(readers := lock.readers - {t}), pc')
  {
  }

  lemma LockStep(env: Env, w: World, a: Action)
    requires LockSound(w.lock, w.pc) && Enabled(env, w, a)
    ensures var w' := Apply(env, w, a); LockSound(w'.lock, w'.pc)
  {
    var w' := Apply(env, w, a);
    if !a.Create? {
      ActionMoves(env, w, a);
      if a.AcquireWrite? || a.AcquireRead? {
        LockTaken(w.lock, w.pc, a.t, w'.pc[a.t]);
      } else if a.CommitReplace? || a.CommitRemove? || a.CommitLookup? || a.CommitSnapshot? {
        LockReleased(w.lock, w.pc, w'.pc, a.t);
      } else {
        LockMove(w.lock, w.pc, w'.pc, a.t);
      }
    }
  }

  lemma OnceMove(flags: Flags, flags': Flags, pc: map<Thread, Pc>, pc': map<Thread, Pc>, t: Thread)
    requires OnceSound(flags, pc) && Moves(pc, pc', t) && flags'.once == flags.once
    requires HeldOnce(pc', t) == HeldOnce(pc, t)
    ensures OnceSound(flags', pc')
  {
    forall u ensures HeldOnce(pc', u) == HeldOnce(pc, u) {}
    forall s ensures flags'.OnceOf(s) == flags.OnceOf(s) {}
  }

  lemma OnceEnter(flags: Flags, pc: map<Thread, Pc>, t: Thread, s: Session, p: Pc)
    requires OnceSound(flags, pc) && !flags.OnceOf(s).Running? && HeldOnce(pc, t) == None
    requires p.Closing? && p.stage != BeforeOnce && p.s == s
    ensures OnceSound(flags.(once := flags.once[s := Running(t)]), pc[t := p])
  {
    var flags', pc' := flags.(once := flags.once[s := Running(t)]), pc[t := p];
    forall u ensures HeldOnce(pc', u) == if u == t then Some(s) else HeldOnce(pc, u) {}
    forall s' ensures flags'.OnceOf(s') == if s' == s then Running(t) else flags.OnceOf(s') {}
  }

  lemma OnceLeave(flags: Flags, pc: map<Thread, Pc>, t: Thread, s: Session, p: Pc)
    requires OnceSound(flags, pc) && HeldOnce(pc, t) == Some(s) && !p.Closing?
    ensures OnceSound(flags.(once := flags.once[s := Done]), pc[t := p])
  {
    var flags', pc' := flags.(once := flags.once[s := Done]), pc[t := p];
    forall u ensures HeldOnce(pc', u) == if u == t then None else HeldOnce(pc, u) {}
    forall s' ensures flags'.OnceOf(s') == if s' == s then Done else flags.OnceOf(s') {}
  }

  lemma OnceStep(env: Env, w: World, a: Action)
    requires OnceSound(w.flags, w.pc) && Enabled(env, w, a)
    ensures var w' := Apply(env, w, a); OnceSound(w'.flags, w'.pc)
  {
    var w' := Apply(env, w, a);
    if a.EnterOnce? && !w.flags.OnceOf(w.pc[a.t].s).Done? {
      OnceEnter(w.flags, w.pc, a.t, w.pc[a.t].s, w'.pc[a.t]);
    } else if a.LeaveOnce? {
      OnceLeave(w.flags, w.pc, a.t, w.pc[a.t].s, w'.pc[a.t]);
    } else if !a.Create? {
      ActionMoves(env, w, a);
      OnceMove(w.flags, w'.flags, w.pc, w'.pc, a.t);
    }
  }

  /**
   A thread moves; sessions that were never closed may be registered, and the flags of the thread's own
   session set.
   */
  lemma ClosesMove(
      reg: Registered, reg': Registered, flags: Flags, flags': Flags,
      pc: map<Thread, Pc>, pc': map<Thread, Pc>, t: Thread)
    requires ClosesSound(reg, flags, pc) && OnceSound(flags, pc) && Moves(pc, pc', t)
    requires forall s :: s in reg'.live ==> s in reg.live || flags.OnceOf(s) == Idle
    requires flags.cancelled <= flags'.cancelled && flags.connClosed <= flags'.connClosed
    requires flags.removed <= flags'.removed
    requires forall s :: s in flags'.removed ==> s in flags.removed || HeldOnce(pc, t) == Some(s)
    requires forall s :: flags'.OnceOf(s) == flags.OnceOf(s) || flags'.OnceOf(s).Running?
                         || (&& flags'.OnceOf(s) == Done && s !in reg'.live
                             && s in flags'.cancelled && s in flags'.connClosed)
    requires t in pc' ==> StageSound(reg', flags', pc'[t])
    ensures ClosesSound(reg', flags', pc')
  {
    forall u | u in pc' && u != t ensures StageSound(reg', flags', pc'[u]) {
      assert StageSound(reg, flags, pc[u]);
      assert HeldOnce(pc, u).Some? ==> flags.OnceOf(HeldOnce(pc, u).value) == Running(u);
    }
    forall s | s in flags'.removed ensures flags'.OnceOf(s) != Idle {
      if s !in flags.removed { assert flags.OnceOf(HeldOnce(pc, t).value) == Running(t); }
    }
  }

  /** The steps inside a one-shot. */
  predicate CloseAction(a: Action) {
    a.EnterOnce? || a.Cancel? || a.CloseConn? || a.CheckRegistered? || a.CommitRemove? || a.LeaveOnce?
  }

  lemma ClosesCloseStep(env: Env, w: World, a: Action)
    requires LivesSound(env, w.lives, w.reg, w.flags)
    requires OnceSound(w.flags, w.pc) && ClosesSound(w.reg, w.flags, w.pc) && Enabled(env, w, a) && CloseAction(a)
    ensures var w' := Apply(env, w, a); ClosesSound(w'.reg, w'.flags, w'.pc)
  {
    var w' := Apply(env, w, a);
    ActionMoves(env, w, a);
    assert StageSound(w.reg, w.flags, w.pc[a.t]);
    ClosesMove(w.reg, w'.reg, w.flags, w'.flags, w.pc, w'.pc, a.t);
  }

  lemma ClosesReplaceStep(env: Env, w: World, t: Thread)
    requires LivesSound(env, w.lives, w.reg, w.flags) && PlacesSound(w.lives, w.reg, w.pc)
    requires OnceSound(w.flags, w.pc) && ClosesSound(w.reg, w.flags, w.pc) && Enabled(env, w, CommitReplace(t))
    ensures var w' := Apply(env, w, CommitReplace(t)); ClosesSound(w'.reg, w'.flags, w'.pc)
  {
    var w' := Apply(env, w, CommitReplace(t));
    ReplacedIsNew(env, w, t);
    ClosesMove(w.reg, w'.reg, w.flags, w'.flags, w.pc, w'.pc, t);
  }

  lemma ClosesOtherStep(env: Env, w: World, a: Action)
    requires OnceSound(w.flags, w.pc) && ClosesSound(w.reg, w.flags, w.pc) && Enabled(env, w, a)
    requires !CloseAction(a) && !a.CommitReplace?
    ensures var w' := Apply(env, w, a); ClosesSound(w'.reg, w'.flags, w'.pc)
  {
    var w' := Apply(env, w, a);
    assert w'.reg == w.reg && w'.flags == w.flags;
    if !a.Create? {
      ActionMoves(env, w, a);
      assert a.t in w.pc ==> StageSound(w.reg, w.flags, w.pc[a.t]);
      ClosesMove(w.reg, w.reg, w.flags, w.flags, w.pc, w'.pc, a.t);
    }
  }

  lemma ClosesStep(env: Env, w: World, a: Action)
    requires LivesSound(env, w.lives, w.reg, w.flags) && PlacesSound(w.lives, w.reg, w.pc)
    requires OnceSound(w.flags, w.pc) && ClosesSound(w.reg, w.flags, w.pc) && Enabled(env, w, a)
    ensures var w' := Apply(env, w, a); ClosesSound(w'.reg, w'.flags, w'.pc)
  {
    if CloseAction(a) {
      ClosesCloseStep(env, w, a);
    } else if a.CommitReplace? {
      ClosesReplaceStep(env, w, a.t);
    } else {
      ClosesOtherStep(env, w, a);
    }
  }

  lemma TransfersMove(
      env: Env, l: Lives, l': Lives, log: Log, log': Log, pc: map<Thread, Pc>, pc': map<Thread, Pc>, t: Thread)
    requires TransfersSound(env, l, log, pc) && Moves(pc, pc', t) && l.created <= l'.created
    requires forall x :: x in log'.delivered ==> x in log.delivered || (x.session in l.created && env.AddressedTo(x))
    requires forall x :: x in log'.forwarded ==> x in log.forwarded || (x.session in l.created && env.mayEnterTunnel(x))
    requires t in pc' ==> TransferSound(env, pc'[t])
    ensures TransfersSound(env, l', log', pc')
  {
  }

  /** The steps that start, make or log a transfer. */
  predicate TransferAction(a: Action) {
    a.StartForward? || a.CommitLookup? || a.WritePacket? || a.WriteTunnel?
  }

  lemma TransfersOtherStep(env: Env, w: World, a: Action)
    requires TransfersSound(env, w.lives, w.log, w.pc) && Enabled(env, w, a) && !TransferAction(a)
    ensures var w' := Apply(env, w, a); TransfersSound(env, w'.lives, w'.log, w'.pc)
  {
    var w' := Apply(env, w, a);
    assert w'.log == w.log;
    if !a.Create? {
      ActionMoves(env, w, a);
      TransfersMove(env, w.lives, w'.lives, w.log, w.log, w.pc, w'.pc, a.t);
    }
  }

  lemma TransfersStep(env: Env, w: World, a: Action)
    requires LivesSound(env, w.lives, w.reg, w.flags) && PlacesSound(w.lives, w.reg, w.pc) && RegistrySound(env, w.reg)
    requires TransfersSound(env, w.lives, w.log, w.pc) && Enabled(env, w, a)
    ensures var w' := Apply(env, w, a); TransfersSound(env, w'.lives, w'.log, w'.pc)
  {
    var w' := Apply(env, w, a);
    if TransferAction(a) {
      ActionMoves(env, w, a);
      assert a.t in w.pc ==> PcSound(w.lives, w.reg, w.pc[a.t]);
      if a.CommitLookup? { OwnerIsAddressed(env, w.reg, w.pc[a.t].data); }
      TransfersMove(env, w.lives, w'.lives, w.log, w'.log, w.pc, w'.pc, a.t);
    } else {
      TransfersOtherStep(env, w, a);
    }
  }

  /** Every step that can be taken keeps all of them. */
  lemma StepKeepsInv(env: Env, w: World, a: Action)
    requires Inv(env, w)
    ensures Enabled(env, w, a) ==> Inv(env, Apply(env, w, a))
  {
    if Enabled(env, w, a) {
      LivesStep(env, w, a);
      PlacesStep(env, w, a);
      ReplacersStep(env, w, a);
      RegistryStep(env, w, a);
      GenerationsStep(env, w, a);
      LockStep(env, w, a);
      OnceStep(env, w, a);
      ClosesStep(env, w, a);
      TransfersStep(env, w, a);
    }
  }
}
