/** What holds over whole runs of the machine: the registry as a set of sessions, and what a late Close can do. */
module MachineRuns {
  import opened Common
  import opened NetAddr
  import opened Registry
  import opened Machine
  import opened MachineInvariants

  lemma PathStepInv(env: Env, ws: seq<World>, acts: seq<Action>, i: nat)
    requires Path(env, ws, acts) && i < |acts| && Inv(env, ws[i])
    ensures Inv(env, ws[i + 1])
  {
    assert StepAt(env, ws, acts, i);
    StepKeepsInv(env, ws[i], acts[i]);
  }

  lemma {:induction false} PathInv(env: Env, ws: seq<World>, acts: seq<Action>, i: nat)
    requires Path(env, ws, acts) && Inv(env, ws[0]) && i <= |acts|
    ensures Inv(env, ws[i])
  {
    if i > 0 {
      PathInv(env, ws, acts, i - 1);
      PathStepInv(env, ws, acts, i - 1);
    }
  }

  /** Every world of every run keeps the invariants. */
  lemma RunInv(env: Env, ws: seq<World>, acts: seq<Action>, i: nat)
    requires Run(env, ws, acts) && i <= |acts|
    ensures Inv(env, ws[i])
  {
    InitInv(env);
    PathInv(env, ws, acts, i);
  }

  /** A lookup finds a session exactly when it is live and owns the address. */
  lemma LookupIsTheOwner(env: Env, ws: seq<World>, acts: seq<Action>, i: nat, ip: Addr, x: Session)
    requires Run(env, ws, acts) && i <= |acts|
    ensures Lookup(ws[i].reg.tables, ip) == Some(x) <==> x in ws[i].reg.live && ip in x.desc.ips
  {
    RunInv(env, ws, acts, i);
    RegistryMeaning(ws[i].reg, ip, x);
  }

  lemma RegistryMeaning(reg: Registered, ip: Addr, x: Session)
    requires Represents(reg.tables, reg.live, Describe)
    ensures Lookup(reg.tables, ip) == Some(x) <==> x in reg.live && ip in x.desc.ips
  {
    assert Describe(x) == x.desc;
  }

  /** At any moment the live sessions have distinct identities and share no address. */
  lemma LiveSessionsAreApart(env: Env, ws: seq<World>, acts: seq<Action>, i: nat, x: Session, y: Session)
    requires Run(env, ws, acts) && i <= |acts|
    requires x in ws[i].reg.live && y in ws[i].reg.live && x != y
    ensures x.desc.identity != y.desc.identity
    ensures forall ip :: ip in x.desc.ips ==> ip !in y.desc.ips
  {
    RunInv(env, ws, acts, i);
    assert Describe(x) == x.desc && Describe(y) == y.desc;
    forall ip | ip in x.desc.ips ensures ip !in y.desc.ips {
      if ip in y.desc.ips { AddressesAreDisjoint(ws[i].reg.tables, ws[i].reg.live, Describe, x, y, ip); }
    }
  }

  /** At any moment the live sessions keep within a positive limit. */
  lemma LimitIsKept(env: Env, ws: seq<World>, acts: seq<Action>, i: nat)
    requires Run(env, ws, acts) && i <= |acts|
    ensures env.maxSessions > 0 ==> |Live(ws[i].reg.tables)| <= env.maxSessions
  {
    RunInv(env, ws, acts, i);
    RepresentsLive(ws[i].reg.tables, ws[i].reg.live, Describe);
  }

  // ---- what one step does to the registry ----

  /** The sessions that a step registers: at most the one whose critical section it is. */
  predicate Registers(env: Env, w: World, a: Action) {
    a.CommitReplace? && Enabled(env, w, a) && Verdict(w.reg.tables, w.pc[a.t].s, Describe, env.maxSessions).Ok?
  }

  lemma AcceptedOnTheSet(env: Env, w: World, t: Thread)
    requires LivesSound(env, w.lives, w.reg, w.flags) && PlacesSound(w.lives, w.reg, w.pc) && RegistrySound(env, w.reg)
    requires Registers(env, w, CommitReplace(t))
    ensures var reg, reg', s := w.reg, Apply(env, w, CommitReplace(t)).reg, w.pc[t].s;
            var evicted := set x | x in reg.live && x.desc.identity == s.desc.identity;
            && s !in reg.members && |evicted| <= 1
            && reg'.live == reg.live - evicted + {s} && reg'.members == reg.members + {s}
            && reg'.generation == reg.generation[s := reg'.nextGeneration]
  {
    ReplaceStep(env, w, t);
  }

  lemma OthersOnTheSet(env: Env, w: World, a: Action)
    requires Enabled(env, w, a) && !Registers(env, w, a)
    ensures var reg, reg' := w.reg, Apply(env, w, a).reg;
            if a.CommitRemove? then reg' == reg.(tables := reg'.tables, live := reg.live - {w.pc[a.t].s})
            else reg' == reg
  {
  }

  /**
   The registry as a set: an accepted Replace takes out the sessions of its identity, of which there
   is at most one, and puts in its own, which was never in before; RemoveIfCurrent takes out its
   own session; nothing else, a refused Replace included, changes anything in the registry.
   */
  lemma StepOnTheSet(env: Env, w: World, a: Action)
    requires Inv(env, w) && Enabled(env, w, a)
    ensures
      var reg, reg' := w.reg, Apply(env, w, a).reg;
      if Registers(env, w, a) then
        var s := w.pc[a.t].s;
        var evicted := set x | x in reg.live && x.desc.identity == s.desc.identity;
        && s !in reg.members && |evicted| <= 1
        && reg'.live == reg.live - evicted + {s} && reg'.members == reg.members + {s}
        && reg'.generation == reg.generation[s := reg'.nextGeneration]
      else if a.CommitRemove? then
        reg' == reg.(tables := reg'.tables, live := reg.live - {w.pc[a.t].s})
      else reg' == reg
  {
    if Registers(env, w, a) { AcceptedOnTheSet(env, w, a.t); } else { OthersOnTheSet(env, w, a); }
  }

  /** RemoveIfCurrent changes what is found only where its own session was found. */
  lemma RemoveSparesOthers(env: Env, w: World, t: Thread, ip: Addr)
    requires Inv(env, w) && Enabled(env, w, CommitRemove(t))
    ensures var s := w.pc[t].s;
            var w' := Apply(env, w, CommitRemove(t));
            && (s !in w.reg.live ==> w'.reg == w.reg)
            && (Lookup(w.reg.tables, ip) != Some(s) ==> Lookup(w'.reg.tables, ip) == Lookup(w.reg.tables, ip))
  {
    RemoveRefinesDelete(w.reg.tables, w.reg.live, Describe, w.pc[t].s);
  }

  /** A live session stays until its own Close takes it out or a session of its identity takes over. */
  lemma HowASessionLeaves(env: Env, w: World, a: Action, x: Session)
    requires Inv(env, w) && Enabled(env, w, a)
    ensures x in w.reg.live && x !in Apply(env, w, a).reg.live ==>
              || (AtStage(w, a.t, HasLock) && w.pc[a.t].s == x)
              || (Registers(env, w, a) && w.pc[a.t].s != x && w.pc[a.t].s.desc.identity == x.desc.identity
                  && w.pc[a.t].s in Apply(env, w, a).reg.live)
  {
    StepOnTheSet(env, w, a);
  }

  // ---- sessions that have left ----

  ghost predicate Departed(w: World, s: Session) {
    s in w.reg.members && s !in w.reg.live
  }

  lemma DepartedStays(env: Env, w: World, a: Action, s: Session)
    requires LivesSound(env, w.lives, w.reg, w.flags) && PlacesSound(w.lives, w.reg, w.pc) && Enabled(env, w, a)
    requires Departed(w, s)
    ensures Departed(Apply(env, w, a), s)
  {
    if a.CommitReplace? { ReplacedIsNew(env, w, a.t); }
  }

  lemma DepartedStaysInRun(env: Env, ws: seq<World>, acts: seq<Action>, i: nat, s: Session)
    requires Run(env, ws, acts) && i < |acts| && Departed(ws[i], s)
    ensures Departed(ws[i + 1], s)
  {
    RunInv(env, ws, acts, i);
    assert StepAt(env, ws, acts, i);
    DepartedStays(env, ws[i], acts[i], s);
  }

  /** A session that has left the registry never returns. */
  lemma {:induction false} NeverReturns(env: Env, ws: seq<World>, acts: seq<Action>, i: nat, j: nat, s: Session)
    requires Run(env, ws, acts) && i <= j <= |acts|
    requires Departed(ws[i], s)
    ensures Departed(ws[j], s)
    decreases j
  {
    if i < j {
      NeverReturns(env, ws, acts, i, j - 1, s);
      DepartedStaysInRun(env, ws, acts, j - 1, s);
    }
  }

  lemma DoneStaysDone(env: Env, w: World, a: Action, s: Session)
    requires Enabled(env, w, a) && w.flags.OnceOf(s) == Done
    ensures Apply(env, w, a).flags.OnceOf(s) == Done
  {
  }

  lemma {:induction false} DoneForGood(env: Env, ws: seq<World>, acts: seq<Action>, i: nat, j: nat, s: Session)
    requires Run(env, ws, acts) && i <= j <= |acts|
    requires ws[i].flags.OnceOf(s) == Done
    ensures ws[j].flags.OnceOf(s) == Done
    decreases j
  {
    if i < j {
      DoneForGood(env, ws, acts, i, j - 1, s);
      assert StepAt(env, ws, acts, j - 1);
      DoneStaysDone(env, ws[j - 1], acts[j - 1], s);
    }
  }

  /** Once a session's Close has completed, no address leads to the session for the rest of the run. */
  lemma ClosedIsGoneForGood(env: Env, ws: seq<World>, acts: seq<Action>, i: nat, j: nat, s: Session)
    requires Run(env, ws, acts) && i <= j <= |acts|
    requires ws[i].flags.OnceOf(s) == Done
    ensures s !in ws[j].reg.live && s in ws[j].flags.cancelled && s in ws[j].flags.connClosed
    ensures forall ip :: Lookup(ws[j].reg.tables, ip) != Some(s)
  {
    DoneForGood(env, ws, acts, i, j, s);
    RunInv(env, ws, acts, j);
    forall ip ensures Lookup(ws[j].reg.tables, ip) != Some(s) {
      RegistryMeaning(ws[j].reg, ip, s);
    }
  }

  /** The compare-and-swap on `removed` succeeds whenever it is reached: it guards nothing closeOnce does not. */
  lemma SwapNeverFails(env: Env, ws: seq<World>, acts: seq<Action>, i: nat, t: Thread)
    requires Run(env, ws, acts) && i <= |acts| && AtStage(ws[i], t, Checking)
    ensures ws[i].pc[t].s !in ws[i].flags.removed
  {
    RunInv(env, ws, acts, i);
    assert StageSound(ws[i].reg, ws[i].flags, ws[i].pc[t]);
  }

  // ---- generations ----

  /** Sessions keep their generation, and those registered since have greater ones than any before. */
  ghost predicate Later(reg: Registered, reg': Registered) {
    && reg.generation.Keys == reg.members <= reg'.members == reg'.generation.Keys
    && reg.nextGeneration <= reg'.nextGeneration
    && (forall s :: s in reg.members ==> reg'.generation[s] == reg.generation[s])
    && (forall s :: s in reg'.members && s !in reg.members ==> reg'.generation[s] > reg.nextGeneration)
  }

  /** Later registrations have later generations, as long as the 64-bit counter has not come round. */
  lemma {:induction false} GenerationsGrow(env: Env, ws: seq<World>, acts: seq<Action>, i: nat, j: nat)
    requires Run(env, ws, acts) && i <= j <= |acts|
    requires |ws[j].reg.members| < 0x1_0000_0000_0000_0000
    ensures Later(ws[i].reg, ws[j].reg)
    decreases j
  {
    if i < j {
      GenerationsGrowOnce(env, ws, acts, j - 1);
      GenerationsGrow(env, ws, acts, i, j - 1);
    } else {
      RunInv(env, ws, acts, i);
    }
  }

  lemma GenerationsGrowOnce(env: Env, ws: seq<World>, acts: seq<Action>, i: nat)
    requires Run(env, ws, acts) && i < |acts|
    requires |ws[i + 1].reg.members| < GENERATIONS
    ensures |ws[i].reg.members| < GENERATIONS && Later(ws[i].reg, ws[i + 1].reg)
  {
    RunInv(env, ws, acts, i);
    assert StepAt(env, ws, acts, i);
    GenerationsGrowByAStep(env, ws[i], acts[i]);
  }

  lemma GenerationsGrowByAStep(env: Env, w: World, a: Action)
    requires Inv(env, w)
    ensures Enabled(env, w, a) && |Apply(env, w, a).reg.members| < GENERATIONS ==>
              |w.reg.members| < GENERATIONS && Later(w.reg, Apply(env, w, a).reg)
  {
    if Enabled(env, w, a) && |Apply(env, w, a).reg.members| < GENERATIONS {
      StepOnTheSet(env, w, a);
      GenerationsStep(env, w, a);
      if Registers(env, w, a) {
        LaterByOne(w.reg, Apply(env, w, a).reg, w.pc[a.t].s);
      }
    }
  }

  lemma LaterByOne(reg: Registered, reg': Registered, s: Session)
    requires GenerationsSound(reg) && GenerationsSound(reg') && |reg'.members| < GENERATIONS
    requires s !in reg.members && reg'.members == reg.members + {s}
    requires reg'.generation == reg.generation[s := reg'.nextGeneration]
    ensures |reg.members| < GENERATIONS && Later(reg, reg')
  {
    assert |reg.members + {s}| == |reg.members| + 1;
  }

  /**
   What an address leads to never goes back: a later lookup finds the same session or one of a
   greater generation, as long as fewer than 2^64 sessions have registered.
   */
  lemma LookupNeverGoesBack(
      env: Env, ws: seq<World>, acts: seq<Action>, i: nat, j: nat, ip: Addr, x: Session, y: Session)
    requires Run(env, ws, acts) && i <= j <= |acts|
    requires |ws[j].reg.members| < 0x1_0000_0000_0000_0000
    requires Lookup(ws[i].reg.tables, ip) == Some(x) && Lookup(ws[j].reg.tables, ip) == Some(y)
    ensures x in ws[i].reg.generation && y in ws[j].reg.generation
    ensures ws[i].reg.generation[x] <= ws[j].reg.generation[y]
    ensures ws[i].reg.generation[x] == ws[j].reg.generation[y] <==> x == y
  {
    RunInv(env, ws, acts, i);
    RunInv(env, ws, acts, j);
    GenerationsGrow(env, ws, acts, i, j);
    LookupIsTheOwner(env, ws, acts, i, ip, x);
    LookupIsTheOwner(env, ws, acts, j, ip, y);
    assert |ws[i].reg.members| < GENERATIONS by { SetGrows(ws[i].reg.members, ws[j].reg.members); }
    if y in ws[i].reg.members {
      if y !in ws[i].reg.live { NeverReturns(env, ws, acts, i, j, y); }
      LookupIsTheOwner(env, ws, acts, i, ip, y);
    }
  }

  lemma {:induction false} SetGrows<T>(a: set<T>, b: set<T>)
    requires a <= b
    ensures |a| <= |b|
  {
    assert b == a + (b - a);
  }

  // ---- loops that close sessions ----

  predicate InSweep(w: World, t: Thread) {
    t in w.pc && (w.pc[t].Sweeping? || w.pc[t].Closing?)
  }

  /** The sessions the thread has yet to close, or is closing. */
  function Pending(w: World, t: Thread): set<Session>
    requires InSweep(w, t)
  {
    if w.pc[t].Sweeping? then w.pc[t].todo else w.pc[t].todo + {w.pc[t].s}
  }

  /** The sessions have been closed, apart from those the sweeping thread has yet to close, or is closing. */
  ghost predicate Settles(w: World, t: Thread, all: set<Session>) {
    InSweep(w, t) && forall s :: s in all && s !in Pending(w, t) ==> w.flags.OnceOf(s) == Done
  }

  lemma SettlesStep(env: Env, w: World, a: Action, t: Thread, all: set<Session>)
    requires Enabled(env, w, a) && Settles(w, t, all) && a != EndSweep(t)
    ensures Settles(Apply(env, w, a), t, all)
  {
    var w' := Apply(env, w, a);
    if !a.Create? { ActionMoves(env, w, a); }
    forall s | s in all && s !in Pending(w', t) ensures w'.flags.OnceOf(s) == Done {
      if s !in Pending(w, t) { DoneStaysDone(env, w, a, s); }
    }
  }

  lemma {:induction false} SweepSettles(
      env: Env, ws: seq<World>, acts: seq<Action>, i: nat, j: nat, t: Thread, all: set<Session>)
    requires Run(env, ws, acts) && i <= j <= |acts|
    requires InSweep(ws[i], t) && Pending(ws[i], t) == all
    requires forall k :: i <= k < j ==> acts[k] != EndSweep(t)
    ensures Settles(ws[j], t, all)
    decreases j
  {
    if i < j {
      SweepSettles(env, ws, acts, i, j - 1, t, all);
      assert StepAt(env, ws, acts, j - 1);
      SettlesStep(env, ws[j - 1], acts[j - 1], t, all);
    }
  }

  /** When the loop ends, the Close of every session it was given has completed, in whichever thread. */
  lemma SweepClosesAll(env: Env, ws: seq<World>, acts: seq<Action>, i: nat, j: nat, t: Thread, all: set<Session>)
    requires Run(env, ws, acts) && i <= j < |acts|
    requires InSweep(ws[i], t) && Pending(ws[i], t) == all
    requires acts[j] == EndSweep(t) && forall k :: i <= k < j ==> acts[k] != EndSweep(t)
    ensures forall s :: s in all ==> ws[j].flags.OnceOf(s) == Done
  {
    SweepSettles(env, ws, acts, i, j, t, all);
    EndOfSweep(env, ws, acts, j, t);
  }

  lemma AfterStartClose(env: Env, ws: seq<World>, acts: seq<Action>, i: nat, t: Thread, s: Session)
    requires Run(env, ws, acts) && i < |acts|
    requires acts[i] == StartClose(t, s)
             || (&& acts[i] == WritePacket(t, true) && t in ws[i].pc
                 && ws[i].pc[t].Writing? && ws[i].pc[t].transfer.session == s)
    ensures InSweep(ws[i + 1], t) && Pending(ws[i + 1], t) == {s}
  {
    assert StepAt(env, ws, acts, i);
  }

  /**
   When a call of Close returns, or a dispatch whose write failed, the session is cancelled, disconnected and
   unregistered for good, whichever thread did it.
   */
  lemma CloseReturnsClosed(env: Env, ws: seq<World>, acts: seq<Action>, i: nat, j: nat, k: nat, t: Thread, s: Session)
    requires Run(env, ws, acts) && i < j < k <= |acts|
    requires acts[i] == StartClose(t, s)
             || (&& acts[i] == WritePacket(t, true) && t in ws[i].pc
                 && ws[i].pc[t].Writing? && ws[i].pc[t].transfer.session == s)
    requires acts[j] == EndSweep(t) && forall m :: i < m < j ==> acts[m] != EndSweep(t)
    ensures s !in ws[k].reg.live && s in ws[k].flags.cancelled && s in ws[k].flags.connClosed
  {
    AfterStartClose(env, ws, acts, i, t, s);
    SweepClosesAll(env, ws, acts, i + 1, j, t, {s});
    ClosedIsGoneForGood(env, ws, acts, j, k, s);
  }

  lemma EndOfSweep(env: Env, ws: seq<World>, acts: seq<Action>, i: nat, t: Thread)
    requires Run(env, ws, acts) && i < |acts| && acts[i] == EndSweep(t)
    ensures t in ws[i].pc && ws[i].pc[t] == Sweeping({})
  {
    assert StepAt(env, ws, acts, i);
  }

  /** The i-th action is an accepted Replace. */
  predicate Accepts(env: Env, ws: seq<World>, acts: seq<Action>, i: nat) {
    i < |acts| && i < |ws| && Registers(env, ws[i], acts[i])
  }

  lemma AfterAccepting(env: Env, ws: seq<World>, acts: seq<Action>, i: nat, t: Thread)
    requires Run(env, ws, acts) && Accepts(env, ws, acts, i) && acts[i] == CommitReplace(t)
    ensures t in ws[i].pc && ws[i].pc[t].InReplace? && t in ws[i + 1].pc
    ensures ws[i + 1].pc[t]
            == Sweeping(set x | x in ws[i].reg.live && x.desc.identity == ws[i].pc[t].s.desc.identity)
  {
    RunInv(env, ws, acts, i);
    ReplaceStep(env, ws[i], t);
    assert StepAt(env, ws, acts, i);
  }

  /** When Replace returns, the session it evicted is cancelled, disconnected and unregistered for good. */
  lemma EvictedAreClosed(env: Env, ws: seq<World>, acts: seq<Action>, i: nat, j: nat, k: nat, t: Thread, x: Session)
    requires Run(env, ws, acts) && i < j < k <= |acts|
    requires Accepts(env, ws, acts, i) && acts[i] == CommitReplace(t)
    requires x in ws[i].reg.live && x.desc.identity == ws[i].pc[t].s.desc.identity
    requires acts[j] == EndSweep(t) && forall m :: i < m < j ==> acts[m] != EndSweep(t)
    ensures x !in ws[k].reg.live && x in ws[k].flags.cancelled && x in ws[k].flags.connClosed
  {
    AfterAccepting(env, ws, acts, i, t);
    SweepClosesAll(env, ws, acts, i + 1, j, t, ws[i + 1].pc[t].todo);
    ClosedIsGoneForGood(env, ws, acts, j, k, x);
  }

  // ---- shutdown ----

  /** What a snapshot hands to the loop is every session registered at that moment. */
  lemma AfterSnapshot(env: Env, ws: seq<World>, acts: seq<Action>, i: nat, t: Thread)
    requires Run(env, ws, acts) && i < |acts| && acts[i] == CommitSnapshot(t)
    ensures t in ws[i + 1].pc && ws[i + 1].pc[t] == Sweeping(ws[i].reg.live)
    ensures ws[i + 1].reg == ws[i].reg
  {
    RunInv(env, ws, acts, i);
    RepresentsLive(ws[i].reg.tables, ws[i].reg.live, Describe);
    assert StepAt(env, ws, acts, i);
  }

  /** A thread goes through one loop over a snapshot, from the i-th action to the j-th. */
  predicate Sweeps(acts: seq<Action>, i: nat, j: nat, t: Thread) {
    && i < j < |acts| && acts[i] == CommitSnapshot(t) && acts[j] == EndSweep(t)
    && forall k :: i < k < j ==> acts[k] != EndSweep(t)
  }

  /** A session that had been registered when the snapshot was taken is not registered when the loop ends. */
  lemma SweptIsGone(env: Env, ws: seq<World>, acts: seq<Action>, i: nat, j: nat, t: Thread, x: Session)
    requires Run(env, ws, acts) && Sweeps(acts, i, j, t) && x in ws[i].reg.members
    ensures x !in ws[j + 1].reg.live
  {
    if x in ws[i].reg.live {
      AfterSnapshot(env, ws, acts, i, t);
      SweepClosesAll(env, ws, acts, i + 1, j, t, ws[i].reg.live);
      ClosedIsGoneForGood(env, ws, acts, j, j + 1, x);
    } else {
      NeverReturns(env, ws, acts, i, j + 1, x);
    }
  }

  lemma RunRegistry(env: Env, ws: seq<World>, acts: seq<Action>, i: nat)
    requires Run(env, ws, acts) && i <= |acts|
    ensures ws[i].reg.live <= ws[i].reg.members && Represents(ws[i].reg.tables, ws[i].reg.live, Describe)
  {
    RunInv(env, ws, acts, i);
  }

  /**
   Shutdown: when the loop over a snapshot ends, the only sessions still registered are ones that
   registered after the snapshot, whatever other threads do meanwhile.
   */
  lemma SweepLeavesOnlyNewcomers(env: Env, ws: seq<World>, acts: seq<Action>, i: nat, j: nat, t: Thread)
    requires Run(env, ws, acts) && Sweeps(acts, i, j, t)
    ensures ws[j + 1].reg.live <= ws[j + 1].reg.members - ws[i].reg.members
  {
    RunRegistry(env, ws, acts, j + 1);
    forall x | x in ws[j + 1].reg.live ensures x !in ws[i].reg.members {
      if x in ws[i].reg.members { SweptIsGone(env, ws, acts, i, j, t, x); }
    }
  }

  lemma EndsQuietly(env: Env, ws: seq<World>, acts: seq<Action>, i: nat, t: Thread)
    requires Run(env, ws, acts) && i < |acts| && acts[i] == EndSweep(t)
    ensures ws[i + 1].reg == ws[i].reg
  {
    assert StepAt(env, ws, acts, i);
  }

  /** The k-th action registers the session. */
  predicate PutsIn(env: Env, ws: seq<World>, acts: seq<Action>, k: nat, x: Session) {
    Accepts(env, ws, acts, k) && ws[k].pc[acts[k].t].s == x
  }

  /** The m-th action is the removal in the session's own Close, or a takeover by a session of its identity. */
  predicate TakesOut(env: Env, ws: seq<World>, acts: seq<Action>, m: nat, x: Session) {
    && m < |acts| && m < |ws|
    && (|| (acts[m].CommitRemove? && AtStage(ws[m], acts[m].t, HasLock) && ws[m].pc[acts[m].t].s == x)
        || (&& Accepts(env, ws, acts, m)
            && ws[m].pc[acts[m].t].s != x && ws[m].pc[acts[m].t].s.desc.identity == x.desc.identity))
  }

  lemma AfterPuttingIn(env: Env, ws: seq<World>, acts: seq<Action>, k: nat, x: Session)
    requires Run(env, ws, acts) && PutsIn(env, ws, acts, k, x)
    ensures x in ws[k + 1].reg.live && x in ws[k + 1].reg.members
  {
    RunInv(env, ws, acts, k);
    assert StepAt(env, ws, acts, k);
    StepOnTheSet(env, ws[k], acts[k]);
  }

  lemma AfterTakingOut(env: Env, ws: seq<World>, acts: seq<Action>, m: nat, x: Session)
    requires Run(env, ws, acts) && TakesOut(env, ws, acts, m, x) && x in ws[m].reg.members
    ensures Departed(ws[m + 1], x)
  {
    RunInv(env, ws, acts, m);
    assert StepAt(env, ws, acts, m);
    StepOnTheSet(env, ws[m], acts[m]);
  }

  lemma OnlyPuttingInAdds(env: Env, ws: seq<World>, acts: seq<Action>, k: nat, x: Session)
    requires Run(env, ws, acts) && k < |acts|
    ensures x in ws[k].reg.members ==> x in ws[k + 1].reg.members
    ensures x !in ws[k].reg.members && x in ws[k + 1].reg.members ==> PutsIn(env, ws, acts, k, x)
  {
    RunInv(env, ws, acts, k);
    assert StepAt(env, ws, acts, k);
    StepOnTheSet(env, ws[k], acts[k]);
  }

  lemma OnlyTakingOutRemoves(env: Env, ws: seq<World>, acts: seq<Action>, m: nat, x: Session)
    requires Run(env, ws, acts) && m < |acts| && x in ws[m].reg.live && x !in ws[m + 1].reg.live
    ensures TakesOut(env, ws, acts, m, x)
  {
    RunInv(env, ws, acts, m);
    assert StepAt(env, ws, acts, m);
    StepOnTheSet(env, ws[m], acts[m]);
  }

  lemma {:induction false} MembersStay(env: Env, ws: seq<World>, acts: seq<Action>, i: nat, j: nat, x: Session)
    requires Run(env, ws, acts) && i <= j <= |acts| && x in ws[i].reg.members
    ensures x in ws[j].reg.members
    decreases j
  {
    if i < j {
      MembersStay(env, ws, acts, i, j - 1, x);
      OnlyPuttingInAdds(env, ws, acts, j - 1, x);
    }
  }

  /** A session that has come to be registered was put in at some step. */
  lemma {:induction false} WasPutIn(env: Env, ws: seq<World>, acts: seq<Action>, i: nat, j: nat, x: Session)
      returns (k: nat)
    requires Run(env, ws, acts) && i <= j <= |acts|
    requires x !in ws[i].reg.members && x in ws[j].reg.members
    ensures i <= k < j && PutsIn(env, ws, acts, k, x)
    decreases j
  {
    if x in ws[j - 1].reg.members {
      k := WasPutIn(env, ws, acts, i, j - 1, x);
    } else {
      OnlyPuttingInAdds(env, ws, acts, j - 1, x);
      k := j - 1;
    }
  }

  /** A session that has ceased to be live was taken out at some step. */
  lemma {:induction false} WasTakenOut(env: Env, ws: seq<World>, acts: seq<Action>, i: nat, j: nat, x: Session)
      returns (m: nat)
    requires Run(env, ws, acts) && i <= j <= |acts|
    requires x in ws[i].reg.live && x !in ws[j].reg.live
    ensures i <= m < j && TakesOut(env, ws, acts, m, x)
    decreases j
  {
    if x in ws[j - 1].reg.live {
      OnlyTakingOutRemoves(env, ws, acts, j - 1, x);
      m := j - 1;
    } else {
      m := WasTakenOut(env, ws, acts, i, j - 1, x);
    }
  }

  /** Every session that registers between the i-th and the j-th action is taken out again before the j-th. */
  ghost predicate NewcomersLeave(env: Env, ws: seq<World>, acts: seq<Action>, i: nat, j: nat) {
    forall k, x {:trigger PutsIn(env, ws, acts, k, x)} :: i < k < j && PutsIn(env, ws, acts, k, x) ==>
      exists m :: k < m < j && TakesOut(env, ws, acts, m, x)
  }

  lemma NewcomerLeaves(env: Env, ws: seq<World>, acts: seq<Action>, k: nat, j: nat, x: Session) returns (m: nat)
    requires Run(env, ws, acts) && k < j <= |acts|
    requires PutsIn(env, ws, acts, k, x) && x !in ws[j].reg.live
    ensures k < m < j && TakesOut(env, ws, acts, m, x)
  {
    AfterPuttingIn(env, ws, acts, k, x);
    m := WasTakenOut(env, ws, acts, k + 1, j, x);
  }

  lemma LeaversAreGone(env: Env, ws: seq<World>, acts: seq<Action>, k: nat, m: nat, j: nat, x: Session)
    requires Run(env, ws, acts) && k < m < j <= |acts|
    requires PutsIn(env, ws, acts, k, x) && TakesOut(env, ws, acts, m, x)
    ensures x !in ws[j].reg.live
  {
    AfterPuttingIn(env, ws, acts, k, x);
    MembersStay(env, ws, acts, k + 1, m, x);
    AfterTakingOut(env, ws, acts, m, x);
    NeverReturns(env, ws, acts, m + 1, j, x);
  }

  /** A session still live when the loop ends registered during it. */
  lemma RegisteredMeanwhile(env: Env, ws: seq<World>, acts: seq<Action>, i: nat, j: nat, t: Thread, x: Session)
      returns (k: nat)
    requires Run(env, ws, acts) && Sweeps(acts, i, j, t) && x in ws[j].reg.live
    ensures i < k < j && PutsIn(env, ws, acts, k, x)
  {
    SweepLeavesOnlyNewcomers(env, ws, acts, i, j, t);
    EndsQuietly(env, ws, acts, j, t);
    AfterSnapshot(env, ws, acts, i, t);
    k := WasPutIn(env, ws, acts, i + 1, j, x);
  }

  /** The shutdown loop leaves both tables empty exactly when every session that registers during it leaves again. */
  lemma SweepEmptiesExactly(env: Env, ws: seq<World>, acts: seq<Action>, i: nat, j: nat, t: Thread)
    requires Run(env, ws, acts) && Sweeps(acts, i, j, t)
    ensures ws[j + 1].reg.tables == Tables(map[], map[]) <==> NewcomersLeave(env, ws, acts, i, j)
  {
    EndsQuietly(env, ws, acts, j, t);
    EmptyTablesEmptySet(env, ws, acts, j + 1);
    if ws[j].reg.live == {} {
      forall k, x | i < k < j && PutsIn(env, ws, acts, k, x)
        ensures exists m :: k < m < j && TakesOut(env, ws, acts, m, x)
      {
        var m := NewcomerLeaves(env, ws, acts, k, j, x);
      }
    }
    if NewcomersLeave(env, ws, acts, i, j) {
      forall x ensures x !in ws[j].reg.live {
        if x in ws[j].reg.live {
          var k := RegisteredMeanwhile(env, ws, acts, i, j, t, x);
          var m :| k < m < j && TakesOut(env, ws, acts, m, x);
          LeaversAreGone(env, ws, acts, k, m, j, x);
        }
      }
    }
  }

  lemma EmptyTablesEmptySet(env: Env, ws: seq<World>, acts: seq<Action>, i: nat)
    requires Run(env, ws, acts) && i <= |acts|
    ensures ws[i].reg.tables == Tables(map[], map[]) <==> ws[i].reg.live == {}
  {
    RunRegistry(env, ws, acts, i);
    RepresentsLive(ws[i].reg.tables, ws[i].reg.live, Describe);
    if ws[i].reg.live == {} { NoSessionsNoEntries(ws[i].reg.tables, {}, Describe); }
  }

  /** In particular it does when no registration is accepted during the loop. */
  lemma SweepEmptiesTheTables(env: Env, ws: seq<World>, acts: seq<Action>, i: nat, j: nat, t: Thread)
    requires Run(env, ws, acts) && Sweeps(acts, i, j, t)
    requires forall k {:trigger Accepts(env, ws, acts, k)} :: i < k < j ==> !Accepts(env, ws, acts, k)
    ensures ws[j + 1].reg.live == {} && ws[j + 1].reg.tables == Tables(map[], map[])
  {
    SweepEmptiesExactly(env, ws, acts, i, j, t);
    EmptyTablesEmptySet(env, ws, acts, j + 1);
  }

  // ---- refusals ----

  /** A refused Replace records the refusal, ends its call and changes nothing in the registry. */
  lemma RefusalIsRecorded(env: Env, w: World, t: Thread)
    requires Enabled(env, w, CommitReplace(t)) && Verdict(w.reg.tables, w.pc[t].s, Describe, env.maxSessions).Err?
    ensures var w' := Apply(env, w, CommitReplace(t));
            && w'.lives.refused == w.lives.refused + {w.pc[t].s} && w'.pc == w.pc - {t}
            && w'.reg == w.reg && w'.flags == w.flags
  {
  }

  // ---- a cancelled session sends no more ----

  /** The packet is on its way into the tunnel, or there. */
  ghost predicate Entering(w: World, x: Transfer) {
    x in w.log.forwarded || exists t :: t in w.pc && w.pc[t] == Forwarding(x)
  }

  lemma EnteringStep(env: Env, w: World, a: Action, x: Transfer)
    requires Enabled(env, w, a) && x.session in w.flags.cancelled && Entering(Apply(env, w, a), x)
    ensures Entering(w, x)
  {
    var w' := Apply(env, w, a);
    if x !in w'.log.forwarded {
      var t :| t in w'.pc && w'.pc[t] == Forwarding(x);
      if !a.Create? { ActionMoves(env, w, a); }
    }
  }

  lemma CancelledStays(env: Env, ws: seq<World>, acts: seq<Action>, i: nat, x: Transfer)
    requires Run(env, ws, acts) && i < |acts| && x.session in ws[i].flags.cancelled
    ensures x.session in ws[i + 1].flags.cancelled
    ensures Entering(ws[i + 1], x) ==> Entering(ws[i], x)
  {
    assert StepAt(env, ws, acts, i);
    if Entering(ws[i + 1], x) { EnteringStep(env, ws[i], acts[i], x); }
  }

  /** Once a session is cancelled, only packets that had already passed the test still get into the tunnel. */
  lemma {:induction false} CancelledSendsNoMore(
      env: Env, ws: seq<World>, acts: seq<Action>, i: nat, j: nat, x: Transfer)
    requires Run(env, ws, acts) && i <= j <= |acts|
    requires x.session in ws[i].flags.cancelled && !Entering(ws[i], x)
    ensures x.session in ws[j].flags.cancelled && x !in ws[j].log.forwarded && !Entering(ws[j], x)
    decreases j
  {
    if i < j {
      CancelledSendsNoMore(env, ws, acts, i, j - 1, x);
      CancelledStays(env, ws, acts, j - 1, x);
    }
  }

  // ---- writes follow lookups ----

  /** The packet has been written to the session, or is about to be. */
  ghost predicate Sent(w: World, x: Transfer) {
    x in w.log.delivered || exists t :: t in w.pc && w.pc[t] == Writing(x)
  }

  lemma SentStep(env: Env, w: World, a: Action, x: Transfer)
    requires Enabled(env, w, a) && Sent(Apply(env, w, a), x)
    ensures Sent(w, x) || OwnerOf(w.reg.tables, env.destination(x.data)) == Some(x.session)
  {
    var w' := Apply(env, w, a);
    if x !in w'.log.delivered {
      var t :| t in w'.pc && w'.pc[t] == Writing(x);
      if !a.Create? { ActionMoves(env, w, a); }
    }
  }

  lemma SentStepIn(env: Env, ws: seq<World>, acts: seq<Action>, i: nat, x: Transfer)
    requires Run(env, ws, acts) && i < |acts| && Sent(ws[i + 1], x)
    ensures Sent(ws[i], x) || OwnerOf(ws[i].reg.tables, env.destination(x.data)) == Some(x.session)
  {
    assert StepAt(env, ws, acts, i);
    SentStep(env, ws[i], acts[i], x);
  }

  /** A packet is only written to the session that was registered at its destination at some earlier moment. */
  lemma {:induction false} WritesFollowLookups(env: Env, ws: seq<World>, acts: seq<Action>, i: nat, x: Transfer)
      returns (k: nat)
    requires Run(env, ws, acts) && i <= |acts| && Sent(ws[i], x)
    ensures k < i && OwnerOf(ws[k].reg.tables, env.destination(x.data)) == Some(x.session)
    decreases i
  {
    if i > 0 {
      SentStepIn(env, ws, acts, i - 1, x);
      if Sent(ws[i - 1], x) {
        k := WritesFollowLookups(env, ws, acts, i - 1, x);
      } else {
        k := i - 1;
      }
    }
  }
}
