/** No deadlock, and a bound on the steps every call still has to take. */
module MachineProgress {
  import opened Common
  import opened Registry
  import opened Machine
  import opened MachineInvariants
  import opened MachineRuns

  // ---- who waits for whom ----

  ghost predicate WriterWaits(w: World) {
    exists u :: u in w.pc && w.pc[u].WantsWriteLock()
  }

  /**
   Thread t cannot go on before thread u has: u holds the lock t wants, or is inside the one-shot t
   calls, or, for a reader, u is a waiting writer that readers give way to.
   */
  ghost predicate WaitsFor(w: World, t: Thread, u: Thread) {
    && t in w.pc && u in w.pc
    && var p := w.pc[t];
       || (p.WantsWriteLock() && (w.lock.writer == Some(u) || u in w.lock.readers))
       || (p.WantsReadLock() && (w.lock.writer == Some(u) || w.pc[u].WantsWriteLock()))
       || (p.Closing? && p.stage == BeforeOnce && w.flags.OnceOf(p.s) == Running(u))
  }

  /** One-shot, then read lock, then write lock: threads only wait downwards. */
  function Level(w: World, t: Thread): nat {
    if t !in w.pc then 0
    else if w.pc[t].Closing? && w.pc[t].stage == BeforeOnce then 3
    else if w.pc[t].WantsReadLock() then 2
    else if w.pc[t].WantsWriteLock() then 1
    else 0
  }

  lemma WaitingGoesDown(w: World, t: Thread, u: Thread)
    requires LockSound(w.lock, w.pc) && OnceSound(w.flags, w.pc) && WaitsFor(w, t, u)
    ensures Level(w, u) < Level(w, t)
  {
    if w.pc[t].Closing? && w.pc[t].stage == BeforeOnce {
      assert HeldOnce(w.pc, u) == Some(w.pc[t].s);
    }
  }

  /** A path along which each thread waits for the next. */
  ghost predicate WaitChain(w: World, ts: seq<Thread>) {
    forall k {:trigger ts[k]} :: 0 <= k < |ts| - 1 ==> WaitsFor(w, ts[k], ts[k + 1])
  }

  /** There is no wait cycle: a chain of waiting threads never comes back to its first. */
  lemma {:induction false} NoWaitCycle(env: Env, w: World, ts: seq<Thread>)
    requires Inv(env, w) && |ts| >= 2 && WaitChain(w, ts)
    ensures Level(w, ts[|ts| - 1]) + |ts| - 1 <= Level(w, ts[0])
    ensures ts[0] != ts[|ts| - 1] && |ts| <= 4
    decreases |ts|
  {
    WaitingGoesDown(w, ts[0], ts[1]);
    if |ts| > 2 {
      assert forall k {:trigger ts[1..][k]} :: 0 <= k < |ts| - 2 ==> WaitsFor(w, ts[k + 1], ts[k + 2]);
      NoWaitCycle(env, w, ts[1..]);
    }
  }

  /** The thread an action belongs to. */
  predicate Continues(a: Action, t: Thread) {
    !a.Starts() && a.t == t
  }

  /** The action can be taken even if readers give way to waiting writers. */
  ghost predicate CanTake(env: Env, w: World, a: Action) {
    Enabled(env, w, a) && (a.AcquireRead? ==> !WriterWaits(w))
  }

  /** The next step of a thread's call. */
  ghost function NextAction(w: World, t: Thread): Action
    requires t in w.pc
  {
    match w.pc[t]
    case WantsReplace(_) => AcquireWrite(t)
    case InReplace(_) => CommitReplace(t)
    case Sweeping(todo) => if todo == {} then EndSweep(t) else var s :| s in todo; NextClose(t, s)
    case Closing(_, stage, _) =>
      (match stage
       case BeforeOnce => EnterOnce(t)
       case Cancelling => Cancel(t)
       case ClosingConn => CloseConn(t)
       case Checking => CheckRegistered(t)
       case WantsLock => AcquireWrite(t)
       case HasLock => CommitRemove(t)
       case Leaving => LeaveOnce(t))
    case WantsLookup(_) => AcquireRead(t)
    case InLookup(_) => CommitLookup(t)
    case Writing(_) => WritePacket(t, false)
    case WantsSnapshot => AcquireRead(t)
    case InSnapshot => CommitSnapshot(t)
    case Forwarding(_) => WriteTunnel(t)
  }

  /** A thread in a call can take its next step unless it waits for another thread. */
  lemma StepsUnlessWaiting(env: Env, w: World, t: Thread)
    requires LockSound(w.lock, w.pc) && OnceSound(w.flags, w.pc) && t in w.pc
    ensures Continues(NextAction(w, t), t)
    ensures CanTake(env, w, NextAction(w, t)) || exists u :: WaitsFor(w, t, u)
  {
    var p := w.pc[t];
    if p.WantsWriteLock() || p.WantsReadLock() {
      if w.lock.writer.Some? {
        assert WaitsFor(w, t, w.lock.writer.value);
      } else if p.WantsWriteLock() && w.lock.readers != {} {
        var u :| u in w.lock.readers;
        assert WaitsFor(w, t, u);
      } else if p.WantsReadLock() && WriterWaits(w) {
        var u :| u in w.pc && w.pc[u].WantsWriteLock();
        assert WaitsFor(w, t, u);
      }
    } else if p.Closing? && p.stage == BeforeOnce && w.flags.OnceOf(p.s).Running? {
      var u := w.flags.OnceOf(p.s).runner;
      assert HeldOnce(w.pc, u) == Some(p.s);
      assert WaitsFor(w, t, u);
    }
  }

  /** The thread can take the next step of its call. */
  ghost predicate CanContinue(env: Env, w: World, t: Thread) {
    t in w.pc && CanTake(env, w, NextAction(w, t)) && Continues(NextAction(w, t), t)
  }

  /** Whatever a thread in a call waits for, some thread can continue its own call. */
  lemma {:induction false} SomeThreadContinues(env: Env, w: World, t: Thread)
    requires LockSound(w.lock, w.pc) && OnceSound(w.flags, w.pc) && t in w.pc
    ensures exists u :: CanContinue(env, w, u)
    decreases Level(w, t)
  {
    StepsUnlessWaiting(env, w, t);
    if CanTake(env, w, NextAction(w, t)) {
      assert CanContinue(env, w, t);
    } else {
      var v :| WaitsFor(w, t, v);
      WaitingGoesDown(w, t, v);
      SomeThreadContinues(env, w, v);
    }
  }

  /** Deadlock freedom: in every world of every run, some call can continue exactly when one has not returned. */
  lemma StuckOnlyWhenDone(env: Env, ws: seq<World>, acts: seq<Action>, i: nat)
    requires Run(env, ws, acts) && i <= |acts|
    ensures (exists a :: CanTake(env, ws[i], a) && !a.Starts()) <==> ws[i].pc != map[]
  {
    RunInv(env, ws, acts, i);
    if t :| t in ws[i].pc {
      SomeThreadContinues(env, ws[i], t);
      var u :| CanContinue(env, ws[i], u);
      assert CanTake(env, ws[i], NextAction(ws[i], u));
    }
  }

  // ---- how much is left to do ----

  function StageWork(stage: Stage): nat {
    match stage
    case BeforeOnce => 7
    case Cancelling => 6
    case ClosingConn => 5
    case Checking => 4
    case WantsLock => 3
    case HasLock => 2
    case Leaving => 1
  }

  function SweepWork(n: nat): nat {
    8 * n + 1
  }

  /** A bound on the steps of a thread's call, when there are never more than n live sessions. */
  function Work(p: Pc, n: nat): nat {
    match p
    case Forwarding(_) => 1
    case Sweeping(todo) => SweepWork(|todo|)
    case Closing(_, stage, todo) => StageWork(stage) + SweepWork(|todo|)
    case InReplace(_) => SweepWork(1) + 1
    case WantsReplace(_) => SweepWork(1) + 2
    case Writing(_) => SweepWork(1)
    case InLookup(_) => SweepWork(1) + 1
    case WantsLookup(_) => SweepWork(1) + 2
    case InSnapshot => SweepWork(n) + 1
    case WantsSnapshot => SweepWork(n) + 2
  }

  /** The bound on what the thread's call still has to do; none when it is not in a call. */
  function WorkOf(pc: map<Thread, Pc>, t: Thread, n: nat): nat {
    if t in pc then Work(pc[t], n) else 0
  }

  /** The steps that hand a thread sessions to close. */
  predicate HandsOver(a: Action) {
    a.CommitReplace? || a.CommitSnapshot? || a.NextClose? || a.WritePacket? || a.CommitLookup?
  }

  lemma SweepsAreShort(env: Env, w: World, t: Thread)
    requires LivesSound(env, w.lives, w.reg, w.flags) && PlacesSound(w.lives, w.reg, w.pc)
    requires RegistrySound(env, w.reg) && t in w.pc
    ensures w.pc[t].InReplace? ==>
              var v := Verdict(w.reg.tables, w.pc[t].s, Describe, env.maxSessions); v.Ok? ==> |v.value| <= 1
    ensures Live(w.reg.tables) == w.reg.live
  {
    RepresentsLive(w.reg.tables, w.reg.live, Describe);
    if w.pc[t].InReplace? { ReplaceStep(env, w, t); }
  }

  lemma HandingOverLowersWork(env: Env, w: World, a: Action, n: nat)
    requires Enabled(env, w, a) && HandsOver(a) && |Live(w.reg.tables)| <= n
    requires a.CommitReplace? ==>
               var v := Verdict(w.reg.tables, w.pc[a.t].s, Describe, env.maxSessions); v.Ok? ==> |v.value| <= 1
    ensures a.t in w.pc && WorkOf(Apply(env, w, a).pc, a.t, n) < Work(w.pc[a.t], n)
  {
    if a.NextClose? { assert |w.pc[a.t].todo - {a.s}| == |w.pc[a.t].todo| - 1; }
  }

  lemma GoingOnLowersWork(env: Env, w: World, a: Action, n: nat)
    requires Enabled(env, w, a) && !a.Starts() && !HandsOver(a)
    ensures a.t in w.pc && WorkOf(Apply(env, w, a).pc, a.t, n) < Work(w.pc[a.t], n)
  {
    var p := w.pc[a.t];
    assert p.Closing? ==> Work(p, n) == StageWork(p.stage) + SweepWork(|p.todo|);
  }

  /** Each step of a call lowers the bound of its thread. */
  lemma StepLowersWork(env: Env, w: World, a: Action, n: nat)
    requires LivesSound(env, w.lives, w.reg, w.flags) && PlacesSound(w.lives, w.reg, w.pc) && RegistrySound(env, w.reg)
    requires Enabled(env, w, a) && !a.Starts() && |w.reg.live| <= n
    ensures a.t in w.pc && WorkOf(Apply(env, w, a).pc, a.t, n) < Work(w.pc[a.t], n)
  {
    if HandsOver(a) {
      SweepsAreShort(env, w, a.t);
      HandingOverLowersWork(env, w, a, n);
    } else {
      GoingOnLowersWork(env, w, a, n);
    }
  }

  /** The steps of a thread in a stretch of a run. */
  function StepsOf(acts: seq<Action>, t: Thread): nat {
    if acts == [] then 0 else (if Continues(acts[0], t) then 1 else 0) + StepsOf(acts[1..], t)
  }

  /**
   A call takes at most as many steps of its own thread as its bound says, whatever other threads
   start and do: the number of steps between i and j, plus what is left at j, is within the bound at i.
   */
  lemma {:induction false} CallIsBounded(env: Env, ws: seq<World>, acts: seq<Action>, i: nat, j: nat, t: Thread, n: nat)
    requires Run(env, ws, acts) && i <= j <= |acts|
    requires forall k :: i <= k < j ==> |ws[k].reg.live| <= n
    requires forall k :: i <= k < j ==> !(acts[k].Starts() && !acts[k].Create? && acts[k].t == t)
    ensures StepsOf(acts[i..j], t) + WorkOf(ws[j].pc, t, n) <= WorkOf(ws[i].pc, t, n)
    decreases j - i
  {
    if i < j {
      var a := acts[i];
      assert acts[i..j][0] == a && acts[i..j][1..] == acts[i + 1..j];
      CallIsBounded(env, ws, acts, i + 1, j, t, n);
      RunInv(env, ws, acts, i);
      assert StepAt(env, ws, acts, i);
      StepOfAnother(env, ws[i], a, t, n);
    }
  }

  lemma StepOfAnother(env: Env, w: World, a: Action, t: Thread, n: nat)
    requires Inv(env, w) && |w.reg.live| <= n
    ensures Enabled(env, w, a) && !(a.Starts() && !a.Create? && a.t == t) ==>
              WorkOf(Apply(env, w, a).pc, t, n) + (if Continues(a, t) then 1 else 0) <= WorkOf(w.pc, t, n)
  {
    if Enabled(env, w, a) {
      if !a.Starts() { StepLowersWork(env, w, a, n); }
      if !a.Create? { ActionMoves(env, w, a); }
    }
  }

  ghost function TotalWork(pc: map<Thread, Pc>, n: nat): nat {
    if pc == map[] then 0 else
      var t :| t in pc;
      Work(pc[t], n) + TotalWork(pc - {t}, n)
  }

  lemma {:induction false} TotalWorkSplits(pc: map<Thread, Pc>, t: Thread, n: nat)
    requires t in pc
    ensures TotalWork(pc, n) == Work(pc[t], n) + TotalWork(pc - {t}, n)
    decreases |pc|
  {
    var u :| u in pc && TotalWork(pc, n) == Work(pc[u], n) + TotalWork(pc - {u}, n);
    if u != t {
      TotalWorkSplits(pc - {u}, t, n);
      TotalWorkSplits(pc - {t}, u, n);
      assert pc - {u} - {t} == pc - {t} - {u};
    }
  }

  lemma TotalWorkFalls(pc: map<Thread, Pc>, pc': map<Thread, Pc>, t: Thread, n: nat)
    requires t in pc && Moves(pc, pc', t) && WorkOf(pc', t, n) < Work(pc[t], n)
    ensures TotalWork(pc', n) < TotalWork(pc, n)
  {
    TotalWorkSplits(pc, t, n);
    assert pc' - {t} == pc - {t};
    if t in pc' { TotalWorkSplits(pc', t, n); } else { assert pc' - {t} == pc'; }
  }

  /** A step of a call, on the whole: less work is left, and no session is created. */
  lemma QuietStep(env: Env, w: World, a: Action, n: nat)
    requires Inv(env, w) && Enabled(env, w, a) && !a.Starts() && |w.lives.created| <= n
    ensures TotalWork(Apply(env, w, a).pc, n) < TotalWork(w.pc, n)
    ensures Apply(env, w, a).lives.created == w.lives.created
  {
    SetGrows(w.reg.live, w.lives.created);
    StepLowersWork(env, w, a, n);
    ActionMoves(env, w, a);
    TotalWorkFalls(w.pc, Apply(env, w, a).pc, a.t, n);
    NothingCreated(env, w, a);
  }

  /** While nothing new starts, a run is no longer than the work its first world has left. */
  lemma {:induction false} QuietRunsAreBounded(env: Env, ws: seq<World>, acts: seq<Action>, i: nat, j: nat, n: nat)
    requires Run(env, ws, acts) && i <= j <= |acts|
    requires forall k :: i <= k < j ==> !acts[k].Starts()
    requires |ws[i].lives.created| <= n
    ensures j - i + TotalWork(ws[j].pc, n) <= TotalWork(ws[i].pc, n)
    decreases j - i
  {
    if i < j {
      QuietStepInRun(env, ws, acts, i, n);
      QuietRunsAreBounded(env, ws, acts, i + 1, j, n);
    }
  }

  lemma QuietStepInRun(env: Env, ws: seq<World>, acts: seq<Action>, i: nat, n: nat)
    requires Run(env, ws, acts) && i < |acts| && !acts[i].Starts() && |ws[i].lives.created| <= n
    ensures TotalWork(ws[i + 1].pc, n) < TotalWork(ws[i].pc, n) && ws[i + 1].lives.created == ws[i].lives.created
  {
    RunInv(env, ws, acts, i);
    assert StepAt(env, ws, acts, i);
    QuietStep(env, ws[i], acts[i], n);
  }

  lemma NothingCreated(env: Env, w: World, a: Action)
    requires Enabled(env, w, a) && !a.Create?
    ensures Apply(env, w, a).lives.created == w.lives.created
  {
  }

  // ---- every call returns ----

  /** The actions take the machine from `w` to `w'`. */
  ghost predicate Leads(env: Env, w: World, acts: seq<Action>, w': World) {
    exists ws :: Joins(env, ws, acts, w, w')
  }

  ghost predicate Joins(env: Env, ws: seq<World>, acts: seq<Action>, w: World, w': World) {
    Path(env, ws, acts) && ws[0] == w && ws[|acts|] == w'
  }

  /** No new call starts, and no session is built. */
  predicate Quiet(acts: seq<Action>) {
    forall k :: 0 <= k < |acts| ==> !acts[k].Starts()
  }

  lemma LeadsToItself(env: Env, w: World)
    ensures Leads(env, w, [], w)
  {
    assert Joins(env, [w], [], w, w);
  }

  lemma OneMore(env: Env, w: World, acts: seq<Action>, w': World, a: Action)
    requires Leads(env, w, acts, w') && Enabled(env, w', a)
    ensures Leads(env, w, acts + [a], Apply(env, w', a))
  {
    var ws :| Joins(env, ws, acts, w, w');
    var w'' := Apply(env, w', a);
    forall i | 0 <= i < |acts| + 1 ensures StepAt(env, ws + [w''], acts + [a], i) {
      if i < |acts| { assert StepAt(env, ws, acts, i); }
    }
    assert Joins(env, ws + [w''], acts + [a], w, w'');
  }

  lemma LeadsOn(env: Env, w: World, acts: seq<Action>, w1: World, more: seq<Action>, w2: World)
    requires Leads(env, w, acts, w1) && Leads(env, w1, more, w2)
    ensures Leads(env, w, acts + more, w2)
  {
    var ws :| Joins(env, ws, acts, w, w1);
    var ws' :| Joins(env, ws', more, w1, w2);
    var all := ws + ws'[1..];
    forall i | 0 <= i < |acts| + |more| ensures StepAt(env, all, acts + more, i) {
      if i < |acts| { assert StepAt(env, ws, acts, i); } else { assert StepAt(env, ws', more, i - |acts|); }
    }
    assert Joins(env, all, acts + more, w, w2);
  }

  lemma SomethingContinues(env: Env, w: World) returns (a: Action)
    requires LockSound(w.lock, w.pc) && OnceSound(w.flags, w.pc) && w.pc != map[]
    ensures Enabled(env, w, a) && !a.Starts()
  {
    var t :| t in w.pc;
    SomeThreadContinues(env, w, t);
    var u :| CanContinue(env, w, u);
    a := NextAction(w, u);
  }

  /** Some call that has not returned takes a step. */
  lemma QuietStepExists(env: Env, w: World) returns (a: Action, w': World)
    requires Inv(env, w) && w.pc != map[]
    ensures Leads(env, w, [a], w') && !a.Starts() && Inv(env, w')
    ensures w'.lives.created == w.lives.created
    ensures TotalWork(w'.pc, |w.lives.created|) < TotalWork(w.pc, |w.lives.created|)
  {
    a := SomethingContinues(env, w);
    w' := Apply(env, w, a);
    QuietStep(env, w, a, |w.lives.created|);
    StepKeepsInv(env, w, a);
    LeadsToItself(env, w);
    OneMore(env, w, [], w, a);
    assert [] + [a] == [a];
  }

  /** If nothing new starts, all calls can return. */
  lemma {:induction false} Drains(env: Env, w: World) returns (acts: seq<Action>, w': World)
    requires Inv(env, w)
    ensures Leads(env, w, acts, w') && Quiet(acts) && Inv(env, w')
    ensures w'.pc == map[] && w'.lives.created == w.lives.created
    decreases TotalWork(w.pc, |w.lives.created|)
  {
    if w.pc == map[] {
      acts, w' := [], w;
      LeadsToItself(env, w);
    } else {
      var a, w1 := QuietStepExists(env, w);
      var rest;
      rest, w' := Drains(env, w1);
      acts := Prepend(env, w, a, w1, rest, w');
    }
  }

  lemma Prepend(env: Env, w: World, a: Action, w1: World, rest: seq<Action>, w': World) returns (acts: seq<Action>)
    requires Leads(env, w, [a], w1) && Leads(env, w1, rest, w') && !a.Starts() && Quiet(rest)
    ensures Leads(env, w, acts, w') && Quiet(acts)
  {
    acts := [a] + rest;
    LeadsOn(env, w, [a], w1, rest, w');
  }

  predicate LockFree(w: World) {
    w.lock.writer == None && w.lock.readers == {}
  }

  lemma LockFreeWhenIdle(w: World)
    requires LockSound(w.lock, w.pc) && w.pc == map[]
    ensures LockFree(w)
  {
    assert forall t :: t !in w.lock.readers && w.lock.writer != Some(t);
  }

  /** In every world of every run, if nothing new starts, all calls can return, and the lock is free then. */
  lemma EveryCallCanReturn(env: Env, ws: seq<World>, acts: seq<Action>, i: nat)
    requires Run(env, ws, acts) && i <= |acts|
    ensures exists more, w' :: Leads(env, ws[i], more, w') && Quiet(more) && w'.pc == map[] && LockFree(w')
  {
    RunInv(env, ws, acts, i);
    var more, w' := Drains(env, ws[i]);
    LockFreeWhenIdle(w');
  }
}
