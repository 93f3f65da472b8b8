/** The shutdown sequence: one thread signals the steps, a watcher waits for each under one budget. */
module Shutdown {
  import opened Basics

  /** The step identifiers, in the order of the enumeration. */
  datatype Step =
    | CloseWebrtcConnections
    | DisableMaintenanceAndNewRequests
    | StopMaintenanceThread
    | StopExportersHealthAndWebServers
    | StopCollectorsAndStreaming
    | StopReplication
    | DisableMlThreads
    | StopContextThread
    | ClearWebClientCache
    | StopAclkSyncThread
    | StopAclkMqttThread
    | StopAllRemainingWorkers
    | CancelMainThreads
    | StopCollectionForAllHosts
    | WaitForDbengineCollectors
    | StopDbengineTiers
    | StopMetasyncThreads
    | StopWebsocketThreads
    | JoinStaticThreads
    | CloseSqlDatabases
    | RemovePidFile
    | FreeOpensslStructures

  const STEPS: nat := 22

  /** The value of a step identifier: an index into `watcher_steps`. */
  function Position(s: Step): (i: nat)
    ensures i < STEPS
  {
    match s
    case CloseWebrtcConnections => 0
    case DisableMaintenanceAndNewRequests => 1
    case StopMaintenanceThread => 2
    case StopExportersHealthAndWebServers => 3
    case StopCollectorsAndStreaming => 4
    case StopReplication => 5
    case DisableMlThreads => 6
    case StopContextThread => 7
    case ClearWebClientCache => 8
    case StopAclkSyncThread => 9
    case StopAclkMqttThread => 10
    case StopAllRemainingWorkers => 11
    case CancelMainThreads => 12
    case StopCollectionForAllHosts => 13
    case WaitForDbengineCollectors => 14
    case StopDbengineTiers => 15
    case StopMetasyncThreads => 16
    case StopWebsocketThreads => 17
    case JoinStaticThreads => 18
    case CloseSqlDatabases => 19
    case RemovePidFile => 20
    case FreeOpensslStructures => 21
  }

  /** A log that holds the first steps in order, each once. */
  predicate InOrder(log: seq<Step>) {
    forall i :: 0 <= i < |log| ==> Position(log[i]) == i
  }

  predicate Appended(before: seq<Step>, after: seq<Step>, step: Step) {
    after == before + [step]
  }

  /** A log of all steps in order holds every step, and none twice. */
  lemma InOrderIsComplete(log: seq<Step>, s: Step)
    requires InOrder(log) && |log| == STEPS
    ensures s in log
    ensures forall i, j :: 0 <= i < j < |log| ==> log[i] != log[j]
  {
    PositionIsInjective(log[Position(s)], s);
  }

  lemma PositionIsInjective(a: Step, b: Step)
    requires Position(a) == Position(b)
    ensures a == b
  {
  }

  // ---- the signalling side --------------------------------------------------------------------------

  class Cleanup {
    var run: bool
    var signalled: seq<Step>

    constructor ()
      ensures !run && signalled == []
    {
      run, signalled := false, [];
    }

    /** The first `n` steps have been signalled, in order, each once. */
    ghost predicate Reached(n: nat)
      reads this
    {
      |signalled| == n && InOrder(signalled)
    }

    /** `watcher_step_complete`. */
    method StepComplete(step: Step)
      modifies this`signalled
      ensures Appended(old(signalled), signalled, step)
      ensures old(Reached(Position(step))) ==> Reached(Position(step) + 1)
    {
      signalled := signalled + [step];
    }

    /** The steps from stopping collection to the metadata threads, in every branch. */
    method StopStorage(abnormal: bool, withDbengine: bool, dbengineEnabled: bool)
      modifies this`signalled
      ensures old(Reached(13)) ==> Reached(17)
    {
      hide Reached, Appended;
      if abnormal {
        StepComplete(StopCollectionForAllHosts);
        StepComplete(WaitForDbengineCollectors);
        StepComplete(StopDbengineTiers);
        StepComplete(StopMetasyncThreads);
      } else {
        StepComplete(StopCollectionForAllHosts);
        if withDbengine {
          if dbengineEnabled {
            StepComplete(WaitForDbengineCollectors);
            StepComplete(StopDbengineTiers);
          } else {
            StepComplete(WaitForDbengineCollectors);
            StepComplete(StopDbengineTiers);
          }
        } else {
          StepComplete(WaitForDbengineCollectors);
          StepComplete(StopDbengineTiers);
        }
        StepComplete(StopMetasyncThreads);
      }
    }

    /** `netdata_cleanup_and_exit`: in every branch all steps are signalled once, in the watcher's order;
        a recursive call signals nothing. */
    method CleanupAndExit(abnormal: bool, withDbengine: bool, dbengineEnabled: bool)
      requires !run ==> signalled == []
      modifies this
      ensures run
      ensures if old(run) then signalled == old(signalled) else Reached(STEPS)
    {
      if run { return; }
      assert Reached(0);
      hide Reached, Appended;
      run := true;
      StopServices();
      StopThreads();
      StopStorage(abnormal, withDbengine, dbengineEnabled);
      StopProcess();
    }

    /** From the connections to the machine learning threads. */
    method StopServices()
      modifies this`signalled
      ensures old(Reached(0)) ==> Reached(7)
    {
      hide Reached, Appended;
      StepComplete(CloseWebrtcConnections);
      StepComplete(DisableMaintenanceAndNewRequests);
      StepComplete(StopMaintenanceThread);
      StepComplete(StopExportersHealthAndWebServers);
      StepComplete(StopCollectorsAndStreaming);
      StepComplete(StopReplication);
      StepComplete(DisableMlThreads);
    }

    /** From the context thread to the main threads. */
    method StopThreads()
      modifies this`signalled
      ensures old(Reached(7)) ==> Reached(13)
    {
      hide Reached, Appended;
      StepComplete(StopContextThread);
      StepComplete(ClearWebClientCache);
      StepComplete(StopAclkSyncThread);
      StepComplete(StopAclkMqttThread);
      StepComplete(StopAllRemainingWorkers);
      StepComplete(CancelMainThreads);
    }

    /** From the websockets to the end. */
    method StopProcess()
      modifies this`signalled
      ensures old(Reached(17)) ==> Reached(STEPS)
    {
      hide Reached, Appended;
      StepComplete(StopWebsocketThreads);
      StepComplete(JoinStaticThreads);
      StepComplete(CloseSqlDatabases);
      StepComplete(RemovePidFile);
      StepComplete(FreeOpensslStructures);
    }
  }

  // ---- time -----------------------------------------------------------------------------------------

  const USEC_PER_SEC: nat := 1_000_000
  const TIMEOUT: nat := 135

  /** What one condition-variable wait returned, and when (microseconds since the shutdown began). */
  datatype Wake = Woken(at: nat) | TimedOut(at: nat)

  /** By step identifier: when the step completes, if ever, and how the wait for it wakes up. */
  datatype Env = Env(done: nat -> Option<nat>, wake: nat -> Wake)

  predicate DoneBy(env: Env, step: nat, t: nat) {
    env.done(step).Some? && env.done(step).value <= t
  }

  /** The seconds left of the budget for a wait that starts at `t`. */
  function Remaining(t: nat): nat {
    if TIMEOUT - (t / USEC_PER_SEC) < 0 then 0 else TIMEOUT - (t / USEC_PER_SEC)
  }

  /** When a wait that starts at `t` times out. */
  function Expiry(t: nat): nat {
    t + Remaining(t) * USEC_PER_SEC
  }

  /** What a timed wait may do: it ends by its timeout, does not sleep through the completion, and may
      wake up at any moment for no reason. */
  predicate LegalWake(env: Env, step: nat, t: nat) {
    var w := env.wake(step);
    && t <= w.at <= Expiry(t)
    && (w.TimedOut? ==> w.at == Expiry(t))
    && (env.done(step).Some? && env.done(step).value > t ==> w.at <= env.done(step).value)
  }

  /** A wake-up without a reason did not happen. */
  predicate Genuine(env: Env, step: nat) {
    env.wake(step).Woken? ==> env.done(step) == Some(env.wake(step).at)
  }

  /** The result of waiting for one step from `t` on: success, and the time it ended. */
  function Wait(env: Env, step: nat, t: nat): (bool, nat) {
    if DoneBy(env, step, t) then (true, t) else (env.wake(step).Woken?, env.wake(step).at)
  }

  /** The chain of waits from step `k` on; a timeout aborts the process. */
  function Walk(env: Env, k: nat, t: nat): (bool, nat)
    requires k <= STEPS
    decreases STEPS - k
  {
    if k == STEPS then (true, t)
    else
      var (ok, end) := Wait(env, k, t);
      if ok then Walk(env, k + 1, end) else (false, end)
  }

  /** When each of the waits that take place ends. */
  function Ends(env: Env, k: nat, t: nat): seq<nat>
    requires k <= STEPS
    decreases STEPS - k
  {
    if k == STEPS then []
    else
      var (ok, end) := Wait(env, k, t);
      [end] + (if ok then Ends(env, k + 1, end) else [])
  }

  /** The whole chain, from the beginning of the shutdown. */
  function Verdict(env: Env): (bool, nat) {
    Walk(env, 0, 0)
  }

  function AllEnds(env: Env): seq<nat> {
    Ends(env, 0, 0)
  }

  /** Every wait that takes place wakes up legally. */
  predicate LegalWalk(env: Env, k: nat, t: nat)
    requires k <= STEPS
    decreases STEPS - k
  {
    k < STEPS ==>
      && (DoneBy(env, k, t) || LegalWake(env, k, t))
      && (Wait(env, k, t).0 ==> LegalWalk(env, k + 1, Wait(env, k, t).1))
  }

  /** The chain, one wait at a time. */
  lemma WalkOnce(env: Env, k: nat, t: nat)
    requires k < STEPS && LegalWalk(env, k, t)
    ensures DoneBy(env, k, t) || LegalWake(env, k, t)
    ensures var (ok, end) := Wait(env, k, t);
            && (ok ==> LegalWalk(env, k + 1, end))
            && Walk(env, k, t) == (if ok then Walk(env, k + 1, end) else (false, end))
            && Ends(env, k, t) == [end] + (if ok then Ends(env, k + 1, end) else [])
  {
    hide LegalWake, Wait;
  }

  // ---- the watcher ----------------------------------------------------------------------------------

  class Watcher {
    var now: nat
    var timings: seq<nat>

    constructor ()
      ensures now == 0 && timings == []
    {
      now, timings := 0, [];
    }

    /** `completion_timedwait_for`, the only place where time passes. */
    method TimedWait(env: Env, step: nat, seconds: nat) returns (ok: bool)
      requires DoneBy(env, step, now) || LegalWake(env, step, now)
      requires seconds == Remaining(now)
      modifies this`now
      ensures (ok, now) == Wait(env, step, old(now))
      ensures now <= old(now) + seconds * USEC_PER_SEC
    {
      ok := true;
      if !DoneBy(env, step, now) {
        var w := env.wake(step);
        now := w.at;
        ok := w.Woken?;
      }
    }

    /** Where the watcher stands before step `k` if the process is still alive. */
    ghost predicate At(env: Env, k: nat)
      requires k <= STEPS
      reads this
    {
      && LegalWalk(env, k, now)
      && Verdict(env) == Walk(env, k, now)
      && AllEnds(env) == timings + Ends(env, k, now)
    }

    /** Where it stands after the abort. */
    ghost predicate Aborted(env: Env)
      reads this
    {
      Verdict(env) == (false, now) && AllEnds(env) == timings
    }

    /** The seconds that earlier steps have left. */
    method BudgetLeft() returns (remaining: int)
      ensures remaining == Remaining(now)
    {
      remaining := TIMEOUT - (now / USEC_PER_SEC);
      if remaining < 0 {
        remaining := 0;
      }
    }

    /** `watcher_wait_for_step`; false stands for the abort. */
    method WaitForStep(env: Env, step: Step) returns (ok: bool)
      requires At(env, Position(step))
      modifies this
      ensures if ok then At(env, Position(step) + 1) else Aborted(env)
    {
      hide Position, Verdict, AllEnds, Walk, Ends, LegalWalk, Wait, LegalWake;
      ghost var k := Position(step);
      WalkOnce(env, k, now);
      var remaining := BudgetLeft();
      hide Remaining;
      ok := TimedWait(env, Position(step), remaining);
      ghost var rest := if ok then Ends(env, k + 1, now) else [];
      assert timings + ([now] + rest) == timings + [now] + rest;
      timings := timings + [now];
    }

    /** `watcher_main`, up to the last step; false stands for the abort. */
    method Watch(env: Env) returns (finished: bool)
      requires now == 0 && timings == [] && LegalWalk(env, 0, 0)
      modifies this
      ensures (finished, now) == Verdict(env)
      ensures timings == AllEnds(env)
    {
      finished := WatchServices(env);
      if !finished { return; }
      finished := WatchThreads(env);
      if !finished { return; }
      finished := WatchStorage(env);
      if !finished { return; }
      finished := WatchProcess(env);
    }

    /** From the connections to the machine learning threads. */
    method WatchServices(env: Env) returns (ok: bool)
      requires At(env, 0)
      modifies this
      ensures if ok then At(env, 7) else Aborted(env)
    {
      hide At, Aborted;
      ok := WaitForStep(env, CloseWebrtcConnections);
      if !ok { return; }
      ok := WaitForStep(env, DisableMaintenanceAndNewRequests);
      if !ok { return; }
      ok := WaitForStep(env, StopMaintenanceThread);
      if !ok { return; }
      ok := WaitForStep(env, StopExportersHealthAndWebServers);
      if !ok { return; }
      ok := WaitForStep(env, StopCollectorsAndStreaming);
      if !ok { return; }
      ok := WaitForStep(env, StopReplication);
      if !ok { return; }
      ok := WaitForStep(env, DisableMlThreads);
    }

    /** From the context thread to the main threads. */
    method WatchThreads(env: Env) returns (ok: bool)
      requires At(env, 7)
      modifies this
      ensures if ok then At(env, 13) else Aborted(env)
    {
      hide At, Aborted;
      ok := WaitForStep(env, StopContextThread);
      if !ok { return; }
      ok := WaitForStep(env, ClearWebClientCache);
      if !ok { return; }
      ok := WaitForStep(env, StopAclkSyncThread);
      if !ok { return; }
      ok := WaitForStep(env, StopAclkMqttThread);
      if !ok { return; }
      ok := WaitForStep(env, StopAllRemainingWorkers);
      if !ok { return; }
      ok := WaitForStep(env, CancelMainThreads);
    }

    /** From collection to the metadata threads. */
    method WatchStorage(env: Env) returns (ok: bool)
      requires At(env, 13)
      modifies this
      ensures if ok then At(env, 17) else Aborted(env)
    {
      hide At, Aborted;
      ok := WaitForStep(env, StopCollectionForAllHosts);
      if !ok { return; }
      ok := WaitForStep(env, WaitForDbengineCollectors);
      if !ok { return; }
      ok := WaitForStep(env, StopDbengineTiers);
      if !ok { return; }
      ok := WaitForStep(env, StopMetasyncThreads);
    }

    /** From the websockets to the end. */
    method WatchProcess(env: Env) returns (ok: bool)
      requires At(env, 17)
      modifies this
      ensures if ok then At(env, STEPS) else Aborted(env)
    {
      hide At, Aborted;
      ok := WaitForStep(env, StopWebsocketThreads);
      if !ok { return; }
      ok := WaitForStep(env, JoinStaticThreads);
      if !ok { return; }
      ok := WaitForStep(env, CloseSqlDatabases);
      if !ok { return; }
      ok := WaitForStep(env, RemovePidFile);
      if !ok { return; }
      ok := WaitForStep(env, FreeOpensslStructures);
    }
  }

  // ---- the deadline ---------------------------------------------------------------------------------

  const DEADLINE: nat := 136 * 1_000_000

  lemma ExpiryBounds(t: nat)
    requires t < DEADLINE
    ensures 135 * 1_000_000 <= Expiry(t) < DEADLINE
    ensures Expiry(t) == 135 * 1_000_000 + t % 1_000_000
  {
  }

  lemma WaitBound(env: Env, step: nat, t: nat)
    requires t < DEADLINE && (DoneBy(env, step, t) || LegalWake(env, step, t))
    ensures t <= Wait(env, step, t).1 < DEADLINE
  {
    ExpiryBounds(t);
  }

  /** Main result: for every timing of completions and wake-ups, every wait ends, by success or abort,
      less than 136 seconds after the shutdown began. */
  lemma {:induction false} EveryWaitEnds(env: Env, k: nat, t: nat)
    requires k <= STEPS && t < DEADLINE && LegalWalk(env, k, t)
    ensures forall i :: 0 <= i < |Ends(env, k, t)| ==> Ends(env, k, t)[i] < 136 * 1_000_000
    ensures t <= Walk(env, k, t).1 < 136 * 1_000_000
    decreases STEPS - k
  {
    if k < STEPS {
      WaitBound(env, k, t);
      var (ok, end) := Wait(env, k, t);
      hide Wait, LegalWake, DoneBy;
      if ok {
        EveryWaitEnds(env, k + 1, end);
      }
    }
  }

  /** The bound is sharp: an abort can come in the last microsecond before 136 seconds. */
  lemma DeadlineIsSharp() returns (env: Env)
    ensures LegalWalk(env, 0, 0) && Walk(env, 0, 0) == (false, 136 * 1_000_000 - 1)
  {
    var early := USEC_PER_SEC - 1;
    env := Env(k => if k == 0 then Some(early) else None,
               k => if k == 0 then Woken(early) else TimedOut(DEADLINE - 1));
    ExpiryBounds(early);
    ExpiryBounds(0);
    hide Expiry;
    assert Wait(env, 0, 0) == (true, early);
    assert Wait(env, 1, early) == (false, DEADLINE - 1);
    assert LegalWalk(env, 1, early);
    assert Walk(env, 1, early) == (false, DEADLINE - 1);
  }

  // ---- who gets through -----------------------------------------------------------------------------

  /** Steps from `k` on complete before their own waits expire, when each wait starts as the one before
      it ends. */
  predicate OnTime(env: Env, k: nat, t: nat)
    requires k <= STEPS
    decreases STEPS - k
  {
    k < STEPS ==>
      && env.done(k).Some?
      && (env.done(k).value <= t || env.done(k).value < Expiry(t))
      && OnTime(env, k + 1, if env.done(k).value <= t then t else env.done(k).value)
  }

  /** No wait sees its completion in the very microsecond in which it expires. */
  predicate NoTie(env: Env, k: nat, t: nat)
    requires k <= STEPS
    decreases STEPS - k
  {
    k < STEPS && env.done(k).Some? ==>
      && (env.done(k).value <= t || env.done(k).value != Expiry(t))
      && NoTie(env, k + 1, if env.done(k).value <= t then t else env.done(k).value)
  }

  /** Without wake-ups for no reason, the watcher lets the shutdown finish exactly when every step
      completes before its own wait expires. */
  lemma {:induction false} FinishesIffOnTime(env: Env, k: nat, t: nat)
    requires k <= STEPS && LegalWalk(env, k, t) && NoTie(env, k, t)
    requires forall j :: k <= j < STEPS ==> Genuine(env, j)
    ensures Walk(env, k, t).0 <==> OnTime(env, k, t)
    decreases STEPS - k
  {
    if k < STEPS {
      hide Expiry;
      assert Genuine(env, k);
      if Wait(env, k, t).0 {
        FinishesIffOnTime(env, k + 1, Wait(env, k, t).1);
      }
    }
  }

  predicate Prompt(env: Env, step: nat) {
    env.done(step).Some? && env.done(step).value < 135 * 1_000_000
  }

  /** Steps that all complete within 135 seconds are never aborted, whatever the wake-ups. */
  lemma {:induction false} PromptStepsFinish(env: Env, k: nat, t: nat)
    requires k <= STEPS && t < DEADLINE && LegalWalk(env, k, t)
    requires forall j :: k <= j < STEPS ==> Prompt(env, j)
    ensures Walk(env, k, t).0
    decreases STEPS - k
  {
    if k < STEPS {
      ExpiryBounds(t);
      hide Expiry;
      assert Prompt(env, k);
      PromptStepsFinish(env, k + 1, Wait(env, k, t).1);
    }
  }

  /** A wake-up for no reason counts as completion: the watcher walks past a step that never completes. */
  lemma SpuriousWakePasses() returns (env: Env)
    ensures LegalWalk(env, 0, 0) && env.done(0) == None && Walk(env, 0, 0) == (true, 0)
  {
    env := Env(k => if k == 0 then None else Some(0), k => Woken(0));
    ExpiryBounds(0);
    hide Expiry;
    PassAll(env, 1);
    assert Wait(env, 0, 0) == (true, 0);
  }

  lemma {:induction false} PassAll(env: Env, k: nat)
    requires 1 <= k <= STEPS && forall j :: 1 <= j ==> env.done(j) == Some(0)
    ensures LegalWalk(env, k, 0) && Walk(env, k, 0) == (true, 0)
    decreases STEPS - k
  {
    if k < STEPS {
      PassAll(env, k + 1);
      assert Wait(env, k, 0) == (true, 0);
    }
  }
}
