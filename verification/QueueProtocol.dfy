/** The command queue shared by any number of threads: one mutex, one condition variable, blocking and
    non-blocking producers, consumers, and wake-ups without a signal. */
module QueueProtocol {
  import opened Basics
  import opened CommandQueue

  type Tid = nat

  /** Where a thread stands in `push_cmd` or `pop_cmd`. `woken` marks a producer that slept before. */
  datatype Pc =
    | Idle
    | PushWant(cmd: Cmd, wait: bool)
    | PushTest(cmd: Cmd, wait: bool, woken: bool)
    | Asleep(cmd: Cmd)
    | Awake(cmd: Cmd)
    | PopWant
    | PopTest
    | PopSignal

  datatype Sys = Sys(pool: Pool, lock: Option<Tid>, pc: map<Tid, Pc>)

  datatype Action =
    | CallPush(t: Tid, cmd: Cmd, wait: bool)
    | CallPop(t: Tid)
    | Acquire(t: Tid)
    | TestPush(t: Tid)
    | TestPop(t: Tid)
    | Signal(t: Tid, roused: set<Tid>)
    | Spurious(t: Tid)

  predicate Holds(pc: Pc) {
    pc.PushTest? || pc.PopTest? || pc.PopSignal?
  }

  predicate Wants(pc: Pc) {
    pc.PushWant? || pc.Awake? || pc.PopWant?
  }

  function Sleepers(pc: map<Tid, Pc>): set<Tid> {
    set t | t in pc && pc[t].Asleep?
  }

  /** Producers that were woken and have not tested the queue again yet. */
  function Roused(pc: map<Tid, Pc>): set<Tid> {
    set t | t in pc && IsRoused(pc[t])
  }

  predicate IsRoused(pc: Pc) {
    pc.Awake? || (pc.PushTest? && pc.woken)
  }

  /** Consumers between removing a command and signalling. */
  function Signalling(pc: map<Tid, Pc>): set<Tid> {
    set t | t in pc && pc[t].PopSignal?
  }

  /** A signal wakes at least one sleeper if there is one; which ones is up to the scheduler. */
  predicate Enabled(s: Sys, a: Action) {
    a.t in s.pc &&
    match a
    case CallPush(t, _, _) => s.pc[t].Idle?
    case CallPop(t) => s.pc[t].Idle?
    case Acquire(t) => s.lock == None && Wants(s.pc[t])
    case TestPush(t) => s.pc[t].PushTest?
    case TestPop(t) => s.pc[t].PopTest?
    case Signal(t, roused) =>
      s.pc[t].PopSignal? && roused <= Sleepers(s.pc) && (Sleepers(s.pc) != {} ==> roused != {})
    case Spurious(t) => s.pc[t].Asleep?
  }

  function Rouse(pc: map<Tid, Pc>, roused: set<Tid>): map<Tid, Pc> {
    map t | t in pc :: if t in roused && pc[t].Asleep? then Awake(pc[t].cmd) else pc[t]
  }

  function AfterAcquire(pc: Pc): Pc
    requires Wants(pc)
  {
    match pc
    case PushWant(cmd, wait) => PushTest(cmd, wait, false)
    case Awake(cmd) => PushTest(cmd, true, true)
    case PopWant => PopTest
  }

  function Apply(s: Sys, a: Action): Sys
    requires s.pool.Valid() && Enabled(s, a)
  {
    match a
    case CallPush(t, cmd, wait) => s.(pc := s.pc[t := PushWant(cmd, wait)])
    case CallPop(t) => s.(pc := s.pc[t := PopWant])
    case Acquire(t) => s.(lock := Some(t), pc := s.pc[t := AfterAcquire(s.pc[t])])
    case TestPush(t) =>
      if s.pool.count < s.pool.Size() then Sys(Push(s.pool, s.pc[t].cmd), None, s.pc[t := Idle])
      else s.(lock := None, pc := s.pc[t := if s.pc[t].wait then Asleep(s.pc[t].cmd) else Idle])
    case TestPop(t) =>
      if s.pool.count == 0 then s.(lock := None, pc := s.pc[t := Idle])
      else s.(pool := Pop(s.pool), pc := s.pc[t := PopSignal])
    case Signal(t, roused) => s.(lock := None, pc := Rouse(s.pc, roused)[t := Idle])
    case Spurious(t) => s.(pc := s.pc[t := Awake(s.pc[t].cmd)])
  }

  // ---- the abstract queue -------------------------------------------------------------------------

  /** What a step means to the callers. */
  datatype Event = Pushed(cmd: Cmd) | Refused | Popped(cmd: Cmd) | Empty | Quiet

  function EventOf(s: Sys, a: Action): Event
    requires s.pool.Valid() && Enabled(s, a)
  {
    match a
    case TestPush(t) =>
      if s.pool.count < s.pool.Size() then Pushed(s.pc[t].cmd) else if s.pc[t].wait then Quiet else Refused
    case TestPop(t) => if s.pool.count == 0 then Empty else Popped(s.pool.buffer[s.pool.head])
    case _ => Quiet
  }

  /** A bounded FIFO queue that does each operation at once. */
  predicate SpecStep(size: nat, q: seq<Cmd>, e: Event, q': seq<Cmd>) {
    match e
    case Pushed(cmd) => |q| < size && q' == q + [cmd]
    case Refused => |q| == size && q' == q
    case Popped(cmd) => q == [cmd] + q'
    case Empty => q == [] && q' == q
    case Quiet => q' == q
  }

  // ---- the invariant --------------------------------------------------------------------------------

  predicate LockOk(s: Sys) {
    && (s.lock.Some? ==> s.lock.value in s.pc)
    && (forall t :: t in s.pc ==> (Holds(s.pc[t]) <==> s.lock == Some(t)))
  }

  /** A sleeping producer implies that the free slots are no more than the producers already woken and
      the wake-ups about to be sent. */
  predicate WakeOk(s: Sys) {
    Sleepers(s.pc) != {} ==> s.pool.Size() - s.pool.count <= |Roused(s.pc)| + |Signalling(s.pc)|
  }

  predicate Inv(s: Sys) {
    s.pool.Valid() && LockOk(s) && WakeOk(s)
  }

  predicate Start(s: Sys, threads: set<Tid>, buffer: seq<Cmd>) {
    s == Sys(InitPool(buffer), None, map t | t in threads :: Idle)
  }

  lemma StartInv(s: Sys, threads: set<Tid>, buffer: seq<Cmd>)
    requires Start(s, threads, buffer)
    ensures Inv(s) && s.pool.Queue() == []
  {
    assert Sleepers(s.pc) == {};
  }

  /** How the three sets change when one thread moves. */
  lemma Moved(pc: map<Tid, Pc>, t: Tid, x: Pc)
    requires t in pc
    ensures Sleepers(pc[t := x]) == if x.Asleep? then Sleepers(pc) + {t} else Sleepers(pc) - {t}
    ensures Roused(pc[t := x]) == if IsRoused(x) then Roused(pc) + {t} else Roused(pc) - {t}
    ensures Signalling(pc[t := x]) == if x.PopSignal? then Signalling(pc) + {t} else Signalling(pc) - {t}
  {
  }

  lemma MovedCounts(pc: map<Tid, Pc>, t: Tid, x: Pc)
    requires t in pc
    ensures |Roused(pc[t := x])| == |Roused(pc)| + (if IsRoused(x) then 1 else 0) - (if IsRoused(pc[t]) then 1 else 0)
    ensures |Signalling(pc[t := x])| == |Signalling(pc)| + (if x.PopSignal? then 1 else 0) - (if pc[t].PopSignal? then 1 else 0)
    ensures Sleepers(pc[t := x]) <= Sleepers(pc) + (if x.Asleep? then {t} else {})
  {
    Moved(pc, t, x);
    assert IsRoused(pc[t]) <==> t in Roused(pc);
    assert pc[t].PopSignal? <==> t in Signalling(pc);
    hide *;
    PutIn(Roused(pc), t, IsRoused(x));
    PutIn(Signalling(pc), t, x.PopSignal?);
  }

  lemma PutIn(r: set<Tid>, t: Tid, keep: bool)
    ensures |if keep then r + {t} else r - {t}| == |r| + (if keep then 1 else 0) - (if t in r then 1 else 0)
  {
    if t in r {
      assert r + {t} == r;
    } else {
      assert r - {t} == r;
    }
  }

  lemma {:induction false} MoveKeepsLock(s: Sys, t: Tid, x: Pc, lock: Option<Tid>)
    requires LockOk(s) && t in s.pc
    requires lock == if Holds(x) then Some(t) else if Holds(s.pc[t]) then None else s.lock
    requires Holds(x) && !Holds(s.pc[t]) ==> s.lock == None
    ensures LockOk(s.(lock := lock, pc := s.pc[t := x]))
  {
  }

  lemma RouseCounts(pc: map<Tid, Pc>, roused: set<Tid>)
    requires roused <= Sleepers(pc)
    ensures |Roused(Rouse(pc, roused))| == |Roused(pc)| + |roused|
    ensures Signalling(Rouse(pc, roused)) == Signalling(pc)
    ensures Sleepers(Rouse(pc, roused)) == Sleepers(pc) - roused
    ensures roused != {} ==> |roused| >= 1
  {
    var pc1 := Rouse(pc, roused);
    assert Roused(pc1) == Roused(pc) + roused;
    assert Roused(pc) !! roused;
    if roused != {} {
      var w :| w in roused;
      SubsetSize({w}, roused);
    }
  }

  lemma SignalKeepsInv(s: Sys, t: Tid, roused: set<Tid>)
    requires Inv(s) && Enabled(s, Signal(t, roused))
    ensures Inv(Apply(s, Signal(t, roused)))
  {
    var s' := Apply(s, Signal(t, roused));
    var pc1 := Rouse(s.pc, roused);
    assert LockOk(s.(pc := pc1));
    MoveKeepsLock(s.(pc := pc1), t, Idle, None);
    RouseCounts(s.pc, roused);
    MovedCounts(pc1, t, Idle);
    hide Sleepers, Roused, Signalling, LockOk;
    assert pc1[t].PopSignal?;
    assert Sleepers(s'.pc) <= Sleepers(s.pc);
  }

  /** Every step keeps the invariant: no wake-up is ever lost. */
  lemma StepKeepsInv(s: Sys, a: Action)
    requires Inv(s) && Enabled(s, a)
    ensures Inv(Apply(s, a)) && Apply(s, a).pool.Size() == s.pool.Size() && Apply(s, a).pc.Keys == s.pc.Keys
  {
    match a
    case Signal(t, roused) => SignalKeepsInv(s, t, roused);
    case TestPush(t) =>
      if s.pool.count < s.pool.Size() {
        PushAppends(s.pool, s.pc[t].cmd);
      }
      MoveOne(s, a);
    case TestPop(t) =>
      if s.pool.count > 0 {
        PopTakesOldest(s.pool);
      }
      MoveOne(s, a);
    case _ => MoveOne(s, a);
  }

  lemma MoveOne(s: Sys, a: Action)
    requires Inv(s) && Enabled(s, a) && !a.Signal?
    requires Apply(s, a).pool.Valid() && Apply(s, a).pool.Size() == s.pool.Size()
    ensures Inv(Apply(s, a)) && Apply(s, a).pc.Keys == s.pc.Keys
  {
    var s' := Apply(s, a);
    MoveChanges(s, a);
    var x := s'.pc[a.t];
    MovedCounts(s.pc, a.t, x);
    hide Apply, Sleepers, Roused, Signalling, Pool.Valid;
    MoveKeepsLock(s, a.t, x, s'.lock);
    hide LockOk, Holds;
  }

  /** What a step other than a signal may change: one thread, the lock, the number of commands. */
  lemma MoveChanges(s: Sys, a: Action)
    requires Inv(s) && Enabled(s, a) && !a.Signal?
    ensures var s' := Apply(s, a);
            && a.t in s'.pc
            && var (x, was) := (s'.pc[a.t], s.pc[a.t]);
               && s'.pc == s.pc[a.t := x]
               && s'.lock == (if Holds(x) then Some(a.t) else if Holds(was) then None else s.lock)
               && (Holds(x) && !Holds(was) ==> s.lock == None)
               && (s'.pool == s.pool || s'.pool.count == s.pool.count + 1 || x.PopSignal?)
               && s'.pool.count >= s.pool.count - (if x.PopSignal? then 1 else 0)
               && (x.Asleep? ==> s.pool.count == s.pool.Size() && s'.pool == s.pool)
               && (IsRoused(was) && !IsRoused(x) ==>
                   s'.pool.count == s.pool.count + 1 || (s'.pool == s.pool && s.pool.count == s.pool.Size()))
               && !was.PopSignal?
  {
    hide Sleepers, Roused, Signalling;
  }

  /** Each step is a step of the abstract queue on the buffered commands. */
  lemma StepRefines(s: Sys, a: Action)
    requires Inv(s) && Enabled(s, a)
    ensures Apply(s, a).pool.Valid()
    ensures SpecStep(s.pool.Size(), s.pool.Queue(), EventOf(s, a), Apply(s, a).pool.Queue())
  {
    match a
    case TestPush(t) =>
      if s.pool.count < s.pool.Size() {
        PushAppends(s.pool, s.pc[t].cmd);
      }
    case TestPop(t) =>
      if s.pool.count > 0 {
        PopTakesOldest(s.pool);
      }
    case _ =>
  }

  // ---- whole runs -----------------------------------------------------------------------------------

  /** A run: each action is enabled where it happens. */
  predicate IsRun(s: Sys, run: seq<Action>)
    requires Inv(s)
    decreases |run|
  {
    run == [] || (Enabled(s, run[0]) && (StepKeepsInv(s, run[0]); IsRun(Apply(s, run[0]), run[1..])))
  }

  function Final(s: Sys, run: seq<Action>): (s': Sys)
    requires Inv(s) && IsRun(s, run)
    ensures Inv(s') && s'.pool.Size() == s.pool.Size()
    decreases |run|
  {
    if run == [] then s else
      StepKeepsInv(s, run[0]);
      Final(Apply(s, run[0]), run[1..])
  }

  function Events(s: Sys, run: seq<Action>): seq<Event>
    requires Inv(s) && IsRun(s, run)
    decreases |run|
  {
    if run == [] then [] else
      StepKeepsInv(s, run[0]);
      [EventOf(s, run[0])] + Events(Apply(s, run[0]), run[1..])
  }

  function Pushes(es: seq<Event>): seq<Cmd> {
    if es == [] then [] else (if es[0].Pushed? then [es[0].cmd] else []) + Pushes(es[1..])
  }

  function Pops(es: seq<Event>): seq<Cmd> {
    if es == [] then [] else (if es[0].Popped? then [es[0].cmd] else []) + Pops(es[1..])
  }

  lemma FifoStep(q: seq<Cmd>, q1: seq<Cmd>, qn: seq<Cmd>, pushed: seq<Cmd>, popped: seq<Cmd>, ps: seq<Cmd>, os: seq<Cmd>)
    requires q + pushed == popped + q1 && q1 + ps == os + qn
    ensures q + (pushed + ps) == (popped + os) + qn
  {
    assert q + (pushed + ps) == (q + pushed) + ps;
    assert (popped + q1) + ps == popped + (q1 + ps);
    assert popped + (os + qn) == (popped + os) + qn;
  }

  /** Linearizable FIFO: in every run, queued plus accepted commands are, in order, the popped ones
      followed by what the circular buffer holds. */
  lemma {:induction false} RunIsFifo(s: Sys, run: seq<Action>)
    requires Inv(s) && IsRun(s, run)
    ensures s.pool.Queue() + Pushes(Events(s, run)) == Pops(Events(s, run)) + Final(s, run).pool.Queue()
    decreases |run|
  {
    if run != [] {
      var a := run[0];
      StepKeepsInv(s, a);
      StepRefines(s, a);
      var s1 := Apply(s, a);
      RunIsFifo(s1, run[1..]);
      var (e, es) := (EventOf(s, a), Events(s1, run[1..]));
      assert Events(s, run)[1..] == es;
      hide Apply, Enabled, Inv, EventOf;
      FifoStep(s.pool.Queue(), s1.pool.Queue(), Final(s1, run[1..]).pool.Queue(),
               if e.Pushed? then [e.cmd] else [], if e.Popped? then [e.cmd] else [], Pushes(es), Pops(es));
    }
  }

  /** The two promises over all runs of any threads: popped commands are a prefix of the accepted ones
      and the rest is in the buffer; and no producer sleeps beside a free slot unless enough producers
      are awake, or about to be woken, to take it, and awake already while the lock is free. */
  lemma QueueSafety(s: Sys, threads: set<Tid>, buffer: seq<Cmd>, run: seq<Action>)
    requires Start(s, threads, buffer) && Inv(s) && IsRun(s, run)
    ensures var s' := Final(s, run);
            && Pushes(Events(s, run)) == Pops(Events(s, run)) + s'.pool.Queue()
            && (Sleepers(s'.pc) != {} ==> |buffer| - |s'.pool.Queue()| <= |Roused(s'.pc)| + |Signalling(s'.pc)|)
            && (s'.lock == None && Sleepers(s'.pc) != {} ==> |buffer| - |s'.pool.Queue()| <= |Roused(s'.pc)|)
  {
    StartInv(s, threads, buffer);
    RunIsFifo(s, run);
    if Final(s, run).lock == None { NoLostWakeup(Final(s, run)); }
    assert [] + Pushes(Events(s, run)) == Pushes(Events(s, run));
  }

  /** While no consumer is inside its critical section, the woken producers alone cover the free slots;
      if nobody is on the way, a sleeping producer means the queue is full. */
  lemma NoLostWakeup(s: Sys)
    requires Inv(s) && s.lock == None
    ensures Sleepers(s.pc) != {} ==> s.pool.Size() - |s.pool.Queue()| <= |Roused(s.pc)|
    ensures Sleepers(s.pc) != {} && Roused(s.pc) == {} ==> |s.pool.Queue()| == s.pool.Size()
  {
    assert forall t :: t in s.pc ==> !Holds(s.pc[t]);
    assert Signalling(s.pc) == {};
  }

  /** If a producer sleeps although there is room, somebody can act: the holder of the lock, or a woken
      producer that can take the lock. */
  lemma RoomIsTaken(s: Sys) returns (a: Action)
    requires Inv(s) && Sleepers(s.pc) != {} && s.pool.count < s.pool.Size()
    ensures Enabled(s, a) && !a.CallPush? && !a.CallPop? && !a.Spurious?
    ensures s.lock == Some(a.t) || (a.Acquire? && a.t in Roused(s.pc))
  {
    if s.lock.Some? {
      var t := s.lock.value;
      a := match s.pc[t] case PushTest(_, _, _) => TestPush(t) case PopTest => TestPop(t) case _ => Signal(t, Sleepers(s.pc));
    } else {
      NoLostWakeup(s);
      var t :| t in Roused(s.pc);
      a := Acquire(t);
    }
  }
}
