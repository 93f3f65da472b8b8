/** What each caller of the shared command queue gets: how a call of `push_cmd` or `pop_cmd` ends, in every
    run of any number of threads. */
module QueueCalls {
  import opened Basics
  import opened CommandQueue
  import opened QueueProtocol

  /** The state before step `k` of the run; behind the last step, the final one. */
  function StateAt(s: Sys, run: seq<Action>, k: nat): (r: Sys)
    requires Inv(s) && IsRun(s, run) && k <= |run|
    ensures Inv(r) && r.pc.Keys == s.pc.Keys && r.pool.Size() == s.pool.Size()
    decreases k
  {
    if k == 0 then s else
      StepKeepsInv(s, run[0]);
      StateAt(Apply(s, run[0]), run[1..], k - 1)
  }

  lemma {:induction false} OneEventPerStep(s: Sys, run: seq<Action>)
    requires Inv(s) && IsRun(s, run)
    ensures |Events(s, run)| == |run|
    decreases |run|
  {
    if run != [] {
      StepKeepsInv(s, run[0]);
      OneEventPerStep(Apply(s, run[0]), run[1..]);
    }
  }

  function EventAt(s: Sys, run: seq<Action>, k: nat): Event
    requires Inv(s) && IsRun(s, run) && k < |run|
  {
    OneEventPerStep(s, run);
    Events(s, run)[k]
  }

  /** Step `k` leads from each state to the next one. */
  lemma {:induction false} StepAt(s: Sys, run: seq<Action>, k: nat)
    requires Inv(s) && IsRun(s, run) && k < |run|
    ensures var sk := StateAt(s, run, k);
            && Enabled(sk, run[k])
            && StateAt(s, run, k + 1) == Apply(sk, run[k])
            && EventAt(s, run, k) == EventOf(sk, run[k])
    decreases k
  {
    assert |run| > 0 && Enabled(s, run[0]);
    StepKeepsInv(s, run[0]);
    hide Apply, Enabled, Inv, EventOf;
    if k > 0 {
      StepAt(Apply(s, run[0]), run[1..], k - 1);
    }
  }

  lemma CallStep(s: Sys, a: Action)
    requires Inv(s) && Enabled(s, a) && (a.CallPush? || a.CallPop?)
    ensures EventOf(s, a) == Quiet && a.t in Apply(s, a).pc
    ensures Apply(s, a).pc[a.t] == if a.CallPush? then PushWant(a.cmd, a.wait) else PopWant
  {
  }

  /** Who can go on: a thread that is not calling can always call, one that wants the lock gets it exactly when no
      thread holds it, and the thread that holds it is never held up. */
  lemma WhoCanAct(s: Sys, t: Tid)
    requires Inv(s) && t in s.pc
    ensures s.pc[t].Idle? ==> Enabled(s, CallPop(t)) && forall cmd, wait :: Enabled(s, CallPush(t, cmd, wait))
    ensures Wants(s.pc[t]) ==> (Enabled(s, Acquire(t)) <==> forall u :: u in s.pc ==> !Holds(s.pc[u]))
    ensures Holds(s.pc[t]) ==> Enabled(s, TestPush(t)) || Enabled(s, TestPop(t)) || Enabled(s, Signal(t, Sleepers(s.pc)))
  {
    if s.lock.Some? {
      assert Holds(s.pc[s.lock.value]);
    }
  }

  // ---- pushing --------------------------------------------------------------------------------------

  /** The thread is inside `push_cmd(cmd, wait)`; only a waiting push may sleep. */
  predicate InPush(pc: Pc, cmd: Cmd, wait: bool) {
    || pc == PushWant(cmd, wait)
    || (pc.PushTest? && pc.cmd == cmd && pc.wait == wait)
    || (wait && (pc == Asleep(cmd) || pc == Awake(cmd)))
  }

  /** One step of any thread, seen by a thread inside its push. */
  lemma PushStep(s: Sys, a: Action, t: Tid, cmd: Cmd, wait: bool)
    requires Inv(s) && Enabled(s, a) && t in s.pc && InPush(s.pc[t], cmd, wait)
    ensures var s1 := Apply(s, a);
            && t in s1.pc
            && (|| (InPush(s1.pc[t], cmd, wait) && (a.t == t ==> EventOf(s, a) == Quiet))
                || (a == TestPush(t) && s1.pc[t] == Idle && PushResult(s, EventOf(s, a), cmd, wait)))
  {
  }

  /** Stored; or, without waiting, refused by a full queue. */
  predicate PushResult(s: Sys, e: Event, cmd: Cmd, wait: bool)
    requires Inv(s)
  {
    e == Pushed(cmd) || (!wait && e == Refused && |s.pool.Queue()| == s.pool.Size())
  }

  /** Between the states `lo` and `hi` the thread is inside its push and causes no event. */
  predicate Pushing(s: Sys, run: seq<Action>, lo: nat, hi: nat, t: Tid, cmd: Cmd, wait: bool)
    requires Inv(s) && IsRun(s, run) && t in s.pc && hi <= |run|
  {
    && (forall k :: lo <= k <= hi ==> InPush(StateAt(s, run, k).pc[t], cmd, wait))
    && (forall k :: lo <= k < hi && run[k].t == t ==> EventAt(s, run, k) == Quiet)
  }

  lemma {:induction false} PushReturns(s: Sys, run: seq<Action>, lo: nat, k: nat, j: nat, t: Tid, cmd: Cmd, wait: bool)
    returns (m: nat)
    requires Inv(s) && IsRun(s, run) && t in s.pc && lo <= k <= j <= |run|
    requires Pushing(s, run, lo, k, t, cmd, wait) && StateAt(s, run, j).pc[t] == Idle
    ensures k <= m < j && Pushing(s, run, lo, m, t, cmd, wait)
    ensures run[m] == TestPush(t) && PushResult(StateAt(s, run, m), EventAt(s, run, m), cmd, wait)
    ensures StateAt(s, run, m + 1).pc[t] == Idle
    decreases j - k
  {
    hide Apply, Enabled, Inv, EventOf, IsRun, Events, StateAt, EventAt, Pool.Queue;
    assert InPush(StateAt(s, run, k).pc[t], cmd, wait);
    StepAt(s, run, k);
    PushStep(StateAt(s, run, k), run[k], t, cmd, wait);
    if InPush(StateAt(s, run, k + 1).pc[t], cmd, wait) {
      m := PushReturns(s, run, lo, k + 1, j, t, cmd, wait);
    } else {
      m := k;
    }
  }

  /** A call of `push_cmd` that has returned: exactly one step of the caller, its last, caused an event. A push
      that waits has stored its command; one that does not wait has stored it or met a full queue, and never
      slept. */
  lemma PushCall(s: Sys, run: seq<Action>, i: nat, j: nat, t: Tid, cmd: Cmd, wait: bool) returns (m: nat)
    requires Inv(s) && IsRun(s, run) && i < j <= |run| && run[i] == CallPush(t, cmd, wait)
    requires t in s.pc && StateAt(s, run, j).pc[t] == Idle
    ensures i < m < j && run[m] == TestPush(t) && StateAt(s, run, m + 1).pc[t] == Idle
    ensures if wait then EventAt(s, run, m) == Pushed(cmd)
            else EventAt(s, run, m) == Pushed(cmd)
                 || (EventAt(s, run, m) == Refused && |StateAt(s, run, m).pool.Queue()| == s.pool.Size())
    ensures forall k :: i <= k < m && run[k].t == t ==> EventAt(s, run, k) == Quiet
    ensures forall k :: i < k <= m ==> StateAt(s, run, k).pc[t] != Idle
    ensures !wait ==> forall k :: i < k <= m ==> !StateAt(s, run, k).pc[t].Asleep?
  {
    hide Apply, Enabled, Inv, EventOf, IsRun, Events, StateAt, EventAt, Pool.Queue;
    StepAt(s, run, i);
    CallStep(StateAt(s, run, i), run[i]);
    m := PushReturns(s, run, i + 1, i + 1, j, t, cmd, wait);
  }

  // ---- popping --------------------------------------------------------------------------------------

  /** The thread is inside `pop_cmd`; `taken` tells whether it has removed a command already. */
  predicate InPop(pc: Pc, taken: bool) {
    if taken then pc == PopSignal else pc == PopWant || pc == PopTest
  }

  lemma PopStep(s: Sys, a: Action, t: Tid, taken: bool)
    requires Inv(s) && Enabled(s, a) && t in s.pc && InPop(s.pc[t], taken)
    ensures var s1 := Apply(s, a);
            && t in s1.pc
            && (|| (InPop(s1.pc[t], taken) && (a.t == t ==> EventOf(s, a) == Quiet))
                || (if taken then a.Signal? && a.t == t && s1.pc[t] == Idle && EventOf(s, a) == Quiet
                    else a == TestPop(t) && PopResult(s, s1.pc[t], EventOf(s, a))))
  {
    if a == TestPop(t) && s.pool.count > 0 {
      PopTakesOldest(s.pool);
    }
  }

  /** Nothing from an empty queue; or the oldest command, and then a wake-up is due. */
  predicate PopResult(s: Sys, pc: Pc, e: Event)
    requires Inv(s)
  {
    var q := s.pool.Queue();
    if q == [] then e == Empty && pc == Idle else e == Popped(q[0]) && pc == PopSignal
  }

  predicate Popping(s: Sys, run: seq<Action>, lo: nat, hi: nat, t: Tid, taken: bool)
    requires Inv(s) && IsRun(s, run) && t in s.pc && hi <= |run|
  {
    && (forall k :: lo <= k <= hi ==> InPop(StateAt(s, run, k).pc[t], taken))
    && (forall k :: lo <= k < hi && run[k].t == t ==> EventAt(s, run, k) == Quiet)
  }

  lemma {:induction false} PopLeaves(s: Sys, run: seq<Action>, lo: nat, k: nat, j: nat, t: Tid, taken: bool)
    returns (m: nat)
    requires Inv(s) && IsRun(s, run) && t in s.pc && lo <= k <= j <= |run|
    requires Popping(s, run, lo, k, t, taken) && StateAt(s, run, j).pc[t] == Idle
    ensures k <= m < j && Popping(s, run, lo, m, t, taken) && run[m].t == t
    ensures if taken then run[m].Signal? && StateAt(s, run, m + 1).pc[t] == Idle && EventAt(s, run, m) == Quiet
            else run[m] == TestPop(t) && PopResult(StateAt(s, run, m), StateAt(s, run, m + 1).pc[t], EventAt(s, run, m))
    decreases j - k
  {
    hide Apply, Enabled, Inv, EventOf, IsRun, Events, StateAt, EventAt, Pool.Queue;
    assert InPop(StateAt(s, run, k).pc[t], taken);
    StepAt(s, run, k);
    PopStep(StateAt(s, run, k), run[k], t, taken);
    if InPop(StateAt(s, run, k + 1).pc[t], taken) {
      m := PopLeaves(s, run, lo, k + 1, j, t, taken);
    } else {
      m := k;
    }
  }

  /** A call of `pop_cmd` that has returned: exactly one step `p` of the caller caused an event. The queue was
      empty and the call returned at once; or it got the oldest command, and returned with the wake-up of a
      producer, step `m`. */
  lemma PopCall(s: Sys, run: seq<Action>, i: nat, j: nat, t: Tid) returns (p: nat, m: nat)
    requires Inv(s) && IsRun(s, run) && i < j <= |run| && run[i] == CallPop(t)
    requires t in s.pc && StateAt(s, run, j).pc[t] == Idle
    ensures i < p <= m < j && run[p] == TestPop(t) && StateAt(s, run, m + 1).pc[t] == Idle
    ensures var q := StateAt(s, run, p).pool.Queue();
            if q == [] then EventAt(s, run, p) == Empty && m == p
            else EventAt(s, run, p) == Popped(q[0]) && p < m && run[m].Signal? && run[m].t == t
    ensures forall k :: i <= k <= m && k != p && run[k].t == t ==> EventAt(s, run, k) == Quiet
    ensures forall k :: i < k <= m ==> StateAt(s, run, k).pc[t] != Idle
  {
    hide Apply, Enabled, Inv, EventOf, IsRun, Events, StateAt, EventAt, Pool.Queue;
    StepAt(s, run, i);
    CallStep(StateAt(s, run, i), run[i]);
    p := PopLeaves(s, run, i + 1, i + 1, j, t, false);
    m := p;
    if StateAt(s, run, p + 1).pc[t] != Idle {
      m := PopLeaves(s, run, p + 1, p + 1, j, t, true);
    }
  }
}
