/** The locking of daemon commands: one readers-writer lock and one mutex per command, taken and released
    step by step by any number of threads. */
module CommandLocks {
  import opened Basics

  datatype CmdType = Exclusive | Orthogonal | Concurrent | HighPriority

  /** The concurrency class of each command, by command index. */
  const COMMANDS: seq<CmdType> := [
    HighPriority, Orthogonal, Orthogonal, Exclusive, HighPriority, Orthogonal, Orthogonal, Concurrent,
    Orthogonal, Orthogonal, Orthogonal, Orthogonal, Orthogonal, Orthogonal, Orthogonal, Orthogonal]

  /** Before the first lock; holding the read lock and waiting for the mutex; running the command; read
      lock released and mutex still held. */
  datatype Stage = Start | NeedMutex | Body | NeedUnlock

  /** A thread with the command indices it still has to execute; the first one is in progress. */
  datatype Thread = Thread(prog: seq<nat>, stage: Stage)

  datatype Sys = Sys(table: seq<CmdType>, threads: seq<Thread>, writer: Option<nat>, readers: set<nat>, mutex: map<nat, nat>)

  predicate Busy(s: Sys, t: nat) {
    t < |s.threads| && s.threads[t].prog != [] && s.threads[t].prog[0] < |s.table|
  }

  function Cmd(s: Sys, t: nat): nat
    requires Busy(s, t)
  {
    s.threads[t].prog[0]
  }

  function Type(s: Sys, t: nat): CmdType
    requires Busy(s, t)
  {
    s.table[Cmd(s, t)]
  }

  predicate At(s: Sys, t: nat, ty: CmdType, stage: Stage) {
    Busy(s, t) && Type(s, t) == ty && s.threads[t].stage == stage
  }

  predicate Running(s: Sys, t: nat) {
    Busy(s, t) && s.threads[t].stage == Body
  }

  predicate WriterWaits(s: Sys) {
    exists u :: 0 <= u < |s.threads| && At(s, u, Exclusive, Start)
  }

  // ---- steps ----------------------------------------------------------------------------------------

  /** May thread t take its next step? With `strict`, readers queue behind waiting writers. */
  predicate Enabled(s: Sys, strict: bool, t: nat) {
    Busy(s, t) &&
    match s.threads[t].stage
    case Start =>
      (match Type(s, t)
       case Exclusive => s.writer == None && s.readers == {}
       case HighPriority => true
       case _ => s.writer == None && !(strict && WriterWaits(s)))
    case NeedMutex => Cmd(s, t) !in s.mutex
    case _ => true
  }

  function Go(s: Sys, t: nat, stage: Stage): Sys
    requires Busy(s, t)
  {
    s.(threads := s.threads[t := Thread(s.threads[t].prog, stage)])
  }

  /** The command is done; the thread turns to its next one. */
  function Done(s: Sys, t: nat): Sys
    requires Busy(s, t)
  {
    s.(threads := s.threads[t := Thread(s.threads[t].prog[1..], Start)])
  }

  /** The lock and unlock functions by type, one lock operation per step. */
  function Step(s: Sys, t: nat): Sys
    requires Busy(s, t)
  {
    match s.threads[t].stage
    case Start =>
      (match Type(s, t)
       case Exclusive => Go(s, t, Body).(writer := Some(t))
       case Orthogonal => Go(s, t, NeedMutex).(readers := s.readers + {t})
       case Concurrent => Go(s, t, Body).(readers := s.readers + {t})
       case HighPriority => Go(s, t, Body))
    case NeedMutex => Go(s, t, Body).(mutex := s.mutex[Cmd(s, t) := t])
    case Body =>
      (match Type(s, t)
       case Exclusive => Done(s, t).(writer := None)
       case Orthogonal => Go(s, t, NeedUnlock).(readers := s.readers - {t})
       case Concurrent => Done(s, t).(readers := s.readers - {t})
       case HighPriority => Done(s, t))
    case NeedUnlock => Done(s, t).(mutex := s.mutex - {Cmd(s, t)})
  }

  // ---- the invariant --------------------------------------------------------------------------------

  predicate Reads(s: Sys, t: nat) {
    At(s, t, Orthogonal, NeedMutex) || At(s, t, Orthogonal, Body) || At(s, t, Concurrent, Body)
  }

  predicate OwnsMutex(s: Sys, t: nat) {
    At(s, t, Orthogonal, Body) || At(s, t, Orthogonal, NeedUnlock)
  }

  /** Threads name known commands, and the middle stages belong to orthogonal commands. */
  predicate WellFormed(s: Sys) {
    forall t :: 0 <= t < |s.threads| ==>
      var th := s.threads[t];
      && (forall i :: 0 <= i < |th.prog| ==> th.prog[i] < |s.table|)
      && (th.stage != Start ==> th.prog != [])
      && (th.stage == NeedMutex || th.stage == NeedUnlock ==> Type(s, t) == Orthogonal)
  }

  /** The locks are held exactly by the threads whose stage says so. */
  ghost predicate Inv(s: Sys) {
    && WellFormed(s)
    && (forall t: nat :: s.writer == Some(t) <==> At(s, t, Exclusive, Body))
    && (forall t: nat :: t in s.readers <==> Reads(s, t))
    && (forall t: nat :: OwnsMutex(s, t) ==> Cmd(s, t) in s.mutex && s.mutex[Cmd(s, t)] == t)
    && (forall c :: c in s.mutex ==> OwnsMutex(s, s.mutex[c]) && Cmd(s, s.mutex[c]) == c)
    && (s.writer != None ==> s.readers == {})
  }

  /** Idle threads with any programs. */
  predicate Begin(s: Sys) {
    && s.writer == None && s.readers == {} && s.mutex == map[]
    && forall t :: 0 <= t < |s.threads| ==>
         s.threads[t].stage == Start && forall i :: 0 <= i < |s.threads[t].prog| ==> s.threads[t].prog[i] < |s.table|
  }

  lemma BeginInv(s: Sys)
    requires Begin(s)
    ensures Inv(s)
  {
    assert forall t: nat :: !At(s, t, Exclusive, Body) && !Reads(s, t) && !OwnsMutex(s, t);
  }

  lemma Others(s: Sys, t: nat)
    requires Busy(s, t)
    ensures var s' := Step(s, t);
            && |s'.threads| == |s.threads| && s'.table == s.table
            && forall u: nat :: u != t && u < |s.threads| ==> s'.threads[u] == s.threads[u]
  {
  }

  lemma StepWellFormed(s: Sys, t: nat)
    requires Inv(s) && Busy(s, t)
    ensures WellFormed(Step(s, t))
  {
    Others(s, t);
    var (th, th') := (s.threads[t], Step(s, t).threads[t]);
    assert th'.prog == th.prog || (th'.prog == th.prog[1..] && th'.stage == Start);
  }

  lemma StepWriter(s: Sys, strict: bool, t: nat)
    requires Inv(s) && Enabled(s, strict, t)
    ensures var s' := Step(s, t);
            && (forall u: nat :: s'.writer == Some(u) <==> At(s', u, Exclusive, Body))
            && (s'.writer != None ==> s'.readers == {})
  {
    Others(s, t);
    var s' := Step(s, t);
    forall u: nat
      ensures s'.writer == Some(u) <==> At(s', u, Exclusive, Body)
    {
      if u != t {
        assert At(s', u, Exclusive, Body) <==> At(s, u, Exclusive, Body);
      }
      assert At(s, t, Exclusive, Body) <==> s.writer == Some(t);
    }
  }

  lemma StepReaders(s: Sys, strict: bool, t: nat)
    requires Inv(s) && Enabled(s, strict, t)
    ensures var s' := Step(s, t); forall u: nat :: u in s'.readers <==> Reads(s', u)
  {
    Others(s, t);
    var s' := Step(s, t);
    assert forall u: nat :: u != t ==> (Reads(s', u) <==> Reads(s, u));
  }

  lemma OthersKeepMutex(s: Sys, t: nat, u: nat)
    requires Busy(s, t) && u != t
    ensures OwnsMutex(Step(s, t), u) <==> OwnsMutex(s, u)
    ensures OwnsMutex(s, u) ==> Cmd(Step(s, t), u) == Cmd(s, u)
  {
  }

  lemma StepMutexOwners(s: Sys, strict: bool, t: nat)
    requires Inv(s) && Enabled(s, strict, t)
    ensures var s' := Step(s, t);
            forall u: nat :: OwnsMutex(s', u) ==> Cmd(s', u) in s'.mutex && s'.mutex[Cmd(s', u)] == u
  {
    var s' := Step(s, t);
    forall u: nat | OwnsMutex(s', u)
      ensures Cmd(s', u) in s'.mutex && s'.mutex[Cmd(s', u)] == u
    {
      if u != t {
        OthersKeepMutex(s, t, u);
        assert s.threads[t].stage == NeedUnlock ==> OwnsMutex(s, t);
      } else {
        assert s.threads[t].stage == Body ==> OwnsMutex(s, t);
      }
    }
  }

  lemma StepMutexEntries(s: Sys, strict: bool, t: nat)
    requires Inv(s) && Enabled(s, strict, t)
    ensures var s' := Step(s, t);
            forall c :: c in s'.mutex ==> OwnsMutex(s', s'.mutex[c]) && Cmd(s', s'.mutex[c]) == c
  {
    var s' := Step(s, t);
    forall c | c in s'.mutex
      ensures OwnsMutex(s', s'.mutex[c]) && Cmd(s', s'.mutex[c]) == c
    {
      var u := s'.mutex[c];
      if u != t {
        OthersKeepMutex(s, t, u);
        assert OwnsMutex(s, s.mutex[c]);
      } else {
        assert s.threads[t].stage != NeedMutex ==> OwnsMutex(s, s.mutex[c]);
      }
    }
  }

  lemma StepInv(s: Sys, strict: bool, t: nat)
    requires Inv(s) && Enabled(s, strict, t)
    ensures Inv(Step(s, t))
  {
    StepWellFormed(s, t);
    StepWriter(s, strict, t);
    StepReaders(s, strict, t);
    StepMutexOwners(s, strict, t);
    StepMutexEntries(s, strict, t);
  }

  // ---- safety ---------------------------------------------------------------------------------------

  /** While an exclusive command runs, only high-priority commands run beside it. */
  lemma ExclusiveRunsAlone(s: Sys, t: nat, u: nat)
    requires Inv(s) && Running(s, t) && Type(s, t) == Exclusive
    requires Running(s, u) && u != t
    ensures Type(s, u) == HighPriority
  {
    assert At(s, t, Exclusive, Body);
    assert Reads(s, u) ==> u in s.readers;
    assert At(s, u, Exclusive, Body) ==> s.writer == Some(u);
  }

  /** An orthogonal command never runs twice at the same time. */
  lemma OrthogonalRunsOnce(s: Sys, t: nat, u: nat)
    requires Inv(s) && Running(s, t) && Running(s, u)
    requires Cmd(s, t) == Cmd(s, u) && Type(s, t) == Orthogonal
    ensures t == u
  {
    assert OwnsMutex(s, t) && OwnsMutex(s, u);
  }

  // ---- progress -------------------------------------------------------------------------------------

  predicate Finished(s: Sys) {
    forall t :: 0 <= t < |s.threads| ==> s.threads[t].prog == []
  }

  /** Deadlock freedom: unless every command is done, some thread can step, although the orthogonal
      unlock gives up the read lock before the mutex. */
  lemma SomeoneCanStep(s: Sys, strict: bool) returns (t: nat)
    requires Inv(s) && !Finished(s)
    ensures Enabled(s, strict, t)
  {
    if u :| 0 <= u < |s.threads| && s.threads[u].stage != Start {
      t := u;
      if s.threads[u].stage == NeedMutex && Cmd(s, u) in s.mutex {
        t := s.mutex[Cmd(s, u)];
        assert OwnsMutex(s, t);
      }
    } else {
      assert forall u: nat :: !At(s, u, Exclusive, Body) && !Reads(s, u);
      assert forall u: nat :: s.writer != Some(u);
      if WriterWaits(s) {
        t :| 0 <= t < |s.threads| && At(s, t, Exclusive, Start);
      } else {
        t :| 0 <= t < |s.threads| && s.threads[t].prog != [];
      }
    }
  }

  // ---- whole runs -----------------------------------------------------------------------------------

  predicate IsRun(s: Sys, strict: bool, run: seq<nat>)
    decreases |run|
  {
    run == [] || (Enabled(s, strict, run[0]) && IsRun(Step(s, run[0]), strict, run[1..]))
  }

  function Final(s: Sys, strict: bool, run: seq<nat>): Sys
    requires IsRun(s, strict, run)
    decreases |run|
  {
    if run == [] then s else Final(Step(s, run[0]), strict, run[1..])
  }

  lemma {:induction false} RunInv(s: Sys, strict: bool, run: seq<nat>)
    requires Inv(s) && IsRun(s, strict, run)
    ensures Inv(Final(s, strict, run))
    decreases |run|
  {
    if run != [] {
      StepInv(s, strict, run[0]);
      RunInv(Step(s, run[0]), strict, run[1..]);
    }
  }

  function StagesLeft(stage: Stage): nat {
    match stage case Start => 4 case NeedMutex => 3 case Body => 2 case NeedUnlock => 1
  }

  /** An upper bound on the steps a thread still takes. */
  function ThreadWork(th: Thread): nat {
    if th.prog == [] then 0 else 4 * (|th.prog| - 1) + StagesLeft(th.stage)
  }

  function Work(threads: seq<Thread>): nat {
    if threads == [] then 0 else ThreadWork(threads[0]) + Work(threads[1..])
  }

  lemma {:induction false} WorkUpdate(threads: seq<Thread>, t: nat, th: Thread)
    requires t < |threads|
    ensures Work(threads[t := th]) == Work(threads) - ThreadWork(threads[t]) + ThreadWork(th)
  {
    if t == 0 {
      assert threads[t := th][1..] == threads[1..];
    } else {
      assert threads[t := th][1..] == threads[1..][t - 1 := th];
      WorkUpdate(threads[1..], t - 1, th);
    }
  }

  lemma ThreadStepWorks(s: Sys, t: nat)
    requires Busy(s, t)
    ensures Step(s, t).threads == s.threads[t := Step(s, t).threads[t]]
    ensures ThreadWork(Step(s, t).threads[t]) < ThreadWork(s.threads[t])
  {
  }

  lemma StepWorks(s: Sys, t: nat)
    requires Busy(s, t)
    ensures Work(Step(s, t).threads) < Work(s.threads)
  {
    hide Step, Work, ThreadWork;
    ThreadStepWorks(s, t);
    WorkUpdate(s.threads, t, Step(s, t).threads[t]);
  }

  lemma {:induction false} RunIsShort(s: Sys, strict: bool, run: seq<nat>)
    requires IsRun(s, strict, run)
    ensures |run| + Work(Final(s, strict, run).threads) <= Work(s.threads)
    decreases |run|
  {
    if run != [] {
      StepWorks(s, run[0]);
      RunIsShort(Step(s, run[0]), strict, run[1..]);
    }
  }

  /** Every run of any threads is bounded, one that cannot go on has executed every command, and a
      high-priority command can go on in every state of it. */
  lemma RunsComplete(s: Sys, strict: bool, run: seq<nat>)
    requires Begin(s) && IsRun(s, strict, run)
    ensures |run| <= Work(s.threads)
    ensures var f := Final(s, strict, run);
            && ((forall t :: !Enabled(f, strict, t)) ==> Finished(f))
            && (forall t :: Busy(f, t) && Type(f, t) == HighPriority ==> Enabled(f, strict, t))
  {
    BeginInv(s);
    RunInv(s, strict, run);
    RunIsShort(s, strict, run);
    var f := Final(s, strict, run);
    if !Finished(f) {
      var t := SomeoneCanStep(f, strict);
    }
  }

  /** Class safety in every state of every run. */
  lemma RunsAreSafe(s: Sys, strict: bool, run: seq<nat>, t: nat, u: nat)
    requires Begin(s) && IsRun(s, strict, run)
    requires var f := Final(s, strict, run); Running(f, t) && Running(f, u) && t != u
    ensures var f := Final(s, strict, run);
            && (Type(f, t) == Exclusive ==> Type(f, u) == HighPriority)
            && (Type(f, t) == Orthogonal ==> Cmd(f, t) != Cmd(f, u))
  {
    BeginInv(s);
    RunInv(s, strict, run);
    var f := Final(s, strict, run);
    if Type(f, t) == Exclusive {
      ExclusiveRunsAlone(f, t, u);
    }
    if Type(f, t) == Orthogonal && Cmd(f, t) == Cmd(f, u) {
      OrthogonalRunsOnce(f, t, u);
    }
  }

  /** With the daemon's own command table: beside `shutdown-agent` (command 3) only `help` and
      `fatal-agent` (commands 0 and 4) ever run. */
  lemma ShutdownRunsAlone(s: Sys, strict: bool, run: seq<nat>, t: nat, u: nat)
    requires Begin(s) && s.table == COMMANDS && IsRun(s, strict, run)
    requires var f := Final(s, strict, run); Running(f, t) && Running(f, u) && t != u && Cmd(f, t) == 3
    ensures var f := Final(s, strict, run); Cmd(f, u) == 0 || Cmd(f, u) == 4
  {
    TableIsFixed(s, strict, run);
    RunsAreSafe(s, strict, run, t, u);
    var c := Cmd(Final(s, strict, run), u);
    assert COMMANDS[c] == HighPriority;
  }

  lemma {:induction false} TableIsFixed(s: Sys, strict: bool, run: seq<nat>)
    requires IsRun(s, strict, run)
    ensures Final(s, strict, run).table == s.table
    decreases |run|
  {
    if run != [] {
      TableIsFixed(Step(s, run[0]), strict, run[1..]);
    }
  }
}
