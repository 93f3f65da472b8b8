/** What the concurrency classes allow: which thread the locks hold back, and which commands can run at the
    same time. */
module CommandsTogether {
  import opened Basics
  import opened CommandLocks

  /** Nobody is held back without a reason. A read lock is refused exactly beside a running exclusive command,
      or, where readers queue behind writers, a waiting one; the write lock exactly beside another exclusive
      command or a reader; a mutex exactly when another thread runs, or is leaving, the same command. */
  lemma WhoIsHeldBack(s: Sys, strict: bool, t: nat)
    requires Inv(s) && Busy(s, t)
    ensures Enabled(s, strict, t) <==>
            match s.threads[t].stage
            case Start =>
              (match Type(s, t)
               case HighPriority => true
               case Exclusive => forall u: nat :: !At(s, u, Exclusive, Body) && !Reads(s, u)
               case _ =>
                 && (forall u: nat :: !At(s, u, Exclusive, Body))
                 && (strict ==> forall u: nat :: !At(s, u, Exclusive, Start)))
            case NeedMutex => forall u: nat :: OwnsMutex(s, u) && u != t ==> Cmd(s, u) != Cmd(s, t)
            case _ => true
  {
    if s.writer.Some? {
      assert At(s, s.writer.value, Exclusive, Body);
    }
    assert s.writer == None ==> forall u: nat :: !At(s, u, Exclusive, Body);
    if s.readers != {} {
      var u :| u in s.readers;
      assert Reads(s, u);
    }
    if s.threads[t].stage == NeedMutex && Cmd(s, t) in s.mutex {
      var u := s.mutex[Cmd(s, t)];
      assert OwnsMutex(s, u) && u != t;
    }
  }

  /** An orthogonal command that ends gives up the read lock first: the same command still has to wait, while an
      exclusive one may begin unless another command runs or waits under the read lock. */
  lemma ReadLockGoesFirst(s: Sys, strict: bool, t: nat, u: nat)
    requires Inv(s) && At(s, t, Orthogonal, Body) && u != t
    ensures var s1 := Step(s, t);
            && OwnsMutex(s1, t) && !Reads(s1, t)
            && (At(s1, u, Orthogonal, NeedMutex) && Cmd(s1, u) == Cmd(s, t) ==> !Enabled(s1, strict, u))
            && (At(s1, u, Exclusive, Start) ==> (Enabled(s1, strict, u) <==> forall v: nat :: v != t ==> !Reads(s, v)))
  {
    var s1 := Step(s, t);
    StepInv(s, strict, t);
    Others(s, t);
    assert OwnsMutex(s1, t) && Cmd(s1, t) == Cmd(s, t);
    if At(s1, u, Exclusive, Start) {
      WhoIsHeldBack(s1, strict, u);
      assert t in s.readers;
      assert forall v: nat :: v != t ==> (Reads(s1, v) <==> Reads(s, v));
      assert forall v: nat :: v != t ==> (At(s1, v, Exclusive, Body) <==> At(s, v, Exclusive, Body));
      assert forall v: nat :: !At(s, v, Exclusive, Body);
    }
  }

  // ---- commands at the same time --------------------------------------------------------------------

  /** The first commands of all threads may overlap: an exclusive one only with high-priority ones, an
      orthogonal one not with itself. */
  predicate Together(s: Sys) {
    forall t, u :: 0 <= t < |s.threads| && 0 <= u < |s.threads| && t != u && Busy(s, t) && Busy(s, u) ==>
      && (Type(s, t) == Exclusive ==> Type(s, u) == HighPriority)
      && (Type(s, t) == Orthogonal ==> Cmd(s, t) != Cmd(s, u))
  }

  /** Every thread that has work is running its first command. */
  predicate AllRunning(s: Sys, f: Sys) {
    && |f.threads| == |s.threads| && f.table == s.table
    && forall t :: 0 <= t < |s.threads| && Busy(s, t) ==> f.threads[t] == Thread(s.threads[t].prog, Body)
  }

  /** On the way there: the first `n` threads run, the others have not begun. */
  ghost predicate Gathered(s: Sys, n: nat) {
    && Inv(s) && n <= |s.threads|
    && (forall t :: 0 <= t < n && Busy(s, t) ==> s.threads[t].stage == Body)
    && (forall t :: n <= t < |s.threads| ==> s.threads[t].stage == Start)
  }

  /** The next thread can take its first lock. */
  lemma NextMayBegin(s: Sys, strict: bool, n: nat)
    requires Gathered(s, n) && Together(s) && Busy(s, n)
    ensures Enabled(s, strict, n)
  {
    WhoIsHeldBack(s, strict, n);
    if Type(s, n) != HighPriority {
      forall u: nat
        ensures !At(s, u, Exclusive, Body)
        ensures Type(s, n) == Exclusive ==> !Reads(s, u)
        ensures Type(s, n) != Exclusive ==> !At(s, u, Exclusive, Start)
      {
        if Busy(s, u) && u != n {
          assert Type(s, u) != Exclusive;
          assert Type(s, n) == Exclusive ==> Type(s, u) == HighPriority;
        }
      }
    }
  }

  /** And its second one. */
  lemma NextGetsMutex(s: Sys, strict: bool, n: nat)
    requires Inv(s) && Together(s) && At(s, n, Orthogonal, NeedMutex)
    ensures Enabled(s, strict, n)
  {
    WhoIsHeldBack(s, strict, n);
    forall u: nat | OwnsMutex(s, u) && u != n
      ensures Cmd(s, u) != Cmd(s, n)
    {
      assert Busy(s, u);
    }
  }

  predicate SamePrograms(s: Sys, f: Sys) {
    && |f.threads| == |s.threads| && f.table == s.table
    && forall t :: 0 <= t < |s.threads| ==> f.threads[t].prog == s.threads[t].prog
  }

  lemma SameTogether(s: Sys, f: Sys)
    requires SamePrograms(s, f) && Together(s)
    ensures Together(f)
  {
    assert forall t: nat :: Busy(f, t) <==> Busy(s, t);
    assert forall t: nat :: Busy(s, t) ==> Cmd(f, t) == Cmd(s, t) && Type(f, t) == Type(s, t);
  }

  lemma FirstSteps(s: Sys, strict: bool, n: nat)
    requires Enabled(s, strict, n)
    ensures IsRun(s, strict, [n]) && Final(s, strict, [n]) == Step(s, n)
    ensures var s1 := Step(s, n);
            Enabled(s1, strict, n) ==> IsRun(s, strict, [n, n]) && Final(s, strict, [n, n]) == Step(s1, n)
  {
    hide Step;
    assert [n][1..] == [] && [n, n][1..] == [n];
    var s1 := Step(s, n);
    if Enabled(s1, strict, n) {
      assert IsRun(s1, strict, [n]) && Final(s1, strict, [n]) == Step(s1, n);
    }
  }

  /** How the first step of a command leaves its thread. */
  lemma BeginStep(s: Sys, strict: bool, n: nat)
    requires Gathered(s, n) && Enabled(s, strict, n)
    ensures var s1 := Step(s, n);
            && Inv(s1) && SamePrograms(s, s1)
            && (Type(s, n) == Orthogonal ==> At(s1, n, Orthogonal, NeedMutex))
            && (Type(s, n) != Orthogonal ==> Gathered(s1, n + 1))
            && forall t: nat :: t < |s.threads| && t != n ==> s1.threads[t] == s.threads[t]
  {
    StepInv(s, strict, n);
    hide Inv;
  }

  lemma MutexStep(s: Sys, strict: bool, n: nat)
    requires Inv(s) && At(s, n, Orthogonal, NeedMutex) && Enabled(s, strict, n)
    requires (forall t :: 0 <= t < n && Busy(s, t) ==> s.threads[t].stage == Body)
    requires (forall t :: n < t < |s.threads| ==> s.threads[t].stage == Start)
    ensures Gathered(Step(s, n), n + 1) && SamePrograms(s, Step(s, n))
  {
    StepInv(s, strict, n);
    hide Inv;
  }

  /** The next thread begins its first command, in one step or two. */
  lemma BringIn(s: Sys, strict: bool, n: nat) returns (run: seq<nat>)
    requires Gathered(s, n) && Together(s) && Busy(s, n)
    ensures IsRun(s, strict, run) && Gathered(Final(s, strict, run), n + 1) && SamePrograms(s, Final(s, strict, run))
  {
    hide Inv, Step, Enabled, IsRun, Final, Together;
    NextMayBegin(s, strict, n);
    BeginStep(s, strict, n);
    FirstSteps(s, strict, n);
    run := [n];
    if Type(s, n) == Orthogonal {
      var s1 := Step(s, n);
      SameTogether(s, s1);
      NextGetsMutex(s1, strict, n);
      assert forall t :: 0 <= t < n && Busy(s1, t) ==> Busy(s, t);
      MutexStep(s1, strict, n);
      run := [n, n];
    }
  }

  lemma {:induction false} RunOn(s: Sys, strict: bool, run: seq<nat>, more: seq<nat>)
    requires IsRun(s, strict, run) && IsRun(Final(s, strict, run), strict, more)
    ensures IsRun(s, strict, run + more) && Final(s, strict, run + more) == Final(Final(s, strict, run), strict, more)
    decreases |run|
  {
    if run == [] {
      assert run + more == more;
    } else {
      assert (run + more)[1..] == run[1..] + more;
      RunOn(Step(s, run[0]), strict, run[1..], more);
    }
  }

  lemma {:induction false} Gather(s: Sys, strict: bool, n: nat) returns (run: seq<nat>)
    requires Gathered(s, n) && Together(s)
    ensures IsRun(s, strict, run) && SamePrograms(s, Final(s, strict, run))
    ensures Gathered(Final(s, strict, run), |s.threads|)
    decreases |s.threads| - n
  {
    run := [];
    if n < |s.threads| {
      if Busy(s, n) {
        run := BringIn(s, strict, n);
      }
      var s1 := Final(s, strict, run);
      SameTogether(s, s1);
      var more := Gather(s1, strict, n + 1);
      RunOn(s, strict, run, more);
      run := run + more;
    }
  }

  /** The run brings every thread into its first command. */
  predicate Overlap(s: Sys, strict: bool, run: seq<nat>) {
    IsRun(s, strict, run) && AllRunning(s, Final(s, strict, run))
  }

  /** Exactly the commands whose classes agree can run at the same time: from idle threads some run reaches a
      state in which every thread runs its first command if and only if each exclusive one meets only
      high-priority ones and no orthogonal one is repeated. */
  lemma TogetherIff(s: Sys, strict: bool)
    requires Begin(s)
    ensures (exists run :: Overlap(s, strict, run)) <==> Together(s)
  {
    hide Begin, Overlap, Together;
    if Together(s) {
      var run := TogetherOverlap(s, strict);
    }
    if run :| Overlap(s, strict, run) {
      OverlapIsAllowed(s, strict, run);
    }
  }

  lemma TogetherOverlap(s: Sys, strict: bool) returns (run: seq<nat>)
    requires Begin(s) && Together(s)
    ensures Overlap(s, strict, run)
  {
    BeginInv(s);
    hide IsRun, Final, Inv, Together;
    run := Gather(s, strict, 0);
    var f := Final(s, strict, run);
    assert forall t: nat :: Busy(s, t) ==> Busy(f, t);
  }

  lemma OverlapIsAllowed(s: Sys, strict: bool, run: seq<nat>)
    requires Begin(s) && Overlap(s, strict, run)
    ensures Together(s)
  {
    var f := Final(s, strict, run);
    forall t, u | 0 <= t < |s.threads| && 0 <= u < |s.threads| && t != u && Busy(s, t) && Busy(s, u)
      ensures Type(s, t) == Exclusive ==> Type(s, u) == HighPriority
      ensures Type(s, t) == Orthogonal ==> Cmd(s, t) != Cmd(s, u)
    {
      assert Running(f, t) && Running(f, u);
      RunsAreSafe(s, strict, run, t, u);
    }
  }

  // ---- every command runs once ----------------------------------------------------------------------

  /** The commands that thread `t` begins to run, in order. */
  function Begun(s: Sys, strict: bool, run: seq<nat>, t: nat): seq<nat>
    requires IsRun(s, strict, run)
    decreases |run|
  {
    if run == [] then [] else
      var s1 := Step(s, run[0]);
      (if run[0] == t && Running(s1, t) then [Cmd(s1, t)] else []) + Begun(s1, strict, run[1..], t)
  }

  /** The commands that the thread has not begun to run. */
  function Ahead(th: Thread): seq<nat> {
    if th.prog == [] || th.stage == Start || th.stage == NeedMutex then th.prog else th.prog[1..]
  }

  /** The stages that follow each other. */
  predicate Follows(a: Thread, b: Thread) {
    if b.stage == Start then a.prog != [] && b.prog == a.prog[1..] && (a.stage == Body || a.stage == NeedUnlock)
    else
      && b.prog == a.prog
      && (b.stage == NeedMutex ==> a.stage == Start)
      && (b.stage == Body ==> a.stage == Start || a.stage == NeedMutex)
      && (b.stage == NeedUnlock ==> a.stage == Body)
  }

  lemma StepFollows(s: Sys, t: nat)
    requires Busy(s, t)
    ensures t < |Step(s, t).threads| && Follows(s.threads[t], Step(s, t).threads[t])
    ensures Running(Step(s, t), t) <==> Step(s, t).threads[t].stage == Body
  {
  }

  lemma AheadFollows(a: Thread, b: Thread)
    requires Follows(a, b) && a.prog != []
    ensures b.stage == Body ==> b.prog != []
    ensures Ahead(a) == (if b.stage == Body then [b.prog[0]] else []) + Ahead(b)
  {
    assert a.prog == [a.prog[0]] + a.prog[1..];
    assert [] + Ahead(b) == Ahead(b);
  }

  lemma StepAhead(s: Sys, t: nat, u: nat)
    requires Busy(s, u) && t < |s.threads|
    ensures var s1 := Step(s, u);
            && t < |s1.threads|
            && Ahead(s.threads[t]) == (if u == t && Running(s1, t) then [Cmd(s1, t)] else []) + Ahead(s1.threads[t])
  {
    Others(s, u);
    hide Step, Ahead;
    if t == u {
      StepFollows(s, t);
      AheadFollows(s.threads[t], Step(s, t).threads[t]);
    } else {
      assert [] + Ahead(s.threads[t]) == Ahead(s.threads[t]);
    }
  }

  lemma {:induction false} BegunAndAhead(s: Sys, strict: bool, run: seq<nat>, t: nat)
    requires IsRun(s, strict, run) && t < |s.threads|
    ensures var f := Final(s, strict, run);
            t < |f.threads| && Ahead(s.threads[t]) == Begun(s, strict, run, t) + Ahead(f.threads[t])
    decreases |run|
  {
    hide Step, Ahead, Cmd;
    if run == [] {
      assert [] + Ahead(s.threads[t]) == Ahead(s.threads[t]);
    } else {
      var s1 := Step(s, run[0]);
      StepAhead(s, t, run[0]);
      BegunAndAhead(s1, strict, run[1..], t);
      Regrouped(if run[0] == t && Running(s1, t) then [Cmd(s1, t)] else [], Begun(s1, strict, run[1..], t),
                Ahead(Final(s1, strict, run[1..]).threads[t]));
    }
  }

  lemma Regrouped(a: seq<nat>, b: seq<nat>, c: seq<nat>)
    ensures a + (b + c) == (a + b) + c
  {
  }

  /** Conservation: in every run each thread has begun its commands in their order, none twice and none left out;
      when all is finished it has begun exactly its program. */
  lemma EachRunsOnce(s: Sys, strict: bool, run: seq<nat>, t: nat)
    requires Begin(s) && IsRun(s, strict, run) && t < |s.threads|
    ensures var f := Final(s, strict, run);
            && t < |f.threads|
            && s.threads[t].prog == Begun(s, strict, run, t) + Ahead(f.threads[t])
            && (Finished(f) ==> Begun(s, strict, run, t) == s.threads[t].prog)
  {
    BegunAndAhead(s, strict, run, t);
    hide IsRun, Begun;
    var f := Final(s, strict, run);
    if Finished(f) {
      assert Ahead(f.threads[t]) == [];
      assert Begun(s, strict, run, t) + [] == Begun(s, strict, run, t);
    }
  }

  // ---- the daemon's table ---------------------------------------------------------------------------

  /** Two threads of the daemon, each with one command. */
  function Pair(c: nat, d: nat): Sys {
    Sys(COMMANDS, [Thread([c], Start), Thread([d], Start)], None, {}, map[])
  }

  /** The daemon's own table: two commands can run at the same time unless one is `shutdown-agent` (3) and the
      other neither `help` (0) nor `fatal-agent` (4), or both are the same and not `help`, `fatal-agent` or
      `read-config` (7). */
  lemma PairsTogether(c: nat, d: nat, strict: bool)
    requires c < 16 && d < 16
    ensures (exists run :: Overlap(Pair(c, d), strict, run))
            <==> (c == 3 ==> d == 0 || d == 4) && (d == 3 ==> c == 0 || c == 4) && (c == d ==> c == 0 || c == 4 || c == 7)
  {
    var s := Pair(c, d);
    TogetherIff(s, strict);
    ClassesOf(c);
    ClassesOf(d);
    hide Overlap;
    assert Busy(s, 0) && Busy(s, 1) && Cmd(s, 0) == c && Cmd(s, 1) == d;
    assert Type(s, 0) == COMMANDS[c] && Type(s, 1) == COMMANDS[d];
  }

  lemma ClassesOf(c: nat)
    requires c < 16
    ensures |COMMANDS| == 16
    ensures COMMANDS[c] == if c == 0 || c == 4 then HighPriority
                           else if c == 3 then Exclusive
                           else if c == 7 then Concurrent
                           else Orthogonal
  {
  }
}
