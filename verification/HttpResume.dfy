/** Resuming the parser: a stream delivered in pieces ends like the stream delivered at once, as long
    as no piece ends at a critical cut. */
module HttpResume {
  import opened Basics
  import opened Text
  import opened RingBuffer
  import opened HttpParser
  import opened HttpFragmentation

  function Concat(pieces: seq<string>): string {
    if pieces == [] then "" else pieces[0] + Concat(pieces[1..])
  }

  /** `read_parse_response`: append an arrival, call the parser, go on while it asks for more. What has
      not arrived when the parser stops counts as unread. */
  function Feed(env: Env, s: Ctx, b: string, pieces: seq<string>): Outcome
    requires Valid(s)
    decreases |pieces|
  {
    if pieces == [] then Outcome(NeedMore, s, b)
    else
      var o := Run(env, s, b + pieces[0]);
      if o.verdict == NeedMore then Feed(env, o.ctx, o.unread, pieces[1..])
      else Outcome(o.verdict, o.ctx, o.unread + Concat(pieces[1..]))
  }

  /** No boundary between arrivals is a critical cut of t; `at` bytes have arrived already. */
  predicate NoCriticalCut(env: Env, s: Ctx, t: string, at: nat, pieces: seq<string>)
    requires Valid(s)
    decreases |pieces|
  {
    pieces == [] ||
    (!CriticalCut(env, s, t, at + |pieces[0]|) && NoCriticalCut(env, s, t, at + |pieces[0]|, pieces[1..]))
  }

  /** Every line end the run reads is a whole CRLF and no line holds a bare CR (section 2.2 of RFC 9112). */
  predicate CleanHere(s: Ctx, t: string) {
    var idx := FindBytes(t, CRLF);
    LineSearch(s) && idx < |t| ==> idx + 1 < |t| && '\r' !in t[..idx]
  }

  predicate CleanLines(env: Env, s: Ctx, t: string)
    requires Valid(s)
    decreases |t|, Rank(s)
  {
    && CleanHere(s, t)
    && match Step(env, s, t)
       case Stop(_, _, _) => true
       case Go(s', t') => CleanLines(env, s', t')
  }

  /** Equal verdicts, and equal contexts and unread bytes unless the parser failed. */
  ghost predicate Same(o: Outcome, w: Outcome) {
    o.verdict == w.verdict && (o.verdict == NeedMore || o.verdict == Success ==> o == w)
  }

  lemma StepOn(env: Env, s: Ctx, t: string, s': Ctx, t': string)
    requires Valid(s) && Valid(s') && Step(env, s, t) == Go(s', t')
    ensures Run(env, s, t) == Run(env, s', t')
    ensures CleanHere(s, t) ==> (CleanLines(env, s, t) <==> CleanLines(env, s', t'))
  {
    hide Step;
  }

  // ---- a single call and what follows it --------------------------------------------------------

  /** Once a line end has been acted on, later cuts are not critical for that line. */
  lemma NoLaterCritical(env: Env, s: Ctx, b: string, c: string, k: nat)
    requires Valid(s) && c != "" && k >= |b|
    requires !CriticalHere(s, b + c, |b|)
    requires Step(env, s, b).Go? || Step(env, s, b).verdict == Success
    ensures !CriticalHere(s, b + c, k)
  {
    var t := b + c;
    assert t[..|b|] == b;
    if LineSearch(s) && |b| < k < |t| {
      var m := c[..k - |b|];
      assert t[..k] == b + m;
      assert m[0] == c[0] == t[|b|];
      FindCrlfGrown(b, m);
      assert FindBytes(b, CRLF) < |b|;
    }
  }

  /** What a call on `b` has to do with a call on `b + c`. */
  ghost predicate Resumes(env: Env, s: Ctx, b: string, c: string, k: nat)
    requires Valid(s)
  {
    var o := Run(env, s, b);
    var w := Run(env, s, b + c);
    match o.verdict
    case NeedMore =>
      && |o.unread| <= |b|
      && Run(env, o.ctx, o.unread) == o
      && Run(env, o.ctx, o.unread + c) == w
      && Separated(env, o.ctx, o.unread + c)
      && (CleanLines(env, s, b + c) ==> CleanLines(env, o.ctx, o.unread + c))
      && (k >= |b| ==> (CriticalCut(env, o.ctx, o.unread + c, k - |b| + |o.unread|) <==> CriticalCut(env, s, b + c, k)))
    case Success => w == Outcome(Success, o.ctx, o.unread + c) && (k >= |b| ==> !CriticalCut(env, s, b + c, k))
    case Failed => w.verdict == Failed
    case Overrun => false
  }

  lemma ResumesInData(env: Env, s: Ctx, b: string, c: string, k: nat)
    requires Valid(s) && InData(s) && 0 < |b| < Owed(s) && c != ""
    requires Separated(env, s, b + c)
    ensures Resumes(env, s, b, c, k)
  {
    var s1 := s.(body := s.body + b, chunkGot := s.chunkGot + |b|);
    DataSplits(env, s, b, c);
    assert Step(env, s1, "") == Stop(NeedMore, s1, "");
    hide Step, FindBytes;
    assert "" + c == c;
    assert Run(env, s, b) == Outcome(NeedMore, s1, "");
    match Step(env, s, b + c)
    case Stop(_, _, _) =>
    case Go(s2, t2) =>
  }

  lemma ResumesStop(env: Env, s: Ctx, b: string, c: string, k: nat)
    requires Valid(s) && c != ""
    requires Step(env, s, b).Stop? && Extends(Step(env, s, b), Step(env, s, b + c), c)
    requires !CriticalHere(s, b + c, |b|) && Separated(env, s, b + c)
    ensures Resumes(env, s, b, c, k)
  {
    hide Step, CriticalHere;
    if Step(env, s, b).verdict == Success && k >= |b| {
      NoLaterCritical(env, s, b, c, k);
    }
  }

  lemma ResumesGo(env: Env, s: Ctx, b: string, c: string, k: nat, s': Ctx, b': string)
    requires Valid(s) && c != "" && Valid(s')
    requires Step(env, s, b) == Go(s', b') && Step(env, s, b + c) == Go(s', b' + c)
    requires !CriticalHere(s, b + c, |b|)
    requires |b'| <= |b| && Resumes(env, s', b', c, if k >= |b| - |b'| then k - (|b| - |b'|) else 0)
    ensures Resumes(env, s, b, c, k)
  {
    hide Step, CriticalHere, CriticalCut, Separated, CleanHere;
    assert Run(env, s, b) == Run(env, s', b');
    assert Run(env, s, b + c) == Run(env, s', b' + c);
    assert CleanLines(env, s, b + c) ==> CleanLines(env, s', b' + c);
    hide Run, CleanLines;
    if k >= |b| {
      NoLaterCritical(env, s, b, c, k);
      CriticalCutAfter(env, s, b, c, k, s', b');
    }
  }

  lemma CriticalCutAfter(env: Env, s: Ctx, b: string, c: string, k: nat, s': Ctx, b': string)
    requires Valid(s) && Valid(s') && |b'| <= |b| <= k
    requires Step(env, s, b + c) == Go(s', b' + c)
    requires !CriticalHere(s, b + c, k)
    ensures CriticalCut(env, s, b + c, k) <==> CriticalCut(env, s', b' + c, k - (|b| - |b'|))
  {
    hide Step, CriticalHere;
    assert |b + c| - |b' + c| == |b| - |b'|;
    if k == |b| - |b'| {
      CutIsPositive(env, s', b' + c);
    }
  }

  /** The conditions of the simulation hold again behind a step. */
  lemma NextConditions(env: Env, s: Ctx, b: string, c: string, s': Ctx, b': string)
    requires Valid(s) && Valid(s') && |b'| <= |b| && Step(env, s, b + c) == Go(s', b' + c)
    requires !CriticalCut(env, s, b + c, |b|) && Separated(env, s, b + c)
    ensures !CriticalCut(env, s', b' + c, |b'|) && Separated(env, s', b' + c)
  {
    hide Step, CriticalHere, SeparatedHere;
    assert |b + c| - |b' + c| == |b| - |b'|;
    if |b'| == 0 && CriticalCut(env, s', b' + c, 0) {
      CutIsPositive(env, s', b' + c);
    }
  }

  lemma {:induction false} CutIsPositive(env: Env, s: Ctx, t: string)
    requires Valid(s)
    ensures !CriticalCut(env, s, t, 0)
  {
    hide Step;
  }

  lemma {:induction false} ResumeRoomy(env: Env, s: Ctx, b: string, c: string, k: nat)
    requires Valid(s) && env.capacity == None && c != ""
    requires !CriticalCut(env, s, b + c, |b|) && Separated(env, s, b + c)
    ensures Resumes(env, s, b, c, k)
    decreases |b|, Rank(s)
  {
    hide Step, Run, CriticalHere, SeparatedHere, CleanLines, Resumes, CriticalCut, Separated;
    if InData(s) && 0 < |b| < Owed(s) {
      ResumesInData(env, s, b, c, k);
    } else {
      FirstConditions(env, s, b + c, |b|);
      StepExtends(env, s, b, c);
      match Step(env, s, b)
      case Stop(v, s', b') => ResumesStop(env, s, b, c, k);
      case Go(s', b') =>
        var used := |b| - |b'|;
        NextConditions(env, s, b, c, s', b');
        ResumeRoomy(env, s', b', c, if k >= used then k - used else 0);
        ResumesGo(env, s, b, c, k, s', b');
    }
  }

  lemma FirstConditions(env: Env, s: Ctx, t: string, k: nat)
    requires Valid(s) && !CriticalCut(env, s, t, k) && Separated(env, s, t)
    ensures !CriticalHere(s, t, k) && SeparatedHere(s, t)
  {
    hide Step, CriticalHere, SeparatedHere;
  }

  // ---- many calls -------------------------------------------------------------------------------

  lemma {:induction false} FeedNothing(env: Env, s: Ctx, b: string, pieces: seq<string>)
    requires Valid(s) && Concat(pieces) == ""
    requires Run(env, s, b) == Outcome(NeedMore, s, b)
    ensures Feed(env, s, b, pieces) == Outcome(NeedMore, s, b)
    decreases |pieces|
  {
    if pieces != [] {
      assert b + pieces[0] == b;
      FeedNothing(env, s, b, pieces[1..]);
    }
  }

  lemma {:induction false} RunRests(env: Env, s: Ctx, b: string)
    requires Valid(s)
    ensures var o := Run(env, s, b); o.verdict == NeedMore ==> Run(env, o.ctx, o.unread) == o
    decreases |b|, Rank(s)
  {
    match Step(env, s, b)
    case Stop(_, _, _) =>
    case Go(s', b') => RunRests(env, s', b');
  }

  lemma {:induction false} UnreadBound(env: Env, s: Ctx, b: string)
    requires Valid(s)
    ensures Run(env, s, b).verdict == NeedMore ==> |Run(env, s, b).unread| <= |b|
    decreases |b|, Rank(s)
  {
    match Step(env, s, b)
    case Stop(_, _, _) =>
    case Go(s', b') => UnreadBound(env, s', b');
  }

  lemma {:induction false} CutsTransfer(env: Env, s: Ctx, t: string, s': Ctx, t': string, d: nat, at: nat, pieces: seq<string>)
    requires Valid(s) && Valid(s') && d <= at
    requires forall k :: k >= at ==> (CriticalCut(env, s', t', k - d) <==> CriticalCut(env, s, t, k))
    ensures NoCriticalCut(env, s', t', at - d, pieces) <==> NoCriticalCut(env, s, t, at, pieces)
    decreases |pieces|
  {
    hide CriticalCut, Valid;
    if pieces != [] {
      CutsTransfer(env, s, t, s', t', d, at + |pieces[0]|, pieces[1..]);
    }
  }

  lemma ResumeCut(env: Env, s: Ctx, b: string, c: string, k: nat)
    requires Valid(s) && env.capacity == None && c != "" && k >= |b|
    requires !CriticalCut(env, s, b + c, |b|) && Separated(env, s, b + c)
    requires Run(env, s, b).verdict == NeedMore
    ensures |Run(env, s, b).unread| <= |b|
    ensures var o := Run(env, s, b);
            CriticalCut(env, o.ctx, o.unread + c, k - (|b| - |o.unread|)) <==> CriticalCut(env, s, b + c, k)
  {
    hide Step, CriticalCut, CleanLines, Separated, Run;
    ResumeRoomy(env, s, b, c, k);
    var o := Run(env, s, b);
    assert k - (|b| - |o.unread|) == k - |b| + |o.unread|;
  }

  /** The continuation of a call that asked for more data faces the same cuts as before. */
  lemma ResumeCuts(env: Env, s: Ctx, b: string, c: string, pieces: seq<string>)
    requires Valid(s) && env.capacity == None && c != ""
    requires !CriticalCut(env, s, b + c, |b|) && Separated(env, s, b + c)
    ensures Resumes(env, s, b, c, |b|)
    ensures var o := Run(env, s, b); o.verdict == NeedMore ==>
            (NoCriticalCut(env, o.ctx, o.unread + c, |o.unread|, pieces) <==> NoCriticalCut(env, s, b + c, |b|, pieces))
  {
    hide Step, CriticalCut, CleanLines, Separated, Run;
    ResumeRoomy(env, s, b, c, |b|);
    var o := Run(env, s, b);
    if o.verdict == NeedMore {
      var (d, t, t') := (|b| - |o.unread|, b + c, o.unread + c);
      forall k | k >= |b|
        ensures CriticalCut(env, o.ctx, t', k - d) <==> CriticalCut(env, s, t, k)
      {
        ResumeCut(env, s, b, c, k);
      }
      CutsTransfer(env, s, t, o.ctx, t', d, |b|, pieces);
    }
  }

  /** With room for the whole stream: delivered without a critical cut, it ends as in one call. */
  lemma {:induction false} FeedMatchesRoomy(env: Env, s: Ctx, b: string, pieces: seq<string>)
    requires Valid(s) && env.capacity == None
    requires Separated(env, s, b + Concat(pieces))
    requires pieces != [] || Run(env, s, b) == Outcome(NeedMore, s, b)
    requires NoCriticalCut(env, s, b + Concat(pieces), |b|, pieces)
    ensures Same(Feed(env, s, b, pieces), Run(env, s, b + Concat(pieces)))
    decreases |pieces|
  {
    hide Step, CriticalCut, CleanLines, Separated, Run;
    if pieces == [] {
      assert b + "" == b;
      return;
    }
    var (bb, ps) := (b + pieces[0], pieces[1..]);
    var c := Concat(ps);
    assert b + Concat(pieces) == bb + c;
    var o := Run(env, s, bb);
    RunRests(env, s, bb);
    if c == "" {
      assert bb + c == bb && o.unread + c == o.unread;
      if o.verdict == NeedMore {
        FeedNothing(env, o.ctx, o.unread, ps);
      }
    } else {
      ResumeCuts(env, s, bb, c, ps);
      if o.verdict == NeedMore {
        FeedMatchesRoomy(env, o.ctx, o.unread, ps);
      }
    }
  }

  // ---- a buffer smaller than the stream ---------------------------------------------------------

  /** The most the buffer ever holds: what was left unread plus what arrived, at each call. */
  function Peak(env: Env, s: Ctx, b: string, pieces: seq<string>): nat
    requires Valid(s)
    decreases |pieces|
  {
    if pieces == [] then 0
    else
      var n := |b + pieces[0]|;
      var o := Run(env, s, b + pieces[0]);
      var later := if o.verdict == NeedMore then Peak(env, o.ctx, o.unread, pieces[1..]) else 0;
      if later > n then later else n
  }

  lemma StepRoomy(env: Env, s: Ctx, b: string)
    requires Valid(s) && Below(env, |b|)
    ensures Step(env, s, b) == Step(Roomy(env), s, b)
  {
    hide StatusStep, HeaderStep, FindBytes, Strtol16;
  }

  /** A call that does not find the buffer full does not depend on its capacity. */
  lemma {:induction false} RunRoomy(env: Env, s: Ctx, b: string)
    requires Valid(s) && Below(env, |b|)
    ensures Run(env, s, b) == Run(Roomy(env), s, b)
    decreases |b|, Rank(s)
  {
    StepRoomy(env, s, b);
    hide Step;
    match Step(env, s, b)
    case Stop(_, _, _) =>
    case Go(s', b') => RunRoomy(env, s', b');
  }

  /** The simulation: a call on `b` that finds room and is not cut critically is the beginning of the call on
      `b + c`, however long `c` is. */
  lemma Resume(env: Env, s: Ctx, b: string, c: string, k: nat)
    requires Valid(s) && Below(env, |b|) && c != ""
    requires !CriticalCut(Roomy(env), s, b + c, |b|) && Separated(Roomy(env), s, b + c)
    ensures Run(env, s, b) == Run(Roomy(env), s, b)
    ensures Resumes(Roomy(env), s, b, c, k)
  {
    hide Run, CriticalCut, Separated, Resumes;
    RunRoomy(env, s, b);
    ResumeRoomy(Roomy(env), s, b, c, k);
  }

  lemma {:induction false} FeedRoomy(env: Env, s: Ctx, b: string, pieces: seq<string>)
    requires Valid(s) && Below(env, Peak(env, s, b, pieces))
    ensures Feed(env, s, b, pieces) == Feed(Roomy(env), s, b, pieces)
    decreases |pieces|
  {
    if pieces != [] {
      hide Run;
      RunRoomy(env, s, b + pieces[0]);
      var o := Run(env, s, b + pieces[0]);
      if o.verdict == NeedMore {
        FeedRoomy(env, o.ctx, o.unread, pieces[1..]);
      }
    }
  }

  /** Fragmentation independence: as long as the buffer never fills up, a stream of any length delivered
      without a critical cut gets the verdict, and on success or shortage the context and unread bytes,
      of one call on the whole stream. */
  lemma FeedMatchesRun(env: Env, s: Ctx, b: string, pieces: seq<string>)
    requires Valid(s) && Below(env, |b|) && Below(env, Peak(env, s, b, pieces))
    requires Separated(Roomy(env), s, b + Concat(pieces))
    requires pieces != [] || Run(env, s, b) == Outcome(NeedMore, s, b)
    requires NoCriticalCut(Roomy(env), s, b + Concat(pieces), |b|, pieces)
    ensures Same(Feed(env, s, b, pieces), Run(Roomy(env), s, b + Concat(pieces)))
  {
    hide Run, Separated, NoCriticalCut, Feed, Peak;
    FeedRoomy(env, s, b, pieces);
    RunRoomy(env, s, b);
    FeedMatchesRoomy(Roomy(env), s, b, pieces);
  }
}
