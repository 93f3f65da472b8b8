/** The exact condition for fragmentation independence: on accepted messages, a critical cut always
    changes the outcome. */
module HttpCriticalCuts {
  import opened Basics
  import opened Text
  import opened RingBuffer
  import opened HttpParser
  import opened HttpFragmentation
  import opened HttpResume

  // ---- facts about runs -------------------------------------------------------------------------

  /** A run that is not rejected found a separator inside every header line. */
  lemma {:induction false} AcceptedIsSeparated(env: Env, s: Ctx, t: string)
    requires Valid(s)
    requires Run(env, s, t).verdict == Success || Run(env, s, t).verdict == NeedMore
    ensures Separated(env, s, t)
    decreases |t|, Rank(s)
  {
    assert SeparatedHere(s, t);
    hide StatusStep, ContentStep, HeaderStep;
    match Step(env, s, t)
    case Stop(_, _, _) =>
    case Go(s', t') => AcceptedIsSeparated(env, s', t');
  }

  /** Success consumes the line end of a header section or of a chunked body. */
  lemma {:induction false} SuccessConsumes(env: Env, s: Ctx, t: string)
    requires Valid(s) && Run(env, s, t).verdict == Success
    ensures |Run(env, s, t).unread| <= |t|
    ensures CleanLines(env, s, t) && s.state != Content ==> |Run(env, s, t).unread| + 2 <= |t|
    ensures s.state == Content && s.contentLength == CHUNKED ==> |Run(env, s, t).unread| + 2 <= |t|
    decreases |t|, Rank(s)
  {
    match Step(env, s, t)
    case Stop(_, _, _) => StopConsumes(env, s, t);
    case Go(s', t') =>
      SuccessConsumes(env, s', t');
      GoConsumes(env, s, t);
  }

  lemma StopConsumes(env: Env, s: Ctx, t: string)
    requires Valid(s) && Step(env, s, t).Stop? && Step(env, s, t).verdict == Success
    ensures s.state == Content
    ensures |Step(env, s, t).buf| + (if s.contentLength == CHUNKED then 2 else 0) <= |t|
  {
  }

  lemma GoConsumes(env: Env, s: Ctx, t: string)
    requires Valid(s) && Step(env, s, t).Go?
    ensures var r := Step(env, s, t);
            && |r.buf| <= |t|
            && (s.state == Content ==> r.ctx.state == Content && s.contentLength == CHUNKED == r.ctx.contentLength)
            && (s.state != Content && r.ctx.state == Content && CleanHere(s, t) ==> |r.buf| + 2 <= |t|)
  {
    if s.state == Headers {
      hide ParseHdr;
    }
  }

  // ---- runs in the content phase ----------------------------------------------------------------

  lemma {:induction false} ContentSeparated(env: Env, s: Ctx, t: string)
    requires Valid(s) && s.state == Content
    ensures Separated(env, s, t)
    decreases |t|, Rank(s)
  {
    if Step(env, s, t).Go? {
      GoConsumes(env, s, t);
      hide Step;
      ContentSeparated(env, Step(env, s, t).ctx, Step(env, s, t).buf);
    }
  }

  /** A step that searches no line end and returns has no critical cut. */
  lemma {:induction false} NoCutsWithoutSearch(env: Env, s: Ctx, t: string, at: nat, pieces: seq<string>)
    requires Valid(s) && Step(env, s, t).Stop? && !LineSearch(s)
    ensures NoCriticalCut(env, s, t, at, pieces)
    decreases |pieces|
  {
    hide Step;
    if pieces != [] {
      NoCutsWithoutSearch(env, s, t, at + |pieces[0]|, pieces[1..]);
    }
  }

  /** What the reader sees when the call on `b` is followed by the arrivals `pieces`. */
  function Continue(env: Env, s: Ctx, b: string, pieces: seq<string>): Outcome
    requires Valid(s)
  {
    var o := Run(env, s, b);
    if o.verdict == NeedMore then Feed(env, o.ctx, o.unread, pieces)
    else Outcome(o.verdict, o.ctx, o.unread + Concat(pieces))
  }

  /** A header section ended by half a line end: the CR is still unread when the content begins. */
  lemma BrokenContent(env: Env, s: Ctx, c: string, pieces: seq<string>)
    requires Valid(s) && s.state == Content && s.chunkState == ChunkSize
    requires c == Concat(pieces) && c != "" && c[0] == '\n' && env.capacity == None
    ensures var f := Continue(env, s, "\r", pieces);
            f.verdict == Success ==> |f.unread| >= if s.contentLength == CHUNKED then |c| - 1 else |c| + 1
  {
    var x := "\r" + c;
    if s.contentLength == CHUNKED {
      var s3 := s.(chunkState := FinalCrlf);
      assert FindBytes("\r", CRLF) == 0;
      assert Step(env, s, "\r") == Go(s3, "\r");
      assert Run(env, s, "\r") == Outcome(NeedMore, s3, "\r");
      assert x[..2] == CRLF && x[2..] == c[1..];
      assert Step(env, s3, x) == Stop(Success, s3.(bodySize := s3.bodySize + 1), c[1..]);
      ContentSeparated(env, s3, x);
      NoCutsWithoutSearch(env, s3, x, 1, pieces);
      FeedMatchesRoomy(env, s3, "\r", pieces);
    } else {
      var o := Run(env, s, "\r");
      if o.verdict == NeedMore {
        ContentSeparated(env, s, x);
        NoCutsWithoutSearch(env, s, x, 1, pieces);
        FeedMatchesRoomy(env, s, "\r", pieces);
      }
    }
  }

  // ---- the three kinds of critical cut ----------------------------------------------------------

  /** On a clean message a critical cut lies between the CR and the LF of the line being read. */
  lemma CriticalIsHalfLineEnd(s: Ctx, b: string, c: string)
    requires CriticalHere(s, b + c, |b|) && CleanHere(s, b + c)
    requires FindBytes(b + c, CRLF) < |b + c|
    ensures b != "" && b[|b| - 1] == '\r' && c != "" && c[0] == '\n'
    ensures FindBytes(b, CRLF) == FindBytes(b + c, CRLF) == |b| - 1
  {
    var t := b + c;
    assert t[..|b|] == b;
    FindCrlf(b);
    FindCrlfGrown(b, c);
    var j := FindBytes(t, CRLF);
    assert forall i :: 0 <= i < j ==> t[..j][i] == t[i];
  }

  /** In the header section, a call that sees half a line end fails or enters the content with the CR
      still unread. */
  lemma BrokenHeader(env: Env, s: Ctx, b: string) returns (s2: Ctx)
    requires Valid(s) && s.state == Headers
    requires b != "" && FindBytes(b, CRLF) == |b| - 1 && b[|b| - 1] == '\r'
    ensures Valid(s2) && s2.state == Content && s2.chunkState == ChunkSize
    ensures ParseHdr(s, b).HdrOk? ==> s2.contentLength == ParseHdr(s, b).ctx.contentLength
    ensures |b| == 1 ==> s2.contentLength == s.contentLength
    ensures Run(env, s, b) == Run(env, s2, "\r") || Run(env, s, b).verdict == Failed || Run(env, s, b).verdict == Overrun
  {
    s2 := s.(state := Content);
    assert FindBytes("\r", CRLF) == 0;
    if |b| == 1 {
      assert b == "\r";
      assert Step(env, s, b) == Go(s2, "\r");
    } else {
      match ParseHdr(s, b)
      case HdrFailed =>
      case HdrOverrun =>
      case HdrOk(s1, rest) =>
        s2 := s1.(state := Content);
        assert rest == "\r";
        if !Trips(env, b) {
          assert Step(env, s, b) == Go(s1, "\r");
          assert Step(env, s1, "\r") == Go(s2, "\r");
        }
    }
  }

  /** A cut inside the end of a header line, or of the blank line after the headers. */
  lemma HeaderCutDiffers(env: Env, s: Ctx, b: string, c: string, pieces: seq<string>)
    requires Valid(s) && s.state == Headers && env.capacity == None
    requires c == Concat(pieces)
    requires Run(env, s, b + c).verdict == Success && CleanLines(env, s, b + c)
    requires CriticalHere(s, b + c, |b|)
    ensures Continue(env, s, b, pieces) != Run(env, s, b + c)
  {
    var t := b + c;
    CriticalIsHalfLineEnd(s, b, c);
    var s2 := BrokenHeader(env, s, b);
    BrokenContent(env, s2, c, pieces);
    SuccessConsumes(env, s, t);
    HeaderCutRest(env, s, b, c);
    var r := Step(env, s, t);
    assert CleanLines(env, r.ctx, r.buf);
    SuccessConsumes(env, r.ctx, r.buf);
  }

  /** The whole message goes on right after the line end that the cut falls into. */
  lemma HeaderCutRest(env: Env, s: Ctx, b: string, c: string)
    requires Valid(s) && s.state == Headers
    requires b != "" && c != "" && c[0] == '\n' && b[|b| - 1] == '\r'
    requires FindBytes(b, CRLF) == FindBytes(b + c, CRLF) == |b| - 1
    requires Run(env, s, b + c).verdict == Success
    ensures Step(env, s, b + c).Go? && Step(env, s, b + c).buf == c[1..]
    ensures |b| == 1 ==> Step(env, s, b + c).ctx == s.(state := Content)
    ensures |b| > 1 ==> Step(env, s, b + c).ctx.state == Headers
    ensures |b| > 1 && ParseHdr(s, b).HdrOk? ==> Step(env, s, b + c).ctx == ParseHdr(s, b).ctx
  {
    var t := b + c;
    hide FindBytes, ParseHdr, AfterLine, StatusStep, ContentStep;
    AcceptedIsSeparated(env, s, t);
    assert SeparatedHere(s, t) && Step(env, s, t).Go?;
    hide Run, Separated;
    CrFirst(c);
    if |b| > 1 {
      ParseHdrExtends(s, b, c);
      assert b[|b| - 1..] + c == "\r" + c;
    } else {
      assert t[2..] == c[1..];
    }
  }

  lemma CrFirst(c: string)
    requires c != "" && c[0] == '\n'
    ensures FindBytes("\r" + c, CRLF) == 0 && AfterLine("\r" + c) == c[1..]
  {
  }

  lemma StatusReadIs(s: Ctx, u: string)
    requires Valid(s) && (s.state == Initial || s.state == ProxyConnect)
    ensures StatusRead(s, u).Go? <==> StatusCode(u).Some?
    ensures StatusCode(u).Some? ==>
      StatusRead(s, u) == Go(s.(httpCode := StatusCode(u).value, state := Headers), AfterLine(u[4..]))
  {
    hide StatusCode, AfterLine;
  }

  /** A status line that is accepted ends behind its code. */
  lemma StatusLineEnd(s: Ctx, t: string)
    requires Valid(s) && (s.state == Initial || s.state == ProxyConnect)
    requires StatusStep(s, t).Go?
    ensures 13 <= FindBytes(t, CRLF) < |t| && ProtoOk(s, t) && StatusCode(t[9..]).Some?
    ensures StatusStep(s, t) == StatusRead(s, t[9..])
  {
    hide FindBytes, ProtoOk, StatusCode, StatusRead;
    LineEndInsideProto(s, t);
    FindCrlf(t);
    assert StatusStep(s, t) == StatusRead(s, t[9..]);
    hide StatusStep;
    StatusReadIs(s, t[9..]);
    StatusCodeGrown(t[9..], "", FindBytes(t, CRLF) - 9);
  }

  lemma StatusLineBuf(s: Ctx, t: string)
    requires Valid(s) && (s.state == Initial || s.state == ProxyConnect)
    requires StatusStep(s, t).Go?
    ensures 13 <= FindBytes(t, CRLF) < |t|
    ensures StatusStep(s, t).buf == BumpTail(t[13..], FindBytes(t, CRLF) - 13 + 2)
  {
    hide FindBytes, StatusStep, StatusRead, StatusCode, ProtoOk;
    StatusLineEnd(s, t);
    StatusReadIs(s, t[9..]);
    FindCrlfSuffix(t, 13);
    assert t[9..][4..] == t[13..];
  }

  lemma ProtoShrunk(s: Ctx, b: string, c: string)
    ensures ProtoOk(s, b + c) ==> ProtoOk(s, b)
  {
    assert forall i :: 0 <= i < |b| ==> (b + c)[i] == b[i];
  }

  /** With the whole line end the status line is consumed. */
  lemma StatusCutWhole(s: Ctx, b: string, c: string)
    requires Valid(s) && (s.state == Initial || s.state == ProxyConnect)
    requires b != "" && c != "" && FindBytes(b + c, CRLF) == |b| - 1 && StatusStep(s, b + c).Go?
    ensures |b| > 13 && StatusStep(s, b + c) == Go(s.(httpCode := StatusCode((b + c)[9..]).value, state := Headers), c[1..])
  {
    var t := b + c;
    StatusLineEnd(s, t);
    StatusLineBuf(s, t);
    hide FindBytes, StatusStep, StatusRead, StatusCode, ProtoOk;
    StatusReadIs(s, t[9..]);
    assert t[13..][|b| - 12..] == c[1..];
  }

  /** With half a line end the status line is read, but stays in the buffer as if it were a header. */
  lemma StatusCutHalf(s: Ctx, b: string)
    requires Valid(s) && (s.state == Initial || s.state == ProxyConnect)
    requires |b| > 13 && FindBytes(b, CRLF) == |b| - 1 && ProtoOk(s, b) && StatusCode(b[9..]).Some?
    ensures StatusStep(s, b) == Go(s.(httpCode := StatusCode(b[9..]).value, state := Headers), b[13..])
  {
    hide FindBytes, StatusRead, StatusCode, ProtoOk;
    StatusReadIs(s, b[9..]);
    FindCrlfSuffix(b, 13);
    assert b[9..][4..] == b[13..];
  }

  lemma StatusCutSteps(s: Ctx, b: string, c: string)
    requires Valid(s) && (s.state == Initial || s.state == ProxyConnect)
    requires b != "" && c != "" && b[|b| - 1] == '\r'
    requires FindBytes(b, CRLF) == FindBytes(b + c, CRLF) == |b| - 1
    requires StatusStep(s, b + c).Go?
    ensures StatusStep(s, b + c).buf == c[1..]
    ensures var sh := StatusStep(s, b + c).ctx;
            |b| > 13 && StatusStep(s, b) == Go(sh, b[13..]) && sh.state == Headers
  {
    hide FindBytes, StatusStep, StatusCode, ProtoOk;
    StatusCutWhole(s, b, c);
    StatusLineEnd(s, b + c);
    ProtoShrunk(s, b, c);
    assert (b + c)[9..] == b[9..] + c;
    StatusCodeGrown(b[9..], c, |b| - 10);
    StatusCutHalf(s, b);
  }

  lemma StatusCutDiffers(env: Env, s: Ctx, b: string, c: string, pieces: seq<string>)
    requires Valid(s) && (s.state == Initial || s.state == ProxyConnect) && env.capacity == None
    requires c == Concat(pieces)
    requires Run(env, s, b + c).verdict == Success && CleanLines(env, s, b + c)
    requires CriticalHere(s, b + c, |b|)
    ensures Continue(env, s, b, pieces) != Run(env, s, b + c)
  {
    hide FindBytes, ProtoOk, StatusRead, HeaderStep, ContentStep;
    CriticalIsHalfLineEnd(s, b, c);
    assert StatusStep(s, b + c).Go?;
    StatusCutSteps(s, b, c);
    hide StatusStep, CriticalHere, BumpTail;
    var sh := StatusStep(s, b + c).ctx;
    assert CleanLines(env, sh, c[1..]);
    assert Run(env, s, b + c) == Run(env, sh, c[1..]);
    assert Run(env, s, b) == Run(env, sh, b[13..]);
    FindCrlfSuffix(b, 13);
    hide Step, CleanLines, Run;
    var s2 := BrokenHeader(env, sh, b[13..]);
    BrokenContent(env, s2, c, pieces);
    SuccessConsumes(env, sh, c[1..]);
  }

  // ---- a cut inside the end of a chunk-size line --------------------------------------------------

  /** A chunk's data that leads to success is complete and followed by its line end. */
  lemma DataThenLineEnd(env: Env, s: Ctx, x: string)
    requires Valid(s) && InData(s) && Run(env, s, x).verdict == Success
    ensures |x| >= Owed(s) + 2 && x[Owed(s)..Owed(s) + 2] == CRLF
    ensures |Run(env, s, x).unread| + 2 <= |x| - Owed(s) - 2
  {
    var n := Owed(s);
    ShortData(env, s, x);
    var r := Step(env, s, x);
    assert r.buf == x[n..];
    var r2 := Step(env, r.ctx, x[n..]);
    assert x[n..][..2] == x[n..n + 2];
    assert Run(env, s, x) == Run(env, r2.ctx, r2.buf);
    SuccessConsumes(env, r2.ctx, r2.buf);
  }

  lemma ShortData(env: Env, s: Ctx, x: string)
    requires Valid(s) && InData(s)
    ensures |x| < Owed(s) ==> Run(env, s, x).verdict == NeedMore
  {
    if 0 < |x| < Owed(s) {
      var r := Step(env, s, x);
      assert r.buf == "";
      assert Step(env, r.ctx, "") == Stop(NeedMore, r.ctx, "");
    }
  }

  lemma NoCutsGo(env: Env, s: Ctx, t: string, s': Ctx, t': string)
    requires Valid(s) && Valid(s') && Step(env, s, t) == Go(s', t')
    requires forall k :: !CriticalHere(s, t, k)
    requires forall k :: !CriticalCut(env, s', t', k)
    ensures forall k :: !CriticalCut(env, s, t, k)
  {
    hide Step;
  }

  /** Reading the half line end as chunk data: rejected, or stopped early by what looks like an empty
      chunk-size line. */
  lemma BrokenChunkRun(env: Env, s: Ctx, x: string)
    requires Valid(s) && InData(s)
    requires |x| >= Owed(s) + 2 && x[Owed(s)..Owed(s) + 2] == CRLF
    ensures var w := Run(env, s, CRLF + x);
            w.verdict == Failed || (w.verdict == Success && |w.unread| == |x| - Owed(s) - 2)
    ensures forall k :: !CriticalCut(env, s, CRLF + x, k)
  {
    var n := Owed(s);
    var y := CRLF + x;
    var r := Step(env, s, y);
    assert r.Go? && r.buf == y[n..];
    assert r.ctx.chunkState == ChunkEndCrlf;
    var r2 := Step(env, r.ctx, y[n..]);
    if r2.Go? {
      assert r2.ctx.chunkState == ChunkSize && r2.buf == y[n..][2..] == x[n..];
      EmptyLineRun(env, r2.ctx, x[n..]);
      NoCutsGo(env, r.ctx, y[n..], r2.ctx, x[n..]);
      assert Run(env, r.ctx, y[n..]) == Run(env, r2.ctx, x[n..]);
    }
    NoCutsGo(env, s, y, r.ctx, y[n..]);
    assert Run(env, s, y) == Run(env, r.ctx, y[n..]);
  }

  /** An empty chunk-size line ends the body. */
  lemma EmptyLineRun(env: Env, s: Ctx, z: string)
    requires Valid(s) && s.state == Content && s.contentLength == CHUNKED && s.chunkState == ChunkSize
    requires |z| >= 2 && z[..2] == CRLF
    ensures Run(env, s, z).verdict == Success && |Run(env, s, z).unread| == |z| - 2
    ensures forall k :: !CriticalCut(env, s, z, k)
  {
    assert z[0] == z[..2][0] && z[1] == z[..2][1];
    assert FindBytes(z, CRLF) == 0;
    var s2 := s.(chunkState := FinalCrlf);
    assert Step(env, s, z) == Go(s2, z);
    assert Step(env, s2, z) == Stop(Success, s2.(bodySize := s2.bodySize + 1), z[2..]);
    assert Run(env, s, z) == Run(env, s2, z);
    forall k
      ensures !CriticalHere(s, z, k)
    {
      EmptyLineNotCritical(s, z, k);
    }
    NoCutsGo(env, s, z, s2, z);
  }

  lemma EmptyLineNotCritical(s: Ctx, z: string, k: nat)
    requires s.state == Content && |z| >= 2 && z[..2] == CRLF
    ensures !CriticalHere(s, z, k)
  {
    if 1 <= k < |z| {
      assert z[0] == z[..2][0] && z[1] == z[..2][1];
      var w := z[..k];
      assert w[0] == '\r' && (k > 1 ==> w[1] == '\n');
      assert FindBytes(w, CRLF) == 0;
    }
  }

  lemma NoCutsForAll(env: Env, s: Ctx, t: string, at: nat, pieces: seq<string>)
    requires Valid(s) && forall k :: !CriticalCut(env, s, t, k)
    ensures NoCriticalCut(env, s, t, at, pieces)
    decreases |pieces|
  {
    if pieces != [] {
      NoCutsForAll(env, s, t, at + |pieces[0]|, pieces[1..]);
    }
  }

  lemma ChunkCutSteps(env: Env, s: Ctx, b: string, c: string)
    requires Valid(s) && s.state == Content && s.contentLength == CHUNKED && s.chunkState == ChunkSize
    requires b != "" && c != "" && c[0] == '\n' && b[|b| - 1] == '\r'
    requires FindBytes(b, CRLF) == FindBytes(b + c, CRLF) == |b| - 1
    requires !LeavesLineEnd(s, b[..|b| - 1])
    requires Run(env, s, b + c).verdict == Success
    ensures var r := Step(env, s, b + c);
            r.Go? && r.buf == c[1..] && InData(r.ctx) && Valid(r.ctx) && Step(env, s, b) == Go(r.ctx, "\r")
  {
    var t := b + c;
    var idx := |b| - 1;
    assert t[..idx] == b[..idx];
    assert t[idx..] == "\r" + c && ("\r" + c)[2..] == c[1..];
    assert b[idx..] == "\r";
  }

  /** The rest of the stream after half a chunk-size line end, as one feed. */
  lemma BrokenChunk(env: Env, s: Ctx, x: string, pieces: seq<string>)
    requires Valid(s) && InData(s) && Concat(pieces) == "\n" + x && env.capacity == None
    requires |x| >= Owed(s) + 2 && x[Owed(s)..Owed(s) + 2] == CRLF
    ensures var f := Continue(env, s, "\r", pieces);
            f.verdict == Success ==> |f.unread| == |x| - Owed(s) - 2
  {
    hide Step, CriticalCut, Separated, Run;
    BrokenChunkRun(env, s, x);
    var all := ["\r"] + pieces;
    assert all[1..] == pieces && all[0] == "\r";
    assert "" + Concat(all) == CRLF + x;
    NoCutsForAll(env, s, CRLF + x, 0, all);
    ContentSeparated(env, s, CRLF + x);
    FeedMatchesRoomy(env, s, "", all);
    assert "" + "\r" == "\r";
    assert Continue(env, s, "\r", pieces) == Feed(env, s, "", all);
  }

  lemma ChunkCutDiffers(env: Env, s: Ctx, b: string, c: string, pieces: seq<string>)
    requires Valid(s) && s.state == Content && env.capacity == None
    requires c == Concat(pieces)
    requires Run(env, s, b + c).verdict == Success && CleanLines(env, s, b + c)
    requires CriticalHere(s, b + c, |b|)
    ensures Continue(env, s, b, pieces) != Run(env, s, b + c)
  {
    CriticalIsHalfLineEnd(s, b, c);
    assert (b + c)[..|b| - 1] == b[..|b| - 1] && (b + c)[|b|] == c[0];
    ChunkCutSteps(env, s, b, c);
    hide Step, CleanLines, CriticalHere;
    var (s1, x) := (Step(env, s, b + c).ctx, c[1..]);
    assert "\n" + x == c;
    assert Run(env, s, b + c) == Run(env, s1, x);
    assert Run(env, s, b) == Run(env, s1, "\r");
    DataThenLineEnd(env, s1, x);
    BrokenChunk(env, s1, x, pieces);
  }

  // ---- the exact condition ------------------------------------------------------------------------

  /** A step that is not cut critically and consumes less than arrived does the same on what arrived. */
  lemma GoOnPrefix(env: Env, s: Ctx, b: string, c: string, s': Ctx, t': string)
    requires Valid(s) && c != "" && env.capacity == None
    requires !CriticalHere(s, b + c, |b|) && SeparatedHere(s, b + c) && CleanHere(s, b + c)
    requires Step(env, s, b + c) == Go(s', t') && |b + c| - |t'| < |b|
    ensures Step(env, s, b).Go? && Step(env, s, b).ctx == s' && Step(env, s, b).buf + c == t'
  {
    if InData(s) {
      assert |b| > Owed(s);
    }
    StepExtends(env, s, b, c);
    NeedMoreReadsOn(env, s, b, c);
  }

  /** If what arrived was not enough, the step on the whole stream consumes all of it. */
  lemma NeedMoreReadsOn(env: Env, s: Ctx, b: string, c: string)
    requires Valid(s) && c != "" && CleanHere(s, b + c)
    requires Step(env, s, b + c).Go?
    ensures Step(env, s, b) == Stop(NeedMore, s, b) ==> |Step(env, s, b + c).buf| <= |c|
  {
    var t := b + c;
    hide FindBytes, Strtol16, ProtoOk, StatusCode, ParseHdr;
    FindCrlfGrown(b, c);
    match s.state
    case Initial | ProxyConnect =>
      StatusLineBuf(s, t);
      hide StatusStep;
      LineSearchNeedsMore(env, s, b);
    case Headers =>
      LineSearchNeedsMore(env, s, b);
      HeaderLineConsumed(s, t);
    case Content =>
      if s.chunkState == ChunkSize {
        LineSearchNeedsMore(env, s, b);
        SizeLineConsumed(env, s, t);
      }
  }

  lemma LineSearchNeedsMore(env: Env, s: Ctx, b: string)
    requires Valid(s) && LineSearch(s)
    ensures Step(env, s, b) == Stop(NeedMore, s, b) ==> FindBytes(b, CRLF) == |b|
  {
    hide FindBytes, Strtol16, ProtoOk, StatusCode, ParseHdr;
  }

  lemma HeaderLineConsumed(s: Ctx, t: string)
    requires Valid(s) && s.state == Headers && HeaderStep(s, t).Go?
    ensures |HeaderStep(s, t).buf| <= |t| - FindBytes(t, CRLF)
  {
    hide FindBytes;
  }

  lemma SizeLineConsumed(env: Env, s: Ctx, t: string)
    requires Valid(s) && s.state == Content && s.chunkState == ChunkSize && SizeStep(env, s, t).Go?
    ensures |SizeStep(env, s, t).buf| <= |t| - FindBytes(t, CRLF)
  {
    hide FindBytes, Strtol16;
  }

  /** With room for the whole message, a call that stops at a critical cut does not end like one call. */
  lemma {:induction false} ContinuesDiffer(env: Env, s: Ctx, b: string, c: string, pieces: seq<string>)
    requires Valid(s) && env.capacity == None && c == Concat(pieces)
    requires Run(env, s, b + c).verdict == Success && CleanLines(env, s, b + c)
    requires CriticalCut(env, s, b + c, |b|)
    ensures Continue(env, s, b, pieces) != Run(env, s, b + c)
    decreases |b|, Rank(s)
  {
    hide StatusStep, HeaderStep, ContentStep, Step;
    if CriticalHere(s, b + c, |b|) {
      match s.state
      case Initial | ProxyConnect => StatusCutDiffers(env, s, b, c, pieces);
      case Headers => HeaderCutDiffers(env, s, b, c, pieces);
      case Content => ChunkCutDiffers(env, s, b, c, pieces);
    } else {
      AcceptedIsSeparated(env, s, b + c);
      var r := Step(env, s, b + c);
      CutInside(env, s, b + c, |b|);
      assert c != "";
      GoOnPrefix(env, s, b, c, r.ctx, r.buf);
      var b' := Step(env, s, b).buf;
      assert |b + c| - |b' + c| == |b| - |b'|;
      ContinuesDiffer(env, r.ctx, b', c, pieces);
    }
  }

  /** Critical cuts lie inside the stream. */
  lemma {:induction false} CutInside(env: Env, s: Ctx, t: string, k: nat)
    requires Valid(s) && CriticalCut(env, s, t, k)
    ensures 0 < k < |t|
    decreases |t|, Rank(s)
  {
    hide Step;
    if !CriticalHere(s, t, k) {
      var r := Step(env, s, t);
      CutInside(env, r.ctx, r.buf, k - (|t| - |r.buf|));
    }
  }

  lemma {:induction false} NoCutsAfterEnd(env: Env, s: Ctx, t: string, at: nat, pieces: seq<string>)
    requires Valid(s) && (pieces != [] ==> at + |pieces[0]| >= |t|)
    ensures NoCriticalCut(env, s, t, at, pieces)
    decreases |pieces|
  {
    hide CriticalCut;
    if pieces != [] {
      if CriticalCut(env, s, t, at + |pieces[0]|) {
        CutInside(env, s, t, at + |pieces[0]|);
      }
      NoCutsAfterEnd(env, s, t, at + |pieces[0]|, pieces[1..]);
    }
  }

  /** After success no later boundary is critical. */
  lemma {:induction false} NoCutsAfterSuccess(env: Env, s: Ctx, b: string, c: string, at: nat, pieces: seq<string>)
    requires Valid(s) && env.capacity == None && c != "" && at >= |b|
    requires !CriticalCut(env, s, b + c, |b|) && Separated(env, s, b + c)
    requires Run(env, s, b).verdict == Success
    ensures NoCriticalCut(env, s, b + c, at, pieces)
    decreases |pieces|
  {
    hide CriticalCut, Separated, Run;
    if pieces != [] {
      ResumeRoomy(env, s, b, c, at + |pieces[0]|);
      NoCutsAfterSuccess(env, s, b, c, at + |pieces[0]|, pieces[1..]);
    }
  }

  lemma {:induction false} FeedIff(env: Env, s: Ctx, b: string, pieces: seq<string>)
    requires Valid(s) && env.capacity == None
    requires Run(env, s, b) == Outcome(NeedMore, s, b)
    requires Run(env, s, b + Concat(pieces)).verdict == Success
    requires CleanLines(env, s, b + Concat(pieces))
    ensures Feed(env, s, b, pieces) == Run(env, s, b + Concat(pieces))
       <==> NoCriticalCut(env, s, b + Concat(pieces), |b|, pieces)
    decreases |pieces|
  {
    hide Run, CriticalCut, CleanLines, Separated;
    assert b + "" == b;
    if pieces == [] {
      return;
    }
    var (bb, ps) := (b + pieces[0], pieces[1..]);
    var (c, t) := (Concat(ps), b + Concat(pieces));
    assert t == bb + c;
    var o := Run(env, s, bb);
    RunRests(env, s, bb);
    AcceptedIsSeparated(env, s, t);
    if c == "" {
      assert bb + c == bb && o.unread + c == o.unread;
      NoCutsAfterEnd(env, s, t, |b|, pieces);
    } else if CriticalCut(env, s, t, |bb|) {
      ContinuesDiffer(env, s, bb, c, ps);
    } else {
      ResumeCuts(env, s, bb, c, ps);
      if o.verdict == NeedMore {
        FeedIff(env, o.ctx, o.unread, ps);
      } else {
        NoCutsAfterSuccess(env, s, bb, c, |bb|, ps);
      }
    }
  }

  /** Fragmentation independence, exactly: for every accepted message with clean lines, of any length, and
      every split of its bytes into arrivals that never fill the buffer, repeated calls end with the verdict,
      context and unread bytes of one call on the whole message if and only if no arrival ends at a critical
      cut. */
  lemma FragmentationIff(env: Env, s: Ctx, pieces: seq<string>)
    requires s.state == Initial || s.state == ProxyConnect
    requires Valid(s) && Below(env, Peak(env, s, "", pieces))
    requires Run(Roomy(env), s, Concat(pieces)).verdict == Success && CleanLines(Roomy(env), s, Concat(pieces))
    ensures Feed(env, s, "", pieces) == Run(Roomy(env), s, Concat(pieces))
       <==> NoCriticalCut(Roomy(env), s, Concat(pieces), 0, pieces)
  {
    assert "" + Concat(pieces) == Concat(pieces);
    FeedRoomy(env, s, "", pieces);
    EmptyNeedsMore(Roomy(env), s);
    hide Run, Feed, Peak, CleanLines, NoCriticalCut;
    FeedIff(Roomy(env), s, "", pieces);
  }

  lemma EmptyNeedsMore(env: Env, s: Ctx)
    requires Valid(s) && (s.state == Initial || s.state == ProxyConnect)
    ensures Run(env, s, "") == Outcome(NeedMore, s, "")
  {
  }

  /** The converse by itself, from any point of a message: a first arrival that ends at a critical cut is not
      made good by whatever arrives later. */
  lemma CriticalDiffers(env: Env, s: Ctx, b: string, pieces: seq<string>)
    requires Valid(s) && Below(env, Peak(env, s, "", [b] + pieces))
    requires Run(Roomy(env), s, b + Concat(pieces)).verdict == Success && CleanLines(Roomy(env), s, b + Concat(pieces))
    requires CriticalCut(Roomy(env), s, b + Concat(pieces), |b|)
    ensures Feed(env, s, "", [b] + pieces) != Run(Roomy(env), s, b + Concat(pieces))
  {
    hide Run, CleanLines, CriticalCut, Peak, Feed, Continue;
    FeedRoomy(env, s, "", [b] + pieces);
    FeedFirst(Roomy(env), s, b, pieces);
    ContinuesDiffer(Roomy(env), s, b, Concat(pieces), pieces);
  }

  lemma FeedFirst(env: Env, s: Ctx, b: string, pieces: seq<string>)
    requires Valid(s)
    ensures Feed(env, s, "", [b] + pieces) == Continue(env, s, b, pieces)
  {
    hide Run;
    assert "" + b == b && ([b] + pieces)[0] == b && ([b] + pieces)[1..] == pieces;
  }
}
