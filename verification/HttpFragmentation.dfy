/** How the parser's outcome depends on where the byte stream is cut into arrivals. */
module HttpFragmentation {
  import opened Text
  import opened RingBuffer
  import opened HttpParser

  // ---- searching a line end in a longer buffer --------------------------------------------------

  predicate CrlfAt(b: string, i: nat) {
    i < |b| && b[i] == '\r' && (i + 1 < |b| ==> b[i + 1] == '\n')
  }

  lemma {:induction false} FindCrlf(b: string)
    ensures FindBytes(b, CRLF) < |b| ==> CrlfAt(b, FindBytes(b, CRLF))
  {
    if b != "" && !Agrees(b, CRLF) {
      FindCrlf(b[1..]);
    }
  }

  /** A line end found in `b` stays the first one when more bytes follow, unless it was only a CR
      at the very end of `b`. */
  lemma {:induction false} FindCrlfGrown(b: string, c: string)
    requires c != ""
    ensures var (i, j) := (FindBytes(b, CRLF), FindBytes(b + c, CRLF));
            && (i + 1 < |b| ==> j == i)
            && (i == |b| ==> j >= |b|)
            && (i + 1 == |b| && c[0] == '\n' ==> j == i)
            && (i + 1 == |b| && c[0] != '\n' ==> j > i)
  {
    var t := b + c;
    if b != "" {
      assert t[1..] == b[1..] + c;
      FindCrlfGrown(b[1..], c);
      assert t[0] == b[0] && t[1] == if |b| > 1 then b[1] else c[0];
    }
  }

  lemma {:induction false} FindCrlfSuffix(b: string, n: nat)
    requires n <= FindBytes(b, CRLF)
    ensures FindBytes(b[n..], CRLF) == FindBytes(b, CRLF) - n
  {
    if n == 0 {
      assert b[n..] == b;
    } else {
      FindCrlfSuffix(b[1..], n - 1);
      assert b[1..][n - 1..] == b[n..];
    }
  }

  /** A separator inside the available part of the line is found there too. */
  lemma {:induction false} FindSepShrunk(b: string, c: string)
    requires FindBytes(b + c, SEPARATOR) + 2 <= |b|
    ensures FindBytes(b, SEPARATOR) == FindBytes(b + c, SEPARATOR)
  {
    var t := b + c;
    assert t[0] == b[0] && t[1] == b[1];
    if !Agrees(t, SEPARATOR) {
      assert t[1..] == b[1..] + c;
      FindSepShrunk(b[1..], c);
    }
  }

  // ---- critical cuts ----------------------------------------------------------------------------

  /** The states in which the parser searches for a line end. */
  predicate LineSearch(s: Ctx) {
    s.state != Content || (s.contentLength == CHUNKED && s.chunkState == ChunkSize)
  }

  /** A chunk-size line that leaves its line end unread: an empty line or the last chunk's size. */
  predicate LeavesLineEnd(s: Ctx, line: string) {
    s.state == Content && (line == "" || Strtol16(CString(line)) == 0)
  }

  /** Stopping after k bytes shows the parser a CR as its first line end, and acting on that CR alone
      is wrong: it is not followed by LF, or the parser would try to skip both bytes. */
  predicate CriticalHere(s: Ctx, t: string, k: nat) {
    && 1 <= k < |t|
    && LineSearch(s)
    && FindBytes(t[..k], CRLF) == k - 1
    && !(t[k] == '\n' && LeavesLineEnd(s, t[..k - 1]))
  }

  /** k is a critical cut at some step of the run over t. */
  predicate CriticalCut(env: Env, s: Ctx, t: string, k: nat)
    requires Valid(s)
    decreases |t|, Rank(s)
  {
    || CriticalHere(s, t, k)
    || match Step(env, s, t)
       case Stop(_, _, _) => false
       case Go(s', t') => |t| - |t'| < k && CriticalCut(env, s', t', k - (|t| - |t'|))
  }

  /** Every header line read by the run has its separator inside the line. */
  predicate SeparatedHere(s: Ctx, t: string) {
    var idx := FindBytes(t, CRLF);
    s.state == Headers && 0 < idx < |t| ==> FindBytes(t, SEPARATOR) + 2 <= idx
  }

  predicate Separated(env: Env, s: Ctx, t: string)
    requires Valid(s)
    decreases |t|, Rank(s)
  {
    && SeparatedHere(s, t)
    && match Step(env, s, t)
       case Stop(_, _, _) => true
       case Go(s', t') => Separated(env, s', t')
  }

  // ---- one step on a longer buffer --------------------------------------------------------------

  /** Step on `b` and step on `b + c` do the same thing to the bytes of `b`. */
  ghost predicate Extends(r: StepResult, r': StepResult, c: string) {
    match r
    case Go(s, b) => r' == Go(s, b + c)
    case Stop(v, s, b) =>
      match v
      case NeedMore => true
      case Success => r' == Stop(Success, s, b + c)
      case Failed => r'.Stop? && r'.verdict == Failed
      case Overrun => false
  }

  lemma {:induction false} ReadDigitsBound(t: string, acc: nat)
    ensures acc == 0 && |t| <= 2 ==> ReadDigits(t, 10, acc) < 100
    ensures acc <= 9 && |t| <= 1 ==> ReadDigits(t, 10, acc) < 100
    ensures |t| == 0 ==> ReadDigits(t, 10, acc) == acc
    ensures t != "" && DigitVal(t[0], 10) < 0 ==> ReadDigits(t, 10, acc) == acc
  {
    if t != "" && DigitVal(t[0], 10) >= 0 {
      ReadDigitsBound(t[1..], acc * 10 + DigitVal(t[0], 10));
    }
  }

  lemma ReadThreeDigits(t: string)
    requires |t| == 3 && ReadDigits(t, 10, 0) >= 100
    ensures forall i :: 0 <= i < 3 ==> DigitVal(t[i], 10) >= 0
  {
    ReadDigitsBound(t, 0);
    var a := DigitVal(t[0], 10);
    ReadDigitsBound(t[1..], a);
    assert t[1..][0] == t[1];
    var b := DigitVal(t[1], 10);
    assert t[1..][1..] == [t[2]];
    ReadDigitsBound([t[2]], a * 10 + b);
  }

  /** A status code of at least 100 is three digits. */
  lemma AtoiThreeDigits(r: string)
    requires |r| == 3 && Atoi(CString(r)) >= 100
    ensures forall i :: 0 <= i < 3 ==> DigitVal(r[i], 10) >= 0
  {
    var t := SkipSpaces(CString(r));
    ReadDigitsBound(t, 0);
    if t != "" {
      ReadDigitsBound(t[1..], 0);
    }
    assert t == r;
    ReadThreeDigits(r);
  }

  /** An accepted status code has no line end in it and reads the same with more bytes behind it. */
  lemma StatusCodeGrown(u: string, c: string, i: nat)
    requires i < |u| && u[i] == '\r'
    ensures StatusCode(u + c) == StatusCode(u)
    ensures StatusCode(u).Some? ==> i > 3
  {
    var v := u + c;
    if |u| >= 4 {
      assert v[..3] == u[..3];
    }
    if StatusCode(v).Some? {
      AtoiThreeDigits(v[..3]);
      assert forall j :: 0 <= j < 3 ==> v[..3][j] == v[j];
    }
  }

  lemma StatusExtends(s: Ctx, b: string, c: string)
    requires Valid(s) && (s.state == Initial || s.state == ProxyConnect)
    requires c != "" && !CriticalHere(s, b + c, |b|)
    ensures Extends(StatusStep(s, b), StatusStep(s, b + c), c)
  {
    var t := b + c;
    var idx := FindBytes(b, CRLF);
    assert t[..|b|] == b;
    FindCrlf(b);
    FindCrlfGrown(b, c);
    LineEndInsideProto(s, b);
    LineEndInsideProto(s, t);
    if idx < |b| && ProtoOk(s, b) {
      assert ProtoOk(s, t);
      StatusLineExtends(s, b, c);
    }
  }

  lemma LineEndInsideProto(s: Ctx, b: string)
    ensures FindBytes(b, CRLF) < |b| && FindBytes(b, CRLF) < 9 ==> !ProtoOk(s, b)
  {
    var i := FindBytes(b, CRLF);
    FindCrlf(b);
    if i < |b| && i < 9 {
      hide FindBytes;
      ProtoHasNoCr(i);
      Disagrees(b, PROTO_1_1, i);
      Disagrees(b, PROTO_1_0, i);
    }
  }

  lemma ProtoHasNoCr(i: nat)
    requires i < 9
    ensures |PROTO_1_1| == |PROTO_1_0| == 9
    ensures PROTO_1_1[i] != '\r' && PROTO_1_0[i] != '\r'
  {
  }

  lemma Disagrees(b: string, needle: string, i: nat)
    requires i < |b| && i < |needle| && b[i] != needle[i]
    ensures !Agrees(b, needle)
  {
  }

  lemma StatusLineExtends(s: Ctx, b: string, c: string)
    requires Valid(s) && (s.state == Initial || s.state == ProxyConnect)
    requires 9 <= FindBytes(b, CRLF) == FindBytes(b + c, CRLF)
    requires CrlfAt(b, FindBytes(b, CRLF)) && FindBytes(b, CRLF) + 1 < |b|
    requires ProtoOk(s, b) && ProtoOk(s, b + c)
    ensures Extends(StatusStep(s, b), StatusStep(s, b + c), c)
  {
    hide FindBytes, ProtoOk, StatusCode;
    var t := b + c;
    var idx := FindBytes(b, CRLF);
    var (u, v) := (b[9..], t[9..]);
    assert v == u + c;
    StatusCodeGrown(u, c, idx - 9);
    if StatusCode(u).Some? {
      assert u[4..] == b[13..] && v[4..] == t[13..] == u[4..] + c;
      FindCrlfSuffix(b, 13);
      FindCrlfSuffix(t, 13);
      assert (u[4..] + c)[idx - 13 + 2..] == u[4..][idx - 13 + 2..] + c;
    }
  }

  lemma SplitHdrExtends(b: string, c: string)
    requires FindBytes(b, CRLF) == FindBytes(b + c, CRLF) < |b|
    requires FindBytes(b + c, SEPARATOR) + 2 <= FindBytes(b, CRLF)
    ensures var (r, r') := (SplitHdr(b), SplitHdr(b + c));
            !r.SplitOverrun? && r' == if r.SplitOk? then SplitOk(r.key, r.val, r.rest + c) else r
    ensures SplitHdr(b).SplitOk? ==> SplitHdr(b).rest == b[FindBytes(b, CRLF)..]
  {
    var t := b + c;
    var idx := FindBytes(b, CRLF);
    FindSepShrunk(b, c);
    hide FindBytes;
    var sep := FindBytes(b, SEPARATOR);
    assert t[..sep] == b[..sep];
    assert t[sep + 2..idx] == b[sep + 2..idx];
    assert t[idx..] == b[idx..] + c;
  }

  lemma ParseHdrExtends(s: Ctx, b: string, c: string)
    requires FindBytes(b, CRLF) == FindBytes(b + c, CRLF) < |b|
    requires FindBytes(b + c, SEPARATOR) + 2 <= FindBytes(b, CRLF)
    ensures var (r, r') := (ParseHdr(s, b), ParseHdr(s, b + c));
            !r.HdrOverrun? && r' == if r.HdrOk? then HdrOk(r.ctx, r.rest + c) else r
    ensures ParseHdr(s, b).HdrOk? ==> ParseHdr(s, b).rest == b[FindBytes(b, CRLF)..]
  {
    SplitHdrExtends(b, c);
    hide SplitHdr, FindBytes, ProcessHdr, CString, ToLower;
  }

  lemma HeaderLineExtends(s: Ctx, b: string, c: string)
    requires Valid(s) && s.state == Headers && c != ""
    requires 0 < FindBytes(b, CRLF) == FindBytes(b + c, CRLF)
    requires FindBytes(b, CRLF) + 1 < |b|
    requires FindBytes(b + c, SEPARATOR) + 2 <= FindBytes(b, CRLF)
    ensures Extends(HeaderStep(s, b), HeaderStep(s, b + c), c)
  {
    hide FindBytes, ParseHdr;
    var idx := FindBytes(b, CRLF);
    var rest := b[idx..];
    assert FindBytes(rest, CRLF) == 0 by {
      FindCrlfSuffix(b, idx);
    }
    assert FindBytes(rest + c, CRLF) == 0 by {
      FindCrlfGrown(rest, c);
    }
    assert (rest + c)[2..] == rest[2..] + c;
    ParseHdrExtends(s, b, c);
  }

  lemma HeaderExtends(s: Ctx, b: string, c: string)
    requires Valid(s) && s.state == Headers
    requires c != "" && !CriticalHere(s, b + c, |b|) && SeparatedHere(s, b + c)
    ensures Extends(HeaderStep(s, b), HeaderStep(s, b + c), c)
  {
    var t := b + c;
    assert t[..|b|] == b;
    FindCrlfGrown(b, c);
    if b != "" {
      if FindBytes(b, CRLF) == 0 {
        assert t[2..] == b[2..] + c;
      } else if FindBytes(b, CRLF) < |b| {
        HeaderLineExtends(s, b, c);
      }
    }
  }

  lemma SizeReadExtends(env: Env, s: Ctx, n: int, b: string, c: string)
    requires Valid(s) && s.state == Content && s.chunkState == ChunkSize && (|b| >= 2 || n <= 0)
    ensures Extends(SizeRead(env, s, n, b), SizeRead(env, s, n, b + c), c)
  {
    if |b| >= 2 {
      assert (b + c)[2..] == b[2..] + c;
    }
  }

  lemma SizeExtends(env: Env, s: Ctx, b: string, c: string)
    requires Valid(s) && s.state == Content && s.contentLength == CHUNKED && s.chunkState == ChunkSize
    requires c != "" && !CriticalHere(s, b + c, |b|) && Below(env, |b + c|)
    ensures Extends(SizeStep(env, s, b), SizeStep(env, s, b + c), c)
  {
    var t := b + c;
    var idx := FindBytes(b, CRLF);
    assert t[..|b|] == b;
    hide FindBytes, Strtol16, CString, SizeRead;
    FindCrlf(b);
    FindCrlfGrown(b, c);
    if idx < |b| {
      assert t[..idx] == b[..idx] && t[idx..] == b[idx..] + c;
      var n := Strtol16(CString(b[..idx]));
      if idx + 1 == |b| {
        assert t[..|b| - 1] == b[..idx];
        assert idx == 0 || n == 0;
      }
      if idx > 0 {
        SizeReadExtends(env, s, n, b[idx..], c);
      }
      hide CriticalHere;
    }
  }

  /** Except inside chunk data, a step that is not cut critically does the same on a longer buffer. */
  lemma StepExtends(env: Env, s: Ctx, b: string, c: string)
    requires Valid(s) && Below(env, |b + c|)
    requires c != "" && !CriticalHere(s, b + c, |b|) && SeparatedHere(s, b + c)
    requires !InData(s) || |b| >= Owed(s) || b == ""
    ensures Extends(Step(env, s, b), Step(env, s, b + c), c)
  {
    match s.state
    case Initial => StatusExtends(s, b, c);
    case ProxyConnect => StatusExtends(s, b, c);
    case Headers => HeaderExtends(s, b, c);
    case Content =>
      if s.contentLength == CHUNKED {
        if s.chunkState == ChunkSize {
          SizeExtends(env, s, b, c);
        } else if s.chunkState == ChunkData && b != "" {
          var n := Owed(s);
          assert (b + c)[..n] == b[..n] && (b + c)[n..] == b[n..] + c;
        } else if |b| >= 2 {
          assert (b + c)[..2] == b[..2] && (b + c)[2..] == b[2..] + c;
        }
      }
  }

  predicate InData(s: Ctx) {
    s.state == Content && s.contentLength == CHUNKED && s.chunkState == ChunkData
  }

  /** Copying chunk data in two arrivals ends in the state of copying it in one. */
  lemma DataSplits(env: Env, s: Ctx, b: string, c: string)
    requires Valid(s) && InData(s) && 0 < |b| < Owed(s) && c != ""
    ensures var s1 := s.(body := s.body + b, chunkGot := s.chunkGot + |b|);
            && Step(env, s, b) == Go(s1, "")
            && Step(env, s1, c) == Step(env, s, b + c)
  {
    var s1 := s.(body := s.body + b, chunkGot := s.chunkGot + |b|);
    assert b[..|b|] == b && b[|b|..] == "";
    var n := if |c| > Owed(s1) then Owed(s1) else |c|;
    assert (b + c)[..|b| + n] == b + c[..n];
    assert (b + c)[|b| + n..] == c[n..];
    assert s.body + (b + c[..n]) == s1.body + c[..n];
  }
}
