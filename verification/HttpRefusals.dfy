/** What the parser refuses: for each kind of line, and for the bytes behind a chunk, exactly which ones. */
module HttpRefusals {
  import opened Basics
  import opened Text
  import opened RingBuffer
  import opened HttpParser
  import opened HttpFragmentation
  import opened HttpResume
  import opened HttpCriticalCuts
  import opened HttpFraming
  import opened HttpMessage

  // ---- the status line ------------------------------------------------------------------------------

  predicate Decimal(c: char) {
    '0' <= c <= '9'
  }

  function Units(c: char): int {
    c as int - '0' as int
  }

  lemma OneCharacter(t: string, acc: nat)
    ensures t == "" ==> ReadDigits(t, 10, acc) == acc
    ensures t != "" && Decimal(t[0]) ==>
              Units(t[0]) >= 0 && ReadDigits(t, 10, acc) == ReadDigits(t[1..], 10, acc * 10 + Units(t[0]))
    ensures t != "" && !Decimal(t[0]) ==> ReadDigits(t, 10, acc) == acc
  {
  }

  lemma ReadShort(t: string)
    requires |t| <= 2
    ensures ReadDigits(t, 10, 0) < 100
  {
    hide ReadDigits;
    OneCharacter(t, 0);
    if t != "" && Decimal(t[0]) {
      OneCharacter(t[1..], Units(t[0]));
      if |t| == 2 && Decimal(t[1]) {
        OneCharacter(t[1..][1..], Units(t[0]) * 10 + Units(t[1]));
      }
    }
  }

  lemma ReadThreeCharacters(t: string)
    requires |t| == 3
    ensures ReadDigits(t, 10, 0) >= 100 <==> '1' <= t[0] <= '9' && Decimal(t[1]) && Decimal(t[2])
    ensures Decimal(t[0]) && Decimal(t[1]) && Decimal(t[2]) ==>
              ReadDigits(t, 10, 0) == Units(t[0]) * 100 + Units(t[1]) * 10 + Units(t[2])
  {
    hide ReadDigits;
    var (u, w) := (t[1..], t[2..]);
    assert u[1..] == w && w[1..] == "" && u[0] == t[1] && w[0] == t[2];
    OneCharacter(t, 0);
    if Decimal(t[0]) {
      OneCharacter(u, Units(t[0]));
      if Decimal(t[1]) {
        OneCharacter(w, Units(t[0]) * 10 + Units(t[1]));
        if Decimal(t[2]) {
          OneCharacter("", (Units(t[0]) * 10 + Units(t[1])) * 10 + Units(t[2]));
        }
      }
    }
  }

  lemma SkipsNothing(y: string)
    ensures y == "" || !IsSpace(y[0]) ==> SkipSpaces(y) == y
    ensures y != "" && IsSpace(y[0]) ==> |SkipSpaces(y)| < |y|
  {
  }

  /** Three characters are a status code exactly when they are digits and the first is from 1 to 5. */
  lemma ThreeCharacters(x: string)
    requires |x| == 3
    ensures 100 <= Atoi(CString(x)) < 600 <==> '1' <= x[0] <= '5' && Decimal(x[1]) && Decimal(x[2])
    ensures 100 <= Atoi(CString(x)) < 600 ==>
              Atoi(CString(x)) == Units(x[0]) * 100 + Units(x[1]) * 10 + Units(x[2])
  {
    var y := CString(x);
    var t := SkipSpaces(y);
    SkipsNothing(y);
    ReadThreeCharacters(x);
    if |t| <= 2 {
      ReadShort(t);
    }
    if 0 < |t| <= 3 {
      ReadShort(t[1..]);
    }
    hide ReadDigits, SkipSpaces, CString;
    assert y <= x && (|y| < 3 ==> x[|y|] == '\0');
    assert |y| == 3 ==> y == x;
  }

  /** `HTTP/1.1 `, or from a proxy also `HTTP/1.0 `, a code from 100 to 599 and a space. */
  predicate GoodStatusLine(proxy: bool, line: string) {
    && |line| >= 13
    && (line[..9] == "HTTP/1.1 " || (proxy && line[..9] == "HTTP/1.0 "))
    && '1' <= line[9] <= '5' && Decimal(line[10]) && Decimal(line[11]) && line[12] == ' '
  }

  lemma StatusCodeDecided(b: string)
    ensures StatusCode(b).Some? <==> |b| >= 4 && b[3] == ' ' && '1' <= b[0] <= '5' && Decimal(b[1]) && Decimal(b[2])
    ensures StatusCode(b).Some? ==> StatusCode(b).value == Units(b[0]) * 100 + Units(b[1]) * 10 + Units(b[2])
  {
    hide Atoi, CString;
    if |b| >= 4 {
      ThreeCharacters(b[..3]);
    }
  }

  /** A short name meets the line end before the protocol name is complete. */
  lemma NameDecided(s: Ctx, line: string, tail: string)
    requires '\r' !in line
    ensures var t := line + CRLF + tail;
            ProtoOk(s, t) <==> |line| >= 9 && (line[..9] == "HTTP/1.1 " || (s.state == ProxyConnect && line[..9] == "HTTP/1.0 "))
  {
    var t := line + CRLF + tail;
    if |line| >= 9 {
      ProtocolNames(s, t);
      assert t[..9] == line[..9];
    } else {
      assert t[|line|] == '\r' && PROTO_1_1[|line|] != '\r' && PROTO_1_0[|line|] != '\r';
    }
  }

  /** The status line decides alone, whatever follows it. */
  lemma StatusLineDecided(env: Env, s: Ctx, line: string, tail: string)
    requires Valid(s) && (s.state == Initial || s.state == ProxyConnect) && '\r' !in line
    ensures var r := Step(env, s, line + CRLF + tail);
            if GoodStatusLine(s.state == ProxyConnect, line) then
              var code := Units(line[9]) * 100 + Units(line[10]) * 10 + Units(line[11]);
              r == Go(s.(httpCode := code, state := Headers), tail)
            else r.Stop? && r.verdict == Failed
  {
    hide FindBytes, ProtoOk, StatusCode, Decimal, AfterLine;
    var t := line + CRLF + tail;
    NameDecided(s, line, tail);
    FindLineEnd(line, tail);
    if |line| >= 9 {
      CodeDecided(line, tail);
      assert t[9..] == line[9..] + CRLF + tail;
      if |line| >= 13 {
        RestOfLine(line, tail);
      }
    }
  }

  lemma RestOfLine(line: string, tail: string)
    requires |line| >= 13 && '\r' !in line
    ensures AfterLine((line[9..] + CRLF + tail)[4..]) == tail
  {
    FindLineEnd(line[13..], tail);
    var u := line[13..] + CRLF + tail;
    assert (line[9..] + CRLF + tail)[4..] == u && u[|line| - 13 + 2..] == tail;
  }

  /** What is read behind the protocol name does not reach past the line. */
  lemma CodeDecided(line: string, tail: string)
    requires |line| >= 9 && '\r' !in line
    ensures var b := line[9..] + CRLF + tail;
            && (StatusCode(b).Some? <==>
                |line| >= 13 && line[12] == ' ' && '1' <= line[9] <= '5' && Decimal(line[10]) && Decimal(line[11]))
            && (StatusCode(b).Some? ==>
                StatusCode(b).value == Units(line[9]) * 100 + Units(line[10]) * 10 + Units(line[11]))
  {
    var b := line[9..] + CRLF + tail;
    StatusCodeDecided(b);
    hide StatusCode;
    var n := |line| - 9;
    assert b[n] == '\r' && b[n + 1] == '\n';
    assert forall i :: 0 <= i < n ==> b[i] == line[9 + i];
  }

  // ---- header lines ---------------------------------------------------------------------------------

  /** A printable field of any length; the name may be empty. */
  predicate PlainField(h: Field) {
    && ':' !in h.0
    && '\r' !in h.0 && '\0' !in h.0 && '\r' !in h.1 && '\0' !in h.1
  }

  /** A header line is refused exactly when name or value is too long for its buffer or the field breaks the
      framing; an empty name in a full buffer trips the assertion of the ring buffer. */
  lemma HeaderLineDecided(env: Env, s: Ctx, h: Field, tail: string)
    requires Valid(s) && s.state == Headers && PlainField(h)
    ensures var (t, s1) := (HeaderLine(h) + CRLF + tail, ProcessHdr(s, ToLower(h.0), h.1));
            var r := Step(env, s, t);
            if h.0 == "" && env.capacity.Some? && |t| >= env.capacity.value then r.Stop? && r.verdict == Overrun
            else if |h.0| >= 1024 || |h.1| >= 1024 || s1 == None then r.Stop? && r.verdict == Failed
            else r == Go(s1.value, tail)
  {
    hide FindBytes, ProcessHdr, ToLower, CString, ParseHdr, HeaderLine;
    var t := HeaderLine(h) + CRLF + tail;
    FieldFound(h, tail);
    if |h.0| < 1024 && |h.1| < 1024 {
      FieldParsed(s, h, tail);
      AfterLineEnd(tail);
    } else {
      FieldTooLong(s, h, tail);
    }
  }

  lemma AfterLineEnd(tail: string)
    ensures AfterLine(CRLF + tail) == tail
  {
    FindLineEnd("", tail);
    assert "" + CRLF + tail == CRLF + tail && (CRLF + tail)[2..] == tail;
  }

  lemma FieldTooLong(s: Ctx, h: Field, tail: string)
    requires PlainField(h) && (|h.0| >= 1024 || |h.1| >= 1024)
    ensures ParseHdr(s, HeaderLine(h) + CRLF + tail) == HdrFailed
  {
    hide FindBytes, ProcessHdr, ToLower, CString;
    FieldFound(h, tail);
  }

  lemma FieldFound(h: Field, tail: string)
    requires PlainField(h)
    ensures var t := HeaderLine(h) + CRLF + tail;
            FindBytes(t, CRLF) == |HeaderLine(h)| == |h.0| + 2 + |h.1| && FindBytes(t, SEPARATOR) == |h.0|
  {
    var line := HeaderLine(h);
    FindLineEnd(line, tail);
    assert line + CRLF + tail == h.0 + ": " + (h.1 + CRLF + tail);
    FindSeparator(h.0, h.1 + CRLF + tail);
  }

  lemma FieldParsed(s: Ctx, h: Field, tail: string)
    requires PlainField(h) && |h.0| < 1024 && |h.1| < 1024
    ensures ParseHdr(s, HeaderLine(h) + CRLF + tail) == match ProcessHdr(s, ToLower(h.0), h.1)
                                                         case None => HdrFailed
                                                         case Some(s') => HdrOk(s', CRLF + tail)
  {
    hide FindBytes, ProcessHdr, ToLower, CString, SplitHdr, HeaderLine;
    FieldSplit(h, tail);
    CStringOfClean(h.0);
    CStringOfClean(h.1);
  }

  lemma FieldSplit(h: Field, tail: string)
    requires PlainField(h) && |h.0| < 1024 && |h.1| < 1024
    ensures SplitHdr(HeaderLine(h) + CRLF + tail) == SplitOk(h.0, h.1, CRLF + tail)
  {
    hide FindBytes;
    var (t, n) := (HeaderLine(h) + CRLF + tail, |h.0|);
    FieldFound(h, tail);
    FieldPieces(h, tail);
    assert t[..n] == h.0 && t[n + 2..n + 2 + |h.1|] == h.1 && t[n + 2 + |h.1|..] == CRLF + tail;
  }

  lemma FieldPieces(h: Field, tail: string)
    ensures var (t, n) := (HeaderLine(h) + CRLF + tail, |h.0|);
            t[..n] == h.0 && t[n + 2..n + 2 + |h.1|] == h.1 && t[n + 2 + |h.1|..] == CRLF + tail
  {
  }

  /** A line without a colon is refused, unless a separator comes later in the buffer: the search is not limited
      to the line, and the length of the value is negative. */
  lemma NoColonDecided(env: Env, s: Ctx, line: string, tail: string)
    requires Valid(s) && s.state == Headers && line != "" && ':' !in line && '\r' !in line
    ensures var r := Step(env, s, line + CRLF + tail);
            var sep := |line| + 2 + FindBytes(tail, SEPARATOR);
            && r.Stop?
            && r.verdict == if FindBytes(tail, SEPARATOR) < |tail| && sep < 1024 then Overrun else Failed
  {
    hide FindBytes, ProcessHdr, ToLower, CString;
    NoColonFound(line, tail);
    NoColonSplit(line + CRLF + tail);
  }

  lemma NoColonFound(line: string, tail: string)
    requires ':' !in line && '\r' !in line
    ensures FindBytes(line + CRLF + tail, CRLF) == |line|
    ensures FindBytes(line + CRLF + tail, SEPARATOR) == |line| + 2 + FindBytes(tail, SEPARATOR)
  {
    FindLineEnd(line, tail);
    SkipsLine(line + CRLF, tail);
  }

  lemma NoColonSplit(t: string)
    requires FindBytes(t, CRLF) < |t| && FindBytes(t, CRLF) + 2 <= FindBytes(t, SEPARATOR)
    ensures SplitHdr(t) == if FindBytes(t, SEPARATOR) < |t| && FindBytes(t, SEPARATOR) < 1024 then SplitOverrun else NoSplit
  {
    hide FindBytes;
  }

  lemma {:induction false} SkipsLine(a: string, tail: string)
    requires ':' !in a
    ensures FindBytes(a + tail, SEPARATOR) == |a| + FindBytes(tail, SEPARATOR)
  {
    if a == "" {
      assert a + tail == tail;
    } else {
      assert (a + tail)[0] == a[0] && a[0] in a;
      assert (a + tail)[1..] == a[1..] + tail;
      SkipsLine(a[1..], tail);
    }
  }

  // ---- chunked bodies -------------------------------------------------------------------------------

  /** A size line of any length. */
  predicate Spelled(line: SizeLine) {
    line.digits != [] && AllDigits(line.digits) && EndsNumber(line.ext) && '\r' !in line.ext
  }

  /** A size line is refused exactly when it is too long for its buffer, when the size does not fit below the
      largest `long`, and, with `errno` left at EINVAL, when it is zero. */
  lemma SizeLineDecided(env: Env, s: Ctx, line: SizeLine, rest: string)
    requires AtChunk(s) && Spelled(line)
    ensures var (r, n) := (Step(env, s, line.Text() + CRLF + rest), Value(line.digits));
            if |line.Text()| >= 1024 || n >= 0x7fff_ffff_ffff_ffff || (n == 0 && env.errnoEinval) then
              r.Stop? && r.verdict == Failed
            else if n == 0 then r == Go(s.(chunkSize := 0, chunkState := ChunkEndCrlf), CRLF + rest)
            else r == Go(BeforeData(s, n), rest)
  {
    hide Spell, Strtol16, CString, Value, FindBytes;
    var (text, t) := (line.Text(), line.Text() + CRLF + rest);
    NoReturnIn(line);
    FindLineEnd(text, rest);
    if |text| < 1024 {
      SizeLineReads(line);
      assert t[..|text|] == text;
      assert t[|text|..] == CRLF + rest && (CRLF + rest)[2..] == rest;
    }
  }

  lemma NoReturnIn(line: SizeLine)
    requires Spelled(line)
    ensures '\r' !in line.Text()
  {
    forall i | 0 <= i < |line.digits|
      ensures Spell(line.digits)[i] != '\r'
    {
      GlyphReads(line.digits[i]);
    }
  }

  /** A negative size is refused. */
  lemma NegativeSizeRefused(env: Env, s: Ctx, line: SizeLine, rest: string)
    requires AtChunk(s) && Spelled(line) && '\0' !in line.ext && Value(line.digits) > 0
    ensures Run(env, s, "-" + line.Text() + CRLF + rest).verdict == Failed
  {
    var text := "-" + line.Text();
    var t := text + CRLF + rest;
    NegativeReads(line);
    FindLineEnd(text, rest);
    hide FindBytes, Spell, Strtol16, CString, Value;
    assert t[..|text|] == text;
  }

  lemma NegativeReads(line: SizeLine)
    requires Spelled(line) && '\0' !in line.ext && Value(line.digits) > 0
    ensures '\r' !in "-" + line.Text()
    ensures Strtol16(CString("-" + line.Text())) < 0
  {
    var ds := line.digits;
    forall i | 0 <= i < |ds|
      ensures Spell(ds)[i] != '\r' && Spell(ds)[i] != '\0'
    {
      GlyphReads(ds[i]);
    }
    var text := "-" + line.Text();
    CStringOfClean(text);
    Strtol16Reads("", ds, line.ext);
    hide Spell, Strtol16, CString, Value;
    assert "" + ("-" + (Spell(ds) + line.ext)) == text;
  }

  /** The data of a chunk must end where its size line says: any two bytes but a line end are refused. */
  lemma ChunkEndDecided(env: Env, s: Ctx, c: Chunk, x: string, rest: string)
    requires AtChunk(s) && c.Good() && |x| == 2
    ensures var o := Run(env, s, c.size.Text() + CRLF + (c.data + (x + rest)));
            if x == CRLF then o == Run(env, AfterChunk(s, c.data), rest) else o.verdict == Failed
  {
    hide Run, AfterChunk, SizeLine.Text, CleanLines;
    if x == CRLF {
      OneChunkRun(env, s, c, rest);
    } else {
      WrongChunkEnd(env, s, c, x, rest);
    }
  }

  lemma WrongChunkEnd(env: Env, s: Ctx, c: Chunk, x: string, rest: string)
    requires AtChunk(s) && c.Good() && |x| == 2 && x != CRLF
    ensures Run(env, s, c.size.Text() + CRLF + (c.data + (x + rest))).verdict == Failed
  {
    hide SizeStep, DataStep, CrlfStep, SizeLine.Text, Value;
    var (t, u) := (c.size.Text() + CRLF + (c.data + (x + rest)), c.data + (x + rest));
    var s1 := BeforeData(s, |c.data|);
    var s2 := s1.(body := s1.body + c.data, chunkGot := |c.data|, chunkState := ChunkEndCrlf);
    SizeLineStep(env, s, c.size, u);
    assert Step(env, s, t) == Go(s1, u);
    DataStepAll(env, s1, c.data, x + rest);
    WrongEnd(env, s2, x, rest);
    hide Step;
    StepOn(env, s, t, s1, u);
    StepOn(env, s1, u, s2, x + rest);
  }

  lemma WrongEnd(env: Env, s: Ctx, x: string, rest: string)
    requires Valid(s) && s.state == Content && s.contentLength == CHUNKED
    requires s.chunkState == ChunkEndCrlf || s.chunkState == FinalCrlf
    requires |x| == 2 && x != CRLF
    ensures Run(env, s, x + rest).verdict == Failed
  {
    assert (x + rest)[..2] == x;
  }

  /** Behind the last chunk only the blank line is accepted; trailer fields are refused. */
  lemma TrailerRefused(env: Env, s: Ctx, last: SizeLine, x: string, rest: string)
    requires AtChunk(s) && GoodLast(last) && |x| == 2 && !env.errnoEinval
    ensures var o := Run(env, s, last.Text() + CRLF + (x + rest));
            if x == CRLF then o.verdict == Success && o.unread == rest else o.verdict == Failed
  {
    hide Run, SizeLine.Text, CleanLines, Value;
    if x == CRLF {
      LastChunkRun(env, s, last, rest);
    } else {
      WrongLastEnd(env, s, last, x, rest);
    }
  }

  lemma WrongLastEnd(env: Env, s: Ctx, last: SizeLine, x: string, rest: string)
    requires AtChunk(s) && GoodLast(last) && |x| == 2 && x != CRLF && !env.errnoEinval
    ensures Run(env, s, last.Text() + CRLF + (x + rest)).verdict == Failed
  {
    hide SizeStep, CrlfStep, SizeLine.Text, Value;
    var (t, u) := (last.Text() + CRLF + (x + rest), CRLF + (x + rest));
    var s1 := s.(chunkSize := 0, chunkState := ChunkEndCrlf);
    var s2 := s1.(chunkState := FinalCrlf);
    ZeroLineStep(env, s, last, x + rest);
    LineEndStep(s1, x + rest);
    assert Step(env, s, t) == Go(s1, u);
    assert Step(env, s1, u) == Go(s2, x + rest);
    WrongEnd(env, s2, x, rest);
    hide Step;
    StepOn(env, s, t, s1, u);
    StepOn(env, s1, u, s2, x + rest);
  }

  // ---- waiting --------------------------------------------------------------------------------------

  lemma {:induction false} NoLineEnd(b: string, needle: string)
    requires needle != "" && needle[0] !in b
    ensures FindBytes(b, needle) == |b|
  {
    if b != "" {
      assert b[0] in b;
      NoLineEnd(b[1..], needle);
    }
  }

  /** Without a line end the parser waits, except for a chunk size in a full buffer. */
  lemma UnfinishedLine(env: Env, s: Ctx, b: string)
    requires Valid(s) && (s.state != Content || AtChunk(s)) && '\r' !in b
    ensures var v := if s.state == Content && env.capacity.Some? && |b| >= env.capacity.value then Failed else NeedMore;
            Run(env, s, b) == Outcome(v, s, b)
  {
    NoLineEnd(b, CRLF);
    hide FindBytes;
  }

  /** A response with a fixed length is complete when that many bytes of content have arrived, at once for a
      caller that does not wait. */
  lemma FixedBodyDecided(env: Env, s: Ctx, r: Response, part: string)
    requires Awaits(s, r) && WellFormed(r) && r.body.Fixed?
    ensures var o := Run(env, s, StatusText(r) + CRLF + (EncodeHeaders(r.headers) + part));
            && o.verdict == (if s.dontWait || |part| >= |r.body.data| then Success else NeedMore)
            && o.unread == part && o.ctx.httpCode == r.code
  {
    hide EncodeHeaders, Announces, GoodField, Tabulates, CleanLines, StatusText, Run;
    HeadRun(env, s, r, part);
    ContentDecided(env, FoldHdrs(s.(httpCode := r.code, state := Headers), r.headers).value.(state := Content), part);
  }

  lemma ContentDecided(env: Env, s: Ctx, part: string)
    requires Valid(s) && s.state == Content && s.contentLength >= 0
    ensures Run(env, s, part) == Outcome(if s.dontWait || |part| >= s.contentLength then Success else NeedMore, s, part)
  {
  }
}
