/** A printed response delivered in pieces: which splits the parser survives, told from the response alone. */
module HttpDelivery {
  import opened Basics
  import opened Text
  import opened RingBuffer
  import opened HttpParser
  import opened HttpFragmentation
  import opened HttpResume
  import opened HttpCriticalCuts
  import opened HttpFraming
  import opened HttpMessage

  // ---- the cut points of a response -----------------------------------------------------------------

  function Shift(ks: set<nat>, n: nat): set<nat> {
    set k | k in ks :: k + n
  }

  /** Behind the CR of each header line and of the blank line. */
  function HeaderCuts(hs: seq<Field>): set<nat> {
    if hs == [] then {1}
    else {|HeaderLine(hs[0])| + 1} + Shift(HeaderCuts(hs[1..]), |HeaderLine(hs[0])| + 2)
  }

  /** Behind the CR of each chunk-size line, the one of the last chunk excepted. */
  function ChunkCuts(chunks: seq<Chunk>): set<nat>
    requires GoodChunks(chunks)
  {
    if chunks == [] then {}
    else
      var n := |chunks[0].size.Text()|;
      {n + 1} + Shift(ChunkCuts(chunks[1..]), n + |chunks[0].data| + 4)
  }

  function BodyCuts(body: Body): set<nat>
    requires body.Good()
  {
    if body.Chunks? then ChunkCuts(body.chunks) else {}
  }

  /** The positions in a printed response at which no arrival may end. */
  function CutPoints(r: Response): set<nat>
    requires r.body.Good()
  {
    var (line, head) := (|StatusText(r)|, |EncodeHeaders(r.headers)|);
    {line + 1} + Shift(HeaderCuts(r.headers) + Shift(BodyCuts(r.body), head), line + 2)
  }

  // ---- critical cuts, step by step ------------------------------------------------------------------

  /** The critical cuts of the run over `t` are exactly these. */
  ghost predicate CutsAre(env: Env, s: Ctx, t: string, ks: set<nat>)
    requires Valid(s)
  {
    forall k: nat :: CriticalCut(env, s, t, k) <==> k in ks
  }

  lemma ShiftMeans(ks: set<nat>, n: nat, k: nat)
    requires 0 !in ks
    ensures k in Shift(ks, n) <==> k > n && k - n in ks
  {
    if k > n && k - n in ks {
      assert k == (k - n) + n;
    }
  }

  /** A line without CR, in front of its line end, has one critical cut unless it leaves its line end. */
  lemma LineCut(s: Ctx, line: string, rest: string, k: nat)
    requires LineSearch(s) && '\r' !in line
    ensures CriticalHere(s, line + CRLF + rest, k) <==> k == |line| + 1 && !LeavesLineEnd(s, line)
  {
    var t := line + CRLF + rest;
    FindHalfLineEnd(line);
    assert t[..|line| + 1] == line + "\r" && t[..|line|] == line && t[|line| + 1] == '\n';
    hide FindBytes, LeavesLineEnd;
    assert forall i :: 0 <= i < |line| ==> t[i] == line[i] && line[i] in line;
    if 1 <= k < |t| {
      FindCrlf(t[..k]);
      if k > |line| + 1 {
        assert t[..k] == line + CRLF + t[|line| + 2..k];
        FindLineEnd(line, t[|line| + 2..k]);
      }
    }
  }

  lemma {:induction false} FindHalfLineEnd(line: string)
    requires '\r' !in line
    ensures FindBytes(line + "\r", CRLF) == |line|
  {
    var t := line + "\r";
    if line != "" {
      assert t[0] == line[0] && line[0] in line;
      assert t[1..] == line[1..] + "\r";
      FindHalfLineEnd(line[1..]);
    } else {
      assert t[0] == '\r';
    }
  }

  /** One step: the cuts of its own line, and the cuts of the rest moved behind what it consumes. */
  lemma StepCuts(env: Env, s: Ctx, t: string, s': Ctx, t': string, own: set<nat>, ks: set<nat>)
    requires Valid(s) && Step(env, s, t) == Go(s', t') && CutsAre(env, s', t', ks)
    requires forall k: nat :: CriticalHere(s, t, k) <==> k in own
    ensures CutsAre(env, s, t, own + Shift(ks, |t| - |t'|))
  {
    hide Step, CriticalHere;
    if CriticalCut(env, s', t', 0) {
      CutInside(env, s', t', 0);
    }
    forall k: nat
      ensures CriticalCut(env, s, t, k) <==> k in own + Shift(ks, |t| - |t'|)
    {
      ShiftMeans(ks, |t| - |t'|, k);
    }
  }

  lemma LineCuts(env: Env, s: Ctx, line: string, rest: string, s': Ctx, ks: set<nat>)
    requires Valid(s) && LineSearch(s) && '\r' !in line && !LeavesLineEnd(s, line)
    requires Step(env, s, line + CRLF + rest) == Go(s', rest) && CutsAre(env, s', rest, ks)
    ensures CutsAre(env, s, line + CRLF + rest, {|line| + 1} + Shift(ks, |line| + 2))
  {
    var t := line + CRLF + rest;
    hide Step, CriticalHere, CutsAre, LeavesLineEnd;
    forall k: nat
      ensures CriticalHere(s, t, k) <==> k in {|line| + 1}
    {
      LineCut(s, line, rest, k);
    }
    StepCuts(env, s, t, s', rest, {|line| + 1}, ks);
  }

  lemma QuietStep(env: Env, s: Ctx, t: string, s': Ctx, t': string, ks: set<nat>)
    requires Valid(s) && !LineSearch(s) && Step(env, s, t) == Go(s', t') && CutsAre(env, s', t', ks)
    ensures CutsAre(env, s, t, Shift(ks, |t| - |t'|))
  {
    hide Step, CutsAre;
    StepCuts(env, s, t, s', t', {}, ks);
    assert {} + Shift(ks, |t| - |t'|) == Shift(ks, |t| - |t'|);
  }

  lemma ShiftTwice(ks: set<nat>, m: nat, n: nat)
    ensures Shift(Shift(ks, m), n) == Shift(ks, m + n)
  {
    forall k | k in Shift(ks, m + n)
      ensures k in Shift(Shift(ks, m), n)
    {
      var j :| j in ks && j + (m + n) == k;
      assert j + m in Shift(ks, m) && (j + m) + n == k;
    }
  }

  lemma ShiftUnion(ks: set<nat>, js: set<nat>, n: nat)
    ensures Shift(ks + js, n) == Shift(ks, n) + Shift(js, n)
  {
  }

  // ---- the cuts of the parts ------------------------------------------------------------------------

  lemma PlainCuts(env: Env, s: Ctx, t: string)
    requires Valid(s) && s.state == Content && s.contentLength != CHUNKED
    ensures CutsAre(env, s, t, {})
  {
    forall k: nat
      ensures !CriticalCut(env, s, t, k)
    {
      assert Step(env, s, t).Stop?;
    }
  }

  lemma EndCuts(env: Env, s: Ctx, rest: string)
    requires Valid(s) && s.state == Content && s.contentLength == CHUNKED && s.chunkState == FinalCrlf
    ensures CutsAre(env, s, CRLF + rest, {})
  {
    LineEndStep(s, rest);
    assert Step(env, s, CRLF + rest).Stop?;
    hide Step;
  }

  lemma ZeroChunkCuts(env: Env, s: Ctx, last: SizeLine, rest: string)
    requires AtChunk(s) && GoodLast(last) && !env.errnoEinval
    ensures CutsAre(env, s, last.Text() + CRLF + (CRLF + rest), {})
  {
    var (v, w) := (CRLF + (CRLF + rest), CRLF + rest);
    var t := last.Text() + CRLF + w;
    var s1 := s.(chunkSize := 0, chunkState := ChunkEndCrlf);
    var s2 := s1.(chunkState := FinalCrlf);
    ZeroLineStep(env, s, last, w);
    LineEndStep(s1, w);
    EndCuts(env, s2, rest);
    SizeLineReads(last);
    hide SizeStep, CrlfStep, CutsAre, Strtol16, CString, Spell, Value;
    assert Step(env, s, t) == Go(s1, v);
    assert Step(env, s1, v) == Go(s2, w);
    QuietStep(env, s1, v, s2, w, {});
    forall k: nat
      ensures CriticalHere(s, t, k) <==> k in {}
    {
      LineCut(s, last.Text(), w, k);
    }
    StepCuts(env, s, t, s1, v, {}, Shift({}, 2));
    assert {} + Shift(Shift({}, 2), |t| - |v|) == {};
  }

  /** The data of a chunk and its line end hold no cuts of their own. */
  lemma DataCuts(env: Env, s: Ctx, data: string, rest: string, ks: set<nat>)
    requires AtChunk(s) && 0 < |data| && AtChunk(AfterChunk(s, data))
    requires CutsAre(env, AfterChunk(s, data), rest, ks)
    ensures Valid(BeforeData(s, |data|))
    ensures CutsAre(env, BeforeData(s, |data|), data + (CRLF + rest), Shift(ks, |data| + 2))
  {
    var (n, v, s1) := (|data|, CRLF + rest, BeforeData(s, |data|));
    var s2 := s1.(body := s1.body + data, chunkGot := n, chunkState := ChunkEndCrlf);
    DataStepAll(env, s1, data, v);
    LineEndStep(s2, rest);
    hide SizeStep, CrlfStep, DataStep, CutsAre;
    assert Step(env, s2, v) == Go(AfterChunk(s, data), rest);
    hide Step;
    QuietStep(env, s2, v, AfterChunk(s, data), rest, ks);
    QuietStep(env, s1, data + v, s2, v, Shift(ks, 2));
    ShiftTwice(ks, 2, n);
  }

  lemma SizeLineGoes(env: Env, s: Ctx, line: SizeLine, rest: string)
    requires AtChunk(s) && line.Good() && 0 < Value(line.digits) < LONG_MAX
    ensures Step(env, s, line.Text() + CRLF + rest) == Go(BeforeData(s, Value(line.digits)), rest)
    ensures !LeavesLineEnd(s, line.Text()) && '\r' !in line.Text()
  {
    SizeLineStep(env, s, line, rest);
    SizeLineReads(line);
    hide SizeStep, Strtol16, CString, Spell, Value;
  }

  lemma OneChunkCuts(env: Env, s: Ctx, c: Chunk, rest: string, ks: set<nat>)
    requires AtChunk(s) && c.Good() && AtChunk(AfterChunk(s, c.data))
    requires CutsAre(env, AfterChunk(s, c.data), rest, ks)
    ensures var line := c.size.Text();
            CutsAre(env, s, line + CRLF + (c.data + (CRLF + rest)), {|line| + 1} + Shift(ks, |line| + |c.data| + 4))
  {
    hide Step, CutsAre, LeavesLineEnd, Shift, BeforeData, AfterChunk, SizeLine.Text, Value;
    var (n, line, u) := (|c.data|, c.size.Text(), c.data + (CRLF + rest));
    DataCuts(env, s, c.data, rest, ks);
    SizeLineGoes(env, s, c.size, u);
    LineCuts(env, s, line, u, BeforeData(s, n), Shift(ks, n + 2));
    ShiftTwice(ks, n + 2, |line| + 2);
  }

  lemma {:induction false} ChunkCutsAre(env: Env, s: Ctx, chunks: seq<Chunk>, last: SizeLine, rest: string)
    requires AtChunk(s) && GoodChunks(chunks) && GoodLast(last) && !env.errnoEinval
    ensures CutsAre(env, s, EncodeChunks(chunks, last) + rest, ChunkCuts(chunks))
    decreases |chunks|
  {
    hide CutsAre, SizeLine.Text, Value;
    if chunks == [] {
      ZeroChunkCuts(env, s, last, rest);
      assert EncodeChunks(chunks, last) + rest == last.Text() + CRLF + (CRLF + rest);
    } else {
      FirstChunkApart(chunks, last, rest);
      hide EncodeChunks;
      var c := chunks[0];
      assert AtChunk(AfterChunk(s, c.data));
      ChunkCutsAre(env, AfterChunk(s, c.data), chunks[1..], last, rest);
      OneChunkCuts(env, s, c, EncodeChunks(chunks[1..], last) + rest, ChunkCuts(chunks[1..]));
    }
  }

  lemma OneHeaderCuts(env: Env, s: Ctx, h: Field, tail: string, ks: set<nat>)
    requires Valid(s) && s.state == Headers && GoodField(h)
    requires var r := ProcessHdr(s, ToLower(h.0), h.1); r.Some? && CutsAre(env, r.value, tail, ks)
    ensures var line := HeaderLine(h);
            CutsAre(env, s, line + CRLF + tail, {|line| + 1} + Shift(ks, |line| + 2))
  {
    hide HeaderStep, FindBytes, CutsAre, ProcessHdr, GoodField, HeaderLine, ToLower;
    HeaderLineStep(s, h, tail);
    PrintedHeaderSplit(h, tail);
    LineCuts(env, s, HeaderLine(h), tail, ProcessHdr(s, ToLower(h.0), h.1).value, ks);
  }

  lemma BlankLineCuts(env: Env, s: Ctx, content: string, ks: set<nat>)
    requires Valid(s) && s.state == Headers && CutsAre(env, s.(state := Content), content, ks)
    ensures CutsAre(env, s, CRLF + content, {1} + Shift(ks, 2))
  {
    hide HeaderStep, FindBytes, CutsAre;
    BlankLineStep(s, content);
    assert "" + CRLF + content == CRLF + content;
    LineCuts(env, s, "", content, s.(state := Content), ks);
  }

  lemma UnionAssociates(a: set<nat>, b: set<nat>, c: set<nat>)
    ensures a + (b + c) == a + b + c
  {
  }

  /** The cuts of the content move behind the header section. */
  lemma HeaderCutsFirst(hs: seq<Field>, ks: set<nat>)
    requires hs != []
    ensures var (n, more) := (|HeaderLine(hs[0])|, |EncodeHeaders(hs[1..])|);
            {n + 1} + Shift(HeaderCuts(hs[1..]) + Shift(ks, more), n + 2) == HeaderCuts(hs) + Shift(ks, |EncodeHeaders(hs)|)
  {
    hide Shift, HeaderLine;
    var (n, more, rest) := (|HeaderLine(hs[0])|, |EncodeHeaders(hs[1..])|, HeaderCuts(hs[1..]));
    assert |EncodeHeaders(hs)| == more + (n + 2);
    assert HeaderCuts(hs) == {n + 1} + Shift(rest, n + 2);
    hide EncodeHeaders, HeaderCuts;
    ShiftUnion(rest, Shift(ks, more), n + 2);
    ShiftTwice(ks, more, n + 2);
    UnionAssociates({n + 1}, Shift(rest, n + 2), Shift(ks, more + (n + 2)));
  }

  lemma {:induction false} HeaderCutsAre(env: Env, s: Ctx, hs: seq<Field>, content: string, ks: set<nat>)
    requires Valid(s) && s.state == Headers && FoldHdrs(s, hs).Some?
    requires forall i :: 0 <= i < |hs| ==> GoodField(hs[i])
    requires CutsAre(env, FoldHdrs(s, hs).value.(state := Content), content, ks)
    ensures CutsAre(env, s, EncodeHeaders(hs) + content, HeaderCuts(hs) + Shift(ks, |EncodeHeaders(hs)|))
    decreases |hs|
  {
    hide CutsAre, ProcessHdr, Shift, GoodField, HeaderLine, ToLower;
    if hs == [] {
      BlankLineCuts(env, s, content, ks);
    } else {
      var (line, more) := (HeaderLine(hs[0]), EncodeHeaders(hs[1..]));
      assert EncodeHeaders(hs) + content == line + CRLF + (more + content);
      HeaderCutsFirst(hs, ks);
      hide HeaderCuts, EncodeHeaders;
      HeaderCutsAre(env, ProcessHdr(s, ToLower(hs[0].0), hs[0].1).value, hs[1..], content, ks);
      OneHeaderCuts(env, s, hs[0], more + content, HeaderCuts(hs[1..]) + Shift(ks, |more|));
    }
  }

  lemma ContentCuts(env: Env, s: Ctx, body: Body, rest: string)
    requires Valid(s) && s.state == Content && s.chunkState == ChunkSize && !env.errnoEinval
    requires body.Good() && s.contentLength == Framing(body)
    ensures CutsAre(env, s, EncodeBody(body) + rest, BodyCuts(body))
  {
    hide CutsAre, EncodeChunks, ChunkCuts;
    if body.Chunks? {
      ChunkCutsAre(env, s, body.chunks, body.last, rest);
    } else {
      PlainCuts(env, s, EncodeBody(body) + rest);
    }
  }

  lemma StatusCuts(env: Env, s: Ctx, r: Response, tail: string, ks: set<nat>)
    requires Valid(s) && (s.state == Initial || s.state == ProxyConnect)
    requires 100 <= r.code < 600 && '\r' !in r.reason && (r.http10 ==> s.state == ProxyConnect)
    requires CutsAre(env, s.(httpCode := r.code, state := Headers), tail, ks)
    ensures var line := StatusText(r);
            CutsAre(env, s, line + CRLF + tail, {|line| + 1} + Shift(ks, |line| + 2))
  {
    hide CutsAre, StatusStep, StatusText, FindBytes, Shift;
    StatusTextStep(s, r, tail);
    LineCuts(env, s, StatusText(r), tail, s.(httpCode := r.code, state := Headers), ks);
  }

  /** The critical cuts of a well-formed response, whatever follows it, are its cut points. */
  lemma CriticalCutsAreCutPoints(env: Env, s: Ctx, r: Response, rest: string)
    requires Awaits(s, r) && WellFormed(r) && !env.errnoEinval
    ensures CutsAre(env, s, Encode(r) + rest, CutPoints(r))
  {
    hide CutsAre, AcceptableFraming, GoodField, Encode, EncodeHeaders, StatusText, EncodeBody, Announces;
    hide BodyCuts, HeaderCuts, Shift;
    var content := EncodeBody(r.body) + rest;
    var tail := EncodeHeaders(r.headers) + content;
    var sh := s.(httpCode := r.code, state := Headers);
    EncodeParts(r, rest);
    AnnouncedFraming(r.headers, r.body);
    FramingDecided(sh, r.headers);
    ContentCuts(env, FoldHdrs(sh, r.headers).value.(state := Content), r.body, rest);
    HeaderCutsAre(env, sh, r.headers, content, BodyCuts(r.body));
    StatusCuts(env, s, r, tail, HeaderCuts(r.headers) + Shift(BodyCuts(r.body), |EncodeHeaders(r.headers)|));
  }

  // ---- delivery in pieces ---------------------------------------------------------------------------

  /** Where the arrivals end; `at` bytes have arrived already. */
  function Boundaries(at: nat, pieces: seq<string>): set<nat>
    decreases |pieces|
  {
    if pieces == [] then {} else {at + |pieces[0]|} + Boundaries(at + |pieces[0]|, pieces[1..])
  }

  lemma {:induction false} BoundariesMean(env: Env, s: Ctx, t: string, at: nat, pieces: seq<string>, ks: set<nat>)
    requires Valid(s) && CutsAre(env, s, t, ks)
    ensures NoCriticalCut(env, s, t, at, pieces) <==> Boundaries(at, pieces) !! ks
    decreases |pieces|
  {
    hide CriticalCut;
    if pieces != [] {
      BoundariesMean(env, s, t, at + |pieces[0]|, pieces[1..], ks);
      assert CriticalCut(env, s, t, at + |pieces[0]|) <==> at + |pieces[0]| in ks;
    }
  }

  /** End to end: a printed response of any length, delivered in pieces that never fill the buffer, is parsed
      as one call would parse it if and only if no piece ends at a cut point of the response; then its code,
      fields, framing and body are recovered. */
  lemma DeliveredInPieces(env: Env, s: Ctx, r: Response, pieces: seq<string>)
    requires Awaits(s, r) && WellFormed(r) && !env.errnoEinval
    requires Concat(pieces) == Encode(r) && Below(env, Peak(env, s, "", pieces))
    ensures Feed(env, s, "", pieces) == Run(Roomy(env), s, Encode(r)) <==> Boundaries(0, pieces) !! CutPoints(r)
    ensures Boundaries(0, pieces) !! CutPoints(r) ==> Recovered(r, Feed(env, s, "", pieces), "")
  {
    assert r.body.Good();
    hide WellFormed, CleanLines, Run, NoCriticalCut, Feed, Peak, CutPoints, Encode;
    assert Encode(r) + "" == Encode(r);
    ResponseRoundTrip(Roomy(env), s, r, "");
    CriticalCutsAreCutPoints(Roomy(env), s, r, "");
    BoundariesMean(Roomy(env), s, Encode(r), 0, pieces, CutPoints(r));
    FragmentationIff(env, s, pieces);
  }

  lemma TwoPieces(first: string, second: string)
    ensures Concat([first, second]) == first + second
    ensures Boundaries(0, [first, second]) == {|first|, |first| + |second|}
  {
    assert [first, second][1..] == [second] && [second][1..] == [];
    assert Concat([second]) == second;
    assert Boundaries(|first| + |second|, []) == {};
    assert Boundaries(|first|, [second]) == {|first| + |second|};
  }

  lemma EndIsNoCut(env: Env, s: Ctx, r: Response)
    requires Awaits(s, r) && WellFormed(r) && !env.errnoEinval
    ensures |Encode(r)| !in CutPoints(r)
  {
    assert r.body.Good();
    hide WellFormed, Run, CutPoints, Encode;
    if |Encode(r)| in CutPoints(r) {
      CriticalCutsAreCutPoints(env, s, r, "");
      assert Encode(r) + "" == Encode(r);
      CutInside(env, s, Encode(r), |Encode(r)|);
    }
  }

  /** In two pieces: the response is lost exactly when the split is at one of its cut points. */
  lemma SplitInTwo(env: Env, s: Ctx, r: Response, first: string, second: string)
    requires Awaits(s, r) && WellFormed(r) && !env.errnoEinval
    requires Encode(r) == first + second && Below(env, Peak(env, s, "", [first, second]))
    ensures Feed(env, s, "", [first, second]) == Run(Roomy(env), s, Encode(r)) <==> |first| !in CutPoints(r)
  {
    assert r.body.Good();
    hide WellFormed, Awaits, Run, Feed, Peak, CutPoints, Encode, Boundaries, Recovered, Concat, Below, Roomy;
    TwoPieces(first, second);
    DeliveredInPieces(env, s, r, [first, second]);
    EndIsNoCut(Roomy(env), s, r);
    OneOfTwo(|first|, |first| + |second|, CutPoints(r));
  }

  lemma OneOfTwo(a: nat, b: nat, ks: set<nat>)
    requires b !in ks
    ensures {a, b} !! ks <==> a !in ks
  {
  }

  // ---- what a cut in the blank line costs -----------------------------------------------------------

  /** The header lines without the blank line. */
  function Lines(hs: seq<Field>): string {
    if hs == [] then "" else HeaderLine(hs[0]) + CRLF + Lines(hs[1..])
  }

  lemma {:induction false} LinesAndBlank(hs: seq<Field>)
    ensures EncodeHeaders(hs) == Lines(hs) + CRLF
  {
    if hs != [] {
      LinesAndBlank(hs[1..]);
    }
  }

  lemma {:induction false} LinesRun(env: Env, s: Ctx, hs: seq<Field>, rest: string)
    requires Valid(s) && s.state == Headers && FoldHdrs(s, hs).Some?
    requires forall i :: 0 <= i < |hs| ==> GoodField(hs[i])
    ensures Run(env, s, Lines(hs) + rest) == Run(env, FoldHdrs(s, hs).value, rest)
    decreases |hs|
  {
    hide HeaderStep, StatusStep, ContentStep, ProcessHdr, GoodField, ToLower;
    if hs == [] {
      assert "" + rest == rest;
    } else {
      var tail := Lines(hs[1..]) + rest;
      assert Lines(hs) + rest == HeaderLine(hs[0]) + CRLF + tail;
      HeaderLineStep(s, hs[0], tail);
      LinesRun(env, ProcessHdr(s, ToLower(hs[0].0), hs[0].1).value, hs[1..], rest);
    }
  }

  /** Half of the blank line ends the headers, but stays unread. */
  lemma HalfBlankLine(env: Env, s: Ctx, second: string)
    requires Valid(s) && s.state == Headers && s.contentLength != CHUNKED && env.capacity == None
    requires s.contentLength <= |second| + 1
    ensures Continue(env, s, "\r", [second]) == Outcome(Success, s.(state := Content), "\r" + second)
  {
    var sc := s.(state := Content);
    assert FindBytes("\r", CRLF) == 0;
    assert Step(env, s, "\r") == Go(sc, "\r");
    assert Concat([second]) == second;
    hide FindBytes, HeaderStep, StatusStep, SizeStep, DataStep, CrlfStep;
    var o := Run(env, sc, "\r");
    assert Run(env, s, "\r") == o;
    if o.verdict == NeedMore {
      assert o == Outcome(NeedMore, sc, "\r");
      assert Run(env, sc, "\r" + second) == Outcome(Success, sc, "\r" + second);
      assert [second][1..] == [] && "\r" + second + "" == "\r" + second;
      assert Feed(env, sc, "\r", [second]) == Outcome(Success, sc, "\r" + second + Concat([]));
    }
  }

  /** With a chunked body it is taken for the end of the body. */
  lemma HalfBlankLineChunked(env: Env, s: Ctx, rest: string)
    requires Valid(s) && s.state == Headers && s.contentLength == CHUNKED && env.capacity == None
    ensures var sf := s.(state := Content, chunkState := FinalCrlf, bodySize := s.bodySize + 1);
            Continue(env, s, "\r", ["\n" + rest]) == Outcome(Success, sf, rest)
  {
    var sc := s.(state := Content);
    var (sf, second) := (sc.(chunkState := FinalCrlf), "\n" + rest);
    assert FindBytes("\r", CRLF) == 0;
    assert Step(env, s, "\r") == Go(sc, "\r");
    assert Step(env, sc, "\r") == Go(sf, "\r");
    assert Step(env, sf, "\r") == Stop(NeedMore, sf, "\r");
    assert "\r" + second == CRLF + rest;
    LineEndStep(sf, rest);
    assert Step(env, sf, CRLF + rest) == Stop(Success, sf.(bodySize := sf.bodySize + 1), rest);
    hide Step;
    assert Run(env, s, "\r") == Run(env, sc, "\r") == Run(env, sf, "\r") == Outcome(NeedMore, sf, "\r");
    assert Run(env, sf, CRLF + rest) == Outcome(Success, sf.(bodySize := sf.bodySize + 1), rest);
    assert [second][1..] == [] && rest + "" == rest;
  }

  lemma BlankLineContinues(env: Env, s: Ctx, r: Response, lines: string, second: string)
    requires Awaits(s, r) && WellFormed(r) && !env.errnoEinval && env.capacity == None
    requires lines == StatusText(r) + CRLF + Lines(r.headers)
    ensures var sh := FoldHdrs(s.(httpCode := r.code, state := Headers), r.headers);
            && sh.Some? && sh.value.contentLength == Framing(r.body)
            && Continue(env, s, lines + "\r", [second]) == Continue(env, sh.value, "\r", [second])
  {
    hide AcceptableFraming, GoodField, Announces, Lines, StatusText, Run;
    var sh := s.(httpCode := r.code, state := Headers);
    var tail := Lines(r.headers) + "\r";
    assert lines + "\r" == StatusText(r) + CRLF + tail;
    StatusTextStep(s, r, tail);
    hide StatusStep, FindBytes;
    assert Step(env, s, lines + "\r") == Go(sh, tail);
    StepOn(env, s, lines + "\r", sh, tail);
    AnnouncedFraming(r.headers, r.body);
    FramingDecided(sh, r.headers);
    LinesRun(env, sh, r.headers, "\r");
  }

  lemma EncodeAtBlank(r: Response)
    requires r.body.Good()
    ensures var lines := StatusText(r) + CRLF + Lines(r.headers);
            Encode(r) == (lines + "\r") + ("\n" + EncodeBody(r.body))
  {
    LinesAndBlank(r.headers);
    hide StatusText, EncodeHeaders, EncodeBody, Lines;
  }

  /** What a split inside the blank line costs. Without a chunked body only the line end is left behind: verdict
      and context are those of one call, and the line end precedes the body in the buffer. A chunked body is
      lost: it stays in the buffer, and the response is accepted with an empty one. */
  lemma BlankLineSplit(env: Env, s: Ctx, r: Response, lines: string)
    requires Awaits(s, r) && WellFormed(r) && !env.errnoEinval
    requires lines == StatusText(r) + CRLF + Lines(r.headers)
    requires Below(env, Peak(env, s, "", [lines + "\r", "\n" + EncodeBody(r.body)]))
    ensures Encode(r) == (lines + "\r") + ("\n" + EncodeBody(r.body))
    ensures var o := Run(Roomy(env), s, Encode(r));
            var f := Feed(env, s, "", [lines + "\r", "\n" + EncodeBody(r.body)]);
            if r.body.Chunks? then f.verdict == Success && f.ctx.body == "" && f.unread == EncodeBody(r.body)
            else f == o.(unread := CRLF + o.unread)
  {
    hide Lines, StatusText, Encode, EncodeHeaders, EncodeChunks, Run, Feed, Continue, Peak, FoldHdrs;
    hide AcceptableFraming, GoodField, GoodChunks;
    var (second, body) := ("\n" + EncodeBody(r.body), EncodeBody(r.body));
    var (sh, pieces) := (FoldHdrs(s.(httpCode := r.code, state := Headers), r.headers), [lines + "\r", second]);
    EncodeAtBlank(r);
    FeedRoomy(env, s, "", pieces);
    FeedFirst(Roomy(env), s, lines + "\r", [second]);
    assert [lines + "\r"] + [second] == pieces;
    BlankLineContinues(Roomy(env), s, r, lines, second);
    if r.body.Chunks? {
      HalfBlankLineChunked(Roomy(env), sh.value, body);
    } else {
      HalfBlankLine(Roomy(env), sh.value, second);
      WholeWithoutChunks(Roomy(env), s, r);
      assert "\r" + second == CRLF + body;
    }
  }

  lemma WholeWithoutChunks(env: Env, s: Ctx, r: Response)
    requires Awaits(s, r) && WellFormed(r) && !r.body.Chunks?
    ensures var sh := FoldHdrs(s.(httpCode := r.code, state := Headers), r.headers);
            && sh.Some?
            && Run(env, s, Encode(r)) == Outcome(Success, sh.value.(state := Content), EncodeBody(r.body))
  {
    hide Announces, GoodField, Encode, EncodeHeaders, StatusText, Run, CleanLines, Tabulates;
    var content := EncodeBody(r.body);
    EncodeParts(r, "");
    assert Encode(r) + "" == Encode(r) && content + "" == content;
    HeadRun(env, s, r, content);
    PlainRun(env, FoldHdrs(s.(httpCode := r.code, state := Headers), r.headers).value.(state := Content), content);
  }

  lemma PlainRun(env: Env, s: Ctx, t: string)
    requires Valid(s) && s.state == Content && s.contentLength != CHUNKED && s.contentLength <= |t|
    ensures Run(env, s, t) == Outcome(Success, s, t)
  {
  }

  /** A concrete response that is accepted whole and lost in two pieces. */
  lemma LostResponse(env: Env)
    requires Below(env, 100) && !env.errnoEinval
    ensures var s := Fresh(Initial, false);
            && Run(env, s, "HTTP/1.1 200 OK\r\n\r\n").verdict == Success
            && Feed(env, s, "", ["HTTP/1.1 200 OK\r", "\n\r\n"]) != Run(env, s, "HTTP/1.1 200 OK\r\n\r\n")
  {
    var (r, s) := (Response(false, 200, "OK", [], NoBody), Fresh(Initial, false));
    var (first, second, t) := ("HTTP/1.1 200 OK\r", "\n\r\n", "HTTP/1.1 200 OK\r\n\r\n");
    hide Encode, Run, Feed, CutPoints, Peak, WellFormed, Recovered;
    PrintedOk();
    assert t + "" == t;
    PeakOfTwo(env, s, first, second);
    ResponseRoundTrip(env, s, r, "");
    RecoveredMeans(r, Run(env, s, t), "");
    RunRoomy(env, s, t);
    SplitInTwo(env, s, r, first, second);
  }

  lemma RecoveredMeans(r: Response, o: Outcome, rest: string)
    requires Recovered(r, o, rest)
    ensures o.verdict == Success
  {
  }

  lemma PrintedOk()
    ensures var r := Response(false, 200, "OK", [], NoBody);
            && WellFormed(r) && |"HTTP/1.1 200 OK\r"| in CutPoints(r)
            && Encode(r) == "HTTP/1.1 200 OK\r\n\r\n" == "HTTP/1.1 200 OK\r" + "\n\r\n"
  {
    var r := Response(false, 200, "OK", [], NoBody);
    assert Numeral(200) == "200" by {
      assert Numeral(2) == "2";
      assert Numeral(20) == "20";
    }
    assert StatusText(r) == "HTTP/1.1 200 OK";
    assert EncodeHeaders([]) == CRLF;
  }

  lemma PeakOfTwo(env: Env, s: Ctx, first: string, second: string)
    requires Valid(s)
    ensures Peak(env, s, "", [first, second]) <= |first| + |second|
  {
    hide Run;
    UnreadBound(env, s, first);
    assert "" + first == first && [first, second][1..] == [second] && [second][1..] == [];
    var o := Run(env, s, first);
    if o.verdict == NeedMore {
      assert Peak(env, o.ctx, o.unread, [second]) <= |o.unread + second|;
    }
  }
}
