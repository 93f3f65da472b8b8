/** Messages as a server prints them, and what the parser makes of them: headers, chunked bodies
    (section 7.1 of RFC 9112) and whole responses, delivered at once or in pieces. */
module HttpMessage {
  import opened Basics
  import opened Text
  import opened RingBuffer
  import opened HttpParser
  import opened HttpFragmentation
  import opened HttpResume
  import opened HttpCriticalCuts
  import opened HttpFraming

  // ---- printing -----------------------------------------------------------------------------------

  /** A field with a name that the parser has room for: no CR, NUL or, in the name, colon. */
  predicate GoodField(h: Field) {
    && 0 < |h.0| < 1024 && |h.1| < 1024
    && '\r' !in h.0 && '\0' !in h.0 && ':' !in h.0
    && '\r' !in h.1 && '\0' !in h.1
  }

  function HeaderLine(h: Field): string {
    h.0 + ": " + h.1
  }

  function EncodeHeaders(hs: seq<Field>): string {
    if hs == [] then CRLF else HeaderLine(hs[0]) + CRLF + EncodeHeaders(hs[1..])
  }

  /** A chunk-size line: digits in either case, leading zeros allowed, and an extension or nothing. */
  datatype SizeLine = SizeLine(digits: seq<Digit>, ext: string) {
    predicate Good() {
      && digits != [] && AllDigits(digits) && EndsNumber(ext) && '\r' !in ext
      && |digits| + |ext| < 1024
    }

    function Text(): string
      requires AllDigits(digits)
    {
      Spell(digits) + ext
    }
  }

  datatype Chunk = Chunk(size: SizeLine, data: string) {
    /** Not empty, and the size line tells its length. */
    predicate Good() {
      size.Good() && Value(size.digits) == |data| && 0 < |data| < 0x7fff_ffff_ffff_ffff
    }
  }

  predicate GoodChunks(chunks: seq<Chunk>) {
    forall i :: 0 <= i < |chunks| ==> chunks[i].Good()
  }

  /** The size line of the last chunk. */
  predicate GoodLast(last: SizeLine) {
    last.Good() && Value(last.digits) == 0
  }

  /** Chunks as size line and data; the zero chunk and a blank line end the body. */
  function EncodeChunks(chunks: seq<Chunk>, last: SizeLine): string
    requires GoodChunks(chunks) && GoodLast(last)
  {
    if chunks == [] then last.Text() + CRLF + CRLF
    else chunks[0].size.Text() + CRLF + chunks[0].data + CRLF + EncodeChunks(chunks[1..], last)
  }

  function Payload(chunks: seq<Chunk>): string {
    if chunks == [] then "" else chunks[0].data + Payload(chunks[1..])
  }

  datatype Body = NoBody | Fixed(data: string) | Chunks(chunks: seq<Chunk>, last: SizeLine) {
    predicate Good() {
      Chunks? ==> GoodChunks(chunks) && GoodLast(last)
    }
  }

  datatype Response = Response(http10: bool, code: nat, reason: string, headers: seq<Field>, body: Body)

  function EncodeBody(body: Body): string
    requires body.Good()
  {
    match body
    case NoBody => ""
    case Fixed(data) => data
    case Chunks(chunks, last) => EncodeChunks(chunks, last)
  }

  function StatusText(r: Response): string {
    (if r.http10 then "HTTP/1.0 " else "HTTP/1.1 ") + Numeral(r.code) + " " + r.reason
  }

  function Encode(r: Response): string
    requires r.body.Good()
  {
    StatusText(r) + CRLF + EncodeHeaders(r.headers) + EncodeBody(r.body)
  }

  /** A response that announces its body: none of the framing fields, its own printed length in the first length
      field, or one chunked encoding. */
  predicate WellFormed(r: Response) {
    && 100 <= r.code < 600 && '\r' !in r.reason
    && (forall i :: 0 <= i < |r.headers| ==> GoodField(r.headers[i]))
    && r.body.Good() && Announces(r.headers, r.body)
  }

  predicate Announces(hs: seq<Field>, body: Body) {
    match body
    case NoBody => forall i :: 0 <= i < |hs| ==> !IsLength(hs[i]) && !IsChunked(hs[i])
    case Fixed(data) =>
      && |data| < 0x8000_0000
      && (forall i :: 0 <= i < |hs| ==> !IsChunked(hs[i]))
      && (exists i :: 0 <= i < |hs| && FirstLength(hs, i, Numeral(|data|)))
    case Chunks(_, _) =>
      && (forall i :: 0 <= i < |hs| ==> !IsLength(hs[i]))
      && (exists i :: 0 <= i < |hs| && OnlyChunked(hs, i))
  }

  predicate FirstLength(hs: seq<Field>, i: nat, value: string) {
    i < |hs| && IsLength(hs[i]) && hs[i].1 == value && forall j :: 0 <= j < i ==> !IsLength(hs[j])
  }

  predicate OnlyChunked(hs: seq<Field>, i: nat) {
    i < |hs| && IsChunked(hs[i]) && forall j :: 0 <= j < |hs| && j != i ==> !IsChunked(hs[j])
  }

  /** The value of `content_length` that tells how the body is framed. */
  function Framing(body: Body): int {
    match body
    case NoBody => -1
    case Fixed(data) => |data|
    case Chunks(_, _) => -2
  }

  lemma {:induction false} FramingOfFirst(hs: seq<Field>, i: nat)
    requires i <= |hs| && forall j :: 0 <= j < i ==> !IsLength(hs[j]) && !IsChunked(hs[j])
    ensures FramingOf(hs) == FramingOf(hs[i..])
    decreases i
  {
    hide IsLength, IsChunked, LengthOf;
    if i == 0 {
      assert hs[0..] == hs;
    } else {
      FramingOfFirst(hs[1..], i - 1);
      assert hs[1..][i - 1..] == hs[i..];
    }
  }

  lemma AnnouncedNothing(hs: seq<Field>)
    requires forall j :: 0 <= j < |hs| ==> !IsLength(hs[j]) && !IsChunked(hs[j])
    ensures AcceptableFraming(hs) && FramingOf(hs) == -1
  {
    hide IsLength, IsChunked, LengthOf;
    FramingOfFirst(hs, |hs|);
  }

  lemma AnnouncedLength(hs: seq<Field>, i: nat, n: nat)
    requires n < 0x8000_0000 && forall j :: 0 <= j < |hs| ==> !IsChunked(hs[j])
    requires FirstLength(hs, i, Numeral(n))
    ensures AcceptableFraming(hs) && FramingOf(hs) == n
  {
    LengthReads(hs[i].0, "", n, "");
    assert "" + (Numeral(n) + "") == hs[i].1 && hs[i] == (hs[i].0, hs[i].1);
    hide IsLength, IsChunked, LengthOf, Numeral;
    FramingOfFirst(hs, i);
  }

  lemma AnnouncedChunks(hs: seq<Field>, i: nat)
    requires forall j :: 0 <= j < |hs| ==> !IsLength(hs[j])
    requires OnlyChunked(hs, i)
    ensures AcceptableFraming(hs) && FramingOf(hs) == -2
  {
    hide IsLength, IsChunked, LengthOf;
    FramingOfFirst(hs, i);
  }

  /** The announcement is accepted, and decides the framing of the body. */
  lemma AnnouncedFraming(hs: seq<Field>, body: Body)
    requires Announces(hs, body)
    ensures AcceptableFraming(hs) && FramingOf(hs) == Framing(body)
  {
    hide IsLength, IsChunked, LengthOf, Numeral, FirstLength, OnlyChunked;
    match body
    case NoBody => AnnouncedNothing(hs);
    case Fixed(data) =>
      hide FramingOf, AcceptableFraming;
      var i :| 0 <= i < |hs| && FirstLength(hs, i, Numeral(|data|));
      AnnouncedLength(hs, i, |data|);
    case Chunks(_, _) =>
      hide FramingOf, AcceptableFraming;
      var i :| 0 <= i < |hs| && OnlyChunked(hs, i);
      AnnouncedChunks(hs, i);
  }

  // ---- searching printed text -----------------------------------------------------------------------

  lemma {:induction false} FindLineEnd(line: string, rest: string)
    requires '\r' !in line
    ensures FindBytes(line + CRLF + rest, CRLF) == |line|
  {
    var t := line + CRLF + rest;
    if line != "" {
      assert t[0] == line[0] && line[0] in line;
      assert t[1..] == line[1..] + CRLF + rest;
      FindLineEnd(line[1..], rest);
    } else {
      assert t[0] == '\r' && t[1] == '\n';
    }
  }

  lemma {:induction false} FindSeparator(key: string, rest: string)
    requires ':' !in key
    ensures FindBytes(key + ": " + rest, SEPARATOR) == |key|
  {
    var t := key + SEPARATOR + rest;
    if key != "" {
      assert t[0] == key[0] && key[0] in key;
      assert t[1..] == key[1..] + SEPARATOR + rest;
      FindSeparator(key[1..], rest);
    } else {
      assert t[0] == ':' && t[1] == ' ';
    }
  }

  // ---- headers --------------------------------------------------------------------------------------

  lemma PrintedHeaderSplit(h: Field, rest: string)
    requires GoodField(h)
    ensures var t := HeaderLine(h) + CRLF + rest;
            FindBytes(t, CRLF) == |HeaderLine(h)| && SplitHdr(t) == SplitOk(h.0, h.1, CRLF + rest)
    ensures FindBytes(HeaderLine(h) + CRLF + rest, SEPARATOR) == |h.0|
    ensures '\r' !in HeaderLine(h)
  {
    var line := HeaderLine(h);
    var t := line + CRLF + rest;
    assert '\r' !in SEPARATOR;
    FindLineEnd(line, rest);
    assert t == h.0 + SEPARATOR + (h.1 + CRLF + rest);
    FindSeparator(h.0, h.1 + CRLF + rest);
    hide FindBytes;
    assert t[..|h.0|] == h.0;
    assert t[|h.0| + 2..|line|] == h.1;
    assert t[|line|..] == CRLF + rest;
  }

  lemma PrintedHeaderParsed(s: Ctx, h: Field, rest: string)
    requires GoodField(h)
    ensures var (t, n) := (HeaderLine(h) + CRLF + rest, |HeaderLine(h)|);
            && FindBytes(t, CRLF) == n
            && ParseHdr(s, t) == match ProcessHdr(s, ToLower(h.0), h.1)
                                 case None => HdrFailed
                                 case Some(s') => HdrOk(s', CRLF + rest)
    ensures '\r' !in HeaderLine(h)
  {
    PrintedHeaderSplit(h, rest);
    CStringOfClean(h.0);
    CStringOfClean(h.1);
    hide SplitHdr, FindBytes, ProcessHdr, CString, ToLower;
  }

  lemma HeaderLineStep(s: Ctx, h: Field, rest: string)
    requires Valid(s) && s.state == Headers && GoodField(h)
    ensures var r := HeaderStep(s, HeaderLine(h) + CRLF + rest);
            match ProcessHdr(s, ToLower(h.0), h.1)
            case None => r.Stop? && r.verdict == Failed
            case Some(s') => r == Go(s', rest)
    ensures CleanHere(s, HeaderLine(h) + CRLF + rest)
    ensures FindBytes(HeaderLine(h) + CRLF + rest, SEPARATOR) > 0
  {
    var (line, t) := (HeaderLine(h), HeaderLine(h) + CRLF + rest);
    PrintedHeaderParsed(s, h, rest);
    PrintedHeaderSplit(h, rest);
    assert t[..|line|] == line && |line| > 0;
    hide ParseHdr, ProcessHdr, ToLower, HeaderLine;
    FindLineEnd("", rest);
    assert "" + CRLF + rest == CRLF + rest;
    assert (CRLF + rest)[2..] == rest;
  }

  /** A header section is read field by field and leaves the parser at the first byte of the content. */
  lemma {:induction false} HeadersRun(env: Env, s: Ctx, hs: seq<Field>, rest: string)
    requires Valid(s) && s.state == Headers
    requires forall i :: 0 <= i < |hs| ==> GoodField(hs[i])
    ensures match FoldHdrs(s, hs)
            case None => Run(env, s, EncodeHeaders(hs) + rest).verdict == Failed
            case Some(s') =>
              var sc := s'.(state := Content);
              && Run(env, s, EncodeHeaders(hs) + rest) == Run(env, sc, rest)
              && (CleanLines(env, s, EncodeHeaders(hs) + rest) <==> CleanLines(env, sc, rest))
    decreases |hs|
  {
    hide HeaderStep, FindBytes, StatusStep, ContentStep;
    var t := EncodeHeaders(hs) + rest;
    if hs == [] {
      BlankLineStep(s, rest);
    } else {
      var tail := EncodeHeaders(hs[1..]) + rest;
      assert t == HeaderLine(hs[0]) + CRLF + tail;
      HeaderLineStep(s, hs[0], tail);
      match ProcessHdr(s, ToLower(hs[0].0), hs[0].1)
      case None =>
      case Some(s') => HeadersRun(env, s', hs[1..], rest);
    }
  }

  lemma BlankLineStep(s: Ctx, rest: string)
    requires Valid(s) && s.state == Headers
    ensures HeaderStep(s, CRLF + rest) == Go(s.(state := Content), rest)
    ensures CleanHere(s, CRLF + rest)
    ensures FindBytes(CRLF + rest, SEPARATOR) > 0
  {
    var t := CRLF + rest;
    assert t[0] != SEPARATOR[0];
    assert t == "" + CRLF + rest;
    FindLineEnd("", rest);
    assert t[2..] == rest && t[..0] == "";
  }

  // ---- chunked bodies -------------------------------------------------------------------------------

  predicate AtChunk(s: Ctx) {
    Valid(s) && s.state == Content && s.contentLength == CHUNKED && s.chunkState == ChunkSize
  }

  /** The context when the data of one chunk has been copied and its line end skipped. */
  function AfterChunk(s: Ctx, data: string): Ctx {
    s.(body := s.body + data, bodySize := s.bodySize + |data|, chunkSize := |data|, chunkGot := |data|)
  }

  /** What the parser reads from a size line. */
  lemma SizeLineReads(line: SizeLine)
    requires line.Good()
    ensures '\r' !in line.Text()
    ensures Strtol16(CString(line.Text())) == if Value(line.digits) < LONG_MAX then Value(line.digits) else LONG_MAX
  {
    var (ds, ext) := (line.digits, line.ext);
    forall i | 0 <= i < |ds|
      ensures Spell(ds)[i] != '\r' && Spell(ds)[i] != '\0'
    {
      GlyphReads(ds[i]);
    }
    CStringAppend(Spell(ds), ext);
    assert EndsNumber(CString(ext));
    Strtol16Reads("", ds, CString(ext));
    hide Spell, Strtol16, CString, Value;
    assert "" + (Spell(ds) + CString(ext)) == Spell(ds) + CString(ext);
  }

  /** The context between a chunk-size line and its data. */
  function BeforeData(s: Ctx, n: nat): Ctx {
    s.(chunkSize := n, chunkGot := 0, bodySize := s.bodySize + n, chunkState := ChunkData)
  }

  lemma SizeLineStep(env: Env, s: Ctx, line: SizeLine, rest: string)
    requires AtChunk(s) && line.Good() && 0 < Value(line.digits) < LONG_MAX
    ensures var t := line.Text() + CRLF + rest;
            SizeStep(env, s, t) == Go(BeforeData(s, Value(line.digits)), rest) && CleanHere(s, t)
  {
    hide Spell, Strtol16, CString, Value;
    var (text, t) := (line.Text(), line.Text() + CRLF + rest);
    SizeLineReads(line);
    FindLineEnd(text, rest);
    hide FindBytes;
    assert t[..|text|] == text;
    assert t[|text|..] == CRLF + rest && (CRLF + rest)[2..] == rest;
  }

  lemma DataStepAll(env: Env, s: Ctx, data: string, rest: string)
    requires Valid(s) && InData(s) && Owed(s) == |data|
    ensures Step(env, s, data + rest) ==
            Go(s.(body := s.body + data, chunkGot := s.chunkSize, chunkState := ChunkEndCrlf), rest)
  {
    assert (data + rest)[..|data|] == data && (data + rest)[|data|..] == rest;
  }

  lemma LineEndStep(s: Ctx, rest: string)
    requires Valid(s) && s.state == Content && (s.chunkState == ChunkEndCrlf || s.chunkState == FinalCrlf)
    ensures CrlfStep(s, CRLF + rest) ==
            if s.chunkState == FinalCrlf then Stop(Success, s.(bodySize := s.bodySize + 1), rest)
            else Go(s.(chunkState := if s.chunkSize == 0 then FinalCrlf else ChunkSize), rest)
  {
    assert (CRLF + rest)[..2] == CRLF && (CRLF + rest)[2..] == rest;
  }

  lemma OneChunkRun(env: Env, s: Ctx, c: Chunk, rest: string)
    requires AtChunk(s) && c.Good()
    ensures AtChunk(AfterChunk(s, c.data))
    ensures Run(env, s, c.size.Text() + CRLF + (c.data + (CRLF + rest))) == Run(env, AfterChunk(s, c.data), rest)
    ensures CleanLines(env, AfterChunk(s, c.data), rest) ==>
            CleanLines(env, s, c.size.Text() + CRLF + (c.data + (CRLF + rest)))
  {
    var n := |c.data|;
    var (v, u) := (CRLF + rest, c.data + (CRLF + rest));
    var (t, s1) := (c.size.Text() + CRLF + u, BeforeData(s, n));
    var s2 := s1.(body := s1.body + c.data, chunkGot := n, chunkState := ChunkEndCrlf);
    SizeLineStep(env, s, c.size, u);
    DataStepAll(env, s1, c.data, v);
    LineEndStep(s2, rest);
    hide SizeStep, StatusStep, HeaderStep, CrlfStep, DataStep, CleanHere;
    assert Step(env, s, t) == Go(s1, u);
    assert Step(env, s2, v) == Go(AfterChunk(s, c.data), rest);
    assert CleanHere(s1, u) && CleanHere(s2, v) by {
      NoSearchIsClean(s1, u);
      NoSearchIsClean(s2, v);
    }
    hide Step;
    StepOn(env, s, t, s1, u);
    StepOn(env, s1, u, s2, v);
    StepOn(env, s2, v, AfterChunk(s, c.data), rest);
  }

  lemma NoSearchIsClean(s: Ctx, t: string)
    requires !LineSearch(s)
    ensures CleanHere(s, t)
  {
  }

  /** The size line of the last chunk leaves its line end; with `errno` left at EINVAL it is refused. */
  lemma ZeroLineStep(env: Env, s: Ctx, last: SizeLine, rest: string)
    requires AtChunk(s) && GoodLast(last)
    ensures var (t, r) := (last.Text() + CRLF + rest, SizeStep(env, s, last.Text() + CRLF + rest));
            && (!env.errnoEinval ==> r == Go(s.(chunkSize := 0, chunkState := ChunkEndCrlf), CRLF + rest))
            && (env.errnoEinval ==> r.Stop? && r.verdict == Failed)
            && CleanHere(s, t)
  {
    hide Spell, Strtol16, CString, Value;
    var (text, t) := (last.Text(), last.Text() + CRLF + rest);
    SizeLineReads(last);
    FindLineEnd(text, rest);
    hide FindBytes;
    assert t[..|text|] == text && t[|text|..] == CRLF + rest;
  }

  lemma LastChunkRun(env: Env, s: Ctx, last: SizeLine, rest: string)
    requires AtChunk(s) && GoodLast(last) && !env.errnoEinval
    ensures var o := Run(env, s, last.Text() + CRLF + (CRLF + rest));
            o == Outcome(Success, s.(chunkSize := 0, chunkState := FinalCrlf, bodySize := s.bodySize + 1), rest)
    ensures CleanLines(env, s, last.Text() + CRLF + (CRLF + rest))
  {
    var (v, w) := (CRLF + (CRLF + rest), CRLF + rest);
    var t := last.Text() + CRLF + w;
    var s1 := s.(chunkSize := 0, chunkState := ChunkEndCrlf);
    var s2 := s1.(chunkState := FinalCrlf);
    ZeroLineStep(env, s, last, w);
    LineEndStep(s1, w);
    LineEndStep(s2, rest);
    hide SizeStep, StatusStep, HeaderStep, CrlfStep, CleanHere;
    assert Step(env, s, t) == Go(s1, v);
    assert Step(env, s1, v) == Go(s2, w);
    assert Step(env, s2, w) == Stop(Success, s2.(bodySize := s2.bodySize + 1), rest);
    assert CleanHere(s1, v) && CleanHere(s2, w) by {
      NoSearchIsClean(s1, v);
      NoSearchIsClean(s2, w);
    }
    hide Step;
    StepOn(env, s, t, s1, v);
    StepOn(env, s1, v, s2, w);
  }

  lemma Regroup(a: string, b: string, c: string, d: string, e: string, f: string)
    ensures a + b + c + d + e + f == a + b + (c + (d + (e + f)))
  {
  }

  lemma FirstChunkApart(chunks: seq<Chunk>, last: SizeLine, rest: string)
    requires GoodChunks(chunks) && GoodLast(last) && chunks != []
    ensures GoodChunks(chunks[1..])
    ensures EncodeChunks(chunks, last) + rest ==
            chunks[0].size.Text() + CRLF + (chunks[0].data + (CRLF + (EncodeChunks(chunks[1..], last) + rest)))
  {
    hide Spell, Value, SizeLine.Text;
    Regroup(chunks[0].size.Text(), CRLF, chunks[0].data, CRLF, EncodeChunks(chunks[1..], last), rest);
  }

  /** Chunked round trip: for every list of non-empty chunks, whatever bytes they hold and however their sizes are
      spelled, decoding appends exactly their concatenation and room for one terminator. */
  lemma {:induction false} ChunksRun(env: Env, s: Ctx, chunks: seq<Chunk>, last: SizeLine, rest: string)
    requires AtChunk(s) && GoodChunks(chunks) && GoodLast(last) && !env.errnoEinval
    ensures var o := Run(env, s, EncodeChunks(chunks, last) + rest);
            && o.verdict == Success && o.unread == rest
            && o.ctx.body == s.body + Payload(chunks)
            && o.ctx.bodySize == |o.ctx.body| + 1
            && o.ctx.httpCode == s.httpCode && o.ctx.headers == s.headers && o.ctx.contentLength == CHUNKED
    ensures CleanLines(env, s, EncodeChunks(chunks, last) + rest)
    decreases |chunks|
  {
    hide Step, CleanLines, Run, Spell, Value;
    if chunks == [] {
      LastChunkRun(env, s, last, rest);
      assert EncodeChunks(chunks, last) + rest == last.Text() + CRLF + (CRLF + rest);
      assert s.body + Payload(chunks) == s.body;
    } else {
      var c := chunks[0];
      FirstChunkApart(chunks, last, rest);
      assert s.body + Payload(chunks) == (s.body + c.data) + Payload(chunks[1..]);
      hide EncodeChunks, Payload;
      OneChunkRun(env, s, c, EncodeChunks(chunks[1..], last) + rest);
      ChunksRun(env, AfterChunk(s, c.data), chunks[1..], last, rest);
    }
  }

  // ---- whole responses ------------------------------------------------------------------------------

  /** Three decimal digits, with leading zeros. */
  function ThreeDigits(n: nat): string
    requires n < 1000
  {
    [Glyph(n / 100), Glyph(n / 10 % 10), Glyph(n % 10)]
  }

  lemma ReadThree(a: nat, b: nat, c: nat)
    requires a < 10 && b < 10 && c < 10
    ensures ReadDigits([Glyph(a), Glyph(b), Glyph(c)], 10, 0) == (a * 10 + b) * 10 + c
  {
    hide Glyph, DigitVal;
    assert ReadDigits("", 10, (a * 10 + b) * 10 + c) == (a * 10 + b) * 10 + c;
    hide ReadDigits;
    ReadOneDigit(a, 0, [Glyph(b), Glyph(c)]);
    ReadOneDigit(b, a, [Glyph(c)]);
    ReadOneDigit(c, a * 10 + b, "");
    assert [Glyph(a), Glyph(b), Glyph(c)] == [Glyph(a)] + [Glyph(b), Glyph(c)];
    assert [Glyph(b), Glyph(c)] == [Glyph(b)] + [Glyph(c)] && [Glyph(c)] == [Glyph(c)] + "";
  }

  lemma ThreeDigitsRead(n: nat)
    requires n < 1000
    ensures Atoi(ThreeDigits(n)) == n
    ensures forall i :: 0 <= i < 3 ==> '0' <= ThreeDigits(n)[i] <= '9'
  {
    hide Glyph, DigitVal, Atoi, ReadDigits;
    ReadThree(n / 100, n / 10 % 10, n % 10);
    AtoiDigits(ThreeDigits(n));
    assert (n / 100 * 10 + n / 10 % 10) * 10 + n % 10 == n;
  }

  lemma ThreeDigitNumeral(n: nat)
    requires 100 <= n < 1000
    ensures Numeral(n) == ThreeDigits(n)
  {
    hide Glyph;
    assert Numeral(n / 100) == [Glyph(n / 100)];
    assert Numeral(n / 10) == Numeral(n / 100) + [Glyph(n / 10 % 10)];
    assert Numeral(n) == Numeral(n / 10) + [Glyph(n % 10)];
  }

  /** Three digits and a space are a status code exactly from 100 to 599. */
  lemma StatusCodeRange(n: nat, rest: string)
    requires n < 1000
    ensures StatusCode(ThreeDigits(n) + " " + rest) == if 100 <= n < 600 then Some(n) else None
  {
    var digits := ThreeDigits(n);
    var b := digits + " " + rest;
    ThreeDigitsRead(n);
    CStringOfClean(digits);
    hide CString, Atoi, ThreeDigits;
    assert b[..3] == digits && b[3] == ' ';
  }

  lemma StatusTextShape(r: Response, rest: string)
    requires 100 <= r.code < 600 && '\r' !in r.reason
    ensures '\r' !in StatusText(r)
    ensures var (t, u) := (StatusText(r) + CRLF + rest, ThreeDigits(r.code) + " " + (r.reason + CRLF + rest));
            |t| >= 9 && t[..9] == (if r.http10 then "HTTP/1.0 " else "HTTP/1.1 ") && t[9..] == u && u[4..] == r.reason + CRLF + rest
  {
    var proto := if r.http10 then "HTTP/1.0 " else "HTTP/1.1 ";
    ThreeDigitsRead(r.code);
    ThreeDigitNumeral(r.code);
    ProtoText(r.http10);
    hide Numeral, ThreeDigits, Atoi;
    CutAtNine(proto, ThreeDigits(r.code), r.reason, CRLF + rest);
    assert r.reason + CRLF + rest == r.reason + (CRLF + rest);
    assert StatusText(r) + CRLF + rest == StatusText(r) + (CRLF + rest);
  }

  lemma ProtoText(http10: bool)
    ensures var proto := if http10 then "HTTP/1.0 " else "HTTP/1.1 "; |proto| == 9 && '\r' !in proto
  {
  }

  lemma CutAtNine(proto: string, digits: string, reason: string, rest: string)
    requires |proto| == 9 && |digits| == 3
    ensures var (t, u) := (proto + digits + " " + reason + rest, digits + " " + (reason + rest));
            t[..9] == proto && t[9..] == u && u[4..] == reason + rest
  {
  }

  lemma StatusTextStep(s: Ctx, r: Response, rest: string)
    requires Valid(s) && (s.state == Initial || s.state == ProxyConnect) && (r.http10 ==> s.state == ProxyConnect)
    requires 100 <= r.code < 600 && '\r' !in r.reason
    ensures StatusStep(s, StatusText(r) + CRLF + rest) == Go(s.(httpCode := r.code, state := Headers), rest)
    ensures FindBytes(StatusText(r) + CRLF + rest, CRLF) == |StatusText(r)|
    ensures '\r' !in StatusText(r)
  {
    hide FindBytes, StatusCode, StatusStep, StatusText, Numeral, ThreeDigits;
    var (t, tail) := (StatusText(r) + CRLF + rest, r.reason + CRLF + rest);
    StatusTextShape(r, rest);
    FindLineEnd(StatusText(r), rest);
    FindLineEnd(r.reason, rest);
    StatusCodeRange(r.code, tail);
    StatusStepOn(s, t, r.code, tail);
    assert tail[|r.reason| + 2..] == rest;
  }

  /** The protocol names: HTTP/1.1, and from a proxy that answers a CONNECT also HTTP/1.0. */
  lemma ProtocolNames(s: Ctx, t: string)
    requires |t| >= 9
    ensures ProtoOk(s, t) <==> t[..9] == "HTTP/1.1 " || (s.state == ProxyConnect && t[..9] == "HTTP/1.0 ")
  {
    assert forall i :: 0 <= i < 9 ==> t[..9][i] == t[i];
  }

  lemma StatusStepOn(s: Ctx, t: string, code: int, tail: string)
    requires Valid(s) && (s.state == Initial || s.state == ProxyConnect)
    requires |t| >= 9 && (t[..9] == "HTTP/1.1 " || (s.state == ProxyConnect && t[..9] == "HTTP/1.0 "))
    requires FindBytes(t, CRLF) < |t| && StatusCode(t[9..]) == Some(code) && t[9..][4..] == tail
    ensures StatusStep(s, t) == Go(s.(httpCode := code, state := Headers), BumpTail(tail, FindBytes(tail, CRLF) + 2))
  {
    ProtocolNames(s, t);
    hide FindBytes, StatusCode, ProtoOk;
  }

  /** A new context that can receive the response: HTTP/1.0 only in answer to a proxy CONNECT. */
  predicate Awaits(s: Ctx, r: Response) {
    || s == Fresh(ProxyConnect, s.dontWait)
    || (s == Fresh(Initial, s.dontWait) && !r.http10)
  }

  /** The parser has recovered the response: its code, framing, header table and body. */
  ghost predicate Recovered(r: Response, o: Outcome, rest: string) {
    && o.verdict == Success
    && o.ctx.httpCode == r.code
    && o.ctx.contentLength == Framing(r.body)
    && Tabulates(o.ctx.headers, r.headers)
    && BodyRecovered(r.body, o, rest)
  }

  /** A fixed-length body is left in the buffer for the caller; a chunked one is in the response buffer. */
  ghost predicate BodyRecovered(body: Body, o: Outcome, rest: string) {
    match body
    case NoBody => o.unread == rest
    case Fixed(data) => o.unread == data + rest
    case Chunks(chunks, _) => o.ctx.body == Payload(chunks) && o.ctx.bodySize == |o.ctx.body| + 1 && o.unread == rest
  }

  /** The status line and the header fields lead to the content with the announced framing. */
  lemma HeadRun(env: Env, s: Ctx, r: Response, content: string)
    requires Awaits(s, r) && 100 <= r.code < 600 && '\r' !in r.reason
    requires forall i :: 0 <= i < |r.headers| ==> GoodField(r.headers[i])
    requires Announces(r.headers, r.body)
    ensures var sh := FoldHdrs(s.(httpCode := r.code, state := Headers), r.headers);
            && sh.Some? && sh.value.contentLength == Framing(r.body) && Tabulates(sh.value.headers, r.headers)
            && Run(env, s, StatusText(r) + CRLF + (EncodeHeaders(r.headers) + content)) == Run(env, sh.value.(state := Content), content)
            && (CleanLines(env, s, StatusText(r) + CRLF + (EncodeHeaders(r.headers) + content))
                <==> CleanLines(env, sh.value.(state := Content), content))
  {
    hide EncodeHeaders, Announces, GoodField, Tabulates, AcceptableFraming, Numeral;
    var (sh, tail) := (s.(httpCode := r.code, state := Headers), EncodeHeaders(r.headers) + content);
    var t := StatusText(r) + CRLF + tail;
    StatusTextStep(s, r, tail);
    assert CleanHere(s, t) by {
      assert t[..|StatusText(r)|] == StatusText(r);
    }
    hide StatusStep, FindBytes, CleanHere, CleanLines, Run, StatusText;
    assert Step(env, s, t) == Go(sh, tail);
    StepOn(env, s, t, sh, tail);
    AnnouncedFraming(r.headers, r.body);
    FramingDecided(sh, r.headers);
    HeadersRun(env, sh, r.headers, content);
    FoldTabulates(sh, r.headers);
  }

  lemma EncodeParts(r: Response, rest: string)
    requires r.body.Good()
    ensures Encode(r) + rest == StatusText(r) + CRLF + (EncodeHeaders(r.headers) + (EncodeBody(r.body) + rest))
  {
    hide StatusText, EncodeHeaders, EncodeBody;
  }

  /** Whole-message round trip: one call on a printed response recovers its code, header fields, framing
      and body, and reads nothing behind it. */
  lemma ResponseRoundTrip(env: Env, s: Ctx, r: Response, rest: string)
    requires Awaits(s, r) && WellFormed(r) && !env.errnoEinval
    ensures Recovered(r, Run(env, s, Encode(r) + rest), rest)
    ensures CleanLines(env, s, Encode(r) + rest)
  {
    hide EncodeHeaders, EncodeBody, Announces, GoodField, Tabulates, CleanLines, Run, StatusText, Encode;
    var content := EncodeBody(r.body) + rest;
    EncodeParts(r, rest);
    HeadRun(env, s, r, content);
    BodyRun(env, FoldHdrs(s.(httpCode := r.code, state := Headers), r.headers).value.(state := Content), r.body, rest);
  }

  lemma BodyRun(env: Env, s: Ctx, body: Body, rest: string)
    requires Valid(s) && s.state == Content && s.chunkState == ChunkSize && s.body == "" && !env.errnoEinval
    requires body.Good() && s.contentLength == Framing(body)
    ensures CleanLines(env, s, EncodeBody(body) + rest)
    ensures var o := Run(env, s, EncodeBody(body) + rest);
            && o.verdict == Success
            && o.ctx.httpCode == s.httpCode && o.ctx.contentLength == s.contentLength && o.ctx.headers == s.headers
            && BodyRecovered(body, o, rest)
  {
    match body
    case NoBody => assert "" + rest == rest;
    case Fixed(data) =>
    case Chunks(chunks, last) =>
      hide Step, CleanLines, Run, EncodeChunks;
      ChunksRun(env, s, chunks, last, rest);
      assert "" + Payload(chunks) == Payload(chunks);
  }
}
