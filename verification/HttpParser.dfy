/** The incremental HTTP/1.1 response parser as a step function: one step is one turn of the parser's
    state loops. A call runs steps until one of them returns to the reader. */
module HttpParser {
  import opened Basics
  import opened Text
  import opened RingBuffer

  const PROTO_1_1 := "HTTP/1.1 "
  const PROTO_1_0 := "HTTP/1.0 "
  const PROTO_LEN := 9
  const CRLF_LEN := 2
  const SEPARATOR := ": "
  const HDR_BUFFER_SIZE := 1024
  const UNSET := -1
  const CHUNKED := -2

  datatype ParseState = ProxyConnect | Initial | Headers | Content
  datatype ChunkState = ChunkSize | ChunkData | ChunkEndCrlf | FinalCrlf

  /** `http_parse_ctx`; `body` is the written part of `chunked_response`, `bodySize` its allocated size. */
  datatype Ctx = Ctx(
    dontWait: bool,
    state: ParseState,
    contentLength: int,
    httpCode: int,
    headers: map<string, string>,
    body: string,
    bodySize: nat,
    chunkState: ChunkState,
    chunkSize: nat,
    chunkGot: nat)

  /** What the parser reads from outside: the buffer's capacity, none for a buffer without limit, and
      whether `errno` holds EINVAL. */
  datatype Env = Env(capacity: Option<nat>, errnoEinval: bool)

  /** Is `n` below the capacity? */
  predicate Below(env: Env, n: nat) {
    env.capacity.Some? ==> n < env.capacity.value
  }

  /** The same environment with room for any message. */
  function Roomy(env: Env): Env {
    env.(capacity := None)
  }

  /** `Overrun` stands for the copy with a negative length that C leaves undefined, and for the assertion that
      popping nothing from a full buffer trips. */
  datatype Verdict = NeedMore | Success | Failed | Overrun

  datatype StepResult = Go(ctx: Ctx, buf: string) | Stop(verdict: Verdict, ctx: Ctx, buf: string)
  datatype Outcome = Outcome(verdict: Verdict, ctx: Ctx, unread: string)

  /** A zeroed context after `http_parse_ctx_create`. */
  function Fresh(state: ParseState, dontWait: bool): Ctx {
    Ctx(dontWait, state, UNSET, 0, map[], "", 0, ChunkSize, 0, 0)
  }

  /** Bytes the current chunk still owes the response buffer. */
  function Owed(s: Ctx): int {
    if s.chunkState == ChunkData then s.chunkSize - s.chunkGot else 0
  }

  /** The loop-head invariant: the allocation is what was written plus what is owed. */
  predicate Valid(s: Ctx) {
    && (s.state != Content ==> s.chunkState == ChunkSize && s.body == "")
    && (s.chunkState == ChunkData ==> s.chunkGot < s.chunkSize)
    && s.bodySize == |s.body| + Owed(s)
  }

  function Rank(s: Ctx): nat {
    match s.state
    case ProxyConnect | Initial => 4
    case Headers => 3
    case Content => if s.chunkState == ChunkSize then 2 else if s.chunkState == FinalCrlf then 0 else 1
  }

  /** Every step that does not return keeps the invariant and either consumes input or moves to a
      later state; a step that asks for more data leaves everything as it was. */
  ghost predicate GoodStep(s: Ctx, b: string, r: StepResult) {
    match r
    case Go(s', b') =>
      && Valid(s')
      && (|b'| < |b| || (b' == b && Rank(s') < Rank(s)))
    case Stop(v, s', b') => v == NeedMore ==> s' == s && b' == b
  }

  // ---- headers --------------------------------------------------------------------------------

  /** `process_http_hdr`; None is the error return. */
  function ProcessHdr(s: Ctx, key: string, val: string): (r: Option<Ctx>)
    ensures r.Some? ==> r.value == s.(contentLength := r.value.contentLength, headers := r.value.headers)
  {
    if s.contentLength < 0 && key == "content-length" then
      if s.contentLength != UNSET then None
      else
        var n := ToInt32(Str2u(val));
        if n < 0 then None else Some(s.(contentLength := n))
    else if key == "transfer-encoding" then
      if val == "chunked" then
        if s.contentLength != UNSET then None else Some(s.(contentLength := CHUNKED))
      else Some(s)
    else Some(s.(headers := s.headers[key := val]))
  }

  datatype Split = NoSplit | SplitOverrun | SplitOk(key: string, val: string, rest: string)

  /** The cutting of a header line into key and value. The separator search is not limited to the line. */
  function SplitHdr(b: string): (r: Split)
    ensures r.SplitOk? ==> |r.rest| + 2 <= |b|
  {
    var end := FindBytes(b, CRLF);
    var sep := FindBytes(b, SEPARATOR);
    if end == |b| || sep == |b| || sep >= HDR_BUFFER_SIZE then NoSplit
    else
      var len := end - sep - 2;
      if len >= HDR_BUFFER_SIZE then NoSplit
      else if len < 0 then SplitOverrun
      else SplitOk(b[..sep], b[sep + 2..end], b[end..])
  }

  datatype HdrResult = HdrFailed | HdrOverrun | HdrOk(ctx: Ctx, rest: string)

  /** `parse_http_hdr`. */
  function ParseHdr(s: Ctx, b: string): (r: HdrResult)
    ensures r.HdrOk? ==> |r.rest| + 2 <= |b|
    ensures r.HdrOk? ==> r.ctx == s.(contentLength := r.ctx.contentLength, headers := r.ctx.headers)
  {
    match SplitHdr(b)
    case NoSplit => HdrFailed
    case SplitOverrun => HdrOverrun
    case SplitOk(key, val, rest) =>
      match ProcessHdr(s, ToLower(CString(key)), CString(val))
      case None => HdrFailed
      case Some(s') => HdrOk(s', rest)
  }

  // ---- the steps ------------------------------------------------------------------------------

  predicate ProtoOk(s: Ctx, b: string) {
    Agrees(b, PROTO_1_1) || (s.state == ProxyConnect && Agrees(b, PROTO_1_0))
  }

  /** The status code behind the protocol name: three characters and a space, in the range 100 to 599. */
  function StatusCode(b: string): (r: Option<int>)
    ensures r.Some? ==> |b| >= 4 && 100 <= r.value < 600
  {
    if |b| < 4 || b[3] != ' ' then None
    else
      var code := Atoi(CString(b[..3]));
      if code < 100 || code >= 600 then None else Some(code)
  }

  function StatusStep(s: Ctx, b: string): (r: StepResult)
    requires Valid(s) && (s.state == Initial || s.state == ProxyConnect)
    ensures GoodStep(s, b, r)
  {
    if FindBytes(b, CRLF) == |b| then Stop(NeedMore, s, b)
    else if !ProtoOk(s, b) then Stop(Failed, s, b)
    else StatusRead(s, BumpTail(b, PROTO_LEN))
  }

  /** The rest of the status state, behind the protocol name. */
  function StatusRead(s: Ctx, b: string): (r: StepResult)
    requires Valid(s) && (s.state == Initial || s.state == ProxyConnect)
    ensures r.Go? ==> Valid(r.ctx) && |r.buf| < |b|
    ensures r.Stop? ==> r.verdict == Failed
  {
    match StatusCode(b)
    case None => Stop(Failed, s, b)
    case Some(code) => Go(s.(httpCode := code, state := Headers), AfterLine(b[4..]))
  }

  /** Skipping to the next line. */
  function AfterLine(b: string): (r: string)
    ensures |r| <= |b|
  {
    BumpTail(b, FindBytes(b, CRLF) + CRLF_LEN)
  }

  function HeaderStep(s: Ctx, b: string): (r: StepResult)
    requires Valid(s) && s.state == Headers
    ensures GoodStep(s, b, r)
  {
    var idx := FindBytes(b, CRLF);
    if idx == |b| then Stop(NeedMore, s, b)
    else if idx == 0 then Go(s.(state := Content), BumpTail(b, CRLF_LEN))
    else
      match ParseHdr(s, b)
      case HdrFailed => Stop(Failed, s, b)
      case HdrOverrun => Stop(Overrun, s, b)
      case HdrOk(s', rest) => Go(s', AfterLine(rest))
  }

  /** A header line that starts with its separator, in a full buffer: its empty key is popped. */
  predicate Trips(env: Env, b: string) {
    !Below(env, |b|) && b != "" && FindBytes(b, CRLF) < |b| && FindBytes(b, SEPARATOR) == 0
  }

  function HeadersTurn(env: Env, s: Ctx, b: string): (r: StepResult)
    requires Valid(s) && s.state == Headers
    ensures GoodStep(s, b, r)
  {
    if Trips(env, b) then Stop(Overrun, s, b) else HeaderStep(s, b)
  }

  function SizeStep(env: Env, s: Ctx, b: string): (r: StepResult)
    requires Valid(s) && s.state == Content && s.chunkState == ChunkSize
    ensures GoodStep(s, b, r)
  {
    var idx := FindBytes(b, CRLF);
    if idx == |b| then Stop(if Below(env, |b|) then NeedMore else Failed, s, b)
    else if idx == 0 then Go(s.(chunkState := FinalCrlf), b)
    else if idx >= HDR_BUFFER_SIZE then Stop(Failed, s, b)
    else SizeRead(env, s, Strtol16(CString(b[..idx])), b[idx..])
  }

  /** The rest of the size state, once the size is read and the line end is next. */
  function SizeRead(env: Env, s: Ctx, n: int, b: string): (r: StepResult)
    requires Valid(s) && s.state == Content && s.chunkState == ChunkSize
    ensures r.Go? ==> Valid(r.ctx) && |r.buf| <= |b|
    ensures r.Stop? ==> r.verdict == Failed
  {
    if n < 0 || n == LONG_MAX || (n == 0 && env.errnoEinval) then Stop(Failed, s, b)
    else if n == 0 then Go(s.(chunkSize := 0, chunkState := ChunkEndCrlf), b)
    else
      Go(s.(chunkSize := n, chunkGot := 0, bodySize := s.bodySize + n, chunkState := ChunkData), BumpTail(b, CRLF_LEN))
  }

  function DataStep(s: Ctx, b: string): (r: StepResult)
    requires Valid(s) && s.state == Content && s.chunkState == ChunkData
    ensures GoodStep(s, b, r)
  {
    if b == "" then Stop(NeedMore, s, b)
    else
      var n := if |b| > Owed(s) then Owed(s) else |b|;
      var got := s.chunkGot + n;
      Go(s.(body := s.body + b[..n], chunkGot := got,
            chunkState := if got == s.chunkSize then ChunkEndCrlf else ChunkData), b[n..])
  }

  function CrlfStep(s: Ctx, b: string): (r: StepResult)
    requires Valid(s) && s.state == Content && (s.chunkState == ChunkEndCrlf || s.chunkState == FinalCrlf)
    ensures GoodStep(s, b, r)
  {
    if |b| < CRLF_LEN then Stop(NeedMore, s, b)
    else if b[..2] != CRLF then Stop(Failed, s, b[2..])
    else if s.chunkState == FinalCrlf then Stop(Success, s.(bodySize := s.bodySize + 1), b[2..])
    else Go(s.(chunkState := if s.chunkSize == 0 then FinalCrlf else ChunkSize), b[2..])
  }

  function ContentStep(env: Env, s: Ctx, b: string): (r: StepResult)
    requires Valid(s) && s.state == Content
    ensures GoodStep(s, b, r)
  {
    if s.contentLength == CHUNKED then
      match s.chunkState
      case ChunkSize => SizeStep(env, s, b)
      case ChunkData => DataStep(s, b)
      case _ => CrlfStep(s, b)
    else if s.contentLength < 0 || s.dontWait || |b| >= s.contentLength then Stop(Success, s, b)
    else Stop(NeedMore, s, b)
  }

  function Step(env: Env, s: Ctx, b: string): (r: StepResult)
    requires Valid(s)
    ensures GoodStep(s, b, r)
  {
    match s.state
    case ProxyConnect | Initial => StatusStep(s, b)
    case Headers => HeadersTurn(env, s, b)
    case Content => ContentStep(env, s, b)
  }

  /** One call of `parse_http_response`. */
  function Run(env: Env, s: Ctx, b: string): (o: Outcome)
    requires Valid(s)
    ensures o.verdict == NeedMore ==> Valid(o.ctx)
    decreases |b|, Rank(s)
  {
    match Step(env, s, b)
    case Stop(v, s', b') => Outcome(v, s', b')
    case Go(s', b') => Run(env, s', b')
  }
}
