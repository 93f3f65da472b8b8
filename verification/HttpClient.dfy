/** The parser as the client runs it: a context object and a ring buffer updated in place, proved to
    compute the step function of `HttpParser`. */
module HttpClient {
  import opened Basics
  import opened Text
  import opened RingBuffer
  import opened HttpParser
  import opened HttpResume

  class HttpParseCtx {
    var dontWait: bool
    var state: ParseState
    var contentLength: int
    var httpCode: int
    var headers: map<string, string>
    var response: array<char>
    var responseSize: nat
    var written: nat
    var chunkState: ChunkState
    var chunkSize: nat
    var chunkGot: nat

    /** Allocation matches its recorded size; the written part and the owed part fill it exactly. */
    ghost predicate Ok()
      reads this, response
    {
      written <= responseSize == response.Length && Valid(View())
    }

    ghost function View(): Ctx
      reads this, response
      requires written <= response.Length
    {
      Ctx(dontWait, state, contentLength, httpCode, headers, response[..written], responseSize, chunkState, chunkSize, chunkGot)
    }

    /** `http_parse_ctx_create` on a zeroed context. */
    constructor (initial: ParseState, dontWait: bool)
      requires initial == Initial || initial == ProxyConnect
      ensures Ok() && View() == Fresh(initial, dontWait) && fresh(response)
    {
      this.dontWait := dontWait;
      state := initial;
      contentLength, httpCode, headers := UNSET, 0, map[];
      response := new char[0];
      responseSize, written := 0, 0;
      chunkState, chunkSize, chunkGot := ChunkSize, 0, 0;
    }

    /** What a step method reports: the step of the specification was taken, or its return value. */
    ghost predicate Took(r: StepResult, stop: bool, v: Verdict, now: Ctx, unread: string)
    {
      if stop then r.Stop? && r.verdict == v && (v == NeedMore || v == Success ==> r.ctx == now && r.buf == unread)
      else r == Go(now, unread)
    }

    method ProcessHttpHdr(key: string, val: string) returns (failed: bool)
      requires Ok()
      modifies this`contentLength, this`headers
      ensures Ok()
      ensures match ProcessHdr(old(View()), key, val)
              case None => failed
              case Some(s) => !failed && View() == s
    {
      if contentLength < 0 && key == "content-length" {
        if contentLength == CHUNKED {
          return true;
        }
        if contentLength != UNSET {
          return true;
        }
        contentLength := ToInt32(Str2u(val));
        return contentLength < 0;
      }
      if key == "transfer-encoding" {
        if val == "chunked" {
          if contentLength != UNSET {
            return true;
          }
          contentLength := CHUNKED;
        }
        return false;
      }
      headers := headers[key := val];
      return false;
    }

    /** The key, and what follows its separator as far as it has arrived. */
    method TakeKey(buf: Rbuf, sep: nat) returns (key: string)
      requires buf.Valid() && sep <= |buf.Contents()| && !buf.TripsOn(sep)
      modifies buf
      ensures buf.Valid() && key == old(buf.Contents())[..sep]
      ensures buf.Contents() == BumpTail(old(buf.Contents())[sep..], 2)
    {
      hide Rbuf.Contents, Rbuf.Valid;
      key := buf.Pop(sep);
      var _ := buf.BumpTailBy(2);
    }

    method SplitHeader(buf: Rbuf) returns (failed: bool, overrun: bool, key: string, val: string)
      requires buf.Valid()
      requires FindBytes(buf.Contents(), CRLF) < |buf.Contents()|
      modifies buf
      ensures buf.Valid()
      ensures Trips(Env(Some(buf.data.Length), false), old(buf.Contents())) ==> !failed && overrun
      ensures !Trips(Env(Some(buf.data.Length), false), old(buf.Contents())) ==>
              match SplitHdr(old(buf.Contents()))
              case NoSplit => failed
              case SplitOverrun => !failed && overrun
              case SplitOk(k, v, rest) => !failed && !overrun && key == k && val == v && buf.Contents() == rest
    {
      hide FindBytes, SplitHdr, BumpTail;
      assert buf.sizeData <= buf.data.Length;
      hide Rbuf.Contents, Rbuf.Valid;
      ghost var b := buf.Contents();
      var end := buf.Find(CRLF);
      var sep := buf.Find(SEPARATOR);
      SplitHdrCases(b);
      if sep == buf.sizeData || sep >= HDR_BUFFER_SIZE {
        return true, false, "", "";
      }
      if buf.TripsOn(sep) {
        return false, true, "", "";
      }
      key := TakeKey(buf, sep);
      var len := end - sep - 2;
      if len >= HDR_BUFFER_SIZE {
        return true, false, "", "";
      }
      if len < 0 {
        return false, true, "", "";
      }
      ValueSlices(b, sep, end);
      val := buf.Pop(len);
      failed, overrun := false, false;
    }

    method ParseHttpHdr(buf: Rbuf) returns (failed: bool, overrun: bool)
      requires Ok() && buf.Valid() && buf.data != response
      requires FindBytes(buf.Contents(), CRLF) < |buf.Contents()|
      modifies this`contentLength, this`headers, buf
      ensures Ok() && buf.Valid()
      ensures Trips(Env(Some(buf.data.Length), false), old(buf.Contents())) ==> !failed && overrun
      ensures !Trips(Env(Some(buf.data.Length), false), old(buf.Contents())) ==>
              match ParseHdr(old(View()), old(buf.Contents()))
              case HdrFailed => failed
              case HdrOverrun => !failed && overrun
              case HdrOk(s, rest) => !failed && !overrun && View() == s && buf.Contents() == rest
    {
      hide FindBytes, SplitHdr, ProcessHdr, Trips;
      var key, val;
      failed, overrun, key, val := SplitHeader(buf);
      if !failed && !overrun {
        failed := ProcessHttpHdr(ToLower(CString(key)), CString(val));
      }
    }

    /** `chunked_response_buffer_grow_by`: a first allocation, or a larger copy. */
    method GrowBy(size: nat)
      requires written <= responseSize == response.Length
      modifies this`response, this`responseSize
      ensures fresh(response)
      ensures responseSize == response.Length == old(responseSize) + size
      ensures response[..old(responseSize)] == old(response[..])
    {
      var old_ := response;
      response := new char[responseSize + size](i reads old_ => if 0 <= i < old_.Length then old_[i] else '\0');
      responseSize := responseSize + size;
    }

    method SizeState(errnoEinval: bool, buf: Rbuf) returns (stop: bool, v: Verdict)
      requires Ok() && buf.Valid() && buf.data != response
      requires state == Content && chunkState == ChunkSize
      modifies this, buf
      ensures Ok() && buf.Valid() && (response == old(response) || fresh(response))
      ensures Took(SizeStep(Env(Some(buf.data.Length), errnoEinval), old(View()), old(buf.Contents())), stop, v, View(), buf.Contents())
      ensures v != Success
    {
      hide FindBytes, Strtol16, CString, SizeRead;
      var idx := buf.Find(CRLF);
      if idx == buf.sizeData {
        return true, if buf.sizeData >= buf.data.Length then Failed else NeedMore;
      }
      if idx == 0 {
        chunkState := FinalCrlf;
        return false, NeedMore;
      }
      if idx >= HDR_BUFFER_SIZE {
        return true, Failed;
      }
      var line := buf.Pop(idx);
      stop, v := BeginChunk(errnoEinval, Strtol16(CString(line)), buf);
    }

    method BeginChunk(errnoEinval: bool, n: int, buf: Rbuf) returns (stop: bool, v: Verdict)
      requires Ok() && buf.Valid() && buf.data != response
      requires state == Content && chunkState == ChunkSize
      modifies this, buf
      ensures Ok() && buf.Valid() && (response == old(response) || fresh(response))
      ensures Took(SizeRead(Env(Some(buf.data.Length), errnoEinval), old(View()), n, old(buf.Contents())), stop, v, View(), buf.Contents())
      ensures v != Success
    {
      hide Rbuf.Contents;
      if n < 0 || n == LONG_MAX {
        return true, Failed;
      }
      if n == 0 {
        chunkSize := n;
        if errnoEinval {
          return true, Failed;
        }
        chunkState := ChunkEndCrlf;
        return false, NeedMore;
      }
      chunkSize, chunkGot := n, 0;
      ghost var was := response[..written];
      GrowBy(n);
      assert response[..written] == was;
      var _ := buf.BumpTailBy(CRLF_LEN);
      chunkState := ChunkData;
      return false, NeedMore;
    }

    /** Copies received bytes behind what is written; the caller has checked that they fit. */
    method CopyIn(out: string)
      requires written + |out| <= response.Length
      modifies this`written, response
      ensures written == old(written) + |out| && response[..written] == old(response[..written]) + out
    {
      forall i | 0 <= i < |out| {
        response[written + i] := out[i];
      }
      written := written + |out|;
    }

    method DataState(buf: Rbuf) returns (stop: bool, v: Verdict)
      requires Ok() && buf.Valid() && buf.data != response
      requires state == Content && chunkState == ChunkData
      modifies this, response, buf
      ensures Ok() && buf.Valid() && response == old(response)
      ensures Took(DataStep(old(View()), old(buf.Contents())), stop, v, View(), buf.Contents())
      ensures v != Success
    {
      hide Rbuf.Contents, Rbuf.Valid;
      var n := buf.sizeData;
      if n == 0 {
        return true, NeedMore;
      }
      if n > chunkSize - chunkGot {
        n := chunkSize - chunkGot;
      }
      var out := buf.Pop(n);
      CopyIn(out);
      chunkGot := chunkGot + n;
      if chunkGot == chunkSize {
        chunkState := ChunkEndCrlf;
      }
      return false, NeedMore;
    }

    method CrlfState(buf: Rbuf) returns (stop: bool, v: Verdict)
      requires Ok() && buf.Valid() && buf.data != response
      requires state == Content && (chunkState == ChunkEndCrlf || chunkState == FinalCrlf)
      modifies this, buf
      ensures buf.Valid() && (response == old(response) || fresh(response))
      ensures written <= response.Length
      ensures Took(CrlfStep(old(View()), old(buf.Contents())), stop, v, View(), buf.Contents())
      ensures !stop || v == NeedMore ==> Ok()
      ensures stop && v == Success ==> written + 1 == response.Length && response[written] == '\0'
    {
      if buf.sizeData < 2 {
        return true, NeedMore;
      }
      var crlf := buf.Pop(2);
      if crlf != CRLF {
        return true, Failed;
      }
      if chunkState == FinalCrlf {
        // the size-mismatch report cannot happen
        assert responseSize == written;
        ghost var was := response[..written];
        GrowBy(1);
        assert response[..written] == was;
        response[written] := '\0';
        assert response[..written] == was;
        return true, Success;
      }
      chunkState := if chunkSize == 0 then FinalCrlf else ChunkSize;
      return false, NeedMore;
    }

    /** The switch of `process_chunked_content`. */
    method ChunkedState(errnoEinval: bool, buf: Rbuf) returns (stop: bool, v: Verdict)
      requires Ok() && buf.Valid() && buf.data != response
      requires state == Content && contentLength == CHUNKED
      modifies this, response, buf
      ensures buf.Valid() && written <= response.Length && (response == old(response) || fresh(response))
      ensures Took(ContentStep(Env(Some(buf.data.Length), errnoEinval), old(View()), old(buf.Contents())), stop, v, View(), buf.Contents())
      ensures !stop || v == NeedMore ==> Ok()
      ensures stop && v == Success ==> written + 1 == response.Length && response[written] == '\0'
    {
      hide SizeStep, DataStep, CrlfStep, Rbuf.Contents;
      match chunkState {
        case ChunkSize => stop, v := SizeState(errnoEinval, buf);
        case ChunkData => stop, v := DataState(buf);
        case _ => stop, v := CrlfState(buf);
      }
    }

    /** `process_chunked_content`: on success the response buffer holds the decoded body and one NUL. */
    method ProcessChunkedContent(errnoEinval: bool, buf: Rbuf) returns (v: Verdict)
      requires Ok() && buf.Valid() && buf.data != response
      requires state == Content && contentLength == CHUNKED
      modifies this, response, buf
      ensures buf.Valid() && written <= response.Length && (response == old(response) || fresh(response))
      ensures var o := Run(Env(Some(buf.data.Length), errnoEinval), old(View()), old(buf.Contents()));
              o.verdict == v && (v == NeedMore || v == Success ==> o == Outcome(v, View(), buf.Contents()))
      ensures v == NeedMore ==> Ok()
      ensures v == Success ==> response[..] == View().body + "\0"
    {
      hide ContentStep, StatusStep, HeaderStep, Rbuf.Contents;
      ghost var env := Env(Some(buf.data.Length), errnoEinval);
      while true
        invariant Ok() && buf.Valid() && buf.data != response && state == Content && contentLength == CHUNKED
        invariant response == old(response) || fresh(response)
        invariant Run(env, View(), buf.Contents()) == Run(env, old(View()), old(buf.Contents()))
        decreases |buf.Contents()|, Rank(View())
      {
        ghost var (s, b) := (View(), buf.Contents());
        var stop;
        stop, v := ChunkedState(errnoEinval, buf);
        if stop {
          assert v == Success ==> response[..] == response[..written] + "\0";
          return;
        }
        ContentStaysChunked(env, s, b);
        StepOn(env, s, b, View(), buf.Contents());
      }
    }

    /** Does the buffer start with the protocol name this state accepts? */
    method HasProto(buf: Rbuf) returns (ok: bool)
      requires Ok() && buf.Valid() && buf.sizeData > 0
      ensures ok <==> ProtoOk(View(), buf.Contents())
    {
      assert buf.Contents()[0..] == buf.Contents();
      ok := buf.Memcmp(0, PROTO_1_1);
      if !ok && state == ProxyConnect {
        ok := buf.Memcmp(0, PROTO_1_0);
      }
    }

    method ReadStatusCode(buf: Rbuf) returns (code: Option<int>)
      requires buf.Valid()
      modifies buf
      ensures buf.Valid() && code == StatusCode(old(buf.Contents()))
      ensures code.Some? ==> buf.Contents() == old(buf.Contents())[4..]
    {
      var rc := buf.Pop(4);
      if |rc| != 4 || rc[3] != ' ' {
        return None;
      }
      assert rc[..3] == old(buf.Contents())[..3];
      var n := Atoi(CString(rc[..3]));
      return if n < 100 || n >= 600 then None else Some(n);
    }

    /** Moves behind the next line end, as far as the buffer allows. */
    method SkipLine(buf: Rbuf)
      requires buf.Valid()
      modifies buf
      ensures buf.Valid()
      ensures buf.Contents() == AfterLine(old(buf.Contents()))
    {
      var idx := buf.Find(CRLF);
      var _ := buf.BumpTailBy(idx + CRLF_LEN);
    }

    method StatusState(buf: Rbuf) returns (stop: bool, v: Verdict)
      requires Ok() && buf.Valid() && buf.data != response
      requires state == Initial || state == ProxyConnect
      modifies this`state, this`httpCode, buf
      ensures Ok() && buf.Valid()
      ensures Took(StatusStep(old(View()), old(buf.Contents())), stop, v, View(), buf.Contents())
      ensures v != Success
    {
      hide FindBytes, StatusCode, ProtoOk, AfterLine, Rbuf.Contents, Rbuf.Valid;
      var idx := buf.Find(CRLF);
      if idx == buf.sizeData {
        return true, NeedMore;
      }
      var ok := HasProto(buf);
      if !ok {
        return true, Failed;
      }
      var _ := buf.BumpTailBy(PROTO_LEN);
      var code := ReadStatusCode(buf);
      if code.None? {
        return true, Failed;
      }
      httpCode := code.value;
      SkipLine(buf);
      state := Headers;
      return false, NeedMore;
    }

    method HeaderState(errnoEinval: bool, buf: Rbuf) returns (stop: bool, v: Verdict)
      requires Ok() && buf.Valid() && buf.data != response && state == Headers
      modifies this`state, this`contentLength, this`headers, buf
      ensures Ok() && buf.Valid()
      ensures Took(HeadersTurn(Env(Some(buf.data.Length), errnoEinval), old(View()), old(buf.Contents())), stop, v, View(), buf.Contents())
      ensures v != Success
    {
      hide FindBytes, ParseHdr, Rbuf.Contents, Rbuf.Valid;
      var idx := buf.Find(CRLF);
      if idx == buf.sizeData {
        return true, NeedMore;
      }
      if idx == 0 {
        LineEndIsNoSeparator(buf.Contents());
        state := Content;
        var _ := buf.BumpTailBy(CRLF_LEN);
        return false, NeedMore;
      }
      var failed, overrun := ParseHttpHdr(buf);
      if failed {
        return true, Failed;
      }
      if overrun {
        return true, Overrun;
      }
      SkipLine(buf);
      return false, NeedMore;
    }

    /** `parse_http_response`. */
    method ParseHttpResponse(errnoEinval: bool, buf: Rbuf) returns (v: Verdict)
      requires Ok() && buf.Valid() && buf.data != response
      modifies this, response, buf
      ensures buf.Valid() && written <= response.Length && (response == old(response) || fresh(response))
      ensures var o := Run(Env(Some(buf.data.Length), errnoEinval), old(View()), old(buf.Contents()));
              o.verdict == v && (v == NeedMore || v == Success ==> o == Outcome(v, View(), buf.Contents()))
      ensures v == NeedMore ==> Ok()
      ensures v == Success && contentLength == CHUNKED ==> response[..] == View().body + "\0"
    {
      hide Rbuf.Contents, HeadersTurn, Trips;
      ghost var env := Env(Some(buf.data.Length), errnoEinval);
      while state != Content
        invariant Ok() && buf.Valid() && buf.data != response && response == old(response)
        invariant Run(env, View(), buf.Contents()) == Run(env, old(View()), old(buf.Contents()))
        decreases |buf.Contents()|, Rank(View())
      {
        hide StatusStep, HeaderStep, ContentStep;
        ghost var (s, b) := (View(), buf.Contents());
        var stop;
        if state == Headers {
          stop, v := HeaderState(errnoEinval, buf);
        } else {
          stop, v := StatusState(buf);
        }
        assert Took(Step(env, s, b), stop, v, View(), buf.Contents());
        if stop {
          return;
        }
        StepOn(env, s, b, View(), buf.Contents());
      }
      if contentLength == CHUNKED {
        v := ProcessChunkedContent(errnoEinval, buf);
      } else if contentLength < 0 || dontWait || buf.sizeData >= contentLength {
        v := Success;
      } else {
        v := NeedMore;
      }
    }
  }

  lemma SplitHdrCases(b: string)
    requires FindBytes(b, CRLF) < |b|
    ensures var (end, sep) := (FindBytes(b, CRLF), FindBytes(b, SEPARATOR));
            SplitHdr(b) == if sep == |b| || sep >= HDR_BUFFER_SIZE || end - sep - 2 >= HDR_BUFFER_SIZE then NoSplit
                           else if end < sep + 2 then SplitOverrun
                           else SplitOk(b[..sep], b[sep + 2..end], b[end..])
  {
    hide FindBytes;
  }

  lemma ValueSlices(b: string, sep: nat, end: nat)
    requires sep + 2 <= end <= |b|
    ensures BumpTail(b[sep..], 2) == b[sep + 2..]
    ensures b[sep + 2..][..end - sep - 2] == b[sep + 2..end] && b[sep + 2..][end - sep - 2..] == b[end..]
  {
  }

  lemma LineEndIsNoSeparator(b: string)
    requires b != "" && FindBytes(b, CRLF) == 0
    ensures FindBytes(b, SEPARATOR) > 0
  {
    assert b[0] == CRLF[0] && b[0] != SEPARATOR[0];
  }

  lemma ContentStaysChunked(env: Env, s: Ctx, b: string)
    requires Valid(s) && s.state == Content && s.contentLength == CHUNKED
    ensures ContentStep(env, s, b).Go? ==>
            ContentStep(env, s, b).ctx.state == Content && ContentStep(env, s, b).ctx.contentLength == CHUNKED
  {
    hide FindBytes, Strtol16;
  }

  /** The parsing side of `read_parse_response`: arrivals go into the buffer, the parser runs after each.
      `used` counts the arrivals taken; NeedMore means they ran out. */
  method ReadParseResponse(ctx: HttpParseCtx, errnoEinval: bool, buf: Rbuf, arrivals: seq<string>) returns (v: Verdict, used: nat)
    requires ctx.Ok() && buf.Valid() && buf.data != ctx.response
    requires Peak(Env(Some(buf.data.Length), errnoEinval), ctx.View(), buf.Contents(), arrivals) <= buf.data.Length
    modifies ctx, ctx.response, buf, buf.data
    ensures buf.Valid() && used <= |arrivals| && ctx.written <= ctx.response.Length
    ensures var f := Feed(Env(Some(buf.data.Length), errnoEinval), old(ctx.View()), old(buf.Contents()), arrivals);
            && v == f.verdict
            && (v == NeedMore || v == Success ==> f.ctx == ctx.View() && f.unread == buf.Contents() + Concat(arrivals[used..]))
    ensures v == Success && ctx.contentLength == CHUNKED ==> ctx.response[..] == ctx.View().body + "\0"
  {
    hide Run, Rbuf.Contents, Rbuf.Valid;
    ghost var env := Env(Some(buf.data.Length), errnoEinval);
    v, used := NeedMore, 0;
    assert arrivals[0..] == arrivals;
    while used < |arrivals|
      invariant used <= |arrivals| && v == NeedMore
      invariant ctx.Ok() && buf.Valid() && buf.data != ctx.response
      invariant ctx.response == old(ctx.response) || fresh(ctx.response)
      invariant Peak(env, ctx.View(), buf.Contents(), arrivals[used..]) <= buf.data.Length
      invariant Feed(env, ctx.View(), buf.Contents(), arrivals[used..]) == Feed(env, old(ctx.View()), old(buf.Contents()), arrivals)
    {
      assert arrivals[used..][0] == arrivals[used] && arrivals[used..][1..] == arrivals[used + 1..];
      buf.Push(arrivals[used]);
      used := used + 1;
      v := ctx.ParseHttpResponse(errnoEinval, buf);
      if v != NeedMore {
        return;
      }
    }
    assert arrivals[used..] == [];
    assert buf.Contents() + "" == buf.Contents();
  }
}
