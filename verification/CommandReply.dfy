/** The command reply: written by the daemon, read back by the command line tool. */
module CommandReply {
  import opened Basics
  import opened Text

  datatype Status = Success | Failure | Busy

  function Code(st: Status): nat {
    match st case Success => 0 case Failure => 1 case Busy => 2
  }

  const PREFIX_EXIT_CODE := 'X'
  const PREFIX_INFO := 'O'
  const PREFIX_ERROR := 'E'
  const PREFIX_BY_STATUS := [PREFIX_INFO, PREFIX_ERROR, PREFIX_ERROR]

  /** The wire format for any exit code: code, NUL, and the prefixed message if there is one. */
  function Wire(code: nat, prefix: char, message: Option<string>): string {
    [PREFIX_EXIT_CODE] + Numeral(code) + "\0" + (if message.Some? then [prefix] + message.value else "")
  }

  /** The bytes of a reply, written out. */
  function Bytes(status: Status, message: Option<string>): string {
    match status
    case Success => "X0\0" + (if message.Some? then "O" + message.value else "")
    case Failure => "X1\0" + (if message.Some? then "E" + message.value else "")
    case Busy => "X2\0" + (if message.Some? then "E" + message.value else "")
  }

  lemma WireIsBytes(status: Status, message: Option<string>)
    ensures Wire(Code(status), PREFIX_BY_STATUS[Code(status)], message) == Bytes(status, message)
  {
    assert Numeral(0) == "0" && Numeral(1) == "1" && Numeral(2) == "2";
    hide Numeral;
  }

  /** `send_command_reply`: the buffer it fills. */
  method SendCommandReply(status: Status, message: Option<string>) returns (reply: string)
    ensures reply == Bytes(status, message)
  {
    hide Bytes;
    reply := "";
    reply := reply + [PREFIX_EXIT_CODE];
    reply := reply + Numeral(Code(status));
    reply := reply + ['\0'];
    if message.Some? {
      reply := reply + [PREFIX_BY_STATUS[Code(status)]];
      reply := reply + message.value;
    }
    WireIsBytes(status, message);
  }

  // ---- the reader -----------------------------------------------------------------------------------

  datatype Stream = Stdout | Stderr

  /** What the tool shows: its exit status, the lines printed, and whether it complained. */
  datatype Output = Output(exitStatus: int, printed: seq<(Stream, string)>, syntaxError: bool)

  /** The text behind the reply ends with the buffer's own terminator. */
  function Skip(t: string, pos: nat): (p: nat)
    requires pos < |t| && t[|t| - 1] == '\0'
    ensures pos <= p < |t| && !IsSpace(t[p])
    decreases |t| - pos
  {
    if IsSpace(t[pos]) then Skip(t, pos + 1) else pos
  }

  /** One turn of the outer loop of `parse_command_reply`: the new position and output. */
  function Turn(t: string, pos: nat, o: Output): (r: (nat, Output))
    requires pos + 1 < |t| && t[|t| - 1] == '\0'
    ensures r.0 > pos
  {
    var p := Skip(t, pos);
    if t[p] == '\0' then (p + 1, o)
    else if t[p] == PREFIX_EXIT_CODE then (p + 2, o.(exitStatus := Atoi(CString(t[p + 1..]))))
    else if t[p] == PREFIX_INFO || t[p] == PREFIX_ERROR then
      var s := CString(t[p + 1..]);
      (p + 2 + |s|, o.(printed := o.printed + [(if t[p] == PREFIX_INFO then Stdout else Stderr, s)]))
    else (p + 1, o.(syntaxError := true))
  }

  function ParseFrom(t: string, pos: nat, o: Output): Output
    requires |t| > 0 && t[|t| - 1] == '\0'
    decreases |t| - pos
  {
    if pos + 1 >= |t| || o.syntaxError then o
    else
      var (pos', o') := Turn(t, pos, o);
      ParseFrom(t, pos', o')
  }

  /** `parse_command_reply`. */
  method ParseCommandReply(reply: string, exitStatus: int) returns (o: Output)
    ensures o == ParseFrom(reply + "\0", 0, Output(exitStatus, [], false))
  {
    hide Atoi, CString;
    var t := reply + "\0";
    o := Output(exitStatus, [], false);
    var pos := 0;
    while pos < |reply| && !o.syntaxError
      invariant ParseFrom(t, pos, o) == ParseFrom(t, 0, Output(exitStatus, [], false))
      decreases |t| - pos
    {
      ghost var (start, o0) := (pos, o);
      while IsSpace(t[pos])
        invariant start <= pos <= |reply|
        invariant Skip(t, pos) == Skip(t, start)
        decreases |t| - pos
      {
        pos := pos + 1;
      }
      if t[pos] != '\0' {
        if t[pos] == PREFIX_EXIT_CODE {
          pos := pos + 1;
          o := o.(exitStatus := Atoi(CString(t[pos..])));
        } else if t[pos] == PREFIX_INFO || t[pos] == PREFIX_ERROR {
          var stream := if t[pos] == PREFIX_INFO then Stdout else Stderr;
          pos := pos + 1;
          var s := CString(t[pos..]);
          o := o.(printed := o.printed + [(stream, s)]);
          pos := pos + |s|;
        } else {
          o := o.(syntaxError := true);
        }
      }
      pos := pos + 1;
      assert (pos, o) == Turn(t, start, o0);
    }
  }

  // ---- the round trip -------------------------------------------------------------------------------

  function Read(reply: string): Output {
    ParseFrom(reply + "\0", 0, Output(-1, [], false))
  }

  lemma FirstTurn(code: nat, rest: string)
    ensures var t := [PREFIX_EXIT_CODE] + Numeral(code) + "\0" + rest + "\0";
            forall o :: Turn(t, 0, o) == (2, o.(exitStatus := code))
  {
    var t := [PREFIX_EXIT_CODE] + Numeral(code) + "\0" + rest + "\0";
    var digits := Numeral(code);
    assert t[1..] == digits + "\0" + (rest + "\0");
    CStringStops(digits, rest + "\0");
    AtoiNumeral(code);
    hide Numeral, CString, Atoi;
    assert t[0] == PREFIX_EXIT_CODE;
    assert Skip(t, 0) == 0;
  }

  lemma OneDigit(code: nat)
    ensures code < 10 ==> |Numeral(code)| == 1
    ensures code >= 10 ==> |Numeral(code)| >= 2 && DigitVal(Numeral(code)[1], 10) >= 0
  {
  }

  lemma MessageTurn(t: string, pos: nat, prefix: char, message: string)
    requires pos + 1 < |t| && t[|t| - 1] == '\0' && t[pos] == prefix
    requires prefix == PREFIX_INFO || prefix == PREFIX_ERROR
    requires t[pos + 1..] == message + "\0" && '\0' !in message
    ensures forall o :: Turn(t, pos, o) ==
                        (pos + 2 + |message|, o.(printed := o.printed + [(if prefix == PREFIX_INFO then Stdout else Stderr, message)]))
  {
    CStringStops(message, "");
    assert message + "\0" + "" == message + "\0";
    assert !IsSpace(t[pos]);
    assert Skip(t, pos) == pos;
  }

  /** The exit code and its terminator are read in two turns. */
  lemma HeadTurns(code: nat, rest: string)
    requires code < 10
    ensures var t := [PREFIX_EXIT_CODE] + Numeral(code) + "\0" + rest + "\0";
            && t[3..] == rest + "\0"
            && ParseFrom(t, 0, Output(-1, [], false)) == ParseFrom(t, 3, Output(code, [], false))
  {
    var t := [PREFIX_EXIT_CODE] + Numeral(code) + "\0" + rest + "\0";
    FirstTurn(code, rest);
    OneDigit(code);
    hide Numeral;
    var (o0, o1) := (Output(-1, [], false), Output(code, [], false));
    assert ParseFrom(t, 0, o0) == ParseFrom(t, 2, o1);
    assert t[2] == '\0';
    assert Turn(t, 2, o1) == (3, o1);
  }

  /** From behind the exit code on, the message is read in one turn. */
  lemma MessageRead(t: string, code: nat, prefix: char, message: Option<string>)
    requires prefix == PREFIX_INFO || prefix == PREFIX_ERROR
    requires |t| > 3 && t[3..] == (if message.Some? then [prefix] + message.value else "") + "\0"
    requires message.Some? ==> '\0' !in message.value
    ensures var stream := if prefix == PREFIX_INFO then Stdout else Stderr;
            ParseFrom(t, 3, Output(code, [], false))
            == Output(code, if message.Some? then [(stream, message.value)] else [], false)
  {
    assert t[|t| - 1] == t[3..][|t| - 4];
    if message.Some? {
      var o1 := Output(code, [], false);
      assert t[3] == t[3..][0];
      assert t[4..] == t[3..][1..];
      MessageTurn(t, 3, prefix, message.value);
      hide Turn;
      assert ParseFrom(t, 3, o1) == Turn(t, 3, o1).1;
    }
  }

  /** Round trip: for every status and every message without NUL, the tool recovers exactly the exit
      status and the message, on stdout exactly for success, and reports no syntax error. */
  lemma ReplyRoundTrip(status: Status, message: Option<string>)
    requires message.Some? ==> '\0' !in message.value
    ensures var exit := match status case Success => 0 case Failure => 1 case Busy => 2;
            var stream := if status == Success then Stdout else Stderr;
            Read(Bytes(status, message)) == Output(exit, if message.Some? then [(stream, message.value)] else [], false)
  {
    var (code, prefix) := (Code(status), PREFIX_BY_STATUS[Code(status)]);
    var rest := if message.Some? then [prefix] + message.value else "";
    var t := [PREFIX_EXIT_CODE] + Numeral(code) + "\0" + rest + "\0";
    WireIsBytes(status, message);
    assert Wire(code, prefix, message) + "\0" == t;
    HeadTurns(code, rest);
    MessageRead(t, code, prefix, message);
    hide Numeral, ParseFrom, Bytes;
  }

  /** The format carries one digit: a reply is read without a syntax error if and only if its exit code
      is below ten; the exit status itself is recovered either way. */
  lemma OnlyOneDigitCodes(code: nat)
    ensures Read(Wire(code, PREFIX_INFO, None)).syntaxError <==> code >= 10
    ensures Read(Wire(code, PREFIX_INFO, None)).exitStatus == code
  {
    var digits := Numeral(code);
    var t := [PREFIX_EXIT_CODE] + digits + "\0" + "" + "\0";
    assert Wire(code, PREFIX_INFO, None) + "\0" == t;
    FirstTurn(code, "");
    OneDigit(code);
    hide Numeral, Atoi, CString;
    var (o0, o1) := (Output(-1, [], false), Output(code, [], false));
    assert ParseFrom(t, 0, o0) == ParseFrom(t, 2, o1);
    if code < 10 {
      assert t[2] == '\0' && |t| == 4;
      assert Turn(t, 2, o1) == (3, o1);
      assert ParseFrom(t, 2, o1) == ParseFrom(t, 3, o1) == o1;
    } else {
      var o2 := o1.(syntaxError := true);
      assert t[2] == digits[1];
      assert Skip(t, 2) == 2;
      assert Turn(t, 2, o1) == (3, o2);
      assert ParseFrom(t, 2, o1) == ParseFrom(t, 3, o2) == o2;
    }
  }

  // ---- white space ----------------------------------------------------------------------------------

  lemma {:induction false} SkipShifts(a: string, t: string, pos: nat)
    requires pos < |t| && t[|t| - 1] == '\0'
    ensures Skip(a + t, |a| + pos) == |a| + Skip(t, pos)
    decreases |t| - pos
  {
    assert (a + t)[|a| + pos] == t[pos];
    if IsSpace(t[pos]) {
      SkipShifts(a, t, pos + 1);
    }
  }

  lemma TurnShifts(a: string, t: string, pos: nat, o: Output)
    requires pos + 1 < |t| && t[|t| - 1] == '\0'
    ensures Turn(a + t, |a| + pos, o) == (|a| + Turn(t, pos, o).0, Turn(t, pos, o).1)
  {
    hide CString, Atoi, Skip;
    SkipShifts(a, t, pos);
    var p := Skip(t, pos);
    assert (a + t)[|a| + p] == t[p];
    assert p + 1 <= |t| ==> (a + t)[|a| + p + 1..] == t[p + 1..];
  }

  lemma {:induction false} ParseShifts(a: string, t: string, pos: nat, o: Output)
    requires |t| > 0 && t[|t| - 1] == '\0'
    ensures ParseFrom(a + t, |a| + pos, o) == ParseFrom(t, pos, o)
    decreases |t| - pos
  {
    hide Turn;
    if pos + 1 < |t| && !o.syntaxError {
      TurnShifts(a, t, pos, o);
      ParseShifts(a, t, Turn(t, pos, o).0, Turn(t, pos, o).1);
    }
  }

  lemma {:induction false} SkipsSpaces(sp: string, t: string, pos: nat)
    requires AllSpaces(sp) && pos <= |sp| && t != "" && t[|t| - 1] == '\0'
    ensures Skip(sp + t, pos) == Skip(sp + t, |sp|)
    decreases |sp| - pos
  {
    if pos < |sp| {
      assert (sp + t)[pos] == sp[pos];
      SkipsSpaces(sp, t, pos + 1);
    }
  }

  /** The first turn is the same with white space in front. */
  lemma TurnSkips(sp: string, t: string, o: Output)
    requires AllSpaces(sp) && |t| > 1 && t[|t| - 1] == '\0'
    ensures Turn(sp + t, 0, o) == Turn(sp + t, |sp|, o)
  {
    hide CString, Atoi, Skip;
    SkipsSpaces(sp, t, 0);
  }

  lemma OnlySpaces(sp: string, o: Output)
    requires AllSpaces(sp)
    ensures ParseFrom(sp + "\0", 0, o) == o
  {
    hide CString, Atoi;
    SkipsSpaces(sp, "\0", 0);
    var t := sp + "\0";
    assert t[|sp|] == '\0';
    if sp != "" && !o.syntaxError {
      assert Turn(t, 0, o) == (|sp| + 1, o);
      hide Turn;
      assert ParseFrom(t, |sp| + 1, o) == o;
    }
  }

  /** White space in front of a reply, whatever the reply is, changes nothing. */
  lemma WhiteSpaceIgnored(sp: string, reply: string)
    requires AllSpaces(sp)
    ensures Read(sp + reply) == Read(reply)
  {
    hide Turn, AllSpaces;
    var (t, o) := (reply + "\0", Output(-1, [], false));
    assert sp + reply + "\0" == sp + t;
    if reply == "" {
      OnlySpaces(sp, o);
      assert t == "\0";
    } else {
      ParseShifts(sp, t, 0, o);
      TurnSkips(sp, t, o);
      assert ParseFrom(sp + t, 0, o) == ParseFrom(sp + t, |sp|, o);
    }
  }
}
