/** The hand-written scanner of the `ups.status` variable. */
module StatusScanner {
  import opened Basics

  datatype Flag =
    | OL | OB | LB | HB | RB | CHRG | DISCHRG | BYPASS | CAL | OFF | OVER | TRIM | BOOST | FSD | OTHER

  /** The flags in the order the scanner sets them, or a cursor that left the text. */
  datatype Outcome = Done(flags: seq<Flag>) | Wild {
    function After(first: seq<Flag>): Outcome {
      if Done? then Done(first + flags) else Wild
    }
  }

  // ---- the scanner as a function of the unread text -------------------------------------------------

  /** The position of the first space from `i` on, or the length. */
  function Space(r: string, i: nat): (p: nat)
    requires i <= |r|
    ensures i <= p <= |r| && (p < |r| ==> r[p] == ' ') && ' ' !in r[i..p]
    decreases |r| - i
  {
    if i == |r| || r[i] == ' ' then i else Space(r, i + 1)
  }

  /** The character at `i`, the terminator at the end. */
  function At(r: string, i: nat): char
    requires i <= |r|
  {
    if i < |r| then r[i] else '\0'
  }

  /** A default branch: skip to the next space, which must exist. */
  function Skip(r: string, i: nat): (Flag, Option<int>)
    requires i <= |r|
  {
    (OTHER, if Space(r, i) < |r| then Some(Space(r, i) + 1) else None)
  }

  /** One turn on a character that is not a space: the flag set, and how far the cursor moves, the loop's
      own increment included. */
  function Turn(r: string): (t: (Flag, Option<int>))
    requires r != ""
    ensures t.1.Some? ==> t.1.value > 0
  {
    match r[0]
    case 'L' => (LB, Some(2))
    case 'H' => (HB, Some(2))
    case 'R' => (RB, Some(2))
    case 'D' => (DISCHRG, Some(7))
    case 'T' => (TRIM, Some(4))
    case 'F' => (FSD, Some(3))
    case 'B' =>
      if At(r, 1) == 'O' then (BOOST, Some(5)) else if At(r, 1) == 'Y' then (BYPASS, Some(6)) else Skip(r, 1)
    case 'C' =>
      if At(r, 1) == 'H' then (CHRG, Some(4)) else if At(r, 1) == 'A' then (CAL, Some(3)) else Skip(r, 1)
    case 'O' =>
      if At(r, 1) == 'B' then (OB, Some(2)) else if At(r, 1) == 'F' then (OFF, Some(2))
      else if At(r, 1) == 'L' then (OL, Some(2)) else if At(r, 1) == 'V' then (OVER, Some(4)) else Skip(r, 1)
    case _ => Skip(r, 0)
  }

  function Scan(r: string): Outcome
    decreases |r|
  {
    if r == "" then Done([])
    else if r[0] == ' ' then Scan(r[1..])
    else
      var (f, step) := Turn(r);
      if step.None? || step.value > |r| then Wild else Scan(r[step.value..]).After([f])
  }

  // ---- the scanner with its cursor ------------------------------------------------------------------

  /** `strchr(c, ' ')`: the cursor, or none for a null pointer. */
  method FindSpace(s: string, c: nat) returns (p: Option<int>)
    requires c <= |s|
    ensures p == if Space(s[c..], 0) < |s| - c then Some(c + Space(s[c..], 0)) else None
  {
    var i := c;
    while i < |s| && s[i] != ' '
      invariant c <= i <= |s|
      invariant Space(s[c..], i - c) == Space(s[c..], 0)
    {
      i := i + 1;
    }
    p := if i < |s| then Some(i) else None;
  }

  lemma SpaceFromOne(r: string)
    requires r != ""
    ensures Space(r, 1) == Space(r[1..], 0) + 1
  {
    var p := Space(r[1..], 0);
    assert forall i :: 1 <= i < p + 1 ==> r[i] == r[1..][i - 1] && r[1..][i - 1] in r[1..][0..p];
    SpaceIs(r, 1, p + 1);
  }

  lemma {:induction false} SpaceIs(r: string, i: nat, p: nat)
    requires i <= p <= |r| && (p < |r| ==> r[p] == ' ') && forall j :: i <= j < p ==> r[j] != ' '
    ensures Space(r, i) == p
    decreases p - i
  {
    if i < p { SpaceIs(r, i + 1, p); }
  }

  /** The body of the switch: the flag set and the cursor behind it, before the loop's increment; none for
      a null pointer. */
  method Switch(s: string, at: nat) returns (f: Flag, next: Option<int>)
    requires at < |s| && s[at] != ' '
    ensures (f, if next.Some? then Some(next.value + 1 - at) else None) == Turn(s[at..])
    ensures next.Some? ==> next.value >= at
  {
    ghost var r := s[at..];
    assert r[0] == s[at];
    assert r[1..] == s[at + 1..];
    assert At(r, 1) == At(s, at + 1);
    SpaceFromOne(r);
    var c := at;
    match s[c] {
      case 'L' => c := c + 1; return LB, Some(c);
      case 'H' => c := c + 1; return HB, Some(c);
      case 'R' => c := c + 1; return RB, Some(c);
      case 'D' => c := c + 6; return DISCHRG, Some(c);
      case 'T' => c := c + 3; return TRIM, Some(c);
      case 'F' => c := c + 2; return FSD, Some(c);
      case 'B' =>
        c := c + 1;
        match At(s, c) {
          case 'O' => c := c + 3; return BOOST, Some(c);
          case 'Y' => c := c + 4; return BYPASS, Some(c);
          case _ => f := OTHER; next := FindSpace(s, c);
        }
      case 'C' =>
        c := c + 1;
        match At(s, c) {
          case 'H' => c := c + 2; return CHRG, Some(c);
          case 'A' => c := c + 1; return CAL, Some(c);
          case _ => f := OTHER; next := FindSpace(s, c);
        }
      case 'O' =>
        c := c + 1;
        match At(s, c) {
          case 'B' => return OB, Some(c);
          case 'F' => return OFF, Some(c);
          case 'L' => return OL, Some(c);
          case 'V' => c := c + 2; return OVER, Some(c);
          case _ => f := OTHER; next := FindSpace(s, c);
        }
      case _ => f := OTHER; next := FindSpace(s, c);
    }
  }

  function FlagSet(fs: seq<Flag>): set<Flag> {
    set f | f in fs
  }

  /** The loop of `send_metric_ups_status`: the bits it sets. It is wild if the cursor is moved past the
      terminator or to a null pointer; a missing variable sets nothing. */
  method ScanStatus(text: Option<string>) returns (wild: bool, status: set<Flag>)
    ensures text.None? ==> !wild && status == {}
    ensures text.Some? ==> wild == Scan(text.value).Wild?
    ensures text.Some? && !wild ==> status == FlagSet(Scan(text.value).flags)
  {
    hide Turn, Space, Skip;
    wild, status := false, {};
    if text.None? { return; }
    var s := text.value;
    var c := 0;
    ghost var done: seq<Flag> := [];
    while c < |s|
      invariant c <= |s| && !wild
      invariant status == FlagSet(done)
      invariant Scan(s) == Scan(s[c..]).After(done)
    {
      if s[c] == ' ' {
        assert s[c..][1..] == s[c + 1..];
      } else {
        var f, next := Switch(s, c);
        if next.None? || next.value + 1 > |s| {
          return true, status + {f};
        }
        StepOn(s, c, next.value + 1, f, done);
        status := status + {f};
        done := done + [f];
        c := next.value;
      }
      c := c + 1;
    }
  }

  lemma StepOn(s: string, c: nat, next: nat, f: Flag, done: seq<Flag>)
    requires c < next <= |s| && s[c] != ' ' && Turn(s[c..]) == (f, Some(next - c))
    ensures Scan(s[c..]).After(done) == Scan(s[next..]).After(done + [f])
  {
    hide Turn;
    assert s[c..][next - c..] == s[next..];
    AfterTwice(Scan(s[next..]), done, [f]);
  }

  // ---- the printer ----------------------------------------------------------------------------------

  /** The documented word of a flag. */
  function Word(f: Flag): string
    requires f != OTHER
  {
    match f
    case OL => "OL" case OB => "OB" case LB => "LB" case HB => "HB" case RB => "RB"
    case CHRG => "CHRG" case DISCHRG => "DISCHRG" case BYPASS => "BYPASS" case CAL => "CAL"
    case OFF => "OFF" case OVER => "OVER" case TRIM => "TRIM" case BOOST => "BOOST" case FSD => "FSD"
  }

  datatype Item = Known(flag: Flag) | Unknown(word: string) {
    predicate Valid() {
      if Known? then flag != OTHER else IsUnknown(word)
    }

    function Text(): string
      requires Valid()
    {
      if Known? then Word(flag) else word
    }

    function Meaning(): Flag {
      if Known? then flag else OTHER
    }
  }

  /** A word the switch does not recognise by its first letters. */
  predicate IsUnknown(w: string) {
    && w != "" && ' ' !in w
    && w[0] !in "LHRDTF"
    && (w[0] == 'B' ==> |w| == 1 || w[1] !in "OY")
    && (w[0] == 'C' ==> |w| == 1 || w[1] !in "HA")
    && (w[0] == 'O' ==> |w| == 1 || w[1] !in "BFLV")
  }

  predicate AllValid(items: seq<Item>) {
    forall i :: 0 <= i < |items| ==> items[i].Valid()
  }

  function Join(items: seq<Item>): string
    requires AllValid(items)
  {
    if items == [] then ""
    else if |items| == 1 then items[0].Text()
    else items[0].Text() + " " + Join(items[1..])
  }

  function Meanings(items: seq<Item>): seq<Flag> {
    seq(|items|, i requires 0 <= i < |items| => items[i].Meaning())
  }

  // ---- what the scanner makes of a list of items ----------------------------------------------------

  /** What a documented word leaves when its first letter is missing. */
  function Misread(f: Flag): seq<Flag> {
    match f
    case OL => [LB]
    case OFF => [FSD]
    case CHRG => [HB, OTHER]
    case TRIM => [RB, OTHER]
    case _ => [OTHER]
  }

  /** The text of a list without its first letter. */
  function SecondLetterOn(items: seq<Item>): string
    requires AllValid(items)
  {
    var t := Join(items);
    if t == "" then "" else t[1..]
  }

  /** The reading of any list, item by item: `OFF` also sets `FSD` and swallows the first letter of the
      next word. What the scanner makes of an unknown word from its second letter on depends on its letters,
      and possibly on what follows it. */
  function Reading(items: seq<Item>): Outcome
    requires AllValid(items)
    decreases |items|
  {
    if items == [] then Done([])
    else if items[0].Unknown? then (if |items| == 1 then Wild else Reading(items[1..]).After([OTHER]))
    else if items[0].flag != OFF then Reading(items[1..]).After([items[0].flag])
    else if |items| > 1 && items[1].Unknown? then Scan(SecondLetterOn(items[1..])).After([OFF, FSD])
    else if |items| <= 2 then Wild
    else Reading(items[2..]).After([OFF, FSD] + Misread(items[1].flag))
  }

  lemma SkipSpaceAt(r: string, i: nat, w: nat)
    requires i <= w < |r| && r[w] == ' ' && ' ' !in r[i..w]
    ensures Skip(r, i) == (OTHER, Some(w + 1))
  {
    assert forall j :: i <= j < w ==> r[j] == r[i..w][j - i] && r[i..w][j - i] in r[i..w];
    SpaceIs(r, i, w);
  }

  lemma SkipNowhere(r: string, i: nat)
    requires i <= |r| && ' ' !in r[i..]
    ensures Skip(r, i) == (OTHER, None)
  {
    assert forall j :: i <= j < |r| ==> r[j] == r[i..][j - i] && r[i..][j - i] in r[i..];
    SpaceIs(r, i, |r|);
  }

  lemma ScanStep(r: string, f: Flag, n: int, rest: string)
    requires r != "" && r[0] != ' ' && 0 < n <= |r| && Turn(r) == (f, Some(n)) && r[n..] == rest
    ensures Scan(r) == Scan(rest).After([f])
  {
    hide Turn;
  }

  /** A documented word other than `OFF` is read in one turn of its own length. */
  lemma KnownTurn(f: Flag, rest: string)
    requires f != OTHER && f != OFF
    ensures Scan(Word(f) + rest) == Scan(rest).After([f])
  {
    var r := Word(f) + rest;
    assert r[0] == Word(f)[0] && r[1] == Word(f)[1];
    hide Space, Skip;
    assert Turn(r) == (f, Some(|Word(f)|));
    assert r[|Word(f)|..] == rest;
  }

  /** An unknown word in front of a space only sets `OTHER`. */
  lemma UnknownTurn(w: string, rest: string)
    requires IsUnknown(w)
    ensures Scan(w + " " + rest) == Scan(rest).After([OTHER])
  {
    var r := w + " " + rest;
    assert r[0] == w[0] && w[0] in w && (|w| > 1 ==> r[1] == w[1]);
    assert r[0..|w|] == w && r[1..|w|] == w[1..];
    SkipSpaceAt(r, 0, |w|);
    SkipSpaceAt(r, 1, |w|);
    hide Space, Skip;
    assert Turn(r) == (OTHER, Some(|w| + 1));
    assert r[|w| + 1..] == rest;
  }

  lemma UnknownLast(w: string)
    requires IsUnknown(w)
    ensures Scan(w) == Wild
  {
    assert w[0] in w;
    assert w[0..] == w;
    SkipNowhere(w, 0);
    SkipNowhere(w, 1);
    hide Space, Skip;
    assert Turn(w) == (OTHER, None);
  }

  lemma Missed(f: Flag)
    requires f !in {OTHER, OL, OFF, CHRG, TRIM}
    ensures IsUnknown(Word(f)[1..])
  {
  }

  lemma MisreadShort(rest: string)
    ensures Scan("L" + " " + rest) == Scan(rest).After([LB])
    ensures Scan("FF" + " " + rest) == Scan(rest).After([FSD])
  {
    hide Scan, Space, Skip;
    assert ("L" + " " + rest)[0] == 'L' && ("FF" + " " + rest)[0] == 'F';
    ScanStep("L" + " " + rest, LB, 2, rest);
    ScanStep("FF" + " " + rest, FSD, 3, rest);
  }

  lemma MisreadLong(rest: string)
    ensures Scan("HRG" + " " + rest) == Scan(rest).After([HB, OTHER])
    ensures Scan("RIM" + " " + rest) == Scan(rest).After([RB, OTHER])
  {
    hide Scan, Space, Skip;
    assert ("HRG" + " " + rest)[0] == 'H' && ("RIM" + " " + rest)[0] == 'R';
    ScanStep("HRG" + " " + rest, HB, 2, "G" + " " + rest);
    ScanStep("RIM" + " " + rest, RB, 2, "M" + " " + rest);
    UnknownTurn("G", rest);
    UnknownTurn("M", rest);
    hide Turn;
    AfterTwice(Scan(rest), [HB], [OTHER]);
    AfterTwice(Scan(rest), [RB], [OTHER]);
  }

  /** A documented word without its first letter, in front of a space. */
  lemma MisreadTurn(f: Flag, rest: string)
    requires f != OTHER
    ensures Scan(Word(f)[1..] + " " + rest) == Scan(rest).After(Misread(f))
  {
    hide Scan;
    MisreadShort(rest);
    MisreadLong(rest);
    if f !in {OL, OFF, CHRG, TRIM} {
      Missed(f);
      UnknownTurn(Word(f)[1..], rest);
    }
  }

  lemma AfterTwice(o: Outcome, first: seq<Flag>, second: seq<Flag>)
    ensures o.After(second).After(first) == o.After(first + second)
  {
    if o.Done? {
      assert first + (second + o.flags) == first + second + o.flags;
    }
  }

  lemma MisreadLast(f: Flag)
    requires f != OTHER
    ensures Scan(Word(f)[1..]) == Wild
  {
    var w := Word(f)[1..];
    hide Space, Skip;
    if f == CHRG || f == TRIM {
      UnknownLast(w[2..]);
      hide Scan;
      ScanStep(w, if f == CHRG then HB else RB, 2, w[2..]);
    } else if f == OL || f == OFF {
      assert Turn(w).1.value > |w|;
    } else {
      hide Scan;
      Missed(f);
      UnknownLast(w);
    }
  }

  lemma OffTurn(rest: string)
    ensures Scan("OFF") == Wild
    ensures rest != "" ==> Scan("OFF " + rest) == Scan(rest[1..]).After([OFF, FSD])
  {
    hide Space, Skip;
    assert "OFF"[2..] == "F" && Turn("F") == (FSD, Some(3));
    if rest != "" {
      var r := "OFF " + rest;
      var (tail, last) := (r[2..], rest[1..]);
      assert tail[0] == 'F';
      assert tail[3..] == last;
      hide Scan;
      ScanStep(r, OFF, 2, tail);
      ScanStep(tail, FSD, 3, last);
      AfterTwice(Scan(last), [OFF], [FSD]);
    }
  }

  /** Main result: the scanner's reading of every printed list of items, `OFF` included. */
  lemma {:induction false} ScanReads(items: seq<Item>)
    requires AllValid(items)
    ensures Scan(Join(items)) == Reading(items)
    decreases |items|
  {
    hide Scan, Word, IsUnknown;
    if items == [] {
      EmptyScan();
    } else if items[0] == Known(OFF) {
      ScanReadsOff(items);
      if |items| > 2 && items[1].Known? { ScanReads(items[2..]); }
    } else {
      ScanReads(items[1..]);
      ScanReadsOne(items);
    }
  }

  lemma EmptyScan()
    ensures Scan("") == Done([])
  {
  }

  lemma LeadingSpace(rest: string)
    ensures Scan(" " + rest) == Scan(rest)
  {
    assert (" " + rest)[1..] == rest;
  }

  lemma ScanReadsOne(items: seq<Item>)
    requires AllValid(items) && items != [] && items[0] != Known(OFF)
    ensures items[0].Unknown? && |items| == 1 ==> Scan(Join(items)) == Wild
    ensures items[0].Known? || |items| > 1 ==> Scan(Join(items)) == Scan(Join(items[1..])).After([items[0].Meaning()])
  {
    hide Scan, IsUnknown, Word, Join;
    JoinFirst(items);
    var (text, rest) := (items[0].Text(), Join(items[1..]));
    if items[0].Unknown? {
      if |items| == 1 { UnknownLast(text); } else { UnknownTurn(text, rest); }
    } else if |items| == 1 {
      KnownTurn(items[0].flag, "");
      assert text + "" == text;
    } else {
      KnownTurn(items[0].flag, " " + rest);
      LeadingSpace(rest);
      assert text + " " + rest == text + (" " + rest);
    }
  }

  lemma JoinFirst(items: seq<Item>)
    requires AllValid(items) && items != []
    ensures |items| == 1 ==> Join(items) == items[0].Text() && Join(items[1..]) == ""
    ensures |items| > 1 ==> Join(items) == items[0].Text() + " " + Join(items[1..])
  {
    hide Word, IsUnknown;
  }

  lemma ScanReadsOff(items: seq<Item>)
    requires AllValid(items) && items != [] && items[0] == Known(OFF)
    ensures |items| > 1 && items[1].Unknown? ==> Scan(Join(items)) == Scan(SecondLetterOn(items[1..])).After([OFF, FSD])
    ensures |items| <= 2 && (|items| > 1 ==> items[1].Known?) ==> Scan(Join(items)) == Wild
    ensures |items| > 2 && items[1].Known? ==>
      Scan(Join(items)) == Scan(Join(items[2..])).After([OFF, FSD] + Misread(items[1].flag))
  {
    hide Scan, IsUnknown, Join;
    JoinFirst(items);
    WordOff();
    if |items| == 1 {
      OffTurn("");
    } else {
      var rest := Join(items[1..]);
      JoinNotEmpty(items[1..]);
      hide Word, Misread;
      OffTurn(rest);
      if items[1].Known? {
        ScanReadsOffWord(items[1..]);
        assert |items| > 2 ==> items[1..][1..] == items[2..];
        if |items| > 2 {
          AfterTwice(Scan(Join(items[2..])), [OFF, FSD], Misread(items[1].flag));
        }
      }
    }
  }

  lemma JoinNotEmpty(items: seq<Item>)
    requires AllValid(items) && items != []
    ensures Join(items) != ""
  {
    JoinFirst(items);
    if items[0].Known? { WordLetters(items[0].flag); }
    hide Word, Join;
  }

  lemma DropFirst(w: string, tail: string)
    requires w != ""
    ensures (w + " " + tail)[1..] == w[1..] + " " + tail
  {
  }

  lemma WordLetters(f: Flag)
    requires f != OTHER
    ensures Word(f) != ""
  {
  }

  lemma WordOff()
    ensures Word(OFF) == "OFF"
    ensures forall rest: string :: "OFF" + " " + rest == "OFF " + rest
  {
  }

  /** The word behind `OFF`, entered at its second letter. */
  lemma ScanReadsOffWord(items: seq<Item>)
    requires AllValid(items) && items != [] && items[0].Known?
    ensures Join(items) != ""
    ensures |items| == 1 ==> Scan(Join(items)[1..]) == Wild
    ensures |items| > 1 ==> Scan(Join(items)[1..]) == Scan(Join(items[1..])).After(Misread(items[0].flag))
  {
    hide Scan, Word, Misread, IsUnknown;
    var w := Word(items[0].flag);
    WordLetters(items[0].flag);
    assert items[0].Text() == w;
    assert Join(items) == if |items| == 1 then w else w + " " + Join(items[1..]);
    hide Join;
    if |items| == 1 {
      MisreadLast(items[0].flag);
    } else {
      var tail := Join(items[1..]);
      MisreadTurn(items[0].flag, tail);
      DropFirst(w, tail);
    }
  }

  // ---- when the reading is exact --------------------------------------------------------------------

  /** The bits are right: the cursor stops at the terminator, and exactly the flags of the items are set. */
  predicate BitsExact(items: seq<Item>)
    requires AllValid(items)
  {
    var o := Scan(Join(items));
    o.Done? && FlagSet(o.flags) == FlagSet(Meanings(items))
  }

  lemma {:induction false} WithoutOff(items: seq<Item>)
    requires AllValid(items) && Known(OFF) !in items
    ensures Reading(items) == if items != [] && items[|items| - 1].Unknown? then Wild else Done(Meanings(items))
  {
    if items != [] {
      assert items[0] in items;
      WithoutOff(items[1..]);
      assert Meanings(items) == [items[0].Meaning()] + Meanings(items[1..]);
    }
  }

  /** For every list without `OFF`, repeats and unknown words included, the bits are right if and only if the
      last item is a documented word; the flags are then set in the order of the items. */
  lemma ScannerInvertsPrinter(items: seq<Item>)
    requires AllValid(items) && Known(OFF) !in items
    ensures BitsExact(items) <==> items == [] || items[|items| - 1].Known?
    ensures BitsExact(items) ==> Scan(Join(items)) == Done(Meanings(items))
  {
    ScanReads(items);
    WithoutOff(items);
    hide Scan, Join, Reading, Meanings;
  }

  predicate AllKnown(items: seq<Item>) {
    forall i :: 0 <= i < |items| ==> items[i].Known? && items[i].flag != OTHER
  }

  /** The words that are read from their first letter. */
  function Kept(items: seq<Item>): seq<Flag>
    requires AllKnown(items)
    decreases |items|
  {
    if items == [] then []
    else if items[0].flag != OFF || |items| == 1 then [items[0].flag] + Kept(items[1..])
    else [OFF] + Kept(items[2..])
  }

  /** The words directly behind an `OFF` that is read. */
  function Swallowed(items: seq<Item>): seq<Flag>
    requires AllKnown(items)
    decreases |items|
  {
    if items == [] then []
    else if items[0].flag != OFF || |items| == 1 then Swallowed(items[1..])
    else [items[1].flag] + Swallowed(items[2..])
  }

  /** An `OFF` is read in one of the last two places. */
  predicate EndsInOff(items: seq<Item>)
    requires AllKnown(items)
    decreases |items|
  {
    items != [] &&
    if items[0].flag != OFF then EndsInOff(items[1..]) else |items| <= 2 || EndsInOff(items[2..])
  }

  /** `OFF` does no harm: what it sets beside its own bit, and what it hides, is listed anyway. */
  predicate Harmless(items: seq<Item>)
    requires AllKnown(items)
  {
    || OFF !in Kept(items)
    || (&& !EndsInOff(items)
        && (forall f :: f in Swallowed(items) ==> f == OL || f == OFF)
        && FSD in Meanings(items)
        && (OL in Swallowed(items) ==> LB in Meanings(items) && OL in Kept(items)))
  }

  lemma FirstItem(items: seq<Item>, n: nat, f: Flag)
    requires AllKnown(items) && n <= |items|
    ensures AllKnown(items[n..])
    ensures f in Meanings(items) <==> f in Meanings(items[..n]) || f in Meanings(items[n..])
  {
    assert Meanings(items) == Meanings(items[..n]) + Meanings(items[n..]);
  }

  /** Every listed word is read or swallowed. */
  lemma {:induction false} KeptOrSwallowed(items: seq<Item>, f: Flag)
    requires AllKnown(items)
    ensures f in Meanings(items) <==> f in Kept(items) || f in Swallowed(items)
    ensures OFF in Meanings(items) <==> OFF in Kept(items)
    decreases |items|
  {
    if items != [] {
      var n := if items[0].flag != OFF || |items| == 1 then 1 else 2;
      FirstItem(items, n, f);
      FirstItem(items, n, OFF);
      KeptOrSwallowed(items[n..], f);
      assert Meanings(items[..1]) == [items[0].flag];
      assert n == 2 ==> Meanings(items[..2]) == [OFF, items[1].flag];
      hide Meanings;
    }
  }

  /** What the scanner reads of documented words, flag by flag. */
  lemma {:induction false} ReadingMeans(items: seq<Item>, f: Flag)
    requires AllKnown(items)
    ensures Reading(items).Wild? <==> EndsInOff(items)
    ensures Reading(items).Done? ==>
      (f in Reading(items).flags <==>
        f in Kept(items) || (f == FSD && OFF in Kept(items)) || exists g :: g in Swallowed(items) && f in Misread(g))
    decreases |items|
  {
    if items != [] {
      var n := if items[0].flag != OFF || |items| == 1 then 1 else 2;
      ReadingMeans(items[n..], f);
      hide Misread;
    }
  }

  lemma HarmlessFlag(items: seq<Item>, f: Flag)
    requires AllKnown(items) && Harmless(items) && OFF in Kept(items)
    ensures Reading(items).Done? && (f in Reading(items).flags <==> f in Meanings(items))
  {
    ReadingMeans(items, f);
    KeptOrSwallowed(items, f);
    KeptOrSwallowed(items, FSD);
    KeptOrSwallowed(items, LB);
    hide Reading, Meanings, Kept, Swallowed, EndsInOff;
  }

  lemma ExactIsHarmless(items: seq<Item>)
    requires AllKnown(items) && Reading(items).Done? && OFF in Kept(items)
    requires forall f :: f in Reading(items).flags <==> f in Meanings(items)
    ensures Harmless(items)
  {
    hide Reading, Meanings, Kept, Swallowed, EndsInOff;
    ReadingMeans(items, FSD);
    forall g | g in Swallowed(items)
      ensures g == OL || g == OFF
    {
      ReadingMeans(items, OTHER);
      NoOther(items);
      assert g != OL && g != OFF ==> OTHER in Misread(g);
    }
    if OL in Swallowed(items) {
      ReadingMeans(items, LB);
      assert LB in Misread(OL);
      ReadingMeans(items, OL);
      KeptOrSwallowed(items, OL);
    }
  }

  lemma NoOther(items: seq<Item>)
    requires AllKnown(items)
    ensures OTHER !in Meanings(items)
  {
  }

  lemma NoOffKept(items: seq<Item>)
    requires AllKnown(items)
    ensures Known(OFF) in items <==> OFF in Kept(items)
  {
    KeptOrSwallowed(items, OFF);
    if Known(OFF) in items {
      var i :| 0 <= i < |items| && items[i] == Known(OFF);
      assert Meanings(items)[i] == OFF;
    }
    if OFF in Meanings(items) {
      var i :| 0 <= i < |items| && Meanings(items)[i] == OFF;
      assert items[i] == Known(OFF);
    }
  }

  /** Main result on `OFF`: for every list of documented words, with repeats, the bits are right if and only if
      `OFF` is absent or harmless. */
  lemma BitsExactIffHarmless(items: seq<Item>)
    requires AllKnown(items)
    ensures BitsExact(items) <==> Harmless(items)
  {
    ScanReads(items);
    NoOffKept(items);
    if OFF !in Kept(items) {
      ScannerInvertsPrinter(items);
    } else {
      hide Scan, Join, Reading, Meanings, Kept, Swallowed, EndsInOff, Harmless;
      if Harmless(items) {
        forall f
          ensures Reading(items).Done? && (f in Reading(items).flags <==> f in Meanings(items))
        {
          HarmlessFlag(items, f);
        }
        SameSet(Reading(items).flags, Meanings(items));
      }
      if BitsExact(items) {
        SameSet(Reading(items).flags, Meanings(items));
        ExactIsHarmless(items);
      }
    }
  }

  lemma SameSet(a: seq<Flag>, b: seq<Flag>)
    ensures FlagSet(a) == FlagSet(b) <==> forall f :: f in a <==> f in b
  {
    if FlagSet(a) == FlagSet(b) {
      assert forall f :: f in a <==> f in FlagSet(a);
      assert forall f :: f in b <==> f in FlagSet(b);
    }
  }

  predicate NoRepeats(items: seq<Item>) {
    forall i, j :: 0 <= i < j < |items| ==> items[i] != items[j]
  }

  lemma {:induction false} SwallowedIsNotKept(items: seq<Item>, f: Flag)
    requires AllKnown(items) && NoRepeats(items)
    ensures !(f in Swallowed(items) && f in Kept(items))
    decreases |items|
  {
    if items != [] {
      var n := if items[0].flag != OFF || |items| == 1 then 1 else 2;
      var rest := items[n..];
      SwallowedIsNotKept(rest, f);
      KeptOrSwallowed(rest, f);
      if f in Meanings(rest) {
        var i :| 0 <= i < |rest| && Meanings(rest)[i] == f;
        assert items[n + i] == Known(f);
      }
      hide Meanings;
    }
  }

  /** Without repeats the bits are right if and only if `OFF` is not in the list. */
  lemma ExactIffNoOff(items: seq<Item>)
    requires AllKnown(items) && NoRepeats(items)
    ensures BitsExact(items) <==> Known(OFF) !in items
  {
    BitsExactIffHarmless(items);
    NoOffKept(items);
    SwallowedIsNotKept(items, OL);
    SwallowedIsNotKept(items, OFF);
    if OFF in Kept(items) && !EndsInOff(items) {
      SomethingSwallowed(items);
      assert Swallowed(items)[0] in Swallowed(items);
    }
    hide BitsExact, Kept, Swallowed, EndsInOff, Meanings;
  }

  lemma {:induction false} SomethingSwallowed(items: seq<Item>)
    requires AllKnown(items) && OFF in Kept(items) && !EndsInOff(items)
    ensures Swallowed(items) != []
    decreases |items|
  {
    if items[0].flag != OFF {
      SomethingSwallowed(items[1..]);
    }
  }

  /** Repeats can make up for it: the bits of "OFF OFF FSD" are right although each `OFF` is misread. */
  lemma RepeatsExample()
    ensures AllKnown([Known(OFF), Known(OFF), Known(FSD)]) && BitsExact([Known(OFF), Known(OFF), Known(FSD)])
  {
    var items := [Known(OFF), Known(OFF), Known(FSD)];
    assert items[2..] == [Known(FSD)] && [Known(FSD)][1..] == [];
    assert Kept([]) == [] && Swallowed([]) == [] && !EndsInOff([]);
    assert Kept([Known(FSD)]) == [FSD] && Swallowed([Known(FSD)]) == [] && !EndsInOff([Known(FSD)]);
    assert Swallowed(items) == [OFF] && Kept(items) == [OFF, FSD];
    assert Meanings(items)[2] == FSD;
    BitsExactIffHarmless(items);
    hide BitsExact;
  }

  /** "OL ALARM" sends the cursor to a null pointer. */
  lemma UnknownExample()
    ensures Scan("OL ALARM") == Wild
  {
    var items := [Known(OL), Unknown("ALARM")];
    assert items[1..] == [Unknown("ALARM")];
    assert Join(items) == "OL" + " " + "ALARM" == "OL ALARM";
    ScanReads(items);
    assert Reading(items[1..]) == Wild;
  }

  /** "OFF LB OL" is read as off, forced shutdown, other and on line. */
  lemma OffExample()
    ensures Scan("OFF LB OL") == Done([OFF, FSD, OTHER, OL])
  {
    var items := [Known(OFF), Known(LB), Known(OL)];
    assert items[1..] == [Known(LB), Known(OL)] && items[2..] == [Known(OL)] && items[1..][1..] == items[2..];
    assert Join(items[2..]) == "OL";
    assert Join(items[1..]) == "LB" + " " + "OL" == "LB OL";
    assert Join(items) == "OFF" + " " + "LB OL" == "OFF LB OL";
    ScanReads(items);
    assert [Known(OL)][1..] == [];
    assert Reading([Known(OL)]) == Done([OL]);
    hide Scan, Join, Word;
    assert [OFF, FSD] + Misread(LB) + [OL] == [OFF, FSD, OTHER, OL];
  }
}
