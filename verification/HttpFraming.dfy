/** Body framing (section 6.3 of RFC 9112): what a sequence of header fields decides. */
module HttpFraming {
  import opened Basics
  import opened Text
  import opened HttpParser

  type Field = (string, string)

  /** The header fields of a message, handed to `process_http_hdr` in order. */
  function FoldHdrs(s: Ctx, hs: seq<Field>): (r: Option<Ctx>)
    ensures r.Some? ==> r.value == s.(contentLength := r.value.contentLength, headers := r.value.headers)
    decreases |hs|
  {
    if hs == [] then Some(s)
    else
      match ProcessHdr(s, ToLower(hs[0].0), hs[0].1)
      case None => None
      case Some(s') => FoldHdrs(s', hs[1..])
  }

  predicate IsLength(h: Field) {
    ToLower(h.0) == "content-length"
  }

  predicate IsChunked(h: Field) {
    ToLower(h.0) == "transfer-encoding" && h.1 == "chunked"
  }

  /** The length a Content-Length value denotes after the conversions of the parser; negative if refused. */
  function LengthOf(h: Field): int {
    ToInt32(Str2u(h.1))
  }

  /** A printed length is read as itself below 2^31, behind white space and in front of any text that does not
      go on with a digit; between 2^31 and 2^32 it is refused. */
  lemma LengthReads(key: string, sp: string, n: nat, rest: string)
    requires AllSpaces(sp) && EndsDecimal(rest)
    ensures n < 0x8000_0000 ==> LengthOf((key, sp + (Numeral(n) + rest))) == n
    ensures 0x8000_0000 <= n < 0x1_0000_0000 ==> LengthOf((key, sp + (Numeral(n) + rest))) < 0
  {
    hide Numeral, Str2u;
    Str2uReads(sp, n, rest);
  }

  lemma FieldsDistinct(h: Field)
    ensures !(IsLength(h) && IsChunked(h))
  {
    assert "content-length"[0] != "transfer-encoding"[0];
  }

  /** Effect of one field once the framing is decided: refuse a second decision, else keep it. */
  lemma FramingIsFinal(s: Ctx, h: Field)
    requires s.contentLength != UNSET && s.contentLength >= CHUNKED
    ensures var r := ProcessHdr(s, ToLower(h.0), h.1);
            && (r.None? <==> IsChunked(h) || (IsLength(h) && s.contentLength == CHUNKED))
            && (r.Some? ==> r.value.contentLength == s.contentLength)
  {
    FieldsDistinct(h);
  }

  /** The framing the first framing field asks for. */
  function FramingOf(hs: seq<Field>): int {
    if hs == [] then UNSET
    else if IsLength(hs[0]) then LengthOf(hs[0])
    else if IsChunked(hs[0]) then CHUNKED
    else FramingOf(hs[1..])
  }

  lemma FirstFraming(s: Ctx, h: Field)
    requires s.contentLength == UNSET
    ensures var r := ProcessHdr(s, ToLower(h.0), h.1);
            && (r.None? <==> IsLength(h) && LengthOf(h) < 0)
            && (r.Some? ==> r.value.contentLength == FramingOf([h]))
  {
    FieldsDistinct(h);
  }

  /** The first framing field of the message, if any, has a valid length, and no two framing fields meet
      unless both are lengths. */
  predicate AcceptableFraming(hs: seq<Field>) {
    && (forall i, j :: 0 <= i < j < |hs| && IsChunked(hs[i]) ==> !IsChunked(hs[j]) && !IsLength(hs[j]))
    && (forall i, j :: 0 <= i < j < |hs| && IsLength(hs[i]) ==> !IsChunked(hs[j]))
    && (forall j :: 0 <= j < |hs| && IsLength(hs[j]) && (forall i :: 0 <= i < j ==> !IsLength(hs[i])) ==> LengthOf(hs[j]) >= 0)
  }

  /** After the decision, the remaining fields are accepted exactly when none of them decides again. */
  lemma {:induction false} DecidedOnce(s: Ctx, hs: seq<Field>)
    requires s.contentLength != UNSET && s.contentLength >= CHUNKED
    ensures FoldHdrs(s, hs).Some? <==>
            forall j :: 0 <= j < |hs| ==> !IsChunked(hs[j]) && !(IsLength(hs[j]) && s.contentLength == CHUNKED)
    ensures FoldHdrs(s, hs).Some? ==> FoldHdrs(s, hs).value.contentLength == s.contentLength
    decreases |hs|
  {
    if hs != [] {
      FramingIsFinal(s, hs[0]);
      match ProcessHdr(s, ToLower(hs[0].0), hs[0].1)
      case None =>
      case Some(s') =>
        DecidedOnce(s', hs[1..]);
        assert forall j :: 0 < j < |hs| ==> hs[j] == hs[1..][j - 1];
        assert forall j :: 0 <= j < |hs| - 1 ==> hs[1..][j] == hs[j + 1];
    }
  }

  /** A header section is accepted if and only if its framing is unambiguous, and then the first framing
      field, and no later one, decides the framing. */
  lemma {:induction false} FramingDecided(s: Ctx, hs: seq<Field>)
    requires s.contentLength == UNSET
    ensures FoldHdrs(s, hs).Some? <==> AcceptableFraming(hs)
    ensures FoldHdrs(s, hs).Some? ==> FoldHdrs(s, hs).value.contentLength == FramingOf(hs)
    decreases |hs|
  {
    if hs != [] {
      var (h, rest) := (hs[0], hs[1..]);
      assert forall j :: 0 < j < |hs| ==> hs[j] == rest[j - 1];
      assert forall j :: 0 <= j < |rest| ==> rest[j] == hs[j + 1];
      FieldsDistinct(h);
      FirstFraming(s, h);
      match ProcessHdr(s, ToLower(h.0), h.1)
      case None =>
        assert IsLength(hs[0]) && LengthOf(hs[0]) < 0;
      case Some(s') =>
        if IsLength(h) || IsChunked(h) {
          DecidedOnce(s', rest);
          DecidedFirst(hs);
        } else {
          FramingDecided(s', rest);
          UndecidedFirst(hs);
        }
    }
  }

  lemma DecidedFirst(hs: seq<Field>)
    requires hs != [] && (IsLength(hs[0]) || IsChunked(hs[0]))
    requires IsLength(hs[0]) ==> LengthOf(hs[0]) >= 0
    ensures AcceptableFraming(hs) <==>
            forall j :: 0 < j < |hs| ==> !IsChunked(hs[j]) && !(IsLength(hs[j]) && IsChunked(hs[0]))
  {
    hide IsLength, IsChunked, LengthOf;
    FieldsDistinct(hs[0]);
    if AcceptableFraming(hs) {
      assert forall j :: 0 < j < |hs| ==> !IsChunked(hs[j]) && !(IsLength(hs[j]) && IsChunked(hs[0]));
    }
  }

  lemma UndecidedFirst(hs: seq<Field>)
    requires hs != [] && !IsLength(hs[0]) && !IsChunked(hs[0])
    ensures AcceptableFraming(hs) <==> AcceptableFraming(hs[1..])
  {
    hide IsLength, IsChunked, LengthOf;
    var rest := hs[1..];
    assert forall j :: 0 <= j < |rest| ==> rest[j] == hs[j + 1];
    if AcceptableFraming(rest) {
      forall j | 0 <= j < |hs| && IsLength(hs[j]) && (forall i :: 0 <= i < j ==> !IsLength(hs[i]))
        ensures LengthOf(hs[j]) >= 0
      {
        assert rest[j - 1] == hs[j];
        assert forall i :: 0 <= i < j - 1 ==> rest[i] == hs[i + 1];
      }
      forall i, j | 0 <= i < j < |hs|
        ensures IsChunked(hs[i]) ==> !IsChunked(hs[j]) && !IsLength(hs[j])
        ensures IsLength(hs[i]) ==> !IsChunked(hs[j])
      {
        if i > 0 {
          assert hs[i] == rest[i - 1] && hs[j] == rest[j - 1];
        }
      }
    }
    if AcceptableFraming(hs) {
      forall j | 0 <= j < |rest| && IsLength(rest[j]) && (forall i :: 0 <= i < j ==> !IsLength(rest[i]))
        ensures LengthOf(rest[j]) >= 0
      {
        assert forall i :: 0 < i < j + 1 ==> hs[i] == rest[i - 1];
      }
    }
  }

  /** A message with both a Content-Length and a chunked Transfer-Encoding is rejected in either order. */
  lemma BothFramingsRejected(s: Ctx, hs: seq<Field>, i: nat, j: nat)
    requires s.contentLength == UNSET
    requires i < |hs| && j < |hs| && IsLength(hs[i]) && IsChunked(hs[j])
    ensures FoldHdrs(s, hs).None?
  {
    FramingDecided(s, hs);
    FieldsDistinct(hs[i]);
    assert i < j || j < i;
  }

  // ---- the header table -----------------------------------------------------------------------------

  predicate HasKey(h: Field, key: string) {
    ToLower(h.0) == key
  }

  predicate Mentions(hs: seq<Field>, key: string) {
    exists i :: 0 <= i < |hs| && HasKey(hs[i], key)
  }

  /** The last field with this key. */
  predicate IsLast(hs: seq<Field>, key: string, i: nat) {
    i < |hs| && HasKey(hs[i], key) && forall j :: i < j < |hs| ==> !HasKey(hs[j], key)
  }

  /** The framing fields have a table of their own: none for the encoding, the repetitions for the length. */
  predicate IsFraming(key: string) {
    key == "content-length" || key == "transfer-encoding"
  }

  /** What the table holds of a key: nothing if no field stored it, else the value of the last one. */
  ghost predicate Holds(table: map<string, string>, hs: seq<Field>, key: string, stored: bool) {
    (key in table <==> stored) && forall i: nat :: stored && IsLast(hs, key, i) ==> table[key] == hs[i].1
  }

  predicate LengthTwice(hs: seq<Field>) {
    exists i, j :: 0 <= i < j < |hs| && IsLength(hs[i]) && IsLength(hs[j])
  }

  /** The header table of a message, from its fields alone: keys in lower case, the last value of each; the
      encoding is never stored, and a length only if it is repeated. */
  ghost predicate Tabulates(table: map<string, string>, hs: seq<Field>) {
    && (forall key :: !IsFraming(key) ==> Holds(table, hs, key, Mentions(hs, key)))
    && "transfer-encoding" !in table
    && Holds(table, hs, "content-length", LengthTwice(hs))
  }

  /** One field changes the table at its own key only, and there only if it is stored. */
  lemma FieldStored(s: Ctx, h: Field, key: string)
    ensures var r := ProcessHdr(s, ToLower(h.0), h.1);
            r.Some? ==>
              && (HasKey(h, key) && key != "transfer-encoding" && !(key == "content-length" && s.contentLength < 0) ==>
                    key in r.value.headers && r.value.headers[key] == h.1)
              && (!HasKey(h, key) || key == "transfer-encoding" || (key == "content-length" && s.contentLength < 0) ==>
                    (key in r.value.headers <==> key in s.headers)
                    && (key in s.headers ==> r.value.headers[key] == s.headers[key]))
  {
    assert "content-length"[0] != "transfer-encoding"[0];
    hide ToLower, Str2u, ToInt32;
  }

  lemma MentionsFirst(hs: seq<Field>, key: string)
    requires hs != []
    ensures Mentions(hs, key) <==> HasKey(hs[0], key) || Mentions(hs[1..], key)
    ensures forall i: nat :: IsLast(hs, key, i) <==>
              if i == 0 then HasKey(hs[0], key) && !Mentions(hs[1..], key) else IsLast(hs[1..], key, i - 1)
  {
    hide HasKey;
    var rest := hs[1..];
    assert forall j :: 0 < j < |hs| ==> hs[j] == rest[j - 1];
    assert forall j :: 0 <= j < |rest| ==> rest[j] == hs[j + 1];
  }

  /** The fold over fields that store this key: the last value wins, and what was there stays otherwise. */
  lemma {:induction false} FoldStores(s: Ctx, hs: seq<Field>, key: string)
    requires FoldHdrs(s, hs).Some?
    requires key != "transfer-encoding" && (key == "content-length" ==> s.contentLength >= 0)
    ensures var table := FoldHdrs(s, hs).value.headers;
            && Holds(table, hs, key, key in s.headers || Mentions(hs, key))
            && (!Mentions(hs, key) && key in s.headers ==> table[key] == s.headers[key])
    decreases |hs|
  {
    if hs != [] {
      FieldStored(s, hs[0], key);
      MentionsFirst(hs, key);
      if s.contentLength >= 0 { FramingIsFinal(s, hs[0]); }
      hide ProcessHdr, HasKey, IsLast, Mentions;
      FoldStores(ProcessHdr(s, ToLower(hs[0].0), hs[0].1).value, hs[1..], key);
    }
  }

  lemma {:induction false} FoldSkips(s: Ctx, hs: seq<Field>, key: string)
    requires FoldHdrs(s, hs).Some? && (key == "transfer-encoding" || !Mentions(hs, key))
    ensures key in FoldHdrs(s, hs).value.headers <==> key in s.headers
    decreases |hs|
  {
    if hs != [] {
      FieldStored(s, hs[0], key);
      MentionsFirst(hs, key);
      hide ProcessHdr, HasKey, IsLast, Mentions;
      FoldSkips(ProcessHdr(s, ToLower(hs[0].0), hs[0].1).value, hs[1..], key);
    }
  }

  lemma LengthTwiceFirst(hs: seq<Field>)
    requires hs != []
    ensures LengthTwice(hs) <==> LengthTwice(hs[1..]) || (IsLength(hs[0]) && Mentions(hs[1..], "content-length"))
  {
    var rest := hs[1..];
    assert forall j :: 0 < j < |hs| ==> hs[j] == rest[j - 1];
    assert forall j :: 0 <= j < |rest| ==> rest[j] == hs[j + 1];
    assert forall h: Field :: IsLength(h) <==> HasKey(h, "content-length");
    hide IsLength, HasKey;
    if i, j :| 0 <= i < j < |hs| && IsLength(hs[i]) && IsLength(hs[j]) {
      assert HasKey(rest[j - 1], "content-length");
      assert i > 0 ==> IsLength(rest[i - 1]) && IsLength(rest[j - 1]);
    }
    if i, j :| 0 <= i < j < |rest| && IsLength(rest[i]) && IsLength(rest[j]) {
      assert IsLength(hs[i + 1]) && IsLength(hs[j + 1]);
    }
    if IsLength(hs[0]) && Mentions(rest, "content-length") {
      var j :| 0 <= j < |rest| && HasKey(rest[j], "content-length");
      assert IsLength(hs[0]) && IsLength(hs[j + 1]);
    }
  }

  /** The first length decides the framing and is not stored; a later one is stored like any field. */
  lemma {:induction false} FoldLengths(s: Ctx, hs: seq<Field>)
    requires FoldHdrs(s, hs).Some? && s.contentLength == UNSET && "content-length" !in s.headers
    ensures Holds(FoldHdrs(s, hs).value.headers, hs, "content-length", LengthTwice(hs))
    decreases |hs|
  {
    if hs != [] {
      var (h, rest, key) := (hs[0], hs[1..], "content-length");
      var s' := ProcessHdr(s, ToLower(h.0), h.1).value;
      FieldStored(s, h, key);
      FirstFraming(s, h);
      FieldsDistinct(h);
      MentionsFirst(hs, key);
      LengthTwiceFirst(hs);
      assert IsLength(h) <==> HasKey(h, key);
      hide ProcessHdr, HasKey, IsLast, LengthTwice;
      if IsLength(h) {
        FoldStores(s', rest, key);
        LengthsMentioned(rest);
      } else if IsChunked(h) {
        DecidedOnce(s', rest);
        LengthsMentioned(rest);
        FoldSkips(s', rest, key);
      } else {
        FoldLengths(s', rest);
      }
    }
  }

  lemma LengthsMentioned(hs: seq<Field>)
    ensures LengthTwice(hs) ==> Mentions(hs, "content-length")
    ensures (forall j :: 0 <= j < |hs| ==> !IsLength(hs[j])) ==> !Mentions(hs, "content-length")
  {
    if i, j :| 0 <= i < j < |hs| && IsLength(hs[i]) && IsLength(hs[j]) {
      assert HasKey(hs[i], "content-length");
    }
    if i :| 0 <= i < |hs| && HasKey(hs[i], "content-length") {
      assert IsLength(hs[i]);
    }
  }

  /** The header table an accepted header section leaves. */
  lemma FoldTabulates(s: Ctx, hs: seq<Field>)
    requires FoldHdrs(s, hs).Some? && s.contentLength == UNSET && s.headers == map[]
    ensures Tabulates(FoldHdrs(s, hs).value.headers, hs)
  {
    hide FoldHdrs, Mentions, LengthTwice, IsLast;
    forall key | !IsFraming(key)
      ensures Holds(FoldHdrs(s, hs).value.headers, hs, key, Mentions(hs, key))
    {
      FoldStores(s, hs, key);
    }
    FoldSkips(s, hs, "transfer-encoding");
    FoldLengths(s, hs);
  }
}
