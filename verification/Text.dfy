/** The C text primitives the daemon relies on: C strings, number reading and number printing.
    C `char` sequences are Dafny strings; 64-bit saturation and 32-bit wrap-around are explicit. */
module Text {

  const CRLF := "\r\n"
  const LONG_MAX: int := 0x7fff_ffff_ffff_ffff
  const UINT_RANGE: int := 0x1_0000_0000

  /** `isspace` in the C locale. */
  predicate IsSpace(c: char) {
    c == ' ' || 9 <= c as int <= 13
  }

  /** The part of a buffer a C string function sees: everything before the first NUL. */
  function CString(s: string): (r: string)
    ensures '\0' !in r
    ensures r <= s
    ensures |r| < |s| ==> s[|r|] == '\0'
  {
    if s == "" || s[0] == '\0' then "" else [s[0]] + CString(s[1..])
  }

  lemma CStringOfClean(s: string)
    requires '\0' !in s
    ensures CString(s) == s
  {
    assert forall i :: 0 <= i < |s| ==> s[i] in s;
  }

  /** A string followed by its terminator reads back as itself, whatever comes after. */
  lemma CStringStops(s: string, rest: string)
    requires '\0' !in s
    ensures CString(s + "\0" + rest) == s
  {
    var t := s + "\0" + rest;
    var r := CString(t);
    assert forall i :: 0 <= i < |s| ==> t[i] == s[i] && s[i] in s;
    assert t[|s|] == '\0';
    assert forall i :: 0 <= i < |r| ==> r[i] == t[i] && r[i] in r;
    assert |r| == |s|;
    assert t[..|s|] == s;
  }

  /** `tolower` on each character: the letters 'A' to 'Z' move by 32, nothing else changes. */
  function ToLower(s: string): (r: string)
    ensures |r| == |s|
    ensures forall i :: 0 <= i < |s| && 'A' <= s[i] <= 'Z' ==> r[i] as int == s[i] as int + 32
    ensures forall i :: 0 <= i < |s| && !('A' <= s[i] <= 'Z') ==> r[i] == s[i]
  {
    if s == "" then "" else
      [if 'A' <= s[0] <= 'Z' then (s[0] as int + 32) as char else s[0]] + ToLower(s[1..])
  }

  function SkipSpaces(s: string): (r: string)
    ensures |r| <= |s|
    ensures r == "" || !IsSpace(r[0])
  {
    if s != "" && IsSpace(s[0]) then SkipSpaces(s[1..]) else s
  }

  // ---- digits -------------------------------------------------------------------------------

  /** The value of a digit in the given base, or -1 when `c` is no digit of it. */
  function DigitVal(c: char, base: nat): (d: int)
    ensures -1 <= d < base
  {
    var v := if '0' <= c <= '9' then c as int - '0' as int
             else if 'a' <= c <= 'f' then c as int - 'a' as int + 10
             else if 'A' <= c <= 'F' then c as int - 'A' as int + 10
             else -1;
    if v < base then v else -1
  }

  /** Reads digits until the first non-digit, without any bound on the value. */
  function ReadDigits(s: string, base: nat, acc: nat): (n: nat)
    ensures n >= acc || base == 0
  {
    if s == "" || DigitVal(s[0], base) < 0 then acc
    else
      assert base >= 1;
      assert acc * base >= acc;
      ReadDigits(s[1..], base, acc * base + DigitVal(s[0], base))
  }

  function Glyph(d: nat): (c: char)
    requires d < 10
    ensures c as int == '0' as int + d
  {
    "0123456789"[d]
  }

  /** `printf` of an unsigned number in base 10. */
  function Numeral(n: nat): (s: string)
    ensures |s| >= 1
    ensures forall i :: 0 <= i < |s| ==> '0' <= s[i] <= '9'
  {
    if n < 10 then [Glyph(n)] else Numeral(n / 10) + [Glyph(n % 10)]
  }

  lemma ReadOneDigit(d: nat, acc: nat, rest: string)
    requires d < 10
    ensures ReadDigits([Glyph(d)] + rest, 10, acc) == ReadDigits(rest, 10, acc * 10 + d)
  {
    hide Glyph;
    var s := [Glyph(d)] + rest;
    assert s[1..] == rest;
  }

  /** Reading a printed number continues with its value, whatever text follows it. */
  lemma {:induction false} ReadNumeral(n: nat, rest: string)
    ensures ReadDigits(Numeral(n) + rest, 10, 0) == ReadDigits(rest, 10, n)
  {
    hide Glyph, DigitVal;
    if n < 10 {
      ReadOneDigit(n, 0, rest);
    } else {
      var (q, r) := (n / 10, n % 10);
      ReadOneDigit(r, q, rest);
      ReadNumeral(q, [Glyph(r)] + rest);
      assert Numeral(n) + rest == Numeral(q) + ([Glyph(r)] + rest);
    }
  }

  // ---- hexadecimal sizes as people write them -----------------------------------------------

  /** A hexadecimal digit in either case. */
  datatype Digit = Digit(value: nat, upper: bool) {
    predicate Valid() {
      value < 16
    }

    function Glyph(): char
      requires Valid()
    {
      if upper then "0123456789ABCDEF"[value] else "0123456789abcdef"[value]
    }
  }

  predicate AllDigits(ds: seq<Digit>) {
    forall i :: 0 <= i < |ds| ==> ds[i].Valid()
  }

  function Spell(ds: seq<Digit>): (s: string)
    requires AllDigits(ds)
    ensures |s| == |ds|
  {
    seq(|ds|, i requires 0 <= i < |ds| => ds[i].Glyph())
  }

  /** The positional value. */
  function Value(ds: seq<Digit>): nat {
    if ds == [] then 0 else Value(ds[..|ds| - 1]) * 16 + ds[|ds| - 1].value
  }

  /** Text that ends a number: nothing, or a character that is neither a digit nor the x of a prefix. */
  predicate EndsNumber(ext: string) {
    ext == "" || ext[0] !in "0123456789abcdefABCDEFxX"
  }

  lemma GlyphReads(d: Digit)
    requires d.Valid()
    ensures DigitVal(d.Glyph(), 16) == d.value
    ensures d.Glyph() !in "\r\0-+xX" && !IsSpace(d.Glyph())
  {
    var (v, c) := (d.value, d.Glyph());
    assert v < 10 ==> c as int == '0' as int + v;
    assert v >= 10 && d.upper ==> c as int == 'A' as int + v - 10;
    assert v >= 10 && !d.upper ==> c as int == 'a' as int + v - 10;
  }

  lemma HexDigitsAre(c: char)
    ensures DigitVal(c, 16) >= 0 ==> c in "0123456789abcdefABCDEFxX"
  {
    var all := "0123456789abcdefABCDEFxX";
    assert '0' <= c <= '9' ==> c == all[c as int - '0' as int];
    assert 'a' <= c <= 'f' ==> c == all[c as int - 'a' as int + 10];
    assert 'A' <= c <= 'F' ==> c == all[c as int - 'A' as int + 16];
  }

  lemma ReadOneHex(d: Digit, acc: nat, rest: string)
    requires d.Valid()
    ensures ReadDigits([d.Glyph()] + rest, 16, acc) == ReadDigits(rest, 16, acc * 16 + d.value)
  {
    GlyphReads(d);
    hide DigitVal, Digit.Glyph;
    var s := [d.Glyph()] + rest;
    assert s[1..] == rest;
  }

  /** Reading spelled digits continues with their positional value. */
  lemma {:induction false} ReadSpelled(ds: seq<Digit>, rest: string)
    requires AllDigits(ds)
    ensures ReadDigits(Spell(ds) + rest, 16, 0) == ReadDigits(rest, 16, Value(ds))
    decreases |ds|
  {
    hide DigitVal, Digit.Glyph;
    if ds == [] {
      assert Spell(ds) + rest == rest;
    } else {
      var (init, d) := (ds[..|ds| - 1], ds[|ds| - 1]);
      var tail := [d.Glyph()] + rest;
      assert Spell(ds) + rest == Spell(init) + tail;
      hide Spell;
      ReadSpelled(init, tail);
      ReadOneHex(d, Value(init), rest);
    }
  }

  // ---- readers ------------------------------------------------------------------------------

  /** `atoi` on a C string; every caller here reads few enough digits to stay inside `int`. */
  function Atoi(s: string): int {
    var t := SkipSpaces(s);
    if t != "" && t[0] == '-' then 0 - ReadDigits(t[1..], 10, 0)
    else if t != "" && t[0] == '+' then ReadDigits(t[1..], 10, 0)
    else ReadDigits(t, 10, 0)
  }

  /** White space in the C locale, by code. */
  predicate AllSpaces(sp: string) {
    forall i :: 0 <= i < |sp| ==> sp[i] as int in {9, 10, 11, 12, 13, 32}
  }

  lemma {:induction false} SpacesSkipped(sp: string, t: string)
    requires AllSpaces(sp) && (t == "" || !IsSpace(t[0]))
    ensures SkipSpaces(sp + t) == t
  {
    if sp == "" {
      assert sp + t == t;
    } else {
      assert (sp + t)[1..] == sp[1..] + t;
      SpacesSkipped(sp[1..], t);
    }
  }

  /** Not a decimal digit in front. */
  predicate EndsDecimal(rest: string) {
    rest == "" || rest[0] !in "0123456789"
  }

  lemma DecimalDigitsAre(c: char)
    ensures DigitVal(c, 10) >= 0 ==> c in "0123456789"
  {
    assert '0' <= c <= '9' ==> c == "0123456789"[c as int - '0' as int];
  }

  lemma NumberEnds(n: nat, rest: string)
    requires EndsDecimal(rest)
    ensures ReadDigits(Numeral(n) + rest, 10, 0) == n
  {
    ReadNumeral(n, rest);
    if rest != "" {
      DecimalDigitsAre(rest[0]);
    }
  }

  /** `atoi` reads a printed number behind white space and a sign, whatever follows that is no digit. */
  lemma AtoiReads(sp: string, n: nat, rest: string)
    requires AllSpaces(sp) && EndsDecimal(rest)
    ensures Atoi(sp + (Numeral(n) + rest)) == n
    ensures Atoi(sp + ("+" + (Numeral(n) + rest))) == n
    ensures Atoi(sp + ("-" + (Numeral(n) + rest))) == 0 - n
  {
    var t := Numeral(n) + rest;
    NumberEnds(n, rest);
    assert t[0] == Numeral(n)[0];
    SpacesSkipped(sp, t);
    SpacesSkipped(sp, "+" + t);
    SpacesSkipped(sp, "-" + t);
    assert ("+" + t)[1..] == t && ("-" + t)[1..] == t;
  }

  lemma AtoiDigits(t: string)
    requires t != "" && '0' <= t[0] <= '9'
    ensures Atoi(t) == ReadDigits(t, 10, 0)
  {
    hide ReadDigits;
  }

  lemma AtoiNumeral(n: nat)
    ensures Atoi(Numeral(n)) == n
  {
    AtoiReads("", n, "");
    assert "" + (Numeral(n) + "") == Numeral(n);
  }

  /** `str2u`: unsigned 32-bit with wrap-around, no sign. */
  function Str2u(s: string): (n: int)
    ensures 0 <= n < UINT_RANGE
  {
    ReadDigits(SkipSpaces(s), 10, 0) % UINT_RANGE
  }

  /** The conversion of an unsigned 32-bit value to `int`. */
  function ToInt32(n: int): (r: int)
    requires 0 <= n < UINT_RANGE
    ensures -0x8000_0000 <= r < 0x8000_0000
    ensures r >= 0 ==> r == n
  {
    if n < 0x8000_0000 then n else n - UINT_RANGE
  }

  /** `strtol(s, NULL, 16)`, saturating at the ends of a 64-bit `long`. */
  function Strtol16(s: string): (n: int)
    ensures -LONG_MAX - 1 <= n <= LONG_MAX
  {
    var t := SkipSpaces(s);
    var negative := t != "" && t[0] == '-';
    var u := if t != "" && (t[0] == '-' || t[0] == '+') then t[1..] else t;
    var w := if |u| >= 3 && u[0] == '0' && (u[1] == 'x' || u[1] == 'X') && DigitVal(u[2], 16) >= 0 then u[2..] else u;
    var v := ReadDigits(w, 16, 0);
    if negative then (if v > LONG_MAX + 1 then -LONG_MAX - 1 else 0 - v)
    else (if v > LONG_MAX then LONG_MAX else v)
  }

  /** `str2u` reads a printed number behind white space and wraps at 2^32. */
  lemma Str2uReads(sp: string, n: nat, rest: string)
    requires AllSpaces(sp) && EndsDecimal(rest)
    ensures Str2u(sp + (Numeral(n) + rest)) == n % 0x1_0000_0000
  {
    var t := Numeral(n) + rest;
    NumberEnds(n, rest);
    assert t[0] == Numeral(n)[0];
    SpacesSkipped(sp, t);
  }

  /** `strtol` in base 16 reads any spelling of a number, leading zeros and either case included, behind white
      space and a sign; it saturates at the ends of a 64-bit `long`. */
  lemma Strtol16Reads(sp: string, ds: seq<Digit>, ext: string)
    requires AllSpaces(sp) && ds != [] && AllDigits(ds) && EndsNumber(ext)
    ensures var v := Value(ds);
            && Strtol16(sp + (Spell(ds) + ext)) == (if v < 0x8000_0000_0000_0000 then v else 0x7fff_ffff_ffff_ffff)
            && Strtol16(sp + ("-" + (Spell(ds) + ext))) == (if v <= 0x8000_0000_0000_0000 then 0 - v else -0x8000_0000_0000_0000)
  {
    SpelledFront(ds, ext);
    hide ReadDigits, SkipSpaces, Spell, Value, DigitVal;
    var t := Spell(ds) + ext;
    SpacesSkipped(sp, t);
    SpacesSkipped(sp, "-" + t);
    assert ("-" + t)[1..] == t;
  }

  /** What `strtol` sees behind sign and prefix: spelled digits do not look like either. */
  lemma SpelledFront(ds: seq<Digit>, ext: string)
    requires ds != [] && AllDigits(ds) && EndsNumber(ext)
    ensures var t := Spell(ds) + ext;
            && ReadDigits(t, 16, 0) == Value(ds)
            && t[0] !in "-+xX" && !IsSpace(t[0]) && DigitVal(t[0], 16) >= 0
            && (|t| > 1 ==> t[1] !in "xX")
  {
    var t := Spell(ds) + ext;
    ReadSpelled(ds, ext);
    if ext != "" { HexDigitsAre(ext[0]); }
    GlyphReads(ds[0]);
    assert t[0] == ds[0].Glyph();
    if |ds| > 1 {
      GlyphReads(ds[1]);
      assert t[1] == ds[1].Glyph();
    } else {
      assert |t| > 1 ==> t[1] == ext[0];
    }
    hide Digit.Glyph, Spell, Value, DigitVal;
  }

  /** A plus sign changes nothing. */
  lemma Strtol16Plus(sp: string, ds: seq<Digit>, ext: string)
    requires AllSpaces(sp) && ds != [] && AllDigits(ds) && EndsNumber(ext) && Value(ds) < 0x8000_0000_0000_0000
    ensures Strtol16(sp + ("+" + (Spell(ds) + ext))) == Value(ds)
  {
    SpelledFront(ds, ext);
    hide ReadDigits, SkipSpaces, Spell, Value, DigitVal;
    var t := Spell(ds) + ext;
    SpacesSkipped(sp, "+" + t);
    assert ("+" + t)[1..] == t;
  }

  /** Neither does a prefix `0x` or `0X`. */
  lemma Strtol16Prefixed(sp: string, x: char, ds: seq<Digit>, ext: string)
    requires AllSpaces(sp) && ds != [] && AllDigits(ds) && EndsNumber(ext) && Value(ds) < 0x8000_0000_0000_0000
    requires x == 'x' || x == 'X'
    ensures Strtol16(sp + (['0', x] + (Spell(ds) + ext))) == Value(ds)
  {
    SpelledFront(ds, ext);
    hide ReadDigits, SkipSpaces, Spell, Value, DigitVal;
    var t := Spell(ds) + ext;
    SpacesSkipped(sp, ['0', x] + t);
    assert (['0', x] + t)[2..] == t;
  }

  lemma {:induction false} CStringAppend(a: string, b: string)
    requires '\0' !in a
    ensures CString(a + b) == a + CString(b)
  {
    if a == "" {
      assert a + b == b && a + CString(b) == CString(b);
    } else {
      var (t, rest) := (a + b, a[1..]);
      assert a[0] in a && forall i :: 0 <= i < |rest| ==> rest[i] == a[i + 1] && a[i + 1] in a;
      assert t[0] == a[0] && t[1..] == rest + b;
      CStringAppend(rest, b);
      assert CString(t) == [a[0]] + CString(rest + b);
      hide CString;
      assert [a[0]] + (rest + CString(b)) == a + CString(b);
    }
  }
}
