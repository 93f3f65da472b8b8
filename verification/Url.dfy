/** The URL parser of the HTTPS client (a subset of section 3 of RFC 3986). */
module Url {
  import opened Basics
  import opened Text

  /** `strchr`: the first position of `c`, or the length. */
  function FirstOf(s: string, c: char): (i: nat)
    ensures i <= |s|
    ensures i < |s| ==> s[i] == c
    ensures forall k :: 0 <= k < i ==> s[k] != c
  {
    if s == "" || s[0] == c then 0 else 1 + FirstOf(s[1..], c)
  }

  /** `strrchr`: the last position of `c`, or -1. */
  function LastOf(s: string, c: char): (i: int)
    ensures -1 <= i < |s|
    ensures i >= 0 ==> s[i] == c
    ensures forall k :: i < k < |s| ==> s[k] != c
  {
    if s == "" then -1
    else if s[|s| - 1] == c then |s| - 1
    else LastOf(s[..|s| - 1], c)
  }

  /** `strstr(s, "://")`: the first position, or the length. */
  function FindScheme(s: string): (i: nat)
    ensures i <= |s|
    ensures i < |s| ==> i + 3 <= |s| && s[i..i + 3] == "://"
  {
    if s == "" then 0
    else if |s| >= 3 && s[..3] == "://" then 0
    else
      var i := FindScheme(s[1..]);
      assert i < |s| - 1 ==> s[1..][i..i + 3] == s[i + 1..i + 4];
      1 + i
  }

  /** What `url_t` holds after parsing. */
  datatype Parsed = Parsed(proto: Option<string>, host: string, port: int, path: string)

  /** The host part with its port cut off; port 0 when none is given. */
  function HostPort(host: string): Option<(string, int)> {
    var k := LastOf(host, ':');
    if k < 0 then Some((host, 0))
    else if k + 1 == |host| || |host| - k - 1 > 5 || k == 0 then None
    else Some((host[..k], Atoi(host[k + 1..])))
  }

  function DefaultPort(proto: Option<string>, port: int): int {
    if port != 0 then port
    else if proto == Some("http") then 80
    else if proto == Some("https") then 443
    else 0
  }

  /** Host, port and path, once the scheme is taken off. */
  function ParseRest(proto: Option<string>, rest: string): Option<Parsed> {
    var j := FirstOf(rest, '/');
    if j == 0 then None
    else
      match HostPort(rest[..j])
      case None => None
      case Some((host, port)) =>
        Some(Parsed(proto, host, DefaultPort(proto, port), if j == |rest| then "/" else rest[j..]))
  }

  function ParseUrl(url: string): Option<Parsed> {
    var i := FindScheme(url);
    if i == |url| then ParseRest(None, url)
    else if i == 0 then None
    else ParseRest(Some(url[..i]), url[i + 3..])
  }

  /** The struct filled in step by step by `url_parse`. */
  class UrlT {
    var proto: Option<string>
    var host: string
    var port: int
    var path: string

    constructor ()
      ensures proto == None && host == "" && port == 0 && path == ""
    {
      proto, host, port, path := None, "", 0, "";
    }

    method ParseHostPort() returns (failed: bool)
      requires port == 0
      modifies this`host, this`port
      ensures match HostPort(old(host))
              case None => failed
              case Some((h, p)) => !failed && host == h && port == p
    {
      var k := LastOf(host, ':');
      if k >= 0 {
        var portLen := |host| - (k + 1);
        if portLen == 0 || portLen > 5 {
          return true;
        }
        var digits := host[k + 1..];
        host := host[..k];
        if host == "" {
          return true;
        }
        port := Atoi(digits);
      }
      return false;
    }

    method PortByProto()
      modifies this`port
      ensures port == DefaultPort(proto, old(port))
    {
      if port != 0 || proto == None {
        return;
      }
      if proto == Some("http") {
        port := 80;
        return;
      }
      if proto == Some("https") {
        port := 443;
        return;
      }
    }

    method Parse(url: string) returns (failed: bool)
      requires proto == None && port == 0
      modifies this
      ensures failed <==> ParseUrl(url) == None
      ensures !failed ==> Parsed(proto, host, port, path) == ParseUrl(url).value
    {
      hide HostPort, FirstOf, FindScheme, DefaultPort;
      var start := url;
      var end := FindScheme(url);
      if end < |url| {
        if end == 0 {
          return true;
        }
        proto := Some(url[..end]);
        start := url[end + 3..];
      }
      end := FirstOf(start, '/');
      if end == 0 {
        return true;
      }
      host := start[..end];
      failed := ParseHostPort();
      if failed {
        return true;
      }
      path := if end == |start| then "/" else start[end..];
      PortByProto();
    }
  }

  // ---- printing and the round trip ------------------------------------------------------------------

  datatype Parts = Parts(proto: Option<string>, host: string, port: Option<nat>, path: string)

  predicate GoodParts(u: Parts) {
    && (u.proto.Some? ==> u.proto.value != "" && ':' !in u.proto.value)
    && u.host != "" && ':' !in u.host && '/' !in u.host
    && (u.port.Some? ==> u.port.value <= 99999)
    && (u.path == "" || u.path[0] == '/')
  }

  function Authority(u: Parts): string {
    u.host + (if u.port.Some? then ":" + Numeral(u.port.value) else "")
  }

  function Print(u: Parts): string {
    (if u.proto.Some? then u.proto.value + "://" else "") + (Authority(u) + u.path)
  }

  /** What parsing should give back: "/" for an empty path, the scheme's port when none, or 0, is given. */
  function Meaning(u: Parts): Parsed {
    var port := if u.port.Some? && u.port.value > 0 then u.port.value
                else if u.proto == Some("http") then 80
                else if u.proto == Some("https") then 443
                else 0;
    Parsed(u.proto, u.host, port, if u.path == "" then "/" else u.path)
  }

  lemma {:induction false} FindSchemeSkips(a: string, b: string)
    requires ':' !in a
    ensures FindScheme(a + b) == |a| + FindScheme(b)
  {
    if a == "" {
      assert a + b == b;
    } else {
      assert (a + b)[0] == a[0] && a[0] in a;
      assert (a + b)[1..] == a[1..] + b;
      assert |a + b| >= 3 ==> (a + b)[..3][0] == a[0];
      FindSchemeSkips(a[1..], b);
    }
  }

  lemma {:induction false} FirstOfSkips(a: string, b: string, c: char)
    requires c !in a && (b == "" || b[0] == c)
    ensures FirstOf(a + b, c) == |a|
  {
    if a == "" {
      assert a + b == b;
    } else {
      assert (a + b)[0] == a[0] && a[0] in a;
      assert (a + b)[1..] == a[1..] + b;
      FirstOfSkips(a[1..], b, c);
    }
  }

  lemma LengthByTens(n: nat)
    ensures |Numeral(n)| == if n < 10 then 1 else 1 + |Numeral(n / 10)|
  {
  }

  lemma FiveDigits(n: nat)
    requires n <= 99999
    ensures |Numeral(n)| <= 5
  {
    hide Numeral;
    LengthByTens(n);
    LengthByTens(n / 10);
    LengthByTens(n / 100);
    LengthByTens(n / 1000);
    LengthByTens(n / 10000);
    assert n / 10 / 10 == n / 100 && n / 100 / 10 == n / 1000 && n / 1000 / 10 == n / 10000;
  }

  /** Digits hold neither ':' nor '/'. */
  lemma DigitsOnly(n: nat)
    ensures ':' !in Numeral(n) && '/' !in Numeral(n)
  {
    hide Numeral;
    assert forall i :: 0 <= i < |Numeral(n)| ==> '0' <= Numeral(n)[i] <= '9';
  }

  lemma HostPortSplit(host: string, digits: string)
    requires host != "" && ':' !in digits && 1 <= |digits| <= 5
    ensures HostPort(host + ":" + digits) == Some((host, Atoi(digits)))
  {
    hide Atoi;
    var a := host + ":" + digits;
    var n := |host|;
    assert a[n] == ':' && a[n + 1..] == digits && a[..n] == host;
    assert forall k :: n < k < |a| ==> a[k] == digits[k - n - 1];
    assert forall k :: 0 <= k < |digits| ==> digits[k] in digits;
    assert LastOf(a, ':') == n;
  }

  lemma HostPortBack(u: Parts)
    requires GoodParts(u)
    ensures HostPort(Authority(u)) == Some((u.host, if u.port.Some? then u.port.value else 0))
    ensures '/' !in Authority(u) && Authority(u) != ""
  {
    if u.port.Some? {
      var digits := Numeral(u.port.value);
      FiveDigits(u.port.value);
      DigitsOnly(u.port.value);
      AtoiNumeral(u.port.value);
      hide Numeral, Atoi, HostPort;
      assert Authority(u) == u.host + ":" + digits;
      HostPortSplit(u.host, digits);
    } else {
      assert Authority(u) == u.host;
      assert forall k :: 0 <= k < |u.host| ==> u.host[k] in u.host;
    }
  }

  /** An explicit port is refused exactly when it is empty, longer than five characters, or lacks a host. */
  lemma PortRefused(proto: Option<string>, host: string, digits: string, path: string)
    requires '/' !in host && ':' !in digits && '/' !in digits && (path == "" || path[0] == '/')
    ensures ParseRest(proto, host + ":" + digits + path) == None <==> host == "" || digits == "" || |digits| > 5
  {
    hide Atoi, FirstOf, DefaultPort;
    var a := host + ":" + digits;
    assert a[|host|] == ':' && forall k :: |host| < k < |a| ==> a[k] == digits[k - |host| - 1];
    assert '/' !in a && LastOf(a, ':') == |host|;
    FirstOfSkips(a, path, '/');
    assert (a + path)[..|a|] == a;
  }

  /** A URL without a scheme name before "://" is refused, and so is one without a host. */
  lemma EmptyPartsRefused(proto: string, rest: string, path: string)
    requires proto != "" && ':' !in proto && (path == "" || path[0] == '/')
    ensures ParseUrl("://" + rest) == None
    ensures ParseUrl(proto + "://" + path) == None
    ensures FindScheme(path) == |path| ==> ParseUrl(path) == None
  {
    SchemeAtFront(rest);
    SchemeAtFront(path);
    FindSchemeSkips(proto, "://" + path);
    assert proto + ("://" + path) == proto + "://" + path;
    FirstOfSkips("", path, '/');
    assert "" + path == path;
    assert (proto + "://" + path)[|proto| + 3..] == path;
    hide FindScheme, HostPort, FirstOf, DefaultPort;
  }

  /** After the scheme, the rest is parsed back to its parts. */
  lemma AfterScheme(u: Parts)
    requires GoodParts(u)
    ensures ParseRest(u.proto, Authority(u) + u.path) == Some(Meaning(u))
  {
    hide HostPort, Authority, FirstOf;
    HostPortBack(u);
    FirstOfSkips(Authority(u), u.path, '/');
    assert (Authority(u) + u.path)[..|Authority(u)|] == Authority(u);
    assert (Authority(u) + u.path)[|Authority(u)|..] == u.path;
  }

  /** A colon before a digit starts no "://". */
  lemma ColonSkips(digits: string, path: string)
    requires digits != "" && ':' !in digits && '/' !in digits
    ensures FindScheme(":" + (digits + path)) == 1 + |digits| + FindScheme(path)
  {
    FindSchemeSkips(digits, path);
    var tail := ":" + (digits + path);
    assert tail[1] == digits[0] && digits[0] in digits;
    assert |tail| >= 3 ==> tail[..3][1] == tail[1];
    assert tail[1..] == digits + path;
  }

  /** A printed authority holds no "://" of its own. */
  lemma SchemeOnlyInPath(u: Parts)
    requires GoodParts(u)
    ensures FindScheme(Authority(u) + u.path) == |Authority(u)| + FindScheme(u.path)
  {
    hide FindScheme, Numeral;
    if u.port.Some? {
      var digits := Numeral(u.port.value);
      DigitsOnly(u.port.value);
      var tail := ":" + (digits + u.path);
      assert Authority(u) + u.path == u.host + tail;
      FindSchemeSkips(u.host, tail);
      ColonSkips(digits, u.path);
    } else {
      assert Authority(u) == u.host;
      FindSchemeSkips(u.host, u.path);
    }
  }

  lemma WithScheme(u: Parts)
    requires GoodParts(u) && u.proto.Some?
    ensures ParseUrl(Print(u)) == Some(Meaning(u))
  {
    var (p, rest) := (u.proto.value, Authority(u) + u.path);
    var url := p + ("://" + rest);
    assert Print(u) == url;
    FindSchemeSkips(p, "://" + rest);
    assert ("://" + rest)[..3] == "://";
    hide Authority, ParseRest, Print, Meaning;
    AfterScheme(u);
    assert url[..|p|] == p && url[|p| + 3..] == rest;
  }

  lemma WithoutScheme(u: Parts)
    requires GoodParts(u) && u.proto.None?
    ensures ParseUrl(Print(u)) == Some(Meaning(u)) <==> FindScheme(u.path) == |u.path|
  {
    assert Print(u) == Authority(u) + u.path;
    AfterScheme(u);
    SchemeOnlyInPath(u);
    hide HostPort, Authority, FirstOf, Print, FindScheme;
  }

  /** URL round trip, exactly: parsing a printed URL recovers all its parts if and only if a scheme is
      present or the path holds no "://". */
  lemma UrlRoundTrip(u: Parts)
    requires GoodParts(u)
    ensures ParseUrl(Print(u)) == Some(Meaning(u)) <==> u.proto.Some? || FindScheme(u.path) == |u.path|
  {
    if u.proto.Some? {
      WithScheme(u);
    } else {
      WithoutScheme(u);
    }
  }

  /** A concrete URL without a scheme that is not parsed back. */
  lemma SchemeInPath()
    ensures var u := Parts(None, "h", None, "/a://b");
            GoodParts(u) && Print(u) == "h/a://b" && ParseUrl("h/a://b") != Some(Meaning(u))
  {
    hide ParseUrl, Meaning, FindScheme;
    var u := Parts(None, "h", None, "/a://b");
    FindSchemeSkips("/a", "://b");
    SchemeAtFront("b");
    assert "/a" + "://b" == u.path && "://" + "b" == "://b";
    UrlRoundTrip(u);
    assert "h" + "" == "h" && "" + ("h" + "/a://b") == "h/a://b";
  }

  lemma SchemeAtFront(rest: string)
    ensures FindScheme("://" + rest) == 0
  {
    assert ("://" + rest)[..3] == "://";
  }
}
