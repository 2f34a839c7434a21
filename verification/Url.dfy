/**
 * The URL parser and printer of user/http.c. A C string is the sequence of its
 * characters before the terminating NUL; an index equal to the length reads NUL.
 */
module Url {
  import opened Basics

  const HOST_MAX := 128
  const PATH_MAX := 256
  const URL_MAX := 256

  datatype Url = Url(tls: bool, host: string, port: nat, path: string)
  datatype Parsed = BadUrl | Good(url: Url, normalized: string)

  // ------------------------------------------------------------------- numbers

  predicate IsDigit(c: char)
  {
    '0' <= c <= '9'
  }

  function DigitOf(n: nat): (c: char)
    requires n < 10
    ensures IsDigit(c) && c as int - '0' as int == n
  {
    ('0' as int + n) as char
  }

  /** h_atoi from value v on: digits are read as long as there are any, wrapping at 32 bits. */
  function AtoiFrom(s: string, v: int): int
  {
    if s != "" && IsDigit(s[0]) then AtoiFrom(s[1..], Wrap(v * 10 + (s[0] as int - '0' as int))) else v
  }

  /** What is left when the digits have been skipped. */
  function AfterDigits(s: string): (r: string)
    ensures |r| <= |s|
  {
    if s != "" && IsDigit(s[0]) then AfterDigits(s[1..]) else s
  }

  /** Decimal notation without leading zeros. */
  function Decimal(n: nat): (s: string)
    ensures |s| >= 1
  {
    if n < 10 then [DigitOf(n)] else Decimal(n / 10) + [DigitOf(n % 10)]
  }

  /** Reading a printed number and what follows it. */
  lemma {:induction false} AtoiDecimal(n: nat, rest: string)
    requires n < 0x8000_0000
    ensures AtoiFrom(Decimal(n) + rest, 0) == AtoiFrom(rest, n)
    ensures AfterDigits(Decimal(n) + rest) == AfterDigits(rest)
    decreases n
  {
    var d := [DigitOf(n % 10)];
    assert (d + rest)[1..] == rest;
    if n < 10 {
      assert Decimal(n) == d;
    } else {
      assert Decimal(n) + rest == Decimal(n / 10) + (d + rest);
      AtoiDecimal(n / 10, d + rest);
    }
  }

  // ------------------------------------------------------------- specification

  function Scheme(url: string): (r: (bool, string))
    ensures |r.1| <= |url|
  {
    if "https://" <= url then (true, url[8..])
    else if "http://" <= url then (false, url[7..])
    else (false, url)
  }

  predicate HostChar(c: char)
  {
    c != '/' && c != ':'
  }

  /** The length of the host part, at most max characters. */
  function HostLength(p: string, max: nat): (n: nat)
    ensures n <= max && n <= |p|
    ensures forall k :: 0 <= k < n ==> HostChar(p[k])
    ensures n < max && n < |p| ==> !HostChar(p[n])
    decreases max
  {
    if p != "" && HostChar(p[0]) && max > 0 then 1 + HostLength(p[1..], max - 1) else 0
  }

  function DefaultPort(tls: bool): nat
  {
    if tls then 443 else 80
  }

  function SchemeText(tls: bool): string
  {
    if tls then "https://" else "http://"
  }

  function PortText(u: Url): string
  {
    if u.port != DefaultPort(u.tls) then ":" + Decimal(u.port) else ""
  }

  /** The canonical text of a URL. */
  function Normalized(u: Url): string
  {
    SchemeText(u.tls) + u.host + PortText(u) + u.path
  }

  function Finish(u: Url): Parsed
  {
    if |Normalized(u)| < URL_MAX then Good(u, Normalized(u)) else BadUrl
  }

  /** The path part; text that does not start with a slash is ignored. */
  function ParsePath(tls: bool, host: string, port: nat, p: string): Parsed
  {
    if p != "" && p[0] == '/' then
      if |p| >= PATH_MAX then BadUrl else Finish(Url(tls, host, port, p))
    else
      Finish(Url(tls, host, port, "/"))
  }

  function ParseAuthority(tls: bool, p: string): Parsed
  {
    var hi := HostLength(p, HOST_MAX - 1);
    var q := p[hi..];
    if hi == 0 || (q != "" && HostChar(q[0])) then BadUrl
    else if q != "" && q[0] == ':' then
      var port := AtoiFrom(q[1..], 0);
      if port <= 0 || port > 65535 then BadUrl else ParsePath(tls, p[..hi], port, AfterDigits(q[1..]))
    else
      ParsePath(tls, p[..hi], DefaultPort(tls), q)
  }

  function Parse(url: string): Parsed
  {
    var (tls, p) := Scheme(url);
    if p == "" then BadUrl else ParseAuthority(tls, p)
  }

  // ------------------------------------------------------------------ round trip

  /** What every accepted URL looks like. */
  predicate Canonical(u: Url)
  {
    && 1 <= |u.host| < HOST_MAX && '/' !in u.host && ':' !in u.host
    && 1 <= u.port <= 65535 && 1 <= |u.path| < PATH_MAX && u.path[0] == '/' && |Normalized(u)| < URL_MAX
  }

  lemma AcceptedIsCanonical(url: string)
    requires Parse(url).Good?
    ensures Canonical(Parse(url).url) && Parse(url).normalized == Normalized(Parse(url).url)
  {
    hide Canonical, ParseAuthority, Normalized;
    var (tls, p) := Scheme(url);
    AuthorityCanonical(tls, p);
  }

  lemma AuthorityCanonical(tls: bool, p: string)
    requires ParseAuthority(tls, p).Good?
    ensures var r := ParseAuthority(tls, p); Canonical(r.url) && r.normalized == Normalized(r.url)
  {
    hide Normalized, AtoiFrom, AfterDigits, HostLength, Canonical, ParsePath;
    var hi := HostLength(p, HOST_MAX - 1);
    var q := p[hi..];
    if q != "" && q[0] == ':' {
      PathCanonical(tls, p[..hi], AtoiFrom(q[1..], 0), AfterDigits(q[1..]));
    } else {
      PathCanonical(tls, p[..hi], DefaultPort(tls), q);
    }
  }

  lemma PathCanonical(tls: bool, host: string, port: nat, p: string)
    requires ParsePath(tls, host, port, p).Good? && 1 <= port <= 65535
    requires 1 <= |host| < HOST_MAX && forall k :: 0 <= k < |host| ==> HostChar(host[k])
    ensures var r := ParsePath(tls, host, port, p); Canonical(r.url) && r.normalized == Normalized(r.url)
  {
    hide Normalized;
  }

  lemma {:induction false} HostLengthIs(host: string, rest: string, max: nat)
    requires |host| <= max && (forall k :: 0 <= k < |host| ==> HostChar(host[k])) && (rest == "" || !HostChar(rest[0]))
    ensures HostLength(host + rest, max) == |host|
    decreases |host|
  {
    if host != "" {
      assert (host + rest)[1..] == host[1..] + rest;
      HostLengthIs(host[1..], rest, max - 1);
    } else {
      assert host + rest == rest;
    }
  }

  lemma SchemeOfText(tls: bool, p: string)
    ensures Scheme(SchemeText(tls) + p) == (tls, p)
  {
    var s := SchemeText(tls) + p;
    if tls {
      assert "https://" <= s && s[8..] == p;
    } else {
      assert s[4] == ':' && "https://"[4] == 's';
      assert "http://" <= s && s[7..] == p;
    }
  }

  /** Parsing the canonical text of any canonical URL gives the URL back. */
  lemma ParseNormalized(u: Url)
    requires Canonical(u)
    ensures Parse(Normalized(u)) == Good(u, Normalized(u))
  {
    hide Scheme, SchemeText, ParseAuthority, PortText, Canonical;
    var p := u.host + (PortText(u) + u.path);
    assert Normalized(u) == SchemeText(u.tls) + p;
    SchemeOfText(u.tls, p);
    CanonicalHost(u);
    ParseTail(u);
  }

  lemma CanonicalHost(u: Url)
    requires Canonical(u)
    ensures u.host != ""
  {
  }

  lemma ParseTail(u: Url)
    requires Canonical(u)
    ensures ParseAuthority(u.tls, u.host + (PortText(u) + u.path)) == Good(u, Normalized(u))
  {
    hide AtoiFrom, AfterDigits, HostLength, Decimal, Normalized;
    var rest := PortText(u) + u.path;
    assert rest[0] == if u.port != DefaultPort(u.tls) then ':' else '/';
    HostLengthIs(u.host, rest, HOST_MAX - 1);
    CutAt(u.host, rest);
    if u.port != DefaultPort(u.tls) {
      assert rest[1..] == Decimal(u.port) + u.path;
      AtoiDecimal(u.port, u.path);
      NoDigits(u.path, u.port);
    } else {
      assert rest == u.path;
    }
  }

  lemma CutAt(a: string, b: string)
    ensures (a + b)[|a|..] == b && (a + b)[..|a|] == a
  {
  }

  lemma NoDigits(s: string, v: int)
    requires s != "" && !IsDigit(s[0])
    ensures AtoiFrom(s, v) == v && AfterDigits(s) == s
  {
  }

  /** Normalisation is stable: an accepted URL's normalised text parses to the same URL and the same text. */
  lemma RoundTrip(url: string)
    requires Parse(url).Good?
    ensures Parse(Parse(url).normalized) == Parse(url)
  {
    hide Parse, Canonical, Normalized;
    AcceptedIsCanonical(url);
    ParseNormalized(Parse(url).url);
  }

  /** Two accepted URLs have the same normalised text exactly when all their parts agree. */
  lemma SameTextIff(a: string, b: string)
    requires Parse(a).Good? && Parse(b).Good?
    ensures Parse(a).normalized == Parse(b).normalized <==> Parse(a).url == Parse(b).url
  {
    hide Parse, Canonical, Normalized;
    AcceptedIsCanonical(a);
    AcceptedIsCanonical(b);
    ParseNormalized(Parse(a).url);
    ParseNormalized(Parse(b).url);
  }

  // ---------------------------------------------------------------- dropped text

  predicate AllDigits(s: string)
  {
    forall k :: 0 <= k < |s| ==> IsDigit(s[k])
  }

  /**
   * p says nothing but u's host, a port in digits or none, and u's path, which may
   * be left out if it is just a slash.
   */
  ghost predicate Spells(p: string, u: Url)
  {
    exists port, tail :: SpellsWith(p, u, port, tail)
  }

  ghost predicate SpellsWith(p: string, u: Url, port: string, tail: string)
  {
    && p == u.host + (port + tail)
    && (port == "" || (port[0] == ':' && AllDigits(port[1..])))
    && (tail == u.path || (tail == "" && u.path == "/"))
  }

  /** What follows the host; the port's digits are skipped. */
  function BehindHost(p: string): string
  {
    p[HostLength(p, HOST_MAX - 1)..]
  }

  /** An accepted URL has text that is part of nothing exactly when something but a slash follows the port. */
  lemma DropsTextIff(url: string)
    requires Parse(url).Good?
    ensures var p := Scheme(url).1;
            var q := BehindHost(p);
            !Spells(p, Parse(url).url) <==>
            q != "" && q[0] == ':' && AfterDigits(q[1..]) != "" && AfterDigits(q[1..])[0] != '/'
  {
    hide Spells, HostLength, AtoiFrom, AfterDigits, Finish;
    var (tls, p) := Scheme(url);
    var q, u := BehindHost(p), Parse(url).url;
    FinishGood(tls, p);
    CutAt(u.host, q);
    if q != "" && q[0] == ':' {
      var tail := AfterDigits(q[1..]);
      if tail == "" || tail[0] == '/' {
        PortSpelled(p, q, u);
      } else if Spells(p, u) {
        SpelledPort(p, q, u);
      }
    } else {
      SpelledPlain(p, q, u);
    }
  }

  lemma FinishGood(tls: bool, p: string)
    requires ParseAuthority(tls, p).Good?
    ensures var q, u := BehindHost(p), ParseAuthority(tls, p).url;
            && p == u.host + q && u.tls == tls
            && (q != "" && q[0] != ':' ==> q[0] == '/')
            && u.port == (if q != "" && q[0] == ':' then AtoiFrom(q[1..], 0) else DefaultPort(tls))
            && var tail := if q != "" && q[0] == ':' then AfterDigits(q[1..]) else q;
               u.path == if tail != "" && tail[0] == '/' then tail else "/"
  {
    hide AtoiFrom, AfterDigits, HostLength, Normalized;
  }

  lemma SpelledPlain(p: string, q: string, u: Url)
    requires p == u.host + q && u.path == if q != "" then q else "/"
    ensures Spells(p, u)
  {
    assert "" + q == q;
    assert SpellsWith(p, u, "", q);
  }

  lemma PortSpelled(p: string, q: string, u: Url)
    requires p == u.host + q && q != "" && q[0] == ':'
    requires var tail := AfterDigits(q[1..]); u.path == (if tail == "" then "/" else tail)
    ensures Spells(p, u)
  {
    DigitsSplit(q[1..]);
    var tail := AfterDigits(q[1..]);
    var digits := q[1..][..|q| - 1 - |tail|];
    PortSpelledBy(p, q, u, digits, tail);
  }

  lemma PortSpelledBy(p: string, q: string, u: Url, digits: string, tail: string)
    requires p == u.host + q && q != "" && q[0] == ':' && q[1..] == digits + tail && AllDigits(digits)
    requires tail == u.path || (tail == "" && u.path == "/")
    ensures Spells(p, u)
  {
    hide AllDigits;
    assert q == (":" + digits) + tail;
    assert (":" + digits)[1..] == digits;
    assert SpellsWith(p, u, ":" + digits, tail);
  }

  lemma SpelledPort(p: string, q: string, u: Url)
    requires Spells(p, u) && p == u.host + q && q != "" && q[0] == ':' && (u.path != "" ==> u.path[0] == '/')
    ensures AfterDigits(q[1..]) == "" || AfterDigits(q[1..])[0] == '/'
  {
    hide AfterDigits, AllDigits;
    var port, tail :| SpellsWith(p, u, port, tail);
    CutAt(u.host, port + tail);
    CutAt(u.host, q);
    assert q == port + tail;
    if port != "" {
      assert q[1..] == port[1..] + tail;
      DigitsThen(port[1..], tail);
    }
  }

  lemma {:induction false} DigitsSplit(s: string)
    ensures var n := |s| - |AfterDigits(s)|; AllDigits(s[..n]) && s == s[..n] + AfterDigits(s)
  {
    if s != "" && IsDigit(s[0]) {
      DigitsSplit(s[1..]);
      var n := |s| - |AfterDigits(s)|;
      assert s[..n] == [s[0]] + s[1..][..n - 1];
    }
  }

  lemma {:induction false} DigitsThen(digits: string, tail: string)
    requires AllDigits(digits) && (tail != "" ==> !IsDigit(tail[0]))
    ensures AfterDigits(digits + tail) == tail
  {
    if digits != "" {
      assert (digits + tail)[1..] == digits[1..] + tail;
      DigitsThen(digits[1..], tail);
    } else {
      assert digits + tail == tail;
    }
  }

  // ------------------------------------------------------------------ acceptance

  /**
   * p is u's host, then no port, or a colon and digits whose value is the port, then
   * u's path; nothing, or after a port anything that starts with no digit and no
   * slash, stands for a path that is just a slash.
   */
  ghost predicate Reads(p: string, u: Url, port: string, tail: string)
  {
    && p == u.host + (port + tail)
    && (port == "" ==> u.port == DefaultPort(u.tls) && (tail == "" || tail[0] == '/'))
    && (port != "" ==> port[0] == ':' && AllDigits(port[1..]) && u.port == AtoiFrom(port[1..], 0))
    && (port != "" && tail != "" ==> !IsDigit(tail[0]))
    && u.path == if tail != "" && tail[0] == '/' then tail else "/"
  }

  /** Exactly the texts that read as a canonical URL are accepted, and as that URL. */
  lemma AcceptedIff(url: string, u: Url)
    ensures Parse(url) == Good(u, Normalized(u)) <==>
            Canonical(u) && u.tls == Scheme(url).0 && exists port, tail :: Reads(Scheme(url).1, u, port, tail)
  {
    hide Scheme, Canonical, Normalized, Reads, ParseAuthority;
    var (tls, p) := Scheme(url);
    if Parse(url) == Good(u, Normalized(u)) {
      AcceptedIsCanonical(url);
      AcceptedReads(tls, p);
    }
    if Canonical(u) && u.tls == tls && exists port, tail :: Reads(p, u, port, tail) {
      var port, tail :| Reads(p, u, port, tail);
      ReadsAccepted(p, u, port, tail);
      ReadsSomething(p, u, port, tail);
    }
  }

  lemma AcceptedReads(tls: bool, p: string)
    requires ParseAuthority(tls, p).Good?
    ensures var u := ParseAuthority(tls, p).url; u.tls == tls && exists port, tail :: Reads(p, u, port, tail)
  {
    hide AtoiFrom, AfterDigits, HostLength, Normalized, ParseAuthority;
    var q, u := BehindHost(p), ParseAuthority(tls, p).url;
    FinishGood(tls, p);
    if q != "" && q[0] == ':' {
      PortReads(p, u, q);
    } else {
      assert "" + q == q;
      assert Reads(p, u, "", q);
    }
  }

  lemma PortReads(p: string, u: Url, q: string)
    requires p == u.host + q && q != "" && q[0] == ':' && u.port == AtoiFrom(q[1..], 0)
    requires u.path == var tail := AfterDigits(q[1..]); if tail != "" && tail[0] == '/' then tail else "/"
    ensures exists port, tail :: Reads(p, u, port, tail)
  {
    hide AtoiFrom, AfterDigits;
    var tail := AfterDigits(q[1..]);
    var n := |q| - |tail|;
    DigitsSplit(q[1..]);
    var port := q[..n];
    assert port[1..] == q[1..][..n - 1] && q == port + tail;
    AfterIsEnd(q[1..]);
    AtoiThen(port[1..], tail, 0);
    assert Reads(p, u, port, tail);
  }

  lemma {:induction false} AtoiThen(digits: string, tail: string, v: int)
    requires AllDigits(digits) && (tail == "" || !IsDigit(tail[0]))
    ensures AtoiFrom(digits + tail, v) == AtoiFrom(digits, v)
    decreases |digits|
  {
    if digits != "" {
      assert (digits + tail)[1..] == digits[1..] + tail;
      AtoiThen(digits[1..], tail, Wrap(v * 10 + (digits[0] as int - '0' as int)));
    } else {
      assert digits + tail == tail;
    }
  }

  lemma {:induction false} AfterIsEnd(s: string)
    ensures AfterDigits(s) == "" || !IsDigit(AfterDigits(s)[0])
  {
    if s != "" && IsDigit(s[0]) { AfterIsEnd(s[1..]); }
  }

  lemma ReadsSomething(p: string, u: Url, port: string, tail: string)
    requires Canonical(u) && Reads(p, u, port, tail)
    ensures p != ""
  {
  }

  lemma ReadsAccepted(p: string, u: Url, port: string, tail: string)
    requires Canonical(u) && Reads(p, u, port, tail)
    ensures ParseAuthority(u.tls, p) == Good(u, Normalized(u))
  {
    hide AtoiFrom, AfterDigits, HostLength, Normalized;
    var q := port + tail;
    HostLengthIs(u.host, q, HOST_MAX - 1);
    CutAt(u.host, q);
    if port == "" {
      assert q == tail;
    } else {
      assert q[1..] == port[1..] + tail;
      DigitsThen(port[1..], tail);
      AtoiThen(port[1..], tail, 0);
    }
  }

  lemma SchemeNone(p: string)
    requires |p| >= 5 && p[4] == ':' && p[0] == 'h' && p[1] == 'o'
    ensures Scheme(p) == (false, p)
  {
    assert "https://"[1] == 't' && "http://"[1] == 't';
  }

  lemma Eighty()
    ensures AtoiFrom("80abc", 0) == 80 && AfterDigits("80abc") == "abc"
  {
    hide HostLength;
    EightyText();
    AtoiDecimal(80, "abc");
    assert Decimal(80) + "abc" == "80abc";
    NoDigits("abc", 80);
  }

  lemma EightyText()
    ensures Decimal(80) == "80"
  {
    assert Decimal(8) == "8";
    assert Decimal(80) == Decimal(8) + "0";
  }

  /** Such a URL. */
  lemma DroppedText()
    ensures Parse("host:80abc") == Good(Url(false, "host", 80, "/"), "http://host/")
  {
    hide HostLength, AtoiFrom, AfterDigits, Decimal, Scheme;
    var p, q := "host:80abc", ":80abc";
    SchemeNone(p);
    HostLengthIs("host", q, HOST_MAX - 1);
    assert p == "host" + q;
    CutAt("host", q);
    assert q[1..] == "80abc";
    Eighty();
  }

  /** The ports a URL without one has: 443 with TLS, 80 without, and neither is printed. */
  lemma DefaultPorts(host: string)
    requires 1 <= |host| < HOST_MAX && '/' !in host && ':' !in host
    ensures Parse("https://" + host + "/") == Good(Url(true, host, 443, "/"), "https://" + host + "/")
    ensures Parse("http://" + host + "/") == Good(Url(false, host, 80, "/"), "http://" + host + "/")
    ensures Parse("https://" + host) == Parse("https://" + host + "/")
    ensures Parse("http://" + host) == Parse("http://" + host + "/")
  {
    hide HostLength, AtoiFrom, AfterDigits, Decimal, Scheme;
    assert "https://" + host + "" == "https://" + host && "http://" + host + "" == "http://" + host;
    BareHost(true, host, "");
    BareHost(true, host, "/");
    BareHost(false, host, "");
    BareHost(false, host, "/");
  }

  lemma BareHost(tls: bool, host: string, path: string)
    requires 1 <= |host| < HOST_MAX && '/' !in host && ':' !in host && (path == "" || path == "/")
    ensures var scheme := if tls then "https://" else "http://";
            && scheme + host + path == scheme + (host + path)
            && Parse(scheme + host + path)
               == Good(Url(tls, host, if tls then 443 else 80, "/"), scheme + host + "/")
  {
    hide HostLength, AtoiFrom, AfterDigits, Decimal, Scheme;
    var scheme := if tls then "https://" else "http://";
    assert scheme + host + path == scheme + (host + path);
    SchemeOfText(tls, host + path);
    HostLengthIs(host, path, HOST_MAX - 1);
    CutAt(host, path);
    var u := Url(tls, host, if tls then 443 else 80, "/");
    assert scheme + host + "" + "/" == scheme + host + "/";
    assert Normalized(u) == scheme + host + "/";
  }

  // ------------------------------------------------------------------ the code

  /** h_strcat_limit: as much of src as fits into max - 1 characters; true when all of it does. */
  method StrcatLimit(dst: string, src: string, max: nat) returns (r: string, ok: bool)
    requires |dst| < max
    ensures |dst| <= |r| < max && |r| - |dst| <= |src| && r == dst + src[..|r| - |dst|]
    ensures ok <==> |dst| + |src| < max
    ensures ok ==> r == dst + src
    ensures !ok ==> |r| == max - 1
  {
    r := dst;
    var i := 0;
    while i < |src| && |r| < max - 1
      invariant 0 <= i <= |src| && r == dst + src[..i] && |r| < max
    {
      r := r + [src[i]];
      i := i + 1;
    }
    ok := i == |src|;
  }

  function Reversed(s: string): (r: string)
    ensures |r| == |s|
  {
    if s == "" then "" else Reversed(s[1..]) + [s[0]]
  }

  function Pow10(k: nat): nat
  {
    if k == 0 then 1 else 10 * Pow10(k - 1)
  }

  lemma {:induction false} DecimalLength(n: nat, k: nat)
    requires k >= 1 && n < Pow10(k)
    ensures |Decimal(n)| <= k
  {
    assert Pow10(0) == 1;
    if n >= 10 {
      DecimalLength(n / 10, k - 1);
    }
  }

  lemma IntDigits(n: nat)
    requires n < 0x8000_0000
    ensures |Decimal(n)| <= 10
  {
    assert Pow10(5) == 100000;
    assert Pow10(10) == 10000000000;
    DecimalLength(n, 10);
  }

  /** h_append_int_limit: the decimal digits, found from the last one on in a 16-character buffer. */
  method AppendIntLimit(dst: string, value: nat, max: nat) returns (r: string, ok: bool)
    requires |dst| < max && value < 0x8000_0000
    ensures |r| < max && (ok <==> |dst| + |Decimal(value)| < max)
    ensures ok ==> r == dst + Decimal(value)
  {
    hide Decimal, Reversed;
    if value == 0 {
      DecimalStep(0);
      r, ok := StrcatLimit(dst, "0", max);
      return;
    }
    var v, tmp := value, "";
    IntDigits(value);
    ReversedEmpty();
    while v > 0 && |tmp| < 16
      invariant Decimal(value) == (if v > 0 then Decimal(v) else "") + Reversed(tmp)
      decreases v
    {
      DecimalStep(v);
      ReversedSnoc(tmp, DigitOf(v % 10));
      tmp := tmp + [DigitOf(v % 10)];
      v := v / 10;
    }
    r, ok := dst, true;
    var n := |tmp|;
    ReversedPrefix(tmp, n);
    assert tmp[..n] == tmp;
    while n > 0
      invariant 0 <= n <= |tmp| && |r| < max && |Decimal(value)| == |tmp|
      invariant Decimal(value) == Reversed(tmp) && r + Reversed(tmp[..n]) == dst + Decimal(value)
    {
      n := n - 1;
      ghost var old_r := r;
      ReversedSnoc(tmp[..n], tmp[n]);
      assert tmp[..n + 1] == tmp[..n] + [tmp[n]];
      r, ok := StrcatLimit(r, [tmp[n]], max);
      if !ok {
        assert |old_r| + 1 + n == |dst| + |Decimal(value)|;
        return;
      }
    }
    ReversedEmpty();
    assert tmp[..0] == "";
  }

  lemma DecimalStep(v: nat)
    ensures Decimal(v) == (if v / 10 > 0 then Decimal(v / 10) else "") + [DigitOf(v % 10)]
  {
  }

  lemma ReversedEmpty()
    ensures Reversed("") == ""
  {
  }

  lemma {:induction false} ReversedSnoc(s: string, c: char)
    ensures Reversed(s + [c]) == [c] + Reversed(s)
  {
    if s == "" {
      assert s + [c] == [c];
    } else {
      assert (s + [c])[1..] == s[1..] + [c];
      ReversedSnoc(s[1..], c);
    }
  }

  lemma ReversedPrefix(s: string, n: nat)
    requires n <= |s|
    ensures |Reversed(s[..n])| == n
  {
  }

  method Atoi(s: string) returns (v: int)
    ensures v == AtoiFrom(s, 0)
  {
    var i := 0;
    v := 0;
    assert s[0..] == s;
    while i < |s| && IsDigit(s[i])
      invariant 0 <= i <= |s| && AtoiFrom(s[i..], v) == AtoiFrom(s, 0)
    {
      assert s[i..][1..] == s[i + 1..];
      v := Wrap(v * 10 + (s[i] as int - '0' as int));
      i := i + 1;
    }
  }

  method SkipDigits(s: string, start: nat) returns (i: nat)
    requires start <= |s|
    ensures start <= i <= |s| && s[i..] == AfterDigits(s[start..])
  {
    i := start;
    while i < |s| && IsDigit(s[i])
      invariant start <= i <= |s| && AfterDigits(s[i..]) == AfterDigits(s[start..])
    {
      assert s[i..][1..] == s[i + 1..];
      i := i + 1;
    }
  }

  /** h_parse_url with a buffer for the normalised text. */
  method ParseUrl(url: string) returns (r: Parsed)
    ensures r == Parse(url)
  {
    hide ParseAuthority;
    var p, tls := url, false;
    if "https://" <= url {
      p, tls := url[8..], true;
    } else if "http://" <= url {
      p := url[7..];
    }
    if p == "" { return BadUrl; }
    r := ReadAuthority(tls, p);
  }

  /** The part behind the scheme: host, port, path. */
  method ReadAuthority(tls: bool, p: string) returns (r: Parsed)
    ensures r == ParseAuthority(tls, p)
  {
    hide AtoiFrom, AfterDigits, HostLength, Finish;
    var port := DefaultPort(tls);
    var hi := ReadHost(p);
    var host, q := p[..hi], p[hi..];
    if hi == 0 || (q != "" && HostChar(q[0])) { return BadUrl; }
    if q != "" && q[0] == ':' {
      port := Atoi(q[1..]);
      if port <= 0 || port > 65535 { return BadUrl; }
      var i := SkipDigits(q, 1);
      q := q[i..];
    }
    var path := "/";
    if q != "" && q[0] == '/' {
      path := q;
      if |path| > PATH_MAX - 1 { return BadUrl; }
    }
    r := Print(Url(tls, host, port, path));
  }

  /** The loop that copies the host part. */
  method ReadHost(p: string) returns (hi: nat)
    ensures hi == HostLength(p, HOST_MAX - 1)
  {
    hi := 0;
    while hi < |p| && HostChar(p[hi]) && hi < HOST_MAX - 1
      invariant 0 <= hi <= |p| && hi <= HOST_MAX - 1 && forall k :: 0 <= k < hi ==> HostChar(p[k])
    {
      hi := hi + 1;
    }
    HostLengthAt(p, hi, HOST_MAX - 1);
  }

  lemma {:induction false} HostLengthAt(p: string, n: nat, max: nat)
    requires n <= max && n <= |p| && (forall k :: 0 <= k < n ==> HostChar(p[k]))
             && (n < max && n < |p| ==> !HostChar(p[n]))
    ensures HostLength(p, max) == n
    decreases n
  {
    if n > 0 { HostLengthAt(p[1..], n - 1, max - 1); }
  }

  lemma NormalizedParts(u: Url)
    ensures |Normalized(u)| == |SchemeText(u.tls)| + |u.host|
            + (if u.port != DefaultPort(u.tls) then 1 + |Decimal(u.port)| else 0) + |u.path|
    ensures Normalized(u) == if u.port != DefaultPort(u.tls)
            then SchemeText(u.tls) + u.host + ":" + Decimal(u.port) + u.path
                             else SchemeText(u.tls) + u.host + u.path
  {
  }

  method PrintPort(text: string, port: nat) returns (r: string, ok: bool)
    requires |text| < URL_MAX && port <= 65535
    ensures |r| < URL_MAX && (ok <==> |text| + 1 + |Decimal(port)| < URL_MAX)
    ensures ok ==> r == text + ":" + Decimal(port)
  {
    hide Decimal;
    r, ok := StrcatLimit(text, ":", URL_MAX);
    if !ok { return; }
    r, ok := AppendIntLimit(r, port, URL_MAX);
  }

  /** The normalised text, piece by piece into a buffer of HTTP_URL_MAX. */
  method Print(u: Url) returns (r: Parsed)
    requires u.port <= 65535
    ensures r == Finish(u)
  {
    hide Decimal, SchemeText, Normalized, DefaultPort;
    NormalizedParts(u);
    var text, ok := StrcatLimit("", SchemeText(u.tls), URL_MAX);
    if !ok { return BadUrl; }
    text, ok := StrcatLimit(text, u.host, URL_MAX);
    if !ok { return BadUrl; }
    if u.port != DefaultPort(u.tls) {
      text, ok := PrintPort(text, u.port);
      if !ok { return BadUrl; }
    }
    text, ok := StrcatLimit(text, u.path, URL_MAX);
    if !ok { return BadUrl; }
    r := Good(u, text);
  }
}
