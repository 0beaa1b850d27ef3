/** Cutting a URI at its first delimiters: each production of the grammar, restated as what a
    recogniser checks after one cut. */
module UriStructure {
  import opened Strings
  import opened UriGrammar
  import opened UriLemmas
  import opened UriHosts
  import opened Wrappers

  // ---- characters ----

  lemma {:induction false} SideAvoids(gs: seq<string>, tail: seq<string>, c: char)
    requires Groups(gs) && |tail| <= 1 && (forall t <- tail :: Ipv4Address(t))
    requires !HexDigit(c) && c != '.' && c != ':'
    ensures c !in Join(gs + tail, ':')
    decreases |gs|
  {
    var all := gs + tail;
    if gs != [] {
      assert H16(gs[0]) && all[1..] == gs[1..] + tail;
      SideAvoids(gs[1..], tail, c);
    } else if tail != [] {
      assert all == [tail[0]];
      Ipv4IsRegName(tail[0]);
    }
  }

  lemma SideCountAvoids(value: string, allowIpv4: bool, n: nat, c: char)
    requires SideCount(value, allowIpv4, n)
    requires !HexDigit(c) && c != '.' && c != ':'
    ensures c !in value
  {
    if gs :| PlainSide(gs, value, n) {
      assert gs + [] == gs;
      SideAvoids(gs, [], c);
    } else if value != "" {
      var gs, v4 :| Ipv4Side(gs, v4, value, n);
      SideAvoids(gs, [v4], c);
    }
  }

  lemma Ipv6Avoids(s: string, c: char)
    requires Ipv6Address(s)
    requires !HexDigit(c) && c != '.' && c != ':'
    ensures c !in s
  {
    CountingIsNineAlternatives(s);
    if SideCount(s, true, 8) {
      SideCountAvoids(s, true, 8, c);
    } else {
      var l, r, a: nat, b: nat :| Compressed(s, l, r) && Halves(l, r, a, b);
      SideCountAvoids(l, false, a, c);
      SideCountAvoids(r, true, b, c);
    }
  }

  /** Characters that no hier-part holds. */
  predicate Foreign(c: char) {
    c == '?' || c == '#' || c == '\\' || c as int <= 32 || c as int >= 127
  }

  /** A slash or an at sign is in no host; brackets and colons are only in bracketed ones. */
  lemma HostAvoids(h: Host, c: char)
    requires h.WellFormed()
    requires Foreign(c) || c == '@' || c == '/' || (!BracketHost(h) && (c == '[' || c == ']' || c == ':'))
    ensures c !in h.Text()
  {
    match h
    case Ipv6(a) => Ipv6Avoids(a, c);
    case Ipv4(a) => Ipv4IsRegName(a);
    case RegName(n) => TokenExcludes(n, RegNameTable, c);
    case IpFuture(m, v, a) =>
  }

  lemma BracketsEnclose(h: Host) returns (inner: string)
    requires h.WellFormed() && BracketHost(h)
    ensures h.Text() == "[" + inner + "]" && ']' !in inner
  {
    match h
    case Ipv6(a) =>
      inner := a;
      Ipv6Avoids(a, ']');
    case IpFuture(m, v, a) =>
      inner := [m] + v + "." + a;
      assert h.Text() == "[" + inner + "]";
  }

  lemma DigitsAvoid(s: string, c: char)
    requires Digits(s) && !Digit(c)
    ensures c !in s
  {}

  lemma AuthorityAvoids(a: Authority, c: char)
    requires a.WellFormed() && (Foreign(c) || c == '/')
    ensures c !in a.Text()
  {
    HostAvoids(a.host, c);
    if a.userinfo.Some? {
      TokenExcludes(a.userinfo.value, UserinfoTable, c);
    }
    if a.port.Some? {
      DigitsAvoid(a.port.value, c);
    }
  }

  // ---- authority ----

  ghost predicate DerivesAuthority(a: Authority, v: string, host: string) {
    a.WellFormed() && a.Text() == v && a.host.Text() == host
  }

  /** `v` is an authority whose host is spelled `host`. */
  ghost predicate AuthorityWith(v: string, host: string) {
    exists a :: DerivesAuthority(a, v, host)
  }

  ghost predicate DerivesHostPort(h: Host, port: Option<string>, v: string, host: string) {
    h.WellFormed() && (port.Some? ==> Digits(port.value)) && h.Text() == host && host + Prefixed(':', port) == v
  }

  ghost predicate HostPortWith(v: string, host: string) {
    exists h, port :: DerivesHostPort(h, port, v, host)
  }

  function UserinfoText(userinfo: Option<string>): string {
    if userinfo.Some? then userinfo.value + "@" else ""
  }

  lemma OpenAuthority(v: string, host: string) returns (userinfo: Option<string>, rest: string)
    requires AuthorityWith(v, host)
    ensures v == UserinfoText(userinfo) + rest
    ensures userinfo.Some? ==> Token(userinfo.value, UserinfoTable)
    ensures HostPortWith(rest, host) && '@' !in rest
  {
    hide Token, Ipv6Address, Ipv4Address;
    var a :| DerivesAuthority(a, v, host);
    userinfo := a.userinfo;
    rest := host + Prefixed(':', a.port);
    AuthorityTextParts(a);
    HostPortAvoidsAt(a.host, a.port, rest, host);
  }

  lemma AuthorityTextParts(a: Authority)
    ensures a.Text() == UserinfoText(a.userinfo) + (a.host.Text() + Prefixed(':', a.port))
  {}

  lemma HostPortAvoidsAt(h: Host, port: Option<string>, rest: string, host: string)
    requires DerivesHostPort(h, port, rest, host)
    ensures HostPortWith(rest, host) && '@' !in rest
  {
    hide Token, Ipv6Address, Ipv4Address;
    HostAvoids(h, '@');
    if port.Some? {
      DigitsAvoid(port.value, '@');
    }
  }

  /** What a userinfo, a host and a port are, cut at the first "@". */
  ghost predicate UserinfoParts(v: string, host: string) {
    var i := Find(v, '@');
    if i < 0 then HostPortWith(v, host)
    else '@' !in v[i + 1..] && Token(v[..i], UserinfoTable) && HostPortWith(v[i + 1..], host)
  }

  /** The only "@" of an authority ends its userinfo. */
  lemma CutUserinfo(v: string, host: string)
    requires AuthorityWith(v, host)
    ensures UserinfoParts(v, host)
  {
    hide Token, Ipv6Address, Ipv4Address;
    var userinfo, rest := OpenAuthority(v, host);
    if userinfo.Some? {
      TokenExcludes(userinfo.value, UserinfoTable, '@');
      CutFound(v, userinfo.value, '@', rest);
    } else {
      assert v == rest;
    }
  }

  lemma AddUserinfo(userinfo: Option<string>, rest: string, host: string)
    requires HostPortWith(rest, host) && (userinfo.Some? ==> Token(userinfo.value, UserinfoTable))
    ensures AuthorityWith(UserinfoText(userinfo) + rest, host)
  {
    hide Token, Ipv6Address, Ipv4Address;
    var h, port :| DerivesHostPort(h, port, rest, host);
    var a := Authority(userinfo, h, port);
    assert a.Text() == UserinfoText(userinfo) + rest;
    assert DerivesAuthority(a, a.Text(), host);
  }

  /** The authority production, one cut at its first "@" away from host and port. */
  lemma AuthorityCut(v: string, host: string)
    ensures AuthorityWith(v, host) <==> UserinfoParts(v, host)
  {
    hide Token, Ipv6Address, Ipv4Address;
    var i := Find(v, '@');
    if AuthorityWith(v, host) {
      CutUserinfo(v, host);
    }
    if i < 0 && HostPortWith(v, host) {
      AddUserinfo(None, v, host);
      assert UserinfoText(None) + v == v;
    }
    if i >= 0 && Token(v[..i], UserinfoTable) && HostPortWith(v[i + 1..], host) {
      AddUserinfo(Some(v[..i]), v[i + 1..], host);
      CutAt(v, i);
      assert UserinfoText(Some(v[..i])) + v[i + 1..] == v;
    }
  }

  // What a rendering learns from counting "@"s and cutting at the last one.
  ghost predicate LastAtParts(v: string, host: string) {
    var at := FindLast(v, '@');
    Count(v, '@') <= 1 && (at >= 0 ==> Token(v[..at], UserinfoTable)) && HostPortWith(v[at + 1..], host)
  }

  lemma AuthorityAtLast(v: string, host: string)
    ensures AuthorityWith(v, host) <==> LastAtParts(v, host)
  {
    hide Token, AuthorityWith, HostPortWith;
    AuthorityCut(v, host);
    CountAtMostOne(v, '@');
    if '@' !in v {
      assert v[FindLast(v, '@') + 1..] == v;
    }
  }

  lemma AuthorityByCount(v: string)
    ensures Count(v, '@') > 1 ==> forall h :: !AuthorityWith(v, h)
    ensures Count(v, '@') <= 1 ==> var at := FindLast(v, '@');
      forall h :: AuthorityWith(v, h) <==> (at >= 0 ==> Token(v[..at], UserinfoTable)) && HostPortWith(v[at + 1..], h)
  {
    hide Token, Ipv6Address, Ipv4Address;
    forall h ensures AuthorityWith(v, h) <==> LastAtParts(v, h) {
      AuthorityAtLast(v, h);
    }
  }

  predicate BracketHost(h: Host) { h.IpFuture? || h.Ipv6? }

  ghost predicate DerivesLiteral(h: Host, inner: string) {
    BracketHost(h) && h.WellFormed() && h.Text() == "[" + inner + "]"
  }

  ghost predicate IpLiteral(inner: string) {
    exists h :: DerivesLiteral(h, inner)
  }

  predicate PortSuffix(s: string) {
    s == "" || (s[0] == ':' && Digits(s[1..]))
  }

  /** What a bracketed host and an optional port are, cut at the first "]". */
  ghost predicate BracketedParts(v: string, host: string) {
    var close := Find(v, ']');
    close >= 1 && IpLiteral(v[1..close]) && PortSuffix(v[close + 1..]) && host == v[..close + 1]
  }

  lemma BracketsCut(v: string, host: string)
    requires v != "" && v[0] == '['
    ensures HostPortWith(v, host) <==> BracketedParts(v, host)
  {
    hide Token, Ipv6Address, Ipv4Address;
    if HostPortWith(v, host) {
      CutBrackets(v, host);
    }
    if BracketedParts(v, host) {
      var close := Find(v, ']');
      var h :| DerivesLiteral(h, v[1..close]);
      var suffix := v[close + 1..];
      var port := if suffix == "" then None else Some(suffix[1..]);
      CutAt(v, close);
      assert host == h.Text() && suffix == Prefixed(':', port);
      assert DerivesHostPort(h, port, v, host);
    }
  }

  lemma CutBrackets(v: string, host: string)
    requires v != "" && v[0] == '[' && HostPortWith(v, host)
    ensures BracketedParts(v, host)
  {
    hide Token, Ipv6Address, Ipv4Address;
    var inner, suffix := OpenBrackets(v, host);
    CutFound(v, "[" + inner, ']', suffix);
    assert v[1..|inner| + 1] == inner;
  }

  lemma OpenBrackets(v: string, host: string) returns (inner: string, suffix: string)
    requires v != "" && v[0] == '[' && HostPortWith(v, host)
    ensures v == "[" + inner + [']'] + suffix && host == "[" + inner + "]"
    ensures ']' !in inner && IpLiteral(inner) && PortSuffix(suffix)
  {
    hide Token, Ipv6Address, Ipv4Address;
    var h, port :| DerivesHostPort(h, port, v, host);
    suffix := Prefixed(':', port);
    assert port.Some? ==> suffix[1..] == port.value;
    BracketFirst(h, port, v, host);
    inner := BracketsEnclose(h);
    assert DerivesLiteral(h, inner);
  }

  lemma BracketFirst(h: Host, port: Option<string>, v: string, host: string)
    requires v != "" && DerivesHostPort(h, port, v, host)
    ensures v[0] == '[' <==> BracketHost(h)
  {
    hide Token, Ipv6Address, Ipv4Address;
    if BracketHost(h) {
      var inner := BracketsEnclose(h);
      assert v[0] == host[0];
    } else {
      HostAvoids(h, '[');
      assert v[0] == if host == "" then ':' else host[0];
    }
  }

  /** What a host without brackets and an optional port are, cut at the first ":". */
  ghost predicate PlainParts(v: string, host: string) {
    var i := Find(v, ':');
    '[' !in v && ']' !in v
    && if i < 0 then Token(v, RegNameTable) && host == v
       else ':' !in v[i + 1..] && Digits(v[i + 1..]) && Token(v[..i], RegNameTable) && host == v[..i]
  }

  /** A host without brackets may be taken as a registered name: every IPv4 address is one. */
  lemma PortCut(v: string, host: string)
    requires v == "" || v[0] != '['
    ensures HostPortWith(v, host) <==> PlainParts(v, host)
  {
    hide Token, Ipv6Address, Ipv4Address;
    if HostPortWith(v, host) {
      CutPort(v, host);
    }
    if PlainParts(v, host) {
      var i := Find(v, ':');
      var port := if i < 0 then None else Some(v[i + 1..]);
      if i >= 0 {
        CutAt(v, i);
      }
      assert v == host + Prefixed(':', port);
      assert DerivesHostPort(RegName(host), port, v, host);
    }
  }

  lemma CutPort(v: string, host: string)
    requires v == "" || v[0] != '['
    requires HostPortWith(v, host)
    ensures PlainParts(v, host)
  {
    hide Token, Ipv6Address, Ipv4Address;
    var port := OpenPort(v, host);
    if port.Some? {
      DigitsAvoid(port.value, '[');
      DigitsAvoid(port.value, ']');
      DigitsAvoid(port.value, ':');
      CutFound(v, host, ':', port.value);
    } else {
      assert v == host;
    }
  }

  lemma OpenPort(v: string, host: string) returns (port: Option<string>)
    requires v == "" || v[0] != '['
    requires HostPortWith(v, host)
    ensures v == host + Prefixed(':', port) && (port.Some? ==> Digits(port.value))
    ensures Token(host, RegNameTable) && '[' !in host && ']' !in host && ':' !in host
  {
    hide Token, Ipv6Address, Ipv4Address;
    var h, p :| DerivesHostPort(h, p, v, host);
    port := p;
    if v != "" {
      BracketFirst(h, p, v, host);
    } else if BracketHost(h) {
      var inner := BracketsEnclose(h);
    }
    HostAvoids(h, '[');
    HostAvoids(h, ']');
    HostAvoids(h, ':');
    PlainHostIsRegName(h);
  }

  lemma PlainHostIsRegName(h: Host)
    requires h.WellFormed() && !BracketHost(h)
    ensures Token(h.Text(), RegNameTable)
  {
    hide Token, Ipv6Address, Ipv4Address;
    if h.Ipv4? {
      Ipv4IsRegName(h.Text());
    }
  }

  predicate VersionMark(inner: string) { inner != "" && (inner[0] == 'v' || inner[0] == 'V') }

  /** IPvFuture, cut at the first "." after the "v". */
  predicate FutureParts(inner: string)
    requires inner != ""
  {
    var rest := inner[1..];
    var dot := Find(rest, '.');
    dot >= 0 && IpFutureParts(rest[..dot], rest[dot + 1..])
  }

  /** IPvFuture needs at least four characters. */
  lemma ShortFuture(value: string)
    requires VersionMark(value) && |value| < 4
    ensures !FutureParts(value)
  {}

  /** What stands between the brackets: a "v" decides for IPvFuture, all else is IPv6. */
  lemma LiteralCut(inner: string)
    ensures IpLiteral(inner) <==> if VersionMark(inner) then FutureParts(inner) else Ipv6Address(inner)
  {
    hide Token, Ipv6Address, Ipv4Address;
    if h :| DerivesLiteral(h, inner) {
      CutLiteral(h, inner);
    }
    if VersionMark(inner) {
      if FutureParts(inner) {
        FutureIsLiteral(inner);
      }
    } else if Ipv6Address(inner) {
      assert DerivesLiteral(Ipv6(inner), inner);
    }
  }

  lemma FutureIsLiteral(inner: string)
    requires VersionMark(inner) && FutureParts(inner)
    ensures IpLiteral(inner)
  {
    hide Token, Ipv6Address, Ipv4Address, IpLiteral, IpFutureParts;
    var rest := inner[1..];
    var dot := Find(rest, '.');
    CutAt(rest, dot);
    FutureText(inner[0], rest[..dot], rest[dot + 1..], inner);
  }

  lemma FutureText(m: char, version: string, address: string, inner: string)
    requires (m == 'v' || m == 'V') && IpFutureParts(version, address)
    requires inner == [m] + (version + ['.'] + address)
    ensures IpLiteral(inner)
  {
    hide IpFutureParts;
    assert DerivesLiteral(IpFuture(m, version, address), inner);
  }

  lemma CutLiteral(h: Host, inner: string)
    requires DerivesLiteral(h, inner)
    ensures if VersionMark(inner) then FutureParts(inner) else Ipv6Address(inner)
  {
    hide Token, Ipv6Address, Ipv4Address;
    var text := "[" + inner + "]";
    assert text[1..|text| - 1] == inner;
    match h
    case Ipv6(a) =>
      assert text == "[" + a + "]" && a == text[1..|text| - 1];
      Ipv6HasNoV(a);
    case IpFuture(m, v, a) =>
      assert text == "[" + ([m] + v + "." + a) + "]";
      FutureIsCut(m, v, a);
  }

  lemma Ipv6HasNoV(a: string)
    requires Ipv6Address(a)
    ensures !VersionMark(a)
  {
    hide Token, Ipv6Address, Ipv4Address;
    Ipv6Avoids(a, 'v');
    Ipv6Avoids(a, 'V');
  }

  lemma FutureIsCut(m: char, v: string, a: string)
    requires (m == 'v' || m == 'V') && IpFutureParts(v, a)
    ensures var inner := [m] + v + "." + a; VersionMark(inner) && FutureParts(inner)
  {
    hide Token, Ipv6Address, Ipv4Address;
    var inner := [m] + v + "." + a;
    assert inner[1..] == v + ['.'] + a;
    CutFound(inner[1..], v, '.', a);
  }

  // ---- hier-part, query, fragment, scheme ----

  ghost predicate DerivesHier(h: Hier, p: string, needHost: bool) {
    h.WellFormed() && h.Text() == p && (needHost ==> h.WithAuthority? && h.authority.host.Text() != "")
  }

  ghost predicate HierPart(p: string, needHost: bool) {
    exists h :: DerivesHier(h, p, needHost)
  }

  /** `part` ends `r`, marked by `mark`, and is a query or a fragment. */
  ghost predicate EndsWith(r: string, p: string, mark: char, part: Option<string>) {
    r == p + Prefixed(mark, part) && (part.Some? ==> Token(part.value, QueryTable))
  }

  ghost predicate HierQuery(r: string, needHost: bool) {
    exists p, q :: HierPart(p, needHost) && EndsWith(r, p, '?', q)
  }

  ghost predicate HierQueryFragment(r: string, needHost: bool) {
    exists p, f :: HierQuery(p, needHost) && EndsWith(r, p, '#', f)
  }

  lemma HierAvoids(p: string, needHost: bool, c: char)
    requires HierPart(p, needHost) && Foreign(c)
    ensures c !in p
  {
    hide Token, Ipv6Address, Ipv4Address;
    if DoubleSlash(p) {
      var text, segments, host := OpenSlashes(p, needHost);
      var a :| DerivesAuthority(a, text, host);
      AuthorityAvoids(a, c);
      TokenExcludes(segments, PathTable, c);
    } else {
      PathCut(p, needHost);
      TokenExcludes(p, PathTable, c);
    }
  }

  lemma HierQueryAvoids(r: string, needHost: bool, c: char)
    requires HierQuery(r, needHost) && Foreign(c) && c != '?'
    ensures c !in r
  {
    hide Token, Ipv6Address, Ipv4Address;
    var p, q :| HierPart(p, needHost) && EndsWith(r, p, '?', q);
    HierAvoids(p, needHost, c);
    if q.Some? {
      TokenExcludes(q.value, QueryTable, c);
    }
  }

  /** A part without `mark` and its marked end are told apart by the first `mark`. */
  lemma EndIsFound(r: string, p: string, mark: char, part: Option<string>)
    requires EndsWith(r, p, mark, part) && mark !in p
    ensures var i := Find(r, mark);
      if i < 0 then r == p else r[..i] == p && Token(r[i + 1..], QueryTable)
  {
    hide Token, UnitsText;
    if part.Some? {
      assert Prefixed(mark, part) == [mark] + part.value;
      assert p + ([mark] + part.value) == p + [mark] + part.value;
      CutFound(r, p, mark, part.value);
    } else {
      assert p + "" == p;
    }
  }

  lemma FoundIsEnd(r: string, mark: char)
    ensures var i := Find(r, mark);
      if i < 0 then EndsWith(r, r, mark, None)
      else Token(r[i + 1..], QueryTable) ==> EndsWith(r, r[..i], mark, Some(r[i + 1..]))
  {
    hide Token;
    var i := Find(r, mark);
    if i >= 0 {
      CutAt(r, i);
      assert r[..i] + ([mark] + r[i + 1..]) == r[..i] + [mark] + r[i + 1..];
    }
  }

  lemma QueryCut(r: string, needHost: bool)
    ensures HierQuery(r, needHost) <==>
      var i := Find(r, '?');
      if i < 0 then HierPart(r, needHost) else HierPart(r[..i], needHost) && Token(r[i + 1..], QueryTable)
  {
    hide Token, Ipv6Address, Ipv4Address;
    FoundIsEnd(r, '?');
    if HierQuery(r, needHost) {
      var p, q :| HierPart(p, needHost) && EndsWith(r, p, '?', q);
      HierAvoids(p, needHost, '?');
      EndIsFound(r, p, '?', q);
    }
  }

  lemma FragmentCut(r: string, needHost: bool)
    ensures HierQueryFragment(r, needHost) <==>
      var i := Find(r, '#');
      if i < 0 then HierQuery(r, needHost) else HierQuery(r[..i], needHost) && Token(r[i + 1..], QueryTable)
  {
    hide Token, Ipv6Address, Ipv4Address;
    FoundIsEnd(r, '#');
    if HierQueryFragment(r, needHost) {
      var p, f :| HierQuery(p, needHost) && EndsWith(r, p, '#', f);
      HierQueryAvoids(p, needHost, '#');
      EndIsFound(r, p, '#', f);
    }
  }

  /** The URI production, one cut at its first ":" away from hier-part, query and fragment. */
  lemma SchemeCut(v: string)
    ensures AbsoluteUri(v) <==>
      var k := Find(v, ':');
      k > 0 && Scheme(v[..k]) && HierQueryFragment(v[k + 1..], Http(v[..k]))
  {
    hide Token, Ipv6Address, Ipv4Address;
    var k := Find(v, ':');
    if AbsoluteUri(v) {
      var scheme, rest := OpenUri(v);
      SchemeAvoids(scheme, ':');
      CutFound(v, scheme, ':', rest);
    }
    if k > 0 && Scheme(v[..k]) && HierQueryFragment(v[k + 1..], Http(v[..k])) {
      CutAt(v, k);
      AddScheme(v[..k], v[k + 1..]);
    }
  }

  lemma AddScheme(scheme: string, rest: string)
    requires Scheme(scheme) && HierQueryFragment(rest, Http(scheme))
    ensures AbsoluteUri(scheme + [':'] + rest)
  {
    hide Token, Ipv6Address, Ipv4Address;
    var hq, f :| HierQuery(hq, Http(scheme)) && EndsWith(rest, hq, '#', f);
    var p, q :| HierPart(p, Http(scheme)) && EndsWith(hq, p, '?', q);
    var h :| DerivesHier(h, p, Http(scheme));
    var u := Uri(scheme, h, q, f);
    UriTextParts(u, p);
    assert Derives(u, scheme + [':'] + rest);
  }

  lemma UriTextParts(u: Uri, p: string)
    requires u.hier.Text() == p
    ensures u.Text() == u.scheme + [':'] + (p + Prefixed('?', u.query) + Prefixed('#', u.fragment))
  {}

  lemma OpenUri(v: string) returns (scheme: string, rest: string)
    requires AbsoluteUri(v)
    ensures v == scheme + [':'] + rest && Scheme(scheme) && HierQueryFragment(rest, Http(scheme))
  {
    hide Token, Ipv6Address, Ipv4Address;
    var u :| Derives(u, v);
    scheme := u.scheme;
    var p := u.hier.Text();
    var hq := p + Prefixed('?', u.query);
    rest := hq + Prefixed('#', u.fragment);
    UriTextParts(u, p);
    assert DerivesHier(u.hier, p, Http(scheme));
    assert EndsWith(hq, p, '?', u.query);
    assert HierQuery(hq, Http(scheme));
    assert EndsWith(rest, hq, '#', u.fragment);
  }

  lemma SchemeAvoids(s: string, c: char)
    requires Scheme(s) && (c == ':' || Foreign(c))
    ensures c !in s
  {
    hide Token, Ipv6Address, Ipv4Address;
    assert s == [s[0]] + s[1..];
  }

  /** Where an authority ends: at the next slash or at the end. */
  function AuthorityEnd(rest: string): (cut: nat)
    ensures cut <= |rest|
  {
    var i := Find(rest, '/');
    if i < 0 then |rest| else i
  }

  ghost predicate AuthorityParts(rest: string, needHost: bool) {
    var cut := AuthorityEnd(rest);
    Token(rest[cut..], PathTable) && exists host :: AuthorityWith(rest[..cut], host) && (needHost ==> host != "")
  }

  /** After "//": an authority up to the next slash, and then path-abempty. */
  lemma SlashesCut(p: string, needHost: bool)
    requires DoubleSlash(p)
    ensures HierPart(p, needHost) <==> AuthorityParts(p[2..], needHost)
  {
    if HierPart(p, needHost) {
      CutSlashes(p, needHost);
    }
    if AuthorityParts(p[2..], needHost) {
      JoinSlashes(p, needHost);
    }
  }

  lemma CutSlashes(p: string, needHost: bool)
    requires DoubleSlash(p) && HierPart(p, needHost)
    ensures AuthorityParts(p[2..], needHost)
  {
    hide Token, AuthorityWith;
    var text, segments, host := OpenSlashes(p, needHost);
    var rest := p[2..];
    assert rest == text + segments;
    if segments != "" {
      assert segments == ['/'] + segments[1..];
      CutFound(rest, text, '/', segments[1..]);
    }
    assert rest[..|text|] == text && rest[|text|..] == segments;
  }

  lemma JoinSlashes(p: string, needHost: bool)
    requires DoubleSlash(p) && AuthorityParts(p[2..], needHost)
    ensures HierPart(p, needHost)
  {
    hide Token, AuthorityWith, HierPart;
    var rest := p[2..];
    var cut := AuthorityEnd(rest);
    var host :| AuthorityWith(rest[..cut], host) && (needHost ==> host != "");
    AddSlashes(rest[..cut], rest[cut..], host, needHost);
    assert rest[..cut] + rest[cut..] == rest && "//" + rest == p;
  }

  lemma AddSlashes(text: string, segments: string, host: string, needHost: bool)
    requires AuthorityWith(text, host) && (needHost ==> host != "")
    requires Token(segments, PathTable) && (segments == "" || segments[0] == '/')
    ensures HierPart("//" + (text + segments), needHost)
  {
    hide Token, Ipv6Address, Ipv4Address;
    var a :| DerivesAuthority(a, text, host);
    var ss := TokensAreSegments(segments);
    var h := WithAuthority(a, ss);
    assert h.Text() == "//" + (text + segments);
    assert DerivesHier(h, h.Text(), needHost);
  }

  lemma OpenSlashes(p: string, needHost: bool) returns (text: string, segments: string, host: string)
    requires DoubleSlash(p) && HierPart(p, needHost)
    ensures p == "//" + (text + segments) && '/' !in text
    ensures Token(segments, PathTable) && (segments == "" || segments[0] == '/')
    ensures AuthorityWith(text, host) && (needHost ==> host != "")
  {
    hide Token, Ipv6Address, Ipv4Address;
    var h :| DerivesHier(h, p, needHost);
    HasAuthority(h);
    text, segments, host := h.authority.Text(), SegmentsText(h.segments), h.authority.host.Text();
    assert DerivesAuthority(h.authority, text, host);
    AuthorityAvoids(h.authority, '/');
    SegmentsAreTokens(h.segments);
    assert p == "//" + (text + segments);
  }

  lemma HasAuthority(h: Hier)
    requires h.WellFormed()
    ensures h.WithAuthority? <==> DoubleSlash(h.Text())
  {
    hide Token, Ipv6Address, Ipv4Address;
    if !h.WithAuthority? {
      PathIsToken(h);
    }
  }

  /** Without "//" there is no authority, and no http host. */
  lemma PathCut(p: string, needHost: bool)
    requires !DoubleSlash(p)
    ensures HierPart(p, needHost) <==> !needHost && Token(p, PathTable)
  {
    hide Token, Ipv6Address, Ipv4Address;
    PathWithoutAuthority(p);
    if h :| DerivesHier(h, p, needHost) {
      HasAuthority(h);
      assert DerivesPath(h, p);
    }
    if !needHost && Token(p, PathTable) {
      var h :| DerivesPath(h, p);
      assert DerivesHier(h, p, needHost);
    }
  }

  predicate PlainAscii(v: string) {
    forall c <- v :: 32 < c as int < 127 && c != '\\'
  }

  lemma UriIsPlain(v: string)
    requires AbsoluteUri(v)
    ensures v != "" && PlainAscii(v)
  {
    hide Token, Ipv6Address, Ipv4Address;
    SchemeCut(v);
    if c :| c in v && !(32 < c as int < 127 && c != '\\') {
      UriAvoids(v, c);
    }
  }

  /** No accepted text holds a blank, a control, a backslash or a character above "~". */
  lemma UriAvoids(v: string, c: char)
    requires AbsoluteUri(v) && (c as int <= 32 || c as int >= 127 || c == '\\')
    ensures c !in v
  {
    hide Token, Ipv6Address, Ipv4Address;
    var scheme, rest := OpenUri(v);
    SchemeAvoids(scheme, c);
    RestAvoids(rest, Http(scheme), c);
  }

  lemma RestAvoids(r: string, needHost: bool, c: char)
    requires HierQueryFragment(r, needHost) && Foreign(c) && c != '?' && c != '#'
    ensures c !in r
  {
    hide Token, Ipv6Address, Ipv4Address;
    var p, f :| HierQuery(p, needHost) && EndsWith(r, p, '#', f);
    HierQueryAvoids(p, needHost, c);
    if f.Some? {
      TokenExcludes(f.value, QueryTable, c);
    }
  }
}
