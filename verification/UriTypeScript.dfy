/** The TypeScript rendering of the absolute-URI recogniser, where it calls the library
    differently from the Python one.  Proved against the same grammar, so both accept the same texts. */
module UriTypeScript {
  import opened Strings
  import opened UriGrammar
  import opened UriLemmas
  import opened UriHosts
  import opened UriStructure
  import opened UriScan
  import opened Wrappers

  /** `s.split("::")`. */
  function SplitPairs(s: string): (parts: seq<string>)
    ensures |parts| == CountPairs(s, ':') + 1
    ensures FindPair(s, ':') < 0 ==> parts == [s]
    ensures |parts| == 2 ==> var at := FindPair(s, ':'); at >= 0 && parts == [s[..at], s[at + 2..]]
    decreases |s|
  {
    var at := FindPair(s, ':');
    if at < 0 then [s] else [s[..at]] + SplitPairs(s[at + 2..])
  }

  lemma {:induction false} SplitCount(s: string, c: char)
    ensures |Split(s, c)| == Count(s, c) + 1
    decreases |s|
  {
    CountAtMostOne(s, c);
    var i := Find(s, c);
    if i >= 0 {
      CutAt(s, i);
      assert multiset(s) == multiset(s[..i]) + multiset{c} + multiset(s[i + 1..]);
      SplitCount(s[i + 1..], c);
    }
  }

  /** `s.split(c).length > 2`. */
  method SplitsInMoreThanTwo(s: string, c: char) returns (b: bool)
    ensures b <==> Count(s, c) > 1
  {
    SplitCount(s, c);
    return |Split(s, c)| > 2;
  }

  method AllPlain(value: string) returns (plain: bool)
    ensures plain <==> PlainAscii(value)
  {
    for i := 0 to |value|
      invariant PlainAscii(value[..i])
    {
      var c := value[i];
      assert value[..i + 1] == value[..i] + [c] && c in value;
      if c as int <= 32 || c as int >= 127 || c == '\\' {
        return false;
      }
    }
    assert value[..|value|] == value;
    return true;
  }

  method IsAbsoluteUri(value: string) returns (ok: bool)
    ensures ok <==> AbsoluteUri(value)
  {
    hide Token, Ipv6Address, Ipv4Address;
    SchemeCut(value);
    if AbsoluteUri(value) {
      UriIsPlain(value);
    }
    if |value| == 0 {
      return false;
    }
    var plain := AllPlain(value);
    if !plain {
      return false;
    }
    var colon := Find(value, ':');
    if colon <= 0 || !Scheme(value[..colon]) {
      return false;
    }
    var cut, remainder := CutFragmentAndQuery(value[colon + 1..]);
    if !cut {
      return false;
    }
    ok := HierPartAccepted(remainder, Http(value[..colon]));
  }

  /** `isAbsoluteUri` after the fragment and the query. */
  method HierPartAccepted(remainder: string, http: bool) returns (ok: bool)
    ensures ok <==> HierPart(remainder, http)
  {
    hide Token, Ipv6Address, Ipv4Address;
    var host, path := "", remainder;
    if DoubleSlash(remainder) {
      SlashesCut(remainder, http);
      var authorityAndPath := remainder[2..];
      var cut := AuthorityEnd(authorityAndPath);
      path := authorityAndPath[cut..];
      var validAuthority;
      validAuthority, host := ParseUriAuthority(authorityAndPath[..cut]);
      if !validAuthority {
        return false;
      }
      assert AuthorityWith(authorityAndPath[..cut], host);
    } else {
      PathCut(remainder, http);
    }
    var valid := ValidUriToken(path, PathTable);
    return valid && (!http || (DoubleSlash(remainder) && |host| > 0));
  }

  method ParseUriAuthority(value: string) returns (valid: bool, host: string)
    ensures forall h :: AuthorityWith(value, h) <==> valid && h == host
  {
    hide *;
    AuthorityByCount(value);
    var several := SplitsInMoreThanTwo(value, '@');
    if several {
      return false, "";
    }
    var hostPort := value;
    var at := FindLast(value, '@');
    if at >= 0 {
      var userinfo := value[..at];
      hostPort := value[at + 1..];
      var ok := ValidUriToken(userinfo, UserinfoTable);
      if !ok {
        return false, "";
      }
    } else {
      assert value[at + 1..] == value;
    }
    valid, host := ParseHostPort(hostPort);
  }

  /** `parseUriAuthority` after the userinfo. */
  method ParseHostPort(hostPort: string) returns (valid: bool, host: string)
    ensures forall h :: HostPortWith(hostPort, h) <==> valid && h == host
  {
    hide Token, Ipv6Address, Ipv4Address;
    if hostPort != "" && hostPort[0] == '[' {
      forall h ensures HostPortWith(hostPort, h) <==> BracketedParts(hostPort, h) {
        BracketsCut(hostPort, h);
      }
      var close := Find(hostPort, ']');
      if close < 0 {
        return false, "";
      }
      var literal := ValidIpLiteral(hostPort[1..close]);
      return literal && PortSuffix(hostPort[close + 1..]), hostPort[..close + 1];
    }
    forall h ensures HostPortWith(hostPort, h) <==> PlainParts(hostPort, h) {
      PortCut(hostPort, h);
    }
    CountAtMostOne(hostPort, ':');
    var several := SplitsInMoreThanTwo(hostPort, ':');
    if '[' in hostPort || ']' in hostPort || several {
      return false, "";
    }
    host := hostPort;
    var colon := FindLast(hostPort, ':');
    if colon >= 0 {
      host := hostPort[..colon];
      if !Digits(hostPort[colon + 1..]) {
        return false, "";
      }
    }
    valid := ValidUriToken(host, RegNameTable);
  }

  method ValidIpLiteral(value: string) returns (ok: bool)
    ensures ok <==> IpLiteral(value)
  {
    LiteralCut(value);
    if |value| >= 4 && (value[0] == 'v' || value[0] == 'V') {
      DotAfterMark(value);
      var dot := Find(value, '.');
      if dot < 2 {
        return false;
      }
      var version, address := value[1..dot], value[dot + 1..];
      return (forall c <- version :: HexDigit(c)) && |address| > 0 && forall c <- address :: UserinfoTable.Has(c);
    }
    ok := ValidIpv6(value);
    if VersionMark(value) {
      ShortFuture(value);
      if Ipv6Address(value) {
        Ipv6HasNoV(value);
      }
    }
  }

  /** The first dot of the literal is the first dot after its mark. */
  lemma DotAfterMark(value: string)
    requires VersionMark(value)
    ensures var dot := Find(value, '.'); var inner := Find(value[1..], '.');
      if inner < 0 then dot < 0
      else dot == inner + 1 && value[1..dot] == value[1..][..inner] && value[dot + 1..] == value[1..][inner + 1..]
  {
    var rest := value[1..];
    var inner := Find(rest, '.');
    assert Find(value, '.') == if inner < 0 then -1 else inner + 1;
    if inner >= 0 {
      assert value[1..inner + 1] == rest[..inner];
      assert value[inner + 2..] == rest[inner + 1..];
    }
  }

  method ValidIpv6(value: string) returns (ok: bool)
    ensures ok <==> Ipv6Address(value)
  {
    CountingIsNineAlternatives(value);
    if CountedIpv6(value) {
      CountedShape(value);
    }
    var parts := SplitPairs(value);
    if |value| == 0 || |parts| > 2 {
      return false;
    }
    if FindPair(value, ':') < 0 {
      var groups := Ipv6SideGroups(value, true);
      return groups == Some(8);
    }
    var left, right := parts[0], parts[1];
    assert Compressed(value, left, right);
    var leftGroups := Ipv6SideGroups(left, false);
    var rightGroups := Ipv6SideGroups(right, true);
    ok := leftGroups.Some? && rightGroups.Some? && leftGroups.value + rightGroups.value < 8;
    assert ok ==> Halves(left, right, leftGroups.value, rightGroups.value);
    if CountedIpv6(value) {
      var l, r, a: nat, b: nat := PairShape(value);
      assert l == left && r == right;
    }
  }


}
