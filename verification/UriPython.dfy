/** The Python rendering of the absolute-URI recogniser.  Every method is proved against the
    grammar, never against another method. */
module UriPython {
  import opened Strings
  import opened UriGrammar
  import opened UriLemmas
  import opened UriHosts
  import opened UriStructure
  import opened UriScan
  import opened Wrappers

  method IsAbsoluteUri(value: string) returns (ok: bool)
    ensures ok <==> AbsoluteUri(value)
  {
    hide Token, Ipv6Address, Ipv4Address;
    SchemeCut(value);
    if AbsoluteUri(value) {
      UriIsPlain(value);
    }
    if value == "" || !PlainAscii(value) {
      return false;
    }
    var colon := Find(value, ':');
    if colon <= 0 || !Scheme(value[..colon]) {
      return false;
    }
    var cut, remainder := CutFragmentAndQuery(value[colon + 1..]);
    if !cut {
      return false;
    }
    ok := HierPartAccepted(remainder, Http(value[..colon]));
  }

  /** The rest of `_is_absolute_uri`, once fragment and query are cut off. */
  method HierPartAccepted(remainder: string, http: bool) returns (ok: bool)
    ensures ok <==> HierPart(remainder, http)
  {
    hide Token, Ipv6Address, Ipv4Address;
    var hasAuthority := DoubleSlash(remainder);
    var host, path := "", remainder;
    if hasAuthority {
      SlashesCut(remainder, http);
      var authorityAndPath := remainder[2..];
      var slashAt := Find(authorityAndPath, '/');
      var authority := if slashAt < 0 then authorityAndPath else authorityAndPath[..slashAt];
      path := if slashAt < 0 then "" else authorityAndPath[slashAt..];
      var cut := AuthorityEnd(authorityAndPath);
      assert authority == authorityAndPath[..cut] && path == authorityAndPath[cut..];
      var validAuthority;
      validAuthority, host := ParseUriAuthority(authority);
      if !validAuthority {
        return false;
      }
    } else {
      PathCut(remainder, http);
    }
    var valid := ValidUriToken(path, PathTable);
    if !valid {
      return false;
    }
    assert hasAuthority ==> AuthorityWith(remainder[2..][..AuthorityEnd(remainder[2..])], host);
    return !http || (hasAuthority && host != "");
  }

  /** The host is the one every derivation of `value` spells. */
  method ParseUriAuthority(value: string) returns (valid: bool, host: string)
    ensures forall h :: AuthorityWith(value, h) <==> valid && h == host
  {
    hide Token, Ipv6Address, Ipv4Address;
    AuthorityByCount(value);
    host := "";
    if Count(value, '@') > 1 {
      return false, "";
    }
    var hostPort := value;
    var at := FindLast(value, '@');
    if '@' in value {
      var userinfo := value[..at];
      hostPort := value[at + 1..];
      var ok := ValidUriToken(userinfo, UserinfoTable);
      if !ok {
        return false, "";
      }
    }
    assert hostPort == value[at + 1..];
    valid, host := ParseHostPort(hostPort);
  }

  /** The part of `_parse_uri_authority` after the userinfo. */
  method ParseHostPort(hostPort: string) returns (valid: bool, host: string)
    ensures forall h :: HostPortWith(hostPort, h) <==> valid && h == host
  {
    hide Token, Ipv6Address, Ipv4Address;
    if hostPort != "" && hostPort[0] == '[' {
      forall h ensures HostPortWith(hostPort, h) <==> BracketedParts(hostPort, h) {
        BracketsCut(hostPort, h);
      }
      var close := Find(hostPort, ']');
      if close < 0 {
        return false, "";
      }
      var literal := ValidIpLiteral(hostPort[1..close]);
      if !literal {
        return false, "";
      }
      var suffix := hostPort[close + 1..];
      if suffix != "" && (suffix[0] != ':' || !ValidPort(suffix[1..])) {
        return false, "";
      }
      return true, hostPort[..close + 1];
    }
    forall h ensures HostPortWith(hostPort, h) <==> PlainParts(hostPort, h) {
      PortCut(hostPort, h);
    }
    CountAtMostOne(hostPort, ':');
    if '[' in hostPort || ']' in hostPort || Count(hostPort, ':') > 1 {
      return false, "";
    }
    host := hostPort;
    if ':' in hostPort {
      var colon := FindLast(hostPort, ':');
      host := hostPort[..colon];
      if !ValidPort(hostPort[colon + 1..]) {
        return false, "";
      }
    }
    valid := ValidUriToken(host, RegNameTable);
  }

  predicate ValidPort(value: string) {
    value == "" || Digits(value)
  }

  method ValidIpLiteral(value: string) returns (ok: bool)
    ensures ok <==> IpLiteral(value)
  {
    LiteralCut(value);
    if |value| >= 4 && (value[0] == 'v' || value[0] == 'V') {
      var rest := value[1..];
      var dot := Find(rest, '.');
      var version := if dot < 0 then rest else rest[..dot];
      var address := if dot < 0 then "" else rest[dot + 1..];
      return dot >= 0 && IpFutureParts(version, address);
    }
    ok := ValidIpv6(value);
    if VersionMark(value) {
      ShortFuture(value);
      if Ipv6Address(value) {
        Ipv6HasNoV(value);
      }
    }
  }

  method ValidIpv6(value: string) returns (ok: bool)
    ensures ok <==> Ipv6Address(value)
  {
    CountingIsNineAlternatives(value);
    if CountedIpv6(value) {
      CountedShape(value);
    }
    if value == "" || CountPairs(value, ':') > 1 {
      return false;
    }
    var at := FindPair(value, ':');
    if at < 0 {
      var groups := Ipv6SideGroups(value, true);
      return groups == Some(8);
    }
    var left, right := value[..at], value[at + 2..];
    assert Compressed(value, left, right);
    var leftGroups := Ipv6SideGroups(left, false);
    var rightGroups := Ipv6SideGroups(right, true);
    ok := leftGroups.Some? && rightGroups.Some? && leftGroups.value + rightGroups.value < 8;
    assert ok ==> Halves(left, right, leftGroups.value, rightGroups.value);
    if CountedIpv6(value) {
      var l, r, a: nat, b: nat := PairShape(value);
      assert l == left && r == right;
    }
  }


}
