/** The parts of the absolute-URI recogniser that both renderings spell alike. */
module UriScan {
  import opened Strings
  import opened UriGrammar
  import opened UriLemmas
  import opened UriHosts
  import opened UriStructure
  import opened Wrappers

  /** Characters of the table and percent triplets, scanned by index. */
  method ValidUriToken(value: string, allowed: Table) returns (ok: bool)
    ensures ok <==> Token(value, allowed)
  {
    var index := 0;
    while index < |value|
      invariant 0 <= index <= |value|
      invariant Token(value, allowed) <==> Token(value[index..], allowed)
    {
      var rest := value[index..];
      TokenStep(rest, allowed);
      var c := value[index];
      if c == '%' {
        if index + 2 >= |value| || !HexDigit(value[index + 1]) || !HexDigit(value[index + 2]) {
          return false;
        }
        assert rest[3..] == value[index + 3..];
        index := index + 3;
      } else if allowed.Has(c) {
        assert rest[1..] == value[index + 1..];
        index := index + 1;
      } else {
        return false;
      }
    }
    TokenEmpty(allowed);
    return true;
  }

  /** Fragment and query cut off and checked: what remains is the hier-part. */
  method CutFragmentAndQuery(rest: string) returns (ok: bool, remainder: string)
    ensures forall http :: HierQueryFragment(rest, http) <==> ok && HierPart(remainder, http)
  {
    hide Token, HierQueryFragment, HierQuery, HierPart, Find;
    remainder := rest;
    forall http {
      FragmentCut(rest, http);
    }
    var fragmentAt := Find(remainder, '#');
    if fragmentAt >= 0 {
      var fragment := remainder[fragmentAt + 1..];
      remainder := remainder[..fragmentAt];
      ok := ValidUriToken(fragment, QueryTable);
      if !ok {
        return;
      }
    }
    forall http {
      QueryCut(remainder, http);
    }
    var queryAt := Find(remainder, '?');
    if queryAt >= 0 {
      var query := remainder[queryAt + 1..];
      remainder := remainder[..queryAt];
      ok := ValidUriToken(query, QueryTable);
      return;
    }
    return true, remainder;
  }

  /** How many 16-bit groups one side of an IPv6 address spells. */
  method Ipv6SideGroups(value: string, allowIpv4: bool) returns (count: Option<nat>)
    ensures forall n: nat :: SideCount(value, allowIpv4, n) <==> count == Some(n)
  {
    if value == "" {
      forall n: nat | SideCount("", allowIpv4, n) ensures n == 0 {
        EmptySideIsZero(allowIpv4, n);
      }
      return Some(0);
    }
    forall n: nat ensures SideCount(value, allowIpv4, n) <==> PartsCount(Split(value, ':'), allowIpv4, n) {
      SideCountByParts(value, allowIpv4, n);
    }
    var parts := Split(value, ':');
    if exists p <- parts :: p == "" {
      EmptyPartFails(parts);
      return None;
    }
    var total := 0;
    for index := 0 to |parts|
      invariant Groups(parts[..index]) && total == index
    {
      var part := parts[index];
      assert parts[..index + 1] == parts[..index] + [part];
      if '.' in part {
        ValidIpv4IsGrammar(part);
        NotAGroup(parts, index);
        if !allowIpv4 || index != |parts| - 1 || !ValidIpv4(part) {
          return None;
        }
        return Some(total + 2);
      } else if |part| > 4 || exists c <- part :: !HexDigit(c) {
        NotAGroup(parts, index);
        if Ipv4Address(part) {
          Ipv4IsRegName(part);
        }
        return None;
      }
      assert part in parts && H16(part);
      total := total + 1;
    }
    assert parts[..|parts|] == parts;
    assert parts[|parts| - 1] in parts;
    if Ipv4Address(parts[|parts| - 1]) {
      Ipv4IsRegName(parts[|parts| - 1]);
    }
    return Some(total);
  }
}
