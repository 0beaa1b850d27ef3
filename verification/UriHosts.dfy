/** Numeric hosts: what splitting at dots and colons and counting groups says about the
    IPv4address and IPv6address productions. */
module UriHosts {
  import opened Strings
  import opened UriGrammar
  import opened UriLemmas

  // ---- IPv4 ----

  /** Python's `int` on a text of digits. */
  function DecimalValue(s: string): nat
    requires Digits(s)
  {
    if s == "" then 0
    else
      assert s[|s| - 1] in s;
      assert forall c <- s[..|s| - 1] :: c in s;
      10 * DecimalValue(s[..|s| - 1]) + (s[|s| - 1] as int - '0' as int)
  }

  /** `_valid_ipv4`: four decimal parts, no leading zero, none above 255. */
  predicate ValidIpv4(s: string) {
    var parts := Split(s, '.');
    |parts| == 4 && forall p <- parts :: OctetPart(p)
  }

  predicate OctetPart(p: string) {
    p != "" && Digits(p) && (|p| == 1 || p[0] != '0') && DecimalValue(p) <= 255
  }

  lemma {:induction false} DecimalGrows(s: string)
    requires Digits(s) && s != "" && s[0] != '0'
    ensures DecimalValue(s) >= 1
    ensures |s| >= 2 ==> DecimalValue(s) >= 10
    ensures |s| >= 3 ==> DecimalValue(s) >= 100
    ensures |s| >= 4 ==> DecimalValue(s) >= 1000
    decreases |s|
  {
    assert s[0] in s && s[|s| - 1] in s;
    if |s| > 1 {
      assert forall c <- s[..|s| - 1] :: c in s;
      DecimalGrows(s[..|s| - 1]);
    }
  }

  lemma DecimalOneDigit(p: string)
    requires Digits(p) && |p| == 1
    ensures DecimalValue(p) == p[0] as int - '0' as int
  {
    assert p[..0] == "";
  }

  lemma DecimalTwoDigits(p: string)
    requires Digits(p) && |p| == 2
    ensures DecimalValue(p) == 10 * (p[0] as int - '0' as int) + (p[1] as int - '0' as int)
  {
    assert p[0] in p;
    DecimalOneDigit(p[..1]);
  }

  lemma DecimalThreeDigits(p: string)
    requires Digits(p) && |p| == 3
    ensures DecimalValue(p)
      == 100 * (p[0] as int - '0' as int) + 10 * (p[1] as int - '0' as int) + (p[2] as int - '0' as int)
  {
    assert p[0] in p && p[1] in p;
    DecimalTwoDigits(p[..2]);
  }

  /** The numeric bound is the dec-octet production. */
  lemma OctetPartIsDecOctet(p: string)
    ensures OctetPart(p) <==> DecOctet(p)
  {
    if Digits(p) && p != "" {
      assert forall k :: 0 <= k < |p| ==> p[k] in p && Digit(p[k]);
      if |p| == 1 {
        DecimalOneDigit(p);
      } else if |p| == 2 {
        DecimalTwoDigits(p);
      } else if |p| == 3 {
        DecimalThreeDigits(p);
      } else if p[0] != '0' {
        DecimalGrows(p);
      }
    } else {
      assert !DecOctet(p) by {
        if DecOctet(p) {
          DecOctetDigits(p);
        }
      }
    }
  }

  lemma DecOctetDigits(p: string)
    requires DecOctet(p)
    ensures Digits(p) && '.' !in p && ':' !in p
  {}

  lemma Join4(a: string, b: string, c: string, d: string)
    ensures Join([a, b, c, d], '.') == a + "." + b + "." + c + "." + d
  {
    assert [a, b, c, d][1..] == [b, c, d] && [b, c, d][1..] == [c, d] && [c, d][1..] == [d];
    assert Join([c, d], '.') == c + "." + d;
    assert Join([b, c, d], '.') == b + "." + (c + "." + d);
    assert Join([a, b, c, d], '.') == a + "." + (b + "." + (c + "." + d));
  }

  lemma ValidIpv4IsGrammar(s: string)
    ensures ValidIpv4(s) <==> Ipv4Address(s)
  {
    if ValidIpv4(s) {
      FourPartsAreAddress(s);
    }
    if Ipv4Address(s) {
      AddressHasFourParts(s);
    }
  }

  lemma FourPartsAreAddress(s: string)
    requires ValidIpv4(s)
    ensures Ipv4Address(s)
  {
    var parts := Split(s, '.');
    assert Join(parts, '.') == s by { JoinSplit(s, '.'); }
    var a, b, c, d := parts[0], parts[1], parts[2], parts[3];
    assert parts == [a, b, c, d];
    forall p | p in parts ensures DecOctet(p) {
      OctetPartIsDecOctet(p);
    }
    assert a in parts && b in parts && c in parts && d in parts;
    assert Octets(a, b, c, d);
    Join4(a, b, c, d);
  }

  lemma AddressHasFourParts(s: string)
    requires Ipv4Address(s)
    ensures ValidIpv4(s)
  {
    var a, b, c, d :| Octets(a, b, c, d) && s == a + "." + b + "." + c + "." + d;
    var parts := [a, b, c, d];
    forall p | p in parts ensures OctetPart(p) && '.' !in p {
      OctetPartIsDecOctet(p);
      DecOctetDigits(p);
    }
    Join4(a, b, c, d);
    SplitJoin(parts, '.');
  }

  /** An IPv4 address is a registered name, has a dot, and holds no colon. */
  lemma Ipv4IsRegName(s: string)
    requires Ipv4Address(s)
    ensures Token(s, RegNameTable) && '.' in s && forall c <- s :: Digit(c) || c == '.'
  {
    var a, b, c, d :| Octets(a, b, c, d) && s == a + "." + b + "." + c + "." + d;
    DecOctetDigits(a); DecOctetDigits(b); DecOctetDigits(c); DecOctetDigits(d);
    assert s[|a|] == '.';
    assert forall x <- s :: x in a || x in b || x in c || x in d || x == '.';
    TokenOfTableChars(s, RegNameTable);
  }

  // ---- IPv6 sides ----

  /** `value` is `n` groups' worth of h16 parts, the last part possibly an IPv4 address worth two. */
  ghost predicate SideCount(value: string, allowIpv4: bool, n: nat) {
    || (value == "" && n == 0)
    || (exists gs :: PlainSide(gs, value, n))
    || (allowIpv4 && exists gs, v4 :: Ipv4Side(gs, v4, value, n))
  }

  ghost predicate PlainSide(gs: seq<string>, value: string, n: nat) {
    Groups(gs) && |gs| == n > 0 && value == Join(gs, ':')
  }

  ghost predicate Ipv4Side(gs: seq<string>, v4: string, value: string, n: nat) {
    Groups(gs) && Ipv4Address(v4) && n == |gs| + 2 && value == Join(gs + [v4], ':')
  }

  lemma GroupsHoldNoColon(gs: seq<string>)
    requires Groups(gs)
    ensures forall g <- gs :: ':' !in g && '.' !in g && g != ""
  {}

  /** The same count, read off the parts between colons. */
  ghost predicate PartsCount(parts: seq<string>, allowIpv4: bool, n: nat)
    requires parts != []
  {
    || (Groups(parts) && n == |parts|)
    || (allowIpv4 && Groups(parts[..|parts| - 1]) && Ipv4Address(parts[|parts| - 1]) && n == |parts| + 1)
  }

  /** The parts between colons decide the count. */
  lemma SideCountByParts(value: string, allowIpv4: bool, n: nat)
    requires value != ""
    ensures SideCount(value, allowIpv4, n) <==> PartsCount(Split(value, ':'), allowIpv4, n)
  {
    if SideCount(value, allowIpv4, n) {
      SideHasParts(value, allowIpv4, n);
    }
    if PartsCount(Split(value, ':'), allowIpv4, n) {
      PartsMakeSide(value, allowIpv4, n);
    }
  }

  lemma SideHasParts(value: string, allowIpv4: bool, n: nat)
    requires value != "" && SideCount(value, allowIpv4, n)
    ensures PartsCount(Split(value, ':'), allowIpv4, n)
  {
    if gs :| PlainSide(gs, value, n) {
      GroupsHoldNoColon(gs);
      SplitJoin(gs, ':');
    } else {
      var gs, v4 :| Ipv4Side(gs, v4, value, n);
      GroupsHoldNoColon(gs);
      Ipv4IsRegName(v4);
      SplitJoin(gs + [v4], ':');
      assert (gs + [v4])[..|gs|] == gs;
    }
  }

  lemma PartsMakeSide(value: string, allowIpv4: bool, n: nat)
    requires value != "" && PartsCount(Split(value, ':'), allowIpv4, n)
    ensures SideCount(value, allowIpv4, n)
  {
    var parts := Split(value, ':');
    assert Join(parts, ':') == value by { JoinSplit(value, ':'); }
    if Groups(parts) && n == |parts| {
      assert PlainSide(parts, value, n);
    } else {
      var gs, v4 := parts[..|parts| - 1], parts[|parts| - 1];
      assert gs + [v4] == parts;
      assert Ipv4Side(gs, v4, value, n);
    }
  }

  lemma EmptySideIsZero(allowIpv4: bool, n: nat)
    requires SideCount("", allowIpv4, n)
    ensures n == 0
  {
    if n > 0 {
      if gs :| PlainSide(gs, "", n) {
        assert gs + [] == gs;
        SideIsHexEdged(gs, []);
      } else {
        var gs, v4 :| Ipv4Side(gs, v4, "", n);
        SideIsHexEdged(gs, [v4]);
      }
    }
  }

  predicate Edged(s: string) {
    s != "" && s[0] != ':' && s[|s| - 1] != ':' && FindPair(s, ':') < 0
  }

  /** A side neither begins nor ends with a colon, and holds no two in a row. */
  lemma {:induction false} SideIsHexEdged(gs: seq<string>, tail: seq<string>)
    requires Groups(gs) && |tail| <= 1 && (forall t <- tail :: Ipv4Address(t)) && gs + tail != []
    ensures Edged(Join(gs + tail, ':'))
    decreases |gs|
  {
    var all := gs + tail;
    var first := all[0];
    PartIsEdged(first, gs != []);
    if |all| == 1 {
      assert all == [first];
    } else {
      assert all[1..] == gs[1..] + tail;
      SideIsHexEdged(gs[1..], tail);
      NoPairAfterPart(first, ':', Join(all[1..], ':'));
    }
  }

  lemma PartIsEdged(part: string, isGroup: bool)
    requires if isGroup then H16(part) else Ipv4Address(part)
    ensures ':' !in part && Edged(part)
  {
    if isGroup {
      assert part[0] in part && part[|part| - 1] in part;
    } else {
      Ipv4IsRegName(part);
      assert part[0] in part && part[|part| - 1] in part;
    }
    NoPairWithout(part, ':');
  }

  lemma SideCountEdges(value: string, allowIpv4: bool, n: nat)
    requires SideCount(value, allowIpv4, n)
    ensures value == "" || Edged(value)
    ensures FindPair(value, ':') < 0
  {
    if gs :| PlainSide(gs, value, n) {
      assert gs + [] == gs;
      SideIsHexEdged(gs, []);
    } else if allowIpv4 && exists gs, v4 :: Ipv4Side(gs, v4, value, n) {
      var gs, v4 :| Ipv4Side(gs, v4, value, n);
      SideIsHexEdged(gs, [v4]);
    }
  }

  // ---- the nine alternatives ----

  lemma {:induction false} JoinIsLeading(gs: seq<string>, tail: seq<string>)
    requires tail != []
    ensures Join(gs + tail, ':') == Leading(gs) + Join(tail, ':')
    decreases |gs|
  {
    if gs == [] {
      assert gs + tail == tail;
    } else {
      assert (gs + tail)[1..] == gs[1..] + tail;
      JoinIsLeading(gs[1..], tail);
    }
  }

  lemma JoinPair(a: string, b: string)
    ensures Join([a, b], ':') == a + ":" + b
  {
    assert [a, b][1..] == [b];
  }

  /** n( h16 ":" ) ls32 is a side worth n + 2 groups. */
  lemma ExactlyLs32IsSide(r: string, n: nat)
    ensures ExactlyLs32(r, n) <==> SideCount(r, true, n + 2)
  {
    if ExactlyLs32(r, n) {
      Ls32MakesSide(r, n);
    }
    if SideCount(r, true, n + 2) {
      SideHasLs32(r, n);
    }
  }

  lemma Ls32MakesSide(r: string, n: nat)
    requires ExactlyLs32(r, n)
    ensures SideCount(r, true, n + 2)
  {
    var tail :| Ls32(tail) && Exactly(r, n, tail);
    var gs :| Groups(gs) && |gs| == n && r == Leading(gs) + tail;
    LeadingMakesSide(gs, tail);
  }

  lemma LeadingMakesSide(gs: seq<string>, tail: string)
    requires Groups(gs) && Ls32(tail)
    ensures SideCount(Leading(gs) + tail, true, |gs| + 2)
  {
    hide Ipv4Address, H16;
    var r, n := Leading(gs) + tail, |gs| + 2;
    if Ipv4Address(tail) {
      JoinIsLeading(gs, [tail]);
      assert Ipv4Side(gs, tail, r, n);
    } else {
      var hi, lo :| H16(hi) && H16(lo) && tail == hi + ":" + lo;
      JoinIsLeading(gs, [hi, lo]);
      JoinPair(hi, lo);
      assert PlainSide(gs + [hi, lo], r, n);
    }
  }

  lemma SideHasLs32(r: string, n: nat)
    requires SideCount(r, true, n + 2)
    ensures ExactlyLs32(r, n)
  {
    var m := n + 2;
    if gs :| PlainSide(gs, r, m) {
      var hi, lo := gs[n], gs[n + 1];
      assert gs == gs[..n] + [hi, lo];
      JoinIsLeading(gs[..n], [hi, lo]);
      JoinPair(hi, lo);
      assert hi in gs && lo in gs && forall g <- gs[..n] :: g in gs;
      assert Ls32(hi + ":" + lo) && Exactly(r, n, hi + ":" + lo);
    } else {
      var gs, v4 :| Ipv4Side(gs, v4, r, m);
      JoinIsLeading(gs, [v4]);
      assert Ls32(v4) && Exactly(r, n, v4);
    }
  }

  lemma OneGroupIsH16(r: string)
    ensures H16(r) <==> SideCount(r, true, 1)
  {
    if H16(r) {
      assert PlainSide([r], r, 1);
    }
    if gs :| PlainSide(gs, r, 1) {
      assert gs == [gs[0]];
    }
  }

  lemma UpToIsSide(l: string, max: nat)
    ensures UpTo(l, max) <==> exists n: nat :: SideCount(l, false, n) && n <= max + 1
  {
    if l != "" && UpTo(l, max) {
      var gs :| Groups(gs) && 1 <= |gs| <= max + 1 && l == Join(gs, ':');
      assert PlainSide(gs, l, |gs|) && SideCount(l, false, |gs|);
    } else if l == "" {
      assert SideCount(l, false, 0);
    }
    if n: nat :| SideCount(l, false, n) && n <= max + 1 {
      if l != "" {
        var gs :| PlainSide(gs, l, n);
        assert Groups(gs) && 1 <= |gs| <= max + 1 && l == Join(gs, ':');
      }
    }
  }

  /** A left side, `::`, and a right side worth at most seven groups together. */
  ghost predicate Halves(l: string, r: string, a: nat, b: nat) {
    SideCount(l, false, a) && SideCount(r, true, b) && a + b < 8
  }

  ghost predicate CountedIpv6(s: string) {
    || SideCount(s, true, 8)
    || exists l, r, a: nat, b: nat :: Compressed(s, l, r) && Halves(l, r, a, b)
  }

  lemma SideOfRight(r: string, b: nat)
    requires SideCount(r, true, b)
    ensures b == 0 ==> r == ""
    ensures b == 1 ==> H16(r)
    ensures b >= 2 ==> ExactlyLs32(r, b - 2)
  {
    if b == 0 {
      if r != "" {
        SideCountByParts(r, true, b);
      }
    } else if b == 1 {
      OneGroupIsH16(r);
    } else {
      ExactlyLs32IsSide(r, b - 2);
    }
  }

  lemma HalvesAreAlternative(s: string, l: string, r: string, a: nat, b: nat)
    requires Compressed(s, l, r) && Halves(l, r, a, b)
    ensures Ipv6Address(s)
  {
    SideOfRight(r, b);
    if b == 7 {
      if l != "" {
        SideCountByParts(l, false, a);
      }
    } else {
      UpToIsSide(l, 6 - b);
      assert UpTo(l, 6 - b);
    }
  }

  /** Counting groups accepts exactly the nine alternatives. */
  lemma CountingIsNineAlternatives(s: string)
    ensures CountedIpv6(s) <==> Ipv6Address(s)
  {
    ExactlyLs32IsSide(s, 6);
    if exists l, r, a: nat, b: nat :: Compressed(s, l, r) && Halves(l, r, a, b) {
      var l, r, a: nat, b: nat :| Compressed(s, l, r) && Halves(l, r, a, b);
      HalvesAreAlternative(s, l, r, a, b);
    }
    if Ipv6Address(s) && !ExactlyLs32(s, 6) {
      var l, r, a, b := AlternativeIsHalves(s);
    }
  }

  /** Up to 7 - b groups, `::`, and the right side of the alternative with b groups after it. */
  ghost predicate Alternative(s: string, l: string, r: string, b: nat) {
    Compressed(s, l, r) && b <= 7 && SideCount(r, true, b) && (if b == 7 then l == "" else UpTo(l, 6 - b))
  }

  lemma AlternativeIsHalves(s: string) returns (l: string, r: string, a: nat, b: nat)
    requires Ipv6Address(s) && !ExactlyLs32(s, 6)
    ensures Compressed(s, l, r) && Halves(l, r, a, b)
  {
    l, r, b := FindAlternative(s);
    if b < 7 {
      UpToIsSide(l, 6 - b);
      a :| SideCount(l, false, a) && a <= 7 - b;
    } else {
      a := 0;
      assert SideCount("", false, 0);
    }
  }

  lemma FindAlternative(s: string) returns (l: string, r: string, b: nat)
    requires Ipv6Address(s) && !ExactlyLs32(s, 6)
    ensures Alternative(s, l, r, b)
  {
    if r0 :| Compressed(s, "", r0) && ExactlyLs32(r0, 5) {
      l, r, b := "", r0, 7;
      ExactlyLs32IsSide(r, 5);
    } else if l0, r0 :| Compressed(s, l0, r0) && UpTo(l0, 0) && ExactlyLs32(r0, 4) {
      l, r, b := l0, r0, 6;
      ExactlyLs32IsSide(r, 4);
    } else if l0, r0 :| Compressed(s, l0, r0) && UpTo(l0, 1) && ExactlyLs32(r0, 3) {
      l, r, b := l0, r0, 5;
      ExactlyLs32IsSide(r, 3);
    } else if l0, r0 :| Compressed(s, l0, r0) && UpTo(l0, 2) && ExactlyLs32(r0, 2) {
      l, r, b := l0, r0, 4;
      ExactlyLs32IsSide(r, 2);
    } else {
      l, r, b := FindLateAlternative(s);
    }
  }

  lemma FindLateAlternative(s: string) returns (l: string, r: string, b: nat)
    requires
      || (exists l, r :: Compressed(s, l, r) && UpTo(l, 3) && ExactlyLs32(r, 1))
      || (exists l, r :: Compressed(s, l, r) && UpTo(l, 4) && ExactlyLs32(r, 0))
      || (exists l, r :: Compressed(s, l, r) && UpTo(l, 5) && H16(r))
      || (exists l, r :: Compressed(s, l, r) && UpTo(l, 6) && r == "")
    ensures Alternative(s, l, r, b)
  {
    if l0, r0 :| Compressed(s, l0, r0) && UpTo(l0, 3) && ExactlyLs32(r0, 1) {
      l, r, b := l0, r0, 3;
      ExactlyLs32IsSide(r, 1);
    } else if l0, r0 :| Compressed(s, l0, r0) && UpTo(l0, 4) && ExactlyLs32(r0, 0) {
      l, r, b := l0, r0, 2;
      ExactlyLs32IsSide(r, 0);
    } else if l0, r0 :| Compressed(s, l0, r0) && UpTo(l0, 5) && H16(r0) {
      l, r, b := l0, r0, 1;
      OneGroupIsH16(r);
    } else {
      var l0, r0 :| Compressed(s, l0, r0) && UpTo(l0, 6) && r0 == "";
      l, r, b := l0, r0, 0;
    }
  }

  /** Where the pair of colons of a counted address is, and that there is only one. */
  lemma HalvesAreFound(s: string, l: string, r: string, a: nat, b: nat)
    requires Compressed(s, l, r) && Halves(l, r, a, b)
    ensures FindPair(s, ':') == |l| && s[..|l|] == l && s[|l| + 2..] == r && CountPairs(s, ':') == 1
  {
    SideCountEdges(l, false, a);
    SideCountEdges(r, true, b);
    FindPairAt(l, ':', r);
    assert s == l + [':', ':'] + r;
  }

  lemma CountedShape(value: string)
    requires CountedIpv6(value)
    ensures value != "" && CountPairs(value, ':') <= 1
    ensures FindPair(value, ':') < 0 ==> SideCount(value, true, 8)
  {
    CountingIsNineAlternatives(value);
    assert !SideCount("", true, 8) by {
      if SideCount("", true, 8) {
        EmptySideIsZero(true, 8);
      }
    }
    if SideCount(value, true, 8) {
      SideCountEdges(value, true, 8);
    } else {
      var l, r, a: nat, b: nat :| Compressed(value, l, r) && Halves(l, r, a, b);
      HalvesAreFound(value, l, r, a, b);
    }
  }

  lemma PairShape(value: string) returns (l: string, r: string, a: nat, b: nat)
    requires CountedIpv6(value) && FindPair(value, ':') >= 0
    ensures var at := FindPair(value, ':'); l == value[..at] && r == value[at + 2..]
    ensures Halves(l, r, a, b)
  {
    if SideCount(value, true, 8) {
      SideCountEdges(value, true, 8);
    }
    l, r, a, b :| Compressed(value, l, r) && Halves(l, r, a, b);
    HalvesAreFound(value, l, r, a, b);
  }

  lemma NotAGroup(parts: seq<string>, index: nat)
    requires index < |parts| && !H16(parts[index])
    ensures !Groups(parts) && forall k :: index < k <= |parts| ==> !Groups(parts[..k])
  {
    forall k | index < k <= |parts| ensures !Groups(parts[..k]) {
      assert parts[..k][index] == parts[index];
      assert parts[index] in parts[..k];
    }
    assert parts[index] in parts;
  }

  lemma EmptyPartFails(parts: seq<string>)
    requires parts != [] && exists p <- parts :: p == ""
    ensures forall b, n: nat :: !PartsCount(parts, b, n)
  {
    var i :| 0 <= i < |parts| && parts[i] == "";
    NotAGroup(parts, i);
    if Ipv4Address("") {
      Ipv4IsRegName("");
    }
  }
}
