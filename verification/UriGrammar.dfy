/** The `URI` production of RFC 3986 (section 3 and Appendix A) as derivation trees: a tree is
    well formed when every leaf is in its production, and `Text` spells it. */
module UriGrammar {
  import opened Strings
  import opened Wrappers

  predicate Alpha(c: char) { 'A' <= c <= 'Z' || 'a' <= c <= 'z' }
  predicate Digit(c: char) { '0' <= c <= '9' }
  predicate HexDigit(c: char) { Digit(c) || 'A' <= c <= 'F' || 'a' <= c <= 'f' }
  predicate UnreservedChar(c: char) { Alpha(c) || Digit(c) || c == '-' || c == '.' || c == '_' || c == '~' }
  predicate SubDelim(c: char) {
    c == '!' || c == '$' || c == '&' || c == '\'' || c == '(' || c == ')'
    || c == '*' || c == '+' || c == ',' || c == ';' || c == '='
  }

  /** The character tables the productions choose from. */
  datatype Table = RegNameTable | UserinfoTable | PcharTable | PathTable | QueryTable {
    predicate Has(c: char) {
      UnreservedChar(c) || SubDelim(c)
      || (this != RegNameTable && c == ':')
      || ((PcharTable? || PathTable? || QueryTable?) && c == '@')
      || ((PathTable? || QueryTable?) && c == '/')
      || (QueryTable? && c == '?')
    }
  }

  // ---- *( pct-encoded / table ) ----

  datatype Unit = Plain(c: char) | Pct(hi: char, lo: char) {
    predicate WellFormed(t: Table) {
      match this
      case Plain(c) => t.Has(c)
      case Pct(hi, lo) => HexDigit(hi) && HexDigit(lo)
    }
    function Text(): (s: string)
      ensures s != ""
    {
      match this
      case Plain(c) => [c]
      case Pct(hi, lo) => ['%', hi, lo]
    }
  }

  function UnitsText(us: seq<Unit>): string {
    if us == [] then "" else us[0].Text() + UnitsText(us[1..])
  }

  ghost predicate Spells(us: seq<Unit>, s: string, t: Table) {
    (forall u <- us :: u.WellFormed(t)) && UnitsText(us) == s
  }

  ghost predicate Token(s: string, t: Table) {
    exists us :: Spells(us, s, t)
  }

  // ---- URI = scheme ":" hier-part [ "?" query ] [ "#" fragment ] ----

  predicate Scheme(s: string) {
    s != "" && Alpha(s[0]) && forall c <- s[1..] :: Alpha(c) || Digit(c) || c == '+' || c == '-' || c == '.'
  }

  datatype Uri = Uri(scheme: string, hier: Hier, query: Option<string>, fragment: Option<string>) {
    ghost predicate WellFormed() {
      && Scheme(scheme) && hier.WellFormed()
      && (query.Some? ==> Token(query.value, QueryTable))
      && (fragment.Some? ==> Token(fragment.value, QueryTable))
    }
    function Text(): string {
      scheme + ":" + hier.Text() + Prefixed('?', query) + Prefixed('#', fragment)
    }
  }

  function Prefixed(mark: char, part: Option<string>): string {
    if part.Some? then [mark] + part.value else ""
  }

  // ---- hier-part ----

  datatype Hier =
    | WithAuthority(authority: Authority, segments: seq<string>) // "//" authority *( "/" segment )
    | PathAbsolute(first: Option<string>, segments: seq<string>) // "/" [ segment-nz *( "/" segment ) ]
    | PathRootless(head: string, segments: seq<string>)          // segment-nz *( "/" segment )
    | PathEmpty
  {
    ghost predicate WellFormed() {
      match this
      case WithAuthority(a, ss) => a.WellFormed() && Segments(ss)
      case PathAbsolute(first, ss) => (if first.Some? then SegmentNz(first.value) else ss == []) && Segments(ss)
      case PathRootless(head, ss) => SegmentNz(head) && Segments(ss)
      case PathEmpty => true
    }
    function Text(): string {
      match this
      case WithAuthority(a, ss) => "//" + a.Text() + SegmentsText(ss)
      case PathAbsolute(first, ss) => "/" + (if first.Some? then first.value else "") + SegmentsText(ss)
      case PathRootless(head, ss) => head + SegmentsText(ss)
      case PathEmpty => ""
    }
  }

  ghost predicate SegmentNz(s: string) { s != "" && Token(s, PcharTable) }
  ghost predicate Segments(ss: seq<string>) { forall s <- ss :: Token(s, PcharTable) }

  function SegmentsText(ss: seq<string>): string {
    if ss == [] then "" else "/" + ss[0] + SegmentsText(ss[1..])
  }

  // ---- authority = [ userinfo "@" ] host [ ":" port ] ----

  datatype Authority = Authority(userinfo: Option<string>, host: Host, port: Option<string>) {
    ghost predicate WellFormed() {
      && (userinfo.Some? ==> Token(userinfo.value, UserinfoTable))
      && host.WellFormed()
      && (port.Some? ==> Digits(port.value))
    }
    function Text(): string {
      (if userinfo.Some? then userinfo.value + "@" else "") + host.Text() + Prefixed(':', port)
    }
  }

  predicate Digits(s: string) { forall c <- s :: Digit(c) }

  // IP-literal = "[" ( IPv6address / IPvFuture ) "]"; the "v" of IPvFuture is case-insensitive.
  datatype Host =
    | IpFuture(mark: char, version: string, address: string) | Ipv6(address: string) | Ipv4(octets: string)
    | RegName(name: string)
  {
    ghost predicate WellFormed() {
      match this
      case IpFuture(m, v, a) => (m == 'v' || m == 'V') && IpFutureParts(v, a)
      case Ipv6(a) => Ipv6Address(a)
      case Ipv4(a) => Ipv4Address(a)
      case RegName(n) => Token(n, RegNameTable)
    }
    function Text(): string {
      match this
      case IpFuture(m, v, a) => "[" + [m] + v + "." + a + "]"
      case Ipv6(a) => "[" + a + "]"
      case Ipv4(a) => a
      case RegName(n) => n
    }
  }

  predicate IpFutureParts(version: string, address: string) {
    && version != "" && (forall c <- version :: HexDigit(c))
    && address != "" && (forall c <- address :: UserinfoTable.Has(c))
  }

  // ---- IPv4address = dec-octet "." dec-octet "." dec-octet "." dec-octet ----

  predicate DecOctet(s: string) {
    || (|s| == 1 && Digit(s[0]))
    || (|s| == 2 && '1' <= s[0] <= '9' && Digit(s[1]))
    || (|s| == 3 && s[0] == '1' && Digit(s[1]) && Digit(s[2]))
    || (|s| == 3 && s[0] == '2' && '0' <= s[1] <= '4' && Digit(s[2]))
    || (|s| == 3 && s[0] == '2' && s[1] == '5' && '0' <= s[2] <= '5')
  }

  ghost predicate Ipv4Address(s: string) {
    exists a, b, c, d :: Octets(a, b, c, d) && s == a + "." + b + "." + c + "." + d
  }

  predicate Octets(a: string, b: string, c: string, d: string) {
    DecOctet(a) && DecOctet(b) && DecOctet(c) && DecOctet(d)
  }

  // ---- IPv6address, the nine alternatives of section 3.2.2 ----

  predicate H16(s: string) { 1 <= |s| <= 4 && forall c <- s :: HexDigit(c) }
  predicate Groups(gs: seq<string>) { forall g <- gs :: H16(g) }

  /** n( h16 ":" ) */
  function Leading(gs: seq<string>): string {
    if gs == [] then "" else gs[0] + ":" + Leading(gs[1..])
  }

  /** [ *max( h16 ":" ) h16 ]: none, or up to max + 1 groups. */
  ghost predicate UpTo(s: string, max: nat) {
    s == "" || exists gs :: Groups(gs) && 1 <= |gs| <= max + 1 && s == Join(gs, ':')
  }

  ghost predicate Exactly(s: string, n: nat, tail: string) {
    exists gs :: Groups(gs) && |gs| == n && s == Leading(gs) + tail
  }

  ghost predicate Ls32(s: string) {
    Ipv4Address(s) || exists hi, lo :: H16(hi) && H16(lo) && s == hi + ":" + lo
  }

  /** n( h16 ":" ) ls32 */
  ghost predicate ExactlyLs32(s: string, n: nat) {
    exists tail :: Ls32(tail) && Exactly(s, n, tail)
  }

  ghost predicate Compressed(s: string, left: string, right: string) {
    s == left + "::" + right
  }

  ghost predicate Ipv6Address(s: string) {
    || ExactlyLs32(s, 6)
    || (exists r :: Compressed(s, "", r) && ExactlyLs32(r, 5))
    || (exists l, r :: Compressed(s, l, r) && UpTo(l, 0) && ExactlyLs32(r, 4))
    || (exists l, r :: Compressed(s, l, r) && UpTo(l, 1) && ExactlyLs32(r, 3))
    || (exists l, r :: Compressed(s, l, r) && UpTo(l, 2) && ExactlyLs32(r, 2))
    || (exists l, r :: Compressed(s, l, r) && UpTo(l, 3) && ExactlyLs32(r, 1))
    || (exists l, r :: Compressed(s, l, r) && UpTo(l, 4) && ExactlyLs32(r, 0))
    || (exists l, r :: Compressed(s, l, r) && UpTo(l, 5) && H16(r))
    || (exists l, r :: Compressed(s, l, r) && UpTo(l, 6) && r == "")
  }

  // ---- the accepted language ----

  /** Equal to `to`, ignoring the case of ASCII letters. */
  predicate SameLetters(s: string, to: string) {
    |s| == |to| && forall i :: 0 <= i < |s| ==> Lower(s[i]) == to[i]
  }

  function Lower(c: char): char {
    if 'A' <= c <= 'Z' then c + 32 as char else c
  }

  predicate Http(scheme: string) { SameLetters(scheme, "http") || SameLetters(scheme, "https") }

  /** The authored profile: an http or https URI has an authority with a non-empty host. */
  ghost predicate HttpHost(u: Uri) {
    Http(u.scheme) ==> u.hier.WithAuthority? && u.hier.authority.host.Text() != ""
  }

  ghost predicate Derives(u: Uri, s: string) {
    u.WellFormed() && HttpHost(u) && u.Text() == s
  }

  ghost predicate AbsoluteUri(s: string) {
    exists u :: Derives(u, s)
  }

  // ---- the characters themselves ----

  /** ALPHA, DIGIT, and the marks that Appendix A gives each production. */
  lemma TableCharacters(t: Table, c: char)
    ensures t.Has(c) <==>
      || 'A' <= c <= 'Z' || 'a' <= c <= 'z' || '0' <= c <= '9' || c in {'-', '.', '_', '~'}
      || c in {'!', '$', '&', '\'', '(', ')', '*', '+', ',', ';', '='}
      || (c == ':' && t in {UserinfoTable, PcharTable, PathTable, QueryTable})
      || (c == '@' && t in {PcharTable, PathTable, QueryTable})
      || (c == '/' && t in {PathTable, QueryTable})
      || (c == '?' && t == QueryTable)
    ensures HexDigit(c) <==> '0' <= c <= '9' || 'A' <= c <= 'F' || 'a' <= c <= 'f'
    ensures Digit(c) <==> '0' <= c <= '9'
  {
  }

  /** scheme = ALPHA *( ALPHA / DIGIT / "+" / "-" / "." ), and the schemes that need a host. */
  lemma SchemeCharacters(s: string)
    ensures Scheme(s) <==>
      && |s| > 0 && ('A' <= s[0] <= 'Z' || 'a' <= s[0] <= 'z')
      && forall i :: 0 < i < |s| ==> Follows(s[i])
    ensures Http(s) <==>
      && (|s| == 4 || (|s| == 5 && s[4] in {'s', 'S'}))
      && s[0] in {'h', 'H'} && s[1] in {'t', 'T'} && s[2] in {'t', 'T'} && s[3] in {'p', 'P'}
  {
    if Scheme(s) {
      forall i | 0 < i < |s| ensures Follows(s[i]) {
        assert s[1..][i - 1] == s[i] && s[i] in s[1..];
      }
    }
    if |s| > 0 && forall i :: 0 < i < |s| ==> Follows(s[i]) {
      forall c | c in s[1..] ensures Follows(c) {
        var i :| 0 <= i < |s| - 1 && s[1..][i] == c;
        assert s[i + 1] == c;
      }
    }
  }

  predicate Follows(c: char) {
    'A' <= c <= 'Z' || 'a' <= c <= 'z' || '0' <= c <= '9' || c == '+' || c == '-' || c == '.'
  }
}
