/** What the RFC 3986 grammar says, in the terms a left-to-right recogniser works in. */
module UriLemmas {
  import opened Strings
  import opened UriGrammar
  import opened Wrappers

  // ---- tokens ----

  lemma TokenEmpty(t: Table)
    ensures Token("", t)
  {
    assert Spells([], "", t);
  }

  /** A token is empty, or one table character and a token, or one percent triplet and a token. */
  lemma TokenStep(s: string, t: Table)
    requires s != ""
    ensures Token(s, t) <==>
      if s[0] == '%' then |s| >= 3 && HexDigit(s[1]) && HexDigit(s[2]) && Token(s[3..], t)
      else t.Has(s[0]) && Token(s[1..], t)
  {
    if Token(s, t) {
      var us: seq<Unit> :| Spells(us, s, t);
      var rest := UnitsText(us[1..]);
      assert s == us[0].Text() + rest;
      assert Spells(us[1..], rest, t);
      assert s[|us[0].Text()|..] == rest;
      assert us[0].WellFormed(t);
      match us[0]
      case Plain(c) => assert s[0] == c && s[1..] == rest && Token(s[1..], t);
      case Pct(hi, lo) => assert s[0] == '%' && s[1] == hi && s[2] == lo && Token(s[3..], t);
    }
    if s[0] != '%' && t.Has(s[0]) && Token(s[1..], t) {
      TokenCons(Plain(s[0]), s[1..], t);
      assert s == [s[0]] + s[1..];
    }
    if s[0] == '%' && |s| >= 3 && HexDigit(s[1]) && HexDigit(s[2]) && Token(s[3..], t) {
      TokenCons(Pct(s[1], s[2]), s[3..], t);
      assert s == ['%', s[1], s[2]] + s[3..];
    }
  }

  lemma TokenCons(u: Unit, s: string, t: Table)
    requires u.WellFormed(t) && Token(s, t)
    ensures Token(u.Text() + s, t)
  {
    var us: seq<Unit> :| Spells(us, s, t);
    assert ([u] + us)[1..] == us;
    assert Spells([u] + us, u.Text() + s, t);
  }

  /** A character outside the table that no percent triplet can hold is not in the token. */
  lemma {:induction false} TokenExcludes(s: string, t: Table, c: char)
    requires Token(s, t) && !t.Has(c) && c != '%' && !HexDigit(c)
    ensures c !in s
    decreases |s|
  {
    if s != "" {
      TokenStep(s, t);
      if s[0] == '%' {
        TokenExcludes(s[3..], t, c);
        assert s == ['%', s[1], s[2]] + s[3..];
      } else {
        TokenExcludes(s[1..], t, c);
        assert s == [s[0]] + s[1..];
      }
    }
  }

  lemma {:induction false} TokenOfTableChars(s: string, t: Table)
    requires forall c <- s :: t.Has(c)
    ensures Token(s, t)
  {
    TokenEmpty(t);
    if s != "" {
      TokenStep(s, t);
      assert s[0] in s && forall c <- s[1..] :: c in s;
      TokenOfTableChars(s[1..], t);
    }
  }

  // ---- paths ----

  /** A path token, cut at its first slash, is one segment and a path token. */
  lemma {:induction false} PathTokenCut(head: string, rest: string)
    requires '/' !in head && (rest == "" || rest[0] == '/')
    ensures Token(head + rest, PathTable) <==> Token(head, PcharTable) && Token(rest, PathTable)
    decreases |head|
  {
    var s := head + rest;
    if head == "" {
      assert s == rest;
      TokenEmpty(PcharTable);
    } else {
      TokenStep(s, PathTable);
      TokenStep(head, PcharTable);
      if s[0] == '%' {
        if |head| >= 3 {
          PathTokenCut(head[3..], rest);
          assert s[3..] == head[3..] + rest;
        } else if |s| > |head| {
          assert s[|head|] == '/';
        }
      } else {
        PathTokenCut(head[1..], rest);
        assert s[1..] == head[1..] + rest;
      }
    }
  }

  lemma {:induction false} SegmentsAreTokens(ss: seq<string>)
    requires Segments(ss)
    ensures Token(SegmentsText(ss), PathTable)
  {
    TokenEmpty(PathTable);
    if ss != [] {
      var rest := SegmentsText(ss[1..]);
      assert SegmentsText(ss) == "/" + (ss[0] + rest);
      TokenExcludes(ss[0], PcharTable, '/');
      SegmentsAreTokens(ss[1..]);
      PathTokenCut(ss[0], rest);
      TokenStep("/" + (ss[0] + rest), PathTable);
    }
  }

  /** A path token that is empty or begins with a slash is a list of segments. */
  lemma {:induction false} TokensAreSegments(p: string) returns (ss: seq<string>)
    requires Token(p, PathTable) && (p == "" || p[0] == '/')
    ensures Segments(ss) && SegmentsText(ss) == p
    decreases |p|
  {
    if p == "" {
      ss := [];
    } else {
      TokenStep(p, PathTable);
      var head, rest := SegmentCut(p[1..]);
      PathTokenCut(head, rest);
      var tail := TokensAreSegments(rest);
      ss := [head] + tail;
      assert p == "/" + head + rest;
    }
  }

  lemma SegmentCut(p: string) returns (head: string, rest: string)
    ensures p == head + rest && '/' !in head && (rest == "" || rest[0] == '/')
    ensures p != "" && p[0] != '/' ==> head != ""
  {
    var i := Find(p, '/');
    var cut := if i < 0 then |p| else i;
    head, rest := p[..cut], p[cut..];
  }

  ghost predicate DerivesPath(h: Hier, p: string) {
    !h.WithAuthority? && h.WellFormed() && h.Text() == p
  }

  predicate DoubleSlash(p: string) { |p| >= 2 && p[0] == '/' && p[1] == '/' }

  /** Without an authority, hier-part is exactly a path token that does not begin with "//". */
  lemma PathWithoutAuthority(p: string)
    ensures (exists h :: DerivesPath(h, p)) <==> Token(p, PathTable) && !DoubleSlash(p)
  {
    if h :| DerivesPath(h, p) {
      PathIsToken(h);
    }
    if Token(p, PathTable) && !DoubleSlash(p) {
      var h := TokenIsPath(p);
    }
  }

  lemma TokenIsPath(p: string) returns (h: Hier)
    requires Token(p, PathTable) && !DoubleSlash(p)
    ensures DerivesPath(h, p)
  {
    if p == "" {
      h := PathEmpty;
    } else if p[0] != '/' {
      var head, rest := SegmentCut(p);
      PathTokenCut(head, rest);
      var ss := TokensAreSegments(rest);
      h := PathRootless(head, ss);
    } else {
      TokenStep(p, PathTable);
      var head, rest := SegmentCut(p[1..]);
      PathTokenCut(head, rest);
      if head == "" {
        assert rest == "" && p == "/";
        h := PathAbsolute(None, []);
      } else {
        var ss := TokensAreSegments(rest);
        h := PathAbsolute(Some(head), ss);
        assert p == "/" + head + SegmentsText(ss);
      }
    }
  }

  lemma PathIsToken(h: Hier)
    requires !h.WithAuthority? && h.WellFormed()
    ensures Token(h.Text(), PathTable) && !DoubleSlash(h.Text())
  {
    hide Token;
    TokenEmpty(PathTable);
    TokenEmpty(PcharTable);
    match h
    case PathEmpty =>
    case PathRootless(head, ss) => HeadedPathIsToken(head, ss);
    case PathAbsolute(first, ss) =>
      var head := if first.Some? then first.value else "";
      HeadedPathIsToken(head, ss);
      assert h.Text() == "/" + (head + SegmentsText(ss));
      SlashedIsToken(head + SegmentsText(ss));
  }

  lemma HeadedPathIsToken(head: string, ss: seq<string>)
    requires Token(head, PcharTable) && Segments(ss)
    ensures Token(head + SegmentsText(ss), PathTable)
    ensures head != "" ==> head[0] != '/'
    ensures ss == [] ==> SegmentsText(ss) == ""
  {
    TokenExcludes(head, PcharTable, '/');
    SegmentsAreTokens(ss);
    PathTokenCut(head, SegmentsText(ss));
  }

  lemma SlashedIsToken(p: string)
    requires Token(p, PathTable)
    ensures Token("/" + p, PathTable)
  {
    TokenStep("/" + p, PathTable);
  }
}
