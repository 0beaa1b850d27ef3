/** The recursive-descent response parser: one cursor, moved by every method.  A refusal is
    `None`; where a refusal leaves the cursor is bounded, and nothing reads it again. */
module JsonParser {
  import opened JsonGrammar
  import opened JsonSpec
  import opened Wrappers

  /** Parse one response text.  `None` is the parser's syntax error. */
  method ParseJsonResponse(text: Text) returns (r: Option<Node>)
    ensures forall node :: JsonText(text, node) <==> r == Some(node)
  {
    hide JsonText, ReadText, Value.WellFormed, Value.Node;
    var parser := new JsonResponseParser(text);
    r := parser.Parse();
    forall node ensures JsonText(text, node) <==> ReadsTo(text, node) {
      ReadTextIsGrammar(text, node);
    }
  }

  /** `JSON.parse` on one string token: the characters between the quotes, unescaped. */
  function DecodeToken(token: Text): Option<Text> {
    var r := ReadString(token);
    if r.Got? && r.rest == [] then Some(Decode(r.value)) else None
  }

  // ---- what the loops have read so far, in front of what they still read ----

  ghost function After<T>(done: seq<T>, read: Read<seq<T>>): Read<seq<T>> {
    if read.Got? then Got(done + read.value, read.rest) else Fail
  }

  lemma AfterNothing<T>(read: Read<seq<T>>)
    ensures After([], read) == read
  {
    if read.Got? {
      assert [] + read.value == read.value;
    }
  }

  lemma AfterMore<T>(done: seq<T>, one: T, read: Read<seq<T>>)
    ensures After(done, After([one], read)) == After(done + [one], read)
  {
    if read.Got? {
      assert done + ([one] + read.value) == (done + [one]) + read.value;
    }
  }

  // ---- the nodes of what is read ----

  ghost function ReadNode(s: Text): (r: Read<Node>)
    ensures r.Got? ==> |r.rest| < |s|
  {
    if ReadValue(s).Fail? then Fail
    else
      ReadValueSpells(s);
      Got(ReadValue(s).value.Node(), ReadValue(s).rest)
  }

  ghost function ReadMember(s: Text): (r: Read<(Text, Node)>)
    ensures r.Got? ==> |r.rest| < |s|
  {
    var key := ReadKey(s);
    if key.Fail? || ReadNode(key.rest).Fail? then Fail
    else
      ReadKeySpells(s);
      Got((Decode(key.value.name), ReadNode(key.rest).value), ReadNode(key.rest).rest)
  }

  ghost function ReadItems(s: Text): Read<seq<Node>> {
    if ReadElements(s).Fail? then Fail
    else
      ReadElementsSpell(s);
      Got(ReadElements(s).value.Nodes(), ReadElements(s).rest)
  }

  ghost function ReadMembers(s: Text): Read<seq<(Text, Node)>> {
    if ReadEntries(s).Fail? then Fail
    else
      ReadEntriesSpell(s);
      Got(ReadEntries(s).value.Members(), ReadEntries(s).rest)
  }

  ghost predicate StartsWith(t: Text, u: Unit) { t != [] && t[0] == u }

  /** One item, blanks, and then: a bracket ends the list, a comma goes on, all else fails. */
  ghost function Listed<T>(one: Read<T>, close: Unit, more: Text -> Read<seq<T>>): Read<seq<T>> {
    if one.Fail? then Fail
    else
      var t := Skip(one.rest);
      if StartsWith(t, close) then Got([one.value], t[1..])
      else if StartsWith(t, COMMA) then After([one.value], more(t[1..]))
      else Fail
  }

  lemma AfterListed<T>(done: seq<T>, one: Read<T>, close: Unit, more: Text -> Read<seq<T>>)
    ensures After(done, Listed(one, close, more)) ==
      if one.Fail? then Fail
      else
        var t := Skip(one.rest);
        if StartsWith(t, close) then Got(done + [one.value], t[1..])
        else if StartsWith(t, COMMA) then After(done + [one.value], more(t[1..]))
        else Fail
  {
    if one.Got? && Skip(one.rest) != [] {
      AfterMore(done, one.value, more(Skip(one.rest)[1..]));
    }
  }

  lemma ReadItemsStep(s: Text)
    ensures ReadItems(s) == Listed(ReadNode(Skip(s)), CLOSE_BRACKET, ReadItems)
  {
    hide ReadValue, BlankRun, Skip, Value.Node, Value.WellFormed;
    if ReadElements(s).Got? {
      ReadElementsSpell(s);
    }
    var v := ReadValue(Skip(s));
    if v.Got? {
      ReadValueSpells(Skip(s));
      assert [v.value.Node()] + [] == [v.value.Node()];
    }
  }

  lemma ReadMembersStep(s: Text)
    ensures ReadMembers(s) == Listed(ReadMember(s), CLOSE_BRACE, ReadMembers)
  {
    hide ReadValue, ReadKey, BlankRun, Skip, Value.Node, Value.WellFormed, Decode;
    if ReadEntries(s).Got? {
      ReadEntriesSpell(s);
    }
    var k := ReadKey(s);
    if k.Got? {
      ReadKeySpells(s);
      if ReadValue(k.rest).Got? {
        ReadValueSpells(k.rest);
        var one := ReadMember(s).value;
        assert [one] + [] == [one];
      }
    }
  }

  lemma SkipTwice(s: Text)
    ensures Skip(Skip(s)) == Skip(s)
  {
    assert BlankRun(Skip(s)) == 0;
  }

  /** Blanks in front of a list do not change what is in it. */
  lemma SkipItems(s: Text)
    ensures ReadItems(Skip(s)) == ReadItems(s)
  {
    hide ReadItems, ReadNode, Skip, Listed;
    SkipTwice(s);
    ReadItemsStep(s);
    ReadItemsStep(Skip(s));
  }

  lemma SkipMembers(s: Text)
    ensures ReadMembers(Skip(s)) == ReadMembers(s)
  {
    hide ReadMembers, ReadNode, ReadKey, Skip, Listed, Decode;
    SkipKey(s);
    ReadMembersStep(s);
    ReadMembersStep(Skip(s));
  }

  lemma SkipKey(s: Text)
    ensures var k, l := ReadKey(s), ReadKey(Skip(s));
      if k.Fail? then l.Fail? else l.Got? && l.rest == k.rest && l.value.name == k.value.name
  {
    hide ReadString, BlankRun, Skip;
    SkipTwice(s);
  }

  lemma {:induction false} CharsThenSplit(cs: seq<Char>, rest: Text)
    ensures CharsThen(cs, rest) == CharsThen(cs, []) + rest
    decreases |cs|
  {
    if cs == [] {
      assert [QUOTE] + rest == ([QUOTE] + []) + rest;
    } else {
      CharsThenSplit(cs[1..], rest);
      assert cs[0].Text() + (CharsThen(cs[1..], []) + rest) == (cs[0].Text() + CharsThen(cs[1..], [])) + rest;
    }
  }

  /** The token cut out of the text decodes to the characters that were scanned. */
  lemma TokenDecodes(s: Text, cs: seq<Char>, rest: Text)
    requires CharsOk(cs) && s == [QUOTE] + CharsThen(cs, rest)
    ensures |rest| <= |s| && DecodeToken(s[..|s| - |rest|]) == Some(Decode(cs))
  {
    hide CharsOk, Decode, ReadString;
    CharsThenSplit(cs, rest);
    var token := [QUOTE] + CharsThen(cs, []);
    assert s == token + rest;
    assert s[..|token|] == token;
    ReadStringIs(cs, []);
  }

  class JsonResponseParser {
    const text: Text
    var index: nat

    constructor (text: Text)
      ensures this.text == text && index == 0
    {
      this.text := text;
      index := 0;
    }

    /** The cursor never passes the end by more than one: a backslash at the very end steps there. */
    ghost predicate Valid()
      reads this
    {
      index <= |text| + 1
    }

    /** What is still to be read. */
    ghost function Rest(): Text
      requires index <= |text|
      reads this
    {
      text[index..]
    }

    /** `r` is what was read, and the cursor is after it. */
    ghost predicate Parsed<T>(read: Read<T>, r: Option<T>)
      reads this
    {
      match read
      case Got(v, rest) => r == Some(v) && index <= |text| && Rest() == rest
      case Fail => r == None && Valid()
    }

    method Parse() returns (r: Option<Node>)
      requires index == 0
      modifies this
      ensures Valid()
      ensures forall node :: r == Some(node) <==> ReadsTo(text, node)
    {
      hide ReadValue, BlankRun, Value.WellFormed, Value.Node;
      assert Rest() == text;
      SkipWhitespace();
      if ReadValue(Rest()).Got? {
        ReadValueSpells(Rest());
      }
      var value := ParseValue();
      if value == None {
        return None;
      }
      SkipWhitespace();
      if index != |text| {
        return None;
      }
      assert Rest() == [];
      r := value;
    }

    method ParseValue() returns (r: Option<Node>)
      requires index <= |text|
      modifies this
      ensures Parsed(ReadNode(old(Rest())), r)
      decreases |text| - index, 2
    {
      hide ReadString, ReadNumber, ReadElements, ReadEntries, BlankRun, Decode, CharsThen, Elements.Nodes;
      hide Entries.Members;
      if index == |text| {
        return None;
      }
      var c := text[index];
      if c == QUOTE {
        var s := ParseString();
        r := if s.Some? then Some(Str(s.value)) else None;
      } else if c == OPEN_BRACE {
        r := ParseObject();
      } else if c == OPEN_BRACKET {
        r := ParseArray();
      } else if c == TRUE[0] {
        var ok := ParseLiteral(TRUE);
        r := if ok then Some(Bool(true)) else None;
      } else if c == FALSE[0] {
        var ok := ParseLiteral(FALSE);
        r := if ok then Some(Bool(false)) else None;
      } else if c == NULL[0] {
        var ok := ParseLiteral(NULL);
        r := if ok then Some(Null) else None;
      } else if c == MINUS || Digit(c) {
        r := ParseNumber();
      } else {
        return None;
      }
    }

    method ParseObject() returns (r: Option<Node>)
      requires index < |text| && text[index] == OPEN_BRACE
      modifies this
      ensures Parsed(ReadNode(old(Rest())), r)
      decreases |text| - index, 1
    {
      hide ReadNode, ReadMembers, ReadMember, Skip, BlankRun, After, Listed;
      ghost var s := Rest();
      index := index + 1;
      assert Rest() == s[1..];
      SkipWhitespace();
      var members := [];
      ReadObject(s);
      SkipMembers(s[1..]);
      AfterNothing(ReadMembers(Rest()));
      var empty := Take(CLOSE_BRACE);
      if empty {
        return Some(Obj(members));
      }
      while true
        invariant old(index) < index <= |text| && Skip(Rest()) == Rest()
        invariant ReadMembers(s[1..]) == After(members, ReadMembers(Rest()))
        decreases |text| - index
      {
        ReadMembersStep(Rest());
        AfterListed(members, ReadMember(Rest()), CLOSE_BRACE, ReadMembers);
        var member := ParseMember();
        if member == None {
          return None;
        }
        SkipWhitespace();
        ghost var t := Rest();
        members := members + [member.value];
        var closed := Take(CLOSE_BRACE);
        if closed {
          return Some(Obj(members));
        }
        var more := Take(COMMA);
        if !more {
          return None;
        }
        SkipMembers(t[1..]);
        SkipWhitespace();
      }
    }

    /** One name, a colon, and a value. */
    method ParseMember() returns (r: Option<(Text, Node)>)
      requires index <= |text| && Skip(Rest()) == Rest()
      modifies this
      ensures Parsed(ReadMember(old(Rest())), r)
      decreases |text| - index, 3
    {
      hide ReadString, ReadNode, BlankRun, Skip, Decode, CharsThen;
      if index == |text| || text[index] != QUOTE {
        return None;
      }
      var name := ParseString();
      if name == None {
        return None;
      }
      SkipWhitespace();
      var colon := Take(COLON);
      if !colon {
        return None;
      }
      SkipWhitespace();
      var value := ParseValue();
      r := if value.Some? then Some((name.value, value.value)) else None;
    }

    method ParseArray() returns (r: Option<Node>)
      requires index < |text| && text[index] == OPEN_BRACKET
      modifies this
      ensures Parsed(ReadNode(old(Rest())), r)
      decreases |text| - index, 1
    {
      hide ReadNode, ReadItems, Skip, BlankRun, After, Listed;
      ghost var s := Rest();
      index := index + 1;
      assert Rest() == s[1..];
      SkipWhitespace();
      var items := [];
      ReadArray(s);
      SkipItems(s[1..]);
      AfterNothing(ReadItems(Rest()));
      var empty := Take(CLOSE_BRACKET);
      if empty {
        return Some(Arr(items));
      }
      while true
        invariant old(index) < index <= |text| && Skip(Rest()) == Rest()
        invariant ReadItems(s[1..]) == After(items, ReadItems(Rest()))
        decreases |text| - index
      {
        ReadItemsStep(Rest());
        AfterListed(items, ReadNode(Rest()), CLOSE_BRACKET, ReadItems);
        var item := ParseValue();
        if item == None {
          return None;
        }
        SkipWhitespace();
        ghost var t := Rest();
        items := items + [item.value];
        var closed := Take(CLOSE_BRACKET);
        if closed {
          return Some(Arr(items));
        }
        var more := Take(COMMA);
        if !more {
          return None;
        }
        SkipItems(t[1..]);
        SkipWhitespace();
      }
    }

    method ParseString() returns (r: Option<Text>)
      requires index < |text| && text[index] == QUOTE
      modifies this
      ensures match ReadString(old(Rest()))
        case Got(cs, rest) => r == Some(Decode(cs)) && index <= |text| && Rest() == rest
        case Fail => r == None && Valid()
    {
      hide Decode, CharsThen, CharsOk, DecodeToken, ReadChar, After, ReadChars;
      var start := index;
      ghost var s := Rest();
      ghost var done: seq<Char> := [];
      index := index + 1;
      assert Rest() == s[1..];
      AfterNothing(ReadChars(Rest()));
      while index < |text|
        invariant start < index && Valid()
        invariant index <= |text| ==> ReadChars(s[1..]) == After(done, ReadChars(Rest()))
        invariant index > |text| ==> ReadChars(s[1..]) == Fail
        decreases |text| + 1 - index
      {
        var c := text[index];
        ghost var here := Rest();
        ReadCharsStep(done, here);
        if c == QUOTE {
          index := index + 1;
          TokenDecodes(s, done, Rest());
          assert text[start..index] == s[..|s| - |Rest()|];
          return DecodeToken(text[start..index]);
        }
        if c == BACKSLASH {
          var ok := ScanEscape();
          if !ok {
            return None;
          }
        } else {
          PlainChar(here);
          if c < 0x20 {
            return None;
          }
          index := index + 1;
        }
        if index <= |text| {
          done := done + [ReadChar(here).value];
        }
      }
      if index == |text| {
        ReadCharsEnd(done);
        assert Rest() == [];
      }
      return None;
    }

    /** The escape branch of `#parseString`.  At the end of the text the empty escape passes,
        and the cursor steps past the end; the string is then unterminated. */
    method ScanEscape() returns (ok: bool)
      requires index < |text| && text[index] == BACKSLASH
      modifies this
      ensures old(index) < index && Valid()
      ensures ok && index <= |text| ==> ReadChar(old(Rest())).Got? && Rest() == ReadChar(old(Rest())).rest
      ensures !ok || index > |text| ==> ReadChar(old(Rest())).Fail?
    {
      ghost var here := Rest();
      index := index + 1;
      if index == |text| || EscapeLetter(text[index]) {
        index := index + 1;
        assert index <= |text| ==> Rest() == here[2..];
        return true;
      }
      if text[index] != LETTER_U {
        return false;
      }
      for offset := 1 to 5
        invariant index + offset <= |text| && index == old(index) + 1
        invariant forall k :: 2 <= k < offset + 1 ==> Hex(here[k])
      {
        if index + offset >= |text| || !Hex(text[index + offset]) {
          return false;
        }
        assert here[offset + 1] == text[index + offset];
      }
      index := index + 5;
      assert Rest() == here[6..];
      return true;
    }

    method ParseNumber() returns (r: Option<Node>)
      requires index < |text| && (text[index] == MINUS || Digit(text[index]))
      modifies this
      ensures Parsed(ReadNode(old(Rest())), r)
    {
      hide ReadNode, ReadNumber, Number.Text, Number.WellFormed;
      var start := index;
      ghost var s := Rest();
      NumberValue(s);
      var ok := ScanNumber();
      if !ok {
        return None;
      }
      CutNumber(s);
      var raw := text[start..index];
      assert raw == s[..|s| - |Rest()|];
      return Some(Num(raw));
    }

    /** `#parseNumber` without the slice it returns. */
    method ScanNumber() returns (ok: bool)
      requires index < |text|
      modifies this
      ensures old(index) <= index <= |text|
      ensures var n := ReadNumber(old(Rest())); ok == n.Got? && (ok ==> Rest() == n.rest)
    {
      hide ReadInteger, ReadFraction, ReadExponent, StartsWith;
      ghost var s := Rest();
      var minus := Take(MINUS);
      MinusTaken(s, minus);
      if minus && index == |text| {
        EmptyInteger();
        return false;
      }
      ok := ScanInteger();
      if ok {
        ok := ScanFraction();
      }
      if ok {
        ok := ScanExponent();
      }
    }

    /** The integer part of `#parseNumber`. */
    method ScanInteger() returns (ok: bool)
      requires index <= |text|
      modifies this
      ensures old(index) <= index <= |text|
      ensures var i := ReadInteger(old(Rest())); ok == i.Got? && (ok ==> Rest() == i.rest)
    {
      ghost var s := Rest();
      var zero := Take(0x30);
      if zero {
        assert Rest() == s[1..];
        return index == |text| || !Digit(text[index]);
      }
      if index == |text| || !NonZero(text[index]) {
        return false;
      }
      index := index + 1;
      assert Rest() == s[1..];
      TakeDigits();
      assert Rest() == s[DigitRun(s)..];
      return true;
    }

    /** The fraction part of `#parseNumber`. */
    method ScanFraction() returns (ok: bool)
      requires index <= |text|
      modifies this
      ensures old(index) <= index <= |text|
      ensures var f := ReadFraction(old(Rest())); ok == f.Got? && (ok ==> Rest() == f.rest)
    {
      ghost var s := Rest();
      var dot := Take(DOT);
      if dot {
        assert Rest() == s[1..];
        if index == |text| || !Digit(text[index]) {
          return false;
        }
        TakeDigits();
      }
      return true;
    }

    /** The exponent part of `#parseNumber`. */
    method ScanExponent() returns (ok: bool)
      requires index <= |text|
      modifies this
      ensures old(index) <= index <= |text|
      ensures var e := ReadExponent(old(Rest())); ok == e.Got? && (ok ==> Rest() == e.rest)
    {
      ghost var s := Rest();
      if index < |text| && Exponent(text[index]) {
        index := index + 1;
        assert Rest() == s[1..];
        if index < |text| && Sign(text[index]) {
          index := index + 1;
          assert Rest() == s[1..][1..];
        }
        if index == |text| || !Digit(text[index]) {
          return false;
        }
        TakeDigits();
      }
      return true;
    }

    method ParseLiteral(token: Text) returns (ok: bool)
      requires index <= |text|
      modifies this
      ensures ok == (token <= old(Rest())) && index <= |text|
      ensures ok ==> Rest() == old(Rest())[|token|..]
    {
      ok := |token| <= |text| - index && text[index..index + |token|] == token;
      assert ok ==> text[index..][..|token|] == token;
      assert token <= text[index..] ==> text[index..index + |token|] == token;
      if ok {
        index := index + |token|;
      }
    }

    method TakeDigits()
      requires index <= |text|
      modifies this
      ensures index <= |text| && old(index) + DigitRun(old(Rest())) == index
      ensures Rest() == old(Rest())[DigitRun(old(Rest()))..]
    {
      while index < |text| && Digit(text[index])
        invariant old(index) <= index <= |text|
        invariant old(index) + DigitRun(old(Rest())) == index + DigitRun(Rest())
      {
        assert Rest()[1..] == text[index + 1..];
        index := index + 1;
      }
    }

    method Take(expected: Unit) returns (taken: bool)
      requires index <= |text|
      modifies this
      ensures taken == StartsWith(old(Rest()), expected)
      ensures index == old(index) + (if taken then 1 else 0) && index <= |text|
      ensures Rest() == if taken then old(Rest())[1..] else old(Rest())
    {
      if index == |text| || text[index] != expected {
        return false;
      }
      index := index + 1;
      return true;
    }

    method SkipWhitespace()
      requires index <= |text|
      modifies this
      ensures old(index) <= index <= |text| && Rest() == Skip(old(Rest())) && Skip(Rest()) == Rest()
    {
      SkipTwice(Rest());
      while index < |text| && Blank(text[index])
        invariant old(index) <= index <= |text|
        invariant old(index) + BlankRun(old(Rest())) == index + BlankRun(Rest())
      {
        assert Rest()[1..] == text[index + 1..];
        index := index + 1;
      }
    }
  }

  lemma EmptyInteger()
    ensures ReadInteger([]).Fail?
  {}

  lemma MinusTaken(s: Text, minus: bool)
    requires minus == StartsWith(s, MINUS)
    ensures minus == (s != [] && s[0] == MINUS)
  {}

  lemma NumberValue(s: Text)
    requires s != [] && (s[0] == MINUS || Digit(s[0]))
    ensures var v, n := ReadNode(s), ReadNumber(s);
      if n.Fail? then v.Fail? else v == Got(Num(n.value.Text()), n.rest)
  {
    hide ReadNumber, Number.Text;
  }

  /** The lexeme is the text that was read. */
  lemma CutNumber(s: Text)
    requires ReadNumber(s).Got?
    ensures var n := ReadNumber(s); n.value.WellFormed() && |n.rest| <= |s| && s[..|s| - |n.rest|] == n.value.Text()
  {
    hide ReadNumber, Number.Text, Number.WellFormed;
    ReadNumberSpells(s);
    var t, rest := ReadNumber(s).value.Text(), ReadNumber(s).rest;
    assert (t + rest)[..|t|] == t;
  }

  lemma ReadCharsEnd(done: seq<Char>)
    ensures After(done, ReadChars([])) == Fail
  {}

  lemma PlainChar(s: Text)
    requires s != [] && s[0] != QUOTE && s[0] != BACKSLASH
    ensures if s[0] < 0x20 then ReadChar(s) == Fail else ReadChar(s) == Got(Raw(s[0]), s[1..])
  {}

  lemma ReadCharsStep(done: seq<Char>, s: Text)
    requires s != []
    ensures s[0] == QUOTE ==> After(done, ReadChars(s)) == Got(done, s[1..])
    ensures s[0] != QUOTE && ReadChar(s).Fail? ==> After(done, ReadChars(s)) == Fail
    ensures s[0] != QUOTE && ReadChar(s).Got? ==>
      After(done, ReadChars(s)) == After(done + [ReadChar(s).value], ReadChars(ReadChar(s).rest))
  {
    if s[0] == QUOTE {
      assert done + [] == done;
    } else if ReadChar(s).Got? {
      AfterMore(done, ReadChar(s).value, ReadChars(ReadChar(s).rest));
    }
  }

  lemma ReadArray(s: Text)
    requires StartsWith(s, OPEN_BRACKET)
    ensures var r, t, items := ReadNode(s), Skip(s[1..]), ReadItems(s[1..]);
      if StartsWith(t, CLOSE_BRACKET) then r == Got(Arr([]), t[1..])
      else if items.Fail? then r == Fail
      else r == Got(Arr(items.value), items.rest)
  {
    hide BlankRun, Skip, ReadElements, Elements.Nodes;
    if ReadElements(s[1..]).Got? {
      ReadElementsSpell(s[1..]);
    }
  }

  lemma ReadObject(s: Text)
    requires StartsWith(s, OPEN_BRACE)
    ensures var r, t, ms := ReadNode(s), Skip(s[1..]), ReadMembers(s[1..]);
      if StartsWith(t, CLOSE_BRACE) then r == Got(Obj([]), t[1..])
      else if ms.Fail? then r == Fail
      else r == Got(Obj(ms.value), ms.rest)
  {
    hide BlankRun, Skip, ReadEntries, Entries.Members;
    if ReadEntries(s[1..]).Got? {
      ReadEntriesSpell(s[1..]);
    }
  }
}
