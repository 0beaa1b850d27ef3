/** What a left-to-right JSON parser reads off the front of a text, and the proof that this is
    exactly the grammar: what it reads spells the text, and every derivation is what it reads. */
module JsonSpec {
  import opened JsonGrammar
  import opened Wrappers

  /** Read a value from the front of a text; what is left over comes with it. */
  datatype Read<+T> = Fail | Got(value: T, rest: Text)

  // ---- runs ----

  function BlankRun(s: Text): (n: nat)
    ensures n <= |s| && Blanks(s[..n]) && (n < |s| ==> !Blank(s[n]))
  {
    if s == [] || !Blank(s[0]) then 0
    else
      var n := BlankRun(s[1..]);
      assert s[..n + 1] == [s[0]] + s[1..][..n];
      n + 1
  }

  function DigitRun(s: Text): (n: nat)
    ensures n <= |s| && Digits(s[..n]) && (n < |s| ==> !Digit(s[n]))
    ensures s != [] && Digit(s[0]) ==> n > 0
  {
    if s == [] || !Digit(s[0]) then 0
    else
      var n := DigitRun(s[1..]);
      assert s[..n + 1] == [s[0]] + s[1..][..n];
      n + 1
  }

  function Skip(s: Text): Text { s[BlankRun(s)..] }

  ghost predicate NotBlankFirst(s: Text) { s == [] || !Blank(s[0]) }
  ghost predicate NotDigitFirst(s: Text) { s == [] || !Digit(s[0]) }

  lemma {:induction false} BlankRunIs(w: Text, rest: Text)
    requires Blanks(w) && NotBlankFirst(rest)
    ensures BlankRun(w + rest) == |w| && (w + rest)[..|w|] == w && (w + rest)[|w|..] == rest
    decreases |w|
  {
    if w == [] {
      assert w + rest == rest;
    } else {
      assert (w + rest)[1..] == w[1..] + rest;
      BlankRunIs(w[1..], rest);
    }
  }

  lemma {:induction false} DigitRunIs(d: Text, rest: Text)
    requires Digits(d) && NotDigitFirst(rest)
    ensures DigitRun(d + rest) == |d| && (d + rest)[..|d|] == d && (d + rest)[|d|..] == rest
    decreases |d|
  {
    if d == [] {
      assert d + rest == rest;
    } else {
      assert (d + rest)[1..] == d[1..] + rest;
      DigitRunIs(d[1..], rest);
    }
  }

  // ---- strings ----

  predicate LongAt(s: Text) {
    |s| >= 6 && s[0] == BACKSLASH && s[1] == LETTER_U && Hex(s[2]) && Hex(s[3]) && Hex(s[4]) && Hex(s[5])
  }

  /** One character off the front of a string that has not ended. */
  function ReadChar(s: Text): (r: Read<Char>)
    ensures r.Got? ==> r.value.WellFormed() && s == r.value.Text() + r.rest && |r.rest| < |s|
  {
    if s == [] || s[0] == QUOTE then Fail
    else if s[0] == BACKSLASH then
      if |s| >= 2 && EscapeLetter(s[1]) then Got(Short(s[1]), s[2..])
      else if LongAt(s) then Got(Long(s[2], s[3], s[4], s[5]), s[6..])
      else Fail
    else if s[0] < 0x20 then Fail
    else Got(Raw(s[0]), s[1..])
  }

  /** The characters up to the closing quote. */
  function ReadChars(s: Text): (r: Read<seq<Char>>)
    ensures r.Got? ==> CharsOk(r.value) && s == CharsThen(r.value, r.rest) && |r.rest| < |s|
    decreases |s|
  {
    if s != [] && s[0] == QUOTE then
      assert [QUOTE] + s[1..] == s;
      Got([], s[1..])
    else
      var c := ReadChar(s);
      if c.Fail? then Fail
      else
        var cs := ReadChars(c.rest);
        if cs.Fail? then Fail
        else
          assert ([c.value] + cs.value)[1..] == cs.value;
          Got([c.value] + cs.value, cs.rest)
  }

  lemma {:induction false} ReadCharsIs(cs: seq<Char>, rest: Text)
    requires CharsOk(cs)
    ensures ReadChars(CharsThen(cs, rest)) == Got(cs, rest)
    decreases |cs|
  {
    var s := CharsThen(cs, rest);
    if cs == [] {
      assert s[1..] == rest;
    } else {
      var tail := CharsThen(cs[1..], rest);
      ReadCharIs(cs[0], tail);
      assert CharsOk(cs[1..]);
      ReadCharsIs(cs[1..], rest);
      assert [cs[0]] + cs[1..] == cs;
      assert s[0] != QUOTE;
    }
  }

  lemma ReadCharIs(c: Char, tail: Text)
    requires c.WellFormed()
    ensures ReadChar(c.Text() + tail) == Got(c, tail)
  {
    var s := c.Text() + tail;
    match c
    case Raw(u) => assert s[1..] == tail;
    case Short(l) => assert s[2..] == tail;
    case Long(a, b, c0, d) => assert s[6..] == tail;
  }

  function ReadString(s: Text): (r: Read<seq<Char>>)
    ensures r.Got? ==> CharsOk(r.value) && s == [QUOTE] + CharsThen(r.value, r.rest) && |r.rest| < |s|
  {
    if s == [] || s[0] != QUOTE then Fail else ReadChars(s[1..])
  }

  lemma ReadStringIs(cs: seq<Char>, rest: Text)
    requires CharsOk(cs)
    ensures ReadString([QUOTE] + CharsThen(cs, rest)) == Got(cs, rest)
  {
    ReadCharsIs(cs, rest);
    assert ([QUOTE] + CharsThen(cs, rest))[1..] == CharsThen(cs, rest);
  }

  // ---- numbers ----

  /** The text after a number that cannot be mistaken for more of it. */
  ghost predicate Ended(rest: Text) {
    rest == [] || !(Digit(rest[0]) || rest[0] == DOT || Exponent(rest[0]))
  }

  function ReadInteger(s: Text): (r: Read<Text>)
    ensures r.Got? ==>
      r.value != [] && Digits(r.value) && (r.value == [0x30] || NonZero(r.value[0])) && s == r.value + r.rest
  {
    if s == [] then Fail
    else if s[0] == 0x30 then
      if |s| > 1 && Digit(s[1]) then Fail else Got([0x30], s[1..])
    else if NonZero(s[0]) then
      var n := DigitRun(s);
      Got(s[..n], s[n..])
    else Fail
  }

  function ReadDigits(s: Text): (r: Read<Text>)
    ensures r.Got? ==> r.value != [] && Digits(r.value) && s == r.value + r.rest
  {
    var n := DigitRun(s);
    if n == 0 then Fail else Got(s[..n], s[n..])
  }

  function ReadFraction(s: Text): (r: Read<Option<Text>>)
    ensures r.Got? ==> |r.rest| <= |s|
  {
    if s == [] || s[0] != DOT then Got(None, s)
    else
      var d := ReadDigits(s[1..]);
      if d.Fail? then Fail else Got(Some(d.value), d.rest)
  }

  function ReadSign(s: Text): (r: Read<Option<Unit>>)
    ensures r.Got? && |r.rest| <= |s|
  {
    if s != [] && Sign(s[0]) then Got(Some(s[0]), s[1..]) else Got(None, s)
  }

  function ReadExponent(s: Text): (r: Read<Option<Exp>>)
    ensures r.Got? ==> |r.rest| <= |s|
  {
    if s == [] || !Exponent(s[0]) then Got(None, s)
    else
      var sign := ReadSign(s[1..]);
      var d := ReadDigits(sign.rest);
      if d.Fail? then Fail else Got(Some(Exp(s[0], sign.value, d.value)), d.rest)
  }

  lemma ReadFractionSpells(s: Text)
    requires ReadFraction(s).Got?
    ensures var r := ReadFraction(s);
      (r.value.Some? ==> r.value.value != [] && Digits(r.value.value)) && s == FracText(r.value) + r.rest
  {
    hide ReadDigits, Digits;
    if s == [] || s[0] != DOT {
      assert [] + s == s;
    } else {
      var d := ReadDigits(s[1..]);
      assert s == [DOT] + (d.value + d.rest);
      assert [DOT] + (d.value + d.rest) == ([DOT] + d.value) + d.rest;
    }
  }

  lemma ReadExponentSpells(s: Text)
    requires ReadExponent(s).Got?
    ensures var r := ReadExponent(s); (r.value.Some? ==> r.value.value.WellFormed()) && s == ExpText(r.value) + r.rest
  {
    hide ReadDigits, Digits, ReadSign, SignText;
    if s == [] || !Exponent(s[0]) {
      assert [] + s == s;
    } else {
      var sign := ReadSign(s[1..]);
      ReadSignSpells(s[1..]);
      var d := ReadDigits(sign.rest);
      assert s == [s[0]] + s[1..];
      ExpThen(Exp(s[0], sign.value, d.value), d.rest);
    }
  }

  lemma ReadSignSpells(s: Text)
    ensures var r := ReadSign(s); (r.value.Some? ==> Sign(r.value.value)) && s == SignText(r.value) + r.rest
  {}

  lemma ExpThen(x: Exp, rest: Text)
    ensures x.Text() + rest == [x.letter] + (SignText(x.sign) + (x.digits + rest))
  {
    hide SignText;
    var sg := SignText(x.sign);
    assert ([x.letter] + (sg + x.digits)) + rest == [x.letter] + (sg + (x.digits + rest));
  }

  function ReadNumber(s: Text): (r: Read<Number>)
    ensures r.Got? ==> |r.rest| < |s|
  {
    var minus := s != [] && s[0] == MINUS;
    var i := ReadInteger(if minus then s[1..] else s);
    if i.Fail? then Fail
    else
      var f := ReadFraction(i.rest);
      if f.Fail? then Fail
      else
        var e := ReadExponent(f.rest);
        if e.Fail? then Fail else Got(Number(minus, i.value, f.value, e.value), e.rest)
  }

  lemma NumberThen(n: Number, rest: Text)
    ensures n.Text() + rest == MinusText(n.minus) + (n.integer + (FracText(n.frac) + (ExpText(n.exp) + rest)))
  {
    hide MinusText, FracText, ExpText;
    var m, i, f, e := MinusText(n.minus), n.integer, FracText(n.frac), ExpText(n.exp);
    assert (m + (i + (f + e))) + rest == m + (i + (f + (e + rest)));
  }

  lemma ReadNumberSpells(s: Text)
    requires ReadNumber(s).Got?
    ensures var r := ReadNumber(s); r.value.WellFormed() && s == r.value.Text() + r.rest
  {
    hide ReadInteger, ReadFraction, ReadExponent, ExpText, FracText;
    var r := ReadNumber(s);
    var minus := s != [] && s[0] == MINUS;
    var signed := if minus then s[1..] else s;
    assert s == MinusText(minus) + signed;
    var i := ReadInteger(signed);
    ReadFractionSpells(i.rest);
    ReadExponentSpells(ReadFraction(i.rest).rest);
    NumberThen(r.value, r.rest);
  }

  lemma ReadDigitsIs(d: Text, rest: Text)
    requires d != [] && Digits(d) && NotDigitFirst(rest)
    ensures ReadDigits(d + rest) == Got(d, rest)
  {
    DigitRunIs(d, rest);
  }

  lemma ReadNumberIs(n: Number, rest: Text)
    requires n.WellFormed() && Ended(rest)
    ensures ReadNumber(n.Text() + rest) == Got(n, rest)
  {
    hide ReadInteger, ReadFraction, ReadExponent, ExpText, FracText, Digits, NotDigitFirst;
    var e := ExpText(n.exp) + rest;
    var f := FracText(n.frac) + e;
    var s := n.Text() + rest;
    NumberThen(n, rest);
    ReadExponentIs(n.exp, rest);
    ReadFractionIs(n.frac, e);
    FractionStart(n.frac, e);
    ReadIntegerIs(n.integer, f);
    var i := n.integer + f;
    assert i[0] == n.integer[0];
    if n.minus {
      assert s == [MINUS] + i && s[1..] == i;
    } else {
      assert s == [] + i && s == i;
    }
  }

  lemma FractionStart(frac: Option<Text>, rest: Text)
    requires NotDigitFirst(rest)
    ensures NotDigitFirst(FracText(frac) + rest)
  {}

  lemma ReadIntegerIs(d: Text, rest: Text)
    requires d != [] && Digits(d) && (d == [0x30] || NonZero(d[0])) && NotDigitFirst(rest)
    ensures ReadInteger(d + rest) == Got(d, rest)
  {
    DigitRunIs(d, rest);
    assert (d + rest)[0] == d[0];
    if d == [0x30] {
      assert (d + rest)[1..] == rest;
    }
  }

  lemma ReadFractionIs(frac: Option<Text>, rest: Text)
    requires frac.Some? ==> frac.value != [] && Digits(frac.value)
    requires NotDigitFirst(rest) && (rest == [] || rest[0] != DOT)
    ensures ReadFraction(FracText(frac) + rest) == Got(frac, rest)
  {
    hide ReadDigits, Digits;
    if frac.Some? {
      ReadDigitsIs(frac.value, rest);
      TailIs(DOT, frac.value + rest);
      assert ([DOT] + frac.value) + rest == [DOT] + (frac.value + rest);
    } else {
      assert [] + rest == rest;
    }
  }

  lemma ReadExponentIs(exp: Option<Exp>, rest: Text)
    requires (exp.Some? ==> exp.value.WellFormed()) && Ended(rest)
    ensures var s := ExpText(exp) + rest;
      ReadExponent(s) == Got(exp, rest) && NotDigitFirst(s) && (s == [] || s[0] != DOT)
  {
    hide ReadDigits, Digits, ReadSign, SignText;
    if exp.None? {
      assert [] + rest == rest;
    } else {
      var x := exp.value;
      ReadDigitsIs(x.digits, rest);
      ReadSignIs(x.sign, x.digits, rest);
      ExpThen(x, rest);
      TailIs(x.letter, SignText(x.sign) + (x.digits + rest));
    }
  }

  lemma ReadSignIs(sign: Option<Unit>, digits: Text, rest: Text)
    requires (sign.Some? ==> Sign(sign.value)) && digits != [] && Digits(digits)
    ensures ReadSign(SignText(sign) + (digits + rest)) == Got(sign, digits + rest)
  {
    var s := digits + rest;
    assert s[0] == digits[0];
    if sign.Some? {
      TailIs(sign.value, s);
    } else {
      assert [] + s == s;
    }
  }

  // ---- values ----

  function ReadWord(s: Text, word: Text, v: Value): Read<Value> {
    if word <= s then Got(v, s[|word|..]) else Fail
  }

  function ReadValue(s: Text): (r: Read<Value>)
    ensures r.Got? ==> |r.rest| < |s|
    decreases |s|, 1
  {
    if s == [] then Fail
    else if s[0] == QUOTE then
      var r := ReadString(s);
      if r.Fail? then Fail else Got(VString(r.value), r.rest)
    else if s[0] == OPEN_BRACE then
      var w := BlankRun(s[1..]);
      var t := Skip(s[1..]);
      if t != [] && t[0] == CLOSE_BRACE then Got(VEmptyObject(s[1..][..w]), t[1..])
      else
        var e := ReadEntries(s[1..]);
        if e.Fail? then Fail else Got(VObject(e.value), e.rest)
    else if s[0] == OPEN_BRACKET then
      var w := BlankRun(s[1..]);
      var t := Skip(s[1..]);
      if t != [] && t[0] == CLOSE_BRACKET then Got(VEmptyArray(s[1..][..w]), t[1..])
      else
        var e := ReadElements(s[1..]);
        if e.Fail? then Fail else Got(VArray(e.value), e.rest)
    else if s[0] == TRUE[0] then ReadWord(s, TRUE, VTrue)
    else if s[0] == FALSE[0] then ReadWord(s, FALSE, VFalse)
    else if s[0] == NULL[0] then ReadWord(s, NULL, VNull)
    else if s[0] == MINUS || Digit(s[0]) then
      var r := ReadNumber(s);
      if r.Fail? then Fail else Got(VNumber(r.value), r.rest)
    else Fail
  }

  function ReadElements(s: Text): (r: Read<Elements>)
    ensures r.Got? ==> |r.rest| < |s|
    decreases |s|, 2
  {
    var before := s[..BlankRun(s)];
    var v := ReadValue(Skip(s));
    if v.Fail? then Fail
    else
      var after := v.rest[..BlankRun(v.rest)];
      var t := Skip(v.rest);
      if t != [] && t[0] == CLOSE_BRACKET then Got(Elements(before, v.value, after, None), t[1..])
      else if t != [] && t[0] == COMMA then
        var more := ReadElements(t[1..]);
        if more.Fail? then Fail else Got(Elements(before, v.value, after, Some(more.value)), more.rest)
      else Fail
  }

  function ReadKey(s: Text): (r: Read<Key>)
    ensures r.Got? ==> |r.rest| < |s|
  {
    var name := ReadString(Skip(s));
    if name.Fail? then Fail
    else
      var colon := Skip(name.rest);
      if colon == [] || colon[0] != COLON then Fail
      else
        var tail := colon[1..];
        Got(Key(s[..BlankRun(s)], name.value, name.rest[..BlankRun(name.rest)], tail[..BlankRun(tail)]), Skip(tail))
  }

  function ReadEntries(s: Text): (r: Read<Entries>)
    ensures r.Got? ==> |r.rest| < |s|
    decreases |s|, 2
  {
    var key := ReadKey(s);
    if key.Fail? then Fail
    else
      var v := ReadValue(key.rest);
      if v.Fail? then Fail
      else
        var after := v.rest[..BlankRun(v.rest)];
        var t := Skip(v.rest);
        if t != [] && t[0] == CLOSE_BRACE then Got(Entries(key.value, v.value, after, None), t[1..])
        else if t != [] && t[0] == COMMA then
          var more := ReadEntries(t[1..]);
          if more.Fail? then Fail else Got(Entries(key.value, v.value, after, Some(more.value)), more.rest)
        else Fail
  }

  /** The whole text: blanks, a value, blanks, and nothing more. */
  function ReadText(s: Text): Option<Value> {
    var v := ReadValue(Skip(s));
    if v.Got? && Skip(v.rest) == [] then Some(v.value) else None
  }

  // ---- soundness: what is read is a derivation of what was read ----

  lemma SkipSplits(s: Text)
    ensures s == s[..BlankRun(s)] + Skip(s) && Blanks(s[..BlankRun(s)])
  {
    hide BlankRun;
  }

  lemma HeadSplits(s: Text)
    requires s != []
    ensures s == [s[0]] + s[1..]
  {}

  lemma {:induction false} ReadValueSpells(s: Text)
    requires ReadValue(s).Got?
    ensures var r := ReadValue(s); r.value.WellFormed() && s == r.value.Then(r.rest)
    decreases |s|, 1
  {
    hide ReadNumber, ReadString, ReadElements, ReadEntries, BlankRun, Skip, Blanks, ReadWord, CharsThen, CharsOk;
    HeadSplits(s);
    if s[0] == OPEN_BRACE {
      var t := Skip(s[1..]);
      if t != [] && t[0] == CLOSE_BRACE {
        EmptySpells(s, t);
      } else {
        ReadEntriesSpell(s[1..]);
      }
    } else if s[0] == OPEN_BRACKET {
      var t := Skip(s[1..]);
      if t != [] && t[0] == CLOSE_BRACKET {
        EmptySpells(s, t);
      } else {
        ReadElementsSpell(s[1..]);
      }
    } else if s[0] == MINUS || Digit(s[0]) {
      ReadNumberSpells(s);
    } else if s[0] != QUOTE {
      WordSpells(s);
      WordValues(s);
    }
  }

  /** An opening bracket, blanks, and a closing bracket. */
  lemma EmptySpells(s: Text, t: Text)
    requires s != [] && t == Skip(s[1..]) && t != []
    ensures var w := s[1..][..BlankRun(s[1..])]; Blanks(w) && s == [s[0]] + (w + ([t[0]] + t[1..]))
  {
    hide BlankRun, Blanks, Skip;
    HeadSplits(s);
    SkipSplits(s[1..]);
    HeadSplits(t);
  }

  lemma WordSpells(s: Text)
    ensures ReadWord(s, TRUE, VTrue).Got? ==> s == TRUE + ReadWord(s, TRUE, VTrue).rest
    ensures ReadWord(s, FALSE, VFalse).Got? ==> s == FALSE + ReadWord(s, FALSE, VFalse).rest
    ensures ReadWord(s, NULL, VNull).Got? ==> s == NULL + ReadWord(s, NULL, VNull).rest
  {}

  lemma WordValues(s: Text)
    ensures ReadWord(s, TRUE, VTrue).Got? ==> ReadWord(s, TRUE, VTrue).value == VTrue
    ensures ReadWord(s, FALSE, VFalse).Got? ==> ReadWord(s, FALSE, VFalse).value == VFalse
    ensures ReadWord(s, NULL, VNull).Got? ==> ReadWord(s, NULL, VNull).value == VNull
  {}

  lemma {:induction false} ReadElementsSpell(s: Text)
    requires ReadElements(s).Got?
    ensures var r := ReadElements(s); r.value.WellFormed() && s == r.value.Then(r.rest)
    decreases |s|, 2
  {
    hide ReadValue, BlankRun, Skip;
    SkipSplits(s);
    var v := ReadValue(Skip(s));
    ReadValueSpells(Skip(s));
    SkipSplits(v.rest);
    var t := Skip(v.rest);
    HeadSplits(t);
    if t[0] != CLOSE_BRACKET {
      ReadElementsSpell(t[1..]);
    }
  }

  lemma ReadKeySpells(s: Text)
    requires ReadKey(s).Got?
    ensures var r := ReadKey(s); r.value.WellFormed() && s == r.value.Then(r.rest)
  {
    hide ReadString, BlankRun, Skip, CharsThen, CharsOk, Blanks;
    SkipSplits(s);
    var name := ReadString(Skip(s));
    SkipSplits(name.rest);
    var colon := Skip(name.rest);
    HeadSplits(colon);
    SkipSplits(colon[1..]);
  }

  lemma {:induction false} ReadEntriesSpell(s: Text)
    requires ReadEntries(s).Got?
    ensures var r := ReadEntries(s); r.value.WellFormed() && s == r.value.Then(r.rest)
    decreases |s|, 2
  {
    hide ReadValue, ReadKey, BlankRun, Skip, Key.Then;
    var key := ReadKey(s);
    ReadKeySpells(s);
    var v := ReadValue(key.rest);
    ReadValueSpells(key.rest);
    SkipSplits(v.rest);
    var t := Skip(v.rest);
    HeadSplits(t);
    if t[0] != CLOSE_BRACE {
      ReadEntriesSpell(t[1..]);
    }
  }

  // ---- completeness: every derivation is what is read ----

  lemma SkipIs(w: Text, rest: Text)
    requires Blanks(w) && NotBlankFirst(rest)
    ensures Skip(w + rest) == rest && (w + rest)[..BlankRun(w + rest)] == w
  {
    BlankRunIs(w, rest);
  }

  lemma TailIs(u: Unit, rest: Text)
    ensures ([u] + rest)[0] == u && ([u] + rest)[1..] == rest
  {}

  /** A value's text begins with a character that is no blank and no closing bracket. */
  lemma ValueStarts(v: Value, rest: Text)
    requires v.WellFormed()
    ensures var s := v.Then(rest); s != [] && !Blank(s[0]) && s[0] != CLOSE_BRACKET && s[0] != CLOSE_BRACE
  {
    if v.VNumber? {
      NumberStarts(v.number, rest);
    }
  }

  lemma NumberStarts(n: Number, rest: Text)
    requires n.WellFormed()
    ensures var s := n.Text() + rest; s != [] && (s[0] == MINUS || Digit(s[0]))
  {
    NumberThen(n, rest);
    assert (n.Text() + rest)[0] == if n.minus then MINUS else n.integer[0];
  }

  lemma {:induction false} ReadValueIs(v: Value, rest: Text)
    requires v.WellFormed() && Ended(rest)
    ensures ReadValue(v.Then(rest)) == Got(v, rest)
    decreases v, 1
  {
    hide ReadNumber, ReadString, ReadElements, ReadEntries, BlankRun, Skip, Blanks, CharsOk, CharsThen, Elements.Then;
    hide Entries.Then;
    var s := v.Then(rest);
    match v
    case VNull => assert s[4..] == rest;
    case VTrue => assert s[4..] == rest;
    case VFalse => assert s[5..] == rest;
    case VString(cs) => ReadStringIs(cs, rest);
    case VNumber(n) =>
      ReadNumberIs(n, rest);
      NumberStarts(n, rest);
    case VEmptyArray(w) =>
      TailIs(OPEN_BRACKET, w + ([CLOSE_BRACKET] + rest));
      SkipIs(w, [CLOSE_BRACKET] + rest);
      TailIs(CLOSE_BRACKET, rest);
    case VEmptyObject(w) =>
      TailIs(OPEN_BRACE, w + ([CLOSE_BRACE] + rest));
      SkipIs(w, [CLOSE_BRACE] + rest);
      TailIs(CLOSE_BRACE, rest);
    case VArray(e) =>
      TailIs(OPEN_BRACKET, e.Then(rest));
      ElementsStart(e, rest);
      ReadElementsIs(e, rest);
    case VObject(e) =>
      TailIs(OPEN_BRACE, e.Then(rest));
      EntriesStart(e, rest);
      ReadEntriesIs(e, rest);
  }

  ghost function ElementsTail(e: Elements, rest: Text): Text {
    if e.more.Some? then [COMMA] + e.more.value.Then(rest) else [CLOSE_BRACKET] + rest
  }

  ghost function EntriesTail(e: Entries, rest: Text): Text {
    if e.more.Some? then [COMMA] + e.more.value.Then(rest) else [CLOSE_BRACE] + rest
  }

  lemma ElementsStart(e: Elements, rest: Text)
    requires e.WellFormed()
    ensures var t := Skip(e.Then(rest)); t != [] && t[0] != CLOSE_BRACKET
  {
    hide Skip, BlankRun, Value.Then, Value.WellFormed;
    var tail := e.after + ElementsTail(e, rest);
    ValueStarts(e.value, tail);
    SkipIs(e.before, e.value.Then(tail));
  }

  lemma EntriesStart(e: Entries, rest: Text)
    requires e.WellFormed()
    ensures var t := Skip(e.Then(rest)); t != [] && t[0] == QUOTE
  {
    hide Skip, BlankRun, CharsThen, CharsOk, Value.Then, Value.WellFormed;
    var k := e.key;
    var quoted :=
      [QUOTE] + CharsThen(k.name, k.gap + ([COLON] + (k.lead + e.value.Then(e.after + EntriesTail(e, rest)))));
    SkipIs(k.before, quoted);
  }

  lemma {:induction false} ReadElementsIs(e: Elements, rest: Text)
    requires e.WellFormed()
    ensures ReadElements(e.Then(rest)) == Got(e, rest)
    decreases e, 0
  {
    hide ReadValue, BlankRun, Skip, Value.Then, Value.WellFormed, Blanks;
    var t := ElementsTail(e, rest);
    ValueStarts(e.value, e.after + t);
    EndedAfter(e.after, t);
    ReadValueIs(e.value, e.after + t);
    SkipIs(e.before, e.value.Then(e.after + t));
    SkipIs(e.after, t);
    if e.more.Some? {
      TailIs(COMMA, e.more.value.Then(rest));
      ReadElementsIs(e.more.value, rest);
    } else {
      TailIs(CLOSE_BRACKET, rest);
    }
  }

  /** Blanks and a structural character end a number. */
  lemma EndedAfter(w: Text, t: Text)
    requires Blanks(w) && Ended(t)
    ensures Ended(w + t)
  {}

  lemma ReadKeyIs(k: Key, rest: Text)
    requires k.WellFormed() && NotBlankFirst(rest)
    ensures ReadKey(k.Then(rest)) == Got(k, rest)
  {
    hide ReadString, BlankRun, Skip, CharsThen, CharsOk, Blanks;
    var colon := [COLON] + (k.lead + rest);
    SkipIs(k.lead, rest);
    SkipIs(k.gap, colon);
    ReadStringIs(k.name, k.gap + colon);
    SkipIs(k.before, [QUOTE] + CharsThen(k.name, k.gap + colon));
    TailIs(COLON, k.lead + rest);
  }

  lemma {:induction false} ReadEntriesIs(e: Entries, rest: Text)
    requires e.WellFormed()
    ensures ReadEntries(e.Then(rest)) == Got(e, rest)
    decreases e, 0
  {
    hide ReadValue, ReadKey, BlankRun, Skip, Value.Then, Value.WellFormed, Key.Then, Key.WellFormed, Blanks;
    var t := EntriesTail(e, rest);
    ValueStarts(e.value, e.after + t);
    EndedAfter(e.after, t);
    ReadValueIs(e.value, e.after + t);
    ReadKeyIs(e.key, e.value.Then(e.after + t));
    SkipIs(e.after, t);
    if e.more.Some? {
      TailIs(COMMA, e.more.value.Then(rest));
      ReadEntriesIs(e.more.value, rest);
    } else {
      TailIs(CLOSE_BRACE, rest);
    }
  }

  /** The reader accepts exactly the derivable texts, and reads the tree that was written. */
  lemma ReadTextIsGrammar(text: Text, node: Node)
    ensures JsonText(text, node) <==> ReadsTo(text, node)
  {
    if before, value, after :| Derives(text, node, before, value, after) {
      DerivedIsRead(text, node, before, value, after);
    }
    if ReadsTo(text, node) {
      ReadIsDerived(text, node);
    }
  }

  ghost predicate ReadsTo(text: Text, node: Node) {
    var r := ReadText(text);
    r.Some? && r.value.WellFormed() && r.value.Node() == node
  }

  lemma DerivedIsRead(text: Text, node: Node, before: Text, value: Value, after: Text)
    requires Derives(text, node, before, value, after)
    ensures ReadsTo(text, node)
  {
    hide ReadValue, Skip, BlankRun, Value.Then, Blanks;
    ValueStarts(value, after);
    SkipIs(before, value.Then(after));
    EndedAfter(after, []);
    assert after + [] == after;
    ReadValueIs(value, after);
    SkipIs(after, []);
  }

  lemma ReadIsDerived(text: Text, node: Node)
    requires ReadsTo(text, node)
    ensures JsonText(text, node)
  {
    hide ReadValue, Skip, BlankRun, Value.Then, Blanks, Value.WellFormed;
    var v := ReadValue(Skip(text));
    ReadValueSpells(Skip(text));
    SkipSplits(text);
    SkipSplits(v.rest);
    assert v.rest == v.rest[..BlankRun(v.rest)];
    assert Derives(text, node, text[..BlankRun(text)], v.value, v.rest);
  }
}
