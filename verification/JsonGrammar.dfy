/** The JSON grammar of RFC 8259, sections 2 to 7, as concrete syntax trees over UTF-16 code
    units, and the node each tree stands for.  Whitespace is written around the structural
    characters, so every text has one place for each blank. */
module JsonGrammar {
  import opened Wrappers

  type Unit = u: int | 0 <= u < 0x10000
  type Text = seq<Unit>

  // ---- the characters as the parser names them ----

  const QUOTE: Unit := 0x22
  const PLUS: Unit := 0x2B
  const COMMA: Unit := 0x2C
  const MINUS: Unit := 0x2D
  const DOT: Unit := 0x2E
  const SLASH: Unit := 0x2F
  const COLON: Unit := 0x3A
  const OPEN_BRACKET: Unit := 0x5B
  const BACKSLASH: Unit := 0x5C
  const CLOSE_BRACKET: Unit := 0x5D
  const LETTER_U: Unit := 0x75
  const OPEN_BRACE: Unit := 0x7B
  const CLOSE_BRACE: Unit := 0x7D
  const TRUE: Text := [0x74, 0x72, 0x75, 0x65]
  const FALSE: Text := [0x66, 0x61, 0x6C, 0x73, 0x65]
  const NULL: Text := [0x6E, 0x75, 0x6C, 0x6C]

  predicate Blank(u: Unit) { u == 0x20 || u == 0x09 || u == 0x0D || u == 0x0A }
  predicate Digit(u: Unit) { 0x30 <= u <= 0x39 }
  predicate NonZero(u: Unit) { 0x31 <= u <= 0x39 }
  predicate Exponent(u: Unit) { u == 0x65 || u == 0x45 }
  predicate Sign(u: Unit) { u == PLUS || u == MINUS }
  predicate Hex(u: Unit) { Digit(u) || 0x41 <= u <= 0x46 || 0x61 <= u <= 0x66 }

  // ---- the grammar, in code units ----

  /** ws = *( space / tab / line feed / carriage return ) */
  predicate Blanks(t: Text) {
    forall i :: 0 <= i < |t| ==> t[i] == 0x20 || t[i] == 0x09 || t[i] == 0x0A || t[i] == 0x0D
  }

  predicate Digits(t: Text) { forall i :: 0 <= i < |t| ==> 0x30 <= t[i] <= 0x39 }

  // ---- nodes ----

  datatype Node =
    | Null | Bool(b: bool) | Str(s: Text) | Num(raw: Text)
    | Arr(items: seq<Node>) | Obj(members: seq<(Text, Node)>)

  // ---- strings ----

  /** char = unescaped / escape letter / escape "u" 4HEXDIG */
  datatype Char = Raw(u: Unit) | Short(letter: Unit) | Long(a: Unit, b: Unit, c: Unit, d: Unit) {
    predicate WellFormed() {
      match this
      case Raw(u) => u >= 0x20 && u != 0x22 && u != 0x5C
      case Short(l) =>
        l == 0x22 || l == 0x5C || l == 0x2F || l == 0x62 || l == 0x66 || l == 0x6E || l == 0x72 || l == 0x74
      case Long(a, b, c, d) => HexDig(a) && HexDig(b) && HexDig(c) && HexDig(d)
    }
    function Text(): Text {
      match this
      case Raw(u) => [u]
      case Short(l) => [0x5C, l]
      case Long(a, b, c, d) => [0x5C, 0x75, a, b, c, d]
    }
    function Decoded(): Unit
      requires WellFormed()
    {
      match this
      case Raw(u) => u
      case Short(0x62) => 0x08
      case Short(0x66) => 0x0C
      case Short(0x6E) => 0x0A
      case Short(0x72) => 0x0D
      case Short(0x74) => 0x09
      case Short(l) => l
      case Long(a, b, c, d) => 0x1000 * HexValue(a) + 0x100 * HexValue(b) + 0x10 * HexValue(c) + HexValue(d)
    }
  }

  /** HEXDIG, in either case. */
  predicate HexDig(u: Unit) { 0x30 <= u <= 0x39 || 0x41 <= u <= 0x46 || 0x61 <= u <= 0x66 }

  function HexValue(u: Unit): (v: int)
    requires HexDig(u)
    ensures 0 <= v < 16
  {
    if u <= 0x39 then u - 0x30 else if u <= 0x46 then u - 0x37 else u - 0x57
  }

  /** As the parser asks for it. */
  predicate EscapeLetter(l: Unit) {
    l == QUOTE || l == BACKSLASH || l == SLASH || l == 0x62 || l == 0x66 || l == 0x6E || l == 0x72 || l == 0x74
  }

  predicate CharsOk(cs: seq<Char>) { forall i :: 0 <= i < |cs| ==> cs[i].WellFormed() }

  /** The characters, the closing quote, and then `rest`. */
  function CharsThen(cs: seq<Char>, rest: Text): Text {
    if cs == [] then [0x22] + rest else cs[0].Text() + CharsThen(cs[1..], rest)
  }

  function Decode(cs: seq<Char>): (t: Text)
    requires CharsOk(cs)
    ensures |t| == |cs| && forall i :: 0 <= i < |cs| ==> t[i] == cs[i].Decoded()
  {
    seq(|cs|, i requires 0 <= i < |cs| => cs[i].Decoded())
  }

  // ---- numbers ----

  /** number = [ minus ] int [ frac ] [ exp ] */
  datatype Number = Number(minus: bool, integer: Text, frac: Option<Text>, exp: Option<Exp>) {
    predicate WellFormed() {
      && integer != [] && Digits(integer) && (integer == [0x30] || 0x31 <= integer[0] <= 0x39)
      && (frac.Some? ==> frac.value != [] && Digits(frac.value))
      && (exp.Some? ==> exp.value.WellFormed())
    }
    function Text(): Text {
      MinusText(minus) + (integer + (FracText(frac) + ExpText(exp)))
    }
  }

  function MinusText(minus: bool): Text { if minus then [0x2D] else [] }
  function FracText(frac: Option<Text>): Text { if frac.Some? then [0x2E] + frac.value else [] }
  function ExpText(exp: Option<Exp>): Text { if exp.Some? then exp.value.Text() else [] }

  datatype Exp = Exp(letter: Unit, sign: Option<Unit>, digits: Text) {
    predicate WellFormed() {
      && (letter == 0x65 || letter == 0x45) && (sign.Some? ==> sign.value == 0x2B || sign.value == 0x2D)
      && digits != [] && Digits(digits)
    }
    function Text(): Text {
      [letter] + (SignText(sign) + digits)
    }
  }

  function SignText(sign: Option<Unit>): Text { if sign.Some? then [sign.value] else [] }

  // ---- values ----

  datatype Value =
    | VNull | VTrue | VFalse
    | VString(chars: seq<Char>)
    | VNumber(number: Number)
    | VEmptyArray(blanks: Text) | VArray(elements: Elements)
    | VEmptyObject(blanks: Text) | VObject(entries: Entries)
  {
    predicate WellFormed() {
      match this
      case VString(cs) => CharsOk(cs)
      case VNumber(n) => n.WellFormed()
      case VEmptyArray(w) => Blanks(w)
      case VEmptyObject(w) => Blanks(w)
      case VArray(e) => e.WellFormed()
      case VObject(e) => e.WellFormed()
      case _ => true
    }
    /** This value's text, and then `rest`. */
    function Then(rest: Text): Text {
      match this
      case VNull => [0x6E, 0x75, 0x6C, 0x6C] + rest
      case VTrue => [0x74, 0x72, 0x75, 0x65] + rest
      case VFalse => [0x66, 0x61, 0x6C, 0x73, 0x65] + rest
      case VString(cs) => [0x22] + CharsThen(cs, rest)
      case VNumber(n) => n.Text() + rest
      case VEmptyArray(w) => [0x5B] + (w + ([0x5D] + rest))
      case VEmptyObject(w) => [0x7B] + (w + ([0x7D] + rest))
      case VArray(e) => [0x5B] + e.Then(rest)
      case VObject(e) => [0x7B] + e.Then(rest)
    }
    function Node(): Node
      requires WellFormed()
    {
      match this
      case VNull => Null
      case VTrue => Bool(true)
      case VFalse => Bool(false)
      case VString(cs) => Str(Decode(cs))
      case VNumber(n) => Num(n.Text())
      case VEmptyArray(_) => Arr([])
      case VEmptyObject(_) => Obj([])
      case VArray(e) => Arr(e.Nodes())
      case VObject(e) => Obj(e.Members())
    }
  }

  /** ws value ws ( "]" / "," elements ) */
  datatype Elements = Elements(before: Text, value: Value, after: Text, more: Option<Elements>) {
    predicate WellFormed() {
      Blanks(before) && value.WellFormed() && Blanks(after) && (more.Some? ==> more.value.WellFormed())
    }
    function Then(rest: Text): Text {
      before + value.Then(after + (if more.Some? then [0x2C] + more.value.Then(rest) else [0x5D] + rest))
    }
    function Nodes(): seq<Node>
      requires WellFormed()
    {
      [value.Node()] + if more.Some? then more.value.Nodes() else []
    }
  }

  /** ws string ws ":" ws */
  datatype Key = Key(before: Text, name: seq<Char>, gap: Text, lead: Text) {
    predicate WellFormed() { Blanks(before) && CharsOk(name) && Blanks(gap) && Blanks(lead) }
    function Then(rest: Text): Text {
      before + ([0x22] + CharsThen(name, gap + ([0x3A] + (lead + rest))))
    }
  }

  /** key value ws ( "}" / "," entries ) */
  datatype Entries = Entries(key: Key, value: Value, after: Text, more: Option<Entries>) {
    predicate WellFormed() {
      key.WellFormed() && value.WellFormed() && Blanks(after) && (more.Some? ==> more.value.WellFormed())
    }
    function Then(rest: Text): Text {
      key.Then(value.Then(after + (if more.Some? then [0x2C] + more.value.Then(rest) else [0x7D] + rest)))
    }
    function Members(): seq<(Text, Node)>
      requires WellFormed()
    {
      [(Decode(key.name), value.Node())] + if more.Some? then more.value.Members() else []
    }
  }

  /** JSON-text = ws value ws, standing for `node`. */
  ghost predicate JsonText(text: Text, node: Node) {
    exists before, value, after :: Derives(text, node, before, value, after)
  }

  ghost predicate Derives(text: Text, node: Node, before: Text, value: Value, after: Text) {
    && Blanks(before) && value.WellFormed() && Blanks(after)
    && text == before + value.Then(after) && value.Node() == node
  }
}
