/** Printing and parsing: every node with legal number lexemes is printed by some text, blanks
    where the grammar allows them, and a printed text parses to the node that was printed. */
module JsonRoundTrip {
  import opened JsonGrammar
  import opened JsonSpec
  import opened Wrappers

  ghost predicate Lexeme(raw: Text, n: Number) { n.WellFormed() && n.Text() == raw }

  /** Every number in the tree is spelled as a number. */
  ghost predicate Legal(node: Node) {
    match node
    case Num(raw) => exists n :: Lexeme(raw, n)
    case Arr(items) => forall i :: 0 <= i < |items| ==> Legal(items[i])
    case Obj(members) => forall i :: 0 <= i < |members| ==> Legal(members[i].1)
    case _ => true
  }

  // ---- a printer ----

  function HexDigit(v: int): (u: Unit)
    requires 0 <= v < 16
    ensures HexDig(u) && HexValue(u) == v
  {
    if v < 10 then 0x30 + v else 0x61 + v - 10
  }

  function Escaped(u: Unit): (c: Char)
    ensures c.WellFormed() && c.Decoded() == u
  {
    if u < 0x20 || u == QUOTE || u == BACKSLASH then
      Long(HexDigit(u / 0x1000), HexDigit(u / 0x100 % 0x10), HexDigit(u / 0x10 % 0x10), HexDigit(u % 0x10))
    else Raw(u)
  }

  function Quoted(t: Text): (cs: seq<Char>)
    ensures CharsOk(cs) && Decode(cs) == t
  {
    var cs := seq(|t|, i requires 0 <= i < |t| => Escaped(t[i]));
    assert CharsOk(cs);
    assert forall i :: 0 <= i < |t| ==> Decode(cs)[i] == t[i];
    cs
  }

  /** The tree that prints `node` with `w` at every place for blanks. */
  ghost function Printed(node: Node, w: Text): Value
    requires Legal(node)
    decreases node, 0
  {
    match node
    case Null => VNull
    case Bool(b) => if b then VTrue else VFalse
    case Str(s) => VString(Quoted(s))
    case Num(raw) => var n :| Lexeme(raw, n); VNumber(n)
    case Arr(items) => if items == [] then VEmptyArray(w) else VArray(PrintedItems(items, w))
    case Obj(members) => if members == [] then VEmptyObject(w) else VObject(PrintedMembers(members, w))
  }

  ghost function PrintedItems(items: seq<Node>, w: Text): Elements
    requires items != [] && forall i :: 0 <= i < |items| ==> Legal(items[i])
    decreases items
  {
    Elements(w, Printed(items[0], w), w, if |items| == 1 then None else Some(PrintedItems(items[1..], w)))
  }

  ghost function PrintedMembers(members: seq<(Text, Node)>, w: Text): Entries
    requires members != [] && forall i :: 0 <= i < |members| ==> Legal(members[i].1)
    decreases members
  {
    var key := Key(w, Quoted(members[0].0), w, w);
    var more := if |members| == 1 then None else Some(PrintedMembers(members[1..], w));
    Entries(key, PrintedMember(members[0], w), w, more)
  }

  ghost function PrintedMember(member: (Text, Node), w: Text): Value
    requires Legal(member.1)
    decreases member
  {
    Printed(member.1, w)
  }

  lemma {:induction false} PrintedStandsFor(node: Node, w: Text)
    requires Legal(node) && Blanks(w)
    ensures Printed(node, w).WellFormed() && Printed(node, w).Node() == node
    decreases node, 0
  {
    match node
    case Arr(items) => if items != [] { PrintedItemsStandFor(items, w); }
    case Obj(members) => if members != [] { PrintedMembersStandFor(members, w); }
    case _ =>
  }

  lemma {:induction false} PrintedItemsStandFor(items: seq<Node>, w: Text)
    requires items != [] && (forall i :: 0 <= i < |items| ==> Legal(items[i])) && Blanks(w)
    ensures PrintedItems(items, w).WellFormed() && PrintedItems(items, w).Nodes() == items
    decreases items
  {
    PrintedStandsFor(items[0], w);
    assert items == [items[0]] + items[1..];
    if |items| > 1 {
      PrintedItemsStandFor(items[1..], w);
    }
  }

  lemma {:induction false} PrintedMembersStandFor(members: seq<(Text, Node)>, w: Text)
    requires members != [] && (forall i :: 0 <= i < |members| ==> Legal(members[i].1)) && Blanks(w)
    ensures PrintedMembers(members, w).WellFormed() && PrintedMembers(members, w).Members() == members
    decreases members
  {
    PrintedMemberStandsFor(members[0], w);
    assert members == [members[0]] + members[1..];
    if |members| > 1 {
      PrintedMembersStandFor(members[1..], w);
    }
  }

  lemma {:induction false} PrintedMemberStandsFor(member: (Text, Node), w: Text)
    requires Legal(member.1) && Blanks(w)
    ensures PrintedMember(member, w).WellFormed() && PrintedMember(member, w).Node() == member.1
    decreases member
  {
    PrintedStandsFor(member.1, w);
  }

  // ---- the round trip ----

  lemma {:induction false} ValueIsLegal(v: Value)
    requires v.WellFormed()
    ensures Legal(v.Node())
    decreases v
  {
    match v
    case VNumber(n) => assert Lexeme(n.Text(), n);
    case VArray(e) => ElementsAreLegal(e);
    case VObject(e) => EntriesAreLegal(e);
    case _ =>
  }

  lemma {:induction false} ElementsAreLegal(e: Elements)
    requires e.WellFormed()
    ensures forall i :: 0 <= i < |e.Nodes()| ==> Legal(e.Nodes()[i])
    decreases e
  {
    ValueIsLegal(e.value);
    if e.more.Some? {
      ElementsAreLegal(e.more.value);
      assert forall i :: 0 < i < |e.Nodes()| ==> e.Nodes()[i] == e.more.value.Nodes()[i - 1];
    }
  }

  lemma {:induction false} EntriesAreLegal(e: Entries)
    requires e.WellFormed()
    ensures forall i :: 0 <= i < |e.Members()| ==> Legal(e.Members()[i].1)
    decreases e
  {
    ValueIsLegal(e.value);
    if e.more.Some? {
      EntriesAreLegal(e.more.value);
      assert forall i :: 0 < i < |e.Members()| ==> e.Members()[i] == e.more.value.Members()[i - 1];
    }
  }

  /** A text written from a tree, with whatever blanks, stands for that tree's node and for no other. */
  lemma WrittenTextHasOneNode(before: Text, v: Value, after: Text, node: Node)
    requires Blanks(before) && v.WellFormed() && Blanks(after)
    ensures JsonText(before + v.Then(after), node) <==> node == v.Node()
  {
    hide Value.WellFormed, Value.Then, Value.Node, ReadText;
    var text := before + v.Then(after);
    assert Derives(text, v.Node(), before, v, after);
    ReadTextIsGrammar(text, v.Node());
    ReadTextIsGrammar(text, node);
  }

  /** The nodes that some text stands for are exactly those with legal number lexemes. */
  lemma LegalNodesArePrintable(node: Node)
    ensures Legal(node) <==> exists text :: JsonText(text, node)
  {
    hide Value.WellFormed, Value.Then, Value.Node;
    if Legal(node) {
      PrintedStandsFor(node, []);
      var v := Printed(node, []);
      assert Derives([] + v.Then([]), node, [], v, []);
      assert JsonText([] + v.Then([]), node);
    }
    if text :| JsonText(text, node) {
      var before, value, after :| Derives(text, node, before, value, after);
      ValueIsLegal(value);
    }
  }
}
