/** Which refusal comes first, node by node: for a node whose disorder stands in objects and whose numbers
    are finite, dropping the duplicates keeps every outcome under every schema exactly when the node is
    in order. */
module OrderExactly {
  import opened JsonGrammar
  import opened Schemas
  import opened SchemaWords
  import opened Decoder
  import opened DecoderLoops
  import opened Duplicates
  import opened LastMemberWins
  import opened KeepLastWins
  import opened RefusalOrder
  import opened NeverStuck
  import opened Wrappers

  /** Every number that is kept has a finite value. */
  ghost predicate Finite(env: Env, node: Node)
    decreases node
  {
    match node
    case Num(raw) => env.number(raw).Some?
    case Arr(items) => forall i :: 0 <= i < |items| ==> Finite(env, items[i])
    case Obj(ms) => var k := Kept(ms); forall i :: 0 <= i < |k| ==> Finite(env, ms[k[i]].1)
    case _ => true
  }

  /** What stands in an array is in order. */
  ghost predicate ArraysInOrder(node: Node)
    decreases node
  {
    match node
    case Arr(items) => InOrder(node)
    case Obj(ms) => var k := Kept(ms); forall i :: 0 <= i < |k| ==> ArraysInOrder(ms[k[i]].1)
    case _ => true
  }

  /** Under every schema, at every depth, the same data or the same refusal at the same place. */
  ghost predicate SameOutcomes(env: Env, node: Node) {
    forall p, v, path, depth: nat ::
      Decoded(p, env, v, KeepLast(node), path, depth) == Decoded(p, env, v, node, path, depth)
  }

  lemma {:induction false} LastFinite(env: Env, node: Node)
    requires Finite(env, node)
    ensures Finite(env, KeepLast(node))
    decreases node
  {
    hide Kept, Survivors;
    match node
    case Arr(items) =>
      forall i | 0 <= i < |items| ensures Finite(env, KeepLast(items[i])) {
        LastFinite(env, items[i]);
      }
    case Obj(ms) =>
      LastChosen(ms);
      var k, s, after := Kept(ms), Survivors(ms), LastMembersOf(ms);
      SurvivorsSelect(ms);
      KeptSelects(ms);
      forall i | 0 <= i < |s| ensures Finite(env, after[i].1) {
        var j := Counterpart(ms, s, k, i);
        LastFinite(env, ms[k[j]].1);
      }
    case _ =>
  }

  // ---- a schema for a way into the node ----

  ghost function Ident(letter: char, i: nat): (id: Id)
    ensures |id| == i + 1 && id[0] == letter
  {
    [letter] + seq(i, j => 'x')
  }

  ghost function Level(i: nat): Id { Ident('l', i) }
  ghost function Properties(i: nat): Id { Ident('p', i) }

  const EVERY_KIND: seq<Kind> := [NullKind, BooleanKind, StringKind, NumberKind, ArrayKind, ObjectKind]

  ghost function KindNames(kinds: seq<Kind>): (names: seq<Text>)
    ensures |names| == |kinds| && forall i :: 0 <= i < |kinds| ==> names[i] == Ascii(Named(kinds[i]))
  {
    seq(|kinds|, i requires 0 <= i < |kinds| => Ascii(Named(kinds[i])))
  }

  ghost function Strings(names: seq<Text>): (values: seq<SVal>)
    ensures |values| == |names| && forall i :: 0 <= i < |names| ==> values[i] == SStr(names[i])
  {
    seq(|names|, i requires 0 <= i < |names| => SStr(names[i]))
  }

  lemma {:induction false} StringsRead(names: seq<Text>)
    ensures StringKinds(Strings(names)) == names
    decreases |names|
  {
    if names != [] {
      StringsRead(names[1..]);
      assert Strings(names)[1..] == Strings(names[1..]);
    }
  }

  /** Accepts every node with finite numbers. */
  ghost function Anything(): Mapping {
    map[Spelled(TypeKey) := SList(Strings(KindNames(EVERY_KIND))), Spelled(ItemsKey) := SObj("any"),
        Spelled(AdditionalKey) := SObj("any")]
  }

  /** Refuses every node. */
  ghost function Nothing(): Mapping { map[Spelled(OneOfKey) := SList([])] }

  ghost function LevelMapping(i: nat): Mapping {
    map[Spelled(TypeKey) := SStr(Ascii(Named(ObjectKind))), Spelled(PropertiesKey) := SObj(Properties(i)),
        Spelled(AdditionalKey) := SObj("any")]
  }

  /** Along the way one member leads on; at its end both names are refused. */
  ghost function PropertiesMapping(way: seq<Text>, a: Text, b: Text, i: nat): Mapping
    requires i <= |way|
  {
    if i == |way| then map[a := SObj("never"), b := SObj("never")] else map[way[i] := SObj(Level(i + 1))]
  }

  ghost function StoreFrom(way: seq<Text>, a: Text, b: Text, i: nat): map<Id, Mapping>
    requires i <= |way|
    decreases |way| - i
  {
    var rest := if i == |way| then map["any" := Anything(), "never" := Nothing()] else StoreFrom(way, a, b, i + 1);
    rest[Level(i) := LevelMapping(i)][Properties(i) := PropertiesMapping(way, a, b, i)]
  }

  ghost function Probe(way: seq<Text>, a: Text, b: Text): Program { Program(StoreFrom(way, a, b, 0), map[]) }

  ghost predicate Holds(store: map<Id, Mapping>, id: Id, m: Mapping) { id in store && store[id] == m }

  lemma {:induction false} StoreHolds(way: seq<Text>, a: Text, b: Text, i: nat, j: nat)
    requires i <= j <= |way|
    ensures var store := StoreFrom(way, a, b, i);
      && Holds(store, "any", Anything()) && Holds(store, "never", Nothing())
      && Holds(store, Level(j), LevelMapping(j)) && Holds(store, Properties(j), PropertiesMapping(way, a, b, j))
    decreases |way| - i
  {
    hide Anything, Nothing, LevelMapping, PropertiesMapping, Ident;
    if i < |way| {
      StoreHolds(way, a, b, i + 1, if i < j then j else j + 1);
    }
  }

  lemma ProbeHolds(way: seq<Text>, a: Text, b: Text, i: nat)
    requires i <= |way|
    ensures var store := Probe(way, a, b).store;
      && Holds(store, "any", Anything()) && Holds(store, "never", Nothing())
      && Holds(store, Level(i), LevelMapping(i)) && Holds(store, Properties(i), PropertiesMapping(way, a, b, i))
  {
    StoreHolds(way, a, b, 0, i);
  }

  // ---- what the probe decodes ----

  lemma AnythingKeys()
    ensures Get(Anything(), TypeKey) == Some(SList(Strings(KindNames(EVERY_KIND))))
    ensures Get(Anything(), ItemsKey) == Some(SObj("any")) && Get(Anything(), AdditionalKey) == Some(SObj("any"))
    ensures forall k :: k !in {TypeKey, ItemsKey, AdditionalKey} ==> Get(Anything(), k) == None
    ensures Anything() != map[]
  {
    hide Spelled, Strings, KindNames;
    SpelledOnce();
    assert Spelled(TypeKey) in Anything();
  }

  lemma LevelKeys(i: nat)
    ensures Get(LevelMapping(i), TypeKey) == Some(SStr(Ascii(Named(ObjectKind))))
    ensures Get(LevelMapping(i), PropertiesKey) == Some(SObj(Properties(i)))
    ensures Get(LevelMapping(i), AdditionalKey) == Some(SObj("any"))
    ensures forall k :: k !in {TypeKey, PropertiesKey, AdditionalKey} ==> Get(LevelMapping(i), k) == None
  {
    hide Spelled, Ascii, Named;
    SpelledOnce();
  }

  lemma NothingKeys()
    ensures Get(Nothing(), OneOfKey) == Some(SList([])) && Get(Nothing(), RefKey) == None
  {
    hide Spelled;
    SpelledOnce();
  }

  lemma NothingRefuses(way: seq<Text>, a: Text, b: Text, env: Env, node: Node, path: Path, depth: nat)
    requires depth > 0
    ensures Decoded(Probe(way, a, b), env, SObj("never"), node, path, depth) == Refused(path, NotExactlyOne)
  {
    hide Get, Spelled, Nothing, StoreFrom, ReadByType;
    NothingKeys();
    ProbeHolds(way, a, b, 0);
    assert BranchOutcomes(Down(Probe(way, a, b), env, depth - 1), [], node, path) == [];
  }

  /** The first kind that does not refuse a node accepts it. */
  lemma {:induction false} OneAccepts(os: seq<Outcome>, path: Path, i: nat)
    requires i < |os| && os[i].Ok? && forall j :: 0 <= j < |os| ==> !os[j].Unfinished?
    ensures FirstNotRefused(os, path).Ok?
    decreases |os|
  {
    if os[0].Refused? {
      OneAccepts(os[1..], path, i - 1);
    }
  }

  lemma {:induction false} AllGather(os: seq<Outcome>)
    requires forall i :: 0 <= i < |os| ==> os[i].Ok?
    ensures Gather(os).All?
    decreases |os|
  {
    if os != [] {
      AllGather(os[1..]);
    }
  }

  ghost predicate AcceptsBelow(env: Env, rec: Rec, height: nat) {
    forall n, q :: Height(n) < height && Finite(env, n) ==> rec(SObj("any"), n, q).Ok?
  }

  lemma AnyArray(env: Env, rec: Rec, items: seq<Node>, path: Path)
    requires Finite(env, Arr(items)) && AcceptsBelow(env, rec, Height(Arr(items)))
    ensures ReadArray(rec, Anything(), Arr(items), path).Ok?
  {
    hide Get, Gather, Anything;
    AnythingKeys();
    var os := ItemOutcomes(rec, SObj("any"), items, path);
    forall i | 0 <= i < |os| ensures os[i].Ok? {
      ItemLower(items, i);
    }
    AllGather(os);
  }

  lemma AnyObject(p: Program, env: Env, rec: Rec, ms: Members, path: Path)
    requires Holds(p.store, "any", Anything())
    requires Finite(env, Obj(ms)) && AcceptsBelow(env, rec, Height(Obj(ms)))
    ensures ReadObject(p, env, rec, Anything(), Obj(ms), path).Ok?
  {
    hide Get, Gather, Anything, Kept, Record, Height;
    AnythingKeys();
    var k := Kept(ms);
    var os := FieldOutcomes(p, env, rec, Anything(), map[], ms, k, path);
    forall i | 0 <= i < |os| ensures os[i].Ok? {
      MemberBelow(ms, k[i]);
      assert Finite(env, ms[k[i]].1);
    }
    AllGather(os);
  }

  lemma MemberBelow(ms: Members, i: nat)
    requires i < |ms|
    ensures Height(ms[i].1) < Height(Obj(ms))
  {
    MemberLower(ms, i);
  }

  /** The place of the kind that fits the node. */
  function Place(node: Node): (i: nat)
    ensures i < |EVERY_KIND|
  {
    match node
    case Null => 0
    case Bool(_) => 1
    case Str(_) => 2
    case Num(_) => 3
    case Arr(_) => 4
    case Obj(_) => 5
  }

  lemma AnyTyped(p: Program, env: Env, rec: Rec, node: Node, path: Path, i: nat)
    requires Holds(p.store, "any", Anything()) && i < |EVERY_KIND|
    requires Finite(env, node) && AcceptsBelow(env, rec, Height(node))
    ensures var o := ReadTyped(p, env, rec, Anything(), KindNames(EVERY_KIND)[i], node, path);
      !o.Unfinished? && (i == Place(node) ==> o.Ok?)
  {
    hide Get, Gather, Anything, Kept, KindOf, Ascii, Named, Height;
    AnythingKeys();
    NamedOnce(EVERY_KIND[i]);
    if node.Arr? {
      AnyArray(env, rec, node.items, path);
      hide ReadArray;
    }
    if node.Obj? {
      AnyObject(p, env, rec, node.members, path);
      hide ReadObject;
    }
  }

  lemma AnyMapping(p: Program, env: Env, rec: Rec, node: Node, path: Path)
    requires Holds(p.store, "any", Anything())
    requires Finite(env, node) && AcceptsBelow(env, rec, Height(node))
    ensures ReadMapping(p, env, rec, Anything(), node, path).Ok?
  {
    hide Get, Anything, ReadTyped, Finite, Height, AcceptsBelow, KindNames, FirstNotRefused;
    AnythingKeys();
    var names := KindNames(EVERY_KIND);
    StringsRead(names);
    var os := KindOutcomes(p, env, rec, Anything(), names, node, path);
    forall i | 0 <= i < |os| ensures !os[i].Unfinished? && (i == Place(node) ==> os[i].Ok?) {
      AnyTyped(p, env, rec, node, path, i);
    }
    OneAccepts(os, path, Place(node));
  }

  lemma {:induction false} AnyAccepts(way: seq<Text>, a: Text, b: Text, env: Env, node: Node, path: Path, depth: nat)
    requires Finite(env, node) && depth > Height(node)
    ensures Decoded(Probe(way, a, b), env, SObj("any"), node, path, depth).Ok?
    decreases depth
  {
    hide Anything, Nothing, StoreFrom, ReadMapping, Height, Finite;
    var p := Probe(way, a, b);
    var rec := Down(p, env, depth - 1);
    ProbeHolds(way, a, b, 0);
    forall n, q | Height(n) < Height(node) && Finite(env, n) ensures rec(SObj("any"), n, q).Ok? {
      AnyAccepts(way, a, b, env, n, q, depth - 1);
    }
    AnyMapping(p, env, rec, node, path);
  }

  ghost function FieldsAt(way: seq<Text>, a: Text, b: Text, env: Env, i: nat, ms: Members, path: Path, depth: nat):
      (os: seq<Outcome>)
    requires i <= |way|
    ensures |os| == |Kept(ms)|
  {
    var p := Probe(way, a, b);
    FieldOutcomes(
      p, env, Down(p, env, depth), LevelMapping(i), PropertiesMapping(way, a, b, i), ms, Kept(ms), path)
  }

  lemma LevelDecodes(way: seq<Text>, a: Text, b: Text, env: Env, i: nat, ms: Members, path: Path, depth: nat)
    requires i <= |way| && Gather(FieldsAt(way, a, b, env, i, ms, path, depth)).Stop?
    ensures Decoded(Probe(way, a, b), env, SObj(Level(i)), Obj(ms), path, depth + 1)
      == Gather(FieldsAt(way, a, b, env, i, ms, path, depth)).outcome
  {
    hide Get, KindOf, Ascii, Named, Kept, Gather, Record, ReadField, Down, LevelMapping, PropertiesMapping, StoreFrom;
    hide Ident;
    LevelKeys(i);
    ProbeHolds(way, a, b, i);
    NamedOnce(ObjectKind);
  }

  /** Which schema a member meets on its level. */
  ghost function Met(way: seq<Text>, a: Text, b: Text, i: nat, name: Text): Id
    requires i <= |way|
  {
    if i == |way| then (if name in {a, b} then "never" else "any")
    else if name == way[i] then Level(i + 1)
    else "any"
  }

  lemma FieldAt(way: seq<Text>, a: Text, b: Text, env: Env, i: nat, ms: Members, j: nat, path: Path, depth: nat)
    requires i <= |way| && j < |Kept(ms)|
    ensures var (name, node) := ms[Kept(ms)[j]];
      FieldsAt(way, a, b, env, i, ms, path, depth)[j]
        == Decoded(Probe(way, a, b), env, SObj(Met(way, a, b, i, name)), node, path + [Member(name)], depth)
  {
    hide Get, Kept, Untyped, Decoded, LevelMapping, StoreFrom, Ident, Anything;
    LevelKeys(i);
    ProbeHolds(way, a, b, i);
    AnythingKeys();
  }

  // ---- the way into a node ----

  /** The way leads, through kept members, to an object of whose members called `a` or `b` the first kept
      is called `c`. */
  ghost predicate Meets(node: Node, way: seq<Text>, a: Text, b: Text, c: Text)
    decreases way
  {
    node.Obj? && exists q :: MeetsAt(node.members, way, a, b, c, q)
  }

  ghost predicate MeetsAt(ms: Members, way: seq<Text>, a: Text, b: Text, c: Text, q: int)
    decreases way, 0
  {
    && 0 <= q < |Kept(ms)|
    && var (name, node) := ms[Kept(ms)[q]];
      if way == [] then c in {a, b} && name == c && forall r :: 0 <= r < q ==> ms[Kept(ms)[r]].0 !in {a, b}
      else name == way[0] && Meets(node, way[1..], a, b, c)
  }

  ghost function Places(way: seq<Text>): (path: Path)
    ensures |path| == |way|
  {
    seq(|way|, i requires 0 <= i < |way| => Member(way[i]))
  }

  /** On the level of its way, the node is refused at the member met. */
  lemma {:induction false} ProbeRefuses(way: seq<Text>, a: Text, b: Text, c: Text, env: Env, i: nat, node: Node,
      path: Path, depth: nat)
    requires i <= |way| && Meets(node, way[i..], a, b, c) && Finite(env, node) && depth > Height(node)
    ensures Decoded(Probe(way, a, b), env, SObj(Level(i)), node, path, depth)
      == Refused(path + Places(way[i..]) + [Member(c)], NotExactlyOne)
    decreases |way| - i
  {
    hide Kept, Decoded, FieldsAt, Gather, Height, Meets, Level;
    assert Meets(node, way[i..], a, b, c);
    var q := MeetsSome(node, way[i..], a, b, c);
    var ms := node.members;
    var k, os := Kept(ms), FieldsAt(way, a, b, env, i, ms, path, depth - 1);
    KeptSelects(ms);
    forall r | 0 <= r < q ensures os[r].Ok? {
      FieldAt(way, a, b, env, i, ms, r, path, depth - 1);
      MemberBelow(ms, k[r]);
      assert Finite(env, ms[k[r]].1);
      AnyAccepts(way, a, b, env, ms[k[r]].1, path + [Member(ms[k[r]].0)], depth - 1);
    }
    FieldAt(way, a, b, env, i, ms, q, path, depth - 1);
    MemberBelow(ms, k[q]);
    var (name, child) := ms[k[q]];
    if i == |way| {
      NothingRefuses(way, a, b, env, child, path + [Member(name)], depth - 1);
      assert path + Places(way[i..]) + [Member(c)] == path + [Member(name)];
    } else {
      assert way[i..][1..] == way[i + 1..];
      assert Finite(env, child);
      ProbeRefuses(way, a, b, c, env, i + 1, child, path + [Member(name)], depth - 1);
      assert path + Places(way[i..]) + [Member(c)] == path + [Member(name)] + Places(way[i + 1..]) + [Member(c)];
    }
    GatherStops(os, q);
    LevelDecodes(way, a, b, env, i, ms, path, depth - 1);
  }

  lemma MeetsSome(node: Node, way: seq<Text>, a: Text, b: Text, c: Text) returns (q: nat)
    requires Meets(node, way, a, b, c)
    ensures node.Obj? && MeetsAt(node.members, way, a, b, c, q)
  {
    q :| MeetsAt(node.members, way, a, b, c, q);
  }

  // ---- disorder is met ----

  /** Where a node is out of order, some way leads to two names that the map and the last members hold in
      different order. */
  lemma {:induction false} Disorder(node: Node) returns (way: seq<Text>, a: Text, b: Text)
    requires ArraysInOrder(node) && !InOrder(node)
    ensures a != b && Meets(node, way, a, b, a) && Meets(KeepLast(node), way, a, b, b)
    decreases node
  {
    hide Kept, Survivors, KeepLast;
    var ms := node.members;
    var k, s, after := Kept(ms), Survivors(ms), LastMembersOf(ms);
    LastChosen(ms);
    if k != s {
      way := [];
      a, b := TopDisorder(ms);
    } else {
      var q :| 0 <= q < |k| && !InOrder(ms[k[q]].1);
      var rest;
      rest, a, b := Disorder(ms[k[q]].1);
      way := [ms[k[q]].0] + rest;
      assert way[1..] == rest;
      assert MeetsAt(ms, way, a, b, a, q);
      assert MeetsAt(after, way, a, b, b, q);
    }
  }

  lemma TopDisorder(ms: Members) returns (a: Text, b: Text)
    requires Kept(ms) != Survivors(ms)
    ensures a != b && Meets(Obj(ms), [], a, b, a) && Meets(KeepLast(Obj(ms)), [], a, b, b)
  {
    hide Kept, Survivors, Selects, KeepLast;
    KeptSelects(ms);
    SurvivorsSelect(ms);
    LastChosen(ms);
    var k, s, after := Kept(ms), Survivors(ms), LastMembersOf(ms);
    assert k[..0] == s[..0];
    var at := FirstDifference(ms, k, s, 0);
    a, b := ms[k[at]].0, ms[s[at]].0;
    NamesBefore(ms, k, s, at);
    assert MeetsAt(ms, [], a, b, a, at);
    assert MeetsAt(after, [], a, b, b, at);
  }

  /** The condition is exact, node by node. */
  lemma SameOutcomesExactly(env: Env, node: Node)
    requires Finite(env, node) && ArraysInOrder(node)
    ensures SameOutcomes(env, node) <==> InOrder(node)
  {
    hide Decoded, KeepLast, InOrder, Finite, ArraysInOrder, Meets, Height, Probe;
    if InOrder(node) {
      InOrderSame(env, node);
    } else {
      var way, a, b := Disorder(node);
      LastFinite(env, node);
      var depth := Max(Height(node), Height(KeepLast(node))) + 1;
      assert way[0..] == way;
      ProbeRefuses(way, a, b, a, env, 0, node, [], depth);
      ProbeRefuses(way, a, b, b, env, 0, KeepLast(node), [], depth);
      var one, two := [] + Places(way) + [Member(a)], [] + Places(way) + [Member(b)];
      assert one[|way|] != two[|way|];
    }
  }
}
