/** When a node conforms to a schema, said without the decoder: exactly one branch, every required member,
    the last member of each name at its property or as an additional one, the bounds, const and enum.
    On closed schemas without cycles of references and branches there is exactly one such conformance,
    and decoding succeeds exactly on the nodes that conform. */
module Conformance {
  import opened Graphs
  import opened JsonGrammar
  import opened Schemas
  import opened SchemaWords
  import opened SchemaCheck
  import opened Lexemes
  import opened Decoder
  import opened DecoderLoops
  import opened Duplicates
  import opened NeverStuck
  import opened Wrappers

  /** Which nodes conform to which schemas. */
  type Accepts = (Id, Node) -> bool

  // ---- the rules ----

  /** What the schema says under a word. */
  ghost function Says(m: Mapping, word: string): Option<SVal> {
    if Ascii(word) in m then Some(m[Ascii(word)]) else None
  }

  ghost predicate Accepted(accepts: Accepts, v: SVal, node: Node) { v.SObj? && accepts(v.id, node) }

  /** At least the first bound and at most the second, where they are numbers. */
  ghost predicate Between(x: real, low: Option<SVal>, high: Option<SVal>) {
    && (low.Some? && low.value.SNum? ==> low.value.n.value <= x)
    && (high.Some? && high.value.SNum? ==> x <= high.value.n.value)
  }

  ghost predicate Shared(raw: Text) {
    IsIntegerToken(raw) && -9007199254740991 <= IntegerValue(raw) <= 9007199254740991
  }

  /** Free-form data: integers in the shared range, other numbers finite, last members only. */
  ghost predicate FreeData(env: Env, node: Node)
    decreases node
  {
    match node
    case Num(raw) =>
      if exists i :: 0 <= i < |raw| && raw[i] in [0x2E, 0x65, 0x45] then env.number(raw).Some? else Shared(raw)
    case Arr(items) => forall i :: 0 <= i < |items| ==> FreeData(env, items[i])
    case Obj(ms) => forall i :: 0 <= i < |ms| && Survives(ms, i) ==> FreeData(env, ms[i].1)
    case _ => true
  }

  /** A member that is no property: free where nothing, true or an empty schema is said, none where false is. */
  ghost predicate AdditionalFits(p: Program, env: Env, accepts: Accepts, additional: Option<SVal>, node: Node) {
    match additional
    case None => FreeData(env, node)
    case Some(SBool(b)) => b && FreeData(env, node)
    case Some(SObj(id)) => if id in p.store && p.store[id] == map[] then FreeData(env, node) else accepts(id, node)
    case Some(_) => false
  }

  ghost predicate MemberFits(p: Program, env: Env, accepts: Accepts, m: Mapping, properties: Mapping, name: Text,
      node: Node) {
    if name in properties then Accepted(accepts, properties[name], node)
    else AdditionalFits(p, env, accepts, Says(m, "additionalProperties"), node)
  }

  /** The properties: none where nothing or null is said. */
  ghost function PropertyTable(p: Program, m: Mapping): Option<Mapping> {
    match Says(m, "properties")
    case None => Some(map[])
    case Some(SNull) => Some(map[])
    case Some(SObj(id)) => if id in p.store then Some(p.store[id]) else None
    case Some(_) => None
  }

  /** Every required name is the name of some member. */
  ghost predicate RequiredHere(m: Mapping, ms: Members) {
    match Says(m, "required")
    case Some(SList(names)) => forall r <- names :: r.SStr? && exists i :: 0 <= i < |ms| && ms[i].0 == r.s
    case _ => true
  }

  ghost predicate ObjectFits(p: Program, env: Env, accepts: Accepts, m: Mapping, ms: Members) {
    && PropertyTable(p, m).Some? && RequiredHere(m, ms)
    && forall i :: 0 <= i < |ms| && Survives(ms, i) ==>
         MemberFits(p, env, accepts, m, PropertyTable(p, m).value, ms[i].0, ms[i].1)
  }

  ghost predicate ArrayFits(accepts: Accepts, m: Mapping, items: seq<Node>) {
    && Between(|items| as real, Says(m, "minItems"), Says(m, "maxItems")) && Says(m, "items").Some?
    && forall i :: 0 <= i < |items| ==> Accepted(accepts, Says(m, "items").value, items[i])
  }

  ghost predicate StringFits(env: Env, m: Mapping, s: Text) {
    && Between(|s| as real, Says(m, "minLength"), Says(m, "maxLength"))
    && (Says(m, "pattern").Some? && Says(m, "pattern").value.SStr? ==> env.matches(Says(m, "pattern").value.s, s))
    && (Says(m, "format").Some? && Says(m, "format").value.SStr? ==> env.formatted(Says(m, "format").value.s, s))
  }

  ghost predicate NumberFits(env: Env, m: Mapping, raw: Text) {
    env.number(raw).Some? && Between(env.number(raw).value.value, Says(m, "minimum"), Says(m, "maximum"))
  }

  ghost predicate IntegerFits(m: Mapping, raw: Text) {
    Shared(raw) && Between(IntegerValue(raw) as real, Says(m, "minimum"), Says(m, "maximum"))
  }

  ghost predicate KindFits(p: Program, env: Env, accepts: Accepts, m: Mapping, kind: Kind, node: Node) {
    match kind
    case NullKind => node.Null?
    case BooleanKind => node.Bool?
    case StringKind => node.Str? && StringFits(env, m, node.s)
    case IntegerKind => node.Num? && IntegerFits(m, node.raw)
    case NumberKind => node.Num? && NumberFits(env, m, node.raw)
    case ArrayKind => node.Arr? && ArrayFits(accepts, m, node.items)
    case ObjectKind => node.Obj? && ObjectFits(p, env, accepts, m, node.members)
  }

  /** The scalar that a node of the kind stands for, as a schema would write it. */
  ghost function ScalarOf(env: Env, kind: Kind, node: Node): Option<SVal> {
    match (kind, node)
    case (NullKind, Null) => Some(SNull)
    case (BooleanKind, Bool(b)) => Some(SBool(b))
    case (StringKind, Str(s)) => Some(SStr(s))
    case (IntegerKind, Num(raw)) =>
      if IsIntegerToken(raw) then Some(SNum(Binary64(IntegerValue(raw) as real, false))) else None
    case (NumberKind, Num(raw)) => if env.number(raw).Some? then Some(SNum(env.number(raw).value)) else None
    case _ => None
  }

  /** The literal of `const`, and one of `enum`; no array and no object is either. */
  ghost predicate LiteralsFit(m: Mapping, scalar: Option<SVal>) {
    && (Says(m, "const").Some? ==> scalar == Says(m, "const"))
    && (Says(m, "enum").Some? && Says(m, "enum").value.SList? ==>
          scalar.Some? && scalar.value in Says(m, "enum").value.items)
  }

  ghost predicate OfKind(p: Program, env: Env, accepts: Accepts, m: Mapping, kind: Kind, node: Node) {
    KindFits(p, env, accepts, m, kind, node) && LiteralsFit(m, ScalarOf(env, kind, node))
  }

  /** What stands for a missing type: the constant, or the first choice. */
  ghost function ExemplarSaid(m: Mapping): Option<SVal> {
    if Says(m, "const").Some? then Says(m, "const")
    else match Says(m, "enum")
      case Some(SList(choices)) => if choices == [] then None else Some(choices[0])
      case _ => None
  }

  /** The kind of an exemplar that is a scalar. */
  ghost function ExemplarKind(m: Mapping): Option<Kind> {
    match ExemplarSaid(m)
    case Some(SStr(_)) => Some(StringKind)
    case Some(SBool(_)) => Some(BooleanKind)
    case Some(SNull) => Some(NullKind)
    case Some(SNum(n)) => Some(if n.value == n.value.Floor as real then IntegerKind else NumberKind)
    case _ => None
  }

  ghost predicate IsKind(v: SVal, kind: Kind) { v == SStr(Ascii(Named(kind))) }

  /** Entry `i` of the list names a kind that fits, and no entry before it does. */
  ghost predicate FirstFit(p: Program, env: Env, accepts: Accepts, m: Mapping, kinds: seq<SVal>, i: nat, kind: Kind,
      node: Node) {
    && i < |kinds| && IsKind(kinds[i], kind) && KindFits(p, env, accepts, m, kind, node)
    && forall j, other :: 0 <= j < i && IsKind(kinds[j], other) ==> !KindFits(p, env, accepts, m, other, node)
  }

  ghost predicate TypeFits(p: Program, env: Env, accepts: Accepts, m: Mapping, node: Node) {
    match Says(m, "type")
    case Some(SList(kinds)) =>
      exists i: nat, kind ::
        FirstFit(p, env, accepts, m, kinds, i, kind, node) && LiteralsFit(m, ScalarOf(env, kind, node))
    case Some(SStr(name)) => exists kind :: IsKind(SStr(name), kind) && OfKind(p, env, accepts, m, kind, node)
    case _ => ExemplarKind(m).Some? && OfKind(p, env, accepts, m, ExemplarKind(m).value, node)
  }

  /** Branch `i` accepts the node, and no other. */
  ghost predicate OnlyBranch(accepts: Accepts, branches: seq<SVal>, node: Node, i: nat) {
    && i < |branches| && Accepted(accepts, branches[i], node)
    && forall j :: 0 <= j < |branches| && Accepted(accepts, branches[j], node) ==> j == i
  }

  /** The reference is to the component of that name, which accepts the node. */
  ghost predicate ByReference(p: Program, accepts: Accepts, reference: Text, name: Text, node: Node) {
    reference == Ascii("#/components/schemas/") + name && name in p.schemas && Accepted(accepts, p.schemas[name], node)
  }

  ghost predicate Conforms(p: Program, env: Env, accepts: Accepts, m: Mapping, node: Node) {
    match Says(m, "$ref")
    case Some(SStr(reference)) => exists name :: ByReference(p, accepts, reference, name, node)
    case _ =>
      match Says(m, "oneOf")
      case Some(SList(branches)) => exists i: nat :: OnlyBranch(accepts, branches, node, i)
      case _ => TypeFits(p, env, accepts, m, node)
  }

  /** `accepts` obeys the rules at every schema of the set. */
  ghost predicate IsConformance(p: Program, env: Env, seen: set<Id>, accepts: Accepts)
    requires seen <= p.store.Keys
  {
    forall id, node :: id in seen ==> (accepts(id, node) <==> Conforms(p, env, accepts, p.store[id], node))
  }

  lemma SaysGet(m: Mapping, k: Schemas.Key)
    ensures Says(m, Word(k)) == Get(m, k)
  {
  }

  lemma ShapeWords()
    ensures Word(RefKey) == "$ref" && Word(OneOfKey) == "oneOf" && Word(TypeKey) == "type"
    ensures Word(ConstKey) == "const" && Word(EnumKey) == "enum"
  {
  }

  lemma CompoundWords()
    ensures Word(ItemsKey) == "items" && Word(PropertiesKey) == "properties" && Word(RequiredKey) == "required"
    ensures Word(AdditionalKey) == "additionalProperties"
  {
  }

  lemma StringWords()
    ensures Word(MinLengthKey) == "minLength" && Word(MaxLengthKey) == "maxLength"
    ensures Word(PatternKey) == "pattern" && Word(FormatKey) == "format"
  {
  }

  lemma BoundWords()
    ensures Word(MinimumKey) == "minimum" && Word(MaximumKey) == "maximum"
    ensures Word(MinItemsKey) == "minItems" && Word(MaxItemsKey) == "maxItems"
  {
  }

  /** The words are the ones the decoder looks up. */
  lemma SaysGets(m: Mapping)
    ensures Says(m, "$ref") == Get(m, RefKey) && Says(m, "oneOf") == Get(m, OneOfKey)
    ensures Says(m, "type") == Get(m, TypeKey) && Says(m, "const") == Get(m, ConstKey)
    ensures Says(m, "enum") == Get(m, EnumKey) && Says(m, "items") == Get(m, ItemsKey)
    ensures Says(m, "properties") == Get(m, PropertiesKey) && Says(m, "required") == Get(m, RequiredKey)
    ensures Says(m, "additionalProperties") == Get(m, AdditionalKey)
    ensures Says(m, "minLength") == Get(m, MinLengthKey) && Says(m, "maxLength") == Get(m, MaxLengthKey)
    ensures Says(m, "pattern") == Get(m, PatternKey) && Says(m, "format") == Get(m, FormatKey)
    ensures Says(m, "minimum") == Get(m, MinimumKey) && Says(m, "maximum") == Get(m, MaximumKey)
    ensures Says(m, "minItems") == Get(m, MinItemsKey) && Says(m, "maxItems") == Get(m, MaxItemsKey)
  {
    hide Ascii, Word, Says, Get;
    ShapeWords();
    CompoundWords();
    StringWords();
    BoundWords();
    forall k ensures Says(m, Word(k)) == Get(m, k) {
      SaysGet(m, k);
    }
  }

  lemma KindIsNamed(t: Text, kind: Kind)
    ensures KindOf(t) == Some(kind) <==> IsKind(SStr(t), kind)
  {
    hide Ascii;
    NamedOnce(kind);
    assert Named(NullKind) == "null" && Named(BooleanKind) == "boolean" && Named(StringKind) == "string";
    assert Named(IntegerKind) == "integer" && Named(NumberKind) == "number";
    assert Named(ArrayKind) == "array" && Named(ObjectKind) == "object";
  }

  // ---- outcomes that match ----

  /** The outcome is final, and data exactly if the node fits. */
  ghost predicate Matches(o: Outcome, fits: bool) { !o.Unfinished? && (o.Ok? <==> fits) }

  lemma {:induction false} GatherMatches(os: seq<Outcome>)
    requires forall i :: 0 <= i < |os| ==> !os[i].Unfinished?
    ensures Gather(os).All? <==> forall i :: 0 <= i < |os| ==> os[i].Ok?
    ensures Gather(os).Stop? ==> Gather(os).outcome.Refused?
    decreases |os|
  {
    if os != [] {
      GatherMatches(os[1..]);
      if forall i :: 0 <= i < |os[1..]| ==> os[1..][i].Ok? {
        assert forall i :: 1 <= i < |os| ==> os[i] == os[1..][i - 1];
      }
    }
  }

  lemma {:induction false} FirstMatches(os: seq<Outcome>, path: Path) returns (at: nat)
    requires forall i :: 0 <= i < |os| ==> !os[i].Unfinished?
    ensures var o := FirstNotRefused(os, path);
      if o.Ok? then at < |os| && o == os[at] && forall j :: 0 <= j < at ==> !os[j].Ok?
      else o.Refused? && forall i :: 0 <= i < |os| ==> !os[i].Ok?
    decreases |os|
  {
    at := 0;
    if os != [] && os[0].Refused? {
      var rest := FirstMatches(os[1..], path);
      at := rest + 1;
      assert forall i :: 1 <= i < |os| ==> os[i] == os[1..][i - 1];
    }
  }

  lemma {:induction false} OksCount(os: seq<Outcome>)
    ensures |Oks(os)| == 0 <==> forall i :: 0 <= i < |os| ==> !os[i].Ok?
    ensures |Oks(os)| == 1 <==> exists i :: OnlyOk(os, i)
    decreases |os|
  {
    if os != [] {
      var rest := os[1..];
      OksCount(rest);
      assert forall i :: 1 <= i < |os| ==> os[i] == rest[i - 1];
      if os[0].Ok? {
        if |Oks(rest)| == 0 {
          assert OnlyOk(os, 0);
        }
      } else {
        if i :| OnlyOk(rest, i) {
          assert OnlyOk(os, i + 1);
        }
        if i :| OnlyOk(os, i) {
          assert OnlyOk(rest, i - 1);
        }
      }
    }
  }

  ghost predicate OnlyOk(os: seq<Outcome>, i: int) {
    0 <= i < |os| && os[i].Ok? && forall j :: 0 <= j < |os| && os[j].Ok? ==> j == i
  }

  // ---- free-form data ----

  lemma {:induction false} UntypedMatches(env: Env, node: Node, path: Path)
    ensures Matches(Untyped(env, node, path), FreeData(env, node))
    decreases node
  {
    hide Gather, Kept, Record, Survives, InSharedRange, IsIntegerToken, IntegerValue, Fractional;
    match node
    case Num(raw) =>
      if IsIntegerToken(raw) {
        SharedRangeIsNumeric(raw);
      }
      PointsAreFractional(raw);
      NoBounds();
    case Arr(items) =>
      var os := seq(|items|, i requires 0 <= i < |items| => Untyped(env, items[i], path + [Item(i)]));
      forall i | 0 <= i < |items| ensures Matches(os[i], FreeData(env, items[i])) {
        UntypedMatches(env, items[i], path + [Item(i)]);
      }
      GatherMatches(os);
    case Obj(ms) =>
      var k := Kept(ms);
      var os := seq(|k|, i requires 0 <= i < |k| => Untyped(env, ms[k[i]].1, path + [Member(ms[k[i]].0)]));
      forall i | 0 <= i < |k| ensures Matches(os[i], FreeData(env, ms[k[i]].1)) {
        UntypedMatches(env, ms[k[i]].1, path + [Member(ms[k[i]].0)]);
      }
      KeptSelects(ms);
      GatherMatches(os);
    case _ =>
  }

  lemma PointsAreFractional(raw: Text)
    ensures Fractional(raw) <==> exists i :: 0 <= i < |raw| && raw[i] in [0x2E, 0x65, 0x45]
  {
  }

  lemma NoBounds()
    ensures Get(map[], MinimumKey) == None && Get(map[], MaximumKey) == None
  {
  }

  // ---- one level ----

  /** The decoder below agrees with `accepts` on lower nodes. */
  ghost predicate AgreesBelow(rec: Rec, accepts: Accepts, seen: set<Id>, height: nat) {
    forall b, n, q :: b in seen && Height(n) < height ==> Matches(rec(SObj(b), n, q), accepts(b, n))
  }

  /** And on this node at the schemas a reference or a branch leads to. */
  ghost predicate AgreesBeside(p: Program, rec: Rec, accepts: Accepts, seen: set<Id>, m: Mapping, node: Node) {
    forall b, q :: b in seen && SameNode(p, m, b) ==> Matches(rec(SObj(b), node, q), accepts(b, node))
  }

  lemma ArrayMatches(rec: Rec, accepts: Accepts, seen: set<Id>, m: Mapping, items: seq<Node>, path: Path)
    requires Get(m, ItemsKey).Some? && In(Get(m, ItemsKey).value, seen)
    requires AgreesBelow(rec, accepts, seen, Height(Arr(items)))
    ensures Matches(ReadArray(rec, m, Arr(items), path), ArrayFits(accepts, m, items))
    ensures var o := ReadArray(rec, m, Arr(items), path); o.Ok? ==> o.data.DArr?
  {
    hide Get, Says, Gather;
    SaysGets(m);
    var schema := Get(m, ItemsKey).value;
    var os := ItemOutcomes(rec, schema, items, path);
    forall i | 0 <= i < |os| ensures Matches(os[i], Accepted(accepts, schema, items[i])) {
      ItemLower(items, i);
      assert schema == SObj(schema.id);
    }
    GatherMatches(os);
  }

  lemma FieldMatches(p: Program, env: Env, rec: Rec, accepts: Accepts, seen: set<Id>, m: Mapping, member: (Text, Node),
      path: Path, height: nat)
    requires ObjectSettled(p, seen, m) && AgreesBelow(rec, accepts, seen, height) && Height(member.1) < height
    ensures PropertiesOf(p, m).Some?
    ensures var properties := PropertiesOf(p, m).value;
      Matches(
        ReadField(p, env, rec, m, properties, member, path),
        MemberFits(p, env, accepts, m, properties, member.0, member.1))
  {
    hide Get, Says, Height, Untyped, FreeData;
    SaysGets(m);
    var (name, node) := member;
    var properties := PropertiesOf(p, m).value;
    UntypedMatches(env, node, path + [Member(name)]);
    if name in properties {
      assert In(properties[name], seen);
      assert properties[name] == SObj(properties[name].id);
    } else {
      AdditionalMatches(p, env, rec, accepts, seen, Get(m, AdditionalKey), node, path, name, height);
    }
  }

  lemma AdditionalMatches(p: Program, env: Env, rec: Rec, accepts: Accepts, seen: set<Id>, additional: Option<SVal>,
      node: Node, path: Path, name: Text, height: nat)
    requires FreeForm(p, additional) || additional == Some(SBool(false)) || In(additional.value, seen)
    requires AgreesBelow(rec, accepts, seen, height) && Height(node) < height
    ensures var o :=
      if additional == Some(SBool(false)) then Refused(path, UnknownField(name))
      else if FreeForm(p, additional) then Untyped(env, node, path + [Member(name)])
      else rec(additional.value, node, path + [Member(name)]);
      Matches(o, AdditionalFits(p, env, accepts, additional, node))
  {
    hide Height, Untyped, FreeData;
    UntypedMatches(env, node, path + [Member(name)]);
  }

  lemma {:induction false} NothingMissing(ms: Members, required: seq<SVal>)
    ensures FirstMissing(ms, required) == None <==>
      forall r <- required :: r.SStr? && exists i :: 0 <= i < |ms| && ms[i].0 == r.s
    decreases |required|
  {
    if required != [] {
      NothingMissing(ms, required[1..]);
      assert required == [required[0]] + required[1..];
    }
  }

  lemma ObjectMatches(p: Program, env: Env, rec: Rec, accepts: Accepts, seen: set<Id>, m: Mapping, ms: Members,
      path: Path)
    requires ObjectSettled(p, seen, m) && AgreesBelow(rec, accepts, seen, Height(Obj(ms)))
    ensures Matches(ReadObject(p, env, rec, m, Obj(ms), path), ObjectFits(p, env, accepts, m, ms))
    ensures var o := ReadObject(p, env, rec, m, Obj(ms), path); o.Ok? ==> o.data.DObj?
  {
    hide Get, Gather, Kept, FirstMissing, ReadField, AgreesBelow, Record, PropertiesOf, RequiredOf, MemberFits;
    hide Survives, PropertyTable, RequiredHere;
    PropertiesAreMapped(p, seen, m);
    TablesAgree(p, m);
    RequiredMatches(m, ms);
    KeptSelects(ms);
    var k, properties := Kept(ms), PropertiesOf(p, m).value;
    var os := FieldOutcomes(p, env, rec, m, properties, ms, k, path);
    forall i | 0 <= i < |k|
      ensures Matches(os[i], MemberFits(p, env, accepts, m, properties, ms[k[i]].0, ms[k[i]].1)) {
      MemberLower(ms, k[i]);
      FieldMatches(p, env, rec, accepts, seen, m, ms[k[i]], path, Height(Obj(ms)));
    }
    GatherMatches(os);
  }

  lemma TablesAgree(p: Program, m: Mapping)
    ensures PropertyTable(p, m) == PropertiesOf(p, m)
  {
    hide Get, Says;
    SaysGets(m);
  }

  lemma RequiredMatches(m: Mapping, ms: Members)
    ensures FirstMissing(ms, RequiredOf(m)) == None <==> RequiredHere(m, ms)
  {
    hide Get, Says, FirstMissing;
    SaysGets(m);
    NothingMissing(ms, RequiredOf(m));
  }

  lemma StringMatches(env: Env, m: Mapping, node: Node, path: Path)
    ensures Matches(ReadString(env, m, node, path), node.Str? && StringFits(env, m, node.s))
  {
    hide Get, Says;
    SaysGets(m);
  }

  lemma NumberMatches(env: Env, m: Mapping, node: Node, path: Path)
    ensures Matches(ReadNumber(env, m, node, path), node.Num? && NumberFits(env, m, node.raw))
  {
    hide Get, Says;
    SaysGets(m);
  }

  lemma IntegerMatches(m: Mapping, node: Node, path: Path)
    ensures Matches(ReadInteger(m, node, path), node.Num? && IntegerFits(m, node.raw))
  {
    hide Get, Says, InSharedRange, IsIntegerToken, IntegerValue;
    SaysGets(m);
    if node.Num? && IsIntegerToken(node.raw) {
      SharedRangeIsNumeric(node.raw);
    }
  }

  /** The scalar as data. */
  ghost function AsData(v: SVal): Option<Data> {
    match v
    case SNull => Some(DNull)
    case SBool(b) => Some(DBool(b))
    case SStr(s) => Some(DStr(s))
    case SNum(n) => Some(DNum(n))
    case _ => None
  }

  /** The data is the scalar, or else an array or an object. */
  ghost predicate DataIs(d: Data, scalar: Option<SVal>) {
    if scalar.Some? then AsData(scalar.value) == Some(d) else d.DArr? || d.DObj?
  }

  lemma ScalarRead(env: Env, m: Mapping, node: Node, path: Path)
    ensures var o := ReadNull(node, path); o.Ok? ==> DataIs(o.data, ScalarOf(env, NullKind, node))
    ensures var o := ReadBoolean(node, path); o.Ok? ==> DataIs(o.data, ScalarOf(env, BooleanKind, node))
    ensures var o := ReadString(env, m, node, path); o.Ok? ==> DataIs(o.data, ScalarOf(env, StringKind, node))
    ensures var o := ReadInteger(m, node, path); o.Ok? ==> DataIs(o.data, ScalarOf(env, IntegerKind, node))
    ensures var o := ReadNumber(env, m, node, path); o.Ok? ==> DataIs(o.data, ScalarOf(env, NumberKind, node))
  {
    hide Get, PatternHolds, FormatHolds, InSharedRange, IsIntegerToken, IntegerValue;
  }

  lemma TypedMatches(p: Program, env: Env, rec: Rec, accepts: Accepts, seen: set<Id>, m: Mapping, kind: Text,
      node: Node, path: Path)
    requires KindSettled(p, seen, m, SStr(kind)) && AgreesBelow(rec, accepts, seen, Height(node))
    ensures var o := ReadTyped(p, env, rec, m, kind, node, path);
      && Matches(o, KindFits(p, env, accepts, m, KindOf(kind).value, node))
      && (o.Ok? ==> DataIs(o.data, ScalarOf(env, KindOf(kind).value, node)))
  {
    hide Get, KindOf, AgreesBelow, ObjectSettled, Height, StringFits, NumberFits, IntegerFits, ArrayFits, ObjectFits;
    hide ReadString, ReadNumber, ReadInteger, ReadArray, ReadObject, ScalarOf, DataIs;
    ScalarRead(env, m, node, path);
    StringMatches(env, m, node, path);
    NumberMatches(env, m, node, path);
    IntegerMatches(m, node, path);
    CompoundMatches(p, env, rec, accepts, seen, m, kind, node, path);
  }

  lemma CompoundMatches(p: Program, env: Env, rec: Rec, accepts: Accepts, seen: set<Id>, m: Mapping, kind: Text,
      node: Node, path: Path)
    requires KindSettled(p, seen, m, SStr(kind)) && AgreesBelow(rec, accepts, seen, Height(node))
    ensures KindOf(kind) == Some(ArrayKind) ==>
      var o := ReadArray(rec, m, node, path);
      && Matches(o, node.Arr? && ArrayFits(accepts, m, node.items))
      && (o.Ok? ==> DataIs(o.data, ScalarOf(env, ArrayKind, node)))
    ensures KindOf(kind) == Some(ObjectKind) ==>
      var o := ReadObject(p, env, rec, m, node, path);
      && Matches(o, node.Obj? && ObjectFits(p, env, accepts, m, node.members))
      && (o.Ok? ==> DataIs(o.data, ScalarOf(env, ObjectKind, node)))
  {
    hide Get, KindOf, AgreesBelow, ObjectSettled, Height, ArrayFits, ObjectFits;
    if KindOf(kind) == Some(ArrayKind) && node.Arr? {
      ArrayMatches(rec, accepts, seen, m, node.items, path);
      hide ReadArray;
    }
    if KindOf(kind) == Some(ObjectKind) && node.Obj? {
      ObjectMatches(p, env, rec, accepts, seen, m, node.members, path);
      hide ReadObject;
    }
  }

  lemma SameLiteral(d: Data, scalar: Option<SVal>, v: SVal)
    requires DataIs(d, scalar)
    ensures Is(d, v) <==> scalar == Some(v)
  {
  }

  lemma ConstrainedMatches(m: Mapping, o: Outcome, path: Path, fits: bool, scalar: Option<SVal>)
    requires Matches(o, fits) && (o.Ok? ==> DataIs(o.data, scalar))
    ensures Matches(Constrained(m, o, path), fits && LiteralsFit(m, scalar))
  {
    hide Get, Says, Is, DataIs;
    SaysGets(m);
    if o.Ok? {
      forall v ensures Is(o.data, v) <==> scalar == Some(v) {
        SameLiteral(o.data, scalar, v);
      }
      match Get(m, EnumKey)
      case Some(SList(choices)) =>
        if scalar.Some? && scalar.value in choices {
          var i :| 0 <= i < |choices| && choices[i] == scalar.value;
          assert Is(o.data, choices[i]);
        }
      case _ =>
    }
  }

  lemma {:induction false} AllStrings(p: Program, seen: set<Id>, m: Mapping, kinds: seq<SVal>)
    requires forall i :: 0 <= i < |kinds| ==> KindSettled(p, seen, m, kinds[i])
    ensures |StringKinds(kinds)| == |kinds|
    ensures forall i :: 0 <= i < |kinds| ==> kinds[i] == SStr(StringKinds(kinds)[i])
    decreases |kinds|
  {
    hide KindOf, Get;
    if kinds != [] {
      AllStrings(p, seen, m, kinds[1..]);
      assert kinds[0] == SStr(kinds[0].s);
      assert forall i :: 1 <= i < |kinds| ==> kinds[i] == kinds[1..][i - 1];
    }
  }

  /** What the kind of each entry says of the outcome it gives. */
  ghost predicate EntryMatches(p: Program, env: Env, accepts: Accepts, m: Mapping, kind: Text, node: Node, o: Outcome) {
    && KindOf(kind).Some? && Matches(o, KindFits(p, env, accepts, m, KindOf(kind).value, node))
    && (o.Ok? ==> DataIs(o.data, ScalarOf(env, KindOf(kind).value, node)))
  }

  lemma ListMatches(p: Program, env: Env, rec: Rec, accepts: Accepts, seen: set<Id>, m: Mapping, kinds: seq<SVal>,
      node: Node, path: Path) returns (at: nat, kind: Kind)
    requires forall i :: 0 <= i < |kinds| ==> KindSettled(p, seen, m, kinds[i])
    requires AgreesBelow(rec, accepts, seen, Height(node))
    ensures var o := FirstNotRefused(KindOutcomes(p, env, rec, m, StringKinds(kinds), node, path), path);
      if o.Ok? then
        && FirstFit(p, env, accepts, m, kinds, at, kind, node) && DataIs(o.data, ScalarOf(env, kind, node))
      else o.Refused? && forall i: nat, k :: !FirstFit(p, env, accepts, m, kinds, i, k, node)
  {
    hide Get, AgreesBelow, Height, KindFits, ReadTyped, ScalarOf, DataIs, IsKind, KindOf, KindSettled, StringKinds;
    AllStrings(p, seen, m, kinds);
    var ks := StringKinds(kinds);
    var os := KindOutcomes(p, env, rec, m, ks, node, path);
    forall i | 0 <= i < |ks| ensures EntryMatches(p, env, accepts, m, ks[i], node, os[i]) {
      SettledHasKind(p, seen, m, ks[i]);
      TypedMatches(p, env, rec, accepts, seen, m, ks[i], node, path);
    }
    forall i, k | 0 <= i < |ks| ensures KindOf(ks[i]) == Some(k) <==> IsKind(kinds[i], k) {
      KindIsNamed(ks[i], k);
    }
    at := FirstMatches(os, path);
    kind := NullKind;
    if FirstNotRefused(os, path).Ok? {
      assert EntryMatches(p, env, accepts, m, ks[at], node, os[at]);
      kind := KindOf(ks[at]).value;
      forall j, other | 0 <= j < at && IsKind(kinds[j], other) ensures !KindFits(p, env, accepts, m, other, node) {
        KindIsNamed(ks[j], other);
        assert EntryMatches(p, env, accepts, m, ks[j], node, os[j]);
      }
    } else {
      forall i, k | 0 <= i < |kinds| && IsKind(kinds[i], k) ensures !KindFits(p, env, accepts, m, k, node) {
        KindIsNamed(ks[i], k);
        assert EntryMatches(p, env, accepts, m, ks[i], node, os[i]);
      }
    }
  }

  lemma FirstFitsAgree(p: Program, env: Env, accepts: Accepts, m: Mapping, kinds: seq<SVal>, i: nat, k: Kind, j: nat,
      l: Kind, node: Node)
    requires FirstFit(p, env, accepts, m, kinds, i, k, node) && FirstFit(p, env, accepts, m, kinds, j, l, node)
    ensures k == l
  {
    hide KindFits, Ascii;
    KindIsNamed(kinds[i].s, k);
    KindIsNamed(kinds[j].s, l);
  }

  lemma ImplicitIsTyped(env: Env, m: Mapping, node: Node, path: Path)
    ensures ExemplarKind(m) == None ==> ReadImplicit(env, m, node, path).Refused?
    ensures ExemplarKind(m) == Some(StringKind) ==>
      ReadImplicit(env, m, node, path) == ReadString(env, m, node, path)
    ensures ExemplarKind(m) == Some(BooleanKind) ==> ReadImplicit(env, m, node, path) == ReadBoolean(node, path)
    ensures ExemplarKind(m) == Some(NullKind) ==> ReadImplicit(env, m, node, path) == ReadNull(node, path)
    ensures ExemplarKind(m) == Some(IntegerKind) ==> ReadImplicit(env, m, node, path) == ReadInteger(m, node, path)
    ensures ExemplarKind(m) == Some(NumberKind) ==>
      ReadImplicit(env, m, node, path) == ReadNumber(env, m, node, path)
    ensures ExemplarKind(m) != Some(ArrayKind) && ExemplarKind(m) != Some(ObjectKind)
  {
    hide Exemplar, ExemplarSaid, ReadString, ReadBoolean, ReadNull, ReadInteger, ReadNumber;
    SameExemplar(m);
  }

  lemma SameExemplar(m: Mapping)
    ensures ExemplarSaid(m) == Exemplar(m)
  {
    hide Get, Says;
    SaysGets(m);
  }

  lemma ImplicitMatches(p: Program, env: Env, accepts: Accepts, m: Mapping, node: Node, path: Path)
    ensures var o := ReadImplicit(env, m, node, path); var kind := ExemplarKind(m);
      && Matches(o, kind.Some? && KindFits(p, env, accepts, m, kind.value, node))
      && (o.Ok? ==> DataIs(o.data, ScalarOf(env, kind.value, node)))
  {
    hide ExemplarKind, ReadImplicit, ReadString, ReadInteger, ReadNumber, ScalarOf, StringFits, NumberFits, IntegerFits;
    hide Get, ArrayFits, ObjectFits, DataIs;
    ImplicitIsTyped(env, m, node, path);
    ScalarRead(env, m, node, path);
    StringMatches(env, m, node, path);
    NumberMatches(env, m, node, path);
    IntegerMatches(m, node, path);
  }

  lemma ByTypeMatches(p: Program, env: Env, rec: Rec, accepts: Accepts, seen: set<Id>, m: Mapping, node: Node,
      path: Path)
    requires TypeSettled(p, seen, m) && AgreesBelow(rec, accepts, seen, Height(node))
    ensures Matches(Constrained(m, ReadByType(p, env, rec, m, node, path), path), TypeFits(p, env, accepts, m, node))
  {
    hide Get, Says, KindSettled, AgreesBelow, ReadTyped, Height, HasExemplar, KindFits, Constrained, LiteralsFit;
    hide ScalarOf, ReadImplicit, ExemplarKind, DataIs, FirstNotRefused, FirstFit, IsKind, KindOf;
    SaysGets(m);
    var o := ReadByType(p, env, rec, m, node, path);
    match Get(m, TypeKey)
    case Some(SList(kinds)) =>
      var at, kind := ListMatches(p, env, rec, accepts, seen, m, kinds, node, path);
      if o.Ok? {
        forall i: nat, k | FirstFit(p, env, accepts, m, kinds, i, k, node) ensures k == kind {
          FirstFitsAgree(p, env, accepts, m, kinds, i, k, at, kind, node);
        }
        ConstrainedMatches(m, o, path, true, ScalarOf(env, kind, node));
      } else {
        ConstrainedMatches(m, o, path, false, None);
      }
    case Some(SStr(name)) =>
      TypedMatches(p, env, rec, accepts, seen, m, name, node, path);
      SettledHasKind(p, seen, m, name);
      var k := KindOf(name).value;
      forall kind ensures IsKind(SStr(name), kind) <==> kind == k {
        KindIsNamed(name, kind);
      }
      assert IsKind(SStr(name), k);
      ConstrainedMatches(m, o, path, KindFits(p, env, accepts, m, k, node), ScalarOf(env, k, node));
    case _ =>
      ImplicitMatches(p, env, accepts, m, node, path);
      if ExemplarKind(m).Some? {
        var k := ExemplarKind(m).value;
        ConstrainedMatches(m, o, path, KindFits(p, env, accepts, m, k, node), ScalarOf(env, k, node));
      } else {
        ConstrainedMatches(m, o, path, false, None);
      }
  }

  lemma SettledHasKind(p: Program, seen: set<Id>, m: Mapping, kind: Text)
    requires KindSettled(p, seen, m, SStr(kind))
    ensures KindOf(kind).Some?
  {
    hide Get, KindOf;
  }

  lemma ReferenceMatches(p: Program, rec: Rec, accepts: Accepts, seen: set<Id>, m: Mapping, reference: Text,
      node: Node, path: Path)
    requires Get(m, RefKey) == Some(SStr(reference)) && PlainReference(reference)
    requires ReferenceSettled(p, seen, reference) && AgreesBeside(p, rec, accepts, seen, m, node)
    ensures Matches(
      ReadReference(p, rec, reference, node, path), exists name :: ByReference(p, accepts, reference, name, node))
  {
    hide Get, LastPart, Ascii;
    ReferenceNames(reference);
    var target := p.schemas[LastPart(reference)];
    assert target == SObj(target.id) && SameNode(p, m, target.id);
    var prefix := Ascii("#/components/schemas/");
    var name := reference[|prefix|..];
    assert reference == prefix + name;
    forall other | ByReference(p, accepts, reference, other, node) ensures other == name {
      assert (prefix + other)[|prefix|..] == other;
    }
    assert accepts(target.id, node) ==> ByReference(p, accepts, reference, name, node);
  }

  lemma BranchesMatch(p: Program, rec: Rec, accepts: Accepts, seen: set<Id>, m: Mapping, branches: seq<SVal>,
      node: Node, path: Path)
    requires !(Get(m, RefKey).Some? && Get(m, RefKey).value.SStr?) && Get(m, OneOfKey) == Some(SList(branches))
    requires BranchesSettled(seen, branches) && AgreesBeside(p, rec, accepts, seen, m, node)
    ensures Matches(
      ExactlyOne(BranchOutcomes(rec, branches, node, path), path),
      exists i: nat :: OnlyBranch(accepts, branches, node, i))
  {
    hide Get, LastPart;
    var os := BranchOutcomes(rec, branches, node, path);
    forall i | 0 <= i < |os| ensures Matches(os[i], Accepted(accepts, branches[i], node)) {
      assert branches[i] == SObj(branches[i].id) && SameNode(p, m, branches[i].id);
    }
    hide Accepted, SameNode, AgreesBeside, Oks;
    OksCount(os);
    if i :| OnlyOk(os, i) {
      assert OnlyBranch(accepts, branches, node, i);
    }
    if i: nat :| OnlyBranch(accepts, branches, node, i) {
      assert OnlyOk(os, i);
    }
  }

  /** One level: where the nested calls agree with `accepts`, this level succeeds exactly on what conforms. */
  lemma LevelMatches(p: Program, env: Env, rec: Rec, accepts: Accepts, seen: set<Id>, m: Mapping, node: Node,
      path: Path)
    requires MappingSettled(p, seen, m) && PlainAt(m)
    requires AgreesBelow(rec, accepts, seen, Height(node)) && AgreesBeside(p, rec, accepts, seen, m, node)
    ensures Matches(ReadMapping(p, env, rec, m, node, path), Conforms(p, env, accepts, m, node))
  {
    hide Get, AgreesBelow, AgreesBeside, Height, TypeSettled, ReferenceSettled, BranchesSettled, PlainReference;
    hide ReadMapping, Conforms, Matches, Constrained, ReadByType, TypeFits, ReadReference, ExactlyOne, OnlyBranch;
    hide ByReference, BranchOutcomes, SameNode;
    match Get(m, RefKey)
    case Some(SStr(reference)) =>
      ReferenceLevel(p, env, rec, accepts, m, reference, node, path);
      ReferenceMatches(p, rec, accepts, seen, m, reference, node, path);
    case _ =>
      match Get(m, OneOfKey)
      case Some(SList(branches)) =>
        BranchesLevel(p, env, rec, accepts, m, branches, node, path);
        BranchesMatch(p, rec, accepts, seen, m, branches, node, path);
      case _ =>
        TypeLevel(p, env, rec, accepts, m, node, path);
        ByTypeMatches(p, env, rec, accepts, seen, m, node, path);
  }

  lemma ReferenceLevel(p: Program, env: Env, rec: Rec, accepts: Accepts, m: Mapping, reference: Text, node: Node,
      path: Path)
    requires Get(m, RefKey) == Some(SStr(reference))
    ensures ReadMapping(p, env, rec, m, node, path) == ReadReference(p, rec, reference, node, path)
    ensures Conforms(p, env, accepts, m, node) <==> exists name :: ByReference(p, accepts, reference, name, node)
  {
    hide Get, Says, ReadReference, ByReference;
    SaysGets(m);
  }

  lemma BranchesLevel(p: Program, env: Env, rec: Rec, accepts: Accepts, m: Mapping, branches: seq<SVal>, node: Node,
      path: Path)
    requires !(Get(m, RefKey).Some? && Get(m, RefKey).value.SStr?) && Get(m, OneOfKey) == Some(SList(branches))
    ensures ReadMapping(p, env, rec, m, node, path) == ExactlyOne(BranchOutcomes(rec, branches, node, path), path)
    ensures Conforms(p, env, accepts, m, node) <==> exists i: nat :: OnlyBranch(accepts, branches, node, i)
  {
    hide Get, Says, ExactlyOne, OnlyBranch;
    SaysGets(m);
  }

  lemma TypeLevel(p: Program, env: Env, rec: Rec, accepts: Accepts, m: Mapping, node: Node, path: Path)
    requires !(Get(m, RefKey).Some? && Get(m, RefKey).value.SStr?)
    requires !(Get(m, OneOfKey).Some? && Get(m, OneOfKey).value.SList?)
    ensures ReadMapping(p, env, rec, m, node, path) == Constrained(m, ReadByType(p, env, rec, m, node, path), path)
    ensures Conforms(p, env, accepts, m, node) <==> TypeFits(p, env, accepts, m, node)
  {
    hide Get, Says, Constrained, ReadByType, TypeFits;
    SaysGets(m);
  }

  // ---- every conformance is the decoder's ----

  ghost function Enough(seen: set<Id>, rank: map<string, int>, id: Id, node: Node): nat
    requires id in rank && 0 <= rank[id]
  {
    Budget(Height(node), |seen|) + rank[id] + 1
  }

  lemma {:induction false} AcceptsFrom(p: Program, env: Env, accepts: Accepts, seen: set<Id>, rank: map<string, int>,
      id: Id, node: Node, path: Path, depth: nat)
    requires Closed(p, seen) && PlainReferences(p, seen) && Ranked(p, seen, rank)
    requires IsConformance(p, env, seen, accepts) && id in seen && depth >= Enough(seen, rank, id, node)
    ensures Matches(Decoded(p, env, SObj(id), node, path, depth), accepts(id, node))
    decreases depth
  {
    hide MappingSettled, PlainAt, SameNode, ReadMapping, Height, Budget, Conforms, Matches;
    var rec := Down(p, env, depth - 1);
    var m := p.store[id];
    forall b, n, q | b in seen && Height(n) < Height(node) ensures Matches(rec(SObj(b), n, q), accepts(b, n)) {
      BudgetGrows(Height(n), Height(node), |seen|);
      AcceptsFrom(p, env, accepts, seen, rank, b, n, q, depth - 1);
    }
    forall b, q | b in seen && SameNode(p, m, b) ensures Matches(rec(SObj(b), node, q), accepts(b, node)) {
      AcceptsFrom(p, env, accepts, seen, rank, b, node, q, depth - 1);
    }
    assert Settled(p, seen, id);
    LevelMatches(p, env, rec, accepts, seen, m, node, path);
  }

  ghost predicate DecidesFrom(p: Program, env: Env, accepts: Accepts, id: Id, node: Node, bound: nat) {
    forall path, depth: nat :: depth >= bound ==>
      Matches(Decoded(p, env, SObj(id), node, path, depth), accepts(id, node))
  }

  /** From some depth on, decoding the node ends, and with data exactly if the node is accepted. */
  ghost predicate Decides(p: Program, env: Env, accepts: Accepts, id: Id, node: Node) {
    exists bound: nat :: DecidesFrom(p, env, accepts, id, node, bound)
  }

  /** Whatever obeys the rules, decoding succeeds exactly on the nodes that conform. */
  lemma DecodingIsConformance(p: Program, env: Env, seen: set<Id>, accepts: Accepts)
    requires Closed(p, seen) && PlainReferences(p, seen) && !Cyclic(SameNodeEdges(p, seen))
    requires IsConformance(p, env, seen, accepts)
    ensures forall id, node :: id in seen ==> Decides(p, env, accepts, id, node)
  {
    hide Closed, PlainReferences, Cyclic, SameNode, Decoded, Height, Budget, IsConformance, Matches;
    var rank := RanksOfSame(p, seen);
    forall id, node | id in seen ensures Decides(p, env, accepts, id, node) {
      var bound := Enough(seen, rank, id, node);
      forall path, depth: nat | depth >= bound
        ensures Matches(Decoded(p, env, SObj(id), node, path, depth), accepts(id, node)) {
        AcceptsFrom(p, env, accepts, seen, rank, id, node, path, depth);
      }
      assert DecidesFrom(p, env, accepts, id, node, bound);
    }
  }

  // ---- and the decoder's is one ----

  /** What the decoder accepts when it is followed far enough. */
  ghost function DecoderAccepts(p: Program, env: Env, seen: set<Id>, rank: map<string, int>): Accepts {
    (id: Id, node: Node) =>
      id in rank && 0 <= rank[id] && Decoded(p, env, SObj(id), node, [], Enough(seen, rank, id, node)).Ok?
  }

  lemma {:induction false} DecoderFrom(p: Program, env: Env, seen: set<Id>, rank: map<string, int>, id: Id, node: Node,
      path: Path, depth: nat)
    requires Closed(p, seen) && PlainReferences(p, seen) && Ranked(p, seen, rank)
    requires id in seen && depth >= Enough(seen, rank, id, node)
    ensures Matches(
      Decoded(p, env, SObj(id), node, path, depth),
      Conforms(p, env, DecoderAccepts(p, env, seen, rank), p.store[id], node))
    decreases depth
  {
    hide MappingSettled, PlainAt, SameNode, ReadMapping, Height, Budget, Conforms;
    var accepts := DecoderAccepts(p, env, seen, rank);
    var rec := Down(p, env, depth - 1);
    var m := p.store[id];
    forall b, n, q | b in seen && Height(n) < Height(node) ensures Matches(rec(SObj(b), n, q), accepts(b, n)) {
      BudgetGrows(Height(n), Height(node), |seen|);
      DecoderFrom(p, env, seen, rank, b, n, q, depth - 1);
      DecoderFrom(p, env, seen, rank, b, n, [], Enough(seen, rank, b, n));
    }
    forall b, q | b in seen && SameNode(p, m, b) ensures Matches(rec(SObj(b), node, q), accepts(b, node)) {
      DecoderFrom(p, env, seen, rank, b, node, q, depth - 1);
      DecoderFrom(p, env, seen, rank, b, node, [], Enough(seen, rank, b, node));
    }
    assert Settled(p, seen, id);
    LevelMatches(p, env, rec, accepts, seen, m, node, path);
  }

  /** There is a conformance, and any two are the same on the set. */
  lemma OneConformance(p: Program, env: Env, seen: set<Id>)
    requires Closed(p, seen) && PlainReferences(p, seen) && !Cyclic(SameNodeEdges(p, seen))
    ensures exists accepts :: IsConformance(p, env, seen, accepts)
    ensures forall a, b, id, node ::
      IsConformance(p, env, seen, a) && IsConformance(p, env, seen, b) && id in seen ==> a(id, node) == b(id, node)
  {
    hide Closed, PlainReferences, Cyclic, SameNode, Decoded, Conforms, Height, Budget, Decides;
    assert seen <= p.store.Keys by { ClosedWithin(p, seen); }
    var rank := RanksOfSame(p, seen);
    var accepts := DecoderAccepts(p, env, seen, rank);
    forall id, node | id in seen ensures accepts(id, node) <==> Conforms(p, env, accepts, p.store[id], node) {
      DecoderFrom(p, env, seen, rank, id, node, [], Enough(seen, rank, id, node));
    }
    assert IsConformance(p, env, seen, accepts);
    hide IsConformance;
    forall a: Accepts, b: Accepts, id, node
      | IsConformance(p, env, seen, a) && IsConformance(p, env, seen, b) && id in seen
      ensures a(id, node) == b(id, node) {
      DecodingIsConformance(p, env, seen, a);
      DecodingIsConformance(p, env, seen, b);
      BothDecide(p, env, a, b, id, node);
    }
  }

  lemma BothDecide(p: Program, env: Env, a: Accepts, b: Accepts, id: Id, node: Node)
    requires Decides(p, env, a, id, node) && Decides(p, env, b, id, node)
    ensures a(id, node) == b(id, node)
  {
    hide Decoded;
    var one: nat :| DecidesFrom(p, env, a, id, node, one);
    var two: nat :| DecidesFrom(p, env, b, id, node, two);
    var deep := Max(one, two);
    assert Matches(Decoded(p, env, SObj(id), node, [], deep), a(id, node));
    assert Matches(Decoded(p, env, SObj(id), node, [], deep), b(id, node));
  }
}
