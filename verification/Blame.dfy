/** What a refusal says is true: its place leads to a part of the node, through last members and items, and
    that part has the fault at some schema of the program, with none of the faults that are looked for first. */
module Blame {
  import opened JsonGrammar
  import opened Schemas
  import opened SchemaWords
  import opened Lexemes
  import opened Decoder
  import opened DecoderLoops
  import opened Duplicates
  import opened KeepLastWins
  import opened Mirror
  import opened Conformance
  import opened Wrappers

  // ---- places ----

  /** The way leads from the node to the target; the places of schemas themselves end it. */
  ghost predicate Leads(node: Node, way: Path, target: Node)
    decreases |way|, 0
  {
    if way == [] then node == target
    else match way[0]
      case Member(name) => node.Obj? && exists i :: MemberLeads(node.members, i, name, way[1..], target)
      case Item(i) => node.Arr? && i < |node.items| && Leads(node.items[i], way[1..], target)
      case _ => |way| == 1 && node == target
  }

  /** Through the last member of the name. */
  ghost predicate MemberLeads(ms: Members, i: int, name: Text, way: Path, target: Node)
    decreases |way|, 1
  {
    && 0 <= i < |ms| && ms[i].0 == name && (forall j :: i < j < |ms| ==> ms[j].0 != name)
    && Leads(ms[i].1, way, target)
  }

  // ---- faults ----

  /** The schema refers nowhere, has no branches, and asks for the kind: by its type, or by its exemplar.
      Free-form data, where nothing is said, may be asked for any. */
  ghost predicate Asks(m: Mapping, kind: Kind) {
    m == map[] || (Unshaped(m) &&
      match Says(m, "type")
      case Some(SStr(name)) => IsKind(SStr(name), kind)
      case Some(SList(_)) => false
      case _ => ExemplarKind(m) == Some(kind))
  }

  ghost predicate Unshaped(m: Mapping) {
    && !(Says(m, "$ref").Some? && Says(m, "$ref").value.SStr?)
    && !(Says(m, "oneOf").Some? && Says(m, "oneOf").value.SList?)
  }

  ghost predicate Less(x: real, bound: Option<SVal>) { bound.Some? && bound.value.SNum? && x < bound.value.n.value }
  ghost predicate More(x: real, bound: Option<SVal>) { bound.Some? && bound.value.SNum? && x > bound.value.n.value }

  /** The value that the bounds are held against. */
  ghost predicate Valued(env: Env, m: Mapping, node: Node, x: real) {
    && node.Num?
    && ((Asks(m, IntegerKind) && Shared(node.raw) && x == IntegerValue(node.raw) as real)
        || (Asks(m, NumberKind) && env.number(node.raw).Some? && x == env.number(node.raw).value.value))
  }

  ghost predicate StringFault(env: Env, m: Mapping, node: Node, r: Reason) {
    Asks(m, StringKind) && node.Str? &&
      match r
      case TooShort => Less(|node.s| as real, Says(m, "minLength"))
      case TooLong => !Less(|node.s| as real, Says(m, "minLength")) && More(|node.s| as real, Says(m, "maxLength"))
      case PatternMismatch =>
        && Between(|node.s| as real, Says(m, "minLength"), Says(m, "maxLength"))
        && Says(m, "pattern").Some? && Says(m, "pattern").value.SStr?
        && !env.matches(Says(m, "pattern").value.s, node.s)
      case FormatMismatch =>
        && Between(|node.s| as real, Says(m, "minLength"), Says(m, "maxLength"))
        && (Says(m, "pattern").Some? && Says(m, "pattern").value.SStr? ==>
              env.matches(Says(m, "pattern").value.s, node.s))
        && Says(m, "format").Some? && Says(m, "format").value.SStr?
        && !env.formatted(Says(m, "format").value.s, node.s)
      case _ => false
  }

  ghost predicate NumberFault(env: Env, m: Mapping, node: Node, r: Reason) {
    node.Num? &&
      match r
      case NotIntegerToken => Asks(m, IntegerKind) && !IsIntegerToken(node.raw)
      case OutsideSharedRange => Asks(m, IntegerKind) && IsIntegerToken(node.raw) && !Shared(node.raw)
      case NotFinite => Asks(m, NumberKind) && env.number(node.raw) == None
      case BelowMinimum => exists x :: Valued(env, m, node, x) && Less(x, Says(m, "minimum"))
      case AboveMaximum =>
        exists x :: Valued(env, m, node, x) && !Less(x, Says(m, "minimum")) && More(x, Says(m, "maximum"))
      case _ => false
  }

  ghost predicate ArrayFault(m: Mapping, node: Node, r: Reason) {
    Asks(m, ArrayKind) && node.Arr? &&
      match r
      case TooFewItems => Less(|node.items| as real, Says(m, "minItems"))
      case TooManyItems =>
        !Less(|node.items| as real, Says(m, "minItems")) && More(|node.items| as real, Says(m, "maxItems"))
      case UnconstrainedItems =>
        Between(|node.items| as real, Says(m, "minItems"), Says(m, "maxItems")) && Says(m, "items") == None
      case _ => false
  }

  ghost predicate IsMember(ms: Members, name: Text) { exists i :: 0 <= i < |ms| && ms[i].0 == name }

  /** The first required field that is no member's name. */
  ghost predicate MissesFirst(names: seq<SVal>, i: int, ms: Members) {
    && 0 <= i < |names| && !(names[i].SStr? && IsMember(ms, names[i].s))
    && forall j :: 0 <= j < i ==> names[j].SStr? && IsMember(ms, names[j].s)
  }

  ghost predicate ObjectFault(p: Program, m: Mapping, node: Node, r: Reason) {
    Asks(m, ObjectKind) && node.Obj? && PropertyTable(p, m).Some? &&
      match r
      case MissingField(field) =>
        && Says(m, "required").Some? && Says(m, "required").value.SList?
        && var names := Says(m, "required").value.items;
          exists i :: MissesFirst(names, i, node.members) && names[i] == field
      case UnknownField(name) =>
        && RequiredHere(m, node.members) && IsMember(node.members, name)
        && name !in PropertyTable(p, m).value && Says(m, "additionalProperties") == Some(SBool(false))
      case _ => false
  }

  ghost predicate KindFault(m: Mapping, node: Node, r: Reason) {
    match r
    case NotNull => Asks(m, NullKind) && !node.Null?
    case NotBoolean => Asks(m, BooleanKind) && !node.Bool?
    case NotString => Asks(m, StringKind) && !node.Str?
    case NotNumber => (Asks(m, IntegerKind) || Asks(m, NumberKind)) && !node.Num?
    case NotArray => Asks(m, ArrayKind) && !node.Arr?
    case NotObject => Asks(m, ObjectKind) && !node.Obj?
    case _ => false
  }

  /** The node stands for no scalar that is allowed. */
  ghost predicate NotAmong(env: Env, node: Node, allowed: seq<SVal>) {
    node.Arr? || node.Obj? || exists kind ::
      ScalarOf(env, kind, node).Some? && ScalarOf(env, kind, node).value !in allowed
  }

  ghost predicate LiteralFault(env: Env, m: Mapping, node: Node, r: Reason) {
    Unshaped(m) &&
      match r
      case NotConst => Says(m, "const").Some? && NotAmong(env, node, [Says(m, "const").value])
      case OutsideEnum =>
        Says(m, "enum").Some? && Says(m, "enum").value.SList? && NotAmong(env, node, Says(m, "enum").value.items)
      case _ => false
  }

  /** Some number of branches other than one decodes the node. */
  ghost predicate NotOneBranch(p: Program, env: Env, branches: seq<SVal>, node: Node, path: Path, depth: nat) {
    forall i :: 0 <= i < |branches| ==> !OnlyDecoding(p, env, branches, node, path, depth, i)
  }

  ghost predicate OnlyDecoding(p: Program, env: Env, branches: seq<SVal>, node: Node, path: Path, depth: nat, i: int)
    requires 0 <= i < |branches|
  {
    && Decoded(p, env, branches[i], node, path, depth).Ok?
    && forall j :: 0 <= j < |branches| && Decoded(p, env, branches[j], node, path, depth).Ok? ==> j == i
  }

  /** No scalar kind of the list fits. */
  ghost predicate NoKindFits(p: Program, env: Env, m: Mapping, kinds: seq<SVal>, node: Node) {
    forall i, kind :: 0 <= i < |kinds| && IsKind(kinds[i], kind) && kind != ArrayKind && kind != ObjectKind ==>
      !KindFits(p, env, (id, n) => false, m, kind, node)
  }

  ghost predicate ShapeFault(p: Program, env: Env, m: Mapping, node: Node, r: Reason) {
    match r
    case UnsupportedReference =>
      && Says(m, "$ref").Some? && Says(m, "$ref").value.SStr?
      && forall name :: Says(m, "$ref").value.s != Ascii("#/components/schemas/") + name
    case UnknownSchema =>
      && Says(m, "$ref").Some? && Says(m, "$ref").value.SStr?
      && exists name :: Says(m, "$ref").value.s == Ascii("#/components/schemas/") + name && name !in p.schemas
    case NotExactlyOne =>
      && Says(m, "oneOf").Some? && Says(m, "oneOf").value.SList?
      && exists path, depth: nat :: NotOneBranch(p, env, Says(m, "oneOf").value.items, node, path, depth)
    case WrongType =>
      && Unshaped(m) && Says(m, "type").Some? && Says(m, "type").value.SList?
      && NoKindFits(p, env, m, Says(m, "type").value.items, node)
    case UnsupportedType =>
      && Unshaped(m) && Says(m, "type").Some? && Says(m, "type").value.SStr?
      && forall kind :: !IsKind(Says(m, "type").value, kind)
    case NoScalarType =>
      && Unshaped(m) && !(Says(m, "type").Some? && (Says(m, "type").value.SStr? || Says(m, "type").value.SList?))
      && ExemplarKind(m) == None
    case _ => false
  }

  ghost predicate Fault(p: Program, env: Env, m: Mapping, node: Node, r: Reason) {
    || KindFault(m, node, r) || StringFault(env, m, node, r) || NumberFault(env, m, node, r) || ArrayFault(m, node, r)
    || ObjectFault(p, m, node, r) || LiteralFault(env, m, node, r) || ShapeFault(p, env, m, node, r)
  }

  /** A schema that is no mapping, or properties that are none. */
  ghost predicate NoMapping(p: Program, m: Mapping, way: Path, r: Reason) {
    && r == NotAMapping && way != []
    && (way[|way| - 1] == SchemaItself || (way[|way| - 1] == PropertiesItself && PropertyTable(p, m) == None))
  }

  ghost predicate BlamedAt(p: Program, env: Env, node: Node, way: Path, r: Reason, target: Node, m: Mapping) {
    && Leads(node, way, target) && (m == map[] || m in p.store.Values)
    && (Fault(p, env, m, target, r) || NoMapping(p, m, way, r))
  }

  ghost predicate Blamed(p: Program, env: Env, node: Node, way: Path, r: Reason) {
    exists target, m :: BlamedAt(p, env, node, way, r, target, m)
  }

  /** A refusal below the path blames what it leads to. */
  ghost predicate Truthful(p: Program, env: Env, node: Node, path: Path, o: Outcome) {
    o.Refused? ==> path <= o.path && Blamed(p, env, node, o.path[|path|..], o.reason)
  }

  ghost predicate TruthfulBelow(p: Program, env: Env, rec: Rec) {
    forall v, n, q :: Truthful(p, env, n, q, rec(v, n, q))
  }

  // ---- from a part to the whole ----

  lemma HereTruth(p: Program, env: Env, m: Mapping, node: Node, path: Path, r: Reason)
    requires m == map[] || m in p.store.Values
    requires Fault(p, env, m, node, r)
    ensures Truthful(p, env, node, path, Refused(path, r))
  {
    hide Fault, NoMapping;
    assert path[|path|..] == [];
    assert BlamedAt(p, env, node, [], r, node, m);
  }

  lemma SelfTruth(p: Program, env: Env, m: Mapping, node: Node, path: Path, place: Place)
    requires (m == map[] || m in p.store.Values) && NoMapping(p, m, [place], NotAMapping)
    ensures Truthful(p, env, node, path, Refused(path + [place], NotAMapping))
  {
    hide Fault;
    assert (path + [place])[|path|..] == [place];
    assert BlamedAt(p, env, node, [place], NotAMapping, node, m);
  }

  lemma PartTruth(p: Program, env: Env, node: Node, child: Node, path: Path, place: Place, o: Outcome)
    requires Truthful(p, env, child, path + [place], o)
    requires forall way, target :: Leads(child, way, target) ==> Leads(node, [place] + way, target)
    ensures Truthful(p, env, node, path, o)
  {
    hide Fault, Leads;
    if o.Refused? {
      var way := o.path[|path| + 1..];
      assert o.path[..|path| + 1] == path + [place];
      assert o.path[|path|..] == [place] + way;
      var target, m :| BlamedAt(p, env, child, way, o.reason, target, m);
      LastPlace(place, way);
      assert BlamedAt(p, env, node, [place] + way, o.reason, target, m);
    }
  }

  lemma LastPlace(place: Place, way: Path)
    ensures way != [] ==> ([place] + way)[|way|] == way[|way| - 1]
  {
  }

  lemma ItemTruth(p: Program, env: Env, items: seq<Node>, i: nat, path: Path, o: Outcome)
    requires i < |items| && Truthful(p, env, items[i], path + [Item(i)], o)
    ensures Truthful(p, env, Arr(items), path, o)
  {
    forall way, target | Leads(items[i], way, target) ensures Leads(Arr(items), [Item(i)] + way, target) {
      assert ([Item(i)] + way)[1..] == way;
    }
    PartTruth(p, env, Arr(items), items[i], path, Item(i), o);
  }

  lemma MemberTruth(p: Program, env: Env, ms: Members, i: nat, path: Path, o: Outcome)
    requires i < |ms| && Survives(ms, i) && Truthful(p, env, ms[i].1, path + [Member(ms[i].0)], o)
    ensures Truthful(p, env, Obj(ms), path, o)
  {
    var name := ms[i].0;
    forall way, target | Leads(ms[i].1, way, target) ensures Leads(Obj(ms), [Member(name)] + way, target) {
      assert ([Member(name)] + way)[1..] == way;
      assert MemberLeads(ms, i, name, way, target);
    }
    PartTruth(p, env, Obj(ms), ms[i].1, path, Member(name), o);
  }

  lemma ArrayTruth(p: Program, env: Env, items: seq<Node>, os: seq<Outcome>, path: Path)
    requires |os| == |items| && forall i :: 0 <= i < |os| ==> Truthful(p, env, items[i], path + [Item(i)], os[i])
    ensures Truthful(p, env, Arr(items), path, ArrayOf(os))
  {
    hide Gather, Truthful;
    var at := Gathers(os);
    if Gather(os).Stop? {
      ItemTruth(p, env, items, at, path, os[at]);
    } else {
      OkTruth(p, env, Arr(items), path, ArrayOf(os));
    }
  }

  lemma OkTruth(p: Program, env: Env, node: Node, path: Path, o: Outcome)
    requires !o.Refused?
    ensures Truthful(p, env, node, path, o)
  {
  }

  lemma ObjectTruth(p: Program, env: Env, ms: Members, os: seq<Outcome>, path: Path)
    requires |os| == |Kept(ms)|
    requires forall i :: 0 <= i < |os| ==> FieldTruth(p, env, ms, Kept(ms)[i], path, os[i])
    ensures Truthful(p, env, Obj(ms), path, ObjectOf(NamesOf(ms, Kept(ms)), os))
  {
    hide Gather, Truthful, Kept, Record, FieldTruth;
    KeptSelects(ms);
    var at := Gathers(os);
    if Gather(os).Stop? {
      assert FieldTruth(p, env, ms, Kept(ms)[at], path, os[at]);
      FieldIsPart(p, env, ms, Kept(ms)[at], path, os[at]);
    } else {
      OkTruth(p, env, Obj(ms), path, ObjectOf(NamesOf(ms, Kept(ms)), os));
    }
  }

  /** What the outcome of a member says is true of the member, or of the object. */
  ghost predicate FieldTruth(p: Program, env: Env, ms: Members, i: nat, path: Path, o: Outcome)
    requires i < |ms|
  {
    Truthful(p, env, ms[i].1, path + [Member(ms[i].0)], o) || Truthful(p, env, Obj(ms), path, o)
  }

  lemma FieldIsPart(p: Program, env: Env, ms: Members, i: nat, path: Path, o: Outcome)
    requires i < |ms| && Survives(ms, i) && FieldTruth(p, env, ms, i, path, o)
    ensures Truthful(p, env, Obj(ms), path, o)
  {
    hide Truthful;
    if Truthful(p, env, ms[i].1, path + [Member(ms[i].0)], o) {
      MemberTruth(p, env, ms, i, path, o);
    }
  }

  // ---- scalars ----

  lemma StringTruth(p: Program, env: Env, m: Mapping, node: Node, path: Path)
    requires (m == map[] || m in p.store.Values) && Asks(m, StringKind)
    ensures Truthful(p, env, node, path, ReadString(env, m, node, path))
  {
    hide Get, Says, Asks, Truthful, NumberFault, ArrayFault, ObjectFault, LiteralFault, ShapeFault;
    SaysGets(m);
    var o := ReadString(env, m, node, path);
    if o.Refused? {
      assert KindFault(m, node, o.reason) || StringFault(env, m, node, o.reason);
      HereTruth(p, env, m, node, path, o.reason);
    } else {
      OkTruth(p, env, node, path, o);
    }
  }

  lemma IntegerTruth(p: Program, env: Env, m: Mapping, node: Node, path: Path)
    requires (m == map[] || m in p.store.Values) && Asks(m, IntegerKind)
    ensures Truthful(p, env, node, path, ReadInteger(m, node, path))
  {
    hide Get, Says, Asks, Truthful, IsIntegerToken, IntegerValue, InSharedRange, StringFault, ArrayFault, ObjectFault;
    hide LiteralFault, ShapeFault;
    SaysGets(m);
    var o := ReadInteger(m, node, path);
    if node.Num? && IsIntegerToken(node.raw) {
      SharedRangeIsNumeric(node.raw);
      assert Shared(node.raw) ==> Valued(env, m, node, IntegerValue(node.raw) as real);
    }
    if o.Refused? {
      assert KindFault(m, node, o.reason) || NumberFault(env, m, node, o.reason);
      HereTruth(p, env, m, node, path, o.reason);
    } else {
      OkTruth(p, env, node, path, o);
    }
  }

  lemma NumberTruth(p: Program, env: Env, m: Mapping, node: Node, path: Path)
    requires (m == map[] || m in p.store.Values) && Asks(m, NumberKind)
    ensures Truthful(p, env, node, path, ReadNumber(env, m, node, path))
  {
    hide Get, Says, Asks, Truthful, Shared, IntegerValue, IsIntegerToken, StringFault, ArrayFault, ObjectFault;
    hide LiteralFault, ShapeFault;
    SaysGets(m);
    var o := ReadNumber(env, m, node, path);
    if node.Num? && env.number(node.raw).Some? {
      assert Valued(env, m, node, env.number(node.raw).value.value);
    }
    if o.Refused? {
      assert KindFault(m, node, o.reason) || NumberFault(env, m, node, o.reason);
      HereTruth(p, env, m, node, path, o.reason);
    } else {
      OkTruth(p, env, node, path, o);
    }
  }

  lemma NullTruth(p: Program, env: Env, m: Mapping, node: Node, path: Path)
    requires m == map[] || m in p.store.Values
    ensures Asks(m, NullKind) ==> Truthful(p, env, node, path, ReadNull(node, path))
    ensures Asks(m, BooleanKind) ==> Truthful(p, env, node, path, ReadBoolean(node, path))
  {
    hide Asks, Truthful;
    if Asks(m, NullKind) && !node.Null? {
      assert KindFault(m, node, NotNull);
      HereTruth(p, env, m, node, path, NotNull);
    }
    if Asks(m, BooleanKind) && !node.Bool? {
      assert KindFault(m, node, NotBoolean);
      HereTruth(p, env, m, node, path, NotBoolean);
    }
    if node.Null? {
      OkTruth(p, env, node, path, ReadNull(node, path));
    }
    if node.Bool? {
      OkTruth(p, env, node, path, ReadBoolean(node, path));
    }
  }

  // ---- free-form data ----

  lemma {:induction false} UntypedTruth(p: Program, env: Env, node: Node, path: Path)
    ensures Truthful(p, env, node, path, Untyped(env, node, path))
    decreases node
  {
    hide Truthful, Gather, Record, Kept, ReadNumber, ReadInteger, Fractional;
    match node
    case Num(raw) =>
      IntegerTruth(p, env, map[], node, path);
      NumberTruth(p, env, map[], node, path);
    case Arr(items) =>
      var os := seq(|items|, i requires 0 <= i < |items| => Untyped(env, items[i], path + [Item(i)]));
      forall i | 0 <= i < |items| ensures Truthful(p, env, items[i], path + [Item(i)], os[i]) {
        UntypedTruth(p, env, items[i], path + [Item(i)]);
      }
      ArrayTruth(p, env, items, os, path);
    case Obj(ms) =>
      var k := Kept(ms);
      var os := seq(|k|, i requires 0 <= i < |k| => Untyped(env, ms[k[i]].1, path + [Member(ms[k[i]].0)]));
      forall i | 0 <= i < |k| ensures FieldTruth(p, env, ms, k[i], path, os[i]) {
        UntypedTruth(p, env, ms[k[i]].1, path + [Member(ms[k[i]].0)]);
      }
      ObjectTruth(p, env, ms, os, path);
    case _ =>
      OkTruth(p, env, node, path, Untyped(env, node, path));
  }

  // ---- arrays and objects ----

  lemma ReadArrayTruth(p: Program, env: Env, rec: Rec, m: Mapping, node: Node, path: Path)
    requires m in p.store.Values && Asks(m, ArrayKind) && TruthfulBelow(p, env, rec)
    ensures Truthful(p, env, node, path, ReadArray(rec, m, node, path))
  {
    hide Get, Says, Asks, Truthful, Gather, StringFault, NumberFault, ObjectFault, LiteralFault, ShapeFault;
    SaysGets(m);
    var o := ReadArray(rec, m, node, path);
    if !node.Arr? {
      assert KindFault(m, node, NotArray);
      HereTruth(p, env, m, node, path, NotArray);
    } else if Between(|node.items| as real, Get(m, MinItemsKey), Get(m, MaxItemsKey)) && Get(m, ItemsKey).Some? {
      ArrayTruth(p, env, node.items, ItemOutcomes(rec, Get(m, ItemsKey).value, node.items, path), path);
    } else {
      assert ArrayFault(m, node, o.reason);
      HereTruth(p, env, m, node, path, o.reason);
    }
  }

  lemma ReadFieldTruth(p: Program, env: Env, rec: Rec, m: Mapping, ms: Members, i: nat, path: Path)
    requires m in p.store.Values && Asks(m, ObjectKind) && TruthfulBelow(p, env, rec)
    requires i < |ms| && PropertiesOf(p, m).Some? && RequiredHere(m, ms)
    ensures FieldTruth(p, env, ms, i, path, ReadField(p, env, rec, m, PropertiesOf(p, m).value, ms[i], path))
  {
    hide Get, Says, Asks, Truthful, Untyped, FreeForm, PropertiesOf, PropertyTable, RequiredHere;
    SaysGets(m);
    TablesAgree(p, m);
    MissingIsFree(p);
    var (name, node) := ms[i];
    UntypedTruth(p, env, node, path + [Member(name)]);
    if name !in PropertiesOf(p, m).value && Get(m, AdditionalKey) == Some(SBool(false)) {
      assert IsMember(ms, name);
      assert ObjectFault(p, m, Obj(ms), UnknownField(name));
      HereTruth(p, env, m, Obj(ms), path, UnknownField(name));
    }
  }

  lemma {:induction false} MissingTruth(ms: Members, required: seq<SVal>) returns (i: nat)
    ensures FirstMissing(ms, required).Some? ==>
      MissesFirst(required, i, ms) && required[i] == FirstMissing(ms, required).value
    decreases |required|
  {
    i := 0;
    if required != [] && required[0].SStr? && HasMember(ms, required[0].s) {
      var rest := MissingTruth(ms, required[1..]);
      i := rest + 1;
      if FirstMissing(ms, required).Some? {
        forall j | 0 <= j < i ensures required[j].SStr? && IsMember(ms, required[j].s) {
          if j > 0 {
            assert required[j] == required[1..][j - 1];
          }
        }
      }
    }
  }

  lemma ReadObjectTruth(p: Program, env: Env, rec: Rec, m: Mapping, node: Node, path: Path)
    requires m in p.store.Values && Asks(m, ObjectKind) && TruthfulBelow(p, env, rec)
    ensures Truthful(p, env, node, path, ReadObject(p, env, rec, m, node, path))
  {
    hide Get, Says, Asks, Truthful, Gather, Record, Kept, FirstMissing, PropertiesOf, PropertyTable, ReadField;
    hide MissesFirst, RequiredHere, TruthfulBelow, FieldTruth, StringFault, NumberFault, ArrayFault, LiteralFault;
    hide ShapeFault, IsMember;
    SaysGets(m);
    TablesAgree(p, m);
    if !node.Obj? {
      assert KindFault(m, node, NotObject);
      HereTruth(p, env, m, node, path, NotObject);
    } else if PropertiesOf(p, m) == None {
      SelfTruth(p, env, m, node, path, PropertiesItself);
    } else {
      var ms := node.members;
      RequiredMatches(m, ms);
      if FirstMissing(ms, RequiredOf(m)).Some? {
        var i := MissingTruth(ms, RequiredOf(m));
        RequiredIsSaid(m, ms, i);
        assert ObjectFault(p, m, node, MissingField(RequiredOf(m)[i]));
        HereTruth(p, env, m, node, path, MissingField(RequiredOf(m)[i]));
      } else {
        var k := Kept(ms);
        var os := FieldOutcomes(p, env, rec, m, PropertiesOf(p, m).value, ms, k, path);
        forall i | 0 <= i < |k| ensures FieldTruth(p, env, ms, k[i], path, os[i]) {
          ReadFieldTruth(p, env, rec, m, ms, k[i], path);
        }
        ObjectTruth(p, env, ms, os, path);
      }
    }
  }

  lemma RequiredIsSaid(m: Mapping, ms: Members, i: nat)
    requires MissesFirst(RequiredOf(m), i, ms)
    ensures Says(m, "required").Some? && Says(m, "required").value == SList(RequiredOf(m))
  {
    hide Get, Says;
    SaysGets(m);
  }

  // ---- by type ----

  lemma TypedTruth(p: Program, env: Env, rec: Rec, m: Mapping, kind: Text, node: Node, path: Path)
    requires m in p.store.Values && TruthfulBelow(p, env, rec)
    requires Unshaped(m) && Says(m, "type") == Some(SStr(kind))
    ensures Truthful(p, env, node, path, ReadTyped(p, env, rec, m, kind, node, path))
  {
    hide Get, Says, KindOf, Truthful, TruthfulBelow, ReadNull, ReadBoolean, ReadString, ReadInteger, ReadNumber;
    hide ReadArray, ReadObject, IsKind, ExemplarKind, Unshaped;
    forall k ensures KindOf(kind) == Some(k) <==> IsKind(SStr(kind), k) {
      KindIsNamed(kind, k);
    }
    match KindOf(kind)
    case Some(NullKind) => NullTruth(p, env, m, node, path);
    case Some(BooleanKind) => NullTruth(p, env, m, node, path);
    case Some(StringKind) => StringTruth(p, env, m, node, path);
    case Some(IntegerKind) => IntegerTruth(p, env, m, node, path);
    case Some(NumberKind) => NumberTruth(p, env, m, node, path);
    case Some(ArrayKind) => ReadArrayTruth(p, env, rec, m, node, path);
    case Some(ObjectKind) => ReadObjectTruth(p, env, rec, m, node, path);
    case None =>
      assert ShapeFault(p, env, m, node, UnsupportedType);
      HereTruth(p, env, m, node, path, UnsupportedType);
  }

  ghost predicate Untypical(m: Mapping) {
    !(Says(m, "type").Some? && (Says(m, "type").value.SStr? || Says(m, "type").value.SList?))
  }

  lemma ImplicitTruth(p: Program, env: Env, m: Mapping, node: Node, path: Path)
    requires m in p.store.Values && Unshaped(m) && Untypical(m)
    ensures Truthful(p, env, node, path, ReadImplicit(env, m, node, path))
  {
    hide Get, Says, Truthful, ReadNull, ReadBoolean, ReadString, ReadInteger, ReadNumber, ReadImplicit, ExemplarKind;
    hide Unshaped;
    ImplicitIsTyped(env, m, node, path);
    match ExemplarKind(m)
    case Some(NullKind) => NullTruth(p, env, m, node, path);
    case Some(BooleanKind) => NullTruth(p, env, m, node, path);
    case Some(StringKind) => StringTruth(p, env, m, node, path);
    case Some(IntegerKind) => IntegerTruth(p, env, m, node, path);
    case Some(NumberKind) => NumberTruth(p, env, m, node, path);
    case Some(_) => assert false;
    case None =>
      NoScalar(env, m, node, path);
      assert ShapeFault(p, env, m, node, NoScalarType);
      HereTruth(p, env, m, node, path, NoScalarType);
  }

  lemma NoScalar(env: Env, m: Mapping, node: Node, path: Path)
    requires ExemplarKind(m) == None
    ensures ReadImplicit(env, m, node, path) == Refused(path, NoScalarType)
  {
    hide Get, Says, ExemplarSaid, Exemplar;
    SameExemplar(m);
  }

  /** A list of kinds refuses as a whole, where none of them accepts. */
  lemma ListTruth(p: Program, env: Env, rec: Rec, m: Mapping, kinds: seq<SVal>, node: Node, path: Path)
    requires m in p.store.Values && Unshaped(m) && Says(m, "type") == Some(SList(kinds))
    ensures var os := KindOutcomes(p, env, rec, m, StringKinds(kinds), node, path);
      Truthful(p, env, node, path, FirstNotRefused(os, path))
  {
    hide Get, Says, Truthful, ReadTyped, StringKinds, Unshaped, NoKindFits;
    var ks := StringKinds(kinds);
    var os := KindOutcomes(p, env, rec, m, ks, node, path);
    AllRefused(os, path);
    if FirstNotRefused(os, path).Refused? {
      forall i | 0 <= i < |os| ensures ReadTyped(p, env, rec, m, ks[i], node, path).Refused? {
        assert os[i].Refused?;
      }
      KindsRefuse(p, env, rec, m, kinds, node, path);
      assert ShapeFault(p, env, m, node, WrongType);
      HereTruth(p, env, m, node, path, WrongType);
    } else {
      OkTruth(p, env, node, path, FirstNotRefused(os, path));
    }
  }

  lemma {:induction false} AllRefused(os: seq<Outcome>, path: Path)
    ensures FirstNotRefused(os, path).Refused? ==>
      FirstNotRefused(os, path) == Refused(path, WrongType) && forall i :: 0 <= i < |os| ==> os[i].Refused?
    decreases |os|
  {
    if os != [] {
      AllRefused(os[1..], path);
      assert forall i :: 1 <= i < |os| ==> os[i] == os[1..][i - 1];
    }
  }

  lemma KindsRefuse(p: Program, env: Env, rec: Rec, m: Mapping, kinds: seq<SVal>, node: Node, path: Path)
    requires forall i :: 0 <= i < |StringKinds(kinds)| ==>
      ReadTyped(p, env, rec, m, StringKinds(kinds)[i], node, path).Refused?
    ensures NoKindFits(p, env, m, kinds, node)
  {
    hide Get, Says, ReadTyped, StringKinds, KindFits, IsKind;
    forall i, kind | 0 <= i < |kinds| && IsKind(kinds[i], kind) && kind != ArrayKind && kind != ObjectKind
      ensures !KindFits(p, env, (id, n) => false, m, kind, node) {
      NamedIsString(kinds[i], kind);
      var j := StringAt(kinds, i);
      ScalarFits(p, env, rec, m, kinds[i].s, kind, node, path);
    }
  }

  lemma NamedIsString(v: SVal, kind: Kind)
    requires IsKind(v, kind)
    ensures v.SStr?
  {
  }

  lemma {:induction false} StringAt(kinds: seq<SVal>, i: nat) returns (j: nat)
    requires i < |kinds| && kinds[i].SStr?
    ensures j < |StringKinds(kinds)| && StringKinds(kinds)[j] == kinds[i].s
    decreases |kinds|
  {
    if i == 0 {
      j := 0;
    } else {
      var rest := StringAt(kinds[1..], i - 1);
      j := if kinds[0].SStr? then rest + 1 else rest;
    }
  }

  lemma ScalarFits(p: Program, env: Env, rec: Rec, m: Mapping, name: Text, kind: Kind, node: Node, path: Path)
    requires IsKind(SStr(name), kind) && kind != ArrayKind && kind != ObjectKind
    requires ReadTyped(p, env, rec, m, name, node, path).Refused?
    ensures !KindFits(p, env, (id, n) => false, m, kind, node)
  {
    hide Get, Says, KindOf, IsKind, ReadString, ReadInteger, ReadNumber, StringFits, IntegerFits, NumberFits;
    KindIsNamed(name, kind);
    StringMatches(env, m, node, path);
    NumberMatches(env, m, node, path);
    IntegerMatches(m, node, path);
  }

  lemma ByTypeTruth(p: Program, env: Env, rec: Rec, m: Mapping, node: Node, path: Path)
    requires m in p.store.Values && TruthfulBelow(p, env, rec) && Unshaped(m)
    ensures Truthful(p, env, node, path, ReadByType(p, env, rec, m, node, path))
  {
    hide Get, Says, Truthful, TruthfulBelow, ReadTyped, FirstNotRefused, ReadImplicit, Unshaped;
    SaysGets(m);
    match Get(m, TypeKey)
    case Some(SList(kinds)) => ListTruth(p, env, rec, m, kinds, node, path);
    case Some(SStr(kind)) => TypedTruth(p, env, rec, m, kind, node, path);
    case _ => ImplicitTruth(p, env, m, node, path);
  }

  // ---- literals ----

  lemma NotIs(env: Env, node: Node, d: Data, allowed: seq<SVal>)
    requires Mirrors(env, node, d) && forall v :: v in allowed ==> !Is(d, v)
    ensures NotAmong(env, node, allowed)
  {
    hide IsIntegerToken, IntegerValue;
    if !node.Arr? && !node.Obj? {
      var kind, v := KindMirrored(env, node, d);
      assert ScalarOf(env, kind, node) == Some(v) && Is(d, v);
    }
  }

  lemma KindMirrored(env: Env, node: Node, d: Data) returns (kind: Kind, v: SVal)
    requires Mirrors(env, node, d) && !node.Arr? && !node.Obj?
    ensures ScalarOf(env, kind, node) == Some(v) && Is(d, v)
  {
    hide IsIntegerToken, IntegerValue;
    match node
    case Null => kind, v := NullKind, SNull;
    case Bool(b) => kind, v := BooleanKind, SBool(b);
    case Str(s) => kind, v := StringKind, SStr(s);
    case Num(raw) =>
      v := SNum(d.n);
      kind := if env.number(raw) == Some(d.n) then NumberKind else IntegerKind;
  }

  lemma ConstrainedTruth(p: Program, env: Env, m: Mapping, node: Node, path: Path, o: Outcome)
    requires m in p.store.Values && Unshaped(m) && Truthful(p, env, node, path, o)
    requires o.Ok? ==> Mirrors(env, node, o.data)
    ensures Truthful(p, env, node, path, Constrained(m, o, path))
  {
    hide Get, Says, Truthful, Is, Mirrors, NotAmong, Unshaped;
    SaysGets(m);
    var c := Constrained(m, o, path);
    if o.Ok? && c.Refused? {
      if c.reason == NotConst {
        NotIs(env, node, o.data, [Get(m, ConstKey).value]);
      } else {
        NotIs(env, node, o.data, Get(m, EnumKey).value.items);
      }
      assert LiteralFault(env, m, node, c.reason);
      HereTruth(p, env, m, node, path, c.reason);
    } else if o.Ok? {
      OkTruth(p, env, node, path, c);
    }
  }

  // ---- references and branches ----

  lemma ReferenceTruth(p: Program, env: Env, rec: Rec, m: Mapping, reference: Text, node: Node, path: Path)
    requires m in p.store.Values && TruthfulBelow(p, env, rec) && Get(m, RefKey) == Some(SStr(reference))
    ensures Truthful(p, env, node, path, ReadReference(p, rec, reference, node, path))
  {
    hide Get, Says, Truthful, Ascii;
    SaysGets(m);
    var prefix := Ascii("#/components/schemas/");
    assert REFERENCE_PREFIX == prefix;
    if !(prefix <= reference) {
      forall name ensures reference != prefix + name {
      }
      assert ShapeFault(p, env, m, node, UnsupportedReference);
      HereTruth(p, env, m, node, path, UnsupportedReference);
    } else {
      var name := reference[|prefix|..];
      assert reference == prefix + name;
      if name !in p.schemas {
        assert ShapeFault(p, env, m, node, UnknownSchema);
        HereTruth(p, env, m, node, path, UnknownSchema);
      }
    }
  }

  lemma BranchesTruth(p: Program, env: Env, m: Mapping, branches: seq<SVal>, node: Node, path: Path, depth: nat)
    requires m in p.store.Values && Get(m, OneOfKey) == Some(SList(branches))
    ensures var os := BranchOutcomes(Down(p, env, depth), branches, node, path);
      Truthful(p, env, node, path, ExactlyOne(os, path))
  {
    hide Get, Says, Truthful, Oks, Decoded;
    SaysGets(m);
    var os := BranchOutcomes(Down(p, env, depth), branches, node, path);
    if ExactlyOne(os, path).Refused? {
      OksCount(os);
      forall i | 0 <= i < |branches| ensures !OnlyDecoding(p, env, branches, node, path, depth, i) {
        assert !OnlyOk(os, i);
      }
      assert NotOneBranch(p, env, branches, node, path, depth);
      assert ShapeFault(p, env, m, node, NotExactlyOne);
      HereTruth(p, env, m, node, path, NotExactlyOne);
    } else {
      OkTruth(p, env, node, path, ExactlyOne(os, path));
    }
  }

  lemma MappingTruth(p: Program, env: Env, m: Mapping, node: Node, path: Path, depth: nat)
    requires m in p.store.Values && TruthfulBelow(p, env, Down(p, env, depth))
    requires FaithfulBelow(env, Down(p, env, depth))
    ensures Truthful(p, env, node, path, ReadMapping(p, env, Down(p, env, depth), m, node, path))
  {
    hide Get, Says, Truthful, TruthfulBelow, FaithfulBelow, Mirrors, ReadByType, Constrained, ExactlyOne, ReadReference;
    hide Down, Fault, Mapped;
    SaysGets(m);
    var rec := Down(p, env, depth);
    match Get(m, RefKey)
    case Some(SStr(reference)) =>
      ReferenceTruth(p, env, rec, m, reference, node, path);
    case _ =>
      match Get(m, OneOfKey)
      case Some(SList(branches)) =>
        BranchesTruth(p, env, m, branches, node, path, depth);
      case _ =>
        ByTypeTruth(p, env, rec, m, node, path);
        ByTypeMirrors(p, env, rec, m, node, path);
        ConstrainedTruth(p, env, m, node, path, ReadByType(p, env, rec, m, node, path));
  }

  /** Every refusal, under every schema and at every depth, blames a fault that is there. */
  lemma {:induction false} RefusalsAreTrue(p: Program, env: Env, v: SVal, node: Node, path: Path, depth: nat)
    ensures Truthful(p, env, node, path, Decoded(p, env, v, node, path, depth))
    decreases depth
  {
    hide ReadMapping, Truthful, NoMapping, Faithful;
    if depth > 0 {
      if Mapped(p, v) {
        var rec := Down(p, env, depth - 1);
        forall v2, n, q ensures Truthful(p, env, n, q, rec(v2, n, q)) && Faithful(env, n, rec(v2, n, q)) {
          RefusalsAreTrue(p, env, v2, n, q, depth - 1);
          DataIsFaithful(p, env, v2, n, q, depth - 1);
        }
        MappingTruth(p, env, p.store[v.id], node, path, depth - 1);
      } else {
        SelfIsNoMapping(p);
        SelfTruth(p, env, map[], node, path, SchemaItself);
      }
    } else {
      OkTruth(p, env, node, path, Unfinished);
    }
  }

  lemma SelfIsNoMapping(p: Program)
    ensures NoMapping(p, map[], [SchemaItself], NotAMapping)
  {
  }

  lemma DataIsFaithful(p: Program, env: Env, v: SVal, node: Node, path: Path, depth: nat)
    ensures Faithful(env, node, Decoded(p, env, v, node, path, depth))
  {
    hide Decoded, Mirrors;
    var o := Decoded(p, env, v, node, path, depth);
    if o.Ok? {
      DecodedMirrors(p, env, v, node, path, depth, o.data);
    }
  }
}
