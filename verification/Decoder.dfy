/** What decoding a node at a schema yields: data, a refusal at a place, or no answer within the
    allowed depth of nested schema calls.  Nested calls go through `rec`, the decoder one level down. */
module Decoder {
  import opened JsonGrammar
  import opened Schemas
  import opened Lexemes
  import opened Wrappers

  /** Materialized data; an object's fields are a record, so their order is not kept. */
  datatype Data =
    | DNull | DBool(b: bool) | DStr(s: Text) | DNum(n: Num) | DArr(items: seq<Data>) | DObj(fields: map<Text, Data>)

  datatype Place = Member(name: Text) | Item(index: nat) | SchemaItself | PropertiesItself
  type Path = seq<Place>

  datatype Reason =
    | UnknownSchema | NotAMapping | UnsupportedReference | NoScalarType | UnconstrainedItems | UnsupportedType
    | NotExactlyOne | WrongType | NotNull | NotBoolean | NotString | NotNumber | NotArray | NotObject
    | TooShort | TooLong | PatternMismatch | FormatMismatch | NotIntegerToken | OutsideSharedRange | NotFinite
    | BelowMinimum | AboveMaximum | TooFewItems | TooManyItems | MissingField(field: SVal) | UnknownField(name: Text)
    | NotConst | OutsideEnum

  /** The fault is the schema's, not the node's. */
  predicate SchemaFault(r: Reason) {
    || r == UnknownSchema || r == NotAMapping || r == UnsupportedReference || r == NoScalarType
    || r == UnconstrainedItems || r == UnsupportedType
  }

  datatype Outcome = Ok(data: Data) | Refused(path: Path, reason: Reason) | Unfinished

  /** `Number(raw)` where finite, pattern search, and the format checks. */
  datatype Env = Env(number: Text -> Option<Num>, matches: (Text, Text) -> bool, formatted: (Text, Text) -> bool)

  type Rec = (SVal, Node, Path) -> Outcome

  // ---- scalars ----

  function ReadNull(node: Node, path: Path): Outcome {
    if node == Null then Ok(DNull) else Refused(path, NotNull)
  }

  function ReadBoolean(node: Node, path: Path): Outcome {
    if node.Bool? then Ok(DBool(node.b)) else Refused(path, NotBoolean)
  }

  predicate Under(x: real, bound: Option<SVal>) { bound.Some? && bound.value.SNum? && x < bound.value.n.value }
  predicate Over(x: real, bound: Option<SVal>) { bound.Some? && bound.value.SNum? && x > bound.value.n.value }

  predicate PatternHolds(env: Env, pattern: Option<SVal>, s: Text) {
    pattern.Some? && pattern.value.SStr? ==> env.matches(pattern.value.s, s)
  }

  predicate FormatHolds(env: Env, format: Option<SVal>, s: Text) {
    format.Some? && format.value.SStr? ==> env.formatted(format.value.s, s)
  }

  function ReadString(env: Env, m: Mapping, node: Node, path: Path): Outcome {
    if !node.Str? then Refused(path, NotString)
    else if Under(|node.s| as real, Get(m, MinLengthKey)) then Refused(path, TooShort)
    else if Over(|node.s| as real, Get(m, MaxLengthKey)) then Refused(path, TooLong)
    else if !PatternHolds(env, Get(m, PatternKey), node.s) then Refused(path, PatternMismatch)
    else if !FormatHolds(env, Get(m, FormatKey), node.s) then Refused(path, FormatMismatch)
    else Ok(DStr(node.s))
  }

  function Bounded(m: Mapping, n: Num, path: Path): Outcome {
    if Under(n.value, Get(m, MinimumKey)) then Refused(path, BelowMinimum)
    else if Over(n.value, Get(m, MaximumKey)) then Refused(path, AboveMaximum)
    else Ok(DNum(n))
  }

  function ReadInteger(m: Mapping, node: Node, path: Path): Outcome {
    if !node.Num? then Refused(path, NotNumber)
    else if !IsIntegerToken(node.raw) then Refused(path, NotIntegerToken)
    else if !InSharedRange(node.raw) then Refused(path, OutsideSharedRange)
    else Bounded(m, Binary64(IntegerValue(node.raw) as real, false), path)
  }

  function ReadNumber(env: Env, m: Mapping, node: Node, path: Path): Outcome {
    if !node.Num? then Refused(path, NotNumber)
    else if env.number(node.raw) == None then Refused(path, NotFinite)
    else Bounded(m, env.number(node.raw).value, path)
  }

  function Exemplar(m: Mapping): Option<SVal> {
    if Get(m, ConstKey).Some? then Get(m, ConstKey)
    else match Get(m, EnumKey)
      case Some(SList(choices)) => if choices == [] then None else Some(choices[0])
      case _ => None
  }

  function ReadImplicit(env: Env, m: Mapping, node: Node, path: Path): Outcome {
    match Exemplar(m)
    case Some(SStr(_)) => ReadString(env, m, node, path)
    case Some(SBool(_)) => ReadBoolean(node, path)
    case Some(SNull) => ReadNull(node, path)
    case Some(SNum(n)) =>
      if n.value == n.value.Floor as real then ReadInteger(m, node, path) else ReadNumber(env, m, node, path)
    case _ => Refused(path, NoScalarType)
  }

  // ---- combining outcomes ----

  /** The data of the outcomes that succeeded, in order. */
  function Oks(os: seq<Outcome>): seq<Data> {
    if os == [] then [] else (if os[0].Ok? then [os[0].data] else []) + Oks(os[1..])
  }

  function ExactlyOne(os: seq<Outcome>, path: Path): Outcome {
    if Unfinished in os then Unfinished
    else if |Oks(os)| == 1 then Ok(Oks(os)[0])
    else Refused(path, NotExactlyOne)
  }

  function FirstNotRefused(os: seq<Outcome>, path: Path): Outcome {
    if os == [] then Refused(path, WrongType)
    else if os[0].Refused? then FirstNotRefused(os[1..], path)
    else os[0]
  }

  /** Either every outcome succeeded, or the first that did not. */
  datatype Gathered = All(values: seq<Data>) | Stop(outcome: Outcome)

  function Gather(os: seq<Outcome>): (g: Gathered)
    ensures g.All? ==> |g.values| == |os|
    ensures g.Stop? ==> !g.outcome.Ok?
  {
    if os == [] then All([])
    else if !os[0].Ok? then Stop(os[0])
    else match Gather(os[1..])
      case All(values) => All([os[0].data] + values)
      case Stop(o) => Stop(o)
  }

  function Record(names: seq<Text>, values: seq<Data>): map<Text, Data>
    requires |names| == |values|
  {
    if names == [] then map[]
    else var n := |names| - 1; Record(names[..n], values[..n])[names[n] := values[n]]
  }

  function ArrayOf(os: seq<Outcome>): Outcome {
    match Gather(os)
    case All(values) => Ok(DArr(values))
    case Stop(o) => o
  }

  function ObjectOf(names: seq<Text>, os: seq<Outcome>): Outcome
    requires |names| == |os|
  {
    match Gather(os)
    case All(values) => Ok(DObj(Record(names, values)))
    case Stop(o) => o
  }

  // ---- members ----

  type Members = seq<(Text, Node)>

  function Position(ms: Members, kept: seq<nat>, name: Text): (q: nat)
    requires forall i :: 0 <= i < |kept| ==> kept[i] < |ms|
    ensures q <= |kept| && (q < |kept| ==> ms[kept[q]].0 == name)
    ensures forall i :: 0 <= i < q ==> ms[kept[i]].0 != name
  {
    if kept == [] then 0
    else if ms[kept[0]].0 == name then 0
    else 1 + Position(ms, kept[1..], name)
  }

  /** The indices an insertion-ordered map keeps: one per name, in order of first appearance,
      each the last member of that name. */
  function Kept(ms: Members): (kept: seq<nat>)
    ensures forall i :: 0 <= i < |kept| ==> kept[i] < |ms|
  {
    if ms == [] then []
    else
      var n := |ms| - 1;
      var k := Kept(ms[..n]);
      var q := Position(ms, k, ms[n].0);
      if q < |k| then k[q := n] else k + [n]
  }

  function NamesOf(ms: Members, kept: seq<nat>): (names: seq<Text>)
    requires forall i :: 0 <= i < |kept| ==> kept[i] < |ms|
    ensures |names| == |kept|
  {
    seq(|kept|, i requires 0 <= i < |kept| => ms[kept[i]].0)
  }

  predicate HasMember(ms: Members, name: Text) { exists i :: 0 <= i < |ms| && ms[i].0 == name }

  function FirstMissing(ms: Members, required: seq<SVal>): Option<SVal> {
    if required == [] then None
    else if required[0].SStr? && HasMember(ms, required[0].s) then FirstMissing(ms, required[1..])
    else Some(required[0])
  }

  // ---- free-form data ----

  predicate Fractional(raw: Text) { exists i :: 0 <= i < |raw| && (raw[i] == DOT || Exponent(raw[i])) }

  function Untyped(env: Env, node: Node, path: Path): Outcome
    decreases node
  {
    match node
    case Null => Ok(DNull)
    case Bool(b) => Ok(DBool(b))
    case Str(s) => Ok(DStr(s))
    case Num(raw) => if Fractional(raw) then ReadNumber(env, map[], node, path) else ReadInteger(map[], node, path)
    case Arr(items) =>
      ArrayOf(seq(|items|, i requires 0 <= i < |items| => Untyped(env, items[i], path + [Item(i)])))
    case Obj(ms) =>
      var kept := Kept(ms);
      ObjectOf(
        NamesOf(ms, kept),
        seq(|kept|, i requires 0 <= i < |kept| => Untyped(env, ms[kept[i]].1, path + [Member(ms[kept[i]].0)])))
  }

  // ---- one level of decoding ----

  const REFERENCE_PREFIX: Text := Ascii("#/components/schemas/")

  function ReadReference(p: Program, rec: Rec, reference: Text, node: Node, path: Path): Outcome {
    if !(REFERENCE_PREFIX <= reference) then Refused(path, UnsupportedReference)
    else
      var name := reference[|REFERENCE_PREFIX|..];
      if name !in p.schemas then Refused(path, UnknownSchema) else rec(p.schemas[name], node, path)
  }

  function ReadArray(rec: Rec, m: Mapping, node: Node, path: Path): Outcome {
    if !node.Arr? then Refused(path, NotArray)
    else if Under(|node.items| as real, Get(m, MinItemsKey)) then Refused(path, TooFewItems)
    else if Over(|node.items| as real, Get(m, MaxItemsKey)) then Refused(path, TooManyItems)
    else if Get(m, ItemsKey) == None then Refused(path, UnconstrainedItems)
    else ArrayOf(ItemOutcomes(rec, Get(m, ItemsKey).value, node.items, path))
  }

  function ItemOutcomes(rec: Rec, schema: SVal, items: seq<Node>, path: Path): (os: seq<Outcome>)
    ensures |os| == |items|
  {
    seq(|items|, i requires 0 <= i < |items| => rec(schema, items[i], path + [Item(i)]))
  }

  /** `schema["properties"] ?? {}` as a mapping, if it is one. */
  function PropertiesOf(p: Program, m: Mapping): Option<Mapping> {
    match Get(m, PropertiesKey)
    case None => Some(map[])
    case Some(SNull) => Some(map[])
    case Some(v) => if Mapped(p, v) then Some(p.store[v.id]) else None
  }

  function ReadField(p: Program, env: Env, rec: Rec, m: Mapping, properties: Mapping, member: (Text, Node),
        path: Path): Outcome {
    var (name, node) := member;
    var additional := Get(m, AdditionalKey);
    if name in properties then rec(properties[name], node, path + [Member(name)])
    else if additional == Some(SBool(false)) then Refused(path, UnknownField(name))
    else if FreeForm(p, additional) then Untyped(env, node, path + [Member(name)])
    else rec(additional.value, node, path + [Member(name)])
  }

  function FieldOutcomes(p: Program, env: Env, rec: Rec, m: Mapping, properties: Mapping, ms: Members, kept: seq<nat>,
        path: Path): (os: seq<Outcome>)
    requires forall i :: 0 <= i < |kept| ==> kept[i] < |ms|
    ensures |os| == |kept|
  {
    seq(|kept|, i requires 0 <= i < |kept| => ReadField(p, env, rec, m, properties, ms[kept[i]], path))
  }

  function RequiredOf(m: Mapping): seq<SVal> {
    match Get(m, RequiredKey)
    case Some(SList(names)) => names
    case _ => []
  }

  function ReadObject(p: Program, env: Env, rec: Rec, m: Mapping, node: Node, path: Path): Outcome {
    if !node.Obj? then Refused(path, NotObject)
    else if PropertiesOf(p, m) == None then Refused(path + [PropertiesItself], NotAMapping)
    else if FirstMissing(node.members, RequiredOf(m)).Some? then
      Refused(path, MissingField(FirstMissing(node.members, RequiredOf(m)).value))
    else
      var kept := Kept(node.members);
      ObjectOf(
        NamesOf(node.members, kept),
        FieldOutcomes(p, env, rec, m, PropertiesOf(p, m).value, node.members, kept, path))
  }

  function ReadTyped(p: Program, env: Env, rec: Rec, m: Mapping, kind: Text, node: Node, path: Path): Outcome {
    match KindOf(kind)
    case Some(NullKind) => ReadNull(node, path)
    case Some(BooleanKind) => ReadBoolean(node, path)
    case Some(StringKind) => ReadString(env, m, node, path)
    case Some(IntegerKind) => ReadInteger(m, node, path)
    case Some(NumberKind) => ReadNumber(env, m, node, path)
    case Some(ArrayKind) => ReadArray(rec, m, node, path)
    case Some(ObjectKind) => ReadObject(p, env, rec, m, node, path)
    case None => Refused(path, UnsupportedType)
  }

  function StringKinds(kinds: seq<SVal>): seq<Text> {
    if kinds == [] then [] else (if kinds[0].SStr? then [kinds[0].s] else []) + StringKinds(kinds[1..])
  }

  function KindOutcomes(p: Program, env: Env, rec: Rec, m: Mapping, kinds: seq<Text>, node: Node,
        path: Path): (os: seq<Outcome>)
    ensures |os| == |kinds|
  {
    seq(|kinds|, i requires 0 <= i < |kinds| => ReadTyped(p, env, rec, m, kinds[i], node, path))
  }

  function ReadByType(p: Program, env: Env, rec: Rec, m: Mapping, node: Node, path: Path): Outcome {
    match Get(m, TypeKey)
    case Some(SList(kinds)) => FirstNotRefused(KindOutcomes(p, env, rec, m, StringKinds(kinds), node, path), path)
    case Some(SStr(kind)) => ReadTyped(p, env, rec, m, kind, node, path)
    case _ => ReadImplicit(env, m, node, path)
  }

  /** `Object.is` between data and a schema's literal. */
  predicate Is(d: Data, v: SVal) {
    match (d, v)
    case (DNull, SNull) => true
    case (DBool(a), SBool(b)) => a == b
    case (DStr(a), SStr(b)) => a == b
    case (DNum(a), SNum(b)) => a == b
    case _ => false
  }

  function Constrained(m: Mapping, o: Outcome, path: Path): Outcome {
    if !o.Ok? then o
    else if Get(m, ConstKey).Some? && !Is(o.data, Get(m, ConstKey).value) then Refused(path, NotConst)
    else match Get(m, EnumKey)
      case Some(SList(choices)) =>
        if exists i :: 0 <= i < |choices| && Is(o.data, choices[i]) then o else Refused(path, OutsideEnum)
      case _ => o
  }

  function BranchOutcomes(rec: Rec, branches: seq<SVal>, node: Node, path: Path): (os: seq<Outcome>)
    ensures |os| == |branches|
  {
    seq(|branches|, i requires 0 <= i < |branches| => rec(branches[i], node, path))
  }

  function ReadMapping(p: Program, env: Env, rec: Rec, m: Mapping, node: Node, path: Path): Outcome {
    match Get(m, RefKey)
    case Some(SStr(reference)) => ReadReference(p, rec, reference, node, path)
    case _ =>
      match Get(m, OneOfKey)
      case Some(SList(branches)) => ExactlyOne(BranchOutcomes(rec, branches, node, path), path)
      case _ => Constrained(m, ReadByType(p, env, rec, m, node, path), path)
  }

  function ReadSchema(p: Program, env: Env, rec: Rec, v: SVal, node: Node, path: Path): Outcome {
    if Mapped(p, v) then ReadMapping(p, env, rec, p.store[v.id], node, path)
    else Refused(path + [SchemaItself], NotAMapping)
  }

  // ---- the decoder to a depth of nested calls ----

  function Decoded(p: Program, env: Env, v: SVal, node: Node, path: Path, depth: nat): Outcome
    decreases depth, 0
  {
    if depth == 0 then Unfinished else ReadSchema(p, env, Down(p, env, depth - 1), v, node, path)
  }

  function Down(p: Program, env: Env, depth: nat): Rec
    decreases depth, 1
  {
    (v: SVal, node: Node, path: Path) => Decoded(p, env, v, node, path, depth)
  }
}
