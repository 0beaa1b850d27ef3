/** Response schemas as the generator holds them: a heap of mappings with identities. */
module Schemas {
  import opened JsonGrammar
  import opened Wrappers

  /** Object identity: two equal mappings may be one object or two. */
  type Id = string

  /** A finite binary64 value, with the sign of zero. */
  datatype Num = Binary64(value: real, negativeZero: bool)

  datatype SVal = SNull | SBool(b: bool) | SNum(n: Num) | SStr(s: Text) | SList(items: seq<SVal>) | SObj(id: Id)
  type Mapping = map<Text, SVal>

  datatype Program = Program(store: map<Id, Mapping>, schemas: Mapping)

  // ---- spelled words ----

  function Ascii(s: string): Text {
    seq(|s|, i requires 0 <= i < |s| => if (s[i] as int) < 0x80 then s[i] as int else 0x3F)
  }

  datatype Key =
    | RefKey | OneOfKey | TypeKey | ConstKey | EnumKey | ItemsKey | PropertiesKey | AdditionalKey | RequiredKey
    | MinLengthKey | MaxLengthKey | PatternKey | FormatKey | MinimumKey | MaximumKey | MinItemsKey | MaxItemsKey

  function Word(k: Key): string {
    match k
    case RefKey => "$ref"
    case OneOfKey => "oneOf"
    case TypeKey => "type"
    case ConstKey => "const"
    case EnumKey => "enum"
    case ItemsKey => "items"
    case PropertiesKey => "properties"
    case AdditionalKey => "additionalProperties"
    case RequiredKey => "required"
    case MinLengthKey => "minLength"
    case MaxLengthKey => "maxLength"
    case PatternKey => "pattern"
    case FormatKey => "format"
    case MinimumKey => "minimum"
    case MaximumKey => "maximum"
    case MinItemsKey => "minItems"
    case MaxItemsKey => "maxItems"
  }

  function Spelled(k: Key): Text { Ascii(Word(k)) }

  datatype Kind = NullKind | BooleanKind | StringKind | IntegerKind | NumberKind | ArrayKind | ObjectKind

  function KindOf(t: Text): Option<Kind> {
    if t == Ascii("null") then Some(NullKind)
    else if t == Ascii("boolean") then Some(BooleanKind)
    else if t == Ascii("string") then Some(StringKind)
    else if t == Ascii("integer") then Some(IntegerKind)
    else if t == Ascii("number") then Some(NumberKind)
    else if t == Ascii("array") then Some(ArrayKind)
    else if t == Ascii("object") then Some(ObjectKind)
    else None
  }

  function Get(m: Mapping, k: Key): Option<SVal> {
    if Spelled(k) in m then Some(m[Spelled(k)]) else None
  }

  // ---- the heap ----

  predicate Mapped(p: Program, v: SVal) { v.SObj? && v.id in p.store }

  /** Every identity the value mentions is in the heap. */
  ghost predicate Held(p: Program, v: SVal) {
    match v
    case SObj(id) => id in p.store
    case SList(items) => forall i :: 0 <= i < |items| ==> Held(p, items[i])
    case _ => true
  }

  ghost predicate AllHeld(p: Program, m: Mapping) {
    forall name :: name in m ==> Held(p, m[name])
  }

  ghost predicate WellFormed(p: Program) {
    AllHeld(p, p.schemas) && forall id :: id in p.store ==> AllHeld(p, p.store[id])
  }

  lemma GetHeld(p: Program, m: Mapping, k: Key)
    requires AllHeld(p, m) && Get(m, k).Some?
    ensures Held(p, Get(m, k).value)
  {
  }

  // ---- shared readings of a schema ----

  const SOLIDUS: Unit := 0x2F

  /** What follows the last solidus. */
  function LastPart(t: Text): (r: Text)
    ensures 0x2F !in r && |r| <= |t| && t[|t| - |r|..] == r
    ensures |r| < |t| ==> t[|t| - |r| - 1] == 0x2F
  {
    if SOLIDUS !in t then t
    else if t[|t| - 1] == SOLIDUS then []
    else LastPart(t[..|t| - 1]) + [t[|t| - 1]]
  }

  /** No `additionalProperties`, or true, or an empty mapping: any members are allowed. */
  predicate FreeForm(p: Program, additional: Option<SVal>) {
    match additional
    case None => true
    case Some(SBool(b)) => b
    case Some(SObj(id)) => id in p.store && p.store[id] == map[]
    case Some(_) => false
  }

  lemma MissingIsFree(p: Program)
    ensures FreeForm(p, None)
  {
  }

  predicate Truthy(p: Program, v: SVal) {
    match v
    case SNull => false
    case SBool(b) => b
    case SNum(n) => n.value != 0.0
    case SStr(s) => s != []
    case SList(items) => items != []
    case SObj(id) => id in p.store && p.store[id] != map[]
  }
}
