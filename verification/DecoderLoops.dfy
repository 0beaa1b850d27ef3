/** The decoder's own loops: matches collected over branches, types tried in turn, an
    insertion-ordered map of members, and the result record filled field by field. */
module DecoderLoops {
  import opened JsonGrammar
  import opened Schemas
  import opened Decoder
  import opened Wrappers

  lemma {:induction false} OksSnoc(os: seq<Outcome>, o: Outcome)
    ensures Oks(os + [o]) == Oks(os) + if o.Ok? then [o.data] else []
    decreases |os|
  {
    var all := os + [o];
    var last := if o.Ok? then [o.data] else [];
    if os == [] {
      assert all[1..] == [] && last + [] == last;
    } else {
      var head, tail := if os[0].Ok? then [os[0].data] else [], Oks(os[1..]);
      assert all[0] == os[0] && all[1..] == os[1..] + [o];
      OksSnoc(os[1..], o);
      assert head + (tail + last) == (head + tail) + last;
    }
  }

  lemma {:induction false} GatherAll(os: seq<Outcome>, values: seq<Data>)
    requires |values| == |os| && forall i :: 0 <= i < |os| ==> os[i] == Ok(values[i])
    ensures Gather(os) == All(values)
    decreases |os|
  {
    if os != [] {
      GatherAll(os[1..], values[1..]);
      assert [values[0]] + values[1..] == values;
    }
  }

  lemma {:induction false} GatherStops(os: seq<Outcome>, i: nat)
    requires i < |os| && !os[i].Ok? && forall j :: 0 <= j < i ==> os[j].Ok?
    ensures Gather(os) == Stop(os[i])
    decreases i
  {
    if i > 0 {
      GatherStops(os[1..], i - 1);
    }
  }

  method DecodeSchema(p: Program, env: Env, v: SVal, node: Node, path: Path, depth: nat) returns (o: Outcome)
    ensures o == Decoded(p, env, v, node, path, depth)
    decreases depth, 0
  {
    hide ReadMapping;
    if depth == 0 {
      return Unfinished;
    }
    if !Mapped(p, v) {
      return Refused(path + [SchemaItself], NotAMapping);
    }
    o := DecodeMapping(p, env, p.store[v.id], node, path, depth - 1);
  }

  method DecodeMapping(p: Program, env: Env, m: Mapping, node: Node, path: Path, depth: nat) returns (o: Outcome)
    ensures o == ReadMapping(p, env, Down(p, env, depth), m, node, path)
    decreases depth, 6
  {
    hide Get, ExactlyOne, BranchOutcomes, ReadByType, ReadReference, Constrained, Down;
    match Get(m, RefKey) {
      case Some(SStr(reference)) =>
        o := DecodeReference(p, env, reference, node, path, depth);
      case _ =>
        match Get(m, OneOfKey) {
          case Some(SList(branches)) =>
            o := DecodeOneOf(p, env, branches, node, path, depth);
          case _ =>
            o := DecodeByType(p, env, m, node, path, depth);
            o := Constrained(m, o, path);
        }
    }
  }

  method DecodeReference(p: Program, env: Env, reference: Text, node: Node, path: Path, depth: nat) returns (o: Outcome)
    ensures o == ReadReference(p, Down(p, env, depth), reference, node, path)
    decreases depth, 1
  {
    hide Decoded;
    if !(REFERENCE_PREFIX <= reference) {
      return Refused(path, UnsupportedReference);
    }
    var name := reference[|REFERENCE_PREFIX|..];
    if name !in p.schemas {
      return Refused(path, UnknownSchema);
    }
    o := DecodeSchema(p, env, p.schemas[name], node, path, depth);
  }

  method DecodeOneOf(p: Program, env: Env, branches: seq<SVal>, node: Node, path: Path, depth: nat) returns (o: Outcome)
    ensures o == ExactlyOne(BranchOutcomes(Down(p, env, depth), branches, node, path), path)
    decreases depth, 1
  {
    hide Decoded, Oks;
    ghost var os := BranchOutcomes(Down(p, env, depth), branches, node, path);
    var matches := [];
    assert os[..0] == [] && Oks([]) == [] by { NoOks(); }
    for i := 0 to |branches|
      invariant Unfinished !in os[..i] && matches == Oks(os[..i])
    {
      assert os[..i + 1] == os[..i] + [os[i]];
      OksSnoc(os[..i], os[i]);
      var branch := DecodeSchema(p, env, branches[i], node, path, depth);
      assert branch == os[i];
      if branch.Unfinished? {
        assert os[i] in os;
        return Unfinished;
      }
      if branch.Ok? {
        matches := matches + [branch.data];
      }
    }
    assert os[..|branches|] == os;
    if |matches| != 1 {
      return Refused(path, NotExactlyOne);
    }
    return Ok(matches[0]);
  }

  lemma NoOks()
    ensures Oks([]) == []
  {
  }

  method DecodeByType(p: Program, env: Env, m: Mapping, node: Node, path: Path, depth: nat) returns (o: Outcome)
    ensures o == ReadByType(p, env, Down(p, env, depth), m, node, path)
    decreases depth, 5
  {
    hide Get, ReadTyped, ReadImplicit, FirstNotRefused, Down;
    match Get(m, TypeKey) {
      case Some(SList(kinds)) =>
        o := DecodeTypeUnion(p, env, m, kinds, node, path, depth);
      case Some(SStr(kind)) =>
        o := DecodeTyped(p, env, m, kind, node, path, depth);
      case _ =>
        o := ReadImplicit(env, m, node, path);
    }
  }

  method DecodeTypeUnion(p: Program, env: Env, m: Mapping, kinds: seq<SVal>, node: Node, path: Path, depth: nat)
    returns (o: Outcome)
    ensures o == FirstNotRefused(KindOutcomes(p, env, Down(p, env, depth), m, StringKinds(kinds), node, path), path)
    decreases depth, 4
  {
    hide ReadTyped, Down;
    ghost var rec := Down(p, env, depth);
    for i := 0 to |kinds|
      invariant FirstNotRefused(KindOutcomes(p, env, rec, m, StringKinds(kinds), node, path), path)
        == FirstNotRefused(KindOutcomes(p, env, rec, m, StringKinds(kinds[i..]), node, path), path)
    {
      assert kinds[i..][1..] == kinds[i + 1..];
      ghost var later := StringKinds(kinds[i + 1..]);
      if kinds[i].SStr? {
        ghost var os := KindOutcomes(p, env, rec, m, [kinds[i].s] + later, node, path);
        assert os[1..] == KindOutcomes(p, env, rec, m, later, node, path);
        o := DecodeTyped(p, env, m, kinds[i].s, node, path, depth);
        assert os[0] == o;
        if !o.Refused? {
          return;
        }
      } else {
        assert [] + later == later;
      }
    }
    return Refused(path, WrongType);
  }

  method DecodeTyped(p: Program, env: Env, m: Mapping, kind: Text, node: Node, path: Path, depth: nat)
    returns (o: Outcome)
    ensures o == ReadTyped(p, env, Down(p, env, depth), m, kind, node, path)
    decreases depth, 3
  {
    hide KindOf, Down, ReadArray, ReadObject, ReadString, ReadInteger, ReadNumber;
    match KindOf(kind) {
      case Some(NullKind) => o := ReadNull(node, path);
      case Some(BooleanKind) => o := ReadBoolean(node, path);
      case Some(StringKind) => o := ReadString(env, m, node, path);
      case Some(IntegerKind) => o := ReadInteger(m, node, path);
      case Some(NumberKind) => o := ReadNumber(env, m, node, path);
      case Some(ArrayKind) => o := DecodeArray(p, env, m, node, path, depth);
      case Some(ObjectKind) => o := DecodeObject(p, env, m, node, path, depth);
      case None => o := Refused(path, UnsupportedType);
    }
  }

  /** The item at the index, decoded under the schema's `items`. */
  ghost function ItemDecoded(p: Program, env: Env, m: Mapping, items: seq<Node>, i: nat, path: Path,
      depth: nat): Outcome
    requires Ascii("items") in m && i < |items|
  {
    Decoded(p, env, m[Ascii("items")], items[i], path + [Item(i)], depth)
  }

  /** The outcome is that of the first item that is not decoded. */
  ghost predicate FirstFailure(p: Program, env: Env, m: Mapping, items: seq<Node>, i: nat, path: Path, depth: nat,
      o: Outcome)
    requires Ascii("items") in m
  {
    && i < |items| && ItemDecoded(p, env, m, items, i, path, depth) == o
    && forall j :: 0 <= j < i ==> ItemDecoded(p, env, m, items, j, path, depth).Ok?
  }

  lemma ItemsWord(m: Mapping)
    ensures Get(m, ItemsKey) == if Ascii("items") in m then Some(m[Ascii("items")]) else None
  {
  }

  method DecodeArray(p: Program, env: Env, m: Mapping, node: Node, path: Path, depth: nat) returns (o: Outcome)
    ensures o.Ok? ==>
      && node.Arr? && Ascii("items") in m && o.data.DArr? && |o.data.items| == |node.items|
      && forall i :: 0 <= i < |node.items| ==>
           ItemDecoded(p, env, m, node.items, i, path, depth) == Ok(o.data.items[i])
    ensures !o.Ok? ==>
      || o == Refused(path, NotArray) || o == Refused(path, TooFewItems) || o == Refused(path, TooManyItems)
      || o == Refused(path, UnconstrainedItems)
      || (node.Arr? && Ascii("items") in m && exists i :: FirstFailure(p, env, m, node.items, i, path, depth, o))
    ensures o == ReadArray(Down(p, env, depth), m, node, path)
    decreases depth, 1
  {
    ItemsWord(m);
    hide Get, Gather, Decoded, Ascii;
    if !node.Arr? {
      return Refused(path, NotArray);
    }
    if Under(|node.items| as real, Get(m, MinItemsKey)) {
      return Refused(path, TooFewItems);
    }
    if Over(|node.items| as real, Get(m, MaxItemsKey)) {
      return Refused(path, TooManyItems);
    }
    if Get(m, ItemsKey) == None {
      return Refused(path, UnconstrainedItems);
    }
    var schema := Get(m, ItemsKey).value;
    ghost var os := ItemOutcomes(Down(p, env, depth), schema, node.items, path);
    var values := [];
    for i := 0 to |node.items|
      invariant |values| == i && forall j :: 0 <= j < i ==> os[j] == Ok(values[j])
      invariant forall j :: 0 <= j < i ==> ItemDecoded(p, env, m, node.items, j, path, depth) == os[j]
    {
      var item := DecodeSchema(p, env, schema, node.items[i], path + [Item(i)], depth);
      assert item == os[i] == ItemDecoded(p, env, m, node.items, i, path, depth);
      if !item.Ok? {
        GatherStops(os, i);
        assert FirstFailure(p, env, m, node.items, i, path, depth, item);
        return item;
      }
      values := values + [item.data];
    }
    GatherAll(os, values);
    return Ok(DArr(values));
  }

  /** The insertion-ordered map: a repeated name keeps its place and takes the last value. */
  method LastMembers(ms: Members) returns (members: Members)
    ensures |members| == |Kept(ms)| && forall i :: 0 <= i < |members| ==> members[i] == ms[Kept(ms)[i]]
  {
    hide Position;
    members := [];
    for n := 0 to |ms|
      invariant |members| == |Kept(ms[..n])| && forall i :: 0 <= i < |members| ==> members[i] == ms[Kept(ms[..n])[i]]
    {
      ghost var before := ms[..n];
      ghost var kept := Kept(before);
      assert ms[..n + 1][..n] == before;
      var (name, node) := ms[n];
      ghost var place := Position(ms[..n + 1], kept, name);
      var i := 0;
      while i < |members| && members[i].0 != name
        invariant 0 <= i <= place
      {
        assert members[i] == ms[kept[i]] && ms[..n + 1][kept[i]] == ms[kept[i]];
        i := i + 1;
      }
      assert i < |members| ==> members[i] == ms[kept[i]] && ms[..n + 1][kept[i]] == ms[kept[i]];
      assert place < |members| ==> members[place] == ms[kept[place]];
      assert i == place;
      if i < |members| {
        members := members[i := (name, node)];
      } else {
        members := members + [(name, node)];
      }
    }
    assert ms[..|ms|] == ms;
  }

  method Missing(ms: Members, required: seq<SVal>) returns (missing: Option<SVal>)
    ensures missing == FirstMissing(ms, required)
  {
    for i := 0 to |required|
      invariant FirstMissing(ms, required) == FirstMissing(ms, required[i..])
    {
      assert required[i..][1..] == required[i + 1..];
      if !(required[i].SStr? && HasMember(ms, required[i].s)) {
        return Some(required[i]);
      }
    }
    return None;
  }

  method DecodeObject(p: Program, env: Env, m: Mapping, node: Node, path: Path, depth: nat) returns (o: Outcome)
    ensures o == ReadObject(p, env, Down(p, env, depth), m, node, path)
    decreases depth, 2
  {
    hide Get, Gather, Kept, ReadField, FirstMissing, PropertiesOf, RequiredOf, Down, Record;
    if !node.Obj? {
      return Refused(path, NotObject);
    }
    if PropertiesOf(p, m) == None {
      return Refused(path + [PropertiesItself], NotAMapping);
    }
    var properties := PropertiesOf(p, m).value;
    var members := LastMembers(node.members);
    var missing := Missing(node.members, RequiredOf(m));
    if missing.Some? {
      return Refused(path, MissingField(missing.value));
    }
    ghost var kept := Kept(node.members);
    ghost var names := NamesOf(node.members, kept);
    ghost var os := FieldOutcomes(p, env, Down(p, env, depth), m, properties, node.members, kept, path);
    var result: map<Text, Data> := map[];
    ghost var values := [];
    NoRecord();
    assert names[..0] == [] && values[..0] == [];
    for i := 0 to |members|
      invariant |values| == i && result == Record(names[..i], values)
      invariant forall j :: 0 <= j < i ==> os[j] == Ok(values[j])
    {
      var field := DecodeField(p, env, m, properties, members[i], path, depth);
      assert field == os[i];
      if !field.Ok? {
        GatherStops(os, i);
        return field;
      }
      RecordSnoc(names, values, i, field.data);
      result := result[members[i].0 := field.data];
      values := values + [field.data];
    }
    GatherAll(os, values);
    assert names[..|members|] == names;
    return Ok(DObj(result));
  }

  lemma NoRecord()
    ensures Record([], []) == map[]
  {
  }

  lemma RecordSnoc(names: seq<Text>, values: seq<Data>, i: nat, value: Data)
    requires i < |names| && |values| == i
    ensures Record(names[..i + 1], values + [value]) == Record(names[..i], values)[names[i] := value]
  {
    assert names[..i + 1][..i] == names[..i] && (values + [value])[..i] == values;
  }

  method DecodeField(p: Program, env: Env, m: Mapping, properties: Mapping, member: (Text, Node), path: Path,
        depth: nat) returns (o: Outcome)
    ensures o == ReadField(p, env, Down(p, env, depth), m, properties, member, path)
    decreases depth, 1
  {
    hide Get, FreeForm, Untyped, Decoded;
    var (name, node) := member;
    if name in properties {
      o := DecodeSchema(p, env, properties[name], node, path + [Member(name)], depth);
      return;
    }
    var additional := Get(m, AdditionalKey);
    if additional == Some(SBool(false)) {
      return Refused(path, UnknownField(name));
    }
    if FreeForm(p, additional) {
      o := DecodeUntyped(env, node, path + [Member(name)]);
      return;
    }
    assert additional.Some? by { MissingIsFree(p); }
    o := DecodeSchema(p, env, additional.value, node, path + [Member(name)], depth);
  }

  method DecodeUntyped(env: Env, node: Node, path: Path) returns (o: Outcome)
    ensures o == Untyped(env, node, path)
    decreases node
  {
    hide Gather, Kept, Record, ReadNumber, ReadInteger, Fractional;
    match node {
      case Null => return Ok(DNull);
      case Bool(b) => return Ok(DBool(b));
      case Str(s) => return Ok(DStr(s));
      case Num(raw) =>
        return if Fractional(raw) then ReadNumber(env, map[], node, path) else ReadInteger(map[], node, path);
      case Arr(items) =>
        ghost var os := seq(|items|, i requires 0 <= i < |items| => Untyped(env, items[i], path + [Item(i)]));
        var values := [];
        for i := 0 to |items|
          invariant |values| == i && forall j :: 0 <= j < i ==> os[j] == Ok(values[j])
        {
          var item := DecodeUntyped(env, items[i], path + [Item(i)]);
          if !item.Ok? {
            GatherStops(os, i);
            return item;
          }
          values := values + [item.data];
        }
        GatherAll(os, values);
        return Ok(DArr(values));
      case Obj(ms) =>
        ghost var kept := Kept(ms);
        ghost var names := NamesOf(ms, kept);
        ghost var os :=
          seq(|kept|, i requires 0 <= i < |kept| => Untyped(env, ms[kept[i]].1, path + [Member(ms[kept[i]].0)]));
        var members := LastMembers(ms);
        var result: map<Text, Data> := map[];
        ghost var values := [];
        NoRecord();
        assert names[..0] == [] && values[..0] == [];
        for i := 0 to |members|
          invariant |values| == i && result == Record(names[..i], values)
          invariant forall j :: 0 <= j < i ==> os[j] == Ok(values[j])
        {
          var (name, member) := members[i];
          assert members[i] == ms[kept[i]] && ms[kept[i]].1 < node;
          var field := DecodeUntyped(env, member, path + [Member(name)]);
          assert field == os[i];
          if !field.Ok? {
            GatherStops(os, i);
            return field;
          }
          RecordSnoc(names, values, i, field.data);
          result := result[name := field.data];
          values := values + [field.data];
        }
        GatherAll(os, values);
        assert names[..|members|] == names;
        return Ok(DObj(result));
    }
  }
}
