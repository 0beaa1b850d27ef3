/** What data a decoded node becomes, said by the node alone: scalars as they are, arrays item by item,
    objects with one field for each name and the value of the last member of that name. */
module Mirror {
  import opened JsonGrammar
  import opened Schemas
  import opened Lexemes
  import opened Decoder
  import opened DecoderLoops
  import opened Duplicates
  import opened KeepLastWins
  import opened Wrappers

  /** The exact integer of an integer lexeme, or the floating-point value. */
  ghost predicate NumberMirrors(env: Env, raw: Text, n: Num) {
    || (IsIntegerToken(raw) && n == Binary64(IntegerValue(raw) as real, false))
    || env.number(raw) == Some(n)
  }

  ghost predicate Mirrors(env: Env, node: Node, d: Data)
    decreases node
  {
    match node
    case Null => d == DNull
    case Bool(b) => d == DBool(b)
    case Str(s) => d == DStr(s)
    case Num(raw) => d.DNum? && NumberMirrors(env, raw, d.n)
    case Arr(items) =>
      && d.DArr? && |d.items| == |items|
      && forall i :: 0 <= i < |items| ==> Mirrors(env, items[i], d.items[i])
    case Obj(ms) =>
      && d.DObj? && (forall name :: name in d.fields <==> exists i :: 0 <= i < |ms| && ms[i].0 == name)
      && forall i :: 0 <= i < |ms| && (forall j :: i < j < |ms| ==> ms[j].0 != ms[i].0) ==>
        Mirrors(env, ms[i].1, d.fields[ms[i].0])
  }

  ghost predicate Faithful(env: Env, node: Node, o: Outcome) { o.Ok? ==> Mirrors(env, node, o.data) }

  // ---- combining ----

  lemma ArrayMirrors(env: Env, items: seq<Node>, os: seq<Outcome>)
    requires |os| == |items| && forall i :: 0 <= i < |os| ==> Faithful(env, items[i], os[i])
    ensures Faithful(env, Arr(items), ArrayOf(os))
  {
    hide Gather;
    var at := Gathers(os);
    if Gather(os).All? {
      forall i | 0 <= i < |items| ensures Mirrors(env, items[i], Gather(os).values[i]) {
        assert os[i] == Ok(Gather(os).values[i]);
      }
    }
  }

  lemma ObjectMirrors(env: Env, ms: Members, os: seq<Outcome>)
    requires |os| == |Kept(ms)| && forall i :: 0 <= i < |os| ==> Faithful(env, ms[Kept(ms)[i]].1, os[i])
    ensures Faithful(env, Obj(ms), ObjectOf(NamesOf(ms, Kept(ms)), os))
  {
    hide Gather, Record, Kept, Mirrors;
    KeptSelects(ms);
    var k := Kept(ms);
    var names := NamesOf(ms, k);
    var at := Gathers(os);
    if Gather(os).All? {
      var values := Gather(os).values;
      RecordHolds(names, values);
      forall i | 0 <= i < |k| ensures Mirrors(env, ms[k[i]].1, values[i]) {
        assert os[i] == Ok(values[i]);
      }
      RecordMirrors(env, ms, k, names, values, Record(names, values));
    }
  }

  lemma RecordMirrors(env: Env, ms: Members, k: seq<nat>, names: seq<Text>, values: seq<Data>, fields: map<Text, Data>)
    requires Selects(ms, k) && names == NamesOf(ms, k) && |values| == |k|
    requires forall t :: t in fields <==> t in names
    requires forall i :: 0 <= i < |k| ==> fields[names[i]] == values[i] && Mirrors(env, ms[k[i]].1, values[i])
    ensures Mirrors(env, Obj(ms), DObj(fields))
  {
    forall name ensures name in fields <==> exists i :: 0 <= i < |ms| && ms[i].0 == name {
      if i :| 0 <= i < |ms| && ms[i].0 == name {
        var j := LastOfName(ms, i);
        var q :| 0 <= q < |k| && k[q] == j;
        assert names[q] == name;
      }
      if name in names {
        var q :| 0 <= q < |names| && names[q] == name;
        assert ms[k[q]].0 == name;
      }
    }
    forall i | 0 <= i < |ms| && (forall j :: i < j < |ms| ==> ms[j].0 != ms[i].0)
      ensures Mirrors(env, ms[i].1, fields[ms[i].0]) {
      assert Survives(ms, i);
      var q :| 0 <= q < |k| && k[q] == i;
      assert names[q] == ms[i].0;
    }
  }

  lemma {:induction false} SomeOk(os: seq<Outcome>) returns (at: nat)
    requires Oks(os) != []
    ensures at < |os| && os[at] == Ok(Oks(os)[0])
    decreases |os|
  {
    at := 0;
    if !os[0].Ok? {
      var rest := SomeOk(os[1..]);
      at := rest + 1;
    }
  }

  lemma {:induction false} FirstIsOne(os: seq<Outcome>, path: Path) returns (at: nat)
    ensures FirstNotRefused(os, path).Ok? ==> at < |os| && os[at] == FirstNotRefused(os, path)
    decreases |os|
  {
    at := 0;
    if os != [] && os[0].Refused? {
      var rest := FirstIsOne(os[1..], path);
      at := rest + 1;
    }
  }

  // ---- one level ----

  lemma {:induction false} UntypedMirrors(env: Env, node: Node, path: Path)
    ensures Faithful(env, node, Untyped(env, node, path))
    decreases node
  {
    hide Gather, Record, Kept, IsIntegerToken, IntegerValue, InSharedRange, Fractional;
    match node
    case Arr(items) =>
      var os := seq(|items|, i requires 0 <= i < |items| => Untyped(env, items[i], path + [Item(i)]));
      forall i | 0 <= i < |items| ensures Faithful(env, items[i], os[i]) {
        UntypedMirrors(env, items[i], path + [Item(i)]);
      }
      ArrayMirrors(env, items, os);
    case Obj(ms) =>
      var k := Kept(ms);
      var os := seq(|k|, i requires 0 <= i < |k| => Untyped(env, ms[k[i]].1, path + [Member(ms[k[i]].0)]));
      forall i | 0 <= i < |k| ensures Faithful(env, ms[k[i]].1, os[i]) {
        UntypedMirrors(env, ms[k[i]].1, path + [Member(ms[k[i]].0)]);
      }
      ObjectMirrors(env, ms, os);
    case _ =>
  }

  ghost predicate FaithfulBelow(env: Env, rec: Rec) {
    forall v, n, q :: Faithful(env, n, rec(v, n, q))
  }

  lemma ReadArrayMirrors(env: Env, rec: Rec, m: Mapping, node: Node, path: Path)
    requires FaithfulBelow(env, rec)
    ensures Faithful(env, node, ReadArray(rec, m, node, path))
  {
    hide Get, Gather, Mirrors;
    if node.Arr? && Get(m, ItemsKey).Some? {
      ArrayMirrors(env, node.items, ItemOutcomes(rec, Get(m, ItemsKey).value, node.items, path));
    }
  }

  lemma FieldMirrors(p: Program, env: Env, rec: Rec, m: Mapping, properties: Mapping, member: (Text, Node), path: Path)
    requires FaithfulBelow(env, rec)
    ensures Faithful(env, member.1, ReadField(p, env, rec, m, properties, member, path))
  {
    hide Get, FreeForm, Untyped, Faithful;
    MissingIsFree(p);
    UntypedMirrors(env, member.1, path + [Member(member.0)]);
    RefusedIsFaithful(env, member.1, path, UnknownField(member.0));
  }

  lemma RefusedIsFaithful(env: Env, node: Node, path: Path, reason: Reason)
    ensures Faithful(env, node, Refused(path, reason))
  {
  }

  lemma ReadObjectMirrors(p: Program, env: Env, rec: Rec, m: Mapping, node: Node, path: Path)
    requires FaithfulBelow(env, rec)
    ensures Faithful(env, node, ReadObject(p, env, rec, m, node, path))
  {
    hide Get, Gather, Record, Kept, FirstMissing, PropertiesOf, RequiredOf, ReadField, Mirrors, FaithfulBelow;
    if node.Obj? && PropertiesOf(p, m).Some? {
      var ms := node.members;
      var k, properties := Kept(ms), PropertiesOf(p, m).value;
      var os := FieldOutcomes(p, env, rec, m, properties, ms, k, path);
      forall i | 0 <= i < |k| ensures Faithful(env, ms[k[i]].1, os[i]) {
        FieldMirrors(p, env, rec, m, properties, ms[k[i]], path);
      }
      ObjectMirrors(env, ms, os);
    }
  }

  lemma ScalarMirrors(env: Env, m: Mapping, node: Node, path: Path)
    ensures Faithful(env, node, ReadNull(node, path)) && Faithful(env, node, ReadBoolean(node, path))
    ensures Faithful(env, node, ReadString(env, m, node, path)) && Faithful(env, node, ReadInteger(m, node, path))
    ensures Faithful(env, node, ReadNumber(env, m, node, path))
  {
    hide Get, IsIntegerToken, IntegerValue, InSharedRange, PatternHolds, FormatHolds;
  }

  lemma TypedMirrors(p: Program, env: Env, rec: Rec, m: Mapping, kind: Text, node: Node, path: Path)
    requires FaithfulBelow(env, rec)
    ensures Faithful(env, node, ReadTyped(p, env, rec, m, kind, node, path))
  {
    hide Get, KindOf, ReadNull, ReadBoolean, ReadString, ReadInteger, ReadNumber, ReadArray, ReadObject, Faithful;
    ScalarMirrors(env, m, node, path);
    ReadArrayMirrors(env, rec, m, node, path);
    ReadObjectMirrors(p, env, rec, m, node, path);
    RefusedIsFaithful(env, node, path, UnsupportedType);
  }

  lemma ByTypeMirrors(p: Program, env: Env, rec: Rec, m: Mapping, node: Node, path: Path)
    requires FaithfulBelow(env, rec)
    ensures Faithful(env, node, ReadByType(p, env, rec, m, node, path))
  {
    hide Get, ReadTyped, ReadNull, ReadBoolean, ReadString, ReadInteger, ReadNumber, Exemplar, FaithfulBelow, Mirrors;
    hide FirstNotRefused;
    match Get(m, TypeKey)
    case Some(SList(kinds)) =>
      var ks := StringKinds(kinds);
      var os := KindOutcomes(p, env, rec, m, ks, node, path);
      forall i | 0 <= i < |os| ensures Faithful(env, node, os[i]) {
        TypedMirrors(p, env, rec, m, ks[i], node, path);
      }
      var at := FirstIsOne(os, path);
    case Some(SStr(kind)) =>
      TypedMirrors(p, env, rec, m, kind, node, path);
    case _ =>
      ScalarMirrors(env, m, node, path);
  }

  lemma BranchesMirror(env: Env, rec: Rec, branches: seq<SVal>, node: Node, path: Path)
    requires FaithfulBelow(env, rec)
    ensures Faithful(env, node, ExactlyOne(BranchOutcomes(rec, branches, node, path), path))
  {
    hide Oks, Mirrors;
    var os := BranchOutcomes(rec, branches, node, path);
    if |Oks(os)| == 1 {
      var at := SomeOk(os);
      assert Faithful(env, node, os[at]);
    }
  }

  lemma MappingMirrors(p: Program, env: Env, rec: Rec, m: Mapping, node: Node, path: Path)
    requires FaithfulBelow(env, rec)
    ensures Faithful(env, node, ReadMapping(p, env, rec, m, node, path))
  {
    hide Get, ReadByType, ExactlyOne, Mirrors, Is;
    match Get(m, RefKey)
    case Some(SStr(reference)) =>
    case _ =>
      match Get(m, OneOfKey)
      case Some(SList(branches)) =>
        BranchesMirror(env, rec, branches, node, path);
      case _ =>
        ByTypeMirrors(p, env, rec, m, node, path);
  }

  /** Whatever schema decodes a node, at whatever depth: the data is the node's. */
  lemma {:induction false} DecodedMirrors(p: Program, env: Env, v: SVal, node: Node, path: Path, depth: nat, d: Data)
    requires Decoded(p, env, v, node, path, depth) == Ok(d)
    ensures Mirrors(env, node, d)
    decreases depth
  {
    hide ReadMapping, Mirrors;
    if depth > 0 && Mapped(p, v) {
      var rec := Down(p, env, depth - 1);
      forall v2, n, q ensures Faithful(env, n, rec(v2, n, q)) {
        if rec(v2, n, q).Ok? {
          DecodedMirrors(p, env, v2, n, q, depth - 1, rec(v2, n, q).data);
        }
      }
      MappingMirrors(p, env, rec, p.store[v.id], node, path);
    }
  }
}
