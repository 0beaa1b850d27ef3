/** Dropping all but the last of each duplicated member: where both decodings end, the same data or two
    refusals.  Which refusal is given can differ, and on some schemas only one of the decodings ends. */
module KeepLastWins {
  import opened JsonGrammar
  import opened Schemas
  import opened Decoder
  import opened DecoderLoops
  import opened Duplicates
  import opened LastMemberWins
  import opened Wrappers

  /** Where both decodings end, both give the same data or both refuse. */
  ghost predicate Agree(a: Outcome, b: Outcome) {
    a.Unfinished? || b.Unfinished? || (a.Ok? && a == b) || (a.Refused? && b.Refused?)
  }

  ghost predicate AgreeAll(a: seq<Outcome>, b: seq<Outcome>) {
    |a| == |b| && forall i :: 0 <= i < |a| ==> Agree(a[i], b[i])
  }

  // ---- agreement of combined outcomes ----

  lemma {:induction false} ArraysAgree(a: seq<Outcome>, b: seq<Outcome>)
    requires AgreeAll(a, b)
    ensures Agree(ArrayOf(a), ArrayOf(b))
    decreases |a|
  {
    if a != [] {
      ArraysAgree(a[1..], b[1..]);
    }
  }

  lemma {:induction false} FirstsAgree(a: seq<Outcome>, b: seq<Outcome>, path: Path)
    requires AgreeAll(a, b)
    ensures Agree(FirstNotRefused(a, path), FirstNotRefused(b, path))
    decreases |a|
  {
    if a != [] {
      FirstsAgree(a[1..], b[1..], path);
    }
  }

  lemma {:induction false} OksAgree(a: seq<Outcome>, b: seq<Outcome>)
    requires AgreeAll(a, b) && Unfinished !in a && Unfinished !in b
    ensures Oks(a) == Oks(b)
    decreases |a|
  {
    if a != [] {
      assert a[0] in a && b[0] in b;
      OksAgree(a[1..], b[1..]);
    }
  }

  lemma ExactlyOneAgrees(a: seq<Outcome>, b: seq<Outcome>, path: Path)
    requires AgreeAll(a, b)
    ensures Agree(ExactlyOne(a, path), ExactlyOne(b, path))
  {
    hide Oks, AgreeAll;
    if Unfinished !in a && Unfinished !in b {
      OksAgree(a, b);
    }
  }

  lemma RecordSnocHolds(names: seq<Text>, values: seq<Data>, init: map<Text, Data>)
    requires names != [] && |names| == |values| && forall i, j :: 0 <= i < j < |names| ==> names[i] != names[j]
    requires var n := |names| - 1;
      && (forall t :: t in init <==> t in names[..n])
      && forall i :: 0 <= i < n ==> names[..n][i] in init && init[names[..n][i]] == values[..n][i]
    ensures var n := |names| - 1; var all := init[names[n] := values[n]];
      && (forall t :: t in all <==> t in names)
      && forall i :: 0 <= i < |names| ==> names[i] in all && all[names[i]] == values[i]
  {
    var n := |names| - 1;
    assert names == names[..n] + [names[n]];
    forall i | 0 <= i < n ensures names[i] in init && init[names[i]] == values[i] {
      assert names[..n][i] == names[i] && values[..n][i] == values[i];
    }
  }

  lemma {:induction false} RecordHolds(names: seq<Text>, values: seq<Data>)
    requires |names| == |values| && forall i, j :: 0 <= i < j < |names| ==> names[i] != names[j]
    ensures forall t :: t in Record(names, values) <==> t in names
    ensures forall i :: 0 <= i < |names| ==>
      names[i] in Record(names, values) && Record(names, values)[names[i]] == values[i]
    decreases |names|
  {
    if names != [] {
      var n := |names| - 1;
      RecordHolds(names[..n], values[..n]);
      RecordSnocHolds(names, values, Record(names[..n], values[..n]));
    }
  }

  lemma {:induction false} Gathers(os: seq<Outcome>) returns (at: nat)
    ensures Gather(os).All? ==> forall i :: 0 <= i < |os| ==> os[i] == Ok(Gather(os).values[i])
    ensures Gather(os).Stop? ==> at < |os| && os[at] == Gather(os).outcome
    decreases |os|
  {
    at := 0;
    if os != [] && os[0].Ok? {
      var rest := Gathers(os[1..]);
      at := rest + 1;
    }
  }

  lemma Counterpart(ms: Members, k1: seq<nat>, k2: seq<nat>, i: nat) returns (j: nat)
    requires Selects(ms, k1) && Selects(ms, k2) && i < |k1|
    ensures j < |k2| && k2[j] == k1[i]
  {
    assert Survives(ms, k1[i]);
    j :| 0 <= j < |k2| && k2[j] == k1[i];
  }

  lemma SameRecord(ms: Members, k1: seq<nat>, k2: seq<nat>, a: seq<Data>, b: seq<Data>)
    requires Selects(ms, k1) && Selects(ms, k2) && |a| == |k1| && |b| == |k2|
    requires forall i, j :: 0 <= i < |k1| && 0 <= j < |k2| && k1[i] == k2[j] ==> a[i] == b[j]
    ensures Record(NamesOf(ms, k1), a) == Record(NamesOf(ms, k2), b)
  {
    hide Record, Survives;
    var n1, n2 := NamesOf(ms, k1), NamesOf(ms, k2);
    RecordHolds(n1, a);
    RecordHolds(n2, b);
    forall i | 0 <= i < |n1| ensures n1[i] in n2 && Record(n2, b)[n1[i]] == a[i] {
      var j := Counterpart(ms, k1, k2, i);
      assert n2[j] == n1[i];
    }
    forall j | 0 <= j < |n2| ensures n2[j] in n1 {
      var i := Counterpart(ms, k2, k1, j);
      assert n1[i] == n2[j];
    }
  }

  lemma ObjectsAgree(ms: Members, k1: seq<nat>, k2: seq<nat>, a: seq<Outcome>, b: seq<Outcome>)
    requires Selects(ms, k1) && Selects(ms, k2) && |a| == |k1| && |b| == |k2|
    requires forall i, j :: 0 <= i < |k1| && 0 <= j < |k2| && k1[i] == k2[j] ==> Agree(a[i], b[j])
    ensures Agree(ObjectOf(NamesOf(ms, k1), a), ObjectOf(NamesOf(ms, k2), b))
  {
    hide Gather, Record, Selects;
    var x := Gathers(a);
    var y := Gathers(b);
    if Gather(a).All? && Gather(b).All? {
      SameRecord(ms, k1, k2, Gather(a).values, Gather(b).values);
    } else if Gather(a).All? {
      var i := Counterpart(ms, k2, k1, y);
    } else if Gather(b).All? {
      var j := Counterpart(ms, k1, k2, x);
    }
  }

  // ---- agreement of one level ----

  ghost predicate AgreesOnLast(rec: Rec) {
    forall v, n, q :: Agree(rec(v, n, q), rec(v, KeepLast(n), q))
  }

  ghost function LastMembersOf(ms: Members): (after: Members)
    ensures |after| == |Survivors(ms)|
    ensures forall i :: 0 <= i < |after| ==> after[i] == (ms[Survivors(ms)[i]].0, KeepLast(ms[Survivors(ms)[i]].1))
  {
    KeepLast(Obj(ms)).members
  }

  lemma LastChosen(ms: Members)
    ensures KeepLast(Obj(ms)) == Obj(LastMembersOf(ms)) && Chosen(ms, LastMembersOf(ms), Survivors(ms))
    ensures Kept(LastMembersOf(ms)) == Upto(|Survivors(ms)|)
  {
    hide Selects;
    SurvivorsSelect(ms);
    ChosenAreKept(ms, LastMembersOf(ms), Survivors(ms));
  }

  lemma {:induction false} UntypedAgrees(env: Env, node: Node, path: Path)
    ensures Agree(Untyped(env, node, path), Untyped(env, KeepLast(node), path))
    decreases node
  {
    hide Gather, Record, Kept, ReadNumber, ReadInteger, Chosen, Survivors;
    match node
    case Arr(items) =>
      var a := seq(|items|, i requires 0 <= i < |items| => Untyped(env, items[i], path + [Item(i)]));
      var last := KeepLast(node).items;
      var b := seq(|last|, i requires 0 <= i < |last| => Untyped(env, last[i], path + [Item(i)]));
      forall i | 0 <= i < |items| ensures Agree(a[i], b[i]) {
        UntypedAgrees(env, items[i], path + [Item(i)]);
      }
      ArraysAgree(a, b);
    case Obj(ms) =>
      UntypedObjectAgrees(env, ms, path);
    case _ =>
  }

  lemma {:induction false} UntypedObjectAgrees(env: Env, ms: Members, path: Path)
    ensures Agree(Untyped(env, Obj(ms), path), Untyped(env, KeepLast(Obj(ms)), path))
    decreases Obj(ms), 0
  {
    hide Gather, Record, Kept, ReadNumber, ReadInteger, Chosen, Survivors, Selects, Agree;
    KeptSelects(ms);
    SurvivorsSelect(ms);
    LastChosen(ms);
    var k, s, after := Kept(ms), Survivors(ms), LastMembersOf(ms);
    var up := Upto(|s|);
    var a := seq(|k|, i requires 0 <= i < |k| => Untyped(env, ms[k[i]].1, path + [Member(ms[k[i]].0)]));
    var b := seq(|up|, i requires 0 <= i < |up| => Untyped(env, after[up[i]].1, path + [Member(after[up[i]].0)]));
    forall i, j | 0 <= i < |k| && 0 <= j < |s| && k[i] == s[j] ensures Agree(a[i], b[j]) {
      UntypedAgrees(env, ms[k[i]].1, path + [Member(ms[k[i]].0)]);
    }
    assert NamesOf(after, up) == NamesOf(ms, s);
    ObjectsAgree(ms, k, s, a, b);
  }

  lemma FieldAgrees(p: Program, env: Env, rec: Rec, m: Mapping, properties: Mapping, name: Text, node: Node, path: Path)
    requires AgreesOnLast(rec)
    ensures Agree(
      ReadField(p, env, rec, m, properties, (name, node), path),
      ReadField(p, env, rec, m, properties, (name, KeepLast(node)), path))
  {
    hide Get, Untyped, KeepLast, FreeForm;
    MissingIsFree(p);
    UntypedAgrees(env, node, path + [Member(name)]);
  }

  lemma ObjectAgrees(p: Program, env: Env, rec: Rec, m: Mapping, ms: Members, path: Path)
    requires AgreesOnLast(rec)
    ensures Agree(ReadObject(p, env, rec, m, Obj(ms), path), ReadObject(p, env, rec, m, KeepLast(Obj(ms)), path))
  {
    hide Get, Gather, Record, Kept, ReadField, FirstMissing, PropertiesOf, RequiredOf, AgreesOnLast, KeepLast, Chosen;
    hide Survivors, Selects;
    KeptSelects(ms);
    SurvivorsSelect(ms);
    LastChosen(ms);
    var k, s, after := Kept(ms), Survivors(ms), LastMembersOf(ms);
    SameMissing(ms, after, s, RequiredOf(m));
    if PropertiesOf(p, m).Some? && FirstMissing(ms, RequiredOf(m)) == None {
      FieldsAgree(p, env, rec, m, PropertiesOf(p, m).value, ms, path);
    }
  }

  lemma FieldsAgree(p: Program, env: Env, rec: Rec, m: Mapping, properties: Mapping, ms: Members, path: Path)
    requires AgreesOnLast(rec)
    ensures var k, s, after := Kept(ms), Survivors(ms), LastMembersOf(ms);
      Agree(ObjectOf(NamesOf(ms, k), FieldOutcomes(p, env, rec, m, properties, ms, k, path)),
            ObjectOf(NamesOf(after, Upto(|s|)), FieldOutcomes(p, env, rec, m, properties, after, Upto(|s|), path)))
  {
    hide Get, Gather, Record, Kept, ReadField, AgreesOnLast, KeepLast, Survivors, Selects, Agree;
    KeptSelects(ms);
    SurvivorsSelect(ms);
    var k, s, after := Kept(ms), Survivors(ms), LastMembersOf(ms);
    var a := FieldOutcomes(p, env, rec, m, properties, ms, k, path);
    var b := FieldOutcomes(p, env, rec, m, properties, after, Upto(|s|), path);
    forall i, j | 0 <= i < |k| && 0 <= j < |s| && k[i] == s[j] ensures Agree(a[i], b[j]) {
      FieldAgrees(p, env, rec, m, properties, ms[k[i]].0, ms[k[i]].1, path);
    }
    assert NamesOf(after, Upto(|s|)) == NamesOf(ms, s);
    ObjectsAgree(ms, k, s, a, b);
  }

  lemma ArrayAgrees(rec: Rec, m: Mapping, items: seq<Node>, path: Path)
    requires AgreesOnLast(rec)
    ensures Agree(ReadArray(rec, m, Arr(items), path), ReadArray(rec, m, KeepLast(Arr(items)), path))
  {
    hide Get, Gather;
    if Get(m, ItemsKey).Some? {
      var schema := Get(m, ItemsKey).value;
      var last := KeepLast(Arr(items)).items;
      var a, b := ItemOutcomes(rec, schema, items, path), ItemOutcomes(rec, schema, last, path);
      forall i | 0 <= i < |items| ensures Agree(a[i], b[i]) {
        assert last[i] == KeepLast(items[i]);
      }
      ArraysAgree(a, b);
    }
  }

  lemma ScalarsLast(env: Env, m: Mapping, node: Node, path: Path)
    ensures ReadNull(KeepLast(node), path) == ReadNull(node, path)
    ensures ReadBoolean(KeepLast(node), path) == ReadBoolean(node, path)
    ensures ReadString(env, m, KeepLast(node), path) == ReadString(env, m, node, path)
    ensures ReadInteger(m, KeepLast(node), path) == ReadInteger(m, node, path)
    ensures ReadNumber(env, m, KeepLast(node), path) == ReadNumber(env, m, node, path)
    ensures !node.Obj? ==> !KeepLast(node).Obj?
    ensures !node.Arr? ==> !KeepLast(node).Arr?
  {
    hide Get, Bounded;
    if !node.Arr? && !node.Obj? {
      assert KeepLast(node) == node;
    }
  }

  lemma AgreesWithItself(o: Outcome)
    ensures Agree(o, o)
  {
  }

  lemma CompoundAgrees(p: Program, env: Env, rec: Rec, m: Mapping, node: Node, path: Path)
    requires AgreesOnLast(rec)
    ensures Agree(ReadObject(p, env, rec, m, node, path), ReadObject(p, env, rec, m, KeepLast(node), path))
    ensures Agree(ReadArray(rec, m, node, path), ReadArray(rec, m, KeepLast(node), path))
  {
    hide Get, KeepLast, AgreesOnLast, Gather, Agree;
    ScalarsLast(env, m, node, path);
    if node.Obj? {
      ObjectAgrees(p, env, rec, m, node.members, path);
    } else {
      AgreesWithItself(Refused(path, NotObject));
    }
    if node.Arr? {
      ArrayAgrees(rec, m, node.items, path);
    } else {
      AgreesWithItself(Refused(path, NotArray));
    }
  }

  lemma TypedAgrees(p: Program, env: Env, rec: Rec, m: Mapping, kind: Text, node: Node, path: Path)
    requires AgreesOnLast(rec)
    ensures Agree(ReadTyped(p, env, rec, m, kind, node, path), ReadTyped(p, env, rec, m, kind, KeepLast(node), path))
  {
    hide Get, KindOf, KeepLast, ReadNull, ReadBoolean, ReadString, ReadInteger, ReadNumber, ReadObject, ReadArray;
    hide AgreesOnLast, Agree;
    ScalarsLast(env, m, node, path);
    CompoundAgrees(p, env, rec, m, node, path);
    AgreesWithItself(ReadTyped(p, env, rec, m, kind, node, path));
  }

  lemma ByTypeAgrees(p: Program, env: Env, rec: Rec, m: Mapping, node: Node, path: Path)
    requires AgreesOnLast(rec)
    ensures Agree(ReadByType(p, env, rec, m, node, path), ReadByType(p, env, rec, m, KeepLast(node), path))
  {
    hide Get, ReadTyped, Exemplar, FirstNotRefused, KeepLast, AgreesOnLast, ReadNull, ReadBoolean, ReadString;
    hide ReadInteger, ReadNumber;
    match Get(m, TypeKey)
    case Some(SList(kinds)) =>
      var ks := StringKinds(kinds);
      var a, b := KindOutcomes(p, env, rec, m, ks, node, path), KindOutcomes(p, env, rec, m, ks, KeepLast(node), path);
      forall i | 0 <= i < |ks| ensures Agree(a[i], b[i]) {
        TypedAgrees(p, env, rec, m, ks[i], node, path);
      }
      FirstsAgree(a, b, path);
    case Some(SStr(kind)) =>
      TypedAgrees(p, env, rec, m, kind, node, path);
    case _ =>
      ScalarsLast(env, m, node, path);
  }

  lemma ConstrainedAgrees(m: Mapping, a: Outcome, b: Outcome, path: Path)
    requires Agree(a, b)
    ensures Agree(Constrained(m, a, path), Constrained(m, b, path))
  {
    hide Get, Is;
  }

  lemma ReferenceAgrees(p: Program, rec: Rec, reference: Text, node: Node, path: Path)
    requires AgreesOnLast(rec)
    ensures Agree(ReadReference(p, rec, reference, node, path), ReadReference(p, rec, reference, KeepLast(node), path))
  {
    hide KeepLast;
  }

  lemma BranchesAgree(rec: Rec, branches: seq<SVal>, node: Node, path: Path)
    requires AgreesOnLast(rec)
    ensures Agree(
      ExactlyOne(BranchOutcomes(rec, branches, node, path), path),
      ExactlyOne(BranchOutcomes(rec, branches, KeepLast(node), path), path))
  {
    hide KeepLast, ExactlyOne, Agree;
    ExactlyOneAgrees(
      BranchOutcomes(rec, branches, node, path), BranchOutcomes(rec, branches, KeepLast(node), path), path);
  }

  lemma MappingAgrees(p: Program, env: Env, rec: Rec, m: Mapping, node: Node, path: Path)
    requires AgreesOnLast(rec)
    ensures Agree(ReadMapping(p, env, rec, m, node, path), ReadMapping(p, env, rec, m, KeepLast(node), path))
  {
    hide Get, ExactlyOne, Constrained, ReadByType, ReadReference, KeepLast, AgreesOnLast, Agree;
    match Get(m, RefKey)
    case Some(SStr(reference)) =>
      ReferenceAgrees(p, rec, reference, node, path);
    case _ =>
      match Get(m, OneOfKey)
      case Some(SList(branches)) =>
        BranchesAgree(rec, branches, node, path);
      case _ =>
        ByTypeAgrees(p, env, rec, m, node, path);
        ConstrainedAgrees(
          m, ReadByType(p, env, rec, m, node, path), ReadByType(p, env, rec, m, KeepLast(node), path), path);
  }

  /** Dropping all but the last of each duplicated member, at every depth: where both decodings end, the
      same data or a refusal both times. */
  lemma {:induction false} KeepLastAgrees(p: Program, env: Env, v: SVal, node: Node, path: Path, depth: nat)
    ensures Agree(Decoded(p, env, v, node, path, depth), Decoded(p, env, v, KeepLast(node), path, depth))
    decreases depth
  {
    hide ReadMapping, KeepLast;
    if depth > 0 && Mapped(p, v) {
      var rec := Down(p, env, depth - 1);
      forall v2, n, q ensures Agree(rec(v2, n, q), rec(v2, KeepLast(n), q)) {
        KeepLastAgrees(p, env, v2, n, q, depth - 1);
      }
      MappingAgrees(p, env, rec, p.store[v.id], node, path);
    }
  }
}
