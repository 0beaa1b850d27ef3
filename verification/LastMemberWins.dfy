/** Decoding a node and decoding it with its duplicated members removed. */
module LastMemberWins {
  import opened JsonGrammar
  import opened Schemas
  import opened Decoder
  import opened Duplicates
  import opened Wrappers

  ghost function MergedMembers(ms: Members): (after: Members)
    ensures |after| == |Kept(ms)|
    ensures forall i :: 0 <= i < |after| ==> after[i] == (ms[Kept(ms)[i]].0, Merged(ms[Kept(ms)[i]].1))
  {
    Merged(Obj(ms)).members
  }

  lemma MergedChosen(ms: Members)
    ensures Merged(Obj(ms)) == Obj(MergedMembers(ms)) && Chosen(ms, MergedMembers(ms), Kept(ms))
    ensures Kept(MergedMembers(ms)) == Upto(|Kept(ms)|)
  {
    hide Selects;
    KeptSelects(ms);
    ChosenAreKept(ms, MergedMembers(ms), Kept(ms));
  }

  // ---- merging in place: the same outcome, refusals included ----

  ghost predicate SameOnMerged(rec: Rec) {
    forall v, n, q :: rec(v, Merged(n), q) == rec(v, n, q)
  }

  lemma {:induction false} UntypedMerged(env: Env, node: Node, path: Path)
    ensures Untyped(env, Merged(node), path) == Untyped(env, node, path)
    decreases node
  {
    hide Gather, Record, Kept, ReadNumber, ReadInteger, Chosen;
    match node
    case Arr(items) =>
      var os := seq(|items|, i requires 0 <= i < |items| => Untyped(env, items[i], path + [Item(i)]));
      var merged := Merged(node).items;
      forall i | 0 <= i < |items| ensures Untyped(env, merged[i], path + [Item(i)]) == os[i] {
        UntypedMerged(env, items[i], path + [Item(i)]);
      }
      assert seq(|merged|, i requires 0 <= i < |merged| => Untyped(env, merged[i], path + [Item(i)])) == os;
    case Obj(ms) =>
      UntypedMergedObject(env, ms, path);
    case _ =>
  }

  lemma {:induction false} UntypedMergedObject(env: Env, ms: Members, path: Path)
    ensures Untyped(env, Merged(Obj(ms)), path) == Untyped(env, Obj(ms), path)
    decreases Obj(ms), 0
  {
    hide Gather, Record, Kept, ReadNumber, ReadInteger, Chosen;
    MergedChosen(ms);
    var k, after := Kept(ms), MergedMembers(ms);
    var os := seq(|k|, i requires 0 <= i < |k| => Untyped(env, ms[k[i]].1, path + [Member(ms[k[i]].0)]));
    var up := Upto(|k|);
    var merged := seq(|up|, i requires 0 <= i < |up| => Untyped(env, after[up[i]].1, path + [Member(after[up[i]].0)]));
    forall i | 0 <= i < |k| ensures merged[i] == os[i] {
      UntypedMerged(env, ms[k[i]].1, path + [Member(ms[k[i]].0)]);
    }
    assert merged == os && NamesOf(after, up) == NamesOf(ms, k);
  }

  lemma FieldMerged(p: Program, env: Env, rec: Rec, m: Mapping, properties: Mapping, name: Text, node: Node, path: Path)
    requires SameOnMerged(rec)
    ensures ReadField(p, env, rec, m, properties, (name, Merged(node)), path)
      == ReadField(p, env, rec, m, properties, (name, node), path)
  {
    hide Get, Untyped, Merged, FreeForm;
    MissingIsFree(p);
    UntypedMerged(env, node, path + [Member(name)]);
  }

  lemma ObjectMerged(p: Program, env: Env, rec: Rec, m: Mapping, ms: Members, path: Path)
    requires SameOnMerged(rec)
    ensures ReadObject(p, env, rec, m, Merged(Obj(ms)), path) == ReadObject(p, env, rec, m, Obj(ms), path)
  {
    hide Get, Gather, Record, Kept, ReadField, FirstMissing, PropertiesOf, RequiredOf, SameOnMerged, Merged, Chosen;
    MergedChosen(ms);
    var k, after := Kept(ms), MergedMembers(ms);
    SameMissing(ms, after, k, RequiredOf(m));
    if PropertiesOf(p, m).Some? {
      var properties := PropertiesOf(p, m).value;
      var os := FieldOutcomes(p, env, rec, m, properties, ms, k, path);
      var merged := FieldOutcomes(p, env, rec, m, properties, after, Upto(|k|), path);
      forall i | 0 <= i < |k| ensures merged[i] == os[i] {
        FieldMerged(p, env, rec, m, properties, ms[k[i]].0, ms[k[i]].1, path);
      }
      assert merged == os && NamesOf(after, Upto(|k|)) == NamesOf(ms, k);
    }
  }

  lemma TypedMerged(p: Program, env: Env, rec: Rec, m: Mapping, kind: Text, node: Node, path: Path)
    requires SameOnMerged(rec)
    ensures ReadTyped(p, env, rec, m, kind, Merged(node), path) == ReadTyped(p, env, rec, m, kind, node, path)
  {
    hide Get, Gather, KindOf, Bounded, Merged, ReadObject, ReadArray, ReadString, ReadInteger, ReadNumber;
    ScalarsMerged(env, m, node, path);
    if node.Obj? {
      ObjectMerged(p, env, rec, m, node.members, path);
    } else {
      ObjectRefused(p, env, rec, m, node, path);
    }
    if node.Arr? {
      ArrayMerged(rec, m, node.items, path);
    } else {
      ArrayRefused(rec, m, node, path);
    }
  }

  lemma ObjectRefused(p: Program, env: Env, rec: Rec, m: Mapping, node: Node, path: Path)
    requires !node.Obj?
    ensures ReadObject(p, env, rec, m, Merged(node), path) == ReadObject(p, env, rec, m, node, path)
  {
  }

  lemma ArrayRefused(rec: Rec, m: Mapping, node: Node, path: Path)
    requires !node.Arr?
    ensures ReadArray(rec, m, Merged(node), path) == ReadArray(rec, m, node, path)
  {
  }

  lemma ScalarsMerged(env: Env, m: Mapping, node: Node, path: Path)
    ensures ReadNull(Merged(node), path) == ReadNull(node, path)
    ensures ReadBoolean(Merged(node), path) == ReadBoolean(node, path)
    ensures ReadString(env, m, Merged(node), path) == ReadString(env, m, node, path)
    ensures ReadInteger(m, Merged(node), path) == ReadInteger(m, node, path)
    ensures ReadNumber(env, m, Merged(node), path) == ReadNumber(env, m, node, path)
  {
    hide Get, Bounded;
    if !node.Arr? && !node.Obj? {
      assert Merged(node) == node;
    }
  }

  lemma ArrayMerged(rec: Rec, m: Mapping, items: seq<Node>, path: Path)
    requires SameOnMerged(rec)
    ensures ReadArray(rec, m, Merged(Arr(items)), path) == ReadArray(rec, m, Arr(items), path)
  {
    hide Get, Gather;
    if Get(m, ItemsKey).Some? {
      var schema := Get(m, ItemsKey).value;
      assert ItemOutcomes(rec, schema, Merged(Arr(items)).items, path) == ItemOutcomes(rec, schema, items, path);
    }
  }

  lemma ImplicitMerged(env: Env, m: Mapping, node: Node, path: Path)
    ensures ReadImplicit(env, m, Merged(node), path) == ReadImplicit(env, m, node, path)
  {
    hide Get, Exemplar, Merged, ReadNull, ReadBoolean, ReadString, ReadInteger, ReadNumber;
    ScalarsMerged(env, m, node, path);
  }

  lemma MappingMerged(p: Program, env: Env, rec: Rec, m: Mapping, node: Node, path: Path)
    requires SameOnMerged(rec)
    ensures ReadMapping(p, env, rec, m, Merged(node), path) == ReadMapping(p, env, rec, m, node, path)
  {
    hide Get, ExactlyOne, Constrained, ReadTyped, ReadImplicit, FirstNotRefused, Merged;
    match Get(m, RefKey)
    case Some(SStr(reference)) =>
    case _ =>
      match Get(m, OneOfKey)
      case Some(SList(branches)) =>
        assert BranchOutcomes(rec, branches, Merged(node), path) == BranchOutcomes(rec, branches, node, path);
      case _ =>
        ByTypeMerged(p, env, rec, m, node, path);
  }

  lemma ByTypeMerged(p: Program, env: Env, rec: Rec, m: Mapping, node: Node, path: Path)
    requires SameOnMerged(rec)
    ensures ReadByType(p, env, rec, m, Merged(node), path) == ReadByType(p, env, rec, m, node, path)
  {
    hide Get, ReadTyped, ReadImplicit, FirstNotRefused, Merged, SameOnMerged;
    match Get(m, TypeKey)
    case Some(SList(kinds)) =>
      var ks := StringKinds(kinds);
      forall i | 0 <= i < |ks|
        ensures ReadTyped(p, env, rec, m, ks[i], Merged(node), path) == ReadTyped(p, env, rec, m, ks[i], node, path) {
        TypedMerged(p, env, rec, m, ks[i], node, path);
      }
      assert KindOutcomes(p, env, rec, m, ks, Merged(node), path) == KindOutcomes(p, env, rec, m, ks, node, path);
    case Some(SStr(kind)) =>
      TypedMerged(p, env, rec, m, kind, node, path);
    case _ =>
      ImplicitMerged(env, m, node, path);
  }

  /** Merging duplicates in place changes nothing: the same data, or the same refusal at the same place. */
  lemma {:induction false} MergedSame(p: Program, env: Env, v: SVal, node: Node, path: Path, depth: nat)
    ensures Decoded(p, env, v, Merged(node), path, depth) == Decoded(p, env, v, node, path, depth)
    decreases depth
  {
    hide ReadMapping, Merged;
    if depth > 0 && Mapped(p, v) {
      var rec := Down(p, env, depth - 1);
      forall v2, n, q ensures rec(v2, Merged(n), q) == rec(v2, n, q) {
        MergedSame(p, env, v2, n, q, depth - 1);
      }
      MappingMerged(p, env, rec, p.store[v.id], node, path);
    }
  }
}
