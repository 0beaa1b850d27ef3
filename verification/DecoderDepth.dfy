/** The depth only bounds how far the decoder is followed: once it gives an outcome, more depth gives
    the same one. */
module DecoderDepth {
  import opened JsonGrammar
  import opened Schemas
  import opened Decoder
  import opened Wrappers

  ghost predicate Extends(a: Outcome, b: Outcome) {
    a.Unfinished? || a == b
  }

  ghost predicate ExtendsAll(a: seq<Outcome>, b: seq<Outcome>) {
    |a| == |b| && forall i :: 0 <= i < |a| ==> Extends(a[i], b[i])
  }

  lemma {:induction false} GatherExtends(a: seq<Outcome>, b: seq<Outcome>)
    requires ExtendsAll(a, b)
    ensures Gather(a) == Gather(b) || Gather(a) == Stop(Unfinished)
    decreases |a|
  {
    if a != [] {
      GatherExtends(a[1..], b[1..]);
    }
  }

  lemma {:induction false} FirstExtends(a: seq<Outcome>, b: seq<Outcome>, path: Path)
    requires ExtendsAll(a, b)
    ensures Extends(FirstNotRefused(a, path), FirstNotRefused(b, path))
    decreases |a|
  {
    if a != [] {
      FirstExtends(a[1..], b[1..], path);
    }
  }

  lemma ExactlyOneExtends(a: seq<Outcome>, b: seq<Outcome>, path: Path)
    requires ExtendsAll(a, b)
    ensures Extends(ExactlyOne(a, path), ExactlyOne(b, path))
  {
    if Unfinished !in a {
      forall i | 0 <= i < |a| ensures a[i] == b[i] {
        assert a[i] in a;
      }
      assert a == b;
    }
  }

  ghost predicate RecExtends(rec: Rec, more: Rec) {
    forall v, n, q :: Extends(rec(v, n, q), more(v, n, q))
  }

  lemma FieldExtends(p: Program, env: Env, rec: Rec, more: Rec, m: Mapping, properties: Mapping, member: (Text, Node),
        path: Path)
    requires RecExtends(rec, more)
    ensures Extends(
      ReadField(p, env, rec, m, properties, member, path),
      ReadField(p, env, more, m, properties, member, path))
  {
    hide Get, Untyped, FreeForm;
    MissingIsFree(p);
  }

  lemma ObjectExtends(p: Program, env: Env, rec: Rec, more: Rec, m: Mapping, node: Node, path: Path)
    requires RecExtends(rec, more)
    ensures Extends(ReadObject(p, env, rec, m, node, path), ReadObject(p, env, more, m, node, path))
  {
    hide Get, Gather, Kept, FirstMissing, PropertiesOf, RequiredOf, ReadField, Record, RecExtends;
    if node.Obj? && PropertiesOf(p, m).Some? {
      var k, properties := Kept(node.members), PropertiesOf(p, m).value;
      var a := FieldOutcomes(p, env, rec, m, properties, node.members, k, path);
      var b := FieldOutcomes(p, env, more, m, properties, node.members, k, path);
      forall i | 0 <= i < |k| ensures Extends(a[i], b[i]) {
        FieldExtends(p, env, rec, more, m, properties, node.members[k[i]], path);
      }
      GatherExtends(a, b);
    }
  }

  lemma ArrayExtends(rec: Rec, more: Rec, m: Mapping, node: Node, path: Path)
    requires RecExtends(rec, more)
    ensures Extends(ReadArray(rec, m, node, path), ReadArray(more, m, node, path))
  {
    hide Get, Gather;
    if node.Arr? && Get(m, ItemsKey).Some? {
      var schema := Get(m, ItemsKey).value;
      GatherExtends(ItemOutcomes(rec, schema, node.items, path), ItemOutcomes(more, schema, node.items, path));
    }
  }

  lemma TypedExtends(p: Program, env: Env, rec: Rec, more: Rec, m: Mapping, kind: Text, node: Node, path: Path)
    requires RecExtends(rec, more)
    ensures Extends(ReadTyped(p, env, rec, m, kind, node, path), ReadTyped(p, env, more, m, kind, node, path))
  {
    hide Get, KindOf, ReadArray, ReadObject, ReadString, ReadInteger, ReadNumber, RecExtends;
    ObjectExtends(p, env, rec, more, m, node, path);
    ArrayExtends(rec, more, m, node, path);
  }

  lemma ByTypeExtends(p: Program, env: Env, rec: Rec, more: Rec, m: Mapping, node: Node, path: Path)
    requires RecExtends(rec, more)
    ensures Extends(ReadByType(p, env, rec, m, node, path), ReadByType(p, env, more, m, node, path))
  {
    hide Get, ReadTyped, ReadImplicit, FirstNotRefused, RecExtends;
    match Get(m, TypeKey)
    case Some(SList(kinds)) =>
      var ks := StringKinds(kinds);
      var a, b := KindOutcomes(p, env, rec, m, ks, node, path), KindOutcomes(p, env, more, m, ks, node, path);
      forall i | 0 <= i < |ks| ensures Extends(a[i], b[i]) {
        TypedExtends(p, env, rec, more, m, ks[i], node, path);
      }
      FirstExtends(a, b, path);
    case Some(SStr(kind)) =>
      TypedExtends(p, env, rec, more, m, kind, node, path);
    case _ =>
  }

  lemma MappingExtends(p: Program, env: Env, rec: Rec, more: Rec, m: Mapping, node: Node, path: Path)
    requires RecExtends(rec, more)
    ensures Extends(ReadMapping(p, env, rec, m, node, path), ReadMapping(p, env, more, m, node, path))
  {
    hide Get, ReadByType, ExactlyOne, Constrained;
    match Get(m, RefKey)
    case Some(SStr(reference)) =>
    case _ =>
      match Get(m, OneOfKey)
      case Some(SList(branches)) =>
        ExactlyOneExtends(BranchOutcomes(rec, branches, node, path), BranchOutcomes(more, branches, node, path), path);
      case _ =>
        ByTypeExtends(p, env, rec, more, m, node, path);
        UnfinishedPasses(m, ReadByType(p, env, rec, m, node, path), path);
  }

  lemma UnfinishedPasses(m: Mapping, o: Outcome, path: Path)
    ensures o.Unfinished? ==> Constrained(m, o, path) == o
  {
  }

  /** An outcome reached at some depth is the outcome at every greater depth. */
  lemma {:induction false} MoreDepthSameOutcome(p: Program, env: Env, v: SVal, node: Node, path: Path, depth: nat,
        deeper: nat)
    requires depth <= deeper && !Decoded(p, env, v, node, path, depth).Unfinished?
    ensures Decoded(p, env, v, node, path, deeper) == Decoded(p, env, v, node, path, depth)
    decreases depth
  {
    hide ReadMapping;
    if depth > 0 && Mapped(p, v) {
      var rec, more := Down(p, env, depth - 1), Down(p, env, deeper - 1);
      forall v2, n, q ensures Extends(rec(v2, n, q), more(v2, n, q)) {
        if !Decoded(p, env, v2, n, q, depth - 1).Unfinished? {
          MoreDepthSameOutcome(p, env, v2, n, q, depth - 1, deeper - 1);
        }
      }
      MappingExtends(p, env, rec, more, p.store[v.id], node, path);
    }
  }
}
