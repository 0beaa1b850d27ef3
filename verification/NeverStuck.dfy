/** Acceptance by the generation-time walk keeps the decoder from getting stuck: at every marked
    schema, every node is answered, and never with a fault of the schema.  Ending and ending without
    such a fault are followed together: `faultless` asks for the second. */
module NeverStuck {
  import opened Graphs
  import opened JsonGrammar
  import opened Schemas
  import opened SchemaCheck
  import opened Decoder
  import opened Wrappers

  ghost predicate Safe(o: Outcome, faultless: bool) {
    !o.Unfinished? && (faultless ==> !(o.Refused? && SchemaFault(o.reason)))
  }

  ghost predicate AllSafe(os: seq<Outcome>, faultless: bool) {
    forall i :: 0 <= i < |os| ==> Safe(os[i], faultless)
  }

  lemma {:induction false} FirstNotRefusedSafe(os: seq<Outcome>, path: Path, faultless: bool)
    requires AllSafe(os, faultless)
    ensures Safe(FirstNotRefused(os, path), faultless)
    decreases |os|
  {
    if os != [] {
      FirstNotRefusedSafe(os[1..], path, faultless);
    }
  }

  lemma {:induction false} GatherSafe(os: seq<Outcome>, faultless: bool)
    requires AllSafe(os, faultless)
    ensures Gather(os).Stop? ==> Safe(Gather(os).outcome, faultless)
    decreases |os|
  {
    if os != [] {
      GatherSafe(os[1..], faultless);
    }
  }

  lemma ExactlyOneSafe(os: seq<Outcome>, path: Path, faultless: bool)
    requires AllSafe(os, faultless)
    ensures Safe(ExactlyOne(os, path), faultless)
  {
    hide Oks;
  }

  // ---- heights of nodes ----

  ghost function Height(n: Node): nat
    decreases n
  {
    match n
    case Arr(items) => 1 + ItemsHeight(items)
    case Obj(ms) => 1 + MembersHeight(ms)
    case _ => 0
  }

  ghost function ItemsHeight(items: seq<Node>): nat
    decreases items
  {
    if items == [] then 0 else Max(Height(items[0]), ItemsHeight(items[1..]))
  }

  ghost function MembersHeight(ms: Members): nat
    decreases ms
  {
    if ms == [] then 0 else Max(MemberHeight(ms[0]), MembersHeight(ms[1..]))
  }

  ghost function MemberHeight(m: (Text, Node)): nat
    decreases m
  {
    Height(m.1)
  }

  function Max(a: nat, b: nat): nat { if a < b then b else a }

  lemma {:induction false} ItemLower(items: seq<Node>, i: nat)
    requires i < |items|
    ensures Height(items[i]) <= ItemsHeight(items)
    decreases |items|
  {
    if i > 0 {
      ItemLower(items[1..], i - 1);
    }
  }

  lemma {:induction false} MemberLower(ms: Members, i: nat)
    requires i < |ms|
    ensures Height(ms[i].1) <= MembersHeight(ms)
    decreases |ms|
  {
    if i > 0 {
      MemberLower(ms[1..], i - 1);
    }
  }

  // ---- what the walk leaves unchecked ----

  ghost predicate PlainReference(reference: Text) {
    REFERENCE_PREFIX <= reference && SOLIDUS !in reference[|REFERENCE_PREFIX|..]
  }

  /** Every reference is the component prefix and one name. */
  ghost predicate PlainReferences(p: Program, seen: set<Id>)
    requires seen <= p.store.Keys
  {
    forall id :: id in seen ==> PlainAt(p.store[id])
  }

  ghost predicate PlainAt(m: Mapping) {
    match Get(m, RefKey)
    case Some(SStr(reference)) => PlainReference(reference)
    case _ => true
  }

  /** Decoding falls back to the type of an exemplar. */
  ghost predicate Implicit(m: Mapping) {
    && !(Get(m, RefKey).Some? && Get(m, RefKey).value.SStr?)
    && !(Get(m, OneOfKey).Some? && Get(m, OneOfKey).value.SList?)
    && !(Get(m, TypeKey).Some? && (Get(m, TypeKey).value.SList? || Get(m, TypeKey).value.SStr?))
  }

  ghost predicate ScalarAt(m: Mapping) {
    Implicit(m) ==> Exemplar(m).Some? && !Exemplar(m).value.SList? && !Exemplar(m).value.SObj?
  }

  /** Wherever an exemplar decides the type, it is a scalar. */
  ghost predicate ScalarExemplars(p: Program, seen: set<Id>)
    requires seen <= p.store.Keys
  {
    forall id :: id in seen ==> ScalarAt(p.store[id])
  }

  /** Decoding a node at `m` decodes the same node at `b`: a reference, or a branch. */
  ghost predicate SameNode(p: Program, m: Mapping, b: Id) {
    match Get(m, RefKey)
    case Some(SStr(reference)) => LastPart(reference) in p.schemas && p.schemas[LastPart(reference)] == SObj(b)
    case _ =>
      match Get(m, OneOfKey)
      case Some(SList(branches)) => SObj(b) in branches
      case _ => false
  }

  ghost function SameNodeEdges(p: Program, seen: set<Id>): Edges
    requires seen <= p.store.Keys
  {
    set a, b | a in seen && b in seen && SameNode(p, p.store[a], b) :: (a, b)
  }

  // ---- one level ----

  ghost predicate SafeBelow(rec: Rec, seen: set<Id>, height: nat, faultless: bool) {
    forall b, n, q :: b in seen && Height(n) < height ==> Safe(rec(SObj(b), n, q), faultless)
  }

  ghost predicate SafeBeside(p: Program, rec: Rec, seen: set<Id>, m: Mapping, node: Node, faultless: bool) {
    forall b, q :: b in seen && SameNode(p, m, b) ==> Safe(rec(SObj(b), node, q), faultless)
  }

  lemma {:induction false} LastPartOfPlain(before: Text, name: Text)
    requires before != [] && before[|before| - 1] == SOLIDUS && SOLIDUS !in name
    ensures LastPart(before + name) == name
    decreases |name|
  {
    var t := before + name;
    assert t[|before| - 1] == SOLIDUS;
    if name == [] {
      assert t == before;
    } else {
      var n := |name| - 1;
      LastPartOfPlain(before, name[..n]);
      assert t[..|t| - 1] == before + name[..n];
      assert name == name[..n] + [name[n]];
      assert name[n] in name;
    }
  }

  lemma ReferenceNames(reference: Text)
    requires PlainReference(reference)
    ensures LastPart(reference) == reference[|REFERENCE_PREFIX|..]
  {
    var name := reference[|REFERENCE_PREFIX|..];
    assert reference == REFERENCE_PREFIX + name;
    assert REFERENCE_PREFIX[|REFERENCE_PREFIX| - 1] == SOLIDUS;
    LastPartOfPlain(REFERENCE_PREFIX, name);
  }

  lemma {:induction false} UntypedSafe(env: Env, node: Node, path: Path)
    ensures Safe(Untyped(env, node, path), true)
    decreases node
  {
    match node
    case Arr(items) =>
      var os := seq(|items|, i requires 0 <= i < |items| => Untyped(env, items[i], path + [Item(i)]));
      forall i | 0 <= i < |items| ensures Safe(os[i], true) {
        UntypedSafe(env, items[i], path + [Item(i)]);
      }
      GatherSafe(os, true);
    case Obj(ms) =>
      var kept := Kept(ms);
      var os := seq(|kept|, i requires 0 <= i < |kept| => Untyped(env, ms[kept[i]].1, path + [Member(ms[kept[i]].0)]));
      forall i | 0 <= i < |kept| ensures Safe(os[i], true) {
        UntypedSafe(env, ms[kept[i]].1, path + [Member(ms[kept[i]].0)]);
      }
      GatherSafe(os, true);
    case _ =>
  }

  lemma ArraySafe(rec: Rec, seen: set<Id>, m: Mapping, node: Node, path: Path, faultless: bool)
    requires Get(m, ItemsKey).Some? && In(Get(m, ItemsKey).value, seen) && SafeBelow(rec, seen, Height(node), faultless)
    ensures Safe(ReadArray(rec, m, node, path), faultless)
  {
    hide Get, Gather;
    if node.Arr? {
      var schema := Get(m, ItemsKey).value;
      var os := ItemOutcomes(rec, schema, node.items, path);
      forall i | 0 <= i < |os| ensures Safe(os[i], faultless) {
        ItemLower(node.items, i);
        assert schema == SObj(schema.id);
      }
      GatherSafe(os, faultless);
    }
  }

  lemma FieldSafe(p: Program, env: Env, rec: Rec, seen: set<Id>, m: Mapping, member: (Text, Node), path: Path,
        height: nat, faultless: bool)
    requires ObjectSettled(p, seen, m) && SafeBelow(rec, seen, height, faultless) && Height(member.1) < height
    ensures PropertiesOf(p, m).Some?
    ensures Safe(ReadField(p, env, rec, m, PropertiesOf(p, m).value, member, path), faultless)
  {
    hide Get, Height, Untyped;
    var (name, node) := member;
    var properties := PropertiesOf(p, m).value;
    UntypedSafe(env, node, path + [Member(name)]);
    if name in properties {
      assert In(properties[name], seen);
      assert properties[name] == SObj(properties[name].id);
    }
    MissingIsFree(p);
    var additional := Get(m, AdditionalKey);
    if additional.Some? && In(additional.value, seen) {
      assert additional.value == SObj(additional.value.id);
    }
  }

  lemma ObjectSafe(p: Program, env: Env, rec: Rec, seen: set<Id>, m: Mapping, node: Node, path: Path, faultless: bool)
    requires ObjectSettled(p, seen, m) && SafeBelow(rec, seen, Height(node), faultless)
    ensures Safe(ReadObject(p, env, rec, m, node, path), faultless)
  {
    hide Get, Gather, Kept, FirstMissing, ReadField, SafeBelow, Record, PropertiesOf;
    if node.Obj? {
      var ms := node.members;
      var kept := Kept(ms);
      PropertiesAreMapped(p, seen, m);
      var os := FieldOutcomes(p, env, rec, m, PropertiesOf(p, m).value, ms, kept, path);
      forall i | 0 <= i < |os| ensures Safe(os[i], faultless) {
        MemberLower(ms, kept[i]);
        FieldSafe(p, env, rec, seen, m, ms[kept[i]], path, Height(node), faultless);
      }
      GatherSafe(os, faultless);
    }
  }

  lemma PropertiesAreMapped(p: Program, seen: set<Id>, m: Mapping)
    requires ObjectSettled(p, seen, m)
    ensures PropertiesOf(p, m).Some?
  {
  }

  lemma TypedSafe(p: Program, env: Env, rec: Rec, seen: set<Id>, m: Mapping, kind: Text, node: Node, path: Path,
        faultless: bool)
    requires KindSettled(p, seen, m, SStr(kind)) && SafeBelow(rec, seen, Height(node), faultless)
    ensures Safe(ReadTyped(p, env, rec, m, kind, node, path), faultless)
  {
    hide Get, KindOf, SafeBelow, ReadArray, ReadObject, ObjectSettled, Height;
    if KindOf(kind) == Some(ArrayKind) {
      ArraySafe(rec, seen, m, node, path, faultless);
    }
    if KindOf(kind) == Some(ObjectKind) {
      ObjectSafe(p, env, rec, seen, m, node, path, faultless);
    }
  }

  lemma {:induction false} StringKindsSettled(p: Program, seen: set<Id>, m: Mapping, kinds: seq<SVal>)
    requires forall i :: 0 <= i < |kinds| ==> KindSettled(p, seen, m, kinds[i])
    ensures forall i :: 0 <= i < |StringKinds(kinds)| ==> KindSettled(p, seen, m, SStr(StringKinds(kinds)[i]))
    decreases |kinds|
  {
    if kinds != [] {
      StringKindsSettled(p, seen, m, kinds[1..]);
      assert kinds[0] == SStr(kinds[0].s);
    }
  }

  lemma ByTypeSafe(p: Program, env: Env, rec: Rec, seen: set<Id>, m: Mapping, node: Node, path: Path, faultless: bool)
    requires faultless && Implicit(m) ==> ScalarAt(m)
    requires !(Get(m, RefKey).Some? && Get(m, RefKey).value.SStr?)
    requires !(Get(m, OneOfKey).Some? && Get(m, OneOfKey).value.SList?)
    requires TypeSettled(p, seen, m) && SafeBelow(rec, seen, Height(node), faultless)
    ensures Safe(ReadByType(p, env, rec, m, node, path), faultless)
  {
    hide Get, KindSettled, SafeBelow, ReadTyped, Height, HasExemplar, Exemplar;
    match Get(m, TypeKey)
    case Some(SList(kinds)) =>
      StringKindsSettled(p, seen, m, kinds);
      var ks := StringKinds(kinds);
      var os := KindOutcomes(p, env, rec, m, ks, node, path);
      forall i | 0 <= i < |os| ensures Safe(os[i], faultless) {
        TypedSafe(p, env, rec, seen, m, ks[i], node, path, faultless);
      }
      FirstNotRefusedSafe(os, path, faultless);
    case Some(SStr(kind)) =>
      TypedSafe(p, env, rec, seen, m, kind, node, path, faultless);
    case _ =>
      assert Implicit(m);
  }

  lemma PlainHasPrefix(reference: Text)
    requires PlainReference(reference)
    ensures REFERENCE_PREFIX <= reference
  {
  }

  lemma ReferenceSafe(p: Program, rec: Rec, seen: set<Id>, m: Mapping, reference: Text, node: Node, path: Path,
        faultless: bool)
    requires Get(m, RefKey) == Some(SStr(reference)) && PlainReference(reference)
    requires ReferenceSettled(p, seen, reference)
    requires SafeBeside(p, rec, seen, m, node, faultless)
    ensures Safe(ReadReference(p, rec, reference, node, path), faultless)
  {
    hide Get, LastPart;
    ReferenceNames(reference);
    var target := p.schemas[LastPart(reference)];
    assert target == SObj(target.id) && SameNode(p, m, target.id);
  }

  lemma BranchesSafe(p: Program, rec: Rec, seen: set<Id>, m: Mapping, branches: seq<SVal>, node: Node, path: Path,
        faultless: bool)
    requires !(Get(m, RefKey).Some? && Get(m, RefKey).value.SStr?) && Get(m, OneOfKey) == Some(SList(branches))
    requires BranchesSettled(seen, branches) && SafeBeside(p, rec, seen, m, node, faultless)
    ensures Safe(ExactlyOne(BranchOutcomes(rec, branches, node, path), path), faultless)
  {
    hide Get, LastPart;
    var os := BranchOutcomes(rec, branches, node, path);
    forall i | 0 <= i < |os| ensures Safe(os[i], faultless) {
      assert branches[i] == SObj(branches[i].id) && SameNode(p, m, branches[i].id);
    }
    ExactlyOneSafe(os, path, faultless);
  }

  /** One level: with the levels below safe on lower nodes, and safe on this node at the schemas a
      reference or a branch leads to, this level is safe. */
  lemma LevelSafe(p: Program, env: Env, rec: Rec, seen: set<Id>, m: Mapping, node: Node, path: Path, faultless: bool)
    requires MappingSettled(p, seen, m) && PlainAt(m) && (faultless ==> ScalarAt(m))
    requires SafeBelow(rec, seen, Height(node), faultless) && SafeBeside(p, rec, seen, m, node, faultless)
    ensures Safe(ReadMapping(p, env, rec, m, node, path), faultless)
  {
    hide Get, SafeBelow, SafeBeside, Height, TypeSettled, ReferenceSettled, BranchesSettled, ReadByType;
    hide ReadReference, ExactlyOne, PlainReference, Exemplar, Constrained, Safe;
    match Get(m, RefKey)
    case Some(SStr(reference)) =>
      ReferenceSafe(p, rec, seen, m, reference, node, path, faultless);
    case _ =>
      match Get(m, OneOfKey)
      case Some(SList(branches)) =>
        BranchesSafe(p, rec, seen, m, branches, node, path, faultless);
      case _ =>
        ByTypeSafe(p, env, rec, seen, m, node, path, faultless);
        ConstrainedSafe(m, ReadByType(p, env, rec, m, node, path), path, faultless);
  }

  lemma ConstrainedSafe(m: Mapping, o: Outcome, path: Path, faultless: bool)
    requires Safe(o, faultless)
    ensures Safe(Constrained(m, o, path), faultless)
  {
    hide Get, Is;
  }

  // ---- every depth from some depth on ----

  ghost function Budget(height: nat, n: nat): nat {
    if height == 0 then 0 else n + Budget(height - 1, n)
  }

  lemma {:induction false} BudgetGrows(low: nat, high: nat, n: nat)
    requires low < high
    ensures Budget(low, n) + n <= Budget(high, n)
    decreases high
  {
    if low + 1 < high {
      BudgetGrows(low, high - 1, n);
    }
  }

  ghost predicate Ranked(p: Program, seen: set<Id>, rank: map<string, int>)
    requires seen <= p.store.Keys
  {
    && rank.Keys == seen && (forall a :: a in seen ==> 0 <= rank[a] < |seen|)
    && forall a, b :: a in seen && b in seen && SameNode(p, p.store[a], b) ==> rank[b] < rank[a]
  }

  lemma {:induction false} SafeFrom(p: Program, env: Env, seen: set<Id>, rank: map<string, int>, id: Id, node: Node,
        path: Path, depth: nat, faultless: bool)
    requires Closed(p, seen) && PlainReferences(p, seen) && Ranked(p, seen, rank)
    requires faultless ==> ScalarExemplars(p, seen)
    requires id in seen && depth > Budget(Height(node), |seen|) + rank[id]
    ensures Safe(Decoded(p, env, SObj(id), node, path, depth), faultless)
    decreases depth
  {
    hide MappingSettled, PlainAt, ScalarAt, SameNode, ReadMapping, Height, Budget;
    var rec := Down(p, env, depth - 1);
    var m := p.store[id];
    forall b, n, q | b in seen && Height(n) < Height(node) ensures Safe(rec(SObj(b), n, q), faultless) {
      BudgetGrows(Height(n), Height(node), |seen|);
      SafeFrom(p, env, seen, rank, b, n, q, depth - 1, faultless);
    }
    forall b, q | b in seen && SameNode(p, m, b) ensures Safe(rec(SObj(b), node, q), faultless) {
      SafeFrom(p, env, seen, rank, b, node, q, depth - 1, faultless);
    }
    assert Settled(p, seen, id);
    LevelSafe(p, env, rec, seen, m, node, path, faultless);
  }

  ghost predicate SafeAtDepths(p: Program, env: Env, id: Id, node: Node, bound: nat, faultless: bool) {
    forall path, depth: nat :: depth >= bound ==> Safe(Decoded(p, env, SObj(id), node, path, depth), faultless)
  }

  /** Decoding ends, with data or with a refusal; a faultless one is the node's fault. */
  ghost predicate Answers(p: Program, env: Env, id: Id, node: Node, faultless: bool) {
    exists bound: nat :: SafeAtDepths(p, env, id, node, bound, faultless)
  }

  lemma AcyclicAnswers(p: Program, env: Env, seen: set<Id>, faultless: bool)
    requires Closed(p, seen) && PlainReferences(p, seen) && (faultless ==> ScalarExemplars(p, seen))
    requires !Cyclic(SameNodeEdges(p, seen))
    ensures forall id, node :: id in seen ==> Answers(p, env, id, node, faultless)
  {
    hide Closed, PlainReferences, ScalarExemplars, Cyclic, SameNode, Decoded, Height, Budget;
    var rank := RanksOfSame(p, seen);
    forall id, node | id in seen ensures Answers(p, env, id, node, faultless) {
      var bound: nat := Budget(Height(node), |seen|) + rank[id] + 1;
      forall path, depth: nat | depth >= bound
        ensures Safe(Decoded(p, env, SObj(id), node, path, depth), faultless) {
        SafeFrom(p, env, seen, rank, id, node, path, depth, faultless);
      }
      assert SafeAtDepths(p, env, id, node, bound, faultless);
    }
  }

  lemma RanksOfSame(p: Program, seen: set<Id>) returns (rank: map<string, int>)
    requires Closed(p, seen) && !Cyclic(SameNodeEdges(p, seen))
    ensures Ranked(p, seen, rank)
  {
    hide Closed, Cyclic, SameNode;
    assert seen <= p.store.Keys by { ClosedWithin(p, seen); }
    rank := RanksOf(SameNodeEdges(p, seen), seen);
    forall a, b | a in seen && b in seen && SameNode(p, p.store[a], b) ensures rank[b] < rank[a] {
      assert (a, b) in SameNodeEdges(p, seen);
    }
  }

  lemma ClosedWithin(p: Program, seen: set<Id>)
    requires Closed(p, seen)
    ensures seen <= p.store.Keys
  {
  }

  // ---- and what goes wrong otherwise ----

  /** On a reference-and-branch cycle no depth is enough, whatever the node. */
  lemma {:induction false} CycleNeverEnds(p: Program, env: Env, seen: set<Id>, a: Id, c: Id, node: Node, path: Path,
        depth: nat)
    requires Closed(p, seen) && PlainReferences(p, seen)
    requires Reaches(SameNodeEdges(p, seen), c, c) && Reaches(SameNodeEdges(p, seen), a, c)
    ensures Decoded(p, env, SObj(a), node, path, depth) == Unfinished
    decreases depth
  {
    hide Reaches, MappingSettled, PlainAt, SameNode, ReadMapping;
    if depth > 0 {
      var e := SameNodeEdges(p, seen);
      var b := FirstStep(e, a, c);
      if b == c {
        CycleNeverEnds(p, env, seen, c, c, node, path, depth - 1);
      } else {
        CycleNeverEnds(p, env, seen, b, c, node, path, depth - 1);
      }
      assert (a, b) in e;
      StepUnfinished(p, env, Down(p, env, depth - 1), p.store[a], b, node, path);
    }
  }

  lemma StepUnfinished(p: Program, env: Env, rec: Rec, m: Mapping, b: Id, node: Node, path: Path)
    requires PlainAt(m) && SameNode(p, m, b) && rec(SObj(b), node, path) == Unfinished
    ensures ReadMapping(p, env, rec, m, node, path) == Unfinished
  {
    hide Get, LastPart, PlainReference, ReadByType;
    match Get(m, RefKey)
    case Some(SStr(reference)) =>
      ReferenceNames(reference);
      PlainHasPrefix(reference);
    case _ =>
      match Get(m, OneOfKey)
      case Some(SList(branches)) =>
        var i :| 0 <= i < |branches| && branches[i] == SObj(b);
        var os := BranchOutcomes(rec, branches, node, path);
        assert os[i] == Unfinished;
      case _ =>
  }

  lemma NoScalarIsAFault(p: Program, env: Env, id: Id, node: Node, path: Path, depth: nat)
    requires id in p.store && !ScalarAt(p.store[id]) && depth > 0
    ensures Decoded(p, env, SObj(id), node, path, depth) == Refused(path, NoScalarType)
  {
    hide Get;
  }

  /** A cycle leaves some node without an end. */
  lemma CyclicNeverAnswers(p: Program, env: Env, seen: set<Id>, faultless: bool)
    requires Closed(p, seen) && PlainReferences(p, seen) && Cyclic(SameNodeEdges(p, seen))
    ensures exists id :: id in seen && !Answers(p, env, id, Null, faultless)
  {
    hide MappingSettled, PlainAt, SameNode, Decoded, Reaches;
    var c :| Reaches(SameNodeEdges(p, seen), c, c);
    var b := FirstStep(SameNodeEdges(p, seen), c, c);
    forall bound: nat ensures !SafeAtDepths(p, env, c, Null, bound, faultless) {
      CycleNeverEnds(p, env, seen, c, c, Null, [], bound);
    }
    assert c in seen && !Answers(p, env, c, Null, faultless);
  }

  /** Given plain references, decoding every node at every schema of a closed set ends exactly when no
      cycle is made of references and branches alone. */
  lemma ClosedEndsExactly(p: Program, env: Env, seen: set<Id>)
    requires Closed(p, seen) && PlainReferences(p, seen)
    ensures (forall id, node :: id in seen ==> Answers(p, env, id, node, false)) <==> !Cyclic(SameNodeEdges(p, seen))
  {
    hide Closed, PlainReferences, Cyclic, SameNode, Answers;
    assert seen <= p.store.Keys by { ClosedWithin(p, seen); }
    if Cyclic(SameNodeEdges(p, seen)) {
      CyclicNeverAnswers(p, env, seen, false);
    } else {
      AcyclicAnswers(p, env, seen, false);
    }
  }

  /** The condition is exact: given plain references, a closed set of schemas answers every node
      exactly when exemplars are scalars and no cycle is made of references and branches alone. */
  lemma ClosedAnswersExactly(p: Program, env: Env, seen: set<Id>)
    requires Closed(p, seen) && PlainReferences(p, seen)
    ensures (forall id, node :: id in seen ==> Answers(p, env, id, node, true))
      <==> ScalarExemplars(p, seen) && !Cyclic(SameNodeEdges(p, seen))
  {
    hide MappingSettled, PlainAt, ScalarAt, SameNode, Decoded, Reaches;
    if Cyclic(SameNodeEdges(p, seen)) {
      CyclicNeverAnswers(p, env, seen, true);
    } else if ScalarExemplars(p, seen) {
      AcyclicAnswers(p, env, seen, true);
    } else {
      var id :| id in seen && !ScalarAt(p.store[id]);
      forall bound: nat ensures !SafeAtDepths(p, env, id, Null, bound, true) {
        NoScalarIsAFault(p, env, id, Null, [], bound + 1);
      }
      assert !Answers(p, env, id, Null, true);
    }
  }

  /** What acceptance promises the response models: every node is answered. */
  lemma AcceptedModelsAnswer(p: Program, env: Env, models: set<Text>, seen: set<Id>)
    requires Closed(p, seen) && Covers(p, models, seen)
    requires PlainReferences(p, seen) && ScalarExemplars(p, seen) && !Cyclic(SameNodeEdges(p, seen))
    ensures forall name :: name in models ==> Mapped(p, p.schemas[name])
    ensures forall name, node :: name in models ==> Answers(p, env, p.schemas[name].id, node, true)
  {
    hide MappingSettled, PlainAt, ScalarAt, SameNode, Cyclic, Answers;
    ClosedAnswersExactly(p, env, seen);
    forall name, node | name in models ensures Answers(p, env, p.schemas[name].id, node, true) {
      assert p.schemas[name].id in seen;
    }
  }
}
