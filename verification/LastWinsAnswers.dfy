/** Keeping only the last of each duplicated member, where decoding ends: without cycles of references and
    branches both decodings end and give the same data or two refusals; on a cycle one may end alone. */
module LastWinsAnswers {
  import opened JsonGrammar
  import opened Schemas
  import opened SchemaWords
  import opened SchemaCheck
  import opened Graphs
  import opened Decoder
  import opened DecoderLoops
  import opened Duplicates
  import opened KeepLastWins
  import opened RefusalOrder
  import opened NeverStuck
  import opened Wrappers

  /** Both end, with the same data or with two refusals; `faultless` asks that neither be a fault of the schema. */
  ghost predicate SameAnswer(a: Outcome, b: Outcome, faultless: bool) {
    Safe(a, faultless) && Safe(b, faultless) && ((a.Ok? && a == b) || (a.Refused? && b.Refused?))
  }

  ghost predicate SameAnswersFrom(p: Program, env: Env, id: Id, node: Node, bound: nat, faultless: bool) {
    forall path, depth: nat :: depth >= bound ==>
      SameAnswer(
        Decoded(p, env, SObj(id), node, path, depth), Decoded(p, env, SObj(id), KeepLast(node), path, depth), faultless)
  }

  /** From some depth on, the node and what is left of it get the same answer. */
  ghost predicate SameAnswers(p: Program, env: Env, id: Id, node: Node, faultless: bool) {
    exists bound: nat :: SameAnswersFrom(p, env, id, node, bound, faultless)
  }

  lemma AnswersAgree(p: Program, env: Env, id: Id, node: Node, faultless: bool)
    requires Answers(p, env, id, node, faultless) && Answers(p, env, id, KeepLast(node), faultless)
    ensures SameAnswers(p, env, id, node, faultless)
  {
    hide Decoded, KeepLast, Safe;
    var one: nat :| SafeAtDepths(p, env, id, node, one, faultless);
    var two: nat :| SafeAtDepths(p, env, id, KeepLast(node), two, faultless);
    var bound := Max(one, two);
    forall path, depth: nat | depth >= bound
      ensures SameAnswer(
                Decoded(p, env, SObj(id), node, path, depth),
                Decoded(p, env, SObj(id), KeepLast(node), path, depth), faultless) {
      KeepLastAgrees(p, env, SObj(id), node, path, depth);
      BothEnd(
        Decoded(p, env, SObj(id), node, path, depth),
        Decoded(p, env, SObj(id), KeepLast(node), path, depth), faultless);
    }
    assert SameAnswersFrom(p, env, id, node, bound, faultless);
  }

  lemma BothEnd(a: Outcome, b: Outcome, faultless: bool)
    requires Agree(a, b) && Safe(a, faultless) && Safe(b, faultless)
    ensures SameAnswer(a, b, faultless)
  {
  }

  lemma SameIsAnswered(p: Program, env: Env, id: Id, node: Node, faultless: bool)
    requires SameAnswers(p, env, id, node, faultless)
    ensures Answers(p, env, id, node, faultless)
  {
    hide Decoded, KeepLast, Safe;
    var bound: nat :| SameAnswersFrom(p, env, id, node, bound, faultless);
    assert SafeAtDepths(p, env, id, node, bound, faultless);
  }

  /** All nodes get the same answers when all are answered. */
  lemma AllSameWhenAllAnswered(p: Program, env: Env, seen: set<Id>, faultless: bool)
    ensures (forall id, node :: id in seen ==> SameAnswers(p, env, id, node, faultless))
      <==> forall id, node :: id in seen ==> Answers(p, env, id, node, faultless)
  {
    hide Answers, SameAnswers, KeepLast;
    if forall id, node :: id in seen ==> Answers(p, env, id, node, faultless) {
      forall id, node | id in seen ensures SameAnswers(p, env, id, node, faultless) {
        AnswersAgree(p, env, id, node, faultless);
      }
    }
    if forall id, node :: id in seen ==> SameAnswers(p, env, id, node, faultless) {
      forall id, node | id in seen ensures Answers(p, env, id, node, faultless) {
        SameIsAnswered(p, env, id, node, faultless);
      }
    }
  }

  /** Given plain references, a closed set of schemas gives every node and what is left of it the same data
      or two refusals, exactly when no cycle is made of references and branches alone. */
  lemma SameEndsExactly(p: Program, env: Env, seen: set<Id>)
    requires Closed(p, seen) && PlainReferences(p, seen)
    ensures (forall id, node :: id in seen ==> SameAnswers(p, env, id, node, false)) <==>
      !Cyclic(SameNodeEdges(p, seen))
  {
    hide Closed, PlainReferences, SameNode, Cyclic, Answers, SameAnswers;
    assert seen <= p.store.Keys by { ClosedWithin(p, seen); }
    ClosedEndsExactly(p, env, seen);
    AllSameWhenAllAnswered(p, env, seen, false);
  }

  /** Neither is a fault of the schema exactly when exemplars are scalars too. */
  lemma SameAnswersExactly(p: Program, env: Env, seen: set<Id>)
    requires Closed(p, seen) && PlainReferences(p, seen)
    ensures (forall id, node :: id in seen ==> SameAnswers(p, env, id, node, true))
      <==> ScalarExemplars(p, seen) && !Cyclic(SameNodeEdges(p, seen))
  {
    hide Closed, PlainReferences, ScalarExemplars, SameNode, Cyclic, Answers, SameAnswers;
    assert seen <= p.store.Keys by { ClosedWithin(p, seen); }
    ClosedAnswersExactly(p, env, seen);
    AllSameWhenAllAnswered(p, env, seen, true);
  }

  // ---- one ends alone ----

  const LOOP: Text := [0x6C]

  ghost function ToLoop(): Text { REFERENCE_PREFIX + LOOP }

  ghost function Loop(): Mapping { map[Spelled(RefKey) := SStr(ToLoop())] }

  ghost function Typed(): Mapping {
    map[Spelled(TypeKey) := SStr(Ascii(Named(ObjectKind))), Spelled(PropertiesKey) := SObj("properties")]
  }

  /** Member `a` must be null; member `b` is on a reference that leads to itself. */
  ghost function LoopBeside(a: Text, b: Text): Program {
    Program(
      map["fields" := Typed(), "properties" := map[a := SObj("nulls"), b := SObj("loop")],
          "nulls" := NullsOnly(), "loop" := Loop()],
      map[LOOP := SObj("loop")])
  }

  ghost function Visited(): set<Id> { {"fields", "nulls", "loop"} }

  lemma LoopKeys()
    ensures Get(Loop(), RefKey) == Some(SStr(ToLoop()))
    ensures PlainReference(ToLoop()) && LastPart(ToLoop()) == LOOP
  {
    hide Ascii;
    assert (REFERENCE_PREFIX + LOOP)[|REFERENCE_PREFIX|..] == LOOP;
    ReferenceNames(REFERENCE_PREFIX + LOOP);
  }

  lemma TypedKeys()
    ensures forall k :: k !in {TypeKey, PropertiesKey} ==> Get(Typed(), k) == None
    ensures Get(Typed(), PropertiesKey) == Some(SObj("properties"))
    ensures Get(Typed(), TypeKey) == Some(SStr(Ascii(Named(ObjectKind))))
    ensures KindOf(Ascii(Named(ObjectKind))) == Some(ObjectKind)
  {
    hide Spelled, KindOf, Ascii, Named;
    SpelledOnce();
    NamedOnce(ObjectKind);
  }

  lemma LoopBesideClosed(a: Text, b: Text)
    ensures var p := LoopBeside(a, b); Closed(p, Visited()) && PlainReferences(p, Visited())
    ensures var p := LoopBeside(a, b);
      ScalarExemplars(p, Visited()) && Reaches(SameNodeEdges(p, Visited()), "loop", "loop")
  {
    LoopBesideSettled(a, b);
    LoopBesidePlain(a, b);
    hide MappingSettled, PlainAt, ScalarAt, SameNode, NullsOnly, Typed, Loop, Reaches;
    var p := LoopBeside(a, b);
    EdgeReaches(SameNodeEdges(p, Visited()), "loop", "loop");
    forall id | id in Visited() ensures Settled(p, Visited(), id) && PlainAt(p.store[id]) && ScalarAt(p.store[id]) {
      assert id == "fields" || id == "nulls" || id == "loop";
    }
  }

  lemma LoopBesideSettled(a: Text, b: Text)
    ensures var p := LoopBeside(a, b);
      && MappingSettled(p, Visited(), NullsOnly()) && MappingSettled(p, Visited(), Loop())
      && MappingSettled(p, Visited(), Typed())
  {
    NullsSettled(LoopBeside(a, b));
    LoopSettled(a, b);
    TypedSettled(a, b);
    hide MappingSettled, LoopBeside, NullsOnly, Typed, Loop;
  }

  lemma NullsSettled(p: Program)
    ensures MappingSettled(p, Visited(), NullsOnly())
  {
    hide Get, KindOf, NullsOnly, Exemplary, ReferenceSettled, ObjectSettled;
    NullsKeys();
  }

  lemma LoopSettled(a: Text, b: Text)
    ensures MappingSettled(LoopBeside(a, b), Visited(), Loop())
  {
    hide Get, LastPart, PlainReference, Loop, ToLoop, TypeSettled, LoopBeside;
    LoopKeys();
    LoopBesideKnows(a, b);
  }

  lemma TypedSettled(a: Text, b: Text)
    ensures MappingSettled(LoopBeside(a, b), Visited(), Typed())
  {
    hide Get, KindOf, Ascii, Typed, Loop, NullsOnly, Exemplary, ReferenceSettled, Named;
    TypedKeys();
    assert PropertiesSettled(LoopBeside(a, b), Visited(), Typed());
    hide LoopBeside;
  }

  lemma LoopBesidePlain(a: Text, b: Text)
    ensures PlainAt(NullsOnly()) && PlainAt(Loop()) && PlainAt(Typed())
    ensures ScalarAt(NullsOnly()) && ScalarAt(Loop()) && ScalarAt(Typed())
    ensures SameNode(LoopBeside(a, b), Loop(), "loop")
  {
    hide Get, KindOf, Ascii, LastPart, PlainReference, NullsOnly, Typed, Loop, ToLoop, Named, Exemplar, LoopBeside;
    LoopKeys();
    TypedKeys();
    NullsKeys();
    LoopBesideKnows(a, b);
  }

  lemma NullsKeys()
    ensures Get(NullsOnly(), RefKey) == None && Get(NullsOnly(), OneOfKey) == None
    ensures Get(NullsOnly(), TypeKey).Some? && Get(NullsOnly(), TypeKey).value.SStr?
    ensures KindOf(Get(NullsOnly(), TypeKey).value.s) == Some(NullKind)
  {
    hide Get, KindOf, NullsOnly, FieldsOfNulls;
    NullFieldsKeys();
  }

  lemma LoopBesideKnows(a: Text, b: Text)
    ensures LOOP in LoopBeside(a, b).schemas && LoopBeside(a, b).schemas[LOOP] == SObj("loop")
  {
    hide NullsOnly, Typed, Loop;
  }

  ghost function FieldsBeside(env: Env, a: Text, b: Text, ms: Members, path: Path, depth: nat): (os: seq<Outcome>)
    ensures |os| == |Kept(ms)|
  {
    var p := LoopBeside(a, b);
    FieldOutcomes(p, env, Down(p, env, depth), Typed(), p.store["properties"], ms, Kept(ms), path)
  }

  lemma TypedDecodes(env: Env, a: Text, b: Text, ms: Members, path: Path, depth: nat)
    requires Gather(FieldsBeside(env, a, b, ms, path, depth)).Stop?
    ensures Decoded(LoopBeside(a, b), env, SObj("fields"), Obj(ms), path, depth + 1)
      == Gather(FieldsBeside(env, a, b, ms, path, depth)).outcome
  {
    hide Get, KindOf, Ascii, Kept, Gather, Record, ReadField, Down, Typed;
    TypedKeys();
  }

  lemma FieldBeside(env: Env, a: Text, b: Text, ms: Members, i: nat, path: Path, depth: nat)
    requires a != b && i < |Kept(ms)| && ms[Kept(ms)[i]].0 in {a, b}
    ensures var (name, node) := ms[Kept(ms)[i]];
      FieldsBeside(env, a, b, ms, path, depth)[i]
        == Decoded(LoopBeside(a, b), env, SObj(if name == a then "nulls" else "loop"), node, path + [Member(name)],
             depth)
  {
    hide Get, Kept, Untyped, Decoded, Typed;
  }

  lemma NullsDecodeBeside(env: Env, a: Text, b: Text, node: Node, path: Path, depth: nat)
    requires depth > 0
    ensures Decoded(LoopBeside(a, b), env, SObj("nulls"), node, path, depth) == NullOrRefused(node, path)
  {
    hide Get, Spelled, KindOf, NullsOnly, Typed, Loop;
    NullFieldsKeys();
  }

  /** Members a, b, a again: with the wrong value first in the order of the map, the decoder refuses it; with
      the duplicate dropped it meets the loop first and never ends.  The schemas are a closed set. */
  lemma LoopTellsOrders(env: Env, a: Text, b: Text, path: Path, depth: nat)
    requires a != b
    ensures Closed(LoopBeside(a, b), Visited()) && PlainReferences(LoopBeside(a, b), Visited())
    ensures depth >= 2 ==>
      Decoded(LoopBeside(a, b), env, SObj("fields"), Obj(Thrice(a, b)), path, depth)
        == Refused(path + [Member(a)], NotNull)
    ensures Decoded(LoopBeside(a, b), env, SObj("fields"), KeepLast(Obj(Thrice(a, b))), path, depth) == Unfinished
  {
    hide Closed, PlainReferences, Decoded, KeepLast, Kept, Survivors, Gather, FieldsBeside, LoopBeside;
    LoopBesideClosed(a, b);
    if depth > 0 {
      var ms := Thrice(a, b);
      KeptThrice(a, b);
      SurvivorsThrice(a, b);
      LastChosen(ms);
      var after := LastMembersOf(ms);
      LeavesStay(Bool(true));
      FieldBeside(env, a, b, after, 0, path, depth - 1);
      CycleNeverEnds(LoopBeside(a, b), env, Visited(), "loop", "loop", Bool(true), path + [Member(b)], depth - 1);
      GatherStops(FieldsBeside(env, a, b, after, path, depth - 1), 0);
      TypedDecodes(env, a, b, after, path, depth - 1);
      FieldBeside(env, a, b, ms, 0, path, depth - 1);
      if depth >= 2 {
        NullsDecodeBeside(env, a, b, Bool(true), path + [Member(a)], depth - 1);
        GatherStops(FieldsBeside(env, a, b, ms, path, depth - 1), 0);
        TypedDecodes(env, a, b, ms, path, depth - 1);
      }
    } else {
      NoDepth(LoopBeside(a, b), env, SObj("fields"), KeepLast(Obj(Thrice(a, b))), path);
    }
  }

  lemma NoDepth(p: Program, env: Env, v: SVal, node: Node, path: Path)
    ensures Decoded(p, env, v, node, path, 0) == Unfinished
  {
  }
}
