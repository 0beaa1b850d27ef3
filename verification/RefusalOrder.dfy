/** Dropping duplicated members can change which refusal comes first.  It never does on a node whose kept
    objects have their last members in the order of first appearance.  For the names of one object that
    order is needed too: without it some values and some schema tell the two apart. */
module RefusalOrder {
  import opened JsonGrammar
  import opened Schemas
  import opened SchemaWords
  import opened Decoder
  import opened DecoderLoops
  import opened Duplicates
  import opened LastMemberWins
  import opened KeepLastWins
  import opened Wrappers

  /** In every object that is kept, the last members stand in the order in which their names first appear. */
  ghost predicate InOrder(node: Node)
    decreases node
  {
    match node
    case Arr(items) => forall i :: 0 <= i < |items| ==> InOrder(items[i])
    case Obj(ms) =>
      var k := Kept(ms);
      k == Survivors(ms) && forall i :: 0 <= i < |k| ==> InOrder(ms[k[i]].1)
    case _ => true
  }

  /** Dropping the earlier duplicates and merging them in place give the same node exactly when it is in order. */
  lemma {:induction false} InOrderMerges(node: Node)
    ensures InOrder(node) <==> KeepLast(node) == Merged(node)
    decreases node
  {
    hide Kept, Survivors;
    match node
    case Arr(items) =>
      forall i | 0 <= i < |items| ensures InOrder(items[i]) <==> KeepLast(items[i]) == Merged(items[i]) {
        InOrderMerges(items[i]);
      }
      assert forall i :: 0 <= i < |items| ==>
        KeepLast(node).items[i] == KeepLast(items[i]) && Merged(node).items[i] == Merged(items[i]);
    case Obj(ms) =>
      var k := Kept(ms);
      forall i | 0 <= i < |k| ensures InOrder(ms[k[i]].1) <==> KeepLast(ms[k[i]].1) == Merged(ms[k[i]].1) {
        InOrderMerges(ms[k[i]].1);
      }
      if KeepLast(node) == Merged(node) {
        SameNamesSameChoice(ms, LastMembersOf(ms), MergedMembers(ms));
        assert forall i :: 0 <= i < |k| ==>
          LastMembersOf(ms)[i].1 == KeepLast(ms[k[i]].1) && MergedMembers(ms)[i].1 == Merged(ms[k[i]].1);
      }
    case _ =>
  }

  /** Two selections of the same names in the same order are one. */
  lemma SameNamesSameChoice(ms: Members, last: Members, merged: Members)
    requires last == LastMembersOf(ms) && merged == MergedMembers(ms) && last == merged
    ensures Kept(ms) == Survivors(ms)
  {
    hide Kept, Survivors;
    KeptSelects(ms);
    SurvivorsSelect(ms);
    var k, s := Kept(ms), Survivors(ms);
    forall i | 0 <= i < |k| ensures k[i] == s[i] {
      assert last[i].0 == ms[s[i]].0 && merged[i].0 == ms[k[i]].0;
      assert Survives(ms, k[i]) && Survives(ms, s[i]);
    }
  }

  ghost predicate SameNames(a: Members, b: Members) {
    |a| == |b| && forall i :: 0 <= i < |a| ==> a[i].0 == b[i].0
  }

  lemma {:induction false} PositionByNames(a: Members, b: Members, k: seq<nat>, name: Text)
    requires |a| <= |b| && (forall i :: 0 <= i < |a| ==> a[i].0 == b[i].0) && forall i :: 0 <= i < |k| ==> k[i] < |a|
    ensures Position(a, k, name) == Position(b, k, name)
    decreases |k|
  {
    if k != [] {
      PositionByNames(a, b, k[1..], name);
    }
  }

  lemma {:induction false} KeptByNames(a: Members, b: Members)
    requires SameNames(a, b)
    ensures Kept(a) == Kept(b)
    decreases |a|
  {
    if a != [] {
      var n := |a| - 1;
      KeptByNames(a[..n], b[..n]);
      PositionByNames(a, b, Kept(a[..n]), a[n].0);
    }
  }

  lemma {:induction false} SurvivorsByNames(a: Members, b: Members, i: nat)
    requires SameNames(a, b) && i <= |a|
    ensures SurvivorsFrom(a, i) == SurvivorsFrom(b, i)
    decreases |a| - i
  {
    if i < |a| {
      assert Survives(a, i) <==> Survives(b, i);
      SurvivorsByNames(a, b, i + 1);
    }
  }

  lemma NotInPrefix(ms: Members, k: seq<nat>, n: nat)
    requires Selects(ms, k) && n < |k|
    ensures k[n] !in k[..n]
  {
    forall j | 0 <= j < n ensures k[..n][j] != k[n] {
      assert ms[k[j]].0 != ms[k[n]].0;
    }
  }

  /** A selection is no proper prefix of another. */
  lemma PrefixIsWhole(ms: Members, k: seq<nat>, s: seq<nat>)
    requires Selects(ms, k) && Selects(ms, s) && |s| <= |k| && s == k[..|s|]
    ensures |s| == |k|
  {
    hide Selects;
    if |s| < |k| {
      NotInPrefix(ms, k, |s|);
      var j := Counterpart(ms, k, s, |s|);
    }
  }

  /** The first place where two selections differ. */
  lemma {:induction false} FirstDifference(ms: Members, k: seq<nat>, s: seq<nat>, from: nat) returns (at: nat)
    requires Selects(ms, k) && Selects(ms, s) && k != s
    requires from <= |k| && from <= |s| && k[..from] == s[..from]
    ensures at < |k| && at < |s| && k[at] != s[at] && k[..at] == s[..at]
    decreases |k| - from
  {
    hide Selects;
    if from < |k| && from < |s| && k[from] == s[from] {
      assert k[..from + 1] == k[..from] + [k[from]] && s[..from + 1] == s[..from] + [s[from]];
      at := FirstDifference(ms, k, s, from + 1);
    } else {
      at := from;
      assert |s| == from ==> s == k[..|s|];
      assert |k| == from ==> k == s[..|k|];
      if |s| == from {
        PrefixIsWhole(ms, k, s);
      } else if |k| == from {
        PrefixIsWhole(ms, s, k);
      }
    }
  }

  // ---- a schema that shows the order ----

  ghost function NullsOnly(): Mapping { map[Spelled(TypeKey) := SStr(Ascii(Named(NullKind)))] }

  ghost function FieldsOfNulls(): Mapping {
    map[Spelled(TypeKey) := SStr(Ascii(Named(ObjectKind))), Spelled(AdditionalKey) := SObj("nulls")]
  }

  ghost function NullFields(): Program { Program(map["fields" := FieldsOfNulls(), "nulls" := NullsOnly()], map[]) }

  ghost predicate OnlyType(m: Mapping, kind: Kind) {
    && Get(m, RefKey) == None && Get(m, OneOfKey) == None && Get(m, ConstKey) == None && Get(m, EnumKey) == None
    && Get(m, PropertiesKey) == None && Get(m, RequiredKey) == None
    && Get(m, TypeKey).Some? && Get(m, TypeKey).value.SStr? && KindOf(Get(m, TypeKey).value.s) == Some(kind)
  }

  lemma KeysOfNulls()
    ensures Get(NullsOnly(), TypeKey) == Some(SStr(Ascii(Named(NullKind))))
    ensures forall k :: k != TypeKey ==> Get(NullsOnly(), k) == None
    ensures Get(FieldsOfNulls(), TypeKey) == Some(SStr(Ascii(Named(ObjectKind))))
    ensures forall k :: k !in {TypeKey, AdditionalKey} ==> Get(FieldsOfNulls(), k) == None
  {
    hide Spelled, Ascii, Named;
    SpelledOnce();
  }

  lemma NullFieldsKeys()
    ensures OnlyType(NullsOnly(), NullKind) && OnlyType(FieldsOfNulls(), ObjectKind)
    ensures Get(FieldsOfNulls(), AdditionalKey) == Some(SObj("nulls"))
    ensures NullsOnly() != map[]
  {
    hide Spelled, KindOf, Ascii, Named;
    SpelledOnce();
    NamedOnce(NullKind);
    NamedOnce(ObjectKind);
    KeysOfNulls();
    assert Spelled(TypeKey) in NullsOnly();
  }

  ghost function NullOrRefused(node: Node, path: Path): Outcome {
    if node == Null then Ok(DNull) else Refused(path, NotNull)
  }

  lemma NullsDecode(env: Env, node: Node, path: Path)
    ensures Decoded(NullFields(), env, SObj("nulls"), node, path, 1) == NullOrRefused(node, path)
  {
    hide Get, Spelled, KindOf, NullsOnly, FieldsOfNulls;
    NullFieldsKeys();
  }

  ghost function Fields(env: Env, ms: Members): (os: seq<Outcome>)
    ensures |os| == |Kept(ms)|
  {
    FieldOutcomes(NullFields(), env, Down(NullFields(), env, 1), FieldsOfNulls(), map[], ms, Kept(ms), [])
  }

  lemma FieldsDecode(env: Env, ms: Members)
    requires Gather(Fields(env, ms)).Stop?
    ensures Decoded(NullFields(), env, SObj("fields"), Obj(ms), [], 2) == Gather(Fields(env, ms)).outcome
  {
    hide Get, Spelled, KindOf, NullsOnly, FieldsOfNulls, Kept, Gather, Record, ReadField, Down;
    NullFieldsKeys();
  }

  lemma FieldIs(env: Env, ms: Members, i: nat)
    requires i < |Kept(ms)|
    ensures Fields(env, ms)[i] == NullOrRefused(ms[Kept(ms)[i]].1, [Member(ms[Kept(ms)[i]].0)])
  {
    hide Get, Spelled, KindOf, NullsOnly, FieldsOfNulls, Kept, Untyped, Decoded;
    NullFieldsKeys();
    var (name, node) := ms[Kept(ms)[i]];
    NullsDecode(env, node, [Member(name)]);
    assert [] + [Member(name)] == [Member(name)];
  }

  /** An object whose fields are null but for two names. */
  ghost function TwoTrue(ms: Members, a: Text, b: Text): (others: Members)
    ensures SameNames(ms, others)
    ensures forall i :: 0 <= i < |others| ==>
      others[i].1 == if others[i].0 == a || others[i].0 == b then Bool(true) else Null
  {
    seq(|ms|, i requires 0 <= i < |ms| => (ms[i].0, if ms[i].0 == a || ms[i].0 == b then Bool(true) else Null))
  }

  /** The first refusal names the first kept member that is not null. */
  lemma FirstRefusal(env: Env, ms: Members, at: nat)
    requires at < |Kept(ms)| && ms[Kept(ms)[at]].1 != Null
    requires forall i :: 0 <= i < at ==> ms[Kept(ms)[i]].1 == Null
    ensures Decoded(NullFields(), env, SObj("fields"), Obj(ms), [], 2) == Refused([Member(ms[Kept(ms)[at]].0)], NotNull)
  {
    hide Kept, Gather, Fields, Decoded;
    forall i | 0 <= i <= at
      ensures Fields(env, ms)[i] == NullOrRefused(ms[Kept(ms)[i]].1, [Member(ms[Kept(ms)[i]].0)]) {
      FieldIs(env, ms, i);
    }
    GatherStops(Fields(env, ms), at);
    FieldsDecode(env, ms);
  }

  /** The schema and the object that tell two orders apart. */
  lemma OrderShows(env: Env, ms: Members) returns (others: Members)
    requires Kept(ms) != Survivors(ms)
    ensures SameNames(ms, others) && forall i :: 0 <= i < |others| ==> InOrder(others[i].1)
    ensures Decoded(NullFields(), env, SObj("fields"), Obj(others), [], 2)
      != Decoded(NullFields(), env, SObj("fields"), KeepLast(Obj(others)), [], 2)
  {
    hide Kept, Survivors, Selects, Decoded, KeepLast;
    KeptSelects(ms);
    SurvivorsSelect(ms);
    var k, s := Kept(ms), Survivors(ms);
    assert k[..0] == s[..0];
    var at := FirstDifference(ms, k, s, 0);
    var a, b := ms[k[at]].0, ms[s[at]].0;
    others := TwoTrue(ms, a, b);
    KeptByNames(ms, others);
    SurvivorsSame(ms, others);
    NamesBefore(ms, k, s, at);
    FirstRefusal(env, others, at);
    LastChosen(others);
    var after := LastMembersOf(others);
    forall i | 0 <= i <= at ensures after[i] == others[s[i]] {
      assert KeepLast(others[s[i]].1) == others[s[i]].1 by { LeavesStay(others[s[i]].1); }
    }
    FirstRefusal(env, after, at);
  }

  lemma SurvivorsSame(a: Members, b: Members)
    requires SameNames(a, b)
    ensures Survivors(a) == Survivors(b)
  {
    SurvivorsByNames(a, b, 0);
  }

  lemma LeavesStay(node: Node)
    requires node.Null? || node.Bool?
    ensures KeepLast(node) == node
  {
  }

  /** Where the orders first differ the names differ, and neither stands earlier. */
  lemma NamesBefore(ms: Members, k: seq<nat>, s: seq<nat>, at: nat)
    requires Selects(ms, k) && Selects(ms, s) && at < |k| && at < |s| && k[at] != s[at] && k[..at] == s[..at]
    ensures ms[k[at]].0 != ms[s[at]].0
    ensures forall i :: 0 <= i < at ==> k[i] == s[i] && ms[k[i]].0 != ms[k[at]].0 && ms[k[i]].0 != ms[s[at]].0
  {
    assert Survives(ms, k[at]) && Survives(ms, s[at]);
    forall i | 0 <= i < at ensures k[i] == s[i] {
      assert k[..at][i] == s[..at][i];
    }
  }

  /** Objects with these names, in order within. */
  ghost predicate OnlyTopDuplicates(ms: Members, others: Members) {
    SameNames(ms, others) && forall i :: 0 <= i < |others| ==> InOrder(others[i].1)
  }

  ghost predicate SameRefusals(env: Env, others: Members) {
    forall p, v, path, depth: nat ::
      Decoded(p, env, v, KeepLast(Obj(others)), path, depth) == Decoded(p, env, v, Obj(others), path, depth)
  }

  /** Dropping the earlier duplicates keeps every outcome, refusals included, for all objects with
      these names exactly when the last members stand in the order of first appearance. */
  lemma SameRefusalsExactly(env: Env, ms: Members)
    ensures (forall others :: OnlyTopDuplicates(ms, others) ==> SameRefusals(env, others)) <==>
      Kept(ms) == Survivors(ms)
  {
    hide Kept, Survivors, Decoded, KeepLast, SameNames;
    if Kept(ms) == Survivors(ms) {
      forall others | OnlyTopDuplicates(ms, others) ensures SameRefusals(env, others) {
        KeptByNames(ms, others);
        SurvivorsSame(ms, others);
        InOrderSame(env, Obj(others));
      }
    } else {
      var others := OrderShows(env, ms);
      assert OnlyTopDuplicates(ms, others) && !SameRefusals(env, others);
    }
  }

  /** On any node whose objects are in order, the removal changes nothing at all. */
  lemma InOrderSame(env: Env, node: Node)
    requires InOrder(node)
    ensures forall p, v, path, depth: nat ::
      Decoded(p, env, v, KeepLast(node), path, depth) == Decoded(p, env, v, node, path, depth)
  {
    hide Decoded, KeepLast, Merged, InOrder;
    InOrderMerges(node);
    forall p, v, path, depth: nat
      ensures Decoded(p, env, v, KeepLast(node), path, depth) == Decoded(p, env, v, node, path, depth) {
      MergedSame(p, env, v, node, path, depth);
    }
  }

  ghost function Thrice(a: Text, b: Text): Members { [(a, Bool(true)), (b, Bool(true)), (a, Bool(true))] }

  lemma KeptSnoc(ms: Members, member: (Text, Node), k: seq<nat>)
    requires Kept(ms) == k
    ensures var all := ms + [member]; var q := Position(all, k, member.0);
      Kept(all) == if q < |k| then k[q := |ms|] else k + [|ms|]
  {
    assert (ms + [member])[..|ms|] == ms;
  }

  lemma KeptThrice(a: Text, b: Text)
    requires a != b
    ensures Kept(Thrice(a, b)) == [2, 1]
  {
    hide Kept;
    var one, two := (a, Bool(true)), (b, Bool(true));
    assert Kept([]) == [] by { NothingKept(); }
    KeptSnoc([], one, []);
    assert [] + [one] == [one];
    KeptSnoc([one], two, [0]);
    assert [one] + [two] == [one, two];
    KeptSnoc([one, two], one, [0, 1]);
    assert [one, two] + [one] == Thrice(a, b);
  }

  lemma NothingKept()
    ensures Kept([]) == []
  {
  }

  lemma SurvivorsThrice(a: Text, b: Text)
    requires a != b
    ensures Survivors(Thrice(a, b)) == [1, 2]
  {
    var ms := Thrice(a, b);
    assert Survives(ms, 1) && Survives(ms, 2) && !Survives(ms, 0) by {
      assert ms[2].0 == ms[0].0;
    }
    assert SurvivorsFrom(ms, 3) == [];
    assert SurvivorsFrom(ms, 2) == [2] && SurvivorsFrom(ms, 1) == [1, 2];
  }

  /** The smallest case: a, b, a again. */
  lemma RefusalsCanDiffer(env: Env, a: Text, b: Text)
    requires a != b
    ensures !SameRefusals(env, Thrice(a, b))
  {
    hide Decoded, KeepLast, Kept, Survivors;
    var ms := Thrice(a, b);
    KeptThrice(a, b);
    SurvivorsThrice(a, b);
    FirstRefusal(env, ms, 0);
    LastChosen(ms);
    LeavesStay(Bool(true));
    FirstRefusal(env, LastMembersOf(ms), 0);
  }
}
