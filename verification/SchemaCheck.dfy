/** The generation-time walk over response schemas.  It marks mappings by identity, so it
    terminates on every heap, and accepts exactly when the models lie in a closed set of
    schemas that are each locally materializable. */
module SchemaCheck {
  import opened JsonGrammar
  import opened Schemas
  import opened Wrappers

  predicate In(v: SVal, seen: set<Id>) { v.SObj? && v.id in seen }

  /** `id` is materializable and everything its decoding may visit is in `seen`. */
  ghost predicate Settled(p: Program, seen: set<Id>, id: Id)
    requires id in p.store
  {
    MappingSettled(p, seen, p.store[id])
  }

  ghost predicate MappingSettled(p: Program, seen: set<Id>, m: Mapping) {
    match Get(m, RefKey)
    case Some(SStr(reference)) => ReferenceSettled(p, seen, reference)
    case _ =>
      match Get(m, OneOfKey)
      case Some(SList(branches)) => BranchesSettled(seen, branches)
      case _ => TypeSettled(p, seen, m)
  }

  ghost predicate ReferenceSettled(p: Program, seen: set<Id>, reference: Text) {
    LastPart(reference) in p.schemas && In(p.schemas[LastPart(reference)], seen)
  }

  ghost predicate BranchesSettled(seen: set<Id>, branches: seq<SVal>) {
    forall i :: 0 <= i < |branches| ==> In(branches[i], seen)
  }

  ghost predicate TypeSettled(p: Program, seen: set<Id>, m: Mapping) {
    match Get(m, TypeKey)
    case None => Exemplary(p, m)
    case Some(SNull) => Exemplary(p, m)
    case Some(SList(kinds)) => forall i :: 0 <= i < |kinds| ==> KindSettled(p, seen, m, kinds[i])
    case Some(kind) => KindSettled(p, seen, m, kind)
  }

  /** A constant, or choices that are neither null nor false, zero, empty text, an empty list or mapping. */
  ghost predicate Exemplary(p: Program, m: Mapping) {
    || Get(m, ConstKey).Some?
    || match Get(m, EnumKey)
      case None => false
      case Some(SNull) => false
      case Some(SBool(b)) => b
      case Some(SNum(n)) => n.value != 0.0
      case Some(SStr(s)) => |s| > 0
      case Some(SList(items)) => |items| > 0
      case Some(SObj(id)) => id in p.store && |p.store[id]| > 0
  }

  /** The test of the walk. */
  predicate HasExemplar(p: Program, m: Mapping) {
    Get(m, ConstKey).Some? || (Get(m, EnumKey).Some? && Truthy(p, Get(m, EnumKey).value))
  }

  ghost predicate KindSettled(p: Program, seen: set<Id>, m: Mapping, kind: SVal) {
    && kind.SStr? && KindOf(kind.s).Some?
    && (KindOf(kind.s) == Some(ArrayKind) ==> Get(m, ItemsKey).Some? && In(Get(m, ItemsKey).value, seen))
    && (KindOf(kind.s) == Some(ObjectKind) ==> ObjectSettled(p, seen, m))
  }

  ghost predicate ObjectSettled(p: Program, seen: set<Id>, m: Mapping) {
    PropertiesSettled(p, seen, m) && AdditionalSettled(p, seen, m)
  }

  ghost predicate PropertiesSettled(p: Program, seen: set<Id>, m: Mapping) {
    match Get(m, PropertiesKey)
    case None => true
    case Some(SObj(id)) => id in p.store && forall name :: name in p.store[id] ==> In(p.store[id][name], seen)
    case Some(_) => false
  }

  ghost predicate AdditionalSettled(p: Program, seen: set<Id>, m: Mapping) {
    match Get(m, AdditionalKey)
    case None => true
    case Some(SBool(_)) => true
    case Some(SObj(id)) => (id in p.store && p.store[id] == map[]) || id in seen
    case Some(_) => false
  }

  /** Closed under reachability: every member is settled within the set. */
  ghost predicate Closed(p: Program, seen: set<Id>) {
    seen <= p.store.Keys && forall id :: id in seen ==> Settled(p, seen, id)
  }

  lemma SameExemplary(p: Program, m: Mapping)
    ensures HasExemplar(p, m) <==> Exemplary(p, m)
  {
    hide Get;
    if Get(m, EnumKey).Some? && Get(m, EnumKey).value.SObj? {
      var id := Get(m, EnumKey).value.id;
      assert id in p.store ==> (|p.store[id]| > 0 <==> p.store[id] != map[]);
    }
  }

  lemma KindGrows(p: Program, seen: set<Id>, more: set<Id>, m: Mapping, kind: SVal)
    requires KindSettled(p, seen, m, kind) && seen <= more
    ensures KindSettled(p, more, m, kind)
  {
    hide Get, KindOf, Exemplary;
  }

  class MaterializableWalk {
    const p: Program
    var seen: set<Id>

    constructor (p: Program)
      ensures this.p == p && seen == {}
    {
      this.p := p;
      seen := {};
    }

    ghost predicate Valid()
      reads this
    {
      WellFormed(p) && seen <= p.store.Keys
    }

    /** What was marked since is settled. */
    ghost predicate SettledSince(before: set<Id>)
      requires Valid()
      reads this
    {
      before <= seen && forall id :: id in seen && id !in before ==> Settled(p, seen, id)
    }

    lemma SettledOn(start: set<Id>, middle: set<Id>)
      requires Valid() && SettledSince(middle) && start <= middle
      requires forall id :: id in middle && id !in start ==> id in p.store && Settled(p, middle, id)
      ensures SettledSince(start)
    {
    }

    method VisitSchema(v: SVal) returns (ok: bool)
      requires Valid() && Held(p, v)
      modifies this`seen
      ensures Valid() && old(seen) <= seen
      ensures ok ==> In(v, seen) && SettledSince(old(seen))
      ensures !ok ==> forall s :: Closed(p, s) ==> !In(v, s)
      decreases p.store.Keys - seen, 0
    {
      hide MappingSettled;
      if !v.SObj? {
        return false;
      }
      if v.id in seen {
        return true;
      }
      seen := seen + {v.id};
      assert AllHeld(p, p.store[v.id]);
      ok := VisitMapping(p.store[v.id]);
      if ok {
        assert Settled(p, seen, v.id);
      }
    }

    method VisitMapping(m: Mapping) returns (ok: bool)
      requires Valid() && AllHeld(p, m)
      modifies this`seen
      ensures Valid() && old(seen) <= seen
      ensures ok ==> SettledSince(old(seen)) && MappingSettled(p, seen, m)
      ensures !ok ==> forall s :: Closed(p, s) ==> !MappingSettled(p, s, m)
      decreases p.store.Keys - seen, 5
    {
      hide Get, TypeSettled, ReferenceSettled, BranchesSettled, Closed, Settled, Held;
      match Get(m, RefKey) {
        case Some(SStr(reference)) =>
          ok := VisitReference(reference);
        case _ =>
          match Get(m, OneOfKey) {
            case Some(SList(branches)) =>
              GetHeld(p, m, OneOfKey);
              ok := VisitBranches(branches);
            case _ =>
              ok := VisitTypes(m);
          }
      }
    }

    method VisitReference(reference: Text) returns (ok: bool)
      requires Valid()
      modifies this`seen
      ensures Valid() && old(seen) <= seen
      ensures ok ==> SettledSince(old(seen)) && ReferenceSettled(p, seen, reference)
      ensures !ok ==> forall s :: Closed(p, s) ==> !ReferenceSettled(p, s, reference)
      decreases p.store.Keys - seen, 1
    {
      hide LastPart, Settled;
      if LastPart(reference) !in p.schemas {
        return false;
      }
      ok := VisitSchema(p.schemas[LastPart(reference)]);
    }

    method VisitBranches(branches: seq<SVal>) returns (ok: bool)
      requires Valid() && forall i :: 0 <= i < |branches| ==> Held(p, branches[i])
      modifies this`seen
      ensures Valid() && old(seen) <= seen
      ensures ok ==> SettledSince(old(seen)) && BranchesSettled(seen, branches)
      ensures !ok ==> forall s :: Closed(p, s) ==> !BranchesSettled(s, branches)
      decreases p.store.Keys - seen, 1
    {
      hide Settled, Held, Closed;
      for i := 0 to |branches|
        invariant Valid() && SettledSince(old(seen))
        invariant forall j :: 0 <= j < i ==> In(branches[j], seen)
      {
        ghost var before := seen;
        ok := VisitSchema(branches[i]);
        if !ok {
          return;
        }
        SettledOn(old(seen), before);
      }
      return true;
    }

    method VisitTypes(m: Mapping) returns (ok: bool)
      requires Valid() && AllHeld(p, m)
      modifies this`seen
      ensures Valid() && old(seen) <= seen
      ensures ok ==> SettledSince(old(seen)) && TypeSettled(p, seen, m)
      ensures !ok ==> forall s :: Closed(p, s) ==> !TypeSettled(p, s, m)
      decreases p.store.Keys - seen, 4
    {
      hide Get, Settled, KindSettled, HasExemplar, Exemplary, Closed;
      SameExemplary(p, m);
      match Get(m, TypeKey) {
        case None =>
          return HasExemplar(p, m);
        case Some(SNull) =>
          return HasExemplar(p, m);
        case Some(SList(kinds)) =>
          for i := 0 to |kinds|
            invariant Valid() && SettledSince(old(seen))
            invariant forall j :: 0 <= j < i ==> KindSettled(p, seen, m, kinds[j])
          {
            ghost var before := seen;
            ok := VisitKind(m, kinds[i]);
            if !ok {
              return;
            }
            SettledOn(old(seen), before);
            forall j | 0 <= j < i ensures KindSettled(p, seen, m, kinds[j]) {
              KindGrows(p, before, seen, m, kinds[j]);
            }
          }
          return true;
        case Some(kind) =>
          ok := VisitKind(m, kind);
      }
    }

    method VisitKind(m: Mapping, kind: SVal) returns (ok: bool)
      requires Valid() && AllHeld(p, m)
      modifies this`seen
      ensures Valid() && old(seen) <= seen
      ensures ok ==> SettledSince(old(seen)) && KindSettled(p, seen, m, kind)
      ensures !ok ==> forall s :: Closed(p, s) ==> !KindSettled(p, s, m, kind)
      decreases p.store.Keys - seen, 3
    {
      hide Get, KindOf, Settled, Held, Closed, PropertiesSettled, AdditionalSettled;
      if kind.SStr? && KindOf(kind.s) == Some(ArrayKind) {
        if Get(m, ItemsKey) == None {
          return false;
        }
        GetHeld(p, m, ItemsKey);
        ok := VisitSchema(Get(m, ItemsKey).value);
        return;
      }
      if kind.SStr? && KindOf(kind.s) == Some(ObjectKind) {
        ok := VisitObject(m);
        return;
      }
      return kind.SStr? && KindOf(kind.s).Some?;
    }

    method VisitObject(m: Mapping) returns (ok: bool)
      requires Valid() && AllHeld(p, m)
      modifies this`seen
      ensures Valid() && old(seen) <= seen
      ensures ok ==> SettledSince(old(seen)) && ObjectSettled(p, seen, m)
      ensures !ok ==> forall s :: Closed(p, s) ==> !ObjectSettled(p, s, m)
      decreases p.store.Keys - seen, 2
    {
      hide Get, Settled, Held, Closed;
      ok := VisitProperties(m);
      if !ok {
        return;
      }
      ghost var before := seen;
      var additional := Get(m, AdditionalKey);
      if FreeForm(p, additional) || additional == Some(SBool(false)) {
        return;
      }
      assert additional.Some? by { MissingIsFree(p); }
      GetHeld(p, m, AdditionalKey);
      ok := VisitSchema(additional.value);
      if ok {
        SettledOn(old(seen), before);
      }
    }

    method VisitProperties(m: Mapping) returns (ok: bool)
      requires Valid() && AllHeld(p, m)
      modifies this`seen
      ensures Valid() && old(seen) <= seen
      ensures ok ==> SettledSince(old(seen)) && PropertiesSettled(p, seen, m)
      ensures !ok ==> forall s :: Closed(p, s) ==> !PropertiesSettled(p, s, m)
      decreases p.store.Keys - seen, 1
    {
      hide Get, Settled;
      match Get(m, PropertiesKey) {
        case None =>
          return true;
        case Some(SObj(id)) =>
          GetHeld(p, m, PropertiesKey);
          var properties := p.store[id];
          assert AllHeld(p, properties);
          var rest := properties.Keys;
          while rest != {}
            invariant Valid() && SettledSince(old(seen)) && rest <= properties.Keys
            invariant forall name :: name in properties && name !in rest ==> In(properties[name], seen)
            decreases |rest|
          {
            ghost var before := seen;
            var name :| name in rest;
            ok := VisitSchema(properties[name]);
            if !ok {
              return;
            }
            SettledOn(old(seen), before);
            rest := rest - {name};
          }
          return true;
        case Some(_) =>
          return false;
      }
    }

    /** The whole check: it accepts exactly when the response models lie in some closed set, and
        what it has then marked is one. */
    method RequireMaterializable(models: set<Text>) returns (ok: bool)
      requires WellFormed(p) && seen == {}
      modifies this`seen
      ensures ok <==> exists s :: Closed(p, s) && Covers(p, models, s)
      ensures ok ==> Closed(p, seen) && Covers(p, models, seen)
    {
      hide Settled, Held;
      var rest := models;
      while rest != {}
        invariant Valid() && SettledSince({}) && rest <= models
        invariant forall name :: name in models && name !in rest ==> name in p.schemas && In(p.schemas[name], seen)
        decreases |rest|
      {
        ghost var before := seen;
        var name :| name in rest;
        if name !in p.schemas {
          return false;
        }
        ok := VisitSchema(p.schemas[name]);
        if !ok {
          return;
        }
        SettledOn({}, before);
        rest := rest - {name};
      }
      assert Closed(p, seen) && Covers(p, models, seen);
      return true;
    }
  }

  ghost predicate Covers(p: Program, models: set<Text>, s: set<Id>) {
    forall name :: name in models ==> name in p.schemas && In(p.schemas[name], s)
  }

}
