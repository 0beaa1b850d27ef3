/** Duplicated members: the last one wins.  The members a map keeps, and nodes with the others removed. */
module Duplicates {
  import opened JsonGrammar
  import opened Schemas
  import opened Decoder

  // ---- choosing members ----

  /** No later member has the name. */
  ghost predicate Survives(ms: Members, i: nat)
    requires i < |ms|
  {
    forall j :: i < j < |ms| ==> ms[j].0 != ms[i].0
  }

  ghost predicate DistinctNames(ms: Members, chosen: seq<nat>) {
    && (forall i :: 0 <= i < |chosen| ==> chosen[i] < |ms|)
    && forall i, j :: 0 <= i < j < |chosen| ==> ms[chosen[i]].0 != ms[chosen[j]].0
  }

  /** One index for each name, and it is the last member of that name. */
  ghost predicate Selects(ms: Members, chosen: seq<nat>) {
    && DistinctNames(ms, chosen)
    && (forall i :: 0 <= i < |chosen| ==> Survives(ms, chosen[i]))
    && forall i :: 0 <= i < |ms| && Survives(ms, i) ==> i in chosen
  }

  lemma {:induction false} KeptSelects(ms: Members)
    ensures Selects(ms, Kept(ms))
    decreases |ms|
  {
    if ms != [] {
      var n := |ms| - 1;
      var init := ms[..n];
      KeptSelects(init);
      KeptStep(ms, init, Kept(init));
    }
  }

  /** What setting the last member does to the kept indices. */
  ghost function Put(ms: Members, k: seq<nat>): (kept: seq<nat>)
    requires ms != [] && forall i :: 0 <= i < |k| ==> k[i] < |ms| - 1
    ensures forall i :: 0 <= i < |kept| ==> kept[i] < |ms|
  {
    var n := |ms| - 1;
    var q := Position(ms, k, ms[n].0);
    if q < |k| then k[q := n] else k + [n]
  }

  lemma SurvivesSnoc(ms: Members, i: nat)
    requires i < |ms|
    ensures i == |ms| - 1 ==> Survives(ms, i)
    ensures i < |ms| - 1 ==> (Survives(ms, i) <==> Survives(ms[..|ms| - 1], i) && ms[|ms| - 1].0 != ms[i].0)
  {
    var init := ms[..|ms| - 1];
    if i < |ms| - 1 && Survives(init, i) && ms[|ms| - 1].0 != ms[i].0 {
      forall j | i < j < |ms| ensures ms[j].0 != ms[i].0 {
        if j < |ms| - 1 {
          assert init[j] == ms[j];
        }
      }
    }
  }

  /** The place that takes the last member is the only one with its name. */
  lemma PutPlaces(ms: Members, k: seq<nat>)
    requires ms != [] && DistinctNames(ms[..|ms| - 1], k)
    ensures var n := |ms| - 1; var q := Position(ms, k, ms[n].0); var kept := Put(ms, k);
      && q < |kept| && kept[q] == n && |k| <= |kept| <= |k| + 1 && (|kept| == |k| + 1 ==> q == |k|)
      && forall i :: 0 <= i < |kept| && i != q ==>
        i < |k| && kept[i] == k[i] && ms[k[i]] == ms[..n][k[i]] && ms[k[i]].0 != ms[n].0
  {
    var n := |ms| - 1;
    var init := ms[..n];
    var q := Position(ms, k, ms[n].0);
    forall i | 0 <= i < |k| && i != q ensures ms[k[i]] == init[k[i]] && ms[k[i]].0 != ms[n].0 {
      assert ms[k[i]] == init[k[i]];
      if i > q {
        assert init[k[q]].0 != init[k[i]].0 && init[k[q]] == ms[k[q]];
      }
    }
  }

  lemma KeptStep(ms: Members, init: Members, k: seq<nat>)
    requires ms != [] && init == ms[..|ms| - 1] && Selects(init, k)
    ensures Selects(ms, Put(ms, k))
  {
    hide Position, Put, Survives;
    PutPlaces(ms, k);
    var n := |ms| - 1;
    var q := Position(ms, k, ms[n].0);
    var kept := Put(ms, k);
    forall i, j | 0 <= i < j < |kept| ensures ms[kept[i]].0 != ms[kept[j]].0 {
      if i != q && j != q {
        assert init[k[i]].0 != init[k[j]].0;
      }
    }
    forall i | 0 <= i < |kept| ensures Survives(ms, kept[i]) {
      SurvivesSnoc(ms, kept[i]);
    }
    forall i | 0 <= i < |ms| && Survives(ms, i) ensures i in kept {
      SurvivesSnoc(ms, i);
      if i < n {
        var j :| 0 <= j < |k| && k[j] == i;
        assert j != q && kept[j] == i;
      }
    }
  }

  /** The indices from `i` on whose members survive, in order. */
  ghost function SurvivorsFrom(ms: Members, i: nat): (s: seq<nat>)
    requires i <= |ms|
    ensures forall k :: 0 <= k < |s| ==> i <= s[k] < |ms| && Survives(ms, s[k])
    ensures forall j, k :: 0 <= j < k < |s| ==> s[j] < s[k]
    ensures forall j :: i <= j < |ms| && Survives(ms, j) ==> j in s
    decreases |ms| - i
  {
    if i == |ms| then [] else (if Survives(ms, i) then [i] else []) + SurvivorsFrom(ms, i + 1)
  }

  ghost function Survivors(ms: Members): (s: seq<nat>)
    ensures forall i :: 0 <= i < |s| ==> s[i] < |ms|
  {
    SurvivorsFrom(ms, 0)
  }

  lemma SurvivorsSelect(ms: Members)
    ensures Selects(ms, Survivors(ms))
  {
    var s := Survivors(ms);
    forall i, j | 0 <= i < j < |s| ensures ms[s[i]].0 != ms[s[j]].0 {
      assert Survives(ms, s[i]) && s[i] < s[j];
    }
  }

  // ---- nodes with the duplicates removed ----

  /** Every object keeps one member per name, in the place of the first and with the value of the last. */
  ghost function Merged(node: Node): Node
    decreases node
  {
    match node
    case Arr(items) => Arr(seq(|items|, i requires 0 <= i < |items| => Merged(items[i])))
    case Obj(ms) =>
      var k := Kept(ms);
      Obj(seq(|k|, i requires 0 <= i < |k| => (ms[k[i]].0, Merged(ms[k[i]].1))))
    case _ => node
  }

  /** Every object keeps the last member of each name and drops the others. */
  ghost function KeepLast(node: Node): Node
    decreases node
  {
    match node
    case Arr(items) => Arr(seq(|items|, i requires 0 <= i < |items| => KeepLast(items[i])))
    case Obj(ms) =>
      var k := Survivors(ms);
      Obj(seq(|k|, i requires 0 <= i < |k| => (ms[k[i]].0, KeepLast(ms[k[i]].1))))
    case _ => node
  }

  /** `after` holds a chosen member of each name of `before`. */
  ghost predicate Chosen(before: Members, after: Members, chosen: seq<nat>) {
    && Selects(before, chosen) && |after| == |chosen|
    && forall i :: 0 <= i < |chosen| ==> after[i].0 == before[chosen[i]].0
  }

  lemma {:induction false} LastOfName(ms: Members, i: nat) returns (j: nat)
    requires i < |ms|
    ensures i <= j < |ms| && ms[j].0 == ms[i].0 && Survives(ms, j)
    decreases |ms| - i
  {
    if Survives(ms, i) {
      j := i;
    } else {
      var k :| i < k < |ms| && ms[k].0 == ms[i].0;
      j := LastOfName(ms, k);
    }
  }

  lemma SameNamesHeld(before: Members, after: Members, chosen: seq<nat>, name: Text)
    requires Chosen(before, after, chosen)
    ensures HasMember(before, name) <==> HasMember(after, name)
  {
    if HasMember(before, name) {
      var i :| 0 <= i < |before| && before[i].0 == name;
      var j := LastOfName(before, i);
      var k :| 0 <= k < |chosen| && chosen[k] == j;
      assert after[k].0 == name;
    }
    if HasMember(after, name) {
      var i :| 0 <= i < |after| && after[i].0 == name;
      assert before[chosen[i]].0 == name;
    }
  }

  lemma {:induction false} SameMissing(before: Members, after: Members, chosen: seq<nat>, required: seq<SVal>)
    requires Chosen(before, after, chosen)
    ensures FirstMissing(before, required) == FirstMissing(after, required)
    decreases |required|
  {
    hide Chosen, HasMember;
    if required != [] {
      if required[0].SStr? {
        SameNamesHeld(before, after, chosen, required[0].s);
      }
      SameMissing(before, after, chosen, required[1..]);
    }
  }

  ghost function Upto(n: nat): (s: seq<nat>)
    ensures |s| == n && forall i :: 0 <= i < n ==> s[i] == i
  {
    seq(n, i requires 0 <= i < n => i)
  }

  /** Without duplicates every member is kept where it stands. */
  lemma {:induction false} DistinctAreKept(ms: Members)
    requires forall i, j :: 0 <= i < j < |ms| ==> ms[i].0 != ms[j].0
    ensures Kept(ms) == Upto(|ms|)
    decreases |ms|
  {
    if ms != [] {
      var n := |ms| - 1;
      var init := ms[..n];
      assert forall i, j :: 0 <= i < j < n ==> init[i] == ms[i] && init[j] == ms[j];
      DistinctAreKept(init);
      var q := Position(ms, Upto(n), ms[n].0);
      assert q == n;
      assert Upto(n) + [n] == Upto(n + 1);
    }
  }

  lemma ChosenAreKept(before: Members, after: Members, chosen: seq<nat>)
    requires Chosen(before, after, chosen)
    ensures Kept(after) == Upto(|after|)
  {
    DistinctAreKept(after);
  }
}
