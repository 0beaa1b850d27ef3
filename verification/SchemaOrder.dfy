/** The order in which component schemas are rendered: those whose references are all rendered
    come next, and the first remaining name is forced when there is none. */
module SchemaOrder {
  import opened Graphs
  import opened Names

  /** From each schema to each schema it references; references to unknown names do not count. */
  ghost function ReferenceEdges(references: map<string, set<string>>): Edges {
    set n, d | n in references && d in references[n] && d in references :: (n, d)
  }

  /** Every reference of `order[i]` is among the names before it. */
  ghost predicate AfterReferences(e: Edges, order: seq<string>, i: nat)
    requires i < |order|
  {
    forall d :: (order[i], d) in e ==> d in order[..i]
  }

  ghost predicate EachOnce(order: seq<string>, names: set<string>) {
    (forall n :: n in order <==> n in names) && forall i, j :: 0 <= i < j < |order| ==> order[i] != order[j]
  }

  /** Every schema that no cycle can be reached from comes after all it references. */
  ghost predicate Settled(e: Edges, order: seq<string>) {
    forall i :: 0 <= i < |order| && !ReachesCycle(e, order[i]) ==> AfterReferences(e, order, i)
  }

  /** The schemas not yet placed whose references are all placed, or are no schemas. */
  ghost predicate Ready(references: map<string, set<string>>, placed: seq<string>, n: string) {
    n in references && n !in placed && forall d :: d in references[n] && d in references ==> d in placed
  }

  /** The next round places every schema that is ready, in order of their names, or, when none is, the first name. */
  ghost predicate RoundAt(references: map<string, set<string>>, order: seq<string>, a: nat, b: nat) {
    && a < b <= |order| && (forall i, j :: a <= i < j < b ==> Precedes(order[i], order[j]))
    && ((exists n :: Ready(references, order[..a], n)) ==>
          forall n :: n in order[a..b] <==> Ready(references, order[..a], n))
    && (!(exists n :: Ready(references, order[..a], n)) ==>
          && b == a + 1 && order[a] in references && order[a] !in order[..a]
          && forall n :: n in references && n !in order[..a] ==> n == order[a] || Precedes(order[a], n))
  }

  /** The whole order is placed round by round, from cut to cut. */
  ghost predicate InRounds(references: map<string, set<string>>, order: seq<string>, cuts: seq<nat>) {
    && cuts != [] && cuts[0] == 0 && cuts[|cuts| - 1] == |order|
    && forall k :: 0 <= k < |cuts| - 1 ==> RoundAt(references, order, cuts[k], cuts[k + 1])
  }

  lemma NoRounds(references: map<string, set<string>>)
    ensures InRounds(references, [], [0])
  {
  }

  lemma RoundStays(references: map<string, set<string>>, order: seq<string>, more: seq<string>, a: nat, b: nat)
    requires RoundAt(references, order, a, b)
    ensures RoundAt(references, order + more, a, b)
  {
    hide Ready, Precedes;
    var all := order + more;
    assert all[..a] == order[..a] && all[a..b] == order[a..b];
    assert forall i :: 0 <= i < b ==> all[i] == order[i];
  }

  lemma OneMoreRound(references: map<string, set<string>>, order: seq<string>, more: seq<string>, cuts: seq<nat>)
    requires InRounds(references, order, cuts) && RoundAt(references, order + more, |order|, |order + more|)
    ensures InRounds(references, order + more, cuts + [|order + more|])
  {
    hide RoundAt;
    var all := cuts + [|order + more|];
    forall k | 0 <= k < |all| - 1 ensures RoundAt(references, order + more, all[k], all[k + 1]) {
      if k < |cuts| - 1 {
        RoundStays(references, order, more, cuts[k], cuts[k + 1]);
      }
    }
  }

  lemma ReadyRound(references: map<string, set<string>>, order: seq<string>, remaining: set<string>,
        open: set<string>, ready: seq<string>)
    requires remaining <= references.Keys && EachOnce(order, references.Keys - remaining)
    requires open == Open(references, remaining, order) && open != {} && Sorted(ready, open)
    requires forall i, j :: 0 <= i < j < |ready| ==> Precedes(ready[i], ready[j])
    ensures RoundAt(references, order + ready, |order|, |order + ready|)
  {
    hide Precedes, Before;
    OpenIsReady(references, remaining, order);
    hide Open, Ready, EachOnce;
    var all := order + ready;
    var n :| n in open;
    assert n in ready && Ready(references, order, n);
    assert all[..|order|] == order && all[|order|..] == ready;
    assert forall i :: |order| <= i < |all| ==> all[i] == ready[i - |order|];
  }

  lemma ForcedRound(references: map<string, set<string>>, order: seq<string>, remaining: set<string>, first: string)
    requires remaining <= references.Keys && EachOnce(order, references.Keys - remaining)
    requires Open(references, remaining, order) == {} && IsFirst(first, remaining)
    ensures RoundAt(references, order + [first], |order|, |order| + 1)
  {
    OpenIsReady(references, remaining, order);
    var all := order + [first];
    assert all[..|order|] == order;
    forall n | n in references && n !in order ensures n == first || Precedes(first, n) {
      assert n in remaining;
      BeforeIsPrecedes(first, n);
    }
    hide Open, Ready, Precedes;
  }

  lemma OpenIsReady(references: map<string, set<string>>, remaining: set<string>, order: seq<string>)
    requires remaining <= references.Keys && EachOnce(order, references.Keys - remaining)
    ensures forall n :: n in Open(references, remaining, order) <==> Ready(references, order, n)
  {
    forall n ensures n in Open(references, remaining, order) <==> Ready(references, order, n) {
      assert n in remaining <==> n in references && n !in order;
      if n in remaining {
        assert forall d :: d in references[n] * references.Keys <==> d in references[n] && d in references;
      }
    }
  }

  method Order(references: map<string, set<string>>) returns (order: seq<string>)
    ensures EachOnce(order, references.Keys)
    ensures exists cuts: seq<nat> :: InRounds(references, order, cuts)
    ensures Settled(ReferenceEdges(references), order)
    ensures (forall i :: 0 <= i < |order| ==> AfterReferences(ReferenceEdges(references), order, i))
      <==> !Cyclic(ReferenceEdges(references))
  {
    hide EachOnce, Settled, AfterReferences, Cyclic, ReferenceEdges, ReachesCycle, Sorted, Open, RoundAt, Precedes;
    hide InRounds;
    ghost var cuts: seq<nat> := [0];
    ghost var e := ReferenceEdges(references);
    order := [];
    var remaining := references.Keys;
    EmptyOrder(e);
    NoRounds(references);
    EdgesStayInside(references);
    assert references.Keys - remaining == {};
    while remaining != {}
      invariant remaining <= references.Keys && EachOnce(order, references.Keys - remaining) && Settled(e, order)
      invariant InRounds(references, order, cuts)
      decreases |remaining|
    {
      var open := Open(references, remaining, order);
      var ready;
      if open != {} {
        ready := Sort(open);
        ReadyIsSettled(references, order, remaining, open, ready);
        ReadyRound(references, order, remaining, open, ready);
      } else {
        var names := Sort(remaining);
        var first := names[0];
        assert first in remaining;
        ready := [first];
        ForcedIsSettled(references, order, remaining, first);
        ForcedRound(references, order, remaining, first);
      }
      PlacedOnce(order, ready, references.Keys, remaining);
      Shrinks(remaining, ready);
      OneMoreRound(references, order, ready, cuts);
      cuts := cuts + [|order + ready|];
      order := order + ready;
      remaining := remaining - (set n <- ready);
    }
    assert references.Keys - {} == references.Keys;
    TopologicalIffAcyclic(e, order, references.Keys);
  }

  /** The remaining schemas whose known references are all placed. */
  function Open(references: map<string, set<string>>, remaining: set<string>, order: seq<string>): set<string>
    requires remaining <= references.Keys
  {
    set n | n in remaining && forall d <- references[n] * references.Keys :: d in order
  }

  lemma EmptyOrder(e: Edges)
    ensures EachOnce([], {}) && Settled(e, [])
  {}

  ghost predicate Inside(e: Edges, names: set<string>) {
    forall a, b :: (a, b) in e ==> a in names && b in names
  }

  lemma EdgesStayInside(references: map<string, set<string>>)
    ensures Inside(ReferenceEdges(references), references.Keys)
  {}

  lemma PlacedOnce(order: seq<string>, ready: seq<string>, names: set<string>, remaining: set<string>)
    requires remaining <= names && EachOnce(order, names - remaining)
    requires ready != [] && (forall n <- ready :: n in remaining) && forall i, j :: 0 <= i < j < |ready| ==>
      ready[i] != ready[j]
    ensures EachOnce(order + ready, names - (remaining - (set n <- ready)))
  {
    var all := order + ready;
    forall i, j | 0 <= i < j < |all| ensures all[i] != all[j] {
      if j >= |order| {
        assert all[j] in ready;
        if i < |order| {
          assert all[i] in order;
        }
      }
    }
  }

  lemma Shrinks(remaining: set<string>, ready: seq<string>)
    requires ready != [] && ready[0] in remaining
    ensures |remaining - (set n <- ready)| < |remaining|
  {
    var rest := remaining - (set n <- ready);
    assert ready[0] in ready && remaining == rest + (remaining - rest) && ready[0] in remaining - rest;
  }

  /** What was settled stays settled when more is appended. */
  lemma StaysSettled(e: Edges, order: seq<string>, ready: seq<string>)
    requires Settled(e, order)
    requires forall i :: 0 <= i < |ready| && !ReachesCycle(e, ready[i]) ==> forall d :: (ready[i], d) in e ==>
      d in order
    ensures Settled(e, order + ready)
  {
    var all := order + ready;
    forall i | 0 <= i < |all| && !ReachesCycle(e, all[i]) ensures AfterReferences(e, all, i) {
      if i < |order| {
        assert AfterReferences(e, order, i) && all[..i] == order[..i];
      } else {
        assert all[i] == ready[i - |order|];
        assert all[..i] == order + ready[..i - |order|];
      }
    }
  }

  lemma ReadyIsSettled(references: map<string, set<string>>, order: seq<string>, remaining: set<string>,
        open: set<string>, ready: seq<string>)
    requires Settled(ReferenceEdges(references), order) && remaining <= references.Keys
    requires open == Open(references, remaining, order) && open != {} && Sorted(ready, open)
    ensures Settled(ReferenceEdges(references), order + ready)
    ensures ready != [] && (forall n <- ready :: n in remaining) && forall i, j :: 0 <= i < j < |ready| ==>
      ready[i] != ready[j]
  {
    SortedOnce(ready, open);
    var n :| n in open;
    assert n in ready;
    var e := ReferenceEdges(references);
    forall i, d | 0 <= i < |ready| && (ready[i], d) in e ensures d in order {
      assert ready[i] in ready && ready[i] in open;
      assert d in references[ready[i]] * references.Keys;
    }
    StaysSettled(e, order, ready);
  }

  /** With nothing ready, every remaining schema leads into a cycle, so forcing one breaks no promise. */
  lemma ForcedIsSettled(references: map<string, set<string>>, order: seq<string>, remaining: set<string>, first: string)
    requires Settled(ReferenceEdges(references), order) && remaining <= references.Keys && first in remaining
    requires EachOnce(order, references.Keys - remaining)
    requires Open(references, remaining, order) == {}
    ensures Settled(ReferenceEdges(references), order + [first])
  {
    hide ReachesCycle;
    var e := ReferenceEdges(references);
    forall n | n in remaining ensures HasSuccessor(e, remaining, n) {
      assert n !in Open(references, remaining, order);
      var d :| d in references[n] * references.Keys && d !in order;
      assert d in references.Keys - remaining ==> d in order;
      assert n in references && d in references[n] && d in references;
    }
    var cycle := EndlessReachesCycle(e, remaining, first);
    StaysSettled(e, order, [first]);
  }

  /** An order after all references exists, and this is one, exactly when the graph has no cycle. */
  lemma TopologicalIffAcyclic(e: Edges, order: seq<string>, names: set<string>)
    requires EachOnce(order, names) && Inside(e, names) && Settled(e, order)
    ensures (forall i :: 0 <= i < |order| ==> AfterReferences(e, order, i)) <==> !Cyclic(e)
  {
    if !Cyclic(e) {
      forall i | 0 <= i < |order| ensures AfterReferences(e, order, i) {
        assert !ReachesCycle(e, order[i]);
      }
    }
    if forall i :: 0 <= i < |order| ==> AfterReferences(e, order, i) {
      OrderedIsAcyclic(e, order, names);
    }
  }

  lemma OrderedIsAcyclic(e: Edges, order: seq<string>, names: set<string>)
    requires EachOnce(order, names) && Inside(e, names)
    requires forall i :: 0 <= i < |order| ==> AfterReferences(e, order, i)
    ensures !Cyclic(e)
  {
    var rank := map n | n in names :: Position(order, n);
    forall a, b | (a, b) in e && a in rank ensures b in rank && rank[b] < rank[a] {
      var i := Position(order, a);
      assert AfterReferences(e, order, i);
      var j :| 0 <= j < i && order[..i][j] == b;
      assert order[j] == b;
    }
    if v :| Reaches(e, v, v) {
      var p :| PathFrom(e, p, v, v);
      assert Step(e, p, 0);
      RankedReachNoCycle(e, rank, v);
      assert ReachesCycle(e, v);
    }
  }

  ghost function Position(order: seq<string>, n: string): (i: nat)
    ensures n in order ==> i < |order| && order[i] == n
    ensures forall j :: 0 <= j < |order| && order[j] == n ==> i <= j
  {
    if order == [] || order[0] == n then 0
    else
      var i := Position(order[1..], n);
      assert forall j :: 0 < j < |order| ==> order[j] == order[1..][j - 1];
      1 + i
  }
}
