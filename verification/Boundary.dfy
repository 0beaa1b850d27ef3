/** The stages a pinned workflow graph places before its landing boundary. */
module Boundary {
  import opened Graphs
  import opened Wrappers

  /** Declared stages in order, the initial stage, and the transitions as source and destination. */
  datatype WorkflowGraph = WorkflowGraph(stages: seq<string>, initial: string, transitions: seq<(string, string)>) {
    /** What graph parsing guarantees. */
    ghost predicate Valid() {
      && (forall i, j :: 0 <= i < j < |stages| ==> stages[i] != stages[j])
      && initial in stages
      && forall t <- transitions :: t.0 in stages && t.1 in stages
    }
    ghost function Edges(): Edges { set t <- transitions }
  }

  /** The stages of `declared` that have a path to `target`, in declared order, without `target`. */
  ghost function Before(e: Edges, declared: seq<string>, target: string): seq<string> {
    if declared == [] then []
    else
      (if declared[0] != target && Reaches(e, declared[0], target) then [declared[0]] else [])
      + Before(e, declared[1..], target)
  }

  lemma {:induction false} BeforeHolds(e: Edges, declared: seq<string>, target: string)
    ensures forall s :: s in Before(e, declared, target) <==> s in declared && s != target && Reaches(e, s, target)
    decreases |declared|
  {
    if declared != [] {
      BeforeHolds(e, declared[1..], target);
      assert forall s :: s in declared <==> s == declared[0] || s in declared[1..];
    }
  }

  /** The picked stages stand at the places, in order, and these are the places of all stages but the target
      that have a path to it. */
  ghost predicate Picks(e: Edges, declared: seq<string>, target: string, picked: seq<string>, places: seq<nat>) {
    && |places| == |picked| && (forall j, k :: 0 <= j < k < |places| ==> places[j] < places[k])
    && (forall k :: 0 <= k < |places| ==> places[k] < |declared| && declared[places[k]] == picked[k])
    && forall i :: 0 <= i < |declared| ==>
         (declared[i] != target && Reaches(e, declared[i], target) <==> i in places)
  }

  lemma {:induction false} BeforePicks(e: Edges, declared: seq<string>, target: string) returns (places: seq<nat>)
    ensures Picks(e, declared, target, Before(e, declared, target), places)
    decreases |declared|
  {
    hide Reaches, Picks;
    if declared == [] {
      places := [];
      PicksNothing(e, target);
    } else {
      var n := |declared| - 1;
      var init := declared[..n];
      BeforeSnoc(e, declared, target);
      places := BeforePicks(e, init, target);
      if declared[n] != target && Reaches(e, declared[n], target) {
        PicksLast(e, declared, target, Before(e, init, target), places);
        places := places + [n];
      } else {
        assert Before(e, init, target) + [] == Before(e, init, target);
        PicksNoMore(e, declared, target, Before(e, init, target), places);
      }
    }
  }

  lemma PicksNothing(e: Edges, target: string)
    ensures Picks(e, [], target, [], [])
  {
  }

  lemma PicksLast(e: Edges, declared: seq<string>, target: string, picked: seq<string>, places: seq<nat>)
    requires declared != [] && Picks(e, declared[..|declared| - 1], target, picked, places)
    requires var last := declared[|declared| - 1]; last != target && Reaches(e, last, target)
    ensures Picks(e, declared, target, picked + [declared[|declared| - 1]], places + [|declared| - 1])
  {
    hide Reaches;
    var n := |declared| - 1;
    var more := places + [n];
    forall i | 0 <= i < |declared| ensures declared[i] != target && Reaches(e, declared[i], target) <==> i in more {
      if i < n {
        assert declared[..n][i] == declared[i];
      } else {
        assert more[|places|] == n;
      }
    }
    forall i | i in more ensures 0 <= i < |declared| {
      if i in places {
        var k :| 0 <= k < |places| && places[k] == i;
      }
    }
  }

  lemma PicksNoMore(e: Edges, declared: seq<string>, target: string, picked: seq<string>, places: seq<nat>)
    requires declared != [] && Picks(e, declared[..|declared| - 1], target, picked, places)
    requires var last := declared[|declared| - 1]; !(last != target && Reaches(e, last, target))
    ensures Picks(e, declared, target, picked, places)
  {
    hide Reaches;
    var n := |declared| - 1;
    forall i | 0 <= i < |declared| ensures declared[i] != target && Reaches(e, declared[i], target) <==> i in places {
      if i < n {
        assert declared[..n][i] == declared[i];
      } else {
        assert i !in places;
      }
    }
  }

  lemma {:induction false} BeforeSnoc(e: Edges, declared: seq<string>, target: string)
    requires declared != []
    ensures var n := |declared| - 1;
      Before(e, declared, target) == Before(e, declared[..n], target) +
        if declared[n] != target && Reaches(e, declared[n], target) then [declared[n]] else []
    decreases |declared|
  {
    hide Reaches;
    var n := |declared| - 1;
    if n > 0 {
      BeforeSnoc(e, declared[1..], target);
      assert declared[1..][..n - 1] == declared[..n][1..];
    }
  }

  ghost function Predecessors(g: WorkflowGraph, boundary: string): Option<seq<string>> {
    if boundary !in g.stages then None
    else if boundary != g.initial && !Reaches(g.Edges(), g.initial, boundary) then None
    else Some(Before(g.Edges(), g.stages, boundary))
  }

  method LandingBoundaryPredecessors(g: WorkflowGraph, boundary: string) returns (r: Option<seq<string>>)
    ensures r == None <==>
      boundary !in g.stages || (boundary != g.initial && !Reaches(g.Edges(), g.initial, boundary))
    ensures r.Some? ==> exists places :: Picks(g.Edges(), g.stages, boundary, r.value, places)
    ensures r == Predecessors(g, boundary)
  {
    hide Reaches, Picks, Before;
    ghost var places := BeforePicks(g.Edges(), g.stages, boundary);
    if boundary !in g.stages {
      return None;
    }
    var predecessors := Ancestors(g, boundary);
    if boundary != g.initial && g.initial !in predecessors {
      return None;
    }
    var kept := [];
    for i := 0 to |g.stages|
      invariant Before(g.Edges(), g.stages, boundary) == kept + Before(g.Edges(), g.stages[i..], boundary)
    {
      ghost var tail := Before(g.Edges(), g.stages[i + 1..], boundary);
      BeforeFrom(g.Edges(), g.stages, boundary, i);
      assert kept + ([g.stages[i]] + tail) == (kept + [g.stages[i]]) + tail;
      if g.stages[i] in predecessors {
        kept := kept + [g.stages[i]];
      }
    }
    BeforeNothing(g.Edges(), g.stages, boundary);
    assert kept + [] == kept;
    return Some(kept);
  }

  lemma BeforeFrom(e: Edges, declared: seq<string>, target: string, i: nat)
    requires i < |declared|
    ensures var tail := Before(e, declared[i + 1..], target);
      Before(e, declared[i..], target) ==
        if declared[i] != target && Reaches(e, declared[i], target) then [declared[i]] + tail else tail
  {
    hide Reaches;
    assert declared[i..][1..] == declared[i + 1..] && declared[i..][0] == declared[i];
    var tail := Before(e, declared[i + 1..], target);
    assert [] + tail == tail;
  }

  lemma BeforeNothing(e: Edges, declared: seq<string>, target: string)
    ensures Before(e, declared[|declared|..], target) == [] && declared[0..] == declared
  {
  }

  /** `incoming`: for each stage, the sources of the transitions into it. */
  method Incoming(transitions: seq<(string, string)>) returns (incoming: map<string, seq<string>>)
    ensures forall a, b :: (a, b) in transitions <==> b in incoming && a in incoming[b]
  {
    incoming := map[];
    for i := 0 to |transitions|
      invariant forall a, b :: (a, b) in transitions[..i] <==> b in incoming && a in incoming[b]
    {
      var (source, destination) := transitions[i];
      assert transitions[..i + 1] == transitions[..i] + [(source, destination)];
      var known := if destination in incoming then incoming[destination] else [];
      incoming := incoming[destination := known + [source]];
    }
    assert transitions[..|transitions|] == transitions;
  }

  /** Every edge into `done` starts inside `reached`. */
  ghost predicate Expanded(e: Edges, done: set<string>, reached: set<string>) {
    forall a, b :: (a, b) in e && b in done ==> a in reached
  }

  ghost predicate AllReach(e: Edges, reached: set<string>, target: string) {
    forall s :: s in reached ==> Reaches(e, s, target)
  }

  /** The stages with a non-empty path to `target`, on any graph, cyclic or not. */
  method Ancestors(g: WorkflowGraph, target: string) returns (ancestors: set<string>)
    ensures forall s :: s in ancestors <==> s != target && Reaches(g.Edges(), s, target)
  {
    hide Reaches;
    ghost var e := g.Edges();
    var incoming := Incoming(g.transitions);
    ghost var sources := set t <- g.transitions :: t.0;
    var reached: set<string> := {};
    var frontier := [target];
    ghost var done: set<string> := {};
    while frontier != []
      invariant reached <= sources && AllReach(e, reached, target)
      invariant forall s :: s == target || s in reached ==> s in done || s in frontier
      invariant forall s <- frontier :: s == target || s in reached
      invariant Expanded(e, done, reached)
      decreases sources - reached, |frontier|
    {
      var stage := frontier[|frontier| - 1];
      ghost var before := frontier;
      frontier := frontier[..|frontier| - 1];
      assert before == frontier + [stage];
      var predecessors := if stage in incoming then incoming[stage] else [];
      ghost var reachedBefore, frontierBefore := reached, frontier;
      for i := 0 to |predecessors|
        invariant reachedBefore <= reached <= sources && AllReach(e, reached, target)
        invariant forall s :: s == target || s in reached ==> s in done || s == stage || s in frontier
        invariant forall s <- frontier :: s == target || s in reached
        invariant forall a <- predecessors[..i] :: a in reached
        invariant reached == reachedBefore ==> frontier == frontierBefore
      {
        var source := predecessors[i];
        assert predecessors[..i + 1] == predecessors[..i] + [source];
        assert (source, stage) in g.transitions && (source, stage) in e;
        if source !in reached {
          ReachesThrough(e, source, stage, target, reached);
          reached := reached + {source};
          frontier := frontier + [source];
        }
      }
      done := done + {stage};
      assert predecessors[..|predecessors|] == predecessors;
    }
    ClosedHoldsAll(e, reached, done, target);
    ancestors := reached - {target};
  }

  lemma ReachesThrough(e: Edges, source: string, stage: string, target: string, reached: set<string>)
    requires (source, stage) in e && AllReach(e, reached, target) && (stage == target || stage in reached)
    ensures Reaches(e, source, target)
  {
    hide Reaches;
    if stage == target {
      EdgeReaches(e, source, target);
    } else {
      EdgeThenReaches(e, source, stage, target);
    }
  }

  /** When everything reached is expanded, nothing that reaches the target is missing. */
  lemma ClosedHoldsAll(e: Edges, reached: set<string>, done: set<string>, target: string)
    requires Expanded(e, done, reached) && forall s :: s == target || s in reached ==> s in done
    ensures forall s :: Reaches(e, s, target) ==> s in reached
  {
    forall s | Reaches(e, s, target) ensures s in reached {
      var p :| PathFrom(e, p, s, target);
      assert Step(e, p, 0);
      SliceIsPath(e, p, 1, |p| - 1);
      assert p[1..|p|] == p[1..];
      BackwardClosed(e, reached + {target}, p[1..]);
    }
  }
}
