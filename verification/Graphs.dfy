/** Finite directed graphs as sets of edges: paths, cycles, ranks and the pigeonhole principle. */
module Graphs {
  type Edges = set<(string, string)>

  ghost predicate Step(e: Edges, p: seq<string>, i: nat)
    requires i + 1 < |p|
  {
    (p[i], p[i + 1]) in e
  }

  ghost predicate IsPath(e: Edges, p: seq<string>) {
    p != [] && forall i {:trigger Step(e, p, i)} :: 0 <= i < |p| - 1 ==> Step(e, p, i)
  }

  ghost predicate PathFrom(e: Edges, p: seq<string>, a: string, b: string) {
    IsPath(e, p) && |p| >= 2 && p[0] == a && p[|p| - 1] == b
  }

  /** A path of at least one edge from `a` to `b`. */
  ghost predicate Reaches(e: Edges, a: string, b: string) {
    exists p :: PathFrom(e, p, a, b)
  }

  ghost predicate Cyclic(e: Edges) {
    exists v :: Reaches(e, v, v)
  }

  /** `n` is on a cycle or leads into one. */
  ghost predicate ReachesCycle(e: Edges, n: string) {
    exists v :: Reaches(e, v, v) && (n == v || Reaches(e, n, v))
  }

  lemma SliceIsPath(e: Edges, p: seq<string>, i: nat, j: nat)
    requires IsPath(e, p) && i <= j < |p|
    ensures IsPath(e, p[i..j + 1]) && p[i..j + 1][0] == p[i] && p[i..j + 1][j - i] == p[j]
  {
    var q := p[i..j + 1];
    forall k | 0 <= k < |q| - 1 ensures Step(e, q, k) {
      assert Step(e, p, i + k);
    }
  }

  lemma EdgeReaches(e: Edges, a: string, b: string)
    requires (a, b) in e
    ensures Reaches(e, a, b)
  {
    assert PathFrom(e, [a, b], a, b);
  }

  lemma EdgeThenReaches(e: Edges, a: string, b: string, c: string)
    requires (a, b) in e && Reaches(e, b, c)
    ensures Reaches(e, a, c)
  {
    var p :| PathFrom(e, p, b, c);
    var q := [a] + p;
    forall i | 0 <= i < |q| - 1 ensures Step(e, q, i) {
      if i > 0 {
        assert Step(e, p, i - 1);
      }
    }
    assert PathFrom(e, q, a, c);
  }

  // ---- ranks exclude cycles ----

  /** Every edge out of a ranked node leads to a ranked node of lower rank. */
  ghost predicate Descends(e: Edges, rank: map<string, int>) {
    forall a, b :: (a, b) in e && a in rank ==> b in rank && rank[b] < rank[a]
  }

  lemma {:induction false} PathDescends(e: Edges, rank: map<string, int>, p: seq<string>)
    requires Descends(e, rank) && IsPath(e, p) && p[0] in rank
    ensures p[|p| - 1] in rank && (|p| >= 2 ==> rank[p[|p| - 1]] < rank[p[0]])
    decreases |p|
  {
    if |p| >= 2 {
      assert Step(e, p, 0);
      SliceIsPath(e, p, 1, |p| - 1);
      assert p[1..|p|] == p[1..];
      PathDescends(e, rank, p[1..]);
    }
  }

  lemma RankedReachNoCycle(e: Edges, rank: map<string, int>, n: string)
    requires Descends(e, rank) && n in rank
    ensures !ReachesCycle(e, n)
  {
    if v :| Reaches(e, v, v) && (n == v || Reaches(e, n, v)) {
      if n != v {
        var p :| PathFrom(e, p, n, v);
        PathDescends(e, rank, p);
      }
      var c :| PathFrom(e, c, v, v);
      PathDescends(e, rank, c);
    }
  }

  // ---- a set where every node has a successor holds a cycle ----

  ghost predicate HasSuccessor(e: Edges, r: set<string>, a: string) {
    exists b :: b in r && (a, b) in e
  }

  ghost predicate Endless(e: Edges, r: set<string>) {
    forall a {:trigger HasSuccessor(e, r, a)} :: a in r ==> HasSuccessor(e, r, a)
  }

  lemma AppendIsPath(e: Edges, p: seq<string>, b: string)
    requires IsPath(e, p) && (p[|p| - 1], b) in e
    ensures IsPath(e, p + [b])
  {
    var q := p + [b];
    forall i | 0 <= i < |q| - 1 ensures Step(e, q, i) {
      if i < |p| - 1 {
        assert Step(e, p, i);
      }
    }
  }

  lemma Successor(e: Edges, r: set<string>, a: string) returns (b: string)
    requires Endless(e, r) && a in r
    ensures b in r && (a, b) in e
  {
    assert HasSuccessor(e, r, a);
    b :| b in r && (a, b) in e;
  }

  /** A walk of `n` edges inside `r`. */
  lemma {:induction false} Walk(e: Edges, r: set<string>, start: string, n: nat) returns (p: seq<string>)
    requires Endless(e, r) && start in r
    ensures |p| == n + 1 && p[0] == start && IsPath(e, p) && forall v <- p :: v in r
  {
    hide Endless;
    if n == 0 {
      p := [start];
    } else {
      var q := Walk(e, r, start, n - 1);
      assert q[n - 1] in q;
      var b := Successor(e, r, q[n - 1]);
      AppendIsPath(e, q, b);
      p := q + [b];
    }
  }

  /** More places than values: some value is repeated. */
  lemma {:induction false} Pigeonhole(p: seq<string>, r: set<string>) returns (i: nat, j: nat)
    requires |p| > |r| && forall v <- p :: v in r
    ensures i < j < |p| && p[i] == p[j]
    decreases |p|
  {
    var last := p[|p| - 1];
    var q := p[..|p| - 1];
    assert last in r && forall v <- q :: v in p;
    if last in q {
      i :| 0 <= i < |q| && q[i] == last;
      j := |p| - 1;
    } else {
      i, j := Pigeonhole(q, r - {last});
    }
  }

  ghost predicate CycleWithin(e: Edges, r: set<string>, p: seq<string>) {
    |p| >= 2 && PathFrom(e, p, p[0], p[0]) && forall v <- p :: v in r
  }

  /** From any node of an endless set, a walk inside the set runs into a cycle inside the set. */
  lemma EndlessReachesCycle(e: Edges, r: set<string>, start: string) returns (cycle: seq<string>)
    requires Endless(e, r) && start in r
    ensures CycleWithin(e, r, cycle)
    ensures ReachesCycle(e, start)
  {
    hide Endless;
    var p := Walk(e, r, start, |r|);
    var i, j := Pigeonhole(p, r);
    cycle := Repeated(e, r, p, i, j);
    if p[i] != start {
      SliceIsPath(e, p, 0, i);
      assert PathFrom(e, p[0..i + 1], start, p[i]);
    }
  }

  lemma Repeated(e: Edges, r: set<string>, p: seq<string>, i: nat, j: nat) returns (cycle: seq<string>)
    requires IsPath(e, p) && i < j < |p| && p[i] == p[j] && forall v <- p :: v in r
    ensures CycleWithin(e, r, cycle) && Reaches(e, p[i], p[i])
  {
    cycle := p[i..j + 1];
    SliceIsPath(e, p, i, j);
    assert PathFrom(e, cycle, p[i], p[i]);
    assert forall v <- cycle :: v in p;
  }

  /** The first edge of a path. */
  lemma FirstStep(e: Edges, a: string, c: string) returns (b: string)
    requires Reaches(e, a, c)
    ensures (a, b) in e && (b == c || Reaches(e, b, c))
  {
    var p :| PathFrom(e, p, a, c);
    b := p[1];
    assert Step(e, p, 0);
    if |p| > 2 {
      SliceIsPath(e, p, 1, |p| - 1);
      assert PathFrom(e, p[1..|p|], b, c);
    }
  }

  /** Without cycles the nodes can be ranked so that every edge descends. */
  lemma {:induction false} RanksOf(e: Edges, r: set<string>) returns (rank: map<string, int>)
    requires !Cyclic(e)
    ensures rank.Keys == r && forall a :: a in r ==> 0 <= rank[a] < |r|
    ensures forall a, b :: (a, b) in e && a in r && b in r ==> rank[b] < rank[a]
    decreases |r|
  {
    hide Reaches;
    if r == {} {
      rank := map[];
    } else {
      var start :| start in r;
      if Endless(e, r) {
        var _ := EndlessReachesCycle(e, r, start);
      }
      var sink :| sink in r && !HasSuccessor(e, r, sink);
      var rest := RanksOf(e, r - {sink});
      rank := map a | a in r :: if a == sink then 0 else rest[a] + 1;
    }
  }

  // ---- closed sets ----

  /** A set closed under the edges into it holds every node that reaches it. */
  lemma {:induction false} BackwardClosed(e: Edges, closed: set<string>, p: seq<string>)
    requires forall a, b :: (a, b) in e && b in closed ==> a in closed
    requires IsPath(e, p) && p[|p| - 1] in closed
    ensures p[0] in closed
    decreases |p|
  {
    if |p| >= 2 {
      assert Step(e, p, 0);
      SliceIsPath(e, p, 1, |p| - 1);
      assert p[1..|p|] == p[1..];
      BackwardClosed(e, closed, p[1..]);
    }
  }
}
