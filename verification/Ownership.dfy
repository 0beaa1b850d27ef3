/** The ownership policy check: unique names, known dependencies, and no dependency cycle, found
    by removing owners without remaining dependencies, round after round. */
module Ownership {
  import opened Graphs
  import opened Names

  datatype Rule = Rule(name: string, allowedDependencies: seq<string>)

  datatype Verdict =
    | Accepted
    | DuplicateNames
    | UnknownDependencies(unknown: set<string>)
    | DependencyCycle(names: seq<string>)

  function RuleNames(rules: seq<Rule>): set<string> { set r <- rules :: r.name }

  ghost predicate UniqueNames(rules: seq<Rule>) {
    forall i, j :: 0 <= i < j < |rules| ==> rules[i].name != rules[j].name
  }

  function Unknown(rules: seq<Rule>): set<string> {
    set r <- rules, d <- r.allowedDependencies | d !in RuleNames(rules) :: d
  }

  /** An edge from each owner to each owner it may depend on. */
  ghost function DependencyEdges(rules: seq<Rule>): Edges {
    set r <- rules, d <- r.allowedDependencies :: (r.name, d)
  }

  lemma {:induction false} NamesAreFewer(rules: seq<Rule>)
    ensures |RuleNames(rules)| <= |rules|
    ensures |RuleNames(rules)| == |rules| <==> UniqueNames(rules)
    decreases |rules|
  {
    hide UniqueNames;
    if rules == [] {
      assert UniqueNames([]) by { NoRulesAreUnique(); }
    } else {
      var n := |rules| - 1;
      NamesAreFewer(rules[..n]);
      OneMoreName(rules[..n], rules[n]);
      OneMoreUnique(rules[..n], rules[n]);
      assert rules == rules[..n] + [rules[n]];
    }
  }

  lemma NoRulesAreUnique()
    ensures UniqueNames([])
  {}

  lemma OneMoreName(init: seq<Rule>, last: Rule)
    ensures RuleNames(init + [last]) == RuleNames(init) + {last.name}
  {
    forall x | x in RuleNames(init) + {last.name} ensures x in RuleNames(init + [last]) {
      if x == last.name {
        assert last in init + [last];
      } else {
        var r :| r in init && r.name == x;
        assert r in init + [last];
      }
    }
  }

  lemma OneMoreUnique(init: seq<Rule>, last: Rule)
    ensures UniqueNames(init + [last]) <==> UniqueNames(init) && last.name !in RuleNames(init)
  {
    var rules := init + [last];
    if UniqueNames(rules) {
      forall i, j | 0 <= i < j < |init| ensures init[i].name != init[j].name {
        assert rules[i].name != rules[j].name;
      }
      assert forall i :: 0 <= i < |init| ==> rules[i] == init[i] && rules[i].name != rules[|init|].name;
    }
    if UniqueNames(init) && last.name !in RuleNames(init) {
      forall i, j | 0 <= i < j < |rules| ensures rules[i].name != rules[j].name {
        assert rules[i] in init;
        if j < |init| {
          assert init[i].name != init[j].name;
        }
      }
    }
  }

  /** What the removal rounds keep: `remaining` is the graph without the removed owners, and the
      removed owners are ranked by the round that removed them. */
  ghost predicate Rounds(e: Edges, names: set<string>, remaining: map<string, set<string>>, rank: map<string, int>) {
    && remaining.Keys !! rank.Keys && remaining.Keys + rank.Keys == names
    && (forall n :: n in remaining ==> forall d :: d in remaining[n] <==> (n, d) in e && d in remaining.Keys)
    && Descends(e, rank)
  }

  ghost predicate Below(rank: map<string, int>, round: int) {
    forall n :: n in rank ==> rank[n] < round
  }

  ghost function Ranked(rank: map<string, int>, ready: set<string>, round: int): map<string, int> {
    map n | n in rank.Keys + ready :: if n in rank then rank[n] else round
  }

  function Ready(remaining: map<string, set<string>>): set<string> {
    set n | n in remaining && remaining[n] == {}
  }

  function Without(remaining: map<string, set<string>>, ready: set<string>): map<string, set<string>> {
    map n | n in remaining && n !in ready :: remaining[n] - ready
  }

  lemma FirstRound(rules: seq<Rule>, remaining: map<string, set<string>>)
    requires Unknown(rules) == {} && remaining.Keys == RuleNames(rules)
    requires forall n, d :: n in remaining ==> (d in remaining[n] <==> (n, d) in DependencyEdges(rules))
    ensures Rounds(DependencyEdges(rules), RuleNames(rules), remaining, map[]) && Below(map[], 0)
    ensures Within(DependencyEdges(rules), RuleNames(rules))
  {
    forall a, b | (a, b) in DependencyEdges(rules) ensures a in RuleNames(rules) && b in RuleNames(rules) {
      assert b !in Unknown(rules);
    }
  }

  ghost predicate Within(e: Edges, names: set<string>) {
    forall a, b :: (a, b) in e ==> a in names && b in names
  }

  lemma NextRound(e: Edges, names: set<string>, remaining: map<string, set<string>>, rank: map<string, int>, round: int)
    requires Rounds(e, names, remaining, rank) && Below(rank, round) && Within(e, names)
    ensures var ready := Ready(remaining);
      && Rounds(e, names, Without(remaining, ready), Ranked(rank, ready, round))
      && Below(Ranked(rank, ready, round), round + 1)
  {
    var ready := Ready(remaining);
    var after := Ranked(rank, ready, round);
    forall a, b | (a, b) in e && a in after ensures b in after && after[b] < after[a] {
      if a in ready {
        assert b !in remaining[a];
      }
    }
  }

  /** The rounds that removed owners: each owner went as soon as everything it depends on had gone, and
      every round removed somebody.  This fixes both the ranks and their number. */
  ghost predicate Peeled(e: Edges, names: set<string>, rank: map<string, int>, rounds: nat) {
    && rank.Keys <= names && Descends(e, rank)
    && (forall n :: n in rank ==> 0 <= rank[n] < rounds && Prompt(e, rank, n, rank[n]))
    && forall round :: 0 <= round < rounds ==> SomeIn(rank, round)
  }

  ghost predicate SomeIn(rank: map<string, int>, round: int) { exists n :: n in rank && rank[n] == round }

  /** In round 0, or something that `n` depends on went in the round before. */
  ghost predicate Prompt(e: Edges, rank: map<string, int>, n: string, round: int) {
    round == 0 || exists d :: (n, d) in e && d in rank && rank[d] == round - 1
  }

  ghost predicate Due(e: Edges, remaining: map<string, set<string>>, rank: map<string, int>, round: int) {
    forall n :: n in Ready(remaining) ==> Prompt(e, rank, n, round)
  }

  lemma NothingPeeled(e: Edges, names: set<string>, remaining: map<string, set<string>>)
    ensures Peeled(e, names, map[], 0) && Due(e, remaining, map[], 0)
  {
  }

  lemma PromptOn(e: Edges, rank: map<string, int>, after: map<string, int>, n: string, round: int)
    requires Prompt(e, rank, n, round) && forall m :: m in rank ==> m in after && after[m] == rank[m]
    ensures Prompt(e, after, n, round)
  {
  }

  lemma RankedKeeps(rank: map<string, int>, ready: set<string>, round: int)
    ensures forall n :: n in rank ==> n in Ranked(rank, ready, round) && Ranked(rank, ready, round)[n] == rank[n]
    ensures forall n :: n in ready && n !in rank ==>
      n in Ranked(rank, ready, round) && Ranked(rank, ready, round)[n] == round
    ensures Ranked(rank, ready, round).Keys == rank.Keys + ready
  {
  }

  lemma PeelsOn(e: Edges, names: set<string>, remaining: map<string, set<string>>, rank: map<string, int>, round: nat)
    requires Rounds(e, names, remaining, rank) && Below(rank, round) && Within(e, names)
    requires Peeled(e, names, rank, round) && Due(e, remaining, rank, round) && Ready(remaining) != {}
    ensures Peeled(e, names, Ranked(rank, Ready(remaining), round), round + 1)
  {
    NextRound(e, names, remaining, rank, round);
    var ready := Ready(remaining);
    var after := Ranked(rank, ready, round);
    RankedKeeps(rank, ready, round);
    hide Ranked, Prompt, Within, Descends;
    forall n | n in after ensures 0 <= after[n] < round + 1 && Prompt(e, after, n, after[n]) {
      if n in rank {
        PromptOn(e, rank, after, n, rank[n]);
      } else {
        PromptOn(e, rank, after, n, round);
      }
    }
    forall r | 0 <= r < round + 1 ensures SomeIn(after, r) {
      if r == round {
        var n :| n in ready;
        assert n in remaining && n !in rank;
        assert after[n] == round;
      } else {
        assert SomeIn(rank, r);
        var n :| n in rank && rank[n] == r;
        assert after[n] == r;
      }
    }
  }

  /** Who is ready next lost a dependency in this round. */
  lemma DueNext(e: Edges, names: set<string>, remaining: map<string, set<string>>, rank: map<string, int>, round: nat)
    requires Rounds(e, names, remaining, rank)
    ensures var ready := Ready(remaining); Due(e, Without(remaining, ready), Ranked(rank, ready, round), round + 1)
  {
    var ready := Ready(remaining);
    RankedKeeps(rank, ready, round);
    hide Ranked, Descends;
    forall n | n in Ready(Without(remaining, ready)) ensures Prompt(e, Ranked(rank, ready, round), n, round + 1) {
      assert n in remaining && remaining[n] != {} && remaining[n] - ready == {};
      var d :| d in remaining[n];
      assert d in ready && (n, d) in e && d !in rank;
    }
  }

  lemma Shrinks(remaining: map<string, set<string>>)
    requires Ready(remaining) != {}
    ensures |Without(remaining, Ready(remaining))| < |remaining|
  {
    var next := Without(remaining, Ready(remaining));
    var n :| n in Ready(remaining);
    assert remaining.Keys == next.Keys + (remaining.Keys - next.Keys) && n in remaining.Keys - next.Keys;
    assert |next| == |next.Keys| && |remaining| == |remaining.Keys|;
  }

  /** When no owner is ready, every remaining owner depends on a remaining owner. */
  lemma StuckIsEndless(e: Edges, names: set<string>, remaining: map<string, set<string>>, rank: map<string, int>)
    requires Rounds(e, names, remaining, rank) && Ready(remaining) == {}
    ensures Endless(e, remaining.Keys)
  {
    forall n | n in remaining.Keys ensures HasSuccessor(e, remaining.Keys, n) {
      assert n !in Ready(remaining);
      var d :| d in remaining[n];
    }
  }

  lemma StuckReachesCycle(e: Edges, names: set<string>, remaining: map<string, set<string>>, rank: map<string, int>)
    requires Rounds(e, names, remaining, rank) && Endless(e, remaining.Keys)
    ensures forall n :: n in remaining.Keys <==> n in names && ReachesCycle(e, n)
  {
    hide Endless, ReachesCycle, Descends;
    forall n ensures n in remaining.Keys <==> n in names && ReachesCycle(e, n) {
      if n in remaining.Keys {
        var cycle := EndlessReachesCycle(e, remaining.Keys, n);
      } else if n in names {
        RankedReachNoCycle(e, rank, n);
      }
    }
  }

  lemma AllRankedIsAcyclic(e: Edges, names: set<string>, rank: map<string, int>)
    requires Rounds(e, names, map[], rank) && Within(e, names)
    ensures !Cyclic(e)
  {
    if v :| Reaches(e, v, v) {
      var p :| PathFrom(e, p, v, v);
      assert Step(e, p, 0);
      RankedReachNoCycle(e, rank, v);
      assert ReachesCycle(e, v);
    }
  }

  /** A reported cycle names, in order, exactly the owners on a cycle or leading into one; each of
      them depends on a reported owner, and one cycle lies entirely among them. */
  ghost predicate CycleReport(e: Edges, names: set<string>, reported: seq<string>) {
    var stuck := set n <- reported;
    && Sorted(reported, stuck)
    && (forall n :: n in stuck <==> n in names && ReachesCycle(e, n))
    && Endless(e, stuck)
    && exists p :: CycleWithin(e, stuck, p)
  }

  lemma CycleIsReported(e: Edges, names: set<string>, stuck: set<string>, reported: seq<string>)
    requires stuck != {} && Endless(e, stuck) && Sorted(reported, stuck)
    requires forall n :: n in stuck <==> n in names && ReachesCycle(e, n)
    ensures CycleReport(e, names, reported) && Cyclic(e)
  {
    hide Endless, ReachesCycle;
    assert (set n <- reported) == stuck;
    var start :| start in stuck;
    var p := EndlessReachesCycle(e, stuck, start);
    assert Reaches(e, p[0], p[0]);
  }

  /** After `round` rounds: what remains, and who went when. */
  ghost predicate InRound(e: Edges, names: set<string>, remaining: map<string, set<string>>, rank: map<string, int>,
      round: nat) {
    && Rounds(e, names, remaining, rank) && Below(rank, round) && Within(e, names)
    && Peeled(e, names, rank, round) && Due(e, remaining, rank, round)
  }

  lemma RoundOn(e: Edges, names: set<string>, remaining: map<string, set<string>>, rank: map<string, int>, round: nat)
    requires InRound(e, names, remaining, rank, round) && Ready(remaining) != {}
    ensures var ready := Ready(remaining);
      InRound(e, names, Without(remaining, ready), Ranked(rank, ready, round), round + 1)
    ensures |Without(remaining, Ready(remaining))| < |remaining|
  {
    hide Rounds, Below, Within, Peeled, Due, Ready, Without, Ranked;
    NextRound(e, names, remaining, rank, round);
    PeelsOn(e, names, remaining, rank, round);
    DueNext(e, names, remaining, rank, round);
    Shrinks(remaining);
  }

  lemma RoundsEnd(e: Edges, names: set<string>, rank: map<string, int>, round: nat)
    requires InRound(e, names, map[], rank, round)
    ensures !Cyclic(e) && Peeled(e, names, rank, round) && rank.Keys == names
  {
    hide Below, Within, Peeled, Due, Descends, Cyclic;
    AllRankedIsAcyclic(e, names, rank);
  }

  lemma RoundsStop(e: Edges, names: set<string>, remaining: map<string, set<string>>, rank: map<string, int>,
      round: nat, reported: seq<string>)
    requires InRound(e, names, remaining, rank, round) && Ready(remaining) == {} && remaining != map[]
    requires Sorted(reported, remaining.Keys)
    ensures CycleReport(e, names, reported) && Cyclic(e) && Peeled(e, names, rank, round)
    ensures forall n :: n in reported <==> n in names - rank.Keys
  {
    hide Below, Within, Peeled, Due, Descends, Cyclic, CycleReport, Endless, ReachesCycle, Ready;
    StuckIsEndless(e, names, remaining, rank);
    StuckReachesCycle(e, names, remaining, rank);
    assert remaining.Keys != {};
    CycleIsReported(e, names, remaining.Keys, reported);
    assert remaining.Keys == names - rank.Keys;
  }

  lemma RoundsBegin(rules: seq<Rule>, remaining: map<string, set<string>>)
    requires Unknown(rules) == {} && remaining.Keys == RuleNames(rules)
    requires forall n, d :: n in remaining ==> (d in remaining[n] <==> (n, d) in DependencyEdges(rules))
    ensures InRound(DependencyEdges(rules), RuleNames(rules), remaining, map[], 0)
  {
    hide Rounds, Below, Within, Peeled, Due, Unknown, RuleNames, DependencyEdges;
    FirstRound(rules, remaining);
    NothingPeeled(DependencyEdges(rules), RuleNames(rules), remaining);
  }

  // ---- the rules themselves ----

  /** A walk over the rules, by their places: each depends on the next, and the last on one of the walk. */
  ghost predicate Loops(rules: seq<Rule>, walk: seq<nat>) {
    && walk != [] && (forall k :: 0 <= k < |walk| ==> walk[k] < |rules|)
    && (forall k :: 0 <= k < |walk| - 1 ==> rules[walk[k + 1]].name in rules[walk[k]].allowedDependencies)
    && exists k :: 0 <= k < |walk| && rules[walk[k]].name in rules[walk[|walk| - 1]].allowedDependencies
  }

  ghost predicate LoopsFrom(rules: seq<Rule>, n: string) {
    exists walk :: Loops(rules, walk) && rules[walk[0]].name == n
  }

  ghost predicate Allows(rules: seq<Rule>, i: nat, a: string, b: string) {
    i < |rules| && rules[i].name == a && b in rules[i].allowedDependencies
  }

  lemma Owner(rules: seq<Rule>, a: string, b: string) returns (i: nat)
    requires (a, b) in DependencyEdges(rules)
    ensures Allows(rules, i, a, b)
  {
    var r :| r in rules && r.name == a && b in r.allowedDependencies;
    i :| 0 <= i < |rules| && rules[i] == r;
  }

  lemma EdgeOf(rules: seq<Rule>, i: nat, b: string)
    requires i < |rules| && b in rules[i].allowedDependencies
    ensures (rules[i].name, b) in DependencyEdges(rules)
  {
    assert rules[i] in rules;
  }

  lemma LoopIsCycle(rules: seq<Rule>, walk: seq<nat>)
    requires Loops(rules, walk)
    ensures ReachesCycle(DependencyEdges(rules), rules[walk[0]].name)
  {
    hide DependencyEdges, ReachesCycle;
    var e := DependencyEdges(rules);
    var p := seq(|walk|, k requires 0 <= k < |walk| => rules[walk[k]].name);
    forall i | 0 <= i < |p| - 1 ensures Step(e, p, i) {
      EdgeOf(rules, walk[i], p[i + 1]);
    }
    var k :| 0 <= k < |walk| && rules[walk[k]].name in rules[walk[|walk| - 1]].allowedDependencies;
    EdgeOf(rules, walk[|walk| - 1], p[k]);
    SliceIsPath(e, p, k, |p| - 1);
    var tail := p[k..|p|];
    AppendIsPath(e, tail, p[k]);
    assert PathFrom(e, tail + [p[k]], p[k], p[k]);
    PathReachesCycle(e, p, k);
  }

  lemma PathReachesCycle(e: Edges, p: seq<string>, k: nat)
    requires IsPath(e, p) && k < |p| && Reaches(e, p[k], p[k])
    ensures ReachesCycle(e, p[0])
  {
    if k > 0 {
      SliceIsPath(e, p, 0, k);
      assert PathFrom(e, p[0..k + 1], p[0], p[k]);
    }
  }

  /** The rules of the edges of a path. */
  lemma {:induction false} PathOwners(rules: seq<Rule>, p: seq<string>, n: nat) returns (walk: seq<nat>)
    requires IsPath(DependencyEdges(rules), p) && n < |p|
    ensures |walk| == n && forall i :: 0 <= i < n ==> Allows(rules, walk[i], p[i], p[i + 1])
    decreases n
  {
    hide DependencyEdges, Allows;
    if n == 0 {
      walk := [];
    } else {
      var init := PathOwners(rules, p, n - 1);
      assert Step(DependencyEdges(rules), p, n - 1);
      var i := Owner(rules, p[n - 1], p[n]);
      walk := init + [i];
    }
  }

  /** A path whose last step leads back into it. */
  lemma PathIsLoop(rules: seq<Rule>, p: seq<string>, back: nat)
    requires IsPath(DependencyEdges(rules), p) && |p| >= 2 && back < |p| - 1 && p[|p| - 1] == p[back]
    ensures LoopsFrom(rules, p[0])
  {
    hide DependencyEdges, Loops;
    var walk := PathOwners(rules, p, |p| - 1);
    AllowedIsLoop(rules, p, walk, back);
  }

  lemma AllowedIsLoop(rules: seq<Rule>, p: seq<string>, walk: seq<nat>, back: nat)
    requires walk != [] && |p| == |walk| + 1 && back < |walk| && p[|walk|] == p[back]
    requires forall i :: 0 <= i < |walk| ==> Allows(rules, walk[i], p[i], p[i + 1])
    ensures Loops(rules, walk) && rules[walk[0]].name == p[0]
  {
    forall k | 0 <= k < |walk| ensures walk[k] < |rules| {
      assert Allows(rules, walk[k], p[k], p[k + 1]);
    }
    forall k | 0 <= k < |walk| - 1 ensures rules[walk[k + 1]].name in rules[walk[k]].allowedDependencies {
      assert Allows(rules, walk[k], p[k], p[k + 1]) && Allows(rules, walk[k + 1], p[k + 1], p[k + 2]);
    }
    var last := |walk| - 1;
    assert Allows(rules, walk[last], p[last], p[last + 1]) && Allows(rules, walk[back], p[back], p[back + 1]);
    assert Allows(rules, walk[0], p[0], p[1]);
    assert rules[walk[back]].name in rules[walk[last]].allowedDependencies;
  }

  lemma JoinedIsPath(e: Edges, p: seq<string>, q: seq<string>)
    requires IsPath(e, p) && IsPath(e, q) && p[|p| - 1] == q[0]
    ensures IsPath(e, p + q[1..])
  {
    var all := p + q[1..];
    forall i | 0 <= i < |all| - 1 ensures Step(e, all, i) {
      if i < |p| - 1 {
        assert Step(e, p, i);
      } else {
        assert Step(e, q, i - (|p| - 1));
      }
    }
  }

  lemma CycleIsLoop(rules: seq<Rule>, n: string)
    requires ReachesCycle(DependencyEdges(rules), n)
    ensures LoopsFrom(rules, n)
  {
    hide DependencyEdges, Loops;
    var e := DependencyEdges(rules);
    var v :| Reaches(e, v, v) && (n == v || Reaches(e, n, v));
    var cycle :| PathFrom(e, cycle, v, v);
    if n == v {
      PathIsLoop(rules, cycle, 0);
    } else {
      var p :| PathFrom(e, p, n, v);
      JoinedIsPath(e, p, cycle);
      PathIsLoop(rules, p + cycle[1..], |p| - 1);
    }
  }

  lemma LoopsAreCycles(rules: seq<Rule>)
    ensures forall n :: LoopsFrom(rules, n) <==> ReachesCycle(DependencyEdges(rules), n)
    ensures (exists walk :: Loops(rules, walk)) <==> Cyclic(DependencyEdges(rules))
  {
    hide DependencyEdges, ReachesCycle, Reaches;
    var e := DependencyEdges(rules);
    forall walk | Loops(rules, walk) ensures ReachesCycle(e, rules[walk[0]].name) && Cyclic(e) {
      LoopIsCycle(rules, walk);
      ReachedIsCyclic(e, rules[walk[0]].name);
    }
    forall n | ReachesCycle(e, n) ensures LoopsFrom(rules, n) {
      CycleIsLoop(rules, n);
    }
    if v :| Reaches(e, v, v) {
      OnCycle(e, v);
    }
  }

  lemma ReachedIsCyclic(e: Edges, n: string)
    requires ReachesCycle(e, n)
    ensures Cyclic(e)
  {
  }

  lemma OnCycle(e: Edges, v: string)
    requires Reaches(e, v, v)
    ensures ReachesCycle(e, v)
  {
  }

  lemma UnknownSpelled(rules: seq<Rule>)
    ensures forall d :: d in Unknown(rules) <==>
      && (exists i :: 0 <= i < |rules| && d in rules[i].allowedDependencies)
      && forall j :: 0 <= j < |rules| ==> rules[j].name != d
    ensures Unknown(rules) == {} <==> forall i, d :: 0 <= i < |rules| && d in rules[i].allowedDependencies ==>
      exists j :: 0 <= j < |rules| && rules[j].name == d
  {
    NamesSpelled(rules);
    hide RuleNames;
    forall i, d | 0 <= i < |rules| && d in rules[i].allowedDependencies && d !in RuleNames(rules)
      ensures d in Unknown(rules)
    {
      assert rules[i] in rules;
    }
    forall d | d in Unknown(rules) ensures exists i :: 0 <= i < |rules| && d in rules[i].allowedDependencies {
      var r :| r in rules && d in r.allowedDependencies;
      var i :| 0 <= i < |rules| && rules[i] == r;
      assert d in rules[i].allowedDependencies;
    }
    if Unknown(rules) != {} {
      var d :| d in Unknown(rules);
      var i :| 0 <= i < |rules| && d in rules[i].allowedDependencies;
      assert d !in RuleNames(rules);
    } else {
      forall i, d | 0 <= i < |rules| && d in rules[i].allowedDependencies
        ensures exists j :: 0 <= j < |rules| && rules[j].name == d
      {
        assert d !in Unknown(rules) && d in RuleNames(rules);
      }
    }
  }

  lemma NamesSpelled(rules: seq<Rule>)
    ensures forall d :: d in RuleNames(rules) <==> exists j :: 0 <= j < |rules| && rules[j].name == d
  {
    forall d ensures d in RuleNames(rules) <==> exists j :: 0 <= j < |rules| && rules[j].name == d {
      if j :| 0 <= j < |rules| && rules[j].name == d {
        assert rules[j] in rules;
      }
    }
  }

  lemma ReportSpelled(rules: seq<Rule>, reported: seq<string>)
    requires CycleReport(DependencyEdges(rules), RuleNames(rules), reported)
    ensures forall n :: n in reported <==> LoopsFrom(rules, n)
    ensures forall i, j :: 0 <= i < j < |reported| ==> Precedes(reported[i], reported[j])
  {
    hide LoopsFrom, ReachesCycle, Endless, CycleWithin, DependencyEdges, RuleNames, Precedes;
    LoopsAreCycles(rules);
    NamesSpelled(rules);
    forall n | LoopsFrom(rules, n) ensures n in RuleNames(rules) {
      LoopStarts(rules, n);
    }
    forall i, j | 0 <= i < j < |reported| ensures Precedes(reported[i], reported[j]) {
      BeforeIsPrecedes(reported[i], reported[j]);
    }
  }

  lemma UniqueSpelled(rules: seq<Rule>)
    ensures UniqueNames(rules) <==> forall i, j :: 0 <= i < j < |rules| ==> rules[i].name != rules[j].name
  {
  }

  lemma LoopStarts(rules: seq<Rule>, n: string)
    requires LoopsFrom(rules, n)
    ensures exists j :: 0 <= j < |rules| && rules[j].name == n
  {
  }

  method ValidateOwnershipGraph(ownership: seq<Rule>)
    returns (verdict: Verdict, ghost rounds: nat, ghost rank: map<string, int>)
    ensures verdict == Accepted <==>
      && (forall i, j :: 0 <= i < j < |ownership| ==> ownership[i].name != ownership[j].name)
      && (forall i, d :: 0 <= i < |ownership| && d in ownership[i].allowedDependencies ==>
            exists j :: 0 <= j < |ownership| && ownership[j].name == d)
      && !exists walk :: Loops(ownership, walk)
    ensures verdict == DuplicateNames <==>
      exists i, j :: 0 <= i < j < |ownership| && ownership[i].name == ownership[j].name
    ensures verdict.UnknownDependencies? <==>
      && (forall i, j :: 0 <= i < j < |ownership| ==> ownership[i].name != ownership[j].name)
      && exists i, d :: 0 <= i < |ownership| && d in ownership[i].allowedDependencies &&
           forall j :: 0 <= j < |ownership| ==> ownership[j].name != d
    ensures verdict.UnknownDependencies? ==> forall d :: d in verdict.unknown <==>
      && (exists i :: 0 <= i < |ownership| && d in ownership[i].allowedDependencies)
      && forall j :: 0 <= j < |ownership| ==> ownership[j].name != d
    ensures verdict.DependencyCycle? ==> forall n :: n in verdict.names <==>
      exists walk :: Loops(ownership, walk) && ownership[walk[0]].name == n
    ensures verdict.DependencyCycle? ==>
      forall i, j :: 0 <= i < j < |verdict.names| ==> Precedes(verdict.names[i], verdict.names[j])
    ensures verdict == Accepted <==>
      UniqueNames(ownership) && Unknown(ownership) == {} && !Cyclic(DependencyEdges(ownership))
    ensures verdict == DuplicateNames <==> !UniqueNames(ownership)
    ensures verdict.UnknownDependencies? <==> UniqueNames(ownership) && Unknown(ownership) != {}
    ensures verdict.UnknownDependencies? ==> verdict.unknown == Unknown(ownership)
    ensures verdict.DependencyCycle? ==>
      CycleReport(DependencyEdges(ownership), RuleNames(ownership), verdict.names)
    ensures verdict == Accepted || verdict.DependencyCycle? ==>
      Peeled(DependencyEdges(ownership), RuleNames(ownership), rank, rounds)
    ensures verdict == Accepted ==> rank.Keys == RuleNames(ownership)
    ensures verdict.DependencyCycle? ==> forall n :: n in verdict.names <==> n in RuleNames(ownership) - rank.Keys
    ensures rounds <= |ownership|
  {
    hide UniqueNames, DependencyEdges, Cyclic, CycleReport, InRound, Unknown, RuleNames, Ready, Without, Peeled;
    hide Sorted, Ranked, Loops, Precedes;
    LoopsAreCycles(ownership);
    UnknownSpelled(ownership);
    UniqueSpelled(ownership);
    rounds, rank := 0, map[];
    NamesAreFewer(ownership);
    ghost var e := DependencyEdges(ownership);
    var names := RuleNames(ownership);
    if |names| != |ownership| {
      return DuplicateNames, rounds, rank;
    }
    var unknown := Unknown(ownership);
    if unknown != {} {
      return UnknownDependencies(unknown), rounds, rank;
    }
    var remaining := Dependencies(ownership);
    RoundsBegin(ownership, remaining);
    while remaining != map[]
      invariant InRound(e, names, remaining, rank, rounds)
      invariant rounds + |remaining| <= |ownership|
      decreases |remaining|
    {
      var ready := Ready(remaining);
      if ready == {} {
        var cycle := Sort(remaining.Keys);
        RoundsStop(e, names, remaining, rank, rounds, cycle);
        ReportSpelled(ownership, cycle);
        return DependencyCycle(cycle), rounds, rank;
      }
      RoundOn(e, names, remaining, rank, rounds);
      rank := Ranked(rank, ready, rounds);
      remaining := Without(remaining, ready);
      rounds := rounds + 1;
    }
    RoundsEnd(e, names, rank, rounds);
    return Accepted, rounds, rank;
  }

  /** `{rule.name: set(rule.allowed_dependencies)}`. */
  method Dependencies(rules: seq<Rule>) returns (m: map<string, set<string>>)
    requires UniqueNames(rules)
    ensures m.Keys == RuleNames(rules) && |m| <= |rules|
    ensures forall n, d :: n in m ==> (d in m[n] <==> (n, d) in DependencyEdges(rules))
  {
    m := map[];
    for i := 0 to |rules|
      invariant forall n :: n in m <==> exists j :: 0 <= j < i && rules[j].name == n
      invariant forall j :: 0 <= j < i ==>
        rules[j].name in m && m[rules[j].name] == (set d <- rules[j].allowedDependencies)
      invariant |m| <= i
    {
      var r := rules[i];
      m := m[r.name := set d <- r.allowedDependencies];
    }
    forall n, d | n in m ensures d in m[n] <==> (n, d) in DependencyEdges(rules) {
      var j :| 0 <= j < |rules| && rules[j].name == n;
      if (n, d) in DependencyEdges(rules) {
        var r :| r in rules && r.name == n && d in r.allowedDependencies;
        var k :| 0 <= k < |rules| && rules[k] == r;
        assert forall a, b :: 0 <= a < b < |rules| ==> rules[a].name != rules[b].name;
      }
    }
  }
}
