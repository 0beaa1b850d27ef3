/** What one pass over the process table counts, and the record that accounts for it. */
module Observations {
  // ---- sorted tuples of pids ----

  function Insert(x: nat, s: seq<nat>): (r: seq<nat>)
    ensures |r| == |s| + 1
  {
    if s == [] || x <= s[0] then [x] + s else [s[0]] + Insert(x, s[1..])
  }

  function Sorted(s: seq<nat>): (r: seq<nat>)
    ensures |r| == |s|
  {
    if s == [] then [] else Insert(s[0], Sorted(s[1..]))
  }

  ghost predicate Ascending(s: seq<nat>) { forall i, j :: 0 <= i < j < |s| ==> s[i] <= s[j] }

  ghost predicate Distinct(s: seq<nat>) { forall i, j :: 0 <= i < j < |s| ==> s[i] != s[j] }

  lemma {:induction false} InsertMembers(x: nat, s: seq<nat>)
    ensures multiset(Insert(x, s)) == multiset(s) + multiset{x}
    decreases |s|
  {
    if s != [] && x > s[0] {
      InsertMembers(x, s[1..]);
      assert s == [s[0]] + s[1..];
    }
  }

  lemma {:induction false} InsertAscends(x: nat, s: seq<nat>)
    requires Ascending(s)
    ensures Ascending(Insert(x, s))
    decreases |s|
  {
    if s != [] && x > s[0] {
      InsertAscends(x, s[1..]);
      InsertMembers(x, s[1..]);
      AscendingCons(s[0], x, s[1..], Insert(x, s[1..]));
    }
  }

  lemma AscendingCons(head: nat, x: nat, tail: seq<nat>, rest: seq<nat>)
    requires Ascending(rest) && multiset(rest) == multiset(tail) + multiset{x}
    requires head <= x && forall i :: 0 <= i < |tail| ==> head <= tail[i]
    ensures Ascending([head] + rest)
  {
    forall i | 0 <= i < |rest| ensures head <= rest[i] {
      assert rest[i] in multiset(rest);
    }
  }

  lemma {:induction false} SortedMembers(s: seq<nat>)
    ensures multiset(Sorted(s)) == multiset(s)
    decreases |s|
  {
    if s != [] {
      SortedMembers(s[1..]);
      InsertMembers(s[0], Sorted(s[1..]));
      assert s == [s[0]] + s[1..];
    }
  }

  lemma {:induction false} SortedAscends(s: seq<nat>)
    ensures Ascending(Sorted(s))
    decreases |s|
  {
    hide Insert;
    if s != [] {
      SortedAscends(s[1..]);
      InsertAscends(s[0], Sorted(s[1..]));
    }
  }

  lemma SortedHolds(s: seq<nat>)
    ensures Ascending(Sorted(s)) && multiset(Sorted(s)) == multiset(s)
    ensures forall x :: x in Sorted(s) <==> x in s
    ensures Distinct(s) ==> Distinct(Sorted(s))
  {
    hide Sorted, Ascending, Distinct;
    SortedAscends(s);
    SortedMembers(s);
    forall x ensures x in Sorted(s) <==> x in s {
      assert x in multiset(Sorted(s)) <==> x in multiset(s);
    }
    if Distinct(s) {
      SameMultisetDistinct(s, Sorted(s));
    }
  }

  lemma SameMultisetDistinct(s: seq<nat>, t: seq<nat>)
    requires multiset(s) == multiset(t) && Distinct(s)
    ensures Distinct(t)
  {
    forall i, j | 0 <= i < j < |t| ensures t[i] != t[j] {
      if t[i] == t[j] {
        CountTwice(t, i, j);
        CountOnce(s, t[i]);
      }
    }
  }

  lemma CountTwice(t: seq<nat>, i: nat, j: nat)
    requires i < j < |t| && t[i] == t[j]
    ensures multiset(t)[t[i]] >= 2
  {
    assert t == t[..i] + [t[i]] + t[i + 1..j] + [t[j]] + t[j + 1..];
  }

  lemma {:induction false} CountOnce(s: seq<nat>, x: nat)
    requires Distinct(s)
    ensures multiset(s)[x] <= 1
    decreases |s|
  {
    if s != [] {
      CountOnce(s[1..], x);
      assert s == [s[0]] + s[1..];
      if x == s[0] {
        assert x !in s[1..];
      }
    }
  }

  /** The elements of `s` outside `t`, in order. */
  function Without(s: seq<nat>, t: seq<nat>): seq<nat> {
    if s == [] then [] else (if s[0] in t then [] else [s[0]]) + Without(s[1..], t)
  }

  lemma {:induction false} WithoutHolds(s: seq<nat>, t: seq<nat>)
    ensures forall x :: x in Without(s, t) <==> x in s && x !in t
    ensures |Without(s, t)| <= |s| && (Distinct(s) ==> Distinct(Without(s, t)))
    decreases |s|
  {
    if s != [] {
      WithoutHolds(s[1..], t);
    }
  }

  // ---- the record ----

  datatype Observation = Observation(
    scanned: nat, readable: nat, unreadable: seq<nat>, candidateUnreadable: seq<nat>, owned: seq<nat>)
  {
    predicate IsUnknown() { candidateUnreadable != [] }

    /** Owned processes whose environment turned out unreadable count as unreadable after all. */
    function WithCandidateUnreadable(pids: seq<nat>): Observation {
      var newly := Without(pids, unreadable);
      Observation(
        scanned,
        if readable >= |newly| then readable - |newly| else 0,
        Sorted(unreadable + newly),
        Sorted(candidateUnreadable + pids),
        Without(owned, pids))
    }

    /** Every scanned entry is readable or unreadable, and no more are owned than were read. */
    ghost predicate Accounts() {
      scanned == readable + |unreadable| && |owned| <= readable
    }

    /** No pid is counted twice, or as both owned and unreadable. */
    ghost predicate Proper() {
      && Distinct(owned) && Distinct(unreadable) && Ascending(owned) && Ascending(unreadable)
      && candidateUnreadable == unreadable && forall pid :: pid in owned ==> pid !in unreadable
    }
  }

  /** The refinement keeps the denominator exactly when it moves no more entries than were readable. */
  lemma RefinementAccounts(o: Observation, pids: seq<nat>)
    requires o.scanned == o.readable + |o.unreadable|
    ensures var r := o.WithCandidateUnreadable(pids);
      r.scanned == r.readable + |r.unreadable| <==> |Without(pids, o.unreadable)| <= o.readable
  {
  }

  lemma SomeMember(s: seq<nat>)
    requires s != []
    ensures exists x :: x in s
  {
    assert s[0] in s;
  }

  lemma {:induction false} FewerOwned(owned: seq<nat>, pids: seq<nat>)
    requires Distinct(owned) && Distinct(pids) && forall pid :: pid in pids ==> pid in owned
    ensures |Without(owned, pids)| + |pids| == |owned|
    decreases |owned|
  {
    if owned == [] {
      if pids != [] {
        SomeMember(pids);
      }
    } else {
      var head, tail := owned[0], owned[1..];
      assert head !in tail;
      if head in pids {
        var i :| 0 <= i < |pids| && pids[i] == head;
        var rest := pids[..i] + pids[i + 1..];
        assert forall x :: x in rest <==> x in pids && x != head;
        FewerOwned(tail, rest);
        SameWithout(tail, pids, rest);
      } else {
        assert forall x :: x in pids ==> x in tail;
        FewerOwned(tail, pids);
      }
    }
  }

  lemma {:induction false} SameWithout(s: seq<nat>, t: seq<nat>, u: seq<nat>)
    requires forall x :: x in s ==> (x in t <==> x in u)
    ensures Without(s, t) == Without(s, u)
    decreases |s|
  {
    if s != [] {
      SameWithout(s[1..], t, u);
    }
  }

  /** In the signalling loop the unreadable pids are among the owned ones, so the refined record
      still accounts for every entry, names each of them as unreadable, and is unknown. */
  lemma SignalRefinement(o: Observation, pids: seq<nat>)
    requires o.Accounts() && o.Proper() && Distinct(pids) && pids != [] && forall pid :: pid in pids ==> pid in o.owned
    ensures var r := o.WithCandidateUnreadable(pids);
      && r.Accounts() && r.Proper() && r.IsUnknown() && r.scanned == o.scanned
      && (forall pid :: pid in r.unreadable <==> pid in o.unreadable || pid in pids)
      && forall pid :: pid in r.owned <==> pid in o.owned && pid !in pids
  {
    var newly := Without(pids, o.unreadable);
    SameWithout(pids, o.unreadable, []);
    WithoutNothing(pids);
    assert newly == pids;
    WithoutHolds(o.owned, pids);
    FewerOwned(o.owned, pids);
    JoinDistinct(o.unreadable, pids);
    SortedHolds(o.unreadable + pids);
    WithoutAscends(o.owned, pids);
    assert pids[0] in o.unreadable + pids;
  }

  lemma {:induction false} WithoutNothing(s: seq<nat>)
    ensures Without(s, []) == s
    decreases |s|
  {
    if s != [] {
      WithoutNothing(s[1..]);
    }
  }

  lemma JoinDistinct(s: seq<nat>, t: seq<nat>)
    requires Distinct(s) && Distinct(t) && forall x :: x in t ==> x !in s
    ensures Distinct(s + t)
  {
    var all := s + t;
    forall i, j | 0 <= i < j < |all| ensures all[i] != all[j] {
      if i < |s| <= j {
        assert all[j] == t[j - |s|] && all[j] in t;
      }
    }
  }

  lemma {:induction false} WithoutAscends(s: seq<nat>, t: seq<nat>)
    requires Ascending(s)
    ensures Ascending(Without(s, t))
    decreases |s|
  {
    if s != [] {
      WithoutAscends(s[1..], t);
      WithoutHolds(s[1..], t);
      var rest := Without(s[1..], t);
      forall i | 0 <= i < |rest| ensures s[0] <= rest[i] {
        assert rest[i] in rest && rest[i] in s[1..];
      }
    }
  }
}
