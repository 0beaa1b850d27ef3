/** What a record of the process table may say: every entry it counts was borne by a process that lived
    meanwhile, and no process that lived throughout escapes it. */
module Sightings {
  import opened OwnedProtocol
  import opened Observations

  /** The explicit candidates, if any. */
  datatype Scope = Scope(pids: seq<nat>, sessions: seq<nat>) {
    predicate Explicit() { pids != [] || sessions != [] }
    predicate Covers(p: Process) { !Explicit() || p.pid in pids || p.session in sessions }
  }

  // ---- what is true of a pid between two tables ----

  /** Instance `i` had the pid and lived at some moment between the two tables. */
  ghost predicate Bearer(start: Table, t: Table, i: nat, pid: nat) {
    i in t && t[i].pid == pid && (i in start ==> start[i].alive)
  }

  /** A process with the pid held the marker, for anyone to read. */
  ghost predicate Held(start: Table, t: Table, pid: nat, marker: string) {
    exists i :: Bearer(start, t, i, pid) && t[i].readable && Owned(t[i], marker)
  }

  ghost predicate Legible(start: Table, t: Table, pid: nat) {
    exists i :: Bearer(start, t, i, pid) && t[i].readable
  }

  ghost predicate Illegible(start: Table, t: Table, pid: nat) {
    exists i :: Bearer(start, t, i, pid) && !t[i].readable
  }

  /** The scope asks for the pid, or for the session of a process that had it. */
  ghost predicate Scoped(start: Table, t: Table, pid: nat, scope: Scope) {
    || !scope.Explicit() || pid in scope.pids
    || exists i :: Bearer(start, t, i, pid) && t[i].session in scope.sessions
  }

  ghost predicate Concerned(start: Table, t: Table, pid: nat, marker: string, scope: Scope) {
    Scoped(start, t, pid, scope) || Held(start, t, pid, marker)
  }

  /** What was true of a pid stays true of it over any longer stretch of time. */
  lemma StillTrue(start: Table, mid: Table, t: Table, u: Table, pid: nat, marker: string, scope: Scope)
    requires Evolved(start, mid) && Evolved(t, u)
    ensures Held(mid, t, pid, marker) ==> Held(start, u, pid, marker)
    ensures Legible(mid, t, pid) ==> Legible(start, u, pid)
    ensures Illegible(mid, t, pid) ==> Illegible(start, u, pid)
    ensures Scoped(mid, t, pid, scope) ==> Scoped(start, u, pid, scope)
    ensures Concerned(mid, t, pid, marker, scope) ==> Concerned(start, u, pid, marker, scope)
  {
    hide Scope.Explicit, Owned;
    forall i | Bearer(mid, t, i, pid) ensures Bearer(start, u, i, pid) && u[i].(alive := t[i].alive) == t[i] {
    }
    forall i | i in t && i in u && u[i].(alive := t[i].alive) == t[i]
      ensures Owned(t[i], marker) ==> Owned(u[i], marker) {
      SameOwned(t[i], u[i], marker);
    }
  }

  lemma SameOwned(p: Process, q: Process, marker: string)
    requires q.(alive := p.alive) == p
    ensures Owned(p, marker) <==> Owned(q, marker)
  {
  }

  // ---- no more than what is there ----

  /** The listed pids are distinct, the owned ones are among those read, none of these is unreadable,
      and each was what it is listed as. */
  ghost predicate Tallied(start: Table, t: Table, marker: string, scope: Scope,
      owned: seq<nat>, unreadable: seq<nat>, read: seq<nat>) {
    && Distinct(owned) && Distinct(unreadable) && Distinct(read)
    && (forall pid :: pid in owned ==> pid in read && Held(start, t, pid, marker))
    && (forall pid :: pid in read ==> pid !in unreadable && Legible(start, t, pid))
    && (forall pid :: pid in read ==> Concerned(start, t, pid, marker, scope))
    && forall pid :: pid in unreadable ==> Illegible(start, t, pid) && Concerned(start, t, pid, marker, scope)
  }

  /** A record is faithful when it tallies, with `read` for the entries it counts as readable. */
  ghost predicate Faithful(start: Table, t: Table, marker: string, scope: Scope, o: Observation, read: seq<nat>) {
    Tallied(start, t, marker, scope, o.owned, o.unreadable, read) && |read| == o.readable
  }

  ghost predicate InScope(start: Table, t: Table, scope: Scope, pids: seq<nat>) {
    forall pid :: pid in pids ==> Scoped(start, t, pid, scope)
  }

  lemma NothingTallied(t: Table, marker: string, scope: Scope)
    ensures Tallied(t, t, marker, scope, [], [], []) && InScope(t, t, scope, [])
  {
  }

  lemma TalliedOn(start: Table, mid: Table, t: Table, u: Table, marker: string, scope: Scope,
      owned: seq<nat>, unreadable: seq<nat>, read: seq<nat>)
    requires Evolved(start, mid) && Evolved(t, u) && Tallied(mid, t, marker, scope, owned, unreadable, read)
    ensures Tallied(start, u, marker, scope, owned, unreadable, read)
  {
    hide Evolved, Distinct, Held, Legible, Illegible, Concerned;
    forall pid {
      StillTrue(start, mid, t, u, pid, marker, scope);
    }
  }

  lemma InScopeOn(start: Table, mid: Table, t: Table, u: Table, scope: Scope, pids: seq<nat>)
    requires Evolved(start, mid) && Evolved(t, u) && InScope(mid, t, scope, pids)
    ensures InScope(start, u, scope, pids)
  {
    hide Evolved, Scoped;
    forall pid | pid in pids ensures Scoped(start, u, pid, scope) {
      StillTrue(start, mid, t, u, pid, "", scope);
    }
  }

  lemma TallyUnreadable(start: Table, t: Table, marker: string, scope: Scope, pid: nat,
      owned: seq<nat>, unreadable: seq<nat>, read: seq<nat>)
    requires Tallied(start, t, marker, scope, owned, unreadable, read) && pid !in read && pid !in unreadable
    requires Illegible(start, t, pid) && Scoped(start, t, pid, scope)
    ensures Tallied(start, t, marker, scope, owned, unreadable + [pid], read)
  {
    hide Distinct, Held, Legible, Illegible, Scoped;
    OneDistinct(pid);
    JoinDistinct(unreadable, [pid]);
  }

  lemma TallyRead(start: Table, t: Table, marker: string, scope: Scope, pid: nat,
      owned: seq<nat>, unreadable: seq<nat>, read: seq<nat>)
    requires Tallied(start, t, marker, scope, owned, unreadable, read) && pid !in read && pid !in unreadable
    requires Legible(start, t, pid) && Concerned(start, t, pid, marker, scope)
    ensures Tallied(start, t, marker, scope, owned, unreadable, read + [pid])
  {
    hide Distinct, Held, Legible, Illegible, Concerned;
    OneDistinct(pid);
    JoinDistinct(read, [pid]);
  }

  lemma TallyOwned(start: Table, t: Table, marker: string, scope: Scope, pid: nat,
      owned: seq<nat>, unreadable: seq<nat>, read: seq<nat>)
    requires Tallied(start, t, marker, scope, owned, unreadable, read) && pid !in read && pid !in unreadable
    requires Held(start, t, pid, marker)
    ensures Tallied(start, t, marker, scope, owned + [pid], unreadable, read + [pid])
  {
    TallyRead(start, t, marker, scope, pid, owned, unreadable, read);
    hide Distinct, Held, Legible, Illegible, Concerned;
    OneDistinct(pid);
    JoinDistinct(owned, [pid]);
  }

  lemma OneDistinct(pid: nat)
    ensures Distinct([pid])
  {
  }

  /** Sorting the lists changes nothing. */
  lemma TalliedSorted(start: Table, t: Table, marker: string, scope: Scope,
      owned: seq<nat>, unreadable: seq<nat>, read: seq<nat>)
    requires Tallied(start, t, marker, scope, owned, unreadable, read)
    ensures Tallied(start, t, marker, scope, Sorted(owned), Sorted(unreadable), read)
  {
    SortedHolds(owned);
    SortedHolds(unreadable);
    hide Distinct, Held, Legible, Illegible, Concerned, Sorted;
  }

  /** Owned pids that turn out unreadable leave the owned and the readable entries. */
  lemma TalliedRefined(start: Table, t: Table, marker: string, scope: Scope, o: Observation, read: seq<nat>,
      pids: seq<nat>)
    requires Faithful(start, t, marker, scope, o, read) && o.Accounts() && o.Proper()
    requires Distinct(pids) && forall pid :: pid in pids ==> pid in o.owned && Illegible(start, t, pid)
    ensures pids != [] ==> Faithful(start, t, marker, scope, o.WithCandidateUnreadable(pids), Without(read, pids))
  {
    hide Distinct, Held, Legible, Illegible, Concerned, Without, Observation.WithCandidateUnreadable;
    if pids != [] {
      SignalRefinement(o, pids);
      WithoutHolds(read, pids);
      RefinedReadable(o, read, pids);
      var r := o.WithCandidateUnreadable(pids);
      TalliedMoved(start, t, marker, scope, o.owned, o.unreadable, read, pids, r.owned, r.unreadable,
        Without(read, pids));
    }
  }

  lemma TalliedMoved(start: Table, t: Table, marker: string, scope: Scope,
      owned: seq<nat>, unreadable: seq<nat>, read: seq<nat>, pids: seq<nat>,
      stillOwned: seq<nat>, nowUnreadable: seq<nat>, stillRead: seq<nat>)
    requires Tallied(start, t, marker, scope, owned, unreadable, read)
    requires forall pid :: pid in pids ==> pid in owned && Illegible(start, t, pid)
    requires Distinct(stillOwned) && Distinct(nowUnreadable) && Distinct(stillRead)
    requires forall pid :: pid in stillOwned <==> pid in owned && pid !in pids
    requires forall pid :: pid in nowUnreadable <==> pid in unreadable || pid in pids
    requires forall pid :: pid in stillRead <==> pid in read && pid !in pids
    ensures Tallied(start, t, marker, scope, stillOwned, nowUnreadable, stillRead)
  {
    hide Distinct, Held, Legible, Illegible, Scoped;
  }

  lemma RefinedReadable(o: Observation, read: seq<nat>, pids: seq<nat>)
    requires o.Proper() && Distinct(read) && |read| == o.readable && Distinct(pids)
    requires forall pid :: pid in pids ==> pid in o.owned && pid in read
    ensures o.WithCandidateUnreadable(pids).readable == |Without(read, pids)|
  {
    FewerOwned(read, pids);
    SameWithout(pids, o.unreadable, []);
    WithoutNothing(pids);
  }

  // ---- no less than what is there ----

  /** Still alive, instance `i` is recorded: owned if it holds the marker, unreadable if it is a candidate
      that is, and among those read if it is legible and either of these. */
  ghost predicate Seen(t: Table, i: nat, marker: string, scope: Scope,
      owned: seq<nat>, unreadable: seq<nat>, read: seq<nat>) {
    i in t && t[i].alive ==>
      && (t[i].readable && Owned(t[i], marker) ==> t[i].pid in owned)
      && (!t[i].readable && scope.Covers(t[i]) ==> t[i].pid in unreadable)
      && (t[i].readable && (scope.Covers(t[i]) || Owned(t[i], marker)) ==> t[i].pid in read)
  }

  ghost predicate AllSeen(start: Table, t: Table, marker: string, scope: Scope, o: Observation, read: seq<nat>) {
    forall i :: i in start ==> Seen(t, i, marker, scope, o.owned, o.unreadable, read)
  }

  /** Of the processes there at the start, none that still lives holds the marker, and none in scope is unreadable. */
  ghost predicate Gone(start: Table, t: Table, marker: string, scope: Scope) {
    forall i :: i in start && i in t && t[i].alive ==>
      if t[i].readable then !Owned(t[i], marker) else !scope.Covers(t[i])
  }

  ghost predicate AbsentMeansGone(start: Table, t: Table, marker: string, scope: Scope, o: Observation) {
    !o.IsUnknown() && o.owned == [] ==> Gone(start, t, marker, scope)
  }

  lemma SeenSince(start: Table, before: Table, t: Table, marker: string, scope: Scope, o: Observation, read: seq<nat>)
    requires Evolved(start, before) && AllSeen(before, t, marker, scope, o, read) && o.Proper()
    ensures AbsentMeansGone(start, t, marker, scope, o)
  {
    if !o.IsUnknown() && o.owned == [] {
      forall i | i in start && i in t && t[i].alive
        ensures if t[i].readable then !Owned(t[i], marker) else !scope.Covers(t[i]) {
        assert Seen(t, i, marker, scope, o.owned, o.unreadable, read);
      }
    }
  }

  lemma GoneSince(start: Table, before: Table, t: Table, marker: string, scope: Scope, o: Observation)
    requires Evolved(start, before) && AbsentMeansGone(before, t, marker, scope, o)
    ensures AbsentMeansGone(start, t, marker, scope, o)
  {
  }
}
