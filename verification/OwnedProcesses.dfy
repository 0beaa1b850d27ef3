/** Terminating every process that carries the marker: observe, signal through pidfds, wait, and
    report, while other processes run before every step. */
module OwnedProcesses {
  import opened OwnedProtocol
  import opened Observations
  import opened Sightings
  import opened Wrappers

  datatype Signal = Term | Kill
  datatype EntryState = IsOwned | NotOwned | Unreadable | Vanished
  datatype Outcome = Graceful | Survived | Killed | Unknown
  datatype Termination = Termination(outcome: Outcome, observation: Observation)

  const POLL: real := 0.02

  function StateOf(p: Process, marker: string): EntryState {
    if !p.readable then Unreadable else if Owned(p, marker) then IsOwned else NotOwned
  }

  class ProcessTable {
    const marker: string
    /** What the other processes do before each step of this one. */
    const others: nat -> seq<Event>
    var procs: Table
    var delivered: seq<(nat, Signal)>
    var steps: nat
    var clock: real

    constructor (marker: string, others: nat -> seq<Event>, procs: Table)
      requires LivePidsUnique(procs)
      ensures Valid() && this.marker == marker && this.procs == procs && delivered == []
    {
      this.marker := marker;
      this.others := others;
      this.procs := procs;
      delivered := [];
      steps := 0;
      clock := 0.0;
    }

    ghost predicate Valid()
      reads this
    {
      LivePidsUnique(procs)
    }

    /** Time passes for everybody else. */
    method Others()
      requires Valid()
      modifies this`procs, this`steps
      ensures Valid() && Evolved(old(procs), procs)
    {
      hide LivePidsUnique, Evolved, Happens;
      var events := others(steps);
      steps := steps + 1;
      SameEvolved(procs);
      for i := 0 to |events|
        invariant Valid() && Evolved(old(procs), procs)
      {
        HappensEvolves(procs, events[i]);
        EvolvedThrough(old(procs), procs, Happens(procs, events[i]));
        procs := Happens(procs, events[i]);
      }
    }

    /** The live instance that has the pid now, if any. */
    method Find(pid: nat) returns (i: Option<nat>)
      requires Valid()
      ensures i.Some? ==> LiveAt(procs, i.value, pid)
      ensures i == None ==> forall j :: !LiveAt(procs, j, pid)
    {
      var found := set j <- procs | LiveAt(procs, j, pid);
      if found == {} {
        assert forall j :: LiveAt(procs, j, pid) ==> j in found;
        return None;
      }
      var j :| j in found;
      return Some(j);
    }

    method OpenPidfd(pid: nat) returns (fd: Option<nat>)
      requires Valid()
      modifies this`procs, this`steps
      ensures Valid() && Evolved(old(procs), procs)
      ensures fd.Some? ==> LiveAt(procs, fd.value, pid)
      ensures fd == None ==> forall j :: !LiveAt(procs, j, pid)
    {
      Others();
      fd := Find(pid);
    }

    method ReadEntry(pid: nat) returns (state: EntryState)
      requires Valid()
      modifies this`procs, this`steps
      ensures Valid() && Evolved(old(procs), procs)
      ensures forall j :: LiveAt(procs, j, pid) ==> state == StateOf(procs[j], marker)
      ensures (forall j :: !LiveAt(procs, j, pid)) ==> state == Vanished
    {
      Others();
      var i := Find(pid);
      state := if i == None then Vanished else StateOf(procs[i.value], marker);
    }

    /** What a state that was read says of the pid. */
    lemma StateMeans(start: Table, pid: nat, state: EntryState)
      requires Evolved(start, procs)
      requires forall j :: LiveAt(procs, j, pid) ==> state == StateOf(procs[j], marker)
      requires (forall j :: !LiveAt(procs, j, pid)) ==> state == Vanished
      ensures state == IsOwned ==> Held(start, procs, pid, marker)
      ensures state in {IsOwned, NotOwned} ==> Legible(start, procs, pid)
      ensures state == Unreadable ==> Illegible(start, procs, pid)
    {
      if j :| LiveAt(procs, j, pid) {
        assert Bearer(start, procs, j, pid);
      }
    }

    method IsCandidate(scope: Scope, pid: nat) returns (candidate: bool)
      requires Valid()
      modifies this`procs, this`steps
      ensures Valid() && Evolved(old(procs), procs)
      ensures forall j :: LiveAt(procs, j, pid) ==> (candidate <==> scope.Covers(procs[j]))
      ensures candidate ==> Scoped(old(procs), procs, pid, scope)
    {
      if !scope.Explicit() || pid in scope.pids {
        SameEvolved(procs);
        return true;
      }
      if scope.sessions == [] {
        SameEvolved(procs);
        return false;
      }
      Others();
      var i := Find(pid);
      candidate := i.Some? && procs[i.value].session in scope.sessions;
      assert candidate ==> Bearer(old(procs), procs, i.value, pid);
    }

    method SendSignal(fd: nat, signal: Signal)
      requires Valid() && fd in procs
      modifies this`procs, this`steps, this`delivered
      ensures Valid() && Evolved(old(procs), procs) && fd in procs
      ensures delivered == if procs[fd].alive then old(delivered) + [(fd, signal)] else old(delivered)
    {
      Others();
      if procs[fd].alive {
        delivered := delivered + [(fd, signal)];
      }
    }

    /** One pid: open, read again, signal. */
    method SignalOne(pid: nat, signal: Signal) returns (unreadable: bool)
      requires Valid()
      modifies this`procs, this`steps, this`delivered
      ensures Valid() && Evolved(old(procs), procs) && old(delivered) <= delivered
      ensures OnlyOwnedSince(delivered, procs, marker, |old(delivered)|, signal)
      ensures OneReached(old(procs), procs, pid, marker, delivered, |old(delivered)|, signal)
      ensures OneUnreadable(old(procs), procs, pid, unreadable)
      ensures unreadable ==> Illegible(old(procs), procs, pid)
    {
      hide LivePidsUnique, Evolved, Held, Legible, Illegible, OneReached, OneUnreadable;
      var fd := OpenPidfd(pid);
      ghost var atOpen := procs;
      if fd == None {
        NobodyThere(old(procs), procs, pid, marker, delivered, |delivered|, signal);
        return false;
      }
      var state := ReadEntry(pid);
      ghost var atRead := procs;
      StillEvolved(old(procs), atOpen, atRead);
      StateMeans(old(procs), pid, state);
      SameLater(atOpen, atRead, fd.value, pid);
      if state != IsOwned {
        OnlyOne(old(procs), atOpen, procs, fd.value, pid, marker, delivered, |delivered|, signal, state == Unreadable);
        return state == Unreadable;
      }
      SendSignal(fd.value, signal);
      StillEvolved(atOpen, atRead, procs);
      StillEvolved(old(procs), atOpen, procs);
      SameLater(atRead, procs, fd.value, pid);
      assert procs[fd.value].alive ==> delivered[|old(delivered)|] == (fd.value, signal);
      OnlyOne(old(procs), atOpen, procs, fd.value, pid, marker, delivered, |old(delivered)|, signal, false);
      return false;
    }

    /** Signal each pid in turn; the pids whose environment could not be read are returned sorted. */
    method SignalOwned(pids: seq<nat>, signal: Signal) returns (unreadable: seq<nat>)
      requires Valid()
      modifies this`procs, this`steps, this`delivered
      ensures Valid() && Evolved(old(procs), procs) && old(delivered) <= delivered
      ensures OnlyOwnedSince(delivered, procs, marker, |old(delivered)|, signal)
      ensures AllReached(old(procs), procs, pids, marker, delivered, |old(delivered)|, signal)
      ensures ExactlyUnreadable(old(procs), procs, pids, unreadable)
      ensures AllIllegible(old(procs), procs, unreadable)
      ensures (forall pid :: pid in unreadable ==> pid in pids) && (Distinct(pids) ==> Distinct(unreadable))
    {
      hide LivePidsUnique, Evolved, LiveAt, Owned, OnlyOwnedSince, AllReached, OneReached, Reached, Distinct;
      hide ExactlyUnreadable, OneUnreadable, AllIllegible, Illegible;
      var found := [];
      SameEvolved(procs);
      NothingYet(procs, marker, delivered, signal);
      NoneDistinct();
      assert pids[..0] == [];
      for k := 0 to |pids|
        invariant Valid() && Evolved(old(procs), procs) && old(delivered) <= delivered
        invariant OnlyOwnedSince(delivered, procs, marker, |old(delivered)|, signal)
        invariant AllReached(old(procs), procs, pids[..k], marker, delivered, |old(delivered)|, signal)
        invariant ExactlyUnreadable(old(procs), procs, pids[..k], found) && AllIllegible(old(procs), procs, found)
        invariant (forall pid :: pid in found ==> pid in pids[..k]) && (Distinct(pids) ==> Distinct(found))
      {
        ghost var mid, before, was := procs, delivered, found;
        var unread := SignalOne(pids[k], signal);
        assert pids[..k + 1] == pids[..k] + [pids[k]];
        StillEvolved(old(procs), mid, procs);
        OnlyOwnedOn(before, delivered, mid, procs, marker, |old(delivered)|, signal);
        AllReachedOn(old(procs), mid, procs, pids[..k], pids[k], marker, before, delivered, |old(delivered)|, signal);
        if unread {
          if Distinct(pids) {
            NotBefore(pids, k);
            JoinDistinct(found, [pids[k]]);
          }
          found := found + [pids[k]];
        }
        UnreadableOn(old(procs), mid, procs, pids[..k], pids[k], was, found, unread);
      }
      assert pids[..|pids|] == pids;
      SortedHolds(found);
      unreadable := Sorted(found);
      SameUnreadable(old(procs), procs, pids, found, unreadable);
    }

    /** One pass over the table.  The listing holds every pid alive when it begins, in any order, and
        perhaps others.  `read` is the entries counted as readable. */
    method Observe(scope: Scope, newcomers: set<nat>) returns (o: Observation, ghost read: seq<nat>)
      requires Valid()
      modifies this`procs, this`steps
      ensures Valid() && Evolved(old(procs), procs)
      ensures o.Accounts() && o.Proper()
      ensures AllSeen(old(procs), procs, marker, scope, o, read)
      ensures Faithful(old(procs), procs, marker, scope, o, read)
      ensures InScope(old(procs), procs, scope, o.unreadable)
    {
      hide LivePidsUnique, Evolved, LiveAt, Owned, Held, Legible, Illegible, Scoped;
      hide Scanned, Observation.Accounts, Observation.Proper, AllSeen, Faithful, InScope;
      Others();
      ghost var start := procs;
      var listing := set i <- procs | procs[i].alive :: procs[i].pid;
      var remaining := listing + newcomers;
      var scanned, readable := 0, 0;
      var owned, unreadable := [], [];
      read := [];
      NothingScanned(procs, marker, scope, remaining);
      while remaining != {}
        invariant Valid() && Evolved(start, procs)
        invariant scanned == readable + |unreadable| && |owned| <= readable == |read|
        invariant Scanned(start, procs, marker, scope, remaining, owned, unreadable, read)
        decreases remaining
      {
        var pid :| pid in remaining;
        ghost var mid, left, ownedBefore, unreadableBefore, readBefore := procs, remaining, owned, unreadable, read;
        var candidate := IsCandidate(scope, pid);
        ghost var asked := procs;
        var state := ReadEntry(pid);
        remaining := remaining - {pid};
        if state != Vanished && (candidate || state == IsOwned) {
          scanned := scanned + 1;
          if state == Unreadable {
            unreadable := unreadable + [pid];
          } else {
            readable := readable + 1;
            read := read + [pid];
            if state == IsOwned {
              owned := owned + [pid];
            }
          }
        }
        StillEvolved(mid, asked, procs);
        PidTold(start, mid, asked, pid, scope, candidate, state);
        ScannedOn(start, mid, asked, procs, left, pid, marker, scope, candidate, state, ownedBefore,
          unreadableBefore, readBefore, owned, unreadable, read);
        StillEvolved(start, mid, procs);
      }
      StillEvolved(old(procs), start, procs);
      o := Observation(scanned, readable, Sorted(unreadable), Sorted(unreadable), Sorted(owned));
      Concluded(old(procs), start, procs, marker, scope, owned, unreadable, read, o);
    }

    /** What asking for the scope and reading the environment say of the pid. */
    lemma PidTold(start: Table, mid: Table, asked: Table, pid: nat, scope: Scope, candidate: bool, state: EntryState)
      requires Evolved(start, mid) && Evolved(mid, asked) && Evolved(asked, procs)
      requires candidate ==> Scoped(mid, asked, pid, scope)
      requires forall j :: LiveAt(procs, j, pid) ==> state == StateOf(procs[j], marker)
      requires (forall j :: !LiveAt(procs, j, pid)) ==> state == Vanished
      ensures Told(start, procs, pid, marker, scope, candidate, state)
    {
      hide Evolved, LiveAt, StateOf, Held, Legible, Illegible, Scoped;
      StillTrue(start, mid, asked, procs, pid, marker, scope);
      StillEvolved(start, mid, asked);
      StillEvolved(start, asked, procs);
      StateMeans(start, pid, state);
    }

    /** Signal and look again until nothing is owned, something is unknown, or the grace is over. */
    method SignalUntilAbsent(signal: Signal, grace: real, scope: Scope, newcomers: set<nat>)
      returns (o: Observation, ghost rounds: nat, ghost read: seq<nat>)
      requires Valid() && grace >= 0.0
      modifies this`procs, this`steps, this`delivered, this`clock
      ensures Valid() && Evolved(old(procs), procs) && old(delivered) <= delivered
      ensures OnlyOwnedSince(delivered, procs, marker, |old(delivered)|, signal)
      ensures o.Accounts() && o.Proper()
      ensures Faithful(old(procs), procs, marker, scope, o, read)
      ensures AbsentMeansGone(old(procs), procs, marker, scope, o)
      ensures PresentMeansSent(old(procs), procs, marker, o, delivered, |old(delivered)|, signal)
      ensures rounds >= 1
      ensures clock == old(clock) + if 0.02 * (rounds - 1) as real < grace then 0.02 * (rounds - 1) as real else grace
      ensures rounds >= 2 ==> 0.02 * (rounds - 2) as real < grace
      ensures !o.IsUnknown() && o.owned != [] ==> clock == old(clock) + grace
      ensures old(clock) <= clock <= old(clock) + grace && rounds <= Rounds(grace) + 1
    {
      hide LivePidsUnique, Evolved, OnlyOwnedSince, AllSeen, AbsentMeansGone, Faithful, AllReached, AllSent;
      hide Observation.Accounts, Observation.Proper, Observation.WithCandidateUnreadable, ExactlyUnreadable;
      hide AllIllegible, InScope, Distinct, Slept;
      var deadline := clock + grace;
      NoSleepYet(grace);
      SleptIsSpelled(0, grace);
      rounds := 0;
      SameEvolved(procs);
      NothingYet(procs, marker, delivered, signal);
      while true
        invariant Valid() && Evolved(old(procs), procs) && old(delivered) <= delivered
        invariant OnlyOwnedSince(delivered, procs, marker, |old(delivered)|, signal)
        invariant clock == old(clock) + Slept(rounds, grace) && (rounds >= 1 ==> Slept(rounds - 1, grace) < grace)
        invariant SleptSpelled(rounds, grace)
        invariant old(clock) <= clock <= deadline && rounds + Rounds(deadline - clock) <= Rounds(grace)
        decreases Rounds(deadline - clock)
      {
        ghost var before, sent := procs, delivered;
        o, read := Observe(scope, newcomers);
        ghost var seen := procs;
        Since(old(procs), before, seen, marker, scope, o, read);
        SameSent(sent, before, seen, marker, |old(delivered)|, signal);
        rounds := rounds + 1;
        SleptIsSpelled(rounds, grace);
        if o.IsUnknown() || o.owned == [] {
          return;
        }
        var unreadable := SignalOwned(o.owned, signal);
        StillEvolved(old(procs), seen, procs);
        OnlyOwnedOn(sent, delivered, seen, procs, marker, |old(delivered)|, signal);
        if unreadable != [] {
          Refined(old(procs), seen, procs, marker, scope, o, read, unreadable);
          o, read := o.WithCandidateUnreadable(unreadable), Without(read, unreadable);
          return;
        }
        SentToAll(old(procs), before, seen, procs, marker, scope, o, read, delivered, |old(delivered)|, |sent|, signal);
        var remaining := deadline - clock;
        ghost var signalled := procs;
        if remaining <= 0.0 {
          o, read := Observe(scope, newcomers);
          Since(old(procs), signalled, procs, marker, scope, o, read);
          SameSent(delivered, signalled, procs, marker, |old(delivered)|, signal);
          AllSentOn(old(procs), old(procs), signalled, procs, marker, delivered, delivered, |old(delivered)|, signal);
          return;
        }
        RoundsDrop(remaining);
        SleptOn(rounds - 1, grace);
        clock := clock + if POLL < remaining then POLL else remaining;
        Others();
        StillEvolved(old(procs), signalled, procs);
        SameSent(delivered, signalled, procs, marker, |old(delivered)|, signal);
      }
    }

    /** The whole cleanup: terminate, then kill, then say what is left.  Refused when a grace period is
        negative or a candidate id is zero. */
    method Terminate(termGrace: real, killGrace: real, scope: Scope, newcomers: set<nat>)
      returns (r: Option<Termination>, ghost read: seq<nat>)
      requires Valid()
      modifies this`procs, this`steps, this`delivered, this`clock
      ensures Valid() && Evolved(old(procs), procs) && old(delivered) <= delivered
      ensures r == None <==> termGrace < 0.0 || killGrace < 0.0 || 0 in scope.pids || 0 in scope.sessions
      ensures r == None ==> procs == old(procs) && delivered == old(delivered)
      ensures r.Some? ==> r.value.observation.Accounts() && r.value.observation.Proper()
      ensures r.Some? ==> Faithful(old(procs), procs, marker, scope, r.value.observation, read)
      ensures r.Some? ==> (r.value.outcome == Unknown <==> r.value.observation.candidateUnreadable != [])
      ensures r.Some? ==> (r.value.outcome == Survived <==>
        r.value.observation.candidateUnreadable == [] && r.value.observation.owned != [])
      ensures r.Some? && r.value.outcome in {Graceful, Killed} ==> Gone(old(procs), procs, marker, scope)
      ensures TermOnly(delivered, procs, marker, |old(delivered)|)
        || Escalated(old(procs), procs, marker, delivered, |old(delivered)|)
      ensures r.Some? && r.value.outcome == Graceful ==> TermOnly(delivered, procs, marker, |old(delivered)|)
      ensures r.Some? && r.value.outcome in {Killed, Survived} ==>
        Escalated(old(procs), procs, marker, delivered, |old(delivered)|)
      ensures r.Some? && r.value.outcome == Survived ==>
        && AllSent(old(procs), procs, marker, delivered, |old(delivered)|, Term)
        && AllSent(old(procs), procs, marker, delivered, |old(delivered)|, Kill)
      ensures r.Some? ==> clock <= old(clock) + termGrace + killGrace
      ensures r.Some? && r.value.outcome == Graceful ==> clock <= old(clock) + termGrace
      ensures r.Some? && r.value.outcome in {Killed, Survived} ==> clock >= old(clock) + termGrace
      ensures r.Some? && r.value.outcome == Survived ==> clock == old(clock) + termGrace + killGrace
    {
      hide LivePidsUnique, Evolved, Observation.Accounts, Observation.Proper, AllSeen, Gone, Faithful, AllSent;
      hide OnlyOwnedSince, Escalated, InScope;
      SameEvolved(procs);
      NothingYet(procs, marker, delivered, Term);
      read := [];
      if termGrace < 0.0 || killGrace < 0.0 || 0 in scope.pids || 0 in scope.sessions {
        return None, read;
      }
      var o;
      o, read := Observe(scope, newcomers);
      ghost var first := procs;
      Since(old(procs), old(procs), procs, marker, scope, o, read);
      SameSent(delivered, old(procs), procs, marker, |old(delivered)|, Term);
      var settled := SettledResult(o, Graceful);
      if settled.Some? {
        return settled, read;
      }
      ghost var rounds;
      o, rounds, read := SignalUntilAbsent(Term, termGrace, scope, newcomers);
      ghost var second, sent := procs, delivered;
      StillEvolved(old(procs), first, second);
      GoneSince(old(procs), first, second, marker, scope, o);
      FaithfulSince(old(procs), first, second, marker, scope, o, read);
      settled := SettledResult(o, Graceful);
      if settled.Some? {
        return settled, read;
      }
      ghost var pid := o.owned[0];
      SomeHeld(old(procs), second, marker, scope, o, read);
      o, rounds, read := SignalUntilAbsent(Kill, killGrace, scope, newcomers);
      StillEvolved(old(procs), second, procs);
      GoneSince(old(procs), second, procs, marker, scope, o);
      FaithfulSince(old(procs), second, procs, marker, scope, o, read);
      EscalatedBy(old(procs), first, second, procs, marker, sent, delivered, |old(delivered)|, pid);
      settled := SettledResult(o, Killed);
      if settled.Some? {
        return settled, read;
      }
      BothSent(old(procs), first, second, procs, marker, sent, delivered, |old(delivered)|);
      return Some(Termination(Survived, o)), read;
    }
  }

  // ---- who was signalled ----

  /** Every signal since was this one, to a process that holds the marker. */
  ghost predicate OnlyOwnedSince(d: seq<(nat, Signal)>, t: Table, marker: string, before: nat, signal: Signal) {
    before <= |d| && forall k :: before <= k < |d| ==> d[k].1 == signal && d[k].0 in t && Owned(t[d[k].0], marker)
  }

  ghost predicate TermOnly(d: seq<(nat, Signal)>, t: Table, marker: string, before: nat) {
    OnlyOwnedSince(d, t, marker, before, Term)
  }

  ghost predicate Reached(d: seq<(nat, Signal)>, i: nat, signal: Signal, before: nat) {
    exists k :: before <= k < |d| && d[k] == (i, signal)
  }

  /** Whoever was there at the start, still lives, and holds the marker for anyone to read. */
  ghost predicate Holder(start: Table, t: Table, i: nat, marker: string) {
    i in start && i in t && t[i].alive && t[i].readable && Owned(t[i], marker)
  }

  ghost predicate OneReached(start: Table, t: Table, pid: nat, marker: string, d: seq<(nat, Signal)>, before: nat,
      signal: Signal) {
    forall i :: Holder(start, t, i, marker) && t[i].pid == pid ==> Reached(d, i, signal, before)
  }

  /** Every holder under one of the pids was signalled. */
  ghost predicate AllReached(start: Table, t: Table, pids: seq<nat>, marker: string, d: seq<(nat, Signal)>,
      before: nat, signal: Signal) {
    forall i :: Holder(start, t, i, marker) && t[i].pid in pids ==> Reached(d, i, signal, before)
  }

  /** Every holder was signalled. */
  ghost predicate AllSent(start: Table, t: Table, marker: string, d: seq<(nat, Signal)>, before: nat, signal: Signal) {
    forall i :: Holder(start, t, i, marker) ==> Reached(d, i, signal, before)
  }

  ghost predicate PresentMeansSent(start: Table, t: Table, marker: string, o: Observation, d: seq<(nat, Signal)>,
      before: nat, signal: Signal) {
    !o.IsUnknown() && o.owned != [] ==> AllSent(start, t, marker, d, before, signal)
  }

  /** Up to `cut`, when the table was `mid`, only terminations, one to every holder, and a holder had been
      there; from there only kills. */
  ghost predicate EscalatedAt(start: Table, mid: Table, t: Table, marker: string, d: seq<(nat, Signal)>, before: nat,
      cut: nat) {
    && before <= cut <= |d| && Evolved(start, mid) && Evolved(mid, t)
    && OnlyOwnedSince(d[..cut], mid, marker, before, Term) && AllSent(start, mid, marker, d[..cut], before, Term)
    && (exists pid :: Held(start, mid, pid, marker)) && OnlyOwnedSince(d, t, marker, cut, Kill)
  }

  ghost predicate Escalated(start: Table, t: Table, marker: string, d: seq<(nat, Signal)>, before: nat) {
    exists mid: Table, cut: nat :: EscalatedAt(start, mid, t, marker, d, before, cut)
  }

  ghost predicate OneUnreadable(start: Table, t: Table, pid: nat, unread: bool) {
    forall i :: i in start && LiveAt(t, i, pid) ==> (unread <==> !t[i].readable)
  }

  /** Of those there at the start that still live under one of the pids, exactly the illegible are reported. */
  ghost predicate ExactlyUnreadable(start: Table, t: Table, pids: seq<nat>, unreadable: seq<nat>) {
    forall i :: i in start && i in t && t[i].alive && t[i].pid in pids ==>
      (t[i].pid in unreadable <==> !t[i].readable)
  }

  ghost predicate AllIllegible(start: Table, t: Table, pids: seq<nat>) {
    forall pid :: pid in pids ==> Illegible(start, t, pid)
  }

  lemma NothingYet(t: Table, marker: string, d: seq<(nat, Signal)>, signal: Signal)
    ensures OnlyOwnedSince(d, t, marker, |d|, signal) && AllReached(t, t, [], marker, d, |d|, signal)
    ensures ExactlyUnreadable(t, t, [], []) && AllIllegible(t, t, [])
  {
  }

  lemma OnlyOwnedOn(d: seq<(nat, Signal)>, e: seq<(nat, Signal)>, t: Table, u: Table, marker: string, before: nat,
      signal: Signal)
    requires OnlyOwnedSince(d, t, marker, before, signal) && OnlyOwnedSince(e, u, marker, |d|, signal)
    requires d <= e && Evolved(t, u)
    ensures OnlyOwnedSince(e, u, marker, before, signal)
  {
    forall k | before <= k < |e| ensures e[k].1 == signal && e[k].0 in u && Owned(u[e[k].0], marker) {
      if k < |d| {
        assert e[k] == d[k];
      }
    }
  }

  lemma SameSent(d: seq<(nat, Signal)>, t: Table, u: Table, marker: string, before: nat, signal: Signal)
    requires OnlyOwnedSince(d, t, marker, before, signal) && Evolved(t, u)
    ensures OnlyOwnedSince(d, u, marker, before, signal)
  {
  }

  lemma ReachedStill(d: seq<(nat, Signal)>, e: seq<(nat, Signal)>, i: nat, signal: Signal, before: nat, since: nat)
    requires Reached(d, i, signal, since) && d <= e && before <= since
    ensures Reached(e, i, signal, before)
  {
    var k :| since <= k < |d| && d[k] == (i, signal);
    assert e[k] == (i, signal);
  }

  lemma HolderBefore(start: Table, from: Table, mid: Table, t: Table, i: nat, marker: string)
    requires Evolved(start, from) && Evolved(mid, t) && Holder(start, t, i, marker) && i in mid
    ensures Holder(from, mid, i, marker) && mid[i].pid == t[i].pid
  {
  }

  lemma AllReachedOn(start: Table, mid: Table, now: Table, pids: seq<nat>, pid: nat, marker: string,
      d: seq<(nat, Signal)>, e: seq<(nat, Signal)>, before: nat, signal: Signal)
    requires Evolved(start, mid) && Evolved(mid, now) && d <= e && before <= |d|
    requires AllReached(start, mid, pids, marker, d, before, signal)
    requires OneReached(mid, now, pid, marker, e, |d|, signal)
    ensures AllReached(start, now, pids + [pid], marker, e, before, signal)
  {
    hide Reached, Owned;
    SameEvolved(start);
    forall i | Holder(start, now, i, marker) && now[i].pid in pids + [pid] ensures Reached(e, i, signal, before) {
      assert i in mid;
      HolderBefore(start, start, mid, now, i, marker);
      if now[i].pid in pids {
        ReachedStill(d, e, i, signal, before, before);
      } else {
        assert Holder(mid, now, i, marker) && now[i].pid == pid;
        ReachedStill(e, e, i, signal, before, |d|);
      }
    }
  }

  lemma AllSentOn(start: Table, from: Table, mid: Table, t: Table, marker: string, d: seq<(nat, Signal)>,
      e: seq<(nat, Signal)>, before: nat, signal: Signal)
    requires Evolved(start, from) && Evolved(from, mid) && Evolved(mid, t) && d <= e
    requires AllSent(from, mid, marker, d, before, signal)
    ensures AllSent(start, t, marker, e, before, signal)
  {
    hide Reached, Owned;
    forall i | Holder(start, t, i, marker) ensures Reached(e, i, signal, before) {
      assert i in from && i in mid;
      HolderBefore(start, from, mid, t, i, marker);
      ReachedStill(d, e, i, signal, before, before);
    }
  }

  /** A pass that misses nobody and a signal to each pid it lists reach every holder. */
  lemma SentToAll(start: Table, before: Table, seen: Table, t: Table, marker: string, scope: Scope, o: Observation,
      read: seq<nat>, d: seq<(nat, Signal)>, old0: nat, sent: nat, signal: Signal)
    requires Evolved(start, before) && Evolved(before, seen) && Evolved(seen, t) && old0 <= sent
    requires AllSeen(before, seen, marker, scope, o, read) && AllReached(seen, t, o.owned, marker, d, sent, signal)
    ensures AllSent(start, t, marker, d, old0, signal)
  {
    hide Reached, Owned, Scope.Covers;
    forall i | Holder(start, t, i, marker) ensures Reached(d, i, signal, old0) {
      assert i in before && i in seen;
      HolderBefore(start, before, seen, t, i, marker);
      assert Seen(seen, i, marker, scope, o.owned, o.unreadable, read);
      assert Holder(seen, t, i, marker);
      ReachedStill(d, d, i, signal, old0, sent);
    }
  }

  lemma EscalatedBy(start: Table, first: Table, second: Table, t: Table, marker: string, sent: seq<(nat, Signal)>,
      d: seq<(nat, Signal)>, before: nat, pid: nat)
    requires Evolved(start, first) && Evolved(first, second) && Evolved(second, t) && sent <= d
    requires OnlyOwnedSince(sent, second, marker, before, Term) && OnlyOwnedSince(d, t, marker, |sent|, Kill)
    requires AllSent(first, second, marker, sent, before, Term) && Held(start, second, pid, marker)
    ensures Escalated(start, t, marker, d, before)
  {
    hide Evolved, AllSent, Held;
    StillEvolved(start, first, second);
    SameEvolved(second);
    AllSentOn(start, first, second, second, marker, sent, sent, before, Term);
    assert d[..|sent|] == sent;
    assert EscalatedAt(start, second, t, marker, d, before, |sent|);
  }

  lemma BothSent(start: Table, first: Table, second: Table, t: Table, marker: string, sent: seq<(nat, Signal)>,
      d: seq<(nat, Signal)>, before: nat)
    requires Evolved(start, first) && Evolved(first, second) && Evolved(second, t) && sent <= d && before <= |sent|
    requires AllSent(first, second, marker, sent, before, Term) && AllSent(second, t, marker, d, |sent|, Kill)
    ensures AllSent(start, t, marker, d, before, Term) && AllSent(start, t, marker, d, before, Kill)
  {
    AllSentOn(start, first, second, t, marker, sent, d, before, Term);
    hide Reached, Owned;
    forall i | Holder(start, t, i, marker) ensures Reached(d, i, Kill, before) {
      assert i in first && i in second;
      assert Holder(second, t, i, marker);
      ReachedStill(d, d, i, Kill, before, |sent|);
    }
  }

  lemma UnreadableOn(start: Table, mid: Table, now: Table, pids: seq<nat>, pid: nat, found: seq<nat>, more: seq<nat>,
      unread: bool)
    requires Evolved(start, mid) && Evolved(mid, now)
    requires ExactlyUnreadable(start, mid, pids, found) && AllIllegible(start, mid, found)
    requires OneUnreadable(mid, now, pid, unread) && (unread ==> Illegible(mid, now, pid))
    requires more == (if unread then found + [pid] else found) && forall p :: p in found ==> p in pids
    ensures ExactlyUnreadable(start, now, pids + [pid], more) && AllIllegible(start, now, more)
  {
    forall i | i in start && i in now && now[i].alive && now[i].pid in pids + [pid]
      ensures now[i].pid in more <==> !now[i].readable {
      assert i in mid && mid[i].alive;
      if now[i].pid == pid {
        assert LiveAt(now, i, pid);
      }
    }
    hide Illegible;
    SameEvolved(start);
    forall p | p in more ensures Illegible(start, now, p) {
      var s := Scope([], []);
      StillTrue(start, start, mid, now, p, "", s);
      SameEvolved(now);
      StillTrue(start, mid, now, now, p, "", s);
    }
  }

  lemma SameUnreadable(start: Table, t: Table, pids: seq<nat>, found: seq<nat>, unreadable: seq<nat>)
    requires ExactlyUnreadable(start, t, pids, found) && AllIllegible(start, t, found)
    requires forall pid :: pid in found <==> pid in unreadable
    ensures ExactlyUnreadable(start, t, pids, unreadable) && AllIllegible(start, t, unreadable)
  {
  }

  lemma NoneDistinct()
    ensures Distinct([])
  {
  }

  lemma NotBefore(pids: seq<nat>, k: nat)
    requires Distinct(pids) && k < |pids|
    ensures pids[k] !in pids[..k] && Distinct([pids[k]])
  {
  }

  function SettledResult(o: Observation, absent: Outcome): Option<Termination> {
    if o.IsUnknown() then Some(Termination(Unknown, o))
    else if o.owned == [] then Some(Termination(absent, o))
    else None
  }

  /** How many times the loop can still sleep. */
  ghost function Rounds(remaining: real): (n: nat)
    ensures remaining <= 0.0 ==> n == 0
  {
    if remaining <= 0.0 then 0 else 1 + (50.0 * remaining).Floor
  }

  /** How long the loop has slept after that many sleeps. */
  ghost function Slept(sleeps: nat, grace: real): real {
    var polled := POLL * sleeps as real;
    if polled < grace then polled else grace
  }

  lemma NoSleepYet(grace: real)
    requires grace >= 0.0
    ensures Slept(0, grace) == 0.0
  {
  }

  ghost predicate SleptSpelled(n: nat, grace: real) {
    && (n >= 1 ==>
          Slept(n - 1, grace) == if 0.02 * (n - 1) as real < grace then 0.02 * (n - 1) as real else grace)
    && (n >= 2 ==> (Slept(n - 2, grace) < grace <==> 0.02 * (n - 2) as real < grace))
  }

  lemma SleptIsSpelled(n: nat, grace: real)
    ensures SleptSpelled(n, grace)
  {
  }

  lemma SleptOn(sleeps: nat, grace: real)
    requires Slept(sleeps, grace) < grace
    ensures var remaining := grace - Slept(sleeps, grace);
      Slept(sleeps + 1, grace) == Slept(sleeps, grace) + if POLL < remaining then POLL else remaining
  {
  }

  lemma RoundsDrop(remaining: real)
    requires remaining > 0.0
    ensures Rounds(remaining - if POLL < remaining then POLL else remaining) + 1 <= Rounds(remaining)
  {
    if POLL < remaining {
      assert 50.0 * (remaining - POLL) == 50.0 * remaining - 1.0;
    }
  }

  // ---- what one pass has seen ----

  /** What is known of a pid after asking for its scope and reading its environment. */
  ghost predicate Told(start: Table, t: Table, pid: nat, marker: string, scope: Scope, candidate: bool,
      state: EntryState) {
    && (candidate ==> Scoped(start, t, pid, scope))
    && (state == IsOwned ==> Held(start, t, pid, marker))
    && (state in {IsOwned, NotOwned} ==> Legible(start, t, pid))
    && (state == Unreadable ==> Illegible(start, t, pid))
  }

  /** What one entry adds to the lists. */
  predicate Added(pid: nat, candidate: bool, state: EntryState, ownedBefore: seq<nat>, unreadableBefore: seq<nat>,
      readBefore: seq<nat>, owned: seq<nat>, unreadable: seq<nat>, read: seq<nat>) {
    && owned == (if state == IsOwned then ownedBefore + [pid] else ownedBefore)
    && unreadable == (if state == Unreadable && candidate then unreadableBefore + [pid] else unreadableBefore)
    && read == (if state == IsOwned || (state == NotOwned && candidate) then readBefore + [pid] else readBefore)
  }

  /** No pid still to be read is listed. */
  predicate Untouched(remaining: set<nat>, unreadable: seq<nat>, read: seq<nat>) {
    forall pid <- remaining :: pid !in unreadable && pid !in read
  }

  /** Whoever is not still to be read has been seen. */
  ghost predicate AllCovered(start: Table, t: Table, marker: string, scope: Scope, remaining: set<nat>,
      owned: seq<nat>, unreadable: seq<nat>, read: seq<nat>) {
    forall i :: i in start && start[i].alive && start[i].pid !in remaining ==>
      Seen(t, i, marker, scope, owned, unreadable, read)
  }

  /** The lists so far: true, and complete but for what remains. */
  ghost predicate Scanned(start: Table, t: Table, marker: string, scope: Scope, remaining: set<nat>,
      owned: seq<nat>, unreadable: seq<nat>, read: seq<nat>) {
    && Tallied(start, t, marker, scope, owned, unreadable, read) && InScope(start, t, scope, unreadable)
    && Untouched(remaining, unreadable, read)
    && AllCovered(start, t, marker, scope, remaining, owned, unreadable, read)
  }

  lemma NothingScanned(t: Table, marker: string, scope: Scope, remaining: set<nat>)
    requires forall i :: i in t && t[i].alive ==> t[i].pid in remaining
    ensures Evolved(t, t) && Scanned(t, t, marker, scope, remaining, [], [], [])
  {
    NothingTallied(t, marker, scope);
  }

  /** Reading one more entry. */
  lemma ScannedOn(start: Table, mid: Table, asked: Table, now: Table, remaining: set<nat>, pid: nat, marker: string,
      scope: Scope, candidate: bool, state: EntryState, ownedBefore: seq<nat>, unreadableBefore: seq<nat>,
      readBefore: seq<nat>, owned: seq<nat>, unreadable: seq<nat>, read: seq<nat>)
    requires Evolved(start, mid) && Evolved(mid, asked) && Evolved(asked, now) && pid in remaining
    requires Scanned(start, mid, marker, scope, remaining, ownedBefore, unreadableBefore, readBefore)
    requires forall j :: LiveAt(asked, j, pid) ==> (candidate <==> scope.Covers(asked[j]))
    requires forall j :: LiveAt(now, j, pid) ==> state == StateOf(now[j], marker)
    requires Told(start, now, pid, marker, scope, candidate, state)
    requires Added(pid, candidate, state, ownedBefore, unreadableBefore, readBefore, owned, unreadable, read)
    ensures Scanned(start, now, marker, scope, remaining - {pid}, owned, unreadable, read)
  {
    hide Tallied, InScope, AllCovered, Told, Evolved, LiveAt, StateOf, Scope.Covers;
    StillEvolved(mid, asked, now);
    TallyOn(start, mid, now, marker, scope, pid, candidate, state, ownedBefore, unreadableBefore, readBefore,
      owned, unreadable, read);
    CoveredOn(start, mid, asked, now, remaining, pid, marker, scope, candidate, state, ownedBefore,
      unreadableBefore, readBefore, owned, unreadable, read);
  }

  lemma TallyOn(start: Table, mid: Table, t: Table, marker: string, scope: Scope, pid: nat, candidate: bool,
      state: EntryState, ownedBefore: seq<nat>, unreadableBefore: seq<nat>, readBefore: seq<nat>,
      owned: seq<nat>, unreadable: seq<nat>, read: seq<nat>)
    requires Evolved(mid, t) && Tallied(start, mid, marker, scope, ownedBefore, unreadableBefore, readBefore)
    requires InScope(start, mid, scope, unreadableBefore)
    requires pid !in unreadableBefore && pid !in readBefore
    requires Told(start, t, pid, marker, scope, candidate, state)
    requires Added(pid, candidate, state, ownedBefore, unreadableBefore, readBefore, owned, unreadable, read)
    ensures Tallied(start, t, marker, scope, owned, unreadable, read) && InScope(start, t, scope, unreadable)
  {
    hide Tallied, Evolved, Held, Legible, Illegible, Scoped;
    SameEvolved(start);
    TalliedOn(start, start, mid, t, marker, scope, ownedBefore, unreadableBefore, readBefore);
    InScopeOn(start, start, mid, t, scope, unreadableBefore);
    if state == IsOwned {
      TallyOwned(start, t, marker, scope, pid, ownedBefore, unreadableBefore, readBefore);
    } else if candidate && state == NotOwned {
      TallyRead(start, t, marker, scope, pid, ownedBefore, unreadableBefore, readBefore);
    } else if candidate && state == Unreadable {
      TallyUnreadable(start, t, marker, scope, pid, ownedBefore, unreadableBefore, readBefore);
    }
  }

  lemma CoveredOn(start: Table, mid: Table, asked: Table, now: Table, remaining: set<nat>, pid: nat, marker: string,
      scope: Scope, candidate: bool, state: EntryState, ownedBefore: seq<nat>, unreadableBefore: seq<nat>,
      readBefore: seq<nat>, owned: seq<nat>, unreadable: seq<nat>, read: seq<nat>)
    requires Evolved(start, mid) && Evolved(mid, asked) && Evolved(asked, now)
    requires AllCovered(start, mid, marker, scope, remaining, ownedBefore, unreadableBefore, readBefore)
    requires forall j :: LiveAt(asked, j, pid) ==> (candidate <==> scope.Covers(asked[j]))
    requires forall j :: LiveAt(now, j, pid) ==> state == StateOf(now[j], marker)
    requires Added(pid, candidate, state, ownedBefore, unreadableBefore, readBefore, owned, unreadable, read)
    ensures AllCovered(start, now, marker, scope, remaining - {pid}, owned, unreadable, read)
  {
    hide Evolved, LiveAt, StateOf, Scope.Covers, Added, Seen;
    forall i | i in start && start[i].alive && start[i].pid !in remaining - {pid}
      ensures Seen(now, i, marker, scope, owned, unreadable, read) {
      SeenOn(start, mid, asked, now, i, pid, marker, scope, candidate, state, ownedBefore, unreadableBefore,
        readBefore, owned, unreadable, read);
    }
  }

  lemma SeenOn(start: Table, mid: Table, asked: Table, now: Table, i: nat, pid: nat, marker: string, scope: Scope,
      candidate: bool, state: EntryState, ownedBefore: seq<nat>, unreadableBefore: seq<nat>, readBefore: seq<nat>,
      owned: seq<nat>, unreadable: seq<nat>, read: seq<nat>)
    requires i in start && Evolved(start, mid) && Evolved(mid, asked) && Evolved(asked, now)
    requires start[i].pid != pid ==> Seen(mid, i, marker, scope, ownedBefore, unreadableBefore, readBefore)
    requires forall j :: LiveAt(asked, j, pid) ==> (candidate <==> scope.Covers(asked[j]))
    requires forall j :: LiveAt(now, j, pid) ==> state == StateOf(now[j], marker)
    requires Added(pid, candidate, state, ownedBefore, unreadableBefore, readBefore, owned, unreadable, read)
    ensures Seen(now, i, marker, scope, owned, unreadable, read)
  {
    if now[i].alive {
      assert mid[i].alive && asked[i].alive;
      if start[i].pid == pid {
        assert LiveAt(asked, i, pid) && LiveAt(now, i, pid);
      }
    }
  }

  /** When nothing is left to be read, the sorted lists are the record. */
  lemma Concluded(before: Table, start: Table, t: Table, marker: string, scope: Scope, owned: seq<nat>,
      unreadable: seq<nat>, read: seq<nat>, o: Observation)
    requires Evolved(before, start) && Evolved(start, t) && |owned| <= |read|
    requires o == Observation(|read| + |unreadable|, |read|, Sorted(unreadable), Sorted(unreadable), Sorted(owned))
    requires Scanned(start, t, marker, scope, {}, owned, unreadable, read)
    ensures o.Accounts() && o.Proper() && AllSeen(before, t, marker, scope, o, read)
    ensures Faithful(before, t, marker, scope, o, read) && InScope(before, t, scope, o.unreadable)
  {
    SortedHolds(owned);
    SortedHolds(unreadable);
    SameEvolved(t);
    TalliedSorted(start, t, marker, scope, owned, unreadable, read);
    TalliedOn(before, start, t, t, marker, scope, o.owned, o.unreadable, read);
    InScopeOn(before, start, t, t, scope, o.unreadable) by { hide Scoped; }
    hide Sorted, Evolved, Held, Legible, Illegible, Concerned, Scoped, InScope;
    AllSeenIn(before, start, t, marker, scope, owned, unreadable, read, o);
  }

  lemma AllSeenIn(before: Table, start: Table, t: Table, marker: string, scope: Scope, owned: seq<nat>,
      unreadable: seq<nat>, read: seq<nat>, o: Observation)
    requires Evolved(before, start) && Evolved(start, t)
    requires AllCovered(start, t, marker, scope, {}, owned, unreadable, read)
    requires forall pid :: pid in o.owned <==> pid in owned
    requires forall pid :: pid in o.unreadable <==> pid in unreadable
    ensures AllSeen(before, t, marker, scope, o, read)
  {
  }

  /** A faithful record that misses nobody, taken since `before`, is one since `start`. */
  lemma Since(start: Table, before: Table, t: Table, marker: string, scope: Scope, o: Observation, read: seq<nat>)
    requires Evolved(start, before) && Evolved(before, t) && o.Proper()
    requires AllSeen(before, t, marker, scope, o, read) && Faithful(before, t, marker, scope, o, read)
    ensures Evolved(start, t) && AbsentMeansGone(start, t, marker, scope, o)
    ensures Faithful(start, t, marker, scope, o, read)
  {
    hide Evolved, AllSeen, Faithful, AbsentMeansGone, Observation.Proper;
    StillEvolved(start, before, t);
    SeenSince(start, before, t, marker, scope, o, read);
    FaithfulSince(start, before, t, marker, scope, o, read);
  }

  lemma SomeHeld(start: Table, t: Table, marker: string, scope: Scope, o: Observation, read: seq<nat>)
    requires Faithful(start, t, marker, scope, o, read) && o.owned != []
    ensures Held(start, t, o.owned[0], marker)
  {
  }

  lemma FaithfulSince(start: Table, before: Table, t: Table, marker: string, scope: Scope, o: Observation,
      read: seq<nat>)
    requires Evolved(start, before) && Faithful(before, t, marker, scope, o, read)
    ensures Faithful(start, t, marker, scope, o, read)
  {
    hide Evolved, Tallied;
    SameEvolved(t);
    TalliedOn(start, before, t, t, marker, scope, o.owned, o.unreadable, read);
  }

  /** The record with the pids that could not be read again as unreadable is still faithful. */
  lemma Refined(start: Table, seen: Table, t: Table, marker: string, scope: Scope, o: Observation, read: seq<nat>,
      pids: seq<nat>)
    requires Evolved(start, seen) && Evolved(seen, t) && Faithful(start, seen, marker, scope, o, read)
    requires o.Accounts() && o.Proper() && AllIllegible(seen, t, pids) && pids != []
    requires (forall pid :: pid in pids ==> pid in o.owned) && (Distinct(o.owned) ==> Distinct(pids))
    ensures var r := o.WithCandidateUnreadable(pids);
      && r.Accounts() && r.Proper() && r.IsUnknown() && Faithful(start, t, marker, scope, r, Without(read, pids))
      && AbsentMeansGone(start, t, marker, scope, r)
  {
    hide Evolved, Tallied, Illegible, Without, Distinct, Gone;
    hide Observation.Accounts, Observation.WithCandidateUnreadable;
    SameEvolved(start);
    SameEvolved(t);
    TalliedOn(start, start, seen, t, marker, scope, o.owned, o.unreadable, read);
    forall pid | pid in pids ensures Illegible(start, t, pid) {
      StillTrue(start, seen, t, t, pid, marker, scope);
    }
    TalliedRefined(start, t, marker, scope, o, read, pids);
    SignalRefinement(o, pids);
  }

  lemma StillEvolved(t: Table, u: Table, v: Table)
    requires Evolved(t, u) && Evolved(u, v)
    ensures Evolved(t, v)
  {
    EvolvedThrough(t, u, v);
  }

  /** A pid nobody had is had later only by a newcomer. */
  lemma NobodyThere(start: Table, t: Table, pid: nat, marker: string, d: seq<(nat, Signal)>, before: nat,
      signal: Signal)
    requires Evolved(start, t) && forall j :: !LiveAt(t, j, pid)
    ensures OneReached(start, t, pid, marker, d, before, signal) && OneUnreadable(start, t, pid, false)
  {
    assert forall i :: Holder(start, t, i, marker) ==> LiveAt(t, i, t[i].pid);
  }

  /** An instance that still lives had its pid, its environment and its life before. */
  lemma SameLater(t: Table, u: Table, i: nat, pid: nat)
    requires Evolved(t, u) && i in t && t[i].pid == pid
    ensures i in u && u[i].pid == pid && u[i].environment == t[i].environment && u[i].readable == t[i].readable
    ensures u[i].alive ==> t[i].alive && LiveAt(u, i, pid)
  {
  }

  /** Of those that were there before the descriptor was opened, only its instance can still have the pid. */
  lemma OnlyOne(start: Table, atOpen: Table, now: Table, fd: nat, pid: nat, marker: string, d: seq<(nat, Signal)>,
      before: nat, signal: Signal, unread: bool)
    requires Evolved(start, atOpen) && Evolved(atOpen, now) && LivePidsUnique(atOpen) && LiveAt(atOpen, fd, pid)
    requires fd in now && now[fd].alive ==> (unread <==> !now[fd].readable)
    requires fd in now && now[fd].alive && now[fd].readable && Owned(now[fd], marker) ==> Reached(d, fd, signal, before)
    ensures OneReached(start, now, pid, marker, d, before, signal) && OneUnreadable(start, now, pid, unread)
  {
    hide Owned, Reached;
    forall i | i in start && LiveAt(now, i, pid) ensures i == fd {
      assert LiveAt(atOpen, i, pid);
    }
    forall i | Holder(start, now, i, marker) && now[i].pid == pid ensures Reached(d, i, signal, before) {
      assert LiveAt(now, i, pid);
    }
  }

  lemma SameEvolved(t: Table)
    ensures Evolved(t, t)
  {
  }
}
