/** Signalling processes that carry an owner marker: open a pidfd, read the environment by pid, then
    signal through the pidfd, while processes exit and pids are given to new ones. */
module OwnedProtocol {
  /** One process instance.  Its pid, environment and session are fixed; only its life ends. */
  datatype Process = Process(pid: nat, environment: seq<string>, readable: bool, session: nat, alive: bool)
  type Table = map<nat, Process>

  predicate Owned(p: Process, marker: string) { marker in p.environment }

  ghost predicate LivePidsUnique(t: Table) {
    forall i, j :: i in t && j in t && t[i].alive && t[j].alive && t[i].pid == t[j].pid ==> i == j
  }

  predicate LiveAt(t: Table, i: nat, pid: nat) { i in t && t[i].alive && t[i].pid == pid }

  predicate Free(t: Table, pid: nat) { forall i <- t :: !LiveAt(t, i, pid) }

  /** What other processes do. */
  datatype Event = Exit(i: nat) | Start(i: nat, pid: nat, environment: seq<string>, readable: bool, session: nat)

  function Happens(t: Table, e: Event): Table {
    match e
    case Exit(i) => if i in t then t[i := t[i].(alive := false)] else t
    case Start(i, pid, environment, readable, session) =>
      if i in t || !Free(t, pid) then t else t[i := Process(pid, environment, readable, session, true)]
  }

  /** Instances stay what they are, and the dead stay dead. */
  ghost predicate Evolved(t: Table, u: Table) {
    forall i :: i in t ==> i in u && u[i].(alive := t[i].alive) == t[i] && (u[i].alive ==> t[i].alive)
  }

  lemma HappensEvolves(t: Table, e: Event)
    requires LivePidsUnique(t)
    ensures LivePidsUnique(Happens(t, e)) && Evolved(t, Happens(t, e))
  {
    if e.Start? && e.i !in t && Free(t, e.pid) {
      forall j | j in t && t[j].alive ensures t[j].pid != e.pid {
        assert !LiveAt(t, j, e.pid);
      }
    }
  }

  lemma EvolvedThrough(t: Table, u: Table, v: Table)
    requires Evolved(t, u) && Evolved(u, v)
    ensures Evolved(t, v)
  {
  }

  // ---- the protocol as a machine ----

  /** The descriptor names an instance; the environment is read by pid. */
  datatype Phase = Ready | Opened(pid: nat, fd: nat) | Checked(fd: nat)
  datatype State = State(table: Table, phase: Phase, signalled: set<nat>)

  ghost predicate OthersStep(s: State, t: State) {
    exists e :: t == s.(table := Happens(s.table, e))
  }

  ghost predicate OpenStep(s: State, t: State) {
    s.phase.Ready? && exists pid, i :: LiveAt(s.table, i, pid) && t == s.(phase := Opened(pid, i))
  }

  /** Reading finds whichever instance has the pid now. */
  ghost predicate ReadsOwned(t: Table, pid: nat, marker: string) {
    exists i :: LiveAt(t, i, pid) && t[i].readable && Owned(t[i], marker)
  }

  ghost predicate ReadStep(s: State, t: State, marker: string) {
    s.phase.Opened? && t == s.(phase := if ReadsOwned(s.table, s.phase.pid, marker) then Checked(s.phase.fd) else Ready)
  }

  /** A signal reaches the instance behind the descriptor if it still lives. */
  ghost predicate SendStep(s: State, t: State) {
    && s.phase.Checked?
    && var reached := s.phase.fd in s.table && s.table[s.phase.fd].alive;
      t == State(s.table, Ready, if reached then s.signalled + {s.phase.fd} else s.signalled)
  }

  ghost predicate Step(s: State, t: State, marker: string) {
    OthersStep(s, t) || OpenStep(s, t) || ReadStep(s, t, marker) || SendStep(s, t)
  }

  ghost predicate StepAt(run: seq<State>, i: nat, marker: string)
    requires i + 1 < |run|
  {
    Step(run[i], run[i + 1], marker)
  }

  ghost predicate IsRun(run: seq<State>, marker: string) {
    && run != [] && LivePidsUnique(run[0].table) && run[0].phase == Ready && run[0].signalled == {}
    && forall i {:trigger StepAt(run, i, marker)} :: 0 <= i < |run| - 1 ==> StepAt(run, i, marker)
  }

  ghost predicate OnlyOwned(s: State, marker: string) {
    forall i :: i in s.signalled ==> i in s.table && Owned(s.table[i], marker)
  }

  /** An open descriptor's instance has its pid; after the check, if it lives, it is owned. */
  ghost predicate Invariant(s: State, marker: string) {
    && LivePidsUnique(s.table) && OnlyOwned(s, marker)
    && match s.phase
      case Ready => true
      case Opened(pid, fd) => fd in s.table && s.table[fd].pid == pid
      case Checked(fd) => fd in s.table && (s.table[fd].alive ==> Owned(s.table[fd], marker))
  }

  lemma StepKeeps(s: State, t: State, marker: string)
    requires Invariant(s, marker) && Step(s, t, marker)
    ensures Invariant(t, marker)
  {
    if OthersStep(s, t) {
      var e :| t == s.(table := Happens(s.table, e));
      HappensEvolves(s.table, e);
      assert forall i :: i in s.table ==> i in t.table && t.table[i].environment == s.table[i].environment;
    }
  }

  /** Under every interleaving a signal reaches only instances whose environment holds the marker. */
  lemma {:induction false} OnlyOwnedSignalled(run: seq<State>, marker: string)
    requires IsRun(run, marker)
    ensures forall i :: 0 <= i < |run| ==> Invariant(run[i], marker)
    decreases |run|
  {
    hide Step;
    var n := |run| - 1;
    if n > 0 {
      var init := run[..n];
      forall i | 0 <= i < n - 1 ensures StepAt(init, i, marker) {
        assert StepAt(run, i, marker);
      }
      OnlyOwnedSignalled(init, marker);
      assert init[n - 1] == run[n - 1] && StepAt(run, n - 1, marker);
      StepKeeps(run[n - 1], run[n], marker);
      assert forall i :: 0 <= i < n ==> run[i] == init[i];
    }
  }

  // ---- the order of the steps matters ----

  /** The same steps with the environment read before the descriptor is opened. */
  ghost predicate EarlyRead(s: State, marker: string, pid: nat) {
    s.phase.Ready? && ReadsOwned(s.table, pid, marker)
  }

  ghost predicate LateOpen(s: State, t: State, pid: nat) {
    exists i :: LiveAt(s.table, i, pid) && t == s.(phase := Checked(i))
  }

  /** Read first and open second, with an exit and a start in between: the signal reaches a process
      that does not hold the marker. */
  lemma ReadingFirstIsUnsafe(marker: string, pid: nat)
    returns (before: State, exited: State, started: State, attached: State, sent: State)
    ensures Invariant(before, marker) && EarlyRead(before, marker, pid)
    ensures OthersStep(before, exited) && OthersStep(exited, started) && LateOpen(started, attached, pid)
    ensures SendStep(attached, sent)
    ensures !OnlyOwned(sent, marker)
  {
    var table := map[0 := Process(pid, [marker], true, 0, true)];
    before := State(table, Ready, {});
    assert LiveAt(table, 0, pid);
    exited := before.(table := Happens(table, Exit(0)));
    var start := Start(1, pid, [], true, 0);
    started := exited.(table := Happens(exited.table, start));
    attached := started.(phase := Checked(1));
    assert LiveAt(started.table, 1, pid);
    sent := State(attached.table, Ready, {1});
  }
}
