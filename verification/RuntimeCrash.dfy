/** What a crash during a replace, followed by a reconcile, does to the predecessor. */
module RuntimeCrash {
  import opened Runtime
  import opened Wrappers

  // ---- one replace ----

  ghost predicate ReplaceStep(s: State, t: State) {
    BuildStep(s, t) || SwitchStep(s, t) || UndoStep(s, t) || DiscardStep(s, t)
  }

  ghost predicate ReplaceStepAt(run: seq<State>, i: nat)
    requires i + 1 < |run|
  {
    ReplaceStep(run[i], run[i + 1])
  }

  /** One replace as far as it gets: it begins idle, and once idle again it is over. */
  ghost predicate ReplaceRun(run: seq<State>) {
    && run != [] && run[0].control == Idle
    && (forall i {:trigger ReplaceStepAt(run, i)} :: 0 <= i < |run| - 1 ==> ReplaceStepAt(run, i))
    && forall i :: 0 < i < |run| - 1 ==> run[i].control != Idle
  }

  /** Nothing has been retired yet, or the operation is over. */
  predicate BeforeRetirement(c: Control) {
    c.Idle? || c.Building? || c.Unbuilding? || c.Built?
  }

  // ---- where the predecessor is, control by control ----

  /** The current runtime is the one of the start, and the predecessor's directory is there. */
  ghost predicate Untouched(start: Fs, k: nat, fs: Fs) {
    && Current in fs && Current in start && fs[Current] == start[Current] && fs[Current] != LinkTo(k)
    && DirAt(fs, Replacement(k))
  }

  ghost predicate SetAside(k: nat, fs: Fs, older: Option<nat>) {
    older.Some? && Retired(older.value) in fs && fs[Retired(older.value)] == LinkTo(k)
  }

  /** The replacement is current, and nothing that a sweep looks at leads to the older predecessor. */
  ghost predicate Committed(start: Fs, k: nat, fs: Fs) {
    && Current in fs && Current in start && fs[Current] != start[Current] && fs[Current] != LinkTo(k)
    && Previous in fs && fs[Previous] != LinkTo(k)
    && (Replacement(k) in fs ==> fs[Replacement(k)].Dir?)
  }

  ghost predicate Standing(start: Fs, k: nat, s: State) {
    var fs := s.fs;
    match s.control
    case Idle => (Untouched(start, k, fs) && Previous in fs && fs[Previous] == LinkTo(k)) || Committed(start, k, fs)
    case Building(id) => Fresh(start, k, fs, id) && Previous in fs && fs[Previous] == LinkTo(k)
    case Unbuilding(id) => Fresh(start, k, fs, id) && Previous in fs && fs[Previous] == LinkTo(k)
    case Built(id) => Fresh(start, k, fs, id) && Previous in fs && fs[Previous] == LinkTo(k)
    case Vacant(id, older) => Fresh(start, k, fs, id) && SetAside(k, fs, older) && Previous !in fs
    case Linked(id, older) =>
      Fresh(start, k, fs, id) && SetAside(k, fs, older) && Previous in fs && fs[Previous] == LinkTo(id)
    case Undoing(id, older) =>
      Fresh(start, k, fs, id) && SetAside(k, fs, older) && (Previous in fs ==> fs[Previous] == LinkTo(id))
    case UndoingTree(id, older) => Fresh(start, k, fs, id) && SetAside(k, fs, older) && Previous !in fs
    case UndoingName(older) => Untouched(start, k, fs) && SetAside(k, fs, older) && Previous !in fs
    case Exchanged(id, older) => Committed(start, k, fs)
    case Removing(n) => Committed(start, k, fs) && (n.Replacement? || n.Retired?)
    case _ => false
  }

  /** Untouched, with a replacement that is neither the predecessor nor what the current runtime leads to. */
  ghost predicate Fresh(start: Fs, k: nat, fs: Fs, id: nat) {
    Untouched(start, k, fs) && id != k && fs[Current] != LinkTo(id)
  }

  lemma BuildStands(start: Fs, k: nat, s: State, t: State)
    requires Sound(start) && Standing(start, k, s) && BuildStep(s, t) && (s.control == Idle ==> s.fs == start)
    requires Previous in start && start[Previous] == LinkTo(k)
    ensures Standing(start, k, t)
  {
    hide Installed, NextPart;
  }

  lemma SwitchStands(start: Fs, k: nat, s: State, t: State)
    requires Standing(start, k, s) && SwitchStep(s, t)
    ensures Standing(start, k, t)
  {
  }

  lemma UndoStands(start: Fs, k: nat, s: State, t: State)
    requires Standing(start, k, s) && UndoStep(s, t)
    ensures Standing(start, k, t)
  {
  }

  lemma DiscardStands(start: Fs, k: nat, s: State, t: State)
    requires Standing(start, k, s) && DiscardStep(s, t)
    ensures Standing(start, k, t)
  {
    hide Resolve;
  }

  lemma StepStands(start: Fs, k: nat, s: State, t: State)
    requires Sound(start) && Standing(start, k, s) && ReplaceStep(s, t) && (s.control == Idle ==> s.fs == start)
    requires Previous in start && start[Previous] == LinkTo(k)
    ensures Standing(start, k, t)
  {
    hide Sound, Standing, BuildStep, SwitchStep, UndoStep, DiscardStep;
    if BuildStep(s, t) {
      BuildStands(start, k, s, t);
    } else if SwitchStep(s, t) {
      SwitchStands(start, k, s, t);
    } else if UndoStep(s, t) {
      UndoStands(start, k, s, t);
    } else {
      DiscardStands(start, k, s, t);
    }
  }

  lemma {:induction false} RunStands(run: seq<State>, k: nat)
    requires ReplaceRun(run) && Sound(run[0].fs) && Previous in run[0].fs && run[0].fs[Previous] == LinkTo(k)
    ensures forall i :: 0 <= i < |run| ==> Standing(run[0].fs, k, run[i])
    decreases |run|
  {
    hide ReplaceStep, Standing, Sound;
    var n := |run| - 1;
    if n == 0 {
      StartStands(run[0], k);
    } else {
      var init := run[..n];
      forall i | 0 <= i < n - 1 ensures ReplaceStepAt(init, i) {
        assert ReplaceStepAt(run, i);
      }
      RunStands(init, k);
      assert init[n - 1] == run[n - 1] && ReplaceStepAt(run, n - 1);
      StepStands(run[0].fs, k, run[n - 1], run[n]);
      assert forall i :: 0 <= i < n ==> run[i] == init[i];
    }
  }

  lemma StartStands(s: State, k: nat)
    requires s.control == Idle && Sound(s.fs) && Previous in s.fs && s.fs[Previous] == LinkTo(k)
    ensures Standing(s.fs, k, s)
  {
  }

  // ---- the exact condition ----

  lemma SweptWhenUnlinked(fs: Fs, k: nat)
    requires Replacement(k) in fs ==> fs[Replacement(k)].Dir?
    ensures Replacement(k) in Reconciled(fs) <==>
      Replacement(k) in fs && exists n :: n in {Current, Previous} && n in fs && fs[n] == LinkTo(k)
  {
    assert Replacement(k) in Live(fs) <==> exists n :: n in {Current, Previous} && n in fs && fs[n] == LinkTo(k);
  }

  lemma StandingKeeps(start: Fs, k: nat, s: State)
    requires Standing(start, k, s)
    ensures Current in s.fs && Current in start
    ensures Replacement(k) in Reconciled(s.fs) <==> BeforeRetirement(s.control) && s.fs[Current] == start[Current]
  {
    hide Reconciled;
    SweptWhenUnlinked(s.fs, k);
  }

  /** Over one replace whose predecessor is a linked replacement: a crash in any of its states, followed
      by a sweep, keeps the predecessor's directory if and only if nothing was retired yet or the
      operation was over, with the current runtime still the one of the start.  So it goes wherever the
      crash falls from the retirement until its name is put back, the exception path included; after the
      exchange it goes by design. */
  lemma CrashThenSweepKeepsExactly(run: seq<State>, k: nat)
    requires ReplaceRun(run) && Sound(run[0].fs) && Previous in run[0].fs && run[0].fs[Previous] == LinkTo(k)
    ensures IsRun(run) && forall i :: 0 <= i < |run| ==> Current in run[i].fs
    ensures forall i :: 0 <= i < |run| ==>
      (Replacement(k) in Reconciled(run[i].fs) <==>
       BeforeRetirement(run[i].control) && run[i].fs[Current] == run[0].fs[Current])
  {
    hide Standing, Reconciled, Sound, BuildStep, SwitchStep, UndoStep, DiscardStep, RollbackStep, SweepStep;
    forall i | 0 <= i < |run| - 1 ensures StepAt(run, i) {
      assert ReplaceStepAt(run, i);
    }
    RunStands(run, k);
    forall i | 0 <= i < |run|
      ensures Current in run[i].fs && Current in run[0].fs
      ensures Replacement(k) in Reconciled(run[i].fs) <==>
        BeforeRetirement(run[i].control) && run[i].fs[Current] == run[0].fs[Current]
    {
      StandingKeeps(run[0].fs, k, run[i]);
    }
  }

  // ---- a crash between retiring and linking is reached ----

  lemma Extended(run: seq<State>, t: State)
    requires run != [] && IsRun(run) && Step(run[|run| - 1], t)
    ensures IsRun(run + [t])
  {
    hide Step;
    var more := run + [t];
    forall i | 0 <= i < |more| - 1 ensures StepAt(more, i) {
      if i < |run| - 1 {
        assert StepAt(run, i);
      }
    }
  }

  /** Part by part, a replacement that was begun is finished. */
  lemma {:induction false} Finishes(run: seq<State>, id: nat) returns (more: seq<State>)
    requires run != [] && IsRun(run) && run[|run| - 1].control == Building(id)
    requires DirAt(run[|run| - 1].fs, Replacement(id)) && run[|run| - 1].fs[Replacement(id)].parts <= ALL_PARTS
    ensures IsRun(more) && run <= more && more != []
    ensures more[|more| - 1] == State(run[|run| - 1].fs[Replacement(id) := Dir(ALL_PARTS)], Built(id))
    decreases ALL_PARTS - run[|run| - 1].fs[Replacement(id)].parts
  {
    hide IsRun, Step;
    var fs, n := run[|run| - 1].fs, Replacement(id);
    var parts := fs[n].parts;
    BuildGoesOn(fs, id);
    if parts == ALL_PARTS {
      var t := State(fs, Built(id));
      Extended(run, t);
      more := run + [t];
      assert fs[n := Dir(ALL_PARTS)] == fs;
    } else {
      var t := State(fs[n := Dir(parts + {NextPart(parts)})], Building(id));
      Extended(run, t);
      more := Finishes(run + [t], id);
    }
  }

  lemma BuildGoesOn(fs: Fs, id: nat)
    requires DirAt(fs, Replacement(id)) && fs[Replacement(id)].parts <= ALL_PARTS
    ensures var n := Replacement(id); var parts := fs[n].parts;
      && Step(State(fs, Building(id)),
              if parts == ALL_PARTS then State(fs, Built(id))
              else State(fs[n := Dir(parts + {NextPart(parts)})], Building(id)))
      && (parts != ALL_PARTS ==> NextPart(parts) in ALL_PARTS - parts)
  {
    var parts := fs[Replacement(id)].parts;
    assert ALL_PARTS <= parts ==> parts == ALL_PARTS;
  }

  /** A run from the directory to the crash right after its predecessor was retired. */
  lemma CrashAfterRetiring(fs: Fs, id: nat, retired: nat) returns (run: seq<State>)
    requires Sound(fs) && Previous in fs && Replacement(id) !in fs && Retired(retired) !in fs
    ensures run != [] && IsRun(run) && run[0] == State(fs, Idle)
    ensures run[|run| - 1] ==
      State((fs - {Previous})[Replacement(id) := Dir(ALL_PARTS)][Retired(retired) := fs[Previous]], Idle)
  {
    hide IsRun, Names, Installed, Step;
    var n := Replacement(id);
    SoundInstalled(fs, Current);
    run := [State(fs, Idle), State(fs[n := Dir({})], Building(id))];
    BeginsRun(fs, id);
    run := Finishes(run, id);
    var built := fs[n := Dir(ALL_PARTS)];
    assert fs[n := Dir({})][n := Dir(ALL_PARTS)] == built;
    var aside := (built - {Previous})[Retired(retired) := built[Previous]];
    RetiresAndCrashes(built, id, retired);
    Extended(run, State(aside, Vacant(id, Some(retired))));
    Extended(run + [State(aside, Vacant(id, Some(retired)))], State(aside, Idle));
    run := run + [State(aside, Vacant(id, Some(retired)))] + [State(aside, Idle)];
    assert aside == (fs - {Previous})[n := Dir(ALL_PARTS)][Retired(retired) := fs[Previous]];
  }

  lemma BeginsRun(fs: Fs, id: nat)
    requires Installed(fs, Current) && Replacement(id) !in fs
    ensures IsRun([State(fs, Idle), State(fs[Replacement(id) := Dir({})], Building(id))])
  {
    hide Installed, SwitchStep, UndoStep, DiscardStep, RollbackStep, SweepStep;
  }

  lemma RetiresAndCrashes(fs: Fs, id: nat, retired: nat)
    requires Previous in fs && Retired(retired) !in fs
    ensures var aside := State((fs - {Previous})[Retired(retired) := fs[Previous]], Vacant(id, Some(retired)));
      Step(State(fs, Built(id)), aside) && Step(aside, State(aside.fs, Idle))
  {
    hide BuildStep, UndoStep, DiscardStep, RollbackStep, SweepStep;
  }

  /** The crashed directory is reached from any sound directory whose predecessor is a linked replacement;
      nothing the sweep looks at refers to that predecessor any more, and its directory goes, though the
      directory stays sound throughout. */
  lemma SweepAfterCrashLosesThePredecessor(fs: Fs, id: nat, k: nat, retired: nat) returns (run: seq<State>)
    requires Sound(fs) && Previous in fs && fs[Previous] == LinkTo(k)
    requires Replacement(id) !in fs && Retired(retired) !in fs
    ensures run != [] && IsRun(run) && run[0] == State(fs, Idle) && run[|run| - 1].control == Idle
    ensures var crashed := run[|run| - 1].fs;
      && Sound(crashed) && Retired(retired) in crashed && crashed[Retired(retired)] == LinkTo(k)
      && Whole(crashed, Replacement(k)) && Replacement(k) !in Reconciled(crashed) && Sound(Reconciled(crashed))
  {
    hide IsRun, Reconciled;
    run := CrashAfterRetiring(fs, id, retired);
    var crashed := run[|run| - 1].fs;
    SweptWhenUnlinked(crashed, k);
    SweepIsIdempotent(crashed);
  }
}
