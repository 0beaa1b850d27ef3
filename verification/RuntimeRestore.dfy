/** Where a replace stops, a reconcile puts the directory back as it was exactly when the two names that
    the operator uses still stand as they did: leftovers of any size go, and what is retired does not return. */
module RuntimeRestore {
  import opened Runtime
  import opened RuntimeCrash
  import opened Wrappers

  /** The current and the previous runtime are named as in the other directory. */
  ghost predicate SameNames(a: Fs, b: Fs) {
    forall n :: n in {Current, Previous} ==> (n in a <==> n in b) && (n in a ==> a[n] == b[n])
  }

  // ---- the directory, control by control ----

  /** The replacement is new, and the directory with it is the other one. */
  ghost predicate Beside(start: Fs, fs: Fs, id: nat) {
    Replacement(id) !in start && DirAt(fs, Replacement(id)) && fs - {Replacement(id)} == start
  }

  /** With the predecessor set aside, if there was one. */
  ghost predicate Bare(start: Fs, bare: Fs, older: Option<nat>) {
    match older
    case None => Previous !in start && bare == start
    case Some(retired) =>
      && Previous in start && Retired(retired) !in start
      && bare == (start - {Previous})[Retired(retired) := start[Previous]]
  }

  ghost predicate BareBeside(start: Fs, fs: Fs, id: nat, older: Option<nat>) {
    && Replacement(id) !in start && DirAt(fs, Replacement(id))
    && Bare(start, fs - {Replacement(id)} - {Previous}, older)
    && (Previous in fs ==> fs[Previous] == LinkTo(id))
  }

  /** A new replacement is the current runtime. */
  ghost predicate Switched(start: Fs, fs: Fs) {
    exists id :: Replacement(id) !in start && Current in fs && fs[Current] == LinkTo(id)
  }

  ghost predicate Left(start: Fs, fs: Fs) { fs == start || exists id :: Beside(start, fs, id) }

  ghost predicate Shaped(start: Fs, s: State) {
    match s.control
    case Idle => Left(start, s.fs) || Switched(start, s.fs)
    case Building(id) => Beside(start, s.fs, id)
    case Unbuilding(id) => Beside(start, s.fs, id)
    case Built(id) => Beside(start, s.fs, id)
    case Vacant(id, older) => BareBeside(start, s.fs, id, older) && Previous !in s.fs
    case Linked(id, older) => BareBeside(start, s.fs, id, older) && Previous in s.fs
    case Undoing(id, older) => BareBeside(start, s.fs, id, older)
    case UndoingTree(id, older) => BareBeside(start, s.fs, id, older) && Previous !in s.fs
    case UndoingName(older) => Bare(start, s.fs, older)
    case Exchanged(id, older) => Switched(start, s.fs)
    case Removing(n) => Switched(start, s.fs) && n != Current
    case _ => false
  }

  // ---- every step keeps the shape ----

  lemma BuildShapes(start: Fs, s: State, t: State)
    requires Sound(start) && Shaped(start, s) && BuildStep(s, t) && (s.control == Idle ==> s.fs == start)
    ensures Shaped(start, t)
  {
    hide Installed, NextPart, Sound;
    match s.control
    case Idle => assert t.fs - {Replacement(t.control.id)} == start;
    case Building(id) => assert t.fs - {Replacement(id)} == s.fs - {Replacement(id)};
    case Unbuilding(id) => assert t.fs - {Replacement(id)} == s.fs - {Replacement(id)};
    case _ =>
  }

  lemma RetireShapes(start: Fs, s: State, t: State)
    requires Shaped(start, s) && SwitchStep(s, t) && s.control.Built?
    ensures Shaped(start, t)
  {
    var id := s.control.id;
    var r := Replacement(id);
    if t.control.Vacant? {
      if t.control.older.Some? {
        var retired := t.control.older.value;
        assert t.fs - {r} - {Previous} == (start - {Previous})[Retired(retired) := start[Previous]];
      } else {
        assert t.fs - {r} - {Previous} == start;
      }
    }
  }

  lemma SwitchShapes(start: Fs, s: State, t: State)
    requires Shaped(start, s) && SwitchStep(s, t)
    ensures Shaped(start, t)
  {
    if s.control.Built? {
      RetireShapes(start, s, t);
    } else {
      var r := Replacement(s.control.id);
      if t.control.Linked? {
        assert t.fs - {r} - {Previous} == s.fs - {r} - {Previous};
      }
      if t.control.Exchanged? {
        assert t.fs[Current] == LinkTo(s.control.id);
      }
    }
  }

  lemma UndoShapes(start: Fs, s: State, t: State)
    requires Shaped(start, s) && UndoStep(s, t)
    ensures Shaped(start, t)
  {
    match s.control
    case Undoing(id, older) =>
      assert t.fs - {Replacement(id)} - {Previous} == s.fs - {Replacement(id)} - {Previous};
    case UndoingTree(id, older) =>
      assert t.fs - {Replacement(id)} - {Previous} == s.fs - {Replacement(id)} - {Previous};
      if t.control.UndoingName? {
        assert t.fs == t.fs - {Replacement(id)} - {Previous};
      }
    case UndoingName(older) =>
      assert t.fs == start;
    case _ =>
  }

  lemma DiscardShapes(start: Fs, s: State, t: State)
    requires Shaped(start, s) && DiscardStep(s, t)
    ensures Shaped(start, t)
  {
    hide Resolve;
    var id :| Replacement(id) !in start && Current in s.fs && s.fs[Current] == LinkTo(id);
    assert Current in t.fs && t.fs[Current] == LinkTo(id);
  }

  lemma StepShapes(start: Fs, s: State, t: State)
    requires Sound(start) && Shaped(start, s) && ReplaceStep(s, t) && (s.control == Idle ==> s.fs == start)
    ensures Shaped(start, t)
  {
    hide Sound, Shaped, BuildStep, SwitchStep, UndoStep, DiscardStep;
    if BuildStep(s, t) {
      BuildShapes(start, s, t);
    } else if SwitchStep(s, t) {
      SwitchShapes(start, s, t);
    } else if UndoStep(s, t) {
      UndoShapes(start, s, t);
    } else {
      DiscardShapes(start, s, t);
    }
  }

  lemma {:induction false} RunShapes(run: seq<State>)
    requires ReplaceRun(run) && Sound(run[0].fs)
    ensures forall i :: 0 <= i < |run| ==> Shaped(run[0].fs, run[i])
    decreases |run|
  {
    hide ReplaceStep, Shaped, Sound;
    var n := |run| - 1;
    if n == 0 {
      StartIsShaped(run[0]);
    } else {
      var init := run[..n];
      forall i | 0 <= i < n - 1 ensures ReplaceStepAt(init, i) {
        assert ReplaceStepAt(run, i);
      }
      RunShapes(init);
      assert init[n - 1] == run[n - 1] && ReplaceStepAt(run, n - 1);
      StepShapes(run[0].fs, run[n - 1], run[n]);
      assert forall i :: 0 <= i < n ==> run[i] == init[i];
    }
  }

  lemma StartIsShaped(s: State)
    requires s.control == Idle
    ensures Shaped(s.fs, s)
  {
  }

  // ---- what a sweep makes of it ----

  /** A sound directory refers to nothing that is not there. */
  lemma NewIsUnnamed(start: Fs, id: nat)
    requires Sound(start) && Replacement(id) !in start
    ensures forall n :: n in {Current, Previous} && n in start ==> start[n] != LinkTo(id)
    ensures Replacement(id) !in Live(start)
  {
  }

  /** Whatever has been built of a new replacement, a sweep removes it and nothing else. */
  lemma LeftoverIsSwept(start: Fs, fs: Fs, id: nat)
    requires Sound(start) && Tidy(start) && Beside(start, fs, id)
    ensures Reconciled(fs) == start
  {
    hide Sound;
    NewIsUnnamed(start, id);
    SameLive(start, fs);
    assert Orphan(fs, Replacement(id));
    forall n | n in Orphans(fs) ensures n == Replacement(id) {
      assert n != Replacement(id) ==> n in start;
    }
    assert Orphans(fs) == {Replacement(id)};
  }

  lemma TidyIsSwept(start: Fs)
    requires Tidy(start)
    ensures Reconciled(start) == start
  {
    assert Orphans(start) == {};
  }

  /** A sweep leaves the two names alone. */
  lemma SweepKeepsNames(fs: Fs)
    ensures SameNames(fs, Reconciled(fs))
  {
  }

  /** Where the names stand as they did, the directory is the one before or has a leftover beside it. */
  lemma NamesTell(start: Fs, s: State)
    requires Sound(start) && Shaped(start, s) && SameNames(start, s.fs)
    ensures Left(start, s.fs)
  {
    hide Names;
    match s.control
    case Idle => NotSwitched(start, s.fs);
    case Vacant(id, older) => BareIsLeft(start, s.fs, id, older);
    case Linked(id, older) => BareIsLeft(start, s.fs, id, older);
    case Undoing(id, older) => BareIsLeft(start, s.fs, id, older);
    case UndoingTree(id, older) => BareIsLeft(start, s.fs, id, older);
    case UndoingName(older) =>
    case _ => NotSwitched(start, s.fs);
  }

  lemma NotSwitched(start: Fs, fs: Fs)
    requires Sound(start) && SameNames(start, fs)
    ensures !Switched(start, fs)
  {
    if Switched(start, fs) {
      var id :| Replacement(id) !in start && Current in fs && fs[Current] == LinkTo(id);
      NewIsUnnamed(start, id);
      assert false;
    }
  }

  lemma BareIsLeft(start: Fs, fs: Fs, id: nat, older: Option<nat>)
    requires Sound(start) && SameNames(start, fs) && BareBeside(start, fs, id, older)
    ensures Left(start, fs)
  {
    hide Sound;
    NewIsUnnamed(start, id);
    if older == None {
      assert Previous !in fs;
      assert fs - {Replacement(id)} == fs - {Replacement(id)} - {Previous};
      assert Beside(start, fs, id);
    }
  }

  /** Stopped anywhere, a replace of a sound and tidy directory is undone by a sweep if and only if the
      current and the previous runtime are named as they were: half-built and half-removed replacements
      go, and nothing else is missing or left over. */
  lemma SweepRestoresExactly(run: seq<State>)
    requires ReplaceRun(run) && Sound(run[0].fs) && Tidy(run[0].fs)
    ensures forall i :: 0 <= i < |run| ==>
      (Reconciled(run[i].fs) == run[0].fs <==> SameNames(run[0].fs, run[i].fs))
  {
    hide Sound, Tidy, Shaped, Reconciled, SameNames, Beside;
    RunShapes(run);
    var start := run[0].fs;
    forall i | 0 <= i < |run|
      ensures Reconciled(run[i].fs) == start <==> SameNames(start, run[i].fs) {
      if Reconciled(run[i].fs) == start {
        SweepKeepsNames(run[i].fs);
        SameNamesBack(run[i].fs, start);
      }
      if SameNames(start, run[i].fs) {
        NamesTell(start, run[i]);
        TidyIsSwept(start);
        if id :| Beside(start, run[i].fs, id) {
          LeftoverIsSwept(start, run[i].fs, id);
        }
      }
    }
  }

  lemma SameNamesBack(a: Fs, b: Fs)
    requires SameNames(a, b)
    ensures SameNames(b, a)
  {
  }

  /** With a predecessor, linked or in place, the names stand exactly before the retirement, and when the
      operation is over with the current runtime still the one of the start. */
  lemma SweepRestoresBeforeRetirement(run: seq<State>)
    requires ReplaceRun(run) && Sound(run[0].fs) && Tidy(run[0].fs) && Previous in run[0].fs
    ensures forall i :: 0 <= i < |run| ==> Current in run[i].fs
    ensures forall i :: 0 <= i < |run| ==>
      (Reconciled(run[i].fs) == run[0].fs <==>
       BeforeRetirement(run[i].control) && run[i].fs[Current] == run[0].fs[Current])
  {
    hide Sound, Tidy, Shaped, Reconciled, SameNames;
    RunShapes(run);
    SweepRestoresExactly(run);
    forall i | 0 <= i < |run|
      ensures Current in run[i].fs && Current in run[0].fs
      ensures SameNames(run[0].fs, run[i].fs) <==>
        BeforeRetirement(run[i].control) && run[i].fs[Current] == run[0].fs[Current] {
      StandBefore(run[0].fs, run[i]);
    }
  }

  lemma StandBefore(start: Fs, s: State)
    requires Sound(start) && Shaped(start, s) && Previous in start
    ensures Current in s.fs && Current in start
    ensures SameNames(start, s.fs) <==> BeforeRetirement(s.control) && s.fs[Current] == start[Current]
  {
    hide Names;
    CurrentIsThere(start, s);
    match s.control
    case Idle =>
      if Switched(start, s.fs) {
        SwitchedDiffers(start, s.fs);
      }
    case Building(id) => assert s.fs[Current] == start[Current];
    case Unbuilding(id) => assert s.fs[Current] == start[Current];
    case Built(id) => assert s.fs[Current] == start[Current];
    case Vacant(id, older) =>
    case Linked(id, older) => NewIsUnnamed(start, id);
    case Undoing(id, older) => NewIsUnnamed(start, id);
    case UndoingTree(id, older) =>
    case UndoingName(older) =>
    case _ => SwitchedDiffers(start, s.fs);
  }

  lemma SwitchedDiffers(start: Fs, fs: Fs)
    requires Sound(start) && Switched(start, fs)
    ensures Current in fs && Current in start && fs[Current] != start[Current]
  {
    var id :| Replacement(id) !in start && Current in fs && fs[Current] == LinkTo(id);
    NewIsUnnamed(start, id);
  }

  lemma CurrentIsThere(start: Fs, s: State)
    requires Sound(start) && Shaped(start, s)
    ensures Current in s.fs && Current in start
  {
    match s.control
    case Building(id) => assert Current in s.fs - {Replacement(id)};
    case Unbuilding(id) => assert Current in s.fs - {Replacement(id)};
    case Built(id) => assert Current in s.fs - {Replacement(id)};
    case Vacant(id, older) => assert Current in s.fs - {Replacement(id)} - {Previous};
    case Linked(id, older) => assert Current in s.fs - {Replacement(id)} - {Previous};
    case Undoing(id, older) => assert Current in s.fs - {Replacement(id)} - {Previous};
    case UndoingTree(id, older) => assert Current in s.fs - {Replacement(id)} - {Previous};
    case _ =>
  }
}
