/** The directory of installed runtimes as a machine of single filesystem operations: replace,
    rollback and reconcile, with a crash between any two. */
module Runtime {
  import opened Wrappers

  datatype Name = Current | Previous | Replacement(id: nat) | Retired(id: nat) | Other(text: string)
  datatype Part = Wheel | Manifest | Packs | Environment | Freeze
  datatype Target = Sibling(name: Name) | Elsewhere
  datatype Entry = Dir(parts: set<Part>) | Link(target: Target) | File
  type Fs = map<Name, Entry>

  const ALL_PARTS: set<Part> := {Wheel, Manifest, Packs, Environment, Freeze}

  /** The order in which a runtime is built. */
  function NextPart(parts: set<Part>): Part {
    if Wheel !in parts then Wheel
    else if Manifest !in parts then Manifest
    else if Packs !in parts then Packs
    else if Environment !in parts then Environment
    else Freeze
  }

  function LinkTo(id: nat): Entry { Link(Sibling(Replacement(id))) }

  /** The entry a name leads to through links, at most as many as there are names. */
  function Resolve(fs: Fs, n: Name, hops: nat): Option<Name>
    decreases hops
  {
    if n !in fs then None
    else if !fs[n].Link? then Some(n)
    else if !fs[n].target.Sibling? || hops == 0 then None
    else Resolve(fs, fs[n].target.name, hops - 1)
  }

  function Resolved(fs: Fs, n: Name): Option<Name> { Resolve(fs, n, |fs|) }

  /** What the guard on a runtime checks: it exists, with its manifest and entry point. */
  predicate Installed(fs: Fs, n: Name) {
    && Resolved(fs, n).Some?
    && Resolved(fs, n).value in fs && fs[Resolved(fs, n).value].Dir?
    && {Manifest, Environment} <= fs[Resolved(fs, n).value].parts
  }

  function Swapped(fs: Fs): Fs
    requires Current in fs && Previous in fs
  {
    fs[Current := fs[Previous]][Previous := fs[Current]]
  }

  /** The siblings that the current or the previous runtime links to. */
  function Live(fs: Fs): set<Name> {
    set n <- {Current, Previous} | n in fs && fs[n].Link? && fs[n].target.Sibling? :: fs[n].target.name
  }

  predicate Orphan(fs: Fs, n: Name) {
    n in fs && n.Replacement? && fs[n].Dir? && n !in Live(fs)
  }

  function Orphans(fs: Fs): set<Name> { set n <- fs | Orphan(fs, n) }

  // ---- the machine ----

  /** Where the running operation stands.  `older` names what was retired, if anything was. */
  datatype Control =
    | Idle
    | Building(id: nat) | Unbuilding(id: nat) | Built(id: nat)
    | Vacant(id: nat, older: Option<nat>) | Linked(id: nat, older: Option<nat>)
    | Undoing(id: nat, older: Option<nat>) | UndoingTree(id: nat, older: Option<nat>) | UndoingName(older: Option<nat>)
    | Exchanged(id: nat, older: Option<nat>) | Removing(n: Name)
    | Sweeping(todo: set<Name>) | SweepingTree(n: Name, todo: set<Name>)

  datatype State = State(fs: Fs, control: Control)

  /** One step of a recursive removal: a part goes, or the emptied directory does. */
  ghost predicate RemovesFrom(fs: Fs, n: Name, after: Fs) {
    n in fs && fs[n].Dir? && exists part :: part in fs[n].parts && after == fs[n := Dir(fs[n].parts - {part})]
  }

  ghost predicate Removes(fs: Fs, n: Name, after: Fs) {
    n in fs && fs[n] == Dir({}) && after == fs - {n}
  }

  ghost predicate BuildStep(s: State, t: State) {
    match s.control
    case Idle =>
      // the guard on the current runtime, then mkdir of a fresh name
      Installed(s.fs, Current) && t.control.Building? && Replacement(t.control.id) !in s.fs
      && t.fs == s.fs[Replacement(t.control.id) := Dir({})]
    case Building(id) =>
      || (t.fs == s.fs && t.control == Unbuilding(id))
      || (Replacement(id) in s.fs && s.fs[Replacement(id)].Dir?
          && var parts := s.fs[Replacement(id)].parts;
            if parts == ALL_PARTS then t == State(s.fs, Built(id))
            else t == State(s.fs[Replacement(id) := Dir(parts + {NextPart(parts)})], Building(id)))
    case Unbuilding(id) =>
      || (RemovesFrom(s.fs, Replacement(id), t.fs) && t.control == s.control)
      || (Removes(s.fs, Replacement(id), t.fs) && t.control == Idle)
    case _ => false
  }

  ghost predicate SwitchStep(s: State, t: State) {
    match s.control
    case Built(id) =>
      // retire the predecessor, find none, or fail to rename it
      || (Previous in s.fs && t.control.Vacant? && t.control.id == id && t.control.older.Some?
          && Retired(t.control.older.value) !in s.fs
          && t.fs == (s.fs - {Previous})[Retired(t.control.older.value) := s.fs[Previous]])
      || (Previous !in s.fs && t == State(s.fs, Vacant(id, None)))
      || (Previous in s.fs && t == State(s.fs, Idle))
    case Vacant(id, older) =>
      || (Previous !in s.fs && t == State(s.fs[Previous := LinkTo(id)], Linked(id, older)))
      || t == State(s.fs, Undoing(id, older))
    case Linked(id, older) =>
      || (Current in s.fs && Previous in s.fs && t == State(Swapped(s.fs), Exchanged(id, older)))
      || t == State(s.fs, Undoing(id, older))
    case _ => false
  }

  /** The directory without its predecessor's name, where that leads to the replacement. */
  function WithoutLinkTo(fs: Fs, id: nat): Fs {
    if Previous in fs && fs[Previous] == LinkTo(id) then fs - {Previous} else fs
  }

  ghost predicate UndoStep(s: State, t: State) {
    match s.control
    case Undoing(id, older) =>
      t == State(WithoutLinkTo(s.fs, id), UndoingTree(id, older))
    case UndoingTree(id, older) =>
      || (RemovesFrom(s.fs, Replacement(id), t.fs) && t.control == s.control)
      || (Removes(s.fs, Replacement(id), t.fs) && t.control == UndoingName(older))
    case UndoingName(older) =>
      t.control == Idle
      && if older.Some? then
          Retired(older.value) in s.fs && Previous !in s.fs
          && t.fs == (s.fs - {Retired(older.value)})[Previous := s.fs[Retired(older.value)]]
        else t.fs == s.fs
    case _ => false
  }

  /** The discard's guard on a retired link: it leads to a replacement other than the current runtime. */
  predicate Discardable(fs: Fs, retired: nat) {
    && Retired(retired) in fs && fs[Retired(retired)].Link?
    && fs[Retired(retired)].target.Sibling? && fs[Retired(retired)].target.name.Replacement?
    && var target := fs[Retired(retired)].target.name;
      Resolved(fs, target).Some? && Resolved(fs, Current).Some? && Resolved(fs, target) != Resolved(fs, Current)
  }

  ghost predicate DiscardStep(s: State, t: State) {
    match s.control
    case Exchanged(_, None) => t == State(s.fs, Idle)
    case Exchanged(_, Some(retired)) =>
      || (Discardable(s.fs, retired)
          && t == State(s.fs - {Retired(retired)}, Removing(s.fs[Retired(retired)].target.name)))
      || (Retired(retired) in s.fs && s.fs[Retired(retired)].Dir? && t == State(s.fs, Removing(Retired(retired))))
      || (!Discardable(s.fs, retired) && !(Retired(retired) in s.fs && s.fs[Retired(retired)].Dir?)
          && t == State(s.fs, Idle))
    case Removing(n) =>
      || (RemovesFrom(s.fs, n, t.fs) && t.control == s.control)
      || (Removes(s.fs, n, t.fs) && t.control == Idle)
    case _ => false
  }

  ghost predicate RollbackStep(s: State, t: State) {
    s.control == Idle && Installed(s.fs, Current) && Installed(s.fs, Previous) && t == State(Swapped(s.fs), Idle)
  }

  ghost predicate SweepStep(s: State, t: State) {
    match s.control
    case Idle => t == State(s.fs, Sweeping(Orphans(s.fs)))
    case Sweeping(todo) =>
      if todo == {} then t == State(s.fs, Idle)
      else exists n :: n in todo && t == State(s.fs, SweepingTree(n, todo - {n}))
    case SweepingTree(n, todo) =>
      || (RemovesFrom(s.fs, n, t.fs) && t.control == s.control)
      || (Removes(s.fs, n, t.fs) && t.control == Sweeping(todo))
    case _ => false
  }

  /** A crash, or an error nothing handles, ends the operation where it stands. */
  ghost predicate CrashStep(s: State, t: State) { t == State(s.fs, Idle) }

  ghost predicate Step(s: State, t: State) {
    || BuildStep(s, t) || SwitchStep(s, t) || UndoStep(s, t) || DiscardStep(s, t)
    || RollbackStep(s, t) || SweepStep(s, t) || CrashStep(s, t)
  }

  ghost predicate StepAt(run: seq<State>, i: nat)
    requires i + 1 < |run|
  {
    Step(run[i], run[i + 1])
  }

  ghost predicate IsRun(run: seq<State>) {
    run != [] && forall i {:trigger StepAt(run, i)} :: 0 <= i < |run| - 1 ==> StepAt(run, i)
  }

  // ---- what every state keeps ----

  ghost predicate Whole(fs: Fs, n: Name) { n in fs && fs[n] == Dir(ALL_PARTS) }

  /** An entry that is a complete runtime, or a link to one. */
  ghost predicate Names(fs: Fs, e: Entry) {
    e == Dir(ALL_PARTS) || (e.Link? && e.target.Sibling? && e.target.name.Replacement? && Whole(fs, e.target.name))
  }

  /** The current runtime is complete; the previous one, when there is one, is a different complete one. */
  ghost predicate Sound(fs: Fs) {
    && Current in fs && Names(fs, fs[Current])
    && (Previous in fs ==> Names(fs, fs[Previous]) && !(fs[Current].Link? && fs[Previous] == fs[Current]))
  }

  ghost predicate Unreferenced(fs: Fs, n: Name) {
    forall m :: m in fs && (m == Current || m == Previous) ==> fs[m] != Link(Sibling(n))
  }

  ghost predicate DirAt(fs: Fs, n: Name) { n in fs && fs[n].Dir? }

  /** A complete runtime that is neither the replacement nor what `n` links to. */
  ghost predicate Apart(fs: Fs, e: Entry, id: nat, n: Name) {
    Names(fs, e) && e != LinkTo(id) && !(e.Link? && n in fs && e == fs[n])
  }

  /** Putting the retired entry back would be sound, and it does not lead to the replacement. */
  ghost predicate Restorable(fs: Fs, older: Option<nat>, id: nat) {
    older.Some? ==> Retired(older.value) in fs && Apart(fs, fs[Retired(older.value)], id, Current)
  }

  ghost predicate InControl(s: State)
    requires Current in s.fs
  {
    var fs := s.fs;
    match s.control
    case Idle => true
    case Building(id) => DirAt(fs, Replacement(id)) && Unreferenced(fs, Replacement(id))
    case Unbuilding(id) => DirAt(fs, Replacement(id)) && Unreferenced(fs, Replacement(id))
    case Built(id) => Whole(fs, Replacement(id)) && Unreferenced(fs, Replacement(id))
    case Vacant(id, older) =>
      && Previous !in fs && Whole(fs, Replacement(id)) && Unreferenced(fs, Replacement(id))
      && Restorable(fs, older, id)
    case Linked(id, older) =>
      && Previous in fs && fs[Previous] == LinkTo(id) && fs[Current] != LinkTo(id)
      && Whole(fs, Replacement(id)) && Restorable(fs, older, id)
    case Undoing(id, older) =>
      && (Previous in fs ==> fs[Previous] == LinkTo(id)) && fs[Current] != LinkTo(id)
      && Whole(fs, Replacement(id)) && Restorable(fs, older, id)
    case UndoingTree(id, older) =>
      Previous !in fs && fs[Current] != LinkTo(id) && DirAt(fs, Replacement(id)) && Restorable(fs, older, id)
    case UndoingName(older) =>
      Previous !in fs && exists id :: Restorable(fs, older, id)
    case Exchanged(id, older) =>
      && fs[Current] == LinkTo(id) && Previous in fs
      && (older.Some? ==> Retired(older.value) in fs && Apart(fs, fs[Retired(older.value)], id, Previous))
    case Removing(n) => (n.Replacement? || n.Retired?) && DirAt(fs, n) && Unreferenced(fs, n)
    case Sweeping(todo) => forall n :: n in todo ==> n.Replacement? && DirAt(fs, n) && Unreferenced(fs, n)
    case SweepingTree(n, todo) =>
      && n !in todo && n.Replacement? && DirAt(fs, n) && Unreferenced(fs, n)
      && forall m :: m in todo ==> m.Replacement? && DirAt(fs, m) && Unreferenced(fs, m)
  }

  ghost predicate Invariant(s: State) { Sound(s.fs) && InControl(s) }

  /** Changing a name nothing refers to leaves the directory sound. */
  lemma SoundFrame(fs: Fs, n: Name, after: Fs)
    requires Sound(fs) && (n.Replacement? || n.Retired?) && Unreferenced(fs, n)
    requires after == fs - {n} || (n in after && after == fs[n := after[n]])
    ensures Sound(after)
  {
    assert forall m :: m != n ==> (m in fs <==> m in after) && (m in fs ==> after[m] == fs[m]);
    assert fs[Current] != Link(Sibling(n));
    if Previous in fs {
      assert fs[Previous] != Link(Sibling(n));
    }
  }

  lemma RemovalFrame(fs: Fs, n: Name, after: Fs)
    requires Sound(fs) && (n.Replacement? || n.Retired?) && Unreferenced(fs, n)
    requires RemovesFrom(fs, n, after) || Removes(fs, n, after)
    ensures Sound(after)
    ensures forall m :: m != n ==> (m in fs <==> m in after) && (m in fs ==> after[m] == fs[m])
    ensures RemovesFrom(fs, n, after) ==> DirAt(after, n)
  {
    SoundFrame(fs, n, after);
  }

  lemma BuildKeeps(s: State, t: State)
    requires Invariant(s) && BuildStep(s, t)
    ensures Invariant(t)
  {
    hide Installed, Sound;
    match s.control
    case Idle =>
      var n := Replacement(t.control.id);
      FreshUnreferenced(s.fs, n);
      SoundFrame(s.fs, n, t.fs);
    case Building(id) =>
      if t.fs != s.fs {
        SoundFrame(s.fs, Replacement(id), t.fs);
      }
    case Unbuilding(id) =>
      RemovalFrame(s.fs, Replacement(id), t.fs);
    case _ =>
  }

  lemma FreshUnreferenced(fs: Fs, n: Name)
    requires Sound(fs) && n !in fs
    ensures Unreferenced(fs, n)
  {
  }

  lemma SwitchKeeps(s: State, t: State)
    requires Invariant(s) && SwitchStep(s, t)
    ensures Invariant(t)
  {
  }

  lemma UndoKeeps(s: State, t: State)
    requires Invariant(s) && UndoStep(s, t)
    ensures Invariant(t)
  {
    match s.control
    case Undoing(id, older) =>
    case UndoingTree(id, older) =>
      RemovalFrame(s.fs, Replacement(id), t.fs);
      assert Restorable(t.fs, older, id);
    case UndoingName(older) =>
    case _ =>
  }

  lemma DiscardKeeps(s: State, t: State)
    requires Invariant(s) && DiscardStep(s, t)
    ensures Invariant(t)
  {
    hide Resolve;
    match s.control
    case Exchanged(id, older) =>
      if older.Some? {
        RetiredUnreferenced(s.fs, older.value);
        if t.fs != s.fs {
          SoundFrame(s.fs, Retired(older.value), t.fs);
        }
      }
    case Removing(n) =>
      RemovalFrame(s.fs, n, t.fs);
    case _ =>
  }

  lemma RetiredUnreferenced(fs: Fs, id: nat)
    requires Sound(fs)
    ensures Unreferenced(fs, Retired(id))
  {
  }

  lemma SweepKeeps(s: State, t: State)
    requires Invariant(s) && SweepStep(s, t)
    ensures Invariant(t)
  {
  }

  lemma RollbackKeeps(s: State, t: State)
    requires Invariant(s) && RollbackStep(s, t)
    ensures Invariant(t)
  {
    hide Installed;
    assert Previous in s.fs by { InstalledIsThere(s.fs, Previous); }
  }

  lemma InstalledIsThere(fs: Fs, n: Name)
    requires Installed(fs, n)
    ensures n in fs
  {
  }

  lemma StepKeeps(s: State, t: State)
    requires Invariant(s) && Step(s, t)
    ensures Invariant(t)
  {
    hide Sound, InControl, BuildStep, SwitchStep, UndoStep, DiscardStep, RollbackStep, SweepStep;
    if BuildStep(s, t) {
      BuildKeeps(s, t);
    } else if SwitchStep(s, t) {
      SwitchKeeps(s, t);
    } else if UndoStep(s, t) {
      UndoKeeps(s, t);
    } else if DiscardStep(s, t) {
      DiscardKeeps(s, t);
    } else if RollbackStep(s, t) {
      RollbackKeeps(s, t);
    } else if SweepStep(s, t) {
      SweepKeeps(s, t);
    } else {
      assert CrashStep(s, t);
      IdleIsFree(t);
    }
  }

  lemma IdleIsFree(t: State)
    requires Sound(t.fs) && t.control == Idle
    ensures Invariant(t)
  {
  }

  /** From a completed install, after every step of every run of replaces, rollbacks and sweeps,
      crashes anywhere included, the current runtime is complete and the previous one, when there is
      one, is a different complete one. */
  lemma {:induction false} EveryStateSound(run: seq<State>)
    requires IsRun(run) && Sound(run[0].fs) && run[0].control == Idle
    ensures forall i :: 0 <= i < |run| ==> Invariant(run[i])
    decreases |run|
  {
    hide Step, Sound, InControl;
    var n := |run| - 1;
    if n == 0 {
      IdleIsFree(run[0]);
    } else {
      var init := run[..n];
      forall i | 0 <= i < n - 1 ensures StepAt(init, i) {
        assert StepAt(run, i);
      }
      EveryStateSound(init);
      assert init[n - 1] == run[n - 1] && StepAt(run, n - 1);
      StepKeeps(run[n - 1], run[n]);
      assert forall i :: 0 <= i < n ==> run[i] == init[i];
    }
  }

  /** The discard's guard compares with the current runtime only.  Were the retired link to lead
      where the previous one does, the guard would let it pass and the predecessor would be lost. */
  lemma GuardAloneLosesThePredecessor(fs: Fs, id: nat, k: nat, retired: nat) returns (run: seq<State>)
    requires id != k && Whole(fs, Replacement(id)) && Whole(fs, Replacement(k))
    requires Current in fs && fs[Current] == LinkTo(id) && Previous in fs && fs[Previous] == LinkTo(k)
    requires Retired(retired) in fs && fs[Retired(retired)] == LinkTo(k)
    ensures Sound(fs) && |run| == 3 && IsRun(run) && run[0] == State(fs, Exchanged(id, Some(retired)))
    ensures Previous in run[2].fs && !Names(run[2].fs, run[2].fs[Previous])
  {
    hide BuildStep, SwitchStep, UndoStep, RollbackStep, SweepStep;
    var n := Replacement(k);
    LinkResolves(fs, Current, Replacement(id));
    assert Resolved(fs, n) == Some(n);
    var unlinked := fs - {Retired(retired)};
    var torn := unlinked[n := Dir(ALL_PARTS - {Wheel})];
    run := [State(fs, Exchanged(id, Some(retired))), State(unlinked, Removing(n)), State(torn, Removing(n))];
    assert Discardable(fs, retired);
    assert StepAt(run, 0);
    assert Wheel in unlinked[n].parts && RemovesFrom(unlinked, n, torn);
    assert StepAt(run, 1);
  }

  lemma LinkResolves(fs: Fs, n: Name, m: Name)
    requires n in fs && fs[n] == Link(Sibling(m)) && m in fs && !fs[m].Link?
    ensures Resolved(fs, n) == Some(m)
  {
    assert fs.Keys != {};
    assert |fs| >= 1;
    assert Resolve(fs, m, |fs| - 1) == Some(m);
  }

  // ---- completed operations ----

  /** What a completed replace leaves. */
  function ReplacedFs(fs: Fs, id: nat): Fs
    requires Current in fs
  {
    var older :=
      if Previous in fs && fs[Previous].Link? && fs[Previous].target.Sibling? then {fs[Previous].target.name}
      else {};
    (fs - older)[Replacement(id) := Dir(ALL_PARTS)][Current := LinkTo(id)][Previous := fs[Current]]
  }

  function Reconciled(fs: Fs): Fs { fs - Orphans(fs) }

  /** No leftovers: nothing retired, and every replacement directory is referred to. */
  ghost predicate Tidy(fs: Fs) {
    forall n :: n in fs ==> !n.Retired? && (n.Replacement? ==> n in Live(fs))
  }

  /** The directories that hold a runtime or the remains of one. */
  ghost function Runtimes(fs: Fs): set<Name> { set n <- fs | !n.Other? && fs[n].Dir? }

  lemma SoundInstalled(fs: Fs, n: Name)
    requires Sound(fs) && n in fs && (n == Current || n == Previous)
    ensures Installed(fs, n)
  {
    hide Resolve;
    if fs[n].Link? {
      LinkResolves(fs, n, fs[n].target.name);
    } else {
      DirResolves(fs, n);
    }
  }

  lemma DirResolves(fs: Fs, n: Name)
    requires n in fs && !fs[n].Link?
    ensures Resolved(fs, n) == Some(n)
  {
  }

  /** Two rollbacks cancel; each finds both runtimes installed. */
  lemma RollbacksCancel(fs: Fs)
    requires Sound(fs) && Previous in fs
    ensures Installed(fs, Current) && Installed(fs, Previous) && Sound(Swapped(fs))
    ensures Installed(Swapped(fs), Current) && Installed(Swapped(fs), Previous)
    ensures Swapped(Swapped(fs)) == fs
  {
    hide Installed;
    SoundInstalled(fs, Current);
    SoundInstalled(fs, Previous);
    SoundInstalled(Swapped(fs), Current);
    SoundInstalled(Swapped(fs), Previous);
  }

  /** A replace makes the old current runtime the predecessor, and frees the older one. */
  lemma ReplacedIsSound(fs: Fs, id: nat)
    requires Sound(fs) && Replacement(id) !in fs
    ensures Sound(ReplacedFs(fs, id)) && ReplacedFs(fs, id)[Previous] == fs[Current]
    ensures Previous in fs && fs[Previous].Link? ==> fs[Previous].target.name !in ReplacedFs(fs, id)
    ensures Tidy(fs) ==> Tidy(ReplacedFs(fs, id))
  {
  }

  lemma SameLive(fs: Fs, after: Fs)
    requires forall n :: n in {Current, Previous} ==> (n in fs <==> n in after) && (n in fs ==> after[n] == fs[n])
    ensures Live(after) == Live(fs)
  {
  }

  /** Sweeping removes every orphan and nothing else, and a second sweep removes nothing. */
  lemma SweepIsIdempotent(fs: Fs)
    ensures Orphans(Reconciled(fs)) == {} && Reconciled(Reconciled(fs)) == Reconciled(fs)
    ensures Live(Reconciled(fs)) == Live(fs) && forall n :: n in Live(fs) && n in fs ==> n in Reconciled(fs)
    ensures Sound(fs) ==> Sound(Reconciled(fs))
  {
    var after := Reconciled(fs);
    SameLive(fs, after);
  }

  /** A replace whose retirement rename fails leaves its replacement behind; a sweep restores the directory. */
  lemma RetireFailureIsSwept(fs: Fs, id: nat)
    requires Sound(fs) && Tidy(fs) && Replacement(id) !in fs
    ensures var left := fs[Replacement(id) := Dir(ALL_PARTS)];
      Orphans(left) == {Replacement(id)} && Reconciled(left) == fs
  {
    var left := fs[Replacement(id) := Dir(ALL_PARTS)];
    FreshUnreferenced(fs, Replacement(id));
    SameLive(fs, left);
    assert Orphan(left, Replacement(id));
    forall n | n in Orphans(left) ensures n == Replacement(id) {
      assert n in left && n.Replacement? && n !in Live(fs);
    }
  }

  datatype Operation = Replace(id: nat) | FailedReplace | Rollback | Reconcile

  ghost predicate Possible(op: Operation, fs: Fs) {
    match op
    case Replace(id) => Replacement(id) !in fs
    case Rollback => Previous in fs
    case _ => true
  }

  ghost function Completed(op: Operation, fs: Fs): Fs
    requires Sound(fs) && Possible(op, fs)
  {
    match op
    case Replace(id) => ReplacedFs(fs, id)
    case FailedReplace => fs
    case Rollback => Swapped(fs)
    case Reconcile => Reconciled(fs)
  }

  ghost predicate CompletedStep(fs: Fs, after: Fs) {
    Sound(fs) && exists op :: Possible(op, fs) && after == Completed(op, fs)
  }

  ghost predicate CompletedAt(states: seq<Fs>, i: nat)
    requires i + 1 < |states|
  {
    CompletedStep(states[i], states[i + 1])
  }

  lemma TidyKeepsTwo(fs: Fs)
    requires Sound(fs) && Tidy(fs)
    ensures |Runtimes(fs)| <= 2
  {
    var first := if fs[Current].Link? then fs[Current].target.name else Current;
    var second := if Previous !in fs then first else if fs[Previous].Link? then fs[Previous].target.name else Previous;
    assert Runtimes(fs) <= {first, second};
    Smaller(Runtimes(fs), {first, second});
  }

  lemma {:induction false} Smaller(a: set<Name>, b: set<Name>)
    requires a <= b
    ensures |a| <= |b|
    decreases |a|
  {
    if a != {} {
      var n :| n in a;
      Smaller(a - {n}, b - {n});
    }
  }

  lemma CompletedKeeps(fs: Fs, op: Operation)
    requires Sound(fs) && Tidy(fs) && Possible(op, fs)
    ensures Sound(Completed(op, fs)) && Tidy(Completed(op, fs))
  {
    hide Sound, Tidy, Installed, ReplacedFs, Reconciled;
    match op
    case Replace(id) => ReplacedIsSound(fs, id);
    case FailedReplace =>
    case Rollback => RollbacksCancel(fs); SwapIsTidy(fs);
    case Reconcile => SweepIsIdempotent(fs); SweepIsTidy(fs);
  }

  lemma SwapIsTidy(fs: Fs)
    requires Tidy(fs) && Current in fs && Previous in fs
    ensures Tidy(Swapped(fs))
  {
    forall m ensures m in Live(Swapped(fs)) <==> m in Live(fs) {
      if m in Live(fs) {
        var n :| n in {Current, Previous} && n in fs && fs[n] == Link(Sibling(m));
        var other := if n == Current then Previous else Current;
        assert other in Swapped(fs) && Swapped(fs)[other] == Link(Sibling(m));
      }
      if m in Live(Swapped(fs)) {
        var n :| n in {Current, Previous} && n in Swapped(fs) && Swapped(fs)[n] == Link(Sibling(m));
        var other := if n == Current then Previous else Current;
        assert other in fs && fs[other] == Link(Sibling(m));
      }
    }
  }

  lemma SweepIsTidy(fs: Fs)
    requires Tidy(fs)
    ensures Tidy(Reconciled(fs))
  {
    SweepIsIdempotent(fs);
  }

  /** Runs of completed operations never hold more than two runtimes. */
  lemma {:induction false} TwoRuntimesAtMost(states: seq<Fs>)
    requires states != [] && Sound(states[0]) && Tidy(states[0])
    requires forall i {:trigger CompletedAt(states, i)} :: 0 <= i < |states| - 1 ==> CompletedAt(states, i)
    ensures forall i :: 0 <= i < |states| ==> Sound(states[i]) && Tidy(states[i]) && |Runtimes(states[i])| <= 2
    decreases |states|
  {
    hide Sound, Tidy, Runtimes, Completed;
    TidyKeepsTwo(states[0]);
    if |states| > 1 {
      assert CompletedAt(states, 0);
      var op :| Possible(op, states[0]) && states[1] == Completed(op, states[0]);
      CompletedKeeps(states[0], op);
      var rest := states[1..];
      forall i | 0 <= i < |rest| - 1 ensures CompletedAt(rest, i) {
        assert CompletedAt(states, i + 1);
      }
      TwoRuntimesAtMost(rest);
      forall i | 1 <= i < |states| ensures Sound(states[i]) && Tidy(states[i]) && |Runtimes(states[i])| <= 2 {
        assert states[i] == rest[i - 1];
      }
    }
  }
}
