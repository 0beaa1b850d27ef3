/** The verbs that change the directory of runtimes, one filesystem operation at a time.  The ghost
    trail records every state in between, as a run of the machine. */
module RuntimeDirectory {
  import opened Runtime
  import opened RuntimeSpelled
  import opened Wrappers

  /** Which filesystem operation fails, if one does. */
  datatype Fault = NoFault | BuildFault(copied: nat) | RetireFault | LinkFault | ExchangeFault
  datatype Result = Replaced | NotInstalled | BuildFailed | RetireFailed | LinkFailed | ExchangeFailed | DiscardRefused

  class Directory {
    var entries: Fs
    ghost var trail: seq<State>

    constructor (entries: Fs)
      ensures Valid() && this.entries == entries && trail == [State(entries, Idle)]
    {
      this.entries := entries;
      trail := [State(entries, Idle)];
    }

    ghost predicate Valid()
      reads this
      ensures Valid() ==> trail != []
    {
      trail != [] && IsRun(trail) && trail[|trail| - 1].fs == entries
    }

    ghost function Control(): Control
      requires trail != []
      reads this
    {
      trail[|trail| - 1].control
    }

    /** One filesystem operation. */
    method Act(after: Fs, ghost control: Control)
      requires Valid() && Step(State(entries, Control()), State(after, control))
      modifies this
      ensures Valid() && entries == after && Control() == control && old(trail) <= trail
    {
      hide Step;
      ghost var was := trail;
      ghost var next := State(after, control);
      entries := after;
      trail := trail + [next];
      forall i | 0 <= i < |trail| - 1 ensures StepAt(trail, i) {
        if i < |was| - 1 {
          assert StepAt(was, i);
        } else {
          assert trail[i] == State(old(entries), old(Control()));
        }
      }
    }

    /** A fresh replacement built part by part; a failure removes what was built. */
    method CreateRuntime(id: nat, fault: Fault) returns (ok: bool)
      requires Valid() && Control() == Idle && Installed(entries, Current) && Replacement(id) !in entries
      modifies this
      ensures Valid() && old(trail) <= trail
      ensures ok <==> !(fault.BuildFault? && fault.copied < 5)
      ensures ok ==> Control() == Built(id) && entries == old(entries)[Replacement(id) := Dir(ALL_PARTS)]
      ensures !ok ==> Control() == Idle && entries == old(entries)
    {
      hide Valid, Control, Installed, Step, IsRun, NextPart;
      var n := Replacement(id);
      StartSteps(entries, id);
      Act(entries[n := Dir({})], Building(id));
      var copied := 0;
      while copied < 5
        invariant Valid() && old(trail) <= trail && Control() == Building(id) && 0 <= copied <= 5
        invariant n in entries && entries[n].Dir? && entries == old(entries)[n := entries[n]]
        invariant |entries[n].parts| == copied && entries[n].parts <= ALL_PARTS
        invariant fault.BuildFault? ==> copied <= fault.copied
      {
        var parts := entries[n].parts;
        NextIsMissing(parts);
        BuildSteps(entries, id);
        if fault.BuildFault? && fault.copied == copied {
          Act(entries, Unbuilding(id));
          RemoveTree(n, Unbuilding(id), Idle);
          return false;
        }
        Act(entries[n := Dir(parts + {NextPart(parts)})], Building(id));
        copied := copied + 1;
      }
      AllFive(entries[n].parts);
      BuildSteps(entries, id);
      Act(entries, Built(id));
      return true;
    }

    /** Replace: guard, build, retire, link, exchange, discard.  A failure to link or exchange is
        undone; `retired` is the fresh name the predecessor is set aside under. */
    method ReplaceRuntime(id: nat, retired: nat, fault: Fault) returns (r: Result)
      requires Valid() && Control() == Idle
      requires Replacement(id) !in entries && Retired(retired) !in entries
      modifies this
      ensures Valid() && old(trail) <= trail && Control() == Idle
      ensures r == NotInstalled <==> !LeadsToRuntime(old(entries), Current)
      ensures r == Replaced && Sound(old(entries)) ==> TakesOver(old(entries), id, entries)
      ensures r == RetireFailed ==>
        entries == old(entries)[Replacement(id) := Dir({Wheel, Manifest, Packs, Environment, Freeze})]
      ensures r == NotInstalled <==> !Installed(old(entries), Current)
      ensures Installed(old(entries), Current) ==>
        && (r == BuildFailed <==> fault.BuildFault? && fault.copied < 5)
        && (r == RetireFailed <==> fault == RetireFault && Previous in old(entries))
        && (r == LinkFailed <==> fault == LinkFault)
        && (r == ExchangeFailed <==> fault == ExchangeFault)
        && (r in {Replaced, DiscardRefused} <==> !TakesEffect(fault, old(entries)))
      ensures r in {NotInstalled, BuildFailed, LinkFailed, ExchangeFailed} ==> entries == old(entries)
      ensures r == RetireFailed ==> entries == old(entries)[Replacement(id) := Dir(ALL_PARTS)]
      ensures Sound(old(entries)) ==> r !in {NotInstalled, DiscardRefused}
      ensures Sound(old(entries)) && !TakesEffect(fault, old(entries)) ==>
        r == Replaced && entries == ReplacedFs(old(entries), id)
    {
      hide Installed, IsRun, Step, Sound, ReplacedFs, TakesEffect, TakesOver, LeadsToRuntime;
      ghost var before := entries;
      InstalledLeads(entries, Current);
      if Sound(entries) {
        ReplacedTakesOver(entries, id);
        SoundHasCurrent(entries);
      }
      if !Installed(entries, Current) {
        return NotInstalled;
      }
      InstalledIsThere(entries, Current);
      FaultsTakeEffect(fault, entries);
      var ok := CreateRuntime(id, fault);
      if !ok {
        return BuildFailed;
      }
      r := SwitchRuntime(id, retired, fault, before);
    }

    /** With the replacement built: retire, link, exchange, discard. */
    method SwitchRuntime(id: nat, retired: nat, fault: Fault, ghost before: Fs) returns (r: Result)
      requires Valid() && Control() == Built(id) && entries == before[Replacement(id) := Dir(ALL_PARTS)]
      requires Replacement(id) !in before && Retired(retired) !in before && Current in before
      modifies this
      ensures Valid() && old(trail) <= trail && Control() == Idle
      ensures r in {RetireFailed, LinkFailed, ExchangeFailed, Replaced, DiscardRefused}
      ensures r in {LinkFailed, ExchangeFailed} ==> entries == before
      ensures r == RetireFailed <==> fault == RetireFault && Previous in before
      ensures r == RetireFailed ==> entries == before[Replacement(id) := Dir(ALL_PARTS)]
      ensures r == LinkFailed <==> fault == LinkFault
      ensures r == ExchangeFailed <==> fault == ExchangeFault
      ensures r == Replaced && Sound(before) ==> entries == ReplacedFs(before, id)
      ensures Sound(before) ==> r != DiscardRefused
    {
      hide *;
      if Previous in entries && fault == RetireFault {
        CrashSteps(entries, Built(id));
        Act(entries, Idle);
        return RetireFailed;
      }
      var older := RetirePrevious(id, retired, before);
      SwitchSteps(entries, id, older);
      if fault == LinkFault {
        Act(entries, Undoing(id, older));
        Undo(id, older, before);
        return LinkFailed;
      }
      Act(entries[Previous := LinkTo(id)], Linked(id, older));
      r := CommitRuntime(id, older, fault, before);
    }

    /** With the replacement linked as the predecessor: exchange the two names, then discard. */
    method CommitRuntime(id: nat, older: Option<nat>, fault: Fault, ghost before: Fs) returns (r: Result)
      requires Valid() && Control() == Linked(id, older) && Current in entries && Previous in entries
      requires Current in before
      requires SetAside(before, entries, id, older) && Switched(before, Swapped(entries), id, older)
      modifies this
      ensures Valid() && old(trail) <= trail && Control() == Idle
      ensures r in {ExchangeFailed, Replaced, DiscardRefused}
      ensures r == ExchangeFailed <==> fault == ExchangeFault
      ensures r == ExchangeFailed ==> entries == before
      ensures r == Replaced && Sound(before) ==> entries == ReplacedFs(before, id)
      ensures Sound(before) ==> r != DiscardRefused
    {
      hide *;
      SwitchSteps(entries, id, older);
      if fault == ExchangeFault {
        Act(entries, Undoing(id, older));
        Undo(id, older, before);
        return ExchangeFailed;
      }
      Act(Swapped(entries), Exchanged(id, older));
      r := Discard(id, older, before);
    }

    /** Move any predecessor aside so that its name is free. */
    method RetirePrevious(id: nat, retired: nat, ghost before: Fs) returns (older: Option<nat>)
      requires Valid() && Control() == Built(id) && entries == before[Replacement(id) := Dir(ALL_PARTS)]
      requires Replacement(id) !in before && Retired(retired) !in before && Current in before
      modifies this
      ensures Valid() && old(trail) <= trail && Control() == Vacant(id, older)
      ensures Previous !in entries && Current in entries
      ensures SetAside(before, entries, id, older) && SetAside(before, entries[Previous := LinkTo(id)], id, older)
      ensures Switched(before, Swapped(entries[Previous := LinkTo(id)]), id, older)
    {
      hide IsRun, Step, SetAside, Switched;
      older := if Previous in entries then Some(retired) else None;
      SwitchSteps(entries, id, older);
      if Previous in entries {
        Act((entries - {Previous})[Retired(retired) := entries[Previous]], Vacant(id, older));
      } else {
        Act(entries, Vacant(id, older));
      }
      AsideHolds(before, id, older);
      assert entries == Aside(before, id, older)[Replacement(id) := Dir(ALL_PARTS)];
    }

    /** The exception path: the link goes if it is this replacement's, the replacement goes, and
        the retired predecessor comes back. */
    method Undo(id: nat, older: Option<nat>, ghost before: Fs)
      requires Valid() && Control() == Undoing(id, older) && SetAside(before, entries, id, older)
      modifies this
      ensures Valid() && old(trail) <= trail && Control() == Idle && entries == before
    {
      hide Valid, Control, Step, IsRun, SetAside, Aside;
      UndoSteps(entries, id, older);
      UndoRestores(before, entries, id, older);
      if Previous in entries && entries[Previous] == LinkTo(id) {
        Act(entries - {Previous}, UndoingTree(id, older));
      } else {
        assert entries == entries - {Previous};
        Act(entries, UndoingTree(id, older));
      }
      RemoveTree(Replacement(id), UndoingTree(id, older), UndoingName(older));
      UndoNameSteps(entries, older);
      if older.Some? {
        Act((entries - {Retired(older.value)})[Previous := entries[Retired(older.value)]], Idle);
      } else {
        Act(entries, Idle);
      }
    }

    /** Discard what was retired, if its guard lets it. */
    method Discard(id: nat, older: Option<nat>, ghost before: Fs) returns (r: Result)
      requires Valid() && Control() == Exchanged(id, older) && Current in before && Switched(before, entries, id, older)
      modifies this
      ensures Valid() && old(trail) <= trail && Control() == Idle
      ensures r in {Replaced, DiscardRefused}
      ensures r == Replaced && Sound(before) ==> entries == ReplacedFs(before, id)
      ensures Sound(before) ==> r == Replaced
    {
      hide Valid, Control, Step, IsRun, Discardable, Sound;
      DiscardSteps(entries, id, older);
      if older == None {
        Act(entries, Idle);
        return Replaced;
      }
      var n := Retired(older.value);
      if Sound(before) {
        SoundDiscards(before, entries, id, older.value);
      }
      if Discardable(entries, older.value) {
        DiscardableIsLink(entries, older.value);
        var target := entries[n].target.name;
        Act(entries - {n}, Removing(target));
        if target in entries && entries[target].Dir? {
          RemoveTree(target, Removing(target), Idle);
          return Replaced;
        }
        CrashSteps(entries, Removing(target));
        Act(entries, Idle);
        return DiscardRefused;
      }
      if entries[n].Dir? {
        Act(entries, Removing(n));
        RemoveTree(n, Removing(n), Idle);
        return Replaced;
      }
      Act(entries, Idle);
      return DiscardRefused;
    }

    /** Rollback: both runtimes must be installed; then their names are exchanged. */
    method RollbackRuntime() returns (ok: bool)
      requires Valid() && Control() == Idle
      modifies this
      ensures Valid() && old(trail) <= trail && Control() == Idle
      ensures ok <==> LeadsToRuntime(old(entries), Current) && LeadsToRuntime(old(entries), Previous)
      ensures ok ==> ExchangesNames(old(entries), entries)
      ensures ok <==> Installed(old(entries), Current) && Installed(old(entries), Previous)
      ensures !ok ==> entries == old(entries)
      ensures ok ==> Current in old(entries) && Previous in old(entries) && entries == Swapped(old(entries))
    {
      hide Installed, IsRun, BuildStep, SwitchStep, UndoStep, DiscardStep, SweepStep, LeadsToRuntime, ExchangesNames;
      InstalledLeads(entries, Current);
      InstalledLeads(entries, Previous);
      ok := Installed(entries, Current) && Installed(entries, Previous);
      if ok {
        InstalledIsThere(entries, Current);
        InstalledIsThere(entries, Previous);
        SwappedExchanges(entries);
        Act(Swapped(entries), Idle);
      }
    }

    /** Reconcile: every orphaned replacement directory goes, one after another. */
    method ReconcileRuntime() returns (removed: set<Name>)
      requires Valid() && Control() == Idle
      modifies this
      ensures Valid() && old(trail) <= trail && Control() == Idle
      ensures SweepsOrphans(old(entries), removed, entries)
      ensures removed == Orphans(old(entries)) && entries == Reconciled(old(entries))
    {
      hide Valid, Control, Step, IsRun, Orphans, Orphan, Live, SweepsOrphans;
      var todo := Orphans(entries);
      removed := {};
      SweepSteps(entries, todo);
      Act(entries, Sweeping(todo));
      while todo != {}
        invariant Valid() && old(trail) <= trail && Control() == Sweeping(todo)
        invariant removed !! todo && removed + todo == Orphans(old(entries)) && entries == old(entries) - removed
        decreases todo
      {
        var n :| n in todo;
        OrphanIsDir(old(entries), n);
        SweepSteps(entries, todo);
        Act(entries, SweepingTree(n, todo - {n}));
        RemoveTree(n, SweepingTree(n, todo - {n}), Sweeping(todo - {n}));
        OneLess(old(entries), removed, n);
        todo := todo - {n};
        removed := removed + {n};
      }
      SweepSteps(entries, todo);
      Act(entries, Idle);
      ReconciledSweeps(old(entries));
    }

    /** Remove a directory part by part, in any order, under a control that removes it. */
    method RemoveTree(n: Name, ghost during: Control, ghost next: Control)
      requires Valid() && Control() == during && RemovalControl(during, n, next) && DirAt(entries, n)
      modifies this
      ensures Valid() && old(trail) <= trail && Control() == next && entries == old(entries) - {n}
    {
      hide Step, IsRun;
      while entries[n].parts != {}
        invariant Valid() && old(trail) <= trail && Control() == during && DirAt(entries, n)
        invariant entries == old(entries)[n := entries[n]]
        decreases entries[n].parts
      {
        var part :| part in entries[n].parts;
        var after := entries[n := Dir(entries[n].parts - {part})];
        RemovalSteps(entries, n, after, during, next);
        Act(after, during);
      }
      RemovalSteps(entries, n, entries - {n}, during, next);
      Act(entries - {n}, next);
    }
  }

  lemma StartSteps(fs: Fs, id: nat)
    requires Installed(fs, Current) && Replacement(id) !in fs
    ensures Step(State(fs, Idle), State(fs[Replacement(id) := Dir({})], Building(id)))
  {
    hide Installed;
  }

  lemma BuildSteps(fs: Fs, id: nat)
    requires DirAt(fs, Replacement(id))
    ensures var n := Replacement(id); var parts := fs[n].parts;
      && Step(State(fs, Building(id)), State(fs, Unbuilding(id)))
      && Step(State(fs, Building(id)),
              if parts == ALL_PARTS then State(fs, Built(id))
              else State(fs[n := Dir(parts + {NextPart(parts)})], Building(id)))
  {
    hide NextPart;
  }

  /** The operation the fault is about is carried out: five parts are built, and only what is there is retired. */
  predicate TakesEffect(fault: Fault, fs: Fs) {
    match fault
    case NoFault => false
    case BuildFault(copied) => copied < 5
    case RetireFault => Previous in fs
    case LinkFault => true
    case ExchangeFault => true
  }

  lemma FaultsTakeEffect(fault: Fault, fs: Fs)
    ensures TakesEffect(fault, fs) <==>
      || (fault.BuildFault? && fault.copied < 5) || (fault == RetireFault && Previous in fs)
      || fault == LinkFault || fault == ExchangeFault
  {
  }

  lemma SoundHasCurrent(fs: Fs)
    requires Sound(fs)
    ensures Current in fs && Installed(fs, Current)
  {
    SoundInstalled(fs, Current);
  }

  /** The control under which `n` is removed, and the one that follows. */
  ghost predicate RemovalControl(during: Control, n: Name, next: Control) {
    match during
    case Unbuilding(id) => n == Replacement(id) && next == Idle
    case UndoingTree(id, older) => n == Replacement(id) && next == UndoingName(older)
    case Removing(m) => n == m && next == Idle
    case SweepingTree(m, todo) => n == m && next == Sweeping(todo)
    case _ => false
  }

  lemma RemovalSteps(fs: Fs, n: Name, after: Fs, during: Control, next: Control)
    requires RemovalControl(during, n, next)
    ensures RemovesFrom(fs, n, after) ==> Step(State(fs, during), State(after, during))
    ensures Removes(fs, n, after) ==> Step(State(fs, during), State(after, next))
  {
    hide RemovesFrom, Removes;
  }

  lemma NextIsMissing(parts: set<Part>)
    requires parts <= ALL_PARTS && |parts| < 5
    ensures parts != ALL_PARTS && NextPart(parts) !in parts && NextPart(parts) in ALL_PARTS
  {
    assert |ALL_PARTS| == 5;
    assert ALL_PARTS <= parts ==> parts == ALL_PARTS;
  }

  lemma AllFive(parts: set<Part>)
    requires parts <= ALL_PARTS && |parts| == 5
    ensures parts == ALL_PARTS
  {
    assert |ALL_PARTS| == 5;
    var rest := ALL_PARTS - parts;
    assert ALL_PARTS == parts + rest && |ALL_PARTS| == |parts| + |rest|;
  }

  /** What the retirement leaves of the directory before. */
  ghost function Aside(before: Fs, id: nat, older: Option<nat>): Fs
    requires older.Some? ==> Previous in before
  {
    if older.Some? then (before - {Previous})[Retired(older.value) := before[Previous]] else before
  }

  ghost predicate FreshNames(before: Fs, id: nat, older: Option<nat>) {
    && Replacement(id) !in before && Current in before && (older.Some? <==> Previous in before)
    && (older.Some? ==> Retired(older.value) !in before)
  }

  /** Where the undo starts: the predecessor aside, the replacement there, linked or not. */
  ghost predicate SetAside(before: Fs, fs: Fs, id: nat, older: Option<nat>) {
    && FreshNames(before, id, older)
    && var aside := Aside(before, id, older)[Replacement(id) := Dir(ALL_PARTS)];
      fs == aside || fs == aside[Previous := LinkTo(id)]
  }

  /** Where the discard starts: the replacement is current and the old current is the predecessor. */
  ghost predicate Switched(before: Fs, fs: Fs, id: nat, older: Option<nat>) {
    && FreshNames(before, id, older)
    && var aside := Aside(before, id, older)[Replacement(id) := Dir(ALL_PARTS)];
      fs == aside[Current := LinkTo(id)][Previous := before[Current]]
  }

  lemma AsideHolds(before: Fs, id: nat, older: Option<nat>)
    requires FreshNames(before, id, older)
    ensures var fs := Aside(before, id, older)[Replacement(id) := Dir(ALL_PARTS)];
      && SetAside(before, fs, id, older) && SetAside(before, fs[Previous := LinkTo(id)], id, older)
      && Current in fs && Previous !in fs && Switched(before, Swapped(fs[Previous := LinkTo(id)]), id, older)
  {
  }

  /** The three undone steps lead back to the directory before. */
  lemma UndoRestores(before: Fs, fs: Fs, id: nat, older: Option<nat>)
    requires SetAside(before, fs, id, older)
    ensures Previous in fs ==> fs[Previous] == LinkTo(id)
    ensures DirAt(fs - {Previous}, Replacement(id))
    ensures var bare := fs - {Previous} - {Replacement(id)};
      if older.Some? then
        && Retired(older.value) in bare && Previous !in bare
        && (bare - {Retired(older.value)})[Previous := bare[Retired(older.value)]] == before
      else bare == before
  {
    var bare := fs - {Previous} - {Replacement(id)};
    if older == None {
      assert bare == before;
    } else {
      assert bare[Retired(older.value)] == before[Previous];
    }
  }

  lemma SwitchSteps(fs: Fs, id: nat, older: Option<nat>)
    ensures Previous in fs ==> Step(State(fs, Built(id)), State(fs, Idle))
    ensures Previous !in fs && older == None ==> Step(State(fs, Built(id)), State(fs, Vacant(id, older)))
    ensures Previous in fs && older.Some? && Retired(older.value) !in fs ==>
      Step(State(fs, Built(id)), State((fs - {Previous})[Retired(older.value) := fs[Previous]], Vacant(id, older)))
    ensures Step(State(fs, Vacant(id, older)), State(fs, Undoing(id, older)))
    ensures Previous !in fs ==> Step(State(fs, Vacant(id, older)), State(fs[Previous := LinkTo(id)], Linked(id, older)))
    ensures Step(State(fs, Linked(id, older)), State(fs, Undoing(id, older)))
    ensures Current in fs && Previous in fs ==>
      Step(State(fs, Linked(id, older)), State(Swapped(fs), Exchanged(id, older)))
  {
  }

  lemma UndoSteps(fs: Fs, id: nat, older: Option<nat>)
    ensures Step(State(fs, Undoing(id, older)), State(WithoutLinkTo(fs, id), UndoingTree(id, older)))
  {
  }

  lemma UndoNameSteps(fs: Fs, older: Option<nat>)
    ensures older == None ==> Step(State(fs, UndoingName(older)), State(fs, Idle))
    ensures older.Some? && Retired(older.value) in fs && Previous !in fs ==>
      Step(State(fs, UndoingName(older)),
           State((fs - {Retired(older.value)})[Previous := fs[Retired(older.value)]], Idle))
  {
  }

  lemma DiscardSteps(fs: Fs, id: nat, older: Option<nat>)
    ensures older == None ==> Step(State(fs, Exchanged(id, older)), State(fs, Idle))
    ensures older.Some? && Discardable(fs, older.value) ==>
      Step(State(fs, Exchanged(id, older)),
           State(fs - {Retired(older.value)}, Removing(fs[Retired(older.value)].target.name)))
    ensures older.Some? && DirAt(fs, Retired(older.value)) ==>
      Step(State(fs, Exchanged(id, older)), State(fs, Removing(Retired(older.value))))
    ensures Step(State(fs, Exchanged(id, older)), State(fs, Idle))
  {
    hide Resolved;
  }

  lemma DiscardableIsLink(fs: Fs, retired: nat)
    requires Discardable(fs, retired)
    ensures Retired(retired) in fs && fs[Retired(retired)].Link? && fs[Retired(retired)].target.Sibling?
  {
  }

  lemma CrashSteps(fs: Fs, control: Control)
    ensures Step(State(fs, control), State(fs, Idle))
  {
  }

  lemma SweepSteps(fs: Fs, todo: set<Name>)
    ensures Step(State(fs, Idle), State(fs, Sweeping(Orphans(fs))))
    ensures todo == {} ==> Step(State(fs, Sweeping(todo)), State(fs, Idle))
    ensures forall n :: n in todo ==> Step(State(fs, Sweeping(todo)), State(fs, SweepingTree(n, todo - {n})))
  {
    hide Orphans;
  }

  lemma OrphanIsDir(fs: Fs, n: Name)
    requires n in Orphans(fs)
    ensures DirAt(fs, n)
  {
  }

  /** From a sound directory the guard never refuses, and discarding the older predecessor leaves
      exactly the replaced directory. */
  lemma SoundDiscards(before: Fs, fs: Fs, id: nat, retired: nat)
    requires Sound(before) && Switched(before, fs, id, Some(retired))
    ensures fs[Retired(retired)] == before[Previous]
    ensures fs[Retired(retired)].Dir? ==> fs - {Retired(retired)} == ReplacedFs(before, id)
    ensures fs[Retired(retired)].Dir? || Discardable(fs, retired)
    ensures Discardable(fs, retired) ==>
      var target := fs[Retired(retired)].target.name;
      DirAt(fs - {Retired(retired)}, target) && fs - {Retired(retired)} - {target} == ReplacedFs(before, id)
  {
    hide Resolve;
    if before[Previous].Link? {
      var target := before[Previous].target.name;
      LinkResolves(fs, Current, Replacement(id));
      DirResolves(fs, target);
    }
  }

  lemma OneLess(fs: Fs, removed: set<Name>, n: Name)
    ensures (fs - removed) - {n} == fs - (removed + {n})
  {
  }
}
