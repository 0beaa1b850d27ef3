/** What the verbs on the directory of runtimes leave, name by name, and what it takes to be installed. */
module RuntimeSpelled {
  import opened Runtime
  import opened Wrappers

  /** Sibling links from `n` to a directory. */
  ghost predicate ChainTo(fs: Fs, n: Name, chain: seq<Name>) {
    && chain != [] && chain[0] == n && (forall k :: 0 <= k < |chain| ==> chain[k] in fs)
    && (forall k :: 0 <= k < |chain| - 1 ==> fs[chain[k]] == Link(Sibling(chain[k + 1])))
    && fs[chain[|chain| - 1]].Dir?
  }

  /** Links lead from the name to a directory with a manifest and an environment. */
  ghost predicate LeadsToRuntime(fs: Fs, n: Name) {
    exists chain :: ChainTo(fs, n, chain)
      && Manifest in fs[chain[|chain| - 1]].parts && Environment in fs[chain[|chain| - 1]].parts
  }

  lemma {:induction false} ChainResolves(fs: Fs, n: Name, chain: seq<Name>, hops: nat)
    requires ChainTo(fs, n, chain) && |chain| - 1 <= hops
    ensures Resolve(fs, n, hops) == Some(chain[|chain| - 1])
    decreases |chain|
  {
    if |chain| > 1 {
      TailIsChain(fs, n, chain);
      ChainResolves(fs, chain[1], chain[1..], hops - 1);
    }
  }

  lemma TailIsChain(fs: Fs, n: Name, chain: seq<Name>)
    requires ChainTo(fs, n, chain) && |chain| > 1
    ensures ChainTo(fs, chain[1], chain[1..])
  {
    var tail := chain[1..];
    assert forall k :: 0 <= k < |tail| ==> tail[k] == chain[k + 1];
  }

  lemma FirstIsLink(fs: Fs, n: Name, chain: seq<Name>)
    requires ChainTo(fs, n, chain)
    ensures |chain| > 1 <==> fs[n].Link?
  {
    if |chain| > 1 {
      assert fs[chain[0]] == Link(Sibling(chain[0 + 1]));
    }
  }

  lemma {:induction false} OneChain(fs: Fs, n: Name, a: seq<Name>, b: seq<Name>)
    requires ChainTo(fs, n, a) && ChainTo(fs, n, b)
    ensures |a| == |b|
    decreases |a|
  {
    FirstIsLink(fs, n, a);
    FirstIsLink(fs, n, b);
    if |a| > 1 && |b| > 1 {
      TailIsChain(fs, n, a);
      TailIsChain(fs, n, b);
      OneChain(fs, a[1], a[1..], b[1..]);
    }
  }

  lemma {:induction false} SuffixIsChain(fs: Fs, n: Name, chain: seq<Name>, i: nat)
    requires ChainTo(fs, n, chain) && i < |chain|
    ensures ChainTo(fs, chain[i], chain[i..])
  {
    var tail := chain[i..];
    assert forall k :: 0 <= k < |tail| ==> tail[k] == chain[k + i];
  }

  /** A chain passes no name twice, so it has at most as many links as there are names. */
  lemma ChainIsShort(fs: Fs, n: Name, chain: seq<Name>)
    requires ChainTo(fs, n, chain)
    ensures |chain| <= |fs|
  {
    forall i, j | 0 <= i < j < |chain| ensures chain[i] != chain[j] {
      SuffixIsChain(fs, n, chain, i);
      SuffixIsChain(fs, n, chain, j);
      if chain[i] == chain[j] {
        OneChain(fs, chain[i], chain[i..], chain[j..]);
      }
    }
    DistinctFit(chain, fs.Keys);
    assert |fs.Keys| == |fs|;
  }

  lemma {:induction false} DistinctFit(names: seq<Name>, all: set<Name>)
    requires (forall i, j :: 0 <= i < j < |names| ==> names[i] != names[j]) && forall n <- names :: n in all
    ensures |names| <= |all|
    decreases |names|
  {
    if names != [] {
      var n := |names| - 1;
      assert forall m :: m in names[..n] ==> m in names;
      DistinctFit(names[..n], all - {names[n]});
    }
  }

  lemma {:induction false} ResolvesByChain(fs: Fs, n: Name, hops: nat) returns (chain: seq<Name>)
    requires Resolve(fs, n, hops).Some? && Resolve(fs, n, hops).value in fs && fs[Resolve(fs, n, hops).value].Dir?
    ensures ChainTo(fs, n, chain) && chain[|chain| - 1] == Resolve(fs, n, hops).value
    decreases hops
  {
    if !fs[n].Link? {
      chain := [n];
    } else {
      var rest := ResolvesByChain(fs, fs[n].target.name, hops - 1);
      chain := [n] + rest;
      forall k | 0 <= k < |chain| - 1 ensures fs[chain[k]] == Link(Sibling(chain[k + 1])) {
        if k > 0 {
          assert fs[rest[k - 1]] == Link(Sibling(rest[k]));
        }
      }
    }
  }

  /** The guard accepts exactly the names that links lead from to a runtime. */
  lemma InstalledLeads(fs: Fs, n: Name)
    ensures Installed(fs, n) <==> LeadsToRuntime(fs, n)
  {
    hide Resolve;
    if Installed(fs, n) {
      var chain := ResolvesByChain(fs, n, |fs|);
    }
    if LeadsToRuntime(fs, n) {
      var chain :| ChainTo(fs, n, chain)
        && Manifest in fs[chain[|chain| - 1]].parts && Environment in fs[chain[|chain| - 1]].parts;
      ChainIsShort(fs, n, chain);
      ChainResolves(fs, n, chain, |fs|);
    }
  }

  // ---- what each verb leaves ----

  /** The replacement is the current runtime, the old current runtime is the previous one, what the old previous
      one led to is gone, and everything else is as it was. */
  ghost predicate TakesOver(before: Fs, id: nat, after: Fs)
    requires Current in before
  {
    var made := Replacement(id);
    && (forall n :: n in after <==>
          (n == Current || n == Previous || n == made
           || (n in before && !(Previous in before && before[Previous] == Link(Sibling(n))))))
    && after[made] == Dir({Wheel, Manifest, Packs, Environment, Freeze})
    && after[Current] == Link(Sibling(made)) && after[Previous] == before[Current]
    && forall n :: n in after && n != Current && n != Previous && n != made ==> after[n] == before[n]
  }

  lemma ReplacedTakesOver(fs: Fs, id: nat)
    requires Sound(fs) && Replacement(id) !in fs
    ensures TakesOver(fs, id, ReplacedFs(fs, id))
  {
  }

  /** The two names are exchanged and everything else is as it was. */
  ghost predicate ExchangesNames(before: Fs, after: Fs) {
    && Current in before && Previous in before && after.Keys == before.Keys
    && after[Current] == before[Previous] && after[Previous] == before[Current]
    && forall n :: n in after && n != Current && n != Previous ==> after[n] == before[n]
  }

  lemma SwappedExchanges(fs: Fs)
    requires Current in fs && Previous in fs
    ensures ExchangesNames(fs, Swapped(fs))
  {
  }

  /** The replacement directories that neither runtime links to are removed, and nothing else changes. */
  ghost predicate SweepsOrphans(before: Fs, removed: set<Name>, after: Fs) {
    && (forall n :: n in removed <==>
          && n in before && n.Replacement? && before[n].Dir?
          && !(Current in before && before[Current] == Link(Sibling(n)))
          && !(Previous in before && before[Previous] == Link(Sibling(n))))
    && (forall n :: n in after <==> n in before && n !in removed)
    && forall n :: n in after ==> after[n] == before[n]
  }

  lemma ReconciledSweeps(fs: Fs)
    ensures SweepsOrphans(fs, Orphans(fs), Reconciled(fs))
  {
    forall n | n in Live(fs)
      ensures (Current in fs && fs[Current] == Link(Sibling(n))) || (Previous in fs && fs[Previous] == Link(Sibling(n)))
    {
    }
    forall m | m in {Current, Previous} && m in fs && fs[m].Link? && fs[m].target.Sibling?
      ensures fs[m].target.name in Live(fs)
    {
    }
  }
}
