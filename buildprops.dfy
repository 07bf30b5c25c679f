/**
 * What `Rule::execute`, `Rule::checkDep` and the two tracer callbacks promise
 * (rules.cc:70-158, 318-384), proved about the functions of BuildModel.
 */
module BuildProperties {
  import opened Wrappers
  import opened DepSet
  import opened RuleHash
  import opened BuildModel
  import Resolution

  /** A rule with a target list and a command list; any other rule is inert. */
  predicate Active(r: RuleState)
  {
    r.targets.Some? && r.commands.Some?
  }

  // ---------------------------------------------------------------------------
  // The build-cache guard (rules.cc:100-105)

  /** A target already attempted in this run is not built again, and nothing changes. */
  lemma ExecuteCached(env: Env, w: World, ri: nat, t: string)
    requires EnvOk(env) && WorldOk(env, w) && ri < |w.rules|
    requires t in w.cache
    ensures Execute(env, w, ri, t) == (false, w)
  {
  }

  /** Idempotence: a second `execute` of the same target in one run, by any rule, returns false. */
  lemma ExecuteTwice(env: Env, w: World, ri: nat, rj: nat, t: string)
    requires EnvOk(env) && WorldOk(env, w) && ri < |w.rules| && rj < |w.rules|
    ensures var first := Execute(env, w, ri, t).1;
            rj < |first.rules| && Execute(env, first, rj, t) == (false, first)
  {
  }

  /** An inert rule only claims the target and reports no rebuild. */
  lemma ExecuteInert(env: Env, w: World, ri: nat, t: string)
    requires EnvOk(env) && WorldOk(env, w) && ri < |w.rules|
    requires t !in w.cache && !Active(w.rules[ri])
    ensures Execute(env, w, ri, t) == (false, w.(cache := w.cache + {t}))
  {
  }

  /** A target whose time cannot be read keeps the rule's previous target time (rules.cc:106-110). */
  lemma MissingTargetKeepsTime(env: Env, w: World, ri: nat, t: string)
    requires ri < |w.rules| && t !in env.fs
    ensures Prepared(env, w, ri, t).rules[ri].targetTime == w.rules[ri].targetTime
  {
  }

  // ---------------------------------------------------------------------------
  // The rebuild decision (rules.cc:118-141)

  /**
   * `execute` rebuilds exactly when the target is new to this run, the rule is
   * active, and either no record exists under the fingerprint or checking the
   * record found a stale dependency.
   */
  lemma RebuildDecision(env: Env, w: World, ri: nat, t: string)
    requires EnvOk(env) && WorldOk(env, w) && ri < |w.rules|
    ensures var h := RuleDigest(env, w.rules[ri], t);
            var w2 := Prepared(env, w, ri, t);
            Execute(env, w, ri, t).0
            <==> t !in w.cache && Active(w.rules[ri])
                 && (h !in w.store || CheckAll(env, w2, ri, w.store[h], false).0)
  {
  }

  /** Whenever `execute` rebuilds, the fingerprint has a committed record and the in-flight set is empty. */
  lemma RebuildCommits(env: Env, w: World, ri: nat, t: string)
    requires EnvOk(env) && WorldOk(env, w) && ri < |w.rules|
    requires Execute(env, w, ri, t).0
    ensures var w' := Execute(env, w, ri, t).1;
            RuleDigest(env, w.rules[ri], t) in w'.store && w'.rules[ri].dependencies == []
  {
  }

  /** Unknown dependencies force a rebuild, whatever the file times. */
  lemma UnknownDependenciesRebuild(env: Env, w: World, ri: nat, t: string)
    requires EnvOk(env) && WorldOk(env, w) && ri < |w.rules|
    requires t !in w.cache && Active(w.rules[ri]) && RuleDigest(env, w.rules[ri], t) !in w.store
    ensures Execute(env, w, ri, t).0
  {
  }

  // ---------------------------------------------------------------------------
  // Checking a record (rules.cc:123-131, 333-383)

  /** Some recorded dependency without a unique rule is stale at the target time `tt`. */
  predicate SomeSourceStale(env: Env, deps: seq<Dep>, tt: int)
  {
    exists i :: 0 <= i < |deps| && SourceStale(StatOf(env.fs, deps[i].path), deps[i].ok, tt)
  }

  /** No recorded dependency is resolved to a single rule. */
  predicate AllSources(env: Env, rules: seq<RuleState>, deps: seq<Dep>)
  {
    forall i :: 0 <= i < |deps| ==> !Find(env.pattern, rules, deps[i].path).Found?
  }

  /** `checkDep` on a dependency without a unique rule changes nothing and compares existence and times. */
  lemma CheckDepSource(env: Env, w: World, p: string, existed: bool, tt: int)
    requires EnvOk(env) && WorldOk(env, w) && p in env.paths
    requires !Find(env.pattern, w.rules, p).Found?
    ensures CheckDep(env, w, p, existed, tt).1 == w
    ensures CheckDep(env, w, p, existed, tt).0
        <==> ((p in env.fs) != existed) || (p in env.fs && env.fs[p].mtime > tt && !env.fs[p].isDir)
  {
  }

  /**
   * `checkDep` on a dependency with a unique rule first builds it (it is in the
   * cache afterwards), then reports it stale if that rebuilt it, if it cannot be
   * stat'ed, or if it is a newer non-directory.
   */
  lemma CheckDepGenerated(env: Env, w: World, p: string, existed: bool, tt: int)
    requires EnvOk(env) && WorldOk(env, w) && p in env.paths
    requires Find(env.pattern, w.rules, p).Found?
    ensures var j := Find(env.pattern, w.rules, p).index;
            var sub := Execute(env, w, j, p);
            && p in CheckDep(env, w, p, existed, tt).1.cache
            && (CheckDep(env, w, p, existed, tt).0
                <==> sub.0 || p !in env.fs || (env.fs[p].mtime > tt && !env.fs[p].isDir))
  {
  }

  /** Directory times never make a dependency stale; only a change of existence does. */
  lemma DirectoryTimesIgnored(st: Stat, existed: bool, tt: int)
    requires st.isDir
    ensures SourceStale(Some(st), existed, tt) == !existed
    ensures GeneratedStale(false, Some(st), tt) == false
  {
  }

  /**
   * With only source dependencies recorded, checking the record changes nothing
   * and is stale exactly when some single dependency is.
   */
  lemma {:induction false} CheckAllSources(env: Env, w: World, ri: nat, deps: seq<Dep>, acc: bool)
    requires EnvOk(env) && WorldOk(env, w) && ri < |w.rules|
    requires forall i :: 0 <= i < |deps| ==> deps[i].path in env.paths
    requires AllSources(env, w.rules, deps)
    ensures CheckAll(env, w, ri, deps, acc) == (acc || SomeSourceStale(env, deps, w.rules[ri].targetTime), w)
    decreases |deps|
  {
    if deps != [] {
      CheckAllSources(env, w, ri, deps[1..], acc || SourceStale(StatOf(env.fs, deps[0].path), deps[0].ok, w.rules[ri].targetTime));
      SomeSourceStaleCons(env, deps, w.rules[ri].targetTime);
    }
  }

  /** Some dependency is stale iff the first one is or some later one is. */
  lemma SomeSourceStaleCons(env: Env, deps: seq<Dep>, tt: int)
    requires deps != []
    ensures SomeSourceStale(env, deps, tt)
            <==> SourceStale(StatOf(env.fs, deps[0].path), deps[0].ok, tt) || SomeSourceStale(env, deps[1..], tt)
  {
    if SomeSourceStale(env, deps, tt) {
      var i :| 0 <= i < |deps| && SourceStale(StatOf(env.fs, deps[i].path), deps[i].ok, tt);
      if i > 0 {
        assert deps[1..][i - 1] == deps[i];
      }
    }
    if SomeSourceStale(env, deps[1..], tt) {
      var i :| 0 <= i < |deps[1..]| && SourceStale(StatOf(env.fs, deps[1..][i].path), deps[1..][i].ok, tt);
      assert deps[i + 1] == deps[1..][i];
    }
  }

  /**
   * No short-circuit: every recorded dependency that has a unique rule is built
   * during the check, even after an earlier dependency was already found stale.
   */
  lemma {:induction false} CheckAllVisitsAll(env: Env, w: World, ri: nat, deps: seq<Dep>, acc: bool)
    requires EnvOk(env) && WorldOk(env, w) && ri < |w.rules|
    requires forall i :: 0 <= i < |deps| ==> deps[i].path in env.paths
    ensures forall i :: 0 <= i < |deps| && Find(env.pattern, w.rules, deps[i].path).Found? ==>
              deps[i].path in CheckAll(env, w, ri, deps, acc).1.cache
    decreases |deps|
  {
    if deps != [] {
      var one := CheckDep(env, w, deps[0].path, deps[0].ok, w.rules[ri].targetTime);
      CheckAllVisitsAll(env, one.1, ri, deps[1..], acc || one.0);
      forall i | 0 <= i < |deps| && Find(env.pattern, w.rules, deps[i].path).Found?
        ensures deps[i].path in CheckAll(env, w, ri, deps, acc).1.cache
      {
        if i == 0 {
          CheckDepGenerated(env, w, deps[0].path, deps[0].ok, w.rules[ri].targetTime);
        } else {
          Resolution.FindStable(env.pattern, w.rules, one.1.rules, deps[i].path);
          assert deps[1..][i - 1] == deps[i];
        }
      }
    }
  }

  /**
   * Existence flip: a recorded dependency without a unique rule that appeared or
   * vanished since it was recorded makes the check stale, whatever the times.
   */
  lemma {:induction false} ExistenceFlipIsStale(env: Env, w: World, ri: nat, deps: seq<Dep>, acc: bool, k: nat)
    requires EnvOk(env) && WorldOk(env, w) && ri < |w.rules|
    requires forall i :: 0 <= i < |deps| ==> deps[i].path in env.paths
    requires k < |deps| && !Find(env.pattern, w.rules, deps[k].path).Found?
    requires (deps[k].path in env.fs) != deps[k].ok
    ensures CheckAll(env, w, ri, deps, acc).0
    decreases |deps|
  {
    var one := CheckDep(env, w, deps[0].path, deps[0].ok, w.rules[ri].targetTime);
    CheckAllCons(env, w, ri, deps, acc);
    if k > 0 {
      Resolution.FindStable(env.pattern, w.rules, one.1.rules, deps[k].path);
      assert deps[1..][k - 1] == deps[k];
      ExistenceFlipIsStale(env, one.1, ri, deps[1..], acc || one.0, k - 1);
    } else {
      CheckDepSource(env, w, deps[0].path, deps[0].ok, w.rules[ri].targetTime);
    }
  }

  /** One step of the `needsRebuild |=` loop. */
  lemma CheckAllCons(env: Env, w: World, ri: nat, deps: seq<Dep>, acc: bool)
    requires EnvOk(env) && WorldOk(env, w) && ri < |w.rules| && deps != []
    requires forall i :: 0 <= i < |deps| ==> deps[i].path in env.paths
    ensures var one := CheckDep(env, w, deps[0].path, deps[0].ok, w.rules[ri].targetTime);
            CheckAll(env, w, ri, deps, acc) == CheckAll(env, one.1, ri, deps[1..], acc || one.0)
  {
  }

  /** The existence flip of one recorded source dependency makes `execute` rebuild. */
  lemma ExistenceFlipRebuilds(env: Env, w: World, ri: nat, t: string, k: nat)
    requires EnvOk(env) && WorldOk(env, w) && ri < |w.rules|
    requires t !in w.cache && Active(w.rules[ri])
    requires var h := RuleDigest(env, w.rules[ri], t);
             h in w.store && k < |w.store[h]| && !Find(env.pattern, w.rules, w.store[h][k].path).Found?
             && (w.store[h][k].path in env.fs) != w.store[h][k].ok
    ensures Execute(env, w, ri, t).0
  {
    var h := RuleDigest(env, w.rules[ri], t);
    var w2 := Prepared(env, w, ri, t);
    Resolution.FindStable(env.pattern, w.rules, w2.rules, w.store[h][k].path);
    ExistenceFlipIsStale(env, w2, ri, w.store[h], false, k);
    RebuildDecision(env, w, ri, t);
  }

  /**
   * Up to date, for any record: when checking the record under the
   * fingerprint finds nothing stale, `execute` returns false and the world is
   * exactly what checking the record left.  None of the rule's commands is
   * traced and nothing is committed beyond what the nested builds of the
   * recorded generated dependencies did.
   */
  lemma UpToDateSkipsRebuild(env: Env, w: World, ri: nat, t: string)
    requires EnvOk(env) && WorldOk(env, w) && ri < |w.rules|
    requires t !in w.cache && Active(w.rules[ri])
    requires var h := RuleDigest(env, w.rules[ri], t);
             var w2 := Prepared(env, w, ri, t);
             h in w.store && !CheckAll(env, w2, ri, w.store[h], false).0
    ensures var h := RuleDigest(env, w.rules[ri], t);
            var w2 := Prepared(env, w, ri, t);
            Execute(env, w, ri, t) == (false, CheckAll(env, w2, ri, w.store[h], false).1)
  {
  }

  /**
   * Up to date: a record of source dependencies none of which is stale at the
   * target's time means `execute` returns false, traces no command, and leaves
   * the store, the in-flight sets and every other rule as they were; only the
   * target is claimed and its time read.
   */
  lemma UpToDateChangesNothing(env: Env, w: World, ri: nat, t: string)
    requires EnvOk(env) && WorldOk(env, w) && ri < |w.rules|
    requires t !in w.cache && Active(w.rules[ri])
    requires var h := RuleDigest(env, w.rules[ri], t);
             var w2 := Prepared(env, w, ri, t);
             h in w.store && AllSources(env, w.rules, w.store[h])
             && !SomeSourceStale(env, w.store[h], w2.rules[ri].targetTime)
    ensures Execute(env, w, ri, t) == (false, Prepared(env, w, ri, t))
  {
    var h := RuleDigest(env, w.rules[ri], t);
    var w2 := Prepared(env, w, ri, t);
    forall i | 0 <= i < |w.store[h]| ensures !Find(env.pattern, w2.rules, w.store[h][i].path).Found? {
      Resolution.FindStable(env.pattern, w.rules, w2.rules, w.store[h][i].path);
    }
    CheckAllSources(env, w2, ri, w.store[h], false);
  }

  // ---------------------------------------------------------------------------
  // Dependency capture (rules.cc:70-91)

  /** `callback_exit` of the same access twice records it once: the in-flight set is a set. */
  lemma CallbackExitCollapses(env: Env, w: World, ri: nat, f: string, success: bool)
    requires WorldOk(env, w) && ri < |w.rules| && f in env.paths
    ensures var once := CallbackExit(env, w, ri, f, success);
            CallbackExit(env, once, ri, f, success) == once
  {
    var once := CallbackExit(env, w, ri, f, success);
    InsertSpec(w.rules[ri].dependencies, Dep(f, success));
    InsertPresent(once.rules[ri].dependencies, Dep(f, success));
    assert once.rules[ri := once.rules[ri]] == once.rules;
  }

  /** The order of two `callback_exit` calls does not change what is recorded. */
  lemma CallbackExitsCommute(env: Env, w: World, ri: nat, f: string, s: bool, g: string, u: bool)
    requires WorldOk(env, w) && ri < |w.rules| && f in env.paths && g in env.paths
    ensures CallbackExit(env, CallbackExit(env, w, ri, f, s), ri, g, u)
         == CallbackExit(env, CallbackExit(env, w, ri, g, u), ri, f, s)
  {
    InsertCommutes(w.rules[ri].dependencies, Dep(f, s), Dep(g, u));
  }

  /** `callback_entry` on a path without a unique rule swallows the failure and changes nothing. */
  lemma CallbackEntryMiss(env: Env, w: World, ri: nat, f: string)
    requires EnvOk(env) && WorldOk(env, w) && ri < |w.rules| && f in env.paths
    requires !Find(env.pattern, w.rules, f).Found?
    ensures CallbackEntry(env, w, ri, f) == w
  {
  }

  /** `callback_entry` on a path with a unique rule builds it and records it as existing. */
  lemma CallbackEntryHit(env: Env, w: World, ri: nat, f: string)
    requires EnvOk(env) && WorldOk(env, w) && ri < |w.rules| && f in env.paths
    requires Find(env.pattern, w.rules, f).Found?
    ensures var w' := CallbackEntry(env, w, ri, f);
            f in w'.cache && Dep(f, true) in w'.rules[ri].dependencies
  {
    var j := Find(env.pattern, w.rules, f).index;
    var sub := Execute(env, w, j, f);
    InsertSpec(sub.1.rules[ri].dependencies, Dep(f, true));
  }
}
