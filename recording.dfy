/**
 * What the rebuild path of `Rule::execute` records (rules.cc:143-150): every
 * command is expanded and handed to the tracer in list order, and the set
 * committed under the fingerprint is the in-flight set with every access the
 * commands reported inserted (rules.cc:70-91).  The statements hold for
 * commands none of whose `callback_entry` accesses has a unique rule; the
 * concrete world at the end of this module shows why that hypothesis is needed.
 */
module Recording {
  import opened Wrappers
  import opened DepSet
  import opened RuleHash
  import opened BuildModel
  import Resolution
  import BuildProperties

  /** The commands handed to the tracer for target `t`, in list order. */
  function Expanded(cmds: seq<string>, t: string): seq<string>
  {
    if cmds == [] then [] else [ExpandCommand(cmds[0], t)] + Expanded(cmds[1..], t)
  }

  /** The set `deps` once `callback_exit` has inserted every `Exit` of `evs`, in order. */
  function Recorded(deps: seq<Dep>, evs: seq<Event>): seq<Dep>
    decreases |evs|
  {
    if evs == [] then deps
    else
      var next := match evs[0] case Exit(f, ok) => Insert(deps, Dep(f, ok)) case Entry(_) => deps;
      Recorded(next, evs[1..])
  }

  /** `Recorded` over the accesses of every expanded command, in list order. */
  function RecordedAll(env: Env, deps: seq<Dep>, cmds: seq<string>, t: string): seq<Dep>
    decreases |cmds|
  {
    if cmds == [] then deps
    else RecordedAll(env, Recorded(deps, env.events(ExpandCommand(cmds[0], t))), cmds[1..], t)
  }

  /** No `callback_entry` access among `evs` has a unique rule, so none starts a nested build. */
  predicate NoNestedBuild(env: Env, rules: seq<RuleState>, evs: seq<Event>)
  {
    forall i :: 0 <= i < |evs| && evs[i].Entry? ==> !Find(env.pattern, rules, evs[i].path).Found?
  }

  predicate NoNestedBuilds(env: Env, rules: seq<RuleState>, cmds: seq<string>, t: string)
  {
    forall i :: 0 <= i < |cmds| ==> NoNestedBuild(env, rules, env.events(ExpandCommand(cmds[i], t)))
  }

  /** The world `w` with the in-flight set of rule `ri` replaced by `deps`. */
  function WithDeps(w: World, ri: nat, deps: seq<Dep>): World
    requires ri < |w.rules|
  {
    w.(rules := w.rules[ri := w.rules[ri].(dependencies := deps)])
  }

  /** Lookups agree on two registries with the same targets. */
  lemma NoNestedBuildStable(env: Env, a: seq<RuleState>, b: seq<RuleState>, evs: seq<Event>)
    requires |a| == |b| && forall k :: 0 <= k < |a| ==> a[k].targets == b[k].targets
    requires NoNestedBuild(env, a, evs)
    ensures NoNestedBuild(env, b, evs)
  {
    forall i | 0 <= i < |evs| && evs[i].Entry? ensures !Find(env.pattern, b, evs[i].path).Found? {
      Resolution.FindStable(env.pattern, a, b, evs[i].path);
    }
  }

  /**
   * The callbacks of one command: with no nested build, the only change is
   * that every reported `Exit(f, ok)` is inserted into the running rule's set.
   */
  lemma {:induction false} RunEventsRecords(env: Env, w: World, ri: nat, evs: seq<Event>)
    requires EnvOk(env) && WorldOk(env, w) && ri < |w.rules|
    requires forall i :: 0 <= i < |evs| ==> evs[i].path in env.paths
    requires NoNestedBuild(env, w.rules, evs)
    ensures RunEvents(env, w, ri, evs) == WithDeps(w, ri, Recorded(w.rules[ri].dependencies, evs))
    decreases |evs|
  {
    var deps := w.rules[ri].dependencies;
    if evs == [] {
      assert w.rules[ri := w.rules[ri]] == w.rules;
    } else {
      var w1 := Deliver(env, w, ri, evs[0]);
      var next := match evs[0] case Exit(f, ok) => Insert(deps, Dep(f, ok)) case Entry(_) => deps;
      assert Recorded(deps, evs) == Recorded(next, evs[1..]);
      match evs[0] {
        case Entry(f) =>
          assert !Find(env.pattern, w.rules, f).Found?;
          assert w1 == CallbackEntry(env, w, ri, f) == w;
          assert w.rules[ri := w.rules[ri]] == w.rules;
        case Exit(f, ok) =>
          assert w1 == CallbackExit(env, w, ri, f, ok) == AddDep(env, w, ri, Dep(f, ok));
      }
      assert w1 == WithDeps(w, ri, next);
      assert NoNestedBuild(env, w.rules, evs[1..]) by {
        forall i | 0 <= i < |evs[1..]| && evs[1..][i].Entry?
          ensures !Find(env.pattern, w.rules, evs[1..][i].path).Found?
        {
          assert evs[1..][i] == evs[i + 1];
        }
      }
      NoNestedBuildStable(env, w.rules, w1.rules, evs[1..]);
      RunEventsRecords(env, w1, ri, evs[1..]);
      WithDepsTwice(w, ri, next, Recorded(next, evs[1..]));
    }
  }

  lemma WithDepsTwice(w: World, ri: nat, a: seq<Dep>, b: seq<Dep>)
    requires ri < |w.rules|
    ensures WithDeps(WithDeps(w, ri, a), ri, b) == WithDeps(w, ri, b)
  {
    assert w.rules[ri := w.rules[ri].(dependencies := a)][ri := w.rules[ri].(dependencies := b)]
        == w.rules[ri := w.rules[ri].(dependencies := b)];
  }

  /**
   * The command loop: with no nested build, the expanded commands are appended
   * to the log in list order and the running rule's set receives every
   * reported exit access; the cache, the store and every other rule are kept.
   */
  lemma {:induction false} RunCommandsRecords(env: Env, w: World, ri: nat, t: string, cmds: seq<string>)
    requires EnvOk(env) && WorldOk(env, w) && ri < |w.rules|
    requires NoNestedBuilds(env, w.rules, cmds, t)
    ensures RunCommands(env, w, ri, t, cmds)
         == WithDeps(w.(log := w.log + Expanded(cmds, t)), ri, RecordedAll(env, w.rules[ri].dependencies, cmds, t))
    decreases |cmds|
  {
    if cmds == [] {
      assert w.rules[ri := w.rules[ri]] == w.rules;
      assert w.log + [] == w.log;
    } else {
      var cmd := ExpandCommand(cmds[0], t);
      var w1 := w.(log := w.log + [cmd]);
      var evs := env.events(cmd);
      var deps1 := Recorded(w.rules[ri].dependencies, evs);
      RunEventsRecords(env, w1, ri, evs);
      var w2 := WithDeps(w1, ri, deps1);
      RunCommandsUnfold(env, w, ri, t, cmds);
      NextCommandsClear(env, w, w2, t, cmds);
      RunCommandsRecords(env, w2, ri, t, cmds[1..]);
      ExpandedCons(w.log, cmds, t);
      WithDepsTwice(w.(log := w1.log + Expanded(cmds[1..], t)), ri, deps1, RecordedAll(env, deps1, cmds[1..], t));
    }
  }

  /** One turn of the command loop: the first command is logged and its accesses delivered. */
  lemma RunCommandsUnfold(env: Env, w: World, ri: nat, t: string, cmds: seq<string>)
    requires EnvOk(env) && WorldOk(env, w) && ri < |w.rules| && cmds != []
    ensures var cmd := ExpandCommand(cmds[0], t);
            var w1 := w.(log := w.log + [cmd]);
            RunCommands(env, w, ri, t, cmds) == RunCommands(env, RunEvents(env, w1, ri, env.events(cmd)), ri, t, cmds[1..])
  {
  }

  lemma ExpandedCons(log: seq<string>, cmds: seq<string>, t: string)
    requires cmds != []
    ensures log + Expanded(cmds, t) == (log + [ExpandCommand(cmds[0], t)]) + Expanded(cmds[1..], t)
  {
  }

  /** The hypothesis for the remaining commands survives the first command. */
  lemma NextCommandsClear(env: Env, w: World, w2: World, t: string, cmds: seq<string>)
    requires |w2.rules| == |w.rules| && forall k :: 0 <= k < |w.rules| ==> w2.rules[k].targets == w.rules[k].targets
    requires cmds != [] && NoNestedBuilds(env, w.rules, cmds, t)
    ensures NoNestedBuilds(env, w2.rules, cmds[1..], t)
  {
    forall i | 0 <= i < |cmds[1..]|
      ensures NoNestedBuild(env, w2.rules, env.events(ExpandCommand(cmds[1..][i], t)))
    {
      assert cmds[1..][i] == cmds[i + 1];
      NoNestedBuildStable(env, w.rules, w2.rules, env.events(ExpandCommand(cmds[i + 1], t)));
    }
  }

  /**
   * The rebuild path: with no nested build, the log receives the rule's
   * expanded commands in list order, the store holds under `h` the old
   * in-flight set with every reported exit access inserted, the set is
   * cleared, and the cache and the other rules are kept.
   */
  lemma RebuildRecords(env: Env, w: World, ri: nat, t: string, h: Digest)
    requires EnvOk(env) && WorldOk(env, w) && ri < |w.rules| && w.rules[ri].commands.Some?
    requires NoNestedBuilds(env, w.rules, w.rules[ri].commands.value, t)
    ensures var cmds := w.rules[ri].commands.value;
            var res := Rebuild(env, w, ri, t, h);
            && res.0
            && res.1.log == w.log + Expanded(cmds, t)
            && res.1.store == w.store[h := RecordedAll(env, w.rules[ri].dependencies, cmds, t)]
            && res.1.cache == w.cache
            && res.1.rules == w.rules[ri := w.rules[ri].(dependencies := [])]
  {
    var cmds := w.rules[ri].commands.value;
    var w1 := w.(store := w.store - {h});
    RunCommandsRecords(env, w1, ri, t, cmds);
    var rec := RecordedAll(env, w.rules[ri].dependencies, cmds, t);
    assert (w.store - {h})[h := rec] == w.store[h := rec];
    assert w.rules[ri := w.rules[ri].(dependencies := rec)][ri := w.rules[ri].(dependencies := rec).(dependencies := [])]
        == w.rules[ri := w.rules[ri].(dependencies := [])];
  }

  /**
   * A target with no record under its fingerprint is rebuilt, and with no
   * nested build the run leaves exactly this world: the target claimed, its
   * time read, the commands logged in order and the accesses they reported
   * committed under the fingerprint.
   */
  lemma FreshBuildRecords(env: Env, w: World, ri: nat, t: string)
    requires EnvOk(env) && WorldOk(env, w) && ri < |w.rules|
    requires t !in w.cache && w.rules[ri].targets.Some? && w.rules[ri].commands.Some?
    requires RuleDigest(env, w.rules[ri], t) !in w.store
    requires NoNestedBuilds(env, w.rules, w.rules[ri].commands.value, t)
    ensures var cmds := w.rules[ri].commands.value;
            var w2 := Prepared(env, w, ri, t);
            var res := Execute(env, w, ri, t);
            && res.0
            && res.1.log == w.log + Expanded(cmds, t)
            && res.1.store == w.store[RuleDigest(env, w.rules[ri], t) :=
                                      RecordedAll(env, w.rules[ri].dependencies, cmds, t)]
            && res.1.cache == w.cache + {t}
            && res.1.rules == w2.rules[ri := w2.rules[ri].(dependencies := [])]
  {
    var w2 := Prepared(env, w, ri, t);
    CacheShrinks(env.paths, w.cache, t);
    assert NoNestedBuilds(env, w2.rules, w.rules[ri].commands.value, t) by {
      var cmds := w.rules[ri].commands.value;
      forall i | 0 <= i < |cmds| ensures NoNestedBuild(env, w2.rules, env.events(ExpandCommand(cmds[i], t))) {
        NoNestedBuildStable(env, w.rules, w2.rules, env.events(ExpandCommand(cmds[i], t)));
      }
    }
    RebuildRecords(env, w2, ri, t, RuleDigest(env, w.rules[ri], t));
  }

  // ---------------------------------------------------------------------------
  // A nested build by the same rule (rules.cc:76-78, 149-150)

  /** A pattern rule `*` whose one command `c` builds any target. */
  function SelfRule(): RuleState
  {
    RuleState(Some(["*"]), Some(["c"]), None, [], 0)
  }

  /**
   * `c` reads `x` and then opens `y`; the pattern `*` matches `a` and `y`, so
   * the same rule is the unique rule for `y`.  No file exists.
   */
  function SelfEnv(sha: string -> Digest): Env
  {
    Env(map[], c => if c == "c" then [Exit("x", true), Entry("y")] else [],
        (p, t) => p == "*" && (t == "a" || t == "y"), sha, {"a", "x", "y"})
  }

  lemma SelfEnvOk(sha: string -> Digest)
    ensures EnvOk(SelfEnv(sha))
  {
    var env := SelfEnv(sha);
    forall c: string, i | 0 <= i < |env.events(c)| ensures env.events(c)[i].path in env.paths {
      if c == "c" {
        assert env.events(c) == [Exit("x", true), Entry("y")];
      }
    }
  }

  /** A one-command loop logs the command and delivers its accesses. */
  lemma RunCommandsOne(env: Env, w: World, ri: nat, t: string, c: string)
    requires EnvOk(env) && WorldOk(env, w) && ri < |w.rules|
    ensures var cmd := ExpandCommand(c, t);
            RunCommands(env, w, ri, t, [c]) == RunEvents(env, w.(log := w.log + [cmd]), ri, env.events(cmd))
  {
    var cmd := ExpandCommand(c, t);
    var w2 := RunEvents(env, w.(log := w.log + [cmd]), ri, env.events(cmd));
    assert RunCommands(env, w, ri, t, [c]) == RunCommands(env, w2, ri, t, []);
  }

  /** Two accesses are delivered one after the other. */
  lemma RunEventsTwo(env: Env, w: World, ri: nat, e1: Event, e2: Event)
    requires EnvOk(env) && WorldOk(env, w) && ri < |w.rules| && e1.path in env.paths && e2.path in env.paths
    ensures RunEvents(env, w, ri, [e1, e2]) == Deliver(env, Deliver(env, w, ri, e1), ri, e2)
  {
    var w1 := Deliver(env, w, ri, e1);
    assert [e1, e2][1..] == [e2];
    assert RunEvents(env, w, ri, [e1, e2]) == RunEvents(env, w1, ri, [e2]);
    assert RunEvents(env, w1, ri, [e2]) == RunEvents(env, Deliver(env, w1, ri, e2), ri, []);
  }

  /** An open of `y`, whose unique rule is the running rule `ri`: `y` is built, then `(y, true)` is all the set holds. */
  lemma EntrySameRule(env: Env, w: World, ri: nat, y: string)
    requires EnvOk(env) && WorldOk(env, w) && ri < |w.rules| && y in env.paths
    requires Find(env.pattern, w.rules, y) == Found(ri) && BuildProperties.Active(w.rules[ri])
    requires y !in w.cache && RuleDigest(env, w.rules[ri], y) !in w.store
    ensures CallbackEntry(env, w, ri, y).rules[ri].dependencies == [Dep(y, true)]
  {
    var sub := Execute(env, w, ri, y);
    BuildProperties.UnknownDependenciesRebuild(env, w, ri, y);
    BuildProperties.RebuildCommits(env, w, ri, y);
    assert CallbackEntry(env, w, ri, y) == AddDep(env, sub.1, ri, Dep(y, true));
  }

  /** The rebuild of a target new to the run and with no record under its fingerprint. */
  lemma ExecuteFresh(env: Env, w: World, ri: nat, t: string)
    requires EnvOk(env) && WorldOk(env, w) && ri < |w.rules|
    requires t !in w.cache && BuildProperties.Active(w.rules[ri]) && RuleDigest(env, w.rules[ri], t) !in w.store
    ensures Execute(env, w, ri, t) == Rebuild(env, Prepared(env, w, ri, t), ri, t, RuleDigest(env, w.rules[ri], t))
  {
  }

  /** A one-command rebuild commits what that command's accesses leave in the set. */
  lemma RebuildOne(env: Env, w: World, ri: nat, t: string, h: Digest, c: string)
    requires EnvOk(env) && WorldOk(env, w) && ri < |w.rules| && w.rules[ri].commands == Some([c])
    ensures var cmd := ExpandCommand(c, t);
            var w1 := w.(store := w.store - {h});
            var res := Rebuild(env, w, ri, t, h);
            res.0 && h in res.1.store
            && res.1.store[h] == RunEvents(env, w1.(log := w1.log + [cmd]), ri, env.events(cmd)).rules[ri].dependencies
  {
    RunCommandsOne(env, w.(store := w.store - {h}), ri, t, c);
  }

  /** A read of `x` and then an open of `y` built by the running rule leave only `(y, true)`. */
  lemma ReadThenSelfOpen(env: Env, w: World, ri: nat, x: string, ok: bool, y: string)
    requires EnvOk(env) && WorldOk(env, w) && ri < |w.rules| && x in env.paths && y in env.paths
    requires Find(env.pattern, w.rules, y) == Found(ri) && BuildProperties.Active(w.rules[ri])
    requires y !in w.cache && RuleDigest(env, w.rules[ri], y) !in w.store
    ensures RunEvents(env, w, ri, [Exit(x, ok), Entry(y)]).rules[ri].dependencies == [Dep(y, true)]
  {
    RunEventsTwo(env, w, ri, Exit(x, ok), Entry(y));
    var wc := CallbackExit(env, w, ri, x, ok);
    Resolution.FindStable(env.pattern, w.rules, wc.rules, y);
    EntrySameRule(env, wc, ri, y);
  }

  /**
   * A rule whose one command reads `x` and then opens `y`, where `y` is new
   * and the rule itself is the unique rule for `y`: building `t` commits
   * under `t`'s fingerprint only `(y, true)`, because the nested build of `y`
   * commits and clears the shared in-flight set, losing the read of `x`.
   */
  lemma NestedSameRuleCommit(env: Env, w: World, ri: nat, t: string, c: string, x: string, ok: bool, y: string)
    requires EnvOk(env) && WorldOk(env, w) && ri < |w.rules|
    requires w.rules[ri].targets.Some? && w.rules[ri].commands == Some([c])
    requires env.events(ExpandCommand(c, t)) == [Exit(x, ok), Entry(y)]
    requires Find(env.pattern, w.rules, y) == Found(ri)
    requires t !in w.cache && y !in w.cache && t != y
    requires RuleDigest(env, w.rules[ri], t) !in w.store && RuleDigest(env, w.rules[ri], y) !in w.store
    ensures var h := RuleDigest(env, w.rules[ri], t);
            var res := Execute(env, w, ri, t);
            res.0 && h in res.1.store && res.1.store[h] == [Dep(y, true)]
  {
    var h := RuleDigest(env, w.rules[ri], t);
    var wa := Prepared(env, w, ri, t);
    ExecuteFresh(env, w, ri, t);
    Resolution.FindStable(env.pattern, w.rules, wa.rules, y);
    RebuildReadThenSelfOpen(env, wa, ri, t, h, c, x, ok, y);
  }

  lemma RebuildReadThenSelfOpen(env: Env, w: World, ri: nat, t: string, h: Digest, c: string, x: string, ok: bool, y: string)
    requires EnvOk(env) && WorldOk(env, w) && ri < |w.rules|
    requires w.rules[ri].targets.Some? && w.rules[ri].commands == Some([c])
    requires env.events(ExpandCommand(c, t)) == [Exit(x, ok), Entry(y)]
    requires Find(env.pattern, w.rules, y) == Found(ri)
    requires y !in w.cache && RuleDigest(env, w.rules[ri], y) !in w.store
    ensures var res := Rebuild(env, w, ri, t, h);
            res.0 && h in res.1.store && res.1.store[h] == [Dep(y, true)]
  {
    RebuildOne(env, w, ri, t, h, c);
    var cmd := ExpandCommand(c, t);
    assert env.events(cmd)[0].path == x && env.events(cmd)[1].path == y;
    var w1 := w.(store := w.store - {h});
    ReadThenSelfOpen(env, w1.(log := w1.log + [cmd]), ri, x, ok, y);
  }

  lemma SelfFind(sha: string -> Digest)
    ensures Find(SelfEnv(sha).pattern, [SelfRule()], "y") == Found(0)
  {
    var env := SelfEnv(sha);
    assert Matching(env.pattern, [SelfRule()], "y") == [0] by {
      assert Matches(env.pattern, SelfRule(), "y") by {
        assert env.pattern(SelfRule().targets.value[0], "y");
      }
    }
  }

  /**
   * The concrete instance meets every hypothesis of `NestedSameRuleCommit`:
   * building `a` with the pattern rule `*` whose command `c` reads `x` and
   * opens `y` commits for `a` only `(y, true)`, whatever the hash.
   */
  lemma SelfBuildMeetsHypotheses(sha: string -> Digest)
    ensures var env := SelfEnv(sha);
            var w := World([SelfRule()], {}, map[], []);
            && EnvOk(env) && WorldOk(env, w)
            && w.rules[0].targets.Some? && w.rules[0].commands == Some(["c"])
            && env.events(ExpandCommand("c", "a")) == [Exit("x", true), Entry("y")]
            && Find(env.pattern, w.rules, "y") == Found(0)
            && "a" !in w.cache && "y" !in w.cache && "a" != "y"
            && RuleDigest(env, w.rules[0], "a") !in w.store && RuleDigest(env, w.rules[0], "y") !in w.store
  {
    SelfEnvOk(sha);
    SelfFind(sha);
  }
}
