/**
 * The rule engine of rules.cc as the objects it is: each `Rule` has its own
 * definition lists, in-flight dependency set and target time, and the static
 * state (`Rule::rules`, `Rule::buildCache`) together with the dependency store,
 * the commands handed to the tracer and the goal list lives in one `Engine`.
 * Every state-changing method is proved to leave the engine in the state the
 * matching function of BuildModel computes from the old state.
 */
module RuleEngine {
  import opened Wrappers
  import opened DepSet
  import opened RuleHash
  import opened BuildModel
  import Resolution

  class Rule {
    var targets: Option<seq<string>>        // NULL until a target is added
    var commands: Option<seq<string>>
    var declaredDeps: Option<seq<string>>
    var dependencies: seq<Dep>              // std::set<pair<string,bool>>, kept ordered
    var targetTime: int                     // last time read for a target

    function State(): RuleState
      reads this
    {
      RuleState(targets, commands, declaredDeps, dependencies, targetTime)
    }

    /** `Rule::Rule`: an empty rule that appends itself to the registry; its target time is unset. */
    constructor(registry: Engine)
      requires registry.Valid()
      modifies registry
      ensures registry.Valid()
      ensures registry.rules == old(registry.rules) + [this]
      ensures targets.None? && commands.None? && declaredDeps.None? && dependencies == []
      ensures registry.buildCache == old(registry.buildCache) && registry.store == old(registry.store)
      ensures registry.log == old(registry.log) && registry.goals == old(registry.goals)
    {
      targets := None;
      declaredDeps := None;
      commands := None;
      dependencies := [];
      new;
      ghost var before := registry.Abs();
      ghost var others := registry.rules;
      registry.rules := registry.rules + [this];
      assert registry.Abs() == before.(rules := before.rules + [State()]);
      assert this !in others;
      RegisterKeepsWorldOk(registry.env, before, State());
    }

    /** `addTarget`: create the list if absent, then append. */
    method AddTarget(target: string)
      modifies this
      ensures targets == Some(old(targets).GetOr([]) + [target])
      ensures commands == old(commands) && declaredDeps == old(declaredDeps)
      ensures dependencies == old(dependencies) && targetTime == old(targetTime)
    {
      if targets.None? {
        targets := Some([]);
      }
      targets := Some(targets.value + [target]);
    }

    /** `addTargetList`: replace the list, an absent list included. */
    method AddTargetList(targetList: Option<seq<string>>)
      modifies this
      ensures targets == targetList
      ensures commands == old(commands) && declaredDeps == old(declaredDeps)
      ensures dependencies == old(dependencies) && targetTime == old(targetTime)
    {
      targets := targetList;
    }

    method AddDependency(dependency: string)
      modifies this
      ensures declaredDeps == Some(old(declaredDeps).GetOr([]) + [dependency])
      ensures targets == old(targets) && commands == old(commands)
      ensures dependencies == old(dependencies) && targetTime == old(targetTime)
    {
      if declaredDeps.None? {
        declaredDeps := Some([]);
      }
      declaredDeps := Some(declaredDeps.value + [dependency]);
    }

    method AddDependencyList(dependencyList: Option<seq<string>>)
      modifies this
      ensures declaredDeps == dependencyList
      ensures targets == old(targets) && commands == old(commands)
      ensures dependencies == old(dependencies) && targetTime == old(targetTime)
    {
      declaredDeps := dependencyList;
    }

    method AddCommand(command: string)
      modifies this
      ensures commands == Some(old(commands).GetOr([]) + [command])
      ensures targets == old(targets) && declaredDeps == old(declaredDeps)
      ensures dependencies == old(dependencies) && targetTime == old(targetTime)
    {
      if commands.None? {
        commands := Some([]);
      }
      commands := Some(commands.value + [command]);
    }

    method AddCommandList(commandList: Option<seq<string>>)
      modifies this
      ensures commands == commandList
      ensures targets == old(targets) && declaredDeps == old(declaredDeps)
      ensures dependencies == old(dependencies) && targetTime == old(targetTime)
    {
      commands := commandList;
    }

    /** `Rule::match`: walk the target list until a pattern matches. */
    method Match(pattern: (string, string) -> bool, target: string) returns (m: bool)
      ensures m == Matches(pattern, State(), target)
    {
      if targets.None? {
        return false;
      }
      var ts := targets.value;
      var i := 0;
      while i < |ts|
        invariant 0 <= i <= |ts|
        invariant forall k :: 0 <= k < i ==> !pattern(ts[k], target)
      {
        if pattern(ts[i], target) {
          return true;
        }
        i := i + 1;
      }
      return false;
    }
  }

  /** Registering a rule with an empty dependency set keeps the world's invariant. */
  lemma RegisterKeepsWorldOk(env: Env, w: World, r: RuleState)
    requires WorldOk(env, w) && r.dependencies == []
    ensures WorldOk(env, w.(rules := w.rules + [r]))
  {
    var rs := w.rules + [r];
    assert forall k :: 0 <= k < |w.rules| ==> rs[k] == w.rules[k];
  }

  /** The states of the registered rules, in registration order. */
  function States(rs: seq<Rule>): (ss: seq<RuleState>)
    reads rs
    ensures |ss| == |rs| && forall k :: 0 <= k < |rs| ==> ss[k] == rs[k].State()
  {
    seq(|rs|, k reads rs requires 0 <= k < |rs| => rs[k].State())
  }

  class Engine {
    const env: Env
    var rules: seq<Rule>                      // Rule::rules, registration order
    var buildCache: set<string>               // Rule::buildCache
    var store: map<Digest, seq<Dep>>          // the dependency database
    var log: seq<string>                      // the commands handed to `trace`, in order
    var goals: seq<string>                    // what `set_target` received

    ghost function Abs(): World
      reads this, rules
    {
      World(States(rules), buildCache, store, log)
    }

    ghost predicate Valid()
      reads this, rules
    {
      && (forall i, j :: 0 <= i < j < |rules| ==> rules[i] != rules[j])
      && EnvOk(env)
      && WorldOk(env, Abs())
    }

    /** An engine with no rules, an empty build cache and the database `db`. */
    constructor(env: Env, db: map<Digest, seq<Dep>>)
      requires EnvOk(env)
      requires forall h, i :: h in db && 0 <= i < |db[h]| ==> db[h][i].path in env.paths
      ensures Valid() && this.env == env
      ensures rules == [] && buildCache == {} && store == db && log == [] && goals == []
    {
      this.env := env;
      rules := [];
      buildCache := {};
      store := db;
      log := [];
      goals := [];
    }

    /** `Rule::built`. */
    predicate Built(target: string)
      reads this
    {
      target in buildCache
    }

    /** `Rule::find`: scan the registry, failing at the second match or after the scan with none. */
    method Find(target: string) returns (l: Lookup)
      ensures l == BuildModel.Find(env.pattern, Abs().rules, target)
    {
      ghost var all := Abs().rules;
      var foundARule := false;
      var r: nat := 0;
      var i := 0;
      while i < |rules|
        invariant 0 <= i <= |rules|
        invariant Matching(env.pattern, all[..i], target) == if foundARule then [r] else []
      {
        var m := rules[i].Match(env.pattern, target);
        Resolution.ScanStep(env.pattern, all, i, target, foundARule, r);
        if m {
          if foundARule {
            return MultipleRules;
          }
          foundARule := true;
          r := i;
        }
        i := i + 1;
      }
      Resolution.ScanDone(env.pattern, all, target, foundARule, r);
      if foundARule {
        return Found(r);
      } else {
        return NoRule;
      }
    }

    /** `Rule::canBeBuilt`. */
    method CanBeBuilt(file: string) returns (b: bool)
      ensures b == BuildModel.CanBeBuilt(env, Abs().rules, file)
    {
      if file in env.fs {
        return true;
      }
      var l := Find(file);
      return l.Found?;
    }

    /** `Rule::setDefaultTargets`: hand every target of the first rule to `set_target`. */
    method SetDefaultTargets() returns (o: Outcome)
      modifies this
      ensures rules == old(rules) && buildCache == old(buildCache) && store == old(store) && log == old(log)
      ensures rules == [] ==> o == Pass && goals == old(goals)
      ensures rules != [] && rules[0].targets.None? ==>
                o == Fail("First rule has no targets") && goals == old(goals)
      ensures rules != [] && rules[0].targets.Some? ==>
                o == Pass && goals == old(goals) + rules[0].targets.value
    {
      if rules != [] {
        var r := rules[0];
        if r.targets.None? {
          return Fail("First rule has no targets");
        }
        var ts := r.targets.value;
        var i := 0;
        while i < |ts|
          invariant 0 <= i <= |ts|
          invariant rules == old(rules) && buildCache == old(buildCache) && store == old(store) && log == old(log)
          invariant goals == old(goals) + ts[..i]
        {
          goals := goals + [ts[i]];
          assert ts[..i + 1] == ts[..i] + [ts[i]];
          i := i + 1;
        }
        assert ts[..i] == ts;
      }
      return Pass;
    }

    /** `Rule::execute(target)` on the rule at position `ri`. */
    method Execute(ri: nat, target: string) returns (rebuilt: bool)
      requires Valid() && ri < |rules|
      modifies this, rules
      ensures Valid() && rules == old(rules) && goals == old(goals)
      ensures (rebuilt, Abs()) == BuildModel.Execute(env, old(Abs()), ri, target)
      decreases |(env.paths + {target}) - buildCache|, 0, 0
    {
      ghost var w0 := Abs();
      if Built(target) {
        return false;
      }
      buildCache := buildCache + {target};
      assert Abs() == w0.(cache := w0.cache + {target});
      var r := rules[ri];
      assert r.State() == w0.rules[ri];
      if r.targets.None? || r.commands.None? {
        return false;
      }
      SetTargetTime(ri, target);
      assert Abs() == Prepared(env, w0, ri, target);
      var h := RuleDigest(env, r.State(), target);
      CacheShrinks(env.paths, w0.cache, target);
      rebuilt := Decide(ri, target, h);
    }

    /** The rest of `execute` (rules.cc:118-150): check the record under `h`, and rebuild if needed. */
    method Decide(ri: nat, target: string, h: Digest) returns (rebuilt: bool)
      requires Valid() && ri < |rules| && rules[ri].commands.Some?
      modifies this, rules
      ensures Valid() && rules == old(rules) && goals == old(goals)
      ensures (rebuilt, Abs()) == BuildModel.Decide(env, old(Abs()), ri, target, h)
      decreases |env.paths - buildCache|, 6, 0
    {
      ghost var w0 := Abs();
      if h in store {
        var needsRebuild := CheckRecord(ri, store[h]);
        if !needsRebuild {
          return false;
        }
      }
      CacheMonotone(env.paths, w0.cache, buildCache);
      Rebuild(ri, target, h);
      return true;
    }

    /** The loop `needsRebuild |= checkDep(...)` of `execute` over a retrieved record. */
    method CheckRecord(ri: nat, deps: seq<Dep>) returns (needsRebuild: bool)
      requires Valid() && ri < |rules|
      requires forall k :: 0 <= k < |deps| ==> deps[k].path in env.paths
      modifies this, rules
      ensures Valid() && rules == old(rules) && goals == old(goals)
      ensures (needsRebuild, Abs()) == CheckAll(env, old(Abs()), ri, deps, false)
      decreases |env.paths - buildCache|, 2, 0
    {
      ghost var w0 := Abs();
      needsRebuild := false;
      var i := 0;
      while i < |deps|
        invariant 0 <= i <= |deps|
        invariant Valid() && rules == old(rules) && goals == old(goals)
        invariant w0.cache <= buildCache
        invariant CheckAll(env, w0, ri, deps, false) == CheckAll(env, Abs(), ri, deps[i..], needsRebuild)
        decreases |deps| - i
      {
        CacheMonotone(env.paths, w0.cache, buildCache);
        var stale := CheckDep(deps[i].path, deps[i].ok, rules[ri].targetTime);
        needsRebuild := needsRebuild || stale;
        assert deps[i..][1..] == deps[i + 1..];
        i := i + 1;
      }
    }

    /** The rebuild path of `execute`: clear the record, trace the commands, commit, clear the set. */
    method Rebuild(ri: nat, target: string, h: Digest)
      requires Valid() && ri < |rules| && rules[ri].commands.Some?
      modifies this, rules
      ensures Valid() && rules == old(rules) && goals == old(goals)
      ensures (true, Abs()) == BuildModel.Rebuild(env, old(Abs()), ri, target, h)
      decreases |env.paths - buildCache|, 5, 0
    {
      ghost var w0 := Abs();
      var r := rules[ri];
      store := store - {h};
      assert Abs() == w0.(store := w0.store - {h});
      RunCommandList(ri, target, r.commands.value);
      Commit(ri, h);
    }

    /** `add_dependencies(hash, dependencies)` followed by `dependencies.clear()`. */
    method Commit(ri: nat, h: Digest)
      requires Valid() && ri < |rules|
      modifies this, rules[ri]
      ensures Valid() && rules == old(rules) && goals == old(goals)
      ensures Abs() == BuildModel.Commit(env, old(Abs()), ri, h)
    {
      var r := rules[ri];
      store := store[h := r.dependencies];
      ghost var w1 := Abs();
      r.dependencies := [];
      assert Abs().rules == w1.rules[ri := w1.rules[ri].(dependencies := [])];
    }

    /** `targetTime = fileTime(target)`, left as it was when the target cannot be stat'ed. */
    method SetTargetTime(ri: nat, target: string)
      requires Valid() && ri < |rules|
      modifies rules[ri]
      ensures Valid() && Abs() == ReadTargetTime(env, old(Abs()), ri, target)
    {
      if target in env.fs {
        var r := rules[ri];
        r.targetTime := env.fs[target].mtime;
        assert Abs().rules == ReadTargetTime(env, old(Abs()), ri, target).rules;
      }
    }

    /** `trace(expand_command(c, target))` for each command `c` in list order. */
    method RunCommandList(ri: nat, target: string, cmds: seq<string>)
      requires Valid() && ri < |rules|
      modifies this, rules
      ensures Valid() && rules == old(rules) && goals == old(goals)
      ensures Abs() == RunCommands(env, old(Abs()), ri, target, cmds)
      decreases |env.paths - buildCache|, 4, 0
    {
      ghost var w0 := Abs();
      var j := 0;
      while j < |cmds|
        invariant 0 <= j <= |cmds|
        invariant Valid() && rules == old(rules) && goals == old(goals)
        invariant w0.cache <= buildCache
        invariant RunCommands(env, w0, ri, target, cmds) == RunCommands(env, Abs(), ri, target, cmds[j..])
        decreases |cmds| - j
      {
        CacheMonotone(env.paths, w0.cache, buildCache);
        Trace(ri, ExpandCommand(cmds[j], target));
        assert cmds[j..][1..] == cmds[j + 1..];
        j := j + 1;
      }
    }

    /** `trace(command)` on behalf of rule `ri`: log it, then deliver each reported access to the callbacks. */
    method Trace(ri: nat, command: string)
      requires Valid() && ri < |rules|
      modifies this, rules
      ensures Valid() && rules == old(rules) && goals == old(goals)
      ensures Abs() == RunEvents(env, old(Abs()).(log := old(log) + [command]), ri, env.events(command))
      decreases |env.paths - buildCache|, 3, 0
    {
      log := log + [command];
      ghost var w1 := Abs();
      var evs := env.events(command);
      var i := 0;
      while i < |evs|
        invariant 0 <= i <= |evs|
        invariant Valid() && rules == old(rules) && goals == old(goals)
        invariant w1.cache <= buildCache
        invariant RunEvents(env, w1, ri, evs) == RunEvents(env, Abs(), ri, evs[i..])
        decreases |evs| - i
      {
        CacheMonotone(env.paths, w1.cache, buildCache);
        Deliver(ri, evs[i]);
        assert evs[i..][1..] == evs[i + 1..];
        i := i + 1;
      }
    }

    /** Hand one reported access to the matching callback. */
    method Deliver(ri: nat, e: Event)
      requires Valid() && ri < |rules| && e.path in env.paths
      modifies this, rules
      ensures Valid() && rules == old(rules) && goals == old(goals)
      ensures Abs() == BuildModel.Deliver(env, old(Abs()), ri, e)
      decreases |env.paths - buildCache|, 2, 0
    {
      match e {
        case Entry(f) => CallbackEntry(ri, f);
        case Exit(f, ok) => CallbackExit(ri, f, ok);
      }
    }

    /** `Rule::checkDep` for the recorded dependency `(target, existed)`. */
    method CheckDep(target: string, existed: bool, targetTime: int) returns (stale: bool)
      requires Valid() && target in env.paths
      modifies this, rules
      ensures Valid() && rules == old(rules) && goals == old(goals)
      ensures (stale, Abs()) == BuildModel.CheckDep(env, old(Abs()), target, existed, targetTime)
      decreases |env.paths - buildCache|, 1, 0
    {
      var l := Find(target);
      if l.Found? {
        assert env.paths + {target} == env.paths;
        var rebuilt := Execute(l.index, target);
        if rebuilt {
          return true;
        }
        var status := StatOf(env.fs, target);
        return status.None? || (status.value.mtime > targetTime && !status.value.isDir);
      }
      var status := StatOf(env.fs, target);
      return (status.Some? != existed) || (status.Some? && status.value.mtime > targetTime && !status.value.isDir);
    }

    /** `Rule::callback_entry` on rule `ri`. */
    method CallbackEntry(ri: nat, filename: string)
      requires Valid() && ri < |rules| && filename in env.paths
      modifies this, rules
      ensures Valid() && rules == old(rules) && goals == old(goals)
      ensures Abs() == BuildModel.CallbackEntry(env, old(Abs()), ri, filename)
      decreases |env.paths - buildCache|, 1, 0
    {
      var l := Find(filename);
      if l.Found? {
        assert env.paths + {filename} == env.paths;
        var _ := Execute(l.index, filename);
        InsertDep(ri, Dep(filename, true));
      }
    }

    /** `Rule::callback_exit` on rule `ri`. */
    method CallbackExit(ri: nat, filename: string, success: bool)
      requires Valid() && ri < |rules| && filename in env.paths
      modifies this, rules
      ensures Valid() && rules == old(rules) && goals == old(goals)
      ensures Abs() == BuildModel.CallbackExit(env, old(Abs()), ri, filename, success)
    {
      InsertDep(ri, Dep(filename, success));
    }

    /** `dependencies.insert(d)` on rule `ri`. */
    method InsertDep(ri: nat, d: Dep)
      requires Valid() && ri < |rules| && d.path in env.paths
      modifies rules[ri]
      ensures Valid() && Abs() == AddDep(env, old(Abs()), ri, d)
    {
      var r := rules[ri];
      r.dependencies := Insert(r.dependencies, d);
      assert Abs().rules == AddDep(env, old(Abs()), ri, d).rules;
    }
  }
}
