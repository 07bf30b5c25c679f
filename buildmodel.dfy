/**
 * The rule engine of rules.cc as functions over a value `World`: the rule
 * registry, the per-run build cache, the dependency store and the log of
 * commands handed to the tracer.  Collaborators the engine only calls are the
 * fields of `Env`: a file-system snapshot (`fileExists`/`fileTime`), the file
 * accesses each traced command reports (`trace`), the wildcard matcher
 * (`::match`) and the hash (SHA-256).
 *
 * `Execute`, `CheckAll`, `CheckDep`, `Rebuild`, `RunCommands`, `RunEvents` and
 * `CallbackEntry` are mutually recursive exactly like `Rule::execute`,
 * `Rule::checkDep` and `Rule::callback_entry`.  They terminate because every
 * path reached by recursion lies in the finite universe `env.paths`, and the
 * build cache grows by the target before any recursive call (rules.cc:103).
 */
module BuildModel {
  import opened Wrappers
  import opened DepSet
  import opened RuleHash

  /** What `fileTime` reports for an existing path. */
  datatype Stat = Stat(mtime: int, isDir: bool)

  /** One file access reported while a command runs: the two tracer callbacks. */
  datatype Event = Entry(path: string) | Exit(path: string, success: bool)

  datatype Env = Env(
    fs: map<string, Stat>,               // the paths that exist, with their times
    events: string -> seq<Event>,        // the accesses `trace(command)` reports
    pattern: (string, string) -> bool,   // ::match(pattern, target)
    sha: string -> Digest,               // SHA-256 of the written bytes
    paths: set<string>)                  // every path a traced command can access

  /** The traced commands only ever access paths of the universe. */
  ghost predicate EnvOk(env: Env)
  {
    forall c: string, i :: 0 <= i < |env.events(c)| ==> env.events(c)[i].path in env.paths
  }

  /** The fields of one `Rule` object (rules.h:102-105 and the target time). */
  datatype RuleState = RuleState(
    targets: Option<seq<string>>,
    commands: Option<seq<string>>,
    declaredDeps: Option<seq<string>>,
    dependencies: seq<Dep>,
    targetTime: int)

  /** The state the engine changes: `Rule::rules`, `Rule::buildCache`, the store, the trace log. */
  datatype World = World(
    rules: seq<RuleState>,
    cache: set<string>,
    store: map<Digest, seq<Dep>>,
    log: seq<string>)

  /** Recorded paths lie in the universe, and every in-flight set is a well-formed set. */
  ghost predicate WorldOk(env: Env, w: World)
  {
    && (forall h, i :: h in w.store && 0 <= i < |w.store[h]| ==> w.store[h][i].path in env.paths)
    && (forall k, i :: 0 <= k < |w.rules| && 0 <= i < |w.rules[k].dependencies| ==>
          w.rules[k].dependencies[i].path in env.paths)
    && (forall k :: 0 <= k < |w.rules| ==> Ordered(w.rules[k].dependencies))
  }

  /** The parts of a rule that only the builders change. */
  predicate SameDefinition(a: RuleState, b: RuleState)
  {
    a.targets == b.targets && a.commands == b.commands && a.declaredDeps == b.declaredDeps
  }

  /** What every step of a build keeps: the rule definitions; the cache and the log only grow. */
  ghost predicate Evolves(w: World, w': World)
  {
    && |w'.rules| == |w.rules|
    && (forall k :: 0 <= k < |w.rules| ==> SameDefinition(w.rules[k], w'.rules[k]))
    && w.cache <= w'.cache
    && w.log <= w'.log
  }

  // ---------------------------------------------------------------------------
  // Rule resolution (rules.cc:168-220)

  /** `Rule::match`: no target list never matches; otherwise some pattern matches. */
  predicate Matches(pattern: (string, string) -> bool, r: RuleState, t: string)
    ensures Matches(pattern, r, t) ==> r.targets.Some? && r.targets.value != []
  {
    r.targets.Some? && exists i :: 0 <= i < |r.targets.value| && pattern(r.targets.value[i], t)
  }

  /** The registry positions whose rule matches `t`, in registration order. */
  function Matching(pattern: (string, string) -> bool, rules: seq<RuleState>, t: string): (ms: seq<nat>)
    ensures forall i :: 0 <= i < |ms| ==> ms[i] < |rules|
    ensures forall i, j :: 0 <= i < j < |ms| ==> ms[i] < ms[j]
    ensures forall k :: 0 <= k < |rules| ==> (k in ms <==> Matches(pattern, rules[k], t))
  {
    if rules == [] then []
    else
      var before := Matching(pattern, rules[..|rules| - 1], t);
      assert forall k :: 0 <= k < |rules| - 1 ==> rules[..|rules| - 1][k] == rules[k];
      if Matches(pattern, rules[|rules| - 1], t) then before + [|rules| - 1] else before
  }

  /** The outcome of `Rule::find`: the matching rule, or which exception it throws. */
  datatype Lookup = Found(index: nat) | NoRule | MultipleRules

  function Find(pattern: (string, string) -> bool, rules: seq<RuleState>, t: string): (r: Lookup)
    ensures r.Found? ==> r.index < |rules| && Matches(pattern, rules[r.index], t)
  {
    var ms := Matching(pattern, rules, t);
    if |ms| == 0 then NoRule else if |ms| == 1 then Found(ms[0]) else MultipleRules
  }

  /** `Rule::canBeBuilt`: the file exists, or `find` does not throw. */
  predicate CanBeBuilt(env: Env, rules: seq<RuleState>, file: string)
    ensures !CanBeBuilt(env, rules, file) ==> file !in env.fs && |Matching(env.pattern, rules, file)| != 1
  {
    file in env.fs || Find(env.pattern, rules, file).Found?
  }

  // ---------------------------------------------------------------------------
  // Staleness decisions of `Rule::checkDep` (rules.cc:333-383)

  function StatOf(fs: map<string, Stat>, p: string): Option<Stat>
  {
    if p in fs then Some(fs[p]) else None
  }

  /** A dependency that has a rule: rebuilt, or cannot be stat'ed, or a newer non-directory. */
  predicate GeneratedStale(rebuilt: bool, st: Option<Stat>, targetTime: int)
    ensures rebuilt ==> GeneratedStale(rebuilt, st, targetTime)
    ensures st.Some? && st.value.isDir ==> (GeneratedStale(rebuilt, st, targetTime) <==> rebuilt)
  {
    rebuilt || st.None? || (st.value.mtime > targetTime && !st.value.isDir)
  }

  /** A dependency without a unique rule: appeared or vanished, or a newer non-directory. */
  predicate SourceStale(st: Option<Stat>, existed: bool, targetTime: int)
    ensures st.None? ==> (SourceStale(st, existed, targetTime) <==> existed)
    ensures st.Some? && st.value.isDir ==> (SourceStale(st, existed, targetTime) <==> !existed)
  {
    (st.Some? != existed) || (st.Some? && st.value.mtime > targetTime && !st.value.isDir)
  }

  /** `Rule::expand_command` returns the command unchanged (rules.cc:284-287). */
  function ExpandCommand(command: string, target: string): string
  {
    command
  }

  // ---------------------------------------------------------------------------
  // Single-field updates of one rule

  function SetTargetTime(w: World, ri: nat, time: int): (w': World)
    requires ri < |w.rules|
    ensures |w'.rules| == |w.rules| && w'.rules[ri].targetTime == time
    ensures forall k :: 0 <= k < |w.rules| && k != ri ==> w'.rules[k] == w.rules[k]
  {
    w.(rules := w.rules[ri := w.rules[ri].(targetTime := time)])
  }

  /** `dependencies.insert(d)` on rule `ri`. */
  function AddDep(env: Env, w: World, ri: nat, d: Dep): (w': World)
    requires WorldOk(env, w) && ri < |w.rules| && d.path in env.paths
    ensures WorldOk(env, w') && Evolves(w, w') && w'.cache == w.cache && w'.store == w.store
    ensures w'.rules[ri].dependencies == Insert(w.rules[ri].dependencies, d)
    ensures forall k :: 0 <= k < |w.rules| && k != ri ==> w'.rules[k] == w.rules[k]
  {
    var s := w.rules[ri].dependencies;
    InsertSpec(s, d);
    assert forall i :: 0 <= i < |Insert(s, d)| ==> Insert(s, d)[i].path in env.paths by {
      forall i | 0 <= i < |Insert(s, d)| ensures Insert(s, d)[i].path in env.paths {
        var x := Insert(s, d)[i];
        assert x in Insert(s, d);
        if x != d {
          var j :| 0 <= j < |s| && s[j] == x;
        }
      }
    }
    w.(rules := w.rules[ri := w.rules[ri].(dependencies := Insert(w.rules[ri].dependencies, d))])
  }

  // ---------------------------------------------------------------------------
  // The incremental build (rules.cc:70-158, 318-384)

  lemma CacheShrinks(p: set<string>, c: set<string>, t: string)
    requires t !in c
    ensures |p - (c + {t})| < |(p + {t}) - c|
  {
    assert (p + {t}) - c == (p - (c + {t})) + {t};
  }

  lemma CacheMonotone(p: set<string>, c1: set<string>, c2: set<string>)
    requires c1 <= c2
    ensures |p - c2| <= |p - c1|
  {
    assert p - c1 == (p - c2) + ((p - c1) - (p - c2));
  }

  /** The world once `execute` has claimed `t` and read the target's time (rules.cc:103-110). */
  function Prepared(env: Env, w: World, ri: nat, t: string): (w': World)
    requires ri < |w.rules|
    ensures |w'.rules| == |w.rules| && w'.cache == w.cache + {t} && w'.store == w.store && w'.log == w.log
    ensures forall k :: 0 <= k < |w.rules| && k != ri ==> w'.rules[k] == w.rules[k]
    ensures SameDefinition(w'.rules[ri], w.rules[ri]) && w'.rules[ri].dependencies == w.rules[ri].dependencies
    ensures w'.rules[ri].targetTime == if t in env.fs then env.fs[t].mtime else w.rules[ri].targetTime
  {
    ReadTargetTime(env, w.(cache := w.cache + {t}), ri, t)
  }

  /** `targetTime = fileTime(t)`; when the target cannot be stat'ed the old value stays (rules.cc:106-110). */
  function ReadTargetTime(env: Env, w: World, ri: nat, t: string): (w': World)
    requires ri < |w.rules|
    ensures |w'.rules| == |w.rules| && w'.cache == w.cache && w'.store == w.store && w'.log == w.log
    ensures forall k :: 0 <= k < |w.rules| && k != ri ==> w'.rules[k] == w.rules[k]
    ensures SameDefinition(w'.rules[ri], w.rules[ri]) && w'.rules[ri].dependencies == w.rules[ri].dependencies
    ensures w'.rules[ri].targetTime == if t in env.fs then env.fs[t].mtime else w.rules[ri].targetTime
  {
    if t in env.fs then SetTargetTime(w, ri, env.fs[t].mtime) else w
  }

  /** The fingerprint of rule `r` built for `t`. */
  function RuleDigest(env: Env, r: RuleState, t: string): Digest
  {
    Fingerprint(env.sha, r.targets, r.commands, t)
  }

  /** `Rule::execute(t)` on rule `ri`: whether it rebuilt, and the new world. */
  function Execute(env: Env, w: World, ri: nat, t: string): (res: (bool, World))
    requires EnvOk(env) && WorldOk(env, w) && ri < |w.rules|
    ensures Evolves(w, res.1) && WorldOk(env, res.1)
    ensures t in res.1.cache
    decreases |(env.paths + {t}) - w.cache|, 0, 0
  {
    if t in w.cache then (false, w)
    else
      var r := w.rules[ri];
      if r.targets.None? || r.commands.None? then (false, w.(cache := w.cache + {t}))
      else
        CacheShrinks(env.paths, w.cache, t);
        Decide(env, Prepared(env, w, ri, t), ri, t, RuleDigest(env, r, t))
  }

  /**
   * The rebuild decision once the target is claimed and its time read: check
   * the record stored under the fingerprint `h`, if any, and rebuild when there
   * is none or it is stale.
   */
  function Decide(env: Env, w: World, ri: nat, t: string, h: Digest): (res: (bool, World))
    requires EnvOk(env) && WorldOk(env, w) && ri < |w.rules| && w.rules[ri].commands.Some?
    ensures Evolves(w, res.1) && WorldOk(env, res.1)
    decreases |env.paths - w.cache|, 6, 0
  {
    if h in w.store then
      var checked := CheckAll(env, w, ri, w.store[h], false);
      CacheMonotone(env.paths, w.cache, checked.1.cache);
      if checked.0 then Rebuild(env, checked.1, ri, t, h) else (false, checked.1)
    else
      Rebuild(env, w, ri, t, h)
  }

  /**
   * The loop `needsRebuild |= checkDep(...)` over the recorded dependencies:
   * every record is checked, and the rule's target time is read afresh for each.
   */
  function CheckAll(env: Env, w: World, ri: nat, deps: seq<Dep>, acc: bool): (res: (bool, World))
    requires EnvOk(env) && WorldOk(env, w) && ri < |w.rules|
    requires forall i :: 0 <= i < |deps| ==> deps[i].path in env.paths
    ensures Evolves(w, res.1) && WorldOk(env, res.1)
    ensures acc ==> res.0
    decreases |env.paths - w.cache|, 2, |deps|
  {
    if deps == [] then (acc, w)
    else
      var one := CheckDep(env, w, deps[0].path, deps[0].ok, w.rules[ri].targetTime);
      CacheMonotone(env.paths, w.cache, one.1.cache);
      CheckAll(env, one.1, ri, deps[1..], acc || one.0)
  }

  /** `Rule::checkDep` for one recorded dependency `(p, existed)`. */
  function CheckDep(env: Env, w: World, p: string, existed: bool, targetTime: int): (res: (bool, World))
    requires EnvOk(env) && WorldOk(env, w) && p in env.paths
    ensures Evolves(w, res.1) && WorldOk(env, res.1)
    decreases |env.paths - w.cache|, 1, 0
  {
    match Find(env.pattern, w.rules, p)
    case Found(j) =>
      assert env.paths + {p} == env.paths;
      var sub := Execute(env, w, j, p);
      (GeneratedStale(sub.0, StatOf(env.fs, p), targetTime), sub.1)
    case _ =>
      (SourceStale(StatOf(env.fs, p), existed, targetTime), w)
  }

  /** The rebuild path: clear the store entry, trace every command, commit, clear the set. */
  function Rebuild(env: Env, w: World, ri: nat, t: string, h: Digest): (res: (bool, World))
    requires EnvOk(env) && WorldOk(env, w) && ri < |w.rules| && w.rules[ri].commands.Some?
    ensures Evolves(w, res.1) && WorldOk(env, res.1)
    ensures res.0 && h in res.1.store && res.1.rules[ri].dependencies == []
    decreases |env.paths - w.cache|, 5, 0
  {
    var w1 := w.(store := w.store - {h});
    var w2 := RunCommands(env, w1, ri, t, w.rules[ri].commands.value);
    (true, Commit(env, w2, ri, h))
  }

  /** `add_dependencies(hash, dependencies)` followed by `dependencies.clear()`. */
  function Commit(env: Env, w: World, ri: nat, h: Digest): (w': World)
    requires WorldOk(env, w) && ri < |w.rules|
    ensures Evolves(w, w') && WorldOk(env, w') && w'.cache == w.cache && w'.log == w.log
    ensures w'.store == w.store[h := w.rules[ri].dependencies] && w'.rules[ri].dependencies == []
    ensures forall k :: 0 <= k < |w.rules| && k != ri ==> w'.rules[k] == w.rules[k]
  {
    var w1 := w.(store := w.store[h := w.rules[ri].dependencies]);
    w1.(rules := w1.rules[ri := w1.rules[ri].(dependencies := [])])
  }

  /** `trace(expand_command(c, t))` for each command in list order. */
  function RunCommands(env: Env, w: World, ri: nat, t: string, cmds: seq<string>): (w': World)
    requires EnvOk(env) && WorldOk(env, w) && ri < |w.rules|
    ensures Evolves(w, w') && WorldOk(env, w')
    decreases |env.paths - w.cache|, 4, |cmds|
  {
    if cmds == [] then w
    else
      var cmd := ExpandCommand(cmds[0], t);
      var w1 := w.(log := w.log + [cmd]);
      var w2 := RunEvents(env, w1, ri, env.events(cmd));
      CacheMonotone(env.paths, w1.cache, w2.cache);
      RunCommands(env, w2, ri, t, cmds[1..])
  }

  /** The callbacks the tracer makes, in order, for one command. */
  function RunEvents(env: Env, w: World, ri: nat, evs: seq<Event>): (w': World)
    requires EnvOk(env) && WorldOk(env, w) && ri < |w.rules|
    requires forall i :: 0 <= i < |evs| ==> evs[i].path in env.paths
    ensures Evolves(w, w') && WorldOk(env, w')
    decreases |env.paths - w.cache|, 3, |evs|
  {
    if evs == [] then w
    else
      var w1 := Deliver(env, w, ri, evs[0]);
      CacheMonotone(env.paths, w.cache, w1.cache);
      RunEvents(env, w1, ri, evs[1..])
  }

  /** One tracer callback. */
  function Deliver(env: Env, w: World, ri: nat, e: Event): (w': World)
    requires EnvOk(env) && WorldOk(env, w) && ri < |w.rules| && e.path in env.paths
    ensures Evolves(w, w') && WorldOk(env, w')
    decreases |env.paths - w.cache|, 2, 0
  {
    match e
    case Entry(f) => CallbackEntry(env, w, ri, f)
    case Exit(f, ok) => CallbackExit(env, w, ri, f, ok)
  }

  /** `Rule::callback_entry`: build the accessed file if exactly one rule makes it, then record it. */
  function CallbackEntry(env: Env, w: World, ri: nat, f: string): (w': World)
    requires EnvOk(env) && WorldOk(env, w) && ri < |w.rules| && f in env.paths
    ensures Evolves(w, w') && WorldOk(env, w')
    decreases |env.paths - w.cache|, 1, 0
  {
    match Find(env.pattern, w.rules, f)
    case Found(j) =>
      assert env.paths + {f} == env.paths;
      var sub := Execute(env, w, j, f);
      AddDep(env, sub.1, ri, Dep(f, true))
    case _ => w
  }

  /** `Rule::callback_exit`: record the accessed file with the outcome of the access. */
  function CallbackExit(env: Env, w: World, ri: nat, f: string, success: bool): (w': World)
    requires WorldOk(env, w) && ri < |w.rules| && f in env.paths
    ensures Evolves(w, w') && WorldOk(env, w')
    ensures w'.rules[ri].dependencies == Insert(w.rules[ri].dependencies, Dep(f, success))
    ensures w'.store == w.store && w'.cache == w.cache && w'.log == w.log
    ensures forall k :: 0 <= k < |w.rules| && k != ri ==> w'.rules[k] == w.rules[k]
  {
    AddDep(env, w, ri, Dep(f, success))
  }
}
