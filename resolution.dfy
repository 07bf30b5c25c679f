/**
 * What rule resolution promises (rules.cc:168-220): `find` succeeds exactly
 * when one registered rule matches and returns that rule; it throws
 * "No rule" when none does and "Multiple rules" when two or more do, and
 * which of the three happens does not depend on the registration order.
 */
module Resolution {
  import opened Wrappers
  import opened BuildModel

  /** `find` returns rule `i` exactly when rule `i` is the only rule that matches. */
  lemma FindFoundIff(pattern: (string, string) -> bool, rules: seq<RuleState>, t: string, i: nat)
    ensures Find(pattern, rules, t) == Found(i)
        <==> i < |rules| && Matches(pattern, rules[i], t)
             && forall k :: 0 <= k < |rules| && k != i ==> !Matches(pattern, rules[k], t)
  {
    var ms := Matching(pattern, rules, t);
    if i < |rules| && Matches(pattern, rules[i], t)
       && forall k :: 0 <= k < |rules| && k != i ==> !Matches(pattern, rules[k], t)
    {
      assert i in ms;
      forall x | x in ms ensures x == i {
        assert Matches(pattern, rules[x], t);
      }
      AtMostOne(ms, i);
    }
  }

  /** A strictly increasing sequence whose elements all equal `i` has at most one element. */
  lemma AtMostOne(ms: seq<nat>, i: nat)
    requires forall a, b :: 0 <= a < b < |ms| ==> ms[a] < ms[b]
    requires forall x :: x in ms ==> x == i
    ensures |ms| <= 1
  {
    if |ms| >= 2 {
      FirstTwo(ms);
      assert false;
    }
  }

  lemma FirstTwo(ms: seq<nat>)
    ensures |ms| >= 2 ==> ms[0] in ms && ms[1] in ms
  {
  }

  /** `find` throws "No rule" exactly when no registered rule matches. */
  lemma FindNoRuleIff(pattern: (string, string) -> bool, rules: seq<RuleState>, t: string)
    ensures Find(pattern, rules, t) == NoRule <==> forall k :: 0 <= k < |rules| ==> !Matches(pattern, rules[k], t)
  {
    var ms := Matching(pattern, rules, t);
    if |ms| > 0 {
      assert ms[0] in ms;
    }
  }

  /** `find` throws "Multiple rules" exactly when two different registered rules match. */
  lemma FindMultipleIff(pattern: (string, string) -> bool, rules: seq<RuleState>, t: string)
    ensures Find(pattern, rules, t) == MultipleRules
        <==> exists i, j :: 0 <= i < j < |rules| && Matches(pattern, rules[i], t) && Matches(pattern, rules[j], t)
  {
    var ms := Matching(pattern, rules, t);
    if |ms| >= 2 {
      assert ms[0] in ms && ms[1] in ms && ms[0] < ms[1];
      assert Matches(pattern, rules[ms[0]], t) && Matches(pattern, rules[ms[1]], t);
    }
    if exists i, j :: 0 <= i < j < |rules| && Matches(pattern, rules[i], t) && Matches(pattern, rules[j], t) {
      var i, j :| 0 <= i < j < |rules| && Matches(pattern, rules[i], t) && Matches(pattern, rules[j], t);
      assert i in ms && j in ms;
    }
  }

  /** `canBeBuilt` holds exactly when the file exists or a single rule matches it. */
  lemma CanBeBuiltIff(env: Env, rules: seq<RuleState>, file: string)
    ensures CanBeBuilt(env, rules, file)
        <==> file in env.fs
             || exists i :: 0 <= i < |rules| && Matches(env.pattern, rules[i], file)
                            && forall k :: 0 <= k < |rules| && k != i ==> !Matches(env.pattern, rules[k], file)
  {
    var r := Find(env.pattern, rules, file);
    if r.Found? {
      FindFoundIff(env.pattern, rules, file, r.index);
    }
    forall i | 0 <= i < |rules| && Matches(env.pattern, rules[i], file)
               && forall k :: 0 <= k < |rules| && k != i ==> !Matches(env.pattern, rules[k], file)
      ensures r.Found?
    {
      FindFoundIff(env.pattern, rules, file, i);
    }
  }

  /** Neither failure of `find` lets a missing file count as buildable. */
  lemma CanBeBuiltFailures(env: Env, rules: seq<RuleState>, file: string)
    requires file !in env.fs
    ensures (forall k :: 0 <= k < |rules| ==> !Matches(env.pattern, rules[k], file)) ==> !CanBeBuilt(env, rules, file)
    ensures (exists i, j :: 0 <= i < j < |rules| && Matches(env.pattern, rules[i], file) && Matches(env.pattern, rules[j], file))
            ==> !CanBeBuilt(env, rules, file)
  {
    FindNoRuleIff(env.pattern, rules, file);
    FindMultipleIff(env.pattern, rules, file);
  }

  /** Appending one rule adds one match exactly when that rule matches. */
  lemma {:induction false} MatchingSnoc(pattern: (string, string) -> bool, rules: seq<RuleState>, x: RuleState, t: string)
    ensures |Matching(pattern, rules + [x], t)| == |Matching(pattern, rules, t)| + (if Matches(pattern, x, t) then 1 else 0)
  {
    assert (rules + [x])[..|rules|] == rules;
  }

  /** The matches among the first `i + 1` rules: those among the first `i`, then `i` if it matches. */
  lemma MatchingPrefix(pattern: (string, string) -> bool, rules: seq<RuleState>, i: nat, t: string)
    requires i < |rules|
    ensures Matching(pattern, rules[..i + 1], t)
         == Matching(pattern, rules[..i], t) + (if Matches(pattern, rules[i], t) then [i] else [])
  {
    assert rules[..i + 1][..i] == rules[..i];
  }

  /** A second match anywhere in the scan already decides "Multiple rules", whatever follows. */
  lemma SecondMatchAmbiguous(pattern: (string, string) -> bool, rules: seq<RuleState>, i: nat, t: string)
    requires i < |rules| && |Matching(pattern, rules[..i], t)| >= 1 && Matches(pattern, rules[i], t)
    ensures Find(pattern, rules, t) == MultipleRules
  {
    MatchingPrefix(pattern, rules, i, t);
    assert rules == rules[..i + 1] + rules[i + 1..];
    MatchingAppend(pattern, rules[..i + 1], rules[i + 1..], t);
  }

  /**
   * One iteration of the scan in `Rule::find` (rules.cc:173-183): with the
   * matches among the first `i` rules summarised by `found` and `r`, rule `i`
   * either is a second match, which decides "Multiple rules", or extends the
   * summary to the first `i + 1` rules.
   */
  lemma ScanStep(pattern: (string, string) -> bool, rules: seq<RuleState>, i: nat, t: string, found: bool, r: nat)
    requires i < |rules| && Matching(pattern, rules[..i], t) == if found then [r] else []
    ensures found && Matches(pattern, rules[i], t) ==> Find(pattern, rules, t) == MultipleRules
    ensures !(found && Matches(pattern, rules[i], t)) ==>
              var r' := if Matches(pattern, rules[i], t) then i else r;
              Matching(pattern, rules[..i + 1], t)
              == if found || Matches(pattern, rules[i], t) then [r'] else []
  {
    MatchingPrefix(pattern, rules, i, t);
    if found && Matches(pattern, rules[i], t) {
      SecondMatchAmbiguous(pattern, rules, i, t);
    }
  }

  /** The end of the scan: the summary of all rules is the outcome of `find`. */
  lemma ScanDone(pattern: (string, string) -> bool, rules: seq<RuleState>, t: string, found: bool, r: nat)
    requires Matching(pattern, rules[..|rules|], t) == if found then [r] else []
    ensures Find(pattern, rules, t) == if found then Found(r) else NoRule
  {
    assert rules[..|rules|] == rules;
  }

  lemma {:induction false} MatchingAppend(pattern: (string, string) -> bool, a: seq<RuleState>, b: seq<RuleState>, t: string)
    ensures |Matching(pattern, a + b, t)| == |Matching(pattern, a, t)| + |Matching(pattern, b, t)|
    decreases |b|
  {
    if b == [] {
      assert a + b == a;
    } else {
      var b' := b[..|b| - 1];
      var x := b[|b| - 1];
      assert a + b == (a + b') + [x] && b == b' + [x];
      MatchingAppend(pattern, a, b', t);
      MatchingSnoc(pattern, a + b', x, t);
      MatchingSnoc(pattern, b', x, t);
    }
  }

  /** The number of matching rules does not depend on the registration order. */
  lemma {:induction false} MatchCountPermutation(pattern: (string, string) -> bool, a: seq<RuleState>, b: seq<RuleState>,
                                                 t: string)
    requires multiset(a) == multiset(b)
    ensures |Matching(pattern, a, t)| == |Matching(pattern, b, t)|
    decreases |a|
  {
    if a == [] {
      assert |b| == |multiset(b)| == 0;
    } else {
      var a' := a[..|a| - 1];
      var x := a[|a| - 1];
      assert a == a' + [x];
      assert x in multiset(b);
      var k :| 0 <= k < |b| && b[k] == x;
      var b1, b2 := b[..k], b[k + 1..];
      assert b == b1 + [x] + b2;
      MultisetCancel(a', x, b1, b2);
      MatchCountPermutation(pattern, a', b1 + b2, t);
      MatchingSnoc(pattern, a', x, t);
      MatchingWithout(pattern, b1, x, b2, t);
    }
  }

  lemma MultisetCancel<T>(a: seq<T>, x: T, b1: seq<T>, b2: seq<T>)
    requires multiset(a + [x]) == multiset(b1 + [x] + b2)
    ensures multiset(a) == multiset(b1 + b2)
  {
    calc {
      multiset(a) + multiset{x};
      multiset(a + [x]);
      multiset(b1 + [x] + b2);
      multiset(b1) + multiset{x} + multiset(b2);
      multiset(b1 + b2) + multiset{x};
    }
    forall y ensures multiset(a)[y] == multiset(b1 + b2)[y] {
      assert (multiset(a) + multiset{x})[y] == (multiset(b1 + b2) + multiset{x})[y];
    }
  }

  /** Taking one rule out of the middle removes one match exactly when it matches. */
  lemma MatchingWithout(pattern: (string, string) -> bool, b1: seq<RuleState>, x: RuleState, b2: seq<RuleState>, t: string)
    ensures |Matching(pattern, b1 + [x] + b2, t)|
            == |Matching(pattern, b1 + b2, t)| + (if Matches(pattern, x, t) then 1 else 0)
  {
    MatchingAppend(pattern, b1, b2, t);
    MatchingAppend(pattern, b1 + [x], b2, t);
    MatchingSnoc(pattern, b1, x, t);
  }

  /**
   * Registering the same rules in another order gives the same outcome: the same
   * rule when `find` succeeds, and the same exception when it throws.
   */
  lemma FindOrderIndependent(pattern: (string, string) -> bool, a: seq<RuleState>, b: seq<RuleState>, t: string)
    requires multiset(a) == multiset(b)
    ensures Find(pattern, a, t).Found? <==> Find(pattern, b, t).Found?
    ensures Find(pattern, a, t) == NoRule <==> Find(pattern, b, t) == NoRule
    ensures Find(pattern, a, t) == MultipleRules <==> Find(pattern, b, t) == MultipleRules
    ensures Find(pattern, a, t).Found? ==> a[Find(pattern, a, t).index] == b[Find(pattern, b, t).index]
  {
    MatchCountPermutation(pattern, a, b, t);
    var ra, rb := Find(pattern, a, t), Find(pattern, b, t);
    if ra.Found? {
      FindFoundIff(pattern, a, t, ra.index);
      FindFoundIff(pattern, b, t, rb.index);
      var y := b[rb.index];
      assert y in multiset(a);
      var k :| 0 <= k < |a| && a[k] == y;
      assert Matches(pattern, a[k], t);
    }
  }

  /** Resolution only looks at the target lists, so it is the same in every later world of a build. */
  lemma FindStable(pattern: (string, string) -> bool, a: seq<RuleState>, b: seq<RuleState>, t: string)
    requires |a| == |b| && forall k :: 0 <= k < |a| ==> a[k].targets == b[k].targets
    ensures Find(pattern, a, t) == Find(pattern, b, t)
  {
    assert forall k :: 0 <= k < |a| ==> (Matches(pattern, a[k], t) <==> Matches(pattern, b[k], t));
    MatchingEqual(pattern, a, b, t);
  }

  lemma {:induction false} MatchingEqual(pattern: (string, string) -> bool, a: seq<RuleState>, b: seq<RuleState>, t: string)
    requires |a| == |b| && forall k :: 0 <= k < |a| ==> (Matches(pattern, a[k], t) <==> Matches(pattern, b[k], t))
    ensures Matching(pattern, a, t) == Matching(pattern, b, t)
    decreases |a|
  {
    if a != [] {
      MatchingEqual(pattern, a[..|a| - 1], b[..|b| - 1], t);
    }
  }
}
