/**
 * The rule fingerprint of `Rule::recalcHash` (rules.cc:289-311): SHA-256 over
 * every target pattern, then every command, then the concrete target,
 * written one after another without separators.  The hash itself is a
 * parameter `sha` (an arbitrary function of the byte string); only what is
 * fed to it is modelled.
 */
module RuleHash {
  import opened Wrappers

  /** A 256-bit digest. */
  type Digest = s: seq<bv8> | |s| == 32 witness seq(32, i => 0 as bv8)

  /** The bytes the hash handle has seen after writing each string of `xs` in order. */
  function Concat(xs: seq<string>): string
  {
    if xs == [] then [] else Concat(xs[..|xs| - 1]) + xs[|xs| - 1]
  }

  /** The strings `recalcHash` writes, in order; an absent list writes nothing. */
  function Writes(targets: Option<seq<string>>, commands: Option<seq<string>>, target: string): seq<string>
  {
    targets.GetOr([]) + commands.GetOr([]) + [target]
  }

  /** Everything the digest depends on. */
  function HashInput(targets: Option<seq<string>>, commands: Option<seq<string>>, target: string): (r: string)
    ensures Concat(targets.GetOr([])) <= r
    ensures |target| <= |r| && r[|r| - |target|..] == target
  {
    var ts, cs := targets.GetOr([]), commands.GetOr([]);
    ConcatAppend(ts + cs, [target]);
    ConcatAppend(ts, cs);
    assert Concat([target]) == Concat([]) + target;
    Concat(Writes(targets, commands, target))
  }

  /** The digest of the rule for `target`: SHA-256 of the targets, the commands and the target, back to back. */
  function Fingerprint(sha: string -> Digest, targets: Option<seq<string>>, commands: Option<seq<string>>,
                       target: string): (r: Digest)
    ensures r == sha(Concat(targets.GetOr([])) + Concat(commands.GetOr([])) + target)
  {
    HashInputLayout(targets, commands, target);
    sha(HashInput(targets, commands, target))
  }

  /** Writing two lists in turn feeds the hash the two concatenations in turn. */
  lemma {:induction false} ConcatAppend(xs: seq<string>, ys: seq<string>)
    ensures Concat(xs + ys) == Concat(xs) + Concat(ys)
    decreases |ys|
  {
    if ys != [] {
      var last := ys[|ys| - 1];
      calc {
        Concat(xs + ys);
        { assert (xs + ys)[..|xs + ys| - 1] == xs + ys[..|ys| - 1]; }
        Concat(xs + ys[..|ys| - 1]) + last;
        { ConcatAppend(xs, ys[..|ys| - 1]); }
        Concat(xs) + Concat(ys[..|ys| - 1]) + last;
      }
    } else {
      assert xs + ys == xs;
    }
  }

  /** The hashed bytes are the targets, then the commands, then the target, with nothing in between. */
  lemma HashInputLayout(targets: Option<seq<string>>, commands: Option<seq<string>>, target: string)
    ensures HashInput(targets, commands, target)
         == Concat(targets.GetOr([])) + Concat(commands.GetOr([])) + target
  {
    var ts, cs := targets.GetOr([]), commands.GetOr([]);
    ConcatAppend(ts + cs, [target]);
    ConcatAppend(ts, cs);
    assert Concat([target]) == Concat([]) + target;
  }

  /** The digest is a function of the concatenated bytes only: equal bytes, equal digests. */
  lemma SameBytesSameDigest(sha: string -> Digest,
                            t1: Option<seq<string>>, c1: Option<seq<string>>, x1: string,
                            t2: Option<seq<string>>, c2: Option<seq<string>>, x2: string)
    requires Concat(t1.GetOr([])) + Concat(c1.GetOr([])) + x1 == Concat(t2.GetOr([])) + Concat(c2.GetOr([])) + x2
    ensures Fingerprint(sha, t1, c1, x1) == Fingerprint(sha, t2, c2, x2)
  {
    HashInputLayout(t1, c1, x1);
    HashInputLayout(t2, c2, x2);
  }

  /**
   * Because no separator is written, moving a boundary between strings does not
   * change the digest: targets ["ab"] with commands ["c"] and targets ["a"] with
   * commands ["bc"] fingerprint alike for every target and every hash.
   */
  lemma BoundaryShiftCollides(sha: string -> Digest, target: string)
    ensures Fingerprint(sha, Some(["ab"]), Some(["c"]), target) == Fingerprint(sha, Some(["a"]), Some(["bc"]), target)
  {
    assert Concat(["ab"]) == "ab" by { assert ["ab"][..0] == []; }
    assert Concat(["c"]) == "c" by { assert ["c"][..0] == []; }
    assert Concat(["a"]) == "a" by { assert ["a"][..0] == []; }
    assert Concat(["bc"]) == "bc" by { assert ["bc"][..0] == []; }
    SameBytesSameDigest(sha, Some(["ab"]), Some(["c"]), target, Some(["a"]), Some(["bc"]), target);
  }

  /** For one rule, the hashed bytes determine the concrete target being built. */
  lemma {:induction false} HashInputDeterminesTarget(targets: Option<seq<string>>, commands: Option<seq<string>>,
                                                     x1: string, x2: string)
    requires HashInput(targets, commands, x1) == HashInput(targets, commands, x2)
    ensures x1 == x2
  {
    HashInputLayout(targets, commands, x1);
    HashInputLayout(targets, commands, x2);
    var p := Concat(targets.GetOr([])) + Concat(commands.GetOr([]));
    assert x1 == (p + x1)[|p|..];
    assert x2 == (p + x2)[|p|..];
  }

  /** A rule without a target list hashes like one with an empty list (nothing is written either way). */
  lemma AbsentListWritesNothing(commands: Option<seq<string>>, target: string)
    ensures HashInput(None, commands, target) == HashInput(Some([]), commands, target)
    ensures HashInput(Some([]), None, target) == target
  {
    HashInputLayout(Some([]), None, target);
  }
}
