/**
 * The per-rule in-flight dependency collection: a `std::set<pair<string,bool>>`
 * (rules.h:105).  A std::set is an ordered container without duplicates, so it
 * is represented here by a strictly increasing sequence under the same order
 * std::pair uses: the path compared as a string, then `false < true`.
 * Iterating the set (as the store commit does) visits it in this order.
 */
module DepSet {

  /** One dependency record: a path and the boolean recorded with it. */
  datatype Dep = Dep(path: string, ok: bool)

  /** std::string ordering: lexicographic by character, a proper prefix first. */
  predicate StrLess(a: string, b: string)
    decreases |a|
  {
    if |a| == 0 then |b| > 0
    else if |b| == 0 then false
    else if a[0] != b[0] then a[0] < b[0]
    else StrLess(a[1..], b[1..])
  }

  /** std::pair ordering on (path, ok). */
  predicate DepLess(a: Dep, b: Dep) {
    StrLess(a.path, b.path) || (a.path == b.path && !a.ok && b.ok)
  }

  /** The representation invariant: strictly increasing, hence duplicate-free. */
  predicate Ordered(s: seq<Dep>) {
    forall i, j :: 0 <= i < j < |s| ==> DepLess(s[i], s[j])
  }

  lemma {:induction false} StrLessIrreflexive(a: string)
    ensures !StrLess(a, a)
    decreases |a|
  {
    if |a| > 0 {
      StrLessIrreflexive(a[1..]);
    }
  }

  lemma {:induction false} StrLessTransitive(a: string, b: string, c: string)
    requires StrLess(a, b) && StrLess(b, c)
    ensures StrLess(a, c)
    decreases |a|
  {
    if |a| > 0 && a[0] == b[0] && b[0] == c[0] {
      StrLessTransitive(a[1..], b[1..], c[1..]);
    }
  }

  lemma {:induction false} StrLessTotal(a: string, b: string)
    ensures a == b || StrLess(a, b) || StrLess(b, a)
    decreases |a|
  {
    if |a| > 0 && |b| > 0 && a[0] == b[0] {
      StrLessTotal(a[1..], b[1..]);
      if a[1..] == b[1..] {
        assert a == [a[0]] + a[1..] && b == [b[0]] + b[1..];
      }
    }
  }

  lemma DepLessIrreflexive(a: Dep)
    ensures !DepLess(a, a)
  {
    StrLessIrreflexive(a.path);
  }

  lemma DepLessTransitive(a: Dep, b: Dep, c: Dep)
    requires DepLess(a, b) && DepLess(b, c)
    ensures DepLess(a, c)
  {
    if StrLess(a.path, b.path) && StrLess(b.path, c.path) {
      StrLessTransitive(a.path, b.path, c.path);
    }
  }

  lemma DepLessTotal(a: Dep, b: Dep)
    ensures a == b || DepLess(a, b) || DepLess(b, a)
  {
    StrLessTotal(a.path, b.path);
  }

  /** `set::insert`: add `d` at its place in the order, or leave the set alone if present. */
  function Insert(s: seq<Dep>, d: Dep): (r: seq<Dep>)
    ensures d in r && |s| <= |r| <= |s| + 1
  {
    if s == [] then [d]
    else if s[0] == d then s
    else if DepLess(d, s[0]) then [d] + s
    else [s[0]] + Insert(s[1..], d)
  }

  /** Inserting keeps the representation invariant and adds exactly `d` to the elements. */
  lemma {:induction false} InsertSpec(s: seq<Dep>, d: Dep)
    requires Ordered(s)
    ensures Ordered(Insert(s, d))
    ensures forall x :: x in Insert(s, d) <==> x in s || x == d
  {
    if s == [] {
    } else if s[0] == d {
    } else if DepLess(d, s[0]) {
      var r := [d] + s;
      forall i, j | 0 <= i < j < |r| ensures DepLess(r[i], r[j]) {
        if i == 0 && j > 1 {
          DepLessTransitive(d, s[0], s[j - 1]);
        }
      }
    } else {
      InsertSpec(s[1..], d);
      DepLessTotal(d, s[0]);
      var tail := Insert(s[1..], d);
      var r := [s[0]] + tail;
      forall j | 0 <= j < |tail| ensures DepLess(s[0], tail[j]) {
        assert tail[j] in tail;
        if tail[j] != d {
          assert tail[j] in s[1..];
          var k :| 0 <= k < |s[1..]| && s[1..][k] == tail[j];
          assert DepLess(s[0], s[k + 1]);
        }
      }
      assert s == [s[0]] + s[1..];
    }
  }

  /** Dropping the least element keeps a set ordered. */
  lemma OrderedTail(s: seq<Dep>)
    requires Ordered(s) && s != []
    ensures Ordered(s[1..])
  {
    var tail := s[1..];
    forall i, j | 0 <= i < j < |tail| ensures DepLess(tail[i], tail[j]) {
      assert tail[i] == s[i + 1] && tail[j] == s[j + 1];
    }
  }

  /** Inserting a present element changes nothing: repeated identical records collapse. */
  lemma {:induction false} InsertPresent(s: seq<Dep>, d: Dep)
    requires Ordered(s) && d in s
    ensures Insert(s, d) == s
  {
    if s[0] != d {
      var k :| 0 <= k < |s| && s[k] == d;
      assert k > 0 && DepLess(s[0], s[k]);
      assert !DepLess(d, s[0]) by {
        DepLessIrreflexive(d);
        if DepLess(d, s[0]) {
          DepLessTransitive(d, s[0], d);
        }
      }
      var tail := s[1..];
      assert tail[k - 1] == d;
      OrderedTail(s);
      InsertPresent(tail, d);
      assert Insert(s, d) == [s[0]] + Insert(tail, d);
      assert s == [s[0]] + tail;
    }
  }

  /** The first element of an ordered set is its least element. */
  lemma OrderedHead(s: seq<Dep>, x: Dep)
    requires Ordered(s) && x in s
    ensures x == s[0] || DepLess(s[0], x)
  {
    var k :| 0 <= k < |s| && s[k] == x;
    if k > 0 {
      assert DepLess(s[0], s[k]);
    }
  }

  /** Every later element of an ordered set lies strictly above the first one. */
  lemma OrderedAbove(s: seq<Dep>, x: Dep)
    requires Ordered(s) && s != [] && x in s[1..]
    ensures x != s[0] && x in s
  {
    var k :| 0 <= k < |s[1..]| && s[1..][k] == x;
    assert DepLess(s[0], s[k + 1]);
    DepLessIrreflexive(x);
  }

  /** An ordered sequence is determined by its elements: it is a faithful set representation. */
  lemma {:induction false} OrderedUnique(a: seq<Dep>, b: seq<Dep>)
    requires Ordered(a) && Ordered(b)
    requires forall x :: x in a <==> x in b
    ensures a == b
    decreases |a|
  {
    if a != [] {
      assert a[0] in b;
    }
    if b != [] {
      assert b[0] in a;
    }
    if a != [] && b != [] {
      OrderedHead(a, b[0]);
      OrderedHead(b, a[0]);
      if a[0] != b[0] {
        DepLessTransitive(a[0], b[0], a[0]);
        DepLessIrreflexive(a[0]);
      }
      forall x | x in a[1..] ensures x in b[1..] {
        OrderedAbove(a, x);
        assert b == [b[0]] + b[1..];
      }
      forall x | x in b[1..] ensures x in a[1..] {
        OrderedAbove(b, x);
        assert a == [a[0]] + a[1..];
      }
      OrderedTail(a);
      OrderedTail(b);
      OrderedUnique(a[1..], b[1..]);
      assert a == [a[0]] + a[1..] && b == [b[0]] + b[1..];
    }
  }

  /** The order of two insertions does not matter. */
  lemma InsertCommutes(s: seq<Dep>, d: Dep, e: Dep)
    requires Ordered(s)
    ensures Insert(Insert(s, d), e) == Insert(Insert(s, e), d)
  {
    InsertSpec(s, d);
    InsertSpec(Insert(s, d), e);
    InsertSpec(s, e);
    InsertSpec(Insert(s, e), d);
    OrderedUnique(Insert(Insert(s, d), e), Insert(Insert(s, e), d));
  }
}
