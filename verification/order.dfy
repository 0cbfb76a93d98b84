/** Python's ordering of `str` values (code point by code point, a proper
    prefix first), and sorting a list of release names by it, as
    `sorted(RELEASES.iterdir())` does for directories that share a parent. */
module StringOrder {

  /** `a <= b` on Python strings. */
  predicate Below(a: string, b: string)
    decreases |a|
  {
    |a| == 0 ||
    (|b| > 0 && (a[0] < b[0] || (a[0] == b[0] && Below(a[1..], b[1..]))))
  }

  lemma BelowReflexive(a: string)
    ensures Below(a, a)
  {
  }

  lemma {:induction false} BelowAntisymmetric(a: string, b: string)
    requires Below(a, b) && Below(b, a)
    ensures a == b
    decreases |a|
  {
    if |a| > 0 {
      BelowAntisymmetric(a[1..], b[1..]);
      assert a == [a[0]] + a[1..] && b == [b[0]] + b[1..];
    }
  }

  lemma {:induction false} BelowTransitive(a: string, b: string, c: string)
    requires Below(a, b) && Below(b, c)
    ensures Below(a, c)
    decreases |a|
  {
    if |a| > 0 && a[0] == b[0] && b[0] == c[0] {
      BelowTransitive(a[1..], b[1..], c[1..]);
    }
  }

  lemma {:induction false} BelowTotal(a: string, b: string)
    ensures Below(a, b) || Below(b, a)
    decreases |a|
  {
    if |a| > 0 && |b| > 0 && a[0] == b[0] {
      BelowTotal(a[1..], b[1..]);
    }
  }

  /** Ascending order; with distinct names this is strictly ascending. */
  predicate Sorted(s: seq<string>) {
    forall i, j :: 0 <= i < j < |s| ==> Below(s[i], s[j])
  }

  /** No name occurs twice. */
  predicate Distinct(s: seq<string>) {
    forall i, j :: 0 <= i < j < |s| ==> s[i] != s[j]
  }

  /** Inserts `x` into a sorted sequence, keeping it sorted. */
  function Insert(x: string, s: seq<string>): (r: seq<string>)
    requires Sorted(s)
    ensures Sorted(r)
    ensures multiset(r) == multiset(s) + multiset{x}
  {
    if |s| == 0 then [x]
    else if Below(x, s[0]) then
      BelowHead(x, s);
      [x] + s
    else
      BelowTotal(x, s[0]);
      var rest := Insert(x, s[1..]);
      assert s == [s[0]] + s[1..];
      BelowMembers(s[0], rest, x, s[1..]);
      [s[0]] + rest
  }

  /** Below the head of a sorted sequence is below all of it. */
  lemma BelowHead(x: string, s: seq<string>)
    requires Sorted(s) && |s| > 0 && Below(x, s[0])
    ensures forall k :: 0 <= k < |s| ==> Below(x, s[k])
  {
    forall k | 0 <= k < |s|
      ensures Below(x, s[k])
    {
      if k > 0 { BelowTransitive(x, s[0], s[k]); }
    }
  }

  /** A bound on `x` and on every element of `t` bounds every element of a
      permutation of `t` plus `x`. */
  lemma BelowMembers(y: string, r: seq<string>, x: string, t: seq<string>)
    requires multiset(r) == multiset(t) + multiset{x}
    requires Below(y, x)
    requires forall k :: 0 <= k < |t| ==> Below(y, t[k])
    ensures forall k :: 0 <= k < |r| ==> Below(y, r[k])
  {
    forall k | 0 <= k < |r|
      ensures Below(y, r[k])
    {
      assert r[k] in multiset(r);
      if r[k] != x {
        assert r[k] in multiset(t);
        var j :| 0 <= j < |t| && t[j] == r[k];
      }
    }
  }

  /** Insertion sort: an ascending permutation of `s`. */
  function Sort(s: seq<string>): (r: seq<string>)
    ensures Sorted(r)
    ensures multiset(r) == multiset(s)
  {
    if |s| == 0 then []
    else
      assert s == s[..|s| - 1] + [s[|s| - 1]];
      Insert(s[|s| - 1], Sort(s[..|s| - 1]))
  }

  /** An element met twice occurs at least twice in the multiset. */
  lemma CountTwo(a: seq<string>, i: nat, j: nat)
    requires i < j < |a| && a[i] == a[j]
    ensures multiset(a)[a[i]] >= 2
  {
    assert a == a[..j] + a[j..];
    assert a[..j][i] == a[i];
    assert a[j..][0] == a[j];
  }

  /** A permutation of a repeat-free sequence has no repeats either. */
  lemma PermutationDistinct(a: seq<string>, b: seq<string>)
    requires multiset(a) == multiset(b) && Distinct(b)
    ensures Distinct(a)
  {
    forall i, j | 0 <= i < j < |a|
      ensures a[i] != a[j]
    {
      if a[i] == a[j] {
        CountTwo(a, i, j);
        var k :| 0 <= k < |b| && b[k] == a[i];
        DistinctCount(b, k);
      }
    }
  }

  /** In a sequence without repeats each element occurs exactly once. */
  lemma DistinctCount(b: seq<string>, k: nat)
    requires Distinct(b) && k < |b|
    ensures multiset(b)[b[k]] == 1
  {
    var x := b[k];
    assert b == b[..k] + [x] + b[k + 1..];
    assert x !in b[..k] && x !in b[k + 1..];
    assert multiset(b[..k])[x] == 0 && multiset(b[k + 1..])[x] == 0;
  }

  /** Two ascending sequences of distinct names holding the same names are
      equal: the sorted order of a set of names does not depend on the
      order it was listed in. */
  lemma {:induction false} SortedUnique(a: seq<string>, b: seq<string>)
    requires Sorted(a) && Sorted(b) && Distinct(a) && Distinct(b)
    requires forall x :: x in a <==> x in b
    ensures a == b
    decreases |a|
  {
    assert |b| > 0 ==> b[0] in a;
    if |a| > 0 {
      assert a[0] in a;
      assert |b| > 0;
      assert b[0] in b;
      var i :| 0 <= i < |b| && b[i] == a[0];
      var j :| 0 <= j < |a| && a[j] == b[0];
      assert Below(b[0], a[0]) by {
        if i > 0 { } else { BelowReflexive(b[0]); }
      }
      assert Below(a[0], b[0]) by {
        if j > 0 { } else { BelowReflexive(a[0]); }
      }
      BelowAntisymmetric(a[0], b[0]);
      forall x ensures x in a[1..] <==> x in b[1..] {
        TailMembers(a, x);
        TailMembers(b, x);
      }
      SortedUnique(a[1..], b[1..]);
      assert a == [a[0]] + a[1..] && b == [b[0]] + b[1..];
    }
  }

  /** Without repeats, the tail holds everything but the head. */
  lemma TailMembers(a: seq<string>, x: string)
    requires Distinct(a) && |a| > 0
    ensures x in a[1..] <==> x in a && x != a[0]
  {
    if x in a[1..] {
      var k :| 0 <= k < |a| - 1 && a[1..][k] == x;
      assert a[k + 1] == x;
    }
    if x in a && x != a[0] {
      var k :| 0 <= k < |a| && a[k] == x;
      assert a[1..][k - 1] == x;
    }
  }
}
