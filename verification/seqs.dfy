/** Generic sequence helpers shared by the model: order-preserving filtering,
    trimming a run of unwanted elements from either end, and the
    subsequence relation used to state that those operations only drop
    elements. */
module Seqs {

  /** The elements of `s` that satisfy `keep`, in their original order. */
  function Keep<T>(s: seq<T>, keep: T -> bool): (r: seq<T>)
    ensures |r| <= |s|
    decreases |s|
  {
    if |s| == 0 then []
    else Keep(s[..|s| - 1], keep) + (if keep(s[|s| - 1]) then [s[|s| - 1]] else [])
  }

  /** Filtering one element longer a prefix of `s`. */
  lemma KeepSnoc<T>(s: seq<T>, i: nat, keep: T -> bool)
    requires i < |s|
    ensures Keep(s[..i + 1], keep) == Keep(s[..i], keep) + (if keep(s[i]) then [s[i]] else [])
  {
    assert s[..i + 1][..i] == s[..i];
  }

  /** An element survives filtering exactly when it occurs in `s` and
      satisfies `keep`. */
  lemma {:induction false} KeepMembers<T>(s: seq<T>, keep: T -> bool, x: T)
    ensures x in Keep(s, keep) <==> x in s && keep(x)
    decreases |s|
  {
    if |s| > 0 {
      var s' := s[..|s| - 1];
      assert s == s' + [s[|s| - 1]];
      KeepMembers(s', keep, x);
    }
  }

  /** Filtering distributes over concatenation. */
  lemma {:induction false} KeepAppend<T>(a: seq<T>, b: seq<T>, keep: T -> bool)
    ensures Keep(a + b, keep) == Keep(a, keep) + Keep(b, keep)
    decreases |b|
  {
    if |b| == 0 {
      assert a + b == a;
    } else {
      var b' := b[..|b| - 1];
      assert (a + b)[..|a + b| - 1] == a + b';
      KeepAppend(a, b', keep);
    }
  }

  /** Every element that survives filtering satisfies `keep`. */
  lemma KeepSatisfies<T>(s: seq<T>, keep: T -> bool)
    ensures forall i :: 0 <= i < |Keep(s, keep)| ==> keep(Keep(s, keep)[i])
  {
    forall i | 0 <= i < |Keep(s, keep)|
      ensures keep(Keep(s, keep)[i])
    {
      KeepMembers(s, keep, Keep(s, keep)[i]);
    }
  }

  /** When every element already satisfies `keep`, filtering changes nothing. */
  lemma {:induction false} KeepAll<T>(s: seq<T>, keep: T -> bool)
    requires forall i :: 0 <= i < |s| ==> keep(s[i])
    ensures Keep(s, keep) == s
    decreases |s|
  {
    if |s| > 0 {
      KeepAll(s[..|s| - 1], keep);
      assert s == s[..|s| - 1] + [s[|s| - 1]];
    }
  }

  /** Filtering keeps nothing exactly when no element satisfies `keep`. */
  lemma {:induction false} KeepEmpty<T>(s: seq<T>, keep: T -> bool)
    ensures Keep(s, keep) == [] <==> forall i :: 0 <= i < |s| ==> !keep(s[i])
  {
    if Keep(s, keep) == [] {
      forall i | 0 <= i < |s|
        ensures !keep(s[i])
      {
        KeepMembers(s, keep, s[i]);
      }
    } else {
      var x := Keep(s, keep)[0];
      KeepMembers(s, keep, x);
      var i :| 0 <= i < |s| && s[i] == x;
    }
  }

  /** Cutting away a prefix and a suffix of which filtering keeps nothing
      does not change the filtered result. */
  lemma KeepSlice<T>(s: seq<T>, i: nat, j: nat, keep: T -> bool)
    requires i <= j <= |s|
    requires Keep(s[..i], keep) == [] && Keep(s[j..], keep) == []
    ensures Keep(s, keep) == Keep(s[i..j], keep)
  {
    assert s == s[..i] + s[i..j] + s[j..];
    KeepSplit(s, s[..i], s[i..j], s[j..], keep);
  }

  lemma KeepSplit<T>(s: seq<T>, a: seq<T>, t: seq<T>, b: seq<T>, keep: T -> bool)
    requires s == a + t + b
    requires Keep(a, keep) == [] && Keep(b, keep) == []
    ensures Keep(s, keep) == Keep(t, keep)
  {
    KeepAppend(a + t, b, keep);
    KeepAppend(a, t, keep);
    assert Keep(a + t, keep) + [] == Keep(a + t, keep);
    assert [] + Keep(t, keep) == Keep(t, keep);
  }

  /** Number of leading elements of `s` that satisfy `drop`. */
  function LeadLen<T>(s: seq<T>, drop: T -> bool): (n: nat)
    ensures n <= |s|
    ensures forall i :: 0 <= i < n ==> drop(s[i])
    ensures n == |s| || !drop(s[n])
  {
    if |s| > 0 && drop(s[0]) then 1 + LeadLen(s[1..], drop) else 0
  }

  /** `s` without its leading run of elements satisfying `drop`. */
  function TrimStart<T>(s: seq<T>, drop: T -> bool): (r: seq<T>)
    ensures r == s[LeadLen(s, drop)..]
    ensures |r| == 0 || !drop(r[0])
  {
    if |s| > 0 && drop(s[0]) then TrimStart(s[1..], drop) else s
  }

  /** Number of elements of `s` that remain once its trailing run of
      elements satisfying `drop` is removed. */
  function KeptLen<T>(s: seq<T>, drop: T -> bool): (n: nat)
    ensures n <= |s|
    ensures forall i :: n <= i < |s| ==> drop(s[i])
    ensures n == 0 || !drop(s[n - 1])
  {
    if |s| > 0 && drop(s[|s| - 1]) then KeptLen(s[..|s| - 1], drop) else |s|
  }

  /** `s` without its trailing run of elements satisfying `drop`. */
  function TrimEnd<T>(s: seq<T>, drop: T -> bool): (r: seq<T>)
    ensures r == s[..KeptLen(s, drop)]
    ensures |r| == 0 || !drop(r[|r| - 1])
  {
    if |s| > 0 && drop(s[|s| - 1]) then TrimEnd(s[..|s| - 1], drop) else s
  }

  /** Trims at both ends, as Python's `str.strip(chars)` does: what remains
      is a contiguous slice of `s` whose end elements are not dropped, and
      everything outside that slice is dropped. */
  function Trim<T>(s: seq<T>, drop: T -> bool): (r: seq<T>)
    ensures LeadLen(s, drop) + |r| <= |s|
    ensures r == s[LeadLen(s, drop)..LeadLen(s, drop) + |r|]
    ensures forall i :: 0 <= i < LeadLen(s, drop) ==> drop(s[i])
    ensures forall i :: LeadLen(s, drop) + |r| <= i < |s| ==> drop(s[i])
    ensures |r| == 0 || (!drop(r[0]) && !drop(r[|r| - 1]))
  {
    var t := TrimStart(s, drop);
    var r := TrimEnd(t, drop);
    assert r == t[..|r|];
    r
  }

  /** `a` can be obtained from `b` by deleting elements. Matching greedily
      from the back is complete for this relation. */
  predicate Subseq<T(==)>(a: seq<T>, b: seq<T>)
    decreases |b|
  {
    |a| == 0 ||
    (|b| > 0 &&
     if a[|a| - 1] == b[|b| - 1] then Subseq(a[..|a| - 1], b[..|b| - 1])
     else Subseq(a, b[..|b| - 1]))
  }

  /** Appending to the larger sequence keeps the relation. */
  lemma {:induction false} SubseqExtend<T>(a: seq<T>, b: seq<T>, x: T)
    requires Subseq(a, b)
    ensures Subseq(a, b + [x])
    decreases |b|, 1
  {
    assert (b + [x])[..|b|] == b;
    if |a| > 0 && a[|a| - 1] == x {
      SubseqDropLast(a, b);
    }
  }

  /** Dropping the last element of the smaller sequence keeps the relation. */
  lemma {:induction false} SubseqDropLast<T>(a: seq<T>, b: seq<T>)
    requires |a| > 0 && Subseq(a, b)
    ensures Subseq(a[..|a| - 1], b)
    decreases |b|, 0
  {
    var b' := b[..|b| - 1];
    assert b == b' + [b[|b| - 1]];
    if a[|a| - 1] == b[|b| - 1] {
      SubseqExtend(a[..|a| - 1], b', b[|b| - 1]);
    } else {
      SubseqDropLast(a, b');
      SubseqExtend(a[..|a| - 1], b', b[|b| - 1]);
    }
  }

  lemma {:induction false} SubseqTrans<T>(a: seq<T>, b: seq<T>, c: seq<T>)
    requires Subseq(a, b) && Subseq(b, c)
    ensures Subseq(a, c)
    decreases |c|
  {
    if |a| > 0 {
      var c' := c[..|c| - 1];
      assert c == c' + [c[|c| - 1]];
      if b[|b| - 1] == c[|c| - 1] {
        if a[|a| - 1] == b[|b| - 1] {
          SubseqTrans(a[..|a| - 1], b[..|b| - 1], c');
        } else {
          SubseqTrans(a, b[..|b| - 1], c');
          if a[|a| - 1] == c[|c| - 1] {
            SubseqDropLast(a, c');
          }
        }
      } else {
        SubseqTrans(a, b, c');
        if a[|a| - 1] == c[|c| - 1] {
          SubseqDropLast(a, c');
        }
      }
    }
  }

  /** Every contiguous slice of `s` is a subsequence of `s`. */
  lemma {:induction false} SliceSubseq<T>(s: seq<T>, i: nat, j: nat)
    requires i <= j <= |s|
    ensures Subseq(s[i..j], s)
    decreases |s|
  {
    if i < j {
      var s' := s[..|s| - 1];
      if s[j - 1] == s[|s| - 1] {
        assert s[i..j][..j - i - 1] == s'[i..j - 1];
        SliceSubseq(s', i, j - 1);
      } else {
        assert s[i..j] == s'[i..j];
        SliceSubseq(s', i, j);
      }
    }
  }

  /** Filtering only deletes elements. */
  lemma {:induction false} KeepSubseq<T>(s: seq<T>, keep: T -> bool)
    ensures Subseq(Keep(s, keep), s)
    decreases |s|
  {
    if |s| > 0 {
      var s' := s[..|s| - 1];
      KeepSubseq(s', keep);
      if keep(s[|s| - 1]) {
        assert (Keep(s', keep) + [s[|s| - 1]])[..|Keep(s', keep)|] == Keep(s', keep);
      } else {
        assert Keep(s, keep) == Keep(s', keep);
        SubseqExtend(Keep(s', keep), s', s[|s| - 1]);
        assert s == s' + [s[|s| - 1]];
      }
    }
  }

  /** Trimming only deletes elements. */
  lemma TrimSubseq<T>(s: seq<T>, drop: T -> bool)
    ensures Subseq(Trim(s, drop), s)
  {
    var n := LeadLen(s, drop);
    SliceSubseq(s, n, n + |Trim(s, drop)|);
  }

  /** Trimming keeps exactly the stretch between a dropped prefix and a
      dropped suffix whose own ends are kept. */
  lemma TrimUnique<T>(s: seq<T>, i: nat, j: nat, drop: T -> bool)
    requires i < j <= |s|
    requires forall k :: 0 <= k < i ==> drop(s[k])
    requires forall k :: j <= k < |s| ==> drop(s[k])
    requires !drop(s[i]) && !drop(s[j - 1])
    ensures Trim(s, drop) == s[i..j]
  {
    var n := LeadLen(s, drop);
    var r := Trim(s, drop);
    assert n == i;
    assert |r| > 0 ==> r[|r| - 1] == s[n + |r| - 1];
    assert n + |r| == j;
  }

  /** A sequence that is empty or whose end elements are not dropped is
      left alone by trimming. */
  lemma TrimFixed<T>(s: seq<T>, drop: T -> bool)
    requires |s| == 0 || (!drop(s[0]) && !drop(s[|s| - 1]))
    ensures Trim(s, drop) == s
  {
  }
}
