/** Release-name sanitising (`safe_name`): keep only characters that are
    safe in a directory name, then strip `_` and `-` from both ends. Every
    route that takes a release name passes it through here first, and the
    result doubles as the release's directory name. */
module Names {
  import opened Seqs
  import opened Chars

  /** Letters and digits: the characters sanitising never removes. */
  predicate IsAlnum(c: char) {
    IsAsciiLetter(c) || IsAsciiDigit(c)
  }

  /** The two separators that are allowed inside a name but stripped from
      its ends. */
  predicate IsSeparator(c: char) {
    c == '_' || c == '-'
  }

  /** The whitelist `[A-Za-z0-9_-]`. */
  predicate IsAllowed(c: char) {
    IsAlnum(c) || IsSeparator(c)
  }

  /** A name that sanitising leaves as it is: only whitelisted characters,
      and no separator at either end. */
  predicate IsSafe(s: string) {
    (forall i :: 0 <= i < |s| ==> IsAllowed(s[i])) &&
    (|s| == 0 || (!IsSeparator(s[0]) && !IsSeparator(s[|s| - 1])))
  }

  /** The letters and digits of `s`, in order. */
  function Alnums(s: string): string {
    Keep(s, IsAlnum)
  }

  /** `safe_name`: the whitelist filter followed by `strip("_-")`. */
  function SafeName(name: string): (r: string)
    ensures IsSafe(r)
  {
    KeepSatisfies(name, IsAllowed);
    TrimmedSafe(Keep(name, IsAllowed));
    Trim(Keep(name, IsAllowed), IsSeparator)
  }

  /** Stripping the separators off a whitelisted string leaves a safe
      name. */
  lemma TrimmedSafe(f: string)
    requires forall i :: 0 <= i < |f| ==> IsAllowed(f[i])
    ensures IsSafe(Trim(f, IsSeparator))
  {
    var r := Trim(f, IsSeparator);
    assert forall i :: 0 <= i < |r| ==> r[i] == f[LeadLen(f, IsSeparator) + i];
  }

  /** Sanitising only deletes characters: the result is a subsequence of
      the input. */
  lemma SafeNameSubseq(name: string)
    ensures Subseq(SafeName(name), name)
  {
    var f := Keep(name, IsAllowed);
    TrimSubseq(f, IsSeparator);
    KeepSubseq(name, IsAllowed);
    SubseqTrans(SafeName(name), f, name);
  }

  /** Safe names are exactly the fixed points of sanitising. */
  lemma SafeNameFixed(s: string)
    ensures SafeName(s) == s <==> IsSafe(s)
  {
    if IsSafe(s) {
      KeepAll(s, IsAllowed);
      TrimFixed(s, IsSeparator);
    }
  }

  /** Sanitising twice is the same as sanitising once. */
  lemma SafeNameIdempotent(name: string)
    ensures SafeName(SafeName(name)) == SafeName(name)
  {
    SafeNameFixed(SafeName(name));
  }

  /** Removing a run of separators keeps every letter and digit. */
  lemma AlnumsTrim(s: string)
    ensures Alnums(Trim(s, IsSeparator)) == Alnums(s)
  {
    var n := LeadLen(s, IsSeparator);
    var m := n + |Trim(s, IsSeparator)|;
    assert Keep(s[..n], IsAlnum) == [] by {
      forall k | 0 <= k < n ensures !IsAlnum(s[..n][k]) {
        assert IsSeparator(s[k]);
      }
      KeepEmpty(s[..n], IsAlnum);
    }
    assert Keep(s[m..], IsAlnum) == [] by {
      forall k | 0 <= k < |s| - m ensures !IsAlnum(s[m..][k]) {
        assert IsSeparator(s[m + k]);
      }
      KeepEmpty(s[m..], IsAlnum);
    }
    KeepSlice(s, n, m, IsAlnum);
  }

  /** The whitelist filter keeps every letter and digit. */
  lemma {:induction false} AlnumsKeepAllowed(s: string)
    ensures Alnums(Keep(s, IsAllowed)) == Alnums(s)
    decreases |s|
  {
    if |s| > 0 {
      var s' := s[..|s| - 1];
      var c := s[|s| - 1];
      AlnumsKeepAllowed(s');
      assert s == s' + [c];
      assert [c][..0] == [];
      KeepAppend(s', [c], IsAlnum);
      if IsAllowed(c) {
        assert Keep(s, IsAllowed) == Keep(s', IsAllowed) + [c];
        KeepAppend(Keep(s', IsAllowed), [c], IsAlnum);
      } else {
        assert Keep(s, IsAllowed) == Keep(s', IsAllowed);
      }
    }
  }

  /** Sanitising never loses a letter or a digit: the letters and digits of
      the result are exactly those of the input, in the same order. */
  lemma SafeNameKeepsAlnums(name: string)
    ensures Alnums(SafeName(name)) == Alnums(name)
  {
    AlnumsTrim(Keep(name, IsAllowed));
    AlnumsKeepAllowed(name);
  }

  /** The sanitised name is empty exactly when the input holds no ASCII
      letter or digit; that is when upload refuses the name. */
  lemma SafeNameEmptyIff(name: string)
    ensures SafeName(name) == "" <==> forall i :: 0 <= i < |name| ==> !IsAlnum(name[i])
  {
    var r := SafeName(name);
    SafeNameKeepsAlnums(name);
    KeepEmpty(name, IsAlnum);
    KeepEmpty(r, IsAlnum);
    if r != "" {
      assert IsAlnum(r[0]);
    }
  }
}
