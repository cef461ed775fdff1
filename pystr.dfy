/**
  Python's `str.replace(old, new)` (no count argument), `str.count(sub)` and the
  `sub in s` test, on strings as sequences of characters.

  `Replace` scans left to right; at each position where the pattern starts it emits
  the replacement and jumps past the pattern, otherwise it copies one character.
  Occurrences are therefore found greedily and never overlap, and every one of them
  is replaced. An empty pattern matches before every character and at the end, as in
  Python: "ab".replace("", "X") == "XaXbX".
 */
module PyStr {

  /** `pat` occurs in `s` starting at index `i`. */
  predicate OccursAt(s: string, pat: string, i: int)
  {
    0 <= i && i + |pat| <= |s| && s[i..i + |pat|] == pat
  }

  /** Python's `pat in s`. */
  predicate Contains(s: string, pat: string)
  {
    exists i | 0 <= i <= |s| :: OccursAt(s, pat, i)
  }

  /** Python's `s.replace(pat, rep)`. */
  function Replace(s: string, pat: string, rep: string): string
    decreases |s|
  {
    if pat == [] then
      if s == [] then rep else rep + [s[0]] + Replace(s[1..], pat, rep)
    else if s == [] then []
    else if pat <= s then rep + Replace(s[|pat|..], pat, rep)
    else [s[0]] + Replace(s[1..], pat, rep)
  }

  /** Python's `s.count(pat)`: the occurrences `Replace` replaces. */
  function Count(s: string, pat: string): nat
    decreases |s|
  {
    if pat == [] then
      if s == [] then 1 else 1 + Count(s[1..], pat)
    else if s == [] then 0
    else if pat <= s then 1 + Count(s[|pat|..], pat)
    else Count(s[1..], pat)
  }

  /** No character of `s` is one of `banned`. */
  predicate Avoids(s: string, banned: set<char>)
  {
    forall i | 0 <= i < |s| :: s[i] !in banned
  }

  /** Every replaced occurrence changes the length by `|rep| - |pat|`. */
  lemma {:induction false} ReplaceLength(s: string, pat: string, rep: string)
    ensures |Replace(s, pat, rep)| == |s| + Count(s, pat) * (|rep| - |pat|)
    decreases |s|
  {
    var d := |rep| - |pat|;
    if pat == [] {
      if s != [] {
        ReplaceLength(s[1..], pat, rep);
        assert (1 + Count(s[1..], pat)) * d == d + Count(s[1..], pat) * d;
      }
    } else if s == [] {
    } else if pat <= s {
      ReplaceLength(s[|pat|..], pat, rep);
      assert (1 + Count(s[|pat|..], pat)) * d == d + Count(s[|pat|..], pat) * d;
    } else {
      ReplaceLength(s[1..], pat, rep);
    }
  }

  lemma {:induction false} OccurrenceIsCounted(s: string, pat: string, i: int)
    requires pat != [] && OccursAt(s, pat, i)
    ensures Count(s, pat) > 0
    decreases |s|
  {
    if !(pat <= s) {
      assert i != 0;
      assert s[1..][i - 1..i - 1 + |pat|] == s[i..i + |pat|];
      OccurrenceIsCounted(s[1..], pat, i - 1);
    }
  }

  lemma {:induction false} CountedIsOccurrence(s: string, pat: string)
    requires pat != [] && Count(s, pat) > 0
    ensures Contains(s, pat)
    decreases |s|
  {
    if pat <= s {
      assert OccursAt(s, pat, 0);
    } else {
      CountedIsOccurrence(s[1..], pat);
      var i :| 0 <= i <= |s[1..]| && OccursAt(s[1..], pat, i);
      assert s[1..][i..i + |pat|] == s[i + 1..i + 1 + |pat|];
      assert OccursAt(s, pat, i + 1);
    }
  }

  /** For a non-empty pattern, `s.count(pat) == 0` exactly when `pat not in s`. */
  lemma CountZeroIffAbsent(s: string, pat: string)
    requires pat != []
    ensures Count(s, pat) == 0 <==> !Contains(s, pat)
  {
    if Contains(s, pat) {
      var i :| 0 <= i <= |s| && OccursAt(s, pat, i);
      OccurrenceIsCounted(s, pat, i);
    }
    if Count(s, pat) > 0 {
      CountedIsOccurrence(s, pat);
    }
  }

  /** Occurrences in the tail are the occurrences in the whole, shifted by one. */
  lemma OccursShift(s: string, pat: string, i: int)
    requires s != [] && 0 <= i
    ensures OccursAt(s[1..], pat, i) <==> OccursAt(s, pat, i + 1)
  {
    if i + |pat| <= |s[1..]| {
      assert s[1..][i..i + |pat|] == s[i + 1..i + 1 + |pat|];
    }
  }

  /** A pattern that does not occur at index 0 is not a prefix. */
  lemma NotPrefix(s: string, pat: string)
    requires !OccursAt(s, pat, 0)
    ensures !(pat <= s)
  {
  }

  /** Where the pattern does not start, `Replace` copies one character. */
  lemma ReplaceCopiesHead(s: string, pat: string, rep: string)
    requires pat != [] && s != [] && !(pat <= s)
    ensures Replace(s, pat, rep) == [s[0]] + Replace(s[1..], pat, rep)
  {
  }

  /** No occurrence starting below `k` in `s` means none below `k - 1` in its tail. */
  lemma NoneBelowInTail(s: string, pat: string, k: int)
    requires 0 < k <= |s|
    requires forall i | 0 <= i < k :: !OccursAt(s, pat, i)
    ensures forall i | 0 <= i < k - 1 :: !OccursAt(s[1..], pat, i)
  {
    forall i | 0 <= i < k - 1
      ensures !OccursAt(s[1..], pat, i)
    {
      OccursShift(s, pat, i);
    }
  }

  /** A prefix `p` in which no occurrence starts is copied unchanged. */
  lemma {:induction false} ReplaceSkipsPrefix(p: string, q: string, pat: string, rep: string)
    requires pat != []
    requires forall i | 0 <= i < |p| :: !OccursAt(p + q, pat, i)
    ensures Replace(p + q, pat, rep) == p + Replace(q, pat, rep)
    decreases |p|
  {
    var s := p + q;
    if p == [] {
      assert s == q;
    } else {
      NotPrefix(s, pat);
      ReplaceCopiesHead(s, pat, rep);
      NoneBelowInTail(s, pat, |p|);
      assert s[1..] == p[1..] + q;
      ReplaceSkipsPrefix(p[1..], q, pat, rep);
      var rest := Replace(q, pat, rep);
      assert [s[0]] + (p[1..] + rest) == p + rest;
    }
  }

  /** A string without the (non-empty) pattern comes back unchanged. */
  lemma ReplaceAbsent(s: string, pat: string, rep: string)
    requires pat != [] && !Contains(s, pat)
    ensures Replace(s, pat, rep) == s
  {
    assert s + [] == s;
    ReplaceSkipsPrefix(s, [], pat, rep);
  }

  /** `s` ends with `pat`. */
  predicate EndsWith(s: string, pat: string)
  {
    |pat| <= |s| && s[|s| - |pat|..] == pat
  }

  /** Where the pattern does not start, `Count` moves on by one character. */
  lemma CountSkipsHead(s: string, pat: string)
    requires pat != [] && s != [] && !(pat <= s)
    ensures Count(s, pat) == Count(s[1..], pat)
  {
  }

  /** A prefix `p` in which no occurrence starts contributes nothing to the count. */
  lemma {:induction false} CountSkipsPrefix(p: string, q: string, pat: string)
    requires pat != []
    requires forall i | 0 <= i < |p| :: !OccursAt(p + q, pat, i)
    ensures Count(p + q, pat) == Count(q, pat)
    decreases |p|
  {
    var s := p + q;
    if p == [] {
      assert s == q;
    } else {
      NotPrefix(s, pat);
      CountSkipsHead(s, pat);
      NoneBelowInTail(s, pat, |p|);
      assert s[1..] == p[1..] + q;
      CountSkipsPrefix(p[1..], q, pat);
    }
  }

  /** The leftmost occurrence of a pattern that is counted at least once. */
  lemma {:induction false} FirstOccurrence(s: string, pat: string) returns (k: nat)
    requires pat != [] && Count(s, pat) > 0
    ensures OccursAt(s, pat, k)
    ensures forall i | 0 <= i < k :: !OccursAt(s, pat, i)
    decreases |s|
  {
    if pat <= s {
      k := 0;
      assert s[0..|pat|] == pat;
    } else {
      CountSkipsHead(s, pat);
      var k1 := FirstOccurrence(s[1..], pat);
      k := k1 + 1;
      OccursShift(s, pat, k1);
      forall i | 0 <= i < k
        ensures !OccursAt(s, pat, i)
      {
        if i > 0 {
          OccursShift(s, pat, i - 1);
        }
      }
    }
  }

  /** A prefix below which no occurrence starts does not contain the pattern. */
  lemma PrefixAvoids(s: string, pat: string, k: int)
    requires pat != [] && 0 <= k <= |s|
    requires forall i | 0 <= i < k :: !OccursAt(s, pat, i)
    ensures !Contains(s[..k], pat)
  {
    var u := s[..k];
    forall i | 0 <= i <= |u|
      ensures !OccursAt(u, pat, i)
    {
      if i + |pat| <= |u| {
        assert u[i..i + |pat|] == s[i..i + |pat|];
        assert !OccursAt(s, pat, i);
      }
    }
  }

  /**
    A pattern counted exactly once splits the string into the part before it and
    the part after it, neither of which contains it; every replacement puts the
    new text between the two.
   */
  lemma ReplaceOnce(s: string, pat: string) returns (u: string, v: string)
    requires pat != [] && Count(s, pat) == 1
    ensures s == u + pat + v
    ensures !Contains(u, pat) && !Contains(v, pat)
    ensures forall rep :: Replace(s, pat, rep) == u + rep + v
  {
    var k := FirstOccurrence(s, pat);
    u, v := s[..k], s[k + |pat|..];
    var w := pat + v;
    assert s == u + w;
    PrefixAvoids(s, pat, k);
    assert pat <= w && w[|pat|..] == v;
    CountSkipsPrefix(u, w, pat);
    CountZeroIffAbsent(v, pat);
    forall rep
      ensures Replace(s, pat, rep) == u + rep + v
    {
      ReplaceSkipsPrefix(u, w, pat, rep);
      ReplaceAbsent(v, pat, rep);
    }
  }

  /**
    Two replacements of equal length give different results as soon as the pattern
    occurs at all: the first replaced occurrence shows the difference.
   */
  lemma {:induction false} ReplaceSeparatesReplacements(s: string, pat: string, r1: string, r2: string)
    requires pat != [] && Count(s, pat) > 0
    requires |r1| == |r2| && r1 != r2
    ensures Replace(s, pat, r1) != Replace(s, pat, r2)
    decreases |s|
  {
    var x, y := Replace(s, pat, r1), Replace(s, pat, r2);
    if pat <= s {
      assert x[..|r1|] == r1;
      assert y[..|r2|] == r2;
    } else {
      ReplaceSeparatesReplacements(s[1..], pat, r1, r2);
      assert x[1..] == Replace(s[1..], pat, r1);
      assert y[1..] == Replace(s[1..], pat, r2);
    }
  }

  /** Characters absent from both the subject and the replacement are absent from the result. */
  lemma {:induction false} ReplaceAvoids(s: string, pat: string, rep: string, banned: set<char>)
    requires Avoids(s, banned) && Avoids(rep, banned)
    ensures Avoids(Replace(s, pat, rep), banned)
    decreases |s|
  {
    if pat == [] {
      if s != [] {
        ReplaceAvoids(s[1..], pat, rep, banned);
        var r := Replace(s[1..], pat, rep);
        assert Replace(s, pat, rep) == rep + [s[0]] + r;
      }
    } else if s == [] {
    } else if pat <= s {
      ReplaceAvoids(s[|pat|..], pat, rep, banned);
    } else {
      ReplaceAvoids(s[1..], pat, rep, banned);
    }
  }
}
