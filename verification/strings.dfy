/**
 * Python string operations the builder relies on: prefix and suffix tests and
 * `str.replace`, which rewrites every non-overlapping occurrence scanning from
 * the left.
 */
module Strings {

  predicate StartsWith(s: string, prefix: string) {
    prefix <= s
  }

  predicate EndsWith(s: string, suffix: string) {
    |suffix| <= |s| && s[|s| - |suffix|..] == suffix
  }

  /** `pat` occurs in `s` at index `i`. */
  predicate OccursAt(s: string, pat: string, i: int) {
    0 <= i && i + |pat| <= |s| && s[i..i + |pat|] == pat
  }

  /** `pat` occurs nowhere in `s`. */
  predicate Absent(s: string, pat: string) {
    forall i :: 0 <= i <= |s| ==> !OccursAt(s, pat, i)
  }

  /** `s.replace('', rep)`: `rep` before every character and at the end. */
  function InsertEverywhere(s: string, rep: string): (r: string)
    ensures |r| == |s| * (|rep| + 1) + |rep|
    ensures rep == [] ==> r == s
  {
    if s == [] then rep else rep + [s[0]] + InsertEverywhere(s[1..], rep)
  }

  /**
   * `s.replace(pat, rep)`. Replacing a pattern by itself changes nothing, and
   * a replacement as long as the pattern keeps the length.
   */
  function Replace(s: string, pat: string, rep: string): (r: string)
    ensures rep == pat ==> r == s
    ensures |rep| == |pat| ==> |r| == |s|
    decreases |s|
  {
    if pat == [] then InsertEverywhere(s, rep)
    else if |s| < |pat| then s
    else if s[..|pat|] == pat then rep + Replace(s[|pat|..], pat, rep)
    else [s[0]] + Replace(s[1..], pat, rep)
  }

  lemma AbsentInTail(s: string, pat: string)
    requires s != [] && Absent(s, pat)
    ensures Absent(s[1..], pat)
  {
    forall i | OccursAt(s[1..], pat, i)
      ensures false
    {
      assert s[1..][i..i + |pat|] == s[i + 1..i + 1 + |pat|];
      assert OccursAt(s, pat, i + 1);
    }
  }

  /** A string without the pattern is left as it is. */
  lemma {:induction false} ReplaceAbsent(s: string, pat: string, rep: string)
    requires pat != [] && Absent(s, pat)
    ensures Replace(s, pat, rep) == s
    decreases |s|
  {
    if |s| >= |pat| {
      assert !OccursAt(s, pat, 0);
      AbsentInTail(s, pat);
      ReplaceAbsent(s[1..], pat, rep);
    }
  }

  /** A leading occurrence is rewritten and the scan resumes after it. */
  lemma ReplaceAfterPrefix(s: string, pat: string, rep: string)
    requires pat != []
    ensures Replace(pat + s, pat, rep) == rep + Replace(s, pat, rep)
  {
    assert (pat + s)[..|pat|] == pat;
    assert (pat + s)[|pat|..] == s;
  }

  /** No occurrence of `pat` in `x + y` starts in `x` and ends in `y`. */
  predicate NoStraddle(x: string, y: string, pat: string) {
    forall i :: 0 <= i < |x| < i + |pat| ==> !OccursAt(x + y, pat, i)
  }

  lemma NoStraddleDrop(x: string, y: string, pat: string, k: nat)
    requires k <= |x| && NoStraddle(x, y, pat)
    ensures (x + y)[k..] == x[k..] + y
    ensures NoStraddle(x[k..], y, pat)
  {
    assert (x + y)[k..] == x[k..] + y;
    forall i | 0 <= i < |x[k..]| < i + |pat|
      ensures !OccursAt(x[k..] + y, pat, i)
    {
      if i + |pat| <= |x[k..] + y| {
        assert !OccursAt(x + y, pat, i + k);
        var z := x + y;
        assert z[k..][i..i + |pat|] == z[i + k..i + k + |pat|];
      }
    }
  }

  /** Concatenation associates; stated once so that the step lemmas need not prove it pointwise. */
  lemma AppendAssociates(a: string, b: string, c: string)
    ensures a + (b + c) == (a + b) + c
  {
  }

  /** A string that starts with `pat` is `pat` followed by the rest, also under concatenation. */
  lemma SplitAfterPrefix(x: string, y: string, pat: string)
    requires |x| >= |pat| && x[..|pat|] == pat
    ensures x == pat + x[|pat|..]
    ensures x + y == pat + (x[|pat|..] + y)
  {
    assert x == x[..|pat|] + x[|pat|..];
  }

  /** The step of `ReplaceAppend` when `x` starts with the pattern. */
  lemma ReplaceAppendMatch(x: string, y: string, pat: string, rep: string)
    requires pat != [] && |x| >= |pat| && x[..|pat|] == pat
    requires Replace(x[|pat|..] + y, pat, rep) == Replace(x[|pat|..], pat, rep) + Replace(y, pat, rep)
    ensures Replace(x + y, pat, rep) == Replace(x, pat, rep) + Replace(y, pat, rep)
  {
    var t := x[|pat|..];
    SplitAfterPrefix(x, y, pat);
    ReplaceAfterPrefix(t, pat, rep);
    ReplaceAfterPrefix(t + y, pat, rep);
    AppendAssociates(rep, Replace(t, pat, rep), Replace(y, pat, rep));
  }

  /** Without an occurrence at the front, the first character is kept and the scan moves on by one. */
  lemma ReplaceSkipFront(s: string, pat: string, rep: string)
    requires pat != [] && s != [] && !(|s| >= |pat| && s[..|pat|] == pat)
    ensures Replace(s, pat, rep) == [s[0]] + Replace(s[1..], pat, rep)
  {
    if |s| < |pat| {
      assert Replace(s[1..], pat, rep) == s[1..];
      assert [s[0]] + s[1..] == s;
    }
  }

  /** No occurrence at the front of `x + y`: none at the front of `x`, and the scan of `x + y` moves on by one. */
  lemma ReplaceSkipFrontOfAppend(x: string, y: string, pat: string, rep: string)
    requires pat != [] && x != [] && |x + y| >= |pat| && !OccursAt(x + y, pat, 0)
    ensures !(|x| >= |pat| && x[..|pat|] == pat)
    ensures Replace(x + y, pat, rep) == [x[0]] + Replace(x[1..] + y, pat, rep)
  {
    var z := x + y;
    if |x| >= |pat| {
      assert x[..|pat|] == z[..|pat|];
    }
    ReplaceSkipFront(z, pat, rep);
    assert z[1..] == x[1..] + y;
  }

  /** The step of `ReplaceAppend` when no occurrence starts at the front of `x + y`. */
  lemma ReplaceAppendSkip(x: string, y: string, pat: string, rep: string)
    requires pat != [] && x != [] && |x + y| >= |pat| && !OccursAt(x + y, pat, 0)
    requires Replace(x[1..] + y, pat, rep) == Replace(x[1..], pat, rep) + Replace(y, pat, rep)
    ensures Replace(x + y, pat, rep) == Replace(x, pat, rep) + Replace(y, pat, rep)
  {
    ReplaceSkipFrontOfAppend(x, y, pat, rep);
    ReplaceSkipFront(x, pat, rep);
    AppendAssociates([x[0]], Replace(x[1..], pat, rep), Replace(y, pat, rep));
  }

  /**
   * Replacing in a concatenation is replacing in each part, provided no
   * occurrence of the pattern straddles the boundary.
   */
  lemma {:induction false} ReplaceAppend(x: string, y: string, pat: string, rep: string)
    requires pat != [] && NoStraddle(x, y, pat)
    ensures Replace(x + y, pat, rep) == Replace(x, pat, rep) + Replace(y, pat, rep)
    decreases |x|
  {
    if x == [] {
      assert x + y == y;
    } else if |x + y| < |pat| {
      assert Replace(x, pat, rep) == x && Replace(y, pat, rep) == y;
    } else if |x| >= |pat| && x[..|pat|] == pat {
      NoStraddleDrop(x, y, pat, |pat|);
      ReplaceAppend(x[|pat|..], y, pat, rep);
      ReplaceAppendMatch(x, y, pat, rep);
    } else {
      assert !OccursAt(x + y, pat, 0) by {
        if |x| >= |pat| {
          assert (x + y)[..|pat|] == x[..|pat|];
        }
      }
      NoStraddleDrop(x, y, pat, 1);
      ReplaceAppend(x[1..], y, pat, rep);
      ReplaceAppendSkip(x, y, pat, rep);
    }
  }

  /** When the only occurrence is a suffix, exactly that suffix is rewritten. */
  lemma ReplaceOnlyAtEnd(s: string, pat: string, rep: string)
    requires pat != [] && EndsWith(s, pat)
    requires forall i :: 0 <= i < |s| - |pat| ==> !OccursAt(s, pat, i)
    ensures Replace(s, pat, rep) == s[..|s| - |pat|] + rep
  {
    var m := s[..|s| - |pat|];
    assert s == m + pat;
    forall i | 0 <= i <= |m|
      ensures !OccursAt(m, pat, i)
    {
      if i + |pat| <= |m| {
        assert m[i..i + |pat|] == s[i..i + |pat|];
        assert !OccursAt(s, pat, i);
      }
    }
    ReplaceAbsent(m, pat, rep);
    ReplaceAppend(m, pat, pat, rep);
    ReplaceAfterPrefix([], pat, rep);
    assert pat + [] == pat;
  }
}
