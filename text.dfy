/**
 * The Python string operations the component relies on, over strings as
 * sequences of code points: `str.startswith`, `in`, `str.count` and
 * `str.replace`, the latter both unbounded and with a count of one.
 */
module Text {

  /** `s.startswith(p)` */
  predicate StartsWith(s: string, p: string)
  {
    |p| <= |s| && s[..|p|] == p
  }

  /** A string that differs from `p` at some position of both does not start with `p`. */
  lemma MismatchNotStartsWith(s: string, p: string, j: nat)
    requires j < |s| && j < |p| && s[j] != p[j]
    ensures !StartsWith(s, p)
  {
    if |p| <= |s| {
      assert s[..|p|][j] == s[j];
    }
  }

  /** `pat` occurs in `s` starting at index `i` */
  predicate OccursAt(s: string, pat: string, i: nat)
  {
    i + |pat| <= |s| && s[i..i + |pat|] == pat
  }

  /** `pat in s`, decided by the same left-to-right scan as the functions below. */
  predicate Occurs(s: string, pat: string)
    decreases |s|
  {
    if |s| < |pat| then false
    else StartsWith(s, pat) || (s != [] && Occurs(s[1..], pat))
  }

  /** An occurrence at any index is found by the scan. */
  lemma {:induction false} OccursAtFound(s: string, pat: string, i: nat)
    requires OccursAt(s, pat, i)
    ensures Occurs(s, pat)
    decreases i
  {
    if i == 0 {
      assert StartsWith(s, pat);
    } else {
      assert s[1..][i - 1..i - 1 + |pat|] == s[i..i + |pat|];
      OccursAtFound(s[1..], pat, i - 1);
    }
  }

  /** What the scan finds sits at some index. */
  lemma {:induction false} FoundOccursAt(s: string, pat: string) returns (i: nat)
    requires Occurs(s, pat)
    ensures i <= |s| && OccursAt(s, pat, i)
    decreases |s|
  {
    if StartsWith(s, pat) {
      i := 0;
    } else {
      var j := FoundOccursAt(s[1..], pat);
      assert s[1..][j..j + |pat|] == s[j + 1..j + 1 + |pat|];
      i := j + 1;
    }
  }

  /** The scan finds the pattern exactly when it sits at some index of `s`. */
  lemma OccursIff(s: string, pat: string)
    ensures Occurs(s, pat) <==> exists i: nat | i <= |s| :: OccursAt(s, pat, i)
  {
    if Occurs(s, pat) {
      var i := FoundOccursAt(s, pat);
    }
    forall i: nat | i <= |s| && OccursAt(s, pat, i) ensures Occurs(s, pat) {
      OccursAtFound(s, pat, i);
    }
  }

  /**
   * `s.replace(pat, rep)` for a non-empty `pat`: the string is scanned from
   * left to right and every occurrence found is replaced, the scan resuming
   * after it, so occurrences never overlap. Without an occurrence the
   * string is returned unchanged.
   */
  function ReplaceAll(s: string, pat: string, rep: string): (r: string)
    requires pat != []
    ensures !Occurs(s, pat) ==> r == s
    decreases |s|
  {
    if s == [] then []
    else if StartsWith(s, pat) then rep + ReplaceAll(s[|pat|..], pat, rep)
    else
      assert [s[0]] + s[1..] == s;
      [s[0]] + ReplaceAll(s[1..], pat, rep)
  }

  /**
   * Python's `s.count(pat)`: the number of occurrences `ReplaceAll` replaces.
   * It is zero exactly when the pattern does not occur.
   */
  function Count(s: string, pat: string): (r: nat)
    requires pat != []
    ensures r == 0 <==> !Occurs(s, pat)
    decreases |s|
  {
    if s == [] then 0
    else if StartsWith(s, pat) then 1 + Count(s[|pat|..], pat)
    else Count(s[1..], pat)
  }

  /**
   * `s.replace(pat, rep, 1)` for a non-empty `pat`: only the leftmost
   * occurrence is replaced, so a string starting with `pat` loses that
   * prefix, and a string without `pat` is returned unchanged.
   */
  function ReplaceFirst(s: string, pat: string, rep: string): (r: string)
    requires pat != []
    ensures StartsWith(s, pat) ==> r == rep + s[|pat|..]
    ensures !Occurs(s, pat) ==> r == s
    ensures Occurs(s, pat) ==> |r| == |s| - |pat| + |rep|
    decreases |s|
  {
    if s == [] then []
    else if StartsWith(s, pat) then rep + s[|pat|..]
    else
      assert [s[0]] + s[1..] == s;
      [s[0]] + ReplaceFirst(s[1..], pat, rep)
  }

  lemma MulSucc(c: nat, d: int)
    ensures (1 + c) * d == c * d + d
  {
  }

  /** Each replacement changes the length by `|rep| - |pat|` and nothing else does. */
  lemma {:induction false} ReplaceAllLength(s: string, pat: string, rep: string)
    requires pat != []
    ensures |ReplaceAll(s, pat, rep)| == |s| + Count(s, pat) * (|rep| - |pat|)
    decreases |s|
  {
    if s == [] {
    } else if StartsWith(s, pat) {
      ReplaceAllLength(s[|pat|..], pat, rep);
      MulSucc(Count(s[|pat|..], pat), |rep| - |pat|);
    } else {
      ReplaceAllLength(s[1..], pat, rep);
    }
  }

  /** A prefix that lacks the pattern's first character passes through the scan untouched. */
  lemma {:induction false} ReplaceAllSkipsPrefix(x: string, y: string, pat: string, rep: string)
    requires pat != [] && pat[0] !in x
    ensures ReplaceAll(x + y, pat, rep) == x + ReplaceAll(y, pat, rep)
    decreases |x|
  {
    if x == [] {
      assert x + y == y;
    } else {
      MismatchNotStartsWith(x + y, pat, 0);
      assert (x + y)[1..] == x[1..] + y;
      ReplaceAllSkipsPrefix(x[1..], y, pat, rep);
    }
  }

  /** A string that starts with the pattern has that prefix replaced and the scan goes on after it. */
  lemma ReplaceAllAtStart(y: string, pat: string, rep: string)
    requires pat != []
    ensures ReplaceAll(pat + y, pat, rep) == rep + ReplaceAll(y, pat, rep)
  {
    assert (pat + y)[..|pat|] == pat;
    assert (pat + y)[|pat|..] == y;
  }

  /** Deleting every occurrence of a pattern never makes the text longer. */
  lemma {:induction false} DeleteShrinks(s: string, pat: string)
    requires pat != []
    ensures |ReplaceAll(s, pat, "")| <= |s|
    decreases |s|
  {
    if s == [] {
    } else if StartsWith(s, pat) {
      DeleteShrinks(s[|pat|..], pat);
    } else {
      DeleteShrinks(s[1..], pat);
    }
  }

  /**
   * Replacing a single character in `s` is replacing it in a prefix and
   * then in the rest.
   */
  lemma {:induction false} ReplaceAllSplit(s: string, k: nat, pat: string, rep: string)
    requires |pat| == 1 && k <= |s|
    ensures ReplaceAll(s, pat, rep) == ReplaceAll(s[..k], pat, rep) + ReplaceAll(s[k..], pat, rep)
    decreases k
  {
    if k > 0 {
      assert s[..k][0] == s[0];
      assert StartsWith(s, pat) <==> StartsWith(s[..k], pat);
      assert s[..k][1..] == s[1..][..k - 1];
      assert s[1..][k - 1..] == s[k..];
      ReplaceAllSplit(s[1..], k - 1, pat, rep);
    } else {
      assert s[..0] == [];
      assert s[0..] == s;
    }
  }

  /** A pattern with a character missing from `s` cannot occur in `s`. */
  lemma {:induction false} AbsentChar(s: string, pat: string, j: nat)
    requires j < |pat| && pat[j] !in s
    ensures !Occurs(s, pat)
    decreases |s|
  {
    if |pat| <= |s| {
      assert s[..|pat|][j] == s[j];
      if s != [] {
        AbsentChar(s[1..], pat, j);
      }
    }
  }

  /** A string shorter than the pattern cannot contain it. */
  lemma ShorterThanPattern(s: string, pat: string)
    requires |s| < |pat|
    ensures !Occurs(s, pat)
  {
  }

  /** Deleting every occurrence of a single character leaves none behind. */
  lemma {:induction false} DeleteCharRemovesIt(s: string, c: char)
    ensures c !in ReplaceAll(s, [c], "")
    decreases |s|
  {
    if s != [] {
      DeleteCharRemovesIt(s[1..], c);
    }
  }

  /** A two-character pattern found in `x + y` lies in `x`, in `y`, or across the seam. */
  lemma {:induction false} NoPairInConcat(x: string, y: string, pat: string)
    requires |pat| == 2
    requires !Occurs(x, pat) && !Occurs(y, pat)
    requires x != [] && y != [] ==> !(x[|x| - 1] == pat[0] && y[0] == pat[1])
    ensures !Occurs(x + y, pat)
    decreases |x|
  {
    if x == [] {
      assert x + y == y;
    } else {
      var s := x + y;
      if |s| >= 2 {
        if |x| >= 2 {
          assert s[..2] == x[..2];
        } else {
          assert s[0] == x[0] && s[1] == y[0];
          assert s[..2] == [s[0], s[1]];
        }
      }
      assert s[1..] == x[1..] + y;
      if |x| >= 2 {
        assert x[1..][|x[1..]| - 1] == x[|x| - 1];
      }
      NoPairInConcat(x[1..], y, pat);
    }
  }
}
