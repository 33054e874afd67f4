/** The two string operations of Python's str that the scripts rely on. */
module Strings {

  /** pat occurs in s starting at index i. */
  predicate OccursAt(pat: string, s: string, i: int) {
    0 <= i <= |s| - |pat| && s[i..i + |pat|] == pat
  }

  /** `pat in s` for two str values: pat occurs somewhere in s. */
  predicate Occurs(pat: string, s: string) {
    exists i | 0 <= i <= |s| - |pat| :: OccursAt(pat, s, i)
  }

  /**
   * `s.replace(pat, rep)`: every occurrence of pat, scanning left to right
   * without overlap, is replaced by rep.
   */
  function ReplaceAll(s: string, pat: string, rep: string): string
    requires pat != []
    decreases |s|
  {
    if |s| < |pat| then s
    else if s[..|pat|] == pat then rep + ReplaceAll(s[|pat|..], pat, rep)
    else [s[0]] + ReplaceAll(s[1..], pat, rep)
  }

  /** A string in which pat does not occur is left as it is. */
  lemma {:induction false} ReplaceAllWithoutOccurrence(s: string, pat: string, rep: string)
    requires pat != [] && !Occurs(pat, s)
    ensures ReplaceAll(s, pat, rep) == s
  {
    if |s| >= |pat| {
      assert s[0..0 + |pat|] == s[..|pat|];
      assert !OccursAt(pat, s, 0);
      assert !Occurs(pat, s[1..]) by {
        forall i | OccursAt(pat, s[1..], i)
          ensures false
        {
          assert s[1..][i..i + |pat|] == s[i + 1..i + 1 + |pat|];
          assert OccursAt(pat, s, i + 1);
        }
      }
      ReplaceAllWithoutOccurrence(s[1..], pat, rep);
    }
  }

  /**
   * Replacing by something longer never shortens a string, and lengthens
   * it exactly when pat occurs.
   */
  lemma {:induction false} ReplaceAllLength(s: string, pat: string, rep: string)
    requires pat != [] && |rep| > |pat|
    ensures |ReplaceAll(s, pat, rep)| >= |s|
    ensures |ReplaceAll(s, pat, rep)| > |s| <==> Occurs(pat, s)
  {
    if |s| < |pat| {
    } else if s[..|pat|] == pat {
      ReplaceAllLength(s[|pat|..], pat, rep);
      assert s[0..0 + |pat|] == pat;
      assert OccursAt(pat, s, 0);
    } else {
      ReplaceAllLength(s[1..], pat, rep);
      if Occurs(pat, s) {
        var i :| 0 <= i <= |s| - |pat| && OccursAt(pat, s, i);
        assert s[0..0 + |pat|] == s[..|pat|];
        assert i != 0;
        assert s[1..][i - 1..i - 1 + |pat|] == s[i..i + |pat|];
        assert OccursAt(pat, s[1..], i - 1);
      }
      if Occurs(pat, s[1..]) {
        var i :| 0 <= i <= |s[1..]| - |pat| && OccursAt(pat, s[1..], i);
        assert s[1..][i..i + |pat|] == s[i + 1..i + 1 + |pat|];
        assert OccursAt(pat, s, i + 1);
      }
    }
  }

  /** A prefix that holds no '.' passes through a replacement of a pattern starting with '.'. */
  lemma {:induction false} ReplaceAllSkipsPrefix(a: string, x: string, pat: string, rep: string)
    requires pat != [] && pat[0] == '.' && '.' !in a
    ensures ReplaceAll(a + x, pat, rep) == a + ReplaceAll(x, pat, rep)
  {
    if a != [] {
      var s := a + x;
      assert s[0] == a[0] && a[0] != '.';
      assert s[1..] == a[1..] + x;
      ReplaceAllSkipsPrefix(a[1..], x, pat, rep);
      if |s| < |pat| {
        ReplaceAllShort(x, pat, rep);
      } else {
        assert s[..|pat|][0] != pat[0];
        calc {
          ReplaceAll(s, pat, rep);
          [a[0]] + ReplaceAll(a[1..] + x, pat, rep);
          [a[0]] + (a[1..] + ReplaceAll(x, pat, rep));
          { assert [a[0]] + a[1..] == a; }
          a + ReplaceAll(x, pat, rep);
        }
      }
    } else {
      assert a + x == x;
    }
  }

  /**
   * No occurrence can straddle a point just after a character the pattern
   * does not hold, so the replacement splits there.
   */
  lemma {:induction false} ReplaceAllSplit(x: string, y: string, pat: string, rep: string)
    requires pat != [] && x != [] && x[|x| - 1] !in pat
    ensures ReplaceAll(x + y, pat, rep) == ReplaceAll(x, pat, rep) + ReplaceAll(y, pat, rep)
    decreases |x|
  {
    var s := x + y;
    if |x| <= |pat| {
      ReplaceAllShortHead(x, y, pat, rep);
      ReplaceAllShortHead(x, [], pat, rep);
      assert x + [] == x;
    } else {
      assert s[..|pat|] == x[..|pat|];
      if x[..|pat|] == pat {
        assert s[|pat|..] == x[|pat|..] + y;
        ReplaceAllSplit(x[|pat|..], y, pat, rep);
      } else {
        assert s[1..] == x[1..] + y;
        ReplaceAllSplit(x[1..], y, pat, rep);
      }
    }
  }

  /**
   * A head no longer than the pattern, ending in a character the pattern
   * does not hold, passes through unchanged.
   */
  lemma {:induction false} ReplaceAllShortHead(x: string, y: string, pat: string, rep: string)
    requires pat != [] && x != [] && |x| <= |pat| && x[|x| - 1] !in pat
    ensures ReplaceAll(x + y, pat, rep) == x + ReplaceAll(y, pat, rep)
    decreases |x|
  {
    var s := x + y;
    if |s| < |pat| {
      ReplaceAllShort(y, pat, rep);
    } else {
      assert pat[|x| - 1] in pat;
      assert s[..|pat|][|x| - 1] == x[|x| - 1];
      assert s[..|pat|] != pat;
      if |x| == 1 {
        assert s[1..] == y;
      } else {
        assert s[1..] == x[1..] + y;
        ReplaceAllShortHead(x[1..], y, pat, rep);
        assert [x[0]] + x[1..] == x;
      }
    }
  }

  /** The pattern alone becomes the replacement. */
  lemma ReplaceAllOfPattern(pat: string, rep: string)
    requires pat != []
    ensures ReplaceAll(pat, pat, rep) == rep
  {
    assert pat[..|pat|] == pat;
    assert pat[|pat|..] == [];
    assert rep + [] == rep;
  }

  /** A string shorter than the pattern is left as it is. */
  lemma ReplaceAllShort(s: string, pat: string, rep: string)
    requires pat != [] && |s| < |pat|
    ensures ReplaceAll(s, pat, rep) == s
  {
  }
}
