/**
 * The Python `str` operations the PDG pipeline applies to paths:
 * `startswith`, `endswith`, `removeprefix`, `removesuffix` and `replace`.
 * Strings are sequences of characters; no encoding is involved.
 */
module PyStr {

  predicate StartsWith(s: string, p: string) {
    |p| <= |s| && s[..|p|] == p
  }

  predicate EndsWith(s: string, p: string) {
    |p| <= |s| && s[|s| - |p|..] == p
  }

  /** `p` occurs in `s` starting at index `i`. */
  predicate OccursAt(s: string, p: string, i: int) {
    0 <= i && i + |p| <= |s| && s[i..i + |p|] == p
  }

  /** `str.removeprefix`: drops `p` from the front of `s` when it is there. */
  function RemovePrefix(s: string, p: string): (r: string)
    ensures StartsWith(s, p) ==> p + r == s
    ensures !StartsWith(s, p) ==> r == s
  {
    if StartsWith(s, p) then s[|p|..] else s
  }

  /** `str.removesuffix`: drops `p` from the end of `s` when it is there. */
  function RemoveSuffix(s: string, p: string): (r: string)
    ensures EndsWith(s, p) ==> r + p == s
    ensures !EndsWith(s, p) ==> r == s
  {
    if p != [] && EndsWith(s, p) then s[..|s| - |p|] else s
  }

  /**
   * `str.replace(pat, rep)`: scans `s` from the left and replaces every
   * non-overlapping occurrence of `pat` by `rep`.
   */
  function ReplaceAll(s: string, pat: string, rep: string): string
    requires pat != []
    decreases |s|
  {
    if |s| < |pat| then s
    else if s[..|pat|] == pat then rep + ReplaceAll(s[|pat|..], pat, rep)
    else [s[0]] + ReplaceAll(s[1..], pat, rep)
  }

  lemma OccursAtTail(s: string, pat: string, i: int)
    requires s != []
    ensures OccursAt(s[1..], pat, i) ==> OccursAt(s, pat, i + 1)
  {
    if OccursAt(s[1..], pat, i) {
      assert s[1..][i..i + |pat|] == s[i + 1..i + 1 + |pat|];
    }
  }

  /** A string in which the pattern never occurs comes back unchanged. */
  lemma {:induction false} ReplaceAllNoMatch(s: string, pat: string, rep: string)
    requires pat != [] && forall i :: !OccursAt(s, pat, i)
    ensures ReplaceAll(s, pat, rep) == s
    decreases |s|
  {
    if |s| >= |pat| {
      assert !OccursAt(s, pat, 0);
      forall i ensures !OccursAt(s[1..], pat, i) {
        OccursAtTail(s, pat, i);
      }
      ReplaceAllNoMatch(s[1..], pat, rep);
      assert [s[0]] + s[1..] == s;
    }
  }

  /** No proper prefix of `pat` is also a suffix of it, so two occurrences never overlap. */
  predicate Borderless(pat: string) {
    forall b :: 0 < b < |pat| ==> pat[..b] != pat[|pat| - b..]
  }

  lemma EndsWithAppend(a: string, b: string, p: string)
    requires EndsWith(b, p)
    ensures EndsWith(a + b, p)
  {
    assert (a + b)[|a + b| - |p|..] == b[|b| - |p|..];
  }

  /** Two occurrences of `pat` at both ends of a string shorter than `2 * |pat|` share a border of `pat`. */
  lemma OverlapIsBorder(s: string, pat: string)
    requires StartsWith(s, pat) && EndsWith(s, pat) && |pat| < |s| < 2 * |pat|
    ensures pat[..2 * |pat| - |s|] == pat[|s| - |pat|..]
  {
    var n, k := |pat|, |s| - |pat|;
    assert pat[..n - k] == s[k..][..n - k] == s[k..n];
    assert pat[k..] == s[..n][k..] == s[k..n];
  }

  /**
   * When `pat` cannot overlap itself, a string that ends with `pat` still ends
   * with `rep` after the replacement: the final occurrence is always replaced.
   */
  lemma {:induction false} ReplaceAllEndsWith(s: string, pat: string, rep: string)
    requires pat != [] && Borderless(pat) && EndsWith(s, pat)
    ensures EndsWith(ReplaceAll(s, pat, rep), rep)
    decreases |s|
  {
    var n := |pat|;
    if s[..n] == pat {
      var t := s[n..];
      if |s| == n {
        assert t == [];
        assert ReplaceAll(s, pat, rep) == rep + [];
      } else {
        if |s| < 2 * n {
          OverlapIsBorder(s, pat);
          assert false;
        }
        assert EndsWith(t, pat) by {
          assert t[|t| - n..] == s[|s| - n..];
        }
        ReplaceAllEndsWith(t, pat, rep);
        EndsWithAppend(rep, ReplaceAll(t, pat, rep), rep);
      }
    } else {
      assert |s| > n;
      var t := s[1..];
      assert EndsWith(t, pat) by {
        assert t[|t| - n..] == s[|s| - n..];
      }
      ReplaceAllEndsWith(t, pat, rep);
      EndsWithAppend([s[0]], ReplaceAll(t, pat, rep), rep);
    }
  }

  /**
   * A character that `pat` does not contain stops every match, so the
   * replacement works on either side of it independently.
   */
  lemma {:induction false} ReplaceAllSplit(x: string, c: char, y: string, pat: string, rep: string)
    requires pat != [] && c !in pat
    ensures ReplaceAll(x + [c] + y, pat, rep) == ReplaceAll(x, pat, rep) + [c] + ReplaceAll(y, pat, rep)
    decreases |x|
  {
    var s := x + [c] + y;
    var n := |pat|;
    if |x| >= n && x[..n] == pat {
      assert s[..n] == pat;
      assert s[n..] == x[n..] + [c] + y;
      ReplaceAllSplit(x[n..], c, y, pat, rep);
    } else if |x| >= n {
      assert s[..n] == x[..n];
      assert s[1..] == x[1..] + [c] + y;
      ReplaceAllSplit(x[1..], c, y, pat, rep);
    } else if x == [] {
      if |s| >= n {
        assert s[..n][0] == c;
        assert s[..n] != pat by { assert pat[0] == c ==> c in pat; }
      }
      assert s[1..] == y;
    } else {
      if |s| >= n {
        assert s[..n][|x|] == c;
        assert s[..n] != pat by { assert pat[|x|] == c ==> c in pat; }
      }
      assert s[1..] == x[1..] + [c] + y;
      ReplaceAllSplit(x[1..], c, y, pat, rep);
    }
  }

  /** The replacement brings in no character that neither `s` nor `rep` holds. */
  lemma {:induction false} ReplaceAllAvoids(s: string, pat: string, rep: string, c: char)
    requires pat != [] && c !in s && c !in rep
    ensures c !in ReplaceAll(s, pat, rep)
    decreases |s|
  {
    if |s| < |pat| {
    } else if s[..|pat|] == pat {
      ReplaceAllAvoids(s[|pat|..], pat, rep, c);
    } else {
      ReplaceAllAvoids(s[1..], pat, rep, c);
    }
  }
}
