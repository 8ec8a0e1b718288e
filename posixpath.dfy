/**
 * The two `os.path` operations the pipeline uses on POSIX paths:
 * `join` of two components and `basename`.
 */
module PosixPath {
  import opened PyStr

  predicate IsAbsolute(p: string) {
    |p| > 0 && p[0] == '/'
  }

  /** A name as a directory listing returns it: non-empty, no separator, neither "." nor "..". */
  predicate IsName(n: string) {
    n != [] && '/' !in n && n != "." && n != ".."
  }

  /** The head `os.path.join` puts in front of a relative tail: `a` itself when empty or ending in "/", else `a + "/"`. */
  function WithSep(a: string): (r: string)
    ensures StartsWith(r, a)
    ensures r == [] || r[|r| - 1] == '/'
    ensures |r| <= |a| + 1
    ensures |r| == |a| <==> a == [] || a[|a| - 1] == '/'
  {
    if a == [] || a[|a| - 1] == '/' then a else a + "/"
  }

  /** `os.path.join(a, b)`: an absolute `b` replaces `a`; otherwise `b` follows `a` after one separator. */
  function Join(a: string, b: string): (r: string)
    ensures EndsWith(r, b)
    ensures IsAbsolute(b) ==> r == b
    ensures !IsAbsolute(b) ==> StartsWith(r, a) && r == WithSep(a) + b
  {
    if IsAbsolute(b) then b else WithSep(a) + b
  }

  /** `os.path.basename(p)`: what follows the last separator of `p`. */
  function Basename(p: string): (r: string)
    ensures '/' !in r
    ensures EndsWith(p, r)
    ensures |r| == |p| || p[|p| - |r| - 1] == '/'
    decreases |p|
  {
    if p == [] || p[|p| - 1] == '/' then []
    else Basename(p[..|p| - 1]) + [p[|p| - 1]]
  }

  /** Index `i` of a suffix `r` of `p` is the matching index of `p`. */
  lemma SuffixAt(p: string, r: string, i: int)
    requires EndsWith(p, r) && 0 <= i < |r|
    ensures r[i] == p[|p| - |r| + i]
  {
    assert r[i] == p[|p| - |r|..][i];
  }

  /** The three properties in the contract of Basename determine it. */
  lemma BasenameUnique(p: string, r: string)
    requires '/' !in r && EndsWith(p, r)
    requires |r| == |p| || p[|p| - |r| - 1] == '/'
    ensures Basename(p) == r
  {
    var b := Basename(p);
    if |b| < |r| {
      SuffixAt(p, r, |r| - |b| - 1);
      assert false;
    } else if |r| < |b| {
      SuffixAt(p, b, |b| - |r| - 1);
      assert false;
    } else {
      assert b == p[|p| - |b|..] == r;
    }
  }

  /** The basename of `os.path.join(a, n)` is the name `n`. */
  lemma BasenameOfJoin(a: string, n: string)
    requires n != [] && '/' !in n
    ensures Basename(Join(a, n)) == n
  {
    var p := Join(a, n);
    assert p == WithSep(a) + n;
    assert p[|p| - |n|..] == n;
    if |n| < |p| {
      assert p[|p| - |n| - 1] == WithSep(a)[|WithSep(a)| - 1];
    }
    BasenameUnique(p, n);
  }

  /** A suffix without separators survives `basename`. */
  lemma BasenameKeepsSuffix(p: string, q: string)
    requires EndsWith(p, q) && '/' !in q
    ensures EndsWith(Basename(p), q)
  {
    var b := Basename(p);
    if |b| < |q| {
      SuffixAt(p, q, |q| - |b| - 1);
      assert false;
    }
    assert b[|b| - |q|..] == p[|p| - |q|..];
  }

  /**
   * Replacing a separator-free pattern by separator-free text commutes with
   * `basename`: the directory part plays no role in the file name.
   */
  lemma BasenameOfReplace(p: string, pat: string, rep: string)
    requires pat != [] && '/' !in pat && '/' !in rep
    ensures Basename(ReplaceAll(p, pat, rep)) == ReplaceAll(Basename(p), pat, rep)
  {
    var y := Basename(p);
    ReplaceAllAvoids(y, pat, rep, '/');
    var ry := ReplaceAll(y, pat, rep);
    if |y| == |p| {
      assert y == p;
      BasenameUnique(ReplaceAll(p, pat, rep), ry);
    } else {
      var x := p[..|p| - |y| - 1];
      assert p == x + ['/'] + y;
      ReplaceAllSplit(x, '/', y, pat, rep);
      var q := ReplaceAll(x, pat, rep) + ['/'] + ry;
      assert q[|q| - |ry|..] == ry;
      assert q[|q| - |ry| - 1] == '/';
      BasenameUnique(q, ry);
    }
  }

  /** `os.path.join` of a directory and a relative path is the directory's head followed by that path. */
  lemma JoinRelativeHead(c: string, d: string)
    requires !IsAbsolute(d)
    ensures WithSep(Join(c, d)) == WithSep(c) + WithSep(d)
  {
    if d != [] {
      assert Join(c, d) == WithSep(c) + d;
      assert (WithSep(c) + d)[|WithSep(c) + d| - 1] == d[|d| - 1];
    }
  }

  /** Joining `c` with `join(d, tail)` is joining `join(c, d)` with `tail`, for relative `d` and `tail`. */
  lemma JoinAssociates(c: string, d: string, tail: string)
    requires !IsAbsolute(d) && !IsAbsolute(tail)
    ensures Join(c, Join(d, tail)) == WithSep(Join(c, d)) + tail
  {
    JoinStaysRelative(d, tail);
    JoinRelativeHead(c, d);
    var w, wd := WithSep(c), WithSep(d);
    assert w + (wd + tail) == (w + wd) + tail;
  }

  /** Joining two relative paths gives a relative path. */
  lemma JoinStaysRelative(d: string, tail: string)
    requires !IsAbsolute(d) && !IsAbsolute(tail)
    ensures !IsAbsolute(Join(d, tail))
  {
    var q := Join(d, tail);
    if d != [] {
      assert WithSep(d)[..|d|] == d;
      assert q[0] == WithSep(d)[0] == d[0];
    } else {
      assert q == tail;
    }
  }

  /** With an absolute `d`, the working directory plays no part. */
  lemma JoinUnderAbsolute(c: string, d: string, tail: string)
    requires IsAbsolute(d) && !IsAbsolute(tail)
    ensures Join(c, Join(d, tail)) == WithSep(Join(c, d)) + tail
  {
    var q := Join(d, tail);
    assert q == WithSep(d) + tail && q[0] == '/';
  }
}
