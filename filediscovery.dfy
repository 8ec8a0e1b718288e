/**
 * `__find_all_files`: the recursive search for the files to analyse,
 * over an abstract directory tree in place of the real file system.
 *
 * A directory's entries are a sequence in no particular order. The source
 * collects a level's files and its subdirectories into two sets, so it yields
 * the matching files in whatever order the file set iterates, then walks the
 * subdirectories in whatever order the subdirectory set iterates. Because all
 * files come first, each pair of such orders is produced by some ordering of
 * the entries, so walking the entries in sequence order, for every ordering,
 * covers exactly the behaviours the source allows.
 */
module FileDiscovery {
  import opened PyStr
  import opened PosixPath

  /** What `isfile`/`isdir` report for an entry; `Other` is neither (a socket, a dangling link). */
  datatype Node = File | Dir(entries: seq<Entry>) | Other

  datatype Entry = Entry(name: string, node: Node)

  /** A directory listing: valid names, no name twice, and the same for every subdirectory. */
  ghost predicate WellFormed(entries: seq<Entry>)
    decreases entries
  {
    && (forall i, j :: 0 <= i < j < |entries| ==> entries[i].name != entries[j].name)
    && (forall i :: 0 <= i < |entries| ==> IsName(entries[i].name))
    && (forall i :: 0 <= i < |entries| && entries[i].node.Dir? ==> WellFormed(entries[i].node.entries))
  }

  /** The matching files directly in the directory `under`, in listing order. */
  function DirectMatches(under: string, entries: seq<Entry>, isSat: string -> bool): (r: seq<string>)
    ensures |r| <= |entries|
    decreases entries
  {
    if entries == [] then []
    else
      (if entries[0].node.File? && isSat(entries[0].name) then [Join(under, entries[0].name)] else [])
      + DirectMatches(under, entries[1..], isSat)
  }

  /** The walks of the subdirectories of `under`, one after the other. */
  function SubdirWalks(under: string, entries: seq<Entry>, isSat: string -> bool): seq<string>
    decreases entries, 0
  {
    if entries == [] then []
    else
      (match entries[0].node
       case Dir(kids) => Walk(Join(under, entries[0].name), kids, isSat)
       case _ => [])
      + SubdirWalks(under, entries[1..], isSat)
  }

  /** Everything `__find_all_files(under, isSat)` yields: this level's matching files, then the subdirectories'. */
  function Walk(under: string, entries: seq<Entry>, isSat: string -> bool): seq<string>
    decreases entries, 1
  {
    DirectMatches(under, entries, isSat) + SubdirWalks(under, entries, isSat)
  }

  /** Reference definition: `p` is the path of a regular file somewhere below `under` whose name satisfies `isSat`. */
  ghost predicate IsMatchingFile(under: string, entries: seq<Entry>, isSat: string -> bool, p: string)
    decreases entries
  {
    exists e :: e in entries &&
      ((e.node.File? && isSat(e.name) && p == Join(under, e.name)) ||
       (e.node.Dir? && IsMatchingFile(Join(under, e.name), e.node.entries, isSat, p)))
  }

  /** `p` lies directly in the directory `dir`. */
  predicate IsDirectChild(p: string, dir: string) {
    StartsWith(p, WithSep(dir)) && '/' !in p[|WithSep(dir)|..]
  }

  ghost predicate Distinct(s: seq<string>) {
    forall i, j :: 0 <= i < j < |s| ==> s[i] != s[j]
  }

  lemma WellFormedTail(entries: seq<Entry>)
    requires entries != [] && WellFormed(entries)
    ensures WellFormed(entries[1..])
  {
    var t := entries[1..];
    forall i, j | 0 <= i < j < |t| ensures t[i].name != t[j].name {
      assert t[i] == entries[i + 1] && t[j] == entries[j + 1];
    }
    forall i | 0 <= i < |t| ensures IsName(t[i].name) && (t[i].node.Dir? ==> WellFormed(t[i].node.entries)) {
      assert t[i] == entries[i + 1];
    }
  }

  lemma {:induction false} DirectMatchesMembership(under: string, entries: seq<Entry>, isSat: string -> bool, p: string)
    ensures p in DirectMatches(under, entries, isSat) <==>
      exists e :: e in entries && e.node.File? && isSat(e.name) && p == Join(under, e.name)
    decreases entries
  {
    if entries != [] {
      DirectMatchesMembership(under, entries[1..], isSat, p);
      assert forall e :: e in entries <==> e == entries[0] || e in entries[1..];
    }
  }

  lemma {:induction false} SubdirWalksMembership(under: string, entries: seq<Entry>, isSat: string -> bool, p: string)
    ensures p in SubdirWalks(under, entries, isSat) <==>
      exists e :: e in entries && e.node.Dir? && IsMatchingFile(Join(under, e.name), e.node.entries, isSat, p)
    decreases entries, 0
  {
    if entries != [] {
      var e0 := entries[0];
      if e0.node.Dir? {
        WalkMembership(Join(under, e0.name), e0.node.entries, isSat, p);
      }
      SubdirWalksMembership(under, entries[1..], isSat, p);
      assert forall e :: e in entries <==> e == e0 || e in entries[1..];
    }
  }

  /** The walk yields a path exactly when it is a matching regular file of the tree. */
  lemma {:induction false} WalkMembership(under: string, entries: seq<Entry>, isSat: string -> bool, p: string)
    ensures p in Walk(under, entries, isSat) <==> IsMatchingFile(under, entries, isSat, p)
    decreases entries, 1
  {
    DirectMatchesMembership(under, entries, isSat, p);
    SubdirWalksMembership(under, entries, isSat, p);
  }

  /** Character `k` of a path that starts with `pre + n + "/"`. */
  lemma PrefixAt(x: string, pre: string, n: string, k: int)
    requires StartsWith(x, pre + n + "/") && 0 <= k <= |n|
    ensures x[|pre| + k] == (n + "/")[k]
  {
    assert x[|pre| + k] == (pre + n + "/")[|pre| + k];
  }

  /** Paths inside two separator-free subdirectories `n1` and `n2` of one directory can only coincide when `n1 == n2`. */
  lemma SubdirPrefixesDisjoint(pre: string, n1: string, n2: string, x: string)
    requires '/' !in n1 && '/' !in n2
    requires StartsWith(x, pre + n1 + "/") && StartsWith(x, pre + n2 + "/")
    ensures n1 == n2
  {
    if |n1| < |n2| {
      PrefixAt(x, pre, n1, |n1|);
      PrefixAt(x, pre, n2, |n1|);
      assert false;
    } else if |n2| < |n1| {
      PrefixAt(x, pre, n1, |n2|);
      PrefixAt(x, pre, n2, |n2|);
      assert false;
    } else {
      assert n1 == x[|pre|..|pre| + |n1|] == n2;
    }
  }

  /** A file directly in a directory is not inside any of its subdirectories. */
  lemma DirectNotInSubdir(pre: string, n: string, d: string)
    requires '/' !in n
    ensures !StartsWith(pre + n, pre + d + "/")
  {
    assert |n| > |d| ==> (pre + n)[|pre| + |d|] == n[|d|] != '/';
    assert |n| > |d| ==> (pre + d + "/")[|pre| + |d|] == '/';
  }

  /** The head `os.path.join` adds for a subdirectory name. */
  lemma WithSepOfSubdir(under: string, d: string)
    requires IsName(d)
    ensures WithSep(Join(under, d)) == WithSep(under) + d + "/"
  {
    assert Join(under, d) == WithSep(under) + d;
    assert d[|d| - 1] != '/';
  }

  /** Every matching file lies strictly below `under`, and its name satisfies the predicate. */
  lemma {:induction false} MatchingFileShape(under: string, entries: seq<Entry>, isSat: string -> bool, p: string)
    requires WellFormed(entries) && IsMatchingFile(under, entries, isSat, p)
    ensures StartsWith(p, WithSep(under)) && |p| > |WithSep(under)| && p[|WithSep(under)|] != '/'
    ensures isSat(Basename(p)) && |Basename(p)| <= |p| - |WithSep(under)|
    decreases entries
  {
    var e :| e in entries &&
      ((e.node.File? && isSat(e.name) && p == Join(under, e.name)) ||
       (e.node.Dir? && IsMatchingFile(Join(under, e.name), e.node.entries, isSat, p)));
    var i :| 0 <= i < |entries| && entries[i] == e;
    assert IsName(e.name) && (e.node.Dir? ==> WellFormed(e.node.entries));
    if e.node.File? && isSat(e.name) && p == Join(under, e.name) {
      DirectFileShape(under, e.name, p);
    } else {
      MatchingFileShape(Join(under, e.name), e.node.entries, isSat, p);
      NestedFileShape(under, e.name, p);
    }
  }

  lemma DirectFileShape(under: string, n: string, p: string)
    requires IsName(n) && p == Join(under, n)
    ensures StartsWith(p, WithSep(under)) && |p| > |WithSep(under)| && p[|WithSep(under)|] != '/'
    ensures Basename(p) == n && |n| == |p| - |WithSep(under)|
  {
    assert p == WithSep(under) + n;
    BasenameOfJoin(under, n);
  }

  lemma NestedFileShape(under: string, d: string, p: string)
    requires IsName(d)
    requires StartsWith(p, WithSep(Join(under, d))) && |p| > |WithSep(Join(under, d))|
    ensures StartsWith(p, WithSep(under) + d + "/") && StartsWith(p, WithSep(under)) && |p| > |WithSep(under)| + |d| + 1
    ensures p[|WithSep(under)|] != '/'
  {
    WithSepOfSubdir(under, d);
    var q := WithSep(under) + d + "/";
    assert p[..|WithSep(under)|] == q[..|WithSep(under)|] == WithSep(under);
    assert p[|WithSep(under)|] == q[|WithSep(under)|] == d[0];
  }

  /** A path yielded by a subdirectory walk lies inside one of the subdirectories. */
  lemma SubdirWalkInside(under: string, entries: seq<Entry>, isSat: string -> bool, p: string)
    requires WellFormed(entries) && p in SubdirWalks(under, entries, isSat)
    ensures exists e :: e in entries && e.node.Dir? && StartsWith(p, WithSep(under) + e.name + "/")
  {
    SubdirWalksMembership(under, entries, isSat, p);
    var e :| e in entries && e.node.Dir? && IsMatchingFile(Join(under, e.name), e.node.entries, isSat, p);
    var i :| 0 <= i < |entries| && entries[i] == e;
    MatchingFileShape(Join(under, e.name), e.node.entries, isSat, p);
    WithSepOfSubdir(under, e.name);
  }

  lemma DistinctConcat(a: seq<string>, b: seq<string>)
    requires Distinct(a) && Distinct(b)
    requires forall x :: x in a ==> x !in b
    ensures Distinct(a + b)
  {
    var s := a + b;
    forall i, j | 0 <= i < j < |s| ensures s[i] != s[j] {
      if j < |a| {
        assert s[i] == a[i] && s[j] == a[j];
      } else if i >= |a| {
        assert s[i] == b[i - |a|] && s[j] == b[j - |a|];
      } else {
        assert s[i] == a[i] && s[j] == b[j - |a|];
        assert a[i] in a && b[j - |a|] in b;
      }
    }
  }

  lemma {:induction false} DirectMatchesDistinct(under: string, entries: seq<Entry>, isSat: string -> bool)
    requires WellFormed(entries)
    ensures Distinct(DirectMatches(under, entries, isSat))
    decreases entries
  {
    if entries != [] {
      var e0 := entries[0];
      WellFormedTail(entries);
      DirectMatchesDistinct(under, entries[1..], isSat);
      if e0.node.File? && isSat(e0.name) {
        forall x | x in DirectMatches(under, entries[1..], isSat) ensures x != Join(under, e0.name) {
          DirectMatchesMembership(under, entries[1..], isSat, x);
          var e :| e in entries[1..] && e.node.File? && isSat(e.name) && x == Join(under, e.name);
          var i :| 0 <= i < |entries[1..]| && entries[1..][i] == e;
          assert e == entries[i + 1];
          assert e.name != e0.name;
          assert IsName(e.name) && IsName(e0.name);
          assert x == WithSep(under) + e.name;
          assert Join(under, e0.name) == WithSep(under) + e0.name;
          assert x[|WithSep(under)|..] == e.name;
        }
        DistinctConcat([Join(under, e0.name)], DirectMatches(under, entries[1..], isSat));
      }
    }
  }

  lemma {:induction false} SubdirWalksDistinct(under: string, entries: seq<Entry>, isSat: string -> bool)
    requires WellFormed(entries)
    ensures Distinct(SubdirWalks(under, entries, isSat))
    decreases entries, 0
  {
    if entries != [] {
      var e0 := entries[0];
      WellFormedTail(entries);
      SubdirWalksDistinct(under, entries[1..], isSat);
      if e0.node.Dir? {
        var v := Join(under, e0.name);
        WalkDistinct(v, e0.node.entries, isSat);
        forall x | x in Walk(v, e0.node.entries, isSat) ensures x !in SubdirWalks(under, entries[1..], isSat) {
          WalkMembership(v, e0.node.entries, isSat, x);
          MatchingFileShape(v, e0.node.entries, isSat, x);
          WithSepOfSubdir(under, e0.name);
          if x in SubdirWalks(under, entries[1..], isSat) {
            SubdirWalkInside(under, entries[1..], isSat, x);
            var e :| e in entries[1..] && e.node.Dir? && StartsWith(x, WithSep(under) + e.name + "/");
            var i :| 0 <= i < |entries[1..]| && entries[1..][i] == e;
            assert e == entries[i + 1];
            SubdirPrefixesDisjoint(WithSep(under), e0.name, e.name, x);
            assert false;
          }
        }
        DistinctConcat(Walk(v, e0.node.entries, isSat), SubdirWalks(under, entries[1..], isSat));
      }
    }
  }

  /** No path is yielded twice. */
  lemma {:induction false} WalkDistinct(under: string, entries: seq<Entry>, isSat: string -> bool)
    requires WellFormed(entries)
    ensures Distinct(Walk(under, entries, isSat))
    decreases entries, 1
  {
    DirectMatchesDistinct(under, entries, isSat);
    SubdirWalksDistinct(under, entries, isSat);
    forall x | x in DirectMatches(under, entries, isSat) ensures x !in SubdirWalks(under, entries, isSat) {
      DirectMatchesMembership(under, entries, isSat, x);
      var e :| e in entries && e.node.File? && isSat(e.name) && x == Join(under, e.name);
      var i :| 0 <= i < |entries| && entries[i] == e;
      assert x == WithSep(under) + e.name;
      if x in SubdirWalks(under, entries, isSat) {
        SubdirWalkInside(under, entries, isSat, x);
        var d :| d in entries && d.node.Dir? && StartsWith(x, WithSep(under) + d.name + "/");
        DirectNotInSubdir(WithSep(under), e.name, d.name);
        assert false;
      }
    }
    DistinctConcat(DirectMatches(under, entries, isSat), SubdirWalks(under, entries, isSat));
  }

  /** Every yielded path lies below `under` (so is absolute when `under` is) and its file name satisfies the predicate. */
  lemma WalkYieldsSatisfiedPathsUnder(under: string, entries: seq<Entry>, isSat: string -> bool)
    requires WellFormed(entries)
    ensures forall p :: p in Walk(under, entries, isSat) ==>
      StartsWith(p, WithSep(under)) && |p| > |WithSep(under)| && isSat(Basename(p))
    ensures IsAbsolute(under) ==> forall p :: p in Walk(under, entries, isSat) ==> IsAbsolute(p)
  {
    forall p | p in Walk(under, entries, isSat)
      ensures StartsWith(p, WithSep(under)) && |p| > |WithSep(under)| && isSat(Basename(p))
    {
      WalkMembership(under, entries, isSat, p);
      MatchingFileShape(under, entries, isSat, p);
    }
    if IsAbsolute(under) {
      forall p | p in Walk(under, entries, isSat) ensures IsAbsolute(p) {
        assert p[0] == WithSep(under)[0] == under[0];
      }
    }
  }

  lemma {:induction false} DirectMatchesAreDirect(under: string, entries: seq<Entry>, isSat: string -> bool)
    requires WellFormed(entries)
    ensures forall p :: p in DirectMatches(under, entries, isSat) ==> IsDirectChild(p, under)
  {
    forall p | p in DirectMatches(under, entries, isSat) ensures IsDirectChild(p, under) {
      DirectMatchesMembership(under, entries, isSat, p);
      var e :| e in entries && e.node.File? && isSat(e.name) && p == Join(under, e.name);
      var i :| 0 <= i < |entries| && entries[i] == e;
      assert p == WithSep(under) + e.name;
      assert p[|WithSep(under)|..] == e.name;
    }
  }

  lemma SubdirWalksAreDeeper(under: string, entries: seq<Entry>, isSat: string -> bool)
    requires WellFormed(entries)
    ensures forall p :: p in SubdirWalks(under, entries, isSat) ==> !IsDirectChild(p, under)
  {
    forall p | p in SubdirWalks(under, entries, isSat) ensures !IsDirectChild(p, under) {
      SubdirWalkInside(under, entries, isSat, p);
      var e :| e in entries && e.node.Dir? && StartsWith(p, WithSep(under) + e.name + "/");
      BelowSubdirNotDirect(p, under, e.name);
    }
  }

  /** A path inside a subdirectory `d` of `under` is not directly in `under`. */
  lemma BelowSubdirNotDirect(p: string, under: string, d: string)
    requires StartsWith(p, WithSep(under) + d + "/")
    ensures !IsDirectChild(p, under)
  {
    var k := |WithSep(under)|;
    PrefixAt(p, WithSep(under), d, |d|);
    var rest := p[k..];
    assert |d| < |rest| && rest[|d|] == '/';
    assert '/' in rest;
  }

  /**
   * Files first: once the walk has yielded a path that is not directly in
   * `under`, it never again yields one that is.
   */
  lemma WalkFilesFirst(under: string, entries: seq<Entry>, isSat: string -> bool)
    requires WellFormed(entries)
    ensures var out := Walk(under, entries, isSat);
      forall i, j :: 0 <= i < j < |out| && IsDirectChild(out[j], under) ==> IsDirectChild(out[i], under)
  {
    var d := DirectMatches(under, entries, isSat);
    var sub := SubdirWalks(under, entries, isSat);
    var out := Walk(under, entries, isSat);
    DirectMatchesAreDirect(under, entries, isSat);
    SubdirWalksAreDeeper(under, entries, isSat);
    forall k | 0 <= k < |out| ensures IsDirectChild(out[k], under) <==> k < |d| {
      if k < |d| {
        assert out[k] == d[k] && d[k] in d;
      } else {
        assert out[k] == sub[k - |d|] && sub[k - |d|] in sub;
      }
    }
  }

  lemma {:induction false} DistinctCount(s: seq<string>, x: string)
    requires Distinct(s)
    ensures multiset(s)[x] == if x in s then 1 else 0
  {
    if s != [] {
      assert Distinct(s[1..]) by {
        forall i, j | 0 <= i < j < |s[1..]| ensures s[1..][i] != s[1..][j] {
          assert s[1..][i] == s[i + 1] && s[1..][j] == s[j + 1];
        }
      }
      DistinctCount(s[1..], x);
      assert s == [s[0]] + s[1..];
      if s[0] == x {
        assert x !in s[1..] by {
          forall j | 0 <= j < |s[1..]| ensures s[1..][j] != x {
            assert s[1..][j] == s[j + 1];
          }
        }
      }
    }
  }

  /**
   * The order in which a level's entries are visited is unspecified: two
   * well-formed trees with the same matching files (in particular, one tree
   * listed in two different orders) yield permutations of each other.
   */
  lemma WalkOrderIrrelevant(under: string, e1: seq<Entry>, e2: seq<Entry>, isSat: string -> bool)
    requires WellFormed(e1) && WellFormed(e2)
    requires forall p :: IsMatchingFile(under, e1, isSat, p) <==> IsMatchingFile(under, e2, isSat, p)
    ensures multiset(Walk(under, e1, isSat)) == multiset(Walk(under, e2, isSat))
  {
    var w1, w2 := Walk(under, e1, isSat), Walk(under, e2, isSat);
    WalkDistinct(under, e1, isSat);
    WalkDistinct(under, e2, isSat);
    forall x ensures multiset(w1)[x] == multiset(w2)[x] {
      WalkMembership(under, e1, isSat, x);
      WalkMembership(under, e2, isSat, x);
      DistinctCount(w1, x);
      DistinctCount(w2, x);
    }
  }

  /** Listing the same entries in another order changes no matching file. */
  lemma ReorderedListingSameFiles(under: string, e1: seq<Entry>, e2: seq<Entry>, isSat: string -> bool, p: string)
    requires multiset(e1) == multiset(e2)
    ensures IsMatchingFile(under, e1, isSat, p) <==> IsMatchingFile(under, e2, isSat, p)
  {
    assert forall e :: e in e1 <==> e in multiset(e1);
    assert forall e :: e in e2 <==> e in multiset(e2);
  }
}
