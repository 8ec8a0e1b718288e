/**
 * The names the PDG generator derives from a JavaScript file's path:
 * the companion Esprima parse file, the stored PDG artifact, and, in batch
 * mode, the file's path relative to the input directory and the artifact
 * path used to decide whether the file was already processed.
 */
module ArtifactNames {
  import opened PyStr
  import opened PosixPath

  const JsExt := ".js"
  const JsonExt := ".json"
  const PickleExt := ".pickle"

  lemma JsBorderless()
    ensures Borderless(JsExt)
  {
    assert JsExt[..1] == "." && JsExt[2..] == "s";
    assert JsExt[..2] == ".j" && JsExt[1..] == "js";
  }

  lemma PickleBorderless()
    ensures Borderless(PickleExt)
  {
    forall b | 0 < b < |PickleExt| ensures PickleExt[..b] != PickleExt[|PickleExt| - b..] {
      assert PickleExt[..b][0] == '.';
      assert PickleExt[|PickleExt| - b..][0] == PickleExt[|PickleExt| - b];
    }
  }

  /** Every ".js" in `r` is the beginning of a ".json". */
  ghost predicate JsOnlyInJson(r: string) {
    forall i :: OccursAt(r, JsExt, i) ==> OccursAt(r, JsonExt, i)
  }

  /** Renaming ".js" to ".json" leaves the first two characters of a string in place. */
  lemma {:induction false} JsonRenameKeepsHead(t: string)
    requires |t| >= 2
    ensures |ReplaceAll(t, JsExt, JsonExt)| >= 2
    ensures ReplaceAll(t, JsExt, JsonExt)[..2] == t[..2]
  {
    var r := ReplaceAll(t, JsExt, JsonExt);
    if |t| < 3 {
    } else if t[..3] == JsExt {
      assert r[..2] == JsonExt[..2] == t[..2];
    } else {
      var rt := ReplaceAll(t[1..], JsExt, JsonExt);
      if |t[1..]| < 3 {
        assert rt == t[1..];
      } else if t[1..][..3] == JsExt {
        assert rt[0] == '.' == t[1];
      } else {
        assert rt[0] == t[1];
      }
      assert r == [t[0]] + rt;
    }
  }

  /** Renaming ".json" back to ".js" undoes renaming ".js" to ".json": every change the first makes is marked. */
  lemma {:induction false} JsonRenameReversible(s: string)
    ensures ReplaceAll(ReplaceAll(s, JsExt, JsonExt), JsonExt, JsExt) == s
    decreases |s|
  {
    var r := ReplaceAll(s, JsExt, JsonExt);
    if |s| < 3 {
      assert r == s;
    } else if s[..3] == JsExt {
      var t := s[3..];
      JsonRenameReversible(t);
      var rt := ReplaceAll(t, JsExt, JsonExt);
      assert r == JsonExt + rt;
      assert r[..5] == JsonExt && r[5..] == rt;
      assert s == JsExt + t;
    } else {
      var t := s[1..];
      JsonRenameReversible(t);
      var rt := ReplaceAll(t, JsExt, JsonExt);
      JsonRenameKeepsHead(t);
      assert r == [s[0]] + rt;
      assert r[..3] == s[..3];
      assert |r| >= 5 ==> r[..5][..3] == r[..3];
      assert r[1..] == rt;
    }
  }

  lemma OccursAtShift(a: string, b: string, p: string, i: int)
    requires |a| <= i
    ensures OccursAt(a + b, p, i) <==> OccursAt(b, p, i - |a|)
  {
    if 0 <= i - |a| && i + |p| <= |a + b| {
      assert (a + b)[i..i + |p|] == b[i - |a|..i - |a| + |p|];
    }
  }

  /** After renaming ".js" to ".json", no bare ".js" remains. */
  lemma {:induction false} JsonRenameLeavesNoBareJs(s: string)
    ensures JsOnlyInJson(ReplaceAll(s, JsExt, JsonExt))
    decreases |s|
  {
    var r := ReplaceAll(s, JsExt, JsonExt);
    if |s| < 3 {
      assert r == s;
    } else if s[..3] == JsExt {
      var rt := ReplaceAll(s[3..], JsExt, JsonExt);
      JsonRenameLeavesNoBareJs(s[3..]);
      assert r == JsonExt + rt;
      forall i | OccursAt(r, JsExt, i) ensures OccursAt(r, JsonExt, i) {
        if i >= 5 {
          OccursAtShift(JsonExt, rt, JsExt, i);
          OccursAtShift(JsonExt, rt, JsonExt, i);
        } else {
          assert r[i] == JsonExt[i];
        }
      }
    } else {
      var rt := ReplaceAll(s[1..], JsExt, JsonExt);
      JsonRenameLeavesNoBareJs(s[1..]);
      JsonRenameKeepsHead(s[1..]);
      assert r == [s[0]] + rt;
      assert r[..3] == s[..3];
      forall i | OccursAt(r, JsExt, i) ensures OccursAt(r, JsonExt, i) {
        OccursAtShift([s[0]], rt, JsExt, i);
        OccursAtShift([s[0]], rt, JsonExt, i);
      }
    }
  }

  /**
   * The Esprima companion file of `inputFile` (get_data_flow): for a ".js"
   * file every ".js" is renamed ".json"; any other file gets ".json" appended.
   */
  function CompanionParsePath(inputFile: string): (r: string)
    ensures EndsWith(r, JsonExt)
    ensures EndsWith(inputFile, JsExt) ==>
      ReplaceAll(r, JsonExt, JsExt) == inputFile && JsOnlyInJson(r)
    ensures !EndsWith(inputFile, JsExt) ==>
      StartsWith(r, inputFile) && |r| == |inputFile| + |JsonExt|
  {
    if EndsWith(inputFile, JsExt) then
      JsBorderless();
      ReplaceAllEndsWith(inputFile, JsExt, JsonExt);
      JsonRenameReversible(inputFile);
      JsonRenameLeavesNoBareJs(inputFile);
      ReplaceAll(inputFile, JsExt, JsonExt)
    else
      var r := inputFile + JsonExt;
      assert r[|r| - |JsonExt|..] == JsonExt;
      r
  }

  /**
   * Where get_data_flow pickles the PDG of `inputFile` inside `storeDir`:
   * the store directory joined with one separator-free name, the input's
   * file name with ".js" renamed ".pickle". The input's directories are dropped.
   */
  function StoredArtifactPath(inputFile: string, storeDir: string): (r: string)
    ensures var name := ReplaceAll(Basename(inputFile), JsExt, PickleExt);
      '/' !in name && r == WithSep(storeDir) + name
    ensures EndsWith(inputFile, JsExt) ==> EndsWith(r, PickleExt)
  {
    var name := Basename(ReplaceAll(inputFile, JsExt, PickleExt));
    BasenameOfReplace(inputFile, JsExt, PickleExt);
    if EndsWith(inputFile, JsExt) then
      PickleBorderless();
      JsBorderless();
      ReplaceAllEndsWith(inputFile, JsExt, PickleExt);
      BasenameKeepsSuffix(ReplaceAll(inputFile, JsExt, PickleExt), PickleExt);
      Join(storeDir, name)
    else
      Join(storeDir, name)
  }

  /** Two inputs with the same file name are stored at the same artifact path. */
  lemma StoredArtifactIsFlat(f1: string, f2: string, storeDir: string)
    requires Basename(f1) == Basename(f2)
    ensures StoredArtifactPath(f1, storeDir) == StoredArtifactPath(f2, storeDir)
  {
  }

  /**
   * `jsfile_relpath` in store_pdg_folder: `input_dir` is removed from the
   * front of the discovered path, then at most one leading separator.
   */
  function RelPath(fpath: string, inputDir: string): (r: string)
    ensures StartsWith(fpath, inputDir) ==> fpath == inputDir + r || fpath == inputDir + "/" + r
    ensures !StartsWith(fpath, inputDir) ==> fpath == r || fpath == "/" + r
    ensures StartsWith(fpath, inputDir) && |fpath| > |inputDir| && fpath[|inputDir|] == '/' ==> fpath == inputDir + "/" + r
  {
    RemovePrefix(RemovePrefix(fpath, inputDir), "/")
  }

  /** A path that is `inputDir`, a separator and a relative tail has that tail as its relative path. */
  lemma RelPathUnderInput(inputDir: string, tail: string)
    requires !IsAbsolute(tail)
    ensures RelPath(inputDir + "/" + tail, inputDir) == tail
  {
    var f := inputDir + "/" + tail;
    assert f[..|inputDir|] == inputDir;
    assert f[|inputDir|..] == "/" + tail;
  }

  /** For a path outside `inputDir`, only a leading separator is dropped. */
  lemma RelPathOutsideInput(fpath: string, inputDir: string)
    requires !StartsWith(fpath, inputDir)
    ensures IsAbsolute(fpath) ==> RelPath(fpath, inputDir) == fpath[1..]
    ensures !IsAbsolute(fpath) ==> RelPath(fpath, inputDir) == fpath
  {
  }

  /**
   * The relative path of `os.path.join(inputDir, tail)` is `tail`, whether or
   * not `inputDir` ends in a separator, so joining it again (handle_one_pdg)
   * gives back the same path.
   */
  lemma RelPathOfJoin(inputDir: string, tail: string)
    requires !IsAbsolute(tail)
    ensures RelPath(Join(inputDir, tail), inputDir) == tail
  {
    var f := Join(inputDir, tail);
    if WithSep(inputDir) == inputDir {
      assert f[..|inputDir|] == inputDir && f[|inputDir|..] == tail;
    } else {
      RelPathUnderInput(inputDir, tail);
    }
  }

  /** `gpfile_relpath`: the relative path with a trailing ".js" replaced by ".pickle". */
  function ArtifactRelPath(rel: string): (r: string)
    ensures EndsWith(r, PickleExt)
    ensures EndsWith(rel, JsExt) ==> RemoveSuffix(r, PickleExt) + JsExt == rel
    ensures !EndsWith(rel, JsExt) ==> StartsWith(r, rel) && |r| == |rel| + |PickleExt|
  {
    var r := RemoveSuffix(rel, JsExt) + PickleExt;
    assert r[|r| - |PickleExt|..] == PickleExt;
    r
  }
}
