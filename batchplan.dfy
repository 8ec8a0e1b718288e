/**
 * The first half of store_pdg_folder: check the input directory, discover
 * the ".js" files below it, and enqueue a task for every file whose artifact
 * is not already there. Workers, queues and result draining are not modelled.
 */
module BatchPlan {
  import opened PyStr
  import opened PosixPath
  import opened ArtifactNames
  import opened FileDiscovery
  import opened Persistence

  /** A work item as put on `jsfile_queue`: (input_dir, jsfile_relpath, output_dir). */
  datatype Task = Task(inputDir: string, relPath: string, outputDir: Option<string>)

  /** The predicate store_pdg_folder passes to `__find_all_files`. */
  predicate IsJs(name: string) {
    EndsWith(name, JsExt)
  }

  /** `os.path.isfile(p)`: a relative `p` is resolved against the working directory `cwd`. */
  predicate IsFile(fs: FileMap, cwd: string, p: string) {
    Join(cwd, p) in fs
  }

  /** `gpfile_relpath`: the path whose existence marks a discovered file as done. */
  function SkipMarker(fpath: string, inputDir: string): (r: string)
    ensures EndsWith(r, PickleExt)
    ensures EndsWith(RelPath(fpath, inputDir), JsExt) ==> RemoveSuffix(r, PickleExt) + JsExt == RelPath(fpath, inputDir)
  {
    ArtifactRelPath(RelPath(fpath, inputDir))
  }

  /** The task enqueued for a discovered path. */
  function TaskFor(fpath: string, inputDir: string, outputDir: Option<string>): Task {
    Task(inputDir, RelPath(fpath, inputDir), outputDir)
  }

  /** The artifact get_data_flow writes (line 108) for a task that has an output directory. */
  function TaskArtifact(t: Task): string
    requires t.outputDir.Some?
  {
    StoredArtifactPath(Join(t.inputDir, t.relPath), t.outputDir.value)
  }

  /** The discovered paths line 182 skips: those whose marker is an existing file relative to `cwd`. */
  function MarkedDone(found: seq<string>, inputDir: string, cwd: string, fs: FileMap): set<string> {
    set f | f in found && IsFile(fs, cwd, SkipMarker(f, inputDir))
  }

  /**
   * The discovered paths the skip check evidently means: those whose task
   * has an output directory and whose artifact there (line 108) exists.
   */
  function StoredDone(found: seq<string>, inputDir: string, outputDir: Option<string>, fs: FileMap): set<string> {
    set f | f in found && outputDir.Some? && TaskArtifact(TaskFor(f, inputDir, outputDir)) in fs
  }

  /** The tasks of the discovered paths not in `done`, in discovery order. */
  function Pending(found: seq<string>, inputDir: string, outputDir: Option<string>, done: set<string>)
    : seq<Task>
  {
    if found == [] then []
    else
      (if found[0] in done then [] else [TaskFor(found[0], inputDir, outputDir)])
      + Pending(found[1..], inputDir, outputDir, done)
  }

  /** Enqueueing distributes over concatenation of the discovered paths: discovery order is kept. */
  lemma {:induction false} PendingConcat(a: seq<string>, b: seq<string>, inputDir: string, outputDir: Option<string>, done: set<string>)
    ensures Pending(a + b, inputDir, outputDir, done)
         == Pending(a, inputDir, outputDir, done) + Pending(b, inputDir, outputDir, done)
    decreases |a|
  {
    if a != [] {
      var head := if a[0] in done then [] else [TaskFor(a[0], inputDir, outputDir)];
      assert (a + b)[0] == a[0] && (a + b)[1..] == a[1..] + b;
      assert Pending(a + b, inputDir, outputDir, done) == head + Pending(a[1..] + b, inputDir, outputDir, done);
      PendingConcat(a[1..], b, inputDir, outputDir, done);
      assert Pending(a, inputDir, outputDir, done) == head + Pending(a[1..], inputDir, outputDir, done);
    } else {
      assert a + b == b;
    }
  }

  lemma PendingStep(a: seq<string>, f: string, inputDir: string, outputDir: Option<string>, done: set<string>)
    ensures Pending(a + [f], inputDir, outputDir, done)
         == Pending(a, inputDir, outputDir, done)
            + (if f in done then [] else [TaskFor(f, inputDir, outputDir)])
  {
    PendingConcat(a, [f], inputDir, outputDir, done);
    assert [f][1..] == [];
  }

  lemma PendingSingle(f: string, inputDir: string, outputDir: Option<string>, done: set<string>)
    requires f !in done
    ensures Pending([f], inputDir, outputDir, done) == [TaskFor(f, inputDir, outputDir)]
  {
    assert [f][1..] == [];
  }

  /** Each enqueued task is the task of a discovered path that was not skipped, and every such path has its task enqueued. */
  lemma {:induction false} PendingMembership(found: seq<string>, inputDir: string, outputDir: Option<string>, done: set<string>, t: Task)
    ensures t in Pending(found, inputDir, outputDir, done) <==>
      exists f :: f in found && f !in done && t == TaskFor(f, inputDir, outputDir)
    decreases |found|
  {
    if found != [] {
      PendingMembership(found[1..], inputDir, outputDir, done, t);
      assert forall f :: f in found <==> f == found[0] || f in found[1..];
    }
  }

  /**
   * With the check of line 182, a discovered file is enqueued exactly when
   * its marker is not an existing file, and every task carries `inputDir`
   * and `outputDir` unchanged.
   */
  lemma EnqueuedExactlyWhenNotSkipped(found: seq<string>, inputDir: string, outputDir: Option<string>, cwd: string, fs: FileMap, f: string)
    requires f in found
    ensures TaskFor(f, inputDir, outputDir) in Pending(found, inputDir, outputDir, MarkedDone(found, inputDir, cwd, fs))
        <==> !IsFile(fs, cwd, SkipMarker(f, inputDir))
    ensures forall t :: t in Pending(found, inputDir, outputDir, MarkedDone(found, inputDir, cwd, fs)) ==>
      t.inputDir == inputDir && t.outputDir == outputDir
  {
    var done := MarkedDone(found, inputDir, cwd, fs);
    PendingMembership(found, inputDir, outputDir, done, TaskFor(f, inputDir, outputDir));
    forall t | t in Pending(found, inputDir, outputDir, done) ensures t.inputDir == inputDir && t.outputDir == outputDir {
      PendingMembership(found, inputDir, outputDir, done, t);
    }
  }

  lemma TakeOneMore<T>(s: seq<T>, i: nat)
    requires i < |s|
    ensures s[..i + 1] == s[..i] + [s[i]]
  {
  }

  /** The enqueue loop of store_pdg_folder (lines 178-183), with `os.path.isfile` resolved against `cwd`. */
  method EnqueueTasks(found: seq<string>, inputDir: string, outputDir: Option<string>, cwd: string, fs: FileMap)
    returns (queue: seq<Task>)
    ensures queue == Pending(found, inputDir, outputDir, MarkedDone(found, inputDir, cwd, fs))
  {
    queue := [];
    var i := 0;
    assert found[..0] == [];
    while i < |found|
      invariant 0 <= i <= |found|
      invariant queue == Pending(found[..i], inputDir, outputDir, MarkedDone(found, inputDir, cwd, fs))
    {
      var fpath := found[i];
      var relpath := RelPath(fpath, inputDir);
      var gpfile := ArtifactRelPath(relpath);
      TakeOneMore(found, i);
      PendingStep(found[..i], fpath, inputDir, outputDir, MarkedDone(found, inputDir, cwd, fs));
      if !IsFile(fs, cwd, gpfile) {
        queue := queue + [Task(inputDir, relpath, outputDir)];
      }
      i := i + 1;
    }
    assert found[..i] == found;
  }

  /** What store_pdg_folder does before starting workers. */
  datatype Plan =
    | InputMissing          // `input_dir` does not exist: logged, nothing done
    | NotADirectory         // `os.listdir` raises on a path that is not a directory
    | Planned(tasks: seq<Task>)

  /**
   * store_pdg_folder up to line 183. `input` is what exists at `inputDir`
   * (None when `os.path.exists` is false, a dangling link included),
   * `absInput` its absolute form, `outputDir` the output directory in
   * absolute form, `cwd` the working directory and `fs` the regular files.
   */
  method PlanBatch(input: Option<Node>, inputDir: string, absInput: string, outputDir: Option<string>,
                   cwd: string, fs: FileMap)
    returns (plan: Plan)
    ensures input.None? ==> plan == InputMissing
    ensures input.Some? && !input.value.Dir? ==> plan == NotADirectory
    ensures input.Some? && input.value.Dir? ==>
      plan == Planned(Pending(Walk(absInput, input.value.entries, IsJs), inputDir, outputDir,
                      MarkedDone(Walk(absInput, input.value.entries, IsJs), inputDir, cwd, fs)))
  {
    match input
    case None =>
      return InputMissing;
    case Some(node) =>
      if !node.Dir? {
        return NotADirectory;
      }
      var found := Walk(absInput, node.entries, IsJs);
      var queue := EnqueueTasks(found, inputDir, outputDir, cwd, fs);
      return Planned(queue);
  }

  lemma SuffixWithin(p: string, b: string, k: nat)
    requires EndsWith(p, b) && k <= |p| && |b| <= |p| - k
    ensures EndsWith(p[k..], b)
  {
    assert p[k..][|p[k..]| - |b|..] == p[|p| - |b|..];
  }

  lemma EndsWithTrans(a: string, b: string, c: string)
    requires EndsWith(a, b) && EndsWith(b, c)
    ensures EndsWith(a, c)
  {
    assert a[|a| - |c|..] == a[|a| - |b|..][|b| - |c|..];
  }

  /** A discovered path is `dir`'s head followed by a relative tail that ends in ".js". */
  lemma DiscoveredPathShape(dir: string, entries: seq<Entry>, f: string)
    requires WellFormed(entries) && f in Walk(dir, entries, IsJs)
    ensures IsMatchingFile(dir, entries, IsJs, f)
    ensures StartsWith(f, WithSep(dir))
    ensures var tail := f[|WithSep(dir)|..]; !IsAbsolute(tail) && EndsWith(tail, JsExt)
  {
    WalkMembership(dir, entries, IsJs, f);
    MatchingFileShape(dir, entries, IsJs, f);
    EndsWithTrans(f, Basename(f), JsExt);
    SuffixWithin(f, JsExt, |WithSep(dir)|);
  }

  /** The task of a discovered path names that path again once handle_one_pdg joins it to `dir`. */
  lemma TaskOfDiscoveredPath(dir: string, entries: seq<Entry>, f: string, outputDir: Option<string>)
    requires WellFormed(entries) && f in Walk(dir, entries, IsJs)
    ensures var t := TaskFor(f, dir, outputDir);
      Join(dir, t.relPath) == f && EndsWith(t.relPath, JsExt)
  {
    var tail := DiscoveredTail(dir, entries, f);
    assert Join(dir, tail) == f;
  }

  /**
   * When `input_dir` is already absolute and normalised, every task of the
   * plan opens (through `os.path.join` in handle_one_pdg) a ".js" file that
   * discovery found, and its relative path ends in ".js", so its marker is
   * the relative path with ".js" renamed ".pickle" and gives it back.
   */
  lemma PlannedTasksLocateDiscoveredFiles(dir: string, entries: seq<Entry>, outputDir: Option<string>, done: set<string>)
    requires WellFormed(entries)
    ensures forall t :: t in Pending(Walk(dir, entries, IsJs), dir, outputDir, done) ==>
      && t.inputDir == dir && t.outputDir == outputDir
      && IsMatchingFile(dir, entries, IsJs, Join(dir, t.relPath))
      && EndsWith(t.relPath, JsExt)
      && RemoveSuffix(ArtifactRelPath(t.relPath), PickleExt) + JsExt == t.relPath
  {
    var found := Walk(dir, entries, IsJs);
    forall t | t in Pending(found, dir, outputDir, done)
      ensures t.inputDir == dir && t.outputDir == outputDir
      ensures IsMatchingFile(dir, entries, IsJs, Join(dir, t.relPath)) && EndsWith(t.relPath, JsExt)
    {
      PendingMembership(found, dir, outputDir, done, t);
      var f :| f in found && f !in done && t == TaskFor(f, dir, outputDir);
      TaskOfDiscoveredPath(dir, entries, f, outputDir);
      DiscoveredPathShape(dir, entries, f);
    }
  }

  /** In the example below, "/in/a.js" has relative path "a.js". */
  lemma ExampleRelPath()
    ensures RelPath("/in/a.js", "/in") == "a.js"
  {
    RelPathUnderInput("/in", "a.js");
    assert "/in" + "/" + "a.js" == "/in/a.js";
  }

  /** ... and marker "a.pickle", looked up at "/home/a.pickle" from the working directory "/home". */
  lemma ExampleMarker()
    ensures Join("/home", SkipMarker("/in/a.js", "/in")) == "/home/a.pickle"
  {
    ExampleRelPath();
    assert "a.js"[|"a.js"| - |JsExt|..] == JsExt;
    assert RemoveSuffix("a.js", JsExt) == "a";
    assert ArtifactRelPath("a.js") == "a.pickle";
    assert SkipMarker("/in/a.js", "/in") == "a.pickle";
    assert Join("/home", "a.pickle") == "/home/" + "a.pickle";
    assert "/home/" + "a.pickle" == "/home/a.pickle";
  }

  /** In the example below, the task of "/in/a.js" is stored at "/out/a.pickle". */
  lemma ExampleArtifact()
    ensures TaskArtifact(Task("/in", "a.js", Some("/out"))) == "/out/a.pickle"
  {
    assert Join("/in", "a.js") == "/in/a.js";
    BasenameOfJoin("/in", "a.js");
    assert ReplaceAll("a.js", JsExt, PickleExt) == "a.pickle" by {
      assert "a.js"[..3] != JsExt;
      assert "a.js"[1..] == ".js" && ".js"[..3] == JsExt && ".js"[3..] == [];
    }
    assert WithSep("/out") == "/out/";
    ExampleArtifactConcat();
  }

  lemma ExampleArtifactConcat()
    ensures "/out/" + "a.pickle" == "/out/a.pickle"
  {
  }

  /**
   * As written, a re-run does not skip a file whose artifact the first run
   * stored: with input "/in", output "/out" and working directory "/home",
   * the first run enqueues "a.js", its PDG is stored at "/out/a.pickle", and
   * the second run enqueues "a.js" again, because line 182 looks for
   * "/home/a.pickle".
   */
  lemma RerunRedoesStoredFile()
    ensures var t := Task("/in", "a.js", Some("/out"));
      && Pending(["/in/a.js"], "/in", Some("/out"), MarkedDone(["/in/a.js"], "/in", "/home", map[])) == [t]
      && TaskArtifact(t) == "/out/a.pickle"
      && Pending(["/in/a.js"], "/in", Some("/out"), MarkedDone(["/in/a.js"], "/in", "/home", map["/out/a.pickle" := 1])) == [t]
  {
    var f := "/in/a.js";
    ExampleRelPath();
    ExampleMarker();
    ExampleArtifact();
    assert |"/home/a.pickle"| != |"/out/a.pickle"|;
    assert f !in MarkedDone([f], "/in", "/home", map[]);
    assert f !in MarkedDone([f], "/in", "/home", map["/out/a.pickle" := 1]);
    PendingSingle(f, "/in", Some("/out"), MarkedDone([f], "/in", "/home", map[]));
    PendingSingle(f, "/in", Some("/out"), MarkedDone([f], "/in", "/home", map["/out/a.pickle" := 1]));
  }

  /**
   * With the corrected check, running the plan again after every task of the
   * first run stored its artifact enqueues nothing: the batch is idempotent.
   * Files only appear in between (`fs0` is contained in `fs1`).
   */
  lemma RerunAfterStoringIsEmpty(found: seq<string>, inputDir: string, outputDir: string, fs0: FileMap, fs1: FileMap)
    requires fs0.Keys <= fs1.Keys
    requires forall t :: t in Pending(found, inputDir, Some(outputDir), StoredDone(found, inputDir, Some(outputDir), fs0)) ==>
      t.outputDir.Some? && TaskArtifact(t) in fs1
    ensures Pending(found, inputDir, Some(outputDir), StoredDone(found, inputDir, Some(outputDir), fs1)) == []
  {
    var done0 := StoredDone(found, inputDir, Some(outputDir), fs0);
    var done1 := StoredDone(found, inputDir, Some(outputDir), fs1);
    forall f | f in found ensures f in done1 {
      if f !in done0 {
        PendingMembership(found, inputDir, Some(outputDir), done0, TaskFor(f, inputDir, Some(outputDir)));
      }
    }
    var rerun := Pending(found, inputDir, Some(outputDir), done1);
    if rerun != [] {
      PendingMembership(found, inputDir, Some(outputDir), done1, rerun[0]);
      assert false;
    }
  }

  /** The enqueue loop with the corrected check: a file is skipped when its stored artifact exists. */
  method EnqueueUnstoredTasks(found: seq<string>, inputDir: string, outputDir: Option<string>, fs: FileMap)
    returns (queue: seq<Task>)
    ensures queue == Pending(found, inputDir, outputDir, StoredDone(found, inputDir, outputDir, fs))
  {
    queue := [];
    var i := 0;
    assert found[..0] == [];
    while i < |found|
      invariant 0 <= i <= |found|
      invariant queue == Pending(found[..i], inputDir, outputDir, StoredDone(found, inputDir, outputDir, fs))
    {
      var fpath := found[i];
      var task := Task(inputDir, RelPath(fpath, inputDir), outputDir);
      TakeOneMore(found, i);
      PendingStep(found[..i], fpath, inputDir, outputDir, StoredDone(found, inputDir, outputDir, fs));
      if outputDir.None? || TaskArtifact(task) !in fs {
        queue := queue + [task];
      }
      i := i + 1;
    }
    assert found[..i] == found;
  }

  /**
   * With the corrected check, a discovered file is enqueued exactly when it
   * has no output directory or its stored artifact is missing.
   */
  lemma EnqueuedExactlyWhenNotStored(found: seq<string>, inputDir: string, outputDir: Option<string>, fs: FileMap, f: string)
    requires f in found
    ensures TaskFor(f, inputDir, outputDir) in Pending(found, inputDir, outputDir, StoredDone(found, inputDir, outputDir, fs))
        <==> outputDir.None? || TaskArtifact(TaskFor(f, inputDir, outputDir)) !in fs
  {
    var done := StoredDone(found, inputDir, outputDir, fs);
    PendingMembership(found, inputDir, outputDir, done, TaskFor(f, inputDir, outputDir));
    if TaskFor(f, inputDir, outputDir) in Pending(found, inputDir, outputDir, done) {
      var g :| g in found && g !in done && TaskFor(f, inputDir, outputDir) == TaskFor(g, inputDir, outputDir);
    }
  }

  /** The file handle_one_pdg opens for a task (line 126), resolved against the working directory `cwd`. */
  function OpenedFile(t: Task, cwd: string): (r: string)
    ensures EndsWith(r, t.relPath)
  {
    var p := Join(t.inputDir, t.relPath);
    EndsWithTrans(Join(cwd, p), p, t.relPath);
    Join(cwd, p)
  }

  /** In the example below, the walk from "/home/in" over one file "a.js" yields "/home/in/a.js". */
  lemma ExampleRelativeWalk()
    ensures Walk(Join("/home", "in"), [Entry("a.js", File)], IsJs) == ["/home/in/a.js"]
  {
    var es := [Entry("a.js", File)];
    assert Join("/home", "in") == "/home/in";
    assert Join("/home/in", "a.js") == "/home/in/a.js";
    assert "a.js"[|"a.js"| - |JsExt|..] == JsExt;
    assert es[1..] == [];
    assert DirectMatches("/home/in", es, IsJs) == ["/home/in/a.js"];
    assert SubdirWalks("/home/in", es, IsJs) == [];
  }

  /** ... its relative path against "in" keeps the whole absolute path but its leading separator ... */
  lemma ExampleRelativeRelPath()
    ensures RelPath("/home/in/a.js", "in") == "home/in/a.js"
  {
    assert !StartsWith("/home/in/a.js", "in") by {
      assert "/home/in/a.js"[..2][0] == '/';
    }
    assert StartsWith("/home/in/a.js", "/");
    assert "/home/in/a.js"[1..] == "home/in/a.js";
  }

  /** ... so the task opens "/home/in/home/in/a.js". */
  lemma ExampleRelativeOpened()
    ensures OpenedFile(Task("in", "home/in/a.js", None), "/home") == "/home/in/home/in/a.js"
  {
    ExampleJoinUnderIn();
    ExampleJoinUnderHome();
  }

  lemma ExampleJoinUnderIn()
    ensures Join("in", "home/in/a.js") == "in/home/in/a.js"
  {
    assert WithSep("in") == "in/";
  }

  lemma ExampleJoinUnderHome()
    ensures Join("/home", "in/home/in/a.js") == "/home/in/home/in/a.js"
  {
    assert WithSep("/home") == "/home/";
  }

  /**
   * As written, a relative `input_dir` sends the workers to a file that is
   * not there: run from "/home" with `input_dir` "in" holding "a.js", the
   * walk yields the absolute "/home/in/a.js" (line 143), `removeprefix("in")`
   * does not apply to it (line 179), and the task's relative path
   * "home/in/a.js" is joined to "in" again (line 126).
   */
  lemma RelativeInputMisplacesTask()
    ensures var f := "/home/in/a.js";
      var t := TaskFor(f, "in", None);
      && f in Walk(Join("/home", "in"), [Entry("a.js", File)], IsJs)
      && t.relPath == "home/in/a.js"
      && OpenedFile(t, "/home") == "/home/in/home/in/a.js"
      && OpenedFile(t, "/home") != f
  {
    ExampleRelativeWalk();
    ExampleRelativeRelPath();
    ExampleRelativeOpened();
    assert |"/home/in/home/in/a.js"| != |"/home/in/a.js"|;
  }

  /**
   * The task the skip loop evidently means: the relative path is taken
   * against `absInput`, the absolute input directory the walk started from.
   */
  function ResolvedTaskFor(fpath: string, inputDir: string, absInput: string, outputDir: Option<string>): (t: Task)
    ensures t.inputDir == inputDir && t.outputDir == outputDir
    ensures StartsWith(fpath, absInput) ==> fpath == absInput + t.relPath || fpath == absInput + "/" + t.relPath
  {
    Task(inputDir, RelPath(fpath, absInput), outputDir)
  }

  /**
   * With the relative path taken against the absolute input directory,
   * every task opens, from the working directory, exactly the file the walk
   * found, whether `input_dir` is absolute or relative (and normalised).
   */
  lemma ResolvedTaskOpensDiscoveredFile(cwd: string, inputDir: string, entries: seq<Entry>, f: string, outputDir: Option<string>)
    requires WellFormed(entries) && f in Walk(Join(cwd, inputDir), entries, IsJs)
    ensures OpenedFile(ResolvedTaskFor(f, inputDir, Join(cwd, inputDir), outputDir), cwd) == f
  {
    var dir := Join(cwd, inputDir);
    var tail := DiscoveredTail(dir, entries, f);
    var t := ResolvedTaskFor(f, inputDir, dir, outputDir);
    assert t.relPath == tail;
    if IsAbsolute(inputDir) {
      JoinUnderAbsolute(cwd, inputDir, tail);
    } else {
      JoinAssociates(cwd, inputDir, tail);
    }
  }

  /** A discovered path is the head of `dir` followed by a relative tail, which is its relative path against `dir`. */
  lemma DiscoveredTail(dir: string, entries: seq<Entry>, f: string) returns (tail: string)
    requires WellFormed(entries) && f in Walk(dir, entries, IsJs)
    ensures !IsAbsolute(tail) && f == WithSep(dir) + tail && RelPath(f, dir) == tail
    ensures EndsWith(tail, JsExt)
  {
    DiscoveredPathShape(dir, entries, f);
    tail := f[|WithSep(dir)|..];
    TailAfterHead(dir, f);
  }

  /** What follows the head of `dir` in a path below it is that path's relative path against `dir`. */
  lemma TailAfterHead(dir: string, f: string)
    requires StartsWith(f, WithSep(dir)) && !IsAbsolute(f[|WithSep(dir)|..])
    ensures var tail := f[|WithSep(dir)|..];
      f == WithSep(dir) + tail && RelPath(f, dir) == tail
  {
    var tail := f[|WithSep(dir)|..];
    assert f == WithSep(dir) + tail;
    assert Join(dir, tail) == f;
    RelPathOfJoin(dir, tail);
  }
}
