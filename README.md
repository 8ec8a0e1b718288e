# JStap PDG generation: path logic, file discovery and the skip rule

This project models the sequential core of `pdg_generation/pdgs_generation.py`
from JStap-callgraph, the module that turns a folder of JavaScript files into
pickled program dependency graphs (PDGs). The model covers:

- the names derived from a JavaScript file's path:
  - the Esprima companion file `x.json` (in `get_data_flow`);
  - the pickled artifact in the store directory;
  - in batch mode, the path relative to the input directory and the
    "already processed" marker path;
- `__find_all_files`, the recursive search for `.js` files. It runs over an
  abstract directory tree instead of the real file system;
- the enqueue loop of `store_pdg_folder`, which builds one task per discovered
  file and skips files whose marker exists;
- what `get_data_flow` does to the file system once the pickling child
  process exits: an empty artifact left by a failed child is removed.

Modules, one per file:

| module | file | what it holds |
|---|---|---|
| `PyStr` | pystr.dfy | `startswith`, `endswith`, `removeprefix`, `removesuffix`, `replace` on strings |
| `PosixPath` | posixpath.dfy | `os.path.join` and `os.path.basename` for POSIX paths |
| `ArtifactNames` | artifactnames.dfy | the path derivations of lines 70-73, 108 and 179-181 |
| `FileDiscovery` | filediscovery.dfy | `__find_all_files` over a tree of entries |
| `Persistence` | persistence.dfy | the file map and the cleanup after the pickling child |
| `BatchPlan` | batchplan.dfy | the enqueue loop, `store_pdg_folder` up to line 183, and the skip-check finding |

The file system is a `map<string, nat>` from the path of a regular file to
its size. The working directory is a parameter `cwd`, and `os.path.isfile(p)`
for a relative `p` is `Join(cwd, p) in fs`. A directory is a `Node.Dir` whose
entries form a sequence in no particular order. The walk visits the entries
in sequence order. The source collects each level's files and subdirectories
into two Python sets, so it yields the matching files in set order and then
the subdirectories in set order. Every pair of set orders is produced by some
ordering of the entries. Proving the lemmas for every entry ordering therefore
covers every order the source can produce. `WalkOrderIrrelevant` shows that
the order never changes which paths are yielded.

Two behaviours of the code are easy to misread, and the model keeps both as
written:

- **Artifact layout.** Line 108 stores every artifact flat in the store
  directory, under the input's file name with ".js" renamed ".pickle"; the
  input's relative directories are not kept. `StoredArtifactIsFlat` states
  this: two inputs with the same file name share one artifact.
- **Skip marker.** Line 182 decides that a file was already processed by
  looking for its relative path with ".pickle" in place of ".js", resolved
  against the working directory, not for the artifact line 108 writes.
  `PlanBatch` and `EnqueueTasks` keep that check as written. See
  "## Findings".

Because the walk's two sets iterate in hash order, and string hashing is
randomised per interpreter run, the order of the discovered files, and so of
the queue, can differ from one run to the next even on an unchanged tree.
`WalkOrderIrrelevant` shows that only the order changes, never the files.

## Model

| member | source | states |
|---|---|---|
| `PyStr.StartsWith` | pdg_generation/pdgs_generation.py:179 | `str.startswith`: the string is at least as long as the prefix and begins with it; `RemovePrefix` and `RelPath` state its use |
| `PyStr.EndsWith` | pdg_generation/pdgs_generation.py:70 | `str.endswith`: the string is at least as long as the suffix and ends with it; `RemoveSuffix`, `ReplaceAllEndsWith` and `ArtifactRelPath` state its use |
| `PyStr.RemovePrefix` | pdg_generation/pdgs_generation.py:179-180 | a present prefix followed by the result rebuilds the string; an absent prefix leaves it unchanged |
| `PyStr.RemoveSuffix` | pdg_generation/pdgs_generation.py:181 | the result followed by a present suffix rebuilds the string; an absent suffix leaves it unchanged |
| `PyStr.ReplaceAllEndsWith` | pdg_generation/pdgs_generation.py:71 | when the string ends with a pattern that cannot overlap itself (".js", ".pickle"), the left-to-right replace-all leaves the replacement at the end |
| `PyStr.ReplaceAll` | pdg_generation/pdgs_generation.py:71 | `str.replace`: a left-to-right scan replacing every non-overlapping occurrence; what it promises is stated by `ReplaceAllNoMatch`, `ReplaceAllEndsWith`, `ReplaceAllSplit` and `ReplaceAllAvoids` |
| `PyStr.ReplaceAllNoMatch` | pdg_generation/pdgs_generation.py:71 | a string in which the pattern never occurs is returned unchanged |
| `PyStr.ReplaceAllSplit` | pdg_generation/pdgs_generation.py:108 | replace-all works independently on the two sides of a character the pattern does not contain (such as the separator) |
| `PyStr.ReplaceAllAvoids` | pdg_generation/pdgs_generation.py:108 | replace-all introduces no character that neither the string nor the replacement holds |
| `PosixPath.WithSep` | pdg_generation/pdgs_generation.py:126 | the head `join` puts in front of a relative tail extends the directory, is empty or ends in "/", and adds a "/" exactly when the directory is non-empty and does not already end in one |
| `PosixPath.Join` | pdg_generation/pdgs_generation.py:126 | the joined path ends with the second component; an absolute second component replaces the first; otherwise the first is a prefix, followed by exactly one separator where needed |
| `PosixPath.Basename` | pdg_generation/pdgs_generation.py:108 | the base name has no separator, is a suffix of the path, and is the whole path or follows a "/" |
| `PosixPath.BasenameUnique` | pdg_generation/pdgs_generation.py:108 | those three properties determine the base name |
| `PosixPath.BasenameOfJoin` | pdg_generation/pdgs_generation.py:150 | the base name of a directory joined with a name is the name |
| `PosixPath.BasenameKeepsSuffix` | pdg_generation/pdgs_generation.py:108 | a separator-free suffix of the path is a suffix of its base name |
| `PosixPath.BasenameOfReplace` | pdg_generation/pdgs_generation.py:108 | replacing a separator-free pattern and then taking the base name equals taking the base name and then replacing |
| `PosixPath.JoinRelativeHead` | pdg_generation/pdgs_generation.py:126 | the head after joining a relative path to a directory is the directory's head followed by the relative path's head |
| `PosixPath.JoinStaysRelative` | pdg_generation/pdgs_generation.py:126 | joining two relative paths gives a relative path |
| `PosixPath.JoinAssociates` | pdg_generation/pdgs_generation.py:126 | for relative `d` and `tail`, `join(c, join(d, tail))` is `join(c, d)`, one separator where needed, then `tail` |
| `PosixPath.JoinUnderAbsolute` | pdg_generation/pdgs_generation.py:126 | for an absolute `d`, `join(c, join(d, tail))` does not depend on `c` |
| `ArtifactNames.CompanionParsePath` | pdg_generation/pdgs_generation.py:70-73 | the companion file always ends in ".json". For a ".js" input, renaming ".json" back to ".js" gives the input, and every ".js" in the result starts a ".json". Otherwise the input is a prefix and ".json" is appended |
| `ArtifactNames.JsonRenameReversible` | pdg_generation/pdgs_generation.py:71 | renaming every ".js" to ".json" is undone by renaming every ".json" to ".js", for every string |
| `ArtifactNames.JsonRenameLeavesNoBareJs` | pdg_generation/pdgs_generation.py:71 | after renaming ".js" to ".json", no ".js" is left that is not the start of a ".json" |
| `ArtifactNames.JsonRenameKeepsHead` | pdg_generation/pdgs_generation.py:71 | renaming ".js" to ".json" keeps the first two characters of a string of length two or more |
| `ArtifactNames.StoredArtifactPath` | pdg_generation/pdgs_generation.py:108 | the artifact is the store directory, one separator and a separator-free name: the input's base name with every ".js" renamed ".pickle". A ".js" input gives a path ending in ".pickle" |
| `ArtifactNames.StoredArtifactIsFlat` | pdg_generation/pdgs_generation.py:108 | two inputs with the same base name are stored at the same path: the directories of the input are dropped |
| `ArtifactNames.RelPath` | pdg_generation/pdgs_generation.py:179-180 | under the input directory, the path is the input directory, an optional "/", then the result, and the "/" is dropped whenever one follows the input directory; outside it, only a leading "/" is dropped |
| `ArtifactNames.RelPathUnderInput` | pdg_generation/pdgs_generation.py:179-180 | `input_dir + "/" + r` with a relative `r` has relative path `r` |
| `ArtifactNames.RelPathOutsideInput` | pdg_generation/pdgs_generation.py:179-180 | a path that does not start with the input directory loses only its leading "/", if any |
| `ArtifactNames.RelPathOfJoin` | pdg_generation/pdgs_generation.py:179-180 | the relative path of `join(input_dir, r)` is `r`, with or without a trailing "/" on the input directory |
| `ArtifactNames.ArtifactRelPath` | pdg_generation/pdgs_generation.py:181 | the marker always ends in ".pickle". For a ".js" relative path, removing ".pickle" and adding ".js" gives the relative path back. Otherwise ".pickle" is appended to the whole relative path |
| `FileDiscovery.DirectMatches` | pdg_generation/pdgs_generation.py:146-150 | the matching regular files directly in `under`, joined to it, at most one per entry; `DirectMatchesMembership` and `DirectMatchesAreDirect` state what it yields |
| `FileDiscovery.SubdirWalks` | pdg_generation/pdgs_generation.py:148-151 | the walks of the subdirectories one after another; `SubdirWalksMembership` and `SubdirWalksAreDeeper` state what it yields |
| `FileDiscovery.Walk` | pdg_generation/pdgs_generation.py:142-151 | `__find_all_files`: this level's matching files, then the subdirectories' walks; `WalkMembership`, `WalkDistinct`, `WalkFilesFirst` and `WalkOrderIrrelevant` carry its promises |
| `FileDiscovery.DirectMatchesMembership` | pdg_generation/pdgs_generation.py:149-150 | a path is yielded from this level exactly when it is a regular file entry whose name satisfies the predicate, joined to `under` |
| `FileDiscovery.SubdirWalksMembership` | pdg_generation/pdgs_generation.py:151 | a path comes from the subdirectory walks exactly when it is a matching file below one of the directory entries |
| `FileDiscovery.DirectMatchesAreDirect` | pdg_generation/pdgs_generation.py:150 | every file yielded from this level lies directly in `under` |
| `FileDiscovery.SubdirWalksAreDeeper` | pdg_generation/pdgs_generation.py:151 | no file yielded from a subdirectory lies directly in `under` |
| `FileDiscovery.WalkMembership` | pdg_generation/pdgs_generation.py:142-151 | a path is yielded exactly when it is the joined path of a regular file, somewhere in the tree, whose name satisfies the predicate |
| `FileDiscovery.WalkDistinct` | pdg_generation/pdgs_generation.py:142-151 | in a well-formed tree no path is yielded twice, so every matching file is yielded exactly once |
| `FileDiscovery.MatchingFileShape` | pdg_generation/pdgs_generation.py:150-151 | a matching file's path is the directory's head followed by a non-empty tail that does not start with "/", and its base name satisfies the predicate |
| `FileDiscovery.WalkYieldsSatisfiedPathsUnder` | pdg_generation/pdgs_generation.py:150-151 | every yielded path lies strictly below `under`, is absolute when `under` is, and has a base name satisfying the predicate |
| `FileDiscovery.WalkFilesFirst` | pdg_generation/pdgs_generation.py:149-151 | in the output, every file directly inside `under` comes before every file from a subdirectory |
| `FileDiscovery.WalkOrderIrrelevant` | pdg_generation/pdgs_generation.py:144-151 | two well-formed trees with the same matching files yield permutations of each other (equal multisets) |
| `FileDiscovery.ReorderedListingSameFiles` | pdg_generation/pdgs_generation.py:145-148 | listing the same entries in a different order leaves the set of matching files unchanged |
| `Persistence.AfterChild` | pdg_generation/pdgs_generation.py:112-114 | after the child, the artifact holds the size the child wrote, or is as before when it wrote nothing; every other file is unchanged |
| `Persistence.CleanupAfterChild` | pdg_generation/pdgs_generation.py:115-118 | at most the artifact is removed and no size changes. After a failed exit no zero-size artifact remains. With exit code 0, a missing artifact or a non-empty one, the file map is unchanged |
| `Persistence.PersistPdg` | pdg_generation/pdgs_generation.py:107-119 | the PDG is returned whatever the child did. Without a store directory the files are untouched. With one, only the artifact can change: a successful child leaves what it wrote, and a failed child leaves no empty artifact |
| `BatchPlan.IsJs` | pdg_generation/pdgs_generation.py:178 | the walk's predicate: the file name ends in ".js"; `PlannedTasksLocateDiscoveredFiles` shows every task's relative path ends in ".js" |
| `BatchPlan.TaskFor` | pdg_generation/pdgs_generation.py:183 | the queued triple of input directory, relative path and output directory; `EnqueuedExactlyWhenNotSkipped` and `TaskOfDiscoveredPath` state what it carries |
| `BatchPlan.TaskArtifact` | pdg_generation/pdgs_generation.py:108 | the artifact a task's worker stores: line 126's joined input path passed through line 108; `RerunRedoesStoredFile` and `EnqueuedExactlyWhenNotStored` use it |
| `BatchPlan.IsFile` | pdg_generation/pdgs_generation.py:182 | `os.path.isfile`: the path joined to the working directory is a regular file; its use is stated by `EnqueuedExactlyWhenNotSkipped` |
| `BatchPlan.SkipMarker` | pdg_generation/pdgs_generation.py:179-181 | the marker of a discovered path ends in ".pickle", and for a ".js" relative path removing ".pickle" and adding ".js" gives the relative path back |
| `BatchPlan.MarkedDone` | pdg_generation/pdgs_generation.py:182 | the discovered paths whose marker is an existing file relative to the working directory; `EnqueuedExactlyWhenNotSkipped` states the skip rule it gives |
| `BatchPlan.Pending` | pdg_generation/pdgs_generation.py:178-183 | the tasks of the discovered paths not marked done, in discovery order; `PendingMembership` and `PendingConcat` carry its promises |
| `BatchPlan.PendingConcat` | pdg_generation/pdgs_generation.py:178-183 | enqueueing the concatenation of two lists of discovered paths gives the two queues in order, so discovery order is kept |
| `BatchPlan.PendingMembership` | pdg_generation/pdgs_generation.py:178-183 | a task is enqueued exactly when it is the task of a discovered path that is not skipped |
| `BatchPlan.EnqueuedExactlyWhenNotSkipped` | pdg_generation/pdgs_generation.py:182-183 | a discovered file's task is enqueued exactly when its marker is not an existing file relative to the working directory. Every task carries the input and output directories unchanged |
| `BatchPlan.EnqueueTasks` | pdg_generation/pdgs_generation.py:178-183 | the loop's queue is the list of tasks of the discovered paths whose marker is missing, in discovery order |
| `BatchPlan.PlanBatch` | pdg_generation/pdgs_generation.py:171-183 | a missing input gives `InputMissing`, a non-directory gives `NotADirectory`, and a directory gives the enqueue loop's queue over the discovered ".js" files |
| `BatchPlan.TaskOfDiscoveredPath` | pdg_generation/pdgs_generation.py:126 | when `input_dir` is the walk's own absolute, normalised root, joining the input directory with a discovered file's relative path (as `handle_one_pdg` does) gives the discovered path back, and that relative path ends in ".js" |
| `BatchPlan.PlannedTasksLocateDiscoveredFiles` | pdg_generation/pdgs_generation.py:178-181 | when `input_dir` is the walk's own absolute, normalised root, every planned task keeps the input and output directories and names a matching ".js" file of the tree. Its marker round-trips to its relative path |
| `BatchPlan.RerunRedoesStoredFile` | pdg_generation/pdgs_generation.py:182 | as written, a file whose artifact the first run stored is enqueued again on the next run (see the counterexample in "## Findings") |
| `BatchPlan.StoredDone` | pdg_generation/pdgs_generation.py:182 | the corrected skip set: discovered paths that have an output directory and whose stored artifact exists; `EnqueuedExactlyWhenNotStored` states the rule it gives |
| `BatchPlan.EnqueueUnstoredTasks` | pdg_generation/pdgs_generation.py:182-183 | the corrected loop enqueues the tasks of the discovered paths whose stored artifact is missing, in discovery order |
| `BatchPlan.EnqueuedExactlyWhenNotStored` | pdg_generation/pdgs_generation.py:182-183 | with the corrected check, a file is enqueued exactly when there is no output directory or its stored artifact is missing |
| `BatchPlan.RerunAfterStoringIsEmpty` | pdg_generation/pdgs_generation.py:182 | with the corrected check, once every task of a run has stored its artifact, and as long as no file is deleted, the next run enqueues nothing |
| `BatchPlan.OpenedFile` | pdg_generation/pdgs_generation.py:126 | the file `handle_one_pdg` opens for a task, resolved against the working directory, ends with the task's relative path |
| `BatchPlan.RelativeInputMisplacesTask` | pdg_generation/pdgs_generation.py:179 | as written, with `input_dir` "in" and working directory "/home", the walk yields "/home/in/a.js" but its task opens "/home/in/home/in/a.js" (see "## Findings") |
| `BatchPlan.ResolvedTaskFor` | pdg_generation/pdgs_generation.py:179-180 | the corrected task keeps the input and output directories, and its relative path follows the absolute input directory in the discovered path |
| `BatchPlan.DiscoveredTail` | pdg_generation/pdgs_generation.py:179-180 | a discovered path is the absolute input directory's head followed by a relative tail, and that tail is its relative path |
| `BatchPlan.ResolvedTaskOpensDiscoveredFile` | pdg_generation/pdgs_generation.py:126 | with the relative path taken against the absolute input directory, every task opens exactly the file the walk found, for an absolute or a relative `input_dir` |

## Left out

- Worker processes, the work and result queues, `join` and result draining
  (lines 131-140, 185-197) are left out. They concern concurrency.
  `BatchPlan.PlanBatch` stops at the queue it has built.
- `pickle.dump` in a child `Process` (lines 35-37, 110-114) is left out. It is
  serialization and process spawning. The child is the parameter `ChildRun`:
  the size it left on disk and its exit code.
- The collaborators called by `get_data_flow` are left out: `get_extended_ast`,
  `ast_to_ast_nodes`, `build_cfg`, `df_scoping`, `VarList` and `draw_*`. They
  are not part of this model. `PersistPdg` takes the PDG as an opaque value,
  and the paths where the AST fails or `Timeout(60)` fires (which return
  `None` before persistence) are not modelled.
- `check_var`, the early return of the unknown-variable list, is not modelled.
  It happens before persistence.
- Timing, `micro_benchmark`, `psutil` RAM accounting, logging and `print` are
  left out. They are observability only.
- `FileDiscovery.Walk` does not model `os.path.abspath`, because path
  normalisation is not modelled. The walk starts from an absolute, normalised
  directory, and the joined paths need no normalisation because entry names
  are plain names. `PlanBatch` receives that absolute form as the parameter
  `absInput`. The relative path is still computed against the `input_dir` as
  given, as in the source.
- `sorted(os.listdir(...))` is not modelled separately. The sets discard that
  order, and the entries are taken in every order.
- `Persistence.PersistPdg` takes `storeDir` to be absolute, as batch mode
  makes it at line 175: the artifact path is used as the key of the file map
  as it stands. A relative store directory passed to `get_data_flow` directly,
  which the operating system would resolve against the working directory, is
  not modelled.
- `BatchPlan.ResolvedTaskOpensDiscoveredFile` takes the absolute input
  directory to be `join(cwd, input_dir)`. `os.path.abspath` also removes ".",
  ".." and repeated separators, which the model does not.
- `os.makedirs(output_dir)` is left out. Creating the output directory only
  adds a directory, and directories are not part of the file map.
- Errors raised by `os.listdir` on an unreadable subdirectory and symbolic
  links are not modelled. An entry is a regular file, a directory or neither.
- `PyStr.ReplaceAll` requires a non-empty pattern. Python's behaviour for an
  empty pattern is not modelled, because every pattern here is ".js" or
  ".json".

## Findings

| source | as written | input that shows it | evidently intended | confidence | as-written member | corrected member |
|---|---|---|---|---|---|---|
| pdg_generation/pdgs_generation.py:182 | a file is skipped when `relpath` with ".js" changed to ".pickle" exists relative to the working directory, while line 108 stores the artifact at `output_dir/<basename>.pickle` | `input_dir` "/in" holding `a.js`, `output_dir` "/out", working directory "/home": the first run stores "/out/a.pickle"; the second run checks "/home/a.pickle" and enqueues `a.js` again | skip a file when the artifact that line 108 would write for it already exists, so that a re-run after a complete run does nothing | not executed; the counterexample is proved | `BatchPlan.RerunRedoesStoredFile` | `BatchPlan.RerunAfterStoringIsEmpty` |
| pdg_generation/pdgs_generation.py:179 | the relative path is `fpath` with the `input_dir` given by the caller removed from its front, but `fpath` is absolute (line 143 makes the walk's root absolute) | `input_dir` "in" holding `a.js`, working directory "/home": the walk yields "/home/in/a.js", `removeprefix("in")` does not apply, the relative path is "home/in/a.js", and the worker opens "in/home/in/a.js" | take the relative path against the absolute input directory the walk started from, so that joining it to `input_dir` again names the discovered file | not executed; the counterexample is proved | `BatchPlan.RelativeInputMisplacesTask` | `BatchPlan.ResolvedTaskOpensDiscoveredFile` |

`BatchPlan.ResolvedTaskFor` is the corrected task of the second row.
The loop with the corrected check is `BatchPlan.EnqueueUnstoredTasks`. Its
queue is `Pending` over the `StoredDone` set. `BatchPlan.PlanBatch` keeps the
check of line 182 and the relative path of line 179 as written, because it
models `store_pdg_folder` as it stands.
