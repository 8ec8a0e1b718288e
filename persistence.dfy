/**
 * Crash-isolated persistence at the end of get_data_flow: the PDG is pickled
 * by a child process, and when the child fails an empty artifact it left
 * behind is removed. The file system is a map from path to size in bytes.
 */
module Persistence {
  import opened ArtifactNames

  datatype Option<T> = None | Some(value: T)

  /** Regular files by path, with their sizes in bytes. */
  type FileMap = map<string, nat>

  /**
   * What the pickling child process did: the size of the artifact it left
   * (None when it never created the file) and its exit code.
   */
  datatype ChildRun = ChildRun(written: Option<nat>, exitCode: int)

  /**
   * The parent's decision after the child exits: with a non-zero exit code
   * and a zero-byte artifact on disk, the artifact is deleted; in every other
   * case nothing changes.
   */
  function CleanupAfterChild(fs: FileMap, artifact: string, exitCode: int): (fs': FileMap)
    ensures fs'.Keys <= fs.Keys && fs.Keys - fs'.Keys <= {artifact}
    ensures forall p :: p in fs' ==> fs'[p] == fs[p]
    ensures exitCode != 0 ==> artifact !in fs' || fs'[artifact] > 0
    ensures exitCode == 0 || artifact !in fs || fs[artifact] > 0 ==> fs' == fs
  {
    if exitCode != 0 && artifact in fs && fs[artifact] == 0 then fs - {artifact} else fs
  }

  /** The file map once the child has exited: the artifact holds what the child wrote. */
  function AfterChild(fs: FileMap, artifact: string, child: ChildRun): (fs': FileMap)
    ensures forall p :: p != artifact ==> (p in fs' <==> p in fs)
    ensures forall p :: p != artifact && p in fs ==> fs'[p] == fs[p]
    ensures child.written.Some? ==> artifact in fs' && fs'[artifact] == child.written.value
    ensures child.written.None? ==> fs' == fs
  {
    if child.written.Some? then fs[artifact := child.written.value] else fs
  }

  /**
   * The tail of get_data_flow once the PDG is built: with a store directory
   * the PDG is pickled to its artifact path and cleaned up after a failure;
   * the PDG is returned whatever the child did. The artifact path is the key
   * of `fs` as it stands, so `storeDir` is taken to be absolute, as batch mode
   * makes it (line 175).
   */
  function PersistPdg<G>(pdg: G, fs: FileMap, inputFile: string, storeDir: Option<string>, child: ChildRun)
    : (r: (G, FileMap))
    ensures r.0 == pdg
    ensures storeDir.None? ==> r.1 == fs
    ensures storeDir.Some? ==>
      var artifact := StoredArtifactPath(inputFile, storeDir.value);
      && (forall p :: p != artifact ==> (p in r.1 <==> p in fs))
      && (forall p :: p != artifact && p in fs ==> r.1[p] == fs[p])
      && (child.exitCode == 0 && child.written.Some? ==> artifact in r.1 && r.1[artifact] == child.written.value)
      && (child.exitCode != 0 ==> artifact !in r.1 || r.1[artifact] > 0)
      && (child.exitCode != 0 && child.written == Some(0) ==> artifact !in r.1)
      && (child.written.Some? && child.written.value > 0 ==> artifact in r.1 && r.1[artifact] == child.written.value)
      && (child.written.None? && (child.exitCode == 0 || artifact !in fs || fs[artifact] > 0) ==> r.1 == fs)
      && (child.written.None? && child.exitCode != 0 && artifact in fs && fs[artifact] == 0 ==> r.1 == fs - {artifact})
  {
    match storeDir
    case None => (pdg, fs)
    case Some(dir) =>
      var artifact := StoredArtifactPath(inputFile, dir);
      (pdg, CleanupAfterChild(AfterChild(fs, artifact, child), artifact, child.exitCode))
  }
}
