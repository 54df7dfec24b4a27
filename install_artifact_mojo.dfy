/**
 * The `install-artifact` goal (`InstallArtifactMojo.execute`): check the
 * ImageJ.app/ directory, work out the coordinate to download, resolve it and
 * install every resolved artifact with the current revision's installer.
 *
 * Resolution is a parameter (`resolve`), from the coordinate to the resolved
 * artifacts or None when the resolver throws; `directoryOf` stands for
 * `new File(imagejDirectory)`.
 */
module InstallArtifactGoal {
  import opened Wrappers
  import opened FileSystems
  import opened PluginDetection
  import opened Installer
  import opened Coordinates
  import AbstractCopyJars

  /** How `execute` ends. */
  datatype Outcome =
    | Completed
    | DirectoryUnset
    | CouldNotMakeDirectory
    | NoArtifactSpecified
    | InvalidArtifact
    | CouldNotResolve
    | CouldNotDownload

  /**
   * The outcomes thrown as a `MojoFailureException`: the bad-request checks.
   * An unset directory and a failed resolution or download are a
   * `MojoExecutionException` instead.
   */
  predicate IsFailureException(outcome: Outcome)
    ensures IsFailureException(outcome) ==> !outcome.Completed?
    ensures outcome.DirectoryUnset? || outcome.CouldNotResolve? || outcome.CouldNotDownload? ==> !IsFailureException(outcome)
  {
    outcome.CouldNotMakeDirectory? || outcome.NoArtifactSpecified? || outcome.InvalidArtifact?
  }

  type Resolver = CoordinateValue -> Option<seq<Artifact>>

  /**
   * `imagejDir.isDirectory() || imagejDir.mkdirs()`: the file system with the
   * directory in place, or None when it is not a directory and cannot be made.
   */
  function PreparedDirectory(files: Files, dir: Path, now: int): (r: Option<Files>)
    ensures r.None? <==> !IsDirectory(files, dir) && (Exists(files, dir) || BlockedByFile(files, dir))
    ensures r.Some? && IsDirectory(files, dir) ==> r.value == files
  {
    if IsDirectory(files, dir) then Some(files) else MadeDirs(files, dir, now)
  }

  /** Once prepared, the directory is a directory and the file system is still well formed. */
  lemma PreparedDirectoryIsDirectory(files: Files, dir: Path, now: int)
    requires WellFormed(files)
    requires PreparedDirectory(files, dir, now).Some?
    ensures WellFormed(PreparedDirectory(files, dir, now).value)
    ensures IsDirectory(PreparedDirectory(files, dir, now).value, dir)
    ensures forall p :: p in files ==> p in PreparedDirectory(files, dir, now).value
  {
    if !IsDirectory(files, dir) {
      MakeDirsPreservesWellFormed(files, dir, now);
    }
  }

  /**
   * The checks on the requested artifact pass: something was named, and an
   * `artifact` string has three tokens; so a string without a colon is refused.
   */
  predicate ArtifactChecked(artifactId: Option<string>, artifact: Option<string>)
    ensures ArtifactChecked(artifactId, artifact) ==> artifactId.Some? || artifact.Some?
    ensures artifact.Some? && ':' !in artifact.value ==> !ArtifactChecked(artifactId, artifact)
  {
    && (artifactId.Some? || artifact.Some?)
    && (artifact.Some? ==> |Split(artifact.value)| == 3)
  }

  class InstallArtifactMojo {
    /** The ImageJ.app/ directory property's value. */
    const imagejDirectory: Option<string>
    const deleteOtherVersions: bool
    var groupId: Option<string>
    var artifactId: Option<string>
    var version: Option<string>
    /** The `groupId:artifactId:version` string. */
    const artifact: Option<string>
    const force: bool
    const coordinate: Coordinate

    constructor (imagejDirectory: Option<string>, deleteOtherVersions: bool, groupId: Option<string>,
                 artifactId: Option<string>, version: Option<string>, artifact: Option<string>, force: bool)
      ensures this.imagejDirectory == imagejDirectory && this.deleteOtherVersions == deleteOtherVersions
      ensures this.groupId == groupId && this.artifactId == artifactId && this.version == version
      ensures this.artifact == artifact && this.force == force
      ensures fresh(coordinate) && coordinate.Value() == CoordinateValue(None, None, None, None, None)
    {
      this.imagejDirectory := imagejDirectory;
      this.deleteOtherVersions := deleteOtherVersions;
      this.groupId := groupId;
      this.artifactId := artifactId;
      this.version := version;
      this.artifact := artifact;
      this.force := force;
      coordinate := new Coordinate();
    }

    /**
     * `execute`.  The checks come in the source's order; the type and
     * classifier branches need four or five tokens where exactly three were
     * demanded, so they never run, and every resolved artifact is installed
     * without `force`, whatever the `force` parameter says.
     */
    method Execute(fs: FileSystem, listing: JarListing, directoryOf: string -> Path, resolve: Resolver, now: int)
      returns (outcome: Outcome)
      requires fs.Valid()
      modifies fs, this, coordinate
      ensures fs.Valid()
      ensures coordinate.kind == old(coordinate.kind) && coordinate.classifier == old(coordinate.classifier)
      ensures imagejDirectory.None? ==> outcome == DirectoryUnset && fs.files == old(fs.files)
      ensures imagejDirectory.Some? ==>
        var dir := directoryOf(imagejDirectory.value);
        var prepared := PreparedDirectory(old(fs.files), dir, now);
        && (prepared.None? ==> outcome == CouldNotMakeDirectory && fs.files == old(fs.files))
        && (prepared.Some? && old(artifactId).None? && artifact.None? ==>
              outcome == NoArtifactSpecified && fs.files == prepared.value)
        && (prepared.Some? && artifact.Some? && |Split(artifact.value)| != 3 ==>
              outcome == InvalidArtifact && fs.files == prepared.value)
        && (prepared.Some? && ArtifactChecked(old(artifactId), artifact) ==>
              match resolve(coordinate.Value())
              case None => outcome == CouldNotResolve && fs.files == prepared.value
              case Some(results) =>
                var (after, ok) := InstallAll(prepared.value, results, AbstractCopyJars.InstallStep(listing, dir, deleteOtherVersions, now));
                fs.files == after && outcome == (if ok then Completed else CouldNotDownload))
      ensures imagejDirectory.Some? && PreparedDirectory(old(fs.files), directoryOf(imagejDirectory.value), now).Some?
              && artifact.Some? && |Split(artifact.value)| == 3 ==>
        var tokens := Split(artifact.value);
        && groupId == Some(tokens[0]) && artifactId == Some(tokens[1]) && version == Some(tokens[2])
        && coordinate.groupId == groupId && coordinate.artifactId == artifactId && coordinate.version == version
      ensures !(imagejDirectory.Some? && PreparedDirectory(old(fs.files), directoryOf(imagejDirectory.value), now).Some?
                && artifact.Some? && |Split(artifact.value)| == 3) ==>
        && groupId == old(groupId) && artifactId == old(artifactId) && version == old(version)
        && coordinate.Value() == old(coordinate.Value())
    {
      if imagejDirectory.None? {
        return DirectoryUnset;
      }
      var dir := directoryOf(imagejDirectory.value);
      if !IsDirectory(fs.files, dir) {
        var made := fs.MakeDirs(dir, now);
        if !made {
          return CouldNotMakeDirectory;
        }
      }
      if artifactId.None? && artifact.None? {
        return NoArtifactSpecified;
      }
      if artifact.Some? {
        var tokens := Split(artifact.value);
        if |tokens| != 3 {
          return InvalidArtifact;
        }
        TakeTokens(tokens);
      }
      var resolved := resolve(coordinate.Value());
      if resolved.None? {
        return CouldNotResolve;
      }
      var ok := InstallResolved(fs, listing, dir, resolved.value, deleteOtherVersions, now);
      return if ok then Completed else CouldNotDownload;
    }

    /** The three tokens become the goal's fields and the coordinate's groupId, artifactId and version. */
    method TakeTokens(tokens: seq<string>)
      requires |tokens| == 3
      modifies this, coordinate
      ensures groupId == Some(tokens[0]) && artifactId == Some(tokens[1]) && version == Some(tokens[2])
      ensures coordinate.Value() == old(coordinate.Value()).(groupId := groupId, artifactId := artifactId, version := version)
    {
      groupId, artifactId, version := Some(tokens[0]), Some(tokens[1]), Some(tokens[2]);
      coordinate.SetGroupId(tokens[0]);
      coordinate.SetArtifactId(tokens[1]);
      coordinate.SetVersion(tokens[2]);
    }
  }

  /** The loop over the resolved artifacts: each is installed without `force`; a failed copy ends it. */
  method InstallResolved(fs: FileSystem, listing: JarListing, dir: Path, results: seq<Artifact>,
                         deleteOtherVersions: bool, now: int)
    returns (ok: bool)
    requires fs.Valid()
    modifies fs
    ensures fs.Valid()
    ensures (fs.files, ok) == InstallAll(old(fs.files), results, AbstractCopyJars.InstallStep(listing, dir, deleteOtherVersions, now))
  {
    ghost var start := fs.files;
    ghost var install := AbstractCopyJars.InstallStep(listing, dir, deleteOtherVersions, now);
    for k := 0 to |results|
      invariant fs.Valid()
      invariant InstallAll(start, results[..k], install) == (fs.files, true)
    {
      ghost var before := fs.files;
      var installed, _ := AbstractCopyJars.InstallArtifact(fs, listing, results[k], dir, false, deleteOtherVersions, now);
      InstallAllNext(start, results, k, install);
      assert install(before, results[k]) == Install(before, listing, dir, results[k], AbstractCopyJars.TargetSubdirectory, false, deleteOtherVersions, now);
      if !installed {
        InstallAllStopsAt(start, results, k + 1, install);
        return false;
      }
    }
    assert results[..|results|] == results;
    return true;
  }
}
