/**
 * The older revision of the installer (`imagej.maven.CopyJarsMojo`): the
 * same copy-and-clean-up tail behind a placement rule without the `ome`
 * group, driven by `execute`, which finds the ImageJ.app/ directory from a
 * property and installs every included compile- or runtime-scoped
 * dependency.  Building the dependency tree is not modelled: `execute`
 * receives the visited nodes.
 */
module LegacyCopyJars {
  import opened Wrappers
  import opened FileSystems
  import opened PluginDetection
  import opened Installer
  import AbstractCopyJars

  /** The directory below the ImageJ.app/ directory that receives the artifact. */
  function TargetSubdirectory(groupId: string, sourceName: string, isPlugin: bool): (dir: Path)
    ensures dir == ["jars", "bio-formats"] <==> IsLociBioFormats(groupId, sourceName)
    ensures dir == ["plugins"] <==> !IsLociBioFormats(groupId, sourceName) && isPlugin
    ensures dir == ["jars"] <==> !IsLociBioFormats(groupId, sourceName) && !isPlugin
  {
    if IsLociBioFormats(groupId, sourceName) then ["jars", "bio-formats"]
    else if isPlugin then ["plugins"]
    else ["jars"]
  }

  /** The two revisions place every artifact alike, except those of group `ome`, which only the current one sends to `jars/bio-formats`. */
  lemma PlacementAgreesExceptOme(groupId: string, sourceName: string, isPlugin: bool)
    ensures groupId != "ome" ==> TargetSubdirectory(groupId, sourceName, isPlugin) == AbstractCopyJars.TargetSubdirectory(groupId, sourceName, isPlugin)
    ensures groupId == "ome" ==>
      && AbstractCopyJars.TargetSubdirectory(groupId, sourceName, isPlugin) == ["jars", "bio-formats"]
      && TargetSubdirectory(groupId, sourceName, isPlugin) == (if isPlugin then ["plugins"] else ["jars"])
  {
  }

  /**
   * `Artifact.SCOPE_COMPILE` and `Artifact.SCOPE_RUNTIME`, and no scope at all,
   * are copied; so `test`, `provided` and `system` dependencies are not.
   */
  predicate InCopiedScope(scope: Option<string>)
    ensures InCopiedScope(scope) ==> scope != Some("test") && scope != Some("provided") && scope != Some("system")
  {
    scope.None? || scope.value == "compile" || scope.value == "runtime"
  }

  /** The state of a node of the dependency tree. */
  datatype NodeState = Included | OmittedForDuplicate | OmittedForConflict | OmittedForCycle

  datatype DependencyNode = DependencyNode(state: NodeState, artifact: Artifact)

  /** The nodes `execute` installs, in visiting order. */
  function Selected(nodes: seq<DependencyNode>): (artifacts: seq<Artifact>)
    ensures forall a :: a in artifacts <==>
      (exists k :: 0 <= k < |nodes| && nodes[k].state == Included && InCopiedScope(nodes[k].artifact.scope) && nodes[k].artifact == a)
  {
    if nodes == [] then []
    else
      var last := nodes[|nodes| - 1];
      var init := Selected(nodes[..|nodes| - 1]);
      assert forall k :: 0 <= k < |nodes| - 1 ==> nodes[..|nodes| - 1][k] == nodes[k];
      if Picked(last) then init + [last.artifact] else init
  }

  /** A node `execute` installs: included in the tree, with a copied scope. */
  predicate Picked(node: DependencyNode) {
    node.state == Included && InCopiedScope(node.artifact.scope)
  }

  /** Selecting from one more node appends its artifact exactly when it is picked. */
  lemma SelectedStep(nodes: seq<DependencyNode>, k: nat)
    requires k < |nodes|
    ensures Selected(nodes[..k + 1]) == Selected(nodes[..k]) + (if Picked(nodes[k]) then [nodes[k].artifact] else [])
  {
    assert nodes[..k + 1][..k] == nodes[..k];
  }

  /** Selecting from a sequence of nodes selects from its two halves in turn. */
  lemma {:induction false} SelectedSplits(nodes: seq<DependencyNode>, k: nat)
    requires k <= |nodes|
    ensures Selected(nodes) == Selected(nodes[..k]) + Selected(nodes[k..])
    decreases |nodes|
  {
    if k < |nodes| {
      var init := nodes[..|nodes| - 1];
      SelectedSplits(init, k);
      assert init[..k] == nodes[..k];
      assert nodes[k..][..|nodes[k..]| - 1] == init[k..];
    } else {
      assert nodes[..k] == nodes;
    }
  }

  /** One install of `execute`'s loop: into `imagejDirectory`, without `force`. */
  function InstallStep(listing: JarListing, imagejDirectory: Path, deleteOtherVersions: bool, now: int): (Files, Artifact) -> Option<Files> {
    (files: Files, artifact: Artifact) => Install(files, listing, imagejDirectory, artifact, TargetSubdirectory, false, deleteOtherVersions, now)
  }

  /** The whole run of `execute` keeps the file system well formed. */
  lemma ExecuteKeepsWellFormed(files: Files, listing: JarListing, imagejDirectory: Path, artifacts: seq<Artifact>,
                               deleteOtherVersions: bool, now: int)
    requires WellFormed(files)
    ensures WellFormed(InstallAll(files, artifacts, InstallStep(listing, imagejDirectory, deleteOtherVersions, now)).0)
  {
    var install := InstallStep(listing, imagejDirectory, deleteOtherVersions, now);
    forall f, a | WellFormed(f) && install(f, a).Some? ensures WellFormed(install(f, a).value) {
      InstallKeepsWellFormed(f, listing, imagejDirectory, a, TargetSubdirectory, false, deleteOtherVersions, now);
    }
    InstallAllWellFormed(files, artifacts, install);
  }

  /** Why `execute` returned without copying. */
  datatype SkipReason = NoPropertyName | PropertyUnset | NotADirectory

  /** How `execute` ends: skipped, done, or a `MojoExecutionException` from a failed copy. */
  datatype Outcome = Skipped(reason: SkipReason) | Completed | CopyFailed

  /** The directory property: a system property wins over a project property. */
  function LookUpProperty(name: string, systemProperties: map<string, string>, projectProperties: map<string, string>): (value: Option<string>)
    ensures value.Some? <==> name in systemProperties || name in projectProperties
    ensures name in systemProperties ==> value == Some(systemProperties[name])
    ensures name !in systemProperties && name in projectProperties ==> value == Some(projectProperties[name])
  {
    if name in systemProperties then Some(systemProperties[name])
    else if name in projectProperties then Some(projectProperties[name])
    else None
  }

  class CopyJarsMojo {
    /** The name of the property holding the ImageJ.app/ directory. */
    const imagejDirectoryProperty: Option<string>
    const deleteOtherVersions: bool
    /** Set by `execute` once the property is found. */
    var imagejDirectory: Option<Path>

    constructor (imagejDirectoryProperty: Option<string>, deleteOtherVersions: bool)
      ensures this.imagejDirectoryProperty == imagejDirectoryProperty
      ensures this.deleteOtherVersions == deleteOtherVersions
      ensures imagejDirectory.None?
    {
      this.imagejDirectoryProperty := imagejDirectoryProperty;
      this.deleteOtherVersions := deleteOtherVersions;
      imagejDirectory := None;
    }

    /** `installArtifact(artifact, force)` into the directory `execute` found. */
    method InstallArtifact(fs: FileSystem, listing: JarListing, artifact: Artifact, force: bool, now: int)
      returns (ok: bool, events: seq<Event>)
      requires fs.Valid() && imagejDirectory.Some?
      modifies fs
      ensures fs.Valid()
      ensures ok == Install(old(fs.files), listing, imagejDirectory.value, artifact, TargetSubdirectory, force, deleteOtherVersions, now).Some?
      ensures fs.files == if ok then Install(old(fs.files), listing, imagejDirectory.value, artifact, TargetSubdirectory, force, deleteOtherVersions, now).value else old(fs.files)
      ensures artifact.kind != "jar" ==> ok && events == [] && fs.files == old(fs.files)
    {
      if artifact.kind != "jar" {
        return true, [];
      }
      var source := artifact.file;
      var sourceName := Name(source);
      var targetDirectory;
      if IsLociBioFormats(artifact.groupId, sourceName) {
        targetDirectory := imagejDirectory.value + ["jars", "bio-formats"];
      } else {
        var isPlugin := DetectPlugin(fs, listing, source);
        targetDirectory := imagejDirectory.value + (if isPlugin then ["plugins"] else ["jars"]);
      }
      var fileName := InstalledName(artifact.artifactId, sourceName);
      assert Child(targetDirectory, fileName) == Destination(fs.files, listing, imagejDirectory.value, artifact, TargetSubdirectory);
      ok, events := InstallAt(fs, source, targetDirectory, fileName, force, deleteOtherVersions, now);
    }

    /**
     * `execute`.  `directoryOf` stands for interpolating the property value
     * and making a `File` of it.  Every selected dependency is installed
     * without `force`; a failed copy ends the run.
     */
    method Execute(fs: FileSystem, listing: JarListing, systemProperties: map<string, string>,
                   projectProperties: map<string, string>, directoryOf: string -> Path,
                   nodes: seq<DependencyNode>, now: int)
      returns (outcome: Outcome)
      requires fs.Valid()
      modifies fs, this
      ensures fs.Valid()
      ensures imagejDirectoryProperty.None? ==>
        outcome == Skipped(NoPropertyName) && fs.files == old(fs.files) && imagejDirectory == old(imagejDirectory)
      ensures imagejDirectoryProperty.Some? && LookUpProperty(imagejDirectoryProperty.value, systemProperties, projectProperties).None? ==>
        outcome == Skipped(PropertyUnset) && fs.files == old(fs.files) && imagejDirectory == old(imagejDirectory)
      ensures imagejDirectoryProperty.Some? && LookUpProperty(imagejDirectoryProperty.value, systemProperties, projectProperties).Some? ==>
        var dir := directoryOf(LookUpProperty(imagejDirectoryProperty.value, systemProperties, projectProperties).value);
        && imagejDirectory == Some(dir)
        && (!IsDirectory(old(fs.files), dir) ==> outcome == Skipped(NotADirectory) && fs.files == old(fs.files))
        && (IsDirectory(old(fs.files), dir) ==>
              var (after, ok) := InstallAll(old(fs.files), Selected(nodes), InstallStep(listing, dir, deleteOtherVersions, now));
              fs.files == after && outcome == (if ok then Completed else CopyFailed))
    {
      if imagejDirectoryProperty.None? {
        return Skipped(NoPropertyName);
      }
      var path := LookUpProperty(imagejDirectoryProperty.value, systemProperties, projectProperties);
      if path.None? {
        return Skipped(PropertyUnset);
      }
      var dir := directoryOf(path.value);
      imagejDirectory := Some(dir);
      if !IsDirectory(fs.files, dir) {
        return Skipped(NotADirectory);
      }
      var ok := InstallSelected(fs, listing, dir, nodes, now);
      return if ok then Completed else CopyFailed;
    }

    /** The loop of `execute`: every selected dependency in visiting order, without `force`, until a failed copy. */
    method InstallSelected(fs: FileSystem, listing: JarListing, dir: Path, nodes: seq<DependencyNode>, now: int)
      returns (ok: bool)
      requires fs.Valid() && imagejDirectory == Some(dir)
      modifies fs
      ensures fs.Valid()
      ensures (fs.files, ok) == InstallAll(old(fs.files), Selected(nodes), InstallStep(listing, dir, deleteOtherVersions, now))
    {
      ghost var start := fs.files;
      ghost var install := InstallStep(listing, dir, deleteOtherVersions, now);
      for k := 0 to |nodes|
        invariant fs.Valid()
        invariant imagejDirectory == Some(dir)
        invariant InstallAll(start, Selected(nodes[..k]), install) == (fs.files, true)
      {
        ghost var before := fs.files;
        var installed := InstallNode(fs, listing, nodes[k], now);
        SelectedStep(nodes, k);
        if Picked(nodes[k]) {
          InstallAllSnoc(start, Selected(nodes[..k]), nodes[k].artifact, install);
          assert install(before, nodes[k].artifact) == Install(before, listing, dir, nodes[k].artifact, TargetSubdirectory, false, deleteOtherVersions, now);
        } else {
          assert Selected(nodes[..k + 1]) == Selected(nodes[..k]);
        }
        if !installed {
          SelectedSplits(nodes, k + 1);
          InstallAllStopsAtFailure(start, Selected(nodes[..k + 1]), Selected(nodes[k + 1..]), install);
          return false;
        }
      }
      assert nodes[..|nodes|] == nodes;
      return true;
    }

    /** One turn of `execute`'s loop: a picked node is installed without `force`, any other is passed over. */
    method InstallNode(fs: FileSystem, listing: JarListing, node: DependencyNode, now: int) returns (ok: bool)
      requires fs.Valid() && imagejDirectory.Some?
      modifies fs
      ensures fs.Valid()
      ensures !Picked(node) ==> ok && fs.files == old(fs.files)
      ensures Picked(node) ==>
        var r := Install(old(fs.files), listing, imagejDirectory.value, node.artifact, TargetSubdirectory, false, deleteOtherVersions, now);
        ok == r.Some? && fs.files == if ok then r.value else old(fs.files)
    {
      ok := true;
      if node.state == Included && InCopiedScope(node.artifact.scope) {
        var events;
        ok, events := InstallArtifact(fs, listing, node.artifact, false, now);
      }
    }
  }
}
