/**
 * The current revision of the installer (`AbstractCopyJarsMojo`): where an
 * artifact goes, installing it, and the `ij`/`imagej` dependency test.
 * Resolution of the artifact is not modelled: its file is taken as present.
 */
module AbstractCopyJars {
  import opened Wrappers
  import opened Strings
  import opened FileSystems
  import opened PluginDetection
  import opened Installer

  /** The directory below the ImageJ.app/ directory that receives the artifact. */
  function TargetSubdirectory(groupId: string, sourceName: string, isPlugin: bool): (dir: Path)
    ensures dir == ["jars", "bio-formats"] <==> groupId == "ome" || IsLociBioFormats(groupId, sourceName)
    ensures dir == ["plugins"] <==> !(groupId == "ome" || IsLociBioFormats(groupId, sourceName)) && isPlugin
    ensures dir == ["jars"] <==> !(groupId == "ome" || IsLociBioFormats(groupId, sourceName)) && !isPlugin
  {
    if groupId == "ome" || IsLociBioFormats(groupId, sourceName) then ["jars", "bio-formats"]
    else if isPlugin then ["plugins"]
    else ["jars"]
  }

  /**
   * Only the plugins directory needs the plugin test: an artifact placed in
   * `plugins` has an underscore in its name, and one whose group is `ome`
   * goes to `jars/bio-formats` whatever it holds.
   */
  lemma PlacementFacts(files: Files, listing: JarListing, imagejDirectory: Path, artifact: Artifact)
    ensures var dir := TargetSubdirectory(artifact.groupId, Name(artifact.file), IsIJ1Plugin(files, listing, artifact.file));
      && (dir == ["plugins"] ==> '_' in Name(artifact.file) && Exists(files, artifact.file))
      && (artifact.groupId == "ome" ==> dir == ["jars", "bio-formats"])
      && Parent(Destination(files, listing, imagejDirectory, artifact, TargetSubdirectory)) == imagejDirectory + dir
  {
    var dir := TargetSubdirectory(artifact.groupId, Name(artifact.file), IsIJ1Plugin(files, listing, artifact.file));
    var target := Destination(files, listing, imagejDirectory, artifact, TargetSubdirectory);
    assert target[..|target| - 1] == imagejDirectory + dir;
  }

  /**
   * `installArtifact` without the resolution step.  A non-jar artifact is left
   * alone; a jar is placed by `TargetSubdirectory` and `InstalledName`, then
   * installed by the shared copy-and-clean-up tail.
   */
  method InstallArtifact(fs: FileSystem, listing: JarListing, artifact: Artifact, imagejDirectory: Path,
                         force: bool, deleteOtherVersions: bool, now: int)
    returns (ok: bool, events: seq<Event>)
    requires fs.Valid()
    modifies fs
    ensures fs.Valid()
    ensures ok == Install(old(fs.files), listing, imagejDirectory, artifact, TargetSubdirectory, force, deleteOtherVersions, now).Some?
    ensures fs.files == if ok then Install(old(fs.files), listing, imagejDirectory, artifact, TargetSubdirectory, force, deleteOtherVersions, now).value else old(fs.files)
    ensures artifact.kind != "jar" ==> ok && events == [] && fs.files == old(fs.files)
  {
    if artifact.kind != "jar" {
      return true, [];
    }
    var source := artifact.file;
    var sourceName := Name(source);
    var targetDirectory;
    if artifact.groupId == "ome" || IsLociBioFormats(artifact.groupId, sourceName) {
      targetDirectory := imagejDirectory + ["jars", "bio-formats"];
    } else {
      var isPlugin := DetectPlugin(fs, listing, source);
      targetDirectory := imagejDirectory + (if isPlugin then ["plugins"] else ["jars"]);
    }
    var fileName := InstalledName(artifact.artifactId, sourceName);
    assert Child(targetDirectory, fileName) == Destination(fs.files, listing, imagejDirectory, artifact, TargetSubdirectory);
    ok, events := InstallAt(fs, source, targetDirectory, fileName, force, deleteOtherVersions, now);
  }

  /** One install of a goal's loop over resolved artifacts: into `imagejDirectory`, without `force`. */
  function InstallStep(listing: JarListing, imagejDirectory: Path, deleteOtherVersions: bool, now: int): (Files, Artifact) -> Option<Files> {
    (files: Files, artifact: Artifact) => Install(files, listing, imagejDirectory, artifact, TargetSubdirectory, false, deleteOtherVersions, now)
  }

  /** A dependency as `hasIJ1Dependency` sees it. */
  datatype Dependency = Dependency(groupId: string, artifactId: string)

  /** The artifactIds of ImageJ 1.x. */
  predicate IsIJ1(artifactId: string) {
    artifactId == "ij" || artifactId == "imagej"
  }

  /** `hasIJ1Dependency`: whether some declared dependency is ImageJ 1.x. */
  method HasIJ1Dependency(dependencies: seq<Dependency>) returns (found: bool)
    ensures found <==> exists k :: 0 <= k < |dependencies| && IsIJ1(dependencies[k].artifactId)
  {
    for k := 0 to |dependencies|
      invariant forall m :: 0 <= m < k ==> !IsIJ1(dependencies[m].artifactId)
    {
      if IsIJ1(dependencies[k].artifactId) {
        return true;
      }
    }
    return false;
  }
}
