/**
 * The tail of `installArtifact` that both revisions share: copy the source to
 * the target unless the target is already newer, then look for other versions
 * of the target in its directory and warn about them or delete them.
 *
 * `now` is the time the copy stamps on the files it writes.
 */
module Installer {
  import opened Wrappers
  import opened Strings
  import opened VersionPattern
  import opened FileSystems
  import opened EncroachingVersions
  import opened PluginDetection

  /** The parts of a resolved Maven artifact the installer reads; `file` is where resolution put it. */
  datatype Artifact = Artifact(groupId: string, artifactId: string, kind: string, scope: Option<string>, file: Path)

  /**
   * The `loci` jars that belong in `jars/bio-formats` in both revisions:
   * SCIFIO and JAI Image I/O of the 4.4 line, named `scifio-4.4.*` or
   * `jai_imageio-4.4.*`.
   */
  predicate IsLociBioFormats(groupId: string, sourceName: string)
    ensures IsLociBioFormats(groupId, sourceName) ==> groupId == "loci" && |sourceName| >= 11 && (sourceName[0] == 's' || sourceName[0] == 'j')
  {
    groupId == "loci" && (StartsWith(sourceName, "scifio-4.4.") || StartsWith(sourceName, "jai_imageio-4.4."))
  }

  /** The name the artifact is installed under: `Fiji_Updater` loses its version, everything else keeps its name. */
  function InstalledName(artifactId: string, sourceName: string): (name: string)
    ensures artifactId == "Fiji_Updater" ==> name == "Fiji_Updater.jar"
    ensures artifactId != "Fiji_Updater" ==> name == sourceName
  {
    if artifactId == "Fiji_Updater" then artifactId + ".jar" else sourceName
  }

  /**
   * The updater's unversioned name decomposes into prefix `Fiji_Updater` and
   * suffix `.jar`, so its versioned copies next to it are other versions.
   */
  lemma FijiUpdaterGroups(sourceName: string)
    ensures Decompose(InstalledName("Fiji_Updater", sourceName)) == Some(Groups("Fiji_Updater", ".jar"))
  {
    UpdaterNameParts(sourceName);
    UpdaterPrefix();
    NotEndingWithClassifier("Fiji_Updater" + []);
    DecomposeVersionedJar("Fiji_Updater", [], ".jar");
  }

  lemma UpdaterNameParts(sourceName: string)
    ensures InstalledName("Fiji_Updater", sourceName) == "Fiji_Updater" + [] + ".jar"
    ensures ("Fiji_Updater" + [])[|"Fiji_Updater" + []| - 1] == 'r'
  {
  }

  /** `Fiji_Updater` holds no dash at all. */
  lemma UpdaterPrefix()
    ensures IsPrefixText("Fiji_Updater") && NoVersionStart("Fiji_Updater")
  {
    var p := "Fiji_Updater";
    forall n | 1 <= n < |p| - 1 ensures p[n] != '-' { }
  }

  /** The messages the installer logs, one per decision. */
  datatype Event =
    | AlreadyThere(fileName: string)
    | Copying(fileName: string, targetDirectory: Path)
    | PossiblyIncompatible(name: string)
    | DeletedOverridden(name: string)
    | CouldNotDelete(name: string)

  /**
   * The copy is skipped when `force` is off and the target exists and is
   * strictly newer than the source; so a file is never skipped onto itself.
   */
  predicate SkipsCopy(files: Files, source: Path, target: Path, force: bool)
    ensures SkipsCopy(files, source, target, force) ==> !force && Exists(files, target) && target != source
  {
    !force && Exists(files, target) && MTime(files, target) > MTime(files, source)
  }

  /**
   * The file system after the copy step; None when the copy throws.  Only a
   * copy can throw, and a copy leaves the target a regular file with the
   * source's bytes.
   */
  function CopyStep(files: Files, source: Path, target: Path, force: bool, now: int): (r: Option<Files>)
    ensures r.None? ==> !SkipsCopy(files, source, target, force)
    ensures r.Some? && !SkipsCopy(files, source, target, force) ==>
      IsFile(files, source) && IsFile(r.value, target) && r.value[target].bytes == files[source].bytes
  {
    if SkipsCopy(files, source, target, force) then Some(files) else Copied(files, source, target, now)
  }

  /**
   * The other versions the scan finds: none when `getEncroachingVersions` is
   * null, so exactly the other versions of the target whenever its name
   * matches and its directory exists, and nothing otherwise.
   */
  function ScannedVersions(files: Files, target: Path): (r: set<Path>)
    ensures r == if Decompose(Name(target)).Some? && IsDirectory(files, Parent(target))
                 then OtherVersions(files, target, Decompose(Name(target)).value) else {}
  {
    EncroachingIsOtherVersions(files, target);
    match Encroaching(files, target)
    case None => {}
    case Some(others) => others
  }

  /**
   * What is logged for one other version, always naming it: a warning when
   * deletion is off, otherwise whether the clean-up removed it.
   */
  function CleanupEvent(files: Files, other: Path, deleteOtherVersions: bool): (r: Event)
    ensures !r.AlreadyThere? && !r.Copying? && r.name == Name(other)
    ensures r.PossiblyIncompatible? <==> !deleteOtherVersions
    ensures other in files ==> (r.DeletedOverridden? <==> other !in Cleaned(files, {other}, deleteOtherVersions))
    ensures other in files ==> (r.CouldNotDelete? <==> deleteOtherVersions && other in Cleaned(files, {other}, deleteOtherVersions))
  {
    if !deleteOtherVersions then PossiblyIncompatible(Name(other))
    else if CanDelete(files, other) then DeletedOverridden(Name(other))
    else CouldNotDelete(Name(other))
  }

  /**
   * The file system after the cleanup loop over `others`: some paths removed,
   * none changed, and every path not in `others` kept.
   */
  function Cleaned(files: Files, others: set<Path>, deleteOtherVersions: bool): (r: Files)
    ensures forall p :: p in r ==> p in files && r[p] == files[p]
    ensures forall p :: p in files && p !in others ==> p in r
  {
    if deleteOtherVersions then files - (set q | q in others && CanDelete(files, q)) else files
  }

  /**
   * The file system after installing `source` as `target`; None when the copy
   * throws.  The scan runs after the copy and never lists the target, so a
   * successful install leaves the target in place.
   */
  function Installed(files: Files, source: Path, target: Path, force: bool, deleteOtherVersions: bool, now: int): (r: Option<Files>)
    ensures r.None? <==> CopyStep(files, source, target, force, now).None?
    ensures r.Some? ==> Exists(r.value, target)
  {
    match CopyStep(files, source, target, force, now)
    case None => None
    case Some(copied) => Some(Cleaned(copied, ScannedVersions(copied, target), deleteOtherVersions))
  }

  /**
   * A revision's placement rule: the directory below the ImageJ.app/
   * directory for an artifact's group, its source file's name and whether
   * that file is an ImageJ 1.x plugin.
   */
  type Placement = (string, string, bool) -> Path

  /** Where `installArtifact` copies the artifact's file: under the installed name, in the subdirectory `place` picks. */
  function Destination(files: Files, listing: JarListing, imagejDirectory: Path, artifact: Artifact, place: Placement): (target: Path)
    ensures target != [] && Name(target) == InstalledName(artifact.artifactId, Name(artifact.file))
    ensures Parent(target) == imagejDirectory + place(artifact.groupId, Name(artifact.file), IsIJ1Plugin(files, listing, artifact.file))
  {
    var sourceName := Name(artifact.file);
    var dir := imagejDirectory + place(artifact.groupId, sourceName, IsIJ1Plugin(files, listing, artifact.file));
    Child(dir, InstalledName(artifact.artifactId, sourceName))
  }

  /**
   * The file system after `installArtifact` with the placement rule `place`;
   * None when it throws, which only a jar's copy can do.  A non-jar changes
   * nothing, and a successful install leaves the destination in place.
   */
  function Install(files: Files, listing: JarListing, imagejDirectory: Path, artifact: Artifact, place: Placement,
                   force: bool, deleteOtherVersions: bool, now: int): (r: Option<Files>)
    ensures artifact.kind != "jar" ==> r == Some(files)
    ensures r.None? ==> artifact.kind == "jar"
    ensures r.Some? && artifact.kind == "jar" ==> Exists(r.value, Destination(files, listing, imagejDirectory, artifact, place))
  {
    if artifact.kind != "jar" then Some(files)
    else Installed(files, artifact.file, Destination(files, listing, imagejDirectory, artifact, place), force, deleteOtherVersions, now)
  }

  /** A successful install, under either placement rule, keeps the file system well formed. */
  lemma InstallKeepsWellFormed(files: Files, listing: JarListing, imagejDirectory: Path, artifact: Artifact, place: Placement,
                               force: bool, deleteOtherVersions: bool, now: int)
    requires WellFormed(files)
    requires Install(files, listing, imagejDirectory, artifact, place, force, deleteOtherVersions, now).Some?
    ensures WellFormed(Install(files, listing, imagejDirectory, artifact, place, force, deleteOtherVersions, now).value)
  {
    if artifact.kind == "jar" {
      InstallChangesOnlyTarget(files, artifact.file, Destination(files, listing, imagejDirectory, artifact, place), force, deleteOtherVersions, now);
    }
  }

  /** Skipped exactly as `SkipsCopy` says; otherwise the target holds the source's bytes (so equal timestamps copy). */
  lemma CopyStepOutcome(files: Files, source: Path, target: Path, force: bool, now: int)
    requires WellFormed(files)
    ensures SkipsCopy(files, source, target, force) ==> CopyStep(files, source, target, force, now) == Some(files)
    ensures !SkipsCopy(files, source, target, force) && CopyStep(files, source, target, force, now).Some? ==>
      var copied := CopyStep(files, source, target, force, now).value;
      && WellFormed(copied)
      && IsFile(copied, target) && copied[target].bytes == files[source].bytes
      && (source != target ==> MTime(copied, target) == now)
    ensures !SkipsCopy(files, source, target, force) && CopyStep(files, source, target, force, now).None? ==>
      !IsFile(files, source) || (source != target && (IsDirectory(files, target) || BlockedByFile(files, target)))
  {
    if !SkipsCopy(files, source, target, force) && Copied(files, source, target, now).Some? {
      CopyPreservesWellFormed(files, source, target, now);
    }
  }

  /**
   * The cleanup removes nothing but other versions of the target, and only
   * when `deleteOtherVersions` is on; it removes each of them that can be
   * deleted, leaves the rest, and keeps the target.
   */
  lemma CleanupRemovesOnlyOtherVersions(copied: Files, target: Path, deleteOtherVersions: bool)
    ensures var after := Cleaned(copied, ScannedVersions(copied, target), deleteOtherVersions);
      && (forall p :: p in after ==> p in copied && after[p] == copied[p])
      && (forall p :: p in copied && p !in after ==>
            && deleteOtherVersions && p != target && Parent(p) == Parent(target)
            && Decompose(Name(p)) == Decompose(Name(target)))
      && (deleteOtherVersions ==> forall q :: q in ScannedVersions(copied, target) ==> (q in after <==> !CanDelete(copied, q)))
      && (!deleteOtherVersions ==> after == copied)
      && (target in copied ==> target in after)
  {
    if Encroaching(copied, target).Some? {
      EncroachingAreSiblings(copied, target);
    }
  }

  /**
   * Installing again without `force` skips the copy once the first install has
   * copied, given a copy stamped strictly later than the source's modification
   * time (`now > MTime(files, source)`); the cleanup cannot touch a source
   * that lives in another directory.  The skip rests on that stamp: a copy
   * that kept the source's modification time would leave the two times equal,
   * and the strict `>` of the skip test would copy again.
   */
  lemma SecondInstallSkipsCopy(files: Files, source: Path, target: Path, deleteOtherVersions: bool, now: int)
    requires WellFormed(files)
    requires !SkipsCopy(files, source, target, false)
    requires Installed(files, source, target, false, deleteOtherVersions, now).Some?
    requires source != target && Parent(source) != Parent(target) && now > MTime(files, source)
    ensures var after := Installed(files, source, target, false, deleteOtherVersions, now).value;
      && SkipsCopy(after, source, target, false)
      && CopyStep(after, source, target, false, now) == Some(after)
  {
    CopyStepOutcome(files, source, target, false, now);
    var copied := CopyStep(files, source, target, false, now).value;
    CopyPreservesWellFormed(files, source, target, now);
    assert MTime(copied, source) == MTime(files, source);
    CleanupRemovesOnlyOtherVersions(copied, target, deleteOtherVersions);
  }

  /** Deleting any set of paths that could each be deleted keeps the file system well formed. */
  lemma CleanedWellFormed(files: Files, others: set<Path>, deleteOtherVersions: bool)
    requires WellFormed(files)
    ensures WellFormed(Cleaned(files, others, deleteOtherVersions))
  {
    var after := Cleaned(files, others, deleteOtherVersions);
    forall q, n | q in after && 0 < n < |q| ensures q[..n] in after && after[q[..n]].isDirectory {
      assert q in files && q[..n] in files;
      assert IsAncestor(q[..n], q);
    }
  }

  /**
   * A successful install keeps the file system well formed and changes
   * nothing but the target and the directories made above it, plus the
   * deletion of other versions of the target when `deleteOtherVersions` is on.
   */
  lemma InstallChangesOnlyTarget(files: Files, source: Path, target: Path, force: bool, deleteOtherVersions: bool, now: int)
    requires WellFormed(files)
    requires Installed(files, source, target, force, deleteOtherVersions, now).Some?
    ensures var after := Installed(files, source, target, force, deleteOtherVersions, now).value;
      && WellFormed(after)
      && Exists(after, target)
      && (forall p :: p in files && p != target && p in after ==> after[p] == files[p])
      && (forall p :: p in after && p !in files ==> p == target || IsAncestor(p, target))
      && (forall p :: p in files && p !in after ==>
            && deleteOtherVersions && p != target && Parent(p) == Parent(target)
            && Decompose(Name(p)) == Decompose(Name(target)))
  {
    CopyStepOutcome(files, source, target, force, now);
    var copied := CopyStep(files, source, target, force, now).value;
    CopyAddsOnlyTarget(files, source, target, force, now);
    CleanupRemovesOnlyOtherVersions(copied, target, deleteOtherVersions);
    CleanedWellFormed(copied, ScannedVersions(copied, target), deleteOtherVersions);
  }

  /** The copy step adds nothing but the target and the directories made above it. */
  lemma CopyAddsOnlyTarget(files: Files, source: Path, target: Path, force: bool, now: int)
    requires WellFormed(files)
    requires CopyStep(files, source, target, force, now).Some?
    ensures forall p :: p in CopyStep(files, source, target, force, now).value && p !in files ==> p == target || IsAncestor(p, target)
  {
    CopyStepOutcome(files, source, target, force, now);
    var copied := CopyStep(files, source, target, force, now).value;
    if !SkipsCopy(files, source, target, force) && source != target {
      CopyPreservesWellFormed(files, source, target, now);
      forall p | p in copied && p !in files ensures p == target || IsAncestor(p, target) {
        if p != target {
          assert target != [];
          assert Parent(target)[..|p|] == target[..|p|];
        }
      }
    }
  }

  /** A sequence without repetitions is as long as the set of its elements. */
  lemma {:induction false} DistinctLength(s: seq<Path>)
    requires forall m, n :: 0 <= m < n < |s| ==> s[m] != s[n]
    ensures |set q | q in s| == |s|
  {
    if s != [] {
      var last := s[|s| - 1];
      var init := s[..|s| - 1];
      DistinctLength(init);
      assert (set q | q in s) == (set q | q in init) + {last};
      assert last !in init;
    }
  }

  /** Deleting paths of another length, or of the same length but different, keeps a path deletable or not. */
  lemma DeletionsKeepDeletable(files: Files, removed: set<Path>, q: Path)
    requires q !in removed && forall d :: d in removed ==> |d| == |q|
    ensures CanDelete(files - removed, q) == CanDelete(files, q)
  {
    if CanDelete(files - removed, q) {
      forall x | x in files ensures !IsAncestor(q, x) {
        if x !in removed {
          assert x in files - removed;
        }
      }
    }
  }

  /**
   * The shared tail of `installArtifact`: copy `source` to
   * `targetDirectory`/`fileName` unless the copy is skipped, then warn about
   * or delete each other version of the target.  `ok` is false when the copy
   * throws; nothing after it then runs.
   */
  method InstallAt(fs: FileSystem, source: Path, targetDirectory: Path, fileName: string,
                   force: bool, deleteOtherVersions: bool, now: int)
    returns (ok: bool, events: seq<Event>)
    requires fs.Valid()
    modifies fs
    ensures fs.Valid()
    ensures var target := Child(targetDirectory, fileName);
      && ok == Installed(old(fs.files), source, target, force, deleteOtherVersions, now).Some?
      && fs.files == (if ok then Installed(old(fs.files), source, target, force, deleteOtherVersions, now).value else old(fs.files))
      && |events| >= 1
      && events[0] == (if SkipsCopy(old(fs.files), source, target, force) then AlreadyThere(fileName) else Copying(fileName, targetDirectory))
      && (!ok ==> |events| == 1)
      && (ok ==>
            var copied := CopyStep(old(fs.files), source, target, force, now).value;
            var others := ScannedVersions(copied, target);
            exists order :: Enumerates(order, others) && events == [events[0]] + CleanupEvents(copied, order, deleteOtherVersions))
  {
    var target := Child(targetDirectory, fileName);
    if SkipsCopy(fs.files, source, target, force) {
      events := [AlreadyThere(fileName)];
    } else {
      events := [Copying(fileName, targetDirectory)];
      var copiedOk := fs.CopyFile(source, target, now);
      if !copiedOk {
        return false, events;
      }
    }
    ok := true;
    ghost var copied := fs.files;
    assert CopyStep(old(fs.files), source, target, force, now) == Some(copied);
    var order, cleanupEvents := ScanAndCleanUp(fs, target, deleteOtherVersions);
    events := events + cleanupEvents;
  }

  /**
   * The scan after the copy: find the other versions of `target` and run the
   * cleanup loop over them, in the order the scan lists them.
   */
  method ScanAndCleanUp(fs: FileSystem, target: Path, deleteOtherVersions: bool) returns (order: seq<Path>, events: seq<Event>)
    requires fs.Valid() && target != []
    modifies fs
    ensures fs.Valid()
    ensures var others := ScannedVersions(old(fs.files), target);
      && fs.files == Cleaned(old(fs.files), others, deleteOtherVersions)
      && Enumerates(order, others) && events == CleanupEvents(old(fs.files), order, deleteOtherVersions)
  {
    var otherVersions := GetEncroachingVersions(fs, target);
    ghost var others := ScannedVersions(fs.files, target);
    ScanEnumerates(fs.files, target, otherVersions);
    order := if otherVersions.Some? then otherVersions.value else [];
    events := CleanUp(fs, order, others, deleteOtherVersions);
  }

  /**
   * What the scan returns lists the scanned versions once each, and they are
   * siblings of the target, so their paths are as long as its path.
   */
  lemma ScanEnumerates(files: Files, target: Path, r: Option<seq<Path>>)
    requires target != []
    requires r.None? <==> Encroaching(files, target).None?
    requires r.Some? ==> forall q :: q in r.value <==> q in Encroaching(files, target).value
    requires r.Some? ==> forall m, n :: 0 <= m < n < |r.value| ==> r.value[m] != r.value[n]
    ensures var order := if r.Some? then r.value else [];
      && Enumerates(order, ScannedVersions(files, target))
      && forall q :: q in order ==> |q| == |target|
  {
    if Encroaching(files, target).Some? {
      EncroachingAreSiblings(files, target);
    }
  }

  /** `order` lists every element of `s` exactly once. */
  ghost predicate Enumerates(order: seq<Path>, s: set<Path>) {
    && (forall m, n :: 0 <= m < n < |order| ==> order[m] != order[n])
    && (forall q :: q in order <==> q in s)
  }

  /**
   * The loop over the other versions: warn about each, or delete each and
   * log whether that worked.  The versions are distinct paths of one length
   * (siblings), so deleting one never changes whether another can be deleted.
   */
  method CleanUp(fs: FileSystem, order: seq<Path>, ghost others: set<Path>, deleteOtherVersions: bool) returns (events: seq<Event>)
    requires fs.Valid()
    requires Enumerates(order, others)
    requires forall m, n :: 0 <= m < |order| && 0 <= n < |order| ==> |order[m]| == |order[n]|
    modifies fs
    ensures fs.Valid()
    ensures fs.files == Cleaned(old(fs.files), others, deleteOtherVersions)
    ensures events == CleanupEvents(old(fs.files), order, deleteOtherVersions)
  {
    ghost var start := fs.files;
    events := [];
    var i := 0;
    while i < |order|
      invariant 0 <= i <= |order|
      invariant fs.Valid()
      invariant fs.files == if deleteOtherVersions then start - DeletableAmong(start, order[..i]) else start
      invariant events == CleanupEvents(start, order[..i], deleteOtherVersions)
    {
      ghost var before := fs.files;
      var event := CleanUpOne(fs, order[i], deleteOtherVersions);
      CleanupStateStep(start, order, i, deleteOtherVersions, before, fs.files);
      CleanupEventsStep(start, order, i, deleteOtherVersions);
      events := events + [event];
      i := i + 1;
    }
    assert order[..i] == order;
    CleanedByEnumeration(start, order, others, deleteOtherVersions);
  }

  /** The cleanup over an enumeration of a set removes what the set's cleanup removes. */
  lemma CleanedByEnumeration(files: Files, order: seq<Path>, others: set<Path>, deleteOtherVersions: bool)
    requires forall q :: q in order <==> q in others
    ensures Cleaned(files, others, deleteOtherVersions)
      == if deleteOtherVersions then files - DeletableAmong(files, order) else files
  {
    assert DeletableAmong(files, order) == set q | q in others && CanDelete(files, q);
  }

  /** One turn of the cleanup loop: warn about `other`, or try to delete it and log whether that worked. */
  method CleanUpOne(fs: FileSystem, other: Path, deleteOtherVersions: bool) returns (event: Event)
    requires fs.Valid()
    modifies fs
    ensures fs.Valid()
    ensures event == CleanupEvent(old(fs.files), other, deleteOtherVersions)
    ensures fs.files == if deleteOtherVersions && CanDelete(old(fs.files), other) then old(fs.files) - {other} else old(fs.files)
  {
    if !deleteOtherVersions {
      event := PossiblyIncompatible(Name(other));
    } else {
      var deleted := fs.Delete(other);
      event := if deleted then DeletedOverridden(Name(other)) else CouldNotDelete(Name(other));
    }
  }

  /**
   * One turn of the cleanup loop keeps the file system equal to the start
   * minus the deletable versions seen so far, and logs what it would have
   * logged on the start.
   */
  lemma CleanupStateStep(start: Files, order: seq<Path>, i: nat, deleteOtherVersions: bool, before: Files, after: Files)
    requires i < |order|
    requires forall m, n :: 0 <= m < n < |order| ==> order[m] != order[n]
    requires forall m, n :: 0 <= m < |order| && 0 <= n < |order| ==> |order[m]| == |order[n]|
    requires before == if deleteOtherVersions then start - DeletableAmong(start, order[..i]) else start
    requires after == if deleteOtherVersions && CanDelete(before, order[i]) then before - {order[i]} else before
    ensures after == if deleteOtherVersions then start - DeletableAmong(start, order[..i + 1]) else start
    ensures CleanupEvent(before, order[i], deleteOtherVersions) == CleanupEvent(start, order[i], deleteOtherVersions)
  {
    if deleteOtherVersions {
      DeletableStep(start, order, i);
      DeletionsKeepDeletable(start, DeletableAmong(start, order[..i]), order[i]);
    }
  }

  /** The elements of `order` that can be deleted from `files`. */
  function DeletableAmong(files: Files, order: seq<Path>): (r: set<Path>)
    ensures forall q :: q in r <==> q in order && CanDelete(files, q)
  {
    set q | q in order && CanDelete(files, q)
  }

  /** One more element of a list of distinct siblings is deletable or not on its own. */
  lemma DeletableStep(files: Files, order: seq<Path>, i: nat)
    requires i < |order|
    requires forall m, n :: 0 <= m < n < |order| ==> order[m] != order[n]
    requires forall m, n :: 0 <= m < |order| && 0 <= n < |order| ==> |order[m]| == |order[n]|
    ensures order[i] !in DeletableAmong(files, order[..i])
    ensures forall d :: d in DeletableAmong(files, order[..i]) ==> |d| == |order[i]|
    ensures CanDelete(files, order[i]) ==>
      files - DeletableAmong(files, order[..i + 1]) == (files - DeletableAmong(files, order[..i])) - {order[i]}
    ensures !CanDelete(files, order[i]) ==>
      files - DeletableAmong(files, order[..i + 1]) == files - DeletableAmong(files, order[..i])
  {
    assert order[..i + 1] == order[..i] + [order[i]];
  }

  /** The loop's events for one more element. */
  lemma CleanupEventsStep(files: Files, order: seq<Path>, i: nat, deleteOtherVersions: bool)
    requires i < |order|
    ensures CleanupEvents(files, order[..i + 1], deleteOtherVersions)
      == CleanupEvents(files, order[..i], deleteOtherVersions) + [CleanupEvent(files, order[i], deleteOtherVersions)]
  {
    assert order[..i + 1][..i] == order[..i];
  }

  /** The events the cleanup loop logs for `order`, in order: the k-th is about the k-th version. */
  function CleanupEvents(files: Files, order: seq<Path>, deleteOtherVersions: bool): (r: seq<Event>)
    ensures |r| == |order|
    ensures forall k :: 0 <= k < |order| ==> r[k] == CleanupEvent(files, order[k], deleteOtherVersions)
  {
    if order == [] then []
    else CleanupEvents(files, order[..|order| - 1], deleteOtherVersions) + [CleanupEvent(files, order[|order| - 1], deleteOtherVersions)]
  }

  /**
   * One event per other version: for an enumeration of the versions, the loop
   * logs as many events as there are versions, and each version's event.
   */
  lemma OneEventPerVersion(files: Files, order: seq<Path>, others: set<Path>, deleteOtherVersions: bool)
    requires Enumerates(order, others)
    ensures var events := CleanupEvents(files, order, deleteOtherVersions);
      && |events| == |order| == |others|
      && (forall q :: q in others ==> CleanupEvent(files, q, deleteOtherVersions) in events)
      && (forall k :: 0 <= k < |events| ==> order[k] in others && events[k] == CleanupEvent(files, order[k], deleteOtherVersions))
  {
    DistinctLength(order);
    assert (set q | q in order) == others;
    var events := CleanupEvents(files, order, deleteOtherVersions);
    forall q | q in others
      ensures CleanupEvent(files, q, deleteOtherVersions) in events
    {
      var k :| 0 <= k < |order| && order[k] == q;
      assert events[k] == CleanupEvent(files, q, deleteOtherVersions);
    }
  }

  /** An install step that never throws. */
  ghost predicate NeverFails(install: (Files, Artifact) -> Option<Files>) {
    forall f, a :: install(f, a).Some?
  }

  /** An install step that succeeds and changes nothing, as for a run of non-jar artifacts. */
  ghost predicate ChangesNothing(install: (Files, Artifact) -> Option<Files>) {
    forall f, a :: install(f, a) == Some(f)
  }

  /**
   * The file system after installing `artifacts` one after another with
   * `install`, and whether every install succeeded; the first failure ends
   * the run with the earlier installs already done.
   */
  function InstallAll(files: Files, artifacts: seq<Artifact>, install: (Files, Artifact) -> Option<Files>): (r: (Files, bool))
    ensures NeverFails(install) ==> r.1
    ensures ChangesNothing(install) ==> r == (files, true)
  {
    if artifacts == [] then (files, true)
    else
      var (before, ok) := InstallAll(files, artifacts[..|artifacts| - 1], install);
      if !ok then (before, false)
      else match install(before, artifacts[|artifacts| - 1])
        case None => (before, false)
        case Some(after) => (after, true)
  }

  /** After a run that succeeded so far, one more artifact gives that install's outcome. */
  lemma InstallAllSnoc(files: Files, done: seq<Artifact>, a: Artifact, install: (Files, Artifact) -> Option<Files>)
    requires InstallAll(files, done, install).1
    ensures var before := InstallAll(files, done, install).0;
      InstallAll(files, done + [a], install) == if install(before, a).Some? then (install(before, a).value, true) else (before, false)
  {
    assert (done + [a])[..|done + [a]| - 1] == done;
  }

  /** The same, for the run over the first `k + 1` artifacts of a list. */
  lemma InstallAllNext(files: Files, artifacts: seq<Artifact>, k: nat, install: (Files, Artifact) -> Option<Files>)
    requires k < |artifacts| && InstallAll(files, artifacts[..k], install).1
    ensures var before := InstallAll(files, artifacts[..k], install).0;
      InstallAll(files, artifacts[..k + 1], install) ==
        if install(before, artifacts[k]).Some? then (install(before, artifacts[k]).value, true) else (before, false)
  {
    assert artifacts[..k + 1][..k] == artifacts[..k];
  }

  /** After a failed install, later artifacts change nothing. */
  lemma {:induction false} InstallAllStopsAtFailure(files: Files, done: seq<Artifact>, rest: seq<Artifact>,
                                                   install: (Files, Artifact) -> Option<Files>)
    requires !InstallAll(files, done, install).1
    ensures InstallAll(files, done + rest, install) == InstallAll(files, done, install)
    decreases |rest|
  {
    if rest == [] {
      assert done + rest == done;
    } else {
      var init := rest[..|rest| - 1];
      InstallAllStopsAtFailure(files, done, init, install);
      assert (done + rest)[..|done + rest| - 1] == done + init;
    }
  }

  /** The same, for a list whose first `k` artifacts already ended the run. */
  lemma InstallAllStopsAt(files: Files, artifacts: seq<Artifact>, k: nat, install: (Files, Artifact) -> Option<Files>)
    requires k <= |artifacts| && !InstallAll(files, artifacts[..k], install).1
    ensures InstallAll(files, artifacts, install) == InstallAll(files, artifacts[..k], install)
  {
    InstallAllStopsAtFailure(files, artifacts[..k], artifacts[k..], install);
    assert artifacts[..k] + artifacts[k..] == artifacts;
  }

  /** When every single install keeps the file system well formed, so does the whole run. */
  lemma {:induction false} InstallAllWellFormed(files: Files, artifacts: seq<Artifact>, install: (Files, Artifact) -> Option<Files>)
    requires WellFormed(files)
    requires forall f, a :: WellFormed(f) && install(f, a).Some? ==> WellFormed(install(f, a).value)
    ensures WellFormed(InstallAll(files, artifacts, install).0)
    decreases |artifacts|
  {
    if artifacts != [] {
      InstallAllWellFormed(files, artifacts[..|artifacts| - 1], install);
    }
  }
}
