# Artifact installer of the ImageJ Maven plugin, modelled in Dafny

This project models the part of the ImageJ Maven plugin that copies Maven
artifacts into an `ImageJ.app/` directory. It also proves properties of the
model.

For each artifact, the installer does four things:

- It picks the target directory. That is `jars/bio-formats` for the Bio-Formats jars, `plugins` for ImageJ 1.x plugins, and `jars` for everything else.
- It picks the file name. `Fiji_Updater` loses its version.
- It copies the jar unless the copy already there is strictly newer.
- It looks in the target's directory for other versions of the same jar. It warns about them, or deletes them when `deleteOtherVersions` is on.

The installer exists in two revisions:

- `src/main/java/net/imagej/maven/AbstractCopyJarsMojo.java` is the current one.
- `src/main/java/imagej/maven/CopyJarsMojo.java` is the older one. It also has the `execute` that walks the dependency tree.

The two share the code for plugin detection, the file-name grammar, the scan for other versions and the copy-and-clean-up tail. That code is modelled once, in `Installer`, `PluginDetection`, `VersionPattern` and `EncroachingVersions`. The only difference between them is the placement rule: the current revision also sends every artifact of group `ome` to `jars/bio-formats`. Each revision has its own module (`AbstractCopyJars`, `LegacyCopyJars`), and a lemma relates the two rules.

The `install-artifact` goal (`src/main/java/net/imagej/maven/InstallArtifactMojo.java`) is modelled in `InstallArtifactGoal`. It checks the directory and the requested artifact, and splits a `groupId:artifactId:version` string with Java's `String.split(":")` (modelled in `Coordinates`). It then installs every resolved artifact with the current revision.

## Modules

- `FileSystems`: the file system as a map from paths to nodes. A node records whether it is a directory, its modification time and its bytes.
  - The class `FileSystem` holds that map and updates it in place through copy, delete and mkdirs.
  - Its invariant is that every proper ancestor of an existing path is an existing directory.
- `VersionPattern`: `versionPattern` as one predicate per regex fragment. `Decompose` returns the capture groups 1 and 5 that Java's backtracking matcher reports.
  - Group 1 is the shortest prefix that admits a match.
  - Group 5 is then the longest suffix; the module comment gives the argument.
- `PluginDetection`: `isIJ1Plugin`. The jar's entry list is an oracle over the file's bytes, and None stands for a jar that cannot be read.
- `EncroachingVersions`: `getEncroachingVersions`, as a set-valued function and as the method with its copying loop.
- `Installer`:
  - the shared tail of `installArtifact`: copy step, scan and clean-up loop, and the events it logs;
  - the destination and the effect of `installArtifact`, given a revision's placement rule as a parameter;
  - the fold that installs a sequence of artifacts until the first failure.
- `AbstractCopyJars`, `LegacyCopyJars`:
  - the placement rule and `installArtifact` of each revision;
  - `hasIJ1Dependency`;
  - the older revision's `execute`: property lookup, directory check, and the filter on node state and scope.
- `Coordinates`: `String.split(":")` and the coordinate class.
- `InstallArtifactGoal`: the `install-artifact` goal's `execute`.

Clocks, jar reading, property interpolation and artifact resolution are parameters of the methods that need them:

- `now`, the time a copy stamps on the files it writes;
- `listing`, the jar entry oracle;
- `directoryOf`, from the property value to the directory;
- `resolve`, the dependency resolver.

The current revision calls the installer with the `force` flag, `deleteOtherVersions` and a resolver. The install goal calls it with four arguments, an overload that is not in the current revision's file. The model calls the current revision's `installArtifact` without its resolution step, which is left out in every case.

Where the documentation and the code disagree:

- The `artifact` parameter is documented as `groupId:artifactId:version[:packaging][:classifier]`. The code rejects every string that does not split into exactly three tokens. So the four- and five-token forms are refused, and the branches that would set the coordinate's type and classifier never run. The model follows the code: `SplitFour` shows a packaging-qualified string splits into four tokens, and `Execute` promises the type and classifier are untouched.
- When only `-DartifactId` is given, without `artifact`, the goal passes its checks. It then resolves the coordinate without the groupId, artifactId and version ever being copied into it. The model keeps that behaviour.

## Model

| member | source | states |
|---|---|---|
| VersionPattern.FindSplit | src/main/java/net/imagej/maven/AbstractCopyJarsMojo.java:205-206 | for a fixed prefix, the earliest split point from which `version? suffix` matches the rest, and no earlier one does; None when no split point matches |
| VersionPattern.IsPrefixText | src/main/java/net/imagej/maven/AbstractCopyJarsMojo.java:204 | group 1, `(.+?)`: one or more characters, none of them a line terminator, so group 1 never holds a line break |
| VersionPattern.IsVersion | src/main/java/net/imagej/maven/AbstractCopyJarsMojo.java:205 | group 2: a dash, digits, one or more `.digits` or seven-digit blocks, an optional letter and digit, then qualifiers; so every version is at least three characters long and opens with a dash (`VersionOpening` adds the digit after it) |
| VersionPattern.IsJarExtension | src/main/java/net/imagej/maven/AbstractCopyJarsMojo.java:206 | `\.jar(-[a-z]*)?`: every jar extension is at least four characters long and starts with its dot |
| VersionPattern.IsSuffix | src/main/java/net/imagej/maven/AbstractCopyJarsMojo.java:206 | group 5: an optional classifier (`-swing`, `-swt`, `-sources`, `-javadoc`), then the jar extension; so every suffix is at least four characters long and starts with a dot or a dash |
| VersionPattern.Matches | src/main/java/net/imagej/maven/AbstractCopyJarsMojo.java:204-206 | the anchored pattern of `matches()` splits the name into group 1, an optional group 2 and group 5 at positions i <= j; the split always leaves at least four characters for group 5 |
| VersionPattern.IsChosenMatch | src/main/java/net/imagej/maven/AbstractCopyJarsMojo.java:204-206 | the match Java's backtracking reports: the shortest group 1, then the earliest split point; so no position inside group 1 could start a jar suffix |
| VersionPattern.FindPrefix | src/main/java/net/imagej/maven/AbstractCopyJarsMojo.java:204-206 | the lazy `(.+?)`: tries prefix lengths upwards and returns the first that admits a match, with its earliest split point |
| VersionPattern.FindPrefixShortest | src/main/java/net/imagej/maven/AbstractCopyJarsMojo.java:204-206 | no prefix shorter than the one `FindPrefix` returns admits a match, and when it returns None no prefix admits one |
| VersionPattern.Parse | src/main/java/net/imagej/maven/AbstractCopyJarsMojo.java:204-206 | `matches()` fails exactly when no prefix and split point match the whole name; otherwise the positions are the match Java reports |
| VersionPattern.Decompose | src/main/java/net/imagej/maven/AbstractCopyJarsMojo.java:211-215 | None exactly when the name does not match; otherwise groups 1 and 5 are cut from the name at Java's chosen match |
| VersionPattern.DecomposeParts | src/main/java/net/imagej/maven/AbstractCopyJarsMojo.java:207-208 | group 1 (PREFIX_INDEX) is a non-empty prefix of the name and group 5 (SUFFIX_INDEX) a suffix that is a well-formed jar suffix; the two do not overlap |
| VersionPattern.ChosenMatchUnique | src/main/java/net/imagej/maven/AbstractCopyJarsMojo.java:204-206 | at most one prefix length and split point satisfy Java's choice |
| VersionPattern.DecomposeOfChosen | src/main/java/net/imagej/maven/AbstractCopyJarsMojo.java:211-215 | any match satisfying Java's choice determines the groups |
| VersionPattern.JarExtensionUnique | src/main/java/net/imagej/maven/AbstractCopyJarsMojo.java:206 | the `.jar(-[a-z]*)?` ending can start at only one position of a name |
| VersionPattern.JarExtensionNotLater | src/main/java/net/imagej/maven/AbstractCopyJarsMojo.java:206 | once a `.jar` ending starts at some position, none starts later |
| VersionPattern.SuffixStartsAtJarOrClassifier | src/main/java/net/imagej/maven/AbstractCopyJarsMojo.java:206 | group 5 starts either at the `.jar` ending or exactly one classifier (`-swing`, `-swt`, `-sources`, `-javadoc`) before it |
| VersionPattern.JarExtensionAfter | src/main/java/net/imagej/maven/AbstractCopyJarsMojo.java:206 | a classifier followed by a jar extension ends exactly where the name's unique jar extension starts |
| VersionPattern.SuffixStartsAtClassifier | src/main/java/net/imagej/maven/AbstractCopyJarsMojo.java:206 | when a classifier stands before the jar extension, group 5 starts at that classifier or at the extension, nowhere else |
| VersionPattern.ClassifierEndingUnique | src/main/java/net/imagej/maven/AbstractCopyJarsMojo.java:206 | at most one classifier ends a given string |
| VersionPattern.NotEndingWithClassifier | src/main/java/net/imagej/maven/AbstractCopyJarsMojo.java:206 | a string whose last letter is none of the classifiers' last letters ends in no classifier |
| VersionPattern.ClassifierLastChar | src/main/java/net/imagej/maven/AbstractCopyJarsMojo.java:206 | a string that ends in a classifier ends in one of the classifiers' last letters |
| VersionPattern.ClassifierBeforeJar | src/main/java/net/imagej/maven/AbstractCopyJarsMojo.java:206 | a group 5 that starts before the `.jar` ending leaves a classifier just before it |
| VersionPattern.OnlySuffixStart | src/main/java/net/imagej/maven/AbstractCopyJarsMojo.java:206 | without a classifier before `.jar`, group 5 can only start at the `.jar` ending |
| VersionPattern.ShortVersion | src/main/java/net/imagej/maven/AbstractCopyJarsMojo.java:205 | `-a.b` is a version (group 2) for any single digits a and b, so `-1.0` and `-5.0` are |
| VersionPattern.VersionOpening | src/main/java/net/imagej/maven/AbstractCopyJarsMojo.java:205 | every version (group 2) opens with a dash followed by a digit |
| VersionPattern.VersionOneDotFortyEightP | src/main/java/net/imagej/maven/AbstractCopyJarsMojo.java:205 | `-1.48p` is a version: digits, one dotted component, a trailing letter |
| VersionPattern.NoVersionBefore | src/main/java/net/imagej/maven/AbstractCopyJarsMojo.java:204-206 | a prefix shorter than i cannot match when no dash after the first character is followed by a digit before i and position i holds no digit: the version would have to open there |
| VersionPattern.NoEarlierMatch | src/main/java/net/imagej/maven/AbstractCopyJarsMojo.java:204-206 | assume no dash after the first character of the prefix is followed by a digit, the character after the prefix is no digit, and no classifier ends before `.jar`; then no shorter prefix matches, and with that prefix no split point before `.jar` matches |
| VersionPattern.NoEarlierMatchClassified | src/main/java/net/imagej/maven/AbstractCopyJarsMojo.java:204-206 | the same, under the same conditions on the prefix, when a classifier ends before `.jar`: no shorter prefix, and no split point before the classifier, matches |
| VersionPattern.DecomposeVersionedJar | src/main/java/net/imagej/maven/AbstractCopyJarsMojo.java:204-208 | a prefix in which no dash after the first character is followed by a digit, an optional version and a `.jar` ending decompose into that prefix and that ending, provided no classifier ends just before `.jar` |
| VersionPattern.DecomposeClassifiedJar | src/main/java/net/imagej/maven/AbstractCopyJarsMojo.java:204-208 | a prefix in which no dash after the first character is followed by a digit, an optional version, a classifier and a `.jar` ending decompose into that prefix and the classifier with the ending |
| VersionPattern.DecomposePlainJar | src/main/java/net/imagej/maven/AbstractCopyJarsMojo.java:204-208 | `foo-1.0.jar` has prefix `foo` and suffix `.jar` |
| VersionPattern.DecomposeLetterVersion | src/main/java/net/imagej/maven/AbstractCopyJarsMojo.java:204-208 | `ij-1.48p.jar` has prefix `ij` and suffix `.jar` |
| VersionPattern.DecomposeDashedPrefix | src/main/java/net/imagej/maven/AbstractCopyJarsMojo.java:204-208 | `bio-formats-5.0.jar` has prefix `bio-formats` and suffix `.jar`: a dash followed by a letter stays in group 1 |
| VersionPattern.DecomposeSourcesJar | src/main/java/net/imagej/maven/AbstractCopyJarsMojo.java:204-208 | `foo-1.0-sources.jar` has prefix `foo` and suffix `-sources.jar` |
| FileSystems.Copied | src/main/java/net/imagej/maven/AbstractCopyJarsMojo.java:163 | a successful copy needs a regular source and leaves the target a regular file with the source's bytes, stamped with the copy time unless it is the source; `CopyPreservesWellFormed` adds that the rest is kept |
| FileSystems.CanDelete | src/main/java/net/imagej/maven/AbstractCopyJarsMojo.java:173 | only an existing path with nothing directly below it can be deleted; `FileSystem.Delete` removes exactly such a path |
| FileSystems.MadeDirs | src/main/java/net/imagej/maven/InstallArtifactMojo.java:154 | after a successful `mkdirs` the path is a directory and every existing node is kept as it was; `MakeDirsPreservesWellFormed` adds well-formedness |
| FileSystems.ListFiles | src/main/java/net/imagej/maven/AbstractCopyJarsMojo.java:220 | `listFiles` is null exactly for a path that is not a directory, and otherwise yields exactly the directory's entries |
| FileSystems.WithDirs | src/main/java/net/imagej/maven/AbstractCopyJarsMojo.java:163 | creating the parent directories adds exactly the missing ancestors, as fresh directories, and changes nothing that exists |
| FileSystems.CopyPreservesWellFormed | src/main/java/net/imagej/maven/AbstractCopyJarsMojo.java:163 | a successful copy keeps the file system well formed, makes the target a regular file with the source's bytes, stamped with the copy time unless it is the source itself, and leaves every other existing path as it was |
| FileSystems.DeletePreservesWellFormed | src/main/java/net/imagej/maven/AbstractCopyJarsMojo.java:173 | a successful `delete` keeps the file system well formed |
| FileSystems.DeleteKeepsSiblingDeletable | src/main/java/net/imagej/maven/AbstractCopyJarsMojo.java:168-179 | deleting one version does not change whether another version in the same directory can be deleted |
| FileSystems.MakeDirsPreservesWellFormed | src/main/java/net/imagej/maven/InstallArtifactMojo.java:154 | a successful `mkdirs` keeps the file system well formed, makes the path a directory and keeps every existing path |
| FileSystems.FileSystem.CopyFile | src/main/java/net/imagej/maven/AbstractCopyJarsMojo.java:163 | `copyFile` succeeds exactly when the model's copy does, and the new state is the copied one, or the old one on failure |
| FileSystems.FileSystem.Delete | src/main/java/net/imagej/maven/AbstractCopyJarsMojo.java:173 | `delete` succeeds exactly on an existing file or an empty directory, and removes exactly that path |
| FileSystems.FileSystem.MakeDirs | src/main/java/net/imagej/maven/InstallArtifactMojo.java:154 | `mkdirs` fails when the path exists or is below a regular file; otherwise it creates the missing directories |
| PluginDetection.IsIJ1Plugin | src/main/java/net/imagej/maven/AbstractCopyJarsMojo.java:184-202 | a plugin has an underscore in its name and exists, and a regular file that is a plugin is a `.jar` that can be read; `DetectPlugin` proves its loop computes exactly this; the older revision does the same at `CopyJarsMojo.java` lines 348–366 |
| PluginDetection.DetectPlugin | src/main/java/net/imagej/maven/AbstractCopyJarsMojo.java:184-202 | the shared spec is true only with an underscore in the name and an existing file. For a directory it holds iff the `src/main/resources/plugins.config` marker exists; for a `.jar` iff the readable jar has a `plugins.config` entry; every other case, and an unreadable jar, is not a plugin. The loop over the entries computes exactly that spec; the older revision does the same at `CopyJarsMojo.java` lines 348–366 |
| EncroachingVersions.Accepts | src/main/java/net/imagej/maven/AbstractCopyJarsMojo.java:222-228 | the `FilenameFilter` accepts a name exactly when it decomposes into the same groups 1 and 5; its `startsWith` test is implied by the group test |
| EncroachingVersions.Candidates | src/main/java/net/imagej/maven/AbstractCopyJarsMojo.java:220-229 | every candidate of the filtered listing is an existing entry of the directory whose name has the given groups; `CandidatesAreOthers` gives the whole set |
| EncroachingVersions.Encroaching | src/main/java/net/imagej/maven/AbstractCopyJarsMojo.java:210-237 | a non-null result never holds the file and holds only files of its directory with its groups; `EncroachingIsOtherVersions` shows it is exactly the other versions |
| EncroachingVersions.OtherVersions | src/main/java/net/imagej/maven/AbstractCopyJarsMojo.java:210-237 | the reference the result is proved against: the existing siblings of the file with its groups; it never holds the file or the root, and each member passes the listing's filter (`Accepts`) |
| EncroachingVersions.CandidatesAreOthers | src/main/java/net/imagej/maven/AbstractCopyJarsMojo.java:220-229 | the filtered listing is the file's other versions, plus the file itself when it exists |
| EncroachingVersions.EncroachingIsOtherVersions | src/main/java/net/imagej/maven/AbstractCopyJarsMojo.java:210-237 | the result is null on a mismatch, on a parent that is not a directory, or when there is no other version; otherwise it is exactly the set of existing siblings, other than the file, with the same groups |
| EncroachingVersions.OthersAfterRemoval | src/main/java/net/imagej/maven/AbstractCopyJarsMojo.java:229-235 | when the listing is the other versions plus the file when it exists, the size test fails exactly when there is no other version, and dropping the file leaves the other versions |
| EncroachingVersions.EncroachingAreSiblings | src/main/java/net/imagej/maven/AbstractCopyJarsMojo.java:210-237 | a non-null result comes from a matching name, is non-empty, excludes the file, and holds only existing files of the same directory with the same prefix and suffix; the older revision does the same at `CopyJarsMojo.java` lines 374–401 |
| EncroachingVersions.EncroachingSymmetric | src/main/java/net/imagej/maven/AbstractCopyJarsMojo.java:220-230 | being another version is symmetric: an existing file is in turn another version of each of its other versions |
| EncroachingVersions.GetEncroachingVersions | src/main/java/net/imagej/maven/AbstractCopyJarsMojo.java:210-237 | the method returns null exactly when the set-valued model does; otherwise it returns a list without duplicates holding exactly that set |
| EncroachingVersions.CopyOthers | src/main/java/net/imagej/maven/AbstractCopyJarsMojo.java:232-236 | the loop copies every candidate except the file itself, each once |
| Installer.InstalledName | src/main/java/net/imagej/maven/AbstractCopyJarsMojo.java:150-154 | the artifactId `Fiji_Updater` installs as `Fiji_Updater.jar` whatever its version; every other artifact keeps its source name; the older revision does the same at `CopyJarsMojo.java` lines 314–318 |
| Installer.FijiUpdaterGroups | src/main/java/net/imagej/maven/AbstractCopyJarsMojo.java:150-154 | the renamed `Fiji_Updater.jar` decomposes into prefix `Fiji_Updater` and suffix `.jar`, so versioned `Fiji_Updater` jars beside it count as its other versions |
| Installer.SkipsCopy | src/main/java/net/imagej/maven/AbstractCopyJarsMojo.java:156-157 | a skip needs `force` off and an existing target distinct from the source; `CopyStepOutcome` states the whole skip rule |
| Installer.CopyStep | src/main/java/net/imagej/maven/AbstractCopyJarsMojo.java:156-164 | a failed copy step never follows a skip, and a copy that is not skipped leaves the target a regular file with the source's bytes |
| Installer.CopyStepOutcome | src/main/java/net/imagej/maven/AbstractCopyJarsMojo.java:156-164 | the copy is skipped exactly when `force` is off, the target exists and is strictly newer than the source; otherwise a successful copy makes the target's bytes the source's, and a failed one means a missing source or a blocked target; the older revision does the same at `CopyJarsMojo.java` lines 320–328 |
| Installer.SecondInstallSkipsCopy | src/main/java/net/imagej/maven/AbstractCopyJarsMojo.java:156-164 | given a copy stamped strictly later than the source's modification time, installing the same artifact again without `force` skips the copy; the skip rests on that stamp (see the `FileUtils.copyFile` line under Left out) |
| Installer.IsLociBioFormats | src/main/java/net/imagej/maven/AbstractCopyJarsMojo.java:141-142 | the `loci` artifacts whose file is `scifio-4.4.*` or `jai_imageio-4.4.*`: group `loci` and a file name of at least eleven characters starting with `s` or `j`; the older revision tests the same at `CopyJarsMojo.java` lines 304–306 |
| Installer.ScannedVersions | src/main/java/net/imagej/maven/AbstractCopyJarsMojo.java:166-167 | a null `getEncroachingVersions` result counts as no versions, so the loop visits exactly the other versions of the target when its name matches and its directory exists, and nothing otherwise |
| Installer.CleanupEvent | src/main/java/net/imagej/maven/AbstractCopyJarsMojo.java:169-178 | one event for one visited version, naming it: a warning exactly when `deleteOtherVersions` is off; otherwise "deleted" exactly when the clean-up removes the file, and "could not delete" exactly when the file stays |
| Installer.CleanupEvents | src/main/java/net/imagej/maven/AbstractCopyJarsMojo.java:168-179 | one event per listed version, in the listing's order: the k-th event is the one for the k-th version |
| Installer.Cleaned | src/main/java/net/imagej/maven/AbstractCopyJarsMojo.java:166-180 | the clean-up only removes paths, changes no node and keeps every path that is not a listed version; `CleanupRemovesOnlyOtherVersions` says which are removed |
| Installer.Installed | src/main/java/net/imagej/maven/AbstractCopyJarsMojo.java:154-180 | the install fails exactly when its copy step does, and a successful one leaves the target existing, since the scan runs after the copy and never lists the target; `InstallChangesOnlyTarget` states what else changes |
| Installer.Destination | src/main/java/net/imagej/maven/AbstractCopyJarsMojo.java:138-154 | for the placement rule of either revision, the target is named by `InstalledName` and lies directly in the subdirectory the rule picks below the ImageJ.app/ directory; the older revision builds it the same way at `CopyJarsMojo.java` lines 302–318 |
| Installer.Install | src/main/java/net/imagej/maven/AbstractCopyJarsMojo.java:136-180 | under either placement rule, a non-jar changes nothing, only a jar's install can fail, and a successful jar install leaves its destination existing; the older revision does the same at `CopyJarsMojo.java` lines 300–344 |
| Installer.InstallKeepsWellFormed | src/main/java/net/imagej/maven/AbstractCopyJarsMojo.java:136-180 | a successful install, under either placement rule, keeps the file system well formed |
| Installer.CleanupRemovesOnlyOtherVersions | src/main/java/net/imagej/maven/AbstractCopyJarsMojo.java:166-180 | the clean-up changes no node and removes only other versions of the target, only when `deleteOtherVersions` is on, and then exactly those that can be deleted; with it off nothing changes, and the target is never removed; the older revision does the same at `CopyJarsMojo.java` lines 330–344 |
| Installer.CleanedWellFormed | src/main/java/net/imagej/maven/AbstractCopyJarsMojo.java:166-180 | removing deletable paths keeps the file system well formed |
| Installer.InstallChangesOnlyTarget | src/main/java/net/imagej/maven/AbstractCopyJarsMojo.java:154-180 | a successful install keeps the file system well formed and the target existing. Only the target and its new parent directories are added, and no other node changes. Only other versions of the target are removed, and only when `deleteOtherVersions` is on |
| Installer.DistinctLength | src/main/java/net/imagej/maven/AbstractCopyJarsMojo.java:232-236 | a list without duplicates has as many elements as its set |
| Installer.DeletionsKeepDeletable | src/main/java/net/imagej/maven/AbstractCopyJarsMojo.java:168-179 | deleting siblings does not change whether another sibling can be deleted |
| Installer.InstallAt | src/main/java/net/imagej/maven/AbstractCopyJarsMojo.java:154-180 | the copy-then-clean-up tail. It succeeds exactly when the model's install does, and its new state is the installed one. The first event reports the skip or the copy, and a failed copy logs nothing more. Otherwise one warning, deletion or failed-deletion event follows per other version, in the listing's order; the older revision does the same at `CopyJarsMojo.java` lines 318–344 |
| Installer.ScanAndCleanUp | src/main/java/net/imagej/maven/AbstractCopyJarsMojo.java:166-180 | the scan and the loop over other versions leave the cleaned state and log one event per version, in the order of the list the scan returned, which holds each scanned version once |
| Installer.ScanEnumerates | src/main/java/net/imagej/maven/AbstractCopyJarsMojo.java:166-168 | the list the scan returns (none when it is null) holds each scanned version exactly once, and every one is as deep as the target, being its sibling |
| Installer.CleanUp | src/main/java/net/imagej/maven/AbstractCopyJarsMojo.java:167-179 | the loop deletes exactly the listed versions that can be deleted (none when `deleteOtherVersions` is off) and logs events in list order |
| Installer.CleanUpOne | src/main/java/net/imagej/maven/AbstractCopyJarsMojo.java:169-178 | one turn of the loop logs a warning when `deleteOtherVersions` is off, and otherwise deletes the version exactly when it can be deleted, logging which happened; nothing else changes |
| Installer.CleanupStateStep | src/main/java/net/imagej/maven/AbstractCopyJarsMojo.java:168-179 | after each turn the file system is the start minus the deletable versions seen so far, and the turn logs what it would have logged on the start: deleting one sibling never changes whether another can be deleted |
| Installer.OneEventPerVersion | src/main/java/net/imagej/maven/AbstractCopyJarsMojo.java:168-179 | exactly one event per other version, carried in the listing's order: a warning when `deleteOtherVersions` is off, otherwise a deletion or a failed-deletion warning |
| Installer.InstallAll | src/main/java/net/imagej/maven/InstallArtifactMojo.java:199-207 | a run whose every install succeeds succeeds, and a run whose installs change nothing leaves the file system as it was; `InstallAllStopsAtFailure` and `InstallAllWellFormed` state the rest |
| Installer.InstallAllStopsAtFailure | src/main/java/net/imagej/maven/InstallArtifactMojo.java:199-207 | once an install has failed, the artifacts after it are not installed |
| Installer.InstallAllWellFormed | src/main/java/net/imagej/maven/InstallArtifactMojo.java:199-207 | a run of installs that each keep the file system well formed keeps it well formed |
| AbstractCopyJars.TargetSubdirectory | src/main/java/net/imagej/maven/AbstractCopyJarsMojo.java:140-149 | `jars/bio-formats` exactly for group `ome` or the `loci` `scifio-4.4.`/`jai_imageio-4.4.` jars; otherwise `plugins` exactly for an ImageJ 1.x plugin, and `jars` in every other case |
| AbstractCopyJars.PlacementFacts | src/main/java/net/imagej/maven/AbstractCopyJarsMojo.java:140-154 | an artifact placed in `plugins` has an underscore in its name and exists; a group-`ome` artifact always goes to `jars/bio-formats`; the target lies directly in the chosen directory |
| AbstractCopyJars.InstallArtifact | src/main/java/net/imagej/maven/AbstractCopyJarsMojo.java:136-180 | a non-jar artifact copies and deletes nothing; a jar is installed at the place the rules pick, and the new state is the one the model's install gives |
| AbstractCopyJars.HasIJ1Dependency | src/main/java/net/imagej/maven/AbstractCopyJarsMojo.java:74-82 | true exactly when some declared dependency has artifactId `ij` or `imagej` |
| LegacyCopyJars.TargetSubdirectory | src/main/java/imagej/maven/CopyJarsMojo.java:304-313 | `jars/bio-formats` exactly for the `loci` `scifio-4.4.`/`jai_imageio-4.4.` jars; otherwise `plugins` exactly for an ImageJ 1.x plugin, and `jars` in every other case |
| LegacyCopyJars.InCopiedScope | src/main/java/imagej/maven/CopyJarsMojo.java:228-230 | `test`, `provided` and `system` dependencies are never copied; `Selected` states which nodes are |
| LegacyCopyJars.PlacementAgreesExceptOme | src/main/java/imagej/maven/CopyJarsMojo.java:304-313 | the two revisions place every artifact alike except those of group `ome`, which only the current revision sends to `jars/bio-formats` |
| LegacyCopyJars.Selected | src/main/java/imagej/maven/CopyJarsMojo.java:223-230 | the artifacts installed are exactly those of included nodes with no scope, `compile` or `runtime` scope |
| LegacyCopyJars.SelectedSplits | src/main/java/imagej/maven/CopyJarsMojo.java:223-239 | selecting from the visited nodes selects from any two consecutive parts in turn |
| LegacyCopyJars.ExecuteKeepsWellFormed | src/main/java/imagej/maven/CopyJarsMojo.java:223-239 | the whole loop of `execute` keeps the file system well formed |
| LegacyCopyJars.LookUpProperty | src/main/java/imagej/maven/CopyJarsMojo.java:193-195 | the system property wins over the project property; the value is missing exactly when neither is set |
| LegacyCopyJars.CopyJarsMojo.InstallArtifact | src/main/java/imagej/maven/CopyJarsMojo.java:295-346 | a non-jar artifact copies and deletes nothing; a jar is installed at the place the older rules pick, with the model's new state |
| LegacyCopyJars.CopyJarsMojo.Execute | src/main/java/imagej/maven/CopyJarsMojo.java:186-245 | it skips without a change when the property name is missing, the property is unset or the directory is not a directory. Otherwise it installs the selected artifacts in visiting order without `force`, and a failed install ends the run as an error, with the earlier installs kept |
| LegacyCopyJars.CopyJarsMojo.InstallSelected | src/main/java/imagej/maven/CopyJarsMojo.java:223-239 | the loop over the visited nodes leaves the state and success of `InstallAll` over the selected artifacts without `force`, stopping at the first failed copy |
| LegacyCopyJars.CopyJarsMojo.InstallNode | src/main/java/imagej/maven/CopyJarsMojo.java:226-237 | a node that is not included or has another scope is passed over with no change; a selected one is installed without `force` |
| Coordinates.Split | src/main/java/net/imagej/maven/InstallArtifactMojo.java:167 | no token holds a colon, and once the string holds a colon the last token is non-empty; `SplitReconstructs`, `SplitJoin` and `ThreeTokensIff` state what the tokens are |
| Coordinates.LastColon | src/main/java/net/imagej/maven/InstallArtifactMojo.java:167 | the position of a colon with no colon after it |
| Coordinates.Fields | src/main/java/net/imagej/maven/InstallArtifactMojo.java:167 | there is always at least one field |
| Coordinates.Colons | src/main/java/net/imagej/maven/InstallArtifactMojo.java:167 | a string of exactly `n` colons |
| Coordinates.StripTrailingEmpty | src/main/java/net/imagej/maven/InstallArtifactMojo.java:167 | `split` keeps a prefix of the fields that ends in a non-empty one, dropping only empty fields |
| Coordinates.JoinFields | src/main/java/net/imagej/maven/InstallArtifactMojo.java:167 | joining the fields with colons gives the string back, and no field holds a colon |
| Coordinates.FieldsAfterColon | src/main/java/net/imagej/maven/InstallArtifactMojo.java:167 | a colon followed by colon-free text adds exactly that one field |
| Coordinates.FieldsOfJoin | src/main/java/net/imagej/maven/InstallArtifactMojo.java:167 | colon-free tokens are the fields of their colon-joined string |
| Coordinates.FieldsOfTrailingColons | src/main/java/net/imagej/maven/InstallArtifactMojo.java:167 | trailing colons add empty fields |
| Coordinates.JoinTrailingEmpty | src/main/java/net/imagej/maven/InstallArtifactMojo.java:167 | empty tokens at the end join to colons at the end |
| Coordinates.StripAppendedEmpty | src/main/java/net/imagej/maven/InstallArtifactMojo.java:167 | dropping trailing empty tokens restores tokens that end in a non-empty one |
| Coordinates.SplitJoin | src/main/java/net/imagej/maven/InstallArtifactMojo.java:167 | `split(":")` inverts joining colon-free tokens that end in a non-empty one, whatever colons follow |
| Coordinates.SplitReconstructs | src/main/java/net/imagej/maven/InstallArtifactMojo.java:167 | no token holds a colon; a colon-free string is its only token; otherwise the string is the tokens joined by colons followed by the dropped colons, and the last token is non-empty |
| Coordinates.StrippedJoin | src/main/java/net/imagej/maven/InstallArtifactMojo.java:167 | dropping the trailing empty fields keeps every token colon-free, and the fields joined are the tokens joined followed by one colon per dropped field |
| Coordinates.SplitThree | src/main/java/net/imagej/maven/InstallArtifactMojo.java:167-171 | `g:a:v` with any number of trailing colons (so `a:b:c:` too) splits into exactly the three tokens |
| Coordinates.ThreeTokensIff | src/main/java/net/imagej/maven/InstallArtifactMojo.java:167-171 | a string is accepted exactly when it is three colon-free parts, the last non-empty, joined by colons and followed by any number of colons |
| Coordinates.SplitFour | src/main/java/net/imagej/maven/InstallArtifactMojo.java:166-171 | the documented `groupId:artifactId:version:packaging` form splits into four tokens, so it is rejected |
| Coordinates.Coordinate.SetGroupId | src/main/java/net/imagej/maven/InstallArtifactMojo.java:177 | sets the groupId and nothing else |
| Coordinates.Coordinate.SetArtifactId | src/main/java/net/imagej/maven/InstallArtifactMojo.java:178 | sets the artifactId and nothing else |
| Coordinates.Coordinate.SetVersion | src/main/java/net/imagej/maven/InstallArtifactMojo.java:179 | sets the version and nothing else |
| InstallArtifactGoal.IsFailureException | src/main/java/net/imagej/maven/InstallArtifactMojo.java:148-212 | a failure exception never means completion; an unset directory and a failed resolution or download are not failure exceptions but execution exceptions |
| InstallArtifactGoal.ArtifactChecked | src/main/java/net/imagej/maven/InstallArtifactMojo.java:162-171 | passing the checks needs an `artifactId` or an `artifact`, and an `artifact` string without a colon never passes |
| InstallArtifactGoal.PreparedDirectory | src/main/java/net/imagej/maven/InstallArtifactMojo.java:153-157 | the check fails exactly when the path is not a directory and either exists or lies below a regular file; an existing directory is left alone |
| InstallArtifactGoal.PreparedDirectoryIsDirectory | src/main/java/net/imagej/maven/InstallArtifactMojo.java:153-157 | after the check the path is a directory, nothing existing is lost and the file system is well formed |
| InstallArtifactGoal.InstallArtifactMojo.Execute | src/main/java/net/imagej/maven/InstallArtifactMojo.java:148-213 | the checks run in order: an unset directory fails first and touches nothing; then the directory must exist or be made; then something must be named; then an `artifact` string must split into three tokens. On acceptance the fields and the coordinate get tokens 0, 1 and 2, and the type and classifier are never set. A failed resolution ends the run; otherwise every resolved artifact is installed without `force`, whatever `force` says, until the first failed copy |
| InstallArtifactGoal.InstallArtifactMojo.TakeTokens | src/main/java/net/imagej/maven/InstallArtifactMojo.java:174-180 | the three tokens become the groupId, artifactId and version fields and are set on the coordinate, whose other parts stay as they were |
| InstallArtifactGoal.InstallResolved | src/main/java/net/imagej/maven/InstallArtifactMojo.java:199-207 | the loop's new state and success are those of installing the resolved artifacts in order without `force`, stopping at the first failure |

## Left out

- The network and local-repository resolution step is not modelled (`resolver.resolve` at src/main/java/net/imagej/maven/AbstractCopyJarsMojo.java:134 and src/main/java/imagej/maven/CopyJarsMojo.java:298). An artifact's file is taken as already present. The install goal's `resolveDependencies` becomes the `resolve` parameter.
- `interpolate` is not modelled, because it wraps the Plexus interpolator, which is not part of this model. `execute` receives `directoryOf` instead.
- Building and visiting the dependency tree is not modelled, including the `ScopeArtifactFilter` handed to the builder. `LegacyCopyJars.CopyJarsMojo.Execute` receives the visited nodes in order.
- `src/main/java/net/imagej/maven/CopyJarsMojo.java` is not part of this model. Its only logic is the scope test already modelled by `LegacyCopyJars.Selected`.
- The older revision's own `hasIJ1Dependency` only chooses whether a log line is written, so it is not modelled. The current revision's version is modelled as `AbstractCopyJars.HasIJ1Dependency`.
- Log messages are not modelled. `InstallAt` and `CleanUp` return the events they log, without the text. `execute`'s informational messages are not modelled.
- Reading jars is not modelled. The entry list is the `listing` oracle, and any failure to read is None. No jar is opened or closed.
- `FileUtils.copyFile` is modelled by its observable effect. That library is not part of this model. The modelled effect:
  - a failure when the source is not a regular file, the target is a directory or a proper ancestor of the target is a regular file;
  - otherwise the parents are made, and the bytes are copied with the copy time `now`.
  - A failed copy changes nothing, so the model makes no parent directories before failing. The library's order of making parents and checking the target is not known.
  - One `now` stamps every copy and every directory made during a whole run. `LegacyCopyJars.CopyJarsMojo.Execute` and `InstallArtifactGoal.InstallArtifactMojo.Execute` take a single `now`, so a run's copies carry the same time.
  - Not modelled: partial writes, permissions, and copying modification times. `Installer.SecondInstallSkipsCopy` depends on this: a copy that kept the source's time would leave the two times equal, and the strict `>` would copy again.
- Directory modification times are not updated when an entry is added or removed. The only times the installer reads are those of the skip test (`AbstractCopyJarsMojo.java` line 157), and its source can be a directory: an unpackaged reactor artifact (lines 187–188). The installer adds entries only at the target and in the directories it creates above it, and removes entries only in the target's directory. Within one install it reads the source's time before it writes anything. So the dropped update could only matter when a later artifact's source is a directory that an earlier install wrote into.
- `File.delete` fails only on a missing path or a non-empty directory. Permissions and locks are not modelled.
- The absolute-path fallback of `getEncroachingVersions` (`getAbsoluteFile().getParentFile()`) has no counterpart, because every path in the model is absolute. Its `directory == null` case therefore cannot arise for a matching name.
- `listFiles` returns its entries in no specified order. `EncroachingVersions.GetEncroachingVersions` promises the set and distinctness, not an order. `Installer.InstallAt` promises one event per version in some order.
- `DefaultDependableCoordinate` belongs to a library that is not part of this model, so its initial values are not known. The coordinate starts empty in the model. `Execute`'s contract relates the final coordinate to the initial one, not to fixed defaults.
- The `packaging` parameter, the project and session fields, and the building request are not modelled, because `execute` never reads them for its checks.
- Which exception class each failure is thrown as is kept only as `InstallArtifactGoal.IsFailureException`. The messages are not kept.
- Java's `.` excludes line terminators. The model states that exclusion in `IsPrefixText` and the version and suffix fragments exclude them by construction. Java matches UTF-16 code units, while the model's characters are Unicode scalar values. So a name with a character outside the Basic Multilingual Plane counts as one character in the model and two in Java.

