/**
 * `isIJ1Plugin`: whether a file is an ImageJ 1.x plugin.  A candidate needs an
 * underscore in its name and must exist; a directory is a plugin when it holds
 * the `src/main/resources/plugins.config` marker, a `.jar` when one of its
 * entries is named `plugins.config`.  Reading the jar is an oracle: `listing`
 * gives the entry names of the jar with the given bytes, or None when the jar
 * cannot be opened or read, which Java's catch-all turns into "not a plugin".
 */
module PluginDetection {
  import opened Wrappers
  import opened Strings
  import opened FileSystems

  type JarListing = seq<bv8> -> Option<seq<string>>

  const PluginsConfig: string := "plugins.config"

  /** `src/main/resources/plugins.config`, relative to a plugin's source directory. */
  const Marker: Path := ["src", "main", "resources", PluginsConfig]

  /**
   * What `isIJ1Plugin(file)` returns.  Only an existing file or directory with
   * an underscore in its name can be a plugin, and a regular file only when
   * its name ends in `.jar` and its jar can be read.
   */
  predicate IsIJ1Plugin(files: Files, listing: JarListing, file: Path)
    ensures IsIJ1Plugin(files, listing, file) ==> '_' in Name(file) && Exists(files, file)
    ensures IsIJ1Plugin(files, listing, file) && IsFile(files, file) ==>
      EndsWith(Name(file), ".jar") && listing(files[file].bytes).Some?
  {
    && '_' in Name(file)
    && Exists(files, file)
    && if IsDirectory(files, file) then Exists(files, file + Marker)
       else
         && EndsWith(Name(file), ".jar")
         && match listing(files[file].bytes)
            case None => false
            case Some(entries) => PluginsConfig in entries
  }

  /** `isIJ1Plugin`, scanning the jar's entries one by one as the source does. */
  method DetectPlugin(fs: FileSystem, listing: JarListing, file: Path) returns (isPlugin: bool)
    ensures isPlugin == IsIJ1Plugin(fs.files, listing, file)
  {
    var name := Name(file);
    if '_' !in name || !Exists(fs.files, file) {
      return false;
    }
    if IsDirectory(fs.files, file) {
      return Exists(fs.files, file + Marker);
    }
    if EndsWith(name, ".jar") {
      var jar := listing(fs.files[file].bytes);
      if jar.Some? {
        var entries := jar.value;
        var i := 0;
        while i < |entries|
          invariant 0 <= i <= |entries|
          invariant PluginsConfig !in entries[..i]
        {
          if entries[i] == PluginsConfig {
            return true;
          }
          i := i + 1;
        }
        assert entries[..i] == entries;
      }
    }
    return false;
  }
}
