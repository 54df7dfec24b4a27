/**
 * `getEncroachingVersions`: the other versions of a file that sit next to it.
 *
 * The file's name is decomposed by `versionPattern`; the entries of its parent
 * directory whose names have the same prefix (group 1) and suffix (group 5)
 * are the candidates.  The result is null (None) when the name does not match,
 * when the parent cannot be listed, or when the candidates are exactly the
 * file itself (or nothing, when the file does not exist); otherwise it is the
 * candidates other than the file.
 */
module EncroachingVersions {
  import opened Wrappers
  import opened Strings
  import opened VersionPattern
  import opened FileSystems

  /**
   * The `FilenameFilter` passed to `listFiles`: it accepts exactly the names
   * that decompose into the same groups, its `startsWith` test being implied.
   */
  predicate Accepts(g: Groups, name: string)
    ensures Accepts(g, name) <==> Decompose(name) == Some(g)
  {
    StartsWith(name, g.prefix) && Decompose(name) == Some(Groups(g.prefix, g.suffix))
  }

  /** The candidates the filtered listing of `dir` returns: existing entries of `dir` with the groups `g`. */
  function Candidates(files: Files, dir: Path, g: Groups): (r: set<Path>)
    requires IsDirectory(files, dir)
    ensures forall p :: p in r ==> p in files && p != [] && Parent(p) == dir && Decompose(Name(p)) == Some(g)
  {
    set p | p in ListFiles(files, dir).value && Accepts(g, Name(p))
  }

  /** What `getEncroachingVersions(file)` returns, as a set: siblings with the file's groups, never the file itself. */
  function Encroaching(files: Files, file: Path): (r: Option<set<Path>>)
    ensures r.Some? ==> file !in r.value
    ensures r.Some? ==> forall q :: q in r.value ==> Parent(q) == Parent(file) && Decompose(Name(q)) == Decompose(Name(file))
  {
    match Decompose(Name(file))
    case None => None
    case Some(g) =>
      var dir := Parent(file);
      if !IsDirectory(files, dir) then None
      else
        var candidates := Candidates(files, dir, g);
        if |candidates| == (if Exists(files, file) then 1 else 0) then None
        else Some(candidates - {file})
  }

  /**
   * The other versions of `file`: existing siblings whose names decompose to
   * the same groups.  This is the reference `Encroaching` is proved against;
   * each of them passes the listing's filter.
   */
  function OtherVersions(files: Files, file: Path, g: Groups): (r: set<Path>)
    ensures file !in r && [] !in r
    ensures forall q :: q in r ==> q in files && Parent(q) == Parent(file) && Accepts(g, Name(q))
  {
    set q | q in files && q != file && q != [] && Parent(q) == Parent(file) && Decompose(Name(q)) == Some(g)
  }

  /**
   * `getEncroachingVersions` is null exactly when the name does not match,
   * when the parent is not a directory, or when there is no other version;
   * otherwise it is the set of all other versions.
   */
  lemma EncroachingIsOtherVersions(files: Files, file: Path)
    ensures Encroaching(files, file) ==
      match Decompose(Name(file))
      case None => None
      case Some(g) =>
        if !IsDirectory(files, Parent(file)) then None
        else
          var others := OtherVersions(files, file, g);
          if others == {} then None else Some(others)
  {
    match Decompose(Name(file))
    case None =>
    case Some(g) =>
      if IsDirectory(files, Parent(file)) {
        var candidates := Candidates(files, Parent(file), g);
        var others := OtherVersions(files, file, g);
        CandidatesAreOthers(files, file, g);
        assert file != [] by {
          DecomposeParts(Name(file));
        }
        OthersAfterRemoval(candidates, others, file, file in files);
      }
  }

  /** Listing the file with its other versions, then removing it, leaves the other versions. */
  lemma OthersAfterRemoval(candidates: set<Path>, others: set<Path>, file: Path, present: bool)
    requires file !in others
    requires candidates == others + (if present then {file} else {})
    ensures |candidates| == (if present then 1 else 0) <==> others == {}
    ensures candidates - {file} == others
  {
    if present {
      assert |candidates| == |others| + 1;
    }
  }

  /** The filtered listing holds the other versions, and the file itself when it exists. */
  lemma CandidatesAreOthers(files: Files, file: Path, g: Groups)
    requires Decompose(Name(file)) == Some(g) && IsDirectory(files, Parent(file))
    ensures Candidates(files, Parent(file), g) == OtherVersions(files, file, g) + (if file in files then {file} else {})
  {
    var candidates := Candidates(files, Parent(file), g);
    var expected := OtherVersions(files, file, g) + (if file in files then {file} else {});
    forall q | q in candidates ensures q in expected {
      CandidateIsOther(files, file, g, q);
    }
    forall q | q in expected ensures q in candidates {
      SiblingIsCandidate(files, file, g, q);
    }
    SameElements(candidates, expected);
  }

  lemma SameElements(a: set<Path>, b: set<Path>)
    requires forall q :: q in a ==> q in b
    requires forall q :: q in b ==> q in a
    ensures a == b
  {
  }

  lemma CandidateIsOther(files: Files, file: Path, g: Groups, q: Path)
    requires IsDirectory(files, Parent(file)) && q in Candidates(files, Parent(file), g)
    ensures q in OtherVersions(files, file, g) + (if file in files then {file} else {})
  {
  }

  lemma SiblingIsCandidate(files: Files, file: Path, g: Groups, q: Path)
    requires Decompose(Name(file)) == Some(g) && IsDirectory(files, Parent(file))
    requires q in OtherVersions(files, file, g) || (q == file && q in files)
    ensures q in Candidates(files, Parent(file), g)
  {
    assert file != [] by {
      DecomposeParts(Name(file));
    }
    assert q in ListFiles(files, Parent(file)).value && Accepts(g, Name(q));
  }

  /** Every other version lies in the same directory, has the same groups, exists and is not the file itself. */
  lemma EncroachingAreSiblings(files: Files, file: Path)
    requires Encroaching(files, file).Some?
    ensures Decompose(Name(file)).Some?
    ensures var others := Encroaching(files, file).value;
      && others != {}
      && file !in others
      && forall q :: q in others ==>
           && q in files && q != [] && Parent(q) == Parent(file)
           && Decompose(Name(q)) == Decompose(Name(file))
  {
    EncroachingIsOtherVersions(files, file);
  }

  /** Being another version is symmetric: the file is in turn another version of each of them. */
  lemma EncroachingSymmetric(files: Files, file: Path, q: Path)
    requires file in files
    requires Encroaching(files, file).Some? && q in Encroaching(files, file).value
    ensures Encroaching(files, q).Some? && file in Encroaching(files, q).value
  {
    EncroachingIsOtherVersions(files, file);
    EncroachingIsOtherVersions(files, q);
    assert file != [] by {
      assert |Name(file)| > 0 by { DecomposeParts(Name(file)); }
    }
    assert file in OtherVersions(files, q, Decompose(Name(q)).value);
  }

  /**
   * `getEncroachingVersions`: the candidates are copied into a list, leaving
   * out the file itself, in the order the listing yields them (here, any order).
   */
  method GetEncroachingVersions(fs: FileSystem, file: Path) returns (r: Option<seq<Path>>)
    ensures r.None? <==> Encroaching(fs.files, file).None?
    ensures r.Some? ==> forall q :: q in r.value <==> q in Encroaching(fs.files, file).value
    ensures r.Some? ==> forall m, n :: 0 <= m < n < |r.value| ==> r.value[m] != r.value[n]
  {
    var matched := Decompose(Name(file));
    if matched.None? {
      return None;
    }
    var g := matched.value;
    var dir := Parent(file);
    if !IsDirectory(fs.files, dir) {
      return None;
    }
    var candidates := Candidates(fs.files, dir, g);
    if |candidates| == (if Exists(fs.files, file) then 1 else 0) {
      return None;
    }
    var result := CopyOthers(candidates, file);
    return Some(result);
  }

  /** The loop that copies every candidate other than the file into the result list. */
  method CopyOthers(candidates: set<Path>, file: Path) returns (result: seq<Path>)
    ensures forall q :: q in result <==> q in candidates && q != file
    ensures forall m, n :: 0 <= m < n < |result| ==> result[m] != result[n]
  {
    result := [];
    var rest := candidates;
    while rest != {}
      invariant rest <= candidates
      invariant forall q :: q in result <==> q in candidates - rest && q != file
      invariant forall m, n :: 0 <= m < n < |result| ==> result[m] != result[n]
      decreases |rest|
    {
      var candidate :| candidate in rest;
      if candidate != file {
        assert candidate !in result;
        result := result + [candidate];
      }
      rest := rest - {candidate};
    }
  }
}
