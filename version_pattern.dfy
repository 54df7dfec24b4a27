/**
 * The file-name grammar of the artifact installer (`versionPattern`).
 *
 * A jar name is split into three consecutive parts: a prefix (capture group 1,
 * matched lazily), an optional version (group 2) and a suffix (group 5).  The
 * installer only reads groups 1 and 5.  Each regex fragment is modelled below
 * as a predicate on strings that holds exactly when the fragment matches the
 * whole string; `Matches` glues them together for the anchored `matches()`
 * call, and `Decompose` picks the groups Java's backtracking matcher reports.
 *
 * Which match Java reports.  The prefix is the outermost lazy group, so the
 * engine tries prefix lengths 1, 2, ... and keeps the first one for which the
 * rest of the name matches at all: group 1 is the SHORTEST admissible prefix.
 * For that prefix the rest is `version? suffix`, and a suffix can only start
 * at two places (lemma `SuffixStartsAtJarOrClassifier`): the unique `.jar`
 * position k, or k - |c| when a classifier c ends just before it.  The version
 * is tried before its absence, and its qualifier loop is lazy; a qualifier
 * that ends at k must start at k - |c| (a classifier holds a single `-`), so
 * every path of the matcher that reaches k passes k - |c| first and accepts
 * the suffix there.  Hence Java reports the EARLIEST admissible split point,
 * i.e. the longest suffix.  `IsChosenMatch` states exactly that.
 */
module VersionPattern {
  import opened Wrappers

  /** Capture groups 1 and 5 of a successful match. */
  datatype Groups = Groups(prefix: string, suffix: string)

  /** The characters Java's `.` does not match. */
  predicate IsLineTerminator(c: char) {
    c == '\n' || c == '\r' || c == '\U{0085}' || c == '\U{2028}' || c == '\U{2029}'
  }

  predicate IsDigit(c: char) { '0' <= c <= '9' }
  predicate IsLower(c: char) { 'a' <= c <= 'z' }
  predicate IsUpper(c: char) { 'A' <= c <= 'Z' }

  /** Group 1: one or more characters other than line terminators, so it never spans a line break. */
  predicate IsPrefixText(s: string)
    ensures IsPrefixText(s) ==> s != [] && !IsLineTerminator(s[0])
  {
    |s| >= 1 && forall n :: 0 <= n < |s| ==> !IsLineTerminator(s[n])
  }

  /** One or more decimal digits. */
  predicate IsDigits(s: string) {
    |s| >= 1 && forall n :: 0 <= n < |s| ==> IsDigit(s[n])
  }

  /** One version component: a dot followed by digits, or exactly seven digits. */
  predicate IsNumberBlock(s: string) {
    (|s| >= 2 && s[0] == '.' && IsDigits(s[1..])) || (|s| == 7 && IsDigits(s))
  }

  /** One or more version components. */
  predicate IsNumberBlocks(s: string)
    decreases |s|
  {
    exists k :: 1 <= k <= |s| && IsNumberBlock(s[..k]) && (k == |s| || IsNumberBlocks(s[k..]))
  }

  predicate IsQualifierChar(c: char) { IsLower(c) || IsUpper(c) || IsDigit(c) || c == '.' }

  /** One qualifier: a dash followed by letters, digits or dots, or the literal `.GA`. */
  predicate IsQualifier(s: string) {
    || (|s| >= 2 && s[0] == '-' && forall n :: 1 <= n < |s| ==> IsQualifierChar(s[n]))
    || s == ".GA"
  }

  /** Zero or more qualifiers. */
  predicate IsQualifiers(s: string)
    decreases |s|
  {
    s == [] || exists k :: 1 <= k <= |s| && IsQualifier(s[..k]) && IsQualifiers(s[k..])
  }

  /** What follows the numeric part: an optional lower-case letter, an optional digit, then qualifiers. */
  predicate IsVersionEnd(s: string) {
    || IsQualifiers(s)
    || (|s| >= 1 && (IsLower(s[0]) || IsDigit(s[0])) && IsQualifiers(s[1..]))
    || (|s| >= 2 && IsLower(s[0]) && IsDigit(s[1]) && IsQualifiers(s[2..]))
  }

  /**
   * Group 2: a dash, digits, one or more version components, then the
   * version end; so a version has at least three characters.
   */
  predicate IsVersion(s: string)
    ensures IsVersion(s) ==> |s| >= 3 && s[0] == '-'
  {
    && |s| >= 1 && s[0] == '-'
    && exists a, b :: 2 <= a < b <= |s| && IsDigits(s[1..a]) && IsNumberBlocks(s[a..b]) && IsVersionEnd(s[b..])
  }

  /** Group 2 is optional. */
  predicate IsOptionalVersion(s: string) { s == [] || IsVersion(s) }

  /** The classifiers the suffix may start with. */
  const Classifiers: seq<string> := ["-swing", "-swt", "-sources", "-javadoc"]

  /** `.jar`, optionally followed by a dash and lower-case letters; it starts with the dot. */
  predicate IsJarExtension(s: string)
    ensures IsJarExtension(s) ==> |s| >= 4 && s[0] == '.'
  {
    && |s| >= 4 && s[..4] == ".jar"
    && (|s| == 4 || (s[4] == '-' && forall n :: 5 <= n < |s| ==> IsLower(s[n])))
  }

  /** Every classifier starts with a dash. */
  lemma ClassifiersOpenWithDash()
    ensures forall c :: c in Classifiers ==> |c| >= 1 && c[0] == '-'
  {
  }

  /**
   * Group 5: an optional classifier followed by the jar extension; it
   * starts with the extension's dot or the classifier's dash.
   */
  predicate IsSuffix(s: string)
    ensures IsSuffix(s) ==> |s| >= 4 && (s[0] == '.' || s[0] == '-')
  {
    ClassifiersOpenWithDash();
    IsJarExtension(s) || exists c :: c in Classifiers && |c| <= |s| && s[..|c|] == c && IsJarExtension(s[|c|..])
  }

  /**
   * The anchored pattern matches `name` with group 1 = name[..i],
   * group 2 = name[i..j] (empty when absent) and group 5 = name[j..].
   */
  predicate Matches(name: string, i: int, j: int)
    ensures Matches(name, i, j) ==> 1 <= i <= j <= |name| - 4
  {
    && 1 <= i <= j <= |name|
    && IsPrefixText(name[..i])
    && IsOptionalVersion(name[i..j])
    && IsSuffix(name[j..])
  }

  /**
   * The match Java reports: the shortest group 1, then the earliest split
   * point.  So no position before i starts a jar suffix: the prefix ends no
   * later than the first place where the name could end.
   */
  ghost predicate IsChosenMatch(name: string, i: int, j: int)
    ensures IsChosenMatch(name, i, j) ==> forall i' :: 1 <= i' < i <= |name| ==> !IsSuffix(name[i'..])
  {
    SuffixAfterPrefixMatches(name, i);
    && Matches(name, i, j)
    && (forall i', j' :: 1 <= i' < i ==> !Matches(name, i', j'))
    && (forall j' :: j' < j ==> !Matches(name, i, j'))
  }

  /** Any suffix that starts inside an admissible group 1 gives a match with that shorter group 1 and no version. */
  lemma SuffixAfterPrefixMatches(name: string, i: int)
    ensures 1 <= i <= |name| && IsPrefixText(name[..i]) ==>
      forall i' :: 1 <= i' < i && IsSuffix(name[i'..]) ==> Matches(name, i', i')
  {
    if 1 <= i <= |name| && IsPrefixText(name[..i]) {
      forall i' | 1 <= i' < i && IsSuffix(name[i'..]) ensures Matches(name, i', i') {
        assert name[..i'] == name[..i][..i'];
        assert name[i'..i'] == [];
      }
    }
  }

  /** The least j' in [j, hi] that satisfies p, if there is one. */
  function FirstFrom(p: nat -> bool, j: nat, hi: nat): (r: Option<nat>)
    ensures r.Some? ==> j <= r.value <= hi && p(r.value)
    ensures r.Some? ==> forall j' :: j <= j' < r.value ==> !p(j')
    ensures r.None? ==> forall j' :: j <= j' <= hi ==> !p(j')
    decreases hi + 1 - j
  {
    if j > hi then None
    else if p(j) then Some(j)
    else FirstFrom(p, j + 1, hi)
  }

  /** The earliest split point j' >= j for the prefix length i. */
  function FindSplit(name: string, i: nat, j: nat): (r: Option<nat>)
    ensures r.Some? ==> j <= r.value && Matches(name, i, r.value)
    ensures r.Some? ==> forall j' :: j <= j' < r.value ==> !Matches(name, i, j')
    ensures r.None? ==> forall j' :: j <= j' ==> !Matches(name, i, j')
  {
    var p := (j': nat) => Matches(name, i, j');
    assert forall j': nat :: p(j') == Matches(name, i, j');
    FirstFrom(p, j, |name|)
  }

  /**
   * The first prefix length i' >= i that admits a match, with its earliest
   * split point; `FindPrefixShortest` shows no shorter one admits a match.
   */
  function FindPrefix(name: string, i: nat): (r: Option<(nat, nat)>)
    requires i >= 1
    ensures r.Some? ==> i <= r.value.0 && Matches(name, r.value.0, r.value.1)
    ensures r.Some? ==> forall j' :: j' < r.value.1 ==> !Matches(name, r.value.0, j')
    decreases |name| + 1 - i
  {
    if i > |name| then None
    else
      match FindSplit(name, i, i)
      case Some(j) => Some((i, j))
      case None => FindPrefix(name, i + 1)
  }

  /** The prefix length `FindPrefix` finds is the shortest from i on; when it finds none, no prefix from i on matches. */
  lemma {:induction false} FindPrefixShortest(name: string, i: nat)
    requires i >= 1
    ensures FindPrefix(name, i).Some? ==> forall i', j' :: i <= i' < FindPrefix(name, i).value.0 ==> !Matches(name, i', j')
    ensures FindPrefix(name, i).None? ==> forall i', j' :: i <= i' ==> !Matches(name, i', j')
    decreases |name| + 1 - i
  {
    if i > |name| {
      assert FindPrefix(name, i) == None;
      forall i', j' | i <= i' ensures !Matches(name, i', j') { }
    } else if FindSplit(name, i, i).Some? {
      assert FindPrefix(name, i).value.0 == i;
    } else {
      var r := FindPrefix(name, i + 1);
      assert FindPrefix(name, i) == r;
      FindPrefixShortest(name, i + 1);
      NoSplitAt(name, i);
      if r.Some? {
        forall i', j' | i <= i' < r.value.0 ensures !Matches(name, i', j') {
          if i' > i {
            assert i + 1 <= i' < FindPrefix(name, i + 1).value.0;
          }
        }
      } else {
        forall i', j' | i <= i' ensures !Matches(name, i', j') {
          if i' > i {
            assert i + 1 <= i';
          }
        }
      }
    }
  }

  /** When no split point from i on works for the prefix length i, none does. */
  lemma NoSplitAt(name: string, i: nat)
    requires FindSplit(name, i, i).None?
    ensures forall j' :: !Matches(name, i, j')
  {
  }

  /** `matcher.matches()` together with the positions of groups 1 and 5. */
  function Parse(name: string): (r: Option<(nat, nat)>)
    ensures r.Some? ==> IsChosenMatch(name, r.value.0, r.value.1)
    ensures r.None? <==> forall i, j :: !Matches(name, i, j)
  {
    FindPrefixShortest(name, 1);
    FindPrefix(name, 1)
  }

  /** `versionPattern.matcher(name)`: None when it does not match, else groups 1 and 5. */
  function Decompose(name: string): (r: Option<Groups>)
    ensures r.None? <==> forall i, j :: !Matches(name, i, j)
    ensures r.Some? ==> exists i, j :: IsChosenMatch(name, i, j) && r.value == Groups(name[..i], name[j..])
  {
    match Parse(name)
    case None => None
    case Some((i, j)) => Some(Groups(name[..i], name[j..]))
  }

  /** Group 1 is a non-empty prefix and group 5 a suffix of the name, and they do not overlap. */
  lemma DecomposeParts(name: string)
    requires Decompose(name).Some?
    ensures var g := Decompose(name).value;
      && 1 <= |g.prefix| && |g.prefix| + |g.suffix| <= |name|
      && name[..|g.prefix|] == g.prefix
      && name[|name| - |g.suffix|..] == g.suffix
      && IsSuffix(g.suffix)
  {
    var i, j :| IsChosenMatch(name, i, j) && Decompose(name).value == Groups(name[..i], name[j..]);
  }

  /** At most one match satisfies Java's choice. */
  lemma ChosenMatchUnique(name: string, i: int, j: int, i2: int, j2: int)
    requires IsChosenMatch(name, i, j) && IsChosenMatch(name, i2, j2)
    ensures i == i2 && j == j2
  {
  }

  /** The groups of a name follow from any match that satisfies Java's choice. */
  lemma DecomposeOfChosen(name: string, i: int, j: int)
    requires IsChosenMatch(name, i, j)
    ensures Decompose(name) == Some(Groups(name[..i], name[j..]))
  {
    var i2, j2 :| IsChosenMatch(name, i2, j2) && Decompose(name).value == Groups(name[..i2], name[j2..]);
    ChosenMatchUnique(name, i, j, i2, j2);
  }

  /** A name has at most one position where the jar extension starts. */
  lemma JarExtensionUnique(s: string, m: nat, k: nat)
    requires m <= |s| && k <= |s|
    requires IsJarExtension(s[m..]) && IsJarExtension(s[k..])
    ensures m == k
  {
    if m < k {
      JarExtensionNotLater(s, m, k);
    } else if k < m {
      JarExtensionNotLater(s, k, m);
    }
  }

  lemma JarExtensionNotLater(s: string, m: nat, k: nat)
    requires m < k <= |s|
    requires IsJarExtension(s[m..])
    ensures !IsJarExtension(s[k..])
  {
    if k < |s| {
      if k < m + 4 {
        assert s[k] == s[m..][..4][k - m];
      } else {
        assert s[k] == s[m..][k - m];
      }
      assert s[k..][0] == s[k] != '.';
    }
  }

  /**
   * The only places where group 5 can start: at the jar extension k, or
   * just before it when a classifier ends at k.
   */
  lemma SuffixStartsAtJarOrClassifier(name: string, k: nat, j: nat)
    requires k <= |name| && j <= |name|
    requires IsJarExtension(name[k..])
    requires IsSuffix(name[j..])
    ensures j == k || exists c :: c in Classifiers && j + |c| == k && name[j..k] == c
  {
    if IsJarExtension(name[j..]) {
      JarExtensionUnique(name, j, k);
    } else {
      var c :| c in Classifiers && |c| <= |name[j..]| && name[j..][..|c|] == c && IsJarExtension(name[j..][|c|..]);
      JarExtensionAfter(name, k, j, c);
    }
  }

  /** When `c` and then a jar extension start at j, the extension is the one at k. */
  lemma JarExtensionAfter(name: string, k: nat, j: nat, c: string)
    requires k <= |name| && j <= |name|
    requires IsJarExtension(name[k..])
    requires |c| <= |name[j..]| && name[j..][..|c|] == c && IsJarExtension(name[j..][|c|..])
    ensures j + |c| == k && name[j..k] == c
  {
    assert name[j..][|c|..] == name[j + |c|..];
    JarExtensionUnique(name, j + |c|, k);
    assert name[j..k] == name[j..][..|c|];
  }

  /** No classifier is a proper ending of another, so at most one classifier ends a string. */
  lemma ClassifierEndingUnique(t: string, c1: string, c2: string)
    requires c1 in Classifiers && c2 in Classifiers
    requires |c1| <= |t| && |c2| <= |t|
    requires t[|t| - |c1|..] == c1 && t[|t| - |c2|..] == c2
    ensures c1 == c2
  {
    assert t[|t| - 1] == c1[|c1| - 1];
    assert t[|t| - 1] == c2[|c2| - 1];
  }

  /** Some classifier ends the string. */
  predicate EndsWithClassifier(t: string) {
    exists c :: c in Classifiers && |c| <= |t| && t[|t| - |c|..] == c
  }

  /** The last letters of the classifiers. */
  predicate IsClassifierEnd(e: char) { e == 'g' || e == 't' || e == 's' || e == 'c' }

  /** A string whose last character is not the last letter of a classifier ends in no classifier. */
  lemma NotEndingWithClassifier(t: string)
    requires |t| >= 1 && !IsClassifierEnd(t[|t| - 1])
    ensures !EndsWithClassifier(t)
  {
    if EndsWithClassifier(t) {
      var c :| c in Classifiers && |c| <= |t| && t[|t| - |c|..] == c;
      ClassifierLastChar(t, c);
    }
  }

  lemma ClassifierLastChar(t: string, c: string)
    requires c in Classifiers && |c| <= |t| && t[|t| - |c|..] == c
    ensures IsClassifierEnd(t[|t| - 1])
  {
    assert t[|t| - 1] == c[|c| - 1];
  }

  /** A suffix that starts before the jar extension leaves a classifier ending there. */
  lemma ClassifierBeforeJar(name: string, k: nat, j: nat)
    requires k <= |name| && j <= |name|
    requires IsJarExtension(name[k..])
    requires IsSuffix(name[j..]) && j != k
    ensures EndsWithClassifier(name[..k])
  {
    SuffixStartsAtJarOrClassifier(name, k, j);
    var c :| c in Classifiers && j + |c| == k && name[j..k] == c;
    assert name[..k][k - |c|..] == c;
  }

  /** When no classifier ends where the jar extension k starts, group 5 can only start at k. */
  lemma OnlySuffixStart(name: string, k: nat, j: nat)
    requires k <= |name| && j <= |name|
    requires IsJarExtension(name[k..])
    requires !EndsWithClassifier(name[..k])
    requires IsSuffix(name[j..])
    ensures j == k
  {
    if j != k {
      ClassifierBeforeJar(name, k, j);
    }
  }

  /**
   * No dash after the first character is followed by a digit, so no version
   * can start inside the string: a version opens with a dash and a digit.
   */
  predicate NoVersionStart(t: string) {
    forall n :: 1 <= n < |t| - 1 ==> !(t[n] == '-' && IsDigit(t[n + 1]))
  }

  /** A name that starts with such a string has no version start at those positions either. */
  lemma NoVersionStartInPrefix(name: string, p: string)
    requires |p| <= |name| && name[..|p|] == p && NoVersionStart(p)
    ensures forall n :: 1 <= n && n + 1 < |p| ==> !(name[n] == '-' && IsDigit(name[n + 1]))
  {
    forall n | 1 <= n && n + 1 < |p| ensures !(name[n] == '-' && IsDigit(name[n + 1])) {
      assert name[n] == name[..|p|][n] && name[n + 1] == name[..|p|][n + 1];
    }
  }

  /** A version opens with a dash and a digit. */
  lemma VersionOpening(s: string)
    requires IsVersion(s)
    ensures |s| >= 2 && s[0] == '-' && IsDigit(s[1])
  {
    var a, b :| 2 <= a < b <= |s| && IsDigits(s[1..a]) && IsNumberBlocks(s[a..b]) && IsVersionEnd(s[b..]);
    assert s[1..a][0] == s[1];
  }

  /**
   * A match whose prefix ends before i, and whose version ends at or after
   * i, puts a dash and a digit at positions i' and i' + 1 below or at i.
   */
  lemma ShorterPrefixOpensVersion(name: string, i': nat, j': nat, i: nat)
    requires 1 <= i' < i <= j' <= |name|
    requires IsOptionalVersion(name[i'..j'])
    ensures name[i'] == '-' && i' + 1 <= i && IsDigit(name[i' + 1])
  {
    VersionOpening(name[i'..j']);
    assert name[i'..j'][0] == name[i'] && name[i'..j'][1] == name[i' + 1];
  }

  /**
   * So no match has a prefix shorter than i and a version reaching i when no
   * dash after the start is followed by a digit before i and i holds no digit.
   */
  lemma NoVersionBefore(name: string, i': nat, j': nat, i: nat)
    requires 1 <= i' < i <= j' <= |name| && i < |name|
    requires forall n :: 1 <= n && n + 1 < i ==> !(name[n] == '-' && IsDigit(name[n + 1]))
    requires !IsDigit(name[i])
    ensures !Matches(name, i', j')
  {
    assert i' + 1 < i ==> !(name[i'] == '-' && IsDigit(name[i' + 1]));
    if Matches(name, i', j') {
      ShorterPrefixOpensVersion(name, i', j', i);
    }
  }

  /** `-a.b` is a version for single digits a and b: digits, one dotted component, nothing after it. */
  lemma ShortVersion(a: char, b: char)
    requires IsDigit(a) && IsDigit(b)
    ensures IsVersion(['-', a, '.', b])
  {
    var v := ['-', a, '.', b];
    assert v[1..2] == [a] && IsDigits([a]);
    assert v[2..4] == ['.', b] && ['.', b][1..] == [b] && IsDigits([b]);
    assert ['.', b][..2] == ['.', b];
    assert IsNumberBlocks(['.', b]);
    assert IsVersionEnd(v[4..]);
  }

  /**
   * For a name whose jar extension starts at k with no classifier before it,
   * no match has a prefix shorter than i when no dash after the start of the
   * name is followed by a digit before i, and position i holds no digit.
   */
  lemma NoEarlierMatch(name: string, k: nat, i: nat)
    requires i <= k <= |name|
    requires IsJarExtension(name[k..])
    requires !EndsWithClassifier(name[..k])
    requires forall n :: 1 <= n && n + 1 < i ==> !(name[n] == '-' && IsDigit(name[n + 1]))
    requires i < |name| && !IsDigit(name[i])
    ensures forall i', j' :: 1 <= i' < i ==> !Matches(name, i', j')
    ensures forall j' :: j' < k ==> !Matches(name, i, j')
  {
    forall i', j' | 1 <= i' < i && Matches(name, i', j') ensures false {
      OnlySuffixStart(name, k, j');
      NoVersionBefore(name, i', j', i);
    }
    forall j' | j' < k && Matches(name, i, j') ensures false {
      OnlySuffixStart(name, k, j');
    }
  }

  /** `-1.48p` is a version: digits, one dotted component, a trailing letter. */
  lemma VersionOneDotFortyEightP()
    ensures IsVersion("-1.48p")
  {
    var v := "-1.48p";
    assert v[1..2] == "1" && IsDigit("1"[0]);
    assert v[2..5] == ".48" && ".48"[1..] == "48" && IsDigits("48");
    assert ".48"[..3] == ".48";
    assert IsNumberBlocks(".48");
    assert v[5..] == "p" && "p"[1..] == [];
    assert IsVersionEnd(v[5..]);
  }

  /**
   * For a name where the classifier c starts at j, followed by the jar
   * extension, no match has a prefix shorter than i when no dash after the
   * start of the name is followed by a digit before i, and position i holds
   * no digit.
   */
  lemma NoEarlierMatchClassified(name: string, j: nat, c: string, i: nat)
    requires c in Classifiers && i <= j && j + |c| <= |name|
    requires IsJarExtension(name[j + |c|..]) && name[j..j + |c|] == c
    requires forall n :: 1 <= n && n + 1 < i ==> !(name[n] == '-' && IsDigit(name[n + 1]))
    requires i < |name| && !IsDigit(name[i])
    ensures forall i', j' :: 1 <= i' < i ==> !Matches(name, i', j')
    ensures forall j' :: j' < j ==> !Matches(name, i, j')
  {
    forall i', j' | 1 <= i' < i && Matches(name, i', j') ensures false {
      SuffixStartsAtClassifier(name, j, c, j');
      NoVersionBefore(name, i', j', i);
    }
    forall j' | j' < j && Matches(name, i, j') ensures false {
      SuffixStartsAtClassifier(name, j, c, j');
    }
  }

  /** With the classifier c at j before the jar extension, group 5 starts at c or at the extension. */
  lemma SuffixStartsAtClassifier(name: string, j: nat, c: string, j': nat)
    requires c in Classifiers && j + |c| <= |name| && j' <= |name|
    requires IsJarExtension(name[j + |c|..]) && name[j..j + |c|] == c
    requires IsSuffix(name[j'..])
    ensures j' == j || j' == j + |c|
  {
    var k := j + |c|;
    SuffixStartsAtJarOrClassifier(name, k, j');
    if j' != k {
      var c' :| c' in Classifiers && j' + |c'| == k && name[j'..k] == c';
      ClassifiersEndingAt(name, k, c, c');
    }
  }

  /** Two classifiers that end at the same position k of a name are the same one. */
  lemma ClassifiersEndingAt(name: string, k: nat, c: string, c': string)
    requires c in Classifiers && c' in Classifiers && |c| <= k && |c'| <= k <= |name|
    requires name[k - |c|..k] == c && name[k - |c'|..k] == c'
    ensures c == c'
  {
    assert name[..k][k - |c|..] == c;
    assert name[..k][k - |c'|..] == c';
    ClassifierEndingUnique(name[..k], c, c');
  }

  /**
   * A name made of a prefix in which no dash is followed by a digit, an
   * optional version and a jar extension, where no classifier ends just
   * before the extension, has that prefix as group 1 and the extension as
   * group 5.
   */
  lemma DecomposeVersionedJar(p: string, v: string, x: string)
    requires IsPrefixText(p) && NoVersionStart(p)
    requires IsOptionalVersion(v) && IsJarExtension(x)
    requires !EndsWithClassifier(p + v)
    ensures Decompose(p + v + x) == Some(Groups(p, x))
  {
    var name := p + v + x;
    var i, k := |p|, |p| + |v|;
    PartsOfName(p, v, x);
    MatchesParts(p, v, x);
    NoVersionStartInPrefix(name, p);
    assert name[i] == (if v == [] then x[0] else v[0]) by {
      assert name[i..k] == v && name[k..] == x;
      if v == [] { assert name[i] == name[k..][0]; } else { assert name[i] == name[i..k][0]; }
    }
    NoEarlierMatch(name, k, i);
    DecomposeOfChosen(name, i, k);
  }

  /** The slices of a name made of three parts are those parts. */
  lemma PartsOfName(p: string, v: string, x: string)
    ensures var name := p + v + x;
      && name[..|p|] == p && name[|p|..|p| + |v|] == v && name[|p| + |v|..] == x && name[..|p| + |v|] == p + v
  {
    var name := p + v + x;
    assert name[..|p| + |v|] == p + v;
    assert (p + v)[..|p|] == p;
  }

  /** Group texts written one after another match with the groups where they were put. */
  lemma MatchesParts(p: string, v: string, y: string)
    requires IsPrefixText(p) && IsOptionalVersion(v) && IsSuffix(y)
    ensures Matches(p + v + y, |p|, |p| + |v|)
  {
    PartsOfName(p, v, y);
  }

  /** A classifier followed by a jar extension is a suffix. */
  lemma ClassifiedSuffix(c: string, x: string)
    requires c in Classifiers && IsJarExtension(x)
    ensures IsSuffix(c + x)
  {
    assert (c + x)[..|c|] == c && (c + x)[|c|..] == x;
  }

  /**
   * With a classifier in front of the jar extension, the classifier belongs to
   * group 5, never to the version.
   */
  lemma DecomposeClassifiedJar(p: string, v: string, c: string, x: string)
    requires IsPrefixText(p) && NoVersionStart(p)
    requires IsOptionalVersion(v) && c in Classifiers && IsJarExtension(x)
    ensures Decompose(p + v + (c + x)) == Some(Groups(p, c + x))
  {
    var name := p + v + (c + x);
    var i, j := |p|, |p| + |v|;
    PartsOfName(p, v, c + x);
    ClassifiedSuffix(c, x);
    MatchesParts(p, v, c + x);
    ClassifierSlices(name, j, c, x);
    NoVersionStartInPrefix(name, p);
    ClassifiedOpening(name, i, j, c);
    NoEarlierMatchClassified(name, j, c, i);
    DecomposeOfChosen(name, i, j);
  }

  /** Group 2, or else the classifier after it, puts a dash right after group 1. */
  lemma ClassifiedOpening(name: string, i: nat, j: nat, c: string)
    requires i <= j && j + |c| <= |name| && c in Classifiers
    requires IsOptionalVersion(name[i..j]) && name[j..j + |c|] == c
    ensures i < |name| && name[i] == '-'
  {
    if i == j {
      assert name[i] == name[j..j + |c|][0];
    } else {
      assert name[i] == name[i..j][0];
    }
  }

  /** Where `c + x` ends a name, `c` and then `x` can be cut out of it. */
  lemma ClassifierSlices(name: string, j: nat, c: string, x: string)
    requires j <= |name| && name[j..] == c + x
    ensures j + |c| <= |name| && name[j + |c|..] == x && name[j..j + |c|] == c
  {
    assert name[j + |c|..] == name[j..][|c|..];
    assert name[j..j + |c|] == name[j..][..|c|];
  }

  /** The worked example `foo-1.0.jar`: prefix `foo`, suffix `.jar`. */
  lemma DecomposePlainJar(name: string)
    requires name == "foo-1.0.jar"
    ensures Decompose(name) == Some(Groups("foo", ".jar"))
  {
    PlainJarParts(name);
    FooPrefix();
    ShortVersion('1', '0');
    NotEndingWithClassifier("foo" + "-1.0");
    DecomposeVersionedJar("foo", "-1.0", ".jar");
  }

  lemma PlainJarParts(name: string)
    requires name == "foo-1.0.jar"
    ensures name == "foo" + "-1.0" + ".jar"
  {
  }

  lemma FooPrefix()
    ensures IsPrefixText("foo") && NoVersionStart("foo")
  {
  }

  /** A dash that starts no version stays in group 1: `bio-formats-5.0.jar` has prefix `bio-formats`. */
  lemma DecomposeDashedPrefix(name: string)
    requires name == "bio-formats-5.0.jar"
    ensures Decompose(name) == Some(Groups("bio-formats", ".jar"))
  {
    DashedPrefixParts(name);
    BioFormatsPrefix();
    ShortVersion('5', '0');
    NotEndingWithClassifier("bio-formats" + "-5.0");
    DecomposeVersionedJar("bio-formats", "-5.0", ".jar");
  }

  lemma DashedPrefixParts(name: string)
    requires name == "bio-formats-5.0.jar"
    ensures name == "bio-formats" + "-5.0" + ".jar"
  {
  }

  /** `bio-formats` holds a dash, but one followed by a letter. */
  lemma BioFormatsPrefix()
    ensures IsPrefixText("bio-formats") && NoVersionStart("bio-formats")
  {
    var p := "bio-formats";
    forall n | 1 <= n < |p| - 1 ensures !(p[n] == '-' && IsDigit(p[n + 1])) {
      if n == 3 { assert p[4] == 'f'; } else { assert p[n] != '-'; }
    }
  }

  /** The worked example `ij-1.48p.jar`: prefix `ij`, suffix `.jar`. */
  lemma DecomposeLetterVersion(name: string)
    requires name == "ij-1.48p.jar"
    ensures Decompose(name) == Some(Groups("ij", ".jar"))
  {
    LetterVersionParts(name);
    IjPrefix();
    VersionOneDotFortyEightP();
    NotEndingWithClassifier("ij" + "-1.48p");
    DecomposeVersionedJar("ij", "-1.48p", ".jar");
  }

  lemma LetterVersionParts(name: string)
    requires name == "ij-1.48p.jar"
    ensures name == "ij" + "-1.48p" + ".jar"
  {
  }

  lemma IjPrefix()
    ensures IsPrefixText("ij") && NoVersionStart("ij")
  {
  }

  /** The worked example `foo-1.0-sources.jar`: prefix `foo`, suffix `-sources.jar`. */
  lemma DecomposeSourcesJar(name: string)
    requires name == "foo-1.0-sources.jar"
    ensures Decompose(name) == Some(Groups("foo", "-sources.jar"))
  {
    ShortVersion('1', '0');
    assert Classifiers[2] == "-sources";
    assert name == "foo" + "-1.0" + ("-sources" + ".jar");
    assert "-sources" + ".jar" == "-sources.jar";
    DecomposeClassifiedJar("foo", "-1.0", "-sources", ".jar");
  }
}
