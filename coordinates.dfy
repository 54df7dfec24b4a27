/**
 * The `groupId:artifactId:version` string of the install goal and the
 * coordinate it is copied into.
 *
 * `String.split(":")` cuts the string at every colon, drops the empty
 * fields at the end and, when the string holds no colon at all, returns the
 * string itself as the only token (so `"".split(":")` is `[""]`).
 */
module Coordinates {
  import opened Wrappers

  predicate ColonFree(t: string) {
    ':' !in t
  }

  /** The position of the last colon of `s`. */
  function LastColon(s: string): (k: nat)
    requires ':' in s
    ensures k < |s| && s[k] == ':'
    ensures forall j :: k < j < |s| ==> s[j] != ':'
  {
    if s[|s| - 1] == ':' then |s| - 1
    else
      assert ':' in s[..|s| - 1] by {
        var j :| 0 <= j < |s| && s[j] == ':';
        assert s[..|s| - 1][j] == ':';
      }
      LastColon(s[..|s| - 1])
  }

  /** The fields of `s` between its colons, empty ones included. */
  function Fields(s: string): (fields: seq<string>)
    ensures |fields| >= 1
    decreases |s|
  {
    if ':' !in s then [s]
    else
      var k := LastColon(s);
      Fields(s[..k]) + [s[k + 1..]]
  }

  /** The tokens written one after another with a colon between each two. */
  function Join(tokens: seq<string>): string
    decreases |tokens|
  {
    if tokens == [] then ""
    else if |tokens| == 1 then tokens[0]
    else Join(tokens[..|tokens| - 1]) + ":" + tokens[|tokens| - 1]
  }

  /** `n` colons. */
  function Colons(n: nat): (s: string)
    ensures |s| == n && forall k :: 0 <= k < n ==> s[k] == ':'
  {
    seq(n, _ => ':')
  }

  /** The tokens with the empty ones at the end removed. */
  function StripTrailingEmpty(tokens: seq<string>): (r: seq<string>)
    ensures r <= tokens
    ensures r != [] ==> r[|r| - 1] != ""
    ensures forall k :: |r| <= k < |tokens| ==> tokens[k] == ""
  {
    if tokens == [] then []
    else if tokens[|tokens| - 1] == "" then StripTrailingEmpty(tokens[..|tokens| - 1])
    else tokens
  }

  /**
   * `s.split(":")`: no token holds a colon, and once a colon has split the
   * string the trailing empty tokens are gone.
   */
  function Split(s: string): (r: seq<string>)
    ensures forall k :: 0 <= k < |r| ==> ColonFree(r[k])
    ensures ':' in s && r != [] ==> r[|r| - 1] != ""
  {
    if ':' !in s then [s]
    else
      JoinFields(s);
      StripTrailingEmpty(Fields(s))
  }

  /** Joining the fields gives the string back, and no field holds a colon. */
  lemma {:induction false} JoinFields(s: string)
    ensures Join(Fields(s)) == s
    ensures forall k :: 0 <= k < |Fields(s)| ==> ColonFree(Fields(s)[k])
    decreases |s|
  {
    if ':' in s {
      var k := LastColon(s);
      JoinFields(s[..k]);
      var fields := Fields(s[..k]) + [s[k + 1..]];
      assert fields[..|fields| - 1] == Fields(s[..k]);
      assert s == s[..k] + ":" + s[k + 1..];
      var last := s[k + 1..];
      assert ColonFree(last) by {
        forall j | 0 <= j < |last| ensures last[j] != ':' {
          assert last[j] == s[k + 1 + j];
        }
      }
    }
  }

  /** A colon and a colon-free `x` after `u` add the one field `x`. */
  lemma FieldsAfterColon(u: string, x: string)
    requires ColonFree(x)
    ensures Fields(u + ":" + x) == Fields(u) + [x]
  {
    var v := u + ":" + x;
    assert v[|u|] == ':';
    var k := LastColon(v);
    assert k == |u|;
    assert v[..k] == u && v[k + 1..] == x;
  }

  /** Colon-free tokens are the fields of their join. */
  lemma {:induction false} FieldsOfJoin(tokens: seq<string>)
    requires |tokens| >= 1
    requires forall k :: 0 <= k < |tokens| ==> ColonFree(tokens[k])
    ensures Fields(Join(tokens)) == tokens
    decreases |tokens|
  {
    if |tokens| > 1 {
      var init := tokens[..|tokens| - 1];
      FieldsOfJoin(init);
      FieldsAfterColon(Join(init), tokens[|tokens| - 1]);
      assert init + [tokens[|tokens| - 1]] == tokens;
    }
  }

  /** Trailing colons add empty fields. */
  lemma {:induction false} FieldsOfTrailingColons(u: string, n: nat)
    ensures Fields(u + Colons(n)) == Fields(u) + seq(n, _ => "")
    decreases n
  {
    if n > 0 {
      FieldsOfTrailingColons(u, n - 1);
      assert u + Colons(n) == u + Colons(n - 1) + ":" + "";
      FieldsAfterColon(u + Colons(n - 1), "");
      assert Fields(u) + seq(n, _ => "") == Fields(u) + seq(n - 1, _ => "") + [""];
    } else {
      assert u + Colons(n) == u;
      assert Fields(u) + seq(n, _ => "") == Fields(u);
    }
  }

  /** Empty tokens at the end join to colons at the end. */
  lemma {:induction false} JoinTrailingEmpty(tokens: seq<string>, rest: seq<string>)
    requires |tokens| >= 1
    requires forall k :: 0 <= k < |rest| ==> rest[k] == ""
    ensures Join(tokens + rest) == Join(tokens) + Colons(|rest|)
    decreases |rest|
  {
    if rest != [] {
      var init := rest[..|rest| - 1];
      JoinTrailingEmpty(tokens, init);
      assert (tokens + rest)[..|tokens + rest| - 1] == tokens + init;
      assert Colons(|rest|) == Colons(|init|) + ":";
    } else {
      assert tokens + rest == tokens;
    }
  }

  /** Removing trailing empty tokens leaves a sequence that ends in a non-empty one untouched. */
  lemma {:induction false} StripAppendedEmpty(tokens: seq<string>, n: nat)
    requires |tokens| >= 1 && tokens[|tokens| - 1] != ""
    ensures StripTrailingEmpty(tokens + seq(n, _ => "")) == tokens
    decreases n
  {
    if n > 0 {
      StripAppendedEmpty(tokens, n - 1);
      var t := tokens + seq(n, _ => "");
      assert t[..|t| - 1] == tokens + seq(n - 1, _ => "");
    } else {
      assert tokens + seq(n, _ => "") == tokens;
    }
  }

  /**
   * Splitting inverts joining: colon-free tokens ending in a non-empty one
   * come back from their join, whatever colons follow it.
   */
  lemma SplitJoin(tokens: seq<string>, n: nat)
    requires |tokens| >= 1 && tokens[|tokens| - 1] != ""
    requires forall k :: 0 <= k < |tokens| ==> ColonFree(tokens[k])
    ensures Split(Join(tokens) + Colons(n)) == tokens
  {
    var s := Join(tokens) + Colons(n);
    FieldsOfJoin(tokens);
    FieldsOfTrailingColons(Join(tokens), n);
    StripAppendedEmpty(tokens, n);
    if ':' !in s {
      assert tokens + seq(n, _ => "") == [s];
    }
  }

  /**
   * Joining inverts splitting up to the dropped trailing colons: every token
   * is colon-free, and when the string has a colon and some token survives,
   * the last token is non-empty and the string is the join followed by colons.
   */
  lemma SplitReconstructs(s: string)
    ensures forall k :: 0 <= k < |Split(s)| ==> ColonFree(Split(s)[k])
    ensures ':' !in s ==> Split(s) == [s]
    ensures ':' in s && Split(s) != [] ==>
      && Split(s)[|Split(s)| - 1] != ""
      && s == Join(Split(s)) + Colons(|Fields(s)| - |Split(s)|)
  {
    if ':' in s {
      JoinFields(s);
      StrippedJoin(Fields(s));
    }
  }

  /** Removing the trailing empty tokens keeps the rest, and their join loses only colons at its end. */
  lemma StrippedJoin(fields: seq<string>)
    requires forall k :: 0 <= k < |fields| ==> ColonFree(fields[k])
    ensures var tokens := StripTrailingEmpty(fields);
      && (forall k :: 0 <= k < |tokens| ==> ColonFree(tokens[k]))
      && (tokens != [] ==> Join(fields) == Join(tokens) + Colons(|fields| - |tokens|))
  {
    var tokens := StripTrailingEmpty(fields);
    if tokens != [] {
      var rest := fields[|tokens|..];
      assert fields == tokens + rest;
      JoinTrailingEmpty(tokens, rest);
    }
  }

  /** Three colon-free tokens, the last non-empty, split back into themselves. */
  lemma SplitThree(g: string, a: string, v: string, n: nat)
    requires ColonFree(g) && ColonFree(a) && ColonFree(v) && v != ""
    ensures Split(g + ":" + a + ":" + v + Colons(n)) == [g, a, v]
  {
    assert Join([g, a, v]) == g + ":" + a + ":" + v by {
      assert [g, a][..1] == [g];
      assert Join([g, a]) == g + ":" + a;
      assert [g, a, v][..2] == [g, a];
    }
    SplitJoin([g, a, v], 0);
    SplitJoin([g, a, v], n);
  }

  /**
   * `split(":")` yields exactly three tokens iff the string is three
   * colon-free parts, the last non-empty, joined by colons and followed by
   * any number of colons.
   */
  lemma ThreeTokensIff(s: string)
    ensures |Split(s)| == 3 <==>
      exists g, a, v, n: nat :: ColonFree(g) && ColonFree(a) && ColonFree(v) && v != ""
        && s == g + ":" + a + ":" + v + Colons(n)
  {
    if |Split(s)| == 3 {
      SplitReconstructs(s);
      var t := Split(s);
      assert ':' in s;
      assert Join(t) == t[0] + ":" + t[1] + ":" + t[2] by {
        assert t[..2][..1] == [t[0]];
        assert Join(t[..2]) == t[0] + ":" + t[1];
      }
      var n := |Fields(s)| - |Split(s)|;
      assert ColonFree(t[0]) && ColonFree(t[1]) && ColonFree(t[2]) && t[2] != ""
        && s == t[0] + ":" + t[1] + ":" + t[2] + Colons(n);
    }
    if exists g, a, v, n: nat :: ColonFree(g) && ColonFree(a) && ColonFree(v) && v != ""
        && s == g + ":" + a + ":" + v + Colons(n) {
      var g, a, v, n: nat :| ColonFree(g) && ColonFree(a) && ColonFree(v) && v != ""
        && s == g + ":" + a + ":" + v + Colons(n);
      SplitThree(g, a, v, n);
    }
  }

  /** The documented `groupId:artifactId:version:packaging` form splits into four tokens. */
  lemma SplitFour(g: string, a: string, v: string, p: string)
    requires ColonFree(g) && ColonFree(a) && ColonFree(v) && ColonFree(p) && p != ""
    ensures |Split(g + ":" + a + ":" + v + ":" + p)| == 4
  {
    assert Join([g, a, v, p]) == g + ":" + a + ":" + v + ":" + p by {
      assert [g, a][..1] == [g];
      assert Join([g, a]) == g + ":" + a;
      assert [g, a, v][..2] == [g, a];
      assert Join([g, a, v]) == g + ":" + a + ":" + v;
      assert [g, a, v, p][..3] == [g, a, v];
    }
    SplitJoin([g, a, v, p], 0);
    assert Join([g, a, v, p]) + Colons(0) == Join([g, a, v, p]);
  }

  /** What the coordinate holds, as the resolver sees it. */
  datatype CoordinateValue = CoordinateValue(
    groupId: Option<string>, artifactId: Option<string>, version: Option<string>,
    kind: Option<string>, classifier: Option<string>)

  /** `DefaultDependableCoordinate`: the coordinate handed to the dependency resolver. */
  class Coordinate {
    var groupId: Option<string>
    var artifactId: Option<string>
    var version: Option<string>
    /** The `type`. */
    var kind: Option<string>
    var classifier: Option<string>

    function Value(): CoordinateValue
      reads this
    {
      CoordinateValue(groupId, artifactId, version, kind, classifier)
    }

    constructor ()
      ensures Value() == CoordinateValue(None, None, None, None, None)
    {
      groupId, artifactId, version, kind, classifier := None, None, None, None, None;
    }

    method SetGroupId(value: string)
      modifies this
      ensures Value() == old(Value()).(groupId := Some(value))
    {
      groupId := Some(value);
    }

    method SetArtifactId(value: string)
      modifies this
      ensures Value() == old(Value()).(artifactId := Some(value))
    {
      artifactId := Some(value);
    }

    method SetVersion(value: string)
      modifies this
      ensures Value() == old(Value()).(version := Some(value))
    {
      version := Some(value);
    }
  }
}
