/**
 * Addressable paths into a decoded value (`a.b[0].c`) and the exclusion
 * rule that decides whether a path is ignored (`_path_matches_any`).
 */
module Paths {
  import opened Wrappers
  import Glob

  predicate IsDigit(c: char) {
    '0' <= c <= '9'
  }

  function DigitChar(d: nat): (c: char)
    requires d < 10
    ensures IsDigit(c)
  {
    ['0', '1', '2', '3', '4', '5', '6', '7', '8', '9'][d]
  }

  function DigitValue(c: char): (d: nat)
    requires IsDigit(c)
    ensures d < 10 && DigitChar(d) == c
  {
    if c == '0' then 0 else if c == '1' then 1 else if c == '2' then 2
    else if c == '3' then 3 else if c == '4' then 4 else if c == '5' then 5
    else if c == '6' then 6 else if c == '7' then 7 else if c == '8' then 8 else 9
  }

  /** Python's `str(n)` for a non-negative integer: decimal digits, no
      leading zero. */
  function NatToString(n: nat): (s: string)
    ensures |s| >= 1
    ensures forall i :: 0 <= i < |s| ==> IsDigit(s[i])
    ensures s[0] == '0' ==> n == 0 && |s| == 1
  {
    if n < 10 then [DigitChar(n)]
    else NatToString(n / 10) + [DigitChar(n % 10)]
  }

  /** The number a string of decimal digits denotes. */
  function ParseDecimal(s: string): nat
    requires forall i :: 0 <= i < |s| ==> IsDigit(s[i])
  {
    if |s| == 0 then 0
    else 10 * ParseDecimal(s[..|s| - 1]) + DigitValue(s[|s| - 1])
  }

  /** Printing an index and reading it back gives the index: distinct
      indices print differently. */
  lemma {:induction false} ParseNatToString(n: nat)
    ensures ParseDecimal(NatToString(n)) == n
  {
    var s := NatToString(n);
    if n < 10 {
      assert s[..0] == [];
      assert DigitValue(DigitChar(n)) == n by {
        assert DigitValue(DigitChar(n)) < 10;
      }
    } else {
      ParseNatToString(n / 10);
      assert s[..|s| - 1] == NatToString(n / 10);
      assert DigitValue(DigitChar(n % 10)) == n % 10;
    }
  }

  /** Path of the member with key `key` under `parent`: the bare key while
      the parent path is empty, otherwise `parent.key`. */
  function KeyPath(parent: string, key: string): string {
    if parent == "" then key else parent + "." + key
  }

  /** Path of the element at `index` under `parent`: `parent[index]`. */
  function IndexPath(parent: string, index: nat): string {
    parent + "[" + NatToString(index) + "]"
  }

  /** A child path extends its parent path. */
  lemma ChildPathsExtendParent(parent: string, key: string, index: nat)
    ensures parent <= KeyPath(parent, key)
    ensures parent != "" ==> parent + "." <= KeyPath(parent, key)
    ensures parent + "[" <= IndexPath(parent, index)
    ensures |IndexPath(parent, index)| > |parent|
  {
    assert parent + "." + key == (parent + ".") + key;
    assert IndexPath(parent, index) == (parent + "[") + (NatToString(index) + "]");
  }

  /** Under one parent, two member paths coincide only for the same key. */
  lemma KeyPathInjective(parent: string, k1: string, k2: string)
    requires KeyPath(parent, k1) == KeyPath(parent, k2)
    ensures k1 == k2
  {
    if parent != "" {
      var n := |parent| + 1;
      assert k1 == KeyPath(parent, k1)[n..];
      assert k2 == KeyPath(parent, k2)[n..];
    }
  }

  /** Two index paths under one parent coincide only for the same index. */
  lemma IndexPathInjective(parent: string, i: nat, j: nat)
    requires IndexPath(parent, i) == IndexPath(parent, j)
    ensures i == j
  {
    var si, sj := NatToString(i), NatToString(j);
    var p := IndexPath(parent, i);
    assert |si| == |sj|;
    assert si == p[|parent| + 1..|p| - 1];
    assert sj == IndexPath(parent, j)[|parent| + 1..|p| - 1];
    ParseNatToString(i);
    ParseNatToString(j);
  }

  /** The literal rule: the path is the pattern itself or lies below it as
      an object member (`pattern.`...). */
  predicate LiteralMatch(path: string, pat: string) {
    path == pat || pat + "." <= path
  }

  /** One pattern in one mode: in wildcard mode a glob match, with the literal
      rule still applying when the glob does not match. */
  predicate PatternMatches(path: string, pat: string, useWildcard: bool) {
    (useWildcard && Glob.Fnmatch(path, pat)) || LiteralMatch(path, pat)
  }

  /** `_path_matches_any`: the patterns are tried in order and the first one
      that matches decides. */
  function PathMatchesAny(path: string, patterns: seq<string>, useWildcard: bool): bool {
    if |patterns| == 0 then false
    else if PatternMatches(path, patterns[0], useWildcard) then true
    else PathMatchesAny(path, patterns[1..], useWildcard)
  }

  /** A path is excluded exactly when some pattern in the list matches it. */
  lemma {:induction false} PathMatchesAnyIff(path: string, patterns: seq<string>, useWildcard: bool)
    ensures PathMatchesAny(path, patterns, useWildcard) <==> exists j :: 0 <= j < |patterns| && PatternMatches(path, patterns[j], useWildcard)
    decreases |patterns|
  {
    if |patterns| > 0 {
      assert forall j :: 0 < j < |patterns| ==> patterns[j] == patterns[1..][j - 1];
      PathMatchesAnyIff(path, patterns[1..], useWildcard);
      if exists j :: 0 <= j < |patterns| && PatternMatches(path, patterns[j], useWildcard) {
        var j :| 0 <= j < |patterns| && PatternMatches(path, patterns[j], useWildcard);
        if j > 0 {
          assert PatternMatches(path, patterns[1..][j - 1], useWildcard);
        }
      }
    }
  }

  /** `patterns or []`: a missing pattern list excludes nothing, like an empty one. */
  function PatternList(patterns: Option<seq<string>>): seq<string> {
    match patterns
    case None => []
    case Some(ps) => ps
  }

  lemma NoPatternsExcludeNothing(path: string, patterns: Option<seq<string>>, useWildcard: bool)
    requires patterns == None || patterns == Some([])
    ensures !PathMatchesAny(path, PatternList(patterns), useWildcard)
  {
  }

  /** Every path excluded in literal mode is excluded in wildcard mode too. */
  lemma WildcardExtendsLiteral(path: string, patterns: seq<string>)
    ensures PathMatchesAny(path, patterns, false) ==> PathMatchesAny(path, patterns, true)
  {
    PathMatchesAnyIff(path, patterns, false);
    PathMatchesAnyIff(path, patterns, true);
  }

  lemma LiteralMatchCoversMember(path: string, key: string, pat: string)
    requires path != ""
    requires LiteralMatch(path, pat)
    ensures LiteralMatch(KeyPath(path, key), pat)
  {
    var child := KeyPath(path, key);
    assert child == path + ("." + key);
    if path == pat {
      assert child == (pat + ".") + key;
    } else {
      assert forall i :: 0 <= i < |pat| + 1 ==> (pat + ".")[i] == path[i] == child[i];
    }
  }

  /** In literal mode the members of an excluded (non-empty) path are
      excluded as well. */
  lemma LiteralExclusionCoversMembers(path: string, key: string, patterns: seq<string>)
    requires path != ""
    requires PathMatchesAny(path, patterns, false)
    ensures PathMatchesAny(KeyPath(path, key), patterns, false)
  {
    PathMatchesAnyIff(path, patterns, false);
    var j :| 0 <= j < |patterns| && PatternMatches(path, patterns[j], false);
    LiteralMatchCoversMember(path, key, patterns[j]);
    assert PatternMatches(KeyPath(path, key), patterns[j], false);
    PathMatchesAnyIff(KeyPath(path, key), patterns, false);
  }

  /** In literal mode a pattern does not reach the list elements directly
      below it: the literal pattern `p` never matches `p[i]`. */
  lemma LiteralPatternSkipsIndexChildren(pat: string, index: nat)
    ensures !LiteralMatch(IndexPath(pat, index), pat)
  {
    var p := IndexPath(pat, index);
    ChildPathsExtendParent(pat, "", index);
    assert p[|pat|] == '[';
    assert (pat + ".")[|pat|] == '.';
  }

  /** The pattern `data` excludes `data.email` but neither `database` nor
      `data[0]`. */
  lemma PrefixBoundary()
    ensures PathMatchesAny("data.email", ["data"], false)
    ensures !PathMatchesAny("database", ["data"], false)
    ensures !PathMatchesAny("data[0]", ["data"], false)
  {
    assert "data" + "." <= "data.email";
    assert !("data" + "." <= "database") by {
      assert "database"[4] == 'b';
    }
    LiteralPatternSkipsIndexChildren("data", 0);
    assert IndexPath("data", 0) == "data[0]";
  }
}
