/**
 * Concrete scenarios for the matcher, written as lemmas over literal values.
 */
module MatcherExamples {
  import opened JsonValue
  import opened Paths
  import opened Matcher
  import Glob

  /** An excluded leaf is never compared. */
  lemma ExcludedLeafNotCompared()
    ensures Match(Obj([("a", Obj([("b", Int(1))]))]), Obj([("a", Obj([("b", Int(2))]))]), "", ["a.b"], false) == Pass
  {
    assert KeyPath("a", "b") == "a.b";
    assert PathMatchesAny("a.b", ["a.b"], false);
    assert !PathMatchesAny("a", ["a.b"], false) by {
      assert !("a.b" + "." <= "a");
    }
  }

  /** Excluding `a.b` does not excuse `a` being a string: the container at
      `a` is type-checked before its member `b` is ever considered. */
  lemma ExcludedMemberDoesNotExcuseParentType()
    ensures Match(Obj([("a", Obj([("b", Int(1))]))]), Obj([("a", Str("not-an-object"))]), "", ["a.b"], false)
         == Fail(TypeMismatch(ObjectKind), "a")
  {
    assert !PathMatchesAny("a", ["a.b"], false) by {
      assert !("a.b" + "." <= "a");
    }
  }

  /** Without exclusions a differing leaf fails at its own path. */
  lemma DifferingLeafFails()
    ensures Match(Obj([("a", Int(1))]), Obj([("a", Int(2))]), "", [], false) == Fail(ValueMismatch, "a")
  {
  }

  /** The pattern `data` does not reach the key `database`. */
  lemma PrefixBoundaryInMatch()
    ensures Match(Obj([("database", Int(1))]), Obj([("database", Int(2))]), "", ["data"], false)
         == Fail(ValueMismatch, "database")
  {
    PrefixBoundary();
  }

  /** A missing key is reported at the child path. */
  lemma MissingKeyReported()
    ensures Match(Obj([("x", Int(1)), ("y", Int(2))]), Obj([("x", Int(1))]), "", [], false) == Fail(MissingKey, "y")
  {
    var e := Obj([("x", Int(1)), ("y", Int(2))]);
    var a := Obj([("x", Int(1))]);
    assert FieldOutcome(e, 0, a.fields, "", [], false) == Pass;
    assert FieldOutcome(e, 1, a.fields, "", [], false) == Fail(MissingKey, "y");
  }

  /** No coercion between an integer and a string. */
  lemma NoCoercion()
    ensures Match(Int(1), Str("1"), "", [], false) == Fail(ValueMismatch, "")
    ensures Match(Int(1), Int(1), "", [], false) == Pass
    ensures Match(Null, Null, "", [], false) == Pass
  {
  }

  /** Neither `items` nor `items[0].id` is excluded by the glob `items[*].id`. */
  lemma BracketGlobExcludesNeitherPath()
    ensures !PathMatchesAny("items", ["items[*].id"], true)
    ensures !PathMatchesAny("items[0].id", ["items[*].id"], true)
  {
    assert "items" + "[*]" + ".id" == "items[*].id";
    Glob.BracketStarMatchesOnlyStar("items", ".id", "items");
    Glob.BracketStarMatchesOnlyStar("items", ".id", "items[0].id");
    assert !("items[*].id" + "." <= "items");
    assert !("items[*].id" + "." <= "items[0].id");
  }

  /** The walk over `{"items": [{"id": ...}]}` with any ignore list that
      excludes neither `items` nor `items[0].id`. */
  lemma IndexedLeafCompared(ign: seq<string>, useWildcard: bool)
    requires !PathMatchesAny("items", ign, useWildcard)
    requires !PathMatchesAny("items[0].id", ign, useWildcard)
    ensures Match(Obj([("items", Arr([Obj([("id", Int(1))])]))]),
                  Obj([("items", Arr([Obj([("id", Int(2))])]))]),
                  "", ign, useWildcard)
         == Fail(ValueMismatch, "items[0].id")
  {
    assert IndexPath("items", 0) == "items[0]";
    assert KeyPath("items[0]", "id") == "items[0].id";
    var leafE, leafA := Obj([("id", Int(1))]), Obj([("id", Int(2))]);
    assert FieldOutcome(leafE, 0, leafA.fields, "items[0]", ign, useWildcard) == Fail(ValueMismatch, "items[0].id");
    assert Match(leafE, leafA, "items[0]", ign, useWildcard) == Fail(ValueMismatch, "items[0].id");
    var listE, listA := Arr([leafE]), Arr([leafA]);
    assert ItemOutcome(listE, 0, listA.items, "items", ign, useWildcard) == Fail(ValueMismatch, "items[0].id");
    assert Match(listE, listA, "items", ign, useWildcard) == Fail(ValueMismatch, "items[0].id");
    var topE, topA := Obj([("items", listE)]), Obj([("items", listA)]);
    assert FieldOutcome(topE, 0, topA.fields, "", ign, useWildcard) == Fail(ValueMismatch, "items[0].id");
  }

  /** The glob `items[*].id` does not exclude `items[0].id`: the brackets
      form a character class holding `*`, so the leaf is still compared. */
  lemma BracketGlobDoesNotExcludeIndex()
    ensures Match(Obj([("items", Arr([Obj([("id", Int(1))])]))]),
                  Obj([("items", Arr([Obj([("id", Int(2))])]))]),
                  "", ["items[*].id"], true)
         == Fail(ValueMismatch, "items[0].id")
  {
    BracketGlobExcludesNeitherPath();
    IndexedLeafCompared(["items[*].id"], true);
  }

  /** A container reached through a list index is not checked against the
      exclusion list: excluding `[0]` still reports the type mismatch there. */
  lemma IndexedContainerNotExcluded()
    ensures Match(Arr([Obj([("id", Int(1))])]), Arr([Int(5)]), "", ["[0]"], false)
         == Fail(TypeMismatch(ObjectKind), "[0]")
  {
    assert IndexPath("", 0) == "[0]";
  }
}
