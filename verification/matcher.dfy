/**
 * The partial structural matcher `_assert_partial`: the expected value
 * drives a depth-first walk over the actual value and the first violation
 * ends the walk.
 */
module Matcher {
  import opened Wrappers
  import opened JsonValue
  import opened Paths

  datatype ContainerKind = ObjectKind | ListKind

  /** The four assertion messages of the matcher. */
  datatype FailKind =
    | TypeMismatch(wanted: ContainerKind)   // "Type mismatch at <path>"
    | MissingKey                            // "Missing key: <path>"
    | ListTooShort(minLength: nat)          // "List too short at <path>"
    | ValueMismatch                         // "Value mismatch at <path>"

  datatype Outcome = Pass | Fail(kind: FailKind, path: string)

  /** The matcher at `path`. Exclusion is consulted for scalar leaves here
      and for object members in FieldOutcome, never for a container itself. */
  function Match(expected: Value, actual: Value, path: string, ignore: seq<string>, useWildcard: bool): Outcome
    decreases expected, 1
  {
    match expected
    case Obj(fields) =>
      if !actual.Obj? then Fail(TypeMismatch(ObjectKind), path)
      else MatchFields(expected, 0, actual.fields, path, ignore, useWildcard)
    case Arr(items) =>
      if !actual.Arr? then Fail(TypeMismatch(ListKind), path)
      else if |actual.items| < |items| then Fail(ListTooShort(|items|), path)
      else MatchItems(expected, 0, actual.items, path, ignore, useWildcard)
    case _ =>
      if PathMatchesAny(path, ignore, useWildcard) then Pass
      else if expected == actual then Pass
      else Fail(ValueMismatch, path)
  }

  /** The outcome for the member `expected.fields[i]`: skipped when its path
      is excluded, missing when the actual object lacks the key, otherwise
      the match of the two member values. */
  function FieldOutcome(expected: Value, i: nat, actual: seq<(string, Value)>, path: string, ignore: seq<string>, useWildcard: bool): Outcome
    requires expected.Obj? && i < |expected.fields|
    decreases expected, 0, 0
  {
    var key := expected.fields[i].0;
    var child := KeyPath(path, key);
    if PathMatchesAny(child, ignore, useWildcard) then Pass
    else match Lookup(actual, key)
      case None => Fail(MissingKey, child)
      case Some(v) => Match(expected.fields[i].1, v, child, ignore, useWildcard)
  }

  /** The members of `expected` from position `i` on, in order, stopping at
      the first failure. */
  function MatchFields(expected: Value, i: nat, actual: seq<(string, Value)>, path: string, ignore: seq<string>, useWildcard: bool): Outcome
    requires expected.Obj? && i <= |expected.fields|
    decreases expected, 0, |expected.fields| - i
  {
    if i == |expected.fields| then Pass
    else
      var r := FieldOutcome(expected, i, actual, path, ignore, useWildcard);
      if r.Fail? then r else MatchFields(expected, i + 1, actual, path, ignore, useWildcard)
  }

  /** The outcome for the element `expected.items[i]`, matched at `path[i]`. */
  function ItemOutcome(expected: Value, i: nat, actual: seq<Value>, path: string, ignore: seq<string>, useWildcard: bool): Outcome
    requires expected.Arr? && i < |expected.items| <= |actual|
    decreases expected, 0, 0
  {
    Match(expected.items[i], actual[i], IndexPath(path, i), ignore, useWildcard)
  }

  /** The elements of `expected` from index `i` on, in increasing order,
      stopping at the first failure. */
  function MatchItems(expected: Value, i: nat, actual: seq<Value>, path: string, ignore: seq<string>, useWildcard: bool): Outcome
    requires expected.Arr? && i <= |expected.items| <= |actual|
    decreases expected, 0, |expected.items| - i
  {
    if i == |expected.items| then Pass
    else
      var r := ItemOutcome(expected, i, actual, path, ignore, useWildcard);
      if r.Fail? then r else MatchItems(expected, i + 1, actual, path, ignore, useWildcard)
  }

  /** `_assert_partial(expected, actual, ignore_keys=..., use_wildcard=...)`,
      entered with the empty root path. */
  function AssertPartial(expected: Value, actual: Value, ignoreKeys: Option<seq<string>>, useWildcard: bool): Outcome {
    Match(expected, actual, "", PatternList(ignoreKeys), useWildcard)
  }

  /** Leaving `ignore_keys` out is the same as passing an empty list, and
      then the match succeeds exactly when actual holds everything expected
      holds. */
  lemma AssertPartialWithoutIgnoreKeys(expected: Value, actual: Value, useWildcard: bool)
    ensures AssertPartial(expected, actual, None, useWildcard) == AssertPartial(expected, actual, Some([]), useWildcard)
    ensures AssertPartial(expected, actual, None, useWildcard) == Pass <==> Supersedes(actual, expected)
  {
    MatchWithoutExclusionsIffSuperset(expected, actual, "", useWildcard);
  }

  /** A missing key or a differing value is never reported at a path the
      ignore list excludes. */
  lemma AssertPartialNeverBlamesExcludedPath(expected: Value, actual: Value, ignoreKeys: Option<seq<string>>, useWildcard: bool)
    requires AssertPartial(expected, actual, ignoreKeys, useWildcard).Fail?
    requires AssertPartial(expected, actual, ignoreKeys, useWildcard).kind.ValueMismatch?
          || AssertPartial(expected, actual, ignoreKeys, useWildcard).kind.MissingKey?
    ensures !PathMatchesAny(AssertPartial(expected, actual, ignoreKeys, useWildcard).path, PatternList(ignoreKeys), useWildcard)
  {
    FailureWithinSubtree(expected, actual, "", PatternList(ignoreKeys), useWildcard);
  }

  /* ---------------------------------------------------------------------
     Where failures are reported.
     --------------------------------------------------------------------- */

  /** A failure is reported inside the subtree being matched, and a
      missing key or a differing value is never reported at an excluded
      path. */
  ghost predicate ReportedWithin(r: Outcome, prefix: string, ignore: seq<string>, useWildcard: bool) {
    r.Fail? ==>
      && prefix <= r.path
      && ((r.kind.ValueMismatch? || r.kind.MissingKey?) ==> !PathMatchesAny(r.path, ignore, useWildcard))
  }

  lemma PrefixTransitive(a: string, b: string, c: string)
    requires a <= b && b <= c
    ensures a <= c
  {
    assert forall q :: 0 <= q < |a| ==> a[q] == b[q] == c[q];
  }

  lemma {:induction false} FailureWithinSubtree(expected: Value, actual: Value, path: string, ignore: seq<string>, useWildcard: bool)
    ensures ReportedWithin(Match(expected, actual, path, ignore, useWildcard), path, ignore, useWildcard)
    decreases expected, 1
  {
    match expected
    case Obj(fields) =>
      if actual.Obj? {
        FieldsFailureWithinSubtree(expected, 0, actual.fields, path, ignore, useWildcard);
      }
    case Arr(items) =>
      if actual.Arr? && |items| <= |actual.items| {
        ItemsFailureWithinSubtree(expected, 0, actual.items, path, ignore, useWildcard);
        var r := MatchItems(expected, 0, actual.items, path, ignore, useWildcard);
        if r.Fail? {
          PrefixTransitive(path, path + "[", r.path);
        }
      }
    case _ =>
  }

  lemma {:induction false} FieldsFailureWithinSubtree(expected: Value, i: nat, actual: seq<(string, Value)>, path: string, ignore: seq<string>, useWildcard: bool)
    requires expected.Obj? && i <= |expected.fields|
    ensures ReportedWithin(MatchFields(expected, i, actual, path, ignore, useWildcard), path, ignore, useWildcard)
    ensures path != "" ==> ReportedWithin(MatchFields(expected, i, actual, path, ignore, useWildcard), path + ".", ignore, useWildcard)
    decreases expected, 0, |expected.fields| - i
  {
    if i < |expected.fields| {
      var key := expected.fields[i].0;
      var child := KeyPath(path, key);
      ChildPathsExtendParent(path, key, 0);
      if !PathMatchesAny(child, ignore, useWildcard) && Lookup(actual, key).Some? {
        var r := Match(expected.fields[i].1, Lookup(actual, key).value, child, ignore, useWildcard);
        FailureWithinSubtree(expected.fields[i].1, Lookup(actual, key).value, child, ignore, useWildcard);
        if r.Fail? {
          PrefixTransitive(path, child, r.path);
          if path != "" {
            PrefixTransitive(path + ".", child, r.path);
          }
        }
      }
      FieldsFailureWithinSubtree(expected, i + 1, actual, path, ignore, useWildcard);
    }
  }

  lemma {:induction false} ItemsFailureWithinSubtree(expected: Value, i: nat, actual: seq<Value>, path: string, ignore: seq<string>, useWildcard: bool)
    requires expected.Arr? && i <= |expected.items| <= |actual|
    ensures ReportedWithin(MatchItems(expected, i, actual, path, ignore, useWildcard), path + "[", ignore, useWildcard)
    decreases expected, 0, |expected.items| - i
  {
    if i < |expected.items| {
      var child := IndexPath(path, i);
      ChildPathsExtendParent(path, "", i);
      assert path + "[" <= child by {
        assert child == (path + "[") + (NatToString(i) + "]");
      }
      var r := Match(expected.items[i], actual[i], child, ignore, useWildcard);
      FailureWithinSubtree(expected.items[i], actual[i], child, ignore, useWildcard);
      if r.Fail? {
        PrefixTransitive(path + "[", child, r.path);
      }
      ItemsFailureWithinSubtree(expected, i + 1, actual, path, ignore, useWildcard);
    }
  }

  /* ---------------------------------------------------------------------
     Declarative reading of a successful match.
     --------------------------------------------------------------------- */

  /** `actual` satisfies `expected` at `path`: objects hold every expected
      member whose path is not excluded, lists are at least as long and
      agree element-wise, and every scalar leaf is excluded or equal. */
  ghost predicate Conforms(expected: Value, actual: Value, path: string, ignore: seq<string>, useWildcard: bool)
    decreases expected, 1
  {
    match expected
    case Obj(fields) =>
      && actual.Obj?
      && AllFieldsConform(expected, actual.fields, path, ignore, useWildcard)
    case Arr(items) =>
      && actual.Arr?
      && |items| <= |actual.items|
      && forall i :: 0 <= i < |items| ==> Conforms(items[i], actual.items[i], IndexPath(path, i), ignore, useWildcard)
    case _ =>
      PathMatchesAny(path, ignore, useWildcard) || expected == actual
  }

  /** Every member of `expected` is excluded, or present and conforming. */
  ghost predicate AllFieldsConform(expected: Value, actual: seq<(string, Value)>, path: string, ignore: seq<string>, useWildcard: bool)
    requires expected.Obj?
    decreases expected, 0, 1
  {
    forall i :: 0 <= i < |expected.fields| ==> FieldConforms(expected, i, actual, path, ignore, useWildcard)
  }

  /** The member `expected.fields[i]` is excluded, or present and conforming. */
  ghost predicate FieldConforms(expected: Value, i: nat, actual: seq<(string, Value)>, path: string, ignore: seq<string>, useWildcard: bool)
    requires expected.Obj? && i < |expected.fields|
    decreases expected, 0, 0
  {
    var key := expected.fields[i].0;
    var child := KeyPath(path, key);
    || PathMatchesAny(child, ignore, useWildcard)
    || (Lookup(actual, key).Some? && Conforms(expected.fields[i].1, Lookup(actual, key).value, child, ignore, useWildcard))
  }

  /** The fail-fast walk passes exactly when the declarative reading holds. */
  lemma {:induction false} MatchPassIffConforms(expected: Value, actual: Value, path: string, ignore: seq<string>, useWildcard: bool)
    ensures Match(expected, actual, path, ignore, useWildcard) == Pass <==> Conforms(expected, actual, path, ignore, useWildcard)
    decreases expected, 1
  {
    if expected.Obj? && actual.Obj? {
      assert Match(expected, actual, path, ignore, useWildcard) == MatchFields(expected, 0, actual.fields, path, ignore, useWildcard);
      MatchFieldsPassIff(expected, 0, actual.fields, path, ignore, useWildcard);
      FieldsConformFromIffAll(expected, actual.fields, path, ignore, useWildcard);
      assert Conforms(expected, actual, path, ignore, useWildcard) <==> AllFieldsConform(expected, actual.fields, path, ignore, useWildcard);
    } else if expected.Arr? && actual.Arr? && |expected.items| <= |actual.items| {
      MatchItemsPassIff(expected, 0, actual.items, path, ignore, useWildcard);
    }
  }

  lemma {:induction false} FieldOutcomePassIff(expected: Value, i: nat, actual: seq<(string, Value)>, path: string, ignore: seq<string>, useWildcard: bool)
    requires expected.Obj? && i < |expected.fields|
    ensures FieldOutcome(expected, i, actual, path, ignore, useWildcard) == Pass
        <==> FieldConforms(expected, i, actual, path, ignore, useWildcard)
    decreases expected, 0, 0
  {
    var key := expected.fields[i].0;
    var child := KeyPath(path, key);
    if !PathMatchesAny(child, ignore, useWildcard) && Lookup(actual, key).Some? {
      MatchPassIffConforms(expected.fields[i].1, Lookup(actual, key).value, child, ignore, useWildcard);
    }
  }

  /** Whether each member of `expected` conforms, position by position. */
  ghost function FieldVerdicts(expected: Value, actual: seq<(string, Value)>, path: string, ignore: seq<string>, useWildcard: bool): seq<bool>
    requires expected.Obj?
  {
    seq(|expected.fields|, j requires 0 <= j < |expected.fields| => FieldConforms(expected, j, actual, path, ignore, useWildcard))
  }

  /** All of `b` from index `i` on is true. */
  predicate AllTrueFrom(b: seq<bool>, i: nat)
    requires i <= |b|
    decreases |b| - i
  {
    i == |b| || (b[i] && AllTrueFrom(b, i + 1))
  }

  /** Every member of `expected` from position `i` on conforms, read one
      member after another. */
  ghost predicate FieldsConformFrom(expected: Value, i: nat, actual: seq<(string, Value)>, path: string, ignore: seq<string>, useWildcard: bool)
    requires expected.Obj? && i <= |expected.fields|
  {
    AllTrueFrom(FieldVerdicts(expected, actual, path, ignore, useWildcard), i)
  }

  lemma {:induction false} AllTrueFromIffAll(b: seq<bool>, i: nat)
    requires i <= |b|
    ensures AllTrueFrom(b, i) <==> forall j :: i <= j < |b| ==> b[j]
    decreases |b| - i
  {
    if i < |b| {
      AllTrueFromIffAll(b, i + 1);
      if forall j :: i <= j < |b| ==> b[j] {
        assert b[i];
      }
    }
  }

  lemma FieldVerdictAt(expected: Value, i: nat, actual: seq<(string, Value)>, path: string, ignore: seq<string>, useWildcard: bool)
    requires expected.Obj? && i < |expected.fields|
    ensures |FieldVerdicts(expected, actual, path, ignore, useWildcard)| == |expected.fields|
    ensures FieldVerdicts(expected, actual, path, ignore, useWildcard)[i] == FieldConforms(expected, i, actual, path, ignore, useWildcard)
  {
  }

  lemma AllTrueFromUnfold(b: seq<bool>, i: nat)
    requires i < |b|
    ensures AllTrueFrom(b, i) == (b[i] && AllTrueFrom(b, i + 1))
  {
  }

  lemma FieldsConformFromIffAll(expected: Value, actual: seq<(string, Value)>, path: string, ignore: seq<string>, useWildcard: bool)
    requires expected.Obj?
    ensures FieldsConformFrom(expected, 0, actual, path, ignore, useWildcard) <==> AllFieldsConform(expected, actual, path, ignore, useWildcard)
  {
    var v := FieldVerdicts(expected, actual, path, ignore, useWildcard);
    AllTrueFromIffAll(v, 0);
    if AllTrueFrom(v, 0) {
      forall j | 0 <= j < |expected.fields|
        ensures FieldConforms(expected, j, actual, path, ignore, useWildcard)
      {
        assert v[j];
      }
    } else {
      var j :| 0 <= j < |v| && !v[j];
      assert !FieldConforms(expected, j, actual, path, ignore, useWildcard);
    }
  }

  /** Two fail-fast walks whose first steps agree and whose remaining walks
      agree give the same outcome. */
  lemma StepSame(walk1: Outcome, head1: Outcome, rest1: Outcome, walk2: Outcome, head2: Outcome, rest2: Outcome)
    requires walk1 == if head1.Fail? then head1 else rest1
    requires walk2 == if head2.Fail? then head2 else rest2
    requires head1 == head2 && rest1 == rest2
    ensures walk1 == walk2
  {
  }

  /** One step of a fail-fast walk: the walk passes exactly when the head
      passes and the rest of the walk passes. */
  lemma StepPassIff(walk: Outcome, head: Outcome, rest: Outcome, headOk: bool, restOk: bool, allOk: bool)
    requires walk == if head.Fail? then head else rest
    requires head == Pass <==> headOk
    requires rest == Pass <==> restOk
    requires allOk == (headOk && restOk)
    ensures walk == Pass <==> allOk
  {
  }

  lemma {:induction false} MatchFieldsPassIff(expected: Value, i: nat, actual: seq<(string, Value)>, path: string, ignore: seq<string>, useWildcard: bool)
    requires expected.Obj? && i <= |expected.fields|
    ensures MatchFields(expected, i, actual, path, ignore, useWildcard) == Pass
        <==> FieldsConformFrom(expected, i, actual, path, ignore, useWildcard)
    decreases expected, 0, |expected.fields| - i
  {
    if i < |expected.fields| {
      FieldOutcomePassIff(expected, i, actual, path, ignore, useWildcard);
      MatchFieldsPassIff(expected, i + 1, actual, path, ignore, useWildcard);
      MatchFieldsPassStep(expected, i, actual, path, ignore, useWildcard);
    } else {
      MatchFieldsPassEnd(expected, actual, path, ignore, useWildcard);
    }
  }

  /** Past the last member the walk passes and nothing is left to conform. */
  lemma MatchFieldsPassEnd(expected: Value, actual: seq<(string, Value)>, path: string, ignore: seq<string>, useWildcard: bool)
    requires expected.Obj?
    ensures MatchFields(expected, |expected.fields|, actual, path, ignore, useWildcard) == Pass
    ensures FieldsConformFrom(expected, |expected.fields|, actual, path, ignore, useWildcard)
  {
    assert |FieldVerdicts(expected, actual, path, ignore, useWildcard)| == |expected.fields|;
  }

  /** One member of the walk: if the member's outcome and the rest of the
      walk each pass exactly when they conform, so does the walk from it. */
  lemma MatchFieldsPassStep(expected: Value, i: nat, actual: seq<(string, Value)>, path: string, ignore: seq<string>, useWildcard: bool)
    requires expected.Obj? && i < |expected.fields|
    requires FieldOutcome(expected, i, actual, path, ignore, useWildcard) == Pass
        <==> FieldConforms(expected, i, actual, path, ignore, useWildcard)
    requires MatchFields(expected, i + 1, actual, path, ignore, useWildcard) == Pass
        <==> FieldsConformFrom(expected, i + 1, actual, path, ignore, useWildcard)
    ensures MatchFields(expected, i, actual, path, ignore, useWildcard) == Pass
        <==> FieldsConformFrom(expected, i, actual, path, ignore, useWildcard)
  {
    MatchFieldsUnfold(expected, i, actual, path, ignore, useWildcard);
    FieldVerdictAt(expected, i, actual, path, ignore, useWildcard);
    AllTrueFromUnfold(FieldVerdicts(expected, actual, path, ignore, useWildcard), i);
    StepPassIff(
      MatchFields(expected, i, actual, path, ignore, useWildcard),
      FieldOutcome(expected, i, actual, path, ignore, useWildcard),
      MatchFields(expected, i + 1, actual, path, ignore, useWildcard),
      FieldVerdicts(expected, actual, path, ignore, useWildcard)[i],
      FieldsConformFrom(expected, i + 1, actual, path, ignore, useWildcard),
      FieldsConformFrom(expected, i, actual, path, ignore, useWildcard));
  }

  lemma {:induction false} MatchItemsPassIff(expected: Value, i: nat, actual: seq<Value>, path: string, ignore: seq<string>, useWildcard: bool)
    requires expected.Arr? && i <= |expected.items| <= |actual|
    ensures MatchItems(expected, i, actual, path, ignore, useWildcard) == Pass
        <==> forall j :: i <= j < |expected.items| ==> Conforms(expected.items[j], actual[j], IndexPath(path, j), ignore, useWildcard)
    decreases expected, 0, |expected.items| - i
  {
    if i < |expected.items| {
      MatchPassIffConforms(expected.items[i], actual[i], IndexPath(path, i), ignore, useWildcard);
      MatchItemsPassIff(expected, i + 1, actual, path, ignore, useWildcard);
      assert MatchItems(expected, i, actual, path, ignore, useWildcard) == Pass
        <==> ItemOutcome(expected, i, actual, path, ignore, useWildcard) == Pass
             && MatchItems(expected, i + 1, actual, path, ignore, useWildcard) == Pass;
    }
  }

  /* ---------------------------------------------------------------------
     Superset tolerance.
     --------------------------------------------------------------------- */

  /** `big` holds everything `small` holds: equal scalars, every key of each
      object (extra keys allowed) and each list as a prefix (extra trailing
      elements allowed). */
  ghost predicate Supersedes(big: Value, small: Value)
    decreases small
  {
    match small
    case Obj(fields) =>
      && big.Obj?
      && forall i :: 0 <= i < |fields| ==>
           && Lookup(big.fields, fields[i].0).Some?
           && Supersedes(Lookup(big.fields, fields[i].0).value, fields[i].1)
    case Arr(items) =>
      && big.Arr?
      && |items| <= |big.items|
      && forall i :: 0 <= i < |items| ==> Supersedes(big.items[i], items[i])
    case _ => big == small
  }

  /** Every well-formed value holds itself. */
  lemma {:induction false} SupersedesReflexive(v: Value)
    requires WellFormed(v)
    ensures Supersedes(v, v)
    decreases v
  {
    match v
    case Obj(fields) =>
      forall i | 0 <= i < |fields|
        ensures Lookup(fields, fields[i].0) == Some(fields[i].1)
        ensures Supersedes(fields[i].1, fields[i].1)
      {
        LookupUnique(fields, i);
        SupersedesReflexive(fields[i].1);
      }
    case Arr(items) =>
      forall i | 0 <= i < |items|
        ensures Supersedes(items[i], items[i])
      {
        SupersedesReflexive(items[i]);
      }
    case _ =>
  }

  lemma {:induction false} SupersedesTransitive(c: Value, b: Value, a: Value)
    requires Supersedes(c, b) && Supersedes(b, a)
    ensures Supersedes(c, a)
    decreases a
  {
    match a
    case Obj(fields) =>
      forall i | 0 <= i < |fields|
        ensures Lookup(c.fields, fields[i].0).Some?
        ensures Supersedes(Lookup(c.fields, fields[i].0).value, fields[i].1)
      {
        var key := fields[i].0;
        var bv := Lookup(b.fields, key).value;
        LookupFindsMember(b.fields, key);
        var j :| 0 <= j < |b.fields| && b.fields[j] == (key, bv);
        assert Lookup(c.fields, b.fields[j].0).Some?;
        SupersedesTransitive(Lookup(c.fields, key).value, bv, fields[i].1);
      }
    case Arr(items) =>
      forall i | 0 <= i < |items|
        ensures Supersedes(c.items[i], items[i])
      {
        SupersedesTransitive(c.items[i], b.items[i], items[i]);
      }
    case _ =>
  }

  /** Adding keys or trailing elements anywhere in `actual` never turns a
      conforming value into a non-conforming one. */
  lemma {:induction false} ConformsUnderSuperset(expected: Value, actual: Value, bigger: Value, path: string, ignore: seq<string>, useWildcard: bool)
    requires Conforms(expected, actual, path, ignore, useWildcard)
    requires Supersedes(bigger, actual)
    ensures Conforms(expected, bigger, path, ignore, useWildcard)
    decreases expected
  {
    match expected
    case Obj(fields) =>
      forall i | 0 <= i < |fields|
        ensures FieldConforms(expected, i, bigger.fields, path, ignore, useWildcard)
      {
        assert FieldConforms(expected, i, actual.fields, path, ignore, useWildcard);
        var key := fields[i].0;
        var child := KeyPath(path, key);
        if !PathMatchesAny(child, ignore, useWildcard) {
          var av := Lookup(actual.fields, key).value;
          LookupFindsMember(actual.fields, key);
          var j :| 0 <= j < |actual.fields| && actual.fields[j] == (key, av);
          assert Lookup(bigger.fields, actual.fields[j].0).Some?;
          ConformsUnderSuperset(fields[i].1, av, Lookup(bigger.fields, key).value, child, ignore, useWildcard);
        }
      }
    case Arr(items) =>
      forall i | 0 <= i < |items|
        ensures Conforms(items[i], bigger.items[i], IndexPath(path, i), ignore, useWildcard)
      {
        ConformsUnderSuperset(items[i], actual.items[i], bigger.items[i], IndexPath(path, i), ignore, useWildcard);
      }
    case _ =>
  }

  /** A value that holds everything expected holds conforms to it under any
      exclusion list. */
  lemma {:induction false} SupersetConforms(expected: Value, actual: Value, path: string, ignore: seq<string>, useWildcard: bool)
    requires Supersedes(actual, expected)
    ensures Conforms(expected, actual, path, ignore, useWildcard)
    decreases expected
  {
    match expected
    case Obj(fields) =>
      forall i | 0 <= i < |fields|
        ensures FieldConforms(expected, i, actual.fields, path, ignore, useWildcard)
      {
        var key := fields[i].0;
        SupersetConforms(fields[i].1, Lookup(actual.fields, key).value, KeyPath(path, key), ignore, useWildcard);
      }
    case Arr(items) =>
      forall i | 0 <= i < |items|
        ensures Conforms(items[i], actual.items[i], IndexPath(path, i), ignore, useWildcard)
      {
        SupersetConforms(items[i], actual.items[i], IndexPath(path, i), ignore, useWildcard);
      }
    case _ =>
  }

  /** Without exclusions, conforming means holding everything expected holds. */
  lemma {:induction false} ConformsWithoutExclusions(expected: Value, actual: Value, path: string, useWildcard: bool)
    requires Conforms(expected, actual, path, [], useWildcard)
    ensures Supersedes(actual, expected)
    decreases expected
  {
    match expected
    case Obj(fields) =>
      forall i | 0 <= i < |fields|
        ensures Lookup(actual.fields, fields[i].0).Some?
        ensures Supersedes(Lookup(actual.fields, fields[i].0).value, fields[i].1)
      {
        assert FieldConforms(expected, i, actual.fields, path, [], useWildcard);
        var key := fields[i].0;
        ConformsWithoutExclusions(fields[i].1, Lookup(actual.fields, key).value, KeyPath(path, key), useWildcard);
      }
    case Arr(items) =>
      forall i | 0 <= i < |items|
        ensures Supersedes(actual.items[i], items[i])
      {
        ConformsWithoutExclusions(items[i], actual.items[i], IndexPath(path, i), useWildcard);
      }
    case _ =>
  }

  /** Superset tolerance: an actual value holding every key, element and
      scalar of expected (plus anything else) always matches. */
  lemma SupersetMatches(expected: Value, actual: Value, path: string, ignore: seq<string>, useWildcard: bool)
    requires Supersedes(actual, expected)
    ensures Match(expected, actual, path, ignore, useWildcard) == Pass
  {
    SupersetConforms(expected, actual, path, ignore, useWildcard);
    MatchPassIffConforms(expected, actual, path, ignore, useWildcard);
  }

  /** Without exclusions a match succeeds exactly when actual holds
      everything expected holds. */
  lemma MatchWithoutExclusionsIffSuperset(expected: Value, actual: Value, path: string, useWildcard: bool)
    ensures Match(expected, actual, path, [], useWildcard) == Pass <==> Supersedes(actual, expected)
  {
    MatchPassIffConforms(expected, actual, path, [], useWildcard);
    if Match(expected, actual, path, [], useWildcard) == Pass {
      ConformsWithoutExclusions(expected, actual, path, useWildcard);
    } else if Supersedes(actual, expected) {
      SupersetMatches(expected, actual, path, [], useWildcard);
    }
  }

  /** A well-formed value matches itself. */
  lemma MatchReflexive(v: Value, path: string, ignore: seq<string>, useWildcard: bool)
    requires WellFormed(v)
    ensures Match(v, v, path, ignore, useWildcard) == Pass
  {
    SupersedesReflexive(v);
    SupersetMatches(v, v, path, ignore, useWildcard);
  }

  /** Extra keys and extra trailing elements, at any depth, never turn a
      passing match into a failing one. */
  lemma PassSurvivesSupersets(expected: Value, actual: Value, bigger: Value, path: string, ignore: seq<string>, useWildcard: bool)
    requires Match(expected, actual, path, ignore, useWildcard) == Pass
    requires Supersedes(bigger, actual)
    ensures Match(expected, bigger, path, ignore, useWildcard) == Pass
  {
    MatchPassIffConforms(expected, actual, path, ignore, useWildcard);
    ConformsUnderSuperset(expected, actual, bigger, path, ignore, useWildcard);
    MatchPassIffConforms(expected, bigger, path, ignore, useWildcard);
  }

  /* ---------------------------------------------------------------------
     What the walk visits, and which failure it reports.
     --------------------------------------------------------------------- */

  /** A key that expected does not mention, added to the actual object,
      leaves the outcome (pass or the very same failure) unchanged. */
  lemma ExtraKeyKeepsOutcome(expected: Value, actual: Value, k: string, v: Value, path: string, ignore: seq<string>, useWildcard: bool)
    requires expected.Obj? && actual.Obj?
    requires k !in Keys(actual.fields) && k !in Keys(expected.fields)
    ensures Match(expected, Obj(actual.fields + [(k, v)]), path, ignore, useWildcard)
         == Match(expected, actual, path, ignore, useWildcard)
  {
    assert actual.fields + [(k, v)] + [] == actual.fields + [(k, v)] && actual.fields + [] == actual.fields;
    InsertedKeyKeepsOutcome(expected, actual.fields, [], k, v, path, ignore, useWildcard);
  }

  lemma {:induction false} TrailingItemsMatchItems(expected: Value, i: nat, actual: seq<Value>, more: seq<Value>, path: string, ignore: seq<string>, useWildcard: bool)
    requires expected.Arr? && i <= |expected.items| <= |actual|
    ensures MatchItems(expected, i, actual + more, path, ignore, useWildcard)
         == MatchItems(expected, i, actual, path, ignore, useWildcard)
    decreases |expected.items| - i
  {
    if i < |expected.items| {
      assert (actual + more)[i] == actual[i];
      TrailingItemsMatchItems(expected, i + 1, actual, more, path, ignore, useWildcard);
    }
  }

  /** Elements appended to an actual list that is already long enough leave
      the outcome unchanged: only indices below |expected| are visited. */
  lemma TrailingItemsKeepOutcome(expected: Value, actual: Value, more: seq<Value>, path: string, ignore: seq<string>, useWildcard: bool)
    requires expected.Arr? && actual.Arr? && |expected.items| <= |actual.items|
    ensures Match(expected, Arr(actual.items + more), path, ignore, useWildcard)
         == Match(expected, actual, path, ignore, useWildcard)
  {
    TrailingItemsMatchItems(expected, 0, actual.items, more, path, ignore, useWildcard);
  }

  /** `other` looks the same as `actual` wherever the walk over `expected`
      looks: the same container kinds, the same keys of expected present,
      the same "too short" verdict for lists, agreement below every visited
      member and element, and the same verdict on every scalar leaf. */
  ghost predicate AgreesOn(expected: Value, actual: Value, other: Value)
    decreases expected
  {
    match expected
    case Obj(fields) =>
      && actual.Obj? == other.Obj?
      && (actual.Obj? ==>
            forall i :: 0 <= i < |fields| ==>
              && Lookup(actual.fields, fields[i].0).Some? == Lookup(other.fields, fields[i].0).Some?
              && (Lookup(actual.fields, fields[i].0).Some? ==>
                    AgreesOn(fields[i].1, Lookup(actual.fields, fields[i].0).value, Lookup(other.fields, fields[i].0).value)))
    case Arr(items) =>
      && actual.Arr? == other.Arr?
      && (actual.Arr? ==>
            && (|actual.items| < |items| <==> |other.items| < |items|)
            && (|items| <= |actual.items| ==>
                  forall i :: 0 <= i < |items| ==> AgreesOn(items[i], actual.items[i], other.items[i])))
    case _ => (actual == expected) == (other == expected)
  }

  /** The walk sees nothing but what `AgreesOn` compares: two actual values
      that agree on expected give the same outcome, pass or the very same
      failure, however else they differ at any depth. */
  lemma {:induction false} AgreesOnKeepsOutcome(expected: Value, actual: Value, other: Value, path: string, ignore: seq<string>, useWildcard: bool)
    requires AgreesOn(expected, actual, other)
    ensures Match(expected, other, path, ignore, useWildcard) == Match(expected, actual, path, ignore, useWildcard)
    decreases expected, 1
  {
    match expected
    case Obj(fields) =>
      if actual.Obj? {
        AgreesFields(expected, 0, actual, other, path, ignore, useWildcard);
      }
    case Arr(items) =>
      if actual.Arr? && |items| <= |actual.items| {
        AgreesItems(expected, 0, actual, other, path, ignore, useWildcard);
      }
    case _ =>
  }

  lemma {:induction false} AgreesFields(expected: Value, i: nat, actual: Value, other: Value, path: string, ignore: seq<string>, useWildcard: bool)
    requires expected.Obj? && actual.Obj? && i <= |expected.fields|
    requires AgreesOn(expected, actual, other)
    ensures MatchFields(expected, i, other.fields, path, ignore, useWildcard)
         == MatchFields(expected, i, actual.fields, path, ignore, useWildcard)
    decreases expected, 0, |expected.fields| - i
  {
    MatchFieldsUnfold(expected, i, actual.fields, path, ignore, useWildcard);
    MatchFieldsUnfold(expected, i, other.fields, path, ignore, useWildcard);
    if i < |expected.fields| {
      AgreesFieldOutcome(expected, i, actual, other, path, ignore, useWildcard);
      AgreesFields(expected, i + 1, actual, other, path, ignore, useWildcard);
      StepSame(
        MatchFields(expected, i, other.fields, path, ignore, useWildcard),
        FieldOutcome(expected, i, other.fields, path, ignore, useWildcard),
        MatchFields(expected, i + 1, other.fields, path, ignore, useWildcard),
        MatchFields(expected, i, actual.fields, path, ignore, useWildcard),
        FieldOutcome(expected, i, actual.fields, path, ignore, useWildcard),
        MatchFields(expected, i + 1, actual.fields, path, ignore, useWildcard));
    }
  }

  lemma {:induction false} AgreesFieldOutcome(expected: Value, i: nat, actual: Value, other: Value, path: string, ignore: seq<string>, useWildcard: bool)
    requires expected.Obj? && actual.Obj? && i < |expected.fields|
    requires AgreesOn(expected, actual, other)
    ensures FieldOutcome(expected, i, other.fields, path, ignore, useWildcard)
         == FieldOutcome(expected, i, actual.fields, path, ignore, useWildcard)
    decreases expected, 0, 0
  {
    var key := expected.fields[i].0;
    var child := KeyPath(path, key);
    assert Lookup(actual.fields, key).Some? == Lookup(other.fields, key).Some?;
    if !PathMatchesAny(child, ignore, useWildcard) && Lookup(actual.fields, key).Some? {
      AgreesOnKeepsOutcome(expected.fields[i].1, Lookup(actual.fields, key).value, Lookup(other.fields, key).value, child, ignore, useWildcard);
    }
  }

  lemma {:induction false} AgreesItems(expected: Value, i: nat, actual: Value, other: Value, path: string, ignore: seq<string>, useWildcard: bool)
    requires expected.Arr? && actual.Arr? && i <= |expected.items| <= |actual.items|
    requires AgreesOn(expected, actual, other)
    ensures other.Arr? && |expected.items| <= |other.items|
    ensures MatchItems(expected, i, other.items, path, ignore, useWildcard)
         == MatchItems(expected, i, actual.items, path, ignore, useWildcard)
    decreases expected, 0, |expected.items| - i
  {
    if i < |expected.items| {
      AgreesOnKeepsOutcome(expected.items[i], actual.items[i], other.items[i], IndexPath(path, i), ignore, useWildcard);
      AgreesItems(expected, i + 1, actual, other, path, ignore, useWildcard);
    }
  }

  /** Every value agrees with itself on any expected value. */
  lemma {:induction false} AgreesOnReflexive(expected: Value, actual: Value)
    ensures AgreesOn(expected, actual, actual)
    decreases expected
  {
    match expected
    case Obj(fields) =>
      if actual.Obj? {
        forall i | 0 <= i < |fields| && Lookup(actual.fields, fields[i].0).Some?
          ensures AgreesOn(fields[i].1, Lookup(actual.fields, fields[i].0).value, Lookup(actual.fields, fields[i].0).value)
        {
          AgreesOnReflexive(fields[i].1, Lookup(actual.fields, fields[i].0).value);
        }
      }
    case Arr(items) =>
      if actual.Arr? && |items| <= |actual.items| {
        forall i | 0 <= i < |items|
          ensures AgreesOn(items[i], actual.items[i], actual.items[i])
        {
          AgreesOnReflexive(items[i], actual.items[i]);
        }
      }
    case _ =>
  }

  /** A key that expected does not mention, inserted anywhere in the actual
      object, leaves the outcome (pass or the very same failure) unchanged. */
  lemma InsertedKeyKeepsOutcome(expected: Value, pre: seq<(string, Value)>, post: seq<(string, Value)>, k: string, v: Value, path: string, ignore: seq<string>, useWildcard: bool)
    requires expected.Obj?
    requires k !in Keys(pre + post) && k !in Keys(expected.fields)
    ensures Match(expected, Obj(pre + [(k, v)] + post), path, ignore, useWildcard)
         == Match(expected, Obj(pre + post), path, ignore, useWildcard)
  {
    var actual := Obj(pre + post);
    var other := Obj(pre + [(k, v)] + post);
    forall i | 0 <= i < |expected.fields|
      ensures Lookup(other.fields, expected.fields[i].0) == Lookup(actual.fields, expected.fields[i].0)
      ensures Lookup(actual.fields, expected.fields[i].0).Some? ==>
                AgreesOn(expected.fields[i].1, Lookup(actual.fields, expected.fields[i].0).value, Lookup(other.fields, expected.fields[i].0).value)
    {
      LookupInsert(pre, post, k, v, expected.fields[i].0);
      if Lookup(actual.fields, expected.fields[i].0).Some? {
        AgreesOnReflexive(expected.fields[i].1, Lookup(actual.fields, expected.fields[i].0).value);
      }
    }
    AgreesOnKeepsOutcome(expected, actual, other, path, ignore, useWildcard);
  }

  /** The length check comes first and is the only check that reports
      "list too short" at the list's own path. */
  lemma ListTooShortIff(expected: Value, actual: Value, path: string, ignore: seq<string>, useWildcard: bool)
    requires expected.Arr? && actual.Arr?
    ensures Match(expected, actual, path, ignore, useWildcard) == Fail(ListTooShort(|expected.items|), path)
        <==> |actual.items| < |expected.items|
  {
    if |expected.items| <= |actual.items| {
      ItemsFailureWithinSubtree(expected, 0, actual.items, path, ignore, useWildcard);
    }
  }

  /** A container expected where actual has another kind fails at the
      container's own path, whatever the exclusion list says about it. */
  lemma ContainerTypeMismatch(expected: Value, actual: Value, path: string, ignore: seq<string>, useWildcard: bool)
    ensures expected.Obj? && !actual.Obj? ==> Match(expected, actual, path, ignore, useWildcard) == Fail(TypeMismatch(ObjectKind), path)
    ensures expected.Arr? && !actual.Arr? ==> Match(expected, actual, path, ignore, useWildcard) == Fail(TypeMismatch(ListKind), path)
  {
  }

  /** A scalar leaf passes when its path is excluded, and otherwise exactly
      when the actual value is the same scalar (no coercion between kinds). */
  lemma ScalarLeaf(expected: Value, actual: Value, path: string, ignore: seq<string>, useWildcard: bool)
    requires expected.IsScalar()
    ensures PathMatchesAny(path, ignore, useWildcard) ==> Match(expected, actual, path, ignore, useWildcard) == Pass
    ensures !PathMatchesAny(path, ignore, useWildcard) ==> (Match(expected, actual, path, ignore, useWildcard) == Pass <==> expected == actual)
    ensures Match(expected, actual, path, ignore, useWildcard).Fail? ==> Match(expected, actual, path, ignore, useWildcard) == Fail(ValueMismatch, path)
  {
  }

  /** A key of expected that actual lacks, at a path that is not excluded,
      fails with "missing key" at the child path once every earlier member
      conforms. */
  lemma MissingKeyFails(expected: Value, i: nat, actual: Value, path: string, ignore: seq<string>, useWildcard: bool)
    requires expected.Obj? && actual.Obj? && i < |expected.fields|
    requires expected.fields[i].0 !in Keys(actual.fields)
    requires !PathMatchesAny(KeyPath(path, expected.fields[i].0), ignore, useWildcard)
    requires forall q :: 0 <= q < i ==> FieldConforms(expected, q, actual.fields, path, ignore, useWildcard)
    ensures Match(expected, actual, path, ignore, useWildcard) == Fail(MissingKey, KeyPath(path, expected.fields[i].0))
  {
    var fs := actual.fields;
    LookupIffKeys(fs, expected.fields[i].0);
    forall q | 0 <= q < i
      ensures FieldOutcome(expected, q, fs, path, ignore, useWildcard) == Pass
    {
      FieldOutcomePassIff(expected, q, fs, path, ignore, useWildcard);
    }
    assert FieldOutcome(expected, i, fs, path, ignore, useWildcard) == Fail(MissingKey, KeyPath(path, expected.fields[i].0));
    FieldOutcomePassIff(expected, i, fs, path, ignore, useWildcard);
    MatchFieldsPassIff(expected, 0, fs, path, ignore, useWildcard);
    FieldsConformFromIffAll(expected, fs, path, ignore, useWildcard);
    assert !AllFieldsConform(expected, fs, path, ignore, useWildcard);
    MatchFieldsFirstFailure(expected, 0, fs, path, ignore, useWildcard);
    var n: nat :| FirstFailingMember(expected, 0, n, fs, path, ignore, useWildcard, MatchFields(expected, 0, fs, path, ignore, useWildcard));
    assert n == i;
  }

  /** `expected` without its member at position `i`. */
  function DropMember(expected: Value, i: nat): (d: Value)
    requires expected.Obj? && i < |expected.fields|
    ensures d.Obj? && |d.fields| == |expected.fields| - 1
  {
    Obj(expected.fields[..i] + expected.fields[i + 1..])
  }

  /** Members before `i` keep their position; later ones move up by one. */
  lemma DropMemberAt(expected: Value, i: nat, k: nat)
    requires expected.Obj? && i < |expected.fields| && k < |expected.fields| - 1
    ensures k < i ==> DropMember(expected, i).fields[k] == expected.fields[k]
    ensures i <= k ==> DropMember(expected, i).fields[k] == expected.fields[k + 1]
  {
  }

  lemma ExcludedMemberPasses(expected: Value, i: nat, actual: seq<(string, Value)>, path: string, ignore: seq<string>, useWildcard: bool)
    requires expected.Obj? && i < |expected.fields|
    requires PathMatchesAny(KeyPath(path, expected.fields[i].0), ignore, useWildcard)
    ensures FieldOutcome(expected, i, actual, path, ignore, useWildcard) == Pass
  {
  }

  lemma SameMemberSameOutcome(e1: Value, i1: nat, e2: Value, i2: nat, actual: seq<(string, Value)>, path: string, ignore: seq<string>, useWildcard: bool)
    requires e1.Obj? && i1 < |e1.fields| && e2.Obj? && i2 < |e2.fields|
    requires e1.fields[i1] == e2.fields[i2]
    ensures FieldOutcome(e1, i1, actual, path, ignore, useWildcard) == FieldOutcome(e2, i2, actual, path, ignore, useWildcard)
  {
  }

  lemma {:induction false} DropMemberShifted(expected: Value, i: nat, k: nat, actual: seq<(string, Value)>, path: string, ignore: seq<string>, useWildcard: bool)
    requires expected.Obj? && i <= k < |expected.fields|
    ensures MatchFields(expected, k + 1, actual, path, ignore, useWildcard)
         == MatchFields(DropMember(expected, i), k, actual, path, ignore, useWildcard)
    decreases |expected.fields| - k
  {
    var d := DropMember(expected, i);
    MatchFieldsUnfold(expected, k + 1, actual, path, ignore, useWildcard);
    MatchFieldsUnfold(d, k, actual, path, ignore, useWildcard);
    if k + 1 < |expected.fields| {
      DropMemberAt(expected, i, k);
      SameMemberSameOutcome(expected, k + 1, d, k, actual, path, ignore, useWildcard);
      DropMemberShifted(expected, i, k + 1, actual, path, ignore, useWildcard);
    }
  }

  lemma {:induction false} DropMemberBefore(expected: Value, i: nat, k: nat, actual: seq<(string, Value)>, path: string, ignore: seq<string>, useWildcard: bool)
    requires expected.Obj? && k <= i < |expected.fields|
    requires PathMatchesAny(KeyPath(path, expected.fields[i].0), ignore, useWildcard)
    ensures MatchFields(expected, k, actual, path, ignore, useWildcard)
         == MatchFields(DropMember(expected, i), k, actual, path, ignore, useWildcard)
    decreases i - k
  {
    if k < i {
      DropMemberBefore(expected, i, k + 1, actual, path, ignore, useWildcard);
      DropMemberStep(expected, i, k, actual, path, ignore, useWildcard);
    } else {
      DropMemberAtExcluded(expected, i, actual, path, ignore, useWildcard);
    }
  }

  /** A member before the dropped one is visited alike with and without the
      drop, so agreement from the next member on extends to this one. */
  lemma DropMemberStep(expected: Value, i: nat, k: nat, actual: seq<(string, Value)>, path: string, ignore: seq<string>, useWildcard: bool)
    requires expected.Obj? && k < i < |expected.fields|
    requires MatchFields(expected, k + 1, actual, path, ignore, useWildcard)
          == MatchFields(DropMember(expected, i), k + 1, actual, path, ignore, useWildcard)
    ensures MatchFields(expected, k, actual, path, ignore, useWildcard)
         == MatchFields(DropMember(expected, i), k, actual, path, ignore, useWildcard)
  {
    var d := DropMember(expected, i);
    MatchFieldsUnfold(expected, k, actual, path, ignore, useWildcard);
    MatchFieldsUnfold(d, k, actual, path, ignore, useWildcard);
    DropMemberAt(expected, i, k);
    SameMemberSameOutcome(expected, k, d, k, actual, path, ignore, useWildcard);
    StepSame(
      MatchFields(expected, k, actual, path, ignore, useWildcard),
      FieldOutcome(expected, k, actual, path, ignore, useWildcard),
      MatchFields(expected, k + 1, actual, path, ignore, useWildcard),
      MatchFields(d, k, actual, path, ignore, useWildcard),
      FieldOutcome(d, k, actual, path, ignore, useWildcard),
      MatchFields(d, k + 1, actual, path, ignore, useWildcard));
  }

  /** From the excluded member on, the walk with it equals the walk without it. */
  lemma DropMemberAtExcluded(expected: Value, i: nat, actual: seq<(string, Value)>, path: string, ignore: seq<string>, useWildcard: bool)
    requires expected.Obj? && i < |expected.fields|
    requires PathMatchesAny(KeyPath(path, expected.fields[i].0), ignore, useWildcard)
    ensures MatchFields(expected, i, actual, path, ignore, useWildcard)
         == MatchFields(DropMember(expected, i), i, actual, path, ignore, useWildcard)
  {
    MatchFieldsUnfold(expected, i, actual, path, ignore, useWildcard);
    ExcludedMemberPasses(expected, i, actual, path, ignore, useWildcard);
    DropMemberShifted(expected, i, i, actual, path, ignore, useWildcard);
  }

  /** An excluded member is skipped entirely: matching with it gives the
      same outcome as matching without it, whatever actual holds under its
      key (or whether it holds the key at all). */
  lemma ExcludedMemberSkipped(expected: Value, i: nat, actual: Value, path: string, ignore: seq<string>, useWildcard: bool)
    requires expected.Obj? && i < |expected.fields|
    requires PathMatchesAny(KeyPath(path, expected.fields[i].0), ignore, useWildcard)
    ensures Match(expected, actual, path, ignore, useWildcard) == Match(DropMember(expected, i), actual, path, ignore, useWildcard)
  {
    if actual.Obj? {
      DropMemberBefore(expected, i, 0, actual.fields, path, ignore, useWildcard);
    }
  }

  /** Member `n` is the first member from `i` on whose outcome is not a
      pass, and its outcome is `r`. */
  ghost predicate FirstFailingMember(expected: Value, i: nat, n: nat, actual: seq<(string, Value)>, path: string, ignore: seq<string>, useWildcard: bool, r: Outcome)
    requires expected.Obj?
  {
    && i <= n < |expected.fields|
    && FieldOutcome(expected, n, actual, path, ignore, useWildcard) == r
    && forall j :: i <= j < n ==> FieldOutcome(expected, j, actual, path, ignore, useWildcard) == Pass
  }

  lemma FirstFailingMemberStepBack(expected: Value, i: nat, n: nat, actual: seq<(string, Value)>, path: string, ignore: seq<string>, useWildcard: bool, r: Outcome)
    requires expected.Obj? && i < |expected.fields|
    requires FieldOutcome(expected, i, actual, path, ignore, useWildcard) == Pass
    requires FirstFailingMember(expected, i + 1, n, actual, path, ignore, useWildcard, r)
    ensures FirstFailingMember(expected, i, n, actual, path, ignore, useWildcard, r)
  {
  }

  /** One step of the walk over members: a failing member stops it,
      otherwise it goes on with the next member. */
  lemma MatchFieldsUnfold(expected: Value, i: nat, actual: seq<(string, Value)>, path: string, ignore: seq<string>, useWildcard: bool)
    requires expected.Obj? && i <= |expected.fields|
    ensures i == |expected.fields| ==> MatchFields(expected, i, actual, path, ignore, useWildcard) == Pass
    ensures i < |expected.fields| ==>
      MatchFields(expected, i, actual, path, ignore, useWildcard)
        == if FieldOutcome(expected, i, actual, path, ignore, useWildcard).Fail?
           then FieldOutcome(expected, i, actual, path, ignore, useWildcard)
           else MatchFields(expected, i + 1, actual, path, ignore, useWildcard)
  {
  }

  lemma {:induction false} MatchFieldsFirstFailure(expected: Value, i: nat, actual: seq<(string, Value)>, path: string, ignore: seq<string>, useWildcard: bool)
    requires expected.Obj? && i <= |expected.fields|
    requires MatchFields(expected, i, actual, path, ignore, useWildcard).Fail?
    ensures exists n: nat :: FirstFailingMember(expected, i, n, actual, path, ignore, useWildcard, MatchFields(expected, i, actual, path, ignore, useWildcard))
    decreases |expected.fields| - i
  {
    var r := MatchFields(expected, i, actual, path, ignore, useWildcard);
    var head := FieldOutcome(expected, i, actual, path, ignore, useWildcard);
    MatchFieldsUnfold(expected, i, actual, path, ignore, useWildcard);
    if head.Pass? {
      MatchFieldsFirstFailure(expected, i + 1, actual, path, ignore, useWildcard);
      var n: nat :| FirstFailingMember(expected, i + 1, n, actual, path, ignore, useWildcard, r);
      FirstFailingMemberStepBack(expected, i, n, actual, path, ignore, useWildcard, r);
    } else {
      assert FirstFailingMember(expected, i, i, actual, path, ignore, useWildcard, r);
    }
  }

  /** Fail-fast over objects: the reported failure is the outcome of the
      first member, in expected's order, whose outcome is not a pass. */
  lemma FirstFailingMemberReported(expected: Value, actual: Value, path: string, ignore: seq<string>, useWildcard: bool)
    requires expected.Obj? && actual.Obj?
    requires Match(expected, actual, path, ignore, useWildcard).Fail?
    ensures exists n: nat :: FirstFailingMember(expected, 0, n, actual.fields, path, ignore, useWildcard, Match(expected, actual, path, ignore, useWildcard))
  {
    MatchFieldsFirstFailure(expected, 0, actual.fields, path, ignore, useWildcard);
  }

  /** Element `n` is the first element from `i` on whose outcome is not a
      pass, and its outcome is `r`. */
  ghost predicate FirstFailingElement(expected: Value, i: nat, n: nat, actual: seq<Value>, path: string, ignore: seq<string>, useWildcard: bool, r: Outcome)
    requires expected.Arr? && |expected.items| <= |actual|
  {
    && i <= n < |expected.items|
    && ItemOutcome(expected, n, actual, path, ignore, useWildcard) == r
    && forall j :: i <= j < n ==> ItemOutcome(expected, j, actual, path, ignore, useWildcard) == Pass
  }

  lemma FirstFailingElementStepBack(expected: Value, i: nat, n: nat, actual: seq<Value>, path: string, ignore: seq<string>, useWildcard: bool, r: Outcome)
    requires expected.Arr? && i < |expected.items| <= |actual|
    requires ItemOutcome(expected, i, actual, path, ignore, useWildcard) == Pass
    requires FirstFailingElement(expected, i + 1, n, actual, path, ignore, useWildcard, r)
    ensures FirstFailingElement(expected, i, n, actual, path, ignore, useWildcard, r)
  {
  }

  lemma {:induction false} MatchItemsFirstFailure(expected: Value, i: nat, actual: seq<Value>, path: string, ignore: seq<string>, useWildcard: bool)
    requires expected.Arr? && i <= |expected.items| <= |actual|
    requires MatchItems(expected, i, actual, path, ignore, useWildcard).Fail?
    ensures exists n: nat :: FirstFailingElement(expected, i, n, actual, path, ignore, useWildcard, MatchItems(expected, i, actual, path, ignore, useWildcard))
    decreases |expected.items| - i
  {
    var r := MatchItems(expected, i, actual, path, ignore, useWildcard);
    var head := ItemOutcome(expected, i, actual, path, ignore, useWildcard);
    if head.Pass? {
      assert r == MatchItems(expected, i + 1, actual, path, ignore, useWildcard);
      MatchItemsFirstFailure(expected, i + 1, actual, path, ignore, useWildcard);
      var n: nat :| FirstFailingElement(expected, i + 1, n, actual, path, ignore, useWildcard, r);
      FirstFailingElementStepBack(expected, i, n, actual, path, ignore, useWildcard, r);
    } else {
      assert r == head;
      assert FirstFailingElement(expected, i, i, actual, path, ignore, useWildcard, r);
    }
  }

  /** Fail-fast over lists: the reported failure is the outcome of the
      lowest index whose element does not match. */
  lemma FirstFailingElementReported(expected: Value, actual: Value, path: string, ignore: seq<string>, useWildcard: bool)
    requires expected.Arr? && actual.Arr? && |expected.items| <= |actual.items|
    requires Match(expected, actual, path, ignore, useWildcard).Fail?
    ensures exists n: nat :: FirstFailingElement(expected, 0, n, actual.items, path, ignore, useWildcard, Match(expected, actual, path, ignore, useWildcard))
  {
    MatchItemsFirstFailure(expected, 0, actual.items, path, ignore, useWildcard);
  }
}
