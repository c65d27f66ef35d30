/**
 * The checks `load_json` applies to an already decoded spec document: a
 * `tests` list must exist, each test must be an object with the keys `id`,
 * `name`, `method`, `path` and `expected`, and each `expected` must contain
 * `status_code`. Tests are numbered from 1 and the first offending test
 * decides the error.
 */
module SpecLoader {
  import opened Wrappers
  import opened JsonValue

  const RequiredKeys: set<string> := {"id", "name", "method", "path", "expected"}

  datatype SpecError =
    | TestsListMissing                                   // ValueError: no 'tests' list
    | MissingRequiredKeys(index: nat, missing: set<string>)  // ValueError naming the test and the keys
    | MissingStatusCode(index: nat)                      // ValueError: expected lacks 'status_code'
    | DocumentTypeError                                  // TypeError from `"tests" in data` or `data["tests"]`
    | TestNotAnObject(index: nat)                        // AttributeError from `test.keys()`
    | ExpectedTypeError(index: nat)                      // TypeError from `"status_code" in test["expected"]`
  {
    predicate NamesTest() {
      MissingRequiredKeys? || MissingStatusCode? || TestNotAnObject? || ExpectedTypeError?
    }
  }

  /** The `tests` check: the document must be an object whose `tests` member
      is a list. A list or string document that contains "tests" fails with
      a TypeError when subscripted; numbers, booleans and null fail the
      membership test itself with a TypeError. */
  function TestsList(data: Value): (r: Result<seq<Value>, SpecError>)
    ensures r.Ok? <==> data.Obj? && Lookup(data.fields, "tests").Some? && Lookup(data.fields, "tests").value.Arr?
    ensures r.Ok? ==> r.value == Lookup(data.fields, "tests").value.items
    ensures data.Obj? && r.Err? ==> r.error == TestsListMissing
    ensures r.Err? && r.error != DocumentTypeError ==> r.error == TestsListMissing
    ensures r == Err(DocumentTypeError) <==>
      || data.Null? || data.Bool? || data.Int?
      || (data.Arr? && Str("tests") in data.items)
      || (data.Str? && IsSubstring("tests", data.s))
  {
    match PyContains(data, "tests")
    case None => Err(DocumentTypeError)
    case Some(present) =>
      if !present then Err(TestsListMissing)
      else if !data.Obj? then Err(DocumentTypeError)
      else
        var tests := Lookup(data.fields, "tests").value;
        if tests.Arr? then Ok(tests.items) else Err(TestsListMissing)
  }

  /** The checks on test number `index`: an object first, then the required
      keys (all missing ones are named), then `status_code` in `expected`. */
  function CheckTest(test: Value, index: nat): Option<SpecError> {
    if !test.Obj? then Some(TestNotAnObject(index))
    else
      var missing := RequiredKeys - Keys(test.fields);
      if missing != {} then Some(MissingRequiredKeys(index, missing))
      else
        assert "expected" in Keys(test.fields) by {
          assert "expected" in RequiredKeys && "expected" !in missing;
        }
        match PyContains(Subscript(test.fields, "expected"), "status_code")
        case None => Some(ExpectedTypeError(index))
        case Some(found) => if found then None else Some(MissingStatusCode(index))
  }

  /** What a test must satisfy: an object holding every required key, whose
      `expected` member contains `status_code`. */
  predicate ValidTest(test: Value) {
    && test.Obj?
    && RequiredKeys <= Keys(test.fields)
    && PyContains(Subscript(test.fields, "expected"), "status_code") == Some(true)
  }

  /** A test passes exactly when it is valid; an error names the test's
      number; a missing-keys error names exactly the required keys the test
      lacks (extra keys never matter); the `status_code` check is reached
      only once every required key is present. */
  lemma CheckTestMeaning(test: Value, index: nat)
    ensures CheckTest(test, index).None? <==> ValidTest(test)
    ensures CheckTest(test, index) == Some(TestNotAnObject(index)) <==> !test.Obj?
    ensures test.Obj? && RequiredKeys <= Keys(test.fields) ==>
      (CheckTest(test, index) == Some(ExpectedTypeError(index)) <==>
       PyContains(Subscript(test.fields, "expected"), "status_code").None?)
    ensures test.Obj? && RequiredKeys <= Keys(test.fields) ==>
      (CheckTest(test, index) == Some(MissingStatusCode(index)) <==>
       PyContains(Subscript(test.fields, "expected"), "status_code") == Some(false))
    ensures CheckTest(test, index).Some? ==> CheckTest(test, index).value.NamesTest() && CheckTest(test, index).value.index == index
    ensures CheckTest(test, index).Some? && CheckTest(test, index).value.MissingRequiredKeys? ==>
      && test.Obj?
      && CheckTest(test, index).value.missing != {}
      && (forall k :: k in CheckTest(test, index).value.missing <==> k in RequiredKeys && Lookup(test.fields, k).None?)
    ensures CheckTest(test, index).Some? && (CheckTest(test, index).value.MissingStatusCode? || CheckTest(test, index).value.ExpectedTypeError?) ==>
      test.Obj? && RequiredKeys <= Keys(test.fields)
  {
    if test.Obj? {
      var missing := RequiredKeys - Keys(test.fields);
      forall k | k in RequiredKeys
        ensures Lookup(test.fields, k).Some? <==> k in Keys(test.fields)
      {
        LookupIffKeys(test.fields, k);
      }
      if RequiredKeys <= Keys(test.fields) {
        assert missing == {};
      } else {
        var k :| k in RequiredKeys && k !in Keys(test.fields);
        assert k in missing;
      }
      if missing == {} {
        assert "expected" in Keys(test.fields);
        var contains := PyContains(Subscript(test.fields, "expected"), "status_code");
        assert CheckTest(test, index).None? <==> contains == Some(true);
      }
    }
  }

  /** The test at position `k` (test number `offset + k + 1`) is the first
      one that fails its checks, with error `err`. */
  ghost predicate FirstOffender(tests: seq<Value>, offset: nat, k: nat, err: SpecError) {
    && k < |tests|
    && CheckTest(tests[k], offset + k + 1) == Some(err)
    && forall j :: 0 <= j < k ==> CheckTest(tests[j], offset + j + 1).None?
  }

  /** The loop over the tests, numbered from `offset + 1`, stopping at the
      first failing test. */
  function CheckTests(tests: seq<Value>, offset: nat): Option<SpecError>
    decreases |tests|
  {
    if |tests| == 0 then None
    else
      var head := CheckTest(tests[0], offset + 1);
      if head.Some? then head else CheckTests(tests[1..], offset + 1)
  }

  /** Every test is checked: the loop finds nothing exactly when each test
      passes its checks. */
  lemma {:induction false} CheckTestsAcceptsIffAllPass(tests: seq<Value>, offset: nat)
    ensures CheckTests(tests, offset).None? <==> forall j :: 0 <= j < |tests| ==> CheckTest(tests[j], offset + j + 1).None?
    decreases |tests|
  {
    if |tests| > 0 {
      var rest := tests[1..];
      CheckTestsAcceptsIffAllPass(rest, offset + 1);
      assert CheckTests(tests, offset).None?
        <==> CheckTest(tests[0], offset + 1).None? && CheckTests(rest, offset + 1).None?;
      forall j | 0 < j < |tests|
        ensures CheckTest(tests[j], offset + j + 1) == CheckTest(rest[j - 1], offset + 1 + (j - 1) + 1)
      {
        assert tests[j] == rest[j - 1];
      }
    }
  }

  /** The error the loop reports belongs to the first failing test. */
  lemma {:induction false} CheckTestsReportsFirstOffender(tests: seq<Value>, offset: nat)
    requires CheckTests(tests, offset).Some?
    ensures exists k: nat :: FirstOffender(tests, offset, k, CheckTests(tests, offset).value)
    decreases |tests|
  {
    var err := CheckTests(tests, offset).value;
    if CheckTest(tests[0], offset + 1).Some? {
      assert FirstOffender(tests, offset, 0, err);
    } else {
      assert CheckTests(tests, offset) == CheckTests(tests[1..], offset + 1);
      CheckTestsReportsFirstOffender(tests[1..], offset + 1);
      var k: nat :| FirstOffender(tests[1..], offset + 1, k, err);
      FirstOffenderStepBack(tests, offset, k, err);
    }
  }

  /** A passing first test moves the first offender one place back. */
  lemma FirstOffenderStepBack(tests: seq<Value>, offset: nat, k: nat, err: SpecError)
    requires |tests| > 0 && CheckTest(tests[0], offset + 1).None?
    requires FirstOffender(tests[1..], offset + 1, k, err)
    ensures FirstOffender(tests, offset, k + 1, err)
  {
    var rest := tests[1..];
    assert tests[k + 1] == rest[k];
    forall j | 0 <= j < k + 1
      ensures CheckTest(tests[j], offset + j + 1).None?
    {
      if j > 0 {
        assert tests[j] == rest[j - 1];
      }
    }
  }

  /** `load_json` after decoding: the document itself on success. */
  function LoadSpec(data: Value): (r: Result<Value, SpecError>)
    ensures r.Ok? ==> r.value == data
    ensures r.Ok? <==>
      && TestsList(data).Ok?
      && forall j :: 0 <= j < |TestsList(data).value| ==> CheckTest(TestsList(data).value[j], j + 1).None?
    ensures TestsList(data).Err? ==> r == Err(TestsList(data).error)
    ensures r.Err? && TestsList(data).Ok? ==> exists k: nat :: FirstOffender(TestsList(data).value, 0, k, r.error)
  {
    match TestsList(data)
    case Err(e) => Err(e)
    case Ok(tests) =>
      CheckTestsAcceptsIffAllPass(tests, 0);
      match CheckTests(tests, 0)
      case Some(e) =>
        CheckTestsReportsFirstOffender(tests, 0);
        Err(e)
      case None => Ok(data)
  }

  /** An empty `tests` list is accepted and the document comes back as is. */
  lemma EmptyTestsListAccepted(data: Value)
    requires data.Obj? && Lookup(data.fields, "tests") == Some(Arr([]))
    ensures LoadSpec(data) == Ok(data)
  {
  }

  /** The first offender is named by its 1-based number, and every test
      before it is valid. */
  lemma FirstOffenderMeaning(tests: seq<Value>, k: nat, err: SpecError)
    requires FirstOffender(tests, 0, k, err)
    ensures err.NamesTest() && err.index == k + 1
    ensures forall j :: 0 <= j < k ==> ValidTest(tests[j])
  {
    CheckTestMeaning(tests[k], k + 1);
    forall j | 0 <= j < k
      ensures ValidTest(tests[j])
    {
      CheckTestMeaning(tests[j], j + 1);
    }
  }

  /** A rejected test is named by its 1-based position in the list, and
      every test before it is valid. */
  lemma RejectedTestIndexInRange(data: Value)
    requires TestsList(data).Ok? && LoadSpec(data).Err?
    ensures LoadSpec(data).error.NamesTest()
    ensures 1 <= LoadSpec(data).error.index <= |TestsList(data).value|
    ensures forall j :: 0 <= j < LoadSpec(data).error.index - 1 ==> ValidTest(TestsList(data).value[j])
  {
    var tests := TestsList(data).value;
    var err := LoadSpec(data).error;
    var k: nat :| FirstOffender(tests, 0, k, err);
    FirstOffenderMeaning(tests, k, err);
  }

  lemma {:induction false} KeysAppend(fields: seq<(string, Value)>, k: string, v: Value)
    ensures Keys(fields + [(k, v)]) == Keys(fields) + {k}
  {
    var f := fields + [(k, v)];
    assert forall i :: 0 <= i < |fields| ==> f[i] == fields[i];
    assert f[|fields|] == (k, v);
  }

  /** Keys beyond the required ones never make a valid test invalid: the
      check is a set difference. */
  lemma ExtraKeysAllowed(test: Value, k: string, v: Value)
    requires ValidTest(test) && k !in Keys(test.fields)
    ensures ValidTest(Obj(test.fields + [(k, v)]))
  {
    KeysAppend(test.fields, k, v);
    LookupAppend(test.fields, k, v, "expected");
  }
}
