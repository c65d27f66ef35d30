# qa-kit partial matcher and spec validator, in Dafny

This project models two pure pieces of the qa-kit API-testing toolkit.

1. **The partial structural matcher `_assert_partial`** and its exclusion rule `_path_matches_any`.
   - Generated API tests use the matcher to compare an expected JSON body against the actual response.
   - The expected value drives a depth-first walk, and the first violation ends it.
   - An actual object may carry extra keys.
   - An actual list may be longer than the expected one, but never shorter.
   - Scalars are compared exactly.
   - Every node is addressed by a path such as `a.b[0].c`.
   - A path can be excluded through `ignore_keys`, either literally (the path itself, or anything below it as an object member) or as an `fnmatch` glob.
2. **The shape check `load_json` runs on a decoded spec document.**
   - A `tests` list must exist.
   - Every test must hold `id`, `name`, `method`, `path` and `expected`.
   - Every `expected` must contain `status_code`.
   - The first offending test, numbered from 1, decides the error.

Modules:

- `Wrappers`: `Option` and `Result`.
- `JsonValue`: decoded JSON values, dictionary lookup and Python's `in` operator.
- `Glob`: `fnmatch.fnmatch`. A pattern is translated into tokens the way `fnmatch.translate` does, and the tokens are matched against the whole name.
- `Paths`: path construction, `str(index)`, and `_path_matches_any`.
- `Matcher`: the matcher. Its outcome is `Pass` or `Fail(kind, path)`, where the kind is one of the four assertion messages.
  - The module also defines `Conforms`, a declarative reading of a successful match, and `Supersedes`, the "holds everything expected holds" relation.
  - The fail-fast walk is proved equivalent to `Conforms`.
- `MatcherExamples`: concrete inputs pinning down the edge cases of the exclusion rule.
- `SpecLoader`: the post-decode part of `load_json`. Python's exceptions become `SpecError` values.

Objects are sequences of key/value pairs in insertion order, which is the order a Python dict iterates them. `Lookup` returns the first member with a key. None of the matcher's properties assume unique keys, except reflexivity (`Matcher.MatchReflexive`).

## Notable behaviour

- **Bracket globs.** The glob `items[*].id` matches only the name `items*.id`, because `[*]` is a one-member character class. So `items[0].id` is still compared (`MatcherExamples.BracketGlobDoesNotExcludeIndex`).
- **Excluded containers.** Exclusion is consulted only for object members and scalar leaves. A container is type-checked even when a pattern names a path below it, when the container sits:
  - at the root;
  - behind a list index (`MatcherExamples.IndexedContainerNotExcluded`);
  - behind a non-excluded key (`MatcherExamples.ExcludedMemberDoesNotExcuseParentType`).

## Model

| member | source | states |
|---|---|---|
| JsonValue.Keys | src/qa_kit/utils.py:56 | the key set of an object holds every member's key and nothing else |
| JsonValue.Lookup | tests/utils/test_helpers.py:29-30 | `k in actual`, then `actual[k]`: the value of the first member with the key, None when the key is absent (a null-valued key is found, as `Some(Null)`); stated through `JsonValue.LookupIffKeys` and `JsonValue.LookupFindsMember` |
| JsonValue.Subscript | src/qa_kit/utils.py:60 | `test["expected"]` (and `actual[k]`) for a key known to be present: the value `JsonValue.Lookup` finds, defined only where `JsonValue.LookupIffKeys` guarantees one |
| JsonValue.LookupIffKeys | tests/utils/test_helpers.py:29-30 | a lookup finds a value exactly when the key is among the object's keys |
| JsonValue.LookupFindsMember | tests/utils/test_helpers.py:29-30 | a value found belongs to a member with that key; no member's key goes unfound |
| JsonValue.LookupUnique | tests/utils/test_helpers.py:29-30 | with unique keys, looking up a member's key gives that member's value |
| JsonValue.LookupAppend | src/qa_kit/utils.py:60 | appending a new key leaves every other key's lookup unchanged, so `test["expected"]` is unaffected by extra keys; derived from `JsonValue.LookupInsert` |
| JsonValue.LookupInsert | tests/utils/test_helpers.py:29-30 | inserting a member with a new key at any position leaves every other key's lookup unchanged and makes the new key found |
| JsonValue.IsSubstring | src/qa_kit/utils.py:51 | Python's `in` on strings: true exactly when the needle occurs at some position |
| JsonValue.PyContains | src/qa_kit/utils.py:60 | `key in x` is a key test on a dict, an element test on a list, a substring test on a string, and a TypeError on numbers, booleans and None |
| Glob.ParseClassItems | tests/utils/test_helpers.py:12 | the body of a bracket class read as single characters and ranges; its meaning is stated through `Glob.NoHyphenClass`, `Glob.OneRange`, `Glob.LeadingHyphenIsLiteral`, `Glob.TrailingHyphenIsLiteral` and `Glob.ClassMatchesOneMember` |
| Glob.NoHyphenClass | tests/utils/test_helpers.py:12 | a class body without `-` holds exactly its own characters |
| Glob.OneRange | tests/utils/test_helpers.py:12 | the body `lo-hi` holds exactly the characters from lo to hi, and nothing when lo > hi |
| Glob.LeadingHyphenIsLiteral | tests/utils/test_helpers.py:12 | a `-` first in the body, not followed by another `-`, is an ordinary member and the rest of the body keeps its meaning |
| Glob.TrailingHyphenIsLiteral | tests/utils/test_helpers.py:12 | a `-` last in a body with no other `-` is an ordinary member |
| Glob.ClassMatchesOneMember | tests/utils/test_helpers.py:12 | between plain text, a closed non-negated class `[body]` matches exactly one character, and that character must belong to the class read from the body |
| Glob.NegatedClassMatchesOneNonMember | tests/utils/test_helpers.py:12 | between plain text, `[!body]` matches exactly one character, and that character must lie outside the class read from the body |
| Glob.QuestionMatchesOneChar | tests/utils/test_helpers.py:12 | between plain text, `?` matches exactly one character of any kind |
| Glob.DigitRangeBetween | tests/utils/test_helpers.py:12 | between plain text, `[0-9]` matches exactly one decimal digit, so `items[0-9].id` matches `items7.id` and not `items[7].id` |
| Glob.CloseBracket | tests/utils/test_helpers.py:12 | the first `]` at or after a position, or the end of the pattern if there is none |
| Glob.Tokenize | tests/utils/test_helpers.py:12 | the translation of a pattern into tokens, as `fnmatch.translate` does; stated through `Glob.TokenizePlainPrefix` and `Glob.TokenizeBracketStar` |
| Glob.MatchTokens | tests/utils/test_helpers.py:12 | whole-name matching of tokens; stated through `Glob.StarMatchesSomeSuffix` and `Glob.PlainPrefixMatch` |
| Glob.Fnmatch | tests/utils/test_helpers.py:12 | `fnmatch.fnmatch(path, pat)`; stated through `Glob.PlainPatternMatchesOnlyItself`, `Glob.StarMatchesEverything` and `Glob.BracketStarMatchesOnlyStar` |
| Glob.PlainPatternMatchesOnlyItself | tests/utils/test_helpers.py:12 | a pattern without `*`, `?` or `[` matches exactly itself |
| Glob.StarMatchesSomeSuffix | tests/utils/test_helpers.py:12 | a leading `*` matches a name exactly when the rest of the pattern matches some suffix of it |
| Glob.StarMatchesEverything | tests/utils/test_helpers.py:12 | the pattern `*` matches every path |
| Glob.TokenizePlainPrefix | tests/utils/test_helpers.py:12 | plain characters in front of a pattern translate one literal token each |
| Glob.PlainPrefixMatch | tests/utils/test_helpers.py:12 | plain tokens in front consume exactly their own characters |
| Glob.BracketStarMatchesOnlyStar | tests/utils/test_helpers.py:12 | between plain text, `[*]` stands for one literal `*`: `a[*]b` matches only `a*b` |
| Glob.BracketStarIsALiteralStar | tests/utils/test_helpers.py:12 | `items[*].id` matches `items*.id` and not `items[0].id` |
| Paths.NatToString | tests/utils/test_helpers.py:39 | `str(i)` of an index is a non-empty digit string with no leading zero |
| Paths.ParseNatToString | tests/utils/test_helpers.py:39 | reading the printed index back gives the index |
| Paths.ChildPathsExtendParent | tests/utils/test_helpers.py:26-39 | a member path and an index path both extend the parent path; an index path extends `parent[` |
| Paths.KeyPathInjective | tests/utils/test_helpers.py:26 | under one parent, at the root included, different keys give different paths |
| Paths.IndexPathInjective | tests/utils/test_helpers.py:39 | under one parent, different indices give different paths |
| Paths.KeyPath | tests/utils/test_helpers.py:26 | the path of member `k`: `k` while the path is empty, else `path.k`; stated through `Paths.ChildPathsExtendParent` and `Paths.KeyPathInjective` |
| Paths.IndexPath | tests/utils/test_helpers.py:39 | the path of element `i`: `path[i]`; stated through `Paths.IndexPathInjective` and `Paths.LiteralPatternSkipsIndexChildren` |
| Paths.LiteralMatch | tests/utils/test_helpers.py:14 | the literal rule, equality or a `pattern.` prefix; stated through `Paths.PrefixBoundary` and `Paths.LiteralExclusionCoversMembers` |
| Paths.PatternMatches | tests/utils/test_helpers.py:12-14 | one pattern: a glob match in wildcard mode, else the literal rule; stated through `Paths.WildcardExtendsLiteral` |
| Paths.PatternList | tests/utils/test_helpers.py:11 | `patterns or []`; stated through `Paths.NoPatternsExcludeNothing` |
| Paths.PathMatchesAny | tests/utils/test_helpers.py:10-16 | the patterns tried in order, the first match deciding; stated through `Paths.PathMatchesAnyIff` |
| Paths.PathMatchesAnyIff | tests/utils/test_helpers.py:10-16 | a path is excluded exactly when some pattern matches it: by glob in wildcard mode, or by equality or a `pattern.` prefix |
| Paths.NoPatternsExcludeNothing | tests/utils/test_helpers.py:11 | a missing or empty pattern list excludes no path |
| Paths.WildcardExtendsLiteral | tests/utils/test_helpers.py:12-15 | every path excluded in literal mode is excluded in wildcard mode |
| Paths.LiteralExclusionCoversMembers | tests/utils/test_helpers.py:14 | in literal mode the members below an excluded non-empty path are excluded too |
| Paths.LiteralPatternSkipsIndexChildren | tests/utils/test_helpers.py:14 | the literal pattern `p` never matches the element path `p[i]` |
| Paths.PrefixBoundary | tests/utils/test_helpers.py:14 | `data` excludes `data.email` but neither `database` nor `data[0]` |
| Matcher.Match | tests/utils/test_helpers.py:19-45 | the recursive matcher; its meaning is stated by `Matcher.MatchPassIffConforms`, `Matcher.FailureWithinSubtree`, `Matcher.ListTooShortIff`, `Matcher.ContainerTypeMismatch` and `Matcher.ScalarLeaf` |
| Matcher.FieldOutcome | tests/utils/test_helpers.py:26-30 | one member: skipped when excluded, a missing key when absent, else the match of the two values; stated through `Matcher.FieldOutcomePassIff` and `Matcher.MissingKeyFails` |
| Matcher.MatchFields | tests/utils/test_helpers.py:25-30 | the members in expected's order, stopping at the first failure; stated through `Matcher.MatchFieldsPassIff` and `Matcher.MatchFieldsFirstFailure` |
| Matcher.ItemOutcome | tests/utils/test_helpers.py:39 | one element matched at `path[i]`; stated through `Matcher.MatchItemsPassIff` |
| Matcher.MatchItems | tests/utils/test_helpers.py:38-39 | the elements in increasing index order, stopping at the first failure; stated through `Matcher.MatchItemsPassIff` and `Matcher.MatchItemsFirstFailure` |
| Matcher.AssertPartial | tests/utils/test_helpers.py:19-20 | the entry point with the empty root path and `ignore_keys or []`; stated through `Matcher.AssertPartialWithoutIgnoreKeys` and `Matcher.AssertPartialNeverBlamesExcludedPath` |
| Matcher.AssertPartialWithoutIgnoreKeys | tests/utils/test_helpers.py:19-20 | leaving `ignore_keys` out equals passing an empty list; the match then passes exactly when actual holds everything expected holds |
| Matcher.AssertPartialNeverBlamesExcludedPath | tests/utils/test_helpers.py:27-45 | a missing key or differing value is never reported at an excluded path |
| Matcher.FailureWithinSubtree | tests/utils/test_helpers.py:19-45 | every failure is reported at or below the current path, and a missing key or differing value never at an excluded path |
| Matcher.FieldsFailureWithinSubtree | tests/utils/test_helpers.py:25-30 | failures among an object's members are reported at paths extending the object's path, and below a non-empty path at paths starting with `path.` (so never under a sibling such as `database` for `data`) |
| Matcher.ItemsFailureWithinSubtree | tests/utils/test_helpers.py:38-39 | failures among a list's elements lie below `path[` |
| Matcher.MatchPassIffConforms | tests/utils/test_helpers.py:19-45 | the fail-fast walk passes exactly when the declarative conformance relation holds |
| Matcher.FieldOutcomePassIff | tests/utils/test_helpers.py:26-30 | one member passes exactly when its path is excluded, or its key is present and its value conforms |
| Matcher.FieldsConformFromIffAll | tests/utils/test_helpers.py:25-30 | checking members one after another accepts exactly when every member conforms |
| Matcher.MatchFieldsPassIff | tests/utils/test_helpers.py:25-30 | the walk over an object's members passes exactly when every remaining member conforms |
| Matcher.MatchItemsPassIff | tests/utils/test_helpers.py:38-39 | the walk over a list passes exactly when every expected element conforms to the actual element at that index |
| Matcher.SupersedesReflexive | tests/utils/test_helpers.py:19-45 | a value with unique keys holds everything it holds |
| Matcher.SupersedesTransitive | tests/utils/test_helpers.py:19-45 | holding everything is transitive |
| Matcher.ConformsUnderSuperset | tests/utils/test_helpers.py:19-45 | extra keys and trailing elements anywhere in actual keep a conforming value conforming |
| Matcher.SupersetConforms | tests/utils/test_helpers.py:19-45 | an actual value holding everything expected holds conforms under any exclusion list |
| Matcher.ConformsWithoutExclusions | tests/utils/test_helpers.py:19-45 | with no exclusions, conforming implies holding everything expected holds |
| Matcher.SupersetMatches | tests/utils/test_helpers.py:19-45 | superset tolerance: actual holding everything expected holds always passes |
| Matcher.MatchWithoutExclusionsIffSuperset | tests/utils/test_helpers.py:19-45 | with no exclusions, the match passes exactly when actual holds everything expected holds |
| Matcher.MatchReflexive | tests/utils/test_helpers.py:19-45 | a value with unique keys matches itself |
| Matcher.PassSurvivesSupersets | tests/utils/test_helpers.py:19-45 | a passing match keeps passing when keys or trailing elements are added to actual |
| Matcher.ExtraKeyKeepsOutcome | tests/utils/test_helpers.py:25-30 | a key absent from expected, added to actual, leaves the outcome unchanged (the same pass or the same failure); the end-of-object case of `Matcher.InsertedKeyKeepsOutcome` |
| Matcher.TrailingItemsKeepOutcome | tests/utils/test_helpers.py:35-39 | elements appended to a long-enough actual list leave the outcome unchanged |
| Matcher.AgreesOnKeepsOutcome | tests/utils/test_helpers.py:19-45 | the walk reads nothing but what `AgreesOn` compares: the kinds of containers, the presence of expected's keys, whether a list is too short, and whether each scalar equals expected's. So two actual values that agree on these at every depth get the same outcome, the same pass or the very same failure |
| Matcher.AgreesOnReflexive | tests/utils/test_helpers.py:19-45 | every actual value agrees with itself on any expected value |
| Matcher.InsertedKeyKeepsOutcome | tests/utils/test_helpers.py:25-30 | a key absent from expected, inserted anywhere in actual's member order, leaves the outcome unchanged |
| Matcher.ListTooShortIff | tests/utils/test_helpers.py:35-37 | "list too short" at the list's path is reported exactly when actual has fewer elements, before any element is compared |
| Matcher.ContainerTypeMismatch | tests/utils/test_helpers.py:21-34 | an expected object or list facing another kind fails with a type mismatch at the current path, whatever the exclusions |
| Matcher.ScalarLeaf | tests/utils/test_helpers.py:40-45 | a scalar passes at an excluded path, and otherwise exactly when equal; its only failure is a value mismatch at its path |
| Matcher.MissingKeyFails | tests/utils/test_helpers.py:25-30 | once the earlier members conform, a non-excluded key absent from actual fails with "missing key" at the child path |
| Matcher.ExcludedMemberSkipped | tests/utils/test_helpers.py:27-28 | an excluded member is skipped entirely: the outcome equals that of expected without the member |
| Matcher.MatchFieldsFirstFailure | tests/utils/test_helpers.py:25-30 | a failing walk over members reports the outcome of the first member, in expected's order, that does not pass |
| Matcher.FirstFailingMemberReported | tests/utils/test_helpers.py:25-30 | for objects, the reported failure is that of the first non-passing member |
| Matcher.MatchItemsFirstFailure | tests/utils/test_helpers.py:38-39 | a failing walk over elements reports the outcome of the lowest non-passing index |
| Matcher.FirstFailingElementReported | tests/utils/test_helpers.py:38-39 | for lists, the reported failure is that of the lowest non-passing index |
| MatcherExamples.ExcludedLeafNotCompared | tests/utils/test_helpers.py:27-28 | an excluded leaf with a different value passes |
| MatcherExamples.ExcludedMemberDoesNotExcuseParentType | tests/utils/test_helpers.py:21-30 | excluding `a.b` does not excuse `a` being a string: type mismatch at `a` |
| MatcherExamples.DifferingLeafFails | tests/utils/test_helpers.py:43-45 | a differing leaf fails with a value mismatch at its path |
| MatcherExamples.PrefixBoundaryInMatch | tests/utils/test_helpers.py:14 | ignoring `data` still compares the key `database` |
| MatcherExamples.MissingKeyReported | tests/utils/test_helpers.py:29 | a key absent from actual fails with "missing key" at the key's path |
| MatcherExamples.NoCoercion | tests/utils/test_helpers.py:43-45 | the integer 1 and the string "1" differ |
| MatcherExamples.BracketGlobExcludesNeitherPath | tests/utils/test_helpers.py:12 | the glob `items[*].id` excludes neither `items` nor `items[0].id` |
| MatcherExamples.BracketGlobDoesNotExcludeIndex | tests/utils/test_helpers.py:38-45 | with the glob `items[*].id`, a differing `items[0].id` fails at that path |
| MatcherExamples.IndexedContainerNotExcluded | tests/utils/test_helpers.py:31-39 | excluding `[0]` does not excuse a scalar where an object is expected at `[0]` |
| SpecLoader.TestsList | src/qa_kit/utils.py:51-52 | the tests list is found exactly when the document is an object whose `tests` member is a list; the TypeError arises exactly for numbers, booleans, None, and lists or strings containing "tests"; every other failure is the missing-tests ValueError |
| SpecLoader.CheckTest | src/qa_kit/utils.py:55-61 | the checks on one test in source order: an object, then the required keys, then `status_code`; stated through `SpecLoader.CheckTestMeaning` |
| SpecLoader.ValidTest | src/qa_kit/utils.py:55-61 | what a test must satisfy; `SpecLoader.CheckTestMeaning` proves that a test passes its checks exactly when it is valid |
| SpecLoader.CheckTests | src/qa_kit/utils.py:54 | the loop over the tests numbered from 1, stopping at the first failure; stated through `SpecLoader.CheckTestsAcceptsIffAllPass` and `SpecLoader.CheckTestsReportsFirstOffender` |
| SpecLoader.CheckTestMeaning | src/qa_kit/utils.py:55-61 | a test passes exactly when it is valid; the "not an object" error arises exactly for non-objects; a missing-keys error names exactly the absent required keys; once all keys are present, the TypeError arises exactly when `in` fails on `expected`, and the `status_code` error exactly when `expected` lacks it |
| SpecLoader.CheckTestsAcceptsIffAllPass | src/qa_kit/utils.py:54-61 | the loop accepts exactly when every test passes its checks |
| SpecLoader.CheckTestsReportsFirstOffender | src/qa_kit/utils.py:54-61 | the loop's error belongs to the first failing test |
| SpecLoader.LoadSpec | src/qa_kit/utils.py:50-64 | success returns the document unchanged, exactly when every test passes; a tests-list error comes first; otherwise the first offending test decides the error |
| SpecLoader.EmptyTestsListAccepted | src/qa_kit/utils.py:51-64 | an empty `tests` list is accepted |
| SpecLoader.FirstOffenderMeaning | src/qa_kit/utils.py:54-61 | the first offender is named by its 1-based number and every earlier test is valid |
| SpecLoader.RejectedTestIndexInRange | src/qa_kit/utils.py:54-61 | a rejected document names a test number between 1 and the number of tests, and every earlier test is valid |
| SpecLoader.ExtraKeysAllowed | src/qa_kit/utils.py:55-56 | adding a key to a valid test keeps it valid |

## Left out

- File existence checks, file reading and JSON decoding in `load_json` (src/qa_kit/utils.py:38-48) are I/O. The model takes an already decoded value.
- Logging in `load_json` is left out. The wording of error messages is reduced to the error's kind, test number and set of missing keys.
- The matcher's assertion messages are reduced to the failure kind and the path. The rendering of the actual value's type and of the compared values is left out.
- Python's `assert` being stripped under `-O` is left out. The model always checks.
- Floats and Python's cross-type equality (`True == 1`, `1 == 1.0`) are left out. Numbers are integers, and values of different kinds are unequal.
- `fnmatch` case folding through `os.path.normcase` is left out. Matching is case-sensitive, as on POSIX systems. A reversed bracket range such as `[z-a]` matches nothing, as in current CPython.
- `SSL_VERIFY` (tests/utils/test_helpers.py:7) is read from the environment and does not affect matching.
- The following are not part of this model, because they are I/O, networking, subprocess or templating glue:
  - the test generator (src/qa_kit/generator.py);
  - the command-line interface (src/qa_kit/cli.py);
  - the runner (src/qa_kit/runner.py);
  - the HTTP client (src/qa_kit/client.py);
  - tests/conftest.py and the generated tests.
- JsonValue.LookupUnique: stated only for objects whose keys are unique. A Python dict cannot hold anything else, so nothing is lost.
