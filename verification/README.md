# Verified models of the GoogleTest and GoogleMock tree

These Dafny files model the algorithms in the vendored GoogleTest and GoogleMock sources whose
correctness is not obvious, and prove what they promise for all inputs, all runs or all reachable
states. Code that changes things step by step is a method or a class here, proved against a
specification; the specifications are declarative and their own properties are lemmas.

| file | component |
|---|---|
| `MatchMatrix.dfy`, `Matching.dfy`, `UnorderedMatcher.dfy` | unordered element matchers: matrix, maximum bipartite matching, acceptance |
| `EditDistance.dfy`, `UnifiedDiff.dfy` | edit scripts and the unified diff made from them |
| `Glob.dfy`, `TestFilter.dfy`, `FilterLaws.dfy` | glob matching and test name filters |
| `SimpleRegex.dfy`, `RegexLanguage.dfy` | the simple regular expressions and the RE class |
| `StaticMutex.dfy`, `MutexCalls.dfy` | the lazily initialised mutex as a protocol of N threads |
| `Prerequisites.dfy`, `ExpectationRuns.dfy`, `ExpectationLaws.dfy` | prerequisites of expectations: traversals, and whole runs |
| `Shuffling.dfy`, `TestSelection.dfy`, `TestInfos.dfy`, `TestSuites.dfy`, `RunOrder.dfy`, `UnitTests.dfy` | registering, filtering, sharding, sorting, shuffling and running tests |
| `ShuffleLaws.dfy`, `ShardLaws.dfy`, `RunLaws.dfy` | the same, said by numbers drawn, counts and places alone |
| `Utf8.dfy`, `WideLaws.dfy` | UTF-8 encoding and validation, wide strings |
| `Hexadecimal.dfy`, `StringLiteral.dfy`, `LiteralLaws.dfy` | byte strings as C++ string literals |
| `Int128.dfy` | 128-bit decimal printing |
| `Base64.dfy` | base64 decoding |
| `Primes.dfy` | four prime testers |
| `Wrappers.dfy`, `CStrings.dfy`, `Collections.dfy` | an optional value; strings that end at a NUL; facts about sets and sequences |

`dafny verify dfyconfig.toml` verifies the whole project.

## Main results

- The matching found is maximum for every graph although each left node is tried once: a failed
  search leaves a closed set of matched right nodes, and such a set bounds every matching.
- The hunks of a diff show exactly the lines within the context of an edit. With context, applying
  them to the old text gives the new text if and only if no such line has a NUL.
- The table of edit costs is minimal if and only if the rule for ties never passes over a cheaper
  addition or removal, and it passes one over only in a tie.
- The glob matcher that remembers only the last star, and the simple regular expression matcher,
  agree with declarative definitions of their languages, whose patterns are characterised from single
  characters, repetition and concatenation up.
- In every interleaving the mutex is initialised once, and AssertHeld passes exactly for a thread
  whose last finished call of Lock and Unlock was a Lock, recursive use included. Whenever a call
  returns it has done its work, and some thread can always go on unless the section is held by a
  thread outside any call or aborted.
- In every run of expectations the prerequisite graph is acyclic, sequences are respected by the
  calls, and the short-cut in retiring is justified. Which expectations are retired, and how many calls
  were in excess, is an exact function of the calls made.
- Each iteration of a test program runs exactly the tests that the filter string and the shard
  select, each once, death tests first, in an order that is a function of the registered lists and
  of the seed of the iteration. So any iteration can be reproduced alone. Across all shards each
  runnable test runs in exactly one process.
- Shuffling picks each part of an order by the numbers of a linear congruential generator; with free
  picks every order with death tests first is reached, by one choice of picks only.
- Round trips: UTF-16 and UTF-32 through UTF-8, 128-bit numbers through decimal, byte strings
  through string literals, bytes through base64.

## Where the code differs from its documentation

The models follow the code.

- `CodePointToUtf8` is documented to show numbers above 0x10FFFF as invalid. The code does so only
  above 0x1FFFFF; `Utf8.ShownValidity` gives the exact set for which the result is valid UTF-8.
  Surrogates are encoded as well, and code point 0 gives the empty string.
- `RE::FullMatch` is documented to match the entire string. For a pattern that ends in an escaped
  dollar no end anchor is added; `SimpleRegex.FullMatchIsWholeMatch` shows that these are exactly
  the patterns for which it does not.
- The edit scripts are called optimal; `EditDistance.NotAlwaysMinimal` is a pair of texts for which
  a cheaper valid script exists, and `EditDistance.LeastUnlessPassedOver` says exactly when the
  table is minimal.
- With context 0 `CreateUnifiedDiff` prints no hunk at all, even for different texts. It prints a
  line up to its first NUL but compares whole lines; `UnifiedDiff.NulIsLost` is a pair of texts whose
  diff does not apply, and `UnifiedDiff.CreateUnifiedDiff` gives the exact condition.
- A NUL is printed as `\0` also before an octal digit, which then reads back as part of the escape;
  `StringLiteral.PrintThenRead` gives the exact condition.
- `AssertHeld` is documented to do nothing for a holder. After locking twice and unlocking once it
  aborts the holder (`StaticMutex.RecursiveUseMisleadsAssertHeld`); it passes exactly when the last
  finished call was a Lock (`StaticMutex.AssertHeldIsExact`).
- `UnshuffleTests` is documented to restore the order before the first shuffle. It restores the
  indices; `TestSuite::Run` has meanwhile sorted the tests that the indices refer to. The order is
  restored if and only if the suite did not run or its registered list has no inversion
  (`TestInfos.OrderIsRestored`, `UnitTests.StandingAfter`; `TestInfos.OrderIsNotRestored` has two tests).
- `GetNextPrime` is documented to return the smallest prime above p, or -1 beyond the capacity. For
  negative p the search on the fly returns -1 although 2 is that prime; a table that reaches 2 returns
  2 for p = -1 (`Primes.HybridPrimeTable.GetNextPrime`, `Primes.TwoIsFirst`).

## Modelling decisions

- Integers are unbounded unless the width matters: `Int128` uses a 64-bit type whose operations are
  checked not to overflow, `Utf8` and `Base64` use bit-vectors, the generator reduces modulo 2^32.
- The sentinel `static_cast<size_t>(-1)` is -1. The `double` costs of the edit table are exact
  reals; validity of scripts does not depend on rounding, the choice among scripts could.
- C strings are sequences, with the NUL where code looks for it. Vectors that are passed by address
  and filled are results.
- `std::stable_sort`, `std::partition`, `std::reverse` and the like are functions with their
  documented effect. Iteration over a `std::set` of expectations is in any order.
- Expectations are numbered, and a ghost map records their immediate prerequisites. Retirement,
  satisfaction and saturation are those of the cardinalities `Between`, `AtLeast`, `AtMost` and
  `Exactly`.
- Ghost parameters (the items of a pattern, the prerequisite graph, the lists of tests) are for the
  proof only; the code does not depend on them.
- Some loop bodies are methods of their own, and the text of a diff hunk is data rather than
  characters, so that the header ranges can be read back.

## Model

| member | source | states |
|---|---|---|
| `MatchMatrices.MatchMatrix.constructor` | Google_tests/lib/googlemock/include/gmock/gmock-matchers.h:3567-3571 | a new matrix has the sizes asked for and no edge |
| `MatchMatrices.Unflatten` | Google_tests/lib/googlemock/include/gmock/gmock-matchers.h:3573-3607 | cell (i, j) of the L by R relation is the flat element at the space index of (i, j), which is in range |
| `MatchMatrices.SpaceIndexOrder` | Google_tests/lib/googlemock/include/gmock/gmock-matchers.h:3589-3591 | space indices of different rows never meet, so cells do not overlap |
| `MatchMatrices.MatchMatrix.SetEdge` | Google_tests/lib/googlemock/include/gmock/gmock-matchers.h:3576-3579 | sets exactly the one edge and leaves every other edge as it was |
| `MatchMatrices.MatchMatrix.NextGraph` | Google_tests/lib/googlemock/src/gmock-matchers.cc:246-258 | counts: the matrix read as a binary number goes up by one, and false is returned exactly on wrapping from all ones to zero |
| `MatchMatrices.ValueOfCarry` | Google_tests/lib/googlemock/src/gmock-matchers.cc:246-258 | setting the first clear bit and clearing those before it adds one |
| `MatchMatrices.ValueNumbersGraphs` | Google_tests/lib/googlemock/src/gmock-matchers.cc:246-258 | different graphs have different numbers below 2^cells, so counting from the empty graph meets every graph once |
| `Matching.CoverBoundsMatching` | Google_tests/lib/googlemock/src/gmock-matchers.cc:119-163 | no matching is larger than a set of nodes that touches all its edges |
| `Matching.CertificateImpliesMaximum` | Google_tests/lib/googlemock/src/gmock-matchers.cc:134-146 | a closed set of matched right nodes holding all neighbours of the unmatched left nodes proves the matching of the processed prefix maximum |
| `Matching.CertificateAfterSuccess` | Google_tests/lib/googlemock/src/gmock-matchers.cc:136-146 | an augmentation that does not rematch the closed set keeps the certificate and extends it by the new left node; why each left node is tried only once |
| `Matching.Relink` | Google_tests/lib/googlemock/src/gmock-matchers.cc:200-204 | moving a left node to a free right node keeps the vectors mutually referent but for the stale link of the former partner |
| `Matching.MaxBipartiteMatchState.constructor` | Google_tests/lib/googlemock/src/gmock-matchers.cc:126-129 | both vectors start unused |
| `Matching.MaxBipartiteMatchState.TryAugment` | Google_tests/lib/googlemock/src/gmock-matchers.cc:184-208 | terminates; success keeps the vectors mutually referent up to one stale link, turns no used entry unused and turns only the start from unused to used; failure changes no matching and leaves a dead end: all newly seen right nodes are matched and their partners' neighbours seen |
| `Matching.MaxBipartiteMatchState.Compute` | Google_tests/lib/googlemock/src/gmock-matchers.cc:132-163 | the pairs are the edges of the left vector in increasing order and form a matching of maximum size; the check at the head of the loop never fails |
| `Matching.MaximumFromCertificate` | Google_tests/lib/googlemock/src/gmock-matchers.cc:156-162 | the listed pairs are distinct real edges, no two share an end, and no matching of the graph is larger |
| `Matching.FindMaxBipartiteMatching` | Google_tests/lib/googlemock/src/gmock-matchers.cc:228-230 | for every boolean matrix: real edges, no shared end, maximum size among all matchings |
| `UnorderedMatcher.CoverageBySize` | Google_tests/lib/googlemock/src/gmock-matchers.cc:438-465 | a matching covers a side exactly when it has as many edges as the side has nodes |
| `UnorderedMatcher.MaximumDecides` | Google_tests/lib/googlemock/src/gmock-matchers.cc:438-465 | comparing the size of one maximum matching with the required sides decides for all matchings |
| `UnorderedMatcher.FindPairing` | Google_tests/lib/googlemock/src/gmock-matchers.cc:436-475 | true exactly when some matching covers every side that the flags require |
| `UnorderedMatcher.VerifyMatchMatrix` | Google_tests/lib/googlemock/src/gmock-matchers.cc:369-434 | true exactly when no required matcher or element is isolated and an exact match has equal sizes |
| `UnorderedMatcher.QuickCheckIsSound` | Google_tests/lib/googlemock/src/gmock-matchers.cc:361-434 | the quick check never rejects a matrix that has a pairing |
| `UnorderedMatcher.QuickCheckIsIncomplete` | Google_tests/lib/googlemock/src/gmock-matchers.cc:361-434 | some matrix passes the quick check and has no pairing, so the second search is needed |
| `UnorderedMatcher.AnalyzeElements` | Google_tests/lib/googlemock/include/gmock/gmock-matchers.h:3707-3733 | the matrix joins element i and matcher j exactly when the matcher accepts the element |
| `UnorderedMatcher.PairableMeaning` | Google_tests/lib/googlemock/include/gmock/gmock-matchers.h:3611-3617 | Superset: distinct elements exist for all matchers; Subset: distinct matchers exist for all elements; ExactMatch: some permutation of the elements satisfies the matchers one by one |
| `UnorderedMatcher.MatchAndExplain` | Google_tests/lib/googlemock/include/gmock/gmock-matchers.h:3693-3704 | for each of the three flags the container is accepted exactly when such elements, matchers or permutation exist, for every container and list of matchers |
| `EditDistance.ReplayYieldsRight` | Google_tests/lib/googletest/src/gtest.cc:1333-1389 | replaying a valid script on left, feeding only the inserted elements, yields right and uses all of them |
| `EditDistance.PathAligns` | Google_tests/lib/googletest/src/gtest.cc:1379-1388 | the traced path consumes both prefixes exactly, matches only equal elements, and costs what the table records |
| `EditDistance.OptimalEditsValid` | Google_tests/lib/googletest/src/gtest.cc:1334-1389 | every computed script is valid, replays left into right and costs its table entry |
| `EditDistance.FillTables` | Google_tests/lib/googletest/src/gtest.cc:1336-1377 | both tables hold the cost and last move of every pair of prefixes |
| `EditDistance.FillRow` | Google_tests/lib/googletest/src/gtest.cc:1353-1376 | one row is filled from the row before it, with the source's tie rule |
| `EditDistance.CalculateOptimalEdits` | Google_tests/lib/googletest/src/gtest.cc:1334-1389 | the traceback never leaves the table and returns the path of the table |
| `EditDistance.InternalStrings.GetId` | Google_tests/lib/googletest/src/gtest.cc:1396-1401 | known strings keep their id, a new one gets the next id, and different strings have different ids |
| `EditDistance.InternLines` | Google_tests/lib/googletest/src/gtest.cc:1415-1421 | each line gets the id of its text, ids given before stay |
| `EditDistance.EntryByShape` | Google_tests/lib/googletest/src/gtest.cc:1410-1424 | table entries depend only on which elements are equal |
| `EditDistance.PathByShape` | Google_tests/lib/googletest/src/gtest.cc:1410-1424 | so interning changes no script |
| `EditDistance.CalculateOptimalEditsOfLines` | Google_tests/lib/googletest/src/gtest.cc:1410-1424 | the script of the ids is the script of the lines |
| `EditDistance.NotAlwaysMinimal` | Google_tests/lib/googletest/src/gtest.cc:1364-1375 | "aba" to "bab" gives three replacements where a valid script of lower cost has two edits |
| `EditDistance.NeighboursAreClose` | Google_tests/lib/googletest/src/gtest.cc:1353-1376 | where no cheaper move is passed over, neighbouring entries of the table differ by at most 1 |
| `EditDistance.LeastUnlessPassedOver` | Google_tests/lib/googletest/src/gtest.cc:1353-1376 | every entry is the least cost of any valid script for its prefixes if and only if at no entry with different last elements the rule for ties passes over a cheaper addition or removal |
| `EditDistance.OptimalUnlessPassedOver` | Google_tests/lib/googletest/src/gtest.cc:1333-1389 | then the script computed costs no more than any valid script |
| `EditDistance.PassedOverOnlyInTies` | Google_tests/lib/googletest/src/gtest.cc:1364-1375 | where elements differ, the cost exceeds that of an addition only if the addition ties with the removal or the replacement, and that of a removal only if it ties with one of the other two |
| `EditDistance.LeastWithoutTies` | Google_tests/lib/googletest/src/gtest.cc:1353-1376 | without such ties every entry is the least cost of any valid script |
| `EditDistance.EqualTextsMatch` | Google_tests/lib/googletest/src/gtest.cc:1360-1363 | equal texts have the script of matches only |
| `UnifiedDiff.Hunk.constructor` | Google_tests/lib/googletest/src/gtest.cc:1434-1439 | a new hunk is empty and keeps its two start lines |
| `UnifiedDiff.Hunk.PushLine` | Google_tests/lib/googletest/src/gtest.cc:1441-1457 | appends to the old text, the new text or both as the mark says, and keeps counters, reordering, context and the widest gap between edits in step with the body |
| `UnifiedDiff.Hunk.FlushEdits` | Google_tests/lib/googletest/src/gtest.cc:1472-1475 | pending deletions, then pending additions, move behind the body |
| `UnifiedDiff.Hunk.PrintTo` | Google_tests/lib/googletest/src/gtest.cc:1459-1493 | the header ranges describe the body, a side without edits is left out, and deletions precede additions in each run |
| `UnifiedDiff.TextsAfterPush` | Google_tests/lib/googletest/src/gtest.cc:1441-1457 | putting deletions before additions changes neither the old nor the new text |
| `UnifiedDiff.RunsAreShort` | Google_tests/lib/googletest/src/gtest.cc:1502-1508 | no run of unchanged lines between two edits of a body is longer than its widest gap |
| `UnifiedDiff.ShownWhole` | Google_tests/lib/googletest/src/gtest.cc:1527-1528 | exactly lines without NUL are shown whole when they are passed as C strings |
| `UnifiedDiff.NextEdit` | Google_tests/lib/googletest/src/gtest.cc:1517-1522 | the first edit at or after a position, all before it being matches |
| `UnifiedDiff.AlignedFromAligns` | Google_tests/lib/googletest/src/gtest.cc:1512-1514 | a valid script keeps both line counters in range at every edit |
| `UnifiedDiff.EnoughSuffix` | Google_tests/lib/googletest/src/gtest.cc:1535-1544 | a hunk ends exactly when enough unchanged lines follow and the next edit is at least the context away |
| `UnifiedDiff.CopyEdit` | Google_tests/lib/googletest/src/gtest.cc:1546-1555 | one edit adds exactly its old line and its new line, each up to its first NUL |
| `UnifiedDiff.FillHunk` | Google_tests/lib/googletest/src/gtest.cc:1531-1560 | the hunk body is the exact slices of both texts, as shown, that the edits consume; every move in it lies within the context of an edit, fewer than 2 * context unchanged lines stand between two edits, and where it stops there is room for the next leading context |
| `UnifiedDiff.StartHunk` | Google_tests/lib/googletest/src/gtest.cc:1524-1529 | the hunk starts with the unchanged lines before the edit, as shown, and its start lines never underflow |
| `UnifiedDiff.RoomForContext` | Google_tests/lib/googletest/src/gtest.cc:1524-1529 | the leading context of the next hunk lies behind the hunk before |
| `UnifiedDiff.ContextIsSame` | Google_tests/lib/googletest/src/gtest.cc:1524-1529 | the leading context is shown alike on both sides |
| `UnifiedDiff.BuildHunk` | Google_tests/lib/googletest/src/gtest.cc:1524-1567 | the printed hunk fits both texts, as shown, at its place, shows the context asked for, less only at the ends, has no wide gap and shows only lines near edits |
| `UnifiedDiff.BuildHunks` | Google_tests/lib/googletest/src/gtest.cc:1512-1568 | hunks come in order without overlap, the text between and around them is equal on both sides, and they show exactly the lines within the context of an edit |
| `UnifiedDiff.CoversNext` | Google_tests/lib/googletest/src/gtest.cc:1512-1568 | one more hunk keeps: of the moves so far exactly those within the context of an edit are shown |
| `UnifiedDiff.HunkApplies` | Google_tests/lib/googletest/src/gtest.cc:1509-1570 | a hunk at its place applies if and only if none of its lines has a NUL |
| `UnifiedDiff.AppliesFrom` | Google_tests/lib/googletest/src/gtest.cc:1509-1570 | applying the remaining printed hunks from any hunk boundary completes right if and only if no line in them has a NUL |
| `UnifiedDiff.CreateUnifiedDiff` | Google_tests/lib/googletest/src/gtest.cc:1509-1570 | every hunk fits; applying the printed hunks to left gives right, with context, if and only if no line within the context of an edit has a NUL, and without context if and only if the texts are equal |
| `UnifiedDiff.ShownAreNearEdits` | Google_tests/lib/googletest/src/gtest.cc:1509-1570 | the lines of the hunks are those within the context of an edit, so the condition can be checked on the edit script |
| `UnifiedDiff.NulFreeApplies` | Google_tests/lib/googletest/src/gtest.cc:1509-1570 | for texts without NUL the diff applies, whatever the context but 0 |
| `UnifiedDiff.NulIsLost` | Google_tests/lib/googletest/src/gtest.cc:1551-1554 | two lines that differ only behind a NUL are shown alike, and the diff does not apply |
| `Glob.LaterStarSuffices` | Google_tests/lib/googletest/src/gtest.cc:755-770 | once a later star is reached an earlier one never needs to take more, so only the last star is remembered |
| `Glob.AliveAtStar` | Google_tests/lib/googletest/src/gtest.cc:755-762 | at a star, forgetting the saved restart loses no match |
| `Glob.AliveAtCharacter` | Google_tests/lib/googletest/src/gtest.cc:741-754 | consuming an equal character or one for a question mark keeps the set of matches |
| `Glob.AliveAtMismatch` | Google_tests/lib/googletest/src/gtest.cc:765-771 | at a mismatch only the saved restart can still match |
| `Glob.PatternMatchesString` | Google_tests/lib/googletest/src/gtest.cc:729-774 | terminates and agrees with the declarative glob relation for all names and patterns |
| `FilterLaws.PatternsConcatenate` | Google_tests/lib/googletest/src/gtest.cc:729-774 | two patterns in a row match exactly the strings that can be cut into a match of each |
| `FilterLaws.OneCharacterPatterns` | Google_tests/lib/googletest/src/gtest.cc:741-754 | a question mark matches any one character, every other character but a star itself alone |
| `FilterLaws.StarMatchesAll` | Google_tests/lib/googletest/src/gtest.cc:755-762 | a star alone matches every string |
| `TestFilter.JoinSplit` | Google_tests/lib/googletest/src/gtest.cc:1277-1292 | joining the parts gives the string back and no part holds the delimiter |
| `TestFilter.SplitJoin` | Google_tests/lib/googletest/src/gtest.cc:1277-1292 | any delimiter-free parts are what splitting their join gives |
| `TestFilter.SplitString` | Google_tests/lib/googletest/src/gtest.cc:1277-1292 | the loop computes that split |
| `TestFilter.PlainPatternMatchesItself` | Google_tests/lib/googletest/src/gtest.cc:778-802 | a pattern without wildcards matches exactly itself |
| `TestFilter.UnitTestFilter.MatchesName` | Google_tests/lib/googletest/src/gtest.cc:806-814 | membership in the exact set or a glob of the list |
| `TestFilter.MakeUnitTestFilter` | Google_tests/lib/googletest/src/gtest.cc:788-814 | the compiled filter accepts a name exactly when some colon-separated pattern glob-matches it |
| `TestFilter.CutAtFirstDash` | Google_tests/lib/googletest/src/gtest.cc:830-846 | splitting at every dash and rejoining the tail cuts at the first dash |
| `TestFilter.JoinTail` | Google_tests/lib/googletest/src/gtest.cc:842-845 | the rejoined negative part |
| `TestFilter.MakePositiveAndNegativeFilter` | Google_tests/lib/googletest/src/gtest.cc:828-868 | the compiled pair accepts exactly what the part before the first dash wants and the part behind it does not, an empty first part wanting all |
| `TestFilter.FilterMatchesTest` | Google_tests/lib/googletest/src/gtest.cc:858-861 | a test is judged by suite, dot and test name |
| `FilterLaws.ColonMeansEither` | Google_tests/lib/googletest/src/gtest.cc:788-814 | filters joined by a colon accept exactly what one of them accepts |
| `FilterLaws.DashLeavesOut` | Google_tests/lib/googletest/src/gtest.cc:828-868 | with a dash exactly those names are wanted that the first half accepts, or all if it is empty, and the second does not |
| `FilterLaws.DisabledByName` | Google_tests/lib/googletest/src/gtest.cc:6205-6207 | a test is disabled exactly when its name or that of its suite begins with DISABLED_ or has it behind a slash |
| `FilterLaws.RunnableByName` | Google_tests/lib/googletest/src/gtest.cc:6205-6216 | disabled tests are left out exactly without the flag that also runs them |
| `FilterLaws.DeathByName` | Google_tests/lib/googletest/src/gtest.cc:182-185 | a suite is a death test suite exactly when its name ends in DeathTest or has it before a slash |
| `SimpleRegex.ScanIsGrammar` | Google_tests/lib/googletest/src/gtest-port.cc:822-873 | the flags of the scan accept exactly the texts of the grammar [^] (atom [?*+])* [$] |
| `SimpleRegex.ValidateRegex` | Google_tests/lib/googletest/src/gtest-port.cc:822-873 | true exactly for a non-null text of that grammar |
| `SimpleRegex.PrefixOfItems` | Google_tests/lib/googletest/src/gtest-port.cc:889-899 | a repeated atom followed by the rest matches a prefix exactly when some allowed count does |
| `SimpleRegex.MatchRepetitionAndRegexAtHead` | Google_tests/lib/googletest/src/gtest-port.cc:882-901 | true exactly when some count that the repetition allows, followed by the rest, matches a prefix |
| `SimpleRegex.MatchRegexAtHead` | Google_tests/lib/googletest/src/gtest-port.cc:906-930 | true exactly when a prefix, all of the string under an end anchor, is in the language; the mutual recursion terminates |
| `SimpleRegex.TextDeterminesPattern` | Google_tests/lib/googletest/src/gtest-port.cc:903-930 | the grammar is unambiguous |
| `SimpleRegex.MatchRegexAnywhere` | Google_tests/lib/googletest/src/gtest-port.cc:940-950 | true exactly when some substring that the anchors allow is in the language; false for null |
| `SimpleRegex.RE.Init` | Google_tests/lib/googletest/src/gtest-port.cc:968-995 | validity is membership in the grammar, false for null, and the full pattern is the text of the pattern anchored as far as its first and last character do not already show |
| `SimpleRegex.FullText` | Google_tests/lib/googletest/src/gtest-port.cc:984-994 | adding the missing anchors to the text gives the text of the anchored pattern |
| `SimpleRegex.RE.FullMatch` | Google_tests/lib/googletest/src/gtest-port.cc:957-959 | whole-string membership for every pattern not ending in an escaped dollar; otherwise some prefix from the start; false for a null pattern or string |
| `SimpleRegex.RE.PartialMatch` | Google_tests/lib/googletest/src/gtest-port.cc:963-965 | some substring that the anchors allow is in the language; false for a null pattern or string |
| `SimpleRegex.FullMatchIsWholeMatch` | Google_tests/lib/googletest/src/gtest-port.cc:984-994 | full matching means whole-string membership for all strings if and only if the pattern does not end in an escaped dollar |
| `RegexLanguage.ClassesMatch` | Google_tests/lib/googletest/src/gtest-port.cc:781-811 | the one-character strings in the language of each class, as literal ranges: digits, word characters, white space, and exactly the others for the capital letters |
| `RegexLanguage.ControlsMatch` | Google_tests/lib/googletest/src/gtest-port.cc:781-811 | the escapes f, n, r, t and v accept one control character each, the dot everything but a newline |
| `RegexLanguage.OthersMatchThemselves` | Google_tests/lib/googletest/src/gtest-port.cc:781-811 | escaped punctuation and plain characters accept themselves alone |
| `RegexLanguage.AtomsThatPass` | Google_tests/lib/googletest/src/gtest-port.cc:766-780 | which single characters, and which escaped ones, are patterns, as literal ranges |
| `RegexLanguage.RepetitionsMatch` | Google_tests/lib/googletest/src/gtest-port.cc:882-901 | an atom with a repetition accepts exactly the strings of allowed length whose every character it accepts alone |
| `RegexLanguage.ConcatenationsMatch` | Google_tests/lib/googletest/src/gtest-port.cc:906-930 | two patterns in a row accept exactly the strings that can be cut into what each accepts |
| `RegexLanguage.OneAtomAnywhere` | Google_tests/lib/googletest/src/gtest-port.cc:940-950 | searching for one atom succeeds exactly when some character of the string is accepted alone |
| `StaticMutex.StepKeepsPhase` | Google_tests/lib/googletest/src/gtest-port.cc:382-424 | each step of any thread keeps the phase invariant and the phase rises by at most one |
| `StaticMutex.StepKeepsOwner` | Google_tests/lib/googletest/src/gtest-port.cc:323-344 | each step keeps: a recorded owner holds the section |
| `StaticMutex.StepKeepsSingle` | Google_tests/lib/googletest/src/gtest-port.cc:323-344 | without recursive locking each step keeps: the holder is recorded except inside Lock and Unlock |
| `StaticMutex.RunInv` | Google_tests/lib/googletest/src/gtest-port.cc:305-344 | the invariants hold in every state of every interleaving |
| `StaticMutex.PhaseAdvances` | Google_tests/lib/googletest/src/gtest-port.cc:384-422 | in every run the phase only goes 0 to 1 to 2 |
| `StaticMutex.InitialisedExactlyOnce` | Google_tests/lib/googletest/src/gtest-port.cc:382-424 | the section is initialised once, no internal check fails, and no thread leaves the lazy initialisation before phase 2 |
| `StaticMutex.MutualExclusion` | Google_tests/lib/googletest/src/gtest-port.cc:323-336 | at most one thread is between entering and leaving |
| `StaticMutex.AssertHeldIsSound` | Google_tests/lib/googletest/src/gtest-port.cc:338-344 | AssertHeld lets only the holder pass |
| `StaticMutex.OwnerLockedLast` | Google_tests/lib/googletest/src/gtest-port.cc:323-344 | in every run the recorded owner is the thread whose last finished call was a Lock |
| `StaticMutex.AssertHeldIsExact` | Google_tests/lib/googletest/src/gtest-port.cc:338-344 | AssertHeld passes, recursive use or not, exactly when the last of the calls of Lock and Unlock that the thread finished was a Lock |
| `StaticMutex.AssertHeldMeetsItsPromise` | Google_tests/lib/googletest/src/gtest-port.cc:338-344 | AssertHeld passes for its caller exactly when that is the holder, if and only if the caller does not hold the lock after an Unlock; always so when locking is not recursive |
| `StaticMutex.RecursiveUseMisleadsAssertHeld` | Google_tests/lib/googletest/src/gtest-port.cc:329-344 | locking twice and unlocking once leaves a holder whom AssertHeld aborts |
| `MutexCalls.CallReturns` | Google_tests/lib/googletest/src/gtest-port.cc:323-344 | in every run, when a call returns: after Lock the thread holds the section, one deeper than before the call; after Unlock the depth is one less; after AssertHeld the recorded owner was the thread itself |
| `MutexCalls.DepthIsBalance` | Google_tests/lib/googletest/src/gtest-port.cc:323-336 | in every run the depth at which a thread holds the section is the number of its finished Locks less that of its finished Unlocks, but for the call in progress |
| `MutexCalls.OneHasLocked` | Google_tests/lib/googletest/src/gtest-port.cc:323-336 | of all threads at most one has finished more Locks than Unlocks, and none has finished fewer |
| `MutexCalls.InitialisedGoesOn` | Google_tests/lib/googletest/src/gtest-port.cc:404-416 | once the phase is 2, a thread that tests or waits for it has exactly one step, to the operation that it came for |
| `MutexCalls.NoDeadlock` | Google_tests/lib/googletest/src/gtest-port.cc:323-424 | in every state of every run with a call in progress some thread has a step that changes the state, unless the section is held by a thread that is outside any call or was aborted |
| `Prerequisites.ExpectationBase.RetireImmediate` | Google_tests/lib/googlemock/src/gmock-spec-builders.cc:122-130 | retires the immediate prerequisites and hands on those newly retired |
| `Prerequisites.ExpectationBase.RetireAllPreRequisites` | Google_tests/lib/googlemock/src/gmock-spec-builders.cc:109-132 | retires every transitive prerequisite and nothing else, and keeps: retired implies all prerequisites retired |
| `Prerequisites.AllRetired` | Google_tests/lib/googlemock/src/gmock-spec-builders.cc:111-115 | the short-cut is right: with that invariant a retired expectation has nothing left to retire |
| `Prerequisites.ExpectationBase.ListSatisfied` | Google_tests/lib/googlemock/src/gmock-spec-builders.cc:144-150 | stops at an unsatisfied immediate prerequisite, else hands on all of them |
| `Prerequisites.WeightDrops` | Google_tests/lib/googlemock/src/gmock-spec-builders.cc:139-151 | the walk without a visited set ends on an acyclic graph: replacing an expectation by its prerequisites lowers a weight |
| `Prerequisites.ExpectationBase.AllPrerequisitesAreSatisfied` | Google_tests/lib/googlemock/src/gmock-spec-builders.cc:136-153 | on any acyclic graph true exactly when every transitive prerequisite is satisfied |
| `Prerequisites.ExpectationBase.ListUnsatisfied` | Google_tests/lib/googlemock/src/gmock-spec-builders.cc:164-181 | sorts the immediate prerequisites into unsatisfied, and satisfied but uncalled |
| `Prerequisites.ExpectationBase.FindUnsatisfiedPrerequisites` | Google_tests/lib/googlemock/src/gmock-spec-builders.cc:156-183 | adds exactly the unsatisfied prerequisites reached through satisfied, uncalled ones |
| `Prerequisites.SearchMissesNothing` | Google_tests/lib/googlemock/src/gmock-spec-builders.cc:169-180 | if what is satisfied and called is settled, every unsatisfied prerequisite is found or lies behind one that is |
| `Prerequisites.NothingFoundWhenAllSatisfied` | Google_tests/lib/googlemock/src/gmock-spec-builders.cc:155-183 | then nothing is found exactly when all transitive prerequisites are satisfied |
| `Prerequisites.Sequence.AddExpectation` | Google_tests/lib/googlemock/src/gmock-spec-builders.cc:759-767 | the expectation becomes the last one and gets the previous last as a prerequisite, unless there is none or it is itself |
| `Prerequisites.OrderedIsAcyclic` | Google_tests/lib/googlemock/src/gmock-spec-builders.cc:759-767 | ordering keeps the graph acyclic if and only if the earlier expectation does not already require the later |
| `Prerequisites.OlderExpectationMayCycle` | Google_tests/lib/googlemock/src/gmock-spec-builders.cc:759-767 | so adding an older expectation behind a newer one can close a cycle |
| `ExpectationRuns.CreateKeeps` | Google_tests/lib/googlemock/include/gmock/gmock-spec-builders.h:1570-1589 | a new expectation keeps the invariant |
| `ExpectationRuns.PrerequisitesKeep` | Google_tests/lib/googlemock/include/gmock/gmock-spec-builders.h:972-983 | ordering the newest expectation behind older ones keeps the invariant |
| `ExpectationRuns.InSequenceKeeps` | Google_tests/lib/googlemock/src/gmock-spec-builders.cc:759-767 | adding the newest expectation to a sequence keeps the invariant |
| `ExpectationRuns.CallKeeps` | Google_tests/lib/googlemock/include/gmock/gmock-spec-builders.h:1218-1253 | handling a call, excess or proper, keeps the invariant |
| `ExpectationRuns.CallKeepsSettled` | Google_tests/lib/googlemock/include/gmock/gmock-spec-builders.h:1239-1244 | after a proper call the prerequisites of everything retired, and of everything satisfied and called, are retired |
| `ExpectationRuns.CallKeepsOrder` | Google_tests/lib/googlemock/include/gmock/gmock-spec-builders.h:1124-1134 | a call that may be handled is not one of a prerequisite of an expectation properly called before |
| `ExpectationRuns.NextKeeps` | Google_tests/lib/googlemock/include/gmock/gmock-spec-builders.h:944-983 | every step of a run keeps the invariant |
| `ExpectationRuns.RunKeeps` | Google_tests/lib/googlemock/src/gmock-spec-builders.cc:759-767 | the invariant holds throughout every run of set-up and calls |
| `ExpectationRuns.SequencesAreOrdered` | Google_tests/lib/googlemock/src/gmock-spec-builders.cc:759-767 | in every run the graph is acyclic and each sequence member transitively requires all earlier members |
| `ExpectationRuns.CalledAreSettled` | Google_tests/lib/googlemock/src/gmock-spec-builders.cc:109-115 | in every run retired implies satisfied with retired prerequisites, and called and satisfied implies satisfied prerequisites |
| `ExpectationRuns.CallsFollowSequences` | Google_tests/lib/googlemock/include/gmock/gmock-spec-builders.h:1218-1253 | once a member of a sequence has been properly called no earlier member is called again |
| `ExpectationRuns.CallsFindSatisfied` | Google_tests/lib/googlemock/include/gmock/gmock-spec-builders.h:1124-1134 | a call is handled only when all transitive prerequisites are satisfied |
| `ExpectationLaws.CardinalityMeaning` | Google_tests/lib/googlemock/src/gmock-cardinalities.cc:75-82 | satisfied means from min to max calls, saturated that no further call can satisfy |
| `ExpectationLaws.ActiveHandles` | Google_tests/lib/googlemock/include/gmock/gmock-spec-builders.h:1124-1134 | a call of an expectation is possible exactly when it is active and all its prerequisites, immediate or not, have a number of calls within their bounds |
| `ExpectationLaws.CallsAreCounted` | Google_tests/lib/googlemock/include/gmock/gmock-spec-builders.h:1218-1238 | in every run the calls of an expectation are those logged for it, and the excess ones are exactly those beyond its maximum |
| `ExpectationLaws.RetiredExactly` | Google_tests/lib/googlemock/include/gmock/gmock-spec-builders.h:1239-1253 | in every run exactly those are retired that a properly called expectation transitively requires, or that retire on saturation and have had their last allowed call; the latter have no excess call |
| `Shuffling.Random.Generate` | Google_tests/lib/googletest/src/gtest.cc:405-419 | the next state of the generator, and a number below the range from it |
| `Shuffling.PickedRearranges` | Google_tests/lib/googletest/src/gtest-internal-inl.h:318-324 | whatever is picked, the range is a permutation of itself and nothing outside it moves |
| `Shuffling.ShuffleRange` | Google_tests/lib/googletest/src/gtest-internal-inl.h:305-325 | the range becomes what the state of the generator makes of it, which is a permutation of the range, and the generator goes on by one number less than the width |
| `Shuffling.ShuffledIsPicked` | Google_tests/lib/googletest/src/gtest-internal-inl.h:316-324 | the numbers drawn, each modulo what is left of the range, are the picks |
| `Shuffling.EveryOrderIsPicked` | Google_tests/lib/googletest/src/gtest-internal-inl.h:316-324 | every order of the range comes from some picks |
| `Shuffling.PicksAreDetermined` | Google_tests/lib/googletest/src/gtest-internal-inl.h:316-324 | different picks give different orders, so uniform picks make all orders equally likely |
| `Shuffling.LastIsPicked` | Google_tests/lib/googletest/src/gtest-internal-inl.h:318-324 | the element picked for a width ends at the end of that width |
| `ShuffleLaws.OnePickExchanges` | Google_tests/lib/googletest/src/gtest-internal-inl.h:318-324 | with all other picks the greatest, one pick makes two elements change places and moves no other |
| `ShuffleLaws.GreatestPicksKeep` | Google_tests/lib/googletest/src/gtest-internal-inl.h:318-324 | the greatest picks move nothing |
| `ShuffleLaws.StatesAreCongruential` | Google_tests/lib/googletest/src/gtest.cc:405-419 | the states of the generator follow the recurrence modulo 2^31; the first after 1 is 1103527590 |
| `ShuffleLaws.DrawsAre` | Google_tests/lib/googletest/src/gtest-internal-inl.h:316-324 | the pick for each width is the next state modulo that width, the widest first |
| `Shuffling.RearrangedIsOrder` | Google_tests/lib/googletest/src/gtest-internal-inl.h:305-325 | a rearranged list of all indices is again one, with the same indices in the range |
| `TestSelection.ShardsPartition` | Google_tests/lib/googletest/src/gtest.cc:6163-6171 | each runnable test is selected on exactly one shard, other tests on none |
| `TestSelection.LoadOfShard` | Google_tests/lib/googletest/src/gtest.cc:6163-6171 | a shard of N takes n/N of n numbers, and one more if its index is below n mod N |
| `TestSelection.LoadsAreBalanced` | Google_tests/lib/googletest/src/gtest.cc:6163-6171 | the loads of two shards differ by at most one |
| `TestSelection.SelectedIsLoad` | Google_tests/lib/googletest/src/gtest.cc:5918-5921 | a process that selects a test counts at least one |
| `ShardLaws.TakenByNumber` | Google_tests/lib/googletest/src/gtest.cc:6163-6171 | a shard takes a test exactly when it is runnable and the number of runnable tests before it, counted over all suites, leaves the index of the shard |
| `ShardLaws.ShardTakesItsPart` | Google_tests/lib/googletest/src/gtest.cc:6185-6241 | of n runnable tests in all suites a shard of N takes n/N tests, and one more if its index is below n mod N |
| `TestSuites.Judge` | Google_tests/lib/googletest/src/gtest.cc:6203-6216 | a test is disabled by suite or test name, wanted by its full name, and runnable as the options say |
| `TestInfos.PrecedesOrders` | Google_tests/lib/googletest/src/gtest.cc:3023-3029 | comparing file, then line, is a strict weak order |
| `RunLaws.PrecedesByPosition` | Google_tests/lib/googletest/src/gtest.cc:3023-3029 | a test precedes another exactly when its file name is the smaller by the first difference, or the file is the same and the line smaller |
| `TestInfos.SortKeepsTests` | Google_tests/lib/googletest/src/gtest.cc:3023-3030 | sorting loses and repeats no test |
| `TestInfos.SortSorts` | Google_tests/lib/googletest/src/gtest.cc:3023-3030 | no test stands behind one that it precedes |
| `TestInfos.SortIsStable` | Google_tests/lib/googletest/src/gtest.cc:3023-3030 | of two tests the one registered first stays first, unless the other precedes it |
| `TestInfos.SortKeepsExactlySorted` | Google_tests/lib/googletest/src/gtest.cc:3023-3030 | sorting leaves a list as it is if and only if no test stands in it before one that it follows |
| `TestInfos.OrderIsRestored` | Google_tests/lib/googletest/src/gtest.cc:3118-3123 | after running and unshuffling the tests stand in the order of registration if and only if the suite did not run or its registered list has no inversion |
| `TestInfos.OrderIsNotRestored` | Google_tests/lib/googletest/src/gtest.cc:3118-3123 | two tests of one file registered in the reverse order of their lines have changed places |
| `TestInfos.SortsOnce` | Google_tests/lib/googletest/src/gtest.cc:3023-3030 | sorting again what a run has sorted changes nothing |
| `TestInfos.ChosenHasAll` | Google_tests/lib/googletest/src/gtest.cc:3048-3053 | going through the indices meets each chosen test exactly once |
| `TestSuites.TestSuite.AddTestInfo` | Google_tests/lib/googletest/src/gtest.cc:3000-3003 | the test goes to the end and its index with it |
| `TestSuites.TestSuite.ShuffleTests` | Google_tests/lib/googletest/src/gtest.cc:3114-3116 | the indices become what the state of the generator makes of them, and the generator goes on |
| `TestSuites.TestSuite.UnshuffleTests` | Google_tests/lib/googletest/src/gtest.cc:3119-3123 | the indices are the original order again |
| `TestSuites.TestSuite.FilterTests` | Google_tests/lib/googletest/src/gtest.cc:6197-6229 | every test gets the flags that filter and number ask for, the suite runs exactly when one of its tests does, and both counts are exact |
| `TestSuites.TestSuite.Run` | Google_tests/lib/googletest/src/gtest.cc:3006-3062 | sorts the list when the suite should run, and runs the chosen tests of the sorted list in the order of the indices |
| `UnitTests.IsDeathTestSuite` | Google_tests/lib/googletest/src/gtest.cc:5848-5850 | by the death test filter |
| `UnitTests.UnitTestImpl.constructor` | Google_tests/lib/googletest/src/gtest.cc:5655-5666 | no suite, no death test suite |
| `UnitTests.UnitTestImpl.FindTestSuite` | Google_tests/lib/googletest/src/gtest.cc:5829-5840 | trying the newest suite first gives what the map says |
| `UnitTests.UnitTestImpl.GetTestSuite` | Google_tests/lib/googletest/src/gtest.cc:5825-5865 | a known suite is returned and nothing changes; a new one goes behind the last death test suite or to the end, and map, list, indices and death suites stay consistent |
| `UnitTests.UnitTestImpl.InsertSuite` | Google_tests/lib/googletest/src/gtest.cc:5848-5864 | the place of the new suite; death test suites stay first |
| `UnitTests.UnitTestImpl.AddTestInfo` | Google_tests/lib/googletest/src/gtest-internal-inl.h:675-696 | registers the test at the end of its suite and keeps every other suite |
| `UnitTests.FilterSuite` | Google_tests/lib/googletest/src/gtest.cc:6197-6229 | one suite: numbers go on from the suites before, which stay decided |
| `UnitTests.UnitTestImpl.FilterTests` | Google_tests/lib/googletest/src/gtest.cc:6180-6232 | every test is decided by filter and running number, and the count returned is the load of the shard |
| `RunOrder.DeathsStayFirst` | Google_tests/lib/googletest/src/gtest.cc:6353-6358 | shuffling the two ranges keeps the death test suites before all others |
| `UnitTests.UnitTestImpl.ShuffleTests` | Google_tests/lib/googletest/src/gtest.cc:6352-6364 | the death test suites, the other suites and the tests of each suite in turn become what the generator makes of them, each from the state that the one before left |
| `UnitTests.UnitTestImpl.UnshuffleTests` | Google_tests/lib/googletest/src/gtest.cc:6367-6374 | all indices are the original order again |
| `UnitTests.UnitTestImpl.Shuffle` | Google_tests/lib/googletest/src/gtest.cc:5964-5970 | for a seed, the orders of suites and tests become those that the seed alone makes of the orders before |
| `UnitTests.RunSuite` | Google_tests/lib/googletest/src/gtest.cc:3005-3062 | a suite that earlier iterations have sorted runs the same tests in the same order as one that they have not |
| `UnitTests.UnitTestImpl.RunSuites` | Google_tests/lib/googletest/src/gtest.cc:6003-6013 | runs the suites in the order of their indices and the chosen tests of each in theirs: the run that the registered lists and the orders determine, whatever ran before |
| `RunOrder.JoinedIsDistinct` | Google_tests/lib/googletest/src/gtest.cc:6003-6013 | running different suites with different tests repeats no test |
| `RunOrder.JoinedKeepsDeathsFirst` | Google_tests/lib/googletest/src/gtest.cc:6003-6013 | the order of the suites carries over to the tests: those of death test suites come first |
| `RunOrder.RunIsRight` | Google_tests/lib/googletest/src/gtest.cc:6003-6013 | whatever the orders are, a run is one without repetition of exactly the chosen tests, death tests first |
| `ShuffleLaws.ShuffledPlanIsDrawn` | Google_tests/lib/googletest/src/gtest.cc:6348-6364 | shuffling for a seed picks the death test suites, the other suites and the tests of each suite from the orders before, each by the numbers of the generator that follow those of the parts before it |
| `ShuffleLaws.EveryPlanIsPicked` | Google_tests/lib/googletest/src/gtest.cc:6348-6364 | with free picks every order of the suites with death test suites first, together with any orders of their tests, is reached |
| `ShuffleLaws.OnePickForPlan` | Google_tests/lib/googletest/src/gtest.cc:6348-6364 | and by one choice of picks only |
| `RunLaws.RunFollowsPlan` | Google_tests/lib/googletest/src/gtest.cc:6003-6013 | of two chosen tests the one runs first whose suite has the earlier place, or in one suite the one with the earlier place among its tests sorted by position |
| `UnitTests.VerdictsAgree` | Google_tests/lib/googletest/src/gtest.cc:6188-6190 | the compiled filters say what the filter strings mean |
| `UnitTests.UnitTestImpl.Prepare` | Google_tests/lib/googletest/src/gtest.cc:5915-5921 | after filtering, the tests that should run are exactly those selected by filter and shard, and without a load no suite has one |
| `UnitTests.UnitTestImpl.RunIteration` | Google_tests/lib/googletest/src/gtest.cc:5956-6050 | one iteration, with or without tests to run, is the run that the registered lists, the orders at its start and the seed determine, whatever ran before; afterwards all indices are restored |
| `UnitTests.UnitTestImpl.Repeat` | Google_tests/lib/googletest/src/gtest.cc:5956-6056 | iteration i is the one that the registered lists and the seed of iteration i determine |
| `RunOrder.SeedIsItsOwnFlag` | Google_tests/lib/googletest/src/gtest-internal-inl.h:114-126 | a seed given as the flag is taken as it is |
| `RunLaws.SeedsGoAround` | Google_tests/lib/googletest/src/gtest-internal-inl.h:131-137 | shuffled iteration i has the seed (start - 1 + i) mod 99999 + 1; without shuffling the seed stays |
| `RunLaws.IterationsAreDrawn` | Google_tests/lib/googletest/src/gtest.cc:6003-6056 | iteration i runs the registered order, or with shuffling what the numbers of the generator pick from it for the seed (start - 1 + i) mod 99999 + 1 |
| `RunOrder.IterationStandsAlone` | Google_tests/lib/googletest/src/gtest.cc:6044-6056 | an iteration can be reproduced without those before it: started with its seed as the flag, a program runs just this iteration first |
| `UnitTests.UnitTestImpl.RunAllTests` | Google_tests/lib/googletest/src/gtest.cc:5888-6056 | each iteration is determined by the registered lists and its seed and runs exactly the tests that the filter string and the shard select, each once, death tests first; all indices are restored, and a suite is in its order of registration if and only if it never ran or that order is sorted |
| `UnitTests.StandingAfter` | Google_tests/lib/googletest/src/gtest.cc:6044-6050 | after the last iteration a suite stands in its order of registration if and only if there was no iteration, the suite had no test to run, or its registered list has no inversion |
| `RunOrder.EachTestOnOneShard` | Google_tests/lib/googletest/src/gtest.cc:6163-6171 | across processes for shards 0 to N-1, whatever their seeds, each runnable test runs in exactly one |
| `Utf8.GrammarMeetsEncoding` | Google_tests/lib/googletest/src/gtest-printers.cc:481-514 | the grammar of section 4 of RFC 3629 describes exactly the encodings of section 3 of scalar values, and the bytes determine the number |
| `Utf8.OneReading` | Google_tests/lib/googletest/src/gtest-printers.cc:483-514 | a byte string decodes to at most one sequence of code points |
| `Utf8.CharThenText` | Google_tests/lib/googletest/src/gtest-printers.cc:492-509 | dropping a well-formed first character does not change validity |
| `Utf8.NoCharNoText` | Google_tests/lib/googletest/src/gtest-printers.cc:492-512 | a valid text starts with a well-formed character of the length its lead byte tells |
| `Utf8.IsValidUTF8` | Google_tests/lib/googletest/src/gtest-printers.cc:483-514 | true exactly for concatenations of encodings of scalar values |
| `Utf8.ChoppedBitsRejoin` | Google_tests/lib/googletest/src/gtest.cc:2018-2022 | the six bits chopped off are less than 0x40, and shifted back behind the rest they make up the number again |
| `Utf8.FourBytes` | Google_tests/lib/googletest/src/gtest.cc:2048-2054 | three times six bits chopped off and the rest, behind their marks, are the four bytes that spell the number |
| `Utf8.WriteTwo` | Google_tests/lib/googletest/src/gtest.cc:2039-2042 | two bytes with the bit patterns of section 3 and a NUL |
| `Utf8.WriteThree` | Google_tests/lib/googletest/src/gtest.cc:2043-2047 | three bytes |
| `Utf8.WriteFour` | Google_tests/lib/googletest/src/gtest.cc:2048-2054 | four bytes |
| `Utf8.CodePointToUtf8` | Google_tests/lib/googletest/src/gtest.cc:2030-2056 | the shortest encoding for 1 to 0x1FFFFF, nothing for 0, the invalid text above |
| `Utf8.ShownValidity` | Google_tests/lib/googletest/src/gtest.cc:2030-2056 | the result is valid UTF-8 if and only if the number is no surrogate and not in 0x110000 to 0x1FFFFF |
| `Utf8.PairRoundTrip` | Google_tests/lib/googletest/src/gtest.cc:2065-2082 | the surrogate pair of a code point is recognised and gives it back |
| `Utf8.Utf16RoundTrip` | Google_tests/lib/googletest/src/gtest.cc:2105-2112 | well-formed UTF-16 without NUL stands for the code points it encodes |
| `WideLaws.UnitsAreKept` | Google_tests/lib/googletest/src/gtest.cc:2097-2117 | whatever the units are, surrogates without partner included, writing the code points again as UTF-16 gives the units before the first NUL |
| `WideLaws.NoPairIsLeft` | Google_tests/lib/googletest/src/gtest.cc:2097-2117 | and no leading surrogate is left in front of a trailing one |
| `Utf8.NextCodePoint` | Google_tests/lib/googletest/src/gtest.cc:2105-2112 | one unit, or two that form a pair |
| `Utf8.WideStringToUtf8` | Google_tests/lib/googletest/src/gtest.cc:2097-2117 | the bytes show the code points of the wide characters before the NUL and within the limit, in order; unpaired surrogates stand for themselves, and a negative limit but -1 gives nothing |
| `Utf8.WideKeepsCodePoints` | Google_tests/lib/googletest/src/gtest.cc:2097-2117 | the UTF-16 or UTF-32 form of any scalar values without NUL converts to valid UTF-8 that decodes to just these values |
| `Int128.DivideByTen` | Google_tests/lib/googletest/src/gtest-printers.cc:308-320 | one step divides the 128-bit value exactly by ten, with no 64-bit overflow |
| `Int128.RoomLeft` | Google_tests/lib/googletest/src/gtest-printers.cc:297-299 | 39 digits always suffice |
| `Int128.PrintUint128` | Google_tests/lib/googletest/src/gtest-printers.cc:291-323 | at most 39 digits within the 40-byte buffer, no needless zero, and reading them gives the value |
| `Int128.PrintInt128` | Google_tests/lib/googletest/src/gtest-printers.cc:324-331 | sign and magnitude are right down to -2^127 |
| `Int128.OneDecimal` | Google_tests/lib/googletest/src/gtest-printers.cc:291-323 | a number has one such decimal form |
| `Hexadecimal.HexRoundTrip` | Google_tests/lib/googletest/src/gtest-printers.cc:188-192 | reading the upper-case hexadecimal text gives the number back |
| `StringLiteral.ReadsHex` | Google_tests/lib/googletest/src/gtest-printers.cc:187-192 | a hexadecimal escape is read up to where it was written when no digit follows |
| `StringLiteral.NoDigitFollows` | Google_tests/lib/googletest/src/gtest-printers.cc:350-354 | the break after a hexadecimal escape makes sure that none follows |
| `StringLiteral.ReadsBreak` | Google_tests/lib/googletest/src/gtest-printers.cc:350-354 | the break itself adds no byte |
| `StringLiteral.ReadsPiece` | Google_tests/lib/googletest/src/gtest-printers.cc:151-211 | every single escape or character reads back as its byte |
| `StringLiteral.ReadsNul` | Google_tests/lib/googletest/src/gtest-printers.cc:154-156 | a NUL is read together with up to two octal digits behind it |
| `StringLiteral.ReadsBody` | Google_tests/lib/googletest/src/gtest-printers.cc:342-363 | the printed body reads back as the bytes with each NUL merged with the octal digits behind it |
| `StringLiteral.MergesOnlyNulBeforeOctal` | Google_tests/lib/googletest/src/gtest-printers.cc:154-156 | merging changes nothing if and only if no NUL stands before an octal digit |
| `StringLiteral.PrintThenRead` | Google_tests/lib/googletest/src/gtest-printers.cc:342-363 | reading the printed literals by [lex.string] and [lex.phases] gives the same bytes if and only if no NUL is directly followed by an octal digit |
| `StringLiteral.BodyIsPrintable` | Google_tests/lib/googletest/src/gtest-printers.cc:145-194 | only printable ASCII is written |
| `StringLiteral.PrintCharsAsStringTo` | Google_tests/lib/googletest/src/gtest-printers.cc:342-363 | the loop writes that text, and reports a hexadecimal escape exactly when some byte needed one |
| `LiteralLaws.PlainTextsAreShownAsTheyAre` | Google_tests/lib/googletest/src/gtest-printers.cc:184-211 | a text is printed as it is if and only if all its bytes are 0x20 to 0x7E without quotation mark and backslash |
| `LiteralLaws.HexExactlyWhenNeeded` | Google_tests/lib/googletest/src/gtest-printers.cc:151-194 | a hexadecimal escape is reported exactly when some byte is outside 0x20 to 0x7E and is none of 0 and 7 to 13 |
| `LiteralLaws.ShortEscapes` | Google_tests/lib/googletest/src/gtest-printers.cc:154-211 | the ten escapes of two characters, one by one |
| `LiteralLaws.OneOrTwoCharacters` | Google_tests/lib/googletest/src/gtest-printers.cc:151-211 | a byte takes two characters exactly when it is 0, 7 to 13, the quotation mark or the backslash, and is shown as it is exactly when it stands for itself |
| `LiteralLaws.OthersByNumber` | Google_tests/lib/googletest/src/gtest-printers.cc:187-192 | all other bytes, and no others, are shown by number in one or two upper-case digits |
| `LiteralLaws.OneMoreByte` | Google_tests/lib/googletest/src/gtest-printers.cc:342-363 | one more byte only adds its text, behind a break exactly if the byte before is shown by number and it is itself a hexadecimal digit |
| `Base64.AlphabetAsWritten` | Google_tests/lib/googlemock/src/gmock-internal-utils.cc:225-226 | the alphabet is that of section 4 of RFC 4648 |
| `Base64.EntryIsPlace` | Google_tests/lib/googlemock/src/gmock-internal-utils.cc:203-223 | the table gives each digit of either alphabet its place and 65 for any other character |
| `Base64.UnBase64` | Google_tests/lib/googlemock/src/gmock-internal-utils.cc:215-227 | the same as a byte |
| `Base64.NextDigit` | Google_tests/lib/googlemock/src/gmock-internal-utils.cc:244-252 | each digit fills a byte with its high bits and starts the next with the others |
| `Base64.TakeDigit` | Google_tests/lib/googlemock/src/gmock-internal-utils.cc:244-252 | conservation: the bits of the digits so far are those of the bytes written and of the pending byte |
| `Base64.Base64Unescape` | Google_tests/lib/googlemock/src/gmock-internal-utils.cc:229-255 | fails exactly when a character is neither whitespace, = nor a digit; else n digits give floor(6n/8) bytes with just the bits of the digits |
| `Base64.GroupKeepsBits` | Google_tests/lib/googlemock/src/gmock-internal-utils.cc:244-252 | the four digits of a group of RFC 4648 have the bits of the three bytes |
| `Base64.EncodedKeepsBits` | Google_tests/lib/googlemock/src/gmock-internal-utils.cc:244-252 | the digits of any encoding begin with the bits of the bytes |
| `Base64.EncodeHasDigits` | Google_tests/lib/googlemock/src/gmock-internal-utils.cc:236-243 | encodings in either alphabet, padded or not, are accepted and have the digits of the bytes |
| `Base64.SkippedDoNotMatter` | Google_tests/lib/googlemock/src/gmock-internal-utils.cc:236-238 | removing whitespace and = changes neither the digits nor whether a text is accepted |
| `Base64.DecodingInvertsEncoding` | Google_tests/lib/googlemock/src/gmock-internal-utils.cc:229-255 | decoding gives the encoded bytes back, for every byte sequence |
| `Base64.EncodingDecodes` | Google_tests/lib/googlemock/src/gmock-internal-utils.cc:229-255 | any text that is an encoding of bytes but for skipped characters, in either alphabet, padded or not, decodes to these bytes |
| `Primes.SquareRootIsEnough` | Google_tests/lib/googletest/samples/prime_tables.h:58-61 | a number without divisors up to its square root is prime |
| `Primes.LargerPrime` | Google_tests/lib/googletest/samples/prime_tables.h:69-71 | Euclid's theorem: there is a prime above every p |
| `Primes.OnTheFlyPrimeTable.IsPrime` | Google_tests/lib/googletest/samples/prime_tables.h:55-64 | agrees with the definition of prime for every integer |
| `Primes.OnTheFlyPrimeTable.GetNextPrime` | Google_tests/lib/googletest/samples/prime_tables.h:66-72 | terminates with the least prime above p; -1 for negative p |
| `Primes.TwoIsFirst` | Google_tests/lib/googletest/samples/prime_tables.h:47-49 | for a negative p the next prime is 2, so that -1 is not what is promised |
| `Primes.CompositeMarksNothing` | Google_tests/lib/googletest/samples/prime_tables.h:106-107 | skipping crossed-out numbers is right |
| `Primes.NextMarks` | Google_tests/lib/googletest/samples/prime_tables.h:106-114 | starting at the square and stepping over even numbers crosses out exactly what trying all numbers would |
| `Primes.PreCalculatedPrimeTable.CrossOut` | Google_tests/lib/googletest/samples/prime_tables.h:109-114 | the inner loop crosses out exactly the multiples from the square on |
| `Primes.PreCalculatedPrimeTable.TryNumber` | Google_tests/lib/googletest/samples/prime_tables.h:106-114 | the body of the outer loop keeps the sieve invariant |
| `Primes.PreCalculatedPrimeTable.CalculatePrimesUpTo` | Google_tests/lib/googletest/samples/prime_tables.h:100-116 | afterwards the table says prime exactly for the primes |
| `Primes.PreCalculatedPrimeTable.constructor` | Google_tests/lib/googletest/samples/prime_tables.h:80-84 | a table for 0 to max |
| `Primes.PreCalculatedPrimeTable.IsPrime` | Google_tests/lib/googletest/samples/prime_tables.h:87-89 | exactly for the primes within the table |
| `Primes.PreCalculatedPrimeTable.GetNextPrime` | Google_tests/lib/googletest/samples/prime_tables.h:91-97 | the least prime above p, or -1 exactly when the table holds none |
| `Primes.HybridPrimeTable.IsPrime` | Google_tests/lib/googletest/samples/sample8_unittest.cc:61-66 | agrees with the definition for every integer, with or without a table |
| `Primes.HybridPrimeTable.GetNextPrime` | Google_tests/lib/googletest/samples/sample8_unittest.cc:68-74 | the least prime above p for p >= 0; for negative p that prime with a table that reaches 2, and -1 otherwise |
| `Primes.OneNextPrime` | Google_tests/lib/googletest/samples/sample8_unittest.cc:61-74 | the least prime above p is one number, so all searches agree |
| `Primes.IsPrimeByOddDivisors` | Google_tests/lib/googletest/samples/sample1.cc:45-66 | trial division by odd numbers agrees with the definition |
| `Primes.ComputeFactorial` | Google_tests/lib/googletest/samples/sample1.cc:35-42 | the product of 1 to n; 1 for negative n |

## Left out

- Rounding of the `double` costs in the edit table: costs are exact reals.
- The characters of a printed hunk header and of the messages for mismatches: formatting.
- `MatchMatrix::Randomize` and `DebugString`, `GetTestSuite(int)` and `GetTestCase(int)`: easy members.
- Overflow of `int` and `size_t` counters, and the largest repetition count of a regular expression: sizes are unbounded.
- Repeating forever on a negative repeat count, fail_fast, skipped tests and environments: `UnitTests.UnitTestImpl.Repeat` does finitely many iterations.
- What a test body does, test results, listeners, XML, JSON and console reporting, flag parsing: input, output and formatting.
- Reading the shard variables from the environment and `ShouldShard`: a shard is a parameter, and its absence means that sharding is off.
- UnitTests.UnitTestImpl.RunAllTests: starts from unshuffled indices, as registering a test and every earlier call leave them.
- Weak memory: each step of the mutex protocol is one sequentially consistent access or system call.
- Utf8.WideStringToUtf8: does not model a null string, which another function handles before.
- Base64.Base64Unescape: rejects characters above 0x7F, as with an unsigned `char`; where `char` is signed the source hands them to `isspace` as negative numbers, and what follows is not defined.
- Primes.PreCalculatedPrimeTable.constructor: needs a maximum of at least 1, because the source writes two cells.
- Primes.PreCalculatedPrimeTable.GetNextPrime: takes p >= -1 only, because the source reads cell p + 1 of its array.
- Primes.HybridPrimeTable.GetNextPrime: takes p >= -1 only when it has a table, for the same reason.
- Wide, UTF-16 and UTF-32 string literals with their prefixes: only byte strings are printed.
- Actions, matchers other than the unordered ones, user-defined cardinalities, POSIX regular expressions, death tests, file paths, sockets and stack traces are not part of this model.
