# Verified model of the build and lint tooling

A Dafny model of six pieces of this repository's tooling, with proofs of what they guarantee for every input.
`dafny verify dfyconfig.toml` checks all of it.

* **Library dependencies** (`site_scons/libdeps.py`): `DependencyGraph` holds the depth-first resolver as a function
  and its guarantees; `DependencyCaches` the two caches kept on nodes and sessions of declarations and queries;
  `Libdeps` the attribute dictionaries and the imperative `visit`; `DependencyVisibility` the two visibility maps;
  `LinkOrder` the order of libraries that only their names decide.
* **Bracket finders** (`buildscripts/cpplint.py`): `BracketMatching` is plain matching on one text, forwards and
  backwards; `LineScanners` the line-by-line scanners with their `<`, `>`, `;` heuristics; `ExpressionFinder` the loops;
  `BracketGrammar` bracketed text as a grammar that spells the pairs out, and that the finders find just its groups;
  `AngleBrackets` which `>` ends a template argument list, and when a `<` starts one; `ReverseAngles` the same backwards.
* **Nesting stack and include order** (`buildscripts/cpplint.py`): `Preprocessor` is the stack across
  `#if`/`#else`/`#endif` as values, `NestingState` the same with block objects that are changed in place,
  `IncludeOrder` the include-order automaton.
* **Test-suite splitter** (`buildscripts/evergreen_generate_resmoke_tasks.py`): `SuitePartition` and `CappedSuites` are
  the greedy rule, its optimality and the cap; `SuiteSplitter` the `Suite` objects and loops; `SuiteTimeouts` the
  timeouts.
* **Assertion codes** (`buildscripts/errorcodes.py`): `AssertionCodes` is the checker, `CodeFixer` the back-to-front
  edits, `FixedSources` what the edited sources show, `FixedCodes` exactly when the fix succeeds.
* **Cache pruning** (`buildscripts/scons_cache_prune.py`): `CachePrune`. **Mongod options** (`pytests/powertest.py`):
  `MongodOptions` is the parser, the printer and the options of a server, `OptionsRoundTrip` which options survive
  printing and parsing, `ShellWords` a grammar of quoted and escaped words and what splitting makes of them.

`Ordering` is Python's string order and stable sort; `Basics` holds shared vocabulary.

## How the model reads the source

* A SCons node is a value with an identity and a path. The attribute objects of all nodes are one class, `Attributes`,
  with one map per attribute name; a node is in `exploring` while its `libdeps_exploring` is True.
* An exception is a returned value: `Raised`/`CycleError` carries the cycle nodes collected while unwinding, `None`
  stands for an assertion, type, index or parse error.
* An empty `libdeps_direct_sorted` list counts as missing, as `if not direct_sorted` makes it. Caches may be stale:
  every query is specified in every state, through the graph that the query would then traverse (`Effective`).
* The word-character test of `\boperator\s*$` is a parameter; all results hold for any such test. `\s` is modelled in
  full.
* An assertion code is a whole run of digits of its file: all patterns put a bracket or a blank in front of `(\d+)` and
  nothing behind it.
* A line's effect on the nesting stack is an arbitrary function from the stack to a list of pushes, pops and in-place
  changes of the top block. A line's directive is given with the line.
* Runtimes, clock times and ratios are reals, so float rounding does not occur. Removal outcomes of the pruner are an
  arbitrary function of the attempt number.
* A Python dictionary whose order matters (mongod options) is a list of entries with distinct names. Option values are
  strings.

Findings where the code differs from what one would expect:

* `get_next_code` needs at least two recorded codes: with exactly one, `reduce` returns the digit string and adding 1
  raises.
* `replace_bad_codes` takes every spelling of zero but replaces one character. A repeated "00" therefore ends up showing
  ten times the code that was handed out (`DoubleZerosShowTenfold`, `ReplacedDigit`); `FixedCodesPass` has the exact
  condition under which the fixed sources pass the check.
* `CloseExpression` started on the second `<` of `<<`, or on the `<` of an operator name, does not look for a `>`: it
  passes on to the next bracket (`OtherAngleClosesOnParenthesis`). `BalancedExactlyFromTentative` says that exactly the
  other `<` behave.
* A dependency appended to a node is missed by a query that rests on the node, if that query was cached before or a
  non-empty sorted list is recorded for the node (`LateAppendIsMissed`). A node that was read while it had no
  dependencies may still gain some, as long as no cached answer rests on it (`AppendIsSeenExactly`).
* Options do not always survive printing and parsing: values with blanks, quotes or backslashes, empty values, values
  with a leading dash and names with `=` are lost or changed (`PrintedOptionsParseBack` has the exact condition).
* "Round to the nearest minute" always moves on to the next full minute, also from a full minute.
* A negative suite cap acts like 1, and a cap of 0 is no cap.

## Model

| member | source | states |
|---|---|---|
| `DependencyGraph.ResolveRaisesOnCycles` | site_scons/libdeps.py:107-154 | a query raises if and only if some cycle of non-Private edges is reachable by one non-Interface edge and then non-Private edges; the reported list is such a cycle: a closed walk of at least two entries, ends equal, otherwise distinct |
| `DependencyGraph.ResolveSorts` | site_scons/libdeps.py:107-154 | a query that returns lists without duplicates exactly the reachable libraries, each before everything it depends on |
| `DependencyGraph.VisitFinishes` | site_scons/libdeps.py:121-145 | a visit that does not raise extends `tsorted` by reachable nodes only, keeps it distinct and post-ordered, and touches no node that is being explored |
| `DependencyGraph.VisitRaises` | site_scons/libdeps.py:121-145 | a raising visit carries either a closed cycle reachable from its node or a simple walk from its node to a node still being explored |
| `DependencyGraph.UnwindStep` | site_scons/libdeps.py:139-142 | one frame of the exception handler turns an open walk into a longer one or closes it into a cycle, and leaves closed cycles alone |
| `DependencyGraph.WalkDescends` | site_scons/libdeps.py:131-137 | in a post-ordered list every non-Private walk leads strictly towards the front, so a finished traversal contains no cycle |
| `LinkOrder.RootChildrenByName` | site_scons/libdeps.py:147-154 | of two libraries that the root follows, the one whose name is lexicographically smaller comes later in the answer, unless a listed library follows the other one |
| `LinkOrder.ChildrenByName` | site_scons/libdeps.py:131-137 | the same for two libraries that a library follows, where nothing else in the answer and not the root follows the one with the greater name |
| `LinkOrder.LeavesByDescendingName` | site_scons/libdeps.py:147-154 | if nothing that the root follows follows anything, the answer is in descending order of names |
| `DependencyCaches.CachesAreTransparent` | site_scons/libdeps.py:98-154 | for every interleaving of declarations and queries in which dependencies are only appended to nodes without a recorded non-empty list, not cached themselves and not listed in a cached answer, all answers, errors included, equal those computed without caches |
| `DependencyCaches.DeclaringFirstIsDisciplined` | site_scons/libdeps.py:98-154 | every session that declares the dependencies of a node before they are first read is of that kind |
| `DependencyCaches.QueryKeepsCoherence` | site_scons/libdeps.py:107-154 | in a coherent state a query answers from the declarations and leaves the caches coherent, also when it raises |
| `DependencyCaches.AppendKeepsCoherence` | site_scons/libdeps.py:238-244 | appending to a node on which nothing kept rests leaves every cached answer valid |
| `DependencyCaches.ResolveFrame` | site_scons/libdeps.py:121-154 | a successful answer depends only on the dependencies of the root and of the nodes it lists |
| `DependencyCaches.ReadingIsTransparent` | site_scons/libdeps.py:98-104 | recording sorted lists never changes what later reads yield, stale or not |
| `DependencyCaches.LateAppendIsMissed` | site_scons/libdeps.py:98-116 | in every coherent state: once a query that rests on a node is cached, or the dependencies of the node are recorded, the query answers as before a Public dependency on an unlisted node was appended, and that is wrong |
| `DependencyCaches.AppendIsSeenExactly` | site_scons/libdeps.py:98-116 | whatever is appended to a node is seen by all queries if and only if no non-empty list is recorded for it, it is not cached, and no cached answer lists it |
| `DependencyCaches.AnswerIgnoresDeclarationOrder` | site_scons/libdeps.py:98-104 | with distinct node names the answer depends only on the multiset of direct dependencies of each node |
| `DependencyVisibility.HonoringShrinksAnswers` | site_scons/libdeps.py:74-84 | after the same builder calls, if the query under the ignoring map returns then so does the one under the honouring map, with a subset of the libraries |
| `DependencyVisibility.HonoredDeclarations` | site_scons/libdeps.py:80-84 | under the honouring map a node has exactly the dependencies that some builder call declares for it, each with the visibility of its variable, of its dependents entry, or the default Private or Public of such an entry |
| `DependencyVisibility.HonoredAnswer` | site_scons/libdeps.py:107-154 | a query then lists exactly the libraries at the end of a chain of declarations: Public or Private for the first step, Public or Interface for every further one |
| `DependencyGraph.IncludedAnswers` | site_scons/libdeps.py:131-149 | more followed edges can only add dependencies and cycles |
| `DependencyVisibility.EmissionKeepsRelaxed` | site_scons/libdeps.py:273-324 | one builder call under both maps declares the same targets in the same order, all Public under the ignoring map |
| `Libdeps.Attributes.GetLibdeps` | site_scons/libdeps.py:107-154 | in every state: the cached answer or the resolver's answer on the graph in force, exactly the new cache contents, and all exploring flags clear on both exits |
| `Libdeps.Traversal.Visit` | site_scons/libdeps.py:121-145 | the flag-setting, exception-collecting visit computes the functional visit and restores the flags on both exits |
| `Libdeps.Traversal.Explore` | site_scons/libdeps.py:131-142 | children first, then mark and append the node, or grow the cycle |
| `Libdeps.Traversal.VisitEach` | site_scons/libdeps.py:132-134 | children are visited in order up to the first exception, leaving out one visibility |
| `Libdeps.Attributes.GetSortedDirectLibdeps` | site_scons/libdeps.py:98-104 | returns and records the sorted direct dependencies; an empty cached list is recomputed |
| `Libdeps.Attributes.AppendDirectLibdeps` | site_scons/libdeps.py:238-244 | extends the direct dependencies of one node and nothing else |
| `Libdeps.Attributes.Emit` | site_scons/libdeps.py:273-326 | public, interface and private prerequisites go to every target, then the first target goes to its dependents with the mapped visibility |
| `Libdeps.EmittedDependencies` | site_scons/libdeps.py:273-324 | a builder call adds to each node exactly the dependencies it declares for it, with the mapped visibility, and changes no other node |
| `Libdeps.Attributes.AddDependents` | site_scons/libdeps.py:294-307 | every dependent gains the target with its own or the default visibility, mapped |
| `Ordering.SortSorts` | site_scons/libdeps.py:102 | `sorted` yields an ordered list |
| `Ordering.SortPermutes` | site_scons/libdeps.py:102 | `sorted` keeps every element exactly as often as it occurs |
| `Ordering.SortIsStable` | site_scons/libdeps.py:102 | elements with equal keys keep their order |
| `Ordering.StringLeIsLexicographic` | site_scons/libdeps.py:102 | one string is at most another if and only if they are equal, it is a prefix, or it has the smaller character at the first difference |
| `BracketMatching.ScansAreInverse` | buildscripts/cpplint.py:1379-1613 | on any text, plain matching forwards from an opener ends past a closer if and only if plain matching backwards from that closer ends on the opener |
| `BracketMatching.RunsAreInverse` | buildscripts/cpplint.py:1394-1428 | a forward run over a stretch and a backward run over it undo each other, for all stacks |
| `LineScanners.CloseAndReverseCloseAreInverse` | buildscripts/cpplint.py:1379-1613 | on any lines, for a `(`, `[` or `{` and a closer: the forward finder ends just past the closer if and only if the backward finder returns the opener |
| `LineScanners.CloseIsPlain` | buildscripts/cpplint.py:1457-1498 | from a bracket the forward finder over lines equals plain matching on the lines laid end to end, also when there is no match |
| `LineScanners.ReverseCloseIsPlain` | buildscripts/cpplint.py:1578-1613 | the same for the backward finder |
| `LineScanners.LineForwardIsPlain` | buildscripts/cpplint.py:1379-1454 | above a bracket, a line scan with all `<`, `>`, `;` heuristics gives the plain result and the plain stack |
| `LineScanners.LineBackwardIsPlain` | buildscripts/cpplint.py:1501-1575 | the same backwards, where a step may swallow two characters |
| `LineScanners.BackwardStepSkipsPlainly` | buildscripts/cpplint.py:1523-1537 | a backward step that swallows two characters never swallows a bracket |
| `BracketGrammar.FoundExactlyOnGroups` | buildscripts/cpplint.py:1394-1428 | plain matching ends at a place if and only if the text up to it is one group, `(...)`, `[...]` or `{...}` around text of the bracket grammar |
| `BracketGrammar.CloseFindsGroups` | buildscripts/cpplint.py:1457-1498 | from `(`, `[` or `{`, on any lines, the forward finder ends at a position if and only if the text up to it is one group |
| `BracketGrammar.CloseFailsWithoutGroup` | buildscripts/cpplint.py:1457-1498 | it fails if and only if there is no such position |
| `BracketGrammar.ReverseCloseFindsGroups` | buildscripts/cpplint.py:1578-1613 | from `)`, `]` or `}` the backward finder ends at a position if and only if the text from it on is one group |
| `BracketGrammar.NothingStarts` | buildscripts/cpplint.py:1481-1482 | the forward finder fails on every other character but `<`, and on `<<` and `<=` |
| `BracketGrammar.LessIsTried` | buildscripts/cpplint.py:1481-1482 | every other `<` is tried |
| `BracketGrammar.NothingEnds` | buildscripts/cpplint.py:1596-1597 | the backward finder fails on every other character but `>` |
| `ExpressionFinder.FindEndOfExpressionInLine` | buildscripts/cpplint.py:1379-1454 | the loop computes the forward line scan: position, failure or remaining stack |
| `ExpressionFinder.CloseExpression` | buildscripts/cpplint.py:1457-1498 | the loop over lines returns the line and position past the match, or (number of lines, -1) |
| `ExpressionFinder.FindStartOfExpressionInLine` | buildscripts/cpplint.py:1501-1575 | the loop computes the backward line scan |
| `ExpressionFinder.ReverseCloseExpression` | buildscripts/cpplint.py:1578-1613 | the loop over lines returns the line and position of the match, or (0, -1) |
| `ExpressionFinder.GetTextInside` | buildscripts/cpplint.py:4690-4720 | the text inside the group that starts with the bracket, None if and only if no group starts there or the pattern does not match |
| `ExpressionFinder.TextInsideIsCloseExpression` | buildscripts/cpplint.py:4690-4720 | on one line the forward finder and the text extractor see the same match or none |
| `AngleBrackets.AngleCloseCounts` | buildscripts/cpplint.py:1379-1498 | from a `<` that is neither the second of `<<` nor part of an operator name, the finder ends past the first `>` that leaves no `<` open, counting angles outside brackets only, and fails where brackets mismatch, a `<<` takes back the last `<` or a `;` comes first |
| `AngleBrackets.AngleCloseIsBalanced` | buildscripts/cpplint.py:1397-1443 | the brackets between such a `<` and the `>` that is found match up |
| `AngleBrackets.BalancedExactlyFromTentative` | buildscripts/cpplint.py:1397-1404 | a `<` closes on a balanced `>` in every continuation of its line and file if and only if it is neither the second of `<<` nor part of an operator name |
| `AngleBrackets.OtherAngleClosesOnParenthesis` | buildscripts/cpplint.py:1397-1404 | from any other `<`, on every line, the finder ends on the `)` of a following pair of parentheses |
| `ReverseAngles.AngleOpenCounts` | buildscripts/cpplint.py:1501-1613 | from a `>` that is not part of an arrow, a spaced `>=` or an operator name, the backward finder returns the first `<` that leaves no `>` open, counting angles outside brackets only, and fails where brackets mismatch or a `;` comes first |
| `ReverseAngles.OperatorNameExactly` | buildscripts/cpplint.py:1405 | the operator test holds if and only if the text ends with `operator`, not behind a word character, and then spaces |
| `Preprocessor.ElsePartsLeaveNoTrace` | buildscripts/cpplint.py:2390-2444 | for every list of lines that does not end inside an `#else` part, the final state equals that of a run with every part from the first `#else`/`#elif` up to its `#endif` deleted |
| `Preprocessor.RunsInStep` | buildscripts/cpplint.py:2390-2469 | at every line the shortened run equals the full run, or stands where the full run entered its outermost `#else` part |
| `Preprocessor.OnlyFirstBranchesCount` | buildscripts/cpplint.py:2400-2408 | for the same lists of lines the final stack is what the lines outside `#else` parts make of the empty stack as if there were no directives |
| `Preprocessor.ElseStartsFromBeforeIf` | buildscripts/cpplint.py:2415-2426 | from any state, every `#else` or `#elif` line of a conditional, also the second and later ones, acts on the stack from before its `#if` |
| `NestingState.State.Update` | buildscripts/cpplint.py:2447-2469 | with shared, mutable blocks a line has exactly its effect on values: no snapshot changes through an alias |
| `NestingState.State.UpdatePreprocessor` | buildscripts/cpplint.py:2411-2444 | directives save and restore stacks by value; the stack never shares a block with a snapshot |
| `NestingState.State.MutateTop` | buildscripts/cpplint.py:2473-2492 | changing the top block in place reaches no other block of the stack and no snapshot |
| `NestingState.State.EnterElse` | buildscripts/cpplint.py:2415-2429 | the first `#else` saves the stack, every `#else` leaves the one from before `#if` in place |
| `NestingState.State.EnterEndif` | buildscripts/cpplint.py:2430-2444 | `#endif` brings back the stack saved before `#else`, if any, and drops the frame |
| `NestingState.Copy` | buildscripts/cpplint.py:2414 | a deep copy consists of new, distinct blocks with the same fields |
| `IncludeOrder.AcceptedIncludes` | buildscripts/cpplint.py:699-750 | since a reset, no order error is reported if and only if the headers have the form my\* c\* cpp\* (my or other)\* |
| `IncludeOrder.SectionsNeverDecrease` | buildscripts/cpplint.py:600-606 | between resets the section never moves back, errors included |
| `IncludeOrder.IncludeState.CheckNextIncludeOrder` | buildscripts/cpplint.py:699-750 | exactly which headers are errors, that an error leaves the section alone, the section after every other header, and when the last header is forgotten |
| `IncludeOrder.ErrorsLeaveNoTrace` | buildscripts/cpplint.py:721-732 | without the headers that are errors a sequence passes and ends in the same section |
| `IncludeOrder.IncludeState.ResetSection` | buildscripts/cpplint.py:642-658 | the section and last header restart; `if` adds an include list, `else` empties the last one |
| `SuitePartition.GreedyIsOptimal` | buildscripts/evergreen_generate_resmoke_tasks.py:184-215 | without a cap and with non-negative runtimes no partition into consecutive suites, each within the limit or a single test, has fewer suites |
| `SuitePartition.GreedyIsPartition` | buildscripts/evergreen_generate_resmoke_tasks.py:194-209 | the result is such a partition of the tests, in order |
| `SuitePartition.GreedyWithinTwice` | buildscripts/evergreen_generate_resmoke_tasks.py:194-209 | if any assignment of the tests, in any order, fits into m suites, the splitter makes at most 2m-1 |
| `SuitePartition.GreedyNeighboursExceed` | buildscripts/evergreen_generate_resmoke_tasks.py:196-201 | two neighbouring suites together always exceed the limit |
| `SuitePartition.PackMonotone` | buildscripts/evergreen_generate_resmoke_tasks.py:194-206 | starting with a fuller suite costs no fewer suites and at most one more |
| `CappedSuites.UncappedIsGreedy` | buildscripts/evergreen_generate_resmoke_tasks.py:184-215 | without a cap or with a cap of 0 the suites are the greedy ones |
| `CappedSuites.LargeCapIsGreedy` | buildscripts/evergreen_generate_resmoke_tasks.py:202-213 | neither does a positive cap change them that is at least their number |
| `CappedSuites.SmallCapSpreads` | buildscripts/evergreen_generate_resmoke_tasks.py:202-213 | a smaller positive cap k keeps the first k of them and deals the other tests out |
| `CappedSuites.SmallestCap` | buildscripts/evergreen_generate_resmoke_tasks.py:202-213 | a cap of 1 or any negative cap puts all tests into one suite, in order |
| `CappedSuites.DividedKeepsTests` | buildscripts/evergreen_generate_resmoke_tasks.py:184-215 | under any cap every test is in exactly one suite, no suite is empty and the cap is respected |
| `CappedSuites.CappedSuitesAreEven` | buildscripts/evergreen_generate_resmoke_tasks.py:211-213 | when the cap bites, each suite starts with its uncapped suite and the numbers of extra tests differ by at most one |
| `CappedSuites.SliceEntries` | buildscripts/evergreen_generate_resmoke_tasks.py:173-181 | the i-th slice consists of every k-th remaining test from the i-th on, in order |
| `CappedSuites.SliceLength` | buildscripts/evergreen_generate_resmoke_tasks.py:173-181 | the exact number of tests each suite receives |
| `CappedSuites.SpreadKeepsTests` | buildscripts/evergreen_generate_resmoke_tasks.py:173-181 | dealing out the remaining tests loses and repeats none |
| `SuiteSplitter.DivideTestsIntoSuites` | buildscripts/evergreen_generate_resmoke_tasks.py:184-215 | new, separate suite objects that hold the greedy suites when there is no cap or they fit it, and otherwise uncapped suite i followed by the i-th slice of the rest; without a cap no partition has fewer suites |
| `SuiteSplitter.DivideRemainingTestsAmongSuites` | buildscripts/evergreen_generate_resmoke_tasks.py:173-181 | the loop gives suite i the i-th slice |
| `SuiteSplitter.Suite.AddTest` | buildscripts/evergreen_generate_resmoke_tasks.py:477-487 | the fields stay the true file list, sum, maximum and non-zero count of all added tests |
| `SuiteSplitter.CalculateFallbackSuites` | buildscripts/evergreen_generate_resmoke_tasks.py:616-623 | a fixed number of suites dealt round-robin with runtime zero |
| `SuiteTimeouts.SuiteTimeoutsAreSound` | buildscripts/evergreen_generate_resmoke_tasks.py:362-383 | both emitted timeouts are whole minutes above 3 x repeat x runtime, and the test timeout is at most the exec timeout |
| `SuiteTimeouts.GenerateTimeouts` | buildscripts/evergreen_generate_resmoke_tasks.py:431-440 | the command made from the fields of a suite is the one for the tests it was given |
| `SuiteTimeouts.SuiteTimeoutCommandShape` | buildscripts/evergreen_generate_resmoke_tasks.py:431-440 | a command with both timeouts is emitted exactly for a non-empty suite whose tests all have runtimes |
| `SuiteTimeouts.SuiteTimeoutsInNumbers` | buildscripts/evergreen_generate_resmoke_tasks.py:291-296 | both timeouts are three times the repeat count times the first full minute after the longest or total runtime, or times five minutes if that is less |
| `SuiteSplitter.Suite.ShouldOverwriteTimeout` | buildscripts/evergreen_generate_resmoke_tasks.py:489-495 | true exactly when every added test has a runtime |
| `SuiteTimeouts.RoundToMinuteIsNextMinute` | buildscripts/evergreen_generate_resmoke_tasks.py:291-294 | the rounded runtime is the first full minute strictly after the runtime |
| `SuiteTimeouts.LongestIsMaximum` | buildscripts/evergreen_generate_resmoke_tasks.py:486-487 | the tracked maximum bounds every runtime and is reached, or zero |
| `AssertionCodes.CheckPassesExactly` | buildscripts/errorcodes.py:125-159 | the error list is empty if and only if all code strings are distinct, none is "0" and none exceeds the maximum |
| `AssertionCodes.DupsAreRepeats` | buildscripts/errorcodes.py:145-152 | a code is listed as duplicate exactly when it occurs twice or more, with all its locations in order |
| `AssertionCodes.ZeroCodesReported` | buildscripts/errorcodes.py:156-159 | every location with code "0" is among the errors |
| `AssertionCodes.RepeatedCodesReported` | buildscripts/errorcodes.py:145-152 | every location of a repeated code is among the errors |
| `AssertionCodes.SkipsAreExcess` | buildscripts/errorcodes.py:137-141 | the skip list holds exactly the first location of each code beyond the maximum |
| `AssertionCodes.Checker.CheckDups` | buildscripts/errorcodes.py:131-152 | one location updates the seen, duplicate, skip and error records as the whole history calls for |
| `AssertionCodes.Checker.ReadErrorCodes` | buildscripts/errorcodes.py:123-175 | the errors, duplicates and skips of all locations |
| `CodeFixer.GetNextCode` | buildscripts/errorcodes.py:104-114 | with at least two codes, one more than the highest; otherwise an error |
| `CodeFixer.FixingIsSimultaneous` | buildscripts/errorcodes.py:187-215 | editing back to front succeeds if and only if every zero error shows a '0' at a position of its own, and then equals substituting all of them at once at their original offsets, in all files |
| `CodeFixer.ReplaceBadCodes` | buildscripts/errorcodes.py:178-215 | the loop over the deduplicated, sorted, reversed zero errors performs the edits with ascending codes, or stops at the first failing one |
| `CodeFixer.EditIsPatch` | buildscripts/errorcodes.py:202-211 | one in-place edit in front of earlier ones is one more substitution in the original text; writing without truncation leaves nothing behind |
| `CodeFixer.DecimalRoundTrip` | buildscripts/errorcodes.py:210 | reading back a written code gives the number |
| `FixedSources.ShownAfterFix` | buildscripts/errorcodes.py:202-211 | every location of the original sources is a whole run of digits in the edited ones, moved by the edits in front of it, with its first digit replaced where it was edited |
| `FixedCodes.FixRunsThrough` | buildscripts/errorcodes.py:187-215 | on locations read from the files the fix runs through if and only if no two zero errors stand at one place |
| `FixedCodes.FixedSourcesShowNewCodes` | buildscripts/errorcodes.py:195-215 | the fixed sources show all locations with their new codes |
| `FixedCodes.FixedCodesPass` | buildscripts/errorcodes.py:187-215 | the fix runs through and the check passes on what the fixed sources show if and only if every error is a zero in some spelling, the zero errors stand at different places, and the numbers made by replacing their first digits are within the maximum and pairwise different |
| `FixedCodes.ReplacedDigit` | buildscripts/errorcodes.py:208-211 | a zero of n digits then shows the code handed out followed by n-1 zeros, which is that code if and only if it was spelled "0" |
| `FixedCodes.PlainZerosFit` | buildscripts/errorcodes.py:195-215 | for zeros spelled "0" that condition on the numbers is that the last code handed out is within the maximum |
| `FixedCodes.FewRepairsDiffer` | buildscripts/errorcodes.py:195-215 | with at most nine times as many repairs as the next code, the numbers always differ |
| `FixedCodes.DoubleZerosShowTenfold` | buildscripts/errorcodes.py:187-215 | "00 00" with next code 7 becomes "80 70" |
| `FixedCodes.AssignedCodesDistinct` | buildscripts/errorcodes.py:195-215 | no two edits receive the same code |
| `FixedCodes.AssignedCodesFresh` | buildscripts/errorcodes.py:195-215 | every code handed out is a valid code in the range that starts at the next free one |
| `FixedCodes.LaterGetsSmaller` | buildscripts/errorcodes.py:194-215 | of two zero errors, the one in the lexicographically later file, or further on in the same file, gets the smaller code |
| `CachePrune.PruneCache` | buildscripts/scons_cache_prune.py:59-104 | with a quota of 1073741824 bytes per gigabyte: below it nothing is tried; otherwise trimming stops at the first point below quota times ratio with True, or with False when nothing is left to try; the tracked total is the size of what is left |
| `CachePrune.Trim` | buildscripts/scons_cache_prune.py:78-102 | the loop, for every pattern of failing removals |
| `CachePrune.PruningConserves` | buildscripts/scons_cache_prune.py:84-99 | after any number of attempts survivors and evicted items together are exactly the original items |
| `CachePrune.EvictsOldest` | buildscripts/scons_cache_prune.py:74-84 | no evicted item is newer than an item that was never tried |
| `CachePrune.NoShorterEviction` | buildscripts/scons_cache_prune.py:78-95 | if every removal succeeds, no shorter oldest-first eviction reaches the target |
| `OptionsRoundTrip.PrintedOptionsParseBack` | pytests/powertest.py:1061-1069 | parsing the printed options gives back the same options in the same order if and only if names are distinct, every option word is plain, has no `=` in its name and shows its form, and every value is a plain word without leading dash of a named option |
| `OptionsRoundTrip.SplitSpacedExactly` | pytests/powertest.py:402 | words, each after a blank, split back into themselves if and only if none is empty or has a blank, a quote or a backslash |
| `OptionsRoundTrip.AssignmentIsTwoWords` | pytests/powertest.py:405-417 | `--name=value` and `--name value` turn any earlier options into the same options; a further bare word is ignored after the first and replaces the value after the second |
| `OptionsRoundTrip.QuotesKeepWords` | pytests/powertest.py:402 | a single-quoted text without a single quote in it is one word, the empty text, blanks and backslashes included |
| `ShellWords.LinesSplitIntoMeanings` | pytests/powertest.py:402 | a line of words made of bare, single-quoted, double-quoted and escaped parts, with any blanks between them, splits into what the words mean |
| `ShellWords.QuoteInsideWord` | pytests/powertest.py:402 | quotes in the middle of a word keep what stands before and behind them |
| `ShellWords.UnclosedSingleFails` | pytests/powertest.py:402 | an unclosed single quotation is an error wherever it stands |
| `ShellWords.UnclosedDoubleFails` | pytests/powertest.py:402 | so is an unclosed double quotation |
| `ShellWords.TrailingBackslashFails` | pytests/powertest.py:402 | so is a backslash at the end |
| `ShellWords.ParserRaisesExactly` | pytests/powertest.py:405-417 | the parser raises exactly on a lone dash and on a value before any option |
| `MongodOptions.ParseOptions` | pytests/powertest.py:395-418 | the parsing loop over the split words, with its errors |
| `MongodOptions.ParsedNamesDistinct` | pytests/powertest.py:401-418 | no name occurs twice among parsed options |
| `MongodOptions.PutSets` | pytests/powertest.py:1051 | setting an entry changes no other name and keeps the order, a new name coming last |
| `MongodOptions.MongodControl.constructor` | pytests/powertest.py:1030-1043 | the options every server gets are set, all others are as parsed, names stay distinct |
| `MongodOptions.MongodControl.SetMongodOption` | pytests/powertest.py:1049-1051 | the option has this value and form, every other name is unchanged, the order is kept or the name is appended, names stay distinct |
| `MongodOptions.MongodControl.MongodOptions` | pytests/powertest.py:1061-1069 | the printed line is every option in order, with its value unless missing or empty |

## Left out

- The BSON viewer's C++ sources, packaging, the hang analyzer, remote clients and git wrappers: not part of this model.
- SCons builders, scanners, `env.subst`, system library dependencies and string targets of the emitter: library code or plumbing around the node graph.
- Regex-driven cpplint style checks and the look-ahead of `InTemplateArgumentList`: each line's effect on the nesting stack is an input, so an effect that depends on other lines is fixed before lines are deleted.
- Classification of preprocessor directives by regex: a line carries its directive.
- `_BlockInfo` subclasses and their fields: a block holds one value of an arbitrary type.
- `_IncludeState.FindHeader`, alphabetical order of includes and message texts: easy lookups and formatting.
- Finding assertions in source files, line and column computation, and printed reports: the model starts from extracted locations.
- Codes in non-ASCII digits, and repeated calls of `read_error_codes` that append to the global list: a checker starts empty.
- What else the patterns match in fixed sources: the known locations are followed to their new places, and keep the
  matched text that is only printed.
- `DependencyCaches.AppendIsSeenExactly`: for a node with a recorded list the converse needs some returning query that
  rests on the node, because where all such queries raise, a stale list can only change which cycle is reported.
- `get_mongod_option` for a missing name, and option values other than strings: a plain lookup.
- Directory listing and file access of the pruner: the listed items and the outcome of every attempt are inputs.
- Float rounding of runtimes and timeouts: reals are exact.
- YAML, JSON and command-line handling: no algorithmic content.
- `Libdeps.Traversal.Visit`: the contents of `tsorted` after an exception are not stated, because the query discards them.
