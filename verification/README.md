# Verified models of the benchmark kernels

The repository benchmarks CHERI ports of several programs. Most of it is build plumbing, plots and
configuration; this project models the self-contained kernels that carry properties worth proving
and proves them with Dafny 4.11. `dafny verify dfyconfig.toml` verifies the whole project.

Code that changes state in the source is imperative here as well: classes with the source's fields,
loops over arrays, methods that name what they modify. Each such method is proved against a
specification function, and what the source relies on is proved about that function for all inputs.

| file | what it models |
|---|---|
| `MatrixMultiply.dfy` | the matrix kernels, all proved to leave the same product |
| `NameOrder.dfy`, `NameLists.dfy`, `CStrings.dfy` | the number-aware comparison of the test262 runner, and its sorted name lists |
| `AgentBroadcast.dfy`, `BroadcastReturns.dfy` | the broadcast protocol between main thread and agents as a step system, the report queue, and when a broadcast can return |
| `YamlOptions.dfy` | the option scanner for the test metadata |
| `TestAccounting.dfy` | excluded directories, test selection and the test counters |
| `Histograms.dfy`, `Percentiles.dfy`, `Moments.dfy` | the latency histogram against the samples it was built from |
| `NumberNames.dfy`, `NumberReader.dfy` | the number-to-English printer, and a reader that inverts it |
| `Swizzles.dfy` | the bit-reversing key generator and the rounding to 2^k - 1 |
| `StreamHash.dfy` | the permutation-based streaming hash |
| `Lehmer.dfy`, `LehmerPowers.dfy`, `LehmerPeriod.dfy`, `RingGenerator.dfy` | the Lehmer generator with its full period, and the ring-buffer generator |
| `Lattice.dfy`, `Streaming.dfy` | the lattice index macros, and the push and pull forms of a sweep |
| `TraceMalloc.dfy` | the accounting of the tracing allocator |
| `UniqueCNames.dfy` | how the bytecode compiler names the C objects of modules |
| `TopDown.dfy` | the top-down analysis and its two consistency checks |
| `Arithmetic.dfy`, `Pigeonhole.dfy` | small facts the others share |

## How the source is represented

- Floating point is exact `real`. The 32-bit and 64-bit arithmetic that the hash, the Lehmer
  generator, `swizzle`, `roundup_allones`, the name comparison and the allocator depend on is
  written out with its wrap-around.
- A C string is the sequence of its bytes before the NUL; reading the byte at its end yields 0.
  Where a buffer matters (`NumberNames`) it is an array and the NUL is a cell of it.
- Lists that the source grows and compacts in place are classes over an array and a count.
- The broadcast protocol is a set of steps, each of which is what one thread does between two points
  where another may run: main writes flag, buffer, size and number of an agent one after another, and
  an agent fetches them one by one after it has released the mutex. Condition-variable waits may end
  whenever the mutex is free, which covers spurious wake-ups and signals taken by another agent.
  Rounds, deliveries and reports handed out are recorded as history.
- Answers of the C library are parameters or small specified members: `qsort` is a verified
  insertion sort of which callers know only that the result is an ordered permutation; `malloc` and
  `realloc` answer with any block a 64-bit library may hand out, or with none; `snprintf` writes what
  fits and the NUL.

## Where the code does less than one might expect

Each of these is proved with a concrete input, run or family of inputs, together with the exact
condition under which the expectation holds.

- `namelist_add` leaves the sorted flag set. After the first lookup, a list to which a name is added
  stays searchable exactly when the name comes behind the last entry or compares equal to it, or
  compares equal to another entry and the two leading binary digits of the old length plus 2 are not
  both ones (`NameLists.AddAfterLookup`, `NameLists.StaleFlagLosesEntry`).
- The comparison ignores leading zeros, so sorting a list drops one of "t1" and "t01"
  (`NameLists.DedupKeepsNamesIff`, `NameLists.DedupCanLoseName`), and excluding "t1" excludes "t01" too
  (`TestAccounting.ExcludedIffListed`, `TestAccounting.UnlistedTestCanBeExcluded`).
- For the same reason, excluding both "t1/" and "t01/" may exclude only the first. However equal names
  are arranged by the sort, a directory list keeps all its exclusions exactly when every directory
  that another one compares equal to lies in a directory that no other one compares equal to
  (`TestAccounting.DedupKeepsExclusionsIff`, `TestAccounting.ExclusionCanBeLost`).
- Equal names are merged by the sort before a run, so the counters need not account for every test that
  was loaded. They do exactly when the directories part every two tests that compare equal
  (`TestAccounting.WholeRunIsFullIff`); a test list named on the command line is loaded after that.
- A digit run is accumulated in an `int`; its value is the written number exactly up to 2^31 - 1, so
  "t2147483648" comes before "t1" (`NameOrder.RunValueIsNumeral`, `NameOrder.LargeNumberComesFirst`).
  The order stays a total preorder.
- An agent fetches the callback's arguments after it has released the mutex. Each is that of the
  broadcast the agent took exactly when main has not written the next broadcast's over it or that is
  the same; every mix of the two broadcasts can reach the callback
  (`AgentBroadcast.ArgumentOfRoundIff`, `AgentBroadcast.AnyMixIsPossible`).
- An agent that has ended stays in the list until the list is freed, and never clears its flag. A
  broadcast under way can still return exactly when no agent of the list that has not taken the round
  has ended (`BroadcastReturns.BroadcastCanReturnIff`, `BroadcastReturns.EndedAgentBlocks`).
- `swizzle` is described as mapping 1..limit into that range. It does so exactly for limits 2^k - 1 and
  2^k - 2 (`Swizzles.SwizzleStaysInRangeIff`, whose proof names the number that leaves the range); the
  callers that need it round the limit up first.
- A percentile of an empty histogram divides by zero (`Percentiles.PercentileExits`).
- The two consistency checks of the top-down analysis do not accept every analysis of plausible
  counters: they reject exactly those whose counters put the three top-level fractions above 1 plus
  the tolerance (`TopDown.CheckersAcceptIff`, `TopDown.AnalysisCanBeRejected`).
- `compile_file` adds its name without a lookup, so a main file a.mjs gets the name of a module
  lib/a.js once more (`UniqueCNames.NameList.AddMainFile`, `UniqueCNames.MainFileCanRepeatName`), and
  different names can still define the same symbol, exactly when one is another one with "_size", or
  that of a JSON module with "_module_name", behind it (`UniqueCNames.SymbolsDistinctIff`,
  `UniqueCNames.DistinctNamesCanShareSymbol`, `UniqueCNames.JsonNameCanShareSymbol`).

## Model

| member | source | states |
|---|---|---|
| MatrixMultiply.MultiplyV1 | matrix-multiply/src/multiply-bench.cpp:35-45 | The naive triple loop leaves the matrix product (entry i, j is the sum over k of a[i, k] * b[k, j]) in the first n * n entries of c and nothing else changed, for every n |
| MatrixMultiply.EntryIsSumOfProducts | matrix-multiply/src/multiply-bench.cpp:35-45 | Entry i * n + j of the product is what adding up a[i * n + k] * b[k * n + j] over k = 0, 1, ... gives |
| MatrixMultiply.MultiplyV3 | matrix-multiply/src/multiply-bench.cpp:61-78 | The six-deep tiled loop leaves the same product for every tile size, also one that does not divide n |
| MatrixMultiply.TileSum | matrix-multiply/src/multiply-bench.cpp:68-71 | The innermost loop sums the terms of one tile, the last one cut at n |
| MatrixMultiply.MultiplyV4 | matrix-multiply/src/multiply-bench.cpp:81-91 | The row-order accumulation leaves the same product |
| MatrixMultiply.MultiplyV5 | matrix-multiply/src/multiply-bench.cpp:94-104 | The column-order accumulation leaves the same product |
| MatrixMultiply.FillZero | matrix-multiply/src/multiply-bench.cpp:62 | std::fill zeroes the n * n entries and leaves everything behind them |
| MatrixMultiply.Advance | matrix-multiply/src/multiply-bench.cpp:68-72 | Adding one tile's partial sum to one entry turns its partial sum over 0..lo into the one over 0..hi and no other entry's, whatever the loop order |
| MatrixMultiply.DotSplits | matrix-multiply/src/multiply-bench.cpp:69-72 | A sum over k may be cut into consecutive tiles at any place |
| MatrixMultiply.CellsDistinct | matrix-multiply/src/multiply-bench.cpp:72 | Different matrix positions are different places of the flat array |
| NameOrder.NamelistCmp | quickjs/src/run-test262.c:218-243 | The pointer-advancing loop returns the lexicographic comparison of the token sequences (maximal digit runs by int value, other bytes as themselves) of the two names, for all names |
| NameOrder.ScanRun | quickjs/src/run-test262.c:227-230 | The inner loops stop behind the maximal digit run and hold its wrapped value and the byte after it |
| NameOrder.CompareIsTotalPreorder | quickjs/src/run-test262.c:218-248 | The comparison is reflexive, sign-antisymmetric and transitive (also strictly), on all names, as qsort and the binary search need |
| NameOrder.EqualMeansSameTokens | quickjs/src/run-test262.c:218-243 | Two names compare equal exactly when their token sequences agree |
| NameOrder.LexTransitive | quickjs/src/run-test262.c:231-240 | The lexicographic comparison of token sequences is transitive, for any values of the runs |
| NameOrder.RunValueIsNumeral | quickjs/src/run-test262.c:227-230 | The int value of a run is the number written there if and only if that number is at most 2^31 - 1 |
| NameOrder.RunValueWraps | quickjs/src/run-test262.c:227-230 | For every run the int value is the two's complement residue of the number written |
| NameOrder.Wrap32IsResidue | quickjs/src/run-test262.c:227-230 | A wrapped value lies in the range of an int and differs from the exact one by a multiple of 2^32 |
| NameOrder.NumeralOfDecimal | quickjs/src/run-test262.c:225-230 | The number written by the decimal digits of n is n |
| NameOrder.LargeNumberComesFirst | quickjs/src/run-test262.c:227-234 | "t2147483648" compares below "t1" |
| NameOrder.CanonicalNamesAreKept | quickjs/src/run-test262.c:218-243 | On names whose digit runs have no leading zeros and fit an int, the comparison identifies equal names only |
| NameOrder.LeadingZeroIsIgnored | quickjs/src/run-test262.c:224-230 | "t1" and "t01", followed by any text that does not go on with a digit, are different names that compare equal |
| NameLists.NameList.Add | quickjs/src/run-test262.c:288-308 | The composed path is appended, the earlier entries stay through every growth of the array, and the sorted flag keeps its value |
| NameLists.ComposedPath | quickjs/src/run-test262.c:195-216 | Without a base, with an empty one or for an absolute name the path is the name; otherwise it is the base, a slash if the base does not end in one, and the name |
| NameLists.NameList.Sort | quickjs/src/run-test262.c:250-266 | The list becomes strictly increasing and holds exactly one original entry per class of names that compare equal |
| NameLists.OnePerClassIff | quickjs/src/run-test262.c:250-266 | What sorting promises, spelled out: every entry compares less than every later one, is an old one, and every old one compares equal to one that is left |
| NameLists.NameList.Compact | quickjs/src/run-test262.c:256-263 | The in-place removal of duplicates turns an ordered list into a strictly increasing one with one entry per class |
| NameLists.NameList.Find | quickjs/src/run-test262.c:268-286 | Sorts unless the flag is set; if the list was in order or not yet sorted, returns an index whose entry compares equal to the name, or -1 exactly when no entry of the list before the call does |
| NameLists.NameList.Search | quickjs/src/run-test262.c:276-285 | The loop returns what the recursive binary search over the entries returns, on any list, ordered or not |
| NameLists.Qsort | quickjs/src/run-test262.c:254 | Stand-in for qsort: an ordered permutation |
| NameLists.SearchFindsMatch | quickjs/src/run-test262.c:276-285 | On a strictly increasing list the search returns the very position of the entry that compares equal |
| NameLists.SearchWorksExactlyInOrder | quickjs/src/run-test262.c:276-285 | If no two entries compare equal, every entry is found at its place if and only if the list is strictly increasing |
| NameLists.AddAfterLookup | quickjs/src/run-test262.c:268-308 | For every sorted list and every name added behind it without clearing the flag: all entries are found if and only if the list was empty, the last entry is not greater than the name, or the name compares equal to an entry and the old length plus 2 does not start with the binary digits 11 |
| NameLists.AddRepeatedName | quickjs/src/run-test262.c:268-308 | A name added once more can hide no entry but the last one |
| NameLists.SearchBeforeRepeated | quickjs/src/run-test262.c:276-285 | The search for an entry fails behind a repeated name exactly for a last entry that is greater, on windows of certain lengths |
| NameLists.StaleFlagLosesEntry | quickjs/src/run-test262.c:268-308 | Add "b", look up, add "a": "b" is no longer found; of "a", "b", "c" and "d" the last is lost when "a" is added once more |
| NameLists.SortIsDeterminedUpToClass | quickjs/src/run-test262.c:250-266 | However qsort arranges equal names, the sorted lists have the same length and agree position by position under the comparison |
| NameLists.DedupKeepsNamesIff | quickjs/src/run-test262.c:255-264 | Sorting keeps every name if and only if no two different names of the list compare equal |
| NameLists.SortKeepsCountIff | quickjs/src/run-test262.c:250-266 | Sorting never adds entries and keeps their number if and only if no two of them compare equal |
| NameLists.SortedFormExists | quickjs/src/run-test262.c:250-266 | Every list has a sorted form with one entry per class |
| NameLists.DedupCanLoseName | quickjs/src/run-test262.c:255-264 | "t1" and "t01" are different names that compare equal, so one of them is dropped |
| NameLists.ClassesKeepMatches | quickjs/src/run-test262.c:250-286 | A lookup succeeds after sorting if and only if it would have matched an entry before |
| AgentBroadcast.EveryRunKeepsInv | quickjs/src/run-test262.c:468-660 | Every reachable state of every interleaving satisfies the protocol invariant: mutex ownership, flags only during a round, and each agent's log is the list of rounds that listed it, without the one still outstanding |
| AgentBroadcast.StepKeepsInv | quickjs/src/run-test262.c:468-660 | Every step of every thread keeps that invariant |
| AgentBroadcast.NothingPendingOutsideBroadcast | quickjs/src/run-test262.c:596-647 | While main is outside a broadcast no agent's flag is set |
| AgentBroadcast.MutualExclusion | quickjs/src/run-test262.c:510-518 | Two threads are never both inside a critical section of agent_mutex |
| AgentBroadcast.EveryRoundTakenOnce | quickjs/src/run-test262.c:510-518 | Outside a broadcast every agent has taken every round that listed it exactly once and no other round, in order, each time with that round's data |
| AgentBroadcast.BroadcastReturnsAfterAllTook | quickjs/src/run-test262.c:642-646 | When a broadcast returns, every agent of the list has taken that round exactly once |
| BroadcastReturns.BroadcastCanReturnIff | quickjs/src/run-test262.c:608-647 | In every reachable state of a broadcast under way: some continuation lets it return if and only if no agent of the list that has not taken the round has ended |
| BroadcastReturns.CanReturn | quickjs/src/run-test262.c:468-647 | If there is none, a run to the return is built step by step: the owner of agent_mutex leaves it, waiting agents take the round one by one, main wakes and finds no flag set |
| BroadcastReturns.NeverReturns | quickjs/src/run-test262.c:596-647 | If there is one, main stays inside the call in every continuation, whatever any thread does |
| BroadcastReturns.SomeoneMoves | quickjs/src/run-test262.c:468-647 | No broadcast that can return is deadlocked: some thread has a step that brings the return nearer by a well-founded measure |
| BroadcastReturns.EndedAgentBlocks | quickjs/src/run-test262.c:500-503 | Start an agent, let its script end without a callback, broadcast: in no continuation does the call return |
| BroadcastReturns.AgentsCanBeFreed | quickjs/src/run-test262.c:572-584 | When all agents of the list have ended, js_agent_free can join them one by one and leave an empty list, the rest of the state unchanged |
| AgentBroadcast.TakeFindsRound | quickjs/src/run-test262.c:510-518 | An agent that clears its flag owns the mutex, is listed in the round under way, has not taken it before and finds that round's data in its fields |
| AgentBroadcast.TakeFindsData | quickjs/src/run-test262.c:510-518 | Although main writes flag and fields one by one, an agent that sees its flag under the mutex finds all fields written |
| AgentBroadcast.ReportsAreFifo | quickjs/src/run-test262.c:685-729 | Reports handed out and still queued are the reports pushed, in order; the next one handed out is the oldest; an empty queue means all were handed out |
| AgentBroadcast.ArgumentOfRoundIff | quickjs/src/run-test262.c:515-523 | The argument an agent fetches after unlocking is that of the round it took if and only if main has not yet written the next round's over it or that is the same; for buffer, size and number each |
| AgentBroadcast.ArgumentsAreOfTwoRounds | quickjs/src/run-test262.c:515-526 | Each argument of a running callback is that of the round its agent took or of the very next one |
| AgentBroadcast.AnyMixIsPossible | quickjs/src/run-test262.c:515-523 | For every choice of arguments a run exists in which the callback for the first broadcast is handed those of the first broadcast and the others of the second |
| YamlOptions.GetOption | quickjs/src/run-test262.c:1504-1544 | One call returns the next token of the list and a strictly later cursor, or no token and the NULL cursor, for which all later calls return none; the loop terminates on every text |
| YamlOptions.ScanStep | quickjs/src/run-test262.c:1504-1544 | One round of the scan outside tokens, character by character: opening and closing brackets, newlines with and without indentation, dashes, commas, blanks, and the end |
| YamlOptions.ScanToken | quickjs/src/run-test262.c:1533-1541 | A token reaches to the first delimiter and leaves the state alone |
| YamlOptions.Delimiters | quickjs/src/run-test262.c:1504-1544 | Which characters are skipped, which end a token and which start one |
| YamlOptions.ValidTokenIff | quickjs/src/run-test262.c:1504-1544 | A token that can be returned is not empty, has no delimiter and starts with neither '[' nor '-' |
| YamlOptions.PrintedFlowList | quickjs/src/run-test262.c:1504-1544 | The printed flow list of two tokens is "[t, u]" |
| YamlOptions.PrintedDashList | quickjs/src/run-test262.c:1525-1529 | The printed dash list is a newline, the indentation, "- " and the token for each of them |
| YamlOptions.CollectOptions | quickjs/src/run-test262.c:1691-1699 | The callers' loop terminates and collects all tokens that are left |
| YamlOptions.FlowListIsReadIff | quickjs/src/run-test262.c:1504-1544 | A printed list [a, b, c] is read back as its tokens and nothing more, whatever follows it, if and only if no token is empty, has a delimiter or starts with '-' or '[' |
| YamlOptions.DashListIsRead | quickjs/src/run-test262.c:1525-1529 | An indented dash list yields its tokens, then the scan goes on with what follows |
| YamlOptions.DashListIsReadIff | quickjs/src/run-test262.c:1525-1529 | A printed dash list before an unindented line or the end is read back exactly when its tokens are valid |
| YamlOptions.Scan | quickjs/src/run-test262.c:1504-1544 | Whatever the text, a token that is returned is a valid one and the text that is left is shorter |
| TestAccounting.Runner.UpdateExcludeDirs | quickjs/src/run-test262.c:942-980 | The exclude list keeps its non-directories in order, the directory list is sorted with one entry per class, the test list keeps exactly the tests that no directory is a prefix of, in order, test_excluded grows by the number removed; test and exclude list keep their arrays and sorted flags |
| TestAccounting.Runner.SplitDirectories | quickjs/src/run-test262.c:950-961 | The first loop moves the entries ending in '/' to the directory list and compacts the rest in place |
| TestAccounting.Runner.FilterTests | quickjs/src/run-test262.c:964-979 | The second loop keeps the tests outside all directories in order and counts the others |
| TestAccounting.Runner.IsExcluded | quickjs/src/run-test262.c:967-974 | The inner loop finds a directory if and only if one is a prefix of the name |
| TestAccounting.DirectoriesEndInSlash | quickjs/src/run-test262.c:952-970 | An entry is a directory if its last character is a slash, and a test lies in one if its name begins with it |
| TestAccounting.DedupKeepsExclusionsIff | quickjs/src/run-test262.c:950-979 | For every list of directories: all results of sorting it exclude the same tests as the list if and only if every directory that another one compares equal to has a prefix on the list that no other one compares equal to |
| TestAccounting.SortKeepsExclusionsIff | quickjs/src/run-test262.c:960-979 | For any list of prefixes: all sorted forms exclude the same names if and only if every entry has a prefix on the list whose equal entries are all prefixes of it |
| TestAccounting.UncoveredMayBeLost | quickjs/src/run-test262.c:960-979 | If no directory class consists of prefixes of either of two names only, there is a sorted form of the list that excludes neither |
| TestAccounting.CanonicalDirectoriesKeepExclusions | quickjs/src/run-test262.c:960-979 | Directories written without leading zeros all keep their effect |
| TestAccounting.ExclusionCanBeLost | quickjs/src/run-test262.c:960-979 | With "t1" and "t01" excluded, both followed by the same rest such as "/", every test in the second may be run |
| TestAccounting.Runner.RunTestBuf | quickjs/src/run-test262.c:1640-1647 | One run is counted, as failed too if it fails; no other counter moves |
| TestAccounting.Runner.RunTest | quickjs/src/run-test262.c:1817-1875 | test_count, test_failed and test_skipped grow by the charge of the test under the mode, the two others stay |
| TestAccounting.ChargeInMode | quickjs/src/run-test262.c:1821-1875 | That charge, mode by mode, from the flags alone: skipped, or run once without or in strict mode, or (All, neither flag, no module) twice, with one failure for each variant that fails |
| TestAccounting.VariantsOfMode | quickjs/src/run-test262.c:1821-1851 | Which of the two variants each of the five modes runs, and which tests it runs at all, from the flags alone |
| TestAccounting.Runner.ChargeTest | quickjs/src/run-test262.c:2008-2030 | One entry is excluded, skipped or run; the lookup that sorts the exclude list on first use changes no later answer |
| TestAccounting.Runner.RunTestDirList | quickjs/src/run-test262.c:2003-2034 | The list is sorted, and the counters grow by the sum of the charges of its entries, decided by the exclude list as it was given |
| TestAccounting.Runner.LoadTests | quickjs/src/run-test262.c:2180-2183 | The names of a further list are appended in order |
| TestAccounting.Runner.RunAll | quickjs/src/run-test262.c:2175-2202 | Filtering directories, loading a test list and running it: the counters grow by the tests the directories excluded and the charges of the tests left, sorted, under the exclude list without its directories |
| TestAccounting.WholeRunAddsUp | quickjs/src/run-test262.c:942-2202 | excluded + skipped + run is the number of tests loaded less those the sort merged, and the full number if and only if of every two equal entries one is in an excluded directory; run <= counted <= 2 * run and failed <= counted |
| TestAccounting.WholeRunIsFullIff | quickjs/src/run-test262.c:942-2202 | excluded + skipped + run is the number of tests loaded, whichever way the lists are sorted, if and only if the lists as given meet that condition |
| TestAccounting.NoTestIsMergedIff | quickjs/src/run-test262.c:942-2202 | However the sort arranges equal names, no two of the tests left compare equal if and only if every two loaded entries that do have a directory class on the list as given whose members are all prefixes of one of them; entries loaded after the filter cannot be parted |
| TestAccounting.ChargesAddUp | quickjs/src/run-test262.c:1817-1875 | Excluded + skipped + run is the length of the list; run <= counted <= 2 * run, equal outside mode All; failed <= counted |
| TestAccounting.ExcludedAreTheMatches | quickjs/src/run-test262.c:2007-2030 | excluded is the number of entries that match the exclude list; run is the number of the others whose number lies in the index range and that neither their metadata nor, in the modes Nostrict, Strict and All, their flags rule out; skipped are all the rest |
| TestAccounting.FailuresAreTheVariants | quickjs/src/run-test262.c:1817-1875 | test_count grows by the number of variants run of the tests that are not excluded, out of range or skipped, test_failed by the number of those variants that fail |
| TestAccounting.ExcludedIffListed | quickjs/src/run-test262.c:2010-2011 | A test is excluded if and only if it is listed or a listed name compares equal to it; that is the same as being listed exactly where no other listed name compares equal to it |
| TestAccounting.UnlistedTestCanBeExcluded | quickjs/src/run-test262.c:2010-2011 | Listing "t1" with any rest excludes "t01" with the same rest |
| Histograms.Histogram.constructor | sqlite-bench/src4purecap/bench.h:123-130 | A new histogram summarises no samples |
| Histograms.Histogram.Clear | sqlite-bench/src4purecap/histogram.c:69-78 | Every field is that of no samples |
| Histograms.Histogram.Add | sqlite-bench/src4purecap/histogram.c:79-90 | Every field becomes the summary of the samples so far and the new one, for every value, negative and huge ones included: one more sample in its bucket, num_, sum_, sum_squares_, min_ and max_ updated |
| Histograms.Histogram.Merge | sqlite-bench/src4purecap/histogram.c:91-100 | The histogram becomes the one of both sample lists together, in every field, also when merged into itself |
| Histograms.SummaryOfConcatenation | sqlite-bench/src4purecap/histogram.c:91-100 | Merging the fields of two summaries gives the summary of the concatenated samples |
| Histograms.BucketIff | sqlite-bench/src4purecap/histogram.c:80-83 | A value belongs to bucket b if and only if it is at least the limit before b and less than the limit of b, the outer buckets taking the rest; every value has exactly one |
| Histograms.LimitsIncrease | sqlite-bench/src4purecap/histogram.c:12-31 | The bucket limits are positive and strictly increasing over the whole table |
| Histograms.LimitTable | sqlite-bench/src4purecap/histogram.c:12-31 | The 154 limits are 1 to 10, then 12, 14, 16, 18, 20, 25, ..., 90, 100 times each power of ten up to 10^8, without 10^10, and last 1e200 |
| Histograms.ExtremesBound | sqlite-bench/src4purecap/histogram.c:85-86 | Every sample lies between min_ and max_ |
| Histograms.ExtremesAreSamples | sqlite-bench/src4purecap/histogram.c:70-71 | min_ is a sample exactly when some sample is at most 1e200, max_ exactly when some sample is not negative |
| Histograms.ExtremesOrStart | sqlite-bench/src4purecap/histogram.c:70-71 | Otherwise min_ is still 1e200 and max_ still 0 |
| Histograms.CountIsSize | sqlite-bench/src4purecap/histogram.c:84 | A bucket field counts the places of the samples that belong to the bucket |
| Percentiles.Percentile | sqlite-bench/src4purecap/histogram.c:37-56 | The scan returns what the recursive definition over the fields returns, division by zero and fall-through told apart |
| Percentiles.ScaleInBucket | sqlite-bench/src4purecap/histogram.c:43-52 | The scaling within one bucket, clamped to min_ and max_, with division by zero told apart |
| Percentiles.PercentileExits | sqlite-bench/src4purecap/histogram.c:41-55 | It divides by zero if and only if there are no samples or p <= 0, and bucket 0 is empty, and then in bucket 0; it falls through to max_ if and only if there are samples and p > 100 |
| Percentiles.InterpolationIsLinear | sqlite-bench/src4purecap/histogram.c:38-53 | In every other case, with b the bucket, left and right its limits, m samples in lower buckets and n > 0 in b: the value is left + (right - left) * (num * p / 100 - m) / n cut to min_ and max_, and num * p / 100 exceeds m unless b is 0 and is at most m + n |
| Percentiles.PercentileBracketsOrderStatistic | sqlite-bench/src4purecap/histogram.c:37-56 | For any samples and 0 < p <= 100 the result is computed in the bucket of the ceil(n * p / 100)-th smallest sample and lies between min_ and max_; for samples in [0, 1e200] these are the smallest and the largest sample, and result and sample lie in the same closed bucket |
| Percentiles.OrderStatisticExists | sqlite-bench/src4purecap/histogram.c:38 | The rank k with k - 1 < n * p / 100 <= k lies between 1 and n and some sample has it |
| Percentiles.KthSmallestIsUnique | sqlite-bench/src4purecap/histogram.c:38 | The k-th smallest sample is unique |
| Percentiles.KthOfOrderedList | sqlite-bench/src4purecap/histogram.c:38 | In an ordered list it is the k-th entry |
| Percentiles.PercentileIsMonotone | sqlite-bench/src4purecap/histogram.c:37-56 | For any samples and 0 < p <= q <= 100 neither the bucket nor the value decreases from p to q |
| Percentiles.StopsAtOrderStatistic | sqlite-bench/src4purecap/histogram.c:41-42 | The first bucket whose running sum reaches the threshold is the bucket of the order statistic |
| Percentiles.BucketsSumToNum | sqlite-bench/src4purecap/histogram.c:84-87 | The buckets add up to num_ |
| Moments.RadicandIsNonNegative | sqlite-bench/src4purecap/histogram.c:63-67 | num * sum_squares - sum * sum is never negative, so the square root is defined |
| Moments.VarianceIsMeanSquaredDistance | sqlite-bench/src4purecap/histogram.c:58-67 | The one-pass variance is the mean squared distance of the samples to their average, which times their number is their sum; without samples both are 0 |
| Moments.AverageBetweenExtremes | sqlite-bench/src4purecap/histogram.c:58-61 | The average lies between min_ and max_ |
| NumberNames.NumberName | sqlite-bench/speedtest/speedtest1.c:353-404 | For every n and every nOut >= 1 the buffer holds the first min(length, nOut - 1) characters of the full English name and a NUL, that length is returned, and no cell outside is touched |
| NumberNames.NamesAreComposed | sqlite-bench/speedtest/speedtest1.c:345-404 | The full name: the twenty words below 20; a ten and, behind a space, the rest; from 100 on the name of the quotient by 100, 1000, 10^6 or 10^9, the word for that unit and, if the remainder is not 0, its name |
| NumberNames.Scale | sqlite-bench/speedtest/speedtest1.c:362-381 | One scale appends the separator, the recursively printed quotient and the unit, cut to the buffer |
| NumberNames.WordForZero | sqlite-bench/speedtest/speedtest1.c:399-402 | Only for 0, or when nothing fits, nothing has been printed before, and "zero" completes the text |
| NumberNames.AssembledIsFullName | sqlite-bench/speedtest/speedtest1.c:362-398 | The pieces with their separators are the words of the number joined by single spaces |
| NumberReader.ReadInvertsName | sqlite-bench/speedtest/speedtest1.c:345-353 | A reader of English number words returns n from the full name of n, for every 32-bit n |
| NumberReader.NamesAreDistinct | sqlite-bench/speedtest/speedtest1.c:345-353 | Different numbers have different names |
| NumberReader.SplitJoin | sqlite-bench/speedtest/speedtest1.c:369-395 | Splitting a name at its spaces gives back its words |
| Swizzles.Swizzle | sqlite-bench/speedtest/speedtest1.c:327-335 | The loop on unsigned ints returns the low bitlen(limit) bits of the input in reverse order |
| Swizzles.ReverseBits | sqlite-bench/speedtest/speedtest1.c:329-333 | Bit i of the result is bit n - 1 - i of the input |
| Swizzles.BitIsDigit | sqlite-bench/speedtest/speedtest1.c:329-333 | Bit i of x is x / 2^i modulo 2 |
| Swizzles.ReverseTwice | sqlite-bench/speedtest/speedtest1.c:327-335 | Reversing twice keeps exactly the low bits |
| Swizzles.SwizzleIsInvolutionIff | sqlite-bench/speedtest/speedtest1.c:2745-2749 | Applied twice with the same limit it returns its input if and only if the input fits the bits of the limit |
| Swizzles.SwizzleStaysInRangeIff | sqlite-bench/speedtest/speedtest1.c:324-335 | All of 1..limit is mapped into 1..limit if and only if the limit is 2^k - 1 or 2^k - 2 |
| Swizzles.KeysCollideIff | sqlite-bench/speedtest/speedtest1.c:327-335 | Two inputs share a key if and only if they agree in those bits |
| Swizzles.RoundupAllones | sqlite-bench/speedtest/speedtest1.c:339-343 | For every 32-bit limit the loop ends with the least 2^k - 1, k >= 1, that is not below it |
| Swizzles.KeysAreDistinct | sqlite-bench/speedtest/speedtest1.c:789-838 | The keys of 1..sz with the rounded-up limit are distinct and between 1 and that limit, as the unique columns need |
| StreamHash.Hash.constructor | sqlite-bench/speedtest/speedtest1.c:176-181 | The table starts as the identity permutation with both cursors 0 |
| StreamHash.Hash.Update | sqlite-bench/speedtest/speedtest1.c:187-205 | Table and cursors go through one state per byte: j grows by table[i] and the byte, the entries at i and j are exchanged, i grows by one, all modulo 256; the table stays a permutation of the same bytes |
| StreamHash.Hash.Final | sqlite-bench/speedtest/speedtest1.c:211-225 | The table and the copied cursors go through 32 states: i grows by one, j by table[i], the entries at i and j are exchanged, and output byte k is the entry of the new table at the sum of the two, all modulo 256; the stored cursors stay, the table stays a permutation of the same bytes |
| StreamHash.EmitIsReversible | sqlite-bench/speedtest/speedtest1.c:216-224 | The table and the cursors before any number of output bytes can be recovered from those after them |
| StreamHash.FirstBytes | sqlite-bench/speedtest/speedtest1.c:211-225 | A hash over nothing begins with the bytes 2, 5, 7 |
| StreamHash.BytesWrap | sqlite-bench/speedtest/speedtest1.c:197-223 | Sums and differences of unsigned chars wrap around at 256 |
| StreamHash.AbsorbInPortions | sqlite-bench/speedtest/speedtest1.c:183-205 | Hashing a message in two consecutive portions equals hashing it at once |
| StreamHash.UpdateIsBijection | sqlite-bench/speedtest/speedtest1.c:196-202 | For every message the update of table and cursors is a bijection, with its inverse given |
| Lehmer.Random.constructor | sqlite-bench/src4purecap/random.c:64-71 | Every 32-bit argument gives a seed between 1 and 2^31 - 2, its low 31 bits unless these are one of the two bad seeds |
| Lehmer.Random.Next | sqlite-bench/src4purecap/random.c:73-86 | Shift, mask, add and conditional subtraction compute 16807 * seed mod (2^31 - 1) without a division and keep the seed in its range |
| Lehmer.NextIsProductModM | sqlite-bench/src4purecap/random.c:77-83 | The folding with 64-bit product and narrowing cast is reduction modulo 2^31 - 1 |
| Lehmer.NextIsBijection | sqlite-bench/src4purecap/random.c:73-86 | One call is a bijection on 1..2^31 - 2, with its inverse given |
| Lehmer.AfterIsPower | sqlite-bench/src4purecap/random.c:73-86 | After k calls the seed is 16807^k times the first one modulo 2^31 - 1 |
| LehmerPeriod.FullPeriod | sqlite-bench/src4purecap/random.c:73-86 | From every good seed every good seed is reached, and the start returns after 2^31 - 2 calls and not before |
| LehmerPeriod.OrderIsPeriod | sqlite-bench/src4purecap/random.c:74-75 | 16807 is a primitive root of 2^31 - 1 |
| LehmerPeriod.EverySeedIsReachedFromOne | sqlite-bench/src4purecap/random.c:66-69 | From the replacement seed 1 every good seed is reached within one period |
| LehmerPeriod.NoEarlyRepetition | sqlite-bench/src4purecap/random.c:73-86 | From seed 1 no seed comes twice within one period |
| RingGenerator.RandomGenerator.constructor | sqlite-bench/src4purecap/random.c:90-104 | The generator holds the data and starts at its first byte |
| RingGenerator.RandomGenerator.Generate | sqlite-bench/src4purecap/random.c:106-125 | A negative length yields nothing; otherwise the text is the next len bytes of the endless repetition of the data and the position advances by len modulo its size |
| RingGenerator.StreamRepeats | sqlite-bench/src4purecap/random.c:112-123 | Byte i of the text from pos is data[(pos + i) modulo its size], and a whole round from the start is the data |
| RingGenerator.StreamSplits | sqlite-bench/src4purecap/random.c:115-120 | Generating in two portions yields the same text as generating it at once |
| Lattice.SweepInvertsCalcIndex | speccpu/cross-compile/519.lbm_r-lbm_1d_array.h:13-27 | SWEEP_X, SWEEP_Y and SWEEP_Z recover the coordinates, and the remainder the entry, of every index with in-range x, y and entry |
| Lattice.CalcIndexInvertsSweep | speccpu/cross-compile/519.lbm_r-lbm_1d_array.h:13-27 | Every index is CALC_INDEX of the coordinates the macros compute from it |
| Lattice.UpstreamIsOpposite | speccpu/cross-compile/519.lbm_r-lbm_1d_array.h:99-117 | For all 19 directions the pull form reads from the neighbour opposite to the one the push form writes to |
| Lattice.Addresses | speccpu/cross-compile/519.lbm_r-lbm_1d_array.h:13-137 | For all 19 directions at (x, y, z): pushing writes to the neighbour the direction names, pulling reads from the opposite one, the other end is the cell itself, each address being CALC_INDEX with the offsets written out |
| Lattice.WritesAreDisjoint | speccpu/cross-compile/519.lbm_r-lbm_1d_array.h:77-137 | In both forms a slot is written for one direction of one cell only |
| Streaming.Sweep | speccpu/cross-compile/519.lbm_r-lbm_1d_array.h:18-23 | The stepping loop writes, for every cell of the range and every direction, the result computed from the source grid, and changes no other slot |
| Streaming.SweptIff | speccpu/cross-compile/519.lbm_r-lbm_1d_array.h:18-137 | What a sweep promises, spelled out: every DST slot of every cell holds what the loop body makes of the cell's 19 SRC values, and no other slot changes |
| Streaming.ReadSources | speccpu/cross-compile/519.lbm_r-lbm_1d_array.h:57-117 | The 19 SRC macros yield the values of the cell in either form |
| Streaming.WriteTargets | speccpu/cross-compile/519.lbm_r-lbm_1d_array.h:77-137 | The 19 DST macros assign the results of the cell in either form |
| Streaming.SweepListIsSwept | speccpu/cross-compile/519.lbm_r-lbm_1d_array.h:18-23 | Sweeping any list of cells, repetitions included, assigns every cell's results and nothing else |
| Streaming.SweepOrderIsIrrelevant | speccpu/cross-compile/519.lbm_r-lbm_1d_array.h:18-23 | The order in which the cells are swept does not change the resulting grid |
| Streaming.TargetsCorrespond | speccpu/cross-compile/519.lbm_r-lbm_1d_array.h:57-137 | In both forms a cell reads the slot that its upstream neighbour wrote |
| Streaming.SweepKeepsRelated | speccpu/cross-compile/519.lbm_r-lbm_1d_array.h:54-139 | Push then local read is local write then pull: a sweep in each form keeps grids that deliver the same values delivering the same values, whatever the loop body computes |
| Streaming.SimulationsAgree | speccpu/cross-compile/519.lbm_r-lbm_1d_array.h:54-139 | Over any number of time steps with swapped grids, both forms feed every loop body the same values |
| Streaming.UniformGridsAreRelated | speccpu/cross-compile/519.lbm_r-lbm_1d_array.h:54-139 | Grids initialised with one value per direction deliver the same values in both forms |
| TraceMalloc.MallocState.Malloc | quickjs/src/qjs.c:194-210 | NULL exactly when the limit would be exceeded or the library refuses; otherwise one more live block, count grows by 1 and size by its usable size plus 8; both stay exact, and the size within the limit plus rounding and 8 |
| TraceMalloc.MallocState.Free | quickjs/src/qjs.c:212-221 | The block leaves the live blocks, count falls by 1 and size by its usable size plus 8; both stay exact |
| TraceMalloc.MallocState.Realloc | quickjs/src/qjs.c:223-251 | NULL exactly when the size is zero, the limit would be exceeded or the library refuses, for a NULL block as for a live one; refusals change nothing, other calls free, add or replace one live block; count and size stay exact and within the limit plus rounding and overhead |
| TraceMalloc.MallocState.Resize | quickjs/src/qjs.c:232-250 | A live block is replaced exactly when the limit allows it and the library grants it |
| TraceMalloc.MallocState.constructor | quickjs/src/qjs.c:132-147 | The counters start at zero with no live block |
| TraceMalloc.FootprintWithout | quickjs/src/qjs.c:217-220 | Removing any live block lowers the footprint by its usable size and overhead |
| TraceMalloc.RemoveKeepsDistinct | quickjs/src/qjs.c:212-221 | After a free the block is not live and exactly the others are |
| UniqueCNames.GetCName | quickjs/src/qjsc.c:126-154 | The buffer holds the prefix and the sanitised stem of the file name, cut to the buffer; it is a C identifier |
| UniqueCNames.FileParts | quickjs/src/qjsc.c:133-142 | A file name is a directory part up to the last slash, the stem, and an extension from the last dot behind it |
| UniqueCNames.ByteOfCName | quickjs/src/qjsc.c:143-153 | The name is "qjsc_" and, byte by byte, the stem with an underscore for everything but letters and digits, cut to the buffer |
| UniqueCNames.CNameIsIdentifier | quickjs/src/qjsc.c:143-153 | Every derived name, cut or not, is a C identifier |
| UniqueCNames.NameList.Add | quickjs/src/qjsc.c:82-101 | The name is appended and the others stay through every growth of the array |
| UniqueCNames.NameList.Find | quickjs/src/qjsc.c:115-124 | The linear search succeeds if and only if the name is in the list |
| UniqueCNames.NameList.FindUnique | quickjs/src/qjsc.c:217-237 | Whenever some suffix of int width makes the scratch buffer hold a new name, the loop ends with the least such suffix; the name is not in the list and is copied back whole |
| UniqueCNames.CandidateOf | quickjs/src/qjsc.c:226-231 | A candidate is the name, cut to leave 16 bytes, an underscore and the decimal suffix |
| UniqueCNames.FreshCandidateExists | quickjs/src/qjsc.c:226-235 | For a name that leaves the suffix room such a suffix exists and is at most one more than the list is long |
| UniqueCNames.ScratchFits | quickjs/src/qjsc.c:236 | Copying the scratch buffer back cuts nothing, whatever the buffer size from 32 on |
| UniqueCNames.LongNamesNeverChange | quickjs/src/qjsc.c:226-235 | For a name that fills the scratch buffer such a suffix exists if and only if the first candidate is new already |
| UniqueCNames.CandidatesRunOut | quickjs/src/qjsc.c:230-235 | n candidates can all be taken only by a list of at least n entries |
| UniqueCNames.CandidateFits | quickjs/src/qjsc.c:226-231 | For a name that leaves the suffix room the scratch buffer cuts no candidate with an int suffix |
| UniqueCNames.DecimalIsInjective | quickjs/src/qjsc.c:231 | Different suffixes print differently |
| UniqueCNames.NameList.AddModule | quickjs/src/qjsc.c:316-320 | The name a module is given differs from all in the list at that moment, is the plain one when that is free, and keeps a duplicate-free list duplicate-free |
| UniqueCNames.NameList.AddMainFile | quickjs/src/qjsc.c:361-367 | The main file's name is added unchecked: the list stays duplicate-free if and only if the name was new |
| UniqueCNames.MainFileCanRepeatName | quickjs/src/qjsc.c:361-367 | For every short clean stem t, a main file t.mjs gets the name of the module lib/t.js, so the list holds it twice |
| UniqueCNames.SymbolsDistinctIff | quickjs/src/qjsc.c:199-204 | The symbols defined for all objects are distinct if and only if their names are, none is another one followed by "_size", and none is the one of a JSON module followed by "_module_name" |
| UniqueCNames.SymbolsOf | quickjs/src/qjsc.c:199-204 | The symbols of an object are its name, the name with "_size" and, for JSON, with "_module_name" |
| UniqueCNames.DistinctNamesCanShareSymbol | quickjs/src/qjsc.c:199-204 | For every short clean stem t, the modules t.js and t_size.js get different names that define a common symbol |
| UniqueCNames.JsonNameCanShareSymbol | quickjs/src/qjsc.c:299-304 | So do the modules t.json and t_module_name.js |
| TopDown.Validate | overleaf/top-down-analysis.py:332-378 | Returns whether the three sums agree within 0.01 and no metric is below -0.001 |
| TopDown.Verify | overleaf/top-down-analysis.py:381-439 | Returns whether the three sums agree within 0.001, no metric is below -0.001, Retiring is at most 1 and Memory_Bound at most Backend_Bound + 0.001 |
| TopDown.BoundsAreConsistent | overleaf/top-down-analysis.py:50-171 | For plausible counters, negative stalls included, on every branch of the splits, no bound is negative, L1 + L2 + ExtMem is Memory_Bound exactly, Memory + Core is Backend_Bound within 0.001, and the four top-level fractions add up to the larger of 1 and the sum of the first three |
| TopDown.AnalysisExits | overleaf/top-down-analysis.py:49-70 | The analysis gives up if and only if cycles or retired instructions are not positive, and otherwise divides by zero if and only if the speculative counters add up to 0 |
| TopDown.TopLevelFromCounters | overleaf/top-down-analysis.py:55-82 | Retiring times the speculative total is inst_spec, Frontend_Bound and Backend_Bound times the cycles are their stall counts, zero where negative, and Bad_Speculation is what is left of 1, for counters of any sign |
| TopDown.MixSplitFromCounters | overleaf/top-down-analysis.py:96-131 | With an instruction mix: no memory bound without backend stalls; memory to core like loads and stores to data processing; together the backend bound, or, where the mix does not reach inst_spec but misses the bound by at most 0.001, the counted share of it |
| TopDown.LatencySplitFromCounters | overleaf/top-down-analysis.py:132-147 | Without a mix: Memory_Bound is the share of the modelled stalls (2, 6 and 50 cycles) in the backend stalls, at most all of it, and Core_Bound the rest |
| TopDown.MemoryLevelsFromCounters | overleaf/top-down-analysis.py:84-171 | For counters of any sign: L1 and L2 have the share of 2 and 6 cycles a refill in the modelled stalls, none for negative refills, and external memory what is left |
| TopDown.CheckersAcceptIff | overleaf/top-down-analysis.py:332-439 | The first function accepts the analysis of plausible counters if and only if inst_spec over the speculative total plus both stall counts, raised to zero where negative, over the cycles is at most 1.01, the second if and only if it is at most 1.001, and what the second accepts the first accepts |
| TopDown.AnalysisCanBeRejected | overleaf/top-down-analysis.py:70-82 | Any number of cycles, all stalled at both ends, with one speculative instruction gives a top-level sum of 3, which both refuse |
| TopDown.BackendSplitBalances | overleaf/top-down-analysis.py:97-147 | Both ways of splitting the backend bound give parts that are not negative and add up to it within 0.001 |
| TopDown.NormalizeBalances | overleaf/top-down-analysis.py:121-131 | The second normalisation repairs any pair of non-negative parts |
| TopDown.MemorySplitBalances | overleaf/top-down-analysis.py:149-171 | The memory levels are not negative and add up to the memory bound exactly |
| TopDown.MemorySplitBalancesIff | overleaf/top-down-analysis.py:86-171 | For cache counters of any sign the levels add up to the memory bound if and only if there is nothing to split or the stalls of the first two levels, raised to zero where negative, do not exceed all memory stalls |

## Left out

- Rounding, infinities and NaN: floating point is exact here, so order-dependent rounding of the matrix sums and of the histogram is not captured.
- MatrixMultiply.MultiplyV3: does not model a result array that overlaps an operand, int overflow of msize * msize, or a tile size of 0, for which the source does not terminate.
- `multiply_v2`: the same text as `multiply_v1` on vectors.
- NameLists.NameList.Find: for a list whose sorted flag is stale it states only what the search loop returns; when that is right after one more name is stated by `NameLists.AddAfterLookup`.
- NameLists.NameList.Add: failing allocations, on which the program exits, and the lifetime of the strings are not modelled.
- BroadcastReturns.BroadcastCanReturnIff: that a broadcast can return, not that a fair scheduler makes it return: an agent may also end, or wait for ever in its script, before it takes the round.
- AgentBroadcast.ArgumentOfRoundIff: reads and writes of single fields are atomic and take effect in program order; weaker memory orders are not modelled.
- Agent scripts, callbacks and the job queue of QuickJS: a callback is an opaque step that may register another one.
- YamlOptions.CollectOptions: starts where `find_tag` leaves the cursor; `find_tag`, `find_word` and the extraction of the metadata are not modelled.
- TestAccounting.Runner.RunTest: what the metadata say and whether a variant fails are parameters; running JavaScript is not modelled.
- TestAccounting.Runner.RunTestDirList: assumes that the exclude list's sorted flag is not stale, which `TestAccounting.Runner.RunAll` establishes for the program's own sequence of calls; time measurement and progress output are left out.
- TestAccounting.Runner.RunAll: reading the configuration, the error file and the files named in it, and running single files instead of a list, are left out.
- `skip_comments`, `longest_match`, error files and the configuration parser of run-test262.c: easy members or string plumbing.
- Percentiles.PercentileBracketsOrderStatistic: outside [0, 1e200] the closed bucket itself does not contain the sample, so that part is stated for samples in this range only.
- `histogram_to_string`: formatting.
- NumberNames.NumberName: assumes nOut >= 1, as every caller passes; snprintf's treatment of a non-positive size is not part of this model.
- `speedtest1_random`, and `est_square_root`, which is an estimate (0 for the argument 1, at most ten Newton steps) that only sizes one query.
- The test sets of speedtest1.c and benchmark.c: SQL text and SQLite calls.
- StreamHash.Hash.Update: does not write the optional hash file.
- RingGenerator.RandomGenerator.Generate: a positive length on empty data, for which the source divides by zero, is excluded; failed allocations, NULL arguments and the CHERI bounds checks are not modelled.
- Lattice.AddressesAreMacros: the enumeration of the entries and N_CELL_ENTRIES come from lbm.h, which is not part of this model; any numbering with distinct entries below N_CELL_ENTRIES is covered. The FLAGS macros and the 619 header, which has the same text, are left out.
- Streaming.Sweep: the loop body is any function of the cell index and the 19 source values; bodies that read other cells, flags included, and C int overflow of indices are left out.
- TraceMalloc.MallocState.Malloc: the overhead is 8 bytes and the usable size at least the requested one, unlike on Apple systems and Emscripten; the trace output is left out.
- UniqueCNames.NameList.FindUnique: where no suffix of int width gives a new name the source's loop has no way out, and the model does not describe it; `UniqueCNames.FreshCandidateExists` rules this out for every call of the program.
- UniqueCNames.GetCName: for the default prefix "qjsc_"; the command line can set another one.
- UniqueCNames.NameList.AddModule: finding, loading and compiling the module, and modules that get no C object, are left out.
- TopDown.BoundsAreConsistent: for positive cycles, retired count and speculative total, and cache and instruction counters that are not negative; what negative cache counters do is stated by `TopDown.MemorySplitBalancesIff`. The six CHERI ratios, the diagnostics and all printing are left out.
- Shell scripts, Makefiles, configurations and plotting scripts.
