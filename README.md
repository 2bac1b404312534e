# JPlag comparison core, modelled in Dafny

JPlag finds similar programs in a set of submissions. It tokenises each
submission, compares pairs of token lists with a matcher, and gathers the
comparisons into a result. This project models the code around the matcher:

- **The result** (`JPlagResult`, module `Results`, class
  `Results.JPlagResult`). It holds the comparisons sorted by descending
  similarity and a ten-slot similarity histogram fixed at construction. It
  also offers prefix selection (`getComparisons(n)`) and truncation
  (`dropComparisons`). Similarities are `real` percentages. `Float.intValue`
  is written out as truncation toward zero.
- **The sequential strategy** (`NormalComparisonStrategy`, module
  `NormalStrategy`). A double loop hands every pair i < j whose two token
  lists are present to a matcher. The matcher is a function parameter that
  returns an optional comparison. An optional base-code step comes first and
  is recorded as a call.
- **The legacy memory-paged strategy**
  (`jplag.strategy.ExternalComparisonStrategy`). Two windows, block A and
  block B, walk over the submissions. Each round compares A with itself,
  then with a stream of B blocks, dropping token lists as it goes.
  `fillMemory` loads token lists until memory runs short.
  - What the JVM does during one `fillMemory` call is a `MemoryReading`.
  - Which submission files load is a sequence of flags, `loadable`.
  - Which submissions hold a token list is a sequence of flags: `seq<bool>`
    in the pure model, `array<bool>` in the methods.
  - Module `ExternalSchedule` computes the whole run as a pure function of
    the readings: the pairs stepped over (the `count` counter), the pairs
    compared (the `comparisons` counter), the divisors of line 156 and the
    flags at the end.
  - The loops that change the flags are methods in `ExternalStrategy`, each
    proved equal to the schedule's function for its step.
  - The other modules prove what the run covers (`ExternalCoverage`), what
    it compares and leaves in memory (`ExternalMemory`), when it compares
    every loadable pair it steps over (`ExternalComplete`), its counters and
    time strings (`ExternalProgress`), and a summary (`ExternalCompare`).
- **The language registry** (`Languages`). It sorts the providers' display
  names and looks a provider up by name. It works over a given sequence of
  providers, with the display names of the seven frontends python3, csharp,
  scheme, char, java, text and cpp as data.

The sorts the core calls (`List.sort` with a comparator, `Stream.sorted()`)
are stable. Module `Sorting` stands for them with one stable insertion sort
by a total preorder. Module `Counting` holds `Math.min`/`Math.max` and the
number of unordered pairs, n(n-1)/2.

`JPlagResult.java` and `NormalComparisonStrategy.java` come from different
revisions. The constructor that `NormalComparisonStrategy` calls at line 47,
`(comparisons, submissionSet, duration)`, is not the one in
`JPlagResult.java`. The model builds the result with the constructor
`JPlagResult.java` declares, `(comparisons, duration, numberOfSubmissions)`,
and passes the number of submissions.

## Model

Source cells cite files by their path in the repository, with lines.

| member | source | states |
|---|---|---|
| Results.TruncateToInt | jplag/src/main/java/de/jplag/JPlagResult.java:108 | `Float.intValue` cuts toward zero: the result is within one of x, on the side of zero |
| Results.BucketIndex | jplag/src/main/java/de/jplag/JPlagResult.java:106-109 | the slot a similarity increments lies inside the ten-element array exactly when -10 < s < 110; any other similarity would index outside it |
| Results.BucketOfPercentage | jplag/src/main/java/de/jplag/JPlagResult.java:34 | for 0 <= s <= 100, slot k receives exactly the s in [10k, 10k + 10), and slot 9 also takes 100%, as the documented intervals say |
| Results.HistogramSnoc | jplag/src/main/java/de/jplag/JPlagResult.java:108-109 | one more comparison adds one to its own slot and changes no other |
| Results.HistogramTotal | jplag/src/main/java/de/jplag/JPlagResult.java:105-111 | the ten slots add up to the number of comparisons counted |
| Results.HistogramOrderIndependent | jplag/src/main/java/de/jplag/JPlagResult.java:49-50 | two lists with the same comparisons, in any order, have the same histogram, so computing it before the sort gives the numbers of the sorted list |
| Results.SortBySimilarityCorrect | jplag/src/main/java/de/jplag/JPlagResult.java:50 | the sorted list holds the same comparisons, each as often, in descending order of similarity |
| Results.Prefix | jplag/src/main/java/de/jplag/JPlagResult.java:74-79 | -1 selects the whole list; n >= 0 selects a prefix of length min(n, size); every n < -1, and only those, is the `subList` error |
| Results.PrefixKeepsMostSimilar | jplag/src/main/java/de/jplag/JPlagResult.java:69-79 | on a list sorted by descending similarity, every comparison a prefix keeps is at least as similar as every one it leaves out |
| Results.JPlagResult.constructor | jplag/src/main/java/de/jplag/JPlagResult.java:45-51 | the histogram is that of the comparisons as given, the list becomes their descending sort, and duration and submission count are stored |
| Results.JPlagResult.CalculateSimilarityDistribution | jplag/src/main/java/de/jplag/JPlagResult.java:105-112 | the loop fills a new ten-slot array with the histogram of the comparisons |
| Results.JPlagResult.GetComparisons | jplag/src/main/java/de/jplag/JPlagResult.java:74-79 | `getComparisons(n)` is the prefix selection of the held list, so `Results.Prefix`'s properties hold of it |
| Results.JPlagResult.DropComparisons | jplag/src/main/java/de/jplag/JPlagResult.java:58-60 | the list becomes its prefix, or stays as it was when n < -1 fails; the histogram array (contents too), duration and submission count stay unchanged, so the histogram may no longer match the list |
| Sorting.SortSorted | jplag/src/main/java/de/jplag/JPlagResult.java:50 | for any total preorder, the sort's output is ordered by it |
| Sorting.SortPermutes | jplag/src/main/java/de/jplag/Languages.java:15 | the sort's output holds exactly the input's elements, each as often |
| Sorting.SortStable | jplag/src/main/java/de/jplag/JPlagResult.java:50 | the sort is stable: elements the order cannot tell apart (comparisons of equal similarity) come out in their input order |
| NormalStrategy.RowSound | jplag/src/main/java/de/jplag/strategy/NormalComparisonStrategy.java:37-41 | the inner loop for i gives exactly the pairs (i, k), i < k, where k has a token list, in increasing k |
| NormalStrategy.VisitedPairsExact | jplag/src/main/java/de/jplag/strategy/NormalComparisonStrategy.java:32-44 | only pairs i < j < n whose two token lists are present are visited; every such pair is visited; the order is strictly increasing lexicographic, so no pair is visited twice |
| NormalStrategy.VisitedPairsCount | jplag/src/main/java/de/jplag/strategy/NormalComparisonStrategy.java:32-37 | with m submissions holding token lists, exactly m(m-1)/2 pairs are visited, never more than n(n-1)/2; one submission or none gives no visit |
| NormalStrategy.OutcomesFromPairs | jplag/src/main/java/de/jplag/strategy/NormalComparisonStrategy.java:42 | at most one comparison per visited pair, exactly one each when the matcher always answers, and every comparison is the matcher's answer for a visited pair |
| NormalStrategy.CompareRow | jplag/src/main/java/de/jplag/strategy/NormalComparisonStrategy.java:37-43 | the inner loop visits the row's pairs and appends the matcher's answers for them, in order |
| NormalStrategy.ComparePairs | jplag/src/main/java/de/jplag/strategy/NormalComparisonStrategy.java:30-44 | the double loop visits exactly the pairs of `VisitedPairsExact` and collects the matcher's answers in visiting order |
| NormalStrategy.Calls | jplag/src/main/java/de/jplag/strategy/NormalComparisonStrategy.java:21-44 | the base-code step comes first exactly when there is base code and never elsewhere; after it come exactly the matcher calls for the visited pairs, in visiting order, each given that same flag |
| NormalStrategy.CompareSubmissions | jplag/src/main/java/de/jplag/strategy/NormalComparisonStrategy.java:20-48 | the result holds the visited pairs' comparisons sorted by descending similarity, their histogram, the duration and the submission count; the calls are those of `Calls` |
| Languages.Message | jplag/src/main/java/de/jplag/Languages.java:33-37 | the exception's message is "Language Provider for language ", the requested name, then " not found" |
| Languages.LexLeIsTotalPreorder | jplag/src/main/java/de/jplag/Languages.java:15 | the order standing for `String.compareTo` (first differing character decides, a proper prefix first) is total and transitive, so the sort is well defined |
| Languages.LexLeAntisymmetric | jplag/src/main/java/de/jplag/Languages.java:15 | only equal strings come before each other in that order |
| Languages.AllDisplayNamesSortedPermutation | jplag/src/main/java/de/jplag/Languages.java:12-17 | the names come out in ascending order and are exactly the providers' display names, each as often |
| Languages.Provider | jplag/src/main/java/de/jplag/Languages.java:26-31 | a found provider is in the list and has the requested name; the exception, carrying the name, is raised exactly when no provider has it |
| Languages.ProviderUnique | jplag/src/main/java/de/jplag/Languages.java:29 | with distinct names the provider found for a name is the only one with it, so `findAny` cannot pick another |
| Languages.FrontendNamesDistinct | jplag.frontend.java/src/main/java/de/jplag/java/JavaLanguageProvider.java:17 | the display names of the seven frontends python3, csharp, scheme, char, java, text and cpp are pairwise distinct |
| Languages.DefaultLanguageIsJava | jplag/src/main/java/de/jplag/Languages.java:10 | the default language name finds the Java frontend's provider |
| ExternalSchedule.FillIndex | jplag/src/main/java/jplag/strategy/ExternalComparisonStrategy.java:263-288 | `fillMemory` returns at most size - 1 and at least one below where it started; a call without memory trouble returns size - 1 |
| ExternalSchedule.FirstWindowsAsWritten | jplag/src/main/java/jplag/strategy/ExternalComparisonStrategy.java:56-59 | B starts right after A |
| ExternalSchedule.FirstWindows | jplag/src/main/java/jplag/strategy/ExternalComparisonStrategy.java:56-59 | A starts at 0, B right after A and never ending before A, and B ends at the index `fillMemory` returned |
| ExternalSchedule.NextWindowsAsWritten | jplag/src/main/java/jplag/strategy/ExternalComparisonStrategy.java:196-204 | after a block that does not reach the end, A starts after the old A; on the last block, A restarts at the old B start |
| ExternalSchedule.NextWindows | jplag/src/main/java/jplag/strategy/ExternalComparisonStrategy.java:196-204 | corrected: the next A always starts after the old A; on the last block B is empty at A's start and A runs to the end; otherwise B starts right after A |
| ExternalStrategy.LoadFrom | jplag/src/main/java/jplag/strategy/ExternalComparisonStrategy.java:252-265 | the load loop stops where the reading says, and each submission it reaches gets a token list exactly when its file loads, except the one whose load ran out of memory |
| ExternalStrategy.ReleaseDownward | jplag/src/main/java/jplag/strategy/ExternalComparisonStrategy.java:270-272 | walking the index down n times clears exactly the n token lists passed over |
| ExternalStrategy.FillIsLoadThenRelease | jplag/src/main/java/jplag/strategy/ExternalComparisonStrategy.java:263-284 | loading, clamping, halving and the further walk leave the flags that `Fill` describes |
| ExternalStrategy.FillMemory | jplag/src/main/java/jplag/strategy/ExternalComparisonStrategy.java:243-289 | `fillMemory` returns `FillIndex` and leaves the flags of `Fill` |
| ExternalStrategy.CompareRow | jplag/src/main/java/jplag/strategy/ExternalComparisonStrategy.java:69-88 | one A row counts all its pairs and compares those whose two token lists are present |
| ExternalStrategy.CompareBlockWithItself | jplag/src/main/java/jplag/strategy/ExternalComparisonStrategy.java:68-89 | A against A counts every pair inside A and compares those whose two token lists are present |
| ExternalStrategy.CompareColumn | jplag/src/main/java/jplag/strategy/ExternalComparisonStrategy.java:125-145 | one B submission counts a pair with every A submission and compares those whose two token lists are present |
| ExternalStrategy.CompareColumnAndRelease | jplag/src/main/java/jplag/strategy/ExternalComparisonStrategy.java:124-147 | one pass of the B loop compares its column against the flags with earlier B submissions cleared, then clears that B submission |
| ExternalStrategy.CompareBlocks | jplag/src/main/java/jplag/strategy/ExternalComparisonStrategy.java:124-147 | A against B counts every pair of A with B and compares those the schedule says; afterwards every B token list is cleared and nothing else changes |
| ExternalStrategy.ReleaseBlock | jplag/src/main/java/jplag/strategy/ExternalComparisonStrategy.java:182-184 | clears exactly the token lists of the block |
| ExternalStrategy.FilterSkipsRow | jplag/src/main/java/jplag/strategy/ExternalComparisonStrategy.java:71-74 | a skipped A row adds no comparison |
| ExternalStrategy.FilterSkipsColumn | jplag/src/main/java/jplag/strategy/ExternalComparisonStrategy.java:127-130 | a skipped B submission adds no comparison |
| ExternalCoverage.WithinExact | jplag/src/main/java/jplag/strategy/ExternalComparisonStrategy.java:68-89 | A against A steps over exactly the pairs startA <= i < j <= endA, each once, k(k-1)/2 of them |
| ExternalCoverage.CrossExact | jplag/src/main/java/jplag/strategy/ExternalComparisonStrategy.java:124-147 | A against B steps over exactly the pairs of A with B, each once, \|A\| * \|B\| of them |
| ExternalCoverage.ComposeRound | jplag/src/main/java/jplag/strategy/ExternalComparisonStrategy.java:57-58 | with B starting right after A, the A-against-A pairs and the pairs after them do not overlap and together cover everything from startA on |
| ExternalCoverage.ScheduleCoversEveryPairOnce | jplag/src/main/java/jplag/strategy/ExternalComparisonStrategy.java:63-205 | corrected windows: a run that reaches its end has stepped over every unordered pair of submissions exactly once, for any memory readings, with the walk of lines 279-284 bounded as "## Left out" states for `ExternalStrategy.FillMemory` |
| ExternalCoverage.SkippingReadingsSkip | jplag/src/main/java/jplag/strategy/ExternalComparisonStrategy.java:243-289 | memory readings exist under which `fillMemory` returns 3, 4, 5 and 5 on six submissions |
| ExternalCoverage.LastBlockResetSkipsPairs | jplag/src/main/java/jplag/strategy/ExternalComparisonStrategy.java:201-203 | as written, under those readings the run ends having stepped over 9 of the 15 pairs; (2, 3) is never stepped over |
| ExternalCoverage.SkippingCorrectedCovers | jplag/src/main/java/jplag/strategy/ExternalComparisonStrategy.java:194-204 | corrected, under the same readings, the run ends and steps over (2, 3) |
| ExternalCoverage.StallingReadingsStall | jplag/src/main/java/jplag/strategy/ExternalComparisonStrategy.java:243-289 | memory readings exist under which the first `fillMemory` keeps nothing and returns -1 |
| ExternalCoverage.EmptyFillOverlapsBlocks | jplag/src/main/java/jplag/strategy/ExternalComparisonStrategy.java:56-59 | as written, a first `fillMemory` returning -1 makes the next B start inside A: submission 0 is paired with itself and pairs are stepped over twice |
| ExternalMemory.FillKeepsBelow | jplag/src/main/java/jplag/strategy/ExternalComparisonStrategy.java:252 | `fillMemory(from)` changes no token list below `from` |
| ExternalMemory.FillLoadsOnlyLoadable | jplag/src/main/java/jplag/strategy/ExternalComparisonStrategy.java:252-262 | after `fillMemory` a submission in the loaded range holds a token list only if its file loads, and the submission whose load ran out of memory holds none |
| ExternalMemory.CleanFillLoadsEverything | jplag/src/main/java/jplag/strategy/ExternalComparisonStrategy.java:252-258 | without memory trouble every submission from `from` on holds a token list exactly when its file loads |
| ExternalMemory.CrossComparedSound | jplag/src/main/java/jplag/strategy/ExternalComparisonStrategy.java:124-147 | A against B compares only pairs it steps over, no more often, with both token lists present, one from A and one from B |
| ExternalMemory.NextBlockState | jplag/src/main/java/jplag/strategy/ExternalComparisonStrategy.java:146-177 | clearing B and loading the next B keeps the block invariant: nothing before A is loaded, and loaded submissions of A and B have loadable files |
| ExternalMemory.NextRoundState | jplag/src/main/java/jplag/strategy/ExternalComparisonStrategy.java:182-204 | clearing A and loading the next A establishes the round invariant |
| ExternalMemory.ScheduleSound | jplag/src/main/java/jplag/strategy/ExternalComparisonStrategy.java:63-219 | corrected: a run compares only pairs it steps over, no more often (so `comparisons` <= `count`), only pairs whose two files load; each divisor of line 156 lies between 0 and the comparisons made; a finished run leaves no token list in memory |
| ExternalMemory.CleanFillKeepsAll | jplag/src/main/java/jplag/strategy/ExternalComparisonStrategy.java:252-268 | when every file loads and memory never runs short, `fillMemory` returns size - 1 and every submission from `from` on holds its token list |
| ExternalMemory.CleanRunComparesEverything | jplag/src/main/java/jplag/strategy/ExternalComparisonStrategy.java:52-205 | when every file loads and memory never runs short, the run ends after two rounds, compares every pair exactly once, and divides at line 156 once, by a positive count from two submissions on |
| ExternalMemory.FinishedRunReachesLine156 | jplag/src/main/java/jplag/strategy/ExternalComparisonStrategy.java:152-165 | every run that reaches its end, as written or corrected, passes line 156 at least once |
| ExternalMemory.NothingLoadableDividesByZero | jplag/src/main/java/jplag/strategy/ExternalComparisonStrategy.java:156 | when no file loads, nothing is compared, every divisor of line 156 is 0, and a finished run meets one |
| ExternalProgress.WrapInt | jplag/src/main/java/jplag/strategy/ExternalComparisonStrategy.java:42 | Java `int` arithmetic: the result is the exact value reduced modulo 2^32 into the `int` range, and unchanged when it fits |
| ExternalProgress.WrapLong | jplag/src/main/java/jplag/strategy/ExternalComparisonStrategy.java:105 | Java `long` arithmetic: the same, modulo 2^64 |
| ExternalProgress.TotalComparisons | jplag/src/main/java/jplag/strategy/ExternalComparisonStrategy.java:42 | with the product taken in `long`, line 42 gives n(n-1)/2 for every `int` size |
| ExternalProgress.TotalComparisonsAsWrittenAgrees | jplag/src/main/java/jplag/strategy/ExternalComparisonStrategy.java:42 | up to 46341 submissions the `int` product of line 42 does not wrap and gives n(n-1)/2 |
| ExternalProgress.TotalComparisonsAsWrittenWraps | jplag/src/main/java/jplag/strategy/ExternalComparisonStrategy.java:42 | at 46342 submissions line 42 as written expects -1073716337 pairs instead of 1073767311 |
| ExternalProgress.FinishedRunStepsOverTotal | jplag/src/main/java/jplag/strategy/ExternalComparisonStrategy.java:42 | a finished corrected run ends with `count` equal to the expected total |
| ExternalProgress.RemainingEstimate | jplag/src/main/java/jplag/strategy/ExternalComparisonStrategy.java:104-108 | 0 before anything is compared; otherwise the elapsed time per comparison times the pairs left, rounded down and never negative |
| ExternalProgress.RemainingEstimateShrinks | jplag/src/main/java/jplag/strategy/ExternalComparisonStrategy.java:104-108 | the estimate does not grow as pairs get done, and is 0 once all are done |
| ExternalProgress.RemainingAtLine156AsWritten | jplag/src/main/java/jplag/strategy/ExternalComparisonStrategy.java:156 | the unguarded estimate fails exactly when nothing was compared, and otherwise agrees with the guarded one |
| ExternalProgress.FewLoadableFailsAtLine156 | jplag/src/main/java/jplag/strategy/ExternalComparisonStrategy.java:156 | when at most one file loads (so for a single submission), a finished run compares nothing and reaches line 156 with a divisor for which the estimate divides by zero |
| ExternalProgress.NothingLoadableFailsAtLine156 | jplag/src/main/java/jplag/strategy/ExternalComparisonStrategy.java:156 | when no file loads, a finished run reaches line 156 with a divisor for which the estimate divides by zero |
| ExternalProgress.GuardedEstimateAtEveryCheckpoint | jplag/src/main/java/jplag/strategy/ExternalComparisonStrategy.java:104-108 | with the guard, the estimate at every divisor of line 156 is defined and non-negative |
| ExternalProgress.NatText | jplag/src/main/java/jplag/strategy/ExternalComparisonStrategy.java:100-102 | `"" + n` is a non-empty string of decimal digits |
| ExternalProgress.NatTextRoundTrip | jplag/src/main/java/jplag/strategy/ExternalComparisonStrategy.java:100-102 | reading the digits back gives n |
| ExternalProgress.NatTextInjective | jplag/src/main/java/jplag/strategy/ExternalComparisonStrategy.java:100-102 | different numbers give different strings |
| ExternalProgress.DurationFields | jplag/src/main/java/jplag/strategy/ExternalComparisonStrategy.java:100-102 | the hours, minutes (below 60) and seconds (below 60) printed give the duration back to the second |
| ExternalProgress.ClockTextMinutes | jplag/src/main/java/jplag/strategy/ExternalComparisonStrategy.java:101 | a printed minutes field tells different minutes apart |
| ExternalProgress.MinutesAgree | jplag/src/main/java/jplag/strategy/ExternalComparisonStrategy.java:209 | minutes modulo 60000 and modulo 60 agree exactly when the first is below 60 |
| ExternalProgress.DurationTextAsWrittenAgrees | jplag/src/main/java/jplag/strategy/ExternalComparisonStrategy.java:208-210 | the total-time string as written equals the progress format exactly when the minutes modulo 60000 are below 60, so always below one hour |
| ExternalProgress.DurationTextAsWrittenAtOneHour | jplag/src/main/java/jplag/strategy/ExternalComparisonStrategy.java:208-210 | at exactly one hour the total time reads "1 h 60 min 0 sec" instead of "1 h 0 min 0 sec" |
| ExternalCompare.FirstWindowsReady | jplag/src/main/java/jplag/strategy/ExternalComparisonStrategy.java:56-59 | the corrected first windows have the shape every round starts from |
| ExternalCompare.ScheduleFacts | jplag/src/main/java/jplag/strategy/ExternalComparisonStrategy.java:63-219 | corrected: every pair compared was stepped over, and no more often (so `comparisons` <= `count`); only loadable pairs are compared; every divisor of line 156 is between 0 and `comparisons`; a finished run stepped over n(n-1)/2 pairs and left no token list in memory |
| ExternalComplete.GentleMeansKeepsOne | jplag/src/main/java/jplag/strategy/ExternalComparisonStrategy.java:243-289 | without OutOfMemoryError, a `fillMemory` call keeps at least one submission from every start index exactly when its walk (lines 279-284) releases nothing |
| ExternalComplete.GentleFill | jplag/src/main/java/jplag/strategy/ExternalComparisonStrategy.java:243-289 | a gentle `fillMemory(from)` returns at least `from`, and from `from` to the returned index each submission holds a token list exactly when its file loads |
| ExternalComplete.WithinComplete | jplag/src/main/java/jplag/strategy/ExternalComparisonStrategy.java:68-89 | with A held exactly, A against A compares exactly the pairs of A whose two files load |
| ExternalComplete.CrossComplete | jplag/src/main/java/jplag/strategy/ExternalComparisonStrategy.java:124-147 | with A and B held exactly, A against B compares exactly the pairs of A with B whose two files load, in loop order, although each B is released after its column |
| ExternalComplete.RoundComplete | jplag/src/main/java/jplag/strategy/ExternalComparisonStrategy.java:63-97 | corrected, gentle readings: a round and everything after it compare exactly the pairs stepped over whose two files load |
| ExternalComplete.BlockComplete | jplag/src/main/java/jplag/strategy/ExternalComparisonStrategy.java:99-179 | the same from any B block on |
| ExternalComplete.LastBlockComplete | jplag/src/main/java/jplag/strategy/ExternalComparisonStrategy.java:150-165 | the same from the last B block on |
| ExternalComplete.MoreBlocksComplete | jplag/src/main/java/jplag/strategy/ExternalComparisonStrategy.java:160-177 | the same from a B block that is not the last |
| ExternalComplete.NextBlockHeld | jplag/src/main/java/jplag/strategy/ExternalComparisonStrategy.java:146-177 | releasing B and a gentle fill of the next B keep A and the new B held exactly |
| ExternalComplete.NextRoundHeld | jplag/src/main/java/jplag/strategy/ExternalComparisonStrategy.java:182-204 | releasing A and a gentle fill of the next A hold the next round's windows exactly |
| ExternalComplete.NextAComplete | jplag/src/main/java/jplag/strategy/ExternalComparisonStrategy.java:182-204 | from the release of A on, the run compares exactly the pairs stepped over whose two files load |
| ExternalComplete.GentleRunComplete | jplag/src/main/java/jplag/strategy/ExternalComparisonStrategy.java:52-219 | corrected, every `fillMemory` gentle (memory may run short): the run compares exactly the pairs it steps over whose two files load, in order |
| ExternalComplete.GentleRunComparesEveryLoadablePair | jplag/src/main/java/jplag/strategy/ExternalComparisonStrategy.java:52-219 | a finished gentle corrected run compares every pair of loadable submissions, each exactly once |
| ExternalComplete.RoundComparesStepped | jplag/src/main/java/jplag/strategy/ExternalComparisonStrategy.java:63-97 | either variant: from a round on, every pair compared is stepped over, no more often |
| ExternalComplete.BlockComparesStepped | jplag/src/main/java/jplag/strategy/ExternalComparisonStrategy.java:99-179 | the same from any B block on |
| ExternalComplete.NextAComparesStepped | jplag/src/main/java/jplag/strategy/ExternalComparisonStrategy.java:182-204 | the same from the release of A on |
| ExternalComplete.ScheduleComparesStepped | jplag/src/main/java/jplag/strategy/ExternalComparisonStrategy.java:52-219 | either variant, any readings: every pair compared was stepped over, no more often |
| ExternalComplete.LastBlockResetNeverCompares | jplag/src/main/java/jplag/strategy/ExternalComparisonStrategy.java:201-203 | as written, under the readings of `LastBlockResetSkipsPairs`, (2, 3) is never compared |
| ExternalComplete.EmptyAReadings | jplag/src/main/java/jplag/strategy/ExternalComparisonStrategy.java:243-289 | readings exist whose first `fillMemory` loads all three files, halves to 1 and walks down to -1, after which everything fits |
| ExternalComplete.EmptyFirstFill | jplag/src/main/java/jplag/strategy/ExternalComparisonStrategy.java:243-289 | that first fill leaves no token list |
| ExternalComplete.EmptyAFillNeverComparesFirst | jplag/src/main/java/jplag/strategy/ExternalComparisonStrategy.java:56-59 | either variant, whichever files load: after that empty first fill the run ends having stepped over (0, 1) and (0, 2) without comparing them |

## Left out

- The matcher, the similarity formulas, `registerMatch`, the base-code
  comparison and `AbstractComparisonStrategy` are not part of this model. The
  sequential strategy takes the matcher as a function and records the
  base-code step as a call. The memory-paged strategy records the pairs it
  compares. Its result vectors (`avgmatches`, `maxmatches`, `dist`, lines
  34-38) are not modelled, and neither is the empty `JPlagResult` it returns
  at lines 236 and 239.
- The `OutOfMemoryError` handler of `compare` (lines 237-240) is not
  modelled. Only the one inside `fillMemory` is, through the readings.
- JVM memory handling (`Runtime.gc`, `runFinalization`, `freeMemory`,
  `Thread.yield`) is replaced by the `MemoryReading` of each `fillMemory`
  call.
- ExternalStrategy.FillMemory: the walk at lines 279-284 is assumed to stop
  once every submission the call loaded is released again. As written it
  has no lower bound and would reach `elementAt(-1)` if memory never
  recovered.
- Loading a token list from the "temp" directory (lines 254-255) is file
  I/O. Whether it succeeds is the `loadable` flag of the submission.
- The clock is left out: the duration of the sequential run and the
  elapsed times of the memory-paged run are parameters. Times are taken
  to be non-negative.
- The progress and total-time strings are computed, but printing them is
  commented out in the source and not modelled.
- ExternalProgress.RemainingEstimate: does not model `long` overflow of
  `totalTime * (totalComparisons - count)` at line 105, which needs elapsed
  times beyond 2^63 divided by the number of pairs.
- The outer `do`/`while` loops of `compare` (lines 63-205) are modelled on
  values by `ExternalSchedule.Schedule`. Each step is a method on the
  flags, proved equal to the schedule's function for that step. No single
  method runs the whole loop. The `count` and `comparisons` counters are
  the lengths of the stepped-over and compared pair lists.
- The schedule consumes one reading per `fillMemory` call. A run that
  needs more calls than there are readings ends with `finished` false. The
  properties of finished runs hold for every number of readings.
- Similarities are `real` percentages. `Float` rounding, NaN and the order
  `Float.compare` gives to -0.0 are left out.
- Results.JPlagResult.constructor: requires every similarity to lie in
  (-10, 110). Outside that range line 109 indexes outside the array and
  throws, which the model does not represent.
- NormalStrategy.CompareSubmissions: requires the matcher's similarities in
  that range, because it builds the result with the constructor.
- `getComparisons()` (lines 65-67), `getDuration`, `getNumberOfSubmissions`
  and `getSimilarityDistribution` are reads of the class's fields.
  `toString` and the empty constructor (lines 41-43) are not modelled.
- Results.Prefix: `subList` returns a view that shares the list. The model
  copies the prefix, so aliasing between the result and the list is not
  captured.
- Languages.Provider: `findAny` on a sequential stream is taken to return
  the first match. `Languages.ProviderUnique` shows the choice does not
  matter when names are distinct.
- `ServiceLoader` discovery (`providers()`, lines 19-24) is a given sequence
  of providers. Building each frontend's `Language` is foreign code.
- `JPlag.java` is orchestration and is not part of this model. Its guard
  against fewer than two valid submissions (lines 62-64) is what keeps the
  memory-paged strategy away from runs of one submission: such a run
  compares nothing and reaches line 156 with `comparisons == 0`
  (`ExternalProgress.FewLoadableFailsAtLine156`). The sequential strategy
  handles any number of submissions.
- ExternalMemory.ScheduleSound: in general only soundness is proved:
  every pair compared was stepped over and both its files load. That every
  such pair is compared is proved only when no `fillMemory` call runs out of
  memory and each keeps at least one submission wherever it starts
  (`ExternalComplete.GentleRunComplete`, `ExternalComplete.GentleMeansKeepsOne`).
  Otherwise a fill for A can keep nothing. A is then one submission that
  holds no token list, and its pairs are counted but never compared, in
  both variants (`ExternalComplete.EmptyAFillNeverComparesFirst`). The
  corrected windows do not retry such a fill. A submission whose load runs
  out of memory likewise holds no token list.
- The memory-paged strategy with zero submissions is left out: its
  schedule requires at least one.
- Languages.LexLe: compares characters as Unicode code points, while
  `String.compareTo` compares UTF-16 code units. The two orders differ only
  when a character above U+FFFF meets one in U+E000-U+FFFF. None of the seven
  frontends' display names contains either.
- Languages.AllDisplayNamesSortedPermutation: the names are sorted in that
  code-point order, not in UTF-16 code-unit order (see `Languages.LexLe`).
- On the last round the elapsed time of the final A-against-A segment is
  added to `totalTime` twice: at line 92 before the `break`, and again at
  line 207. The elapsed times are parameters and `totalTime` is not
  modelled, so the model does not exhibit this double count.

## Findings

| source | as written | input that shows it | evidently intended | confidence | as-written member | corrected member |
|---|---|---|---|---|---|---|
| jplag/src/main/java/jplag/strategy/ExternalComparisonStrategy.java:202 | on the last block the next A starts at the old `startB` | 6 submissions; `fillMemory` returns 3, then 4, then 5, then 5: A = [0, 1] meets B = [2, 3], [4, 4], [5, 5], and the reset gives A = [5, 5], so (2, 3) and five more pairs are never visited | the next A starts at `endA + 1` on the last block too | not executed | ExternalCoverage.LastBlockResetSkipsPairs | ExternalCoverage.SkippingCorrectedCovers |
| jplag/src/main/java/jplag/strategy/ExternalComparisonStrategy.java:56-59 | B = [endA + 1, index] even when `index` is -1 | 3 submissions; the first `fillMemory` runs out of memory on its first load and returns -1: A = [0, 0], B = [1, -1], the next B starts at 0 inside A, and (0, 0) is stepped over | when nothing fits, B is empty and the next B starts after A; this removes the overlap and the self-pair, but the empty A's pairs stay uncompared (see `ExternalMemory.ScheduleSound` under "## Left out") | not executed | ExternalCoverage.EmptyFillOverlapsBlocks | ExternalCoverage.ScheduleCoversEveryPairOnce |
| jplag/src/main/java/jplag/strategy/ExternalComparisonStrategy.java:156 | divides by `comparisons` without the guard of lines 104-108 | a single submission: A = [0, 0] holds no pair, so line 156 is reached with `comparisons == 0` and throws `ArithmeticException`; so does a run of two submissions whose second file fails to load, or any run in which at most one file loads | the same guard as at lines 104-108 | not executed | ExternalProgress.FewLoadableFailsAtLine156 | ExternalProgress.GuardedEstimateAtEveryCheckpoint |
| jplag/src/main/java/jplag/strategy/ExternalComparisonStrategy.java:209 | minutes of the total time taken `% 60000` | a total time of 3600000 ms reads "1 h 60 min 0 sec" | minutes `% 60`, as at lines 101, 111, 154 and 158 | not executed | ExternalProgress.DurationTextAsWrittenAtOneHour | ExternalProgress.DurationFields |
| jplag/src/main/java/jplag/strategy/ExternalComparisonStrategy.java:42 | `size * (size - 1)` multiplied in `int` before widening to `long` | 46342 submissions: the expected total is -1073716337 instead of 1073767311 | the product taken in `long` | not executed | ExternalProgress.TotalComparisonsAsWrittenWraps | ExternalProgress.FinishedRunStepsOverTotal |
