# Simple AutoResearch: verified core

Dafny models of the self-contained algorithms and protocols of Simple AutoResearch, each with the
property it is there for.

- `Conformal`, `ConformalSimulation`, `WeightedCoverage`, `Expectation`, `MarginalCoverage`,
  `RepeatedCoverage`: weighted and rank-based split-conformal radii, and the simulation loop around them. The
  script estimates coverage and says that this proves no theorem; here the coverage theorem is proved about
  its radius, first for leaving one point of a list out, then as marginal coverage: over any number of draws
  from any finite source law and a test point from the shifted target law, what the loop adds to its weighted
  counter, and the weighted coverage it reports over any number of repetitions, have mean at least 1-alpha.
- `McNemar`, `RankStatistics`, `PairedStatistics`, `PairedOutcome`: the exact statistics of the paper analysis.
  The exact McNemar value is a probability over fair tosses; tie-averaged ranks, Pearson and Spearman;
  percentile, paired bootstrap and the grouping of records into pairs.
- `ProcessFraming`: the output framer, a class that sees one character at a time, against a declarative
  splitter of the whole text.
- `Topics`, `BatchController`, `BatchOutcome`, `BatchProgress`, `BatchResults`, `PipeTee`: the topic ids of a
  batch command, what the command leaves of each topic, the parallel batch controller with its checkpoints
  and progress slots, and the reader thread, queue and main loop that log a child process. Both are state
  machines in which any enabled action may come next, so a result about all runs is a result about all
  schedules.
- `ImportReach`, `StrictGrading`, `GradeAggregation`, `StrictOutcome`, `ReviewOutcome`: bounded import
  reachability, and the strict grading pipeline from reviewer rows to the reported scores; the last two state
  each reported number from the rows and leaves alone.
- `Integers`, `SeedArgv`, `ExecutionConfig`, `ExecutionOutcome`: seeds in argument lists, expansion of compact
  declarations into pairs, normalisation and the merge of design proposals, with every key of the result
  stated from the declaration alone.
- `Lines`, `Headings`, `HeadingLines`, `HeadingText`, `HeadingTopics`: the heading renumberer, on lines, on whole
  texts and for topics of several lines.
- `SessionRoots`: reservation of session directories by concurrent starters.
- `Texts`, `Reals`, `Collections`, `Wrappers`: string methods, real arithmetic, counting facts and the option
  type the others share.

Code that works step by step is a method or a class, proved against a specification function; the
lemmas are about that function. Numbers are exact reals and unbounded integers. Random draws, worker
results, scoring results and the scheduler are arbitrary inputs.

Some properties one might expect do not hold of the code without a condition, and the lemmas give the
exact one:

- A written seed reads back, a second write overrides it and nothing but the binding changes, unless the
  seed, written as an argument of its own, is the flag (`SeedArgv.SeedRoundTrip`, `SeedArgv.LastWriteWins`,
  `SeedArgv.OnlyBindingChanges`).
- Heading normalisation is idempotent unless the text has no title and the topic is blank
  (`HeadingText.NormalizeIdempotentExactly`). No caller passes a topic of several lines; with one that does
  not end in white space it is idempotent if and only if the title's lines contain a title, the topic's other
  lines are numbered as they stand and the text's headings are at levels whose numbers the topic's headings
  do not move (`HeadingTopics.TopicNumbersExactly`).
- Heading numbers increase unless a heading climbs back to a level that was never opened
  (`Headings.NumbersIncreaseExactly`); without nesting they can repeat (`Headings.UnnestedNumbersRepeat`).
- A rerun after a crash keeps a saved result when that result is terminal
  (`BatchResults.CrashAndResume`); one with an open status, or failed without any trace, is run again.
- A parallel run can be completed if and only if no worker has ended by an exception, and a worker that
  waits for a progress slot can get one if and only if fewer than `jobs` slots have been lost that way
  (`BatchProgress.FinishableExactly`, `BatchProgress.StartsExactly`). Once the controller meets such an
  exception, the results it has not received are never recorded (`BatchResults.StoppedRecordsExactly`).
- A topic id is normal after one pass unless removing its underscores leaves white space at its ends
  (`Topics.NormalizeTopicIdempotentExactly`).
- For a given number of values, a percentile never falls from one fraction to a larger one if and only if
  their positions are on one side of the seam between -1 and 0, or within the bounds `Grows` spells out for
  positions on different sides of it or inside it (`PairedStatistics.PercentileGrowsExactly`); inside the
  seam it falls strictly unless all values are equal (`PairedStatistics.SeamFallsExactly`). The program uses
  fractions in [0,1] only, where a percentile never falls.

One property holds up to a bound only: after rounding, the reported overall score is the mean of the reported
category scores up to one unit in the fourth place (`GradeAggregation.ReportedScoresAgree`), but not exactly
(`GradeAggregation.ReportedScoresDiffer`).

## Model

| member | source | states |
|---|---|---|
| Conformal.BisectLeft | examples/conformal_reproduction/run.py:42 | the index splits the ascending list into values below x and values at least x |
| Conformal.Radii | examples/conformal_reproduction/run.py:32-45 | the weighted radius is the smallest score whose mass reaches (1-alpha) of the total with the test weight, or infinite; the ordinary radius is the order statistic of its rank |
| Conformal.PrefixMassLocates | examples/conformal_reproduction/run.py:37-42 | the first prefix sum to reach the target ends at the weighted quantile, ties included |
| Conformal.RankLocates | examples/conformal_reproduction/run.py:43-45 | the sorted score at the rank is the order statistic, infinite past the end |
| Conformal.CoverageCriterion | examples/conformal_reproduction/run.py:42-46 | a score is covered if and only if the mass strictly below it misses the target |
| Conformal.QuantileUnique | examples/conformal_reproduction/run.py:42-43 | the quantile contract determines the weighted radius |
| Conformal.InfiniteExactly | examples/conformal_reproduction/run.py:36-43 | the weighted radius is infinite if and only if (1-alpha) times the test weight exceeds alpha times the total |
| Conformal.EqualWeightsReduce | examples/conformal_reproduction/run.py:42-45 | with one common weight a radius is the weighted one if and only if it is the ordinary rank radius, infinite included |
| Conformal.LeaveOneOutTarget | examples/conformal_reproduction/run.py:36-42 | leaving a point out and using its weight as test weight gives every point the same target |
| Conformal.LeaveOneOutCriterion | examples/conformal_reproduction/run.py:32-46 | a point is covered by its own leave-one-out radius if and only if less than the target lies below it |
| Conformal.QuantileCoverage | examples/conformal_reproduction/run.py:32-46 | radii for any target within the total weight cover at least that target |
| Conformal.QuantileOvershoot | examples/conformal_reproduction/run.py:32-46 | covered weight exceeds the target by less than the weight tied at one score |
| Conformal.CoverageTheorem | examples/conformal_reproduction/run.py:32-51 | for all points, positive weights and alpha in (0,1), leave-one-out radii cover at least 1-alpha of the total weight |
| Conformal.CoverageUpperBound | examples/conformal_reproduction/run.py:32-51 | and exceed it by less than the weight tied at one of the scores |
| ConformalSimulation.Repeat | examples/conformal_reproduction/run.py:25-48 | one repetition adds its own hits to the three counters |
| ConformalSimulation.Simulate | examples/conformal_reproduction/run.py:16-58 | bad parameters are rejected exactly, and the reported fractions and squared error are those of the summed hits |
| ConformalSimulation.ReportSound | examples/conformal_reproduction/run.py:49-57 | the reported fractions are in [0,1] and the radicand of the standard error is in [0, 1/4n] |
| ConformalSimulation.OrdinaryCriterion | examples/conformal_reproduction/run.py:44-47 | the rank radius covers a score if and only if fewer scores than its rank lie below it |
| WeightedCoverage.QuantileExists | examples/conformal_reproduction/run.py:36-43 | every list of positively weighted points has a radius for every positive target |
| WeightedCoverage.LeaveOneOutHits | examples/conformal_reproduction/run.py:28-46 | on all ways to leave one observation of a list out, the weighted hits carry at least 1-alpha of the summed density ratios |
| Expectation.DrawLast | examples/conformal_reproduction/run.py:25-34 | any one of several independent draws may be made last |
| MarginalCoverage.TargetTotal | examples/conformal_reproduction/run.py:30-35 | weighted by the density ratio, the source probabilities add up to one |
| MarginalCoverage.HitPartMean | examples/conformal_reproduction/run.py:25-46 | a draw at any place, calibrated on the others, is hit with the same ratio-weighted mean |
| MarginalCoverage.MarginalCoverageTheorem | examples/conformal_reproduction/run.py:25-51 | for every finite source law, number of draws and shift, a test point from the target law adds to the weighted counter with probability at least 1-alpha |
| ConformalSimulation.NoShiftSameHits | examples/conformal_reproduction/run.py:35-48 | without covariate shift weighted and ordinary hits are equal on all draws |
| ConformalSimulation.OrdinaryCoverage | examples/conformal_reproduction/run.py:44-48 | on leave-one-out draws the loop's ordinary counter is at least 1-alpha of the repetitions |
| ConformalSimulation.OrdinaryCoverageReported | examples/conformal_reproduction/run.py:44-55 | on leave-one-out draws the reported ordinary coverage is at least 1-alpha |
| ConformalSimulation.ReportExactly | examples/conformal_reproduction/run.py:27-58 | each reported fraction times the number of repetitions is the number of those that hit, or have an infinite radius, by any radii that meet the contracts of quantile and order statistic; the squared error times that number is w(1-w) for the reported weighted coverage w |
| Expectation.TuplesTotal | examples/conformal_reproduction/run.py:27-45 | the mean over independent draws is the sum over all lists of draws, each with the product of its probabilities |
| RepeatedCoverage.RepetitionsTotal | examples/conformal_reproduction/run.py:27-45 | a mean over repetitions is the mean over calibrations from the source law of the mean over test points from the target law |
| RepeatedCoverage.RepetitionsLaw | examples/conformal_reproduction/run.py:27-45 | the probabilities of all repetitions are not negative and add up to one |
| RepeatedCoverage.ReportMean | examples/conformal_reproduction/run.py:27-58 | over any number of independent repetitions the reported weighted coverage has the probability of a hit as its mean |
| RepeatedCoverage.ReportedCoverageTheorem | examples/conformal_reproduction/run.py:27-58 | for every finite source law, shift, calibration size and number of repetitions the reported weighted coverage has a mean of at least 1-alpha |
| ProcessFraming.ProcessOutput.constructor | src/simple_ar/core/process_output.py:17-20 | nothing buffered, nothing called back |
| ProcessFraming.ProcessOutput.Emit | src/simple_ar/core/process_output.py:22-26 | empties one buffer and calls back with it unless it is blank |
| ProcessFraming.ProcessOutput.Accept | src/simple_ar/core/process_output.py:30-45 | one character moves only its own stream's frame and calls back what that step emits |
| ProcessFraming.ProcessOutput.Feed | src/simple_ar/core/process_output.py:28-45 | a chunk has the effect of its characters in order and leaves the other stream alone |
| ProcessFraming.ProcessOutput.Finish | src/simple_ar/core/process_output.py:47-50 | each stream has called back exactly the declarative split of everything fed to it |
| ProcessFraming.Session | src/simple_ar/core/process_output.py:28-50 | for all chunkings and interleavings, the callbacks of each stream are the split of its concatenated text |
| ProcessFraming.PieceLengthIs | src/simple_ar/core/process_output.py:42-45 | the first piece ends at a break, the length limit or the end, and nowhere else |
| ProcessFraming.MachineRefinesSplit | src/simple_ar/core/process_output.py:22-50 | from every bounded frame the machine emits the split of pending and coming text |
| ProcessFraming.RunBounded | src/simple_ar/core/process_output.py:42-45 | every buffer stays below 8192 characters without CR or LF at every character |
| ProcessFraming.PiecesBounded | src/simple_ar/core/process_output.py:24-45 | no message is blank, longer than 8192 characters or holds a line break |
| ProcessFraming.SplitConserves | src/simple_ar/core/process_output.py:22-50 | the visible characters of a stream come out exactly once and in order |
| ProcessFraming.LineFeedEnds | src/simple_ar/core/process_output.py:22-50 | a line feed ends a permanent piece, and a blank one vanishes |
| ProcessFraming.ReturnLineFeedEnds | src/simple_ar/core/process_output.py:22-50 | so does a carriage return with a line feed |
| ProcessFraming.ReturnEnds | src/simple_ar/core/process_output.py:22-50 | a carriage return before anything else ends a transient piece, and one at the end of the text a permanent one |
| ProcessFraming.FullPieceEnds | src/simple_ar/core/process_output.py:22-50 | 8192 characters without a break are a permanent piece |
| ProcessFraming.EndEnds | src/simple_ar/core/process_output.py:22-50 | what is left at the end is a permanent piece |
| ProcessFraming.TextOfParts | src/simple_ar/core/process_output.py:15-50 | a stream's text is what its own chunks hold, in their order |
| McNemar.PValueRange | benchmark/arc_bench/paper_add_analysis.py:252-256 | symmetric, in (0,1], and 1 if and only if the counts are at most one apart |
| McNemar.ClampExactly | benchmark/arc_bench/paper_add_analysis.py:254-256 | the clamp changes the value if and only if the counts are equal and positive |
| McNemar.PValueDecreases | benchmark/arc_bench/paper_add_analysis.py:252-256 | at a fixed sum a wider gap beyond one has a strictly smaller value |
| McNemar.PValueIsTossProbability | benchmark/arc_bench/paper_add_analysis.py:252-256 | the value is the share of fair toss sequences at least as lopsided as the table |
| McNemar.DoubledTailVersusRow | benchmark/arc_bench/paper_add_analysis.py:255-256 | the doubled tail passes, meets or misses the full row as the gap is 0, 1 or more |
| McNemar.TossesAreTails | benchmark/arc_bench/paper_add_analysis.py:255-256 | counting lopsided toss sequences one toss at a time gives the two binomial tails |
| McNemar.CombSymmetric | benchmark/arc_bench/paper_add_analysis.py:255 | the binomial used in the tail is symmetric |
| McNemar.CombSumSplits | benchmark/arc_bench/paper_add_analysis.py:255 | a lower tail and the mirrored rest make up the full row |
| RankStatistics.Ranks | benchmark/arc_bench/paper_add_analysis.py:355-367 | each position gets the count of smaller values plus half of one more than the count of equal values |
| RankStatistics.BlockRank | benchmark/arc_bench/paper_add_analysis.py:358-366 | the average position of a maximal block of ties is the rank of its value |
| RankStatistics.RanksPreserveOrder | benchmark/arc_bench/paper_add_analysis.py:355-367 | ranks are ordered and tied exactly as the values |
| RankStatistics.RanksSum | benchmark/arc_bench/paper_add_analysis.py:355-367 | ranks always add up to n(n+1)/2 |
| RankStatistics.RanksNegate | benchmark/arc_bench/paper_add_analysis.py:355-367 | negating the values maps rank r to n+1-r |
| RankStatistics.RanksOrdinal | benchmark/arc_bench/paper_add_analysis.py:355-367 | every order-preserving recoding of the values has the same ranks |
| RankStatistics.CauchySchwarz | benchmark/arc_bench/paper_add_analysis.py:343-352 | the squared product sum is at most the product of the two sums of squares |
| RankStatistics.ConstantExactly | benchmark/arc_bench/paper_add_analysis.py:348-351 | the sum of squared deviations is zero if and only if all values are equal |
| RankStatistics.PearsonInUnit | benchmark/arc_bench/paper_add_analysis.py:343-352 | undefined if and only if the series are short, of different lengths or one is constant, and in [-1,1] otherwise |
| RankStatistics.SpearmanInUnit | benchmark/arc_bench/paper_add_analysis.py:343-367 | the rank correlation is undefined if and only if a series is constant, and in [-1,1] otherwise |
| RankStatistics.SpearmanReverses | benchmark/arc_bench/paper_add_analysis.py:343-367 | reversing the order of one series flips the sign of the rank correlation |
| RankStatistics.PearsonOneExactly | benchmark/arc_bench/paper_add_analysis.py:343-352 | the coefficient is 1 if and only if both series vary and their deviations are proportional |
| RankStatistics.SpearmanOneExactly | benchmark/arc_bench/paper_add_analysis.py:343-367 | the rank correlation is 1 if and only if the series vary and have the same ranks |
| RankStatistics.SpearmanMinusOneExactly | benchmark/arc_bench/paper_add_analysis.py:343-367 | the rank correlation is -1 if and only if the series vary and their ranks are opposite |
| RankStatistics.SpearmanPerfect | benchmark/arc_bench/paper_add_analysis.py:343-367 | a non-constant series has rank correlation 1 with every order-preserving recoding of itself |
| PairedStatistics.PercentileDefined | benchmark/arc_bench/paper_add_analysis.py:233-241 | not a number exactly without values, and a value exactly where the position is an index from the front or from the end |
| PairedStatistics.PercentileMonotone | benchmark/arc_bench/paper_add_analysis.py:233-241 | a larger fraction never has a smaller percentile from 0 on or up to position -1; between -1 and 0 never a larger one |
| PairedStatistics.PercentileGrowsExactly | benchmark/arc_bench/paper_add_analysis.py:233-241 | for a given number of values no list has a smaller percentile at the larger of two fractions if and only if their positions meet `Grows` |
| PairedStatistics.SeamFallsExactly | benchmark/arc_bench/paper_add_analysis.py:233-241 | between positions -1 and 0 a larger fraction has a strictly smaller percentile unless all values are equal |
| PairedStatistics.PercentileBounded | benchmark/arc_bench/paper_add_analysis.py:233-241 | for every fraction that has a percentile, it stays within all bounds of the values |
| PairedStatistics.PercentileExtremes | benchmark/arc_bench/paper_add_analysis.py:233-241 | fractions 0 and 1 give the smallest and the largest value |
| PairedStatistics.PercentileMedian | benchmark/arc_bench/paper_add_analysis.py:233-241 | fraction one half gives the median for odd and even sizes |
| PairedStatistics.BootstrapInterval | benchmark/arc_bench/paper_add_analysis.py:244-249 | the interval is the two percentiles of the resampled means; not a number without resamples, one error without tasks and another exactly when a pick is beyond the second series |
| PairedStatistics.BootstrapBounded | benchmark/arc_bench/paper_add_analysis.py:244-249 | for all picks the interval is ordered and within all bounds of the differences |
| PairedStatistics.BootstrapCollapses | benchmark/arc_bench/paper_add_analysis.py:244-249 | with every difference d the interval is the point d |
| PairedOutcome.MeansExactly | benchmark/arc_bench/paper_add_analysis.py:244-250 | for each pick the value that enters the percentiles is the mean gain of the full series over the other one at the picked tasks |
| PairedOutcome.IntervalWithinGains | benchmark/arc_bench/paper_add_analysis.py:244-251 | the interval is ordered and within all bounds of those gains |
| PairedStatistics.Group | benchmark/arc_bench/paper_add_analysis.py:260-262 | tasks in order of first appearance, each variant with its last record |
| PairedStatistics.PairUp | benchmark/arc_bench/paper_add_analysis.py:260-267 | the pairs are the tasks that have both variants, in that order |
| PairedOutcome.PairsExactly | benchmark/arc_bench/paper_add_analysis.py:260-267 | the pairs stand in the order in which their tasks first appear; a task has one if and only if it has both variants, and it holds the last record of each |
| PairedStatistics.OutcomesPartition | benchmark/arc_bench/paper_add_analysis.py:272-283 | the four outcome counts add up to the pairs, and the completion sums differ by the discordant counts |
| PairedStatistics.CompletionDifference | benchmark/arc_bench/paper_add_analysis.py:272-288 | the rate difference is the discordant difference per pair, and when it is zero the exact test is 1 |
| Topics.NumberSpellings | benchmark/arc_bench/batch_runner.py:2317-2323 | a number with or without prefix is one topic, and its normal spelling is fixed |
| Topics.NormalizeTopicIdempotentExactly | benchmark/arc_bench/batch_runner.py:2317-2323 | normalising an id twice is normalising it once if and only if the cleaned id has no white space at its ends |
| Topics.UnderscoreHidesSpace | benchmark/arc_bench/batch_runner.py:2317-2323 | ids such as "_ X" need two passes |
| Topics.ResolveTopics | benchmark/arc_bench/batch_runner.py:2300-2314 | the normal ids that are not excluded, once each in order of first appearance; if any is not prepared, those that are not, in that order |
| Topics.UnpreparedExactly | benchmark/arc_bench/batch_runner.py:2311-2313 | the missing topics are exactly the unprepared ones and keep the order |
| BatchController.RunSerial | benchmark/arc_bench/batch_runner.py:462-538 | memory, checkpoint and exit code of the serial command, topic by topic |
| BatchController.ReachableInv | benchmark/arc_bench/batch_runner.py:555-660 | in every run memory and checkpoint are determined by what was planned and received, and free plus held progress slots are 0..jobs-1, each once |
| BatchController.StepKeepsInv | benchmark/arc_bench/batch_runner.py:555-660 | every action of controller, pool and workers keeps that invariant |
| BatchOutcome.FinalKeeps | benchmark/arc_bench/batch_runner.py:462-480 | a terminal topic under skip-any-result and a valid completed one keep their state, unless forced |
| BatchOutcome.FinalRescores | benchmark/arc_bench/batch_runner.py:481-503 | a completed topic that is not valid is scored again where scoring is on and it is valid without scores |
| BatchOutcome.FinalRuns | benchmark/arc_bench/batch_runner.py:504-538 | every other requested topic ends with its worker's result, always when forced without a skip |
| BatchOutcome.FinalLeaves | benchmark/arc_bench/batch_runner.py:462-538 | topics that were not requested keep their state |
| BatchOutcome.ScheduledExactly | benchmark/arc_bench/batch_runner.py:555-612 | a topic is handed to the pool with its previous state if and only if the serial command would run its worker |
| BatchOutcome.ScheduledInOrder | benchmark/arc_bench/batch_runner.py:555-612 | tasks come in the order of the request |
| BatchOutcome.MarkerExactly | benchmark/arc_bench/batch_runner.py:602-611 | a scheduled topic is marked as running, with one more attempt and nothing on record |
| BatchOutcome.FinalExitExactly | benchmark/arc_bench/batch_runner.py:462-538 | the exit code is 1 if and only if some requested topic ends without being completed, other than by a skipped old result |
| BatchOutcome.TerminalExactly | benchmark/arc_bench/batch_runner.py:2461-2467 | an open status is never a result, a completed one always, and any other if and only if the attempt left something on record |
| BatchProgress.SchedulesBounded | benchmark/arc_bench/batch_runner.py:555-660 | no schedule has more than ten actions per topic and two |
| BatchProgress.SomeActionEnabled | benchmark/arc_bench/batch_runner.py:620-650 | no reachable unfinished state without a raised worker is stuck |
| BatchProgress.FinishableExactly | benchmark/arc_bench/batch_runner.py:620-650 | with at least one job, a schedule extends to a finished one if and only if no worker has raised |
| BatchProgress.GetNeverBlocks | benchmark/arc_bench/batch_runner.py:757-787 | a running worker finds a free progress slot unless a raised worker has kept one |
| BatchProgress.StartsExactly | benchmark/arc_bench/batch_runner.py:757-787 | a worker waiting for a slot can get past the wait if and only if fewer than `jobs` slots have been lost |
| BatchProgress.RaisedStays | benchmark/arc_bench/batch_runner.py:638-642 | a raised worker is never received, so its run never finishes |
| BatchResults.ParallelMatchesSerial | benchmark/arc_bench/batch_runner.py:448-660 | every finished schedule has the state, checkpoint and exit code of the serial command, with exactly one result per scheduled topic |
| BatchResults.StoppedKeeps | benchmark/arc_bench/batch_runner.py:638-650 | once an exception has ended the command, nothing the pool still does is received or saved |
| BatchResults.StoppedRecordsExactly | benchmark/arc_bench/batch_runner.py:602-650 | a scheduled topic keeps its worker's result for good if and only if it was received before that, and else stays marked as running |
| BatchResults.DoneIsUnrecorded | benchmark/arc_bench/batch_runner.py:638-650 | a completed worker that was not received is among those |
| BatchResults.SkippedUnchanged | benchmark/arc_bench/batch_runner.py:558-572 | skipped and unrequested topics keep their state at every step of every run |
| BatchResults.CheckpointTerminal | benchmark/arc_bench/batch_runner.py:602-613 | in every checkpoint a scheduled topic is terminal if and only if a terminal result of it was saved |
| BatchResults.CrashAndResume | benchmark/arc_bench/batch_runner.py:2461-2467 | after a crash at any step, a rerun keeps each terminal saved topic as it is and runs every other one |
| BatchResults.NothingLost | benchmark/arc_bench/batch_runner.py:646-650 | with workers that report terminal results, a parallel rerun keeps every saved result and leaves every topic terminal |
| PipeTee.ReachableInv | benchmark/arc_bench/batch_runner.py:1897-1944 | in every interleaving logged, held, queued and unread lines in order are the child's output, and the sentinel is last |
| PipeTee.StepKeepsInv | benchmark/arc_bench/batch_runner.py:1897-1944 | every action of reader, loop, child and clock keeps it |
| PipeTee.NormalExitComplete | benchmark/arc_bench/batch_runner.py:1920-1944 | a normal exit means the child has exited and the log is all the reader could read |
| PipeTee.LogIsPrefix | benchmark/arc_bench/batch_runner.py:1920-1944 | the log is always a prefix of the output; a timeout adds the notice to one |
| PipeTee.LoopDrains | benchmark/arc_bench/batch_runner.py:1920-1944 | once child and reader have stopped the loop alone drains the queue and exits normally |
| PipeTee.ReaderFinishes | benchmark/arc_bench/batch_runner.py:1897-1905 | a reader that has not stopped can always go on, and alone it comes to the end of the output |
| PipeTee.LoopDetermined | benchmark/arc_bench/batch_runner.py:1914-1947 | in every state at most one action of the loop is possible, and one is until the loop has ended |
| PipeTee.CompletesRun | benchmark/arc_bench/batch_runner.py:1897-1944 | every run whose reader has not failed and whose loop has not met the deadline can be continued to a normal exit with the child's whole output logged |
| PipeTee.FlagsExactly | benchmark/arc_bench/batch_runner.py:1897-1944 | in every run the child has exited if and only if it did so by itself or was killed, the time is up if and only if the clock said so, and the loop has timed out if and only if it killed the child |
| PipeTee.DeadlineEnds | benchmark/arc_bench/batch_runner.py:1915-1947 | an expired deadline ends the loop of a running child after at most four of its own steps, whatever is queued: the child is killed, and the log gets at most one more line and the notice |
| ImportReach.Expand | benchmark/arc_bench/adapter.py:2217-2223 | one round adds exactly the imports of the frontier, in whatever order it is visited |
| ImportReach.Reachable | benchmark/arc_bench/adapter.py:2211-2226 | exactly the known stems at the end of a path of 1 to max_depth imports from an entry |
| ImportReach.WithinIsReachable | benchmark/arc_bench/adapter.py:2211-2226 | the levels are the stems at the end of short enough paths |
| ImportReach.WithinStable | benchmark/arc_bench/adapter.py:2224-2225 | after a level without new stems no later level has any, so the early exit loses nothing |
| ImportReach.DeepEnough | benchmark/arc_bench/adapter.py:2211-2226 | a depth of at least the number of known stems gives the transitive closure |
| ImportReach.ImportsExactly | benchmark/arc_bench/adapter.py:2211-2226 | the imports of a stem are those of the last file with it that are stems of files themselves |
| StrictGrading.IndexLeaves | benchmark/arc_bench/adapter.py:2474 | ids in order of first appearance, each with its last leaf |
| StrictGrading.IndexRows | benchmark/arc_bench/adapter.py:2475-2486 | each known id with its last row, and one warning per row with an unknown id, in order |
| StrictGrading.NormalizeRoundGrades | benchmark/arc_bench/adapter.py:2460-2517 | one grade per distinct leaf id, in rubric order, from its last row or as missing, and every warning in order |
| StrictGrading.SilentExactly | benchmark/arc_bench/adapter.py:2476-2517 | a round has no warning if and only if every row names a leaf and every leaf has a numeric score in [0,1]; such scores are kept up to rounding |
| StrictGrading.FindReviewerGrade | benchmark/arc_bench/adapter.py:2570-2577 | after ordering, a reviewer has a grade exactly for the ids leaves carry, and it is the normalised one |
| StrictGrading.FindStrictDisagreements | benchmark/arc_bench/adapter.py:1722-1755 | the disputed leaves in rubric order, each with spread, scores, one row per reviewer and requirements |
| StrictGrading.DisagreesIsFarApart | benchmark/arc_bench/adapter.py:1744-1745 | maximum minus minimum exceeds the bound if and only if two reviewers differ by more than it |
| StrictGrading.RuledExactly | benchmark/arc_bench/adapter.py:1767-1768 | the adjudicator's rulings are for exactly the disputed leaves |
| StrictGrading.CombineReasoning | benchmark/arc_bench/adapter.py:1857-1863 | the reviewers' words in order, each under its position, cut at 1600 characters |
| StrictGrading.CombineStrictReviewerGrades | benchmark/arc_bench/adapter.py:1811-1854 | one grade per leaf in order: a ruling, else the reviewers' rounded mean with their words, else the default; the first two with the reviewers' scores |
| StrictGrading.ScoreStrict | benchmark/arc_bench/adapter.py:1511-1552 | with a reviewer, the pipeline over the first three gives each leaf its grade, and all disagreements, rulings and warnings; without one it has no result |
| StrictGrading.AdjudicatedExactly | benchmark/arc_bench/adapter.py:1722-1854 | a leaf is adjudicated if and only if two reviewers differ by more than the threshold and 1e-9 |
| StrictGrading.AgreedIsClose | benchmark/arc_bench/adapter.py:1722-1854 | otherwise its score is within that distance of every reviewer, up to rounding |
| StrictGrading.GradeSound | benchmark/arc_bench/adapter.py:1811-1854 | every grade carries its leaf's id, a positive weight and a score in [0,1] |
| StrictGrading.GradeKeepsLeaf | benchmark/arc_bench/adapter.py:1811-1854 | with unique ids and a reviewer no leaf gets the default, and each keeps its weight, categories and requirements |
| StrictGrading.OneRulingEach | benchmark/arc_bench/adapter.py:1767-1790 | with unique ids there are as many rulings as disagreements |
| StrictOutcome.Round4Rounds | benchmark/arc_bench/adapter.py:2568 | rounding gives the nearest multiple of 0.0001, the even one of two |
| StrictOutcome.RoundedUnique | benchmark/arc_bench/adapter.py:2568 | there is only one such multiple |
| StrictOutcome.ScoreExactly | benchmark/arc_bench/adapter.py:2558-2568 | a score is 0.5 if it is no number, the nearer end if it is outside [0,1], and else its nearest multiple of 0.0001 |
| StrictOutcome.GradeOfRow | benchmark/arc_bench/adapter.py:2470-2517 | a round's grade has the score and words of the last row about the leaf, and weight, categories and requirements of the last leaf with the id; weights that are not positive count as 1 |
| StrictOutcome.GradeOfNone | benchmark/arc_bench/adapter.py:2488-2517 | without a row the score is 0.5 and the words say so |
| StrictOutcome.ReviewerScoresExactly | benchmark/arc_bench/adapter.py:1829-1838 | beside a combined grade stand the scores all reviewers gave, in reviewer order |
| StrictOutcome.CombinedIsMean | benchmark/arc_bench/adapter.py:1834-1840 | a leaf nobody contests has the rounded mean of all its reviewers' scores, and the first reviewer's other fields |
| StrictOutcome.ContestedIsRuled | benchmark/arc_bench/adapter.py:1830-1833 | a contested leaf has the grade the adjudicator's rows give it |
| StrictOutcome.DisputedExactly | benchmark/arc_bench/adapter.py:1767-1768 | the adjudicator is shown exactly the leaves on whose id two of the first three reviewers differ by more than the threshold, at least 0, and 1e-9 |
| StrictOutcome.DefaultGrade | benchmark/arc_bench/adapter.py:1841-1851 | a leaf whose id no leaf carries gets 0.5 by default |
| ReviewOutcome.DisagreementsAt | benchmark/arc_bench/adapter.py:1722-1755 | the reported disagreements are the contested leaves in rubric order, each with its reviewers' scores and grades and their widest gap, rounded |
| ReviewOutcome.WarningsExactly | benchmark/arc_bench/adapter.py:2477-2505 | a round warns of exactly the rows with unknown ids, the leaves without a row and those whose last row has no number or one outside [0,1] |
| ReviewOutcome.ReviewWarningsExactly | benchmark/arc_bench/adapter.py:1511-1545 | a review's warnings are those of its first three reviewers and, if a leaf is contested, the adjudicator's |
| ReviewOutcome.RulingsCount | benchmark/arc_bench/adapter.py:1570 | there is one ruling for each contested id |
| ReviewOutcome.ReasoningOfTwo | benchmark/arc_bench/adapter.py:1857-1863 | two reviewers' words stand in order under their own numbers, who says nothing is left out, and the text is cut at 1600 characters |
| GradeAggregation.ComputeCategoryScores | benchmark/arc_bench/adapter.py:2605-2618 | categories in order of first appearance, each with the count, weight and mean of its own grades |
| GradeAggregation.CategoriesConserve | benchmark/arc_bench/adapter.py:2605-2618 | counts, weights and weighted sums of the categories add up to those of all grades |
| GradeAggregation.CategoryScoreInUnit | benchmark/arc_bench/adapter.py:2605-2618 | every category score is in [0,1] |
| GradeAggregation.OverallIsMeanOfMeans | benchmark/arc_bench/adapter.py:2588-2618 | before rounding the overall score is the weighted mean of the category means |
| GradeAggregation.ReportedScoresAgree | benchmark/arc_bench/adapter.py:2588-2618 | the reported scores agree with that up to one unit in the fourth place |
| GradeAggregation.ReportedScoresDiffer | benchmark/arc_bench/adapter.py:2588-2618 | two categories of weight 1 with scores 0 and 0.0001 report 0 and a mean of 0.00005 |
| GradeAggregation.ResultsOnlyExactly | benchmark/arc_bench/adapter.py:2597-2603 | the results-only score is the weighted mean of the same category means, code development left out |
| GradeAggregation.ScoreReport | benchmark/arc_bench/adapter.py:1511-1566 | what a strict run reports: grades, category scores, both overall scores, disagreements with their rate, adjudicated leaves and the set of warnings |
| GradeAggregation.ReportInUnit | benchmark/arc_bench/adapter.py:1554-1566 | both overall scores and the disagreement rate of every review are in [0,1] |
| GradeAggregation.ReviewSound | benchmark/arc_bench/adapter.py:1511-1552 | the grades of a strict review meet what these results need |
| ReviewOutcome.OverallExactly | benchmark/arc_bench/adapter.py:2588-2593 | the overall score is the rounded weighted mean of all grades, 0 without any |
| ReviewOutcome.ResultsExactly | benchmark/arc_bench/adapter.py:2596-2602 | the results-only score is that of the grades whose category does not start with "code dev" in any letter case |
| ReviewOutcome.CategoryExactly | benchmark/arc_bench/adapter.py:2605-2618 | a category reports the number of its grades, their weight and their weighted mean, both rounded; grades without a category are uncategorised |
| ReviewOutcome.CategoriesExactly | benchmark/arc_bench/adapter.py:2605-2618 | the reported categories are those of some grade |
| ReviewOutcome.RateExactly | benchmark/arc_bench/adapter.py:1569 | the disagreement rate is the rounded share of the leaves in dispute, 0 without leaves |
| Integers.ParseStr | src/simple_ar/app/research_execution.py:269-295 | reading a rendered integer gives it back |
| Integers.ParseDigitsExactly | src/simple_ar/app/research_execution.py:281-282 | digits are read if and only if digits stand at both ends and underscores only singly between digits, as the number they spell in base ten |
| Integers.ParseSigned | src/simple_ar/app/research_execution.py:281-282 | behind one sign such digits are read with that sign, and nothing else is |
| Integers.ParseUnsigned | src/simple_ar/app/research_execution.py:281-282 | without a sign the stripped text must be such digits itself |
| Texts.StripOf | src/simple_ar/app/research_execution.py:177-178 | stripping leaves what begins and ends visibly between white space |
| SeedArgv.WriteSeed | src/simple_ar/app/research_execution.py:286-295 | the edited copy is the written argument list, or the error |
| SeedArgv.ReadExactly | src/simple_ar/app/research_execution.py:269-276 | nothing is bound if and only if no argument is the flag or begins with it and an equals sign, and it is ambiguous if and only if two are |
| SeedArgv.ReadAlone | src/simple_ar/app/research_execution.py:277-283 | where one is, the seed is the integer in the next argument, or behind the first equals sign, and without one there it is an error |
| SeedArgv.SeedRoundTrip | src/simple_ar/app/research_execution.py:269-295 | writing succeeds if and only if reading does, and a written seed reads back if and only if it is bound inline or its text is not the flag; otherwise the flag reads as ambiguous |
| SeedArgv.SeedTakenForFlag | src/simple_ar/app/research_execution.py:269-295 | with the flag "7" the written seed 7 makes the flag ambiguous |
| SeedArgv.LastWriteWins | src/simple_ar/app/research_execution.py:286-295 | a second write overrides the first as if it had never happened, if and only if the first can be read back |
| SeedArgv.OnlyBindingChanges | src/simple_ar/app/research_execution.py:286-295 | without its seed binding the argument list is unchanged, if and only if the seed can be read back |
| SeedArgv.InlineRoundTrip | src/simple_ar/app/research_execution.py:269-295 | an inline binding is rewritten in place |
| SeedArgv.AppendRoundTrip | src/simple_ar/app/research_execution.py:269-295 | an absent binding is appended and then found there |
| SeedArgv.SeparateRoundTrip | src/simple_ar/app/research_execution.py:269-295 | a binding of two arguments has its second one replaced |
| ExecutionConfig.BindPairs | src/simple_ar/app/research_execution.py:202-233 | explicit, expanded or no pairs, with the reason and flag each case records, key by key |
| ExecutionConfig.Settle | src/simple_ar/app/research_execution.py:235-260 | after the step-by-step edit every key has its normal value |
| ExecutionConfig.NormalizeExecutionConfig | src/simple_ar/app/research_execution.py:183-260 | the edited copy is the normal form, or the declaration is rejected |
| ExecutionConfig.ExpandLoop | src/simple_ar/app/research_execution.py:215-222 | one row per seed in order, or the first failure |
| ExecutionConfig.OnePairPerSeed | src/simple_ar/app/research_execution.py:203-225 | an accepted compact declaration has one valid pair per declared seed, in order, each command the base command with that seed |
| ExecutionConfig.NormalizeIdempotent | src/simple_ar/app/research_execution.py:148-260 | a normalised declaration is accepted and unchanged by normalisation |
| ExecutionConfig.NormalValid | src/simple_ar/app/research_execution.py:148-180 | what normalisation returns passes validation |
| ExecutionConfig.ExpandedPairsPass | src/simple_ar/app/research_execution.py:482-529 | expanded pairs never conflict with their protocol seed, and pass if and only if the seed's text is not taken for the flag |
| ExecutionConfig.AdoptKeys | src/simple_ar/app/research_execution.py:399-409 | the adoption loop, key by key |
| ExecutionConfig.MergeExecutionProtocol | src/simple_ar/app/research_execution.py:384-417 | the merged declaration; a proposal that is no mapping changes nothing |
| ExecutionConfig.MergeKeepsConfigured | src/simple_ar/app/research_execution.py:384-417 | no configured key changes, pairs and compact seed keys are never both introduced, and additions come from the proposal |
| ExecutionConfig.MergeDerivesControl | src/simple_ar/app/research_execution.py:408-417 | control and contract are the configured ones, else the proposal's labelled baseline command and its contract if that is a mapping |
| ExecutionConfig.MergeIdempotent | src/simple_ar/app/research_execution.py:384-417 | merging the same proposal again changes nothing |
| ExecutionConfig.MergeSettles | src/simple_ar/app/research_execution.py:396-409 | after one pass no key of the proposal is left to adopt, whatever the order of keys |
| ExecutionOutcome.AcceptedExactly | src/simple_ar/app/research_execution.py:148-239 | a declaration is accepted if and only if it is well formed and, where it has seeds to expand, both commands are argument lists in which its flag can be read |
| ExecutionOutcome.PairSeedsExactly | src/simple_ar/app/research_execution.py:207-239 | the pairs' seeds are the declared list, else the protocol's where a flag is declared, else 0, 1, ... below the count; else there are no pairs |
| ExecutionOutcome.PairCommandsExactly | src/simple_ar/app/research_execution.py:214-224 | each expanded pair has the declared command, and the baseline's own where it has one, with the pair's seed written behind the flag |
| ExecutionOutcome.ExplicitStay | src/simple_ar/app/research_execution.py:228-233 | explicit pairs stay as they are |
| ExecutionOutcome.PolicyExactly | src/simple_ar/app/research_execution.py:174-180 | the policy is the declared one without white space and in lower case, else run with pairs or a baseline, else skip |
| ExecutionOutcome.BaselineExactly | src/simple_ar/app/research_execution.py:241-257 | a run without pairs and baseline gets its own command as the baseline, if that is an argument list |
| ExecutionOutcome.FlagExactly | src/simple_ar/app/research_execution.py:235-236 | the declared flag is retained under its own key |
| ExecutionOutcome.ReasonExactly | src/simple_ar/app/research_execution.py:224-260 | which of the six reasons is recorded, and when the declaration's own is kept |
| ExecutionOutcome.OtherKeysExactly | src/simple_ar/app/research_execution.py:203-260 | the compact keys go, and every key not named here stays |
| ExecutionOutcome.PairCheckExactly | src/simple_ar/app/research_execution.py:522-529 | a pair fails the seed check of a request if and only if its command cannot be read with the retained flag or binds another seed |
| ExecutionOutcome.MergeExactly | src/simple_ar/app/research_execution.py:384-417 | every key of a merged declaration, from the declaration and the proposal alone: ten keys are adopted where they are not configured, pairs not beside compact keys and these not beside pairs, and baseline and protocol are derived |
| Headings.BumpInPlace | benchmark/survey_bench/adapter.py:971-974 | counts the heading's level, clears the deeper ones, leaves the shallower ones |
| Headings.NormalizeLines | benchmark/survey_bench/adapter.py:952-981 | the loop over the lines, with the title inserted where it is missing, is the renumbering |
| Headings.StripDotted | benchmark/survey_bench/adapter.py:984-993 | stripping removes exactly a number this code has put in front of a title |
| Headings.EmitKeepsKind | benchmark/survey_bench/adapter.py:957-981 | a rewritten heading reads back with the same level, title and role |
| Headings.RenumberIdempotent | benchmark/survey_bench/adapter.py:955-981 | renumbering renumbered lines changes nothing, for all lines |
| Headings.LinesStay | benchmark/survey_bench/adapter.py:957-981 | lines that are no headings stay in place unchanged, and headings keep place and role |
| Headings.NumbersIncreaseExactly | benchmark/survey_bench/adapter.py:971-980 | emitted numbers increase lexicographically if and only if no heading climbs back to an unopened level |
| Headings.NestedIsOpen | benchmark/survey_bench/adapter.py:971-980 | counted ancestors at all levels between are enough for that |
| Headings.NestedNumbersUnique | benchmark/survey_bench/adapter.py:971-980 | in a nested document no two number texts are equal |
| Headings.UnnestedNumbersRepeat | benchmark/survey_bench/adapter.py:971-980 | a deeper level, a shallower one and the deeper one again show the same number twice |
| Headings.DottedInjective | benchmark/survey_bench/adapter.py:975-980 | different numbers have different texts |
| Headings.ShownAreNumbers | benchmark/survey_bench/adapter.py:971-980 | the number texts in the output are the renderings of the counted numbers |
| HeadingLines.ParseExactly | benchmark/survey_bench/adapter.py:958-962 | a line is a heading of a level and title if and only if it is two to six number signs, white space, a title that begins and ends visibly, and white space |
| HeadingLines.StripNumberExactly | benchmark/survey_bench/adapter.py:984-993 | a number is removed if and only if digits with single dots between them, and perhaps one at the end, stand before white space; any other title stays |
| HeadingLines.ClassifyExactly | benchmark/survey_bench/adapter.py:964-971 | a heading is the references, an unnumbered aside or counted, by the word its title without number begins with |
| HeadingLines.AsideExactly | benchmark/survey_bench/adapter.py:996-997 | the unnumbered titles begin with one of five phrases in any letter case, at a word boundary |
| Lines.SplitJoined | benchmark/survey_bench/adapter.py:952-981 | joined lines with a line feed at the end split back into the same lines |
| Lines.JoinTrimmed | benchmark/survey_bench/adapter.py:981 | stripping the end of a joined text drops blank lines at the end and strips the last one kept |
| Lines.SplitBreak | benchmark/survey_bench/adapter.py:952 | each of the ten break characters ends a line, and a carriage return takes a line feed behind it along |
| Lines.SplitRest | benchmark/survey_bench/adapter.py:952 | the last line needs no break, and an empty text has no line |
| HeadingText.NormalizeMarkdownHeadings | benchmark/survey_bench/adapter.py:951-981 | the text of the renumbered lines with its end stripped and one line feed |
| HeadingText.RenumberTitle | benchmark/survey_bench/adapter.py:953-981 | renumbering neither makes nor unmakes a title line |
| HeadingText.TrimmedStays | benchmark/survey_bench/adapter.py:981 | renumbered lines are still renumbered after the end is stripped |
| HeadingText.LinesOfNormalized | benchmark/survey_bench/adapter.py:951-981 | the returned text splits into renumbered lines, and has a title line if and only if one was given or the topic is not blank |
| HeadingText.NormalizeIdempotentExactly | benchmark/survey_bench/adapter.py:951-981 | for a topic of one line or a text with a title, normalising twice is normalising once if and only if the text has a title line or the topic is not blank |
| HeadingTopics.FirstPass | benchmark/survey_bench/adapter.py:951-981 | for a text without title and a topic of any number of lines, the returned text splits into the topic's lines and the renumbered ones, stripped at the end |
| HeadingTopics.TopicIdempotentExactly | benchmark/survey_bench/adapter.py:951-981 | for a text without title and a topic of any number of lines, normalising twice is normalising once if and only if the title's lines contain a title and all lines together are numbered as they stand |
| HeadingTopics.TopicNumbersExactly | benchmark/survey_bench/adapter.py:951-981 | for a topic that does not end in white space this means: its further lines are numbered as they stand, and the counters they leave have not counted the levels the text's headings start at or rise to |
| HeadingTopics.SameNumbersExactly | benchmark/survey_bench/adapter.py:971-980 | headings get the same numbers from given counters as from fresh ones if and only if the first level is uncounted, its ancestors at most once, and no shallower level that follows is counted |
| HeadingTopics.UncountedTopic | benchmark/survey_bench/adapter.py:951-981 | where the further lines are no counted headings, if and only if renumbering leaves those lines alone |
| HeadingTopics.CombinedRenumbered | benchmark/survey_bench/adapter.py:955-981 | the second pass numbers the topic's lines first and counts on from them |
| HeadingTopics.BrokenTopic | benchmark/survey_bench/adapter.py:951-981 | with a topic whose second line is a heading that renumbering rewrites, no text without title is stable under a second pass |
| HeadingTopics.OtherBreaks | benchmark/survey_bench/adapter.py:951-981 | a topic that starts visibly and has another line break than a line feed before a visible character is never stable under a second pass on a text without title |
| HeadingTopics.LetterRewritten | benchmark/survey_bench/adapter.py:971-980 | a one-letter heading without number is such a line |
| SessionRoots.SlugIsName | src/simple_ar/app/session_roots.py:31-33 | 1 to 80 letters, digits and single dashes, no dash in front, one at the end only after the cut |
| SessionRoots.SlugOfWords | src/simple_ar/app/session_roots.py:31-33 | a slug is the words of the lower-cased topic, joined by single dashes and cut at 80 characters |
| SessionRoots.SlugOfNothing | src/simple_ar/app/session_roots.py:31-33 | a topic without words has the slug research-topic |
| SessionRoots.NamesExactly | src/simple_ar/app/session_roots.py:15-26 | the first name is time stamp and slug, and retries append -02, -03 and so on |
| SessionRoots.OthersInterfere | src/simple_ar/app/session_roots.py:18-28 | a run begins with no attempt made, and at any point something else may take any name |
| SessionRoots.CandidateInjective | src/simple_ar/app/session_roots.py:19-26 | no name is tried twice |
| SessionRoots.NewResearchSessionRoot | src/simple_ar/app/session_roots.py:13-28 | alone, the loop ends and makes the first free candidate and nothing else |
| SessionRoots.ReachableInv | src/simple_ar/app/session_roots.py:17-28 | in every interleaving each starter has failed on existing names only and holds the last name it tried |
| SessionRoots.RootsReserved | src/simple_ar/app/session_roots.py:17-28 | reserved directories did not exist before, exist, and are pairwise distinct |
| SessionRoots.RetriesBounded | src/simple_ar/app/session_roots.py:20-28 | a starter tries at most once more than there are names of others that can collide with its candidates, and can try as long as it is unfinished |
| SessionRoots.NamesAccounted | src/simple_ar/app/session_roots.py:17-28 | the names present are those there before, those created by others and the reserved ones |
| SessionRoots.StartersAlone | src/simple_ar/app/session_roots.py:17-28 | where only starters make such names, a starter tries at most once per starter |
| SessionRoots.InterleavingIsSerial | src/simple_ar/app/session_roots.py:13-28 | every interleaving leaves what a serial order leaves in which each finished starter runs its whole loop alone |

## Left out

- Floating point: rounding errors, NaN and infinite inputs; numbers are exact reals. Explicit rounding to four places is modelled.
- Random generators: draws and resampling picks are parameters.
- Library sorting: lists are sorted by insertion sorts of this model, one for each order (pairs, ranked entries, reals); `bisect_left` is a binary search of this model.
- ConformalSimulation.Simulate: reports the square of the Monte Carlo standard error; the square root is not taken.
- RankStatistics.PearsonInUnit: square roots are parameters constrained by their squares.
- Text: `strip` uses all Unicode white space; `lower`, digits and word characters are ASCII.
- ProcessFraming.Session: only the streams stdout and stderr; what the callback does is not modelled.
- Batch controller: workers, scoring and the validity check are arbitrary functions; time stamps, statistics and files are omitted, a checkpoint write and the submission of all tasks are atomic, and exceptions that leave the serial loop are omitted.
- Topics.ResolveTopics: the choice between listed topics, topic sets and ranges, and the expansion of ranges.
- Batch runner: its retry, judge and report commands.
- Pipe tee: processes and threads themselves, the return code and the final join of the reader.
- StrictGrading.NormalizeRoundGrades: starts from the list of rows; the search for that list in a response, its failure and the schema retries are omitted.
- GradeAggregation.ScoreReport: the scoring summary, limitations and reviewer summaries are omitted.
- Strict grading: ids that are not strings, and NaN scores or weights; warnings are values, not sentences, and missing fields are empty.
- Execution declarations: lists and tuples are not distinguished, reasons are labels, all malformed declarations are one error, and known keys are an enumeration.
- Execution requests: paths, timeouts and contract checks; command resolution is the identity.
- HeadingTopics.OtherBreaks: topics whose only other line breaks stand in a blank start or a blank end are left open; no caller has such a topic.
- SessionRoots.RootsReserved: nothing below the output root is removed during a run; time stamps and slugs make up arbitrary base names.
- Model and network calls, prompts, the command line, the HTTP server, rendering and plotting: input and output around this core.
- Cleanup, agent backends, development checks and interaction: short branch tables and file copies that would only add easy members.
