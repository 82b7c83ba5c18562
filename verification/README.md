# A verified model of the olympiad judge

The repository is a programming-contest judge. This project models its logic and proves what it relies on:

- **EditDistances** - the one-row edit distance behind the plagiarism similarity: optimal over all edit scripts, a metric, and an exact measure of common subsequences.
- **StatusCodes**, **CheckerService** - verdict codes and the loop that runs a solution on all tests, with its retry, its stop at the first failure and its scores.
- **ProblemImport** - imported tests and the two ways of spreading 100 points over the closed ones.
- **JudgingQueue**, **JudgingStore**, **JudgingSafety** - the submission queue as a transition system, the operations on the shared tables that take its steps, and what every run keeps.
- **RunnerChannel** - the conversation with one runner over two one-place channels.
- **ProblemStanding**, **Standing** - rows, penalties, freezing, first success and ranking.
- **MuseumChecker**, **TextCheckers** - the output checkers.
- **AntiCheatReport** - which pairs of submissions are compared and how the suspicious ones are grouped.
- **CompilerLoading**, **SelfTests** - asking a runner for its compilers, the table of its self-tests and the running index that walks it.
- **Logins**, **Registration**, **Decimal** - logins, memberships and the text that lists a team's members.
- **Linq**, **Strings**, **Arithmetic**, **Options** - query operators, text operations and types that the others share.

`dafny verify dfyconfig.toml` checks the whole project.

## Reading the model

Code that changes state is modelled by methods and classes, each proved against a function of its inputs or of the old state; what the program promises is then proved about those functions. Queue and runner are transition systems (`Enabled`, `Next`); the methods of `Store` and `RunnerService` are proved to take their steps. A section under the gate, and a serializable transaction, is one atomic step.

Assumptions, all of them visible in the statements:

- Every check ends within two minutes of its claim (`Timely`). `ClaimsOverlapExactlyWhenStale` shows that exclusivity fails exactly without it, and `StaleClaimOverlaps` gives such a run.
- The runner answers each command once, in order; callers of one runner are serialised by the checker's semaphore.
- Submission ids, user ids and problem identities are unique; new rows get unused identities.
- `GenerateLogins` counts the competitors before its transaction, so that count is a parameter of its own.
- What the runner answers, the clock, random passwords, the identity store's consent and the collation of names are parameters. The similarity is an arbitrary symmetric function, and case folding an arbitrary function on characters; generated logins only need it to leave digits alone.
- The dictionary of available logins is enumerated in input order, as a dictionary from which entries are only removed is.
- An archive satisfies what its reader checks (`Archived`); tests are held in ascending order of their numbers, so the desktop manager's descending order is the order from the end.

Results that differ from what one might expect:

- The distance is only a least edit cost for insertion cost one, since the first row is not multiplied by the cost.
- `CheckStatusCodes.TestNumber` yields 10 for every internal error.
- Import and desktop manager differ for more than 100 closed tests: zero against no score. With no closed test the manager's loop never ends.
- A frozen standing can show more points than the final one when a problem mixes missing and zero scores.
- Generated logins can run out when somebody registers between the count and the assignment.
- Attempts at the very time of the acceptance count towards the penalty, as the skipped regression tests of the repository record; the model follows the code.

## Model

| member | source | states |
|---|---|---|
| `EditDistances.LevenshteinDistance` | Olymp.Checker/AntiCheat/EditDistances.cs:5-24 | the one-row loop returns the value of the full-table recurrence for all costs, and with unit insertions the least cost over all edit scripts |
| `EditDistances.CellStep` | Olymp.Checker/AntiCheat/EditDistances.cs:14-20 | the entry written in the inner loop is the next cell of the full table |
| `EditDistances.CheapestScript` | Olymp.Checker/AntiCheat/EditDistances.cs:5-24 | some sequence of single-character edits has exactly the computed cost |
| `EditDistances.NoScriptIsCheaper` | Olymp.Checker/AntiCheat/EditDistances.cs:5-24 | no sequence of edits, in any order and at any positions, costs less |
| `EditDistances.DistanceIsLeastCost` | Olymp.Checker/AntiCheat/EditDistances.cs:5-24 | both together: the distance is the optimum, for every non-negative replacement cost |
| `EditDistances.LeastCostExactlyForUnitInsertions` | Olymp.Checker/AntiCheat/EditDistances.cs:5-9 | because the row starts as 0, 1, 2, ..., the program computes the optimum for all texts if and only if the insertion cost is one |
| `EditDistances.DistanceRange` | Olymp.Checker/AntiCheat/EditDistances.cs:14-23 | every row entry is an integer between the length difference and the total length, so 32 KiB texts stay far below the exact range of a float |
| `EditDistances.DistanceSymmetric` | Olymp.Checker/AntiCheat/EditDistances.cs:5-24 | the distance is symmetric |
| `EditDistances.DistanceZero` | Olymp.Checker/AntiCheat/EditDistances.cs:5-24 | it is zero exactly on equal texts |
| `EditDistances.DistanceTriangle` | Olymp.Checker/AntiCheat/EditDistances.cs:5-24 | it obeys the triangle inequality |
| `EditDistances.DistanceWithinLonger` | Olymp.Checker/AntiCheat/EditDistances.cs:26-31 | with unit replacements it is at most the longer length |
| `EditDistances.LevenshteinSimilarity` | Olymp.Checker/AntiCheat/EditDistances.cs:26-31 | the share of the longer text that a cheapest edit script leaves alone: for every least cost d, r times the longer length is that length minus d, so 0 exactly when d is the longer length; 0 for two empty texts |
| `EditDistances.SimilarityIsProportion` | Olymp.Checker/AntiCheat/EditDistances.cs:26-31 | the similarity lies in [0, 1], is symmetric, and is 1 exactly for equal non-empty texts |
| `EditDistances.LcsIsMaximum` | Olymp.Checker/AntiCheat/EditDistances.cs:33-38 | the recursive length used below is the greatest length of a common subsequence |
| `EditDistances.DistanceCountsUnmatched` | Olymp.Checker/AntiCheat/EditDistances.cs:33-38 | with replacement cost two or more the distance is the total length minus twice the longest common subsequence |
| `EditDistances.LongestCommonSubsequenceSimilarity` | Olymp.Checker/AntiCheat/EditDistances.cs:33-38 | twice the length of any longest common subsequence over the total length; 0 for two empty texts |
| `EditDistances.LcsSimilarityIsCoverage` | Olymp.Checker/AntiCheat/EditDistances.cs:33-38 | it is the share of characters covered by a longest common subsequence |
| `EditDistances.LcsSimilarityIsProportion` | Olymp.Checker/AntiCheat/EditDistances.cs:33-38 | it lies in [0, 1], is symmetric, and is 1 exactly for equal non-empty texts |
| `StatusCodes.CodeExists` | Olymp.Checker/CheckerResultStatus.cs:18-34 | exactly the tests 1 to 999 and the verdicts of a running test have a code; an internal error always has one |
| `StatusCodes.DecodingInvertsEncoding` | Olymp.Domain/DomainObjects.cs:162-177 | template and number decode a code to its verdict and test; the number of an internal error is always shown as 10, whatever the test |
| `StatusCodes.StoredFailures` | Olymp.Checker/CheckerResultStatus.cs:18-34 | the number stored for a wrong answer, runtime or presentation error on each test, and the text that this number shows |
| `StatusCodes.StoredLimits` | Olymp.Checker/CheckerResultStatus.cs:18-34 | the same for the time, idleness and memory limit |
| `StatusCodes.StoredWithoutTest` | Olymp.Checker/CheckerResultStatus.cs:18-34 | the numbers and texts of internal error, compilation error, accepted, waiting and checking |
| `StatusCodes.FailureCodesAreReserved` | Olymp.Checker/CheckerResultStatus.cs:18-34 | no failed test has the code of a waiting, running, accepted or uncompiled submission |
| `CheckerService.RunTest` | Olymp.Checker/Services/CheckerService.cs:198-224 | the retry loop settles after one attempt, or after two when the first hits a limit |
| `CheckerService.LimitsNeedTwoAttempts` | Olymp.Checker/Services/CheckerService.cs:223-226 | a second attempt is made exactly after a time or memory limit; one of these is recorded only if both attempts hit one, and the recorded verdict is that of the last attempt |
| `CheckerService.Check` | Olymp.Checker/Services/CheckerService.cs:156-263 | told from the attempts made: what does not compile ends with -1 and no attempt, an unknown checker fails without one; otherwise the check aborts exactly when its last attempt throws or the first failure has no code, and else gives code, score, entries and extent of the run as its attempts demand |
| `CheckerService.ResultsAreSettled` | Olymp.Checker/Services/CheckerService.cs:196-242 | each recorded verdict is what its test settled at |
| `CheckerService.ResultsAreCut` | Olymp.Checker/Services/CheckerService.cs:227-241 | everything is recorded, or everything up to and including the first failure |
| `CheckerService.VerdictMeaning` | Olymp.Checker/Services/CheckerService.cs:192-242 | accepted exactly when every test passes; otherwise the code of the first failing test, which decodes to its number |
| `CheckerService.ScoresMatchEntries` | Olymp.Checker/Services/CheckerService.cs:252-257 | the score is the sum of the per-test entries, an entry has the points of its test exactly if that test passed, and running all tests gives an entry for each |
| `CheckerService.FinishedChecks` | Olymp.Checker/Services/CheckerService.cs:182-186 | no finished check reports a waiting or running code, compilation errors have no score, and scores come with per-test entries |
| `CheckerService.AbortsOnlyWhenAnAttemptThrows` | Olymp.Checker/Services/CheckerService.cs:227-230 | on tests 1 to 999 a verdict is always encodable, so only a throwing attempt aborts a check |
| `CheckerService.StoppingCutsResults` | Olymp.Checker/Services/CheckerService.cs:239-241 | stopping at the first failure records a prefix of what running all tests records |
| `CheckerService.StoppingEarlyAgrees` | Olymp.Checker/Services/CheckerService.cs:239-257 | stopping early gives the same code, a prefix of the entries, no larger score, and on accepted solutions the same result |
| `ProblemImport.BuildTests` | Olymp.Site/Services/Contests/ContestProblemService.cs:65-114 | refuses exactly when points would have to be spread over no closed test; otherwise numbers and contents of the archive, the first tests open, and scores as given, or spread as 100 points, or none |
| `ProblemImport.ImportedScoresSumTo100` | Olymp.Site/Services/Contests/ContestProblemService.cs:95-103 | for every number of tests the spread points sum to exactly 100 |
| `ProblemImport.ImportedScoresAreEven` | Olymp.Site/Services/Contests/ContestProblemService.cs:102-103 | open tests score nothing; closed scores never decrease and differ by at most one |
| `ProblemImport.ScoreTests` | Olymp.Manager/MainWindow.xaml.cs:466-484 | observed for any number of rounds on any tests: points are handed out by turns, the loop ends once all 100 are gone, within 100 rounds if there is a closed test and never if there is none |
| `ProblemImport.HandOutRound` | Olymp.Manager/MainWindow.xaml.cs:473-482 | one round from the last closed test to the first: who gets a point, and what is left |
| `ProblemImport.HandedOutMeaning` | Olymp.Manager/MainWindow.xaml.cs:466-484 | whatever scores there were: exactly the given number of points comes in, nothing else changes, and the gains of closed tests never decrease along the tests and differ by at most one |
| `ProblemImport.RoundRobinMatchesImport` | Olymp.Manager/MainWindow.xaml.cs:466-484 | both distributions give the same points; the written scores are equal if and only if there are at most 100 closed tests, beyond which the loop leaves scores missing where the import writes zero |
| `ProblemImport.FirstOf101Tests` | Olymp.Manager/MainWindow.xaml.cs:466-484 | a concrete archive problem on which the written scores differ |
| `JudgingStore.Store.TryClaim` | Olymp.Site/Services/Checker/CheckerManager.cs:128-176 | takes one of the earliest submissions that wait, or whose claim is older than two minutes, on an active problem with tests and a compiler of this checker; marks it, and stores a request with every test of the problem as it is, for all tests exactly in a school contest; nothing is claimed only when no such submission exists |
| `JudgingStore.Store.RunCheck` | Olymp.Site/Services/Checker/CheckerManager.cs:185-215 | the check works on the request stored with the claim, and only its end is noted: a verdict, or a failure when it aborts |
| `JudgingStore.Store.SaveCheck` | Olymp.Site/Services/Checker/CheckerManager.cs:192-220 | saves code, score, entries and time together with one history entry, or puts the submission back into the queue |
| `JudgingStore.Store.RetestProblem` | Olymp.Site/Services/Contests/ContestProblemService.cs:120-134 | each refusal by its condition; otherwise resets exactly the judged submissions of the problem, and counts them |
| `JudgingStore.Store.RetestFailedCompilations` | Olymp.Site/Services/Contests/ContestProblemService.cs:136-147 | refuses or resets exactly the compilation errors of the active problems, and counts them |
| `JudgingStore.Store.ImportProblems` | Olymp.Site/Services/Contests/ContestProblemService.cs:48-118 | imports the whole archive, settings included, or changes nothing; tells for every input which error comes: ambiguous numbers, then a target under check, then the first problem that is refused |
| `JudgingStore.EarliestExists` | Olymp.Site/Services/Checker/CheckerManager.cs:151-159 | when anything is eligible there is an earliest one to take |
| `JudgingSafety.ClaimTakesQueued` | Olymp.Site/Services/Checker/CheckerManager.cs:146-171 | while checks are timely, a claim only reaches queued submissions that no check holds |
| `JudgingSafety.StepKeepsInv` | Olymp.Site/Services/Checker/CheckerManager.cs:128-221 | every step keeps exclusivity, currency of checks and agreement of records |
| `JudgingSafety.RunKeepsInv` | Olymp.Site/Services/Checker/CheckerManager.cs:128-221 | in every state of a run whose checks end within two minutes: status 1 exactly while one check and only one holds the submission; undecided submissions have no scores; decided ones equal their last history entry |
| `JudgingSafety.SavedVerdictsAreCurrent` | Olymp.Site/Services/Checker/CheckerManager.cs:178-220 | each saved verdict was computed by an earlier step of the run on a request read by a still earlier claim, and that request holds exactly the tests, contents included, which the problem has when the verdict is saved |
| `JudgingSafety.SchoolVerdictsCoverAllTests` | Olymp.Site/Services/Checker/CheckerManager.cs:231-234 | in a school contest a scored verdict has an entry for every test, which add up to its score |
| `JudgingSafety.EditsSkipChecks` | Olymp.Site/Services/Contests/ContestProblemService.cs:149-153 | no import or retest touches a submission under check, its problem or the check |
| `JudgingSafety.HistoryIsAppendOnly` | Olymp.Site/Services/Checker/CheckerManager.cs:191-202 | history only grows at its end: one entry per finished check, none per failed one, none by any other step |
| `JudgingSafety.SavedCodeIsDecided` | Olymp.Site/Services/Checker/CheckerManager.cs:192-205 | a finished check never leaves status 0 or 1 |
| `JudgingSafety.UndecidedHaveNoScore` | Olymp.Site/Services/Checker/CheckerManager.cs:203-212 | waiting, running and uncompiled submissions have no score |
| `JudgingSafety.RetestEffect` | Olymp.Site/Services/Contests/ContestProblemService.cs:128-133 | a retest resets code, score, entries and time on the problem, except accepted ones to be kept, and touches no other problem |
| `JudgingSafety.SubmitEffect` | Olymp.Site/Services/Checker/CheckerManager.cs:149-151 | a submission enters the queue waiting, with its time and without a verdict |
| `JudgingSafety.NoCompilationErrorIsLeft` | Olymp.Site/Services/Contests/ContestProblemService.cs:136-147 | afterwards no active problem of the contest has a compilation error, and nothing else changed |
| `JudgingSafety.ImportEffect` | Olymp.Site/Services/Contests/ContestProblemService.cs:83-114 | every archive problem ends with its settings and exactly its own tests, worth 100 points where points are spread |
| `JudgingSafety.ImportReplaces` | Olymp.Site/Services/Contests/ContestProblemService.cs:53-82 | an import replaces exactly the problems of the contest that have a number of the archive; every other problem stays, and no number of the archive is left on a second problem |
| `JudgingSafety.ClaimsOverlapExactlyWhenStale` | Olymp.Site/Services/Checker/CheckerManager.cs:146-171 | from a good state a claim breaks exclusivity if and only if it takes a submission whose check has outlived its claim |
| `JudgingSafety.StaleClaimOverlaps` | Olymp.Site/Services/Checker/CheckerManager.cs:146-148 | a concrete run in which a slow check is overtaken and two checks hold one submission |
| `RunnerChannel.StepKeepsInv` | Olymp.Site/Services/Checker/RunnerService.cs:50-51 | every step of callers, server, cancellation and disconnect keeps one message at most in flight, and only for the waiting call |
| `RunnerChannel.CallsGetTheirOwnResponse` | Olymp.Site/Services/Checker/RunnerService.cs:24-73 | under every interleaving a call ends with the response to its own command, a closed channel or a cancellation before sending; nothing is left over for a later call |
| `RunnerChannel.WaitingIsServed` | Olymp.Site/Services/Checker/RunnerService.cs:88-104 | a waiting call is never stuck: a response or a failure is ready, or the server has a step to make, at most three in a row |
| `RunnerChannel.CancelledReadMisdelivers` | Olymp.Site/Services/Checker/RunnerService.cs:51-51 | a concrete run that misdelivers a response when the read is made cancellable |
| `RunnerChannel.OwnResponsesExactlyIfReadIsNotCancellable` | Olymp.Site/Services/Checker/RunnerService.cs:51-51 | over all runs calls get only their own responses if and only if the read ignores the token |
| `RunnerChannel.RunnerService.TryWrite` | Olymp.Site/Services/Checker/RunnerService.cs:50-50 | one try at sending, by token, channel and place: cancelled, refused by a closed channel, sent, or still waiting |
| `RunnerChannel.RunnerService.TryRead` | Olymp.Site/Services/Checker/RunnerService.cs:51-51 | one try at reading: the own response, a closed channel, or more server steps to come |
| `RunnerChannel.RunnerService.Serve` | Olymp.Site/Services/Checker/RunnerService.cs:88-104 | one turn of the connection loop for each of its states; the channels close, one after the other, exactly when the connection is lost |
| `RunnerChannel.RunnerService.BeginRun` | Olymp.Site/Services/Checker/RunnerService.cs:24-28 | a serialised caller issues the next command |
| `ProblemStanding.RowMeaning` | Olymp.Domain/Standing.cs:38-67 | solved exactly when some attempt is accepted or scores more than zero; otherwise no points, all attempts counted that are not waiting, running or uncompiled, and the latest of their times |
| `ProblemStanding.SolvedRowMeaning` | Olymp.Domain/Standing.cs:43-66 | the score of a solved row is the best, one when the best has none; the judged attempts up to the earliest best one are counted, and the latest of their times is shown |
| `ProblemStanding.RowIgnoresOrder` | Olymp.Domain/Standing.cs:38-67 | permuting the submissions does not change the row |
| `ProblemStanding.LaterAttemptsChangeNothing` | Olymp.Domain/Standing.cs:43-66 | later attempts that do not beat the best score never change a solved row |
| `ProblemStanding.AttemptAtTheSameTimeCounts` | Olymp.Domain/Standing.cs:50-55 | an unsuccessful judged attempt at the very time of the best one raises the attempt number by one and changes nothing else |
| `ProblemStanding.FrozenSolvedRowIsFinal` | Olymp.Domain/Standing.cs:87-88 | without scores a problem solved before the freeze keeps its row |
| `ProblemStanding.FrozenScoreExceedsExactly` | Olymp.Domain/Standing.cs:61-61 | for non-negative scores a frozen row shows more points than the final one if and only if its solutions have no score and a later accepted one scores zero while none scores more |
| `ProblemStanding.MixedScoresShrink` | Olymp.Domain/Standing.cs:61-61 | concrete submissions whose frozen score exceeds the final one |
| `ProblemStanding.FrozenScoreWithinFinal` | Olymp.Domain/Standing.cs:87-88 | with uniformly missing or present scores freezing never shows more points |
| `Standing.CountedMeaning` | Olymp.Domain/Standing.cs:80-88 | which submissions count |
| `Standing.CountedAsStored` | Olymp.Domain/Standing.cs:79-88 | a submission that counts, counts as often as it is stored with the problems |
| `Standing.ListedUsers` | Olymp.Domain/Standing.cs:73-91 | who is listed, and nobody twice when authors are included |
| `Standing.SolvedProblemTime` | Olymp.Domain/Standing.cs:25-26 | time to the best attempt plus a penalty per other judged attempt up to it; a first try costs its time alone |
| `Standing.StandingIsRanked` | Olymp.Domain/Standing.cs:101-114 | the result is a permutation of the listed users: higher scores first, then shorter times, then names |
| `Standing.StandingAddsUp` | Olymp.Domain/Standing.cs:71-111 | each result has one row per problem by number, the sum of the row scores, and the sum over solved rows of the time from the start, plus 20 minutes for every attempt but the last exactly if the contest is not a school contest |
| `Standing.StandingRows` | Olymp.Domain/Standing.cs:101-103 | each row is computed from exactly the counted submissions of its user to its problem |
| `Standing.FirstSuccessIsUnique` | Olymp.Domain/Standing.cs:93-99 | a problem is marked for exactly one listed user if any has an accepted counted submission, otherwise for none; the mark goes to an earliest acceptance and the marked row is solved |
| `Standing.ListedOnce` | Olymp.Domain/Standing.cs:73-91 | where user ids are unique in the tables, the listed users have different ids |
| `Standing.StandingMarksFirstSuccess` | Olymp.Domain/Standing.cs:93-114 | the same about the rows of the returned standing: each column carries exactly one mark if any listed user has an accepted counted submission, otherwise none |
| `Standing.FrozenTotalsWithinFinal` | Olymp.Domain/Standing.cs:87-104 | with uniform non-negative scores no frozen total exceeds the unfrozen one |
| `Standing.FrozenSolutionsStand` | Olymp.Domain/Standing.cs:87-103 | without scores whatever was solved before the freeze keeps score, time and attempts |
| `MuseumChecker.StringReader.ReadLine` | Olymp.Checker/Checkers/MuseumChecker.cs:25-25 | returns the lines of a text in order, none after a final line end |
| `MuseumChecker.ReadOneMore` | Olymp.Checker/Checkers/MuseumChecker.cs:25-25 | the lines of any text: a line feed, a carriage return, or both together end a line |
| `MuseumChecker.SpacesAtTheEnd` | Olymp.Checker/Checkers/MuseumChecker.cs:35-35 | spaces at the end of a line do not matter, others separate numbers |
| `MuseumChecker.BlankLines` | Olymp.Checker/Checkers/MuseumChecker.cs:28-33 | a text is blank exactly when all its lines are |
| `MuseumChecker.ReadRows` | Olymp.Checker/Checkers/MuseumChecker.cs:20-43 | parses the lines up to the first blank one, or stops with the verdict of the first fault: a malformed or wrongly long row, text after a blank line, a number out of range |
| `MuseumChecker.ReadingDecides` | Olymp.Checker/Checkers/MuseumChecker.cs:20-43 | the rows of a text are unique, and a text whose rows are in order has no fault |
| `MuseumChecker.FaultDecides` | Olymp.Checker/Checkers/MuseumChecker.cs:20-43 | a text with a fault is no schedule, and only its first fault decides the verdict |
| `MuseumChecker.Check` | Olymp.Checker/Checkers/MuseumChecker.cs:13-79 | for every jury input and output: accepts exactly the texts of schedules in which every group visits every museum once and no period repeats a museum; tells presentation errors from wrong answers |
| `MuseumChecker.PrintedSchedulesAreAccepted` | Olymp.Checker/Checkers/MuseumChecker.cs:13-67 | every schedule, printed row by row, is accepted, whatever further numbers the jury input holds |
| `MuseumChecker.DistinctCount` | Olymp.Checker/Checkers/MuseumChecker.cs:51-56 | comparing the two counts detects repeated museums exactly |
| `MuseumChecker.CompleteColumn` | Olymp.Checker/Checkers/MuseumChecker.cs:58-64 | the column counts hold exactly when every museum occurs once in the column (pigeonhole) |
| `MuseumChecker.NoPauses` | Olymp.Checker/Checkers/MuseumChecker.cs:45-66 | with at least as many museums as groups a schedule contains no zero |
| `MuseumChecker.FullPeriods` | Olymp.Checker/Checkers/MuseumChecker.cs:45-66 | with at least as many groups as museums every period contains every museum exactly once |
| `TextCheckers.LegacyCheck` | Olymp.Checker/Checkers/LegacyChecker.cs:7-20 | accepts exactly when the outputs agree after deleting whitespace |
| `TextCheckers.DeletedCharacters` | Olymp.Checker/Checkers/LegacyChecker.cs:7-20 | the characters that do not count |
| `TextCheckers.LineEnumerator.MoveNext` | Olymp.Checker/Checkers/DefaultStrictChecker.cs:9-15 | visits the lines of a text in order |
| `TextCheckers.LinesOneMore` | Olymp.Checker/Checkers/DefaultStrictChecker.cs:9-10 | the lines of any text: each of the line breaks ends a line, carriage return and line feed together end it once |
| `TextCheckers.LinesOfUnlines` | Olymp.Checker/Checkers/DefaultStrictChecker.cs:9-10 | splitting inverts joining for lines without line breaks |
| `TextCheckers.StrictCheck` | Olymp.Checker/Checkers/DefaultStrictChecker.cs:7-27 | accepts exactly equal lines or one extra empty jury line at the end; a wrong answer exactly when two lines differ, otherwise a presentation error; acceptance implies equality without whitespace |
| `TextCheckers.VerdictAfter` | Olymp.Checker/Checkers/DefaultStrictChecker.cs:14-25 | each exit of the loop against the verdict on the whole line lists |
| `TextCheckers.StrictAcceptanceIsLegacyAcceptance` | Olymp.Checker/Checkers/LegacyChecker.cs:7-20 | every strict acceptance is a whitespace-insensitive acceptance |
| `AntiCheatReport.Compare` | Olymp.Site/Services/AntiCheat/AntiCheatReportService.cs:77-106 | the nested loops make the specified comparisons, in order, and group their cases into the reports |
| `AntiCheatReport.EachPairOnce` | Olymp.Site/Services/AntiCheat/AntiCheatReportService.cs:84-93 | each pair of one problem and different users with a selected one is compared exactly once, no other pair at all |
| `AntiCheatReport.CasesMeaning` | Olymp.Site/Services/AntiCheat/AntiCheatReportService.cs:95-99 | the recorded cases are, each once, those of the eligible pairs whose similarity exceeds the threshold, lower user first |
| `AntiCheatReport.SuspiciousPairsAreReported` | Olymp.Site/Services/AntiCheat/AntiCheatReportService.cs:77-106 | what the comparison returns: every eligible pair above the threshold is listed once, in exactly one report, that of its users; nothing else is listed; reports are ordered by users and none is empty |
| `AntiCheatReport.CasesFollowComparisons` | Olymp.Site/Services/AntiCheat/AntiCheatReportService.cs:77-106 | submissions loaded by id are compared in that order, and each report lists its cases in the order of their comparisons |
| `AntiCheatReport.ReportsMeaning` | Olymp.Site/Services/AntiCheat/AntiCheatReportService.cs:103-105 | grouping any ordered cases: report keys strictly increase, each case lands in the report of its users and in no other, no report is empty |
| `AntiCheatReport.CallersCompareEverything` | Olymp.Site/Services/AntiCheat/AntiCheatReportService.cs:26-50 | loading only the touched problems loses no pair of all stored submissions |
| `AntiCheatReport.EditSimilarityIsSymmetric` | Olymp.Site/Services/AntiCheat/AntiCheatReportService.cs:95-95 | the similarity in use is symmetric, so the order of a comparison is immaterial |
| `SelfTests.SelfTestService.constructor` | Olymp.Checker/Services/CheckerService.cs:19-29 | keeps the configurations the runner supports; all version rows are pending |
| `SelfTests.SelfTestService.LoadCompilators` | Olymp.Checker/Services/CheckerService.cs:39-98 | loads once: describes each configuration by the answer to its own version command, broken when the command fails or its output is not recognised, fills the version rows, sorts the compilers and builds their table; an interrupted loading leaves the rest as it was |
| `CompilerLoading.VersionsAreShared` | Olymp.Checker/Services/CheckerService.cs:60-66 | configurations with the same command in the same environment share one answered call |
| `CompilerLoading.EachCommandOnce` | Olymp.Checker/Services/CheckerService.cs:60-66 | while no call throws, the calls are exactly the commands of the configurations, each run once per environment |
| `CompilerLoading.CallsWithinConfigurations` | Olymp.Checker/Services/CheckerService.cs:50-66 | also when calls throw and are repeated, there are never more calls than configurations |
| `SelfTests.SelfTestService.RunSelfTests` | Olymp.Checker/Services/CheckerService.cs:322-367 | after loading, every result goes to the row built for its compiler and test, other rows keep their values, and success is reported exactly when it should be |
| `SelfTests.SelfTestService.RunTestsOf` | Olymp.Checker/Services/CheckerService.cs:339-361 | the running index stays within the rows of the compiler |
| `SelfTests.RowInPlace` | Olymp.Checker/Services/CheckerService.cs:341-347 | the row at the running index has the name, compiler and expectation of this test, and no result yet |
| `SelfTests.TestsOfCompiler` | Olymp.Checker/Services/CheckerService.cs:299-301 | a compiler has the tests of its language that name no compiler or name it |
| `SelfTests.DoneRowsAreFilled` | Olymp.Checker/Services/CheckerService.cs:303-367 | the whole table in the end: each row stands where its compiler and test put it and holds the result of that run, none for broken compilers, an internal error for compilers without tests |
| `SelfTests.SuccessMeaning` | Olymp.Checker/Services/CheckerService.cs:364-364 | success: at least one compiler, none broken, each with a test, and every test ending as expected |
| `Logins.AssignLogins` | Olymp.Site/Services/Contests/CompetitorManagementService.cs:267-311 | fails on logins that differ only in case or on too few, changing nothing; otherwise hands the free logins to the queue of competitors without one |
| `Logins.QueueMeaning` | Olymp.Site/Services/Contests/CompetitorManagementService.cs:289-290 | the queue holds each competitor without a login once, by registration date, then id |
| `Logins.SameLogin` | Olymp.Site/Services/Contests/CompetitorManagementService.cs:270-284 | names count as one login when they agree after folding each character |
| `Logins.EverybodyIsNamed` | Olymp.Site/Services/Contests/CompetitorManagementService.cs:289-308 | afterwards everybody has a login and existing ones are unchanged |
| `Logins.NewLoginsDiffer` | Olymp.Site/Services/Contests/CompetitorManagementService.cs:270-295 | a new login comes from the input and differs, ignoring case, from every other login of the contest |
| `Logins.LoginsFollowRegistration` | Olymp.Site/Services/Contests/CompetitorManagementService.cs:289-295 | earlier registrations get earlier free logins |
| `Logins.RemovesAtMostOne` | Olymp.Site/Services/Contests/CompetitorManagementService.cs:282-284 | a username takes away at most one login |
| `Logins.FreeIsUntaken` | Olymp.Site/Services/Contests/CompetitorManagementService.cs:282-284 | the free logins are exactly those that no competitor has, up to case, in their order |
| `Logins.GenerateLogins` | Olymp.Site/Services/Contests/CompetitorManagementService.cs:313-321 | for any earlier count of competitors: fails exactly when the competitors without a login outnumber the generated logins not yet taken, changing nothing; otherwise everybody gets a generated login, all different, and existing ones stay |
| `Logins.GeneratedNames` | Olymp.Site/Services/Contests/CompetitorManagementService.cs:317-318 | how generated names look |
| `Logins.GeneratedLoginsSuffice` | Olymp.Site/Services/Contests/CompetitorManagementService.cs:313-321 | as many generated logins as competitors never run out, whatever usernames there are |
| `Logins.LateRegistrationExhausts` | Olymp.Site/Services/Contests/CompetitorManagementService.cs:315-315 | a competitor who registers between the count and the transaction can make the logins run out |
| `Registration.CompetitorService.RegisterIndividualUser` | Olymp.Site/Services/Contests/CompetitorManagementService.cs:24-63 | every refusal by its condition, in order; otherwise one new row with the profile, its printed name and the registration date, keeping one membership each |
| `Registration.CompetitorService.RegisterTeamOf` | Olymp.Site/Services/Contests/CompetitorManagementService.cs:65-120 | every refusal by its condition, in order; otherwise one new row with coach, linked members and the text that lists all three, keeping one membership each |
| `Registration.CompetitorService.DeleteCompetitor` | Olymp.Site/Services/Contests/CompetitorManagementService.cs:148-164 | every refusal by its condition; otherwise removes that competitor alone |
| `Registration.NobodyTakesPartTwice` | Olymp.Site/Services/Contests/CompetitorManagementService.cs:24-164 | over every sequence of registrations, deletions and changes of the clock and of all other tables no user belongs to two competitors of one contest |
| `Registration.CountTellsAll` | Olymp.Site/Services/Contests/CompetitorManagementService.cs:88-93 | comparing the counts detects exactly that some linked profile may not join |
| `Strings.SplitAtSeparator` | Olymp.Domain/DomainObjects.cs:19-19 | splitting a text at a separator splits both sides |
| `Strings.SplitOfJoin` | Olymp.Domain/DomainObjects.cs:19-19 | splitting inverts joining for parts without the separator |
| `Registration.TeamsParseBack` | Olymp.Domain/DomainObjects.cs:18-24 | a registered team parses back to the same three names and links, in order, if and only if no linked profile name contains a semicolon |
| `Registration.MembersMeaning` | Olymp.Domain/DomainObjects.cs:18-24 | which texts list three members, and which are unreadable |
| `Decimal.ParseOfPrint` | Olymp.Site/Services/Contests/CompetitorManagementService.cs:97-99 | a printed 32-bit id parses back to itself |
| `Decimal.ParsesNumbers` | Olymp.Site/Services/Contests/CompetitorManagementService.cs:72-72 | an optional sign and digits between spaces parse to their value if it fits 32 bits, otherwise to nothing |
| `Decimal.ParsesOnlyNumbers` | Olymp.Site/Services/Contests/CompetitorManagementService.cs:72-72 | nothing else parses |
| `Decimal.ValueOfPadded` | Olymp.Site/Services/Contests/CompetitorManagementService.cs:317-318 | padded numbers keep their value, so generated names are distinct |
| `Decimal.PaddedLength` | Olymp.Site/Services/Contests/CompetitorManagementService.cs:317-318 | padding to three digits and no further |
| `Linq.OrderByIsStable` | Olymp.Domain/Standing.cs:79-80 | sorting keeps the order of elements that compare equal |

## Left out

- EditDistances.LevenshteinDistance: costs and cells are integers and ratios are exact; the rounding of the float division in the two similarities is not modelled, because only the values of the distance itself stay within a float's exact integers.
- CheckerService.Check: score sums are unbounded, while the program's 32-bit sum overflows with an exception; a throwing compilation is the same failure as an unknown checker; consumed time and memory only go to the log and are not modelled.
- ProblemImport.ScoreTests: scores are unbounded integers.
- JudgingStore.Store.RunCheck: a check's time and memory limits are part of what the runner answers; requests hold only tests and the choice to run all of them.
- JudgingSafety.RunKeepsInv: the desktop manager sets the status of selected submissions to zero without clearing their scores and without taking the gate (Olymp.Manager/MainWindow.xaml.cs:242-246); the steps of the queue are those of the site, so the invariant assumes that no such writer is at work.
- Process restarts with checks in flight, which leave status 1 without a check until the claim is stale, and updates of only the changed columns of a row.
- Registering runners, the tables of compilers, and generating the archive of tests: easy members without deep invariants.
- CompilerLoading.Described: how a configuration recognises its version in the command's output is a parameter; logs are not modelled.
- SelfTests.SelfTestService.RunSelfTests: the texts of outputs, and the semaphore that is taken for each test.
- MuseumChecker.Check: integers are parsed with the signs of the invariant culture.
- TextCheckers.StrictCheck: characters are Unicode scalar values instead of UTF-16 units.
- Standing.StandingIsRanked: summed times are exact integers instead of doubles of milliseconds; the export for the browser is not modelled.
- AntiCheatReport.Compare: cancellation, and the report of machine-written code.
- Logins.AssignLogins: passwords, claims and the uniqueness of usernames across contests, which the identity store decides; removing logins.
- Registration.CompetitorService.RegisterTeamOf: the clock is read once per operation; importing names and approving participants.
- Access rules, pages, mail, transport and process control.
