# Verified model of the code-review pipeline

A Dafny model of the parts of the review pipeline whose behaviour is easy to get wrong, with
proofs of what they promise:

- **Repairing syntax errors** (`Text`, `SyntaxRepair`, `Reindenting`, `RepairMeaning`, `Collector`,
  `CollectorMeaning`). A file that does not parse is repaired line by line. The parser is an arbitrary
  function from texts to "parses" or an error with a line and a message, so every result holds for
  every parser.
- **Patching a file** (`Findings`, `Lists`, `Patcher`, `PatchProperties`, `PatchMeaning`). Fixes of
  several findings are grouped by overlap, and those that meet no other one are put into the file from
  the bottom up.
- **Both together** (`EndToEnd`, `ReplayFailures`). What applying all findings of a broken file
  produces, compared with the text that the parser accepted during the review.
- **The circuit breaker and what feeds it** (`CircuitBreaker`, `BreakerRuns`, `BreakerTrips`,
  `LlmCalls`, `AgentStreams`). Three states over a bounded window of outcomes and a clock; one answer
  of the model can record two outcomes.
- **Claims on commits** (`IdempotencyStore`, `ClaimProtocol`, `ReviewTask`). Any number of tasks in
  any interleaving claim, review, release, retry, fail late, crash, and see claims expire.
- **Chunking, risk scores, inline comments, grounding** (`Chunker`, `ChunkContents`, `RiskScore`,
  `Comments`, `Grounding`).

The clock, the parser, the model provider and the outcome of a review are parameters. Code that
updates variables, lists or fields is a method with loops, or a class; its contract ties it to a
predicate or a function that does not follow its steps, and the lemmas are about those. The modules
whose names end in `Meaning`, and `ChunkContents`, say what these predicates and functions mean in
terms of characters, columns and line numbers alone.

Some results say where the code does not do what its documentation suggests, each with the exact
condition:

- Replaying a reindenting fix gives the lines that the parser accepted if and only if its span holds
  none of the lines repaired before it and does not end in an empty line
  (`EndToEnd.PatchIsAcceptedExactlyWhen`): joining lines and splitting them again loses one empty line
  at the end. `ReplayFailures` has a file for each of the two failures. This is about lines: patching
  puts a newline at the end of the file back that the parser has not seen. Reviewing the patched file
  finds nothing any more, for every parser, when an empty last line is dropped both times or not at
  all (`EndToEnd.SecondReviewFindsNothing`); that the parser accepts the patched text itself needs a
  file without that newline, or a parser that does not mind it (`EndToEnd.PatchParses`).
- An answer that cannot be parsed closes a half-open circuit instead of opening it again
  (`BreakerTrips.UselessTrialCloses`), because the call itself records a success first.
- A closed circuit can be above its failure limit, because only failures look at the rate: it gets
  there if and only if a success completes the minimum of calls and the failures before it are enough
  (`BreakerRuns.RisesAboveExactlyWhen`), and `BreakerRuns.CanBeAboveExactlyWhen` says for which
  configurations. The defaults are among them (`BreakerRuns.ClosedAfterSuccessMayBeAbove`).
- A model that always answers and never usefully is cut off if and only if half of a window, rounded
  up, reaches the limit (`BreakerTrips.UselessAnswersTripExactlyWhen`, and over whole agent runs
  `LlmCalls.UselessRunsTripExactlyWhen`); a threshold of one half always does.
- A review that returns but fails in a later step is not done again: its retry is skipped
  (`ReviewTask.LateFailureIsNotRetried`).
- Reviews of a commit exclude each other throughout a run if and only if no task claims a key that
  another one has held for the time to live (`ClaimProtocol.ExclusionHoldsExactlyWhen`). Once that
  has happened, the release of one review lets further ones in
  (`ClaimProtocol.ReleaseLetsThirdClaimIn`).
- The claim does not name the file, while each file of a commit has a task of its own. At most one
  of these tasks completes (`ClaimProtocol.OnlyOneCompletes`); in a run without failures every task
  of a commit reviews its file if and only if there is no second one
  (`ClaimProtocol.EveryFileIsReviewedExactlyWhen`, with a run in `ClaimProtocol.SecondFileIsSkipped`).
- A job whose worker dies is delivered again, but the claim of that worker stays, so as long as it
  does not expire the job is skipped and no review of the commit succeeds
  (`ClaimProtocol.CrashLosesCommit`, with a run in `ClaimProtocol.RedeliveryIsSkipped`).
- A breaker can open at all if and only if its minimum of calls fits in its window and its threshold
  is at most one (`BreakerTrips.CanOpenExactlyWhen`).
- A finding without a fix gets no comment of its own when one with a fix ends at the same line
  (`Comments.FindingIsCommentedExactlyWhen`).
- A review can have a lower risk when one of its findings is critical instead of not, the number of
  findings being the same (`RiskScore.CriticalLowersRiskExactlyWhen`).

Run `dafny verify dfyconfig.toml` to verify the project.

## Model

| member | source | states |
|---|---|---|
| Text.SplitJoin | src/core/orchestrator.py:496-499 | splitting joined lines gives the lines back, except that one empty last line is lost |
| Text.SplitTerminated | src/cli/review_pr.py:324-326 | with a newline after the last line nothing is lost |
| Text.BlankCodes | src/cli/review_pr.py:293 | the codes of the characters that end a line, and of those that are blank |
| Text.SplitJoinWith | src/cli/review_pr.py:293 | whatever the line ends of a file are, carriage return and newline included, splitting it gives its lines, except one empty last line |
| Patcher.GroupOverlapping | src/cli/review_pr.py:295-305 | the sweep cuts the sorted findings into groups, each linked by overlaps, different groups entirely apart |
| Patcher.SingletonsAreAlone | src/cli/review_pr.py:298-313 | a finding is in a group of one if and only if it occurs once and its closed line range meets no other fixable finding's range |
| Patcher.SplitGroups | src/cli/review_pr.py:307-313 | exactly the findings that meet no other one are kept, all others are conflicts, none is lost |
| Patcher.SpliceIsRewrite | src/cli/review_pr.py:316-322 | one slice assignment above all earlier ones keeps the list equal to simultaneous substitution against the original line numbers |
| Patcher.BoundsStayExact | src/cli/review_pr.py:318-320 | the bounds test on the list that has already changed accepts exactly the spans in range in the original file |
| Patcher.SpliceBottomUp | src/cli/review_pr.py:315-322 | the applied findings are those in range, from the bottom up, and the lines are the simultaneous substitution of their fixes |
| Patcher.ApplyFixes | src/cli/review_pr.py:270-328 | the patched text is the simultaneous substitution of the fixes of all findings that meet no other and are in range; applied plus not applied is a permutation of the findings |
| PatchMeaning.AppliedExactlyWhen | src/cli/review_pr.py:290-322 | a finding is applied if and only if it has a fix with text or is a deletion, occurs once, lies within the file, and no other such finding has one of its lines |
| PatchMeaning.FixReplacesItsLines | src/cli/review_pr.py:316-322 | the lines of an applied finding are replaced by those of its fix, those above and below are what the other fixes make of them |
| PatchMeaning.DeletionTakesItsLines | src/core/models.py:88-90 | a deletion that stands alone is applied, and exactly its lines are gone |
| PatchMeaning.PatchOfOne | src/cli/review_pr.py:316-328 | the text of a file after its only finding has been applied |
| PatchMeaning.PatchKeepsNewline | src/cli/review_pr.py:324-326 | the patched file ends in a newline if and only if the file does, or the patched lines end in an empty one |
| PatchProperties.OrderDoesNotMatter | src/cli/review_pr.py:290-328 | patched text and applied list are the same for every order of the findings |
| PatchProperties.LengthChange | src/cli/review_pr.py:316-322 | the number of lines changes by the lines of each applied fix minus the size of its span |
| PatchProperties.SurvivorsKeepOrder | src/cli/review_pr.py:316-322 | every line outside the applied spans survives, once and in the original order |
| PatchProperties.RewriteIsOverlay | src/cli/review_pr.py:316-322 | when every fix has as many lines as its span, patching overwrites the spans and nothing else |
| SyntaxRepair.ForwardBoundIsLongest | src/core/orchestrator.py:235-246 | the forward bound is the longest run without a dedent below the header or a boundary at the first line's indent |
| SyntaxRepair.FindForwardBound | src/core/orchestrator.py:235-246 | the loop finds that run, at most 50 lines further |
| SyntaxRepair.ShiftInPlace | src/core/orchestrator.py:259-262 | every line with text in the span, and no other, gets the same spaces in front |
| SyntaxRepair.AlignInPlace | src/core/orchestrator.py:351-364 | every line with text in the span moves by the same offset, or the underflow of one is reported |
| SyntaxRepair.LargestShift | src/core/orchestrator.py:258-280 | no larger span parses than the one returned |
| SyntaxRepair.MissingIndentFix | src/core/orchestrator.py:201-280 | the largest span within the forward bound that the parser accepts one level below the header, or nothing when none is accepted |
| SyntaxRepair.CollectLevels | src/core/orchestrator.py:318-323 | the candidate levels are 0, one step deeper, and all indents used above, without the line's own |
| SyntaxRepair.SortLevels | src/core/orchestrator.py:322-325 | all candidates, by distance and then by level |
| SyntaxRepair.LargestSpan | src/core/orchestrator.py:350-380 | at one level, every larger span underflows or is rejected |
| SyntaxRepair.MisalignedIndentFix | src/core/orchestrator.py:289-382 | the first level in trial order, with its largest span, that the parser accepts; nothing only when every pair of level and span fails |
| SyntaxRepair.FindRunAbove | src/core/orchestrator.py:417-431 | the maximal run at one indent directly above the error line, blank lines in between skipped; none only when there is no such run |
| SyntaxRepair.RunFits | src/core/orchestrator.py:433-440 | the return for a negative indent in the backward repair is never reached |
| SyntaxRepair.MisalignedIndentBackwardFix | src/core/orchestrator.py:385-456 | the run above moves to the error line's column if it is deeper and the parser accepts the result, otherwise nothing |
| SyntaxRepair.SyntaxErrorFix | src/core/orchestrator.py:459-488 | the colon repair with high confidence, otherwise the first of the three reindenting repairs that succeeds, with medium confidence |
| RepairMeaning.BoundaryMeans | src/core/orchestrator.py:174-198 | a boundary line starts, after its blanks, with one of the words def, class, return, break, continue, raise, with async def, or with @ |
| RepairMeaning.WordCharCodes | src/core/orchestrator.py:174-175 | the codes of the characters that belong to a word |
| RepairMeaning.BoundMeans | src/core/orchestrator.py:235-246 | the forward bound is the last line a span may reach: at most 50 further, with no line with text left of the header and no boundary line at the column of the first line |
| RepairMeaning.IndentFixMeans | src/core/orchestrator.py:201-280 | in columns and lines: the longest span that may be reached and that the parser takes, moved to four columns right of the header; none only if no span is taken |
| RepairMeaning.MisalignedFixMeans | src/core/orchestrator.py:289-382 | in columns and lines: the longest span the parser takes at the first target, the nearest one before the others and of two equally near ones the left; every span is refused at all targets before it |
| RepairMeaning.BackwardFixMeans | src/core/orchestrator.py:385-456 | in columns and lines: the block of lines at one column above the error line moves left to it; none only if that block is not deeper or the parser refuses |
| RepairMeaning.SyntaxFixMeans | src/core/orchestrator.py:459-488 | the lines above are moved only if the line itself can be moved nowhere; no repair only if all three ways are closed |
| Reindenting.ReindentIsSafe | src/core/orchestrator.py:258-268 | every reindenting repair changes only leading blanks of lines with text in its span, by one common offset, starts at the column it names, and is accepted by the parser |
| Reindenting.NestingIsKept | src/core/orchestrator.py:350-370 | stripped text and relative nesting of the moved lines are kept |
| Collector.ColonRepairsLine | src/core/orchestrator.py:160-169 | a colon repair is the reported line without blanks at its end plus a colon, on a line without a comment sign and without a colon at its end |
| Collector.CollectSyntaxErrors | src/core/orchestrator.py:494-534 | the findings are the colon repairs of the errors the parser reports one after the other, then at most one finding that is a guess or has no fix |
| CollectorMeaning.ColonFixMeans | src/core/orchestrator.py:160-169 | there is a colon repair if and only if the parser misses a colon and the line it names has no comment sign and no colon before its trailing blanks |
| CollectorMeaning.ColonFindingMeans | src/core/orchestrator.py:498-532 | every field of a colon finding, in terms of the text that the parser saw |
| CollectorMeaning.LastFindingMeans | src/core/orchestrator.py:505-531 | a run ends on an error only if no colon is lacking there, and every field of its last finding: on line 1 if the parser names no line |
| Collector.ChainRepairsOriginal | src/core/orchestrator.py:498-532 | the colon repairs hit pairwise different lines, each is the repair of a line of the original file, and the working copy is the original with just these lines replaced |
| Collector.ChainClosesLines | src/core/orchestrator.py:498-532 | each repair lowers the number of lines that do not end in a colon by one |
| Collector.CapIsOnlyASafetyNet | src/core/orchestrator.py:491-498 | the loop ends without the cap: it is never reached when it exceeds the number of lines |
| Collector.OnlyTheLastIsAGuess | src/core/orchestrator.py:527-531 | only the last finding can have less than high confidence |
| EndToEnd.PatchIsWorkingCopy | src/core/orchestrator.py:498-534 | if the collector does not end on a guess, the patched file is its working copy; if it ended because that parses, every finding is applied |
| EndToEnd.PatchIsAcceptedExactlyWhen | src/cli/review_pr.py:290-328 | if it ends on a guess, the patched file has the lines the parser accepted if and only if the span of the guess misses the repaired lines and does not end in an empty line; nothing is left over if and only if it misses them |
| EndToEnd.PatchParses | src/cli/review_pr.py:324-328 | the parser accepts the patched text itself, if the file does not end in a newline or the parser does not mind one, and, after a guess, if the last line is not empty |
| EndToEnd.SecondReviewFindsNothing | src/core/orchestrator.py:498-534 | for every parser: reviewing the patched file has no findings, if the working copy parsed or the guess replays, and an empty last line is dropped both times or not at all |
| ReplayFailures.EmptyLineIsLost | src/core/orchestrator.py:238-240 | a file on which the span ends in an empty line, and no patch gives the accepted lines |
| ReplayFailures.RepairedLineConflicts | src/core/orchestrator.py:498-534 | a file on which the span holds a repaired line, and every patch leaves a finding out |
| EndToEnd.ReviewAndApply | src/cli/review_pr.py:155-163 | all of this for one call after the other |
| CircuitBreaker.CircuitBreaker.constructor | src/core/circuit_breaker.py:61-76 | a new breaker is closed with an empty window |
| CircuitBreaker.CircuitBreaker.AllowRequest | src/core/circuit_breaker.py:82-90 | answer and new state are one step of the machine |
| CircuitBreaker.CircuitBreaker.RecordSuccess | src/core/circuit_breaker.py:92-96 | the new state is one step of the machine |
| CircuitBreaker.CircuitBreaker.RecordFailure | src/core/circuit_breaker.py:98-106 | the new state is one step of the machine |
| CircuitBreaker.CircuitBreaker.OpenCircuit | src/core/circuit_breaker.py:108-111 | open since now, with an empty window |
| CircuitBreaker.CircuitBreaker.Reset | src/core/circuit_breaker.py:114-122 | back to the state of a new breaker |
| BreakerRuns.WindowIsRecentHistory | src/core/circuit_breaker.py:70-112 | in every run the window is the end of all outcomes since the last clear, and the circuit opens exactly when the latest of them are enough and failed too often |
| BreakerRuns.RisesAboveExactlyWhen | src/core/circuit_breaker.py:92-106 | a closed circuit gets above its failure limit if and only if a success completes the minimum of calls and the failures before it reach the limit |
| BreakerRuns.CanBeAboveExactlyWhen | src/core/circuit_breaker.py:41-43 | some run of a fresh breaker gets it there if and only if one call less than the minimum can hold enough failures |
| BreakerRuns.ClosedAfterSuccessMayBeAbove | src/core/circuit_breaker.py:92-96 | such a run of the default breaker: four failures and a success |
| BreakerRuns.AfterOpening | src/core/circuit_breaker.py:82-112 | after an opening the opening time only moves on and the open state is not left before the cooldown is over |
| BreakerRuns.CooldownIsRespected | src/core/circuit_breaker.py:82-90 | no request is admitted within the cooldown after any opening |
| BreakerRuns.RefusedExactlyWhen | src/core/circuit_breaker.py:82-90 | in every run with a clock that does not go back, a request is refused if and only if some opening is less than a cooldown ago |
| BreakerRuns.StateExactlyWhen | src/core/circuit_breaker.py:82-112 | when the circuit is open, half-open or closed after an event; in particular every request passes a half-open one and a failure opens it again |
| BreakerRuns.DefaultsMean | src/core/circuit_breaker.py:61-76 | the default breaker opens with the fifth failure in a row, for a minute |
| BreakerRuns.OpeningTimeMovesForward | src/core/circuit_breaker.py:98-112 | late failures only move the opening time forward |
| BreakerRuns.ProbesAreApart | src/core/circuit_breaker.py:85-90 | two steps from open to half-open are at least one cooldown apart |
| BreakerRuns.ProbesAreRare | src/core/circuit_breaker.py:85-90 | in a time T there are at most 1 + T / cooldown of them |
| BreakerRuns.ClosesOnlyFromHalfOpen | src/core/circuit_breaker.py:92-96 | the circuit closes only by a success in the half-open state, with an empty window |
| BreakerTrips.FailuresTrip | src/core/circuit_breaker.py:98-112 | from every state but half-open, max(min_calls, ceil(threshold * window)) failures in a row open the circuit, if min_calls is at most the window and the threshold at most one |
| BreakerTrips.CanOpenExactlyWhen | src/core/circuit_breaker.py:98-112 | some run opens a fresh breaker if and only if these two conditions hold |
| BreakerTrips.SuccessesDelayTrip | src/core/circuit_breaker.py:98-106 | under the same conditions, with a full window of successes no smaller number than threshold * window does |
| BreakerTrips.DefaultsAfterSuccesses | src/core/circuit_breaker.py:61-76 | after ten successes, too, five failures open the default breaker and four do not |
| BreakerTrips.UselessAnswersTrip | src/agents/_llm_finding_agent.py:80-85 | if half a window, rounded up, reaches the failure limit, so many answers that cannot be parsed open every closed circuit |
| BreakerTrips.UselessAnswersNeverTrip | src/agents/_llm_finding_agent.py:80-85 | if it does not, no number of them opens a fresh one |
| BreakerTrips.UselessAnswersTripExactlyWhen | src/core/circuit_breaker.py:98-106 | for every window size and threshold: half a window of them, or more, opens a fresh circuit if and only if half a window reaches the limit |
| BreakerTrips.HalfIsTight | src/core/circuit_breaker.py:41-43 | the default threshold of one half is always low enough for that, and for an even window no larger one is |
| BreakerTrips.UselessTrialCloses | src/core/circuit_breaker.py:92-106 | an answer to the trial request that cannot be parsed closes the circuit, with one failure on record |
| LlmCalls.CallLlm | src/agents/llm_client.py:51-96 | the cache comes before the breaker, the breaker before the call; a call records one outcome, and only an answer is cached |
| LlmCalls.RunFindingAgent | src/agents/_llm_finding_agent.py:37-88 | the outcomes recorded by one run of an agent, in order, with its result and the cache |
| AgentStreams.CallCounts | src/agents/llm_client.py:81-91 | a call to a closed breaker that raises counts as a failure, one that answers as a success |
| AgentStreams.OutageTrips | src/agents/llm_client.py:84-90 | agent runs whose calls all raise open a closed circuit as soon as a row of failures of that length would |
| AgentStreams.UsefulRunsNeverTrip | src/agents/_llm_finding_agent.py:80-85 | agent runs whose answers all parse, fresh or cached, never open the circuit |
| LlmCalls.UselessRunsEvents | src/agents/_llm_finding_agent.py:65-85 | until the circuit opens, agent runs with fresh prompts and answers that cannot be parsed are admitted and record an admission, a success and a failure each |
| LlmCalls.UselessRunsTrip | src/agents/_llm_finding_agent.py:80-85 | half a window of such runs, rounded up, opens a closed circuit if so many failures reach the limit |
| LlmCalls.UselessRunsTripExactlyWhen | src/agents/_llm_finding_agent.py:80-85 | and a fresh one only then |
| LlmCalls.RepeatedUselessAnswerTrips | src/agents/llm_client.py:68-73 | such an answer served again from the cache counts as a failure alone, so repetitions open the circuit without any call |
| AgentStreams.RepeatedPromptTrips | src/agents/llm_client.py:68-96 | one prompt that is answered uselessly opens the circuit with a single call, because the cached answer counts as a failure each time |
| IdempotencyStore.IdempotencyStore.TryMarkProcessed | src/storage/idempotency_store.py:45-54 | claims exactly when the key is absent or expired, in one step |
| IdempotencyStore.IdempotencyStore.Release | src/storage/idempotency_store.py:56-60 | removes this key and no other |
| IdempotencyStore.ClaimLastsAWeek | src/storage/idempotency_store.py:33 | by default a claim lasts for a week |
| ClaimProtocol.ClaimsAreExact | src/worker/tasks.py:68-83 | without expiry, in every interleaving: one review at a time per commit, at most one success, no two tasks of a commit done, and a key is free exactly when nobody reviews, has succeeded, or has died holding it |
| ClaimProtocol.GivenUpExactlyWhen | src/worker/tasks.py:136-143 | a task is given up if and only if it has failed four times, and is queued again after each failure before that |
| ClaimProtocol.NobodyIsStuck | src/worker/tasks.py:59-120 | every task that is not at its end can go on, and its worker can die whenever it is at work |
| ClaimProtocol.RetriesAreBounded | src/worker/tasks.py:136-143 | no task is retried more than three times |
| ClaimProtocol.CrashLosesCommit | src/worker/celery_app.py:27-30 | after a worker has died holding a commit, and as long as nothing expires, nobody holds it, no review of it succeeds, and every claim on it is skipped |
| ClaimProtocol.RedeliveryIsSkipped | src/worker/celery_app.py:27-30 | a run in which the job that is delivered again is skipped |
| ClaimProtocol.OnlyOneCompletes | src/api/webhook.py:70-79 | of all tasks of a commit at most one completes, so all of them only if there is one |
| ClaimProtocol.EveryFileIsReviewedExactlyWhen | src/api/webhook.py:70-79 | in a run without failures in which all tasks of a commit have finished, all of them have reviewed their file if and only if there is no second one |
| ClaimProtocol.SecondFileIsSkipped | src/worker/tasks.py:68-75 | a run in which the task for the second file is skipped |
| ClaimProtocol.ExclusionHoldsExactlyWhen | src/storage/idempotency_store.py:45-60 | with expiry, in every run: at every point at most one review per commit, if and only if no task claims a key that another one has held for the time to live |
| ClaimProtocol.ShortReviewsExclude | src/storage/idempotency_store.py:45-60 | this holds in every run whose reviews are shorter than the time to live |
| ClaimProtocol.ClaimBreaksExactlyWhen | src/storage/idempotency_store.py:45-54 | the step of it: a claim breaks mutual exclusion if and only if another task has held the key for the time to live |
| ClaimProtocol.LongReviewsOverlap | src/storage/idempotency_store.py:33-54 | a run in which that happens |
| ClaimProtocol.ReleaseFreesOthersClaim | src/storage/idempotency_store.py:56-60 | a release frees the key even when another task holds it |
| ClaimProtocol.ReleaseLetsThirdClaimIn | src/storage/idempotency_store.py:56-60 | a run in which that happens and the next claim joins the review that goes on |
| ClaimProtocol.SuccessesAreSpaced | src/worker/tasks.py:68-83 | with expiry, as long as reviews exclude each other, the claims of two successful reviews of a commit are at least a time to live apart |
| ReviewTask.ExecuteReview | src/worker/tasks.py:59-120 | outcome and claims after one attempt |
| ReviewTask.ReviewCommitTask | src/worker/tasks.py:136-161 | failed attempts are followed by the next one, four in all |
| ReviewTask.LateFailureIsNotRetried | src/worker/tasks.py:77-120 | a raising review is done again; the first one that returns keeps the claim, and if a later step fails the retry is skipped |
| ReviewTask.AttemptFollowsProtocol | src/worker/tasks.py:59-120 | an attempt is a run of the protocol with the same claims and outcome |
| Chunker.ChunkByWindow | src/ingestion/chunker.py:102-117 | the chunks are those of all windows that have text |
| Chunker.LinesInOneOrTwoWindows | src/ingestion/chunker.py:102-117 | every line with text is in one window chunk, or in two exactly when it is in an overlap |
| Chunker.UncoveredRanges | src/ingestion/chunker.py:87-99 | the maximal runs of uncovered lines, ascending and apart, all of them |
| Chunker.GapsAreUnique | src/ingestion/chunker.py:87-99 | this determines the result |
| Chunker.ChunkByDefinitions | src/ingestion/chunker.py:46-84 | one chunk for each definition and each gap with text, sorted by start line |
| Chunker.ChunksAreUnique | src/ingestion/chunker.py:46-84 | the file and its definitions determine these chunks and their order |
| Chunker.LinesInOneChunk | src/ingestion/chunker.py:46-84 | every line with text is in exactly one chunk of a parsed file |
| Chunker.ChunkFile | src/ingestion/chunker.py:33-43 | no line with text is dropped, whatever the file |
| ChunkContents.ParsedFileSays | src/ingestion/chunker.py:46-84 | each function and class has a chunk with all of its lines under its name; the others hold the text between them without blanks around; all in the order of their lines |
| ChunkContents.WindowedFileSays | src/ingestion/chunker.py:102-117 | each window holds the text of its 60 lines, starting at line 1, 51, 101 and so on |
| ChunkContents.EndsWithPyMeans | src/ingestion/chunker.py:37 | which files are parsed |
| RiskScore.ReviewRisk | src/core/risk_scorer.py:49-58 | between 0 and 100, and at least 30 for a review that did not complete |
| RiskScore.ExtremeRisks | src/core/risk_scorer.py:49-58 | which reviews have no risk, and which have the full one |
| RiskScore.OneMoreFinding | src/core/risk_scorer.py:54-58 | what one more finding that is not critical adds |
| RiskScore.NoOtherFindings | src/core/risk_scorer.py:55-57 | a count of findings below that of critical ones counts as equal to it |
| RiskScore.CriticalLowersRiskExactlyWhen | src/core/risk_scorer.py:54-58 | when one more critical finding lowers the risk |
| RiskScore.ScoreBetween | src/core/risk_scorer.py:35-39 | the score lies between the least and the greatest review risk, and in 0..100 |
| RiskScore.RecentReviewsWeighMost | src/core/risk_scorer.py:35-39 | among all orders of the same reviews it is greatest with the worst first and least with the worst last |
| RiskScore.TrendExactlyWhen | src/core/risk_scorer.py:61-78 | in integers: the trend is improving if and only if the recent half averages more than 5 below the older one, worsening if and only if more than 5 above |
| Comments.PostFixSuggestions | src/cli/review_pr.py:331-386 | posts one comment for each finding with a fix at a place that had none, and returns their number |
| Comments.PostNoFixComments | src/cli/review_pr.py:389-430 | the same for findings without a fix |
| Comments.EveryPlaceIsCommented | src/cli/review_pr.py:347-430 | after both passes every finding's place has a comment, and both passes again post nothing |
| Comments.FindingIsCommentedExactlyWhen | src/cli/review_pr.py:382-430 | a finding has its own comment after both passes if and only if it had it before, or its place was free and it has a fix or no finding with a fix ends there |
| Comments.FindingIsSwallowed | src/cli/review_pr.py:406-416 | a finding without a fix that ends where one with a fix does gets none |
| Comments.SamePlaceTwice | src/cli/review_pr.py:347-386 | two findings with a fix that end at one place get a comment each |
| Comments.OnlyPendingIsPosted | src/cli/review_pr.py:352-357 | a posted comment belongs to a finding of the right kind at a place without one |
| Comments.PostedCommentsSay | src/cli/review_pr.py:358-428 | what a posted comment says: where it stands, and whether it deletes, replaces or only remarks |
| Grounding.WordsOfStripped | src/core/grounding.py:43-53 | blanks around a text do not matter to its normal form |
| Grounding.OwnLineIsGrounded | src/core/grounding.py:35-53 | a finding that quotes its own stripped line is grounded |
| Grounding.GroundedExactlyWhen | src/core/grounding.py:35-53 | a finding is grounded if and only if it quotes nothing or its quotation, with single spaces, occurs within two lines of its own |
| Grounding.WordsOfGlued | src/core/grounding.py:43-53 | splitting gives exactly the words of a text, however they are spaced |
| Grounding.SpacedIsJoined | src/core/grounding.py:43-53 | the normal form has one space between the words and none around |
| Grounding.NormalForm | src/core/grounding.py:43-53 | and the same words |
| Grounding.ColonFindingIsGrounded | src/core/orchestrator.py:505-509 | every colon repair of the collector is grounded in the file as it was given |

## Left out

- The Python grammar: the parser is an arbitrary function; line numbers are not negative, and 0
  stands for an error without a line. Errors of the parser other than syntax errors are not modelled.
- Recognising the parser's messages by their text: the message kinds are a datatype, with the header
  line that the message names.
- `\b` after a keyword in the boundary patterns: only ASCII letters, digits and the underscore count
  as parts of a word.
- `severity`, `category`, `message` and `source` of a finding, and the wording of reasons and comments;
  two findings that differ in nothing else have the same comment.
- Rounding of scores and rates: they are exact reals; the score is taken before `round`.
- The listing of comments is complete: the first page that GitHub returns is not told apart.
- Celery, Redis and the publishing steps: a job that is delivered again after its worker died is a new
  task in the model, and otherwise only the atomic key operations, the retry count and whether
  a later step raises are kept; `src/worker/tasks.py` metrics, audit log and history are not modelled.
- The transport retries of `src/core/backoff.py` inside one call of the model: a call answers or raises.
- Choosing a model, the token budget and the provider clients of `src/agents/llm_client.py`.
- `_to_findings` and the JSON salvage of `src/agents/_llm_finding_agent.py`: whether an answer parses
  is an arbitrary predicate on its text.
- Configurations of the breaker with a window of size 0 and no minimum of calls, for which the source
  divides by zero.
- `is_valid_fix` of `src/core/grounding.py`: it only asks the parser.
- The checkers in `src/analyzers/`, the embeddings, the dashboards and all other clients.
- Chunker.ChunkByDefinitions: the parser's definitions are taken to be disjoint and in range of the
  lines that `splitlines` finds, which form feeds inside a file can break.
