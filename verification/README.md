# Verified models of lynox scripts

This project models the self-contained algorithms and state machines in lynox's
scripts and command line, and proves what they are for. Each module follows one
source file or one function:

| module | what it models |
|---|---|
| `EditDistance` | the two-row edit distance and the word error rate built on it |
| `DagPhases` | the phase layout of a pipeline |
| `WordWrap` | greedy line filling |
| `GreedyMatching` | first-fit one-to-one assignment, the loop shared by the next two |
| `CountMatched` | how many wanted entity names were found |
| `CaseScoring` | entity and relation scores of one extraction case |
| `Grouping` | grouping by a key with an insertion-ordered map, shared by the next two |
| `MeasureBatch` | one measurement pass over scenarios and threads |
| `Report` | benchmark runs aggregated into rows |
| `Percentile` | linear-interpolation percentiles |
| `Pareto` | the frontier of cost against pass rate |
| `Sse` | the incremental reader of server-sent events (sections 9.2.5 and 9.2.6 of the WHATWG HTML Standard) |
| `AgentLoop` | the benchmark's agent loop with retries, counters and deadline |
| `Crc32` | CRC-32 and the chunk layout (sections 3.4 and 3.2 of RFC 2083) |
| `ProcessTree` | which processes of the process table are somebody else's run |
| `TmpSweep` | the removal of stale caches from the temp directory |
| `Lists`, `Text`, `Wrappers` | choosing and sorting entries, whitespace, joining lines, Option and Result |

`dafny verify dfyconfig.toml` verifies everything.

Loops of the source are Dafny methods with loop invariants, tied to a specification
function or predicate; the theorems are lemmas about that specification. Nothing was
executed. What the outside world does is a parameter and arbitrary: the tokenizer and
the name normalizer, the engine's answers (`MeasureBatch.Engine`), the provider's
replies, the clock, the tools and which of them throw (`AgentLoop.Env`), the text of an error event
(`Sse.ErrorText`), the classification of commands and error messages, and which
removals fail (`TmpSweep`). A tool's answer is a function of all earlier calls, which
stands for the mock state the tools keep.

Where the code and its comments differ, the model follows the code:

- `scripts/set-bench/types.ts:172-176` says that missing cache rates default to 10 %
  and 125 % of the input rate; `computeCosts` falls back to the input rate itself, so
  such a cell has warm cost equal to cold cost (`AgentLoop.NoCacheRates`).
- `scripts/set-bench/run-cell.ts:15-17` describes the answer handed to the pass check as
  the final one; at the iteration cap any non-empty text of the last response is handed
  over, even when that response still asked for tools.
- `scripts/agent-efficiency/engine-client.ts:305` says that comments and blank frames
  give undefined; so does a frame with an event name and no data line. The standard
  removes one space after the colon, the code all leading whitespace.
- `scripts/vitest-tmp-cleanup.ts:143` speaks of this process and its descendants; its
  ancestors count as ours as well.

Properties that turn out false of the code are recorded with a concrete input and the
exact condition under which they hold:

- The outcome of a stream does not depend on its chunking: fails for a `done` followed by
  an `error` event (`Sse.DoneThenError`), holds exactly when all terminal frames agree
  (`Sse.ChunkingIrrelevantIffTerminalsAgree`).
- The steps left out are those that are stuck: fails for a repeated id
  (`DagPhases.DuplicateIdHidesStuckStep`), holds for all steps with given ids exactly when
  the ids are distinct (`DagPhases.LeftOutMeansStuckIffDistinct`).
- Joining the wrapped lines gives the joined words: fails for one word and a space
  (`WordWrap.SpaceKept`), holds exactly unless the text ends in whitespace and the last
  line has room for it (`WordWrap.WrapKeepsWordsIff`).
- The count of found names is the best possible: fails for the names `a` and `b`
  and the entries `a b` and `a` (`CountMatched.GreedyCanMiss`), holds for the lists and whatever is dropped from them
  exactly when no name that two entries could serve stands before one that only the first
  of them could (`CountMatched.CountIsBestIffNoTrap`). Dropping entries is part of the
  claim because on one list alone a trapped name can still be served by an entry that
  nobody else wants.
- Entity scores do not depend on the order of the expected list: fails for two expected
  entities of one name (`CaseScoring.EntityOrderMatters`), holds whichever entities are
  listed exactly when sharing is nested and the types are settled
  (`CaseScoring.OrderIrrelevantIffSettled`).
- The own process is never reported: fails for a runner with process id 1
  (`ProcessTree.RootReportsItself`), holds exactly unless the id is 0 or 1 and a runner's
  (`ProcessTree.SelfReportedOnlyAtRoot`).
- The bound of 64 hops does not matter: fails for a chain of 65 processes or more
  (`ProcessTree.FarAncestorReported`), holds for a walk exactly when it ends or comes back
  within 64 hops (`ProcessTree.BoundIsHarmlessIffSettled`).

## Model

| member | source | states |
|---|---|---|
| EditDistance.Levenshtein | scripts/bench-transcribe.ts:60-74 | the two-row loop returns the length of a shortest script of single insertions, deletions and substitutions |
| EditDistance.FillTable | scripts/bench-transcribe.ts:61-73 | the loops compute the last cell of any table with the edit-distance borders and recurrence |
| EditDistance.DistIsEditDistance | scripts/bench-transcribe.ts:60-74 | some script of exactly the computed length turns one sequence into the other, and no script is shorter |
| EditDistance.NoShorterScript | scripts/bench-transcribe.ts:60-74 | every script that turns a into b has at least the computed length |
| EditDistance.DistZero | scripts/bench-transcribe.ts:60-74 | the distance is zero exactly for equal sequences |
| EditDistance.DistSymmetric | scripts/bench-transcribe.ts:60-74 | the distance is symmetric |
| EditDistance.DistTriangle | scripts/bench-transcribe.ts:60-74 | triangle inequality |
| EditDistance.DistBounds | scripts/bench-transcribe.ts:60-74 | the distance lies between the difference of the lengths and the larger length |
| EditDistance.WordErrorRateMeaning | scripts/bench-transcribe.ts:76-80 | the rate is zero exactly for identical words, and passes 1 only when the transcript is longer than a non-empty reference |
| EditDistance.EditsPerWord | scripts/bench-transcribe.ts:76-80 | the rate times the number of reference words is the distance; any words against none rate 1 |
| DagPhases.DagVisualizer.constructor | src/cli/dag-visualizer.ts:40-49 | every step id starts pending and the phases are a complete run of the rounds |
| DagPhases.DagVisualizer.ComputePhases | src/cli/dag-visualizer.ts:51-67 | terminates for every step list; each phase is, in order, the unplaced steps whose inputs are all placed, none is empty, and nothing more is ready at the end |
| DagPhases.PhaseIsHeight | src/cli/dag-visualizer.ts:56-64 | for any step list, an id is in phase k exactly when k is the first round in which one of its steps has all inputs resolved |
| DagPhases.PlacedIffDerivable | src/cli/dag-visualizer.ts:56-64 | for any step list, an id is placed exactly when some round can resolve it |
| DagPhases.PlacedOnce | src/cli/dag-visualizer.ts:61-63 | with distinct ids no step is placed twice |
| DagPhases.PhaseInOrder | src/cli/dag-visualizer.ts:57-61 | within a phase the ids stand in the order of the step list |
| DagPhases.PhaseIsLongestChain | src/cli/dag-visualizer.ts:51-67 | the phase of a placed step is the length of its longest chain of inputs |
| DagPhases.NoShorterLayering | src/cli/dag-visualizer.ts:51-67 | no numbering that puts inputs before the steps needing them has fewer phases |
| DagPhases.LeftOutIffBlocked | src/cli/dag-visualizer.ts:57-60 | the steps left out are exactly those from which input_from leads to an unknown id or a cycle |
| DagPhases.LeftOutMeansStuckIffDistinct | src/cli/dag-visualizer.ts:51-67 | for a list of ids: whatever steps have them, the steps left out are exactly the stuck ones, if and only if the ids are distinct |
| DagPhases.DuplicateIdHidesStuckStep | src/cli/dag-visualizer.ts:62-63 | with a repeated id a stuck step counts as placed |
| WordWrap.WordWrap | src/cli/ansi.ts:36-50 | the loop produces the greedy layout of the words, with the stated effect of whitespace at the end |
| WordWrap.SplitFindsWords | src/cli/ansi.ts:37 | splitting at whitespace gives the words, with an empty one at either end that is whitespace |
| WordWrap.WordsKeepInk | src/cli/ansi.ts:37 | the words hold every character that is not whitespace, once and in order, and no whitespace |
| WordWrap.WordsSeparated | src/cli/ansi.ts:37 | the words are what whitespace separates: with whitespace around them and some between any two they make up the text |
| Text.SpacesListed | src/cli/ansi.ts:37 | whitespace is the 25 characters of `\s` |
| WordWrap.WrapIsBest | src/cli/ansi.ts:36-50 | without whitespace at the end: all words in order, every line of two or more words within the width, no line but the last with room for the next word, and no layout has fewer lines |
| WordWrap.GreedyIsShortest | src/cli/ansi.ts:40-47 | no order-preserving layout that fits uses fewer lines |
| WordWrap.FullIsGreedy | src/cli/ansi.ts:40-47 | a layout that fits and leaves no room for the first word of the next line is the greedy one |
| WordWrap.LayoutKeepsWords | src/cli/ansi.ts:40-48 | joining the lines with single spaces gives the words joined with single spaces |
| WordWrap.TrailingSpace | src/cli/ansi.ts:41-48 | whitespace at the end survives as one space exactly when the last line has room for it |
| WordWrap.WrapKeepsWordsIff | src/cli/ansi.ts:36-50 | the joined lines are the joined words exactly unless whitespace at the end finds room |
| WordWrap.SpaceKept | src/cli/ansi.ts:44 | one word and a space, wrapped to two columns, keeps the space |
| GreedyMatching.FindFirst | scripts/model-fitness/capabilities.ts:174 | the search finds the first free compatible item |
| GreedyMatching.AssignIsMatching | scripts/model-fitness/capabilities.ts:170-176 | each found entry is assigned to at most one wanted name, and only compatible pairs are made |
| GreedyMatching.AtLeastHalf | scripts/model-fitness/capabilities.ts:170-176 | the first-fit assignment has at least half the size of any other |
| GreedyMatching.OptimalWithoutTrap | scripts/model-fitness/capabilities.ts:170-176 | it is a largest one when an earlier item never has a later choice that is closed to a later item sharing the first |
| GreedyMatching.BestIffNoTrap | scripts/model-fitness/capabilities.ts:170-176 | it is a largest one on every part of the two lists exactly when there is no such trap |
| GreedyMatching.BestInAnyOrderIffUniform | scripts/model-fitness/capabilities.ts:170-176 | it is a largest one on every choice of items in every order exactly when items that share a partner share all partners |
| GreedyMatching.OptimalWhenUniform | scripts/model-fitness/capabilities.ts:170-176 | it is a largest one when items that share a partner share all partners |
| GreedyMatching.SamePlaced | scripts/kg-eval/run-eval.ts:131-153 | when sharing is nested, the same left items are placed in every order of the right items |
| GreedyMatching.NoPairLeftOver | scripts/kg-eval/run-eval.ts:131-153 | no compatible pair is left with both sides unassigned |
| CountMatched.CountMatched | scripts/model-fitness/capabilities.ts:165-179 | the loop counts the first-fit assignment |
| CountMatched.CountIsAssignment | scripts/model-fitness/capabilities.ts:165-179 | the count is the size of a one-to-one assignment and is at most the number of found entries |
| CountMatched.AssignmentMeans | scripts/model-fitness/capabilities.ts:171-175 | an assignment pairs a wanted name with entries that have its last token, each entry at most once |
| CountMatched.CountOfOne | scripts/model-fitness/capabilities.ts:171-175 | one name is found in one entry exactly when its last token is among the tokens of the entry |
| CountMatched.CountAtLeastHalf | scripts/model-fitness/capabilities.ts:165-179 | the count is at least half of the largest possible assignment |
| CountMatched.CountIsBestIffNoTrap | scripts/model-fitness/capabilities.ts:165-179 | it equals the largest one, for the lists and whatever is dropped from them, exactly when no name that two entries could serve precedes one that only the first of them could |
| CountMatched.CountIsBestInAnyOrder | scripts/model-fitness/capabilities.ts:165-179 | it does so in every order of the lists exactly when names that share an entry share all their entries |
| CountMatched.CountIsBest | scripts/model-fitness/capabilities.ts:165-179 | in particular it equals the largest one when no found entry carries two different wanted keys |
| CountMatched.OneMoreFound | scripts/model-fitness/capabilities.ts:165-179 | one more found entry leaves the count or raises it by exactly one |
| CountMatched.GreedyCanMiss | scripts/model-fitness/capabilities.ts:174-175 | wanting `a` and `b`, the entries `a b` and `a` could serve both, and the count is 1 |
| CaseScoring.ScoreEntities | scripts/kg-eval/run-eval.ts:126-170 | all entity scores and report lists are those of the first-fit pairing by name |
| CaseScoring.PairEntities | scripts/kg-eval/run-eval.ts:131-153 | the loop makes the first-fit pairing and reports its type mismatches in order |
| CaseScoring.NameMatchMeans | scripts/kg-eval/run-eval.ts:109-117 | names match when, normalised, the canonical name or an alias of one is the canonical name or an accepted alias of the other |
| CaseScoring.EntityAccounts | scripts/kg-eval/run-eval.ts:155-170 | tp + type errors + fp is the number extracted, tp + type errors + fn the number expected, none is negative, and the lists have those lengths |
| CaseScoring.MismatchesReported | scripts/kg-eval/run-eval.ts:141-147 | a mismatch is reported for exactly the pairs whose types differ, with expected and extracted type |
| CaseScoring.UnmatchedMembers | scripts/kg-eval/run-eval.ts:159-170 | the report lists hold exactly the items that were not matched |
| CaseScoring.UnmatchedInOrder | scripts/kg-eval/run-eval.ts:159-170 | they keep the order of the items, each once |
| CaseScoring.MismatchesInOrder | scripts/kg-eval/run-eval.ts:141-147 | mismatches stand in the order of the extracted entities, one for each pair typed wrongly |
| CaseScoring.NoMissedPair | scripts/kg-eval/run-eval.ts:131-170 | no false positive matches the name of a false negative |
| CaseScoring.EntityPairsAtLeastHalf | scripts/kg-eval/run-eval.ts:131-153 | no pairing by name is more than twice as large |
| CaseScoring.OrderIrrelevantIffSettled | scripts/kg-eval/run-eval.ts:131-170 | the order of the expected entities never changes tp, fp, fn, type errors or the list of false positives, whichever entities are listed, exactly when of two extracted entities with a common match the later has all matches of the earlier, and each has matches of its own type only or of other types only |
| CaseScoring.SingleMatchesAnyOrder | scripts/kg-eval/run-eval.ts:131-170 | in particular every order scores the same when no extracted entity has two matches |
| CaseScoring.EntityOrderMatters | scripts/kg-eval/run-eval.ts:137-151 | two expected entities of one name: their order decides between a hit and a type error |
| CaseScoring.ScoreRelations | scripts/kg-eval/run-eval.ts:173-195 | relation true positives are the size of the multiset intersection of the normalised triples, with matching fp and fn |
| CaseScoring.PairRelations | scripts/kg-eval/run-eval.ts:181-193 | the loop makes the first-fit pairing of equal triples |
| CaseScoring.SameRelation | scripts/kg-eval/run-eval.ts:173-187 | relations are equal when verbs agree and subjects and objects do after normalising |
| CaseScoring.HitsAreIntersection | scripts/kg-eval/run-eval.ts:181-192 | at every point of the loop the hits still to come are the intersection of what is left on both sides |
| CaseScoring.NoBetterPairing | scripts/kg-eval/run-eval.ts:181-193 | no other one-to-one pairing of equal triples scores higher |
| Grouping.GroupBy | scripts/agent-efficiency/scenarios.ts:144-152 | keys in order of first occurrence, each with its items in order |
| Grouping.FirstSeenDistinct | scripts/set-bench/report.ts:51-57 | every item's key is listed, and listed once |
| Grouping.FirstSeenInOrder | scripts/set-bench/report.ts:51-57 | the keys stand in the order of their first items |
| Grouping.SelectMembers | scripts/agent-efficiency/scenarios.ts:146-149 | a group holds exactly the items with its key |
| Grouping.SelectInOrder | scripts/agent-efficiency/scenarios.ts:146-149 | a group keeps its items in order, each once |
| Grouping.GroupsConserve | scripts/set-bench/report.ts:51-57 | whatever is added up over the groups is what is added up over the items |
| MeasureBatch.RunPass | scripts/agent-efficiency/measure.ts:145-221 | each scenario's aggregate is its part of the complete log of runs, with the counts |
| MeasureBatch.RunThread | scripts/agent-efficiency/measure.ts:161-199 | every exit, unhealthy engine, failed session or turns, appends one run per member and disturbs nothing else |
| MeasureBatch.OneRunPerRepeat | scripts/agent-efficiency/measure.ts:151-201 | with distinct ids the runs of a scenario are exactly one per repeat, in order |
| MeasureBatch.EveryScenarioComplete | scripts/agent-efficiency/measure.ts:204-314 | each aggregate rests on n runs numbered 1 to n, whatever the engine answered, and counts the good ones; a run is good exactly when engine, session, turn and usage all were, and then carries usage, text and time of the turn; any other has zero usage and the error of the step that failed |
| MeasureBatch.RepeatIsComplete | scripts/agent-efficiency/measure.ts:157-200 | distinct ids or not, each repeat records as many runs as there are scenarios |
| Report.BuildReport | scripts/set-bench/report.ts:37-117 | one row per known key in order of first occurrence, computed from exactly the runs of that key |
| Report.KeyInjective | scripts/set-bench/report.ts:38-49 | the composite key tells axis and label pairs apart, as no axis contains the separator |
| Report.EveryRow | scripts/set-bench/report.ts:59-110 | every row belongs to a cell, of equal ones the last listed, and rests on exactly the runs with its axis and label, of which there are some; each average stands for the sum of its column, the cache rate for the share of input tokens read, p50 and p95 are those percentiles of the sorted run times, in order and between actual run times; no two rows share a cell; every run of a listed cell is behind a row |
| Report.RowsInOrder | scripts/set-bench/report.ts:59-61 | rows stand in the order of the first runs of their cells |
| Report.ReportConservesCost | scripts/set-bench/report.ts:59-110 | average warm cost times runs, summed over the rows, is the warm cost of all runs of known cells |
| Percentile.PercentileBounds | scripts/set-bench/report.ts:25-35 | the value lies between first and last, which it equals at 0 and 100 |
| Percentile.PercentileMonotone | scripts/set-bench/report.ts:25-35 | the value never falls as p grows, within one gap or across entries |
| Percentile.PercentileHitsEntries | scripts/set-bench/report.ts:29-32 | at the rank of an entry the value is that entry |
| Percentile.PercentileBetween | scripts/set-bench/report.ts:29-34 | between two neighbouring entries the value rises in proportion to the rank |
| Percentile.PercentileOfFew | scripts/set-bench/report.ts:27-28 | nothing has percentile 0, and one value is its own percentile |
| Percentile.PercentileDefined | scripts/set-bench/report.ts:26-34 | with two or more values there is a number exactly for p from 0 to 100 |
| Pareto.ComputeParetoFrontier | scripts/set-bench/report.ts:257-281 | the result is exactly the undominated points, once each, strictly rising in cost and pass rate |
| Pareto.FrontierCovers | scripts/set-bench/report.ts:257-281 | every row is on the frontier or beaten by a row that is |
| Pareto.FrontierIsUnique | scripts/set-bench/report.ts:257-281 | the points and their order do not depend on the order of the rows |
| Sse.DrainSse | scripts/agent-efficiency/engine-client.ts:168-211 | the outcome is the last terminal event among the frames complete when the first is seen, or the failure text at the end of the stream |
| Sse.DrainBuffer | scripts/agent-efficiency/engine-client.ts:182-197 | the inner loop cuts every complete frame, keeps the tail and remembers the last outcome |
| Sse.FramesAppend | scripts/agent-efficiency/engine-client.ts:180-185 | cutting is incremental: the frames so far and the frames of tail plus chunk are the frames of the whole text |
| Sse.FramesAndTail | scripts/agent-efficiency/engine-client.ts:183-185 | frames and tail make up the text, and the tail holds no blank line |
| Sse.ChunkingIrrelevantIffTerminalsAgree | scripts/agent-efficiency/engine-client.ts:177-199 | the outcome is the same for every chunking exactly when all terminal frames decide the same outcome |
| Sse.DoneThenError | scripts/agent-efficiency/engine-client.ts:187-197 | a done event followed by an error event: the chunking decides the outcome |
| Sse.ParseSseFrame | scripts/agent-efficiency/engine-client.ts:306-315 | the line loop computes the event name and the joined data lines |
| Sse.FrameMeans | scripts/agent-efficiency/engine-client.ts:306-315 | whatever the lines of a frame: nothing without a data line, otherwise the last event name, trimmed, or `message`, and the data lines without leading whitespace; other lines are ignored |
| Sse.PrintRoundTrip | scripts/agent-efficiency/engine-client.ts:182-187 | printed events come back as the same list, names and separate data lines, with nothing left over |
| Sse.PrintedOutcome | scripts/agent-efficiency/engine-client.ts:182-211 | delivered at once, printed events end as completed if the last `done` or `error` is a `done`, as failed with the text of its data if it is an `error`, and with the failure text if there is neither |
| Sse.OneVerdictAnyChunks | scripts/agent-efficiency/engine-client.ts:168-211 | with one such event at most that holds of every chunking |
| Sse.SilentFrame | scripts/agent-efficiency/engine-client.ts:186-188 | a frame without an event line, or without a data line, decides nothing |
| AgentLoop.RunCell | scripts/set-bench/run-cell.ts:166-406 | messages, tool calls, totals, costs and final text are those of the responses received, up to the tool that threw, iterations never exceed the cap, and the run ended for the reason recorded |
| AgentLoop.RunIsDetermined | scripts/set-bench/run-cell.ts:166-406 | that contract leaves no choice: two runs that meet it for one environment and scenario agree in ending, record, conversation and responses, so each ending occurs exactly under its condition |
| AgentLoop.RunTotals | scripts/set-bench/run-cell.ts:303-307 | each total is the sum of its own usage field over the responses, a missing one counting 0 |
| AgentLoop.TruncatedMeans | scripts/set-bench/run-cell.ts:309 | a run is flagged as truncated exactly when it got to the pass check and a response hit the output limit |
| AgentLoop.FinalTextIsLast | scripts/set-bench/run-cell.ts:313-318 | the final text is what the assistant said last |
| AgentLoop.CallModel | scripts/set-bench/run-cell.ts:245-301 | the retry loop has the specified outcome and waits once for every attempt used up |
| AgentLoop.RetryStopsRight | scripts/set-bench/run-cell.ts:245-301 | the loop goes on through exactly the replies that are the first to reject the temperature, or rate limits with fewer than three attempts used, and ends with the first other one |
| AgentLoop.RetryBounds | scripts/set-bench/run-cell.ts:245-301 | at most four attempts and one temperature drop: of the replies retried at most one is no rate limit, besides it at most three; given up only on what is no rate limit or after three; never without a message |
| AgentLoop.CallsPerIteration | scripts/set-bench/run-cell.ts:229-301 | each iteration costs one to five provider calls |
| AgentLoop.NeverWithoutMessage | scripts/set-bench/run-cell.ts:301 | the missing-message throw is never reached |
| AgentLoop.RunTools | scripts/set-bench/run-cell.ts:336-345 | each tool use is dispatched in order with the state the earlier calls left, and answered under its id; a throw leaves the calls before it |
| AgentLoop.FaultIsFirst | scripts/set-bench/run-cell.ts:336-345 | the throw that ends a run is that of the first tool use to throw, after the calls before it |
| AgentLoop.BlockMeans | scripts/set-bench/run-cell.ts:311-332 | what each kind of block contributes to the message sent back, to the tool uses and to the text |
| AgentLoop.ContentCons | scripts/set-bench/run-cell.ts:311-332 | a response is taken block by block |
| AgentLoop.ConversationWellFormed | scripts/set-bench/run-cell.ts:215-347 | user and assistant alternate from the prompt on, and a message after an assistant one answers its tool uses one for one, in order |
| AgentLoop.TraceRecords | scripts/set-bench/run-cell.ts:216-345 | the recorded calls are the concatenation of all tool uses of all responses, each with its name, input and the answer of the tool at that point, or the error for an unknown tool |
| AgentLoop.OutputsAreReported | scripts/set-bench/run-cell.ts:337-346 | what the model was told is what the tools answered |
| AgentLoop.FinalTextIsSent | scripts/set-bench/run-cell.ts:314-332 | the final text is the joined text blocks of the assistant message that was recorded |
| AgentLoop.EveryRun | scripts/set-bench/run-cell.ts:166-406 | conversation, record and costs of every run, whatever provider, clock and tools did; every recorded output was reported back, unless a tool of the same response threw |
| AgentLoop.CostOfTotals | scripts/set-bench/run-cell.ts:103-127 | the cost of the totals is the sum of the costs of the responses |
| AgentLoop.CostsAdd | scripts/set-bench/run-cell.ts:103-127 | costs of totals add up |
| AgentLoop.PriceOfEachKind | scripts/set-bench/run-cell.ts:113-126 | a million tokens of one kind cost the input rate, the output rate, or cold the input rate and warm the rate of their cache kind, where a missing one is the input rate |
| AgentLoop.WarmAtMostCold | scripts/set-bench/run-cell.ts:113-126 | warm is at most cold exactly when the read saving covers the write premium |
| AgentLoop.NoCacheRates | scripts/set-bench/run-cell.ts:120-121 | without cache rates warm equals cold |
| Crc32.Crc32 | scripts/model-fitness/capabilities.ts:82-86 | the loop computes the register fold of the message |
| Crc32.FeedByte | scripts/model-fitness/capabilities.ts:84 | eight shift-and-xor steps per byte |
| Crc32.StepsInjective | scripts/model-fitness/capabilities.ts:84 | any number of steps is injective on 32 bits |
| Crc32.StepsLinear | scripts/model-fitness/capabilities.ts:84 | any number of steps is linear over exclusive or |
| Crc32.FeedWord | scripts/model-fitness/capabilities.ts:84 | up to four bytes act as one word on the register |
| Crc32.FeedAllBits | scripts/model-fitness/capabilities.ts:82-86 | feeding bytes is feeding their bits one by one, lowest first |
| Crc32.BurstDetected | scripts/model-fitness/capabilities.ts:82-86 | equally long messages that differ only inside 32 consecutive bits, wherever those begin, have different values |
| Crc32.WindowDetected | scripts/model-fitness/capabilities.ts:82-86 | equally long messages that differ only inside four consecutive bytes have different values |
| Crc32.Residue | scripts/model-fitness/capabilities.ts:82-86 | a message followed by its own CRC always has the value 0x2144DF1C |
| Crc32.ChunkRoundTrip | scripts/model-fitness/capabilities.ts:87-92 | a written chunk reads back, whatever follows |
| Crc32.ChunkLayout | scripts/model-fitness/capabilities.ts:87-92 | length, type, data and CRC stand in their places; a chunk is written exactly when the length fits |
| Crc32.FieldOrder | scripts/model-fitness/capabilities.ts:88-90 | length and CRC are written with the highest byte first |
| Crc32.DamagedChunkRejected | scripts/model-fitness/capabilities.ts:87-92 | a chunk whose type or data changed inside 32 consecutive bits is rejected |
| ProcessTree.Reaches | scripts/vitest-tmp-cleanup.ts:161-166 | the loop computes the walk of at most 64 pids |
| ProcessTree.WithinIsReached | scripts/vitest-tmp-cleanup.ts:161-166 | the bounded walk finds exactly what is fewer than 64 hops up |
| ProcessTree.ForeignVitestPids | scripts/vitest-tmp-cleanup.ts:153-182 | the pids of the runner rows that are not ours, in order, for any parent table |
| ProcessTree.ForeignInOrder | scripts/vitest-tmp-cleanup.ts:172-181 | they stand in the order of the rows, one for each runner row that is not ours |
| ProcessTree.ParentsMean | scripts/vitest-tmp-cleanup.ts:155-160 | of several rows for one pid the last gives its parent |
| ProcessTree.SelfReportedOnlyAtRoot | scripts/vitest-tmp-cleanup.ts:161-182 | the own pid is reported exactly when it is 0 or 1 and a runner |
| ProcessTree.RootReportsItself | scripts/vitest-tmp-cleanup.ts:161-182 | a runner with pid 1 reports itself |
| ProcessTree.ForeignNeverHidden | scripts/vitest-tmp-cleanup.ts:160-181 | an unrelated run is always reported, even in a cyclic or corrupt table |
| ProcessTree.BoundIsHarmlessIffSettled | scripts/vitest-tmp-cleanup.ts:161-166 | the bounded walk finds exactly what stands above a pid, however far up, if and only if within 64 hops the walk ends or comes back |
| ProcessTree.FarAncestorReported | scripts/vitest-tmp-cleanup.ts:160-181 | in a chain of runners the last reports the first, its own ancestor, exactly when there are more than 64 |
| ProcessTree.ExactWhenSettled | scripts/vitest-tmp-cleanup.ts:160-181 | when both walks end or come back within 64 hops, exactly self, ancestors and descendants are left out |
| ProcessTree.OtherVitestRunning | scripts/vitest-tmp-cleanup.ts:191-200 | an unreadable process table counts as a run |
| TmpSweep.Walk | scripts/vitest-tmp-cleanup.ts:105-114 | the recursive walk updates the newest time by every file, or stops at the first error |
| TmpSweep.WalkFindsNewest | scripts/vitest-tmp-cleanup.ts:103-117 | the walk succeeds exactly on readable trees and finds the newest of all files at any depth, none exactly when there are none |
| TmpSweep.StaleMeaning | scripts/vitest-tmp-cleanup.ts:127-140 | the removal test passes exactly for the cache shape, readable throughout, with at least one file and every file old enough |
| TmpSweep.CacheShape | scripts/vitest-tmp-cleanup.ts:127-140 | an entry is a cache exactly with a name of that form and `ssr` as its only child; looking fails exactly for such a name whose entry is gone or cannot be listed |
| TmpSweep.StaleNamesInOrder | scripts/vitest-tmp-cleanup.ts:225-248 | what is removed keeps the order of the listing |
| TmpSweep.TmpDir.SweepStale | scripts/vitest-tmp-cleanup.ts:209-249 | exactly the stale caches that can be removed are removed, in order, and nothing while others run |
| TmpSweep.TmpDir.Sweep | scripts/vitest-tmp-cleanup.ts:191-249 | with the process check in front: nothing is removed while an unrelated run is alive or the table is unreadable, only stale caches are removed, and otherwise all of them |

## Left out

- EditDistance.WordErrorRateMeaning: the tokenizing `normalize` is not modelled; the lists of words are the input.
- WordWrap.WordWrap: string lengths count characters of the model, not UTF-16 code units beyond the basic plane.
- Report.BuildReport: the judge's quality scores, the time stamp and the copy of the runs are left out of the rows.
- Report.EveryRow: averages and rates are exact reals; floating-point rounding is not modelled.
- Pareto.ComputeParetoFrontier: the text key of a point is the pair of its numbers, and the library sort is an insertion sort by cost.
- Sse.DrainSse: starts from decoded text, and the elapsed time and the cancelling of the stream are left out.
- AgentLoop.RunCell: durations, the request fields, the prompt cache key, the optional judge, and the setup hook and client construction before the loop are left out; the API key is a flag.
- Crc32.DamagedChunkRejected: concerns a reader of the chunk layout written for the model; the source only writes chunks.
- MeasureBatch.RunPass: the log output, the build-drift warning, the wait after an aborted turn, the cache-hit ratio and the statistics of the good runs are left out.
- ProcessTree.ForeignVitestPids: takes parsed rows; splitting the `ps` output and the two command patterns are parameters or left out.
- TmpSweep.TmpDir.SweepStale: removal is all or nothing, so a removal that fails halfway leaves the entry; a listing names no entry twice; other processes change nothing during the sweep; `staleMs` is a number.
- Rendering of the pipeline, of reports, tables and the terminal: text layout without further laws.
- `computeDrift`, the judge-bias section, `printReport`, `compareBaselines`: a few branches each.
- The regular expressions for tokens, names and error messages: parameters of the models.
- Network, files, databases, timers and vendor clients: parameters of the models.
- The pixel data, base64 and deflate steps of the test image: only `crc32` and `chunk` are modelled.
- Everything that `src/index.ts` re-exports from the engine.
