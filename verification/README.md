# Verified model of cross-review's core algorithms

`cross-review` is an MCP server that hands a captured change to a different model for a second opinion. This project models, in
Dafny, the parts of it whose correctness is hardest to see by reading, and proves what they promise for every input, every run and every
interleaving.

| area | modules |
|---|---|
| line diff and unified hunks (`src/textdiff.rs`) | `EditGraph`, `GreedySearch`, `LineDiff`, `TextLines`, `Patch`, `PatchText`, `Hunks`, `HunkContext`, `Render`, `DiffReader`, `RoundTrip` |
| path identity (`src/pathcmp.rs`) | `PathIdentity` |
| event timestamps, status report, event delivery (`src/events.rs`) | `Calendar`, `Timestamps`, `StatusReport`, `EventSink` |
| Git LFS clean filter (`src/lfs.rs`) | `LfsPointer`, `PointerText`, `PktLine`, `LfsFilter` |
| evidence server: cancellation and request loop (`src/evidence.rs`) | `Cancellation`, `EvidenceServer` |
| capture hook globs (`src/capture_hook.rs`) | `Glob` |
| hook output and cache key (`src/hook.rs`, `src/capture_cache.rs`) | `HookOutput`, `CacheKey` |

`Wrappers`, `Decimal` and `Utf8` are shared.

**The line diff.** `GreedySearch` defines how far each round reaches on each diagonal, and proves that the greedy choice reaches the
furthest point at the given edit distance, that the stop test fires exactly at the far corner although points outside the grid
are visited, and that all slides together are amortised. `LineDiff.Myers` is the imperative search, with its sliding array, saved bands
and walk back; it returns a shortest edit script exactly when the bounds allow one, always the same one of them
(`EditGraph.Canonical`), and its charge to the budget is exact. So a capture's texts are a function of its files and of what the
searches read from the cancellation flag (`Render.CaptureIsDetermined`).
`Patch` and `PatchText` define a strict reader and applier of unified diffs, and `Render` closes the circle: what is printed, read
back and applied turns one side into the other, and back. `DiffReader` reads the whole rendered text, header and all, and `HunkContext`
says without the printer's own terms which lines the hunks show.

**Where the code does less than one might expect.**

- A text without a newline at its end and the same text with one have the same lines, and a copied line takes its newline
  mark from the base side (`src/textdiff.rs:326`). So a diff can lose a last newline (`Render.NewlineAloneIsLost`), or glue an
  appended line to the one before (`RoundTrip.AppendedLineIsGlued`). `RoundTrip.RenderedRoundTrip` says exactly when the diff that is
  rendered goes wrong, in terms of edit distances at the last lines; `RoundTripOfTexts` and `RoundTripOfShortest` say when no diff, and no
  shortest diff, of two texts goes wrong, which is more than is needed (`OtherShortestScriptsCanBeWrong`).
- The same sides give the same bytes only where the same bounds hold: a file that comes late in a capture can find too little of the
  budget left, and a cancelled one falls back too (`Render.SameSidesCanDiffer`). `Render.SameSidesSameText` is the exact condition.
- Timestamps sort as text through the year 9999 and no further (`Timestamps.OrderedExactlyThroughYear9999`).
- A cancellation notice that overlaps `begin` can be lost in two ways. It can find its request active and set the flag, and
  `begin` then stores what it decided before (`src/evidence.rs:942-945`): `Cancellation.NoticeDuringBeginCanBeLost`. Or it can miss the
  request and reach `pending` after `begin` has looked there (`src/evidence.rs:926-941`): `NoticeCanBeLeftUnread`. The end of the
  transport can be overwritten as in the first case: `CloseDuringBeginCanBeLost`. `NoticeReachesRequest`,
  `MissedNoticeReachesRequest` and `CloseReachesRequests` say exactly when each takes effect.
- When an answer cannot be encoded the request loop is left with the request's effects still staged (`src/evidence.rs:1056`);
  they never land (`EvidenceServer.ServeOne`).
- The cache key cannot tell an absent field from the text that spells absence (`CacheKey.AbsenceCanBeSpelled`); a text with a
  NUL is needed, so paths and digests are safe (`CacheKey.KeyIsInjective`).
- Cleaning twice is cleaning once only below 2^63 bytes (`LfsPointer.CleanIsIdempotent`).
- A pkt-line with no data is written but not read back (`PktLine.PktRoundTrip`); the server never writes one.

**Conventions.** Text and bytes are `string`, one `char` a byte; `AllLines` and `IsUtf8` carry the UTF-8 conditions where the code checks them.
Loops, buffers and objects that the code updates are methods, arrays and classes with specifications in terms of pure
functions; the theorems are lemmas about those functions. Concurrency is a state machine whose actions are the code's atomic
steps, and its theorems quantify over all sequences of actions. `hide` statements keep definitions out of proofs that do not need them.

## Model

| member | source | states |
|---|---|---|
| EditGraph.ScriptCostsAtLeast | src/textdiff.rs:181-183 | no complete edit script deletes and inserts fewer lines than the edit distance, which is defined from the longest common subsequence and not from the search |
| EditGraph.WalkLength | src/textdiff.rs:153-159 | twice a script's length is the lines of both sides plus its edits: every line is deleted, inserted or kept once |
| EditGraph.ShortestThrough | src/textdiff.rs:153-159 | a pair of equal lines that splits the edit distance between the ways before and after it is copied by some shortest script |
| EditGraph.CopiesOnShortest | src/textdiff.rs:153-159 | and a shortest script copies no other pairs |
| EditGraph.CanonicalIsShortest | src/textdiff.rs:243-272 | the canonical script (told from the far corner back: an insertion wherever one brings the distance down, else a deletion wherever one does, else a copied line) is complete and costs the edit distance |
| EditGraph.CanonicalOfEqual | src/textdiff.rs:256-260 | lines that both sides begin with are copied one by one |
| GreedySearch.FurthestAfterSlide | src/textdiff.rs:214-224 | one choice and one slide from the furthest points of the neighbouring diagonals gives the furthest point of this one |
| GreedySearch.FarIsFurthest | src/textdiff.rs:203-237 | in every round and on every diagonal the reach is a point at edit distance at most `d` whose successor on the diagonal is farther: the greedy choice loses nothing |
| GreedySearch.FurthestIsMaximal | src/textdiff.rs:203-237 | that makes it the last point of the diagonal within `d` edits |
| GreedySearch.StopsAtCorner | src/textdiff.rs:231-234 | up to the round of the edit distance the stop test holds exactly on the corner's diagonal in that round, and there `x` is exactly `n`, although other points may lie outside the grid |
| GreedySearch.SlidesAreDisjoint | src/textdiff.rs:214-230 | two rounds on, a diagonal is entered beyond where it was left, so no line is slid over twice on one diagonal |
| GreedySearch.StepsBound | src/textdiff.rs:200-237 | at every point of the search the steps are at most the diagonals visited plus one pass over each of the `2d + 1` diagonals |
| GreedySearch.SearchStepsBound | src/textdiff.rs:200-238 | a complete search at edit distance `D` takes at most `(D+1)(D+2)/2 + (2D+1)·min(n, m)` steps |
| GreedySearch.VisitCost | src/textdiff.rs:213-229 | a visit costs one step and one for each matching pair in a row from where the diagonal is entered, no more and no less; a round begins with what the rounds before it cost |
| GreedySearch.StepsAtLeast | src/textdiff.rs:200-237 | at every point of the search the steps are at least the diagonals visited and the lines copied on the way to that point |
| GreedySearch.SearchStepsAtLeast | src/textdiff.rs:200-238 | a complete search at edit distance `D` takes at least `D(D+1)/2` steps, one for each diagonal of the last round up to the corner's, and one for each line of a longest common subsequence |
| LineDiff.EntriesOfTrace | src/textdiff.rs:207-211 | the bands saved by `D + 1` rounds hold exactly `(D+1)(D+3)` entries |
| LineDiff.EntryFromBand | src/textdiff.rs:214-218 | the array's comparison makes the choice that the specification makes, although it compares only values the array really holds for the round before |
| LineDiff.StoreFar | src/textdiff.rs:230 | overwriting one diagonal in place keeps the values of the round before intact, since the rounds use alternating diagonals |
| LineDiff.SlideDown | src/textdiff.rs:219-224 | the slide ends at the first non-matching pair, and counts the lines it passed |
| LineDiff.Visit | src/textdiff.rs:214-225 | from the array of the round before, a visit computes the diagonal's reach and the lines slid over, with every index in range |
| LineDiff.Round | src/textdiff.rs:212-236 | a round fills its diagonals, or stops at the corner, or stops at the first diagonal whose steps pass the cap, by at most one slide and one step |
| LineDiff.Save | src/textdiff.rs:207-211 | the saved band holds what the round before reached, with every index in range |
| LineDiff.Forward | src/textdiff.rs:193-241 | the forward pass ends in exactly one of four ways, each with its condition and exact number of steps |
| LineDiff.BackFromBand | src/textdiff.rs:248-254 | the saved band repeats the forward choice: it names the diagonal the round came from and where it stood there; it names the diagonal below only if that reached no less far than the one above |
| LineDiff.SlideIsCanonical | src/textdiff.rs:256-260 | on a slide, beyond where it was entered, neither an insertion nor a deletion brings the distance down: the neighbouring diagonals were left before |
| LineDiff.EditIsCanonical | src/textdiff.rs:248-269 | where a diagonal was entered the edit taken back is an insertion if one brings the distance down, and else a deletion |
| LineDiff.UndoSlide | src/textdiff.rs:256-260 | walking back takes off exactly the slide, each line the last copied pair of the canonical script to that point |
| LineDiff.UndoEdit | src/textdiff.rs:261-269 | walking back over the edit adds the insertion or deletion that the canonical script ends in there, and lands where the round before left off |
| LineDiff.UndoRound | src/textdiff.rs:246-270 | undoing a round lands on the reach of the round before, having taken off the end of the canonical script in between, and round 0 lands on the origin |
| LineDiff.Backtrack | src/textdiff.rs:243-272 | from the saved bands the walk back yields the canonical script, which is complete and costs the edit distance |
| LineDiff.Myers | src/textdiff.rs:184-273 | a script is returned if and only if both sides, the edit distance and the steps are within their bounds and no round sees the cancellation; it is the canonical one, complete and at the cost of the edit distance; the budget is charged exactly the search's steps, nothing on cancellation or too many lines, and the cap is passed by at most one slide and one step |
| LineDiff.AcceptedMeans | src/textdiff.rs:184-241 | the condition in numbers: 20,000 lines a side, edit distance 1,000, no cancellation seen up to the last round, and 20,000,000 steps or what is left of the capture's |
| LineDiff.FailureIsCharged | src/textdiff.rs:191-241 | a search that fails without cancellation and with few enough lines is charged more than the cap, or else at least every diagonal of the rounds allowed |
| LineDiff.ChargeIsUnique | src/textdiff.rs:184-241 | the charge of a search without a script is fixed by the two sides, the step cap and the cancellation: only one of its endings is possible, at one diagonal |
| LineDiff.ShortestScript | src/textdiff.rs:181-183 | a returned script is no longer than any other and keeps a longest common subsequence |
| LineDiff.StepCapNeverDecides | src/textdiff.rs:17-17 | with at most 9744 lines on the shorter side and an edit distance in bounds, the step cap of one file is never what ends the search |
| TextLines.LinesRoundTrip | src/textdiff.rs:140-151 | lines, marked with a missing last newline, stand for exactly the text they came from |
| Patch.ScriptIsOrdered | src/textdiff.rs:153-159 | a complete script names base lines and modified lines each once and in order, and pairs only equal lines |
| Patch.ApplyGivesModified | src/textdiff.rs:276-338 | the hunks of a complete script apply to the base, checked strictly against both positions and both lengths of every header, and give the modified side |
| Patch.ReverseApplyGivesBase | src/textdiff.rs:276-338 | the same hunks with sides exchanged turn the modified side back into the base |
| PatchText.ReadPrintedHeader | src/textdiff.rs:312-323 | a printed header is read back to the same positions and lengths, an empty range included |
| PatchText.ReadPrintedHunks | src/textdiff.rs:319-336 | printed hunks are read back unchanged, newline marks included, if headers tell their bodies' lengths and lines hold no newline |
| Hunks.CollectChanges | src/textdiff.rs:277-282 | all positions of deletions and insertions, in order, and no others |
| Hunks.GroupChanges | src/textdiff.rs:286-293 | groups cover every change once, join changes whose contexts touch, and separate all others |
| Hunks.GroupsOfIsGrouping | src/textdiff.rs:286-293 | every script's changes can be grouped so |
| Hunks.GroupingIsUnique | src/textdiff.rs:286-293 | there is only one such grouping, so the printed text depends on the script alone |
| Hunks.Positions | src/textdiff.rs:298-309 | the counters hold the lines of both sides before the hunk |
| Hunks.Lengths | src/textdiff.rs:310-311 | the lengths are the lines of both sides that the hunk spans |
| Hunks.EntryText | src/textdiff.rs:325-335 | one printed line: prefix, text, and the mark of an unterminated last line taken from the base side for a copied line |
| Hunks.AppendBody | src/textdiff.rs:324-336 | the body is appended line by line in the order of the operations |
| Hunks.AppendHunk | src/textdiff.rs:294-336 | one group is printed as the hunk of its operations and three lines of context |
| Hunks.AppendHunks | src/textdiff.rs:276-338 | the printer appends exactly the hunks of the one grouping of all changes |
| HunkContext.HunksShowContext | src/textdiff.rs:286-336 | the hunks show, in order, exactly the lines that are changes or no more than three operations from one |
| HunkContext.HunksAreApart | src/textdiff.rs:286-297 | between two hunks at least one line of either side is left out, and every hunk shows a change |
| Render.HunksAreWellFormed | src/textdiff.rs:310-323 | each header's lengths match its body |
| Render.ChangeInOneHunk | src/textdiff.rs:286-297 | every change lies in exactly one hunk |
| Render.PrintedDiffApplies | src/textdiff.rs:276-338 | for every complete script: reading the printed text and applying it to the base lines gives the modified lines, and in reverse the base lines |
| Render.TextRoundTrip | src/textdiff.rs:324-335 | for a given script, applying the printed text gives the modified text byte for byte if and only if no copied line has a last newline on one side only |
| RoundTrip.RoundTripOfTexts | src/textdiff.rs:324-335 | told from the two texts: every script's diff gives the modified text byte for byte if and only if no base line and modified line have the same text and different newline marks |
| RoundTrip.RoundTripOfShortest | src/textdiff.rs:181-183 | every shortest script's diff does, if and only if no pair of lines that some shortest script copies has different newline marks |
| RoundTrip.BaseCopied | src/textdiff.rs:243-272 | the canonical script copies the last base line to modified line `j` exactly if the edit distance is that up to line `j` and one insertion for each modified line after it, and both ways to take one line less there are one edit farther |
| RoundTrip.ModifiedCopied | src/textdiff.rs:243-272 | it copies the last modified line from base line `i` exactly if deleting brings the distance down, and inserting does not, at every base line after it, and both ways to take one line less at `i` are one edit farther |
| RoundTrip.HunksRoundTrip | src/textdiff.rs:276-338 | the same of the hunks alone, for all names |
| RoundTrip.RenderedRoundTrip | src/textdiff.rs:65-135 | for all sides with names of one line, all budgets and every cancellation: the text that is rendered, read and applied to the base text, gives the modified text byte for byte, and in reverse the base text, if and only if it is a whole-file replacement, or a last line without its newline, if the canonical script copies it, is copied to a last line without one; the condition speaks of edit distances alone |
| RoundTrip.OtherShortestScriptsCanBeWrong | src/textdiff.rs:243-272 | two texts whose rendered diff comes out right although another shortest script's would not |
| RoundTrip.ReverseTextRoundTrip | src/textdiff.rs:324-335 | applied in reverse to the modified text, the printed text gives the base text under exactly the same condition as forwards |
| Render.TerminatedTextsRoundTrip | src/textdiff.rs:324-335 | texts that are empty or end in a newline always come out right |
| Render.NewlineAloneIsLost | src/textdiff.rs:326-326 | for every text without a last newline, the canonical script to the same text with one changes nothing, and its diff is empty |
| RoundTrip.AppendedLineIsGlued | src/textdiff.rs:324-335 | for every text without a last newline and every line appended to it, the canonical script copies every line and inserts one, and its diff glues the new line to the last one |
| Render.ReplacementIsScript | src/textdiff.rs:161-167 | the whole-file replacement is a complete script and always shows newlines right |
| DiffReader.ReadRendering | src/textdiff.rs:65-132 | what a rendered text says is what it was rendered from: the source, a move, the fallback notice exactly if it fell back, which side is absent and the names of the others, and the hunks of the script; or the supplied diff; or that nothing changed |
| Render.RenderComputed | src/textdiff.rs:96-131 | the text is a function of the sides, the steps left and the cancellation: an edit prints the canonical script, or the replacement exactly when the line diff's bounds are exceeded, with the notice in that case; an add or delete prints the replacement; the step budget is charged accordingly |
| Render.ComputedIsCharged | src/textdiff.rs:116-129 | an add or delete costs no steps; a line diff at least one for each edit and each line copied and one more; a replacement in its stead, if not cancelled and with few enough lines, more than what was left for it, or every diagonal allowed |
| Render.RenderFile | src/textdiff.rs:65-132 | the result is a function of the sides, what is left of both budgets and the cancellation: over budget exactly when base, modified side and supplied diff together exceed the bytes left, and then nothing is charged; a supplied diff or an unchanged file costs bytes but no steps; else as above |
| Render.SameSidesSameText | src/textdiff.rs:7-8 | two renderings of the same sides, with whatever is left of the budgets and whatever is read from the cancellation flag, are equal if and only if both or neither are over the byte budget and, where hunks are computed, both or neither fall back |
| Render.SameSidesCanDiffer | src/textdiff.rs:98-131 | two sides that are rendered differently with no steps left |
| Render.RenderCapture | src/evidence/generated.rs:593-633 | all files of a capture, each rendered with what the files before it left of one budget, spend no more than 200,000,000 steps and one slide and one step a file, and render no more than 64 MiB of input; a file is refused exactly when the bytes rendered before it leave too little room |
| Render.CaptureIsDetermined | src/textdiff.rs:7-8 | the same files and the same cancellation always give the same texts and leave the same budget |
| PathIdentity.LocateShow | src/pathcmp.rs:103-139 | the canonical spelling of a location is read back to that location |
| PathIdentity.RootLength | src/pathcmp.rs:150-189 | the length protected from trimming is exactly that of the root: of the UNC root, the drive, or the leading separator |
| PathIdentity.UncRootIsServerAndShare | src/pathcmp.rs:144-176 | in a collapsed UNC path the protected part is exactly the spelling of its first two components, server and share, or of what there is of them |
| PathIdentity.CollapseRuns | src/pathcmp.rs:110-124 | the loop keeps one separator of each run |
| PathIdentity.CollapsedIsAlmostCanonical | src/pathcmp.rs:110-128 | after collapsing only a trailing separator can differ from the canonical spelling |
| PathIdentity.TrimToRoot | src/pathcmp.rs:130-138 | trimming down to the root yields the canonical spelling |
| PathIdentity.Normalize | src/pathcmp.rs:103-139 | normalising gives the canonical spelling of the location that the path spells, that location being defined by root and non-empty components |
| PathIdentity.SpellingDecidesLocation | src/pathcmp.rs:33-39 | canonical spellings are equal up to case exactly when root and components are |
| PathIdentity.IdentityEq | src/pathcmp.rs:37-39 | the comparison is true if and only if both paths have the same root and the same list of components, without regard to ASCII case |
| PathIdentity.SpellingIsLocated | src/pathcmp.rs:103-189 | with separators of either kind, any number of them between components and at the end, a path is located by its components and by what it starts with: two separators or more are UNC, one the current drive's root, a letter and a colon a drive, absolute if a separator follows, anything else relative |
| PathIdentity.SameLocationIs | src/pathcmp.rs:37-39 | locations are the same exactly if their roots are of one kind, drive letters and components agreeing but for the case of ASCII letters |
| PathIdentity.LowerIsAsciiCase | src/pathcmp.rs:37-39 | two characters are folded to one exactly if they are equal or the two cases of one of the 26 letters |
| PathIdentity.NormalizeIdempotent | src/pathcmp.rs:96-103 | normalising twice is normalising once |
| PathIdentity.NormalizeCommutesWithFold | src/pathcmp.rs:101-102 | folding case before or after normalising is the same |
| Calendar.YearOfEraIsRight | src/events.rs:470-471 | the year of the era is in 0..399 and the day falls within that year's length, leap day included |
| Calendar.CivilDayNumber | src/events.rs:465-475 | for every day count the algorithm yields a valid date whose day number is that count |
| Calendar.NextDayNumber | src/events.rs:465-475 | the calendar's next day, leap years included, has the next day number |
| Calendar.CivilIsCalendar | src/events.rs:465-475 | the algorithm's date is the one reached from 1 January 1970 by counting days on the calendar |
| Calendar.CivilInverse | src/events.rs:465-475 | for every date and day count the algorithm gives the date for that count if and only if the count is the date's day number |
| Calendar.DateOrder | src/events.rs:465-475 | dates are ordered as day numbers |
| Timestamps.TimestampOrder | src/events.rs:460-483 | through the year 9999 timestamps are ordered as text exactly as their times are in milliseconds, and equal only then |
| Timestamps.ReadBack | src/events.rs:460-483 | a timestamp of any time is read back to a valid date and a time of day that together are exactly that time in milliseconds, or the epoch for a time before it; through the year 9999 it has 24 characters |
| Timestamps.OrderFailsInYear10000 | src/events.rs:476-477 | the first millisecond of the year 10000 sorts before the last of the year 9999 |
| Timestamps.OrderedExactlyThroughYear9999 | src/events.rs:460-483 | all timestamps before a limit sort as their times if and only if the limit is no later than the start of the year 10000 |
| StatusReport.Report | src/events.rs:326-358 | per session the report holds the event of highest rank, the last line among equals; sessions without a logged event are reported from their record; no others appear |
| StatusReport.OrderDoesNotMatter | src/events.rs:322-325 | if ranks tell a session's events apart, any order of the same lines reports the same event |
| StatusReport.RankIsLifecycle | src/events.rs:327-335 | a rank is higher exactly for a newer turn, or for a terminal event over the start of the same turn |
| StatusReport.LaterLineWins | src/events.rs:345-350 | of events with the same start and the same kind the one logged last is reported |
| StatusReport.ReportedIsNewestInTime | src/events.rs:322-345 | if a session's logged turns started before the year 10000, the reported event belongs to its newest turn in time, and is a terminal one if that turn logged any |
| EventSink.InvHolds | src/events.rs:141-253 | in every interleaving of turns, sweep and worker, the counter equals the events in flight, accepted events stay in emission order, a turn is live from its registration to its end or the shutdown, and what is told of each turn is told in full |
| EventSink.ClaimedExactlyOnce | src/events.rs:186-252 | in every interleaving what is emitted of a turn is told in full: a start if it registered before shutdown, then one terminal event when it stops being live, its own or the sweep's; its own alone if it ended before shutdown without having registered; and nothing of any other turn |
| EventSink.NothingAfterSweep | src/events.rs:181-198 | once the sweep's critical section is over nothing is emitted or accepted, whatever happens |
| EventSink.DrainedAtZero | src/events.rs:199-202 | when the drain then reads zero, every accepted event has been run in order, exactly the turns that were registered or ended before shutdown have been claimed, each once, and this stays so |
| EventSink.DeliveredInEmissionOrder | src/events.rs:153-179 | in every interleaving events run in the order of emission; a full queue only drops |
| EventSink.NothingDroppedWithRoom | src/events.rs:171-179 | from any state on, as long as what the queue holds and what is emitted fit into its slots together, every event emitted is accepted, in order |
| EventSink.QueueWithinSlots | src/events.rs:147-175 | the queue never holds more than its slots |
| EventSink.TurnCanGoOn | src/events.rs:206-252 | in every state a turn that has not started can start, and one that has not ended can end |
| EventSink.DrainCanFinish | src/events.rs:186-202 | from every state the sweep can be carried through and the worker can run all that was accepted, so that the drain reads zero |
| Cancellation.CancellationHasCause | src/evidence.rs:918-960 | in every interleaving a set flag during a request, or a cancelled outcome, means a notice for that request or the end of the transport |
| Cancellation.NoticeIsNotLost | src/evidence.rs:919-954 | a notice kept before its request begins, or given wholly while it is served, keeps the flag set while it is served and ends it as cancelled unless the transport is seen closed |
| Cancellation.ClosedIsNotCancelled | src/evidence.rs:948-954 | in every interleaving a request that saw the transport closed is not reported as cancelled; between requests the flag is set only if the transport is closed, and stays set once `finish` saw that |
| Cancellation.CloseSparesRequests | src/evidence.rs:948-959 | once the transport is closed every request that `finish` has not asked for yet ends as not cancelled, in every continuation |
| Cancellation.NoticeHandled | src/evidence.rs:919-933 | a notice handled without interruption sets the flag if its request is active, is kept if it is not and fewer than 256 are, and is ignored if its id is too long |
| Cancellation.RoomIsGivenBack | src/evidence.rs:926-941 | in every run without late notices, notices are kept only for requests that have not begun or are just beginning |
| Cancellation.NoticeReachesRequest | src/evidence.rs:923-946 | a notice that finds its request active takes effect in every continuation if and only if `begin` is not on its way to store a clear flag |
| Cancellation.NoticeDuringBeginCanBeLost | src/evidence.rs:935-946 | a run in which a notice finds its request active and `begin` overwrites the flag it set |
| Cancellation.MissedNoticeReachesRequest | src/evidence.rs:926-946 | a notice that misses its request and is put into `pending` takes effect in every continuation if and only if it is in time: there is room for it, or it is there already, or the transport is closed, while the request's entry is still to be read; after that, if `begin` has seen a cause; a full set is the one other way to lose it |
| Cancellation.NoticeCanBeLeftUnread | src/evidence.rs:923-941 | a run in which a notice misses its request and is put into `pending` only after `begin` has looked there: nothing reads it |
| Cancellation.CloseReachesRequests | src/evidence.rs:956-959 | after `close_transport` every request is served with the flag set, in every continuation, if and only if no `begin` holds a decision made before |
| Cancellation.CloseDuringBeginCanBeLost | src/evidence.rs:942-959 | a run in which a request is served with the flag clear after `close_transport` returned |
| EvidenceServer.ServeOne | src/evidence.rs:1032-1094 | whatever a message's fate nothing stays staged, except when its answer or the error replacing it cannot be encoded, which ends the loop; its effects land exactly if its own response was written; the page and the way the loop ends are right |
| EvidenceServer.ServeRequests | src/evidence.rs:1023-1097 | over every run what landed is, in order, exactly what the served requests staged; cancelled, replaced, unwritten and unencodable ones contribute nothing; messages after a failure are not taken; only an encoding failure leaves anything staged, and then the last message's |
| EvidenceServer.PageTellsFate | src/evidence.rs:1036-1093 | a request's own response goes out exactly if its effects land, and then it fits the cap and was not cancelled; the replacing error goes out exactly for a response that does not fit; no page means no effects |
| EvidenceServer.EffectsHavePages | src/evidence.rs:1023-1097 | over every run, what landed was staged by requests whose own responses are among the pages, and every own response among the pages is that of a request all of whose effects landed |
| EvidenceServer.UnservedHasCause | src/evidence.rs:918-960 | with `finish` reporting what the cancellation protocol decided, in every interleaving a deliverable request is left unserved only if it was notified or the transport closed |
| EvidenceServer.NoticeSuppressesPage | src/evidence.rs:1046-1055 | in every interleaving a notice kept early or wholly observed keeps the request's page off the wire and its effects out, unless the transport is seen closed |
| EvidenceServer.NoticesDecideRun | src/evidence.rs:1023-1097 | over every run of the loop, in every interleaving of the protocol that decided it: a request noticed early or while served, the transport not being seen closed, leaves effects and pages as if it had not been there; a deliverable one without a cause, or that saw the transport closed, adds what it staged and its own response, in its place |
| EvidenceServer.LandedEffects | src/evidence.rs:1023-1097 | where no two requests stage the same effect, what has landed after a run holds no effect of the former and every effect of the latter |
| Glob.GlobAt | src/capture_hook.rs:79-104 | true if and only if the path can be cut into one piece per token, each fitting its token; terminates on the pattern |
| Glob.OneMeans | src/capture_hook.rs:101-102 | any character but `*` stands for itself, and `?` for one character that is no separator |
| Glob.StarMeans | src/capture_hook.rs:89-100 | `*` stands for any run without a separator |
| Glob.DoubleStarMeans | src/capture_hook.rs:82-88 | `**` stands for any run of characters, and a separator after it need not be there |
| Glob.ExtensionHere | src/capture_hook.rs:79-104 | `*` and a plain ending match exactly the names with that ending in the same directory |
| Glob.ExtensionAnywhere | src/capture_hook.rs:79-104 | with `**` and a separator before them they match exactly the paths with that ending at any depth, the top included |
| Glob.EverythingBelow | src/capture_hook.rs:79-104 | a plain directory, a separator and `**` match exactly the paths below that directory |
| Glob.ResumeAnywhere | src/capture_hook.rs:82-88 | after `**` the rest matches at some position, separators included |
| Glob.ResumeInComponent | src/capture_hook.rs:89-100 | after `*` the rest matches at some position before the next separator, none being missed by stopping there |
| Glob.SameDepth | src/capture_hook.rs:89-102 | without `**` a pattern matches only paths with as many separators as it has |
| LfsPointer.IsPointer | src/lfs.rs:248-284 | the loop accepts exactly the grammar: version, extensions with distinct priorities, digest, size, nothing more |
| PointerText.LayoutIsRead | src/lfs.rs:248-262 | a pointer's lines are read as their keys and values, with either line end, blank lines between and white space around |
| PointerText.WrittenPointerIsAccepted | src/lfs.rs:248-304 | so laid out, a version, extensions, a digest and a size are accepted exactly if the version is one of the three, every extension has a digit, a name of word characters and a digest, no two the same digit, and digest and size are in order |
| LfsPointer.PrintedPointerIsAccepted | src/lfs.rs:223-284 | what the printer prints is accepted if and only if the size is at most 2^63 - 1 |
| LfsPointer.PrintedPointerIsShort | src/lfs.rs:209-226 | for any size below 2^64 a printed pointer is itself under 1024 bytes, so short enough to be passed through |
| LfsPointer.PointerFields | src/lfs.rs:223-226 | a printed pointer says the current version, the digest and the size |
| LfsPointer.CleanedSays | src/lfs.rs:209-220 | content cleaned to anything but itself is cleaned to a pointer with the digest and the size of the whole content |
| LfsPointer.CleanFixedPoints | src/lfs.rs:210-220 | cleaning leaves content alone exactly if it is empty or a short accepted pointer |
| LfsPointer.CleanIsIdempotent | src/lfs.rs:209-220 | cleaning cleaned content changes nothing if and only if the content is shorter than 2^63 bytes |
| PktLine.PktRoundTrip | src/lfs.rs:73-97 | a written packet is read back, whatever follows, and only empty data does not survive |
| PktLine.LengthIsRead | src/lfs.rs:82-85 | a length is four hex digits of either case, the first of which may be a plus sign |
| PktLine.OtherLengthIsRefused | src/lfs.rs:82-85 | with any other character a packet is malformed |
| PktLine.ListRoundTrip | src/lfs.rs:99-120 | a written list of lines is read back, whatever follows |
| PktLine.ContentRoundTrip | src/lfs.rs:151-157 | content is recovered whole from any cut into packets of 1 to 65531 bytes |
| PktLine.CutListIsRefused | src/lfs.rs:108-120 | a list of lines cut short anywhere is refused |
| PktLine.CutContentIsRefused | src/lfs.rs:151-157 | and so is content cut short anywhere |
| PktLine.ForeignLineIsRefused | src/lfs.rs:112-114 | a list with a line that is not UTF-8 is refused, whatever stands before it |
| LfsFilter.Cleaner.Update | src/lfs.rs:200-207 | after any pieces the head is the first 1024 bytes and the length is right |
| LfsFilter.Cleaner.Finish | src/lfs.rs:209-220 | the result is a function of the whole content, not of its pieces |
| LfsFilter.Input.ReadPkt | src/lfs.rs:73-92 | one packet, end of input or malformed, and what remains |
| LfsFilter.Input.ReadList | src/lfs.rs:108-120 | the lines up to the flush, or failure at a non-UTF-8 line, a malformed packet or the end |
| LfsFilter.ReadInto | src/lfs.rs:151-157 | the cleaner receives exactly the content up to the flush |
| LfsFilter.Output.WriteBytes | src/lfs.rs:168-171 | content goes out in packets of at most 65516 bytes and a flush |
| LfsFilter.Output.WriteAnswer | src/lfs.rs:164-179 | a success with content and an empty trailing list, or an error |
| LfsFilter.ServeAll | src/lfs.rs:143-181 | the loop answers request after request until the end of input, and fails with the answers so far otherwise: on bad input, or before a request's content when no SHA-256 can be set up for it |
| LfsFilter.ServeSession | src/lfs.rs:123-182 | the session writes exactly what the protocol function says, failures of the handshake and of the digest's set-up included |
| LfsFilter.SessionServed | src/lfs.rs:123-182 | for every list of requests, cut into packets in any way, the output is the handshake and one answer each, in order, up to the first request that no SHA-256 can be set up for; that one alone makes the session fail |
| LfsFilter.CutSessionFails | src/lfs.rs:143-181 | a request cut short anywhere makes the session fail, after the answers to the requests before it |
| LfsFilter.HandshakeRefused | src/lfs.rs:124-140 | anything but a client's hello of version 2 is refused without a word, and a client without the capability after the server's hello |
| LfsFilter.FirstCommandDecides | src/lfs.rs:149-149 | the command is that of the first line that names one |
| LfsFilter.BytesInPackets | src/lfs.rs:168-171 | content is written in packets of 65516 bytes but for a shorter last one |
| LfsFilter.AnswerRoundTrip | src/lfs.rs:164-179 | Git's reading of an answer gives back the cleaned bytes or the refusal |
| LfsFilter.SessionRoundTrip | src/lfs.rs:123-182 | read by Git, the output is the handshake, then per request the cleaned whole content, or a refusal unless the command is `clean` and the digest worked, and nothing more; all requests are answered, and the session ends well, if and only if a SHA-256 can be set up for each |
| HookOutput.TailBuffer.Append | src/hook.rs:412-418 | the buffer rests at no more than twice the cap and holds at least the last `cap` bytes received |
| HookOutput.TailBuffer.Tail | src/hook.rs:454-457 | at any moment exactly the last `cap` bytes of all received, read lossily as UTF-8 |
| HookOutput.DrainTail | src/hook.rs:407-421 | the reader passes on everything up to the end of the pipe or a failure |
| HookOutput.ReceivedIs | src/hook.rs:412-420 | what is received is all the reads together up to the first that fails or brings nothing |
| HookOutput.TailOfOutput | src/hook.rs:400-458 | however the output arrives, its last `cap` bytes are reported, read lossily as UTF-8 |
| HookOutput.TailOfText | src/hook.rs:454-457 | of a well-formed output the report is the tail as it is, but for at most three bytes of the character it begins within, each replaced |
| Utf8.LossyIsExact | src/hook.rs:457-457 | the lossy reading changes nothing exactly when the bytes are well-formed UTF-8 |
| Utf8.WellFormedIsEncoded | src/hook.rs:457-457 | bytes are well-formed exactly if they are the encoding of some sequence of Unicode scalar values |
| Utf8.LossyOfCut | src/hook.rs:457-457 | text that breaks off inside a character is read up to it, and one replacement stands for what there is of it |
| HookOutput.HeadBuffer.Append | src/hook.rs:442-446 | the buffer holds the first `cap + 1` bytes received |
| HookOutput.HeadBuffer.Collect | src/hook.rs:653-656 | the first `cap` bytes, and truncated exactly if there were more |
| HookOutput.CollectStdout | src/hook.rs:430-452 | however the output arrives, the collected data is its first `cap` bytes, and truncated exactly if there were more |
| CacheKey.DecodeEncode | src/capture_cache.rs:41-44 | the fields can be recovered from what the digest is fed |
| CacheKey.EightBytesOfLength | src/capture_cache.rs:41-44 | eight bytes of length stand before each field, and every length below 2^64 fits them |
| CacheKey.SchemaSeparates | src/capture_cache.rs:45-51 | no key is fed the bytes of anything that begins with another schema |
| CacheKey.SameBytesExactly | src/capture_cache.rs:45-59 | two keys are fed the same bytes if and only if their parts agree once a text spelling absence counts as absence |
| CacheKey.KeyIsInjective | src/capture_cache.rs:45-59 | for optional fields free of NUL, equal bytes mean equal parts, absent never colliding with present |
| CacheKey.AbsenceCanBeSpelled | src/capture_cache.rs:57-57 | an absent `moved_from` and the text that spells it are fed the same bytes |
| CacheKey.Key | src/capture_cache.rs:39-61 | the key is the digest of exactly the fields in their order |

## Left out

- Myers: the cancellation flag is a function of the round, read once per round as in the code; the four phases of the search are separate methods.
- Calendar.CivilFromDays: day counts are unbounded; the 64-bit width of the code's arithmetic is not modelled.
- Rfc3339: time is a number of milliseconds; what lies below a millisecond is dropped by the code too.
- Report: reading the log, JSON and the sorted JSON output; a line is an event with a session, or is skipped; the record of a session is an opaque envelope.
- EventSink: modelled as a state machine over the atomic steps under the lock, the queue and the counter, not as a class; `payload` contents, sleeping and the deadline of the drain, and a worker that has gone away (the channel disconnected) are not modelled; a turn registers at most once, ends at most once, and does not register after it has ended.
- Cancellation: modelled as a state machine with one action per lock section or atomic access, under sequential consistency; request ids are distinct and their spelling is not modelled beyond being short or not.
- EvidenceServer: handling a request is abstract, a message carries what handling it stages, answers and meets; the two machines, the loop and the cancellation protocol, are joined by what `finish` reports, not interleaved.
- GlobAt: matching is on characters; lower-casing and reading `\` as `/` in `glob_matches` come before it, and the grammar check of patterns is not modelled.
- IdentityEq: the file-system identity check beside it (`same_file_on_disk`, the operating system's answers) is not modelled.
- Clean: the digest is an arbitrary function from content to a hex digest or nothing; SHA-256 itself is not modelled, and whether it can be set up for a request is a parameter of the session.
- ServeSession: reading and writing do not fail except by malformed or missing input; flushing is not modelled; lengths are those four hex digits can give.
- TailOfOutput: joining both outputs and the wait for readers are not modelled; collecting before the reader is done is not covered.
- Key: the 64-bit length prefix is assumed to fit, as every length in memory does; cache files, eviction and entries are not modelled.
- RenderFile: the contents of a supplied diff are passed through unread.
- ReadRendering: reading back is stated for names without newlines; of a file passed through without a move, for names that do not begin like the line of a move.
- Process spawning, job objects, pipes, sockets, clocks, randomness, JSON-RPC schemas, prompts and HTML pages.
- Configuration and argument parsing, sessions, findings, approval, Git and Perforce backends, and `src/evidence/core.rs`.
