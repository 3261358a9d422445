# Calliope, modelled and proved in Dafny

Calliope runs the same media through several engines and compares what they make of it. Its canary keeps pipelines
running around the clock, checks every frame they show, and records incidents. This project models the parts of it that
decide something, and proves what they promise:

* **Frame checks** (`CleanRuns`, `HashTables`, `ContentChecks`, `FrameChecking`, `FrameHistories`, `LateJudging`,
  `RssWindows`): from which frame on a run is on time, kept up with a deque and equal to what a look at the whole run
  would give; frames counted modulo the length of a clip; what samples and recoveries say after any history of lines; a
  judge of recovery windows that may come late; memory growth by least squares.
* **Incidents and logs** (`Incidents`, `IncidentRuns`, `IncidentTotals`, `Calendar`, `LogNames`, `DayLogs`): a store of
  open incidents that several writers share, with crashes and failing disk steps; what an incident adds up to; log files
  by day, with writes cut off anywhere.
* **Corruption** (`Generators`, `SplitMix`, `Corruption`, `BitFlips`): inputs broken by a seeded generator, which bits
  that changes, and why the loop that draws distinct offsets ends.
* **Minimizing** (`Minimize`, `Subsequences`): shrinking a failing input by removing runs of bytes.
* **Pipelines** (`Clusters`, `Flattening`, `PipelineGraphs`, `ElementNames`, `GreedyPairs`, `CapsDiffs`,
  `PipelineDiffs`; `Orders`, `LinkRanks`, `Reorderings`, `Renumberings`): reading nested bins, flattening them into leaf
  elements, comparing two engines' pipelines, and when the order of their elements matters.
* **Schedules, timestamps, recordings, votes** (`Schedules`; `TimeBases`, `MostCommonValues`, `TimestampComparisons`;
  `Recordings`, `RecordingRuns`, `RecordingDrops`; `MajorityVotes`).

Code that works by updating fields, arrays or directories is modelled by classes and methods, each proved against a
function or predicate that says what it computes. What is promised is then proved of those. Protocols (incidents,
recordings, late judging) are also machines of single steps, with theorems over all runs.

## What came out

Some promises hold only under a condition:

* The minimizer's documentation speaks of a minimal result. For a failure that more bytes of the input keep, the result is
  minimal. For others it need not be: `MinimalityNeedsClosure` has an input of three bytes.
* A tick comes back from nanoseconds exactly if rounding moves it by less than half a tick (cut off: at most half), so
  always with ticks of two nanoseconds or more (`LongTicksComeBack`), and not always with shorter ones
  (`ShortTicksGetLost`).
* An incident in the open file leaves it exactly when a close took it off the list and the store was saved, by that close
  or by another writer before the canary had stopped. It is lost exactly if, besides, none of its appends to the log can
  be read (`LostExactlyWhen`): each failed, was cut off, shares its line with another write, or lies in a day's file in
  which a write was cut inside a character. Two runs from an empty disk lose one. In one the append fails and another
  writer saves, since the canary notices an error only at its next turn (`AnIncidentGetsLost`). In the other the process
  is stopped in the middle of the append, and the close is repeated on the same line (`ATornCloseGetsLost`). Saves that
  fail lose nothing.
* A record appended after a torn line is lost with it, even if that line lacked only its newline. The comment on reading
  (record.rs:455) expects a torn line to be skipped. A write cut inside a character leaves a line that is not text, and
  that fails the whole range (record.rs:454) and with it the status writer (mod.rs:163-169). A range reads back exactly
  what arrived if and only if neither happened (`ReadsWhatWasAppended`; `TornLinesLose` has the three histories).
* A recording check that fails midway loses the findings it already had, and the next check may take closed files of a
  dead run for cut off and drop them unchecked (`FailedCheckDropsAClosedFile`). A listing that misses a file may lead to
  that too (`MissedFileDropsAClosedFile`). Nothing else does (`ClosedFileIsDroppedIff`).
* The pairing of elements and links is greedy. A pipeline matches itself in every order of its elements if and only if
  their names match transitively and every renaming within matching names keeps the links (`OrderNeverMattersIff`). A name
  and two instances of it are not transitive: in two orders they leave elements over (`GreedyMayLeaveElements`). Two
  queues of one name, each with a sink of its own, are, but swapped their links are not the same (`TwoQueues`). Listed in
  one order, every pipeline matches itself.
* Memory samples carry wall-clock times. If the clock steps back the deque may hold less or more than the window
  (`SteppingBackHoldsLess`, `SteppingBackHoldsMore`; `HeldIsTheWindowIff` says when), and the regression may subtract a
  later time from an earlier one (`SteppingBackUnderflows`; `UnderflowsIff`).
* A recovery window announced after an event at or after its end may be judged differently (`AnnouncedTooLate`).
* Caps without fields against none at all compare clean (`CleanMeans`), so such a media type goes unreported.
* The comments of the vote speak of the largest group as the majority. Without more than half there is none: all engines
  are then outliers.

## Model

| member | source | states |
|---|---|---|
| CleanRuns.OnTimeFromIs | crates/calliope-cli/src/canary/checks.rs:238-293 | which frame a run counts from: one past the last frame later than the run's least offset by more than the limit, in both directions |
| CleanRuns.OnTimeOffsetIsLeast | crates/calliope-cli/src/canary/checks.rs:266-269 | the on-time offset is the least arrival minus pts of the run, and some frame has it |
| CleanRuns.KeptFalls | crates/calliope-cli/src/canary/checks.rs:245 | offsets in the deque fall strictly from front to back |
| CleanRuns.FrontIsLatest | crates/calliope-cli/src/canary/checks.rs:252-256 | the front of the deque is as late as any frame it stands for |
| CleanRuns.PopFront | crates/calliope-cli/src/canary/checks.rs:282-291 | popping the front leaves the deque that the frames after it alone would have left |
| CleanRuns.PushBack | crates/calliope-cli/src/canary/checks.rs:270-281 | popping the back while it is no later than the new frame, then pushing, gives the frames later than every later frame |
| CleanRuns.HeldAfterPush | crates/calliope-cli/src/canary/checks.rs:259-281 | the same for what the deque holds: offsets and next arrivals |
| CleanRuns.FrontDecides | crates/calliope-cli/src/canary/checks.rs:282-291 | once the front is on time the pops may stop: no frame the deque stands for is late |
| CleanRuns.CleanRun.AddGoodFrame | crates/calliope-cli/src/canary/checks.rs:259-293 | the incremental update refines the run as a list of its frames: start, last arrival, means and deque are what the whole list gives, and every push is popped at most once |
| HashTables.PtsMeans | crates/calliope-cli/src/canary/checks.rs:99-117 | a text of the form hours, two digits, two digits, dot, nine digits is taken, as the nanoseconds it says |
| HashTables.OnlyPtsAreTaken | crates/calliope-cli/src/canary/checks.rs:99-117 | and no other text is |
| HashTables.HoursMeans | crates/calliope-cli/src/canary/checks.rs:99-117 | hours are taken if and only if they are decimal digits, after one plus or none, that say a number below 2^64 |
| HashTables.HexMeans | crates/calliope-cli/src/canary/checks.rs:52-59 | a digest is one or more of the sixteen digits in lower case |
| HashTables.DigestMeans | crates/calliope-cli/src/canary/checks.rs:45-61 | a line gives a digest if and only if it is such a text, a blank and the digest, in lower-case hexadecimal digits |
| HashTables.TableMeans | crates/calliope-cli/src/canary/checks.rs:44-65 | lines are a table if and only if all are of that form with digests of one length |
| HashTables.Parse | crates/calliope-cli/src/canary/checks.rs:40-71 | a file is refused exactly if it has no line or is no table; else each digest lists, ascending, exactly the places where it is |
| HashTables.LoadVariants | crates/calliope-cli/src/canary/checks.rs:73-97 | variants load exactly if there is one, each of them does and all have the same number of frames; a digest is then at the places where any variant has it |
| ContentChecks.ContentCheck.Observe | crates/calliope-cli/src/canary/checks.rs:165-188 | the whole new state and the verdict of one frame, as the function of which the rows below speak |
| ContentChecks.VerdictMeans | crates/calliope-cli/src/canary/checks.rs:165-188 | a frame is wrong if and only if its digest is unknown, the next one if and only if a place of its digest follows on or there is nothing to follow; else as many frames are skipped as lie before the place it is found at |
| ContentChecks.EachIsCounted | crates/calliope-cli/src/canary/checks.rs:165-188 | over any digests `matched` grows by the number of places with a known one and `mismatched` by the number of the others |
| ContentChecks.StreamIsCounted | crates/calliope-cli/src/canary/checks.rs:165-188 | on a stream of the clip's frames these are the intact and the damaged arrivals |
| ContentChecks.PositionInvariant | crates/calliope-cli/src/canary/checks.rs:165-188 | after any digests from a fresh start, the position is the first match plus frames seen since plus frames skipped, modulo the clip, whatever matched or not |
| ContentChecks.SkipIsMissingModulo | crates/calliope-cli/src/canary/checks.rs:165-188 | the skip count of a stretch is the number of its missing frames modulo the clip |
| ContentChecks.SkippedCountsLostFrames | crates/calliope-cli/src/canary/checks.rs:165-188 | with distinct frames `skipped` never exceeds the frames lost, and equals them exactly if no stretch lost a whole clip |
| ContentChecks.LostIsMissing | crates/calliope-cli/src/canary/checks.rs:165-188 | the stretches add up to every frame missing between the first and the last intact one |
| FrameChecking.FrameChecks.Observe | crates/calliope-cli/src/canary/checks.rs:362-401 | the whole new state after a line: a pending window is settled first, then timestamps, content, run and offsets |
| FrameChecking.FrameChecks.Restart | crates/calliope-cli/src/canary/checks.rs:352-360 | a restart settles a pending window, breaks the run and forgets positions, and keeps all counts |
| FrameChecking.FrameChecks.SettleWindowBefore | crates/calliope-cli/src/canary/checks.rs:407-417 | a window is settled by the first event at or after its end, and by no earlier one |
| FrameChecking.FrameChecks.TakeRecovery | crates/calliope-cli/src/canary/checks.rs:419-425 | the settled recovery if there is one, else the present one, which `RecoveryMeans` spells out; no window or recovery is left over |
| FrameChecking.FrameChecks.RecoveryNow | crates/calliope-cli/src/canary/checks.rs:427-447 | what `RecoveryMeans` spells out, and the offsets gathered for it are taken |
| FrameChecking.FrameChecks.TakeSample | crates/calliope-cli/src/canary/checks.rs:449-464 | a sample takes the counts and offsets gathered since the last one, each once |
| FrameChecking.RecoveryMeans | crates/calliope-cli/src/canary/checks.rs:427-447 | over the frames of the run: it recovered if and only if it has frames, its newest is not late and arrived no earlier than the tail of the window; the value is the time from the fault's end to the arrival after the last late frame, at least zero; the drift is the mean of the audio offsets minus that of the video offsets, in milliseconds |
| FrameHistories.ContentIsCounted | crates/calliope-cli/src/canary/checks.rs:362-401 | over any history from fresh checks the content counts are the numbers of video lines with a known and an unknown digest since the last sample |
| FrameHistories.PreviousIsKept | crates/calliope-cli/src/canary/checks.rs:371-378 | the line remembered for a sink is the last one of it since the last restart |
| FrameHistories.TimestampsAreCounted | crates/calliope-cli/src/canary/checks.rs:362-386 | backward steps are the lines since the last sample with an earlier pts than the line of that sink before, forward jumps those whose pts moved on further than the arrival by more than the limit |
| FrameHistories.OffsetsAreGathered | crates/calliope-cli/src/canary/checks.rs:393-400 | the offsets of either sink since the last sample, summed and counted |
| FrameHistories.SampleTells | crates/calliope-cli/src/canary/checks.rs:449-464 | so a sample after any history: both counts and the drift, from the lines since the last sample alone |
| FrameHistories.RunIsUnbroken | crates/calliope-cli/src/canary/checks.rs:387-392 | the run is the good frames since the last restart or wrong frame |
| FrameHistories.RunOffsetsAreGathered | crates/calliope-cli/src/canary/checks.rs:387-400 | its offsets are those of the lines since then and since the last reading |
| FrameHistories.RecoveryTells | crates/calliope-cli/src/canary/checks.rs:427-447 | so a recovery after any history: when there is one, its seconds and its drift, from the lines of the unbroken run alone |
| LateJudging.LineCarries | crates/calliope-cli/src/canary/checks.rs:362-401 | a line that settles no window treats all else as if there were none |
| LateJudging.SettledAtItsEnd | crates/calliope-cli/src/canary/checks.rs:403-447 | events after an announcement end in the state of the prompt judgement plus the recovery kept aside, with the same samples |
| LateJudging.JudgedAtItsEnd | crates/calliope-cli/src/canary/checks.rs:419-447 | a window that no event has reached is judged as it stands |
| LateJudging.LateIsPrompt | crates/calliope-cli/src/canary/checks.rs:403-447 | for every interleaving of lines, restarts and samples after the announcement, judging late gives the recovery, the samples and the state of judging just before the first event at or after the end |
| LateJudging.JudgementSays | crates/calliope-cli/src/canary/checks.rs:403-447 | for every interleaving the judgement is of the run before the first event at or after the end: recovered if and only if that has frames, its newest is not late and arrived in the tail; with seconds and drift as above |
| LateJudging.AnnouncedLater | crates/calliope-cli/src/canary/mod.rs:342-354 | announcing a window later changes nothing while no event has come at or after its end |
| LateJudging.LateRunIsPromptRun | crates/calliope-cli/src/canary/mod.rs:94-115 | over a whole run of windows, each announced before an event at or after its end, late and prompt sampling end in the same state with the same recoveries and samples |
| LateJudging.AnnouncedTooLate | crates/calliope-cli/src/canary/mod.rs:94-115 | a run from fresh checks, with a window announced after such an event, where the two give different recoveries |
| RssWindows.RssWindow.Push | crates/calliope-cli/src/canary/checks.rs:477-494 | no growth before this pid has run a whole window; then it is the slope of what the pushes of this pid leave held, unless that takes a later time from an earlier one |
| RssWindows.RssWindow.PopBefore | crates/calliope-cli/src/canary/checks.rs:484-490 | popping from the front keeps the points from the first one inside the window on |
| RssWindows.HeldFromTheFirstToStay | crates/calliope-cli/src/canary/checks.rs:477-490 | whatever the clock did, held are the points from the first one on that is in the window of every push since its own |
| RssWindows.HeldIsTheWindowIff | crates/calliope-cli/src/canary/checks.rs:477-490 | that is what lies in the present window if and only if from some point on all points do, none before does, and no push popped that point |
| RssWindows.InOrderHeldIsTheWindow | crates/calliope-cli/src/canary/checks.rs:477-490 | with a clock that never steps back that is so at each push |
| RssWindows.SteppingBackHoldsLess | crates/calliope-cli/src/canary/checks.rs:484-490 | three pushes after which the window has a point that an earlier push popped |
| RssWindows.SteppingBackHoldsMore | crates/calliope-cli/src/canary/checks.rs:484-490 | three pushes after which a point from before the window is held |
| RssWindows.UnderflowsIff | crates/calliope-cli/src/canary/checks.rs:498-513 | a slope of the points held takes a later time from an earlier one if and only if an earlier time was pushed after the first that stays |
| RssWindows.InOrderNeverUnderflows | crates/calliope-cli/src/canary/checks.rs:498-513 | with a clock that never steps back none does |
| RssWindows.SteppingBackUnderflows | crates/calliope-cli/src/canary/checks.rs:498-513 | three samples, the last after the clock stepped back, for which the slope is asked for and subtracts the later time from the earlier one |
| RssWindows.RecentIsInWindow | crates/calliope-cli/src/canary/checks.rs:484-490 | for times in order, what popping leaves is what lies in the window |
| RssWindows.RecentOfRecent | crates/calliope-cli/src/canary/checks.rs:484-490 | popping for an earlier window first changes nothing |
| RssWindows.ResidualsExpand | crates/calliope-cli/src/canary/checks.rs:498-513 | the squared residuals of any line, completed around any other slope |
| RssWindows.SlopeIsLeastSquares | crates/calliope-cli/src/canary/checks.rs:498-513 | no line has a smaller sum of squared residuals than one with the reported slope |
| RssWindows.SlopeNeedsTwoTimes | crates/calliope-cli/src/canary/checks.rs:498-513 | there is a slope if and only if two points have different times |
| RssWindows.ExactLine | crates/calliope-cli/src/canary/checks.rs:498-513 | samples that grow by the same amount an hour are reported to grow by that amount |
| Calendar.NoUnderflow | crates/calliope-cli/src/canary/record.rs:404-420 | no difference of unsigned numbers in the conversion underflows |
| Calendar.YearOfEraIsIt | crates/calliope-cli/src/canary/record.rs:408-410 | the corrected division finds the year that the day of the era lies in |
| Calendar.LengthOfYear | crates/calliope-cli/src/canary/record.rs:408-410 | years of an era are 366 days long exactly if they end in a leap February |
| Calendar.CivilIsTheCalendar | crates/calliope-cli/src/canary/record.rs:404-420 | every day number is a Gregorian date and the next day number is the next date |
| Calendar.DayZeroIsTheEpoch | crates/calliope-cli/src/canary/record.rs:403-404 | day 0 is 1970-01-01 |
| Calendar.DatesFollowDays | crates/calliope-cli/src/canary/record.rs:404-420 | later days have later dates, so no date comes twice |
| LogNames.PaddedIsInjective | crates/calliope-cli/src/canary/record.rs:387-390 | padded numbers are the same text only if they are the same number, whatever their length |
| LogNames.DateTextSays | crates/calliope-cli/src/canary/record.rs:387-390 | a date is written as year, month and day, in decimal digits worth just these, four for years below 10000 and two for the others |
| LogNames.OneDateADay | crates/calliope-cli/src/canary/record.rs:387-390 | two times have the same date text if and only if they fall on the same day |
| LogNames.FileIsKindAndDay | crates/calliope-cli/src/canary/record.rs:422-424 | two records go to the same file if and only if they are of the same kind and day |
| LogNames.SecondsShareTheDay | crates/calliope-cli/src/canary/record.rs:446-447 | the name a reader builds from the day is the one the writer built from the second |
| LogNames.DatesNameTheFiles | crates/calliope-cli/src/canary/record.rs:422-424 | dates give every kind and day a file of its own |
| DayLogs.ReadLines | crates/calliope-cli/src/canary/record.rs:452-458 | a file is read exactly if all its lines are text, and gives the lines that parse |
| DayLogs.LogDir.ReadDays | crates/calliope-cli/src/canary/record.rs:439-462 | a read fails or gives the records of each day of the range in turn; a missing file is an empty one, and one that cannot be opened fails the range |
| DayLogs.FileKeepsWholeLines | crates/calliope-cli/src/canary/record.rs:426-458 | a file reads as the records whose line was finished and started after a finished one, then a last line that lacks just its newline; one write cut inside a character makes it unreadable |
| DayLogs.LastUnendedMeans | crates/calliope-cli/src/canary/record.rs:426-458 | there is such a last line if and only if some append lacked just its newline, after a finished line, and nothing was written since |
| DayLogs.GivesBackIff | crates/calliope-cli/src/canary/record.rs:452-458 | a file gives a record back if and only if one of its appends started after a finished line, was finished or had nothing written after it, and none was cut inside a character |
| DayLogs.ReadsAtMostWhatArrived | crates/calliope-cli/src/canary/record.rs:426-458 | what can be read is never more than the records that got to the disk, and as much exactly if none of them shares its line with another write |
| DayLogs.FileReadsBackIff | crates/calliope-cli/src/canary/record.rs:426-458 | a file reads back exactly those if and only if besides none was cut inside a character |
| DayLogs.FileIsOfDay | crates/calliope-cli/src/canary/record.rs:422-436 | a file holds what was appended of its kind on its day, and nothing else, over every history of appends |
| DayLogs.ReadsIffText | crates/calliope-cli/src/canary/record.rs:439-462 | a range of days can be read if and only if no append to one of its files was cut inside a character |
| DayLogs.DaysBetween | crates/calliope-cli/src/canary/record.rs:446-462 | the days read are those of all seconds from `since` to now, and the last one is that of now |
| DayLogs.EveryRecordBetween | crates/calliope-cli/src/canary/record.rs:446-462 | so every record of the kind that arrived, of a second between the two, is among those the range can give |
| DayLogs.ReadsWhatWasAppended | crates/calliope-cli/src/canary/record.rs:426-462 | over every history of whole, torn and failed appends, a range reads back exactly the records that arrived, each once, in order, if and only if none was cut inside a character and none shares its line with another write; it never gives more |
| DayLogs.TornLinesLose | crates/calliope-cli/src/canary/record.rs:453-457 | three histories: a whole record that only lacks its newline is read, is lost with the next one appended to it, and a record cut inside a character makes the file unreadable |
| Incidents.TrackedKindsFold | crates/calliope-cli/src/canary/record.rs:131-171 | two causes of one kind can be folded if and only if it is one of the four tracked kinds |
| IncidentTotals.TotalOneMore | crates/calliope-cli/src/canary/record.rs:131-171 | folding one more finding makes, of their total, the total of one more: counts are summed, growth is the greatest, a recording keeps its first file and failure |
| Incidents.Cause.Absorb | crates/calliope-cli/src/canary/record.rs:131-171 | folding keeps the kind, so an incident keeps its key; `TotalOneMore` says what it adds up to |
| Incidents.OpenIncidents.Load | crates/calliope-cli/src/canary/record.rs:253-266 | a store starts from the open file, from none if that is missing, and not at all if it cannot be read |
| Incidents.OpenIncidents.Save | crates/calliope-cli/src/canary/record.rs:357-363 | a save replaces the whole open file or leaves it as it was |
| Incidents.OpenIncidents.Put | crates/calliope-cli/src/canary/record.rs:296-303 | the new list, file and log after a put, also when the save fails |
| Incidents.OpenIncidents.Close | crates/calliope-cli/src/canary/record.rs:305-318 | the new list, file and log after a close, with either disk step failing |
| Incidents.OpenIncidents.Track | crates/calliope-cli/src/canary/record.rs:320-355 | a finding opens or extends the incident, a clean sample closes it, anything else leaves it; `OpenHoldsTotals` says what an extended one holds |
| Incidents.OpenIncidents.CloseUnconfigured | crates/calliope-cli/src/canary/record.rs:268-284 | the closes in order, up to the first that fails |
| Incidents.ClosingStopped | crates/calliope-cli/src/canary/record.rs:280-283 | after a close that fails none of the later ones is tried |
| IncidentRuns.PutIsSound | crates/calliope-cli/src/canary/record.rs:296-303 | a put replaces its own incident only, keeps every other one and keeps list and file alike |
| IncidentRuns.CloseIsSound | crates/calliope-cli/src/canary/record.rs:305-318 | a close takes just its incident off the list, and the file follows exactly if both disk steps succeed |
| IncidentRuns.CloseHolds | crates/calliope-cli/src/canary/record.rs:305-318 | where a close leaves each incident, and that its own was appended, as far as that got |
| IncidentRuns.CloseKeeps | crates/calliope-cli/src/canary/record.rs:315-317 | while list and file agree, a close takes an incident off the file if and only if it is its own and both disk steps succeed |
| IncidentRuns.CloseEachIsSound | crates/calliope-cli/src/canary/record.rs:280-283 | a sequence of closes keeps the invariants and, if none fails, leaves none of its incidents open |
| IncidentRuns.CloseEachHolds | crates/calliope-cli/src/canary/record.rs:280-283 | and it takes an incident off the file if and only if the closes before that incident's own succeeded and so did its own |
| IncidentRuns.UnconfiguredAreClosed | crates/calliope-cli/src/canary/record.rs:268-284 | afterwards every open incident belongs to a configured pipeline |
| IncidentRuns.FindingsFold | crates/calliope-cli/src/canary/mod.rs:301-340 | no sample reaches the pair of causes that cannot be folded |
| IncidentRuns.PutsReplaceThemselves | crates/calliope-cli/src/canary/supervisor.rs:274-303 | whatever a writer puts replaces the incident it continues, or none |
| IncidentRuns.WriteHolds | crates/calliope-cli/src/canary/record.rs:296-318 | where a step of any writer leaves each incident on the list, and what it appends, list and file alike or not |
| IncidentRuns.StepIsSound | crates/calliope-cli/src/canary/mod.rs:226-389 | every step of every writer, start and crash keeps one open incident for a pipeline and kind, also after a disk error while other writers go on |
| IncidentTotals.SampleShows | crates/calliope-cli/src/canary/mod.rs:301-340 | when a sample gives a finding, which one, and when it is clean, kind by kind and tier by tier |
| IncidentTotals.SampleOpens | crates/calliope-cli/src/canary/record.rs:337-352 | a finding where none of its kind is open opens an incident with it |
| IncidentTotals.FailureOpens | crates/calliope-cli/src/canary/supervisor.rs:274-303 | so does a failure after the grace period, with its error and output |
| IncidentTotals.FailureInGraceOpensNone | crates/calliope-cli/src/canary/supervisor.rs:274-303 | one in grace leaves the store as it is |
| IncidentTotals.OpenHoldsTotals | crates/calliope-cli/src/canary/record.rs:320-355 | over every run of the process, an incident that is still open holds the total of what it held and of all findings of its pipeline and kind since, and as many restarts more as there were failures; all else of it is as it was |
| IncidentTotals.FramesFlowCloses | crates/calliope-cli/src/canary/supervisor.rs:305-310 | once frames of a pipeline flow, none of its incidents of a failed or silent process is open |
| IncidentTotals.RecoveryCloses | crates/calliope-cli/src/canary/mod.rs:375-383 | after a recovery none of its incidents of a missing one is |
| IncidentTotals.CleanSampleCloses | crates/calliope-cli/src/canary/mod.rs:301-340 | after a clean sample none of that pipeline and kind is |
| IncidentTotals.CloseSays | crates/calliope-cli/src/canary/record.rs:313-316 | a close appends its incident with its end, at the time of the close, and nothing else |
| IncidentRuns.CloseLogsOnce | crates/calliope-cli/src/canary/record.rs:305-318 | a close tries to append its incident once, however far that gets |
| IncidentRuns.StepLogsOnce | crates/calliope-cli/src/canary/record.rs:315-317 | each incident is appended at most once more than the process has stopped |
| IncidentRuns.RunIsSound | crates/calliope-cli/src/canary/mod.rs:94-135 | both over every run from a sound store, with disk errors and crashes between any two disk steps and writers that go on after them |
| IncidentRuns.FirstInTheFileIsFiled | crates/calliope-cli/src/canary/record.rs:296-303 | an incident that comes into the open file is on the list and in the file then |
| IncidentRuns.OffTheFileExactlyWhen | crates/calliope-cli/src/canary/record.rs:296-318 | over every run, an incident in the open file is not there at the end if and only if a close took it off the list and the store was then saved, by that close or by any writer before the process stopped |
| IncidentRuns.LogGivesBackIff | crates/calliope-cli/src/canary/record.rs:439-462 | reading the log by day gives an incident back if and only if one of its appends can be read |
| IncidentRuns.LostExactlyWhen | crates/calliope-cli/src/canary/record.rs:252-363 | over every run, with appends cut off anywhere, an incident in the open file can be read neither there nor in the log at the end if and only if it left the file and none of its appends can be read |
| IncidentRuns.WholeAppendsLoseIff | crates/calliope-cli/src/canary/record.rs:305-318 | where no append is cut off: if and only if it left the file although each of its appends failed |
| IncidentRuns.FailedSavesLoseNothing | crates/calliope-cli/src/canary/record.rs:313-317 | so runs without a failed append lose nothing, whichever saves fail and whoever writes on |
| IncidentRuns.AnIncidentGetsLost | crates/calliope-cli/src/canary/mod.rs:94-135 | a run from the first store in which a saved incident is lost: two pipelines, one failed append and the other pipeline going down before the exit |
| IncidentRuns.ATornCloseGetsLost | crates/calliope-cli/src/canary/record.rs:426-458 | a run from the first store in which a saved incident is lost and no other writer saves: its append is cut off, and after the next start it is appended to the same line |
| IncidentRuns.FirstStoreIsSound | crates/calliope-cli/src/canary/record.rs:253-260 | the store that runs start from keeps all this |
| SplitMix.XorShiftUndone | crates/calliope-core/src/fault.rs:170-172 | a shift-and-xor step can be undone |
| SplitMix.OddFactorUndone | crates/calliope-core/src/fault.rs:170-171 | a wrapping multiplication by an odd constant can be undone |
| SplitMix.XorShiftRedone | crates/calliope-core/src/fault.rs:170-172 | and a shift-and-xor step undoes its inverse: nothing is shifted away for good |
| SplitMix.MixIsOnto | crates/calliope-core/src/fault.rs:167-173 | the output mixer reaches every 64-bit word |
| SplitMix.MixIsOneToOne | crates/calliope-core/src/fault.rs:167-173 | and no word twice: it is a bijection, with a computed inverse |
| SplitMix.StateAdvancesByGamma | crates/calliope-core/src/fault.rs:168 | the state after n draws is the seed plus n times the constant, modulo 2^64 |
| SplitMix.StateHasFullPeriod | crates/calliope-core/src/fault.rs:168 | from any state every state comes up within 2^64 draws |
| SplitMix.EveryWordComesUp | crates/calliope-core/src/fault.rs:165-173 | so from any state every word is drawn |
| Corruption.TruncationKeepsSome | crates/calliope-core/src/fault.rs:75-78 | truncation keeps at least one byte and, below 100 percent of two or more, drops at least one |
| Corruption.TruncationKeepsPercent | crates/calliope-core/src/fault.rs:75-78 | what it keeps is the percentage rounded down, or one byte where that is none |
| Corruption.FlipInPlace | crates/calliope-core/src/fault.rs:79-102 | the loop flips, in place, the drawn bits in the order they are drawn; `FlipsTurnBits` says what that changes |
| Corruption.FlipsActBytewise | crates/calliope-core/src/fault.rs:79-87 | each byte changes by the xor of the masks drawn for it, whatever the order |
| Corruption.FlippingTwiceRestores | crates/calliope-core/src/fault.rs:79-87 | the same corruption twice restores the input |
| Corruption.FlipsStayOnTargets | crates/calliope-core/src/fault.rs:79-87 | only drawn offsets change, at most one byte for each flip |
| Corruption.StartCodes | crates/calliope-core/src/fault.rs:142-152 | every start code is found once, in order, although the scan jumps over those it found |
| Corruption.NalPayloadOffsets | crates/calliope-core/src/fault.rs:137-163 | the offsets after the first start code that are in no start code or header byte, each once, ascending |
| Corruption.RangesArePayload | crates/calliope-core/src/fault.rs:153-161 | the ranges between start codes are exactly those offsets |
| Corruption.DropOne | crates/calliope-core/src/fault.rs:107-113 | a draw drops a new offset or brings the next undropped one nearer |
| Corruption.ChooseDrops | crates/calliope-core/src/fault.rs:102-113 | the rejection loop ends for every seed and count with as many distinct offsets as asked for |
| Corruption.DropsAreDetermined | crates/calliope-core/src/fault.rs:107-113 | the offsets dropped depend on the seed and the count only |
| Corruption.SurvivorsAreTheRest | crates/calliope-core/src/fault.rs:114-119 | what is left is a subsequence shorter by the offsets dropped |
| Corruption.DropBytes | crates/calliope-core/src/fault.rs:102-119 | the output is the input without the first min(count, length - 1) distinct offsets drawn |
| Corruption.DropsLeaveTheRest | crates/calliope-core/src/fault.rs:102-119 | it is one subsequence for each seed, of exactly that length |
| Corruption.Corrupt | crates/calliope-core/src/fault.rs:69-121 | all four modes; an empty input stays empty; `FlipModesChangeBits` says what the flip modes change |
| BitFlips.MaskTurnsOneBit | crates/calliope-core/src/fault.rs:79-87 | the mask of a bit turns that bit over and leaves all others |
| BitFlips.FlipsTurnBits | crates/calliope-core/src/fault.rs:79-102 | flips change at most as many bits as there are, and an even number fewer |
| BitFlips.FlipModesChangeBits | crates/calliope-core/src/fault.rs:79-101 | so `Corrupt` in either flip mode: one flip changes one bit, at the target drawn, an odd number of flips always changes the output, and none is changed if nothing can be drawn |
| BitFlips.FlipsResume | crates/calliope-core/src/fault.rs:79-87 | each flip draws two words of its own: later flips are those of the state that the earlier ones left |
| BitFlips.CorruptInTurn | crates/calliope-core/src/fault.rs:79-87 | so flipping bits twice, going on with the generator, is flipping all of them at once |
| BitFlips.PayloadMeans | crates/calliope-core/src/fault.rs:137-163 | an offset may be drawn if and only if it comes after the start of some start code and is in no start code or header byte |
| BitFlips.EveryTargetIsHit | crates/calliope-core/src/fault.rs:82-84 | for every target a seed that flips it |
| BitFlips.EveryBitIsTurned | crates/calliope-core/src/fault.rs:82-84 | for every bit a seed that turns it |
| BitFlips.EveryOffsetIsDropped | crates/calliope-core/src/fault.rs:107-113 | for every offset a seed that drops it |
| Corruption.ValidFaultsShorten | crates/calliope-core/src/fault.rs:55-66 | a fault that passes validation cuts something off or out of two bytes or more, and leaves something |
| Corruption.NalFlipsSpareHeaders | crates/calliope-core/src/fault.rs:88-101 | payload flips leave every start code and header byte, and a stream without start codes, as they were |
| Minimize.Pass | crates/calliope-core/src/minimize.rs:21-32 | one pass ends in a confirmed subsequence with at most ceil(length / chunk) calls, also for an oracle that answers differently each time |
| Minimize.ChunksIsCeiling | crates/calliope-core/src/minimize.rs:22-23 | the number of runs a pass looks at is the rounded up quotient |
| Minimize.PassCost | crates/calliope-core/src/minimize.rs:19-37 | what a pass can cost as the chunks halve |
| Minimize.Minimize | crates/calliope-core/src/minimize.rs:14-39 | the result is a subsequence the oracle confirmed, found in at most (5n - 6) / 2 calls, the same for the same predicate, and minimal if adding bytes keeps a failure between subsequences of the input |
| Minimize.OneMinimalIsMinimal | crates/calliope-core/src/minimize.rs:10-14 | if it does between subsequences of the result, needing each single byte is the same as having no failing proper subsequence |
| Minimize.MinimalityNeedsClosure | crates/calliope-core/src/minimize.rs:10-14 | else the result need not be minimal: an input and a predicate for which it is not |
| Clusters.NetBraces | crates/calliope-adapter-gst/src/dot.rs:320-338 | the count of the scanning loop |
| Clusters.QuotesCountNothing | crates/calliope-adapter-gst/src/dot.rs:320-338 | a quoted string counts no braces, whatever it holds and escapes |
| Clusters.PlainCounts | crates/calliope-adapter-gst/src/dot.rs:320-338 | a stretch without quotes counts its opening minus its closing braces, whatever follows |
| Clusters.UnquotedCounts | crates/calliope-adapter-gst/src/dot.rs:320-338 | so does a line without quotes |
| Clusters.OpenNest | crates/calliope-adapter-gst/src/dot.rs:183-216 | of two open clusters the later one is inside the other and deeper |
| Clusters.OpenMeans | crates/calliope-adapter-gst/src/dot.rs:183-216 | a cluster is open as long as, from the line that opens it on, more braces opened than closed |
| Clusters.LabelMeans | crates/calliope-adapter-gst/src/dot.rs:200-212 | a label is right in a body if and only if that is open and just one more brace opened than closed since |
| Clusters.ClustersNest | crates/calliope-adapter-gst/src/dot.rs:183-216 | a cluster opened inside another closes no later |
| Clusters.OpenCluster | crates/calliope-adapter-gst/src/dot.rs:188-199 | marking the innermost open cluster marks all that hold the new one |
| Clusters.NameCluster | crates/calliope-adapter-gst/src/dot.rs:200-212 | a label names a cluster exactly if it is right in its body and the first that is not empty |
| Clusters.CloseClusters | crates/calliope-adapter-gst/src/dot.rs:213-216 | popping from the top closes exactly the clusters whose body the depth has left |
| Clusters.ParseClusters | crates/calliope-adapter-gst/src/dot.rs:182-219 | a cluster is a bin if and only if another one opens while it is open |
| Flattening.OwnerHasLongestPrefix | crates/calliope-adapter-gst/src/dot.rs:86-97 | the owner of a pad has the longest of the prefixes that fit, and of equally long ones the last |
| Flattening.WalkToLeafPads | crates/calliope-adapter-gst/src/dot.rs:150-180 | a walk ends on cyclic pads too, lists leaf pads it can reach and no others, and leaves out none that was not seen before |
| Flattening.BuildAdjacency | crates/calliope-adapter-gst/src/dot.rs:112-118 | the map has each pad's links in their order |
| Flattening.NodesAreDistinct | crates/calliope-adapter-gst/src/dot.rs:100-110 | different leaf elements are different nodes |
| Flattening.NodesAndElements | crates/calliope-adapter-gst/src/dot.rs:100-110 | nodes are the leaf elements in dump order |
| Flattening.AddReached | crates/calliope-adapter-gst/src/dot.rs:135-144 | one link for each source and destination, the first one found |
| Flattening.FlattenedMore | crates/calliope-adapter-gst/src/dot.rs:121-145 | after each pad link the links found are those the pad links so far lead to |
| Flattening.ParseDot | crates/calliope-adapter-gst/src/dot.rs:79-148 | the graph is the flattened one; no cluster is an error |
| Flattening.FlatteningIsReachability | crates/calliope-adapter-gst/src/dot.rs:120-180 | two leaf elements are linked if and only if a path of pad links leads from one to the other with no leaf's pad in between |
| Flattening.LinksAreOnceEach | crates/calliope-adapter-gst/src/dot.rs:141-147 | each pair is linked once, all indices are in range, and a link has the first caps on a path from its source to its destination |
| Flattening.CarriesFirstCaps | crates/calliope-adapter-gst/src/dot.rs:150-180 | what a path carries is the caps of its first link that has any |
| Schedules.Check | crates/calliope-cli/src/canary/schedule.rs:57-78 | a schedule is accepted exactly if windows alternate round the cycle and no name comes twice; a complaint is right and about the first offender |
| Schedules.EarlierEndsBefore | crates/calliope-cli/src/canary/schedule.rs:100-122 | windows of all cycles since the epoch do not overlap |
| Schedules.SlotsFillTime | crates/calliope-cli/src/canary/schedule.rs:100-122 | they fill all time since the epoch, one after the other round the cycle, each as long as it says |
| Schedules.RecoverySays | crates/calliope-cli/src/canary/schedule.rs:100-123 | a recovery window is the clean window with its bounds, and its fault is that of the window it follows |
| Schedules.NextRecoveryWindow | crates/calliope-cli/src/canary/schedule.rs:100-123 | the search ends within one window more than a cycle has, on the clean window with the least end after `now` over all cycles and the fault right before it |
| Schedules.NextCleanIsUnique | crates/calliope-cli/src/canary/schedule.rs:100-123 | there is one such window |
| Schedules.EndMovesOn | crates/calliope-cli/src/canary/schedule.rs:100-123 | asked again at the end of a window, it gives the next clean one |
| Schedules.EveryCleanIsVisited | crates/calliope-cli/src/canary/schedule.rs:100-123 | asking so again and again comes to every later clean window |
| Schedules.NoneInBetween | crates/calliope-cli/src/canary/schedule.rs:100-123 | none is left out in between |
| Schedules.LongestIsMaximal | crates/calliope-cli/src/canary/schedule.rs:89-98 | the longest fault with the clean window after it, as a maximum that is attained |
| Schedules.LongestBoundsRecovery | crates/calliope-cli/src/canary/schedule.rs:89-98 | from a fault's start to the end of its recovery window is never longer than that, and for one fault as long |
| TimeBases.RoundsToNearest | crates/calliope-core/src/timestamps.rs:31-36 | the quotient in integers is the nearest one, half up |
| TimeBases.WithinHalfATick | crates/calliope-core/src/timestamps.rs:31-36 | a tick is the nearest if and only if what lies between it and the nanoseconds is at most half a tick, cross-multiplied; the later of two equally near |
| TimeBases.LaterIsNoEarlierTick | crates/calliope-core/src/timestamps.rs:31-36 | later nanoseconds have no earlier tick |
| TimeBases.WholeTicksCarryOver | crates/calliope-core/src/timestamps.rs:31-36 | shifting by whole ticks shifts the tick |
| TimeBases.TruncationComesBack | crates/calliope-core/src/timestamps.rs:31-36 | a tick survives conversion to truncated nanoseconds exactly if at most half a tick is cut off |
| TimeBases.RoundingUpComesBack | crates/calliope-core/src/timestamps.rs:31-36 | and rounding up exactly if less than half a tick is added |
| TimeBases.LongTicksComeBack | crates/calliope-core/src/timestamps.rs:31-36 | with ticks of two nanoseconds or more every tick survives both |
| TimeBases.ShortTicksGetLost | crates/calliope-core/src/timestamps.rs:31-36 | a time base with a shorter tick where one does not |
| TimeBases.SameTicksUpToRounding | crates/calliope-core/src/timestamps.rs:191-204 | two decodes agree exactly if they decode the same ticks, however each of them rounds each one |
| MostCommonValues.MostCommon | crates/calliope-core/src/timestamps.rs:178-189 | a value seen most often, and of those the one seen first |
| MostCommonValues.MostCommonIsUnique | crates/calliope-core/src/timestamps.rs:178-189 | that leaves one value |
| MostCommonValues.ShiftMovesMostCommon | crates/calliope-core/src/timestamps.rs:178-189 | it moves along when all values are shifted |
| TimestampComparisons.CheckPairs | crates/calliope-core/src/timestamps.rs:130-158 | the first stamped frame that does not fit, or all fit and exactly the stamped ones are marked |
| TimestampComparisons.Compare | crates/calliope-core/src/timestamps.rs:96-176 | the offset and the verdict, each with its exact condition |
| TimestampComparisons.VerdictIsUnique | crates/calliope-core/src/timestamps.rs:66-86 | the conditions leave one verdict |
| TimestampComparisons.MatchMeans | crates/calliope-core/src/timestamps.rs:96-176 | every frame paired, a match means exactly: as many frames, every stamp is carried plus the one offset, to the nearest tick, every unstamped frame increases, one is stamped |
| TimestampComparisons.OffsetIsMostCommon | crates/calliope-core/src/timestamps.rs:116-125 | no other offset is carried by more of the frames that are paired, and it is zero if none carries any |
| TimestampComparisons.FirstFrameMeans | crates/calliope-core/src/timestamps.rs:96-176 | only the first frame paired, a match means exactly: the reference stamped its first frame, the decode has a pts for it, and each later pts is after the one before |
| TimestampComparisons.DifferenceSays | crates/calliope-core/src/timestamps.rs:130-158 | a difference is at the first frame that does not carry its stamp plus the offset, with both stamps as they are |
| TimestampComparisons.ShiftMovesOffset | crates/calliope-core/src/timestamps.rs:116-125 | shifting the decode by whole ticks adds them to the offset, if there is a difference at all |
| TimestampComparisons.CompareIsShiftEquivariant | crates/calliope-core/src/timestamps.rs:90-176 | and leaves the verdict as it is, up to the nanoseconds it reports |
| TimestampComparisons.SharedShiftMatches | crates/calliope-core/src/timestamps.rs:96-176 | a decode that carries every stamp plus one shift matches with that offset, however it rounds |
| Recordings.SortIsAscending | crates/calliope-cli/src/canary/recording.rs:204 | the sorted listing is ascending by run and index and has the same files |
| Recordings.ClosedHaveALater | crates/calliope-cli/src/canary/recording.rs:206-213 | closed are exactly the files that a later one of their run follows |
| Recordings.CutOffAreLastOfDeadRuns | crates/calliope-cli/src/canary/recording.rs:214-216 | removed are exactly the last files of runs before the latest |
| Recordings.AllButTheNewest | crates/calliope-cli/src/canary/recording.rs:183-219 | every file is one of these two, and never both, save the newest of all, which is neither |
| Recordings.RecordingRow.ClosedFiles | crates/calliope-cli/src/canary/recording.rs:183-219 | the closed files oldest first, and the directory without those cut off |
| Recordings.RecordingRow.CheckClosedFiles | crates/calliope-cli/src/canary/recording.rs:158-175 | every closed file is checked once and leaves the directory, a failed one is kept, and only the newest file of all stays |
| RecordingRuns.StepIsSound | crates/calliope-cli/src/canary/recording.rs:158-219 | every step of the writer and of a check keeps all files accounted for |
| RecordingRuns.EveryFileIsAccountedFor | crates/calliope-cli/src/canary/recording.rs:158-219 | over every interleaving each file written is in one place: there, dropped or checked; a checked one has a later one in its run, a dropped one a later run, and the newest is there |
| RecordingRuns.CheckLeavesTheNewest | crates/calliope-cli/src/canary/recording.rs:158-219 | after a check what is left is the newest of the files it listed and what was written meanwhile |
| RecordingRuns.DropsTheLastIff | crates/calliope-cli/src/canary/recording.rs:182-216 | whatever a listing misses, a file dropped is the last its run wrote exactly if the listing has that last one |
| RecordingRuns.OnlyLastsAreDropped | crates/calliope-cli/src/canary/recording.rs:182-216 | while checks see all files and none fails, only last files of runs are dropped and every check is reported |
| RecordingRuns.FailedCheckDropsAClosedFile | crates/calliope-cli/src/canary/recording.rs:158-219 | a run in which a check fails after one file, whose finding is then lost and reported by nobody, and the next check drops a closed file unchecked |
| RecordingRuns.MissedFileDropsAClosedFile | crates/calliope-cli/src/canary/recording.rs:182-216 | a run without a failed check in which a listing misses a file, and a closed file is dropped unchecked |
| RecordingDrops.DropsAClosedFileIff | crates/calliope-cli/src/canary/recording.rs:182-216 | a file that a check drops has a later one in its run if and only if the listing lacked a later one that was there, or an earlier check dropped a later one and had not listed this one or failed before it came to it |
| RecordingDrops.ClosedFileIsDroppedIff | crates/calliope-cli/src/canary/recording.rs:158-219 | over every run, a closed file is dropped unchecked if and only if some check drops it for one of these reasons |
| ElementNames.CanonicalOfBoth | crates/calliope-core/src/pipeline_diff.rs:109-116 | the canonical form goes letter by letter |
| ElementNames.LowerMeans | crates/calliope-core/src/pipeline_diff.rs:109-116 | two letters have one lower case if and only if they are the same or one is the capital of the other, by the two alphabets |
| ElementNames.CanonicalMeans | crates/calliope-core/src/pipeline_diff.rs:109-134 | two names have one canonical form if and only if their letters and digits agree up to capitals; then they match, and match the same others |
| ElementNames.MatchMeansSpelling | crates/calliope-core/src/pipeline_diff.rs:109-134 | two names match if and only if the letters and digits of one, up to capitals, are those of the other with decimal digits, or nothing, after them |
| ElementNames.SameElementMeans | crates/calliope-core/src/pipeline_diff.rs:165-175 | two names are the same element if and only if one is spelled so after the other, or they are spelled after the two sides of a listed synonym, in either direction |
| ElementNames.MatchMeans | crates/calliope-core/src/pipeline_diff.rs:118-134 | two names match exactly if one is the other with an instance number, or nothing, after it |
| ElementNames.InstanceMatches | crates/calliope-core/src/pipeline_diff.rs:118-134 | an instance of a name matches it, from either side |
| ElementNames.InstancesDoNotMatch | crates/calliope-core/src/pipeline_diff.rs:118-134 | two instances match the bare name and not each other |
| ElementNames.SameElementIsSymmetric | crates/calliope-core/src/pipeline_diff.rs:165-175 | with synonyms too, every name matches itself and the sides can be swapped |
| GreedyPairs.GreedyMeans | crates/calliope-core/src/pipeline_diff.rs:315-336 | the greedy pairing is the only one that fits, is one to one, passes a place over only if it was taken, and leaves one over only if nothing was free |
| GreedyPairs.LeftOversDoNotFit | crates/calliope-core/src/pipeline_diff.rs:315-336 | no two places left over fit |
| GreedyPairs.SelfIsIdentity | crates/calliope-core/src/pipeline_diff.rs:315-336 | a list paired with itself pairs each place with itself |
| GreedyPairs.LeftIsConserved | crates/calliope-core/src/pipeline_diff.rs:262-293 | every left place is in a pair or left over, once |
| GreedyPairs.RightIsConserved | crates/calliope-core/src/pipeline_diff.rs:262-293 | so is every right place |
| CapsDiffs.CompareCaps | crates/calliope-core/src/pipeline_diff.rs:338-381 | conflicts and fields of one side only, for all four cases |
| CapsDiffs.DiffRebuildsLeft | crates/calliope-core/src/pipeline_diff.rs:338-381 | one side's fields and the diff give back the other side's |
| CapsDiffs.SwappingMirrors | crates/calliope-core/src/pipeline_diff.rs:338-381 | swapping the sides mirrors the diff |
| CapsDiffs.RealMeans | crates/calliope-core/src/pipeline_diff.rs:189-207 | a difference is real exactly if both have caps, of different types or with different values of a field |
| CapsDiffs.CleanMeans | crates/calliope-core/src/pipeline_diff.rs:205-212 | nothing is reported exactly if both are the same or only one has caps and they have no field |
| PipelineDiffs.MatchElements | crates/calliope-core/src/pipeline_diff.rs:315-336 | the greedy pairing by name and its inverse |
| PipelineDiffs.ElementsArePairedByName | crates/calliope-core/src/pipeline_diff.rs:315-336 | pairs match by name, and no two elements left over do |
| PipelineDiffs.MatchLinks | crates/calliope-core/src/pipeline_diff.rs:262-285 | shared links with their caps compared, those of the left side only, and which right ones are taken |
| PipelineDiffs.Diff | crates/calliope-core/src/pipeline_diff.rs:240-313 | all six parts of a diff |
| PipelineDiffs.LinksAreConserved | crates/calliope-core/src/pipeline_diff.rs:260-293 | shared links and those of one side are all links of that side, each once |
| PipelineDiffs.ElementsAreConserved | crates/calliope-core/src/pipeline_diff.rs:249-256 | so are the elements |
| PipelineDiffs.MatchMeans | crates/calliope-core/src/pipeline_diff.rs:296-308 | the verdict is a match exactly if all elements and links of both sides are paired and all caps compare clean |
| PipelineDiffs.DiffersMeans | crates/calliope-core/src/pipeline_diff.rs:296-308 | it is a difference if and only if some paired link has caps of two types or two values of a field |
| PipelineDiffs.SharedLinkSays | crates/calliope-core/src/pipeline_diff.rs:262-285 | what a shared link says of its caps, field by field |
| PipelineDiffs.MatchRenames | crates/calliope-core/src/pipeline_diff.rs:235-313 | if it is, the pairing renames one pipeline into the other, link by link |
| PipelineDiffs.SelfMatches | crates/calliope-core/src/pipeline_diff.rs:235-336 | a pipeline matches itself, each element and link paired with itself, whatever names match and however many links are parallel |
| PipelineDiffs.SelfMatchesByName | crates/calliope-core/src/pipeline_diff.rs:235-336 | for the names and synonyms the engines use |
| LinkRanks.PairedByRank | crates/calliope-core/src/pipeline_diff.rs:262-285 | links are paired if and only if they join the same elements and as many links before them do |
| LinkRanks.PairedCleanIff | crates/calliope-core/src/pipeline_diff.rs:262-308 | all links are paired and compare clean if and only if between any two elements both sides have as many, and the caps compare clean in list order |
| Reorderings.BadOrder | crates/calliope-core/src/pipeline_diff.rs:315-336 | for any name that matches two others that do not match each other, and whatever else is in the list, two orders of which the greedy pairing leaves one element over |
| Reorderings.HarmlessIffTransitive | crates/calliope-core/src/pipeline_diff.rs:315-336 | every two orders of a list pair all elements if and only if the names match transitively on that list |
| Reorderings.OrderMattersUnlessTransitive | crates/calliope-core/src/pipeline_diff.rs:165-175 | so for the names and synonyms the engines use |
| Reorderings.GreedyMayLeaveElements | crates/calliope-core/src/pipeline_diff.rs:235-336 | a name and two instances of it, in two orders: one element is left over on each side and the verdict is not a match |
| Renumberings.OrderNeverMattersIff | crates/calliope-core/src/pipeline_diff.rs:235-336 | a pipeline matches itself in all orders of its elements if and only if its names match transitively and every bijection of the elements within matching names takes the links between two elements, in list order, to links whose caps compare clean |
| Renumberings.OrderNeverMattersByName | crates/calliope-core/src/pipeline_diff.rs:165-175 | so for the names and synonyms the engines use |
| Renumberings.NamedApartNeverMatters | crates/calliope-core/src/pipeline_diff.rs:235-336 | if no two elements match, the order never matters |
| Renumberings.SwapMatters | crates/calliope-core/src/pipeline_diff.rs:235-336 | if swapping two matching elements does not keep the links, it does |
| Renumberings.TwoQueues | crates/calliope-core/src/pipeline_diff.rs:235-336 | two queues of one name with a sink each: every order pairs all elements, and with the queues swapped the verdict is not a match |
| MajorityVotes.FramesEqualIsSameKey | crates/calliope-core/src/compare.rs:152-154 | equality is equality of a key, so engines fall into classes; `FramesEqualMeans` says which |
| MajorityVotes.FramesEqualMeans | crates/calliope-core/src/compare.rs:152-154 | two lists of hashes are equal if and only if they are as long and agree letter by letter up to capitals |
| MajorityVotes.GroupEngines | crates/calliope-core/src/compare.rs:126-137 | one group for each class, with its engines in order |
| MajorityVotes.LargestIsMajority | crates/calliope-core/src/compare.rs:138-140 | the largest group is more than half exactly if its class is, and then no other is as large |
| MajorityVotes.MajorityIsUnique | crates/calliope-core/src/compare.rs:138-140 | two classes of more than half are the same |
| MajorityVotes.MajorityVote | crates/calliope-core/src/compare.rs:123-150 | conclusive exactly if there are three engines and one class has more than half of them; that class is the majority in its order, and the outliers are all other classes, in the order in which each first appears |
| MajorityVotes.EveryEngineOnce | crates/calliope-core/src/compare.rs:142-149 | majority and outliers are every engine, once |
| MajorityVotes.OrderDoesNotMatter | crates/calliope-core/src/compare.rs:123-150 | the order of the engines does not matter |

## Left out

- Text formats: TOML, JSON, caps strings, schedules, dot attributes, the lines of the frame probe. A line of a dump comes with its cluster prefix, its
  label and its net braces; the braces themselves are modelled on characters, and so are the lines of hash tables.
- Running subprocesses, network, timeouts, signals and memory readings: what they bring in is a parameter.
- Reports and rendering, scenarios and validators, and the timing checks inside one recording file.
- Async scheduling: what happens under one lock is one step. A listing of recordings is one step too, but may miss files.
- Machine integers: numbers are unbounded, except in the generator, where words are taken modulo 2^64. Floating point is
  modelled by real numbers.
- Names of recordings are pairs of run and index.
- Maps and sorted maps are unordered: the order in which caps fields are listed is not modelled.
- IncidentRuns.LostExactlyWhen: a day's file of the log is read for itself; a range of days with one that cannot be read
  gives nothing at all (`DayLogs.ReadsIffText`).
- Incident ids: the source builds them from the second and they can coincide, so an incident carries a serial number that
  only the model has. A store whose open file is missing starts empty.
- IncidentTotals.OpenHoldsTotals: says what is added within one run of the process. After a restart the incident is what
  the file has, and from there the same holds again.
- Whether a recording has been idle for too long is a parameter of its check.
- Incidents.OpenIncidents.Save: writing the partial file and renaming it is one step that happens or does not.
- DayLogs.FileKeepsWholeLines: a part of a line, alone or followed by another line, is taken never to parse, and a line
  with a character cut in two never to be text, whatever follows.
- RssWindows.RssWindow.Push: nothing is promised where the source's subtraction of unsigned times underflows;
  `UnderflowsIff` says where that is.
- LateJudging.LateRunIsPromptRun: needs each window to be announced before an event at or after its end comes in. For one
  window from its announcement on (`LateIsPrompt`) nothing is needed. Without the condition a window can still come out
  right by chance, so it is not an if and only if.
- Minimize.Minimize: that more bytes keep a failure is sufficient for a minimal result, not necessary; which predicates
  happen to end minimal depends on every candidate tried.
- Flattening.LinksAreOnceEach: of several paths between two elements, which one supplies the caps is the walk's order,
  and is not stated.
- Recordings.RecordingRow.CheckClosedFiles: disk errors are the step `Fail` of `RecordingRuns`; the pruning of kept failed
  files is not part of this model.
- PipelineDiffs.Diff: links and elements are given by their places; labels made of names are presentation.
