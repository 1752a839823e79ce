# Live classroom poll — a Dafny model of its state machine

A teacher runs single-question polls for a class. Students ask to join under
a name. The teacher approves them, rejects them, or removes them later; a
removed or rejected name goes on a kicked list. While a poll is open, each
approved student votes once. The teacher sees live counts, percentages and a
`MM:SS` countdown. When the countdown reaches zero, or shortly after everybody
has answered, the results are shown. All state lives in one Redux slice. A
small service drives that slice and fans events out to listeners and to other
browser tabs through storage keys.

The model covers:

- `Session` (`session.dfy`): the slice's state record, every reducer as a
  pure function, and the slice reducer `Reduce` over an `Action` datatype.
- `SessionProperties` (`session_properties.dfy`): per-reducer effect lemmas,
  idempotence, and the store invariants with their preservation proofs:
  - the name lists are unique and apart;
  - answers are well shaped;
  - vote counts are balanced against and agree with the answers.

  It also holds scenario lemmas for behaviour the code allows.
- `Tally` (`tally.dfy`): the vote-counting helpers. A vote map is a
  `map<string, nat>`. Its sum `MapSum` is defined independently of key order,
  and the method `SumVotes` computes it.
- `SyncEngine` (`engine.dfy`) and `SyncEngineProperties`
  (`engine_properties.dfy`): the service's command dispatcher as logic.
  - Each command is a store change plus a list of effects: listener calls and
    storage keys written.
  - The countdown is an explicit `Tick` step on a single timer slot.
  - The all-answered check schedules a deferred `Reveal` step.
  - The listener registry is modelled.
  - The storage-key routing of other tabs' writes is modelled.
- `CreatePollForm`, `StudentJoinForm` and `ResultsView`: the option editor
  and submit validation, the ordered name checks, the results panel
  arithmetic, and the countdown formatter.
- `Text` and `Wrappers`: the string operations the code leans on (`trim`,
  ASCII `toLowerCase`, `startsWith`, `replace` with a string pattern, number
  to text, `padStart`), and `Option`.

Modelling choices:

- `Date.now()` becomes a parameter `now`. Ids are the decimal text of `now`.
- `Math.round((voteCount / totalVotes) * 100)` becomes round-half-up on
  integers, `(200v + t) / (2t)`.
- JavaScript's `%` is written out as `JsRem60`. Its remainder takes the sign
  of the dividend.
- The service imports and dispatches a `removePoll` action, but the slice
  defines no such action (src/store/pollSlice.ts:175-190). **Assumption:** the
  `removePoll` command dispatches `clearPoll`, the nearest reducer. Everything
  said about that command rests on this assumption.

Where the code does less than one might expect, the model follows the code
and proves what happens:

- `submitVote` never checks that the option belongs to the poll. An unknown
  option is simply added as a new key (apart from the `Object.prototype` names
  listed under "## Left out").
  `calculateFromVoteCounts` still counts such a key in the total
  (`Tally.OrphanKeysCounted`).
- `on` does not deduplicate listeners (`SyncEngineProperties.OnStacks`).
- Once everyone has answered, the results are shown after a delay, but the
  poll stays open and the countdown keeps running
  (`SyncEngineProperties.RevealKeepsPollOpen`,
  `SyncEngineProperties.EveryoneVotedRevealsEarly`).
- `removeStudent` leaves a removed voter's vote counted, so the counts no
  longer sum to the number of answered students
  (`SessionProperties.RemovingVoterUnbalances`). It is the one action the
  count invariant does not survive.
- `rejectStudent` on an approved name kicks it while leaving it on the roster
  (`SessionProperties.RejectingApprovedNameOverlaps`).
- `approveStudent` clears a kicked entry only when the name is also pending.
  A rejected name cannot come back until the kicked list is reset: its new
  request is refused and approving finds nothing
  (`SessionProperties.RejectedNameCannotRejoin`). Choosing the teacher role
  or clearing all data empties the kicked list, and after that the name's
  request is queued again (`SessionProperties.KickedListResetReadmits`).
- The `requestJoin` command still broadcasts a join request for a kicked
  name, although the store ignores it
  (`SyncEngineProperties.KickedRequestStillAnnounced`).
- The time limit is not checked when a poll is submitted; its bounds exist
  only as input attributes (`CreatePollForm.TimeLimitUnchecked`).

## Model

| member | source | states |
|---|---|---|
| Session.SetRole | src/store/pollSlice.ts:54-64 | the role is recorded and the student name kept; choosing the student role changes nothing but the role; choosing the teacher role also drops the poll, empties the roster, the queue and the kicked list, sets the time to 0 and hides results, and nothing else changes |
| Session.SetStudentName | src/store/pollSlice.ts:65-67 | only the student name changes |
| Session.AddPendingStudent | src/store/pollSlice.ts:68-80 | roster, kicked list and poll are untouched; a name already pending changes nothing |
| SessionProperties.AddPendingStudentEffect | src/store/pollSlice.ts:68-80 | nothing changes exactly when the name is pending, approved or kicked; otherwise one entry with that name and timestamp is appended and nothing else changes |
| SessionProperties.AddPendingStudentIdempotent | src/store/pollSlice.ts:68-80 | asking twice under one name equals asking once |
| Session.ApproveStudent | src/store/pollSlice.ts:81-93 | afterwards the name is not pending; the poll is untouched |
| SessionProperties.ApproveStudentEffect | src/store/pollSlice.ts:81-93 | no pending entry means no change; otherwise an unanswered approved student with the pending entry's id is appended, and the name leaves the queue and the kicked list while every other name keeps its place; no other field changes |
| SessionProperties.ApproveStudentIdempotent | src/store/pollSlice.ts:81-93 | approving twice equals approving once |
| Session.RejectStudent | src/store/pollSlice.ts:94-99 | the name is no longer pending and is kicked; roster and poll are untouched |
| SessionProperties.RejectStudentEffect | src/store/pollSlice.ts:94-99 | exactly the pending entries with that name go; with a duplicate-free kicked list the name ends up kicked exactly once and other kicked names keep their counts; no other field changes |
| SessionProperties.RejectStudentIdempotent | src/store/pollSlice.ts:94-99 | rejecting twice equals rejecting once |
| Session.CreatePoll | src/store/pollSlice.ts:100-121 | a new active poll with the given question and options; pending and kicked lists are untouched |
| SessionProperties.CreatePollEffect | src/store/pollSlice.ts:100-121 | the vote keys are exactly the options, every count is 0, and the poll is active; each student keeps name, id and place but loses any answer; the countdown is maxTime and results are hidden |
| Session.SubmitVote | src/store/pollSlice.ts:122-135 | the roster's names and the pending and kicked lists never change |
| SessionProperties.SubmitVoteEffect | src/store/pollSlice.ts:122-135 | for the first student with the name: if the poll is open and they have not answered, the option's count (key added if missing) rises by one, they are marked answered with that option, and nothing else changes; otherwise nothing changes |
| SessionProperties.SubmitVoteUnknownStudent | src/store/pollSlice.ts:124-126 | a vote from a name not on the roster changes nothing |
| SessionProperties.SubmitVoteResubmission | src/store/pollSlice.ts:126-133 | a second vote by the same student, for any option, changes nothing |
| SessionProperties.VoteAfterEndIgnored | src/store/pollSlice.ts:123 | a vote after the poll has ended changes nothing |
| Session.SetTimeRemaining | src/store/pollSlice.ts:136-138 | only the countdown value changes |
| Session.EndPoll | src/store/pollSlice.ts:139-145 | with a poll: it is closed, the results are shown, and the time is 0, while its votes, options and question and every other field are kept; without one: no change |
| Session.SetShowResults | src/store/pollSlice.ts:146-148 | only the results flag changes |
| Session.RemoveStudent | src/store/pollSlice.ts:149-154 | the name leaves the roster and is kicked; the poll and its counts and the pending queue are untouched |
| SessionProperties.RemoveStudentEffect | src/store/pollSlice.ts:149-154 | the roster's names lose exactly that name; with a duplicate-free kicked list the name is kicked exactly once; no other field changes |
| SessionProperties.RemoveStudentIdempotent | src/store/pollSlice.ts:149-154 | removing twice equals removing once |
| Session.ClearPoll | src/store/pollSlice.ts:155-164 | no poll, time 0, results hidden, and every student unanswered with no selection while the names are kept |
| SessionProperties.ClearPollEffect | src/store/pollSlice.ts:155-164 | no poll, time 0, results hidden, the roster's names kept in order, and nobody has answered |
| Session.LeavePoll | src/store/pollSlice.ts:165-168 | role and student name are cleared and nothing else changes |
| Session.ClearAllData | src/store/pollSlice.ts:169-171 | whatever the session held, the result is the initial state: no role, an empty name, no poll, empty roster, queue and kicked list, time 0 and results hidden |
| Session.Reduce | src/store/pollSlice.ts:53-172 | only setRole, leavePoll and clearAllData change the role; only setStudentName, leavePoll and clearAllData change the student name; only setRole, approveStudent, rejectStudent, removeStudent and clearAllData change the kicked list |
| SessionProperties.KickedNameStaysOut | src/store/pollSlice.ts:71-73 | a kicked name that is not pending can neither queue nor be approved |
| SessionProperties.InitialStateInvariant | src/store/pollSlice.ts:39-48 | the initial state satisfies the store invariant |
| SessionProperties.ReduceKeepsNames | src/store/pollSlice.ts:54-171 | every reducer keeps the pending, approved and kicked lists duplicate-free and the approved and pending names apart |
| SessionProperties.ReduceKeepsAnswerShape | src/store/pollSlice.ts:54-171 | every reducer keeps "answered exactly when a selection is recorded" |
| SessionProperties.SubmitVoteKeepsTally | src/store/pollSlice.ts:122-135 | a vote keeps the counts summing to the answered students and each count equal to the students who chose it |
| SessionProperties.ApproveStudentKeepsTally | src/store/pollSlice.ts:81-93 | admitting a student keeps both count properties |
| SessionProperties.ReduceKeepsTally | src/store/pollSlice.ts:54-171 | every action except removing a student who has voted keeps both count properties |
| SessionProperties.ReduceKeepsInvariant | src/store/pollSlice.ts:54-171 | every action except removing a voter keeps the whole store invariant |
| SessionProperties.RunKeepsNames | src/store/pollSlice.ts:54-171 | any sequence of actions keeps the name-list invariant |
| SessionProperties.RunWithoutRemovalKeepsInvariant | src/store/pollSlice.ts:54-171 | any sequence of actions without a removal keeps the whole invariant, so the counts sum to the answered students |
| SessionProperties.RemovingVoterUnbalances | src/store/pollSlice.ts:149-154 | after a student votes and is removed, the counts sum to 1 while nobody has answered |
| SessionProperties.RejectingApprovedNameOverlaps | src/store/pollSlice.ts:94-99 | rejecting an approved name leaves it both approved and kicked |
| SessionProperties.DoubleRequestQueuesOnce | src/store/pollSlice.ts:68-80 | two requests under one name queue it once |
| SessionProperties.RejectedNameCannotRejoin | src/store/pollSlice.ts:81-99 | after a rejection, a new request and an approval leave the name kicked and off both lists |
| SessionProperties.KickedListResetReadmits | src/store/pollSlice.ts:54-80 | after a rejection, choosing the teacher role or clearing all data empties the kicked list, and a new request for the name is then queued |
| SessionProperties.StoredCountsValidate | src/utils/pollCalculations.ts:92-118 | when counts agree with answers and no option is the empty label, the stored counts pass validation against the roster's ballots and equal the recalculated counts |
| Tally.Percentage | src/utils/pollCalculations.ts:44 | 0 when the total is not positive; otherwise the integer nearest 100·v/t, halves rounded up |
| Tally.PercentageBounds | src/utils/pollCalculations.ts:44 | for 0 ≤ v ≤ t the percentage lies in 0..100; it is 100 when v = t > 0 and 0 when v = 0 |
| Tally.CountBallots | src/utils/pollCalculations.ts:33-37 | the keys are unchanged, and each key's count grows by the number of ballots naming it; other ballots are ignored |
| Tally.ZeroCounts | src/store/pollSlice.ts:106 | the keys are exactly the option labels, each with count 0 |
| Tally.CalculatePollResults | src/utils/pollCalculations.ts:22-58 | a key for every option whose count is the number of ballots naming it; the total is the number of ballots; one row per option in order; percentages in 0..100, all 0 with no ballots |
| Tally.CountBallotsSum | src/utils/pollCalculations.ts:33-37 | counting raises the map's sum by the number of ballots naming a known key |
| Tally.TallySumBound | src/utils/pollCalculations.ts:33-39 | the counts sum to at most the total, with equality exactly when every ballot names an option |
| Tally.CalculateFromVoteCounts | src/utils/pollCalculations.ts:64-86 | the total is the sum over every key, options or not; one row per option, a missing key reading 0; each percentage is the rounded share of that total, bounded, and 0 with no votes |
| Tally.OrphanKeysCounted | src/utils/pollCalculations.ts:68-72 | a count under a key that is no option still adds to the total: 1 vote for "A" and 2 for "X" give a total of 3 and 33% for "A" |
| Tally.SumVotes | src/utils/pollCalculations.ts:68 | the loop computes the sum of all values in the map |
| Tally.GetStudentVotesArray | src/utils/pollCalculations.ts:92-97 | no longer than the roster; never the empty label; each non-empty label appears as often as students chose it |
| Tally.StudentVotesArrayAppend | src/utils/pollCalculations.ts:92-97 | roster order is kept: two segments' ballots concatenate |
| Tally.ValidateVoteCounts | src/utils/pollCalculations.ts:103-118 | true exactly when every option's stored count, missing read as 0, equals its count among the ballots |
| Tally.RecalculateVoteCounts | src/utils/pollCalculations.ts:124-131 | a key per option, each the number of students who chose it (non-empty labels) |
| Tally.RecalculatedCountsValidate | src/utils/pollCalculations.ts:103-131 | recalculated counts always validate against the same roster's ballots |
| Tally.AnsweredCount | src/services/websocket.ts:219 | the answered count is at most the roster size, equals it exactly when all answered, and is 0 exactly when none answered |
| Tally.GetVotingProgress | src/utils/pollCalculations.ts:136-159 | remaining plus voted is the total; complete exactly when the total is positive and nobody remains; percentage 0 for an empty class, within 0..100 for 0 ≤ voted ≤ total, and 100 when complete |
| Tally.AllVotedIffComplete | src/utils/pollCalculations.ts:136-159 | `checkAllStudentsVoted` holds exactly when the progress report says the vote is complete |
| SyncEngine.Drop | src/services/websocket.ts:104-108 | the callback is gone and every other callback keeps its multiplicity |
| SyncEngine.On | src/services/websocket.ts:97-102 | the callback is appended to the event's list, even if already there; every other event's list and the rest of the service are unchanged |
| SyncEngine.Off | src/services/websocket.ts:104-108 | the event's list loses every copy of the callback; every other event's list and the rest of the service are unchanged |
| SyncEngine.Broadcast | src/services/websocket.ts:114-121 | one call per registered listener in registration order, then a single write of the event key |
| SyncEngineProperties.DropAppend | src/services/websocket.ts:106 | the filter distributes over concatenation, so the remaining callbacks keep their order |
| SyncEngineProperties.OffUndoesOn | src/services/websocket.ts:97-108 | registering a new callback then unregistering it restores every event's listener list |
| SyncEngineProperties.OnStacks | src/services/websocket.ts:97-102 | registering the same callback twice adds two copies |
| SyncEngineProperties.OffSilences | src/services/websocket.ts:104-108 | after `off` a broadcast never calls that callback, and every other callback keeps its count |
| SyncEngineProperties.BroadcastOrder | src/services/websocket.ts:114-121 | listeners are called in registration order, then the event key is written |
| SyncEngineProperties.RouteEventKey | src/services/websocket.ts:120-151 | the key written for event e is routed back to replaying e |
| SyncEngineProperties.RouteDataKey | src/services/websocket.ts:125-156 | a data key written by the service makes other tabs resynchronise |
| SyncEngineProperties.RouteIgnoresOnlyForeignKeys | src/services/websocket.ts:142 | a key is ignored exactly when it lacks the `poll_` prefix |
| SyncEngineProperties.ReplayMatchesBroadcast | src/services/websocket.ts:114-121 | another tab replaying an event calls the same listeners in the same order as a local broadcast |
| SyncEngineProperties.EmitSavesRouted | src/services/websocket.ts:25-95 | every key any command writes is acted on by other tabs |
| SyncEngine.Emit | src/services/websocket.ts:25-95 | an unrecognised command changes nothing and has no effect |
| SyncEngineProperties.EmitDispatches | src/services/websocket.ts:25-95 | each command's store change is its reducer dispatches run in source order (removePoll: endPoll, setShowResults(true), clearPoll) |
| SyncEngineProperties.EmitKeepsNames | src/services/websocket.ts:25-95 | no command breaks the name-list invariant |
| SyncEngineProperties.EmitKeepsInvariant | src/services/websocket.ts:25-95 | every command except removing a voter keeps the store invariant |
| SyncEngineProperties.RequestJoinEffect | src/services/websocket.ts:29-41 | the store changes exactly as `addPendingStudent` would, and there are effects exactly when the name is neither approved nor pending |
| SyncEngineProperties.KickedRequestStillAnnounced | src/services/websocket.ts:29-41 | a kicked, unlisted name's request leaves the service unchanged but is still broadcast |
| SyncEngineProperties.CreatePollCommandEffect | src/services/websocket.ts:55-63 | the `createPoll` reducer's poll and roster, results hidden, time and timer at maxTime |
| SyncEngineProperties.SubmitVoteSchedulesReveal | src/services/websocket.ts:64-69 | the store changes as `submitVote`; a reveal is scheduled exactly when the roster is then non-empty and fully answered |
| SyncEngineProperties.RemovePollEffect | src/services/websocket.ts:75-81 | under the clearPoll assumption: timer stopped, no poll, results hidden, names kept, nobody answered |
| SyncEngineProperties.ChatAppendOnly | src/services/websocket.ts:82-93 | `sendMessage` appends one message; no other command touches the chat log or the listeners |
| SyncEngine.StartPollTimer | src/services/websocket.ts:194-201 | the single timer slot holds the new start value |
| SyncEngineProperties.RestartReplacesTimer | src/services/websocket.ts:195-201 | starting twice equals starting once with the last value: at most one countdown exists |
| SyncEngine.Tick | src/services/websocket.ts:203-214 | without a running timer a tick does nothing |
| SyncEngineProperties.CountdownRuns | src/services/websocket.ts:203-208 | before the last second each tick takes exactly one second off, and the poll, roster and results flag are untouched |
| SyncEngineProperties.CountdownEnds | src/services/websocket.ts:210-213 | from n ≥ 1, exactly n ticks stop the timer, close the poll, and leave the time at 0 with results shown |
| SyncEngineProperties.StoppedTimerIdle | src/services/websocket.ts:230-234 | once stopped, any number of ticks changes nothing |
| SyncEngineProperties.ZeroLimitEndsAtFirstTick | src/services/websocket.ts:203-213 | a zero limit ends the poll at the first tick |
| SyncEngineProperties.CreatedPollClosesOnTime | src/services/websocket.ts:55-63 | a poll created with limit n ≥ 1 is closed after n ticks with its results shown |
| SyncEngineProperties.TickKeepsInvariant | src/services/websocket.ts:203-242 | a tick keeps the store invariant |
| SyncEngine.EndPollTimer | src/services/websocket.ts:230-242 | the timer slot is emptied |
| SyncEngineProperties.AllAnsweredAgrees | src/services/websocket.ts:217-220 | the all-answered test equals `checkAllStudentsVoted(roster size, answered count)` |
| SyncEngine.CheckIfAllAnswered | src/services/websocket.ts:217-228 | scheduling a reveal never changes the store |
| SyncEngine.Reveal | src/services/websocket.ts:222-226 | with nothing scheduled, nothing happens; otherwise one scheduled reveal is used up, only the results flag changes (to shown), the timer keeps running, and the last effect writes the results flag key |
| SyncEngineProperties.RevealKeepsPollOpen | src/services/websocket.ts:222-226 | the deferred reveal shows the results, but the poll stays open and the timer keeps running |
| SyncEngineProperties.EveryoneVotedRevealsEarly | src/services/websocket.ts:64-69 | two admitted students vote for the same option: counts are 2 and 0, one reveal is scheduled, and after it the results show while the poll stays open |
| SyncEngine.HandleStorageChange | src/services/websocket.ts:141-157 | an ignored key produces no effect |
| SyncEngine.RouteKey | src/services/websocket.ts:141-157 | a key is ignored exactly when it is missing or lacks the `poll_` prefix |
| CreatePollForm.AddOption | src/components/CreatePoll.tsx:19-23 | appends one empty option below six, otherwise no change |
| CreatePollForm.RemoveOption | src/components/CreatePoll.tsx:25-29 | above two, exactly position i is removed and the rest keep their order; otherwise no change |
| CreatePollForm.UpdateOption | src/components/CreatePoll.tsx:31-35 | only position i changes and the length is kept |
| CreatePollForm.EditsKeepOptionCount | src/components/CreatePoll.tsx:15-29 | from the initial two options, any edit sequence keeps two to six options, so a submitted poll has two to six |
| CreatePollForm.ValidOptions | src/components/CreatePoll.tsx:42 | the kept options are never blank |
| CreatePollForm.ValidOptionsCounts | src/components/CreatePoll.tsx:42 | every non-blank option is kept as often as it was typed, untrimmed; blank ones are dropped |
| CreatePollForm.ValidOptionsAppend | src/components/CreatePoll.tsx:42 | filtering distributes over concatenation, so the kept options appear in the order they were typed |
| CreatePollForm.HandleSubmit | src/components/CreatePoll.tsx:37-52 | something is sent exactly when the trimmed question is non-empty and at least two options are non-blank; the question is sent trimmed, the options untrimmed, the time limit as entered |
| CreatePollForm.ResubmitSamePayload | src/components/CreatePoll.tsx:37-52 | re-submitting a sent payload sends the same payload |
| CreatePollForm.TimeLimitUnchecked | src/components/CreatePoll.tsx:45-49 | any time limit, outside 10..300 too, is sent unchanged |
| StudentJoinForm.HandleSubmit | src/components/StudentJoin.tsx:18-38 | the empty-name error exactly for an all-blank input; the length error exactly for one non-blank character; an accepted name is the trimmed input, at least two long, and matches no approved name up to case |
| StudentJoinForm.TakenExactly | src/components/StudentJoin.tsx:31-34 | the taken error exactly when the first two checks pass and an approved name matches up to case |
| StudentJoinForm.TrimmedInputSameOutcome | src/components/StudentJoin.tsx:21-37 | surrounding blanks never change the outcome |
| StudentJoinForm.JoinedNameNotApproved | src/components/StudentJoin.tsx:31-37 | an accepted name is not on the roster |
| StudentJoinForm.CaseVariantRefused | src/components/StudentJoin.tsx:31-34 | a case variant of an approved name is refused as taken |
| ResultsView.Render | src/components/PollResults.tsx:9-47 | nothing without a poll; otherwise one row per option, a total equal to the sum of all stored counts, and a caption per row that matches its count |
| ResultsView.Caption | src/components/PollResults.tsx:47 | the count's decimal text comes first, and the caption ends in the plural `s` exactly when the count is not one |
| ResultsView.CaptionReadsBack | src/components/PollResults.tsx:47 | the leading digits read back as the count, followed by " vote" exactly for one vote and " votes" otherwise |
| ResultsView.RenderAgreesWithCalculation | src/components/PollResults.tsx:11-24 | total, per-option votes and percentages equal `calculateFromVoteCounts` row for row; percentages lie in 0..100; positions are 1-based |
| ResultsView.RenderTotalIsAnswered | src/components/PollResults.tsx:11 | while the counts are balanced, the total shown is the number of students who answered |
| ResultsView.JsRem60 | src/components/TeacherDashboard.tsx:78 | the remainder has the dividend's sign, is below 60 in size, and is congruent to it modulo 60 |
| ResultsView.Countdown | src/components/TeacherDashboard.tsx:74 | a clock exactly while the poll is open |
| ResultsView.FormatCountdown | src/components/TeacherDashboard.tsx:77-78 | the clock has at least five characters; below 100 minutes it is exactly five with the colon in the middle |
| ResultsView.TwoDigits | src/components/TeacherDashboard.tsx:77-78 | a number below 100 padded with '0' has two digits and reads back as itself |
| ResultsView.CountdownReadsBack | src/components/TeacherDashboard.tsx:77-78 | for 0 ≤ t < 6000 the clock is five characters `MM:SS`, and minutes·60 + seconds read back gives t |
| ResultsView.NegativeTimeShowsSigns | src/components/TeacherDashboard.tsx:77-78 | a time between -59 and -1 shows as `-1:-s` |
| Text.Trim | src/components/StudentJoin.tsx:21 | the result is a slice with blank cut-offs at both ends and no blank at either end |
| Text.TrimEmptyIffBlank | src/components/StudentJoin.tsx:21 | a string trims to nothing exactly when it is all blanks |
| Text.TrimIdempotent | src/components/CreatePoll.tsx:40-46 | trimming twice is trimming once |
| Text.ReplaceFirstStripsPrefix | src/services/websocket.ts:144-147 | `replace` of a prefix that is present by '' leaves the rest |
| Text.NatToStringRoundTrip | src/components/TeacherDashboard.tsx:77 | decimal rendering and parsing are inverse |
| Text.PadStart | src/components/TeacherDashboard.tsx:77-78 | unchanged when long enough; otherwise exactly `width` long, ending in the input, fill in front |

## Left out

- Persistence itself is not modelled. Storage writes are effects carrying only their key; the JSON payloads, reads, `try`/`catch` and console logging are left out.
- `syncFromStorage` is not modelled, because it replays reducers from persisted data. Routing a data key to `SyncFromStorage` is modelled. Because `approveStudent` needs a pending entry, the replay could restore only those stored students whose names were replayed as pending.
- Real time is not modelled. Interval and timeout firing are explicit steps (`Tick`, `Reveal`) that the environment chooses when to take.
- Cross-tab ordering and concurrency are not modelled. A storage event is delivered only when the value changed; the model routes every delivered key.
- Listener callbacks are opaque identities. What they do when called, including their own dispatches, is outside the model. So are payloads handed to them and `getChatMessages`.
- Names that collide with members of `Object.prototype` are not modelled, whether they are event names, vote-count keys or option labels. Maps here are plain maps. In JavaScript an event name like `toString` finds a non-array. `submitVote` with `toString` stores a string. `submitVote` with `__proto__` stores no key, yet still marks the student as answered, so the count balance (`SessionProperties.ReduceKeepsTally`) would not hold. `calculatePollResults` with an option `hasOwnProperty` throws a TypeError. That last case also affects `SessionProperties.StoredCountsValidate` and `Tally.RecalculateVoteCounts`.
- Tally.Percentage: uses exact integer round-half-up. `Math.round` over floating-point division may differ at exact .5 ties, because of representation error.
- Text.Trim and Text.ToLower: trimming uses a fixed set of blank characters, and case folding covers ASCII letters only. JavaScript's Unicode tables are wider. Lengths count `char`s, not UTF-16 code units.
- CreatePollForm.UpdateOption: requires an index inside the list, which is the only index the form offers. JavaScript would extend the array for any other index.
- Browser constraint validation is not modelled: neither the time limit's `min`/`max` attributes nor the `required` attributes on the question and option inputs. It is browser behaviour, not code of the application; the model submits whatever the form's own checks let through.
- CreatePollForm.TimeLimitUnchecked: covers whole-number time limits only. The form reads the limit with `Number(...)`, so a fractional value such as 12.5 can reach the service; the countdown would then take 13 ticks and end at -0.5, and the clock would show a fraction. Time limits and the time remaining are integers throughout the model.
- `Date.now()` is read twice for a pending student (its id and its timestamp) and twice for a poll (its id and `createdAt`). The model reads the clock once per action, so the id is always the decimal text of the timestamp; the source does not promise that.
- React rendering, hooks, screen selection and the thin UI wrappers that only dispatch or emit are not modelled. The component-local chat list with its seeded messages is left out too.
- StudentInterface emits `joinAsStudent`, which `emit` does not handle. The command is therefore a no-op, covered by the unrecognised-command case of `SyncEngine.Emit`. StudentInterface is not part of this model.
- SessionProperties.RejectStudentEffect and SessionProperties.RemoveStudentEffect: "kicked exactly once" is stated for a duplicate-free kicked list, which the name-list invariant guarantees.
- SessionProperties.StoredCountsValidate: holds only when no option is the empty label. A vote for "" is counted in the stored map but dropped from the ballots as falsy.
