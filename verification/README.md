# Verified model of Isane

Isane is a chat server in Go with a JavaScript client and a daemon that runs agents. This project models the
parts of it that are hardest to get right, and proves what they are for. `dafny verify dfyconfig.toml` checks it.

| files | what they model |
|---|---|
| `Masking`, `FenceMask`, `CodeSpanMask`, `LinkMask`, `Mentions`, `CommonMark` | blanking of code and link targets in place, the search for mentions in what is left, and where the masks differ from CommonMark |
| `Jobs`, `JobHistory`, `LongPoll`, `LongPollRuns` | the job table of the agents and what its rows tell; pollers and dispatchers that meet over one-slot channels, and what a poll hands out |
| `MessageStore`, `MessageHistory`, `Timeline`, `TimelineRows` | the message table as a transition system, what its rows hold, and the pages read from it |
| `CatchUp`, `MessageList`, `Backfill`, `Reconnect` | what a client that reconnects is sent, how it fills its lists, and what a failed page costs |
| `Presence` | the hub's events, worked out under a lock and fired outside of it |
| `CommandSplit`, `WebpWalk` | two parsers, each against a grammar or an encoder of its own |
| `ReadState`, `ReadHistory`, `Badge` | read markers and what they tell, unread counts, and the badge that the server and the client each add up |
| `Limiter`, `LimiterRuns` | the exponential backoff of logins in 64-bit arithmetic, what its answers say about every run, and when its sweep shows |
| `Reconcile` | the keyed reconciliation of the list of messages on the page |
| `Arithmetic`, `Int64`, `Wrappers` | the smaller and larger of two numbers; wrap-around in 64 bits; `Option` and `Result` |

Code that changes state is a class or a method with loops, proved against functions of the state; what the code is
for is proved about those functions. Protocols are state machines: a run is a sequence of states, each of which
follows from the one before by one step, and the results hold in every state of every run. A transaction or a single
SQL statement is one step, and the database clock does not run backwards. Random ids, the clock and the answers of
the database are parameters.

## Where the code does not do what it seems to

- A code span closes on the first later run of backticks that is at least as wide, where section 6.1 of
  CommonMark 0.31.2 asks for an equal run; a closing fence may carry text after its marker, unlike in section 4.5.
  `CommonMark.SpansAgree` and `CommonMark.FencesAgree` say exactly when the rules agree, and `CommonMark.SpansDiffer`
  and `CommonMark.FencesDiffer` give texts on which they do not.
- `Ready` subtracts a client's cursor from the last number in 64 bits. A cursor that is lower than the last number
  by 2^63 or more turns the limit negative: `CatchUp.OverflowDelivers` says exactly when that loses messages, and
  `CatchUp.LowestCursorLosesAMessage` is a case. For all other cursors catching up is complete.
- The limiter's shift is exact for 34 chargeable failures (k from 0 to 33). Beyond, the wait is 15 minutes or none,
  as a bit of 1953125 says: `Limiter.BackoffIsDoubling`, and `Limiter.FortiethFailureGoesFree` for a case.
- The sweep of the limiter never changes an answer by itself, but a key that fails again after it was swept starts
  over. `LimiterRuns.AnswersAlikeExactly` says for every run exactly when that shows, and `LimiterRuns.SweepShows`
  is a run in which it does.
- The client takes over the last number of every container before it pages in a gap, so what a failed page leaves
  out is not asked for again. `Backfill.StillGapIsCovered` says exactly when a gap survives a failure,
  `Reconnect.FailedPageLoses` that something is lost otherwise, and `Reconnect.SecondPageFails` is a case.
- Listeners can hear an offline event after a later online event: `Presence.OfflineCanBeOvertaken`. The other way
  round is impossible, and `Presence.ListenersAgree` says exactly when the listeners end up right.
- The two badges are only equal because no conversation is archived and no channel has participants:
  `ReadState.BadgesAgreeExactly` holds without that, `ReadState.BadgesAgree` in every reachable state.
- A new message can lower a badge: in a conversation the first mention of the user that waits takes the place of all
  the messages that counted until then. `Badge.NewMessageOnBadge` says by how much.

## Model

| member | source | states |
|---|---|---|
| `Masking.BlankRange` | internal/markdown/mentions.go:134-138 | blanks exactly the given range of the buffer in place |
| `FenceMask.FenceMarker` | internal/markdown/mentions.go:78-94 | the two index loops find the marker that `MarkerOf` defines |
| `FenceMask.MarkerMeaning` | internal/markdown/mentions.go:78-94 | after at most three spaces, a run of one fence character is the marker exactly when it is three or wider, and the marker is the whole run |
| `FenceMask.MarkerExactly` | internal/markdown/mentions.go:78-94 | a line has a marker if and only if, after at most three spaces, at least three backticks or tildes follow, and the marker is all of them; four spaces or two characters make none |
| `FenceMask.MaskFences` | internal/markdown/mentions.go:50-76 | the position loop ends for every body and blanks in place what `Masked` says, line for line |
| `FenceMask.HiddenExactlyInsideFences` | internal/markdown/mentions.go:58-71 | a line is blanked if and only if a line at or above it opens a fence that no line in between closes; a closing line goes with its block and an unclosed fence takes the rest of the body |
| `FenceMask.OpensExactly` | internal/markdown/mentions.go:58-71 | a line opens a fence if and only if it has a marker and no earlier fence encloses it |
| `FenceMask.BlankedExactlyInFences` | internal/markdown/mentions.go:50-76 | on characters: a character that is no line end becomes a space if and only if a fence encloses its line, and every other character stays |
| `FenceMask.NoMarkerIsLeft` | internal/markdown/mentions.go:50-94 | no line of the result has a fence marker |
| `FenceMask.Idempotent` | internal/markdown/mentions.go:50-94 | masking the result again changes nothing |
| `FenceMask.IsCleanMask` | internal/markdown/mentions.go:50-76 | the mask keeps the length, changes characters only to spaces, and begins and ends at line ends |
| `CodeSpanMask.FindTickRun` | internal/markdown/mentions.go:117-132 | the scan returns the end of the first later backtick run that is at least as wide, or -1 |
| `CodeSpanMask.MaskCodeSpans` | internal/markdown/mentions.go:96-115 | the in-place loop computes `Masked`, and its failed scans are as many as the backtick runs of the result |
| `CodeSpanMask.SpansExactly` | internal/markdown/mentions.go:98-113 | a run opens a span if and only if it does not lie in an earlier span and a later run is at least as wide |
| `CodeSpanMask.BlankedExactlyInSpans` | internal/markdown/mentions.go:96-115 | a character is blanked if and only if it belongs to a span, the runs at both ends included |
| `CodeSpanMask.SpansOnCharacters` | internal/markdown/mentions.go:98-132 | on characters: a span runs from a whole run of backticks to the end of the first later run at least as wide, if and only if it does not begin inside an earlier span |
| `CodeSpanMask.CloseFails` | internal/markdown/mentions.go:117-132 | a scan fails if and only if every later run is narrower |
| `CodeSpanMask.SurvivingRunsDecrease` | internal/markdown/mentions.go:96-132 | the runs that survive get strictly narrower from left to right |
| `CodeSpanMask.FixedExactlyWhenDecreasing` | internal/markdown/mentions.go:96-132 | a text is left alone if and only if its runs get strictly narrower |
| `CodeSpanMask.Idempotent` | internal/markdown/mentions.go:96-132 | masking the result again changes nothing |
| `CodeSpanMask.SurvivingRunsBound` | internal/markdown/mentions.go:96-132 | k surviving runs, so k failed scans, need k(k+1)/2 + k - 1 characters, which bounds the quadratic work |
| `CodeSpanMask.IsCleanMask` | internal/markdown/mentions.go:96-115 | the mask keeps the length, writes only spaces, and begins and ends on a backtick |
| `CommonMark.SpansAgree` | internal/markdown/mentions.go:96-132 | the mask takes the spans of the equal-run rule of CommonMark if and only if every span it takes closes on a run as wide as the one that opened it |
| `CommonMark.SpansDiffer` | internal/markdown/mentions.go:128-130 | a text on which the two rules take different spans |
| `CommonMark.FencesAgree` | internal/markdown/mentions.go:66-71 | the mask has the fences open that a rule with bare closing lines has open if and only if every line that closes one, the last of the text apart, has nothing but white space behind its marker |
| `CommonMark.FencesDiffer` | internal/markdown/mentions.go:66-71 | a text after whose closing line the mask is outside of the fence and the stricter rule inside |
| `LinkMask.BlankedExactlyWhenCovered` | internal/markdown/mentions.go:16-16 | leftmost matching without overlap blanks a character if and only if some match of the pattern covers it |
| `LinkMask.BlankedExactlyInTargets` | internal/markdown/mentions.go:16-16 | on characters: a character is blanked if and only if it lies between a `](` and the first `)` behind it, these included, with no line end in between |
| `LinkMask.IsCleanMask` | internal/markdown/mentions.go:45-47 | the mask keeps the length, writes only spaces, begins on `]` and ends on `)` |
| `Mentions.FoundWhole` | internal/markdown/mentions.go:15-15 | every match takes the whole of its handle |
| `Mentions.FoundExactly` | internal/markdown/mentions.go:23-23 | a mention is found if and only if it follows the beginning or a character that is no word character, and does not begin where another match ends |
| `Mentions.MentionsOnCharacters` | internal/markdown/mentions.go:15-23 | on characters: a match is an `@` at the beginning or behind a character that is no ASCII letter, digit or underscore, with a letter or digit behind it and then all letters, digits, underscores and hyphens there are, if and only if it does not begin where another match ends |
| `Mentions.MaskUnscannable` | internal/markdown/mentions.go:42-48 | fences, then code spans, then link targets are blanked |
| `Mentions.MaskedExactly` | internal/markdown/mentions.go:42-48 | on characters: blanked is what lies in a fence, in a code span of what that leaves, or in a link target of what that leaves, and nothing else |
| `Mentions.LowerExactly` | internal/markdown/mentions.go:26-26 | each capital letter becomes the small letter in its place of the alphabet, and no other character changes |
| `Mentions.ScanOfMasked` | internal/markdown/mentions.go:19-48 | for every mask that keeps to those edges, the matches in the masked text are the matches in the raw text whose `@` is kept |
| `Mentions.MaskingKeepsMentions` | internal/markdown/mentions.go:19-48 | the three masks neither invent nor shift a mention: what is found in the masked body are the matches of the raw body whose `@` is not blanked |
| `Mentions.Mentions` | internal/markdown/mentions.go:19-40 | the handles are exactly those mentioned outside the masks, lower case, at most 32 long, without the channel keyword, each once, in the order of first mention; the flag tells whether the keyword was mentioned |
| `Jobs.Store.CreateAgentJob` | internal/store/agents.go:175-201 | adds one queued row, or fails and changes nothing when the id is taken |
| `Jobs.Store.HasUnfinishedJob` | internal/store/agents.go:212-221 | true if and only if a queued or dispatched row of the agent and container exists |
| `Jobs.Store.ClaimQueuedJobs` | internal/store/agents.go:223-240 | claims queued jobs of the agent, oldest first, up to the limit, leaving behind none that is older than one it took; exactly those become dispatched |
| `Jobs.Store.FinishAgentJob` | internal/store/agents.go:242-254 | ends a job that is dispatched to this agent, and is a conflict that changes nothing otherwise |
| `Jobs.Store.ExpireStaleJobs` | internal/store/agents.go:256-262 | exactly the stale queued and dispatched rows time out; an error text that is there stays |
| `Jobs.Store.Complete` | internal/agents/poll.go:44-61 | an error text fails the job, a blank answer fails it too, and any other answer finishes it |
| `Jobs.OutcomeMeaning` | internal/agents/poll.go:45-60 | a job is done if and only if the error is blank and the answer is not; a failed job always has an error text |
| `Jobs.TrimSpaceIs` | internal/agents/poll.go:45-46 | trimming takes exactly the white space at both ends |
| `Jobs.AtMostOnce` | internal/store/agents.go:223-262 | over every run a job is claimed at most once and ends at most once, and result, error, finished_at and dispatched_at are set exactly as the state of the row says |
| `Jobs.ClaimsInOrder` | internal/store/agents.go:223-240 | over every run the claims of one agent hand out its jobs in the order of their creation |
| `Jobs.EndedRowsStay` | internal/store/agents.go:242-262 | a row that has ended is never changed again |
| `JobHistory.ClaimWrites` | internal/store/agents.go:223-240 | a claim makes exactly the rows it returns dispatched at its time, and changes no other column and no other row |
| `JobHistory.ExpireWrites` | internal/store/agents.go:256-262 | an expiry times out exactly the rows dispatched, or queued and created, before the cutoff, column by column |
| `JobHistory.CompleteEnds` | internal/agents/poll.go:44-61 | on characters: an answer that is not all white space, without an error, is the result of a done job; otherwise the job fails with the error text without the white space at its ends, or with `agent returned an empty result` |
| `JobHistory.SpaceIs` | internal/agents/poll.go:45-46 | the white space that is trimmed is that of Unicode, by code point |
| `JobHistory.RowsTellTheirSteps` | internal/store/agents.go:175-262 | over every run each column of a row names the step that wrote it: created_at its creation; dispatched_at its one claim, which its own agent made; result, error and finished_at the answer of its agent to it, or an expiry that found it too late |
| `LongPoll.Service.Listen` | internal/agents/poll.go:67-76 | registers a new channel for the agent and touches no other |
| `LongPoll.Service.Forget` | internal/agents/poll.go:78-85 | takes one channel back; an agent without channels has no entry |
| `LongPoll.Service.Wake` | internal/agents/poll.go:87-96 | fills the slot of every channel registered for the agent and of no other |
| `LongPoll.WakeLosesNoWakeup` | internal/agents/poll.go:87-96 | running the wake keeps the invariant: whoever it was promised to holds a full channel |
| `LongPoll.NoWakeupIsLost` | internal/agents/poll.go:15-34 | in every interleaving a poll that is blocked on an empty channel while a job is queued for its agent has a wake coming from the dispatcher that created that very job |
| `LongPoll.QuiescentPollsMissNothing` | internal/agents/poll.go:15-34 | once every dispatcher has run its wake, a blocked poll whose agent has a queued job has a full channel |
| `LongPoll.TableIsReleased` | internal/agents/poll.go:67-85 | the waiter table is empty if and only if no poll is under way |
| `LongPollRuns.ClaimHandsOut` | internal/agents/poll.go:36-42 | a claim hands out the waiting jobs of the agent, each once and the oldest first, at most ten, and one stays behind only if ten go that are no younger |
| `LongPollRuns.PollStep` | internal/agents/poll.go:15-34 | each phase of a poll: it claims, blocks if and only if that gave nothing and it is to wait, is woken by its channel or its timer, claims again and leaves; it leaves early if and only if it is cancelled or a claim fails |
| `LongPollRuns.SleeperHandsOut` | internal/agents/poll.go:15-34 | in every interleaving a poll that was blocked and waits no more has claimed again in between and handed out what waited then, or it was cancelled, or that claim failed |
| `LongPollRuns.WaitingJobIsHandedOut` | internal/agents/poll.go:15-34 | in every interleaving a job that waits while a poll of its agent is blocked and no wake is under way has filled the channel of the poll, and the claim that the poll then makes hands it out, if it still waits, or ten that are no younger |
| `MessageStore.Store.MessageByClientID` | internal/store/messages.go:133-142 | finds a row of that author and client id if and only if there is one |
| `MessageStore.Store.InsertMessage` | internal/store/messages.go:52-120 | a repeat returns the row that is there and changes nothing; a failure changes nothing, not even the sequence; otherwise one row gets the next number of its container and its root counts one more |
| `MessageStore.Store.EditMessage` | internal/store/messages.go:144-173 | replaces body and mentions of a row that is not deleted, and fails without effect otherwise |
| `MessageStore.Store.DeleteMessage` | internal/store/messages.go:175-198 | empties a row that is not deleted and its root counts one less; fails without effect otherwise |
| `MessageStore.Store.DeleteMessagesOlderThan` | internal/store/messages.go:315-337 | rows from before the cutoff go, and rows that stay let go of exactly those |
| `MessageStore.ClampNeverApplies` | internal/store/messages.go:186-190 | over every run the root of a live reply is there and counts at least one, so deleting the reply takes exactly one off and `greatest(count - 1, 0)` never clamps |
| `MessageStore.ThreadsAreConsistent` | internal/store/messages.go:52-337 | over every run each row counts exactly its live replies, no reply is a root, and no reference dangles, retention included |
| `MessageStore.SequenceIsGapless` | internal/store/messages.go:64-73 | without retention the numbers of a container are exactly 1 to last_seq, each once |
| `MessageStore.NewRowIsNext` | internal/store/messages.go:64-73 | the one row that a step can add has the number after last_seq |
| `MessageStore.NumbersAreNeverReused` | internal/store/messages.go:64-73 | a new row has a higher number than any row of the container ever had, deleted ones included |
| `MessageStore.RetryFindsTheRow` | internal/store/messages.go:55-58 | however long after, exactly one row is of that author and client id, so every retry returns it |
| `MessageStore.RetryChangesNothing` | internal/store/messages.go:55-58 | while the row exists, inserts with its client id add no row and use no number, however many there are |
| `MessageStore.RootCheckStaysGood` | internal/app/publish.go:390-405 | a thread root that was checked before the insert is either gone by then or still a root of the same container |
| `MessageHistory.InsertWrites` | internal/store/messages.go:52-120 | column by column what an insert leaves: its row with the next number, the count and time of the root, the mentions of the new id; every other row and mention as before |
| `MessageHistory.EditWrites` | internal/store/messages.go:144-173 | an edit gives a live row its body and its time and replaces the mentions of that id; every other column, row and mention as before |
| `MessageHistory.DeleteWrites` | internal/store/messages.go:175-198 | a delete empties a live row, gives it its time and takes one off the count of its root, not below 0; every other column, row and mention as before |
| `MessageHistory.PurgeWrites` | internal/store/messages.go:315-337 | retention takes exactly the rows created before the cutoff with their mentions, and of the rows that stay it clears exactly the references to those |
| `MessageHistory.RowsHoldWhatWasWritten` | internal/store/messages.go:52-337 | over every run a row is from its one insert; while it lives its body, the time of its edit and its mentions are those of its last edit, or of the insert if there was none; once deleted it is empty |
| `Timeline.AfterIs` | internal/store/messages.go:216-221 | a page after a number is in order, of the size asked for as far as there are messages, and what it leaves out comes later |
| `Timeline.BeforeIs` | internal/store/messages.go:208-214 | the same before a number, and what it leaves out comes earlier |
| `Timeline.LatestIs` | internal/store/messages.go:200-206 | the latest page leaves out only earlier messages |
| `Timeline.AroundIsAWindow` | internal/store/messages.go:223-235 | the page around a number is one stretch of the timeline without holes, half of the limit below and the rest from the number on, and holds the message of that number |
| `Timeline.PageReaches` | internal/store/messages.go:216-221 | a page of n messages after a number holds every message numbered up to n later |
| `Timeline.PageHoldsUpTo` | internal/store/messages.go:216-221 | a page holds all messages up to another number if and only if it has room for them |
| `Timeline.StoreNumbersAreDistinct` | internal/store/messages.go:64-73 | in every reachable state the messages of a container have distinct numbers, which the queries above order by |
| `TimelineRows.AfterHolds` | internal/store/messages.go:216-221 | a row is on the page after a number if and only if it is of the container, in no thread, above the number, and fewer than a page of such rows lie in between; the page ascends, and a limit that is not positive stands for 50 |
| `TimelineRows.BeforeHolds` | internal/store/messages.go:208-214 | the same for the page before a number |
| `TimelineRows.LatestHolds` | internal/store/messages.go:200-206 | a row is on the latest page if and only if it is of the container, in no thread, and fewer than a page of such rows lie above it |
| `TimelineRows.AroundHolds` | internal/store/messages.go:223-235 | a row is on the page around a number if and only if fewer than half a page, rounded down, lie between it and the number from below, or fewer than the rest from above |
| `CatchUp.Ready` | internal/app/handler.go:58-74 | the loop returns the planned gaps and pages in order, and fails if and only if a page it needs cannot be read |
| `CatchUp.MissedIsDelivered` | internal/app/handler.go:58-74 | every missed message that is still on the timeline when its container is read is in line if the range is at most 100 long and in exactly one gap if it is longer, whatever was inserted since the views were read |
| `CatchUp.OnlyMissedIsDelivered` | internal/app/handler.go:58-74 | nothing at or below a cursor is delivered: what is in line is on the timeline and above the cursor, and a gap covers only numbers above it, up to the last |
| `CatchUp.GapsExactly` | internal/app/handler.go:58-74 | a gap is reported if and only if it is that of a container with a cursor more than 100 below the last number, in 64 bits, and it goes from the number after the cursor to the last |
| `CatchUp.InlineExactly` | internal/app/handler.go:58-74 | a message is in line if and only if it is on the page after the cursor of a container that is read, of as many messages as numbers were missed; a difference of 2^63 or more comes out negative |
| `CatchUp.AllAnsweredExactly` | internal/app/handler.go:58-74 | all is answered if and only if every container whose last number is above the cursor by at most 100, or by 2^63 or more, can be read; others are not asked for |
| `CatchUp.InlineInOrder` | internal/app/handler.go:70-73 | what is in line comes container by container and in ascending order within each |
| `CatchUp.ReadyOverARun` | internal/app/handler.go:41-91 | in every run of the store, a message on the timeline when the views are read is in line or in a gap, not both, if it exists when its container is read, whatever happens in between |
| `CatchUp.OverflowDelivers` | internal/app/handler.go:65-69 | when `LastSeq - cursor` overflows 64 bits the limit turns negative, a page of 50 is read, and all that was missed is delivered if and only if it is at most 50 messages |
| `CatchUp.LowestCursorLosesAMessage` | internal/app/handler.go:65-69 | a concrete case: with the lowest cursor and 51 messages, one is neither in line nor in a gap |
| `MessageList.Cache.Place` | internal/server/static/js/store.js:111-121 | overlays the message that is there, or puts a new one after everything that does not come later; ids stay unique |
| `MessageList.Cache.UpsertMessage` | internal/server/static/js/store.js:123-129 | places a message in the list of its thread, or of its container if it is no reply, when that list is loaded; takes its client id off the pending sends; changes no other list |
| `MessageList.Cache.Merge` | internal/server/static/js/store.js:157-168 | lays a page over the list by id and sorts it by number, or starts from nothing when it replaces |
| `MessageList.PlaceKeepsOrder` | internal/server/static/js/store.js:111-121 | placing a message that keeps its number keeps the list sorted |
| `MessageList.PlaceWrites` | internal/server/static/js/store.js:111-121 | after placing a message, the fields that it carries have its values, its other fields those they had, its number is the new one, and no other message changes |
| `MessageList.MergeGivesUniqueIds` | internal/server/static/js/store.js:157-168 | a merge gives a sorted list without duplicate ids |
| `MessageList.MergeWrites` | internal/server/static/js/store.js:157-168 | after a merge a field has the value of the last message of the page that carries it, or the value from before if none does |
| `MessageList.MergeNumbers` | internal/server/static/js/store.js:157-168 | after a merge the number of a message is that of the last message of the page with its id, or as before |
| `MessageList.MergeIsDelivery` | internal/server/static/js/store.js:111-168 | with one number per id, merging a page comes to the same list as placing its messages one by one |
| `MessageList.ArrivalsAreCanonical` | internal/server/static/js/store.js:111-168 | however messages arrive, pushed or in pages, the list holds exactly what arrived, in strict order |
| `MessageList.Confluence` | internal/server/static/js/store.js:111-168 | the same messages come to the same list in whatever order they arrive, pushed or in pages, with repeats |
| `MessageList.LastWriterWins` | internal/server/static/js/store.js:111-168 | after any arrivals, pushed or in pages, contradicting one another or not, a field of a message has the value of the last arrival that carries it |
| `Backfill.FillGap` | internal/server/static/js/socket.js:345-360 | the page loop merges the pages that `Pages` lists into the list of the container, and changes no other |
| `Backfill.Backfill` | internal/server/static/js/socket.js:343-361 | all gaps are filled one after the other; a container without a list is left alone |
| `Reconnect.FilledHolds` | internal/server/static/js/socket.js:343-361 | after all gaps the list of a container holds what it held and what is on a page of one of its gaps, and nothing else; containers without a gap are as they were |
| `Backfill.PagesFrom` | internal/server/static/js/socket.js:348-359 | never more pages than are left of 40 |
| `Backfill.CursorClimbs` | internal/server/static/js/socket.js:357-357 | every page that is not empty moves the cursor strictly on |
| `Backfill.PagesAre` | internal/server/static/js/socket.js:345-360 | each page continues where the one before ended, with 50 messages at most, and they stop with the first that is empty or reaches the end of the gap, with the first request that fails, or after 40, and not before |
| `Backfill.GapIsCovered` | internal/server/static/js/socket.js:343-361 | if the first q pages are answered and at most 50 q numbers of the gap turn up, every message that stays on the timeline is on a page, whatever comes in meanwhile, and even if the next page fails |
| `Backfill.StillGapIsCovered` | internal/server/static/js/socket.js:343-361 | on a table that stays as it is, with q answers before the first failure, the pages cover the gap if and only if it holds at most 50 q messages; without a failure q is 40 |
| `Reconnect.ReconnectIsComplete` | internal/server/static/js/socket.js:291-361 | server and client together: a missed message that stays on the timeline ends up in the list of the client, whatever else arrives, if the pages before the first failure have room for the gap |
| `Reconnect.ReconnectOverARun` | internal/server/static/js/socket.js:291-361 | in every run of the store, a client ends up with every message that it missed in a container and that exists until it has caught up, if it missed at most 100 numbers or no more than the pages before the first failure hold |
| `Reconnect.LastReceivedShows` | internal/server/static/js/socket.js:291-361 | after any arrivals the list shows a message with the body, the client id and the number with which it was last received |
| `Reconnect.NotAskedForAgain` | internal/server/static/js/socket.js:299-303 | since the client takes over the last number of every view on ready, its next connection delivers nothing up to that number |
| `Reconnect.FailedPageLoses` | internal/server/static/js/socket.js:351-354 | a gap with more messages than the pages before the first failure hold loses a message: it is on no page, and the next connection neither replays it nor reports a gap with it |
| `Reconnect.SecondPageFails` | internal/server/static/js/socket.js:351-354 | a concrete case: of a gap of 150 messages whose second page fails, one is lost |
| `Presence.Hub.VisibleIn` | internal/socket/hub.go:218-225 | true if and only if some connection of the set is visible |
| `Presence.Hub.Add` | internal/socket/hub.go:174-185 | adds the connection, hidden |
| `Presence.Hub.Remove` | internal/socket/hub.go:187-200 | drops the connection and a set that is empty; gives an event if and only if the user's presence changed |
| `Presence.Hub.SetVisible` | internal/socket/hub.go:202-216 | sets the flag of a connection that is held, and nothing otherwise; gives an event if and only if the user's presence changed |
| `Presence.Hub.OnlineUsers` | internal/socket/hub.go:124-134 | lists exactly the users with a visible connection, each once |
| `Presence.ShowSets` | internal/socket/hub.go:202-216 | showing a connection that is held sets its flag to what was asked, and no other flag |
| `Presence.OnlineExactlyWhenShown` | internal/socket/hub.go:174-225 | over every run a user is online if and only if some connection of theirs was shown, and has neither been hidden nor closed since |
| `Presence.EventsTellPresence` | internal/socket/hub.go:187-225 | over every run the events in the order of the critical sections take turns, and replaying them tells who is online |
| `Presence.TurnsAreTaken` | internal/socket/hub.go:197-214 | taking turns means: the first event of a user is online, and the next after any is its opposite |
| `Presence.NothingFollowsAPendingOnline` | internal/socket/hub.go:187-234 | while an online event is on its way no later event of its user is produced |
| `Presence.OnlineIsNeverOvertaken` | internal/socket/hub.go:187-234 | in every interleaving of sections and listeners an online event is heard before every later event of its user |
| `Presence.NobodyIsLeftOnline` | internal/socket/hub.go:187-234 | once no event of a user is on its way, the listeners do not take the user for online who is not |
| `Presence.ListenersAgree` | internal/socket/hub.go:187-234 | once no event of a user is on its way, the listeners agree with the hub if and only if the user is offline or the last event was not overtaken |
| `Presence.OfflineCanBeOvertaken` | internal/socket/hub.go:197-234 | a concrete run in which an offline event is overtaken, and the listeners end up with an online user offline |
| `CommandSplit.SplitCommand` | agent/internal/daemon/harness.go:92-140 | the loop over the characters computes `Split`, with its three errors |
| `CommandSplit.SplitGivesWords` | agent/internal/daemon/harness.go:92-140 | splitting gives these arguments if and only if the command can be spelled as tokens (plain, escaped, quoted, white space) whose words they are |
| `CommandSplit.SplitFails` | agent/internal/daemon/harness.go:126-139 | each error, if and only if: nothing but white space, a backslash at the end, a quote that is opened and not closed |
| `CommandSplit.SplitUndoesQuote` | agent/internal/daemon/harness.go:92-140 | splitting undoes quoting, for every list of arguments over any characters, empty ones included |
| `CommandSplit.SplitOfBoth` | agent/internal/daemon/harness.go:92-140 | two commands with a space between split into the words of the one, then those of the other |
| `WebpWalk.WebpHasMetadata` | internal/media/image.go:97-131 | the chunk loop ends on every input; a short header and a wrong one are the two errors |
| `WebpWalk.HeaderReads` | internal/media/image.go:104-109 | a file has the header if and only if it reads RIFF at 0 and WEBP at 8 |
| `WebpWalk.DigitsOf` | internal/media/image.go:122-124 | byte i of a length is its digit of weight 256 to the i |
| `WebpWalk.WalkFindsMetadata` | internal/media/image.go:110-130 | over a file cut off anywhere, true if and only if a chunk tagged EXIF or XMP shows its header, whatever the payloads hold |
| `WebpWalk.WholeFileIsDecided` | internal/media/image.go:110-130 | over a whole encoding, true if and only if some chunk is tagged EXIF or XMP |
| `WebpWalk.EveryFileBeginsAnEncoding` | internal/media/image.go:97-131 | every file with the header is the beginning of some encoding, so the above speaks about every input |
| `ReadState.Store.SetReadMarker` | internal/store/readstate.go:13-24 | raises the marker to the number asked for, between 0 and the last number; no container, no marker |
| `ReadState.Store.SetThreadReadMarker` | internal/store/readstate.go:178-190 | the same for a thread, by the last number of the root's container |
| `ReadState.Store.SetChannelArchived` | internal/store/containers.go:124-134 | archives or takes back a channel, and nothing that is not one |
| `ReadState.MarkersAreClamped` | internal/store/readstate.go:13-24 | over every run a marker stands between 0 and the last number of its container |
| `ReadState.MarkersNeverFall` | internal/store/readstate.go:13-24 | over every run a marker is never lowered or lost |
| `ReadState.MarkingReads` | internal/store/readstate.go:13-53 | marking reads exactly what is numbered up to the number asked for, in spite of the clamp, and nothing of another user or container |
| `ReadState.AllIsRead` | internal/store/readstate.go:13-53 | a marker at the last number leaves nothing unread and no mention |
| `ReadState.MarksCommute` | internal/store/readstate.go:13-24 | two markers in either order come to the higher of the two |
| `ReadHistory.MarkWrites` | internal/store/readstate.go:13-24 | marking lifts the one marker to the number asked for, no lower than 0 and no higher than the last number, unless it stands higher already, and changes nothing else |
| `ReadHistory.ThreadMarkWrites` | internal/store/readstate.go:178-190 | the same for a thread, by the last number of the container of its root |
| `ReadHistory.CreateWrites` | internal/store/containers.go:177-217 | a new container is open; a channel has no participants, a conversation exactly its members |
| `ReadHistory.MarkerIsHighestAsked` | internal/store/readstate.go:13-24 | over every run a user has a marker in a container if and only if they set one, and it stands at the highest number asked for, each taken for no more than the last number of its time |
| `ReadHistory.ThreadMarkerIsHighestAsked` | internal/store/readstate.go:178-190 | the same of every thread whose root still exists |
| `ReadState.ClientUnreadTotal` | internal/server/static/js/store.js:56-65 | the loop over the containers computes the sum of their shares |
| `ReadState.LoopIsSum` | internal/server/static/js/store.js:56-65 | the loop comes to the sum over the containers that are not archived, in whatever order it meets them |
| `ReadState.BadgesAgreeExactly` | internal/store/readstate.go:55-85 | in any state of the tables, server and client agree if and only if no archived container in which the user takes part has anything to add |
| `ReadState.BadgesAgree` | internal/store/readstate.go:55-85 | in every reachable state the server's total and the client's loop over the user's views are the same number |
| `Badge.ServerCountsMessages` | internal/store/readstate.go:55-85 | the server's badge is the number of messages that count, each once: past the marker, not deleted, in an open channel or a conversation of the user, and mentioning the user, or outside the threads of a conversation in which nothing that waits mentions the user |
| `Badge.ClientCountsMessages` | internal/server/static/js/store.js:56-65 | in every reachable state the client's loop comes to the number of the same messages |
| `Badge.NewMessageOnBadge` | internal/store/readstate.go:55-85 | over every run, what a new message does to a badge: in a channel a mention of the user adds one and any other message nothing; in a conversation any message outside its threads adds one until something mentions the user, then only mentions do, and the first mention takes the place of all that had waited |
| `Badge.MarkOnWaiting` | internal/store/readstate.go:13-53 | over every run a mark takes from what waits exactly the messages of that user and container up to the number |
| `Badge.DeleteOnWaiting` | internal/store/readstate.go:37-53 | over every run a delete takes from what waits exactly the deleted message |
| `Limiter.Limiter.RetryAfter` | internal/server/handlers/limiter.go:36-52 | sweeps, and answers the longest wait among the keys |
| `Limiter.Limiter.Fail` | internal/server/handlers/limiter.go:54-71 | sweeps, and each key fails as often as it is listed |
| `Limiter.Limiter.Succeed` | internal/server/handlers/limiter.go:73-79 | forgets exactly the keys listed |
| `Limiter.Limiter.SweepIdle` | internal/server/handlers/limiter.go:81-91 | at most once per hour drops exactly the keys idle for more than one |
| `Limiter.ShiftIsExact` | internal/server/handlers/limiter.go:67-69 | up to k = 33 the 64-bit shift loses nothing, and the wait is the smaller of 2^k seconds and 15 minutes |
| `Limiter.WaitsClimbToTheCeiling` | internal/server/handlers/limiter.go:67-69 | up to k = 33 the waits do not get shorter, and are at the ceiling if and only if k is 10 or more |
| `Limiter.BackoffIsDoubling` | internal/server/handlers/limiter.go:67-69 | for every k the wait is the doubled one if and only if the sign bit of the shifted word stays clear; where it does not, there is no wait at all |
| `Limiter.HoldIs` | internal/server/handlers/limiter.go:67-69 | the waits are 1, 2, 4 and so on up to 512 seconds and then 15 minutes, up to k = 33, and none for the free failures |
| `Limiter.FortiethFailureGoesFree` | internal/server/handlers/limiter.go:67-69 | a failing input: the 40th failure of a key with 5 free ones gives no wait |
| `Limiter.SweepIsSilent` | internal/server/handlers/limiter.go:36-91 | a sweep does not change the answer to any question then or later, as long as nothing fails |
| `Limiter.SweepIs` | internal/server/handlers/limiter.go:81-91 | a sweep within an hour of the last does nothing; any other drops exactly the keys left alone for more than an hour |
| `LimiterRuns.EntriesTellHistories` | internal/server/handlers/limiter.go:36-91 | over every run a key has an entry if and only if it has failed since its last login or idle sweep, and the entry is what exactly those failures come to; without sweeps, since its last login |
| `LimiterRuns.AnswersTellHistories` | internal/server/handlers/limiter.go:36-70 | over every run the answer about a key is what is left of the wait after its last failure, by their number |
| `LimiterRuns.LongestIs` | internal/server/handlers/limiter.go:42-50 | a question about several keys is answered by the longest of their waits |
| `LimiterRuns.NoAnswerAboveTheCeiling` | internal/server/handlers/limiter.go:36-70 | over every run, with late failures and sweeps, no answer is above 15 minutes, and none is above 0 unless a key asked for has failed more often than is free |
| `LimiterRuns.AnswersAsIfUnswept` | internal/server/handlers/limiter.go:36-91 | over every run in which no key fails again after more than an hour, every answer is that of a limiter that never sweeps |
| `LimiterRuns.AnswersAlikeExactly` | internal/server/handlers/limiter.go:36-91 | over every run, late failures included, the answer about a key is that of a limiter that never sweeps if and only if the waits after the failures that the two have counted are the same, or both are over, or the swept one has forgotten an idle key |
| `LimiterRuns.SweepShows` | internal/server/handlers/limiter.go:54-91 | a concrete run with 5 free failures in which the sweep shows: no wait where there would have been one second |
| `LimiterRuns.LateFailureShowsTheSweep` | internal/server/handlers/limiter.go:54-91 | in the moment of a failure after an idle sweep there is no wait; without the sweep there would be none either if and only if free failures were left or the shift loses its sign |
| `Reconcile.Timeline.NodeFor` | internal/server/static/js/ui/timeline.js:139-150 | keeps the previous node if and only if its signature is the same |
| `Reconcile.Timeline.Rebuild` | internal/server/static/js/ui/timeline.js:104-109 | takes one node off the page and renders again: the view of that key gets a new node, and every other view keeps or gets what it would have |
| `Reconcile.Timeline.Reconcile` | internal/server/static/js/ui/timeline.js:198-225 | afterwards the children are the nodes of the views one for one and in order, kept where the signature is the same and new where not; the map holds their keys, and besides only nodes that were not connected |
| `Reconcile.OneMorePlaced` | internal/server/static/js/ui/timeline.js:200-217 | one turn of the loop puts the node of the next view behind those that are placed |
| `Reconcile.LeftoversGone` | internal/server/static/js/ui/timeline.js:218-224 | the second loop takes exactly the other children off the page and out of the map |
| `Reconcile.UnchangedViewsKeepTheirNodes` | internal/server/static/js/ui/timeline.js:198-225 | reconciling with the same views again keeps every node in its place |

## Left out

- Mentions.Mentions: text is a string of single-byte characters; the two letters outside of ASCII that the
  case-insensitive pattern folds into k and s, and the lower case of other scripts, are not modelled. The regular
  expressions are modelled by their matches, leftmost first.
- Jobs.Store.CreateAgentJob: does not model the prompt, the trigger message and the attachments of a job, nor the
  failures of their foreign keys; they do not take part in the states of a job.
- Jobs.AtMostOnce: rows that go with their container or trigger are a step that removes any set of rows.
  `HasUnfinishedJob` and `CreateAgentJob` are separate statements in the dispatcher, so one unfinished job per agent
  and container is not claimed.
- LongPoll: a poll that is cancelled and a shutdown are the same step, and a wait that ends by time may end at any
  moment; how long polls wait is not modelled.
- MessageStore.Store.InsertMessage: does not model attachments, calls, recordings and the thread subscriptions that
  an insert adds. The case in which two transactions race with one client id, and the loser reads the row of the
  winner, falls together with the repeat, since transactions are atomic steps.
- MessageStore.Store.EditMessage: does not model the thread subscriptions that an edit adds.
- Timeline: thread pages, prompt history and search. The order of the timeline is a function on sets of messages,
  with no statement about how the database computes it.
- CatchUp.Ready: does not model the rest of the payload (users, presence, calls, settings) and the failures of the
  queries for it.
- MessageList.Cache.UpsertMessage: every message has an id, and every message of the server its number; of the other
  fields only those named are told apart.
- Backfill: a jump that replaces a list is not among the arrivals.
- Presence: shutdown, the send buffers of connections, and handlers of other frames. Listeners run as one step.
- CommandSplit: runes are characters; invalid UTF-8, which Go reads as replacement characters, is not modelled.
- WebpWalk: errors of the file system other than a file that is too short.
- ReadState: notification levels, and the running counts that the client keeps between two ready frames; the counts
  here are those that the server sends.
- Limiter: failures are counted without a bound, where the code has 64 bits.
- Reconcile: the intersection observer, and moving focus; a node is its id, key and signature.
- CommonMark: only the two closing rules are compared; escapes, raw HTML, block structure and the rule that the info
  string of a backtick fence has no backticks are not modelled.
- HTTP routing, sessions, media conversion, calls, push delivery, passwords and tokens, and the rest of the user
  interface: shallow branching or foreign calls.
