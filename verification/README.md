# A verified model of reac-pw's decisions

reac-pw is a PipeWire daemon for Roland REAC wires. The parts of it that decide something do so in
small C modules without I/O. This project models them in Dafny and proves what they promise: over
every run, every roster, every reply and every list of pods, not over examples.

## What is modelled

| modules | the system's own terms |
|---|---|
| `KnockModel`, `KnockSchedule`, `KnockBackoff`, `KnockPushes`, `KnockTrace`, `KnockHistory`, `KnockFinished`, `KnockWire`, `KnockLadder` | the bounded knock on a silent wire: its emission schedule, its backoff, when it asks to be woken, what it counts as a whole transfer, and the wake ladder it feeds |
| `RosterTable`, `RosterDelta`, `Roster`, `RosterTick` | the segment roster: the sorted table, the delta between what the node carries and what is wanted, and the timer that keeps a node which can only merge, and can vanish, in step |
| `Netlink`, `LinkAlias` | the rtnetlink grammar (section 2.3.2 of RFC 3549), its writer, and the alias reader and writer over it |
| `HeadampProp`, `HeadampState`, `FloatNear`, `Text` | the head-amp control write (pairing, keys, values) and the bounded text of what is asserted |
| `LinkBudget`, `RxBind`, `NodeRecover`, `Lat` | the small controllers: admission to a port and the all-or-nothing yield, the receive gate's lock, the rebuild ladder, the latency smoother |

Code that changes fields or buffers step by step is a class or a method over arrays here. Its
contract ties the new state to a function of the old one (`KnockModel.Run`, `RosterDelta.Delta`,
`LinkAlias.Reply`, `HeadampProp.InAll`, ...), and the lemmas beside it say what that function means:
an independent reading of the history, a round trip, an invariant of every run, an if-and-only-if.

Parameters of the model, where the source calls code of another library or the system:

- libreac's master is one hunting cycle from its header, a non-empty sequence of emissions
  (`Cadence`), stepped a slot at a time; stamping a frame succeeds. One cycle lasts at least a
  nanosecond, which every `int` cadence over a cycle of three slots or more does.
- The masterless licence is granted once after 500 ms without a frame, and any frame starts it again.
- The wire is a function saying, for the k-th frame ever handed to it, whether that frame left.
- The kernel's netlink socket is what opening and sending answer, the chunks it hands out, and the
  error that ends them. The receive buffer's 16384 bytes cut a longer chunk.
- A roster tick is given whether a node could be made, could be remade, whether publishing found
  memory, and the wires the daemon's tables claim. Losing the server is an event of its own.
- The head-amp table has 48 channels and 3 parameters, libreac's own constants.

## Where the source's words and its code differ

The model follows the code. Each difference is settled by a lemma over all inputs.

- `src/reac_link_budget.h:46-47` says two masters never fit one port at any rate. On 100 Mbit/s they
  fit exactly below 49476 Hz, so at 44.1 and 48 kHz they do (`LinkBudget.TwoMastersFitIff`).
- `src/reac_node_recover.h:36-38` says the ladder spans about one minute. It spans 470 ticks, which
  at the caller's 200 ms is 94 s (`NodeRecover.EveryAbsenceFollowsTheSchedule`).
- `src/reac_roster.h:100-105` says the same segment added twice is refused. A name of 16 characters
  or more is compared whole against the cut one that was kept, and is listed again
  (`RosterTable.LongNameListedTwice`); `RosterTable.AddStrictIff` says exactly when an add keeps the
  table free of duplicates. The tables that feed the roster keep their names in 16 bytes, NUL included
  (`src/main.c:2809`, `src/reac_segconf.h:86`), so such a name reaches the roster only through
  `reac_roster_add` itself.
- `src/reac_knock_wire.h:171-173` says `due_ns` is the next frame's time. For a cycle that starts on
  a control slot, as libreac's does, at no more than one slot a nanosecond, that is so exactly when
  the cycle ends by the 30 s ceiling or on a control slot (`KnockTrace.DueIsNextInRunsIff`,
  `KnockSchedule.DueIsNextIff`): otherwise the empty tail of one knock hides the header of the next.
  A caller in time loses nothing exactly when, besides, a control slot that ends a longer cycle falls
  by the ceiling (`KnockTrace.NeverLateIff`, `KnockSchedule.NeverHidesIff`). Three cycles take between
  8.1 and 8.8 s at the rates the daemon serves (`src/reac_wake.h:52-54`), so a cycle is under 3 s and
  neither difference concerns one.
- `src/reac_lat.h:25-27` says steady playback advertises once, not every poll. With a rate it does
  (`Lat.SteadyPlaybackAdvertisesOnce`). Without one the latency is 0, which is also the mark of
  nothing advertised yet, so every poll advertises for ever, unless what was advertised before is
  within 3 ms of 0 without being 0, when none does (`Lat.AdvertisementsEndIff`,
  `Lat.AdvertisementsWithoutRate`).

## Model

| member | source | states |
|---|---|---|
| KnockModel.TickProgress | src/reac_knock_wire.c:243-299 | every step of the sender's loop lowers (time left, slots left and the resting flag), so `run` ends however far behind it is |
| KnockModel.RunLoopPos | src/reac_knock_wire.c:236-302 | where a call leaves the knock depends only on the schedule and the clock, never on what the wire accepted |
| KnockSchedule.PollingScheduleDoesNotMatter | src/reac_knock_wire.c:236-302 | any ascending sequence of calls leaves the same position and due time as one call at the last instant, on any two wires, and sent + late + refused grows by exactly the control slots passed |
| KnockSchedule.RunLoopAttempts | src/reac_knock_wire.c:253-282 | each control slot passed is counted once as sent, late or refused, and nothing else is |
| KnockSchedule.WakeUp | src/reac_knock_wire.c:102-119 | after a call the due time is later than now; a call before it counts and sends nothing when a cycle ends by the ceiling or on a control slot; a call at most 8 ms after it is late for nothing and hands every control slot it passes to the wire when no knock hides the next header (`NeverHides`) |
| KnockSchedule.DueIsNextIff | src/reac_knock_wire.c:102-119 | from every place a sender could stop the due time is the next control slot's, exactly when a cycle ends on a control slot, or no later than the first control slot of a knock opened at the ceiling, or in the nanosecond of its last slot |
| KnockSchedule.HiddenHeader | src/reac_knock_wire.c:133-140 | a concrete position of any other cadence whose next control slot falls before its due time |
| KnockSchedule.NothingBeforeDue | src/reac_knock_wire.c:102-119 | where a cycle ends by the ceiling, on a control slot or in the nanosecond of its last slot, or hides no header, no control slot lies strictly before the due time |
| KnockSchedule.PromptLoop | src/reac_knock_wire.c:262-282 | where a sender that runs asks in time for the next header (`KeepsUp`), a call no more than 8 ms behind the next control slot records no late frame, through rests and new knocks |
| KnockSchedule.InTimeIsPromptIff | src/reac_knock_wire.c:236-302 | from every place a sender could stop, on every wire, a call at most 8 ms behind the due time is late for nothing, exactly when the last due time of a knock is no later than the first control slot of a knock opened at the ceiling (`NeverHides`) |
| KnockSchedule.NeverHidesIff | src/reac_knock_wire.c:87-119 | for a cycle that starts on a control slot that condition says: the cycle ends by 30 s, or on a control slot that falls by 30 s |
| KnockSchedule.FittingNeverHides | src/reac_knock_wire.c:87-119 | a cycle of at most 30 s meets it |
| KnockSchedule.KeepsUpIff | src/reac_knock_wire.c:35-38 | up to one slot a nanosecond it is the same asked of the places a sender that runs stops at (`KeepsUp`), those where no slots share a nanosecond |
| KnockSchedule.PosLoopReached | src/reac_knock_wire.c:236-302 | a call leaves the sender at such a place |
| KnockSchedule.LateInTime | src/reac_knock_wire.c:243-282 | where a knock asks last after the next header at the ceiling, the call 8 ms after that finds the header late |
| KnockSchedule.NothingBeforeControl | src/reac_knock_wire.c:243-299 | a call before the next control slot passes none, through rests and new knocks, of any cadence |
| KnockBackoff.KnocksOpenOnSchedule | src/reac_knock_wire.c:121-140 | with nothing heard, knock m opens at the spell's start plus the m periods before it and no earlier, of any cadence; where the last slot falls by 30 s the number opened by `now` is the one the period sums bracket |
| KnockBackoff.OpensOnTimeIff | src/reac_knock_wire.c:121-140 | every knock whose time has come is open, whenever the sender is called, exactly when the last slot of a cycle falls by 30 s |
| KnockBackoff.KnocksOverlapIff | src/reac_knock_wire.c:87-97 | consecutive knocks never overlap exactly when a cycle is at most 30 s |
| KnockBackoff.PeriodGrows | src/reac_knock_wire.c:87-97 | the first period is one cycle in nanoseconds, cut to 30 s; the period doubles, never falls, and once at the ceiling stays there |
| KnockBackoff.KnocksOpenInNanoseconds | src/reac_knock_wire.c:87-140 | after any call, in slots, cadence and nanoseconds: knock m of a spell with nothing unanswered opened (2^m - 1) cycles after the first while the distances are at most 30 s and 30 s apart from then on, a rest ends when the next one would open, and likewise from any number unanswered |
| KnockBackoff.BurstIsBounded | src/reac_knock_wire.c:243-299 | one call hands over no more frames than the cadence puts in the 8 ms window, one for the edge and a nanosecond's worth for each knock opened inside it, of a cycle of at most 30 s; no more than two windows of any other |
| KnockBackoff.TwoWindows | src/reac_knock_wire.c:243-299 | of a cycle over 30 s a call hands over at most a window of one knock and a window of the next, which is not over by then |
| KnockBackoff.OneWindow | src/reac_knock_wire.c:253-282 | before a knock's last slot, of any cadence, a call hands over at most one window of it |
| KnockBackoff.BurstOfALongCycle | src/reac_knock_wire.c:243-299 | when a cycle is longer than the window that bound has at most one knock boundary in it, or is two windows over 30 s |
| KnockBackoff.OneRecentOpen | src/reac_knock_wire.c:121-140 | a cycle longer than the window opens at most one knock inside it in one call |
| KnockPushes.RunLoopFollows | src/reac_knock_wire.c:263-298 | the transfer counters agree with the history: a push is a TAIL that left whose HEAD left, with exactly 341 chunks left since and no scene frame late or refused |
| KnockPushes.FrameFollows | src/reac_knock_wire.c:263-298 | one control slot, whatever its fate, keeps the counters and the history together |
| KnockPushes.OpenHeadAppend | src/reac_knock_wire.c:286-298 | a transfer is still open after an event exactly when the event carries it on and does not complete it |
| KnockTrace.RunsKeepInv | src/reac_knock_wire.c:142-302 | in every run of polls, frames heard, calls and answers taken: the counters are the history's counts, only control frames go out and each in its slot's time, late means more than 8 ms old, the due time is the position's, at most four answers are kept, and a spell has sent at most one cycle's control frames per knock |
| KnockTrace.NeverLate | src/reac_knock_wire.c:262-282 | where a sender that runs asks in time for the next header, no frame is late in any run whose caller wakes at most 8 ms late |
| KnockTrace.NeverLateIff | src/reac_knock_wire.c:236-302 | no run whose caller wakes at most 8 ms late has a late frame, on any wire and from any start, exactly when a sender that runs asks in time for the next header; of every cadence |
| KnockTrace.LateInSomeRun | src/reac_knock_wire.c:236-302 | of any other cadence a run from the start, called on time for every control slot of its first knock, that is late |
| KnockTrace.TowardsTail | src/reac_knock_wire.c:102-119 | calls on time lead from any place of a knock to the last time it asks for |
| KnockTrace.DueIsNextInRunsIff | src/reac_knock_wire.c:102-119 | in no run does a call before the due time account for a control slot, exactly when no run stops in the empty tail of a knock or that tail ends by the next header or in its last slot's nanosecond; of every cadence |
| KnockTrace.HiddenInSomeRun | src/reac_knock_wire.c:102-119 | of any other cadence a run from the start and a time before its due time that passes the next header |
| KnockFinished.FinishedKnocksPush | src/reac_knock_wire.c:286-298 | on an accepting wire called in time, where a sender that runs asks in time for the next header, every finished knock of a spell has counted exactly one push, whatever is polled and heard meanwhile |
| KnockFinished.FinishedKnocksCountIff | src/reac_knock_wire.c:263-298 | on every accepting wire called in time a spell has counted a push for each knock that is over, exactly under that condition |
| KnockFinished.HeaderLost | src/reac_knock_wire.c:266-289 | a call after the next header at the ceiling loses that knock's push for good |
| KnockFinished.OwesTrace | src/reac_knock_wire.c:286-298 | a push lost is not made up by any operation of the spell |
| KnockTrace.SpellBacksOff | src/reac_knock_wire.c:87-140 | through any operations but a frame heard, every knock of a spell opens where the backoff puts it |
| KnockTrace.SpellInNanoseconds | src/reac_knock_wire.c:87-140 | the same in nanoseconds through any operations but a frame heard |
| KnockTrace.RousedOpensAtOnce | src/reac_knock_wire.c:187-199 | a frame after a silence ends a rest: the next call opens a knock at that instant, backing off from the shortest period again |
| KnockTrace.AnswerIsTheFirstFrames | src/reac_knock_wire.c:204-234 | the first evidence ends the knock; until its answer is taken what is kept is exactly the first four control frames heard from it on, with its sender and the knock it answered, whatever else is heard, polled or sent |
| KnockTrace.KnocksOnlyOnSilence | src/reac_knock_wire.c:142-203 | a spell opens only unpinned, off a trunk, and 500 ms after the last frame heard and after the wire came up |
| KnockHistory.StateTellsHistory | src/reac_knock_wire.c:142-207 | in every run, read off the operations: the wire is a trunk when the last poll said so, was last heard at the last frame off a trunk, and a licence runs from that frame, the end of the last trunk or the start |
| KnockHistory.SpellOpensIff | src/reac_knock_wire.c:161-178 | a poll opens a spell exactly when it finds no pin and no trunk, no knock is out, and nothing was heard for 500 ms nor since the wire came up |
| KnockHistory.ActsAndModes | src/reac_knock_wire.c:142-234 | which act each poll and frame returns, exactly, and the mode it leaves |
| KnockHistory.SpellsCounted | src/reac_knock_wire.c:169-177 | the spells counted are the polls that opened one |
| KnockHistory.FirstKnock | src/reac_knock_wire.c:169-177 | the poll that opens a spell opens its first knock then, counts nothing of the spells before, and leaves the backoff |
| KnockHistory.SpellCounts | src/reac_knock_wire.c:121-131 | a spell counts the knocks it opened and the frames of it that left |
| KnockHistory.UnansweredAreRests | src/reac_knock_wire.c:121-199 | in every run the backoff stands at the rests begun since the last frame that ended 500 ms of silence, or was the first, and the last trunk that ended |
| KnockHistory.SilenceEndsAtTheFloor | src/reac_knock_wire.c:187-199 | such a frame puts the backoff at its floor in every mode but a trunk and makes a rest due, and no other frame moves the knock |
| KnockHistory.SpellFromTheFloor | src/reac_knock_wire.c:87-199 | a spell opened when nothing has rested since then has its first rest end one cycle after it opened, and backs off by doubling from there |
| KnockHistory.KnocksInOrder | src/reac_knock_wire.c:249-282 | in every run the knock that is out has passed exactly the control slots up to where it is, each once, in order, at slot/fps seconds after its opening |
| KnockHistory.FramesMeetTheWire | src/reac_knock_wire.c:266-283 | in every run a frame not late is counted sent or refused as the wire has it for that many frames before it |
| KnockWire.ControlPerCycle | src/reac_knock_wire.c:70-85 | the count is the number of control slots of one cycle |
| KnockWire.PeriodNs | src/reac_knock_wire.c:87-97 | the doubling loop with its early stop gives the smaller of the cycle doubled n times and 30 s |
| KnockWire.KnockWire.KnockPeek | src/reac_knock_wire.c:102-119 | the due time is the first control slot from here or the knock's end, found on a copy of the master |
| KnockWire.KnockWire.KnockOpen | src/reac_knock_wire.c:121-131 | the knock restarts at its header with no transfer begun |
| KnockWire.KnockWire.KnockRest | src/reac_knock_wire.c:133-140 | the rest ends one period after the knock opened, and the backoff grows |
| KnockWire.KnockWire.Step | src/reac_knock_wire.c:142-179 | the poll takes exactly the model's transition and action |
| KnockWire.KnockWire.StartSpell | src/reac_knock_wire.c:169-177 | a granted licence opens a spell: its counters from nothing, no answer kept, its first knock now |
| KnockWire.KnockWire.Hears | src/reac_knock_wire.c:181-227 | a frame heard takes exactly the model's transition and action |
| KnockWire.KnockWire.TakeAnswer | src/reac_knock_wire.c:229-234 | the kept answer is forgotten and the wire listens again |
| KnockWire.KnockWire.PassSlot | src/reac_knock_wire.c:253-298 | one slot: FILLER never sent, late not sent, the transfer counted only if it leaves |
| KnockWire.KnockWire.Run | src/reac_knock_wire.c:236-302 | the nested loop ends, does what the model's run does, and returns the frames that left |
| KnockLadder.KnockLadder.Step | src/reac_knock_wire.c:304-337 | one turn of the ladder, its two frame and push differences never wrapping |
| KnockLadder.KnockLadder.Reopen | src/reac_knock_wire.c:310-322 | the first turn, a fresh spell or a fresh sniffer starts the grace and the counters here and keeps the edge count |
| KnockLadder.KnockLadder.Judge | src/reac_wake.c:33-112 | the refusals in the order they are read, on 64-bit differences of the clock, the edge and the one last word |
| KnockLadder.LadderIsBounded | src/reac_wake.c:33-112 | in every run, on a clock that may step back but never reads 0, at most two edges and one last word, and that only after both |
| KnockLadder.EdgesCounted | src/reac_wake.c:33-112 | on such a clock the count kept is the number of edges made, across every spell |
| KnockLadder.SpellOpensAt | src/reac_knock_wire.c:310-324 | the grace and the counters run from the turn `SpellStart` names: the first, or the last that saw another spell, a push or a frame forgotten |
| KnockLadder.EdgeIff | src/reac_wake.c:33-112 | in every run an edge is made exactly on a wire with carrier, no frame since the spell began, not the host's, serving nobody, with frames of the spell sent, fewer than two edges made, 20 s since the last, three whole transfers in the spell and 12 s of it |
| KnockLadder.LastWordIff | src/reac_wake.c:33-112 | the last word is said exactly on such a wire after two edges, once |
| KnockLadder.RefusalSays | src/reac_wake.c:33-112 | each refusal is the first fact in its order that stands against an edge, exactly |
| KnockLadder.LastEdgeKept | src/reac_wake.c:108-111 | the time kept is that of the last edge made |
| KnockLadder.EdgeOnlyOnASilentWire | src/reac_knock_wire.c:304-337 | an edge means 12 s of one spell, three whole transfers and not one frame heard in it, carrier up, not the host's NIC, no sibling served, and 20 s since the edge before |
| RosterTable.CollectedSorted | src/reac_roster.c:92-128 | after any wires the table is sorted by name, and strictly when every name fits |
| RosterTable.AddStrictIff | src/reac_roster.c:104-117 | an add keeps the table free of duplicates exactly when the name fits, or is refused, or does not cut to a listed one |
| RosterTable.LongNameListedTwice | src/reac_roster.c:104-117 | a name of 16 characters is listed twice |
| RosterTable.OrderDoesNotMatter | src/reac_roster.c:92-128 | for distinct names that fit, at most 32, the table is the same whatever order they were added in |
| RosterTable.CollectedRows | src/main.c:5492-5566 | after any wires at all the table holds exactly one row for each wire it took, with what was found on it |
| RosterTable.RowSays | src/reac_roster.c:117-126 | every field of a row: the wire's own texts cut to their fields, the word for each that is absent, and what was said if the name fits |
| RosterTable.LessIff | src/reac_roster.c:104-112 | the order is that of the first differing byte, a beginning first |
| RosterTable.StateNameReadsBack | src/reac_roster.c:11-27 | each state is published under its own name |
| RosterTable.AcceptsIff | src/reac_roster.c:92-114 | an add is refused exactly for no name, for want of room or for a name some row has |
| RosterTable.PlainAdmitted | src/reac_roster.c:92-128 | distinct wires with names that fit, at most 32, are all taken |
| RosterTable.PlaceBrackets | src/reac_roster.c:104-116 | the cut name stands after the rows before its place and before the rows after it |
| RosterDelta.PrintedInjective | src/reac_roster.c:147-205 | two properties print the same key only if they are the same property |
| RosterDelta.RenderCarries | src/reac_roster.c:132-152 | what a node carries, in literal keys: the mark, the count unless there is none, and of row i the name, state, model, role, source, width as in/out and status or the state's sentence, each under its own key, and nothing else |
| RosterDelta.DeltaInOrder | src/reac_roster.c:130-152 | the entries come in key order: the count, then group by group and field by field |
| RosterDelta.DeltaGivesTheWanted | src/reac_roster.c:174-214 | the delta applied to the rendering of what is published is the rendering of what is wanted, but for an emptied roster, whose count is left saying 0 |
| RosterDelta.DeltaFits | src/reac_roster.c:174-214 | the delta always fits the caller's table |
| RosterDelta.DeltaEntries | src/reac_roster.c:183-210 | an entry is in the delta exactly when its property moved |
| RosterDelta.DeltaKeysDistinct | src/reac_roster.c:183-210 | no key appears twice |
| RosterDelta.NothingSetInVain | src/reac_roster.c:186-210 | no key is set to the value it has, and none is removed that is not there |
| RosterDelta.RemovalIffShrank | src/reac_roster.c:216-221 | the delta contains a removal exactly when the wanted roster is the shorter |
| RosterDelta.EmptyDeltaIff | src/reac_roster.c:174-214 | the delta is empty exactly when the two rosters render alike |
| RosterDelta.PutIsChanged | src/reac_roster.c:161-172 | setting or removing one printed property changes that one value and no other |
| Roster.Roster.Add | src/reac_roster.c:92-128 | the in-place insertion gives the table with the row in its place, or refuses, counting the overflow |
| Roster.Roster.Status | src/reac_roster.c:68-79 | exactly the named row's sentence changes, or nothing |
| Roster.Roster.Delta | src/reac_roster.c:174-214 | the caller's table holds exactly the delta, or -1 when it does not all fit |
| Roster.Roster.Shrank | src/reac_roster.c:216-221 | true when the wanted roster is shorter than the published one |
| Roster.Roster.Forget | src/reac_roster.c:223-229 | nothing is published any more and what is wanted is untouched |
| Roster.Roster.Commit | src/reac_roster.c:231-235 | what is published is what is wanted |
| Roster.EntryFits | src/reac_roster.c:132-172 | no key or value of a delta is cut by the buffer it is printed into |
| RosterTick.RosterNode.Publish | src/reac_roster_node.c:126-160 | a delta with a removal, an empty one, or one without memory publishes nothing; any other is merged whole |
| RosterTick.RosterDaemon.Collect | src/main.c:5492-5566 | the wires walked become the wanted roster, and what is published is untouched |
| RosterTick.RosterDaemon.Tick | src/main.c:5568-5662 | one tick takes the protocol's transition; the node is the same one unless its server went or a segment left; one that could be told carries, key by key, the wires of this tick and no more |
| RosterTick.RosterDaemon.FindNode | src/main.c:5572-5605 | a node whose server went is gone and nothing is recorded as published; without one every tenth look makes one |
| RosterTick.RosterDaemon.MakeWay | src/main.c:5629-5644 | a segment that left replaces the node and forgets what was published; otherwise both stay |
| RosterTick.TickKeepsInStep | src/main.c:5568-5662 | no node means nothing recorded as published, and a node carries exactly the rendering of what is |
| RosterTick.TickCarries | src/main.c:5568-5662 | after a tick that could publish the node says of each wire of that tick what was found, under that wire's keys, and nothing of any other |
| RosterTick.NoRemovalIsOffered | src/main.c:5629-5659 | what reaches publish fits its table and never asks for a removal |
| RosterTick.RunsStayInStep | src/main.c:5568-5662 | both of those over every run of ticks, lost servers, failed nodes and failed publishes |
| RosterTick.TickShowsTheWiresIff | src/main.c:5641-5662 | after a tick the node shows that tick's wires exactly when publishing found memory or it showed them already |
| RosterTick.NodeMovesOnlyFor | src/main.c:5572-5640 | the node is remade only for a lost server, a segment that left, or none there, and exactly when each of those can succeed |
| RosterTick.NodeIsBackIff | src/main.c:5587-5604 | while nodes can be made one is there from the next tenth look on, and not before |
| RosterTick.TenTicksCatchUp | src/main.c:5568-5662 | whatever happened before, ten ticks of a working server leave a node showing exactly the wires of the last |
| Netlink.NlWriter.WriteTree | fuzz/netlink.h:282-303 | an attribute, nested ones and padding included, is laid down as the grammar says and its length patched in, unless it does not fit what is left of the buffer, which is exactly when `full` is set |
| Netlink.NlWriter.WriteMessage | fuzz/netlink.h:266-303 | a message is laid down with its length patched in, unless it does not fit, which is exactly when `full` is set |
| Netlink.NlWriter.WriteError | fuzz/netlink.h:305-315 | an error is laid down whole or cut, and padded, unless it does not fit, which is exactly when `full` is set |
| Netlink.NlWriter.AttrPut | fuzz/netlink.h:282-289 | one attribute of data with its padding, on a boundary of four, or `full` exactly when it does not fit |
| Netlink.NestSealed | fuzz/netlink.h:292-303 | a nest laid down with no length and then patched is the nest |
| Netlink.Sealed | fuzz/netlink.h:277-280 | patching the length into a message laid down with none gives the message |
| Netlink.AttrsRoundTrip | fuzz/netlink.h:200-215 | walking the attributes written gives back exactly those, in order, inside any surroundings |
| Netlink.NestRoundTrip | fuzz/netlink.h:292-303 | walking a nested attribute's data gives back exactly what was nested |
| Netlink.MessagesRoundTrip | fuzz/netlink.h:181-196 | walking a chunk gives back exactly the messages written, then what follows |
| Netlink.ReplyRoundTrip | fuzz/netlink.h:181-280 | a whole reply reads back, its last message unpadded |
| Netlink.LeastByteFirst | fuzz/netlink.h:165-177 | numbers are laid down with their least byte first |
| LinkAlias.CopyAttr | src/reac_link_alias.c:25-36 | the text up to its NUL, cut to the buffer, and a NUL after it; nothing for no buffer |
| LinkAlias.CopyKind | src/reac_link_alias.c:78-84 | the kinds inside a link-info attribute are copied in order |
| LinkAlias.ReadLink | src/reac_link_alias.c:72-85 | a link message leaves the buffers what its attributes say, no read past the message |
| LinkAlias.WalkChunk | src/reac_link_alias.c:60-88 | a chunk is decided by its first error or link message, or left undecided |
| LinkAlias.Talk | src/reac_link_alias.c:39-93 | for any chunks of any bytes the answer and the buffers are those of the specified reply, no read outside the bytes received |
| LinkAlias.Read | src/reac_link_alias.c:95-119 | both buffers are emptied first; no name and no interface are their own errors |
| LinkAlias.Write | src/reac_link_alias.c:121-149 | the four refusals, and otherwise the request sent and the answer to it |
| LinkAlias.BuildRequest | src/reac_link_alias.c:131-148 | the request built in place is the specified message, byte for byte |
| LinkAlias.FirstErrorOrLinkDecides | src/reac_link_alias.c:52-89 | of all messages of all chunks in order, the first error or link message decides |
| LinkAlias.FirstDecisiveIs | src/reac_link_alias.c:61-88 | what decides is the first of its kind, and there is none only if no message is |
| LinkAlias.LastAliasAndKindWin | src/reac_link_alias.c:72-87 | a link's answer leaves each buffer reading as the last alias and the last kind, cut at its NUL and to the buffer, or untouched when there was none |
| LinkAlias.LastCopyWins | src/reac_link_alias.c:25-36 | of several copies the buffer reads as the last alone |
| LinkAlias.CutReads | src/reac_link_alias.c:25-36 | a text that fits is taken whole, with or without a NUL behind it, and a longer one up to room for the NUL |
| LinkAlias.CopiedKeeps | src/reac_link_alias.c:25-36 | a copy ends in a NUL and leaves the rest of the buffer as it was |
| LinkAlias.LastOfKind | src/reac_link_alias.c:74-77 | the last data of a kind are those of the last attribute of it, none when there is none |
| LinkAlias.LastKind | src/reac_link_alias.c:78-84 | the last kind is the last one inside the last link-info attribute with any |
| LinkAlias.ErrorReadsBack | src/reac_link_alias.c:62-69 | an error of any 32-bit code is answered with that code, its sign kept, both buffers untouched; cut anywhere inside its 20 bytes it answers -EIO |
| LinkAlias.DecisiveTypes | src/reac_link_alias.c:62-71 | types 2 and 16 decide and no other |
| LinkAlias.SocketErrors | src/reac_link_alias.c:42-57 | the first failure of the socket is the answer, negated, and the buffers are untouched |
| LinkAlias.EmptiedReadsEmpty | src/reac_link_alias.c:98-101 | an emptied buffer reads as no text |
| LinkAlias.RequestSays | src/reac_link_alias.c:131-147 | the bytes of the request before its attribute: its length, type, flags, sequence, port, family and the interface's index |
| LinkAlias.RequestReadsBack | src/reac_link_alias.c:121-149 | the request walks back to one link message with one alias attribute holding exactly the alias, for every alias under 256 bytes |
| LinkAlias.LinkMessageReadsBack | fuzz/netlink.h:181-303 | a link message written is walked back to the attributes it was given |
| LinkAlias.AliasReadsBack | src/reac_link_alias.c:39-119 | the alias and the kind a link answers are what the reader leaves in its buffers |
| LinkAlias.AttrsShift | src/reac_link_alias.c:72-85 | a region walks the same inside its message as on its own |
| HeadampProp.NextPair | fuzz/pod.h:131-145 | the next pair is the one the pairing rule names |
| HeadampProp.PairsAreKeysAndValues | fuzz/pod.h:131-145 | a pod is a key exactly when it is a String and not the value of the key before it, and the pairs are the keys with the pods behind them |
| HeadampProp.WalkPods | src/reac_headamp_prop.c:129-181 | the walk with its pending key writes the first `max` well-formed cells in order, counts every prefixed pair reached and keeps the first refusal, for every list and room |
| HeadampProp.ParseResult | src/reac_headamp_prop.c:108-182 | the same with the two early answers, and nothing written past the cells counted |
| HeadampProp.ReadPair | src/reac_headamp_prop.c:148-174 | one pair is skipped, refused for its key, refused for its value, or a cell, in that order |
| HeadampProp.TakeVerdict | src/reac_headamp_prop.c:148-174 | taking one pair leaves the whole still to be found unchanged, or ends the walk when the room is spent |
| HeadampProp.KeyAddressesIff | src/reac_headamp_prop.c:70-85 | a key is refused as no address exactly when it is not blanks, a sign, digits, a dot and a parameter's name; otherwise it is the cell named, or out of range when there is no such channel |
| HeadampProp.PrintedKeyReadsBack | src/reac_headamp_prop.c:70-85 | the key printed for a cell is read back as that cell |
| HeadampProp.SignedKeysParse | src/reac_headamp_prop.c:70-85 | a plus before the channel changes nothing and a minus leaves only channel 0 |
| HeadampProp.BlanksAre | src/reac_headamp_prop.c:70-75 | the blanks that may stand before the number |
| HeadampProp.PairGivesCell | src/reac_headamp_prop.c:24-47 | for a key naming a cell: a Bool gives 1 or 0, an Int itself and a Float its nearest integer when the parameter takes it, exactly, and any other value is out of range |
| HeadampProp.OtherPairs | src/reac_headamp_prop.c:148-167 | an unprefixed pair is skipped, one naming no cell is refused for its key whatever its value, one naming no channel is out of range |
| HeadampProp.CellsHandedOnAreInRange | src/reac_headamp_prop.c:155-174 | every cell handed on is a channel and parameter of the wire with a value the parameter takes |
| HeadampState.Asserted.Set | src/reac_headamp_state.c:67-77 | exactly one cell changes, or nothing and a refusal |
| HeadampState.LastWriteWins | src/reac_headamp_state.c:67-77 | after any writes a cell holds the last value in its range that was written to it, or none |
| HeadampState.Asserted.Render | src/reac_headamp_state.c:79-110 | the buffer holds the first characters of the full text that fit and a NUL, and the full length is returned |
| HeadampState.NextCell | src/reac_headamp_state.c:88-107 | the text grows by `ch:param=value` for each set cell, a comma before all but the first |
| HeadampState.BuiltTablesFit | src/reac_headamp_state.h:122-125 | the text of any table the writes build is shorter than its bound |
| HeadampState.TextNamesTheTable | src/reac_headamp_state.c:79-110 | two tables have the same text exactly when they are the same table |
| HeadampState.RenderedInjective | src/reac_headamp_state.c:79-110 | the same of every prefix of the cells |
| FloatNear.FloatNearestCorrect | src/reac_float_near.h:24-34 | the sum-and-floor reading gives n exactly when n is the nearest integer, a half read upward, and lies in the range |
| FloatNear.PodNearestCorrect | fuzz/pod.h:152-171 | so does the integer-and-fraction reading |
| FloatNear.NearestReadingsAgree | fuzz/pod.h:152-171 | the two agree on every value and every range |
| LinkBudget.TwoMastersFitIff | src/reac_link_budget.c:7-27 | two masters of one rate share 100 Mbit/s exactly below 49476 Hz, and what one costs |
| LinkBudget.Hearing.LinkUsed | src/main.c:2977-2994 | the sum over the running engines of the port, the asking one apart |
| LinkBudget.Hearing.Yielding | src/main.c:3866-3883 | the names are all other holders when each is empty and unpinned, and none otherwise |
| LinkBudget.Hearing.Drop | src/main.c:3828-3839 | exactly the open listener of the named segment closes, or nothing |
| LinkBudget.Hearing.Yield | src/main.c:3859-3906 | all other holders of the port are closed or none is, and no other listener changes |
| LinkBudget.Hearing.Open | src/main.c:2215-2255 | admitted when it fits, or when it fits after a yield taken for a wire that heard gear |
| LinkBudget.Hearing.ReopenAtRate | src/main.c:2718-2740 | a re-open at another rate is closed first and admitted like any other |
| LinkBudget.EveryOperationStaysWithin | src/main.c:2215-2255 | every operation keeps the cost on every port of known speed within its link |
| LinkBudget.RunsStayWithinLinks | src/main.c:2215-2255 | so does every sequence of opens, yields, drops, re-opens and changes on the wire |
| LinkBudget.YieldIsAllOrNothing | src/main.c:3859-3906 | a neighbour is touched only for a heard wire that did not fit and when every holder was empty and unpinned; then all go, and the taker is admitted exactly when it fits alone |
| LinkBudget.OpenFacts | src/main.c:2215-2255 | in the listeners' own facts: with room, or on a port of unknown speed, admitted and nobody touched; without room refused and nobody touched, unless the wire was heard and all others there heard nothing, granted nothing, recognised no box and are unpinned, when all of those go |
| LinkBudget.OpenedSlot | src/main.c:2215-2255 | an admitted open leaves its slot running what was asked, a refused one leaves it closed |
| LinkBudget.ReopenedSlot | src/main.c:2718-2740 | a re-open leaves its segment at the new rate or closed, admitted as if it had not been open |
| LinkBudget.CommittedCounts | src/main.c:2977-2994 | what is committed on a port counts every master on it |
| LinkBudget.NoTwoFastMasters | src/main.c:2215-2255 | no run ends with two 96 kHz masters on one 100 Mbit/s port |
| RxBind.RxBind.Tick | src/reac_rx_bind.c:33-65 | one tick takes the model's transition, and the gate is told exactly the moves |
| RxBind.RxBind.Hint | src/reac_rx_bind.c:26-31 | the hint locks the gate and tells it that one peer more |
| RxBind.TickMovesIff | src/reac_rx_bind.c:33-65 | a tick moves the lock exactly when no hint holds it, 8 frames were decoded, and every tick for at least 500 ms reported this one other MAC |
| RxBind.HeldSinceIsARun | src/reac_rx_bind.c:51-61 | that span is an unbroken run of ticks reporting the one MAC |
| RxBind.Timed | src/reac_rx_bind.c:33-65 | in every run the candidate is the MAC of the unbroken run at its end, timed from its first tick |
| RxBind.HintStands | src/reac_rx_bind.c:26-31 | a hint's lock is changed by no tick in any run, only by another hint |
| NodeRecover.NodeRecover.Step | src/reac_node_recover.c:33-59 | one tick takes the ladder's step, and `spent` after a rebuild or the last word is the window just waited out |
| NodeRecover.NodeRecover.StepPair | src/reac_node_recover.c:61-74 | the pair is judged as one node, and only absent sides are marked gone |
| NodeRecover.EveryAbsenceFollowsTheSchedule | src/reac_node_recover.c:16-59 | in every run each absence rebuilds at ticks 10, 30, 70, 150 and 310, gives up once at 470, then waits for ever |
| NodeRecover.StandsByAbsence | src/reac_node_recover.c:33-59 | the ladder's whole state is a function of how long the node has now been gone |
| Lat.Lat.Poll | src/reac_lat.c:36-51 | one poll takes the smoother's step and leaves the latency within 3 ms of the one advertised |
| Lat.PollsStayClose | src/reac_lat.c:15-51 | after any polls at any rates the smoothed depth lies between the least and greatest seen, and the latency within 3 ms of the advertised |
| Lat.LatencyIs | src/reac_lat.c:25-34 | the latency reported is the nearest nanosecond to (1 + depth) frames of twelve samples at the rate |
| Lat.ApproachesTheDepth | src/reac_lat.c:15-23 | the first depth is taken whole, and a constant one approached by a tenth of the distance left at each poll |
| Lat.AdvertisesIff | src/reac_lat.c:36-51 | a poll advertises exactly when nothing was or the latency moved by 3 ms or more, and advertises what it reports |
| Lat.RisingAdvertisements | src/reac_lat.c:36-51 | rising to a constant depth, each advertisement takes 3 ms off the distance left, at any rate, or without one from an advertisement within 3 ms of 0 |
| Lat.FallingAdvertisements | src/reac_lat.c:36-51 | so does falling to one |
| Lat.AdvertisementsAreBounded | src/reac_lat.c:36-51 | once the depth is constant and the advertised latency within 3 ms of the reported, the advertisements times 3 ms are at most the distance left, for ever, at any rate or none |
| Lat.AdvertisementsFromAnywhere | src/reac_lat.c:36-51 | from any state at all, with one advertisement more at any rate; without a rate all polls advertise or none does |
| Lat.AdvertisementsWithoutRate | src/reac_lat.c:25-51 | without a rate every poll advertises, or none when what was advertised is within 3 ms of 0 and not 0 |
| Lat.AdvertisementsEndIff | src/reac_lat.c:15-51 | at a constant depth some number bounds the advertisements of every run exactly when there is a rate or that exception holds |
| Lat.RipplesAreQuiet | src/reac_lat.c:36-51 | depths that ripple inside a band whose latencies differ by less than 3 ms never advertise again once one of its latencies is advertised |
| Lat.SteadyPlaybackAdvertisesOnce | src/reac_lat.c:15-51 | such playback advertises at most once from any advertised latency, and exactly once, at its first poll, from none |

## Left out

- libreac's master, disco, hunt and topology, and the bytes of the frames it stamps: another
  repository; one cycle of emissions stands for it, and a stamp that fails is not modelled.
- 64-bit wrap-around of times, counters and slot products: they are unbounded here, except the
  silence test and the wake ladder's two times, whose 64-bit differences are written out.
- A cadence of 0 frames per second, which makes `run` do nothing and the period its ceiling.
- KnockWire.KnockWire.Run: the thirteen position and counter fields are grouped in two values, `pos`
  and `tally`, whose parts the methods update one by one.
- Lat.PollsStayClose: over the reals with a smoothing factor of one tenth; single-precision rounding
  is not captured. The same holds of the two readings of a Float.
- HeadampProp.WalkPods: pods are taken as their accessors read them, so the bytes of a pod, its
  padding and the object around it are not modelled, nor is the saturation of a number too large
  for its type, which is out of every range asked of it.
- Netlink.NlWriter.WriteTree: what the buffer holds once something did not fit is not stated, beyond
  that `full` says so and stays set; a little-endian host is assumed.
- LinkAlias.Read: the bytes of the fixed request it sends, which carries no attribute.
- LinkAlias.Talk: the socket is what it answers; descriptors, time-outs and the order of system calls
  are not modelled. The interface index is a parameter.
- LinkBudget.RunsStayWithinLinks: it is assumed that every engine on the port is a master and that
  the port's speed does not change; serving, sniffing and the retry window of a yielded segment are not modelled.
- RosterTick.RosterDaemon.Tick: the node's name, class and id, the announcement of the id and the
  journal lines are left out, and the wires come as one list instead of three tables.
- RxBind.RxBind.Tick: a MAC is a 48-bit number and the engine's frame count a parameter; what the
  gate does with its lock is not modelled.
- RosterTable.StateNameReadsBack: the nine sentences of the states are carried as literals.
- The name of a pair verdict's sides, the refusal codes and the configuration texts of the head-amps
  and the names of states: tables and short branches.
- Segment configuration, the served mark, link ownership, role and rate choice, the box pin: parsing
  of files and table lookups that none of the protocols above depends on.
- PipeWire streams, filters and timers, sockets, `/proc` and `/sys`, capabilities, the command line
  and the journal: I/O.
