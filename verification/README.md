# Verified models of the Bristlemouth firmware's core

This project models the parts of the firmware whose correctness is hardest to see and proves what they
are for.

| files | what they model |
|---|---|
| `TickSchedule`, `TickWorld`, `TickLimits`, `LptimTick` | The tickless timer: a 16-bit counter at C Hz gives an operating-system tick at T Hz although C / T is not whole. The state machine runs on an unbounded counter and tick index for symbolic C and T; the class `LptimTimer` keeps the 16- and 32-bit fields and is proved to take the machine's steps. |
| `PowerSchedule`, `PowerController` | The bridge power controller: nested sample and subsample windows, aligned intervals, computed sleeps. The class keeps the 32-bit fields; the schedule is the waveform and notices of whole runs. |
| `TopologyWalk`, `TopologyRun`, `TopologyTask` | Topology discovery on a line of nodes: the walk as values, whole discoveries under any pattern of time-outs, and the doubly linked list with its cursor that the task keeps. |
| `Forwarding` | Link-local forwarding of a configuration request along a line of two-port nodes whose ports face either way. |
| `RequestList`, `MessageList` | Outstanding requests, replies and time-outs: as values, and as the singly linked list of the code. |
| `Calendar` | Seconds since 1970 to and from dates. |
| `DifferenceSignal` | Second-order difference coding of a pressure signal, its chunks, and the task that decides whether to send them, over exact arithmetic. |
| `ResourceTable` | The resource table message, its writer and its reader. |
| `CrcList` | The persisted list of configuration CRCs in CBOR (RFC 8949, section 3.1). |
| `ReportAccumulation`, `ReportBuilder` | Samples accumulated by node and period between reports: as a map, and as the linked list of buffers. |

Each object that the source updates in place is a class whose methods are proved against functions on
values; the theorems are about those functions, over every input, every order of events or every run.
What the functions themselves compute is fixed by laws that do not use them, in plain numbers, such as
`TickWorld.InterruptDoes`, `RequestList.ExpiredIff`, `Calendar.TimesAreCivil` and `PowerSchedule.WakeIs`.
Every lemma is marked `{:induction false}`: the induction a proof uses is the one it shows.

## What the proofs found

The code is modelled as it is. Where a promise does not hold everywhere, the exact condition is proved.

- Nearest counts. The comments at `src/lib/common/lptimTick_u5.c:204-209` promise that the running error
  never exceeds half a count and that every tick is placed on the closest count. With an odd tick rate that
  shares no factor with the clock rate, the error reaches (T + 1) / 2 and that tick is one subcount further
  from its due time than the next count (`TickLimits.AlwaysNearestIff`). No drift follows.
- Dropped-tick test. A tick can be placed one count beyond the interrupt's margin, in exactly those
  configurations in which ticks are longer than their whole counts, sleeps of three ticks are allowed, and
  some tick is due half-way between two counts or the error of a tick does not divide a count (and sleeps
  are long enough for it to add up); the handler then takes a coming tick for a dropped one and moves the
  schedule (`TickLimits.MarginIsEnoughIff`, `TickLimits.AlwaysWithinMarginIff`,
  `TickLimits.FalseDropIsReachable`). 32768 Hz with 1000 ticks per second is not affected.
- Early wake-up window. A longest sleep that is entered, or left, within the count of a tick credited one
  count early can leave one count more than the window accepts; all its ticks are then given at once. The
  window accepts exactly the shorter sleeps, and of the longest those whose last credited tick was due
  (`TickWorld.WindowAccepts`, `TickLimits.WindowCanBeMissed`).
- Tick on the current count. After an early wake-up with an odd tick rate, the next tick can be put on the
  count under way instead of the next, exactly when whole ticks fill the counts left and the sleep's end was
  more than half a count late (`TickWorld.EarlyWakeExact`, `TickLimits.TickOnCurrentCount`).
- Extra wake-ups. One that falls in a subsample that outlasts its sample ends it early; and one after a
  wake-up so late that the next start is past already changes something, unless that start is a subsample's,
  the bus is on and the subsample has one second left (`PowerSchedule.ExtraWakeHarmlessIff`,
  `PowerSchedule.ExtraWakeCutsSubsample`). The waveform survives all extra wake-ups exactly when no
  subsample outlasts its sample (`PowerSchedule.AnyWakesIff`). When a window ends just where the next sample
  starts and the bus is off, the bus comes on a second late (`PowerSchedule.IntendedIffSmooth`,
  `PowerSchedule.SecondSampleStartsOff`).
- Lost cursor. If the root has two neighbors, its first request is answered and its own second request times
  out, the cursor passes the root and discovery never ends (`TopologyRun.DiscoveryEndsIff`).
- Sequence numbers. They are counted in 32 bits but kept and matched in 16, so one request left outstanding
  while 65535 others come and go takes a later request's reply (`RequestList.ReplyMatchesIff`,
  `RequestList.OldRequestTakesReply`).
- Calendar dates. The year has 16 bits and the seconds 32; both conversions are right exactly below those
  limits (`Calendar.DateIff`, `Calendar.FirstTimeLost`, `Calendar.DateRoundTripIff`,
  `Calendar.FirstDateLost`).
- Pressure reports. With one sample, the second difference pass is called on an empty buffer, which its
  assertion forbids (`DifferenceSignal.SendRaw`). A report is counted against the limit once it has ended,
  whole or not: it is whole exactly if there were three samples or more and every chunk was published, and
  with two samples, or three whose publication fails, nothing is published and yet a report is counted
  (`DifferenceSignal.CountedReportIsWholeIff`, `DifferenceSignal.CountedUnpublished`); so the limit that
  `DifferenceSignal.LimitIsKept` proves is one on incomplete reports too.
- Resource names. A name that begins a listed one is refused as if it were listed, and so is one that a
  listed one begins, if memory behind that goes on alike (`ResourceTable.NewNameIsAddedIff`,
  `ResourceTable.RefusedNames`); a table of 65536 bytes or more can pass the size test and be sent cut short
  (`ResourceTable.SentWholeIff`, `ResourceTable.LongTableIsCutShort`), and is then read as no table
  (`ResourceTable.ReadIffWhole`).
- Reports. A node that was heard, but not in the last period, has its last slots reported as zeros, not as
  missing samples (`ReportAccumulation.RowIsFilledIff`, `ReportAccumulation.ZeroIsReported`). A second
  sample in a period takes the next period's slot (`ReportAccumulation.SecondSampleTakesNextSlot`), and one
  is written beyond the buffer exactly when a node sends more samples in some period and later than the
  report has periods from there on (`ReportAccumulation.RunHasRoomIff`). A report announces a number of
  sensors other than its rows unless as many nodes were heard with no known sensor as the bridge counts for
  (`ReportAccumulation.AnnouncedIff`, `ReportAccumulation.UnknownSensorIsNotAnnounced`).

## Model

| member | source | states |
|---|---|---|
| `TickSchedule.Constants` | src/lib/common/lptimTick_u5.c:269-298 | the set-up constants: C is counts per tick times T plus the error per tick, which is at least -(T/2) and never +T/2, and its sign is the one the code records |
| `TickSchedule.LongestSleep` | src/lib/common/lptimTick_u5.c:284 | the longest sleep is the largest number of ticks that leaves room for two ticks more in the counter's 65536 counts, and is at least one |
| `TickSchedule.FirstOnSchedule` | src/lib/common/lptimTick_u5.c:310-316 | set-up puts the first tick on the schedule: ideal * T + error == C |
| `TickSchedule.AfterTickOnSchedule` | src/lib/common/lptimTick_u5.c:694-721 | lengthening or shortening a tick keeps ideal * T + error == k * C exactly, for the next k, and the error within half a count (rounded up) |
| `TickSchedule.PostponedOnSchedule` | src/lib/common/lptimTick_u5.c:351-388 | planning a sleep of n extra ticks moves the schedule from tick k to tick k + n exactly |
| `TickSchedule.RewoundOnSchedule` | src/lib/common/lptimTick_u5.c:569-578 | moving the tick back after an early wake-up lands exactly on the earlier tick |
| `TickSchedule.NearestCount` | src/lib/common/lptimTick_u5.c:204-209 | the count chosen for a tick is a nearest one to its due time if and only if the running error is at most half a count |
| `TickSchedule.SameTickSameCount` | src/lib/common/lptimTick_u5.c:204-209 | for every tick rate: two schedules that reach the same tick choose the same count, or adjacent counts with the tick due between them and equally near, to the subcount by which half an odd rate is rounded |
| `TickWorld.NextExact` | src/lib/common/lptimTick_u5.c:337-609 | every step of set-up, interrupt, sleep, assessment and vTaskStepTick, as the code decides it from 16-bit registers and however late it comes, keeps the exact schedule and the conservation of kernel ticks |
| `TickWorld.NextTimely` | src/lib/common/lptimTick_u5.c:479-737 | a prompt step keeps all ticks credited to the past due by the next count, to half a count, if and only if it is not an early wake-up outside the accepted window, which credits the whole sleep |
| `TickWorld.EarlyWakeExact` | src/lib/common/lptimTick_u5.c:518-591 | after an accepted early wake-up the tick is rescheduled no earlier than the next count if and only if not (whole ticks fill the counts left exactly and the sleep's end was more than half a count late), which no even tick rate allows; then it is on the current count. The tick before it was due by the next count: it is the first one not skipped |
| `TickWorld.TickBeforeIsPast` | src/lib/common/lptimTick_u5.c:568-578 | with an even tick rate, count by count: every nearest count of the tick before the chosen one has been reached by the next count |
| `TickWorld.FullTicksBelowIdle` | src/lib/common/lptimTick_u5.c:534-557 | the assertion xFullTicksLeft < xExpectedIdleTime holds at every early wake-up while the ticks credited are timely |
| `TickWorld.WindowAccepts` | src/lib/common/lptimTick_u5.c:522-524 | the window of counts left accepts an early wake-up if and only if the sleep is shorter than the longest one or the tick credited last before it was due by the next count, to the error of the sleep's end |
| `TickWorld.FutureNotPast` | src/lib/common/lptimTick_u5.c:284-341 | a compare value up to the longest sleep ahead is never taken for a past one by the suppressed interrupt |
| `TickWorld.TickIsNear` | src/lib/common/lptimTick_u5.c:667-690 | an awake timer's next tick is never more than two counts beyond its whole counts away, and within the interrupt's margin of one where the configuration never passes the margin |
| `TickWorld.PromptIsTrue` | src/lib/common/lptimTick_u5.c:479-690 | given only that interrupts and assessments are less than the counter's range late (and, in configurations that can pass the margin, that no interrupt comes while the next tick is beyond it), the 16-bit code takes the state for what it is and its assertion on the ticks left holds |
| `TickWorld.NextNear` | src/lib/common/lptimTick_u5.c:341-690 | in configurations that never pass the margin, every prompt step but a rejected early wake-up keeps the first tick not yet credited within it |
| `TickWorld.DecisionIsTrue` | src/lib/common/lptimTick_u5.c:652-690 | the 16-bit lateness test decides tick, drop or neither as the true lateness asks for, for every lateness in the stated window |
| `TickWorld.DecisionFailsOutside` | src/lib/common/lptimTick_u5.c:652-690 | and for every lateness just outside that window it decides wrongly |
| `TickWorld.InterruptDoes` | src/lib/common/lptimTick_u5.c:651-737 | what the interrupt does, awake or asleep: less than a tick's counts late it counts one tick and sets the next one up a tick's counts on, to a count; later it counts one and sets the next up a tick on from the current count, or leaves all as it is while the tick is suppressed; before the tick's count it leaves all as it is |
| `TickWorld.SleepEnds` | src/lib/common/lptimTick_u5.c:464-737 | an interrupt at the planned end of a sleep ends it, for the 16-bit test of the sleep loop too |
| `TickWorld.PlannedIsLesser` | src/lib/common/lptimTick_u5.c:341-344 | a sleep is planned as long as asked for or as the longest allowed, whichever is shorter |
| `TickWorld.RunExact` | src/lib/common/lptimTick_u5.c:246-764 | over every run, whatever its lateness and whatever the code takes for a dropped tick, the schedule is exact about the shifted origin and kernel ticks are conserved |
| `TickWorld.RunTimely` | src/lib/common/lptimTick_u5.c:246-764 | over every prompt run in which no early wake-up is outside the window, the 16-bit code takes every state for what it is and no tick is credited before it was due |
| `TickWorld.ShortSleepsAreAccepted` | src/lib/common/lptimTick_u5.c:341-524 | no early wake-up is outside the window in a prompt run whose sleeps are all shorter than the longest one |
| `TickWorld.ShiftMeansDropped` | src/lib/common/lptimTick_u5.c:667-677 | the schedule's origin moves only when the code drops a tick; and exactly then, and never back, while the code drops only ticks it missed |
| `TickWorld.StepShifts` | src/lib/common/lptimTick_u5.c:667-677 | each drop moves the origin by exactly the lateness, and every other step leaves it |
| `TickWorld.NoDrift` | src/lib/common/lptimTick_u5.c:204-209 | no drift: over every run without a dropped tick, however late its interrupts and assessments, tick k is placed on ideal * T + error == k * C, the kernel has been given or promised exactly k - 1 ticks, and with an even tick rate no count is nearer |
| `TickWorld.RunsAgree` | src/lib/common/lptimTick_u5.c:204-209 | two such runs that have reached the same tick, at any tick rate, placed it on the same count or on two equally near ones |
| `TickWorld.KernelTimeTracksCounter` | src/lib/common/lptimTick_u5.c:407-609 | in every prompt run in which no early wake-up is outside the window, the ticks given to the kernel are those that were due by the counter, to one tick and two counts |
| `TickLimits.AlwaysNearestIff` | src/lib/common/lptimTick_u5.c:204-209 | the documented nearest-count placement holds in every run if and only if the tick rate is even or shares a factor with the clock rate |
| `TickLimits.MarginIsEnoughIff` | src/lib/common/lptimTick_u5.c:667-669 | an upcoming tick is never mistaken for a dropped one if and only if it is at most a whole tick and one count away |
| `TickLimits.AlwaysWithinMarginIff` | src/lib/common/lptimTick_u5.c:654-690 | no prompt run places a tick beyond the margin if and only if ticks are not longer than their whole counts, or sleeps are at most two ticks, or no tick is due half-way between two counts and the error of a tick divides a count or sleeps are too short for it to add up |
| `TickLimits.FalseDropIsReachable` | src/lib/common/lptimTick_u5.c:667-677 | with a 16384 Hz clock and 1000 ticks per second a run reaches a state in which the interrupt drops a tick that is still to come and moves the schedule back |
| `TickLimits.WindowCanBeMissed` | src/lib/common/lptimTick_u5.c:518-524 | with 32768 Hz and 1000 ticks per second a run reaches an early wake-up one count outside the window, and the whole sleep is credited at once |
| `TickLimits.TickOnCurrentCount` | src/lib/common/lptimTick_u5.c:526-591 | with a 21 Hz clock and 5 ticks per second a run reaches an early wake-up that puts the next tick on the current count |
| `LptimTick.LptimTimer.constructor` | src/lib/common/lptimTick_u5.c:246-318 | set-up establishes the schedule of tick 1, the handshake invariant and the constants in 32-bit arithmetic, and starts writing the first tick's count |
| `LptimTick.LptimTimer.FinishCompareWrite` | src/lib/common/lptimTick_u5.c:744-763 | the hardware taking over a compare value keeps the handshake invariant |
| `LptimTick.LptimTimer.WriteCompare` | src/lib/common/lptimTick_u5.c:407-412 | the compare register is written only when no write is pending, and never with 0xFFFF |
| `LptimTick.LptimTimer.WriteIdealIfPossible` | src/lib/common/lptimTick_u5.c:408-412 | if no write is in progress, the compare register gets the ideal value, or 0 where the hardware forbids 0xFFFF; if one is, it stays as it is |
| `LptimTick.LptimTimer.EnterSleep` | src/lib/common/lptimTick_u5.c:341-413 | the 16- and 32-bit sleep entry takes the Enter step of the state machine and writes the sleep's end to the compare register, unless a write is in progress |
| `LptimTick.LptimTimer.PlanSleep` | src/lib/common/lptimTick_u5.c:341-344 | the expected idle time is cut to the longest sleep |
| `LptimTick.LptimTimer.Postpone` | src/lib/common/lptimTick_u5.c:351-412 | the compare value and the error move to the schedule's later tick |
| `LptimTick.LptimTimer.SleepsOn` | src/lib/common/lptimTick_u5.c:464 | the sleep loop ends exactly when a task is ready or the compare value is no longer that of the planned end |
| `LptimTick.LptimTimer.AssessSleep` | src/lib/common/lptimTick_u5.c:479-601 | the assessment after a sleep, at any lateness, takes the Assess step, says whether the assertion on the ticks left holds, and writes the new tick's count exactly if the sleep was cut short and no write is in progress |
| `LptimTick.LptimTimer.TicksLeft` | src/lib/common/lptimTick_u5.c:488-557 | the whole ticks left in an unfinished sleep, from 16-bit registers |
| `LptimTick.LptimTimer.CountsLeft` | src/lib/common/lptimTick_u5.c:498-524 | the 16-bit count difference is the counts left modulo 65536, and is accepted exactly within the window |
| `LptimTick.LptimTimer.TicksIn` | src/lib/common/lptimTick_u5.c:534-544 | the whole ticks in the counts left, with the correction for a tick credited one count early |
| `LptimTick.LptimTimer.Rewind` | src/lib/common/lptimTick_u5.c:568-591 | the compare value and the error move back to the schedule's earlier tick |
| `LptimTick.LptimTimer.StepTick` | src/lib/common/lptimTick_u5.c:604-609 | the pending ticks are given to the kernel |
| `LptimTick.LptimTimer.HandleInterrupt` | src/lib/common/lptimTick_u5.c:617-764 | the whole handler, at any lateness, takes the Interrupt step; a finished write is followed by one of the ideal value exactly if the register holds neither it nor the count after it, a running one goes on, and without one a tick starts one; an interrupt at a sleep's end counts one tick and ends the sleep loop |
| `LptimTick.LptimTimer.AcknowledgeWrite` | src/lib/common/lptimTick_u5.c:744-763 | once a write has finished, the register holds the ideal value or the count after it and nothing is written, or the ideal value is written; until then nothing changes |
| `LptimTick.LptimTimer.PollTick` | src/lib/common/lptimTick_u5.c:651-737 | the handler's tick test and dropped-tick path, on 16-bit registers: one tick at most is counted, and exactly then, if no write is in progress, the new compare value is written |
| `LptimTick.LptimTimer.ScheduleNextTick` | src/lib/common/lptimTick_u5.c:694-726 | the next tick's compare value and error are those of the schedule |
| `PowerSchedule.NextOnGridIsLeast` | src/apps/bridge/bridgePowerController.cpp:369-374 | the aligned start is last + m * interval for the least m >= 1 that is not before now |
| `PowerSchedule.RoundUpIsLeast` | src/apps/bridge/bridgePowerController.cpp:376-390 | rounding up to the alignment gives the least multiple not below |
| `PowerSchedule.AlignNextIsNear` | src/apps/bridge/bridgePowerController.cpp:362-393 | the next start is not before now, a multiple of the alignment, and within an interval and an alignment of the later of now and the last start |
| `PowerSchedule.AlignNextIs` | src/apps/bridge/bridgePowerController.cpp:362-393 | the next start is the first point of the interval's grid behind the last start and not before now, or, when there is none yet, the first multiple of the interval after now; and from there the first multiple of the alignment |
| `PowerSchedule.FirstStart` | src/apps/bridge/bridgePowerController.cpp:362-393 | the first start of all is the least multiple of the interval after now, without an alignment or with one that divides the interval |
| `PowerSchedule.AlignedStaysOnGrid` | src/apps/bridge/bridgePowerController.cpp:362-393 | an alignment that divides the interval leaves starts on the interval's own grid |
| `PowerSchedule.WakeStaysOnGrid` | src/apps/bridge/bridgePowerController.cpp:189-264 | every wake-up, whenever it comes, keeps sample and subsample starts on their grids |
| `PowerSchedule.WakeIs` | src/apps/bridge/bridgePowerController.cpp:189-264 | what a wake-up at any time does: to the bus, to both starts, whether a notice is sent, and the moment slept to, in each part of the schedule |
| `PowerSchedule.NoScheduleDrift` | src/apps/bridge/bridgePowerController.cpp:78-264 | over any sequence of wake-ups at any times, early, late or extra, and of enabling and disabling, the sample starts stay on S + m * interval and the subsample starts on the sample's grid |
| `PowerSchedule.SetEnabledStaysOnGrid` | src/apps/bridge/bridgePowerController.cpp:78-93 | enabling and disabling, at any time, keep both grids and never move the sample start back |
| `PowerSchedule.SetEnabledIs` | src/apps/bridge/bridgePowerController.cpp:78-93 | enabling when the sample start is past moves both starts to the first grid point not past; at other times, and disabling, nothing moves |
| `PowerSchedule.ExtraWakeHarmlessIff` | src/apps/bridge/bridgePowerController.cpp:189-264 | an extra wake-up at any time of a sleep changes nothing and sleeps on to the same moment if and only if it does not fall in a subsample that outlasts its sample or, after a wake-up so late that the next start is past, unless that starts a subsample with one second left on a powered bus |
| `PowerSchedule.ExactDutyCycle` | src/apps/bridge/bridgePowerController.cpp:189-264 | waking exactly when asked, the bus is on at every time exactly as intended in each period, and one aggregation notice has been sent per window that has ended |
| `PowerSchedule.UsualConfigurations` | src/apps/bridge/bridgePowerController.cpp:189-264 | for duration < interval (and subsamples that fit) the conditions of the exact duty cycle hold and the period is the interval |
| `PowerSchedule.IntendedMeansInSubsample` | src/apps/bridge/bridgePowerController.cpp:202-234 | with subsampling, intended means within one of the subsamples that start in the sample |
| `PowerSchedule.RoughEndMissesStart` | src/apps/bridge/bridgePowerController.cpp:189-264 | otherwise the bus is still off at the start of the second sample |
| `PowerSchedule.IntendedIffSmooth` | src/apps/bridge/bridgePowerController.cpp:189-264 | the waveform is as intended at all times if and only if the bus is on, or the period not over, at the end of a window |
| `PowerSchedule.ExtraWakesKeepWaveform` | src/apps/bridge/bridgePowerController.cpp:189-264 | when no subsample outlasts its sample the bus is as intended at every time of every run that wakes when asked, whatever other wake-ups come |
| `PowerSchedule.ExtraWakeBreaksWaveform` | src/apps/bridge/bridgePowerController.cpp:189-264 | otherwise one extra wake-up makes the bus wrong |
| `PowerSchedule.AnyWakesIff` | src/apps/bridge/bridgePowerController.cpp:189-264 | the waveform survives all extra wake-ups if and only if no subsample outlasts its sample |
| `PowerSchedule.ExtraWakeCutsSubsample` | src/apps/bridge/bridgePowerController.cpp:189-264 | a subsample from 8 to 14 s of a 10 s sample is cut by a wake-up at 10 s |
| `PowerSchedule.SecondSampleStartsOff` | src/apps/bridge/bridgePowerController.cpp:189-264 | with 12 s samples back to back and subsamples over after 6 s, the bus is off when the second sample starts |
| `PowerController.TimeRemainingAcrossWrap` | src/lib/common/util.c:249-258 | the 32-bit remaining time is right across a wrap of the clock, for differences that fit 31 bits |
| `PowerController.TimeRemainingIff` | src/lib/common/util.c:249-258 | for 32-bit times it is right if and only if the difference fits 31 bits |
| `PowerController.Left` | src/lib/common/util.c:249-258 | remaining time as the schedule uses it |
| `PowerController.BridgePowerController.constructor` | src/apps/bridge/bridgePowerController.cpp:19-70 | each time is kept if it lies within 6 s and a day (an hour for subsamples) and takes its default of 1800, 310, 60 or 30 s otherwise, an alignment up to a day is kept and 300 s otherwise; a window as long as its interval switches its control off; and an error is reported exactly if one of these happened |
| `PowerController.BridgePowerController.AlignNextInterval` | src/apps/bridge/bridgePowerController.cpp:362-393 | the loop in 32-bit arithmetic computes the next aligned start |
| `PowerController.BridgePowerController.StartOfInterval` | src/apps/bridge/bridgePowerController.cpp:365-368 | the start to count from is the last one, or, if there was none, the last multiple of the interval not after now (PowerSchedule.FirstStart) |
| `PowerController.BridgePowerController.FirstNotBefore` | src/apps/bridge/bridgePowerController.cpp:369-374 | the alignment loop finds the least grid point not before now |
| `PowerController.BridgePowerController.Align` | src/apps/bridge/bridgePowerController.cpp:376-390 | the rounding in 32-bit arithmetic gives the least aligned time not below |
| `PowerController.BridgePowerController.CheckAndUpdateTimebase` | src/apps/bridge/bridgePowerController.cpp:330-338 | the time base is set once; the first sample start is then the least multiple of the interval after now, if there is no alignment or one that divides the interval, and otherwise aligned and near |
| `PowerController.BridgePowerController.PowerControlEnable` | src/apps/bridge/bridgePowerController.cpp:78-93 | enabling moves a sample start that is past, with its subsample start, to the next aligned one; disabling leaves both |
| `PowerController.BridgePowerController.PowerBus` | src/apps/bridge/bridgePowerController.cpp:110-133 | the bus ends as wanted |
| `PowerController.BridgePowerController.Initialize` | src/apps/bridge/bridgePowerController.cpp:154-188 | the first update powers the bus and sleeps to the first aligned start |
| `PowerController.BridgePowerController.Idle` | src/apps/bridge/bridgePowerController.cpp:265-290 | without sampling the bus is on exactly when power control is off, and the task sleeps to the first start once it is known |
| `PowerController.BridgePowerController.Update` | src/apps/bridge/bridgePowerController.cpp:151-305 | an update while sampling takes exactly the schedule's Wake step and asks for its sleep, in milliseconds modulo 2^32; before that it powers the bus and looks for the time base |
| `PowerController.BridgePowerController.Sample` | src/apps/bridge/bridgePowerController.cpp:190-264 | the sample window's branches are those of the schedule |
| `PowerController.BridgePowerController.Subsample` | src/apps/bridge/bridgePowerController.cpp:202-234 | the subsample window's branches are those of the schedule |
| `TopologyWalk.CheckNodeGood` | src/lib/bcmp/bcmp_topology.cpp:133-165 | checking a node keeps the list a segment with its cursor in the part being explored, and makes progress |
| `TopologyWalk.TimedOutGood` | src/lib/bcmp/bcmp_topology.cpp:376-385 | a time-out keeps all that and makes progress, unless it strands the cursor |
| `TopologyWalk.AddNodeGood` | src/lib/bcmp/bcmp_topology.cpp:341-358 | an answer extends the segment by the neighboring node at the growing end |
| `TopologyWalk.NewNeighborIs` | src/lib/bcmp/bcmp_topology.cpp:602-614 | the neighbor asked for is the first one of the table not in the list |
| `TopologyWalk.OnlineCountIs` | src/lib/bcmp/bcmp_topology.cpp:616-637 | what is compared with the explored ports is the number of neighbors whose port is up |
| `TopologyWalk.KnownAnswerIsIgnored` | src/lib/bcmp/bcmp_topology.cpp:341-358 | an answer from a node that is listed already changes nothing |
| `TopologyRun.StepGood` | src/lib/bcmp/bcmp_topology.cpp:315-392 | one turn of the event loop keeps the invariant and decreases the measure of unexplored ports, missing nodes and way back |
| `TopologyRun.EndedIsSegment` | src/lib/bcmp/bcmp_topology.cpp:315-392 | when discovery ends, whichever requests timed out, the list is a duplicate-free stretch of the line in one orientation with one root, under the cursor |
| `TopologyRun.AnsweredIsThorough` | src/lib/bcmp/bcmp_topology.cpp:315-392 | with every request answered, discovery ends with both ends of the line reached |
| `TopologyRun.DiscoversWholeLine` | src/lib/bcmp/bcmp_topology.cpp:88-392 | with every request answered, from a root anywhere on the line, discovery ends and the list is exactly the line in physical order, up to reversal, with one root |
| `TopologyRun.SpinsForEver` | src/lib/bcmp/bcmp_topology.cpp:133-165 | once the cursor has passed the root the loop checks nodes for ever |
| `TopologyRun.LoopEndsIff` | src/lib/bcmp/bcmp_topology.cpp:315-392 | the loop ends exactly when the terminating account of discovery says so, with the same list |
| `TopologyRun.AlwaysSegment` | src/lib/bcmp/bcmp_topology.cpp:315-392 | at every step of every discovery the list is a stretch of the line containing the root once |
| `TopologyRun.EveryStepIsSegment` | src/lib/bcmp/bcmp_topology.cpp:88-392 | the same from the start of a discovery, for any number of steps |
| `TopologyRun.LostIff` | src/lib/bcmp/bcmp_topology.cpp:376-385 | from any reachable state, exactly which time-out strands the cursor |
| `TopologyRun.DiscoveryEndsIff` | src/lib/bcmp/bcmp_topology.cpp:376-385 | discovery ends if and only if the root does not lose its second neighbor: first request answered, its own second request timed out |
| `TopologyRun.ThreeNodesGetLost` | src/lib/bcmp/bcmp_topology.cpp:376-385 | three nodes with the root in the middle already show it |
| `TopologyTask.NetworkTopology.MoveFront` | src/lib/bcmp/bcmp_topology.cpp:448-453 | the cursor goes to the front |
| `TopologyTask.NetworkTopology.MovePrev` | src/lib/bcmp/bcmp_topology.cpp:455-462 | the cursor and the index go back one node, if there is one |
| `TopologyTask.NetworkTopology.MoveNext` | src/lib/bcmp/bcmp_topology.cpp:464-471 | the cursor and the index go on one node, if there is one |
| `TopologyTask.NetworkTopology.Prepend` | src/lib/bcmp/bcmp_topology.cpp:474-492 | a node is put in front; the index stays on the cursor's node, except that on an empty list it is advanced twice |
| `TopologyTask.NetworkTopology.Append` | src/lib/bcmp/bcmp_topology.cpp:495-510 | a node is put at the end |
| `TopologyTask.NetworkTopology.InsertAfter` | src/lib/bcmp/bcmp_topology.cpp:513-527 | a node is linked in behind the cursor, or into an empty list |
| `TopologyTask.NetworkTopology.InsertBefore` | src/lib/bcmp/bcmp_topology.cpp:530-545 | a node is linked in before the cursor, and the index moves with the cursor's node; in an empty list the index is advanced twice |
| `TopologyTask.NetworkTopology.DeleteBack` | src/lib/bcmp/bcmp_topology.cpp:548-568 | the last node, if there is one, is removed; a cursor on it moves to the one before while the index is left; an emptied list has no cursor and index -1 |
| `TopologyTask.NetworkTopology.Clear` | src/lib/bcmp/bcmp_topology.cpp:440-446 | all nodes are removed |
| `TopologyTask.NetworkTopology.IncrementPortCount` | src/lib/bcmp/bcmp_topology.cpp:570-574 | the cursor's explored-port count grows by one, if there is a cursor |
| `TopologyTask.NetworkTopology.NodeIdInTopology` | src/lib/bcmp/bcmp_topology.cpp:590-600 | whether some node of the list has the id |
| `TopologyTask.NetworkTopology.CheckNeighborNodeIds` | src/lib/bcmp/bcmp_topology.cpp:602-614 | the first neighbor of the cursor's node that is not in the list |
| `TopologyTask.NetworkTopology.CheckAllPortsExplored` | src/lib/bcmp/bcmp_topology.cpp:616-637 | whether as many ports were explored as are up |
| `TopologyTask.DiscoveryTask.constructor` | src/lib/bcmp/bcmp_topology.cpp:88-130 | discovery starts with the root alone |
| `TopologyTask.DiscoveryTask.ProcessCheckNode` | src/lib/bcmp/bcmp_topology.cpp:133-165 | the linked-list code takes the walk's step |
| `TopologyTask.DiscoveryTask.ProcessAddNode` | src/lib/bcmp/bcmp_topology.cpp:341-358 | inserting the answer, moving to it and counting the ports is the walk's step |
| `TopologyTask.DiscoveryTask.ProcessTimeout` | src/lib/bcmp/bcmp_topology.cpp:376-385 | the time-out is the walk's step |
| `TopologyTask.DiscoveryTask.HandleEvent` | src/lib/bcmp/bcmp_topology.cpp:315-392 | one turn of the loop, answered or timed out, is the step of the walk |
| `TopologyTask.DiscoveryTask.Discover` | src/lib/bcmp/bcmp_topology.cpp:88-392 | unless discovery is one that loses its cursor, the loop over the linked list ends, with the list of the walk: a stretch of the line, and the whole line in physical order when every request was answered |
| `Forwarding.SendShape` | src/lib/bcmp/bcmp.cpp:489-510 | a request sent link-locally leaves at most one copy travelling each way |
| `Forwarding.ReceiveShape` | src/lib/bcmp/bcmp.cpp:225-244 | receiving a copy, in any order, keeps: at most one copy each way, nodes in reach seen once, the target not passed |
| `Forwarding.RunShape` | src/lib/bcmp/bcmp.cpp:225-244 | the same over every order of receptions |
| `Forwarding.DeliveredAtMostOnce` | src/lib/bcmp/bcmp.cpp:489-510 | no node receives the request twice, only the target handles it, once and after as many hops as it is away, and no node beyond it receives it |
| `Forwarding.DeliveredExactlyOnce` | src/lib/bcmp/bcmp.cpp:489-510 | after as many receptions as there are nodes nothing is on the wire, and the target has handled the request exactly if it is another node of the line |
| `RequestList.ExpirySplits` | src/lib/bcmp/bcmp.cpp:618-636 | expiry splits the list: what leaves and what stays are what was there |
| `RequestList.LiveAreTheRest` | src/lib/bcmp/bcmp.cpp:618-636 | exactly the requests not overdue stay |
| `RequestList.LiveInOrder` | src/lib/bcmp/bcmp.cpp:618-636 | those that stay keep their order |
| `RequestList.ExpiredIff` | src/lib/bcmp/bcmp.cpp:618-623 | in unbounded time, across wraps of the millisecond clock: a request is overdue if and only if more than its time-out has passed since it was sent, for any time below 2^32 ms |
| `RequestList.RequestLeavesIff` | src/lib/bcmp/bcmp.cpp:618-636 | a request leaves at a pass, with its own callback called, if and only if more than its time-out has passed since it was sent; otherwise it still waits, whatever else the list holds |
| `RequestList.AcrossTheWrap` | src/lib/bcmp/bcmp.cpp:618-623 | a time-out of 99 ms begun 10 ms before the clock wraps is over at 90 ms and not at 89 ms |
| `RequestList.SendAccounted` | src/lib/bcmp/bcmp.cpp:435-444 | sending numbers a request with the low 16 bits of its place and appends it |
| `RequestList.ReplyAccounted` | src/lib/bcmp/bcmp.cpp:163-174 | a matching reply takes one request out and nothing else |
| `RequestList.ExpireAccounted` | src/lib/bcmp/bcmp.cpp:618-636 | an expiry pass takes out overdue requests and nothing else |
| `RequestList.LeavesAtMostOnce` | src/lib/bcmp/bcmp.cpp:163-174 | over every run each request leaves at most once, by a reply with its number or a time-out that was due, and its own callback is called exactly then |
| `RequestList.OnceInListOrGone` | src/lib/bcmp/bcmp.cpp:561-636 | at any time a request sent is once in the list or once among those that left |
| `RequestList.ReplyMatchesIff` | src/lib/bcmp/bcmp.cpp:643-658 | a reply is matched to its own request if and only if no older outstanding one was sent a multiple of 65536 requests before |
| `RequestList.ReplyMatchesItsRequest` | src/lib/bcmp/bcmp.cpp:643-658 | so it is while the oldest outstanding request is less than 65536 requests old |
| `RequestList.ReplyCallsBack` | src/lib/bcmp/bcmp.cpp:163-174 | a reply calls the callback that its request was sent with and takes that request out, if no older one has the same number |
| `RequestList.OldRequestTakesReply` | src/lib/bcmp/bcmp.cpp:438-444 | a reachable run with never more than two outstanding requests in which an old request takes a later one's reply |
| `MessageList.MessageList.AddMessage` | src/lib/bcmp/bcmp.cpp:561-578 | the element is linked in at the end |
| `MessageList.MessageList.RemoveMessage` | src/lib/bcmp/bcmp.cpp:582-604 | the element is unlinked, found by its address; an element not in the list changes nothing |
| `MessageList.MessageList.FindMessage` | src/lib/bcmp/bcmp.cpp:643-658 | the first element with the sequence number |
| `MessageList.MessageList.SendRequest` | src/lib/bcmp/bcmp.cpp:435-444 | numbering with the 32-bit counter and appending under its low 16 bits take the Send step |
| `MessageList.MessageList.MatchReply` | src/lib/bcmp/bcmp.cpp:163-174 | finding, fetching the callback and unlinking take the Reply step |
| `MessageList.MessageList.Expire` | src/lib/bcmp/bcmp.cpp:618-636 | the pass that restarts at the head after each removal ends, takes the Expire step (RequestList.RequestLeavesIff) and calls the callbacks of those that leave in list order |
| `MessageList.CallsInOrder` | src/lib/bcmp/bcmp.cpp:618-636 | each departure that has a callback calls it once, in the order of the departures |
| `Calendar.UtcFromDateTime` | src/lib/common/util.c:156-181 | both loops in 32-bit arithmetic give the seconds of the date modulo 2^32 (Calendar.SecondsAreCivil) |
| `Calendar.SecondsOfYears` | src/lib/common/util.c:161-166 | the loop over the years counts the days before the year |
| `Calendar.AddMonths` | src/lib/common/util.c:168-175 | the loop over the months adds the days before the month |
| `Calendar.DateTimeFromUtc` | src/lib/common/util.c:201-235 | both loops compute the date of a time (Calendar.TimesAreCivil) |
| `Calendar.YearIsItsMonths` | src/lib/common/util.c:142-143 | the month tables add up to the year |
| `Calendar.DateIff` | src/lib/common/util.c:201-235 | the fields are in the calendar's range and give the time back if and only if its year fits in 16 bits |
| `Calendar.FirstTimeLost` | src/lib/common/util.c:201-235 | the first time whose year does not fit is not given back |
| `Calendar.DateRoundTripIff` | src/lib/common/util.c:156-181 | date to seconds and back is the same date if and only if its seconds fit in 32 bits |
| `Calendar.FirstDateLost` | src/lib/common/util.c:156-181 | 7 February 2106, 06:28:16, comes back as 1 January 1970 |
| `Calendar.SecondsRoundTrip` | src/lib/common/util.c:201-235 | seconds to date and back is the identity below 2^32 seconds |
| `Calendar.DaysAreGregorian` | src/lib/common/util.c:135-168 | counting year by year agrees with the closed Gregorian count of leap days |
| `Calendar.MonthsAreCivil` | src/lib/common/util.c:142-175 | the days before each month of each year are those of the closed count 275 m / 9 - 30, less 2, or 1 in a leap year, from March on |
| `Calendar.SecondsAreCivil` | src/lib/common/util.c:156-181 | the seconds of a date are those of its day, counted without tables, and its time of day; before 1970 with 365 days to a year, as the code has it |
| `Calendar.TimesAreCivil` | src/lib/common/util.c:201-235 | the date of a time is the one within its month whose day, counted without tables, and time of day make the time up to the microsecond |
| `DifferenceSignal.IntegrateDiff` | src/lib/common/differenceSignal.cpp:41-63 | summing the differences from the reference rebuilds the signal |
| `DifferenceSignal.DiffIntegrate` | src/lib/common/differenceSignal.cpp:41-63 | and differencing the sums gives the differences back |
| `DifferenceSignal.PayloadOfChunks` | src/apps/bridge/rbrPressureProcessor.cpp:130-169 | the chunks in order hold every sample once |
| `DifferenceSignal.ChunkAt` | src/apps/bridge/rbrPressureProcessor.cpp:130-169 | chunk i is numbered i, has the total and both residuals, is full unless last, never empty or over 30, and holds the samples from 30 * i on |
| `DifferenceSignal.ReportAt` | src/apps/bridge/rbrPressureProcessor.cpp:119-169 | sample j of message i is s[k + 2] - 2 s[k + 1] + s[k] for k = 30 i + j, and every message carries the first value, the first difference and the number of second differences |
| `DifferenceSignal.ReportRebuilds` | src/apps/bridge/rbrPressureProcessor.cpp:119-169 | the residuals and the chunks of a signal of three or more samples rebuild it exactly |
| `DifferenceSignal.ReportsDiffer` | src/apps/bridge/rbrPressureProcessor.cpp:119-169 | different signals give different messages |
| `DifferenceSignal.CompleteIff` | src/apps/bridge/rbrPressureProcessor.cpp:137-141 | a receiver has every chunk if and only if the samples add up to the total |
| `DifferenceSignal.Signal.AddSample` | src/lib/common/differenceSignal.cpp:21-32 | a sample is appended unless the buffer is full |
| `DifferenceSignal.Signal.EncodeDifferences` | src/lib/common/differenceSignal.cpp:41-63 | the first differences, as many as asked for and there are, and nothing else of the buffer changes |
| `DifferenceSignal.Signal.GetReference` | src/lib/common/differenceSignal.cpp:103-115 | the first sample |
| `DifferenceSignal.Signal.SignalMean` | src/lib/common/differenceSignal.cpp:84-96 | the mean of the samples, 0 for none |
| `DifferenceSignal.MeanIsBetween` | src/lib/common/differenceSignal.cpp:84-96 | the mean lies between any bounds of the samples |
| `DifferenceSignal.SumOfParts` | src/lib/common/differenceSignal.cpp:84-96 | the sum a mean is made from adds up over parts: every sample has the same weight |
| `DifferenceSignal.DifferencesInPlace` | src/lib/common/differenceSignal.cpp:124-140 | the in-place pass leaves what an out-of-place one would compute |
| `DifferenceSignal.SendChunks` | src/apps/bridge/rbrPressureProcessor.cpp:126-169 | whatever becomes of the attempts, what is published is a prefix of the chunks, as long as the publications that succeeded, and the loop ends exactly when all are out or one could not be published |
| `DifferenceSignal.DeliveredCounts` | src/apps/bridge/rbrPressureProcessor.cpp:126-169 | the chunks delivered are as many as the attempts that published before the first that could not |
| `DifferenceSignal.SendRaw` | src/apps/bridge/rbrPressureProcessor.cpp:118-169 | no signal, nothing sent; one sample, the assertion of the second pass fails; otherwise the second-order report, and whether the attempts bring it to its end |
| `DifferenceSignal.PressureProcessor.TimerEnds` | src/apps/bridge/rbrPressureProcessor.cpp:101-178 | at the end of the timer the limit, the threshold and the signal decide in that order what is sent; a report is counted once it has ended, and the signal starts anew |
| `DifferenceSignal.EndingIs` | src/apps/bridge/rbrPressureProcessor.cpp:101-175 | a signal is refused if and only if the limit is used up, and else below the threshold if and only if its mean in microbar is; one that is sent has two samples or more, and has ended if and only if an attempt failed or every message is out |
| `DifferenceSignal.CountedReportIsWholeIff` | src/apps/bridge/rbrPressureProcessor.cpp:118-175 | a counted report rebuilds its signal if and only if there were three samples or more and every chunk was published, and is empty if and only if there were two or the first publication failed |
| `DifferenceSignal.CountedUnpublished` | src/apps/bridge/rbrPressureProcessor.cpp:118-175 | three samples whose publication fails, and two samples, are counted with nothing published |
| `DifferenceSignal.LimitIsKept` | src/apps/bridge/rbrPressureProcessor.cpp:105-175 | over every run no more reports, whole or not, are counted than the limit leaves |
| `DifferenceSignal.RefusedIff` | src/apps/bridge/rbrPressureProcessor.cpp:105-110 | and a signal is refused for the limit if and only if as many reports, whole or not, were counted before it |
| `ResourceTable.WalkOfList` | src/lib/bcmp/bcmp_resource_discovery.cpp:136-152 | the walk finds the names it was written from, in order, wherever the list stands |
| `ResourceTable.ListOfWalk` | src/lib/bcmp/bcmp_resource_discovery.cpp:136-152 | what the walk finds is what is written there |
| `ResourceTable.RoundTripIff` | src/lib/bcmp/bcmp_resource_discovery.cpp:87-152 | reading a written table gives the same names, split as they were, if and only if both counts fit in 16 bits |
| `ResourceTable.WhatIsReadWasWritten` | src/lib/bcmp/bcmp_resource_discovery.cpp:126-152 | a message that reads as a table begins with that table's bytes |
| `ResourceTable.LittleEndianAt` | src/lib/bcmp/bcmp_resource_discovery.cpp:87-109 | byte i of a written number is its i-th from the low end |
| `ResourceTable.TwoBytes` | src/lib/bcmp/bcmp_resource_discovery.cpp:50-152 | a length or a count is written as its low byte and its high byte and read so |
| `ResourceTable.LayoutIs` | src/lib/bcmp/bcmp_resource_discovery.cpp:87-109 | a message is the node's number in 8 bytes, two counts in 2 bytes each, and the published and the subscribed names, each at its place |
| `ResourceTable.NameStands` | src/lib/bcmp/bcmp_resource_discovery.cpp:50-72 | every name stands behind those before it, as its length in 2 bytes and its characters |
| `ResourceTable.SentWholeIff` | src/lib/bcmp/bcmp.cpp:417-426 | a table is sent whole, and read back as it was, if and only if it has 1447 bytes or fewer; it is not sent at all if and only if its length modulo 65536 is more than that |
| `ResourceTable.ReadIffWhole` | src/lib/bcmp/bcmp.cpp:417-426 | for every table with 16-bit counts, what is sent reads as that table if it was sent whole, and as no table if the wrapped length cut it short |
| `ResourceTable.LongTableIsCutShort` | src/lib/bcmp/bcmp.cpp:417-426 | one name of 65535 bytes is enough to wrap the 16-bit length |
| `ResourceTable.ResourceList.Find` | src/lib/bcmp/bcmp_resource_discovery.cpp:321-334 | a name is found if it begins a listed one |
| `ResourceTable.ResourceList.Add` | src/lib/bcmp/bcmp_resource_discovery.cpp:188-224 | a name is appended unless it is found |
| `ResourceTable.ResourceList.ComputeListSize` | src/lib/bcmp/bcmp_resource_discovery.cpp:33-48 | the size computed up front is the length of the list's bytes |
| `ResourceTable.ResourceList.PopulateMsgData` | src/lib/bcmp/bcmp_resource_discovery.cpp:50-72 | the count and the names are written at their places and nothing else is |
| `ResourceTable.CopyInto` | src/lib/bcmp/bcmp_resource_discovery.cpp:65-66 | memcpy |
| `ResourceTable.BuildReply` | src/lib/bcmp/bcmp_resource_discovery.cpp:87-109 | the buffer of the computed size is filled exactly with the table |
| `ResourceTable.ProcessReply` | src/lib/bcmp/bcmp_resource_discovery.cpp:126-158 | a reply that names another node than its sender is ignored, one with a callback is handed over, and the rest is printed, or would leave the message |
| `ResourceTable.PrintTable` | src/lib/bcmp/bcmp_resource_discovery.cpp:126-152 | the names printed are those the table's reader finds |
| `ResourceTable.PrintList` | src/lib/bcmp/bcmp_resource_discovery.cpp:139-144 | one list of the walk, by a running offset |
| `ResourceTable.NamesStayDistinct` | src/lib/bcmp/bcmp_resource_discovery.cpp:188-224 | over every run of additions the names stay distinct and keep their order |
| `ResourceTable.NewNameIsAddedIff` | src/lib/bcmp/bcmp_resource_discovery.cpp:188-334 | a new name is added if and only if it does not begin a listed one, and no listed one begins it with memory that goes on as it does |
| `ResourceTable.RefusedNames` | src/lib/bcmp/bcmp_resource_discovery.cpp:321-334 | [1] is refused where [1, 2] is listed, and [1, 2] where [1] is, if a 2 happens to follow it |
| `CrcList.HeadRoundTrip` | src/apps/bridge/sm_config_crc_list.cpp:173-189 | a CBOR head is read back wherever it stands |
| `CrcList.HeadBytes` | src/apps/bridge/sm_config_crc_list.cpp:173-189 | the bytes of a head: the type in the high three bits, and the argument in the rest or in 1, 2, 4 or 8 bytes behind, the high one first |
| `CrcList.OneCrcEncoded` | src/apps/bridge/sm_config_crc_list.cpp:173-201 | 0x12345678 alone is stored as 81 1A 12 34 56 78 |
| `CrcList.StoreRoundTrip` | src/apps/bridge/sm_config_crc_list.cpp:104-201 | decoding what was encoded gives the list back, whatever stale bytes follow it in the slot |
| `CrcList.SkipsItem` | src/apps/bridge/sm_config_crc_list.cpp:144-158 | advancing over a well-formed item, nested as it may be, goes from its first byte to its last |
| `CrcList.NumbersAreRead` | src/apps/bridge/sm_config_crc_list.cpp:104-166 | what decoding makes of any stored array: the unsigned integers among its items, behind tags too, in order |
| `CrcList.CutOffIsReadSoFar` | src/apps/bridge/sm_config_crc_list.cpp:104-166 | of an array that is cut off it makes the numbers up to the cut, and no list if not one item is there |
| `CrcList.OtherItemIsNoList` | src/apps/bridge/sm_config_crc_list.cpp:121-131 | an item other than an array of definite length is no list |
| `CrcList.MalformedHeads` | src/apps/bridge/sm_config_crc_list.cpp:144-158 | reserved heads, and simple values below 32 in two bytes, begin no item |
| `CrcList.MalformedItems` | src/apps/bridge/sm_config_crc_list.cpp:144-158 | a break where an item should start, a string beyond the end and a chunk of another type cannot be skipped |
| `CrcList.FitsIff` | src/apps/bridge/sm_config_crc_list.cpp:173-200 | every list of n CRCs, for every n, fits the 50-byte buffer if and only if n <= 9 |
| `CrcList.ListIsNewest` | src/apps/bridge/sm_config_crc_list.cpp:45-70 | over every run of add, contains and clear the list is the newest nine of what was added, newest first, without repetition |
| `CrcList.AddKeepsOthers` | src/apps/bridge/sm_config_crc_list.cpp:45-60 | adding loses nothing but the ninth |
| `CrcList.ConfigCrcList.Contains` | src/apps/bridge/sm_config_crc_list.cpp:20-28 | whether the stored list holds the CRC, if it fits the array; a valid store is not rewritten |
| `CrcList.ConfigCrcList.Add` | src/apps/bridge/sm_config_crc_list.cpp:45-60 | shifting the array and storing it is one step of the bounded queue, if the stored list fits the array |
| `CrcList.ConfigCrcList.PushFront` | src/apps/bridge/sm_config_crc_list.cpp:50-57 | the array moves one place on and the new CRC comes first |
| `CrcList.ConfigCrcList.Clear` | src/apps/bridge/sm_config_crc_list.cpp:67-70 | the slot begins with an empty array |
| `CrcList.ConfigCrcList.Decode` | src/apps/bridge/sm_config_crc_list.cpp:104-166 | the array is the stored list, or the result says that it does not fit; a missing or invalid store is rewritten as an empty array |
| `CrcList.ConfigCrcList.DecodeItems` | src/apps/bridge/sm_config_crc_list.cpp:144-158 | the loop over the items of the stored array: unsigned integers are taken, tags stepped over and items of other types, nested or of indefinite length, skipped, up to the first that cannot be read |
| `CrcList.ConfigCrcList.Encode` | src/apps/bridge/sm_config_crc_list.cpp:173-201 | the list is written to the start of the slot and the rest of it is left as it was; the buffer never overflows |
| `CrcList.AppendHead` | src/apps/bridge/sm_config_crc_list.cpp:179-189 | one head is appended unless it would not fit |
| `ReportAccumulation.Filed` | src/apps/bridge/reportBuilder.cpp:197-303 | a sample goes to the first free slot not before its period; skipped slots are filled with NaN and no other slot changes |
| `ReportAccumulation.SampleRefines` | src/apps/bridge/reportBuilder.cpp:886-898 | a first sample of a node in a period is the update of the (node, period) map |
| `ReportAccumulation.IncrementRefines` | src/apps/bridge/reportBuilder.cpp:714-717 | an increment moves to the next period, or empties the map when the report is due |
| `ReportAccumulation.RunRefines` | src/apps/bridge/reportBuilder.cpp:714-898 | over every run with at most one sample per node between increments there is room for every sample and the elements are that map, in order of first arrival |
| `ReportAccumulation.StartRefines` | src/apps/bridge/reportBuilder.cpp:680-700 | a run starts with an empty map and no elements |
| `ReportAccumulation.PeriodCounts` | src/apps/bridge/reportBuilder.cpp:714-717 | the period is the number of increments modulo the samples per report: a report is due at every increment of so many, whatever samples come |
| `ReportAccumulation.TransmitsIff` | src/apps/bridge/reportBuilder.cpp:717-733 | a due report is made if and only if reports are wanted, there is more than the bridge, and some node has a known sensor |
| `ReportAccumulation.KnownSensorsAre` | src/apps/bridge/reportBuilder.cpp:723-728 | the sensors announced are as many as there are nodes with a known one |
| `ReportAccumulation.ReportIsReported` | src/apps/bridge/reportBuilder.cpp:746-842 | a report has one row per node heard or with a known sensor, in topology order, and each slot is a sample, a missing one, or the zeros of a slot never written |
| `ReportAccumulation.AnnouncedIff` | src/apps/bridge/reportBuilder.cpp:723-746 | a report announces as many sensors as it has rows if and only if as many nodes were heard with no known sensor as the bridge itself is counted as sensors |
| `ReportAccumulation.UnknownSensorIsNotAnnounced` | src/apps/bridge/reportBuilder.cpp:723-746 | a node heard with its sensor type unknown makes one row more than announced |
| `ReportAccumulation.RowIsFilledIff` | src/apps/bridge/reportBuilder.cpp:152-155 | a row has no slot left at its cleared zeros if and only if the node was not heard at all or was heard in the last period |
| `ReportAccumulation.ZeroIsReported` | src/apps/bridge/reportBuilder.cpp:152-155 | a node heard in the first of two periods and not in the second has a zero reported for the second |
| `ReportAccumulation.FiledInPeriodIff` | src/apps/bridge/reportBuilder.cpp:197-303 | over runs: a node's next sample goes to its own period's slot if and only if it has sent, in every period and later, no more samples than there were periods from there to now |
| `ReportAccumulation.RunHasRoomIff` | src/apps/bridge/reportBuilder.cpp:197-303 | over every run, across reports, every sample has room if and only if in each report no node sends more samples in some period and later than there are periods from there on |
| `ReportAccumulation.FitsIff` | src/apps/bridge/reportBuilder.cpp:197-303 | one sample has room if and only if the arrivals with it leave room |
| `ReportAccumulation.SampleTracks` | src/apps/bridge/reportBuilder.cpp:197-303 | each sample keeps a node's counter at the largest p plus the samples sent in period p and later |
| `ReportAccumulation.StartTracks` | src/apps/bridge/reportBuilder.cpp:680-700 | so it is at the start |
| `ReportAccumulation.SecondSampleTakesNextSlot` | src/apps/bridge/reportBuilder.cpp:197-303 | a second sample in a period takes the next period's slot and pushes on that period's own; in the last period there is no room for it |
| `ReportBuilder.Node.constructor` | src/apps/bridge/reportBuilder.cpp:142-162 | a new element has cleared slots and its first sample |
| `ReportBuilder.Node.AddSampleToElement` | src/apps/bridge/reportBuilder.cpp:197-303 | the backfill loop and the write are the filing of the sample if there is a slot left for it; otherwise only the counter goes on |
| `ReportBuilder.ElementList.FindElement` | src/apps/bridge/reportBuilder.cpp:358-367 | the first element of the node |
| `ReportBuilder.ElementList.Append` | src/apps/bridge/reportBuilder.cpp:339-356 | the new element is linked in at the end |
| `ReportBuilder.ElementList.LinkBehind` | src/apps/bridge/reportBuilder.cpp:346-355 | the links, the size and the contents after the new element is linked in |
| `ReportBuilder.ElementList.FindAndAddSample` | src/apps/bridge/reportBuilder.cpp:318-337 | found or appended, one element has the sample, or has its counter overrun if there is no room, and the others are as they were |
| `ReportBuilder.ElementList.Clear` | src/apps/bridge/reportBuilder.cpp:369-378 | the list is emptied |
| `ReportBuilder.Builder.HandleSample` | src/apps/bridge/reportBuilder.cpp:886-898 | a sample message is one step if there is room for it, and overruns its node's counter if not |
| `ReportBuilder.Builder.HandleIncrement` | src/apps/bridge/reportBuilder.cpp:714-883 | an increment message is one step; it makes the report, with the number of sensors it announces, if and only if it is the last of a report's samples, reports are wanted, there is more than the bridge, and some node has a known sensor |
| `ReportBuilder.Builder.CollectRows` | src/apps/bridge/reportBuilder.cpp:746-842 | the rows of a report, without the bridge, adding an element of missing samples for a silent node |
| `ReportBuilder.Builder.CollectRow` | src/apps/bridge/reportBuilder.cpp:746-836 | the row one node adds |
| `ReportBuilder.Builder.CountSensors` | src/apps/bridge/reportBuilder.cpp:723-728 | the number of known sensors |

## Left out

- Hardware and operating system: registers, interrupts, mutexes, queues, timers and lwIP appear only as events: the counter advances, a write is taken over, a reply or a time-out comes, the task wakes at a given time.
- Timer: interrupts come between the stretches of code that run with them masked, so the sleep function is three methods (EnterSleep, SleepsOn and AssessSleep) and StepTick; `src/lib/common/lptimTick.c`, an older twin, is not modelled; nor is the build without the precision feature.
- TickWorld.NoDrift: stated for runs without a dropped tick, because the dropped-tick path abandons the phase by design; TickWorld.RunExact covers the runs with one, rightly dropped or not, about the shifted origin.
- Power controller: the expander and GPIO calls are taken to succeed, the initial power-on delay is over, one clock reading serves one update, and the signals to the power and network tasks are the bus state and the notice.
- PowerController.BridgePowerController.Update: states the schedule's step for times that leave room below 2^32 seconds and, while it is sampling, for windows that ended less than 2^31 seconds ago, because for others timeRemainingGeneric is wrong (PowerController.TimeRemainingIff).
- PowerSchedule.ExactDutyCycle: does not state a waveform for subsamples as long as their interval or longer, for which the windows overlap.
- Topology: lines of at most 255 distinct nodes with ports up, symmetric tables and no reply after its time-out; rings, duplicate entries and late replies are not what the code orders. Freed nodes are only unlinked.
- TopologyTask.DiscoveryTask.Discover: states the discoveries that end, because a loop that runs for ever has no final list; the others are stated on the walk (TopologyRun.SpinsForEver).
- Forwarding: requests only; a reply that passes a node with the same outstanding number is matched there first. A copy is never lost on a live link.
- RequestList: the clock is read once in an expiry pass, callbacks do not send, and mutexes are always got.
- Calendar: months above 13, for which the source reads beyond its table, are excluded from UtcFromDateTime.
- DifferenceSignal: real numbers stand for doubles, so rounding is not modelled; the CBOR of a chunk is not modelled; the stored number of reports is a parameter; attempts to publish are an input, and the loop is followed for as many as are given.
- ResourceTable: reading beyond a message is a result of its own; what memory holds behind a shorter listed name is an input of Find; the linked list of outstanding requests (BCMP_Linked_List_Generic) is not part of this model.
- CrcList: the CBOR library is not part of this model; its items are skipped as RFC 8949, section 3, lays them out. A stored array of more than nine numbers, which this class never writes and which the source would write beyond its own array, is a result of its own. A configuration with no room for one more key, in which nothing is stored, is excluded.
- ReportBuilder.ElementList.Append: the step that links back the element after the given one is absent, because it is only ever called with the last element; removeElement is never called and left out.
- Reports: one sensor type per node, all types alike but for their size; the CBOR of a report, its failures and the choice of the topology are not modelled. For a sample that finds no room, which the source writes beyond the buffer, HandleSample gives that as its result; what it overwrites there is not modelled.
- Everything else: logging, the command line, pin tables, configuration parsing, statistics, USB, UART, firmware update and neighbor tables would add only easy members or depend on code that cannot be seen.
