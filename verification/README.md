# Verification of Gilbert's cron engine, service manager and three run loops

This project models five pieces of Gilbert in Dafny and proves what they promise.

**The cron engine** decides when every scheduled job fires. A wall-clock time is an integer number of local
seconds counted from 1 January of year 1; `Calendar` decodes it into the proleptic Gregorian date and clock
reading that Python's `datetime` would show. An instant is an integer number of UTC seconds. A zone
(`Zones`) is a first offset and a list of any number of transitions, and answers `utcoffset()` for a wall time
and a fold bit as `zoneinfo` does: on the first pass a transition takes effect at the later of its two
readings, on the second pass at the earlier. A valid zone has whole minutes, offsets below a day, and transitions
at least two days apart; the theorems about hour-anchored expressions ask for nothing else. Those about
expressions that allow every hour also ask that near the instant `after` transitions be modest: over one of them,
or two in a row, the clock goes back by at most 36 hours, as it does wherever offsets stay within 18 hours of UTC.

`CronWalk` is the coarse-to-fine walk and its reference, a scan of every second. `CronDue` says in real time
which instants an expression is due at and proves that the walk answers with the least one ahead. `CronRepeat`
is the search through the second pass of a repeated hour. `CronNext` puts the two together and holds the main
theorems: exactly when a fire is missed, and exactly when the result is the least fire. `CronRuns` carries them
to whole runs in which each fire is fed back. `CronElapsed` and `CronExamples` decide exactly when the module's
promise about wildcard-hour expressions holds. `DayRules` gives the positional day forms their counting meanings,
`LeapDays` studies `None` and exceptions, `CronParse` the field parsers, `CronLists` what a parsed list of days
accepts, and `Intervals` the two macros that measure durations; `CronSchedule` dispatches on the kind.

**The service manager** is a class, `ServiceManager.Manager`, whose methods update its fields in place and are
proved equal to operations on a state value (`Services`). `Startup` is the theory of the startup waves and
`StartupOutcome` what they leave in the manager's lists.

**Three run loops**: the MCP session with its queue and futures as interleaved atomic steps (`McpSession`), the
browser's table of pending RPCs with its timers (`RpcTable`), and the AI tool-use loop (`AgentLoop`).

## Where the code and its documentation disagree

The model follows the code. Each of these is a lemma with an exact condition, a concrete witness, or both.

- A field expression cannot be evaluated when the search would start on 29 February: the horizon is built with
  `replace(year=year + 5)`, which names a day that does not exist. It is an error exactly then
  (`LeapDays.NextRaisesIffLeapDay`), for example at noon on 29 February 2028 (`LeapDays.RaisesAtNoon`) but not, at
  second 0 only, in that day's last minute (`LeapDays.RaisesAroundMidnight`).
- `None` is documented as "nothing will ever match", but it means that nothing matches within five years
  (`LeapDays.NeverIff` in a fixed-offset zone, `LeapDays.NeverInAnyZoneIff` across transitions). `0 0 * 2 MON#5`
  asked from 1 March 2017 gives `None` and matches on 29 February 2044 (`LeapDays.FifthMondayIsMissed`);
  `m h 29 2 *` asked from 1 March 2096 gives `None` and matches in 2104 (`LeapDays.NextLeapDayIsMissed`).
- A match inside a gap is documented to fire at the transition instant. It does if and only if the far edge of the
  gap is within 180 minutes of it (`Zones.GapFiresAtEdge`): `0 12 * * *` does not fire for the noon of a day that
  is skipped whole (`CronExamples.SkippedNoonNeverFires`).
- "Wildcard-hour expressions follow real elapsed time across both transitions" fails for `17 * * * *` across an
  ordinary one-hour gap, which adds a fire at the gap's far edge; for `15 * * * *` across a half-hour gap, which
  adds one before the gap; and for `15 * * * *` across a fall-back of three hours, which loses one
  (`CronExamples.LongFallBackLosesAFire`). The exact conditions are `CronElapsed.FirstTickIff`, call by call, and
  `CronElapsed.FollowsElapsedTimeIff`, for all calls at once. Fall-backs of up to two hours always meet them
  (`CronElapsed.ShortFallBackIsClean`), those of more than two hours and a minute only if they repeat no match
  (`CronElapsed.LongFallBackIsCleanIff`); expressions that include minute 0 and second 0 meet them in ordinary
  zones.
- The weekday range `0-7` denotes the whole week instead of Sunday; it is the only weekday range that does not
  denote the days from its first to its second (`CronParse.WeekdaySpanWalksUpIff`).
- A wrapping range with a step restarts its count at the bottom: `22-4/3` over hours is 22, 0 and 3, not 22, 1
  and 4 (`CronParse.HoursRestartAtMidnight`). In fields other than weekdays it agrees with the walk round the range
  if and only if the steps end exactly at the bottom (`CronParse.SteppedWalkIff`). Weekdays are expanded over eight
  values and then folded to seven, so that `SAT-TUE/2` is Saturday, Sunday and Tuesday
  (`CronParse.SaturdayToTuesdayByTwo`); their condition is `CronParse.SteppedWeekdayWalkIff`.
- A list keeps only the last positional entry of each kind: `MON#1,MON#3` loses its first Monday
  (`CronLists.FirstMondayIsLost`). Nothing is lost exactly where all entries of the kind agree
  (`CronLists.DowEntriesKeptIff`, `CronLists.DomEntriesKeptIff`), or where other entries accept the lost days
  (`CronLists.DowListIsUnionIff`, `CronLists.DomListIsUnionIff`).
- `0W` parses, and then every day not accepted by another form makes the day test raise.
- `start_all` keeps the manager's lists consistent if and only if nothing is started before the call and nobody it
  would start is recorded as failed or disabled (`StartupOutcome.StartAllKeepsInvariantIff`): called with one
  service already started it lists that service twice (`StartupOutcome.StartingTwiceListsTwice`).
- A disabled service is documented as neither started nor failed, but one whose start is tried and fails is
  recorded as both (`Services.FailedAndDisabled`); no other operation makes a service so
  (`Services.FailedStaysApartFromDisabledIff`), and `start_all` does only for one recorded by an earlier call
  (`StartupOutcome.StartAllKeepsApartIff`).
- A clean stop of an MCP session leaves queued requests unanswered for ever, and can drop one it has just
  dequeued (`McpSession.CleanStopStrandsQueued`, `McpSession.CleanStopDropsDequeued`); which ones are answered is
  `McpSession.StopResolvesIff`, and with what is `McpSession.OutcomeMeans`.

## Model

| member | source | states |
|---|---|---|
| `Calendar.DateRoundTrip` | src/gilbert/interfaces/cron.py:757-768 | decoding the day number of any valid Gregorian date gives back that date, so a day carries exactly one date |
| `Calendar.SameMonthUntilNext` | src/gilbert/interfaces/cron.py:763-768 | every day before the first of the next month lies in the same month, with the day of month counting up |
| `Calendar.WallTimeRoundTrip` | src/gilbert/interfaces/cron.py:323-345 | day, hour, minute and second are read back from the wall time they make |
| `Zones.MissingIffGap` | src/gilbert/interfaces/cron.py:788-799 | `_localise` returns `None` exactly for wall times inside a spring-forward gap, in a zone with any number of transitions |
| `Zones.LocaliseIsFirstPass` | src/gilbert/interfaces/cron.py:788-799 | if any instant reads `w`, localising `w` yields an instant that reads `w`, and the earliest such |
| `Zones.FirstValidAfterGap` | src/gilbert/interfaces/cron.py:802-815 | the loop returns the first existing time among the 180 probes one minute apart |
| `Zones.GapFiresAtEdge` | src/gilbert/interfaces/cron.py:348-352 | every wall time in one gap fires at the transition instant if the edge is within 180 minutes of it, and at nothing otherwise |
| `Zones.FiresInWallOrder` | src/gilbert/interfaces/cron.py:347-362 | fires keep the order of the wall times they come from across any transitions, strictly for existing ones |
| `Zones.PastWallsFireInThePast` | src/gilbert/interfaces/cron.py:356-362 | a wall time not later than the clock's reading at an instant fires no later than that instant |
| `CronExpression.LastDayIsMonthLength` | src/gilbert/interfaces/cron.py:757-760 | `_last_day_of_month` is the Gregorian length of the month |
| `CronExpression.RaisesExactlyWhen` | src/gilbert/interfaces/cron.py:366-393 | the day test raises exactly when day-of-month is restricted, `nW` has n below 1, and no earlier form accepted the day |
| `DayRules.NthIsCounted` | src/gilbert/interfaces/cron.py:398-401 | the closed form of `n#k` counts the occurrences of that weekday from the 1st |
| `DayRules.LastIsLast` | src/gilbert/interfaces/cron.py:402-406 | `nL` holds exactly when no later day of the month has that weekday |
| `DayRules.NearestIsNearest` | src/gilbert/interfaces/cron.py:771-785 | `nW` picks a Monday-to-Friday day of the month strictly nearer the target than any other, at month boundaries too |
| `DayRules.NearestIsUnique` | src/gilbert/interfaces/cron.py:771-785 | no second day of the month has that property, so `nW` selects one day per month |
| `DayRules.DomMeans` | src/gilbert/interfaces/cron.py:376-393 | the day-of-month test is the union of the meanings of its plain values, `L`, `L-n` and `nW` |
| `DayRules.DowMeans` | src/gilbert/interfaces/cron.py:395-409 | the day-of-week test is the union of the counting meanings of `n#k`, `nL` and the plain values |
| `DayRules.DayMeans` | src/gilbert/interfaces/cron.py:366-374 | the OR rule on the date's meaning: either field when both are restricted, the restricted one otherwise, every day when neither is |
| `DayRules.MatchMeans` | src/gilbert/interfaces/cron.py:328-345 | a date and time of day match exactly when month, hour, minute and second are each allowed and the day is accepted under the OR rule |
| `DayRules.KnownWeekdays` | tests/unit/test_cron.py:172-214 | the calendar is anchored: 13 March 2026 is a Friday and 17 April 2026 the third Friday of its month |
| `DayRules.KnownNearest` | tests/unit/test_cron.py:225-234 | `15W` moves to the 14th in August 2026 and to the 16th in November 2026 |
| `CronWalk.WalkWallClock` | src/gilbert/interfaces/cron.py:313-364 | the skipping walk returns what looking at every second from the first cursor to the horizon returns, exceptions included, and terminates |
| `CronWalk.ScanIsLeast` | src/gilbert/interfaces/cron.py:328-364 | the reference scan stops at the least wall time that ends the search and finds nothing only when there is none |
| `CronWalk.MonthSkipIsSound` | src/gilbert/interfaces/cron.py:329-331 | jumping to the first of the next month passes over no wall time that could end the search |
| `CronWalk.DaySkipIsSound` | src/gilbert/interfaces/cron.py:332-336 | nor does jumping to the next midnight |
| `CronWalk.HourSkipIsSound` | src/gilbert/interfaces/cron.py:337-339 | nor does jumping to the next hour |
| `CronWalk.MinuteSkipIsSound` | src/gilbert/interfaces/cron.py:340-342 | nor does jumping to the next minute |
| `CronWalk.StepIsSound` | src/gilbert/interfaces/cron.py:353-361 | nor does stepping on by a minute from a match that did not fire, when only second 0 can match |
| `CronWalk.HorizonMissingIffLeapDay` | src/gilbert/interfaces/cron.py:326 | the horizon cannot be built exactly when the first cursor is on 29 February |
| `CronWalk.SearchStart` | src/gilbert/interfaces/cron.py:320-325 | the search starts at the least whole minute after the reading when only second 0 can match, and otherwise at the next second |
| `CronWalk.HorizonMeans` | src/gilbert/interfaces/cron.py:326 | the horizon is the same month, day and time of day five years after the start, and exists exactly when that date does |
| `CronWalk.HorizonIsLater` | src/gilbert/interfaces/cron.py:326 | the horizon lies five years, to within a few days, after the cursor |
| `CronDue.DueMeans` | src/gilbert/interfaces/cron.py:28-34 | an instant is due exactly when it is the first pass of a matching reading or the far edge of a gap that swallowed one |
| `CronDue.DueReadingsIncrease` | src/gilbert/interfaces/cron.py:32-33 | later due instants show strictly later readings, so no reading is due on both passes |
| `CronDue.GapCollapses` | src/gilbert/interfaces/cron.py:30-31 | all matches inside one gap are due at one instant, its far edge |
| `CronDue.StartMissesNothing` | src/gilbert/interfaces/cron.py:320-325 | rounding the first cursor up to a whole minute passes over no match |
| `CronDue.WalkIsLeastDue` | src/gilbert/interfaces/cron.py:313-364 | in every valid zone the walk answers with the least due instant strictly after `after`, on account of a wall time before the horizon; with `None` only when every one ahead comes from beyond it; and always with a first pass |
| `CronRepeat.NextInRepeatedHour` | src/gilbert/interfaces/cron.py:247-291 | the nested loops compute the 260-minute scan of second passes, and nothing when the offset two hours either side is the same |
| `CronRepeat.ScanRepeatIsLeast` | src/gilbert/interfaces/cron.py:281-291 | the scan returns its least matching wall time with two offsets whose second pass is ahead, and nothing only when there is none |
| `CronRepeat.RepeatIsSound` | src/gilbert/interfaces/cron.py:265-291 | what it returns belongs to a transition within two hours of `after`, lies in the scanned minutes, matches, and is ahead of `after` |
| `CronRepeat.RepeatIsComplete` | src/gilbert/interfaces/cron.py:265-291 | a match with two offsets whose second pass is ahead is found, unless something earlier on the clock is, if and only if its transition is within two hours of `after` and the scanned minutes contain it |
| `CronRepeat.ShortFallBackIsInReach` | src/gilbert/interfaces/cron.py:110-113 | the two-hour window and the 260 minutes contain every reading that a fall-back of at most two hours repeats, when only its second pass is ahead |
| `CronNext.NextFields` | src/gilbert/interfaces/cron.py:295-311 | the method returns the earlier in real time of the walk and, for wildcard hours, the second-pass search, the walk winning ties |
| `CronNext.SecondPass` | src/gilbert/interfaces/cron.py:252-259 | an instant that is not the first pass of its reading follows a fall-back, and the first pass existed |
| `CronNext.SecondPassIsMetOrOverlooked` | src/gilbert/interfaces/cron.py:303-311 | a matching second pass ahead of `after` is preceded by its first pass still ahead, or the second-pass search finds it or something earlier, or its transition is too far from `after` or its reading outside the scan |
| `CronNext.MissesNothingIff` | src/gilbert/interfaces/cron.py:295-364 | main theorem, wildcard hours, any modest transitions: the result is after `after` and passes over no firing instant, counting both passes, and `None` means none before the horizon, if and only if the first firing instant is not a second pass out of the search's reach, or the call raises |
| `CronNext.NextMissesNothing` | src/gilbert/interfaces/cron.py:295-364 | so nothing is missed by hour-anchored expressions in any valid zone, nor by others where nothing near `after` is out of reach |
| `CronNext.ShortOverlooksNothing` | src/gilbert/interfaces/cron.py:110-113 | nothing is out of reach where fall-backs near `after` are of at most two hours |
| `CronNext.LongOverlooksEverything` | src/gilbert/interfaces/cron.py:265-269 | and every match that a fall-back of more than two hours and a minute repeats is out of reach of the call just before its second pass |
| `CronNext.NextIsLeastFiringIff` | src/gilbert/interfaces/cron.py:282-311 | for wildcard hours the result is the least firing instant if and only if the first firing instant is not out of reach and no match skipped by a gap has its second-pass instant before all firing instants, or the call raises |
| `CronNext.NextIsLeastFiring` | src/gilbert/interfaces/cron.py:295-364 | hence it is the least firing instant for hour-anchored expressions in every valid zone, and for the others wherever gaps near `after` are harmless and nothing is out of reach |
| `CronNext.TiesGoToTheWalk` | src/gilbert/interfaces/cron.py:311 | where walk and second-pass search give the same instant, the answer is the walk's |
| `CronNext.NextReadsTheClock` | src/gilbert/interfaces/cron.py:295-311 | the time returned is what the clock reads at its instant, with the fold bit set exactly on a second pass, or a wall time inside a gap |
| `CronRuns.RunMissesNothing` | src/gilbert/interfaces/cron.py:179-236 | feeding each fire back gives strictly increasing instants that include every firing instant up to the last, whether gaps are harmless or not, when no call of the run has anything out of reach |
| `CronRuns.RunEnumerates` | src/gilbert/interfaces/cron.py:179-236 | and exactly those, for hour-anchored expressions in every zone and for others where the transitions near the fires fed back are modest and harmless |
| `CronRuns.AnchoredRunNeverRepeatsAReading` | src/gilbert/interfaces/cron.py:32-33 | over a whole run of an hour-anchored expression, from any start, readings strictly increase: no wall time fires on both passes |
| `CronRuns.AnchoredGapFiresOnce` | src/gilbert/interfaces/cron.py:30-31 | an hour-anchored job whose next match lies in a gap fires at the instant the clock jumps past it, and next strictly later |
| `CronRuns.FixedOffsetFiresWhenMatching` | src/gilbert/interfaces/cron.py:313-364 | without transitions the firing instants are exactly those whose reading matches |
| `CronElapsed.EdgeFiresNext` | src/gilbert/interfaces/cron.py:347-352 | just before a gap that swallows a match, the next fire is the gap's far edge, matching or not |
| `CronElapsed.GhostFiresNext` | src/gilbert/interfaces/cron.py:282-289 | just before the second-pass instant of a match inside a gap, that instant, which precedes the gap, is the next fire |
| `CronElapsed.FirstTickIff` | src/gilbert/interfaces/cron.py:35-36 | for wildcard hours and any call, the result is the first instant ahead whose reading matches, counting both passes, if and only if what comes first is neither an unmatched far edge of a gap that swallowed a match, nor the second-pass instant of a skipped match, nor a second pass out of reach, or the call raises |
| `CronElapsed.CleanGapsSuffice` | src/gilbert/interfaces/cron.py:35-36 | it is so where the gaps ahead are clean, matches inside them still matching when moved back by the gap and edges of gaps that swallow a match matching, and no second pass out of reach comes first |
| `CronElapsed.FollowsElapsedTimeIff` | src/gilbert/interfaces/cron.py:35-36 | a wildcard-hour expression follows elapsed time from every instant if and only if every gap is clean and at every fall-back a second pass out of reach of a call is preceded by another match |
| `CronElapsed.ShortFallBackIsClean` | src/gilbert/interfaces/cron.py:35-36 | a fall-back of at most two hours always is |
| `CronElapsed.LongFallBackIsCleanIff` | src/gilbert/interfaces/cron.py:35-36 | one of more than two hours and a minute is if and only if it repeats no match, no search just before a second pass starting on 29 February |
| `CronExamples.WildcardAllowsEveryHour` | src/gilbert/interfaces/cron.py:168-177 | an expression is not hour-anchored exactly when it allows all of 0 to 23 |
| `CronExamples.OnTheHourFollowsElapsedTime` | src/gilbert/interfaces/cron.py:35-36 | an every-hour expression with minute 0 and second 0 follows elapsed time in zones whose fall-backs are at most two hours and whose gaps are one hour long, on the hour and away from midnight |
| `CronExamples.SparseMinuteFiresAtTheEdge` | src/gilbert/interfaces/cron.py:348-352 | `17 * * * *` fires at 03:00 after a gap at 02:00, which it does not match |
| `CronExamples.HalfHourGapFiresEarly` | src/gilbert/interfaces/cron.py:284-289 | `15 * * * *` fires at 01:45 before a half-hour gap at 02:00, which it does not match |
| `CronExamples.LongFallBackLosesAFire` | src/gilbert/interfaces/cron.py:265-269 | `15 * * * *` asked at 02:00 on the second pass after a fall-back of three hours passes over 02:15, without any gap in the zone |
| `CronExamples.SkippedNoonNeverFires` | src/gilbert/interfaces/cron.py:347-352 | `0 12 * * *` fires at nothing for the noon of a day skipped whole |
| `LeapDays.NextRaisesIffLeapDay` | src/gilbert/interfaces/cron.py:320-326 | evaluation raises exactly when the clock shows 29 February a second after the reading or, if only second 0 can match, a minute after it, for every zone and every expression whose `nW` is in range |
| `LeapDays.RaisesAtNoon` | src/gilbert/interfaces/cron.py:323-326 | it does at noon UTC on 29 February 2028 |
| `LeapDays.RaisesAroundMidnight` | src/gilbert/interfaces/cron.py:320-326 | at 23:59:30 on that day only expressions with other seconds raise, and at 23:59:30 on the day before only those without |
| `LeapDays.NeverIff` | src/gilbert/interfaces/cron.py:197-198 | for every expression in a fixed-offset zone, the result is `None` if and only if there is a horizon and no wall time from the first cursor to it matches |
| `LeapDays.NeverInAnyZoneIff` | src/gilbert/interfaces/cron.py:295-311 | across transitions, if and only if there is a horizon, nothing ahead is scheduled by a wall time before it, and for wildcard hours the second-pass search has nothing to find |
| `LeapDays.FifthMondayIsMissed` | src/gilbert/interfaces/cron.py:197-198 | `0 0 * 2 MON#5` from 1 March 2017 is reported as never firing and matches on 29 February 2044 |
| `LeapDays.LeapDayAlarmNeverIff` | src/gilbert/interfaces/cron.py:106-108 | `m h 29 2 *` in a fixed-offset zone is reported as never firing exactly when the window holds no 29 February at that time |
| `LeapDays.LeapDayAlarmNeverNeedsCommonCentury` | src/gilbert/interfaces/cron.py:106-108 | and that needs a century year that is not a leap year among the window's five Februaries |
| `LeapDays.NextLeapDayIsMissed` | src/gilbert/interfaces/cron.py:197-198 | from 1 March 2096 the alarm is reported as never firing although it matches on 29 February 2104 |
| `LeapDays.ThirtiethOfFebruaryNeverFires` | src/gilbert/interfaces/cron.py:197-198 | day 30 or 31 of February never fires, in any zone |
| `Intervals.EveryIsLeast` | src/gilbert/interfaces/cron.py:204-218 | `@every` returns the least `anchor + k * every`, k at least 1, strictly after `after` |
| `Intervals.PhaseIsKept` | src/gilbert/interfaces/cron.py:191-195 | using each fire as the next anchor, every fire is the least point of the original grid after the fire before and the moment of the call, however long the pauses |
| `CronSchedule.NextAfter` | src/gilbert/interfaces/cron.py:179-236 | for `@every` the least grid point strictly after `after`; for `@once` its moment, and `None` if and only if that is before `after`; for fields, where the zone is tame near `after`, the first firing instant, `None` only with none before the horizon, an exception only on 29 February |
| `CronSchedule.FiresAreAhead` | src/gilbert/interfaces/cron.py:186-198 | a recurring fire is strictly after `after` in any zone and for any expression; a one-shot is never in the past |
| `CronParse.SteppedMeans` | src/gilbert/interfaces/cron.py:614-620 | a stepped range holds exactly the multiples of the step counted from its start, below its end |
| `CronParse.EntryParsesIff` | src/gilbert/interfaces/cron.py:582-643 | an entry parses exactly when it is not empty, its numbers are numbers within bounds, and its step, if any, is a number above 0 |
| `CronParse.PlainEntryMeans` | src/gilbert/interfaces/cron.py:602-620 | without a step `*` denotes all values of the field and a number itself |
| `CronParse.SteppedEntryMeans` | src/gilbert/interfaces/cron.py:602-620 | with a step `*` denotes every step-th value from the bottom to the top, and a number every step-th value from itself to the top |
| `CronParse.Quarters` | src/gilbert/interfaces/cron.py:602-620 | `*/15` over minutes is 0, 15, 30 and 45, and `5/15` is 5, 20, 35 and 50 |
| `CronParse.ParseField` | src/gilbert/interfaces/cron.py:569-624 | a field parses exactly when it has entries and each does; the result is non-empty, within bounds and the union of what the entries denote |
| `CronParse.StarMeans` | src/gilbert/interfaces/cron.py:578-579 | `*` alone is every value of its field |
| `CronParse.ListMeans` | src/gilbert/interfaces/cron.py:581-624 | a list is the union of what its entries denote |
| `CronParse.SpanWalksUp` | src/gilbert/interfaces/cron.py:604-620 | a range without a step denotes the values met walking up from its first value and round to its second |
| `CronParse.SteppedWalkIff` | src/gilbert/interfaces/cron.py:614-620 | in every field but weekdays, a range with a step denotes those met walking round in strides of the step if and only if it does not wrap or a stride ends exactly at the bottom |
| `CronParse.HoursRestartAtMidnight` | src/gilbert/interfaces/cron.py:614-618 | `22-4/3` over hours is 22, 0 and 3 |
| `CronParse.WeekdaySpanWalksUpIff` | src/gilbert/interfaces/cron.py:720-723 | likewise for weekdays with 7 read as 0 and no step, if and only if the range is not `0-7` |
| `CronParse.SteppedWeekdayWalkIff` | src/gilbert/interfaces/cron.py:720-723 | and with a step, if and only if it does not wrap and is not `0-7` with a step below 7, or wraps and a stride ends exactly on the Sunday numbered 7 |
| `CronParse.SaturdayToTuesdayByTwo` | src/gilbert/interfaces/cron.py:720-723 | `SAT-TUE/2` is Saturday, Sunday and Tuesday |
| `CronParse.SundayToSundayIsTheWholeWeek` | src/gilbert/interfaces/cron.py:720-723 | `0-7` denotes all seven days |
| `CronParse.ParseDowList` | src/gilbert/interfaces/cron.py:697-726 | a weekday list parses exactly when every entry does; plain entries are united and the last positional entry of each kind is recorded |
| `CronParse.DowEntryParsesIff` | src/gilbert/interfaces/cron.py:700-718 | a weekday entry parses exactly when its weekday is a number from 0 to 7 and, for `n#k`, its k one from 1 to 5 |
| `CronLists.NthParsesIffItNamesADay` | src/gilbert/interfaces/cron.py:709-713 | and so exactly when `n#k` names some day at all |
| `CronLists.LastOneIsRecorded` | src/gilbert/interfaces/cron.py:661-726 | a positional entry at the end of a list is the one recorded of its kind |
| `CronLists.DowEntriesKeptIff` | src/gilbert/interfaces/cron.py:700-718 | every `n#k` entry of a list is what is recorded if and only if all of them agree, and so for `nL` |
| `CronLists.DomEntriesKeptIff` | src/gilbert/interfaces/cron.py:669-681 | the same for `L-n` and for `nW` |
| `CronLists.DowListIsUnionIff` | src/gilbert/interfaces/cron.py:395-409 | a weekday list accepts exactly the days its entries name if and only if each positional entry is recorded, or its weekday is there plainly too, or it is a fifth covered by the recorded last |
| `CronLists.DomListIsUnionIff` | src/gilbert/interfaces/cron.py:376-393 | a day-of-month list whose `nW` numbers are at least 1 accepts exactly the days its entries name if and only if, in months of each length opening on each weekday, recorded entries accept what every entry names |
| `CronLists.AgreeingListIsUnionIff` | src/gilbert/interfaces/cron.py:376-393 | where the `nW` entries agree, that is if and only if each `L-n` entry is recorded or covered by plain entries or `L` in months of every length |
| `CronLists.NearestListIsUnionIff` | src/gilbert/interfaces/cron.py:376-393 | a list of `nW` entries accepts exactly the days they name if and only if they agree, up to numbers past the 31st |
| `CronLists.FirstMondayIsLost` | src/gilbert/interfaces/cron.py:700-713 | `MON#1,MON#3` does not accept Monday 5 January 2026 |
| `CronParse.ParseDomList` | src/gilbert/interfaces/cron.py:661-688 | a day-of-month list parses exactly when every entry does; `L-n` and `nW` keep their numbers unchecked, the last of each kind |
| `CronParse.DomEntryParsesIff` | src/gilbert/interfaces/cron.py:661-680 | `L-n` and `nW` parse whatever their number is |
| `CronParse.ZeroNearestParsesButRaises` | src/gilbert/interfaces/cron.py:673-675 | `0W` parses and makes the day test raise on every day |
| `CronParse.ParseFields` | src/gilbert/interfaces/cron.py:525-566 | an expression parses exactly when all its fields do, each result field is what its part denotes, and the restricted flags say whether the part was `*` or `?` |
| `CronParse.FiveFieldsFireAtZero` | src/gilbert/interfaces/cron.py:528-531 | leaving out the seconds field gives second 0 only |
| `Services.OperationKeepsInvariant` | src/gilbert/core/service_manager.py:39-47 | register, hot start, restart with replacement, unregister and stop keep the index exact and the outcome lists duplicate-free and disjoint |
| `Services.EveryRunKeepsInvariant` | src/gilbert/core/service_manager.py:336-471 | so does any sequence of them; `StartupOutcome.LifeKeepsInvariantIff` adds startup |
| `Services.OperationDoesToLists` | src/gilbert/core/service_manager.py:336-471 | after a start that succeeds the service is running, last unless it was running, and neither failed nor disabled; after one that fails it is failed and not running; every other service keeps its place and its record; stopping everything leaves nothing running |
| `Services.OperationDoesToIndex` | src/gilbert/core/service_manager.py:39-47 | registering appends the service to the entries of its capabilities, replacing moves it to their ends, unregistering takes it out, and everyone else keeps their place |
| `Services.OperationKeepsEntries` | src/gilbert/core/service_manager.py:458-465 | unregistering drops the index entries it empties, and no other operation drops any |
| `Services.UnregisterUndoesRegister` | src/gilbert/core/service_manager.py:436-471 | unregistering a service just registered restores every lookup and every list |
| `Services.FailedStaysApartFromDisabledIff` | src/gilbert/core/service_manager.py:314-317 | an operation keeps failed and disabled services apart if and only if it is not a start or restart, with replacement or not, of a disabled service whose start fails |
| `Services.FailedAndDisabled` | src/gilbert/core/service_manager.py:314-317 | a state and a start after which a service is in both records |
| `Services.LookupIsScan` | src/gilbert/core/service_manager.py:277-290 | the capability lookups agree with a scan over registered services: the started ones whose current instance declares the capability, each once |
| `Services.FirstRunningMeans` | src/gilbert/core/service_manager.py:277-282 | the single lookup finds the first provider in index order that is running |
| `Services.RunningAmongInOrder` | src/gilbert/core/service_manager.py:284-290 | the other one keeps the order of the index |
| `ServiceManager.Manager.Register` | src/gilbert/core/service_manager.py:39-47 | the new state is the registered one, or unchanged with an error for a taken name |
| `ServiceManager.Manager.RegisterAndStart` | src/gilbert/core/service_manager.py:391-407 | the whole new state after registering and starting |
| `ServiceManager.Manager.StartService` | src/gilbert/core/service_manager.py:409-434 | the whole new state and which error, if any, is raised |
| `ServiceManager.Manager.RestartService` | src/gilbert/core/service_manager.py:336-389 | the whole new state after unindexing the old instance, indexing the new and starting it |
| `ServiceManager.Manager.StopAndUnregister` | src/gilbert/core/service_manager.py:436-471 | the whole new state, emptied index entries dropped |
| `ServiceManager.Manager.StopAll` | src/gilbert/core/service_manager.py:236-263 | nothing is started afterwards, and the services stopped are the registered started ones, last first |
| `ServiceManager.Manager.GetByCapability` | src/gilbert/core/service_manager.py:277-282 | the first started provider in index order, which exists and declares the capability |
| `ServiceManager.Manager.GetAllByCapability` | src/gilbert/core/service_manager.py:284-290 | all of them, in index order |
| `ServiceManager.Manager.StartAll` | src/gilbert/core/service_manager.py:55-169 | startup runs the waves of `Startup` to the end; started grows wave by wave by exactly the tried services that succeed, whatever the completion order; everyone else is failed, or disabled with a reason, as `StartupOutcome.EveryOutcomeMeans` and `StartupOutcome.ReasonsAreRight` say |
| `Startup.WavesAreDisjoint` | src/gilbert/core/service_manager.py:130-134 | no service is attempted in two waves |
| `Startup.WavesAreDetermined` | src/gilbert/core/service_manager.py:69-159 | startup ends, and its waves are a function of what is registered and started before it, whatever completes first within a wave |
| `Startup.WaveMeans` | src/gilbert/core/service_manager.py:71-134 | a wave holds exactly the waiting services whose required and enablement capabilities are published and that no waiting service could still give an optional capability they lack or, if there are none of these, all whose capabilities are published |
| `Startup.UnmetMeans` | src/gilbert/core/service_manager.py:199-217 | a reason is given exactly when some enablement dependency is unmet; it names the first such and says whether its owner is missing, has the backend off or is itself off |
| `Startup.EnablementGates` | src/gilbert/core/service_manager.py:136-147 | a service reached in a wave is tried if and only if all its enablement dependencies are met by what ran before that wave |
| `Startup.StartedIsLeastFixpoint` | src/gilbert/core/service_manager.py:69-159 | without enablement dependencies the attempted services are the least set closed under the requirement rule, and the started ones its succeeding members |
| `Startup.OptionalNeverChangesWhoStarts` | src/gilbert/core/service_manager.py:109-128 | managers that differ only in optional capabilities start the same services |
| `Startup.SomeoneIsPreferred` | src/gilbert/core/service_manager.py:116-128 | in an acyclic benign system some waiting service is always ready with nothing optional pending |
| `Startup.WantedComesFirst` | src/gilbert/core/service_manager.py:109-159 | there every service starts, and every wanted capability with a provider, optional ones too, is published in a strictly earlier wave |
| `StartupOutcome.EveryoneHasOneOutcome` | src/gilbert/core/service_manager.py:84-107 | from a state with nothing recorded every registered service ends in exactly one of started, failed and disabled |
| `StartupOutcome.EveryOutcomeMeans` | src/gilbert/core/service_manager.py:84-107 | from nothing recorded and with any dependencies: started are those reached with their enablement dependencies met whose start succeeds; failed those whose start fails and those never reached for want of a required capability; disabled those with an enablement dependency unmet when reached and those never reached only for want of enablement capabilities |
| `StartupOutcome.ReachedIsSupplied` | src/gilbert/core/service_manager.py:58-67 | a service reached in a wave has each required and enablement capability declared by a service that started in an earlier wave |
| `StartupOutcome.ReasonsAreRight` | src/gilbert/core/service_manager.py:99-144 | the reason recorded names the first dependency unmet when the service was reached and what is wrong with it, or else exactly the enablement capabilities no started service declares |
| `StartupOutcome.RequirementsStartFirst` | src/gilbert/core/service_manager.py:58-67 | every capability a started service requires is provided at a strictly earlier position of the started list |
| `StartupOutcome.StartedIsFixpointPart` | src/gilbert/core/service_manager.py:69-159 | the started list holds exactly the succeeding members of the least fixpoint |
| `StartupOutcome.StartAllKeepsInvariantIff` | src/gilbert/core/service_manager.py:219-234 | calling startup keeps the lists consistent if and only if, before the call, nothing is started and nobody it would start is recorded failed or disabled |
| `StartupOutcome.StartsAreInEveryClosedSet` | src/gilbert/core/service_manager.py:69-159 | without enablement dependencies those it would start are the registered services that succeed and lie in every set closed under the requirement rule |
| `StartupOutcome.StartAllKeepsApartIff` | src/gilbert/core/service_manager.py:84-107 | startup keeps failed and disabled services apart if and only if it would fail none recorded as disabled and disable none recorded as failed |
| `StartupOutcome.FailsAreTheRest` | src/gilbert/core/service_manager.py:84-107 | without enablement dependencies it disables nobody, and fails the registered services whose start fails or that lie outside some set closed under the requirement rule |
| `StartupOutcome.StartingTwiceListsTwice` | src/gilbert/core/service_manager.py:219-234 | with a service already started, startup lists it twice |
| `StartupOutcome.LifeKeepsInvariantIff` | src/gilbert/core/service_manager.py:55-471 | over any life of the manager, all seven calls in any order, every state is consistent if and only if each startup is called where that condition holds |
| `StartupOutcome.LifeKeepsOutcomesApartIff` | src/gilbert/core/service_manager.py:314-317 | and no service ever has two of the outcomes started, failed and disabled at once if and only if, besides, no call fails a service recorded as disabled and startup disables none recorded as failed |
| `StartupOutcome.ConsumersStopFirst` | src/gilbert/core/service_manager.py:236-263 | stopping everything after startup stops each service before a provider of each capability it requires |
| `McpSession.StepKeepsInvariant` | src/gilbert/integrations/mcp_http.py:246-387 | every step keeps each accepted request in exactly one place: resolved, in hand, lost, or queued in order |
| `McpSession.RequestsAreFifo` | src/gilbert/integrations/mcp_http.py:325-373 | in every interleaving requests are dequeued in the order accepted, none twice or skipped, and answered in that order |
| `McpSession.ResolvedOnce` | src/gilbert/integrations/mcp_http.py:366-372 | a resolved future never changes again |
| `McpSession.OutcomeMeans` | src/gilbert/integrations/mcp_http.py:310-387 | in every run a request ends with a value if and only if its call succeeded, with an error if and only if its call failed or it was queued when the queue was drained, its submitter not having given up before; and cancelled if and only if its submitter gave up first |
| `McpSession.StepOutcome` | src/gilbert/integrations/mcp_http.py:344-387 | each step changes only unresolved futures, to the value, error or cancellation the step calls for |
| `McpSession.StepAccepts` | src/gilbert/integrations/mcp_http.py:322-323 | a request is accepted, unresolved, exactly when it is submitted to a connected session |
| `McpSession.FlagsMean` | src/gilbert/integrations/mcp_http.py:281-323 | where the session is, whether it is connected, was asked to stop and has failed are told by which steps have been taken |
| `McpSession.ComesNext` | src/gilbert/integrations/mcp_http.py:325-376 | what may happen next in each phase |
| `McpSession.NeverStuck` | src/gilbert/integrations/mcp_http.py:332-342 | the session task can always go on unless it has ended or waits with nothing queued and no stop |
| `McpSession.CallIsAnswered` | src/gilbert/integrations/mcp_http.py:370-372 | a run in which a call succeeds and its request is answered with its value |
| `McpSession.FailureResolvesAll` | src/gilbert/integrations/mcp_http.py:310-323 | in every run in which a request fails, whatever closes and cancellations it holds, every accepted request is resolved by the time the session has ended |
| `McpSession.StopResolvesIff` | src/gilbert/integrations/mcp_http.py:333-342 | for a run that ends by the stop being seen: a request is resolved by the end if and only if it was resolved then, its submitter gives up, or leaving the session raises and the request was not the one just dequeued |
| `McpSession.CancelledWaitResolvesIff` | src/gilbert/integrations/mcp_http.py:310-323 | for a run that ends by the wait being cancelled: all is resolved but the request just dequeued, unless it was already or its submitter gives up, as long as the queue getter left behind takes nothing |
| `McpSession.GetterLosesOne` | src/gilbert/integrations/mcp_http.py:333-338 | when that getter takes a request, that one and no other is left to its submitter |
| `McpSession.EveryEnding` | src/gilbert/integrations/mcp_http.py:246-323 | every ended session failed to connect, saw a failing request, saw the stop or had its wait cancelled, and only a stop without failure leaves anything queued |
| `McpSession.EndedResolvesNothing` | src/gilbert/integrations/mcp_http.py:322-323 | once ended, a request is resolved if and only if it was at the end or its submitter gives up |
| `McpSession.CleanStopStrandsQueued` | src/gilbert/integrations/mcp_http.py:338-342 | a run in which a clean stop leaves a queued request unresolved |
| `McpSession.CleanStopDropsDequeued` | src/gilbert/integrations/mcp_http.py:333-342 | a run in which a request dequeued as the stop is seen is dropped |
| `McpSession.StrayGetterLosesARequest` | src/gilbert/integrations/mcp_http.py:333-338 | a run in which the queue getter of a cancelled wait takes a later request with it |
| `RpcTable.Table.RpcWithRef` | frontend/src/hooks/useWebSocket.tsx:151-205 | the whole new table after registering a pending RPC with its timer |
| `RpcTable.RpcIsPending` | frontend/src/hooks/useWebSocket.tsx:154-180 | the RPC is pending under an id not in use, on its conversation, due after its budget, and no other entry or deadline changes |
| `RpcTable.NewRpcHasItsBudget` | frontend/src/hooks/useWebSocket.tsx:161-177 | however the run continues, its timeout cannot fire before its whole budget has passed |
| `RpcTable.Table.OnReply` | frontend/src/hooks/useWebSocket.tsx:279-293 | a reply settles and removes its pending RPC and clears the timer, and anything else leaves the table alone |
| `RpcTable.Table.OnEvent` | frontend/src/hooks/useWebSocket.tsx:341-375 | an event resets exactly the deadlines it keeps alive, by ref or by conversation |
| `RpcTable.Table.OnTimeout` | frontend/src/hooks/useWebSocket.tsx:161-165 | the timeout callback removes the entry and rejects with 408 |
| `RpcTable.Table.RejectAllPending` | frontend/src/hooks/useWebSocket.tsx:227-233 | every pending promise is rejected, every timer cleared, and the table is empty |
| `RpcTable.EveryRunIsValid` | frontend/src/hooks/useWebSocket.tsx:151-293 | in every run an id is pending exactly while its promise is unsettled, promises settle at most once, and entries and live timers correspond one to one |
| `RpcTable.StepSettles` | frontend/src/hooks/useWebSocket.tsx:161-293 | a reply resolves its pending promise, or rejects it with the reply's code; a timeout rejects its own with 408; giving up rejects all pending with its code; nothing else settles anything |
| `RpcTable.SettledMeans` | frontend/src/hooks/useWebSocket.tsx:161-293 | in every run a promise has been settled in a given way if and only if some step settled it so |
| `RpcTable.ClockMeans` | frontend/src/hooks/useWebSocket.tsx:151-205 | ids are given out in the order of the calls, and the clock shows the time let pass |
| `RpcTable.EventDeadline` | frontend/src/hooks/useWebSocket.tsx:341-347 | an event that keeps an RPC alive gives it its full budget from now, and other events leave its deadline alone |
| `RpcTable.TimeoutMeansSilence` | frontend/src/hooks/useWebSocket.tsx:333-375 | however a run continues after a matching event, the RPC cannot time out until its whole budget has passed again |
| `RpcTable.SilenceLetsItTimeOut` | frontend/src/hooks/useWebSocket.tsx:338-340 | an RPC still pending after a whole budget without a matching event has a timeout that may fire, and rejects it with 408 |
| `AgentLoop.ExecuteSequential` | src/gilbert/core/agent_loop.py:236-275 | one result per call, in the order of the calls, with the call's id; it is an error exactly when there is no such tool or its handler raises, and says so, and otherwise the handler's text |
| `AgentLoop.ExecuteParallel` | src/gilbert/core/agent_loop.py:255-287 | the same results in the same order, whatever order the invocations complete in |
| `AgentLoop.RunLoop` | src/gilbert/core/agent_loop.py:94-233 | for every backend, clock and handlers: the history is the initial messages and the transcript of the completed rounds, tokens are their sums and overshoot the budget by less than the last round's usage, no round is entered at or after the deadline, rounds never exceed the cap, and a stop reason is returned under its condition |
| `AgentLoop.TranscriptMeans` | src/gilbert/core/agent_loop.py:177-220 | the transcript is, for each completed round, the assistant's message and then the results that answer its tool calls one for one |
| `AgentLoop.TotalsAdd` | src/gilbert/core/agent_loop.py:174-176 | every completed round adds its reported input and output tokens to the totals, or nothing |
| `AgentLoop.FinalMeans` | src/gilbert/core/agent_loop.py:115-178 | the final message is the last completed round's, or empty |
| `AgentLoop.StopIsUnique` | src/gilbert/core/agent_loop.py:121-233 | no two stop reasons have their conditions met at once |
| `AgentLoop.StopMeans` | src/gilbert/core/agent_loop.py:121-233 | what each stop reason says about the last response, the rounds, the clock and the budget, and which rounds were used |

## Left out

- CronNext.MissesNothingIff: it assumes modest transitions near `after`; so do `CronNext.NextIsLeastFiringIff`, `CronElapsed.FirstTickIff` and `CronElapsed.FollowsElapsedTimeIff`.
- CronNext.NextIsLeastFiring: for wildcard hours it also assumes that near `after` gaps are harmless and nothing is out of reach; `CronNext.NextIsLeastFiringIff` does not.
- CronElapsed.FollowsElapsedTimeIff: where a gap is not clean it assumes that no search close to it starts on 29 February, where every search raises; `CronElapsed.FirstTickIff` does not.
- CronLists.DomListIsUnionIff: it excludes `nW` with a number below 1, which names no day and can make the day test raise.
- LeapDays.LeapDayAlarmNeverIff: a start on 29 February raises instead and is excluded.
- Sub-second time: instants and readings are whole seconds, so the dropped microseconds of `after` are not modelled.
- `datetime`'s bounds at years 1 and 9999, and `after` values that carry a wall time inside a gap; `after` is an instant.
- Time-zone data: zones with offsets of fractions of a minute or transitions less than two days apart.
- The duration syntax of the interval macros and its floating point; intervals are whole time units.
- `describe()` and the character level of parsing (names, whitespace, error text, splitting into fields).
- Service `start()` and `stop()` bodies, timeouts, events, logging and overlapping calls into the manager; a start has a fixed outcome, and `_enabled` is not reset.
- What `start()` looks up while it runs, and changes to a service's declarations after registration.
- `McpSession` is a step system on values rather than a class: its coroutines interleave at their suspension points, and each step is one uninterrupted stretch; a single connection is modelled, without reconnecting.
- Leaving the MCP session and its transport after a failure is assumed to re-raise, so that the queue is drained a second time; a context that swallowed the exception is not modelled.
- Hard cancellation of the MCP session after the close timeout, the SDK, transports, OAuth and result translation.
- The browser's socket: reconnecting, pings, the poll that waits for the socket to open, subscriptions and server-initiated calls.
- The texts of the agent loop's exceptions and the request sent to the model.
- A reply's error code is what its promise is rejected with; that a missing one counts as 500 is not modelled.
- ACL rules, chat, slash commands, configuration merging and log redaction are not modelled.
