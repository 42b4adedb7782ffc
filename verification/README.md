# Verification of the parking and gate system

A Dafny model of the parts of the parking system whose correctness is least obvious, with proofs of what they
promise. `dafny verify dfyconfig.toml` checks all of it.

## What is modelled

**Two Jalali calendars.** The user interface converts dates with two unrelated algorithms. `BreakTableCalendar`
is the one over a table of break years and Julian day numbers: a loop, quotients by `~~(a / b)` with their 32-bit
range (`JsMath`), and previous-year corrections. `CycleCalendar` is the closed 33-year-cycle converter of the
date-time field, `EarlyYears` what its older branch does, and `JalaliText` its printer and parser. Both are measured against `GregorianReference`, a
day-by-day definition of the Gregorian calendar. `CalendarAgreement` compares the two.

**The gate.** `GateDecision` is the service that decides on one plate reading in one transaction over events,
sessions, occupancies, spaces and permits. It is a class whose methods follow the branches of the service, proved
equal to a function on tables; that function is split into a reading half (`Read`) and a committing half
(`Commit`) with the two unique constraints and the rollback. `RulesEngine` is the rule list with its guard against
softening, and `RuleLaws` how dates, conditions and order decide which rule acts. `GateInvariants`, `GateServing`,
`GateBarrier`, `GateEffects` and `GatePermits` say what serial runs keep and answer, for whom the barrier opens, what an
entry and an exit write and how permits are used up, and `GateOverrides` when an exit is refused after its session was
closed; `GateConcurrency`, `GateCrossings` and `GateCrowding` say what any interleaving of reads and commits keeps, and
`GateReplay` that a repeated key gets its first answer in all of them.

**Offline operation.** `OfflineSnapshot` is the list the server hands out and the decision taken from it,
`GateAgent` the agent's database, handler and upload, and `OfflineProtocol` the agent, a link that may lose any
reply, and the server together, whose requests are read and committed in separate steps.

**Plates and drawings.** `PlateNormalization` and `PlateMigration` are the normaliser, its two letter tables and
the move from one to the other, and `PlateWriting` says which ways of writing a plate come to the same. `CadImport` and `CadEdits` are the import of parking spots and the restoration of
operators' edits after a purge.

`Options`, `Characters` and `Quotients` hold what the others share. Names of the source's functions appear in
Dafny's spelling; functions without a contract of their own are specifications that the members below are about.

## Where the code and its description differ

- `jalali.ts`: `g2d` counts days right exactly while its first quotient fits 32 bits (`G2dCounts`); numbers are
  taken as exact, which they are up to 2^53.
- `JalaliDateTime.tsx`: the converters are inverse from year 980 on. The branch for earlier years runs the arithmetic of
  the later one 979 years earlier, so its leap years are neither the parser's nor the Gregorian calendar's, and it is
  right exactly where the counts happen to agree (`EarlyGregorianRoundTripIff`, `EarlyJalaliRoundTripIff`). The field's placeholder shows Persian digits, but its pattern accepts ASCII digits only.
- The two calendars agree on the years 1178 to 1634. Outside they agree in most years and differ by a day in the others,
  which the leap tests of the year tell (`EnginesAgreeIff`).
- `rules_engine.py` says rules only tighten. A rule can lower a DENY for an unpaid exit to a referral
  (`DenyLoweredExactlyWhen`), and an allow after a deny removes the deny when the service itself required an operator
  (`LastDecides`). Neither opens the barrier (`OpensOnlyWhen`).
- `service.py`: an exit closes its session before rules and the review lock are consulted. When they then refuse,
  the session is closed and the occupancy stays (`OverrideBreaks`; `OverriddenExactlyWhen` says when). The answer to an open-session conflict opens
  the barrier without recording an event (`OpensUnrecordedIff` says when, for one request and for a commit). A permit is charged before rules and review are
  consulted, and stays charged when they refuse the entry, and also when the direction is neither IN nor OUT
  (`ChargedForNothingIff`). An exit frees the vehicle's space even if it was reserved before the entry
  (`EntryThenExit`). When requests overlap, an exit can take
  away the row of a later entry (`CrossingLosesPresence`), and entries that read the same free place can overfill the
  yard (`OverlapOverfills`; `PresenceKeptIff` and `RunWithinIff` say exactly when).
- `plate.py`: a plate normalised from a Latin C or X, or without any letter, passes for a plate with a Persian letter
  when migrated (`MigrationRightIff`).
- `import_cad_spots.py` describes keep_edits as keeping manual statuses. It keeps them for renamed spots only
  (`UnrenamedStatusIff`, `RenamedSurvivesIff`), and the purge is committed before the file is checked
  (`ImportKeepsDistinct`).

## Model

| member | source | states |
|---|---|---|
| `JsMath.ToInt32` | frontend/src/utils/jalali.ts:5-6 | `~~x` of an integer: the one value of the 32-bit range congruent to x modulo 2^32 (section 7.1.6 of ECMA-262) |
| `JsMath.DivMod` | frontend/src/utils/jalali.ts:5-6 | on non-negative dividends whose quotient fits 32 bits, the helpers are ordinary quotient and remainder |
| `BreakTableCalendar.ModMinusOne` | frontend/src/utils/jalali.ts:6 | the remainder of -1 by 4 is -1, which the test for the last year of a cycle relies on |
| `BreakTableCalendar.ComputeJalCal` | frontend/src/utils/jalali.ts:8-30 | the loop over any break table, before, inside and after it, computes leap age, Gregorian year and day of March |
| `BreakTableCalendar.LeapAgeIs` | frontend/src/utils/jalali.ts:26-28 | the leap age inside a segment in closed form, with the shift of its last five years |
| `BreakTableCalendar.SegmentStep` | frontend/src/utils/jalali.ts:14-23 | the running leap count grows by one after exactly the years of leap age 0, across a break too |
| `BreakTableCalendar.SegmentAges` | frontend/src/utils/jalali.ts:26-28 | leap age 1 follows leap age 0; a segment starts with a leap year and ends with a common one |
| `BreakTableCalendar.G2dCounts` | frontend/src/utils/jalali.ts:32-36 | `g2d` is the day number of the proleptic Gregorian calendar if and only if its first quotient stays within 32 bits |
| `BreakTableCalendar.D2gInverts` | frontend/src/utils/jalali.ts:38-46 | `d2g` gives back every valid Gregorian date of the span from its day number |
| `BreakTableCalendar.GregorianRoundTrip` | frontend/src/utils/jalali.ts:32-46 | every day number of the span is a valid date under `d2g`, and `g2d` returns the number |
| `BreakTableCalendar.NowruzIs` | frontend/src/utils/jalali.ts:8-36 | the Gregorian leap count cancels: the first day of a Jalali year is 365 times the year plus its leap count plus 1947954, for any table |
| `BreakTableCalendar.YearLength` | frontend/src/utils/jalali.ts:8-30 | on every admissible break table the next Nowruz is 366 days later exactly in the years of leap 0, else 365 |
| `BreakTableCalendar.LeapAgeOne` | frontend/src/utils/jalali.ts:63-68 | leap is 1 exactly in the year after a leap year, so the previous-year correction of `d2j` is right |
| `BreakTableCalendar.BreaksAdmissible` | frontend/src/utils/jalali.ts:3 | the real table is increasing and its jumps are at least 29 and 4 or 29 modulo 33 |
| `BreakTableCalendar.MarchBound` | frontend/src/utils/jalali.ts:25 | over the whole table the computed Nowruz is a day of March between 10 and 31 |
| `BreakTableCalendar.MonthsMakeTheYear` | frontend/src/utils/jalali.ts:82-90 | the twelve month lengths sum to the distance between consecutive Nowruz days |
| `BreakTableCalendar.NextJDayCounts` | frontend/src/utils/jalali.ts:48-51 | `j2d` sends the next Jalali day to the next integer |
| `BreakTableCalendar.J2dIs` | frontend/src/utils/jalali.ts:48-51 | `j2d` of a valid date is Nowruz plus the offset of its month and day, and lies inside its year |
| `BreakTableCalendar.J2dInjective` | frontend/src/utils/jalali.ts:48-51 | different valid Jalali dates have different day numbers |
| `BreakTableCalendar.YearOfDay` | frontend/src/utils/jalali.ts:53-58 | the Gregorian year of a day gives a Jalali year whose Nowruz is at most 297 days before or 92 days after it |
| `BreakTableCalendar.JalaliOfDay` | frontend/src/utils/jalali.ts:53-70 | `d2j` gives a valid date on every day of the table, and `j2d` undoes it |
| `BreakTableCalendar.DayOfJalali` | frontend/src/utils/jalali.ts:48-70 | `d2j(j2d(t)) == t` for every valid Jalali date of the table |
| `BreakTableCalendar.JalaliRoundTrip` | frontend/src/utils/jalali.ts:74-80 | `toJalaali(toGregorian(t)) == t` for every valid Jalali date of the table, through a valid Gregorian date |
| `BreakTableCalendar.GregorianJalaliRoundTrip` | frontend/src/utils/jalali.ts:74-80 | `toGregorian(toJalaali(g)) == g` for every valid Gregorian date of the span |
| `BreakTableCalendar.G2dNextDay` | frontend/src/utils/jalali.ts:32-36 | `g2d` sends the next calendar day to the next integer |
| `CycleCalendar.ComputeJalali` | frontend/src/components/JalaliDateTime.tsx:6-18 | the in-place conversion computes the specification function for every input |
| `CycleCalendar.MonthLoop` | frontend/src/components/JalaliDateTime.tsx:28-32 | the month loop, with its table, computes the specification for every year and day |
| `CycleCalendar.ComputeGregorian` | frontend/src/components/JalaliDateTime.tsx:20-34 | the whole in-place conversion computes the specification function for every input |
| `CycleCalendar.MonthWalkCounts` | frontend/src/components/JalaliDateTime.tsx:28-33 | the month loop stops inside the year, with a day inside its month, and loses no day |
| `CycleCalendar.YearOfCounts` | frontend/src/components/JalaliDateTime.tsx:24-27 | the 400-, 100-, 4- and 1-year steps find the Gregorian year and the day in it |
| `CycleCalendar.JalaliOfCounts` | frontend/src/components/JalaliDateTime.tsx:12-16 | the 33-, 4- and 1-year steps find the valid Jalali date with the given day count |
| `CycleCalendar.YearLength` | frontend/src/components/JalaliDateTime.tsx:23 | the 366-day years of the converter are exactly the years of the leap list modulo 33 |
| `CycleCalendar.JalaliToGregorianCounts` | frontend/src/components/JalaliDateTime.tsx:20-34 | from year 980 the Gregorian date is valid and has the same day count |
| `CycleCalendar.GregorianToJalaliCounts` | frontend/src/components/JalaliDateTime.tsx:6-18 | after 1600 the Jalali date is valid and has the same day count |
| `CycleCalendar.JalaliRoundTrip` | frontend/src/components/JalaliDateTime.tsx:6-34 | Jalali to Gregorian and back is the identity from year 980 on, with no upper limit |
| `CycleCalendar.GregorianRoundTrip` | frontend/src/components/JalaliDateTime.tsx:6-34 | Gregorian to Jalali and back is the identity from the first day of 980 on |
| `CycleCalendar.ConsecutiveDays` | frontend/src/components/JalaliDateTime.tsx:20-34 | the next Jalali day converts to the next Gregorian day |
| `CycleCalendar.EpochBranchesCollide` | frontend/src/components/JalaliDateTime.tsx:20-24 | a witness at the end of the older branch: 30 Esfand 979 and 1 Farvardin 980 convert to the same day |
| `EarlyYears.EarlyYearLength` | frontend/src/components/JalaliDateTime.tsx:23 | the 366-day years of the older branch are those with remainder 0, 4, ... 28 modulo 33, never one of the leap list |
| `EarlyYears.EarlyLeapDayCollides` | frontend/src/components/JalaliDateTime.tsx:23 | every leap-list year below 979 has its leap day converted to the day of the next new year |
| `EarlyYears.EarlyDaysAre` | frontend/src/components/JalaliDateTime.tsx:8-11 | what the older branch counts for a Gregorian date: a leap day in the years that lie 979 before a leap year |
| `EarlyYears.EarlyGregorianRoundTripIff` | frontend/src/components/JalaliDateTime.tsx:6-34 | from 21 March 621 to the end of 1600 a Gregorian date converts to Jalali and back if and only if it lies before March or its year has a leap day in both counts or in neither |
| `EarlyYears.CountsFrom622` | frontend/src/components/JalaliDateTime.tsx:8-11 | every date from 622 on is inside that span |
| `EarlyYears.EarlyPlaceIs` | frontend/src/components/JalaliDateTime.tsx:21-27 | the Gregorian year and the place in it that the older branch finds, computed from the Jalali date alone |
| `EarlyYears.EarlyJalaliRoundTripIff` | frontend/src/components/JalaliDateTime.tsx:6-34 | from year 0 to 979 a parser date converts to Gregorian and back if and only if it is no leap day and its place is before 1601, and there before March or in a year with a leap day in both counts or in neither |
| `EarlyYears.EarlyBranchFails` | frontend/src/components/JalaliDateTime.tsx:6-34 | witnesses for both conditions, inside the older branch: two dates of 970 and 971 become one, and 1 March 1001 does not come back |
| `JalaliText.MatchSound` | frontend/src/components/JalaliDateTime.tsx:43-44 | what the scan finds has the shape of the pattern |
| `JalaliText.MatchComplete` | frontend/src/components/JalaliDateTime.tsx:43-44 | every text of the pattern's shape is found, with the same fields |
| `JalaliText.ParseIffExists` | frontend/src/components/JalaliDateTime.tsx:42-55 | a text of the right shape is accepted exactly when its date and time exist; from 980 on it gives the Gregorian date with the same day count, before that one that converts back if and only if the older branch is right for the date that was read |
| `JalaliText.ParseNeedsShape` | frontend/src/components/JalaliDateTime.tsx:43-44 | a text without the shape is refused |
| `JalaliText.ExistsIffConverted` | frontend/src/components/JalaliDateTime.tsx:46-49 | the parser's calendar has exactly the dates the converter gives to Gregorian days |
| `JalaliText.NumberOfDecimal` | frontend/src/components/JalaliDateTime.tsx:38-45 | a printed number reads back as itself |
| `JalaliText.PrintThenParse` | frontend/src/components/JalaliDateTime.tsx:36-55 | parsing the printed text gives the moment back to the minute, for every four-digit Jalali year |
| `CalendarAgreement.LeapYearsAgree` | frontend/src/components/JalaliDateTime.tsx:47 | the leap years of the two engines are the same in 1178 to 1633 and differ in 1177 and 1634 |
| `CalendarAgreement.NowruzAgrees` | frontend/src/utils/jalali.ts:8-36 | the first days of the years 1178 to 1634 are the same in both engines |
| `CalendarAgreement.EnginesAgree` | frontend/src/utils/jalali.ts:53-76 | both engines give the same Jalali date on every day of the years 1178 to 1634 |
| `CalendarAgreement.EnginesDisagreeOutside` | frontend/src/components/JalaliDateTime.tsx:6-18 | witnesses for the end of those years: the day before them and the day after get different dates |
| `CalendarAgreement.PairsEarly` | frontend/src/utils/jalali.ts:3 | from 980 to 1177 a year that only the table calls leap is followed by one that only the cycle does, and the other way round |
| `CalendarAgreement.PairsLate` | frontend/src/utils/jalali.ts:3 | from 1210 on a year that only the cycle calls leap is followed by one that only the table does, and the other way round |
| `CalendarAgreement.NowruzAgreesIff` | frontend/src/utils/jalali.ts:8-36 | over the years 980 to 3177 the first days differ if and only if the year is leap in the table alone (from 1178 on) or in the cycle alone (before), and then by one day |
| `CalendarAgreement.EnginesAgreeIff` | frontend/src/utils/jalali.ts:53-76 | on every Gregorian day of the years 980 to 3177 the engines agree if and only if the leap tests of the year say so |
| `CalendarAgreement.EnginesAgreeOn` | frontend/src/utils/jalali.ts:78-80 | told from the Jalali date: the cycle engine reads the Gregorian day of a date of those years as that date if and only if the leap tests of its year say so |
| `GateSchema.ConfirmedAppend` | backend/app/capacity.py:43-47 | one more OCCUPIED row counts one more |
| `GateSchema.ConfirmedVacate` | backend/app/capacity.py:43-47 | vacating a row counts one less |
| `GateSchema.ConfirmedIsCount` | backend/app/capacity.py:43-47 | what is counted is the number of OCCUPIED rows |
| `GateSchema.HoursGoRound` | backend/app/modules/vehicles/service.py:42-51 | permitted hours go round the clock: a moment is inside exactly when it comes no later after the first hour than the last hour does, past midnight or not |
| `RulesEngine.FirstApplying` | backend/app/rules_engine.py:167-192 | the first rule in effect whose conditions match, and no earlier one |
| `RulesEngine.ApplyRulesForEvent` | backend/app/rules_engine.py:151-193 | the loop over the rules applies the actions of the first rule that applies |
| `RulesEngine.RunRuleActions` | backend/app/rules_engine.py:177-192 | the loop over the actions, setting and popping overrides, computes the specification function |
| `RulesEngine.EvaluateConditions` | backend/app/rules_engine.py:170-174 | conditions are joined by all or any, with their values for an empty list |
| `RulesEngine.LastDecides` | backend/app/rules_engine.py:125-142 | the last decisive action alone makes the override, and an allow on a refusal takes the override back |
| `RulesEngine.NoneDecides` | backend/app/rules_engine.py:179-192 | without a decisive action there is no override |
| `RulesEngine.ReasonComesAlong` | backend/app/rules_engine.py:134-142 | a decision is overridden together with its reason, and only to DENY, REQUIRE_OPERATOR_APPROVAL or ALLOW_WITH_WARNING |
| `RulesEngine.NoSoftening` | backend/app/rules_engine.py:178-191 | no action sequence turns a refusal into an allow; a protected refusal is not even referred |
| `RulesEngine.OpensOnlyWhen` | backend/app/rules_engine.py:125-193 | the barrier opens only without review, and on a base ALLOW or ALLOW_WITH_WARNING or an UNKNOWN_PLATE that an applying rule allowed |
| `RulesEngine.ProtectedStaysDenied` | backend/app/rules_engine.py:26 | PLATE_RESTRICTED and VEHICLE_INACTIVE stay DENY whatever the rules say |
| `RulesEngine.RefusalNeverOpens` | backend/app/rules_engine.py:185-191 | a refusal for capacity, permit or debt never opens the barrier |
| `RulesEngine.DenyLoweredExactlyWhen` | backend/app/rules_engine.py:134-136 | a DENY is lowered exactly when it is EXIT_UNPAID_BLOCKED and the last decisive action of the first applying rule refers to the guard |
| `RuleLaws.FutureRuleIgnored` | backend/app/rules_engine.py:168-169 | a rule dated later than now acts as if it were not in the list |
| `RuleLaws.PastRuleUndated` | backend/app/rules_engine.py:168-169 | a rule dated now or earlier acts as if it had no date |
| `RuleLaws.FirstRuleWins` | backend/app/rules_engine.py:167-192 | an undated rule without conditions at the head of the list is the only one that acts |
| `RuleLaws.AllAsksMore` | backend/app/rules_engine.py:170-174 | under ALL, one more condition that holds changes nothing, and one that fails takes the rule out |
| `RuleLaws.AnyAsksMore` | backend/app/rules_engine.py:170-174 | under ANY, one more condition that fails changes nothing, and one that holds makes the others immaterial |
| `RuleLaws.AnyOfNothing` | backend/app/rules_engine.py:170-174 | under ANY, a rule without conditions acts as if it were not in the list |
| `RuleLaws.DatedRuleCases` | backend/app/rules_engine.py:168-169 | a witness: a rule that denies from 200 on leaves an allowed entry alone at 100 and denies it at 200 and 300 |
| `RuleLaws.LastGivesReason` | backend/app/rules_engine.py:134-142 | the last decisive action gives its reason along with its decision, or takes both back |
| `RuleLaws.FlagsAre` | backend/app/rules_engine.py:132-148 | a flag is up exactly when some action of the rule raises it |
| `RuleLaws.MessageIsLast` | backend/app/rules_engine.py:130-131 | the message is that of the last action that shows one |
| `RuleLaws.BlockedIsReported` | backend/app/rules_engine.py:178-191 | a blocked softening is reported exactly when an action allows or refers on PLATE_RESTRICTED or VEHICLE_INACTIVE, or allows on a refusal that is not for lack of any permit |
| `RuleLaws.UnknownIsReported` | backend/app/rules_engine.py:125-129 | an action outside the list is reported by its name, exactly when the rule has it |
| `RuleLaws.RaisingIsReported` | backend/app/modules/access_control/service.py:277-279 | rules that raise leave decision, reason, message and flags alone and are reported, exactly then |
| `RuleLaws.ReasonTells` | backend/app/modules/access_control/service.py:261-285 | the final reason is the review lock's exactly when it turned an admission into a referral, a rule's exactly when a rule overrode, and else decision and reason are the service's |
| `GateDecision.FindEvent` | backend/app/modules/access_control/service.py:99-101 | the recorded event of a key, or none has it |
| `GateDecision.LatestOccupied` | backend/app/modules/access_control/service.py:346-351 | the vehicle's OCCUPIED row with the latest time, or it has none |
| `GateDecision.FindActivePermit` | backend/app/modules/vehicles/service.py:23-110 | the first active permit of the plate, newest first, that is good at this moment, weekday and hour, usable at the gate and has entries left; else whether there was any |
| `GateDecision.Decide` | backend/app/modules/access_control/service.py:145-259 | the service hands the rules only pairs of decision and reason that belong together, with the rows they refer to |
| `GateDecision.GateDecisionService.DecideAndWrite` | backend/app/modules/access_control/service.py:145-259 | the decision branches, with the session closed and the permit used at once |
| `GateDecision.GateDecisionService.ReviewDecision` | backend/app/modules/access_control/service.py:261-285 | rules, which may raise, and then the review lock |
| `GateDecision.GateDecisionService.AddEntry` | backend/app/modules/access_control/service.py:315-342 | session, occupancy and assigned space of an admitted entry, or the open-session constraint |
| `GateDecision.GateDecisionService.VacateLatest` | backend/app/modules/access_control/service.py:344-358 | the latest occupancy is vacated and its space freed |
| `GateDecision.GateDecisionService.Rollback` | backend/app/modules/access_control/service.py:363 | every table is as it was |
| `GateDecision.GateDecisionService.ProcessPlateEvent` | backend/app/modules/access_control/service.py:71-415 | the whole transaction leaves the tables and gives the answer of the specification: duplicate, dry run, commit, or rollback with the conflict answer |
| `GateReplay.RepeatIsAnswered` | backend/app/modules/access_control/service.py:99-103 | a request whose key is recorded gets decision, reason and barrier of the recorded event, marked as a duplicate, and changes nothing |
| `GateReplay.RefusedOnKey` | backend/app/modules/access_control/service.py:361-370 | a commit refused on its key gets decision, reason and barrier of the event recorded under that key, and changes nothing |
| `GateReplay.SameAnswerAgain` | backend/app/modules/access_control/service.py:99-103 | idempotency: when a call answered and recorded its event, then after any further serial requests the same key gets the same decision, reason and barrier, as a duplicate |
| `GateReplay.SameAnswerInterleaved` | backend/app/modules/access_control/service.py:99-370 | the same after any interleaving of reads and commits, for a read with that key and for a commit planned before or after |
| `GateReplay.BarrierFollowsDecision` | backend/app/modules/access_control/service.py:34-38 | every answer opens the barrier exactly for ALLOW, ALLOW_WITH_WARNING and OFFLINE_ALLOW |
| `GateBarrier.RefusesExactlyWhen` | backend/app/modules/access_control/service.py:145-236 | UNKNOWN_PLATE, DENY and PERMIT_INVALID_NOW with each reason, exactly when the request and the tables say so |
| `GateBarrier.AdmitsExactlyWhen` | backend/app/modules/access_control/service.py:168-259 | ALLOW and ALLOW_WITH_WARNING with each reason, and YARD_CAPACITY_FULL, exactly when the request and the tables say so: the designer's positive capacity counts whatever the environment says, then the environment's, and without either there is always room |
| `GateEffects.EventTells` | backend/app/modules/access_control/service.py:293-313 | the one event a request adds tells its key, plate, registered vehicle, and the decision and reason answered |
| `GateEffects.EntryFills` | backend/app/modules/access_control/service.py:315-342 | an admitted entry of a plate not inside adds an open session and an OCCUPIED row with its event, its moment and the vehicle's assigned space, which becomes OCCUPIED if it was FREE; of a plate inside, nothing |
| `GateEffects.ExitFrees` | backend/app/modules/access_control/service.py:344-358 | an admitted exit of a registered plate closes its session and no other, vacates the vehicle's latest row, and makes that row's space FREE, whatever it was |
| `GateEffects.EntryThenExit` | backend/app/modules/access_control/service.py:315-358 | an entry and the next exit leave a closed session and a vacated row, and the spaces as before if and only if the assigned space was FREE: a RESERVED one ends FREE |
| `GateEffects.ContextIs` | backend/app/rules_engine.py:29-70 | what rules are evaluated on: a usable permit was found, the environment's capacity is reached, the number of FREE spaces, and an open session that an exit in order has just closed no longer counts |
| `GateBarrier.ServiceAllowsExactlyWhen` | backend/app/modules/access_control/service.py:145-259 | the service itself allows exactly registered plates of active, unrestricted vehicles whose exit is not blocked, or whose entry has a permit good at this moment, day, hour and gate and finds room within the designer's or else the environment's capacity or the plate inside; which plates are unknown to it, and when it closes a session or uses a permit |
| `GateBarrier.BarrierOpensOnlyFor` | backend/app/modules/access_control/service.py:145-389 | a new reading opens the barrier only without review, never for a restricted plate or inactive vehicle, and only for a plate in order or an unknown one that an applying rule let in |
| `GatePermits.ChargedExactlyWhen` | backend/app/modules/access_control/service.py:253-259 | exactly one permit of the plate that is active, has begun and not expired, is good on this day, at this hour and gate, and not used up, is charged one entry, exactly when the service found it valid and the commit went through |
| `GatePermits.ChargedForNothingIff` | backend/app/modules/access_control/service.py:253-315 | a permit is charged and no session opened or closed if and only if the call goes through for a registered plate in order that is not inside, is no exit, and its direction is not IN, or it needs review, or the rules refuse it |
| `GatePermits.ChargedForNothingCases` | backend/app/modules/access_control/service.py:253-315 | witnesses for each kind: a direction that is neither IN nor OUT, a bad capture, a rule that denies |
| `GatePermits.EntriesWithinLimits` | backend/app/modules/vehicles/service.py:65-70 | no serial run uses a permit beyond its limit |
| `GateInvariants.ProcessKeeps` | backend/app/modules/access_control/service.py:155-358 | one request keeps unique keys, one OPEN session per plate, an OCCUPIED row for each open session of a registered vehicle and for each OCCUPIED space, overridden or not |
| `GateInvariants.RunKeeps` | backend/app/modules/access_control/service.py:155-358 | every serial run keeps them |
| `GateInvariants.LeavesWithoutSession` | backend/app/modules/access_control/service.py:197-203 | an admitted exit of a registered plate leaves it without an open session |
| `GateOverrides.AllowRefusedExactlyWhen` | backend/app/modules/access_control/service.py:261-285 | what the service allowed is refused exactly on review or when the last decisive action of the first applying rule denies or refers |
| `GateOverrides.UnknownAllowedExactlyWhen` | backend/app/rules_engine.py:178-191 | an unknown plate is let in exactly without review and when the last decisive action of the first applying rule allows |
| `GateOverrides.BarrierOpensIff` | backend/app/modules/access_control/service.py:92-389 | a new reading opens the barrier if and only if the call returns, there is no review, and the plate is in order and not refused by the rules, or unknown to the service and let in by them |
| `GateOverrides.OpensUnrecordedIff` | backend/app/modules/access_control/service.py:371-389 | in serial runs the barrier opens without a record of the event if and only if such an unknown plate comes in while it has an open session |
| `GateOverrides.OverriddenExactlyWhen` | backend/app/modules/access_control/service.py:197-285 | a request overrides its exit exactly when it goes through, is the exit of a registered plate in order that is inside, and needs review or is refused by the rules |
| `GateOverrides.ExactKeptIff` | backend/app/modules/access_control/service.py:197-285 | one request keeps sessions, occupancies and spaces in exact agreement if and only if it is not of that kind |
| `GateOverrides.RunKeepsExact` | backend/app/modules/access_control/service.py:155-358 | runs without a request of that kind, over one-to-one space assignments, keep the exact agreement |
| `GateInvariants.OverrideBreaks` | backend/app/modules/access_control/service.py:197-285 | an overridden exit leaves a closed session with a live occupancy |
| `GateInvariants.RunExact` | backend/app/modules/access_control/service.py:155-358 | runs without overridden exits, over one-to-one space assignments, keep the exact agreement |
| `GateInvariants.ExactMeans` | backend/app/modules/access_control/service.py:315-358 | then a registered plate has an open session exactly when its vehicle has an OCCUPIED row, which is its only one, and an unreserved space is OCCUPIED exactly when a row holds it |
| `GateServing.OnlySoftenedConflicts` | backend/app/modules/access_control/service.py:371-389 | serially only an UNKNOWN_PLATE softened to ALLOW_WITH_WARNING can meet the open-session constraint, and it is answered with an open barrier |
| `GateServing.RaisesOnlyWhen` | backend/app/modules/access_control/service.py:93-95 | a call raises exactly for an unknown gate or a clash in the recognition table |
| `GateServing.DryRunTells` | backend/app/modules/access_control/service.py:133-135 | a dry run gives the decision and barrier of the real call whenever that returns, and changes nothing |
| `GateServing.ProcessFills` | backend/app/modules/access_control/service.py:253-259 | one request adds at most one OCCUPIED row, and a regular one only below the designer's positive capacity or, without one, the environment's |
| `GateServing.EntryHasRoom` | backend/app/capacity.py:11-17 | a regular entry was decided below the designer's positive capacity or, without one, the environment's, whatever the rules did |
| `GateServing.CapacityHolds` | backend/app/capacity.py:11-55 | over every serial run whose requests have one capacity, the designer's if positive and else the environment's, OCCUPIED rows stay within it plus the softened entries |
| `GateServing.ChangesOnlyWithEvent` | backend/app/modules/access_control/service.py:310-360 | the tables change only together with one new event under an unused key, and the answer is that event |
| `GateConcurrency.CommitSafe` | backend/app/modules/access_control/service.py:361-390 | whatever the tables have become since the reads, a commit keeps both constraints or changes nothing, and an answer that opens is backed |
| `GateConcurrency.CommitKeepsSpaces` | backend/app/modules/access_control/service.py:315-358 | a commit leaves every OCCUPIED space referenced by an OCCUPIED row, whatever happened since its reads |
| `GateConcurrency.InterleavingSafe` | backend/app/modules/access_control/service.py:99-390 | every interleaving of read and commit steps keeps the constraints and the use of OCCUPIED spaces, refused commits changed nothing, and every open answer of a real call was backed by a recorded opening of its key or an open session of its plate |
| `GateCrossings.PresenceKeptIff` | backend/app/modules/access_control/service.py:344-358 | a commit keeps an OCCUPIED row for every open session of a registered vehicle if and only if it is refused, or leaves nobody of its plate inside, or the vehicle has a second row |
| `GateCrossings.InterleavingKeepsPresence` | backend/app/modules/access_control/service.py:99-390 | interleavings in which every commit is refused or leaves nobody of its plate inside keep presence |
| `GateCrossings.CrossingLosesPresence` | backend/app/modules/access_control/service.py:344-358 | a witness for the condition: two exits that read one session, with an entry between their commits, leave an open session without an OCCUPIED row |
| `GateCrowding.CrowdingBounded` | backend/app/capacity.py:11-55 | over every interleaving OCCUPIED rows and waiting regular entries stay within the capacity, the softened entries and the most regular entries that ever waited at once, less one |
| `GateCrowding.WithinExactlyWhen` | backend/app/modules/access_control/service.py:253-333 | one step keeps OCCUPIED rows within any bound, but for an entry let in by a rule, if and only if it does not commit a regular entry when the bound is reached |
| `GateCrowding.RunWithinIff` | backend/app/capacity.py:11-55 | an interleaving stays within the capacity and the softened entries all along if and only if none of its steps commits a regular entry when that is reached |
| `GateCrowding.OverlapOverfills` | backend/app/modules/access_control/service.py:253-259 | a witness for the condition: two entries that both read one free place are both admitted |
| `GateConcurrency.NoSecondEventOrSession` | backend/app/modules/access_control/models.py:60-71 | in every reachable state no two events share a key and no two open sessions a plate |
| `GateConcurrency.OpensUnrecordedIff` | backend/app/modules/access_control/service.py:361-389 | a commit opens the barrier without a record if and only if its key is new and it is an entry whose plate has an open session by then |
| `GateConcurrency.ReadAndCommit` | backend/app/modules/access_control/service.py:71-415 | a read and its commit with nothing in between have the effect and the answer of the whole call |
| `GateConcurrency.SerialIsInterleaved` | backend/app/modules/access_control/service.py:71-415 | every serial run is one of the interleavings, with the same tables and the same answers |
| `GateConcurrency.LateEntryRefused` | backend/app/modules/access_control/service.py:371-389 | of two entries of a plate that both read first, the second is refused, opens the barrier and records nothing |
| `OfflineSnapshot.MakeSnapshot` | backend/app/modules/access_control/router.py:408-447 | the two loops of the endpoint list the permits and restrictions of the specification |
| `OfflineSnapshot.LookUpIsLast` | gate-agent/agent/decision.py:10 | the dictionary entry of a plate is its last listed permit |
| `OfflineSnapshot.RestrictedIff` | backend/app/modules/access_control/router.py:432-437 | a plate is listed as restricted exactly when an active restriction of it has not ended |
| `OfflineSnapshot.OfflineEntryIff` | gate-agent/agent/decision.py:4-43 | an entry opens offline exactly when, in the tables of the snapshot, the plate had no running restriction and its last listed permit is unexpired then and now and has entries left |
| `OfflineSnapshot.OfflineEntrySound` | gate-agent/agent/decision.py:24-43 | an entry opened offline is backed by an active permit usable at the gate, unexpired at both times, with entries left, and no restriction |
| `OfflineSnapshot.OfflineExitIff` | gate-agent/agent/decision.py:19-22 | an exit opens offline exactly when the plate was not restricted and is inside by the local index or has a listed permit |
| `OfflineSnapshot.DecisionOpens` | gate-agent/agent/decision.py:4-43 | an offline decision is OFFLINE_ALLOW with an open barrier or OFFLINE_REQUIRE_REVIEW with a closed one, and its reason says which way |
| `OfflineSnapshot.OfflineRefusedFor` | gate-agent/agent/decision.py:15-29 | the reasons PLATE_RESTRICTED, NO_LOCAL_ENTRY_RECORD and PLATE_NOT_IN_SNAPSHOT, exactly when the tables of the snapshot say so |
| `OfflineSnapshot.OfflineExpiredIff` | gate-agent/agent/decision.py:30-36 | an entry is refused as expired exactly when the last listed permit ended after the snapshot |
| `OfflineSnapshot.NothingOpensBlind` | gate-agent/agent/decision.py:7-17 | nothing opens without a snapshot, without a plate or for a restricted plate |
| `GateAgent.PresentMeans` | gate-agent/agent/database.py:83-91 | the replay of the log finds a plate inside exactly when its last opening passage was an entry |
| `GateAgent.LocalDB.LogEvent` | gate-agent/agent/database.py:83-91 | the log grows by the event and the presence index still replays it |
| `GateAgent.LocalDB.IsLocallyInside` | gate-agent/agent/database.py:101-103 | the index answers as the replay of the log |
| `GateAgent.LocalDB.AddPending` | gate-agent/agent/database.py:53-57 | a queued key is left alone, a new one is inserted in time order |
| `GateAgent.BatchIsOldest` | gate-agent/agent/database.py:59-64 | what an upload reads: rows of the queue in order, a hundred or all of them, and none younger than a row left out |
| `GateAgent.LocalDB.RemovePending` | gate-agent/agent/database.py:70-71 | the row with the number goes, the others stay |
| `GateAgent.InsertWellQueued` | gate-agent/agent/database.py:8-15 | inserting keeps numbers and keys unique and the order of time |
| `GateAgent.AcknowledgeMembers` | gate-agent/agent/sync.py:25-30 | an acknowledgement takes out exactly the acknowledged rows of the batch |
| `GateAgent.RemoveAcknowledged` | gate-agent/agent/sync.py:25-30 | the loop over the uploaded rows takes out exactly those the reply acknowledges |
| `GateAgent.UploadPending` | gate-agent/agent/sync.py:9-32 | one upload: nothing is removed without a successful reply, and with one exactly the rows it acknowledges |
| `GateAgent.HandlePlateEvent` | gate-agent/agent/handler.py:11-59 | an answered reading is not queued; any other is decided from the snapshot and queued under its key; both are logged |
| `OfflineProtocol.CaptureSorted` | backend/app/modules/access_control/router.py:389 | events are served in the order of their capture, none lost and none added |
| `OfflineProtocol.SyncOffline` | backend/app/modules/access_control/router.py:386-405 | the loop of the endpoint serves each event in that order, turning one that raises, before or after its commit, into an error entry |
| `OfflineProtocol.ServerSettles` | backend/app/modules/access_control/service.py:361-390 | an answered request has its event recorded, or met the open-session conflict while its plate had an open session |
| `OfflineProtocol.CommitSettles` | backend/app/modules/access_control/service.py:361-390 | a commit that is answered, whatever the tables have become, has its event recorded or met the open-session conflict while its plate had an open session |
| `OfflineProtocol.ReadSettles` | backend/app/modules/access_control/service.py:97-103 | a request that its reads alone answer, and that is no dry run, has its event recorded |
| `OfflineProtocol.CommitKeeps` | backend/app/modules/access_control/service.py:310-390 | a commit keeps the changes per key at one at most and what is settled settled, and if answered settles its key |
| `OfflineProtocol.AcknowledgedIsSettled` | gate-agent/agent/sync.py:25-30 | in any upload on its way, a row that a result acknowledges is recorded under its key or was answered by the conflict path |
| `OfflineProtocol.RemovedOnlySettled` | gate-agent/agent/sync.py:25-30 | a row leaves the queue only when the agent goes through a reply that acknowledges it, and only when settled |
| `OfflineProtocol.StepsKeep` | gate-agent/agent/sync.py:9-32 | every interleaving of the reads and commits of any requests (online calls, also of one event more than once, events of uploads, other gates), rollbacks, lost replies, any number of uploads each in its parts, errors and offline readings keeps the promise |
| `OfflineProtocol.OfflineProtocolSafe` | backend/app/modules/access_control/router.py:386-405 | at most one event and one change of the tables per key; every event decided offline is still queued, recorded, or was answered by the conflict path |
| `OfflineProtocol.HealthySyncDrains` | gate-agent/agent/sync.py:18-31 | whatever happens meanwhile, an upload with a result for each row and no error has none of them in the queue once gone through, and all of them settled |
| `OfflineProtocol.DeliveriesServe` | backend/app/modules/access_control/router.py:386-405 | reading and committing the events of an upload one by one with nothing in between is the endpoint's loop |
| `OfflineProtocol.RemovalsAcknowledge` | gate-agent/agent/sync.py:25-30 | removing row by row with nothing in between is the agent's loop |
| `PlateNormalization.NormalizePlate` | backend/app/shared/plate.py:51-93 | the method with its loop over the letters computes the specification |
| `PlateNormalization.ReverseTable` | backend/app/shared/plate.py:111-113 | the dictionary built in the loop lists the letters of each code in the table's order |
| `PlateNormalization.RemapNormalizedPlate` | backend/app/shared/plate.py:96-125 | the method with its reverse dictionary computes the specification |
| `PlateMigration.ReadJoin` | backend/app/shared/plate.py:48 | a joined plate is read apart again exactly when its code has one or two letters |
| `PlateMigration.ReadSound` | backend/app/shared/plate.py:46-48 | what the pattern accepts is a joined plate, up to a trailing line feed |
| `PlateWriting.WrittenNormalizes` | backend/app/shared/plate.py:51-93 | a plate of one table letter normalises to its digits, code and province, and validly, from every text of the same signs: any digit script, Arabic or Persian letter forms, either case, separators anywhere, any spelling of the country |
| `PlateWriting.FoldIff` | backend/app/shared/plate.py:3-8 | two characters fold to one exactly when they are the same digit of the three scripts, forms of kaf or yeh, the two cases of a Latin letter, or the same character |
| `PlateWriting.AlikeIff` | backend/app/shared/plate.py:69-72 | two texts squeeze to one exactly when they have the same signs, with any separators |
| `PlateWriting.AlikeNormalizes` | backend/app/shared/plate.py:69-93 | texts of the same signs are normalised alike, with either table |
| `PlateWriting.SignBySign` | backend/app/shared/plate.py:69-71 | so are two texts that have the same sign at every place |
| `PlateWriting.DigitScripts` | backend/app/shared/plate.py:3-7 | the k-th Persian or Arabic digit, anywhere in any text, counts as the k-th ASCII digit |
| `PlateWriting.ArabicForms` | backend/app/shared/plate.py:8 | the Arabic kaf and both Arabic yehs, anywhere in any text, count as the Persian ones |
| `PlateWriting.SeparatorAnywhere` | backend/app/shared/plate.py:72 | each of the separators may be put in anywhere |
| `PlateWriting.ExampleNormalizes` | backend/app/shared/plate.py:52 | the example of the description: ۱۲ ب ۳۴۵ ایران ۶۷ becomes 12B345IR67 with either table |
| `PlateWriting.CodesAre` | backend/app/shared/plate.py:18-33 | each code of the many-to-one table stands for exactly the letters written out, each code of the unique table for one |
| `PlateWriting.CodedSignBySign` | backend/app/shared/plate.py:81-88 | the letters part is coded sign by sign, anything else is dropped, and X stands for a part without signs |
| `PlateWriting.SplitIff` | backend/app/shared/plate.py:45 | a cleaned text is taken for a plate exactly when it can be read as one, with the fewest characters between the digits |
| `PlateWriting.ReplaceEach` | backend/app/shared/plate.py:73 | every occurrence of the country's name is replaced |
| `PlateMigration.ValidUnchanged` | backend/app/shared/plate.py:51-93 | a valid plate is not changed by normalising, with either table, up to a trailing line feed |
| `PlateMigration.NormalizeTwice` | backend/app/shared/plate.py:51-131 | normalising twice is normalising once whenever the first result is valid |
| `PlateMigration.UniqueAlone` | backend/app/shared/plate.py:26-33 | no two letters share a code of the unique table |
| `PlateMigration.ManyToOneAlone` | backend/app/shared/plate.py:18-24 | the fourteen letters whose many-to-one code can be read back |
| `PlateMigration.SoleHolder` | backend/app/shared/plate.py:111-118 | a code has one candidate exactly when its letter is alone with it |
| `PlateMigration.MigrationSound` | backend/app/shared/plate.py:96-125 | remapping a plate of one table letter succeeds exactly when the letter is alone with its code, and then equals normalising the written plate with the target table |
| `PlateMigration.UniqueMigrates` | backend/app/shared/plate.py:96-125 | from the unique table it always succeeds, so the migration can be undone |
| `PlateMigration.MigrationRightIff` | backend/scripts/migrate_plate_letters.py:70-76 | for any text, a successful migration to the unique table is right if and only if its one sign is a table letter or its code is neither C nor X |
| `PlateMigration.MigrationCanBeWrong` | backend/app/shared/plate.py:96-125 | a plate written with a Latin X is migrated to KH, which normalising it does not give |
| `PlateMigration.NormalizeAlike` | backend/app/shared/plate.py:51-93 | two plates of one table letter normalise alike exactly when their digits agree and their letters share a code |
| `PlateMigration.UniqueTellsApart` | backend/app/shared/plate.py:26-33 | with the unique table they normalise alike exactly when they are the same plate |
| `CadImport.CadTable.UpsertItems` | backend/scripts/import_cad_spots.py:72-118 | rows that were there are updated, others are created, and both are counted |
| `CadImport.CadTable.RestoreEdits` | backend/scripts/import_cad_spots.py:129-144 | the nested loops give each edit in turn the nearest free spot within 0.6 |
| `CadImport.CadTable.RememberEdits` | backend/scripts/import_cad_spots.py:52-61 | the loop before the purge remembers every located row but context ones |
| `CadImport.CadTable.ImportFromJson` | backend/scripts/import_cad_spots.py:35-149 | purge, upsert and restoration, with the unique constraint checked at each commit |
| `CadEdits.ReimportKeeps` | backend/scripts/import_cad_spots.py:105-114 | importing again keeps codes, leaves rows without an entry untouched, and keeps the operator's status unless the file gives a valid one |
| `CadEdits.ReimportTakesStatus` | backend/scripts/import_cad_spots.py:105-114 | the last entry of a row's code that gives a valid status decides the row's status |
| `CadEdits.ReimportTakesCentre` | backend/scripts/import_cad_spots.py:83-114 | the last entry of a row's code that gives a centre decides where the row is |
| `CadEdits.NewRowIs` | backend/scripts/import_cad_spots.py:105-118 | a new row has the entry's code and centre, and its status if valid, else free |
| `CadEdits.CentreWithin` | backend/scripts/import_cad_spots.py:83-91 | a centre taken from the polygon lies within every rectangle that holds its corners |
| `CadEdits.CentreIsMean` | backend/scripts/import_cad_spots.py:83-91 | on each axis a triangle's centre is a third of the sum of its corners, one more corner is weighed in with the others, and a given centre or fewer than three corners leave the centre as given |
| `CadEdits.Remembered` | backend/scripts/import_cad_spots.py:52-61 | exactly the located rows that are not context ones are remembered, with code, status and place |
| `CadEdits.RenamedMembers` | backend/scripts/import_cad_spots.py:122-124 | exactly the edits whose code the file does not have are put back |
| `CadEdits.QueriedAre` | backend/scripts/import_cad_spots.py:126-128 | the query returns the rows that are not context ones, in order |
| `CadEdits.WithinReachOnEachAxis` | backend/scripts/import_cad_spots.py:131-137 | a spot whose squared coordinate differences add up to at most 0.36 is off by at most 0.6 on each axis |
| `CadEdits.BestIs` | backend/scripts/import_cad_spots.py:131-138 | the inner loop finds a free located spot whose squared coordinate differences add up to at most 0.36 and to no more than any other free spot's, or there is none |
| `CadEdits.LaterOfEquals` | backend/scripts/import_cad_spots.py:134-138 | of spots equally far the later one is found: every later free one is farther |
| `CadEdits.ChosenRow` | backend/scripts/import_cad_spots.py:139-143 | the spot an edit got ends with its code and its valid status, and has not moved |
| `CadEdits.ChosenOnce` | backend/scripts/import_cad_spots.py:134-140 | no spot takes two old codes |
| `CadEdits.EditPlaced` | backend/scripts/import_cad_spots.py:131-144 | a restored edit goes to a spot whose squared coordinate differences add up to at most 0.36 and to no more than those of any spot no earlier edit took, which ends in its place with the edit's code and valid status; an unrestored one had all such spots taken |
| `CadEdits.RestoreKeepsDistinct` | backend/scripts/import_cad_spots.py:121-145 | with distinct old and new codes the codes stay distinct |
| `CadEdits.UpsertDistinctIff` | backend/scripts/import_cad_spots.py:81-119 | the first commit succeeds exactly when no two entries ask for the same new row |
| `CadEdits.RestoreCannotClash` | backend/scripts/import_cad_spots.py:123-145 | the second commit cannot fail |
| `CadEdits.ImportKeepsDistinct` | backend/scripts/import_cad_spots.py:63-149 | codes stay distinct through any import; it fails exactly on a clash in the file, and a purge has then still emptied the table |
| `CadEdits.WithoutEditsUpsertOnly` | backend/scripts/import_cad_spots.py:63-149 | an import that is not a refresh with edits leaves the upserted rows and nothing else |
| `CadEdits.PrivateSpotsRestoreAll` | backend/scripts/import_cad_spots.py:131-144 | an edit is restored when some spot within its reach is out of every other edit's reach |
| `CadEdits.GreedyCanLose` | backend/scripts/import_cad_spots.py:131-144 | a witness for EditLostIff: serving edits in turn loses one that another assignment would keep |
| `CadEdits.EditLostIff` | backend/scripts/import_cad_spots.py:131-144 | an edit is lost if and only if earlier edits took every spot within its reach |
| `CadEdits.UnrenamedStatusIff` | backend/scripts/import_cad_spots.py:121-144 | on a spot that was not renamed and that no renamed edit can reach, the operator's status survives if and only if it is the file's, or free where the file gives none |
| `CadEdits.RenamedSurvivesIff` | backend/scripts/import_cad_spots.py:121-144 | a renamed spot whose reach no other renamed one shares survives, with its valid status, if and only if the file has a spot within 0.6 of it |
| `CadEdits.StatusNotKept` | backend/scripts/import_cad_spots.py:43-47 | a witness for UnrenamedStatusIff: an occupied spot that was not renamed is free after a refresh that keeps edits |

## Left out

- BreakTableCalendar.G2dCounts: dates before 1 March -100100 and march years past 5 * 10^12, where quotients turn negative or doubles stop being exact, are not covered.
- BreakTableCalendar.YearLength: the admissible table lies between the years -621 and 5000000, inside the 32-bit range of `g2d`; years before the first break are not covered.
- RulesEngine.EvaluateConditions: the evaluation of a single condition is an arbitrary function of the request, so this and every result about rules hold for all evaluators, and none says anything about operators and fields.
- OfflineProtocol.OfflineProtocolSafe: assumes that an event that raises on the server leaves the tables as they were or as its completed commit left them. `sync_offline` (backend/app/modules/access_control/router.py:386-405) does not see to that: it catches the exception and goes on with the same session without a rollback, so what such an event has written and not committed could reach the commit of a later event.
- EarlyYears.EarlyGregorianRoundTripIff: days before 21 March 621, where the source's remainders turn negative, are not covered.
- OfflineSnapshot.OfflineEntrySound: the snapshot does not carry start, weekdays and hours of a permit, so an entry opened offline can still be one the server would refer to an operator for these.
- PlateNormalization.NormalizePlate: case mapping of letters outside ASCII and digit scripts other than ASCII, Persian and Arabic are not modelled; the mode is given, not read from the settings.
- CadImport.CadTable.RestoreEdits: distances are compared by their squares over the reals, without rounding; the lemmas about restoration hold for the rows in any order, the method takes them in table order.
- Tariffs, amounts, settlement and payment status: only whether the unpaid-exit policy blocks an exit enters the gate's decision.
- Warnings, event types, display data and recognition details of the gate's answer.
- The recognition table, except that writing to it can fail; the capture envelope, except its verdict.
- Registration of vehicles, assignments of spaces, restrictions and capacity settings are fixed during a run or given with each request.
- Lost updates of a permit's used entries under concurrency, and a crash of the agent between a failed call and queueing: the code promises nothing there.
- `Date`, time zones and locale formatting: civil dates and times only.
- HTTP, authentication, notifications, cameras, recognition of plates in images, and the pages of the user interface.
