# Barber availability engine, modelled in Dafny

This project models the booking engine of a multi-tenant barbershop CRM. It verifies the model's properties with Dafny.

The engine is `lib/availability.ts`. It answers one question: can a barber take a request that starts at a wall-clock time on a given date and lasts a given number of minutes? A barber passes only if three gates pass:

1. One of the barber's weekly schedule rules for that weekday holds the whole request, counted in minutes of the day.
2. No confirmed or tentative appointment of the barber overlaps the request.
3. No time-off of the barber overlaps or touches the request.

On top of that check the engine has three entry points:

- `checkAvailability` picks the first candidate barber who passes. When nobody passes, it offers up to three other times on the same day.
- `findAlternatives` probes a fixed half-hourly grid from 9:00 to 19:00 to find those times.
- `autoAssignBarber` picks a barber for a booking whose UTC interval is already known.

The helpers from `lib/utils.ts` that the engine relies on are modelled too: `parseTimeString` and `formatTimeString`, `formatDuration` and `formatPhoneNumber`.

Files:

- `wrappers.dfy`: the `Option` type.
- `utils.dfy`, module `Utils`: `parseInt` as the engine uses it, `split`, and the four string helpers.
  - `parseTimeString` inverts `formatTimeString` on every valid time of day.
  - `formatDuration` is checked against an independent reader that accepts only the labels it prints, with round trips in both directions.
  - `formatPhoneNumber` is characterised by lemmas: it keeps the digits in order, fixes the "(AAA) BBB-CCCC" layout for ten digits, returns other input unchanged, and is idempotent.
- `store.dfy`, module `Store`: the stored entities and the database reads the engine makes, as filters over an in-memory `Snapshot`.
- `availability.dfy`, module `Availability`: the three gates, `isBarberAvailable` with its rule loop, and the first-fit choice among candidates. The probing loops of the three entry points share that first-fit method, `SelectBarber`.
- `alternatives.dfy`, module `Alternatives`: the slot grid and its nested generating loops, and the `findAlternatives` search loop.
- `assignment.dfy`, module `Assignment`: `checkAvailability` and `autoAssignBarber`.

Modelling choices:

- **Instants.** UTC instants are integer minutes.
- **Calendar date and timezone.** These become a `LocalDay`: the weekday `getDay()` returns (0 is Sunday) and a function from a wall-clock hour and minute to a UTC instant. That function stands for `fromZonedTime` and is left arbitrary.
- **Unparsable times.** An hour or minute that `parseInt` reads as `NaN` makes `parseTimeString` return `None`. A schedule rule with such a time holds no request. A request with such a time fails every candidate's schedule gate, so the answer falls through to the alternatives, as in the code.
- **Methods and specifications.** Every loop of the source is a method proved equal to a specification function. The lemmas about the answer are stated over those functions.

## Model

| member | source | states |
|---|---|---|
| Store.Filter | lib/availability.ts:97-99 | a query keeps only rows that satisfy its condition, keeps every such row, and invents none |
| Store.ActiveBarberIds | lib/availability.ts:44-47 | an id is a candidate exactly when some barber with that id is active and belongs to the tenant |
| Store.FindActiveBarber | lib/availability.ts:38-42 | the lookup finds a barber exactly when one with that id is active in the tenant, and what it returns is such a barber |
| Store.FindService | lib/availability.ts:227-231 | the lookup finds a service exactly when one with that id exists, and returns it |
| Utils.NatToString | lib/utils.ts:49 | `toString` of a non-negative number is a non-empty digit string worth that number; "0" is the only result that starts with a zero |
| Utils.ParseInt | lib/utils.ts:34-35 | no contract of its own: `ParseIntNaN`, `ParseIntSign`, `ParseIntDigits` and `ParseIntRoundTrip` state what `parseInt` returns |
| Utils.ParseIntNaN | lib/utils.ts:34-35 | `parseInt` gives `NaN` (`None`) exactly when no digit follows the optional sign |
| Utils.ParseIntSign | lib/utils.ts:34-35 | a leading '+' is dropped and a leading '-' negates the number that follows |
| Utils.DigitRun | lib/utils.ts:34-35 | the digit run `parseInt` reads is all digits and stops at the first non-digit |
| Utils.ParseIntDigits | lib/utils.ts:34-35 | `parseInt` of a digit string is its decimal value |
| Utils.IntToString | lib/utils.ts:16-19 | no contract of its own: `${n}` and `toString`; `ParseIntRoundTrip` states that `parseInt` reads it back, and `NatToString` states its digits |
| Utils.ParseIntRoundTrip | lib/utils.ts:34-35 | `parseInt` reads back every integer that `toString` prints |
| Utils.FirstField | lib/utils.ts:32-33 | the first field of `split` is never longer than the text; `FirstFieldPrefix` states which text it is |
| Utils.FirstFieldPrefix | lib/utils.ts:32-33 | the first field of `split` is the longest prefix without the separator |
| Utils.SecondField | lib/utils.ts:32-33 | the second field of `split` is missing exactly when the separator does not occur, and never contains it |
| Utils.SplitTwo | lib/utils.ts:32-33 | splitting `a + sep + b` gives back `a` and `b` when neither contains the separator |
| Utils.SplitMany | lib/utils.ts:32-33 | with more than two fields, `split` still gives the text before the first separator and the text between the first and second; the rest is dropped, as in "9:00 PM x" or "9:30:15" |
| Utils.ToUpper | lib/utils.ts:37 | upper-casing keeps the length, leaves no lower-case ASCII letter, and changes no other character; `ToUpperLetters` says what each letter becomes |
| Utils.ToUpperLetters | lib/utils.ts:37 | each lower-case ASCII letter becomes its capital, so "pm", "Pm" and "PM" all upper-case to "PM" |
| Utils.ApplyPeriod | lib/utils.ts:37-41 | no contract of its own: `ParseTimeWithPeriod`, `ParseTimeTwentyFour` and `ParseTimePeriodCase` state the 12-hour adjustment |
| Utils.ParseTimeString | lib/utils.ts:31-44 | no contract of its own: `ParseTimeWithPeriod`, `ParseTimeTwentyFour`, `ParseTimeMissingMinute`, `ParseTimePeriodCase`, `PaddedTwentyFourHour` and `TimeStringRoundTrip` state what it returns |
| Utils.ParseTimeFields | lib/utils.ts:33-41 | no contract of its own: the lemmas named for `ParseTimeString` state what it returns for the time and period fields |
| Utils.ParseTimeWithPeriod | lib/utils.ts:31-44 | "H:MM period": a PM hour other than 12 gains 12, 12 AM becomes 0, every other hour is taken as written, and the minute is the digits' value |
| Utils.ParseTimeTwentyFour | lib/utils.ts:31-44 | without a period the hour is taken as written |
| Utils.ParseTimeMissingMinute | lib/utils.ts:35 | a missing or empty minute part reads as minute 0 |
| Utils.ParseTimePeriodCase | lib/utils.ts:37-41 | the period is matched whatever its letter case |
| Utils.PaddedTwentyFourHour | lib/utils.ts:31-44 | zero-padded 24-hour text such as the stored rule times "09:00" and "17:00" reads back as the time it names |
| Utils.DisplayHour | lib/utils.ts:48 | the displayed hour of a valid hour lies between 1 and 12 |
| Utils.DisplayHourModTwelve | lib/utils.ts:48 | the displayed hour is the hour modulo 12, with 12 in place of 0 |
| Utils.PadTwo | lib/utils.ts:49 | `padStart(2, '0')` gives at least two characters, and exactly two for shorter text |
| Utils.PadTwoPads | lib/utils.ts:49 | padding puts only zeros in front and leaves the text itself at the end, unchanged |
| Utils.MinuteField | lib/utils.ts:49 | the minute is shown as exactly two digits worth the minute |
| Utils.FormatTimeString | lib/utils.ts:46-51 | no contract of its own: `FormatTimeStringShape`, `TimeStringRoundTrip` and `FormatTimeStringInjective` state what it prints |
| Utils.FormatTimeStringShape | lib/utils.ts:46-51 | a label is the display hour, a colon, two minute digits, a space, then AM before noon and PM from noon on |
| Utils.PeriodRestoresHour | lib/utils.ts:37-48 | applying the printed period to the display hour gives back the hour |
| Utils.TimeStringRoundTrip | lib/utils.ts:31-51 | `parseTimeString(formatTimeString(h, m))` is `(h, m)` for every valid time of day |
| Utils.FormatTimeStringInjective | lib/utils.ts:46-51 | two different valid times of day never print the same label |
| Utils.FormatDuration | lib/utils.ts:15-20 | no contract of its own: `FormatDurationRoundTrip` and `ReadDurationIsFormatted` together fix its label for every non-negative duration |
| Utils.ReadNatOfString | lib/utils.ts:16-19 | the reader's number syntax accepts every `toString` of a non-negative number, with its value |
| Utils.StringOfReadNat | lib/utils.ts:16-19 | the reader's number syntax accepts nothing else: accepted digits are exactly the `toString` of their value, so there are no leading zeros |
| Utils.ReadShortDuration | lib/utils.ts:16 | under an hour the label reads back as the minutes |
| Utils.ReadWholeHours | lib/utils.ts:17-19 | a whole number of hours, at least one, reads back as the minutes |
| Utils.ReadHoursAndMinutes | lib/utils.ts:17-19 | hours with a remainder read back as the minutes |
| Utils.FormatDurationRoundTrip | lib/utils.ts:15-20 | every non-negative duration label reads back, through the independent reader, as its minutes |
| Utils.ShortLabelIsFormatted | lib/utils.ts:16 | a label without an 'h' that the reader accepts is exactly the label of its minutes, so it is "<M>m" with M under 60 and no leading zero |
| Utils.HoursLabelIsFormatted | lib/utils.ts:17-19 | a label with an 'h' that the reader accepts is exactly the label of its minutes, so it is "<H>h" with H at least 1, or "<H>h <M>m" with M from 1 to 59 |
| Utils.ReadDurationIsFormatted | lib/utils.ts:15-20 | every label the reader accepts is exactly the label of the minutes it reads as, so with `FormatDurationRoundTrip` the reader is the exact inverse of `formatDuration` |
| Utils.KeepDigits | lib/utils.ts:23 | stripping non-digits leaves only digits and never lengthens the text; `KeepDigitsChar` and `KeepDigitsAppend` fix the exact result |
| Utils.KeepDigitsChar | lib/utils.ts:23 | a single character is kept exactly when it is a decimal digit |
| Utils.KeepDigitsAppend | lib/utils.ts:23 | stripping works piece by piece over a concatenation |
| Utils.FormatPhoneNumber | lib/utils.ts:22-29 | no contract of its own: `FormatPhoneKeepsDigits`, `FormatPhoneShape`, `FormatPhoneUnchanged` and `FormatPhoneIdempotent` state what it returns |
| Utils.FormatPhoneUnchanged | lib/utils.ts:28 | a number that does not strip to exactly ten digits is returned as given |
| Utils.FormatPhoneKeepsDigits | lib/utils.ts:22-29 | formatting keeps the number's digits and their order, whichever branch is taken |
| Utils.FormatPhoneIdempotent | lib/utils.ts:22-29 | formatting an already formatted number changes nothing |
| Utils.FormatPhoneShape | lib/utils.ts:24-26 | with exactly ten digits the result is "(AAA) BBB-CCCC" over those digits in order |
| Availability.ProbeAt | lib/availability.ts:27-33 | the UTC start is the date's conversion of the parsed hour and minute, the interval lasts exactly the duration, and the same hour, minute and weekday feed the schedule test |
| Availability.StartMin | lib/availability.ts:103 | no contract of its own: `ProbeAt` states that the request's minutes of the day come from the parsed hour and minute |
| Availability.EndMin | lib/availability.ts:104 | no contract of its own: `ProbeAt` states that the request's end in minutes of the day lies the duration after its start |
| Availability.RuleWindow | lib/availability.ts:108-111 | no contract of its own: `PaddedTwentyFourHour` states the window of the stored "HH:MM" times, and `PastClosingRefused` and `RulesForSchedule` state its use |
| Availability.WindowContains | lib/availability.ts:113 | no contract of its own: `AvailableMeans` and `AvailableWhen` state it as the rule window holding the whole request |
| Availability.WithinSchedule | lib/availability.ts:101-119 | no contract of its own: the schedule gate; `CheckSchedule`, `ScheduleGate` and `RulesForSchedule` state it |
| Availability.CheckSchedule | lib/availability.ts:97-119 | the rule loop with its early `break` says yes exactly when some rule of the barber for that weekday holds the whole request |
| Availability.ScheduleGate | lib/availability.ts:106-117 | the loop's test over the fetched rules agrees with the schedule gate |
| Availability.RulesForSchedule | lib/availability.ts:97-119 | the schedule gate holds exactly when some fetched rule's window contains the request |
| Availability.NoRulesNoSchedule | lib/availability.ts:101 | a weekday without rules means unavailable |
| Store.RulesFor | lib/availability.ts:97-99 | a rule is fetched exactly when it is the barber's and is for that weekday |
| Availability.Occupies | lib/availability.ts:125 | no contract of its own: `OnlyOccupyingStatusBlocks` states that other statuses never block |
| Availability.AppointmentConflicts | lib/availability.ts:123-137 | no contract of its own: `ThreeCasesAreOverlap` and `BackToBackAllowed` state what the three cases mean |
| Availability.TimeOffConflicts | lib/availability.ts:144-148 | no contract of its own: `TouchingTimeOffBlocks` and `AvailableMeans` state the inclusive condition |
| Availability.NoAppointmentConflict | lib/availability.ts:122-140 | no contract of its own: the appointment gate; `ConflictingAppointments`, `AppointmentGatePasses` and `ClearOfAppointments` state it |
| Availability.NoTimeOffConflict | lib/availability.ts:143-151 | no contract of its own: the time-off gate; `ConflictingTimeOffs`, `TimeOffGatePasses` and `TouchingTimeOffBlocks` state it |
| Availability.ConflictingAppointments | lib/availability.ts:122-140 | the appointment query is empty exactly when no row meets the three-case condition |
| Availability.ConflictingTimeOffs | lib/availability.ts:143-151 | the time-off query is empty exactly when no row meets the inclusive condition |
| Availability.Available | lib/availability.ts:87-154 | no contract of its own: `IsBarberAvailable` computes it, and `AvailableMeans` and `AvailableWhen` state it in both directions |
| Availability.IsBarberAvailable | lib/availability.ts:87-154 | the answer is true exactly when all three gates pass |
| Availability.ThreeCasesAreOverlap | lib/availability.ts:126-136 | for a positive-length request and appointment, the three cases together are exactly half-open overlap on a blocking appointment of the barber |
| Availability.BackToBackAllowed | lib/availability.ts:126-136 | for a request of positive length, an appointment ending when the request starts, or starting when it ends, does not block |
| Availability.OnlyOccupyingStatusBlocks | lib/availability.ts:125 | cancelled, no-show and completed appointments never block |
| Availability.TouchingTimeOffBlocks | lib/availability.ts:143-151 | a time-off that merely touches the request at either end makes the barber unavailable |
| Availability.AvailableMeans | lib/availability.ts:87-154 | an available barber has a rule window holding the request, no occupying appointment of the barber overlapping it (for every stored row), and no overlapping or touching time-off |
| Availability.AvailableWhen | lib/availability.ts:87-154 | conversely, those three conditions make the barber available |
| Availability.AppointmentGatePasses | lib/availability.ts:122-140 | for a positive-length request and well-formed appointments, no half-open overlap with an occupying appointment of the barber makes the appointment gate pass |
| Availability.TimeOffGatePasses | lib/availability.ts:143-151 | time-offs of the barber that lie strictly before or after the request let the time-off gate pass |
| Availability.ClearOfAppointments | lib/availability.ts:122-140 | when the appointment gate passes, no occupying appointment of the barber overlaps the request, whether or not the stored row is well-formed |
| Availability.ZeroLengthAtAppointmentStartRefused | lib/availability.ts:128 | a zero-length request starting exactly when an occupying appointment starts is refused, although the two do not overlap |
| Availability.ZeroLengthAtAppointmentEndRefused | lib/availability.ts:131 | a zero-length request at the instant an occupying appointment ends is refused, although the two do not overlap |
| Availability.PastClosingRefused | lib/availability.ts:103-119 | a request running past every rule's closing time is refused, so a partial fit never passes |
| Availability.BookingAvailableKeepsNoDoubleBooking | lib/availability.ts:122-140 | booking only what the check reports available never creates two overlapping blocking appointments for one barber |
| Availability.AppendKeepsNoDoubleBooking | lib/availability.ts:122-140 | adding a non-empty appointment that overlaps no occupying appointment of its barber keeps the timeline free of double bookings |
| Availability.FirstAvailableIndex | lib/availability.ts:52-70 | the chosen position is the first in list order at which the barber passes, and every earlier candidate fails |
| Availability.FirstAvailable | lib/availability.ts:52-70 | nobody is chosen exactly when no candidate passes |
| Availability.SelectBarber | lib/availability.ts:52-70 | the candidate loop with early return yields the first candidate that passes |
| Alternatives.Grid | lib/availability.ts:175-182 | the grid is 21 valid slots, 9:00 to 19:00 every 30 minutes, strictly increasing |
| Alternatives.GenerateSlots | lib/availability.ts:175-182 | the nested loops with the 19:00 `break` build exactly that grid |
| Alternatives.SlotFree | lib/availability.ts:192-209 | no contract of its own: `NoCandidateNoFreeSlot`, `AlternativeIsBookable` and `FewAlternativesAreAll` state what a free slot is |
| Alternatives.AlternativeSlots | lib/availability.ts:184-211 | at most three slots, in grid order, each from the grid and free; when there are three, every earlier free slot is among them |
| Alternatives.FirstFreeSlots | lib/availability.ts:184-211 | the first free slots in grid order are free grid slots, and every free slot up to the last of them is among them |
| Alternatives.Label | lib/availability.ts:204 | no contract of its own: `DistinctLabels` and `RefusedTimeNotOffered` state its properties, through those of `FormatTimeString` |
| Alternatives.DistinctLabels | lib/availability.ts:204-207 | labels of valid slots in increasing order are pairwise different |
| Alternatives.LaterLabelIsNew | lib/availability.ts:205 | a later slot's label is never among the labels already held, so the duplicate test never fires |
| Alternatives.AlternativeTimes | lib/availability.ts:184-211 | at most three labels, no two alike |
| Alternatives.OfferedSlotIsFree | lib/availability.ts:192-208 | every label offered names a grid slot at which some candidate passes |
| Alternatives.FreeSlotOffered | lib/availability.ts:184-211 | with fewer than three labels, every free grid slot was offered |
| Alternatives.EarlierFreeSlotOffered | lib/availability.ts:184-211 | a free slot before an offered one is offered too |
| Alternatives.OfferedInGridOrder | lib/availability.ts:184-211 | labels come in grid order |
| Alternatives.NothingFreeNothingOffered | lib/availability.ts:184-211 | with no free slot, nothing is offered |
| Alternatives.NoCandidateNoFreeSlot | lib/availability.ts:192-209 | with no candidates, no slot is free |
| Alternatives.RefusedTimeNotOffered | lib/availability.ts:184-211 | a valid time at which nobody is free is never offered |
| Alternatives.SearchStep | lib/availability.ts:188-208 | one slot of the search appends its label, which is new, exactly when the slot is free |
| Alternatives.SearchDone | lib/availability.ts:185 | stopping at three labels, or at the end of the grid, leaves exactly the specified labels |
| Alternatives.FindAlternatives | lib/availability.ts:156-214 | the search loop returns exactly the labels of the first three free grid slots |
| Assignment.NamesBarber | lib/availability.ts:38 | no contract of its own: `CandidateIds` and `NamedBarberOnly` state what naming a barber does |
| Assignment.CandidateIds | lib/availability.ts:35-49 | a non-empty named barber gives that barber alone when active in the tenant, and nobody otherwise; without one, the candidates are exactly the tenant's active barbers |
| Assignment.AvailabilityOf | lib/availability.ts:21-85 | no contract of its own: `AnswerShape`, `AssignedBarberIsFirstAvailable`, `RefusalMeansNobodyFree`, `UnknownBarberRefused`, `AlternativeIsBookable`, `FewAlternativesAreAll` and `RefusedTimeNotAlternative` state the answer |
| Assignment.CheckAvailability | lib/availability.ts:21-85 | the procedure returns exactly the specified answer |
| Assignment.NoProbeForUnparsedTime | lib/availability.ts:27-33 | a time that does not parse leads to no barber |
| Assignment.AnswerShape | lib/availability.ts:63-84 | available exactly when a barber is named, then with no alternatives; never more than three alternatives |
| Assignment.AssignedBarberIsFirstAvailable | lib/availability.ts:52-70 | the barber returned is a candidate who passes at the requested time, and every earlier candidate fails |
| Assignment.RefusalMeansNobodyFree | lib/availability.ts:52-84 | when the time parses and the answer is no, no candidate passes |
| Assignment.NamedBarberOnly | lib/availability.ts:38-43 | naming a barber confines the answer to that barber |
| Assignment.UnknownBarberRefused | lib/availability.ts:38-84 | naming a barber who is not active in the tenant gives unavailable, no barber and no alternatives |
| Assignment.AlternativeIsBookable | lib/availability.ts:73-84 | every alternative is the label of a grid time at which some candidate passes |
| Assignment.FewAlternativesAreAll | lib/availability.ts:73-84 | fewer than three alternatives means every bookable grid time is among them |
| Assignment.RefusedTimeNotAlternative | lib/availability.ts:73-84 | the time just refused is never offered back |
| Assignment.AutoAssignment | lib/availability.ts:216-257 | no contract of its own: `AutoAssignedIsAvailable`, `AutoAssignNoneMeans` and `CheckAgreesWithAutoAssign` state the choice |
| Assignment.AutoAssignBarber | lib/availability.ts:216-257 | the procedure returns exactly the specified choice |
| Assignment.AutoAssignedIsAvailable | lib/availability.ts:227-254 | an assigned barber is an active barber of the tenant who passes, for an existing service |
| Assignment.AutoAssignNoneMeans | lib/availability.ts:231-256 | nobody is assigned only for an unknown service, or when no active barber of the tenant passes |
| Assignment.CheckAgreesWithAutoAssign | lib/availability.ts:52-70 | without a named barber, `checkAvailability` picks the barber `autoAssignBarber` would, for any existing service |

## Left out

- Database access becomes filters over an immutable `Snapshot`. Rows come back in snapshot order, which stands for the database's order. Since everything is a value, none of the functions can change rules, appointments or time-off.
- Timezone and date handling (`parseISO`, `setHours`, `fromZonedTime`, `getDay`, daylight saving) is abstract: `LocalDay` carries the weekday and an arbitrary wall-clock-to-UTC function.
- The alternative label is modelled as `formatTimeString(slot.hour, slot.minute)`. This assumes that `format(localDateTime, 'h:mm a', { timeZone })` prints the slot's wall-clock time, because the `timeZone` option only affects zone tokens.
- The `scheduleRules` query at the top of `findAlternatives` (lib/availability.ts:167-173) is not modelled: its result is never used.
- Utils.ParseInt: leading whitespace, the `0x` hexadecimal prefix that `parseInt` accepts without a radix, and digit runs too long for a double's precision are not modelled.
- Utils.ToUpper: covers ASCII letters only; other scripts' case mappings are not modelled.
- Utils.KeepDigits: its own contract states only that the result is digits and no longer than the input. The exact result, every digit kept in order, is stated piece by piece instead: `KeepDigitsChar` for one character and `KeepDigitsAppend` for a concatenation together determine it on every string.
- JavaScript numbers are modelled as unbounded integers. Fractional or `NaN` durations and minutes, and floating-point rounding, are not modelled.
- Utils.FormatDurationRoundTrip: stated for non-negative durations; a negative duration prints with a minus sign that the reference reader does not accept.
- Availability.AvailableWhen: assumes every stored appointment ends after it starts, and that the request has positive length. For an empty or inverted appointment the three-case condition is not half-open overlap; `ThreeCasesAreOverlap` gives the exact condition only for well-formed rows. A zero-length request, which the code accepts, is refused when it lies exactly at an occupying appointment's start or at its end, though no half-open overlap exists (`ZeroLengthAtAppointmentStartRefused`, `ZeroLengthAtAppointmentEndRefused`). Back-to-back bookings are allowed only for requests of positive length.
- Time-off bounds: the code compares inclusively (lib/availability.ts:146-147), so a time-off that only touches the request blocks it. The model follows the code.
- `formatCurrency` and `cn` in lib/utils.ts are not part of this model: they use `Intl` number formatting and CSS class merging.
- The HTTP routes that call the engine, authentication, the event stream and the UI are not part of this model. In particular, the booking route creates an appointment for a named barber without calling the engine.
