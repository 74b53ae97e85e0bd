# Bunk calculator

A Dafny model of the bunk-feasibility engine of the attendance helper
(`server/bunkCalculator.js`). It has two parts:

- **Calendar projection** (`calculateRemainingClasses`): from today (or
  tomorrow, from 17:00 on) through the semester end date, inclusive, add up
  the timetable's class count for each day's weekday. Sundays, second and
  fourth Saturdays (a Saturday on day 8-14 or 22-28 of its month) and listed
  holidays add nothing.
- **Feasibility** (`calculateBunksAndReachability`, `simulateBunk`): try
  every skip count `b` from 0 to the remaining classes `R` and keep the
  last one whose final percentage `100 * (A + R - b) / (T + R)` is still at
  or above the target. From 5 on, two are taken off as a safety margin. The
  target is reachable when attending every remaining class meets it. The
  simulation reports the percentage for one given skip count, attending
  none of the remaining classes once the count reaches `R`.

Two modules:

- `Calendar` (`calendar.dfy`) stands in for JavaScript's `Date`. A day is
  an ordinal, the number of days since 1970-01-01. The weekday is numbered
  as `getDay` numbers it. The day of the month comes from a proleptic
  Gregorian conversion, and the model proves that this conversion is
  one-to-one and in range. `nextDate`, `isSecondOrFourthSaturday` and
  `isHoliday` are functions of a day.
- `BunkCalculator` (`bunk_calculator.dfy`) holds the two loops of the
  source as methods. `CalculateRemainingClasses` walks the days and
  `CalculateBunksAndReachability` runs the skip-count search. Each is proved
  against a specification function (`Remaining`, and `RawBunkable` with
  `SafetyMargin`). The lemmas about those functions state what the source
  promises: the filtered sum, monotonicity, the largest-feasible
  characterisation, a closed form, reachability and safety. `simulateBunk`
  is the function `SimulateBunk`.

The inputs the source reads from its environment are parameters here: the
current day and hour (`new Date()`, `getHours()`), the semester end as a
day, and the holidays as a list of days. Percentages are exact `real`
numbers. The target may be a decimal, as it may be in the source.

Three choices follow the code closely:

- `reachable` compares the unrounded best-case percentage with the target
  (server/bunkCalculator.js:69). The two-decimal string of line 71 is for
  display only and is not modelled.
- The code checks neither the target's range nor a zero total. The model
  adds no range check either. It requires `pastTotal + remainingClasses > 0`
  where the code would divide by zero.
- Counts are integers of either sign, because the code never checks signs.
  A negative remaining count makes the search loop run zero times.

## Model

| member | source | states |
|---|---|---|
| Calendar.Weekday | server/bunkCalculator.js:37 | `getDay`: every day has a weekday 0 (Sunday) to 6 (Saturday) |
| Calendar.WeekdayPeriodic | server/bunkCalculator.js:37 | the weekday repeats every 7 days |
| Calendar.NextDate | server/bunkCalculator.js:3-7 | `nextDate` gives a later day whose weekday is the next one, Saturday wrapping to Sunday |
| Calendar.DayOfMonth | server/bunkCalculator.js:11 | `getDate` always gives a day of the month from 1 to 31 |
| Calendar.CivilRoundTrip | server/bunkCalculator.js:11 | the calendar date of every day has month 1..12 and day 1..31, and converts back to that same day, so no two days share a date |
| Calendar.SecondOrFourthSaturdayIsNthOccurrence | server/bunkCalculator.js:9-13 | `isSecondOrFourthSaturday` holds exactly for Saturdays that are the 2nd or 4th Saturday of their month, and for no other day |
| Calendar.SampleSecondAndFourthSaturdays | server/bunkCalculator.js:9-13 | the Saturdays 2025-11-08 and 2025-11-22 are picked out |
| Calendar.SampleOtherSaturdays | server/bunkCalculator.js:9-13 | the 1st, 3rd and 5th Saturdays of November 2025 and the Sunday 2025-11-09 are not picked out |
| Calendar.SampleMonday | server/bunkCalculator.js:37 | 2025-11-24 is day 20416, a Monday, and converts back to that date |
| Calendar.SampleLeapDay | server/bunkCalculator.js:3-7 | the day after 2024-02-29 is 2024-03-01 |
| BunkCalculator.CalculateRemainingClasses | server/bunkCalculator.js:20-49 | the start date is the day after today iff the hour is 17 or later, and today otherwise; the count is the projection `Remaining` from the start date through the semester end inclusive; it is 0 when the start is after the end |
| BunkCalculator.ExcludedDayContributesZero | server/bunkCalculator.js:38-44 | a Sunday, a 2nd/4th Saturday or a holiday adds 0 whatever the timetable says; any other day adds its weekday's entry, 0 if missing |
| BunkCalculator.RemainingIsFilteredSum | server/bunkCalculator.js:34-47 | the remaining classes equal the timetable summed over the non-excluded days from start through end |
| BunkCalculator.RemainingSplits | server/bunkCalculator.js:34-47 | the count over a stretch of days is the sum of the counts over its two consecutive parts |
| BunkCalculator.HolidaysOutsideIgnored | server/bunkCalculator.js:15-18 | holidays outside the projected stretch do not change the count |
| BunkCalculator.MoreHolidaysFewerClasses | server/bunkCalculator.js:38-44 | with no negative timetable entry, the count is never negative and adding holidays never raises it |
| BunkCalculator.ExampleWorkingWeek | server/bunkCalculator.js:34-47 | one class a day Monday to Saturday, Monday 2025-11-24 to Friday 2025-11-28: 5 classes |
| BunkCalculator.LargestMeetingUpTo | server/bunkCalculator.js:52-60 | the search result up to `hi` is in 0..hi, meets the target unless it is 0, and no larger count up to `hi` meets it |
| BunkCalculator.CalculateBunksAndReachability | server/bunkCalculator.js:51-73 | `bunkable` is the safety margin applied to the search result, lies in 0..R; `maxPossibleAttendance` is the best-case percentage; `reachable` iff that percentage is at least the target |
| BunkCalculator.SafetyMargin | server/bunkCalculator.js:62 | the margin takes off exactly 2 from 5 on, leaves the result unchanged iff it is below 5, and never makes a non-negative result negative or larger |
| BunkCalculator.SafetyMarginThreshold | server/bunkCalculator.js:62 | a raw result of 5 becomes 3; one of 4 stays 4 |
| BunkCalculator.FinalPercentNonIncreasing | server/bunkCalculator.js:54-59 | skipping more never raises the final percentage |
| BunkCalculator.MeetsIffCrossMultiplied | server/bunkCalculator.js:58-59 | a skip count meets the target iff `100 * (A + R - b) >= P * (T + R)` |
| BunkCalculator.MeetsDownwardClosed | server/bunkCalculator.js:54-60 | any smaller skip count than one that meets the target meets it too |
| BunkCalculator.RawBunkableIsLargest | server/bunkCalculator.js:52-60 | the raw result is in 0..R, no larger count in range meets the target, every count up to it meets it when it does, and it is 0 with no count in 0..R meeting the target when it does not |
| BunkCalculator.RawBunkableClosedForm | server/bunkCalculator.js:52-60 | the raw result equals `min(R, floor(A + R - P * (T + R) / 100))`, or 0 when R or that budget is negative |
| BunkCalculator.ReachableIffNoSkipMeets | server/bunkCalculator.js:64-69 | the target is reachable iff skipping nothing meets it |
| BunkCalculator.UnreachableMeansNoBunks | server/bunkCalculator.js:52-69 | an unreachable target gives a raw result of 0 and a returned `bunkable` of 0 |
| BunkCalculator.BunkableIsSafe | server/bunkCalculator.js:52-69 | when the target is reachable, skipping the returned `bunkable` classes still meets it |
| BunkCalculator.NoRemainingClasses | server/bunkCalculator.js:51-73 | with no remaining classes, `bunkable` is 0 and the best case is the current percentage |
| BunkCalculator.ExampleSeventyFivePercent | server/bunkCalculator.js:51-73 | 60 of 80 attended, 5 left, target 75: best case 1300/17 (76.47%), reachable, raw result 1, `bunkable` 1 |
| Calendar.IsSecondOrFourthSaturday | server/bunkCalculator.js:9-13 | `isSecondOrFourthSaturday`: it picks out only Saturdays, only on days 8 to 28 of the month, and never a day that is not a Saturday |
| Calendar.IsHoliday | server/bunkCalculator.js:15-18 | `isHoliday`, the `holidays.includes` test: a day is a holiday iff some entry of the list equals it; an empty list has none |
| BunkCalculator.ClassesOn | server/bunkCalculator.js:43 | the `timetable[name]` lookup with its fallback to 0: a weekday missing from the timetable gives 0, and with no negative entry the count is never negative |
| BunkCalculator.IsExcluded | server/bunkCalculator.js:38-42 | the skip condition: a day is skipped iff it is a Sunday, the 2nd or 4th occurrence of Saturday in its month, or a listed holiday |
| BunkCalculator.Contribution | server/bunkCalculator.js:37-44 | what one loop step adds: only a Monday to Saturday that is neither a holiday nor a 2nd/4th Saturday adds anything, and with no negative entry it adds nothing negative |
| BunkCalculator.MaxPossible | server/bunkCalculator.js:64-65 | `maxPossible`: the percentage for skipping nothing, and no non-negative skip count gives more |
| BunkCalculator.SimulateBunk | server/bunkCalculator.js:75-79 | `simulateBunk`: for a count up to R, the percentage the search evaluates for that count; from R on, the percentage with none of the remaining classes attended |
| BunkCalculator.SimulationMatchesSearch | server/bunkCalculator.js:75-79 | for a count in 0..R the simulation gives the percentage the search evaluates for that count |
| BunkCalculator.SimulationNeverExceedsBest | server/bunkCalculator.js:75-79 | simulating a non-negative skip count never beats the best-case percentage |
| BunkCalculator.SimulatedAdviceMeetsTarget | server/bunkCalculator.js:75-79 | simulating the returned `bunkable` meets a reachable target |
| BunkCalculator.SimulationMonotone | server/bunkCalculator.js:75-79 | skipping more never raises the simulated percentage, and every count from R on gives the same value |
| BunkCalculator.ExampleSimulation | server/bunkCalculator.js:75-79 | 60 of 80 attended, 5 left, skipping 2: 1260/17 (74.12%) |

## Left out

- `toFixed(2)`: the model keeps the exact percentage (`maxPossibleAttendance`, `SimulateBunk`) and does not model rounding it to a two-decimal string.
- Floating point: percentages are exact reals, so the model can disagree with the code at the boundary of `>=`. With 57 of 100 attended, no classes left and a target of 57, the code computes `(57 / 100) * 100` in doubles as 56.99999999999999 and finds the target unreachable; the model finds it reachable.
- CalculateBunksAndReachability: requires `pastTotal + remainingClasses > 0`. The code divides by that sum unchecked: a sum of 0 would yield NaN or Infinity. The requires also excludes a negative sum, where the code computes a finite percentage; such a sum needs a negative count, which the inputs do not produce (the totals are `parseInt` of scraped counts at server/attendance.js:74-81, and the input fields have `min="0"`).
- SimulateBunk: requires `pastTotal + remainingClasses > 0`, for the same reason. Its `count` is a whole number; the code also accepts a fractional count from the number field (`Number(simulate)` in the client), which the model does not cover.
- `neededToReach`: a constant placeholder string with no behaviour.
- JavaScript `Date`: the model does not parse the semester-end string and does not read the clock; today's day and hour are parameters. The time of day that `temp` and the end bound carry is not modelled, so the loop bound compares whole days.
- `isHoliday` matches the UTC ISO date string of a local date. The model compares days directly and does not model the time-zone shift or the string format.
- `timetable[name] || 0` is modelled for integer entries: a missing entry counts as 0. Non-numeric entries are not modelled.
- Calendar: the model proves day-to-date-to-day round trips and that the day of the month is 1..31. It does not prove the converse (that every valid calendar date is reached), nor that the day of the month never exceeds its month's length; `getDate` at month ends rests on the conversion being the standard algorithm and on the sample dates.
- `server/server.js` (HTTP routing, storage, the `simulate > 0` gate), `server/attendance.js` (scraping the attendance site) and `client/src/App.jsx` (the user interface) are not part of this model: they are I/O around the engine.
