# Lunar birthday reminder: lunar-to-Gregorian conversion core

This project is a Dafny model of the date-conversion core of a lunar-birthday
reminder. It covers four things:

- **Tables.** Two read-only tables are keyed by lunar year, 2024 to 2053. One
  gives the Gregorian date of each lunar New Year. The other gives each year's
  month lengths and its leap month, if any.
- **Converter.** `lunarToGregorian` turns a lunar date (year, month, day,
  optional leap flag) into a Gregorian date. A failed check returns nothing.
- **Projection.** `getMultiYearDates` converts one lunar (month, day, leap)
  anniversary in every table year from the current year on. It keeps only
  the conversions that succeed.
- **Record types.** `LunarDate` and `GregorianDate`.

Modules, one per file:

- `Wrappers`: `Option` and `Result`.
- `Types`: the two date records. `isLeapMonth` is optional; only an explicit
  `true` counts as leap.
- `CivilCalendar`: the proleptic Gregorian calendar. A date's day number
  counts days since 1970-01-01. `AddDays` walks forward month by month, which
  models the UTC `Date` arithmetic the converter relies on.
- `LunarTables`: both tables, copied entry for entry, and facts about their
  contents.
- `LunarApi`: the converter, its summing loop, the projection, and their
  properties.
- `LunarApiExamples`: concrete conversions against the shipped tables.

The converter returns a `Result`. Its failure kind is one of three:
`UnsupportedYear`, `InvalidLeapMonth` or `InvalidDay`. The kind names the
message the source logs before it returns `null`.

A success carries a `Converted` value: a real date, or `NaNDate`. `NaNDate`
stands for the object of `NaN` fields that JavaScript builds in two cases:

- The day offset is not a number. This happens when the sum reads past the
  end of the month list.
- The offset is a number, but the resulting time value lies more than
  100,000,000 days from the epoch. `setUTCDate` stores such a time value as
  `NaN`.

The projection takes the current year as a parameter instead of reading the
clock.

## Where the intended behaviour and the code differ

The model follows the code in each of these cases.

- **Months after the leap month are not shifted.** The month index is
  `month - 1`, plus 1 only for the leap month itself. So the ordinary month
  after a leap month reads the leap month's slot: in 2024, month 5 and leap
  month 4 give the same dates (`LeapSlotSharedWithNextMonth`, `LeapFourth2024`).
  As a result, ordinary month 12 of a leap year reads slot 11
  (`LastMonth2024`).
- **The 2026 entry.** It names month 12 as leap but lists only twelve lengths.
  The leap twelfth month therefore reads a missing slot: it starts right after
  the twelve listed months, and any day from 1 up passes the day check
  (`YearsWellFormedExcept2026`, `LeapTwelfth2026`, `LeapTwelfth2026Unbounded`).
- **No month range check.** A comparison with a missing length is false, so
  month 0 and the month just past the list accept any day of 1 or more
  (`MonthZero`, `MonthThirteen`). Any later month adds a missing length and
  gives the `NaN` date rather than `null` (`MonthFourteen`).
- **Gregorian years can repeat.** The projection keeps its lunar years in
  strictly ascending order. The Gregorian year of the result need not ascend:
  the twelfth month of 2024 and the twelfth month of 2025 both fall in 2025
  (`GregorianYearRepeats`).
- **The year message.** The rejection message speaks of 1940 to 2053. The
  tables, and so the year validation, cover 2024 to 2053 (`TableYears`).

The repository's test file expects many dates that the code does not
produce from its tables. Each case below is stated as a lemma about what the
code computes:

- lunar 2024-12-29 gives 2025-01-27, not 2025-01-28 (`LastMonth2024`);
- leap 2024-4-1 gives 2024-06-07, not 2024-05-09 (`LeapFourth2024`);
- leap 2024-4-29 gives 2024-07-05, not 2024-06-06 (`LeapFourthLastDay2024`);
- lunar 2025-6-15 gives 2025-07-10, not 2025-07-20 (`SixthMonth2025`);
- leap 2028-6-15 gives 2028-08-04, not 2028-07-28 (`LeapSixth2028`);
- leap 2033-3-30 is rejected, because that slot has 29 days (`Failures`);
- leap 2035-8-1 gives 2035-10-02, not 2035-09-15 (`LeapEighth2035`);
- lunar 2025-8-15 gives 2025-09-07, not 2025-10-06 (`MidAutumn2025`);
- lunar 2026-8-15 gives 2026-09-26, not 2026-09-25 (`MidAutumn2026`);
- the leap (4, 15) projection gives 2024-06-21 for 2024, not 2024-05-23
  (`LeapFourth2024`);
- the (8, 15) projection includes 2031-08-31, outside September and October
  (`MidAutumnInAugust`).

## Model

| member | source | states |
|---|---|---|
| CivilCalendar.DaysInMonth | src/lib/lunar-api.ts:191-197 | a Gregorian month has 28 to 31 days, and 29 exactly for February of a leap year |
| CivilCalendar.FirstOfNextMonth | src/lib/lunar-api.ts:191-192 | rolling past the end of a month lands on day 1 of the next month, later by the days left in the month plus one |
| CivilCalendar.AddDays | src/lib/lunar-api.ts:191-197 | adding n days with month and year rollover gives a valid date whose day number is exactly n more |
| CivilCalendar.YearStep | src/lib/lunar-api.ts:191-197 | consecutive years start 365 or 366 days apart, as the leap-year rule says |
| CivilCalendar.DayNumberOrder | src/lib/lunar-api.ts:194-198 | a date earlier in (year, month, day) order has a smaller day number |
| CivilCalendar.DayNumberInjective | src/lib/lunar-api.ts:194-198 | two valid dates have the same day number exactly when they are the same date, so the returned fields are determined by the offset |
| CivilCalendar.AddDaysRoundTrip | src/lib/lunar-api.ts:191-197 | from any valid date, adding the day-number difference reaches any later valid date |
| CivilCalendar.AddDaysSucc | src/lib/lunar-api.ts:191-192 | adding n+1 days is adding n days and then one more |
| LunarTables.TableYears | src/lib/lunar-api.ts:4-35 | `NewYearTable` and `YearDataTable` each have an entry for a year exactly when it lies in 2024..2053 |
| LunarTables.AnchorsValid | src/lib/lunar-api.ts:4-35 | every `NewYearTable` anchor is a real date in January or February of its own year |
| LunarTables.AnchorDayNumberBounds | src/lib/lunar-api.ts:179-181 | every anchor lies between the epoch and the end of 2053 |
| LunarTables.YearsLoose | src/lib/lunar-api.ts:38-147 | every `YearDataTable` entry has lengths of 29 or 30, a leap ordinal in 1..12, and 12 or 13 lengths |
| LunarTables.YearsWellFormedExcept2026 | src/lib/lunar-api.ts:38-147 | every entry has a 13th length exactly when it names a leap month, except 2026, which breaks that rule |
| LunarApi.PrefixSumIsSum | src/lib/lunar-api.ts:184-187 | the loop's running total over the first k slots equals the front-to-back sum of those slots |
| LunarApi.SumSnoc | src/lib/lunar-api.ts:185-186 | appending one slot adds its length to the sum |
| LunarApi.PrefixSumBounds | src/lib/lunar-api.ts:38-41 | with lengths of 29 or 30, the first k slots span between 29k and 30k days |
| LunarApi.DayCheckAccepts | src/lib/lunar-api.ts:173 | `MonthLength` and `DayRejected` together: a day passes the day check exactly when it is at least 1 and, if the slot exists, at most its length; a missing slot bounds the day only from below |
| LunarApi.DaysToAdd | src/lib/lunar-api.ts:184-188 | the offset is a number exactly when the loop stays within the list (otherwise NaN), and is non-negative for a positive day |
| LunarApi.DaysToAddLoop | src/lib/lunar-api.ts:184-188 | the summing loop as written, with NaN absorbing once a missing slot is added, computes the offset `DaysToAdd` defines |
| LunarApi.Shift | src/lib/lunar-api.ts:191-192 | the anchor moved by the offset is a real date exactly when it stays within the Date range, and then it is that many days later |
| LunarApi.LunarToGregorian | src/lib/lunar-api.ts:153-203 | the three failures in source order, each exactly when its check fires; success only for a table year and a day of at least 1; a real date lies the slots before the index plus day-1 days after the anchor; NaN past the list or out of range |
| LunarApi.LeapSlotSharedWithNextMonth | src/lib/lunar-api.ts:172 | `MonthIndex` as written: in a year whose leap month is k, ordinary month k+1 and leap month k read the same slot and convert alike |
| LunarApi.MissingLeapFlagIsOrdinary | src/lib/types.ts:1-6 | `LunarDate`'s optional `isLeapMonth`: an absent flag converts exactly as an explicit `false` |
| LunarApi.NewYearIsAnchor | src/lib/lunar-api.ts:179-192 | day 1 of month 1 (not leap) converts to the table's New Year date, in the same year |
| LunarApi.ConsecutiveDays | src/lib/lunar-api.ts:184-197 | two consecutive days of one lunar month that both convert give consecutive Gregorian days |
| LunarApi.CandidateYears | src/lib/lunar-api.ts:211-214 | the candidate list has one entry per table year from the current year on, counting up by one from the first |
| LunarApi.CandidateYearsAreTableYears | src/lib/lunar-api.ts:211-214 | the candidate years are exactly the table's years at or after the current year, strictly ascending |
| LunarApi.Project | src/lib/lunar-api.ts:216-226 | the map-then-filter never returns more results than years |
| LunarApi.ProjectMembers | src/lib/lunar-api.ts:216-226 | every result of the map-then-filter is some input year's conversion, and every input year that converts contributes its result |
| LunarApi.MultiYearDates | src/lib/lunar-api.ts:208-227 | each date is the conversion of a table year from the current year on, every such year that converts contributes its date, and there is at most one date per candidate year |
| LunarApi.ProjectKeepsSuccesses | src/lib/lunar-api.ts:216-226 | the map-then-filter keeps one result per successful year, in order, and each is that year's conversion |
| LunarApi.KeptYearsMembers | src/lib/lunar-api.ts:216-226 | a year is kept exactly when it is an input year whose conversion succeeds |
| LunarApi.KeptYearsAscending | src/lib/lunar-api.ts:211-226 | filtering ascending years leaves them ascending |
| LunarApi.ProjectAllSucceed | src/lib/lunar-api.ts:216-226 | when every year converts, nothing is dropped and the i-th result is the i-th year's conversion |
| LunarApi.MultiYearDatesKeepsSuccesses | src/lib/lunar-api.ts:208-227 | the multi-year dates are the conversions of exactly the table years from the current year on that succeed, in ascending year order |
| LunarApi.NewYearProjection | src/lib/lunar-api.ts:208-227 | projecting the New Year yields every table year from the current year on, each on its anchor, years rising by one |
| LunarApi.LeapProjection | src/lib/lunar-api.ts:208-227 | a leap template keeps only years whose leap month is that month, and for a day up to 29 it keeps all of them |
| LunarApi.LeapDayConverts | src/lib/lunar-api.ts:166-176 | any day 1..29 of a year's real leap month passes all three checks |
| LunarApiExamples.ConvertsTo | src/lib/lunar-api.ts:153-203 | a date that passes the checks converts to the date that lies its offset after the anchor |
| LunarApiExamples.NewYear2024 | src/lib/__tests__/lunar-api.test.ts:7-11 | lunar 2024-1-1 is 2024-02-10 |
| LunarApiExamples.MidAutumn2024 | src/lib/__tests__/lunar-api.test.ts:50-54 | lunar 2024-8-15 is 2024-09-17 |
| LunarApiExamples.LastMonth2024 | src/lib/lunar-api.ts:172-188 | lunar 2024-12-29 reads slot 11 and gives 2025-01-27 |
| LunarApiExamples.LeapFourth2024 | src/lib/lunar-api.ts:172-188 | leap 2024-4-1 and ordinary 2024-5-1 both give 2024-06-07; leap 2024-4-15 gives 2024-06-21 |
| LunarApiExamples.LeapFourthLastDay2024 | src/lib/lunar-api.ts:172-197 | leap 2024-4-29 gives 2024-07-05 |
| LunarApiExamples.SixthMonth2025 | src/lib/lunar-api.ts:172-197 | lunar 2025-6-15 gives 2025-07-10 |
| LunarApiExamples.LeapSixth2028 | src/lib/lunar-api.ts:172-197 | leap 2028-6-15 gives 2028-08-04 |
| LunarApiExamples.LeapEighth2035 | src/lib/lunar-api.ts:172-197 | leap 2035-8-1 gives 2035-10-02 |
| LunarApiExamples.MidAutumn2025 | src/lib/lunar-api.ts:172-197 | lunar 2025-8-15 gives 2025-09-07 |
| LunarApiExamples.MidAutumn2026 | src/lib/lunar-api.ts:172-197 | lunar 2026-8-15 gives 2026-09-26 |
| LunarApiExamples.MidAutumnInAugust | src/lib/lunar-api.ts:208-227 | lunar 2031-8-15 gives 2031-08-31, and that date is among the (8, 15) projection's results from 2024 on |
| LunarApiExamples.Failures | src/lib/lunar-api.ts:158-176 | a wrong leap month, a day above the length or below 1, and years 2023 and 2054 each give their failure kind |
| LunarApiExamples.LeapTwelfth2026 | src/lib/lunar-api.ts:51-54 | leap 2026-12-1 reads the missing 13th slot and gives 2027-02-07 |
| LunarApiExamples.LeapTwelfth2026Unbounded | src/lib/lunar-api.ts:173 | leap 2026-12-45 passes the day check and gives 2027-03-23 |
| LunarApiExamples.MonthZero | src/lib/lunar-api.ts:172-173 | month 0 of 2025 counts from the New Year itself: day 3 is 2025-01-31 |
| LunarApiExamples.MonthThirteen | src/lib/lunar-api.ts:172-188 | month 13 of 2025 accepts day 40 and gives 2026-02-26 |
| LunarApiExamples.MonthFourteen | src/lib/lunar-api.ts:184-188 | month 14 of 2025 sums a missing slot and gives the NaN date, not null |
| LunarApiExamples.TwelfthMonth2024 | src/lib/lunar-api.ts:172-197 | lunar 2024-12-10 is 2025-01-08 |
| LunarApiExamples.TwelfthMonth2025 | src/lib/lunar-api.ts:172-197 | lunar 2025-12-10 is 2025-12-29 |
| LunarApiExamples.ProjectFirstTwo | src/lib/lunar-api.ts:216-226 | when the first two years convert, their results are the projection's first two entries |
| LunarApiExamples.GregorianYearRepeats | src/lib/lunar-api.ts:208-227 | the month-12 projection from 2024 begins with 2025-01-08 and 2025-12-29, two dates in the same Gregorian year |

## Left out

- Console logging and the `try`/`catch` around the conversion: the catch branch cannot be reached by the modelled inputs, and the messages only name the failure kind, which the model returns instead.
- Non-integer, `NaN` or non-finite year, month or day values, and floating-point rounding: inputs are integers here.
- The clock: `new Date().getFullYear()` becomes the `currentYear` parameter of `MultiYearDates`.
- Time zones and two-digit years in `Date.UTC`: every table year is after 1999 and all arithmetic is in UTC, so neither applies.
- Object-key iteration order, the numeric `sort` and string keys: the table's years are modelled as the ascending list `CandidateYears`.
- The UI, persistence, the network and input schemas of the rest of the application: they are outside the conversion core.
- The millisecond time value of `Date`: the model counts whole days, and the range limit of 8.64e15 ms is stated as 100,000,000 days.
