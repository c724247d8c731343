# Date calculator core, modelled in Dafny

The date calculator tool takes a calendar date, a clock time, a signed amount
and a unit. The unit is one of minutes, hours, days, weeks, months or years.
The tool adds the amount to the date and shows the resulting moment.

This project models the tool's computing core in
`src/components/tools/DateCalculatorTool.tsx`:

- the start-time guard `handleTimeChange`;
- the two checks of `calculateDate` and their messages;
- the date-time string built from the form's fields, and the `Date` read from it;
- the six-case `switch` that adds the amount through `Date` setters.

It then proves what those steps promise.

The `Date` object is modelled from ECMA-262, section 21.4, with the local
time zone fixed at offset zero and no daylight saving time. Under that
assumption:

- a `Date`'s local fields are the fields of its time value;
- `setMinutes`, `setHours`, `setDate`, `setMonth` and `setFullYear` become
  exact arithmetic on a time value.

The modules follow the program's layers:

| file | module | what it holds |
|---|---|---|
| `wrappers.dfy` | `Wrappers` | `Option` and `Result` |
| `decimal.dfy` | `Decimal` | decimal digit strings, `toString`, `padStart` |
| `calendar.dfy` | `Calendar` | days, years, months and the calendar fields of a time value (section 21.4.1 of ECMA-262) |
| `date_object.dfy` | `DateObject` | `MakeTime`, `MakeDay`, `MakeDate`, `TimeClip`; the getters and setters of section 21.4.4; reading a `YYYY-MM-DDTHH:mm:ss` string |
| `time_field.dfy` | `TimeField` | the time pattern and the stored start time |
| `offsets.dfy` | `Offsets` | the units, the `switch`, and what each unit does to a date |
| `calculator.dfy` | `DateCalculator` | `calculateDate` as a whole |

The time-zone selector only reaches the final formatting, which is left
out here; the start date is read as local time. The unit is compared as a
string, so a value outside the six units leaves the date unchanged
(`Offsets.ApplyOffset`).

## Model

| member | source | states |
|---|---|---|
| `TimeField.MatchesTimePattern` | src/components/tools/DateCalculatorTool.tsx:36 | the pattern of the time field: an accepted text is one or two hour digits, a colon and two minute digits; `TimePatternSound` and `TimePatternComplete` say exactly which texts those are |
| `TimeField.PatternExamples` | src/components/tools/DateCalculatorTool.tsx:36 | "13:30", "9:05" and "00:00" are accepted; "25:00", "24:00", "12:5" and "1230" are rejected; "13:30" and "9:05" read as 13:30 and 9:05 |
| `TimeField.TimePatternSound` | src/components/tools/DateCalculatorTool.tsx:36 | every text the pattern accepts is a spelling of the clock time it reads as: a zero-padded hour and minute, or an unpadded single-digit hour |
| `TimeField.TimePatternComplete` | src/components/tools/DateCalculatorTool.tsx:36 | every such spelling of every time from 00:00 to 23:59 is accepted and reads back as that time |
| `TimeField.ParseTime` | src/components/tools/DateCalculatorTool.tsx:55 | splitting an accepted time at the colon gives an hour below 24 and a minute below 60 |
| `TimeField.HandleTimeChange` | src/components/tools/DateCalculatorTool.tsx:33-39 | an edit the pattern accepts replaces the stored time; any other edit leaves the stored time as it was |
| `TimeField.StoredTimeMatches` | src/components/tools/DateCalculatorTool.tsx:27-39 | starting from "00:00", after any sequence of edits, the stored time matches the pattern |
| `TimeField.StoredTimeIsLastAccepted` | src/components/tools/DateCalculatorTool.tsx:27-39 | the stored time is the last accepted edit, or "00:00" if no edit was accepted |
| `DateObject.ParseDateTimeString` | src/components/tools/DateCalculatorTool.tsx:59 | a string is read as date-time fields only if it has the 19-character layout with `-`, `T` and `:` in place |
| `DateObject.DateFromFields` | src/components/tools/DateCalculatorTool.tsx:59 | a `Date` read from valid fields holds the time value of that date and time; it is NaN only for out-of-bounds fields or out-of-range times |
| `DateObject.NewDateFromString` | src/components/tools/DateCalculatorTool.tsx:59 | a string gives a defined `Date` only if it has the date-time layout |
| `DateObject.GetMinutes` | src/components/tools/DateCalculatorTool.tsx:63 | the minute field of a date, from 0 to 59; NaN exactly when the date is NaN |
| `DateObject.GetHours` | src/components/tools/DateCalculatorTool.tsx:66 | the hour field of a date, from 0 to 23; NaN exactly when the date is NaN |
| `DateObject.GetDate` | src/components/tools/DateCalculatorTool.tsx:69-72 | the day of the month of a date, from 1 to 31; NaN exactly when the date is NaN |
| `DateObject.GetMonth` | src/components/tools/DateCalculatorTool.tsx:75 | the 0-based month of a date, from 0 to 11; NaN exactly when the date is NaN |
| `DateObject.GetFullYear` | src/components/tools/DateCalculatorTool.tsx:78 | the year read from a date is the year whose span of days contains the date; it is NaN exactly when the date is |
| `DateObject.SetMinutes` | src/components/tools/DateCalculatorTool.tsx:63 | setting the minutes of an invalid date, or to NaN, gives NaN; a defined result lies in the time-value range (`SetMinutesShifts` gives its value) |
| `DateObject.SetHours` | src/components/tools/DateCalculatorTool.tsx:66 | setting the hours of an invalid date, or to NaN, gives NaN; a defined result lies in the time-value range (`SetHoursShifts` gives its value) |
| `DateObject.SetDate` | src/components/tools/DateCalculatorTool.tsx:69-72 | setting the day of an invalid date, or to NaN, gives NaN; a defined result lies in the time-value range (`SetDateShifts` gives its value) |
| `DateObject.SetMonth` | src/components/tools/DateCalculatorTool.tsx:75 | setting the month of an invalid date, or to NaN, gives NaN; a defined result lies in the time-value range (`SetMonthRollsOver` gives its fields) |
| `DateObject.SetFullYear` | src/components/tools/DateCalculatorTool.tsx:78 | setting the year to NaN gives NaN, even on a valid date; a defined result lies in the time-value range (`SetFullYearRollsOver` and `SetFullYearOfInvalid` give its fields) |
| `DateObject.SetMinutesShifts` | src/components/tools/DateCalculatorTool.tsx:63 | setting the minutes moves the time value by the change of the minute field, in whole minutes, carrying across hours and days |
| `DateObject.SetHoursShifts` | src/components/tools/DateCalculatorTool.tsx:66 | setting the hours moves the time value by the change of the hour field, in whole hours |
| `DateObject.SetDateShifts` | src/components/tools/DateCalculatorTool.tsx:69-72 | setting the day of the month moves the time value by whole days, past month and year ends |
| `DateObject.SetMonthRollsOver` | src/components/tools/DateCalculatorTool.tsx:75 | setting the month carries months outside 0..11 into the year, and a day the new month lacks rolls into the month after it |
| `DateObject.SetFullYearRollsOver` | src/components/tools/DateCalculatorTool.tsx:78 | setting the year keeps the month, day and clock fields; a day the month lacks in the new year rolls forward |
| `DateObject.SetFullYearOfInvalid` | src/components/tools/DateCalculatorTool.tsx:78 | on an invalid date, setting the year starts from time value +0 and gives 1 January of that year at midnight |
| `Calendar.DateTimeFromTime` | src/components/tools/DateCalculatorTool.tsx:59-80 | the fields the getters read from a time value form a valid date and time that denotes that same time value |
| `Calendar.DateTimeRoundTrip` | src/components/tools/DateCalculatorTool.tsx:59-80 | reading the fields back from the time value of a valid date and time gives those fields |
| `Offsets.UnitFromName` | src/components/tools/DateCalculatorTool.tsx:61-80 | a selector value names a unit exactly when it is that unit's case label |
| `Offsets.UnitNameRoundTrip` | src/components/tools/DateCalculatorTool.tsx:61-80 | each unit's case label selects that unit's case of the switch |
| `Offsets.ApplyOffset` | src/components/tools/DateCalculatorTool.tsx:61-80 | a unit outside the six leaves the date unchanged; a defined result lies in the time-value range |
| `Offsets.Shift` | src/components/tools/DateCalculatorTool.tsx:61-80 | every case gives NaN or a time value within the range |
| `Offsets.InvalidStaysInvalid` | src/components/tools/DateCalculatorTool.tsx:61-80 | adding any amount of any unit to an invalid date gives an invalid date |
| `Offsets.ShiftByDuration` | src/components/tools/DateCalculatorTool.tsx:61-73 | minutes, hours, days and weeks move the time value by the amount times 60,000, 3,600,000, 86,400,000 or 604,800,000 ms |
| `Offsets.WeeksAreSevenDays` | src/components/tools/DateCalculatorTool.tsx:68-73 | adding n weeks is adding 7n days |
| `Offsets.ShiftThenUnshift` | src/components/tools/DateCalculatorTool.tsx:61-73 | for minutes, hours, days and weeks, adding n and then -n gives back the start, unless the first step left the range |
| `Offsets.ZeroOffsetIdentity` | src/components/tools/DateCalculatorTool.tsx:61-80 | adding zero of any unit gives back a valid date unchanged |
| `Offsets.MonthsLater` | src/components/tools/DateCalculatorTool.tsx:74-76 | n months later: the month count moves by n and the clock fields are kept; a day the target month lacks rolls over by the month's length and is not clamped |
| `Offsets.ShiftByMonths` | src/components/tools/DateCalculatorTool.tsx:74-76 | the months case gives the time value of `MonthsLater` of the date's fields |
| `Offsets.ShiftByMonthsFields` | src/components/tools/DateCalculatorTool.tsx:74-76 | a date that adding months leaves defined has exactly the fields of `MonthsLater` |
| `Offsets.MonthsLaterThenBack` | src/components/tools/DateCalculatorTool.tsx:74-76 | for a day of the month up to 28, n months later and then -n months later is the same date and time |
| `Offsets.MonthsThenBack` | src/components/tools/DateCalculatorTool.tsx:74-76 | for a day of the month up to 28, adding n months and then -n months gives back the start |
| `Offsets.YearsLater` | src/components/tools/DateCalculatorTool.tsx:77-79 | n years later keeps month, day and clock fields; only 29 February in a target common year changes, to 1 March |
| `Offsets.ShiftByYears` | src/components/tools/DateCalculatorTool.tsx:77-79 | the years case gives the time value of `YearsLater` of the date's fields |
| `Offsets.ShiftByYearsFields` | src/components/tools/DateCalculatorTool.tsx:77-79 | a date that adding years leaves defined has exactly the fields of `YearsLater` |
| `Offsets.YearsLaterThenBack` | src/components/tools/DateCalculatorTool.tsx:77-79 | except on 29 February, n years later and then -n years later is the same date and time |
| `Offsets.YearsThenBack` | src/components/tools/DateCalculatorTool.tsx:77-79 | except on 29 February, adding n years and then -n years gives back the start |
| `Offsets.JanuaryEndLeapYear` | src/components/tools/DateCalculatorTool.tsx:74-76 | 31 January 2024 plus one month is 2 March 2024 |
| `Offsets.JanuaryEndCommonYear` | src/components/tools/DateCalculatorTool.tsx:74-76 | 31 January 2023 plus one month is 3 March 2023 |
| `Offsets.MarchBackToFebruary` | src/components/tools/DateCalculatorTool.tsx:74-76 | 2 March 2024 minus one month is 2 February 2024, so the two steps do not undo each other |
| `Offsets.NegativeMonthsBorrow` | src/components/tools/DateCalculatorTool.tsx:74-76 | 15 January 2024 10:30 minus thirteen months is 15 December 2022 10:30 |
| `Offsets.LeapDayExamples` | src/components/tools/DateCalculatorTool.tsx:77-79 | 29 February 2024 plus one year is 1 March 2025; plus four years it is 29 February 2028 |
| `DateCalculator.ComposeDateTime` | src/components/tools/DateCalculatorTool.tsx:54-58 | the start string with every field zero-padded: for a date the input allows, it has 19 characters with `-`, `-`, `T`, `:` and `:` at the positions of the `YYYY-MM-DDTHH:mm:ss` layout |
| `DateCalculator.ComposeAsWritten` | src/components/tools/DateCalculatorTool.tsx:58 | the start string as written is the padded string with its year written without padding |
| `DateCalculator.ComposeParses` | src/components/tools/DateCalculatorTool.tsx:54-58 | the padded date-time string, read back, gives the year, month, day, hour and minute it was built from, with second 0 |
| `DateCalculator.ComposeRoundTrip` | src/components/tools/DateCalculatorTool.tsx:54-59 | the `Date` read from the padded string holds the form's date and time, and its getters read back the form's fields |
| `DateCalculator.StartInRange` | src/components/tools/DateCalculatorTool.tsx:54-59 | a date with a year from 1 to 9999 at any valid clock time is a valid date-time inside the time-value range |
| `DateCalculator.AsWrittenFromYear1000` | src/components/tools/DateCalculatorTool.tsx:58 | for years 1000 to 9999 the string as written equals the padded one |
| `DateCalculator.AsWrittenShortYear` | src/components/tools/DateCalculatorTool.tsx:58 | for a year below 1000 the string as written is shorter than 19 characters, so it is not in the date-time layout and its reading is left to the engine |
| `DateCalculator.AsWrittenExample` | src/components/tools/DateCalculatorTool.tsx:58 | 1 May 999 at 00:00 is written "999-05-01T00:00:00" |
| `DateCalculator.CalculateDate` | src/components/tools/DateCalculatorTool.tsx:41-80 | "Please enter all required fields" exactly when the date or the amount text is empty; otherwise "Please enter a valid number" exactly when the amount is NaN; otherwise the offset applied to the instant the form names, read from the padded start string; for years 1 to 999 the string as written differs (see "## Left out" and "## Findings") |
| `DateCalculator.UnknownUnitKeepsStart` | src/components/tools/DateCalculatorTool.tsx:61-80 | with a unit outside the six, the result is the start instant |
| `DateCalculator.ZeroAmountKeepsStart` | src/components/tools/DateCalculatorTool.tsx:61-80 | an amount of zero in any unit gives the start instant |
| `DateCalculator.CalculateByDuration` | src/components/tools/DateCalculatorTool.tsx:61-73 | minutes, hours, days and weeks give the start instant plus the amount times the unit's length, or NaN out of range |
| `DateCalculator.CalculateByMonths` | src/components/tools/DateCalculatorTool.tsx:74-76 | a defined months result has the fields of `MonthsLater` applied to the form's date and time |
| `DateCalculator.CalculateByYears` | src/components/tools/DateCalculatorTool.tsx:77-79 | a defined years result has the fields of `YearsLater` applied to the form's date and time |

## Left out

- Rendering the result with `toLocaleString` and `Intl.DateTimeFormat` options, which is locale and time-zone formatting. `CalculateDate` returns the result `Date`'s time value, or NaN.
- Time zones and daylight saving time. The local offset is fixed at zero, so local and UTC fields coincide. With a real zone, `setHours` across a DST change is not a fixed shift. The time-zone selector only feeds the formatting.
- `parseFloat` and fractional amounts. A `Form` carries the amount text together with `parseFloat`'s result, as NaN or an integer. An amount such as 1.5 is not modelled, because that needs floating point.
- The browser's date input and the `split('-').map(Number)` of its value. A `Form` holds either no date or the year, month and day of a real calendar date.
- Years beyond 9999. Their string has more than four year digits, so it falls outside the date-time layout.
- DateObject.DateFromFields: gives `None` for a day of the month from 29 to 31 that the month lacks, whose reading is engine-specific. It also gives `None` for hour 24, which section 21.4.1.32 of ECMA-262 defines as midnight ending the day and which is not modelled. The padded string never produces either.
- DateObject.NewDateFromString: reads only the `YYYY-MM-DDTHH:mm:ss` form. The format's other forms are not modelled and give `None`: date only, no seconds, fractions of a second, and an offset. Strings outside the format are engine-specific and also give `None`.
- DateCalculator.CalculateDate: reads the start from the padded string `ComposeDateTime`, not from the line-58 string `ComposeAsWritten`. For years 1000 to 9999 the two strings are equal (`AsWrittenFromYear1000`). For years 1 to 999 the model gives the instant the form names, as the program intends. The program as written builds a string outside the date-time layout (`AsWrittenShortYear`), and its reading is engine-specific. See "## Findings".
- The React state updates, the clock that fills the initial date, the JSX layout and the time-zone list. None of these take part in the computation.

## Findings

| source | as written | input that shows it | evidently intended | confidence | as-written member | corrected member |
|---|---|---|---|---|---|---|
| src/components/tools/DateCalculatorTool.tsx:58 | the year is interpolated with no padding, unlike month, day, hour and minute | date 0999-05-01 at 00:00 gives "999-05-01T00:00:00". That string is outside the `YYYY-MM-DDTHH:mm:ss` layout, so its reading is engine-specific | the year padded to four digits, so that every date the input allows gives a string in the standard layout | not executed; medium | `DateCalculator.AsWrittenShortYear` | `DateCalculator.ComposeRoundTrip` |

The model builds the string with `DateCalculator.ComposeDateTime`, which pads
the year. `DateCalculator.AsWrittenFromYear1000` shows that the two strings
agree for every four-digit year.
