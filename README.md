# Truck dashboard helpers, modelled in Dafny

The dashboard front end of a truck-route planner has three pieces of logic
worth stating precisely, and this project models each of them:

- **Timestamp and duration formatting** (`src/Utils/formatRouteTime.js`).
  The backend writes moments as `DD/MM/YYYY HH:mm:ss`. `formatFullDateTime`,
  `formatStartTime` and `formatMonth` split such a string into six numbers,
  build a local `Date` from them and print weekday names, clock times and
  `Mon D, h:mm AM` labels. `formatHours` prints a whole number of minutes
  as `45mns`, `2h` or `2h5mns`.
- **The driver's trip form** (`src/Components/DriverForm.jsx`). Its state
  is the four inputs, a map of error messages and a `submitted` flag. The
  handlers are typing (`handleChange`), validation (`validateForm`),
  submission (`handleSubmit`) and reset (`handleReset`).
- **The map markers** (`src/Components/Planner.jsx`). These are the
  timeline entries that are not `Driving`, numbered from 0 in timeline
  order and carrying the entry's display fields.

Modules:

- `Wrappers` holds `Option`.
- `JsStrings` models the JavaScript string operations the source relies
  on: `String(n)`, `padStart`, `split` on one character, `trim` and
  `trimStart` with ECMAScript white space.
- `JsNumbers` models `Number(string)` and `parseFloat` over exact reals.
  NaN and the infinities are kept as their own cases.
- `Calendar` holds the proleptic Gregorian calendar and the weekday of a
  day.
- `RouteTime` holds the formatters.
- `TripForm` holds the form as a class, `DriverForm`, whose methods update
  its fields.
- `Planner` holds the marker projection.

The `Date` constructor is modelled as far as the formatters reach it:
- An argument that is NaN or infinite gives an Invalid Date.
- Every other argument is truncated toward zero.
- Two-digit years mean 19xx.
- When every field is in range, the date is the fields as given.
- Fields out of range would make `Date` carry into the neighbouring field,
  and years beyond -271,820..275,759 leave the range of time values. The
  formatters then return `Unmodelled` instead of a text (see "Left out").
- A missing time part (no space in the string) makes the source call
  `split` on `undefined`. That is modelled as `Throws`.

## Model

| member | source | states |
|---|---|---|
| JsStrings.NatToString | src/Utils/formatRouteTime.js:65 | `String(n)` of a whole number is a non-empty run of digits, with no leading zero except for 0 itself |
| JsStrings.NatToStringRoundTrip | src/Utils/formatRouteTime.js:69 | reading the digits of `String(n)` gives `n` back |
| JsStrings.IntToString | src/Utils/formatRouteTime.js:65 | `String(i)` is digits with a leading `-` exactly when `i` is negative, and its first digit is `0` only for 0 itself |
| JsStrings.IntToStringRoundTrip | src/Utils/formatRouteTime.js:65 | reading `String(i)` back gives `i`, negative numbers included |
| JsStrings.PadStart | src/Utils/formatRouteTime.js:94 | `padStart(width, "0")` keeps the string as its suffix, fills the front with zeros only, and is exactly `max(width, length)` long |
| JsStrings.PaddedValue | src/Utils/formatRouteTime.js:94 | zero-padding a number's digits leaves them all digits, with the same value |
| JsStrings.Split | src/Utils/formatRouteTime.js:3-5 | `split(sep)` gives at least one piece; exactly one when `sep` does not occur; no piece holds `sep`; joining the pieces with `sep` gives the string back |
| JsStrings.SplitJoin | src/Utils/formatRouteTime.js:3-5 | splitting a `sep`-joined list of `sep`-free pieces gives the pieces back |
| JsStrings.IndexOfFirst | src/Utils/formatRouteTime.js:3 | the index found is the first occurrence of the separator |
| JsStrings.TrimStart | src/Components/DriverForm.jsx:44 | the front-trimmed string is a suffix of the input; everything cut off is white space; it does not start with white space |
| JsStrings.TrimEnd | src/Components/DriverForm.jsx:36 | the end-trimmed string is a prefix of the input; everything cut off is white space; it does not end with white space |
| JsStrings.Trim | src/Components/DriverForm.jsx:36-41 | `s.trim()` is no longer than `s`, and neither its first nor its last character is white space |
| JsStrings.TrimInfix | src/Components/DriverForm.jsx:36-41 | `s.trim()` is the part of `s` that starts where `trimStart` starts, with only white space before and after it |
| JsStrings.TrimEmptyIffBlank | src/Components/DriverForm.jsx:36-41 | `s.trim()` is empty exactly when `s` is white space only |
| JsStrings.TrimStartSpace | src/Components/DriverForm.jsx:44 | white space in front of a string is dropped by `trimStart`, and nothing else changes the result |
| JsStrings.TrimDigits | src/Utils/formatRouteTime.js:4-5 | a digit string is left unchanged by trimming |
| JsNumbers.DigitRun | src/Components/DriverForm.jsx:44-47 | the digit run found at the front is all digits, and the next character is not a digit |
| JsNumbers.SignedPrefix | src/Components/DriverForm.jsx:44-47 | the numeric prefix fits in the string, and it is empty exactly when the reading is NaN |
| JsNumbers.UnsignedDigits | src/Components/DriverForm.jsx:44-47 | an unsigned digit string is read whole, at its decimal value |
| JsNumbers.DigitsAsNumber | src/Utils/formatRouteTime.js:4-5 | both `Number` and `parseFloat` read a digit string at its decimal value |
| JsNumbers.ParseFloatOfNat | src/Components/DriverForm.jsx:44-47 | `parseFloat(String(n))` is `n` |
| JsNumbers.ParseFloatOfNegated | src/Components/DriverForm.jsx:44-45 | `parseFloat("-" + String(n))` is `-n` |
| JsNumbers.ToNumberOfPadded | src/Utils/formatRouteTime.js:4-5 | `Number` of a zero-padded field is the number written |
| JsNumbers.DigitRunOf | src/Components/DriverForm.jsx:44-47 | the digit run of a digit string followed by a non-digit is exactly that digit string |
| JsNumbers.DecimalFraction | src/Components/DriverForm.jsx:44-47 | `a.b`, with digit strings `a` and `b` not both empty, is an unsigned literal taken whole, valued `a + b / 10^len(b)` |
| JsNumbers.DecimalReading | src/Components/DriverForm.jsx:44-47 | `parseFloat` and `Number` both read `a.b` as `a + b / 10^len(b)` |
| JsNumbers.NegatedDecimalReading | src/Components/DriverForm.jsx:44-45 | `parseFloat` and `Number` both read `-a.b` as `-(a + b / 10^len(b))` |
| JsNumbers.NegatedPrefix | src/Components/DriverForm.jsx:44-45 | a leading `-` before `a.b` is part of the literal and negates its value |
| JsNumbers.LeadingSpace | src/Components/DriverForm.jsx:44-47 | `parseFloat` and `Number` both ignore white space in front of the number |
| Calendar.DaysInMonth | src/Utils/formatRouteTime.js:6 | months have 28 to 31 days, and February has 29 exactly in leap years |
| Calendar.NextDay | src/Utils/formatRouteTime.js:25-26 | the following day is again a valid day |
| Calendar.Weekday | src/Utils/formatRouteTime.js:25-26 | `getDay()` is an index 0..6 into the weekday names |
| Calendar.WeekdayOfNextDay | src/Utils/formatRouteTime.js:25-26 | consecutive days have consecutive weekdays, Saturday wrapping to Sunday |
| Calendar.YearShiftStep | src/Utils/formatRouteTime.js:25-26 | a year moves the weekday on by 2 in a leap year and by 1 otherwise |
| Calendar.EpochIsThursday | src/Utils/formatRouteTime.js:25-26 | 1 January 1970 is a Thursday |
| RouteTime.Trunc | src/Utils/formatRouteTime.js:6 | the `Date` constructor's truncation lands within one unit of the argument, toward zero |
| RouteTime.FromArgs | src/Utils/formatRouteTime.js:6 | the `Date` constructor gives a date or an Invalid Date, never a missing-time result, and an Invalid Date exactly when some argument is NaN or infinite |
| RouteTime.ParseDateTime | src/Utils/formatRouteTime.js:2-7 | `parseDate` fails for a missing time part exactly when the string has no space |
| RouteTime.ParseRender | src/Utils/formatRouteTime.js:2-7 | parsing a backend timestamp gives back its day, month index, year, hour, minute and second |
| RouteTime.RenderParts | src/Utils/formatRouteTime.js:3-6 | a timestamp splits at its space, its date at `/` and its time at `:` |
| RouteTime.ParseJoined | src/Utils/formatRouteTime.js:3 | a date and a time without spaces, joined by one space, split back into the two |
| RouteTime.DateReads | src/Utils/formatRouteTime.js:4 | the date half reads back as day, month and year |
| RouteTime.TimeReads | src/Utils/formatRouteTime.js:5 | the time half reads back as hour, minute and second |
| RouteTime.FromWholeArgs | src/Utils/formatRouteTime.js:6 | whole non-negative arguments reach the `Date` unchanged, the month shifted to its index |
| RouteTime.TripleReads | src/Utils/formatRouteTime.js:4-5 | three padded fields joined by a separator read back as the three numbers |
| RouteTime.FormatHours | src/Utils/formatRouteTime.js:58-73 | the label is non-empty; it has an `h` exactly from 60 minutes up; it ends in `h` exactly for whole hours |
| RouteTime.FormatHoursRoundTrip | src/Utils/formatRouteTime.js:58-73 | reading a duration label back gives the minutes, in all three shapes |
| RouteTime.ShortRoundTrip | src/Utils/formatRouteTime.js:64-65 | under an hour, the label is exactly `String(minutes)` followed by `mns`, and it reads back as the minutes |
| RouteTime.WholeHoursRoundTrip | src/Utils/formatRouteTime.js:66-69 | whole hours are printed as the hour count followed by `h` |
| RouteTime.MixedRoundTrip | src/Utils/formatRouteTime.js:66-69 | otherwise the label is hours, `h`, the leftover minutes and `mns` |
| RouteTime.FormatHoursInjective | src/Utils/formatRouteTime.js:58-73 | different durations never share a label |
| RouteTime.FormatHoursParts | src/Utils/formatRouteTime.js:66-69 | from an hour up, the label shows whole hours and leftover minutes under 60 that add up to the duration, with the minutes omitted when zero |
| RouteTime.Clock12 | src/Utils/formatRouteTime.js:93-96 | `hours % 12 \|\| 12` is 1..12: midnight is 12, and afternoon hours lose 12; with AM/PM it gives the hour back |
| RouteTime.FormatMonth | src/Utils/formatRouteTime.js:76-99 | a missing or empty input gives `""`; a non-empty input without a space throws |
| RouteTime.FormatMonthOfRender | src/Utils/formatRouteTime.js:76-99 | on a backend timestamp the label is month name, day, 12-hour clock, two-digit minutes and AM/PM of the written moment |
| RouteTime.FormatStartTime | src/Utils/formatRouteTime.js:35-55 | a missing or empty input gives `""`; a non-empty input without a space throws |
| RouteTime.FormatStartTimeOfRender | src/Utils/formatRouteTime.js:35-55 | on a backend timestamp the locale clock is asked about exactly the written moment |
| RouteTime.StartTimeOfFields | src/Utils/formatRouteTime.js:39-54 | a string that parses to in-range fields is shown as the locale clock of those fields |
| RouteTime.FormatFullDateTime | src/Utils/formatRouteTime.js:1-33 | the formatter throws exactly when the start or end timestamp has no space |
| RouteTime.FullDateTimeOfRender | src/Utils/formatRouteTime.js:15-32 | on two backend timestamps the text is `<weekday> <time> - <weekday> <time>` of the two written moments |
| RouteTime.TwoDigitYears | src/Utils/formatRouteTime.js:1-33 | a timestamp whose year is written as 0..99 (such as `0024`) gets the weekday of the same day in 1900..1999 |
| RouteTime.NonNumericDay | src/Utils/formatRouteTime.js:2-7 | a day field that `Number` does not read as a finite number (such as `xx`) makes an Invalid Date |
| RouteTime.InvalidMonthShown | src/Utils/formatRouteTime.js:76-99 | `formatMonth` prints an Invalid Date as `undefined NaN, 12:NaN AM` |
| RouteTime.InvalidStartShown | src/Utils/formatRouteTime.js:35-55 | `formatStartTime` prints an Invalid Date as `INVALID DATE` |
| RouteTime.InvalidFullShown | src/Utils/formatRouteTime.js:1-33 | `formatFullDateTime` prints an Invalid Date as `undefined INVALID DATE` on each side |
| TripForm.FormData.Set | src/Components/DriverForm.jsx:28 | `{ ...prev, [field]: value }` changes that field and no other |
| TripForm.Text | src/Components/DriverForm.jsx:36-47 | only the cleared message is empty (falsy) |
| TripForm.LocationError | src/Components/DriverForm.jsx:36-41 | a failed location check carries that field's "required" message |
| TripForm.LocationErrorIffBlank | src/Components/DriverForm.jsx:36-41 | a location fails its check exactly when it is white space only |
| TripForm.CycleHoursError | src/Components/DriverForm.jsx:42-43 | "Cycle hours are required" exactly for empty hours |
| TripForm.CycleHoursErrorCases | src/Components/DriverForm.jsx:44-47 | given hours are "not positive" exactly when they read below 0, "exceed 70" exactly when they read above 70, and pass otherwise |
| TripForm.NoteEmpty | src/Components/DriverForm.jsx:34-47 | a conditional write leaves the map empty exactly when it was empty and nothing was written |
| TripForm.NoteAt | src/Components/DriverForm.jsx:36-47 | a conditional write sets its own field to the message when there is one, and keeps every other field |
| TripForm.ErrorsAt | src/Components/DriverForm.jsx:33-47 | the error map has an entry for exactly the fields whose check fails, holding that check's message |
| TripForm.NoErrorsIffAcceptable | src/Components/DriverForm.jsx:33-51 | validation finds no error exactly when every location holds a non-space character and the hours are given and read within [0, 70] (or as NaN) |
| TripForm.ChangeIsLocal | src/Components/DriverForm.jsx:26-31 | changing one field leaves the checks of the other fields as they were |
| TripForm.WholeCycleHours | src/Components/DriverForm.jsx:42-47 | whole hours pass exactly from 0 to 70, and above 70 get "Hours cannot exceed 70" |
| TripForm.NegativeCycleHours | src/Components/DriverForm.jsx:44-45 | a negative whole number of hours gets "Hours must be positive" |
| TripForm.BlankFormErrors | src/Components/DriverForm.jsx:33-49 | blank locations and empty hours produce all four "required" messages and nothing else |
| TripForm.EmptyFormErrors | src/Components/DriverForm.jsx:68-77 | submitting the reset form reports all four "required" messages |
| TripForm.DriverForm.constructor | src/Components/DriverForm.jsx:16-24 | the form starts with empty inputs, no errors and not submitted |
| TripForm.DriverForm.HandleChange | src/Components/DriverForm.jsx:26-31 | the typed value is stored; the field's error is blanked only if it showed one; nothing else changes |
| TripForm.DriverForm.ValidateForm | src/Components/DriverForm.jsx:33-51 | the stored errors are the messages of the failing checks, and the answer is whether there are none |
| TripForm.DriverForm.HandleSubmit | src/Components/DriverForm.jsx:53-66 | a request goes out exactly for an acceptable form, with the form and the submission time; `submitted` is set only then |
| TripForm.DriverForm.HandleReset | src/Components/DriverForm.jsx:68-77 | inputs emptied, errors cleared, not submitted |
| Planner.Stops | src/Components/Planner.jsx:14 | the filter keeps no `Driving` entry and never adds any |
| Planner.Markers | src/Components/Planner.jsx:11-26 | no timeline, no markers; otherwise one marker per non-`Driving` entry, numbered 0..n-1, none of type `Driving` |
| Planner.StopsOfPrefix | src/Components/Planner.jsx:13-14 | filtering keeps order: the stops of a timeline prefix begin the stops of the whole timeline |
| Planner.CountStops | src/Components/Planner.jsx:13-14 | there are as many markers as non-`Driving` entries |
| Planner.StopAtRank | src/Components/Planner.jsx:13-14 | the stop at timeline position `j` is the filtered entry numbered by how many stops precede it |
| Planner.StopMarker | src/Components/Planner.jsx:13-25 | each non-`Driving` entry becomes the marker numbered by the stops before it, with its position (latitude, longitude), type, reason, times, address, duration and shift |
| Planner.RankIncreases | src/Components/Planner.jsx:13-16 | an earlier stop gets a smaller marker id than a later one |
| Planner.MarkerHasStop | src/Components/Planner.jsx:13-16 | every marker comes from a non-`Driving` entry of the timeline |
| Planner.RankReaches | src/Components/Planner.jsx:15-16 | every id below the number of stops is taken by a stop |

## Left out

- The backend route scheduler, `Dashboard.jsx`'s request to it, `Map.jsx`, `SideBar.jsx` and `main.jsx`: these are rendering and I/O around the modelled logic, not part of this model.
- RouteTime.FormatStartTime: `toLocaleTimeString("en-US", …).toUpperCase()` belongs to the locale library and is a parameter `clock`. Here it stands for the `hour: "numeric"` format (formatRouteTime.js:48), which prints `9:05 AM`. On an Invalid Date it is the text `INVALID DATE`.
- RouteTime.FormatFullDateTime: its own `clock` parameter, a different function from the one `FormatStartTime` takes. It stands for the `hour: "2-digit"` format (formatRouteTime.js:19), which prints `09:05 AM`. Its third parameter (`durationMins`) is unused in the source, so the model drops it.
- RouteTime.FormatMonth: the formatters return `Unmodelled` instead of a text in two cases. The first is a field outside its range (a 31 February, an hour of 25), which makes `Date` carry into the neighbouring fields. The second is a year outside -271,820..275,759. There the time value leaves ±8.64e15 ms and `Date` is an Invalid Date, except in the two boundary years -271,821 and 275,760, where validity depends on the date and, on the cut-off day, on the time zone.
- Time zones and daylight-saving time are left out: the local `Date` is taken to show its fields as constructed.
- RouteTime.FormatHours: durations are whole minutes. `Math.round` and `Math.floor` on fractional minutes, and floating point in general, are left out.
- JsNumbers.ToNumber: hexadecimal, binary and octal literals read as NaN rather than as their values. Exponent overflow to infinity is not modelled; values are exact reals (see `TripForm.CycleHoursError` for what rounding changes).
- TripForm.DriverForm.HandleSubmit: `fetchRoute` is not called. The method returns the request it would be called with. `new Date().toISOString()` is the parameter `now`. The `console.log` and the `setTimeout` that clears `submitted` after 3 seconds are left out.
- TripForm.CycleHoursError: hours are read as exact reals, not doubles. So `70.00000000000000001` reads above 70 in the model and gets "Hours cannot exceed 70", while JavaScript rounds it to the double 70 and accepts it.
- TripForm.CycleHoursError: a non-numeric entry such as `abc` reads as NaN and passes validation, as the source behaves. The number input of the form normally prevents such entries; that browser behaviour is not part of this model.
- Planner.Markers: a non-`Driving` entry without a `location` makes the source throw at Planner.jsx:17. A `Driving` entry is filtered out before its location is read. The model gives every entry a location, and this does not change the markers.
- React's rendering, `useMemo` caching and the batching of state updates are not modelled. Each handler applies its updates directly to the class's fields.
