# xkcd1017 timeline core in Dafny

This project models the core of `xkcd1017`, a small Rust program that maps a progress
value to a date on a compressed timeline running from the age of the universe to the
present day. It has three parts:

- **Calendar** (`calendar.dfy`, from `src/date.rs`). This covers the proleptic Gregorian
  leap-year rule for every year, negative ones included. It also covers month lengths,
  month ordinals and their inverses, and the two loop-based conversions between a
  (year, month, day) date and a day of the year. Last comes the clamping conversion from
  a fraction of the year to a day of the year.
- **Event table** (`events.dfy`, from `src/db.rs`). The three events are sorted by their
  derived order. The table is searched by date for the binary-search insertion point.
  That index is clamped to the last event, and the one event found is returned.
- **Progress record** (`timeline.dfy`, from `src/lib.rs`). The class `Progress` has a
  `now` anchor fixed at construction. `SetProgress` overwrites the progress, the target
  date, its title and its info string. Titles are a datatype of tiers carrying integers,
  not rendered strings.
- `wrappers.dfy` holds Rust's `Option`.

`i64` years are unbounded integers. `u8` days and `u16` days of the year are subset
types, so every `u16` subtraction in the loops is checked not to underflow. `f64` values
are exact `real`s. The number of years to go back, `exp(20.3444 * p^3 + 3) - e^3`, is an
input to the model: the parameter `subtractTotalYears`.

In these places the program does not do what it evidently intends. The model follows the program:

- `ymd_to_day_of_year` adds the length of the date's own month on every pass of its loop
  (src/date.rs:223), not the length of the month being passed over. The model computes
  exactly that: `AsWrittenDayOfYear`. It agrees with the intended count only for January,
  and for April in a common year (3 * 30 = 31 + 28 + 31). The intended count,
  `DayOfYear`, is kept as a reference definition. The described round trips are proved
  for it (`DateRoundTrip`, `DayOfYearToDateSpec`). What holds as written is
  `AsWrittenRoundTripIff`.
- Because of that, going back exactly zero years from June 15, 2024 lands on June 13,
  and the title is that full date, not "Now" (`TargetAtZeroMissesJune`). With the
  intended day of the year, going back zero years gives the anchor itself for every valid
  anchor (`IntendedTargetAtZero`).
- The target date does not move monotonically into the past. When `sub_y` is a whole
  positive number of years, `1 - fract(sub_y)` is 1 and the day is taken at the end of
  the year (`NotMonotoneAtWholeYears`). Everywhere else it is monotone (`TargetMonotone`).
  The intended fraction is `ceil(sub_y) - sub_y`, which is 0 at whole years, the start of
  the year. `IntendedTargetDate` uses it together with the intended day of the year of the
  anchor. It is monotone for every amount (`IntendedTargetMonotone`), and it agrees with
  the program wherever neither defect applies (`IntendedAgreesWithTarget`). The class
  `Progress` follows the program, not the corrected date.
- The event lookup returns exactly one event. The loop meant to add the following
  events has an empty body.

## Model

| member | source | states |
|---|---|---|
| `Calendar.RemTruncSpec` | src/date.rs:76-80 | Rust's `%` on `i64` is the remainder of the truncating division, `a == b * (a / b) + a % b`; it keeps the sign of the dividend and stays strictly within the divisor |
| `Calendar.IsLeapYear` | src/date.rs:75-85 | defined as the source's chain of truncating-remainder tests by 4, 100 and 400, in that order; `LeapYearRule` states what it amounts to |
| `Calendar.LeapYearRule` | src/date.rs:75-85 | a year is a leap year iff divisible by 4 and (not by 100 or by 400), for negative years too |
| `Calendar.GetNumDays` | src/date.rs:87-93 | the year length is 365 or 366, and 366 iff leap |
| `Calendar.AllMonths` | src/date.rs:199-202 | the twelve months in calendar order, the order in which the conversions walk them; `Ordinal0` is proved to index it |
| `Calendar.Ordinal0` | src/date.rs:112-127 | the 0-based ordinal is below 12 and is the month's index in `all_months` |
| `Calendar.Ordinal1` | src/date.rs:128-143 | the 1-based ordinal is in 1..12 and is `ordinal0 + 1` |
| `Calendar.From0` | src/date.rs:145-161 | `None` iff n >= 12; otherwise the month whose `ordinal0` is n |
| `Calendar.From1` | src/date.rs:163-179 | `None` iff n == 0 or n > 12; otherwise the month whose `ordinal1` is n |
| `Calendar.OrdinalRoundTrip` | src/date.rs:112-179 | `from0(ordinal0(m)) == Some(m)` and `from1(ordinal1(m)) == Some(m)` |
| `Calendar.NumDays` | src/date.rs:181-197 | a month has 28..31 days, February 29 iff leap, April, June, September and November 30, the rest 31 |
| `Calendar.SumFirstTable` | src/date.rs:181-202 | the cumulative month lengths in calendar order, with one more day from March on in a leap year |
| `Calendar.MonthsSumToYear` | src/date.rs:181-202 | the lengths of the months of `all_months` add up to `get_num_days` |
| `Calendar.DateLt` | src/date.rs:6-11 | the derived `Ord` on `Date`: lexicographic on year, then month in declaration order, then day |
| `Calendar.DateOrderIsTotal` | src/date.rs:6-11 | the derived order on dates (year, then month, then day) is a strict total order |
| `Calendar.Chronological` | src/date.rs:6-11 | on valid dates of one year, the derived order is the order of their days of the year |
| `Calendar.WalkMonths` | src/date.rs:205-214 | the loop's walk as a recursive definition: from month i on, the first month whose length is not below the remaining day holds it, otherwise December 31 |
| `Calendar.DayOfYearToDate` | src/date.rs:205-214 | the walk from January; `DayOfYearToDateSpec` states its meaning |
| `Calendar.DayOfYearToYmd` | src/date.rs:205-214 | the loop keeps the year; for 1 <= k <= year length it returns the valid date whose day of the year is k, past the end December 31, for 0 January 0; its `u16` subtraction never underflows |
| `Calendar.DayOfYearToDateSpec` | src/date.rs:205-214 | the year is kept; for 1 <= k <= year length, a valid date whose day of the year is k; past the end, December 31; for 0, January 0 |
| `Calendar.DateRoundTrip` | src/date.rs:205-214 | a valid date comes back unchanged from its intended day of the year |
| `Calendar.DayOfYearToDateMonotone` | src/date.rs:205-214 | a larger day of the year never gives an earlier date |
| `Calendar.AsWrittenDayOfYear` | src/date.rs:216-226 | the value as written, `ordinal0(m) * num_days(m) + day`, is at most 596, so the `u16` sum never overflows |
| `Calendar.YmdToDayOfYear` | src/date.rs:216-226 | the loop returns `ordinal0(m) * num_days(m) + day`, which is the intended day of the year iff January or April of a common year, and never reaches its fall-back at line 225 |
| `Calendar.AsWrittenAgreesIff` | src/date.rs:216-226 | the value as written equals the intended day of the year iff January, or April of a common year |
| `Calendar.AsWrittenPastYearEnd` | src/date.rs:216-226 | from December 26 on, the value as written is `341 + day` and exceeds the year length |
| `Calendar.AsWrittenRoundTripIff` | src/date.rs:205-226 | for valid dates, the round trip as written returns the date iff January, April of a common year, or December 31 |
| `Calendar.AsWrittenRoundTripFails` | src/date.rs:223 | February 1, 2023 goes to day 29, which comes back as January 29 |
| `Calendar.GetProgressThroughYear` | src/date.rs:45-48 | the fraction is in [0, 1]: `(doy - 1) / days` within the year, 1 past its end |
| `Calendar.ProgressThroughYearMonotone` | src/date.rs:45-48 | a later day is never an earlier fraction of the year |
| `Calendar.DayOfYearAtProgress` | src/date.rs:50-61 | the day is in [1, year length] for every fraction; day 1 at or below 0, the last day at or above 1 |
| `Calendar.DayOfYearAtProgressMonotone` | src/date.rs:50-61 | a larger fraction never gives an earlier day |
| `Calendar.DayOfYearAtProgressInverts` | src/date.rs:45-61 | the fraction of the year before day k converts back to day k |
| `Calendar.FromProgressThroughYear` | src/date.rs:50-61 | the in-place clamping of the fraction and of the day gives `DayOfYearAtProgress`, a day in [1, year length] |
| `Events.StringLt` | src/db.rs:7-11 | the derived order on `String`: lexicographic on the characters, a proper prefix first |
| `Events.EventLt` | src/db.rs:7-11 | the derived `Ord` on `Event`: by date, then by text |
| `Events.EventOrderIsTotal` | src/db.rs:7-11 | the derived order on events (date, then text) is a strict total order |
| `Events.SortedIsSortedByDate` | src/db.rs:7-11 | a table sorted by the event order is sorted by date |
| `Events.SortedUnique` | src/db.rs:24 | two sorted arrangements of the same events are equal |
| `Events.Table` | src/db.rs:18-27 | the table after sorting: Caesar, Pearl Harbour, 9/11, with the source's dates and texts |
| `Events.TableIsSortedPushed` | src/db.rs:18-27 | the table is sorted, holds exactly the pushed events, and is the only such arrangement: Caesar, Pearl Harbour, 9/11 |
| `Events.SearchRange` | src/db.rs:32-35 | bisection returns an index holding the key, or the point before which all dates are earlier and from which all are later |
| `Events.BinarySearchByDate` | src/db.rs:32-35 | the same for the whole table |
| `Events.BinarySearchFoundIff` | src/db.rs:32-35 | the search reports a match iff some event has the key's date |
| `Events.LookupIndex` | src/db.rs:32-39 | the clamped index is in the table; earlier events are not after the date and later ones not before it; an exact match lands on an equal date; only a date after every event gives the last one |
| `Events.GetEvents` | src/db.rs:29-50 | exactly one event is returned, the one at the clamped index; `now` plays no part and the table is unchanged |
| `Events.TableLookup` | src/db.rs:18-39 | in the table, dates up to Caesar's give index 0, up to Pearl Harbour's 1, later ones 2 |
| `Timeline.Trunc` | src/lib.rs:51 | rounding toward zero stays within one of its argument, on the side of zero |
| `Timeline.Ceil` | src/lib.rs:50 | the least integer not below its argument |
| `Timeline.Fract` | src/lib.rs:51 | the fractional part is in (-1, 1); for non-negative values it is in [0, 1) and 0 iff the value is whole |
| `Timeline.FractIsFractionalPart` | src/lib.rs:51 | the value minus its fractional part is a whole number; the fractional part keeps the value's sign and lies in (-1, 1), which pins it down |
| `Timeline.AnchorHasDayOfYear` | src/lib.rs:45 | the anchor's `u16` `doy - 1` does not underflow iff the anchor is not January 0 |
| `Timeline.StartProgress` | src/lib.rs:45 | the anchor's fraction of its year, from its day of the year as computed |
| `Timeline.SubYears` | src/lib.rs:47 | `sub_y`: the years to go back minus the start progress |
| `Timeline.TargetYear` | src/lib.rs:48-55 | `now.year - ceil(sub_y)` when `sub_y > 0`, otherwise `now.year` |
| `Timeline.TargetFraction` | src/lib.rs:48-56 | `1 - fract(sub_y)` when `sub_y > 0`, otherwise the start progress minus the years to go back |
| `Timeline.TargetDate` | src/lib.rs:48-58 | the date of the day of the year at that fraction of the target year; `TargetDateSpec` states its meaning |
| `Timeline.ComputeTarget` | src/lib.rs:45-58 | the step-by-step computation of `set_progress` yields `TargetDate`, a valid date no later in year than the anchor |
| `Timeline.TargetDateSpec` | src/lib.rs:47-58 | if `sub_y > 0` the target year is `now.year - ceil(sub_y)` <= `now.year - 1`, otherwise `now.year`; the target date is valid |
| `Timeline.TargetMonotone` | src/lib.rs:47-58 | going back further never gives a later date, unless `sub_y` is a whole positive number |
| `Timeline.NotMonotoneAtWholeYears` | src/lib.rs:50-52 | from January 1 of any year, going back 0.9999 years gives January 1 of the year before, but going back 1 year gives December 31 of it |
| `Timeline.TargetAtZero` | src/lib.rs:45-57 | going back zero years gives the date of the anchor's day of the year as written; that is the anchor iff January, April of a common year, or December 31 |
| `Timeline.TargetAtZeroMissesJune` | src/lib.rs:45-84 | from June 15, 2024, going back zero years gives June 13, titled as that full date |
| `Timeline.TitleAtZeroJanuary` | src/lib.rs:45-81 | from a January anchor after 2000, going back zero years is titled "Now" |
| `Timeline.IntendedStartProgress` | src/lib.rs:45 | corrected start progress: `(k - 1) / n` for the anchor's intended day of the year k |
| `Timeline.IntendedTargetDate` | src/lib.rs:45-58 | corrected target date, with the intended day of the year and fraction `ceil(sub_y) - sub_y` of an earlier year; always a valid date |
| `Timeline.IntendedAgreesWithTarget` | src/lib.rs:45-58 | for anchors where the day of the year as written is right and `sub_y` is not a whole positive number, the program's date is the corrected one |
| `Timeline.IntendedTargetMonotone` | src/lib.rs:45-58 | the corrected target date never moves later when going back further, for all amounts |
| `Timeline.IntendedTargetAtZero` | src/lib.rs:45-81 | the corrected target date at zero years is the anchor, titled "Now" after 2000 |
| `Timeline.IntendedAtWholeYears` | src/lib.rs:50-52 | the corrected target, one year back from January 1, is January 1 of the year before |
| `Timeline.SelectTitle` | src/lib.rs:64-84 | each tier holds exactly for its year range, first match winning; "Now" only after 2000 and only for the anchor date; each tier carries the values it prints |
| `Timeline.TiersFollowYears` | src/lib.rs:64-84 | a later year never gets a tier further into the past |
| `Timeline.JoinSpec` | src/lib.rs:88 | a join is as long as the parts plus one separator between each two; it starts with the first part, then the separator if more follow, and ends with the last part; no parts give the empty string |
| `Timeline.Infos` | src/lib.rs:87-88 | the `info` texts of the events, one per event, in order |
| `Timeline.EventInfo` | src/lib.rs:87-88 | the info string is the text of the event at the clamped lookup index |
| `Timeline.EventInfoAtEnds` | src/lib.rs:87-88 | dates up to March 15, 44 BC are annotated with Caesar's assassination, dates after September 11, 2001 with "9/11" |
| `Timeline.Progress.Valid` | src/lib.rs:16-22 | the record's invariant: the anchor has a day of the year, the date is valid, and the title and info are those of the date |
| `Timeline.Progress.constructor` | src/lib.rs:27-38 | `now` is the given date, progress is 0, and the record holds the date, title and info of progress 0 |
| `Timeline.Progress.SetProgress` | src/lib.rs:40-89 | stores the progress, the target date, its title and its info, keeping them consistent; `now` is a constant |
| `Timeline.Progress.GetProgress` | src/lib.rs:91-93 | returns the stored progress |

## Left out

- `src/main.rs`, the animation loop: terminal escape codes, flushing and the 10 ms sleep are presentation.
- `src/util.rs`: both `comma_fmt` bodies are `unimplemented!()`. The `format!` calls of src/lib.rs:65-69 run it inside `set_progress`, so for target years up to -10000 the program's `set_progress` panics and never returns; that includes the first frame of src/main.rs, at progress 1. `Timeline.Progress.SetProgress` gives the intended behaviour there: it stores the tier. Titles are modelled as tiers with integer payloads. Rendering, the `{:?}` month spelling and `fmt::Formatter` are not modelled.
- `Calendar.GetProgressThroughYear`, `Timeline.Progress.constructor`, `Timeline.Progress.SetProgress`: these require a non-zero day of the year for the anchor (`doy >= 1`, via `AnchorHasDayOfYear`), which excludes only January 0. For that anchor, `doy - 1` underflows `u16`. A debug build panics. A release build wraps to 65535 and the clamp gives fraction 1.0. The model refuses that input instead.
- The `exp`/`powi` formula (src/lib.rs:43) is floating point. Its value is the parameter `subtractTotalYears`, so nothing is claimed about progress 0 giving exactly `now`.
- `f64` rounding in `get_progress_through_year`, `from_progress_through_year` and the billions and millions divisions: the model uses exact reals.
- `Timeline.Progress.SetProgress`: the `f64`-to-`i64` cast of `ceil(sub_y)` saturates, and `now.year - …` can overflow `i64`. Neither is modelled, since years are unbounded.
- `Progress::new` reads the clock through `chrono` (`Local::today`). `From<NaiveDate>` is a call into `chrono`. Neither is modelled.
- The `lazy_static` one-time initialisation of `DB` is plumbing. The table is a constant; the `v.sort()` call is library code, and `TableIsSortedPushed` characterises its result.
- `Events.BinarySearchByDate`: the standard library does not say which index it returns when several events share the searched date. The model's bisection picks one. The table's dates are distinct, so this does not matter for it.
- `src/db.rs` does not compile as shown. It assigns to the non-`mut` `base_idx` (line 38) and moves an event out of the vector (line 41). The model follows the evident logic: clamp the index, copy the event.
- The `Into`/`From` conversion boilerplate and the one-line wrappers `Date::new`, `Date::get_day_of_year`, `DayOfYear::to_ymd` and `Year::to_ymd` only delegate to the modelled conversions.
