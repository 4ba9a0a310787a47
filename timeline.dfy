/**
  The progress state of the timeline (src/lib.rs). A progress value is mapped
  to a target date some number of years before a fixed anchor date `now`; the
  target date gets a title chosen by the magnitude of its year and an info
  string made from the event table.

  The number of years to go back, `exp(20.3444 * p^3 + 3) - e^3` in `f64`, is
  taken as the real parameter `subtractTotalYears`.
 */
module Timeline {
  import opened Calendar
  import opened Events

  // ---------------------------------------------------------------- real-number helpers

  /** `f64::trunc`: rounds toward zero. */
  function Trunc(x: real): (r: int)
    ensures x >= 0.0 ==> r as real <= x < r as real + 1.0
    ensures x < 0.0 ==> r as real - 1.0 < x <= r as real
  {
    if x >= 0.0 then x.Floor else -((-x).Floor)
  }

  /** `f64::ceil`: the least integer not below `x`. */
  function Ceil(x: real): (r: int)
    ensures r as real - 1.0 < x <= r as real
  {
    -((-x).Floor)
  }

  /** `f64::fract`: `x - x.trunc()`. */
  function Fract(x: real): (r: real)
    ensures -1.0 < r < 1.0
    ensures x >= 0.0 ==> 0.0 <= r && (r == 0.0 <==> x == x.Floor as real)
  {
    x - Trunc(x) as real
  }

  /** What `f64::fract` promises: `x` minus its fractional part is a whole number, the
      fractional part keeping the sign of `x` and staying strictly within 1 of 0. */
  lemma FractIsFractionalPart(x: real)
    ensures x - Fract(x) == (x - Fract(x)).Floor as real
    ensures -1.0 < Fract(x) < 1.0
    ensures x >= 0.0 ==> Fract(x) >= 0.0
    ensures x <= 0.0 ==> Fract(x) <= 0.0
  {
  }

  // ---------------------------------------------------------------- the target date

  /** The anchor has a non-zero day of the year, so `get_progress_through_year`'s
      `u16` subtraction `doy - 1` does not underflow: it is not "January 0". */
  predicate AnchorHasDayOfYear(now: Date)
    ensures AnchorHasDayOfYear(now) <==> now.month != January || now.day != 0
  {
    AsWrittenDayOfYear(now) >= 1
  }

  /** How far through its year the anchor is, from its day of the year as computed. */
  function StartProgress(now: Date): real
    requires AnchorHasDayOfYear(now)
  {
    GetProgressThroughYear(AsWrittenDayOfYear(now), now.year)
  }

  /** `sub_y`: the years to go back past the start of the anchor's year. */
  function SubYears(now: Date, subtractTotalYears: real): real
    requires AnchorHasDayOfYear(now)
  {
    subtractTotalYears - StartProgress(now)
  }

  /** The year of the target date: an earlier year when `sub_y > 0`, the anchor's otherwise. */
  function TargetYear(now: Date, subtractTotalYears: real): int
    requires AnchorHasDayOfYear(now)
  {
    var subY := SubYears(now, subtractTotalYears);
    if subY > 0.0 then now.year - Ceil(subY) else now.year
  }

  /** The fraction of the target year at which the target date lies. */
  function TargetFraction(now: Date, subtractTotalYears: real): real
    requires AnchorHasDayOfYear(now)
  {
    var subY := SubYears(now, subtractTotalYears);
    if subY > 0.0 then 1.0 - Fract(subY) else StartProgress(now) - subtractTotalYears
  }

  /** The date `set_progress` stores in `self.date`. */
  function TargetDate(now: Date, subtractTotalYears: real): Date
    requires AnchorHasDayOfYear(now)
  {
    var y := TargetYear(now, subtractTotalYears);
    DayOfYearToDate(DayOfYearAtProgress(y, TargetFraction(now, subtractTotalYears)), y)
  }

  /** The target year is at least one year before the anchor's when `sub_y > 0`, namely
      `now.year - ceil(sub_y)`, and the anchor's own year otherwise; the target date is a valid
      date of that year. */
  lemma TargetDateSpec(now: Date, s: real)
    requires AnchorHasDayOfYear(now)
    ensures SubYears(now, s) > 0.0 ==>
      TargetDate(now, s).year == now.year - Ceil(SubYears(now, s)) &&
      TargetDate(now, s).year <= now.year - 1
    ensures SubYears(now, s) <= 0.0 ==> TargetDate(now, s).year == now.year
    ensures ValidDate(TargetDate(now, s))
  {
    var y := TargetYear(now, s);
    DayOfYearToDateSpec(DayOfYearAtProgress(y, TargetFraction(now, s)), y);
  }

  /** Going back further never gives a later date, except at a whole positive number of years
      past the start of the anchor's year (see `NotMonotoneAtWholeYears`). */
  lemma TargetMonotone(now: Date, s1: real, s2: real)
    requires AnchorHasDayOfYear(now) && s1 <= s2
    requires SubYears(now, s2) > 0.0 ==> SubYears(now, s2) != SubYears(now, s2).Floor as real
    ensures DateLe(TargetDate(now, s2), TargetDate(now, s1))
  {
    var u1, u2 := SubYears(now, s1), SubYears(now, s2);
    var y1, y2 := TargetYear(now, s1), TargetYear(now, s2);
    var k1 := DayOfYearAtProgress(y1, TargetFraction(now, s1));
    var k2 := DayOfYearAtProgress(y2, TargetFraction(now, s2));
    DayOfYearToDateSpec(k1, y1);
    DayOfYearToDateSpec(k2, y2);
    if u2 <= 0.0 || (u1 > 0.0 && Ceil(u1) == Ceil(u2)) {
      assert y1 == y2;
      if u1 > 0.0 {
        var c := Ceil(u2);
        assert Trunc(u2) == c - 1;
        assert Trunc(u1) == c - 1;
      }
      assert TargetFraction(now, s2) <= TargetFraction(now, s1);
      DayOfYearAtProgressMonotone(y1, TargetFraction(now, s2), TargetFraction(now, s1));
      DayOfYearToDateMonotone(k2, k1, y1);
    } else {
      assert y2 < y1;
    }
  }

  /** Anchored at January 1 (the start of its year), going back 0.9999 years lands on
      January 1 of the year before, yet going back exactly one year lands on December 31 of that
      year: `fract` of a whole number is 0, so the day is taken at the very end of the year. */
  lemma NotMonotoneAtWholeYears(year: int)
    ensures AnchorHasDayOfYear(Date(year, January, 1))
    ensures TargetDate(Date(year, January, 1), 0.9999) == Date(year - 1, January, 1)
    ensures TargetDate(Date(year, January, 1), 1.0) == Date(year - 1, December, 31)
    ensures DateLt(TargetDate(Date(year, January, 1), 0.9999), TargetDate(Date(year, January, 1), 1.0))
  {
    var now, start, end := Date(year, January, 1), Date(year - 1, January, 1), Date(year - 1, December, 31);
    assert StartProgress(now) == 0.0;
    var n := GetNumDays(year - 1);
    assert Ceil(0.9999) == 1 && Ceil(1.0) == 1;
    assert TargetYear(now, 0.9999) == year - 1 && TargetYear(now, 1.0) == year - 1;
    assert 1.0 - Fract(0.9999) == 0.0001;
    assert 0.0 <= n as real * 0.0001 < 1.0;
    assert DayOfYearAtProgress(year - 1, 0.0001) == 1;
    assert DayOfYearAtProgress(year - 1, 1.0 - Fract(1.0)) == n;
    assert DayOfYear(start) == 1;
    DateRoundTrip(start);
    SumFirstTable(year - 1);
    DateRoundTrip(end);
  }

  /** Going back exactly zero years gives the date `day_of_year_to_ymd` makes of the anchor's
      day of the year as computed; that is the anchor itself exactly for January dates, April
      dates of a common year and December 31. */
  lemma TargetAtZero(now: Date)
    requires ValidDate(now)
    ensures AnchorHasDayOfYear(now)
    ensures TargetDate(now, 0.0) == DayOfYearToDate(AsWrittenDayOfYear(now), now.year)
    ensures TargetDate(now, 0.0) == now <==>
      now.month == January || (now.month == April && !IsLeapYear(now.year)) ||
      (now.month == December && now.day == 31)
  {
    var k := AsWrittenDayOfYear(now);
    if k <= GetNumDays(now.year) {
      TargetAtZeroWithinYear(now);
    } else {
      TargetAtZeroPastYearEnd(now);
    }
    AsWrittenRoundTripIff(now);
  }

  lemma TargetAtZeroWithinYear(now: Date)
    requires AnchorHasDayOfYear(now) && AsWrittenDayOfYear(now) <= GetNumDays(now.year)
    ensures TargetDate(now, 0.0) == DayOfYearToDate(AsWrittenDayOfYear(now), now.year)
  {
    var k := AsWrittenDayOfYear(now);
    assert SubYears(now, 0.0) <= 0.0;
    assert TargetYear(now, 0.0) == now.year;
    assert TargetFraction(now, 0.0) == GetProgressThroughYear(k, now.year);
    DayOfYearAtProgressInverts(k, now.year);
  }

  lemma TargetAtZeroPastYearEnd(now: Date)
    requires AnchorHasDayOfYear(now) && AsWrittenDayOfYear(now) > GetNumDays(now.year)
    ensures TargetDate(now, 0.0) == DayOfYearToDate(AsWrittenDayOfYear(now), now.year)
  {
    var k, n := AsWrittenDayOfYear(now), GetNumDays(now.year);
    assert StartProgress(now) == 1.0;
    assert TargetYear(now, 0.0) == now.year;
    assert TargetFraction(now, 0.0) == 1.0;
    assert DayOfYearAtProgress(now.year, 1.0) == n;
    DayOfYearToDateSpec(k, now.year);
    SumFirstTable(now.year);
    DateRoundTrip(Date(now.year, December, 31));
    assert DayOfYear(Date(now.year, December, 31)) == n;
  }

  // ---------------------------------------------------------------- the intended target date

  /** How far through its year a valid anchor is, from its intended day of the year. */
  function IntendedStartProgress(now: Date): (r: real)
    requires ValidDate(now)
    ensures r == (DayOfYear(now) - 1) as real / GetNumDays(now.year) as real
  {
    DateRoundTrip(now);
    GetProgressThroughYear(DayOfYear(now) as U16, now.year)
  }

  /** `sub_y` from the intended start progress. */
  function IntendedSubYears(now: Date, subtractTotalYears: real): real
    requires ValidDate(now)
  {
    subtractTotalYears - IntendedStartProgress(now)
  }

  /** The intended target year: `sub_y` rounded up years before the anchor's when positive. */
  function IntendedYear(now: Date, subtractTotalYears: real): int
    requires ValidDate(now)
  {
    var u := IntendedSubYears(now, subtractTotalYears);
    if u > 0.0 then now.year - Ceil(u) else now.year
  }

  /** The intended fraction of the target year: in an earlier year `ceil(sub_y) - sub_y`, which
      is `1 - fract(sub_y)` except at a whole number of years, where it is 0, the start of the
      year, rather than 1. */
  function IntendedFraction(now: Date, subtractTotalYears: real): real
    requires ValidDate(now)
  {
    var u := IntendedSubYears(now, subtractTotalYears);
    if u > 0.0 then Ceil(u) as real - u else IntendedStartProgress(now) - subtractTotalYears
  }

  /** The target date `set_progress` evidently intends, from the intended day of the anchor
      and the intended fraction of the target year. */
  function IntendedTargetDate(now: Date, subtractTotalYears: real): (d: Date)
    requires ValidDate(now)
    ensures ValidDate(d)
  {
    var y := IntendedYear(now, subtractTotalYears);
    var k := DayOfYearAtProgress(y, IntendedFraction(now, subtractTotalYears));
    DayOfYearToDateSpec(k, y);
    DayOfYearToDate(k, y)
  }

  /** Within one year, a smaller fraction never gives a later date. */
  lemma DateAtFractionMonotone(y: int, f1: real, f2: real)
    requires f2 <= f1
    ensures DateLe(DayOfYearToDate(DayOfYearAtProgress(y, f2), y),
                   DayOfYearToDate(DayOfYearAtProgress(y, f1), y))
  {
    DayOfYearAtProgressMonotone(y, f2, f1);
    DayOfYearToDateMonotone(DayOfYearAtProgress(y, f2), DayOfYearAtProgress(y, f1), y);
  }

  /** Where neither defect applies, the program's target date is the intended one: the
      anchor's day of the year as written is the intended one, and `sub_y` is not a whole
      positive number. */
  lemma IntendedAgreesWithTarget(now: Date, s: real)
    requires ValidDate(now)
    requires now.month == January || (now.month == April && !IsLeapYear(now.year))
    requires IntendedSubYears(now, s) > 0.0 ==>
      IntendedSubYears(now, s) != IntendedSubYears(now, s).Floor as real
    ensures AnchorHasDayOfYear(now)
    ensures TargetDate(now, s) == IntendedTargetDate(now, s)
  {
    AsWrittenAgreesIff(now);
    DateRoundTrip(now);
    assert AsWrittenDayOfYear(now) == DayOfYear(now) as U16;
    assert StartProgress(now) == IntendedStartProgress(now);
    var u := SubYears(now, s);
    assert u == IntendedSubYears(now, s);
    if u > 0.0 {
      OneMinusFract(u);
    }
    assert TargetYear(now, s) == IntendedYear(now, s);
    assert TargetFraction(now, s) == IntendedFraction(now, s);
  }

  /** Off the whole numbers, `1 - fract(u)` is the distance from `u` up to `ceil(u)`. */
  lemma OneMinusFract(u: real)
    requires u > 0.0 && u != u.Floor as real
    ensures 1.0 - Fract(u) == Ceil(u) as real - u
  {
    assert Trunc(u) == u.Floor;
    assert Ceil(u) == u.Floor + 1;
  }

  /** With both corrections, going back further never gives a later date, for all amounts. */
  lemma IntendedTargetMonotone(now: Date, s1: real, s2: real)
    requires ValidDate(now) && s1 <= s2
    ensures DateLe(IntendedTargetDate(now, s2), IntendedTargetDate(now, s1))
  {
    var u1, u2 := IntendedSubYears(now, s1), IntendedSubYears(now, s2);
    var y1, y2 := IntendedYear(now, s1), IntendedYear(now, s2);
    if u2 <= 0.0 || (u1 > 0.0 && Ceil(u1) == Ceil(u2)) {
      assert y1 == y2;
      assert IntendedFraction(now, s2) <= IntendedFraction(now, s1);
      DateAtFractionMonotone(y1, IntendedFraction(now, s1), IntendedFraction(now, s2));
    } else {
      assert y2 < y1;
      assert IntendedTargetDate(now, s1).year == y1 by {
        DayOfYearToDateSpec(DayOfYearAtProgress(y1, IntendedFraction(now, s1)), y1);
      }
      assert IntendedTargetDate(now, s2).year == y2 by {
        DayOfYearToDateSpec(DayOfYearAtProgress(y2, IntendedFraction(now, s2)), y2);
      }
    }
  }

  /** With both corrections, going back zero years gives the anchor itself, which a year after
      2000 titles "Now". */
  lemma IntendedTargetAtZero(now: Date)
    requires ValidDate(now)
    ensures IntendedTargetDate(now, 0.0) == now
    ensures now.year > 2000 ==> SelectTitle(IntendedTargetDate(now, 0.0), now) == Now
  {
    DateRoundTrip(now);
    var k := DayOfYear(now) as U16;
    assert IntendedSubYears(now, 0.0) <= 0.0;
    assert IntendedStartProgress(now) == GetProgressThroughYear(k, now.year);
    DayOfYearAtProgressInverts(k, now.year);
  }

  /** With both corrections, going back exactly one year from January 1 gives January 1 of
      the year before, the start of that year. */
  lemma IntendedAtWholeYears(year: int)
    ensures ValidDate(Date(year, January, 1))
    ensures IntendedTargetDate(Date(year, January, 1), 1.0) == Date(year - 1, January, 1)
  {
    var now, start := Date(year, January, 1), Date(year - 1, January, 1);
    assert DayOfYear(now) == 1 && DayOfYear(start) == 1;
    assert IntendedStartProgress(now) == 0.0;
    assert Ceil(1.0) == 1;
    assert IntendedFraction(now, 1.0) == 0.0;
    DateRoundTrip(start);
  }

  // ---------------------------------------------------------------- titles

  /** The title tiers of `set_progress`, carrying the integers they print. `Empty` is the empty
      string a new record holds before its first `set_progress`. */
  datatype Title =
    | Empty
    | BillionsAgo(yearsAgo: int)
    | MillionsAgo(yearsAgo: int)
    | YearsAgo(yearsAgo: int)
    | BC(yearsBefore: int)
    | OneAD
    | AD(year: int)
    | BareYear(year: int)
    | MonthYear(month: Month, year: int)
    | Now
    | FullDate(day: U8, month: Month, year: int)

  /** The title of `date`, chosen by the first tier whose bound its year meets. */
  function SelectTitle(date: Date, now: Date): (t: Title)
    ensures t.BillionsAgo? <==> date.year <= -1_000_000_000
    ensures t.MillionsAgo? <==> -1_000_000_000 < date.year <= -1_000_000
    ensures t.YearsAgo? <==> -1_000_000 < date.year <= -10_000
    ensures t.BC? <==> -10_000 < date.year < 0
    ensures t.OneAD? <==> date.year == 0
    ensures t.AD? <==> 0 < date.year <= 1000
    ensures t.BareYear? <==> 1000 < date.year <= 1900
    ensures t.MonthYear? <==> 1900 < date.year <= 2000
    ensures t.Now? <==> 2000 < date.year && date == now
    ensures t.FullDate? <==> 2000 < date.year && date != now
    ensures t.BillionsAgo? || t.MillionsAgo? || t.YearsAgo? ==> t.yearsAgo == -date.year > 0
    ensures t.BC? ==> t.yearsBefore == -date.year > 0
    ensures t.AD? || t.BareYear? ==> t.year == date.year
    ensures t.MonthYear? ==> t == MonthYear(date.month, date.year)
    ensures t.FullDate? ==> t == FullDate(date.day, date.month, date.year)
  {
    var y := date.year;
    if y <= -1_000_000_000 then BillionsAgo(-y)
    else if y <= -1_000_000 then MillionsAgo(-y)
    else if y <= -10_000 then YearsAgo(-y)
    else if y < 0 then BC(-y)
    else if y == 0 then OneAD
    else if y <= 1000 then AD(y)
    else if y <= 1900 then BareYear(y)
    else if y <= 2000 then MonthYear(date.month, y)
    else if date == now then Now
    else FullDate(date.day, date.month, y)
  }

  /** The position of a tier in the table, from the deepest past to the present. */
  function TierRank(t: Title): nat
  {
    match t
    case Empty => 0
    case BillionsAgo(_) => 0
    case MillionsAgo(_) => 1
    case YearsAgo(_) => 2
    case BC(_) => 3
    case OneAD => 4
    case AD(_) => 5
    case BareYear(_) => 6
    case MonthYear(_, _) => 7
    case Now => 8
    case FullDate(_, _, _) => 8
  }

  /** A later year never gets a tier further into the past. */
  lemma TiersFollowYears(d1: Date, d2: Date, now: Date)
    requires d1.year <= d2.year
    ensures TierRank(SelectTitle(d1, now)) <= TierRank(SelectTitle(d2, now))
  {
  }

  /** Anchored at June 15, 2024, going back zero years lands two days early, on June 13, so the
      title is that full date rather than "Now". */
  lemma TargetAtZeroMissesJune()
    ensures TargetDate(Date(2024, June, 15), 0.0) == Date(2024, June, 13)
    ensures SelectTitle(TargetDate(Date(2024, June, 15), 0.0), Date(2024, June, 15)) ==
      FullDate(13, June, 2024)
  {
    var now, early := Date(2024, June, 15), Date(2024, June, 13);
    TargetAtZero(now);
    assert AsWrittenDayOfYear(now) == 165;
    SumFirstTable(2024);
    assert DayOfYear(early) == 165;
    DateRoundTrip(early);
    assert TargetDate(now, 0.0) == early;
  }

  /** Anchored in January of a year after 2000, going back zero years is titled "Now". */
  lemma TitleAtZeroJanuary(now: Date)
    requires ValidDate(now) && now.month == January && now.year > 2000
    ensures SelectTitle(TargetDate(now, 0.0), now) == Now
  {
    TargetAtZero(now);
  }

  // ---------------------------------------------------------------- info

  /** The total length of a sequence of strings. */
  function TotalLength(parts: seq<string>): nat
  {
    if |parts| == 0 then 0 else |parts[0]| + TotalLength(parts[1..])
  }

  /** `join`: the parts with `sep` between consecutive ones. */
  function Join(parts: seq<string>, sep: string): string
  {
    if |parts| == 0 then ""
    else if |parts| == 1 then parts[0]
    else parts[0] + sep + Join(parts[1..], sep)
  }

  /** A join is as long as the parts and the `|parts| - 1` separators together; it starts with
      the first part, followed by the separator when there are more, and ends with the last
      part. */
  lemma {:induction false} JoinSpec(parts: seq<string>, sep: string)
    ensures |parts| == 0 ==> Join(parts, sep) == ""
    ensures |parts| > 0 ==> |Join(parts, sep)| == TotalLength(parts) + (|parts| - 1) * |sep|
    ensures |parts| > 0 ==>
      |parts[0]| <= |Join(parts, sep)| && Join(parts, sep)[..|parts[0]|] == parts[0]
    ensures |parts| > 1 ==> Join(parts, sep)[|parts[0]|..|parts[0]| + |sep|] == sep
    ensures |parts| > 0 ==>
      (|parts[|parts| - 1]| <= |Join(parts, sep)| &&
       Join(parts, sep)[|Join(parts, sep)| - |parts[|parts| - 1]|..] == parts[|parts| - 1])
  {
    if |parts| > 0 {
      JoinLength(parts, sep);
      JoinEnds(parts, sep);
      var r := Join(parts, sep);
      if |parts| > 1 {
        assert r == parts[0] + sep + Join(parts[1..], sep);
      }
    }
  }

  lemma {:induction false} JoinLength(parts: seq<string>, sep: string)
    requires |parts| > 0
    ensures |Join(parts, sep)| == TotalLength(parts) + (|parts| - 1) * |sep|
  {
    assert TotalLength(parts) == |parts[0]| + TotalLength(parts[1..]);
    if |parts| > 1 {
      JoinLength(parts[1..], sep);
      assert (|parts| - 1) * |sep| == |sep| + (|parts| - 2) * |sep|;
    }
  }

  lemma {:induction false} JoinEnds(parts: seq<string>, sep: string)
    requires |parts| > 0
    ensures |parts[|parts| - 1]| <= |Join(parts, sep)|
    ensures Join(parts, sep)[|Join(parts, sep)| - |parts[|parts| - 1]|..] == parts[|parts| - 1]
  {
    if |parts| > 1 {
      JoinEnds(parts[1..], sep);
      var rest, last := Join(parts[1..], sep), parts[|parts| - 1];
      assert parts[1..][|parts[1..]| - 1] == last;
      var r := Join(parts, sep);
      assert r == parts[0] + sep + rest;
      assert r[|r| - |last|..] == rest[|rest| - |last|..];
    }
  }

  /** The `info` texts of the events, in order. */
  function Infos(events: seq<Event>): (r: seq<string>)
    ensures |r| == |events|
    ensures forall i :: 0 <= i < |events| ==> r[i] == events[i].info
  {
    if events == [] then [] else [events[0].info] + Infos(events[1..])
  }

  /** The info string of a target date: the text of the event `get_events` returns for it. */
  function EventInfo(date: Date): (r: string)
    ensures SortedByDate(Table)
    ensures r == Table[LookupIndex(Table, date)].info
  {
    TableLookup(date);
    Join(Infos([Table[LookupIndex(Table, date)]]), ", ")
  }

  /** The string made of the looked-up events is `EventInfo`. */
  lemma InfoOfLookup(events: seq<Event>, date: Date)
    requires SortedByDate(Table) && events == [Table[LookupIndex(Table, date)]]
    ensures Join(Infos(events), ", ") == EventInfo(date)
  {
  }

  /** Dates up to the Ides of March, 44 BC, are annotated with Caesar's assassination, and dates
      after September 11, 2001 with 9/11. */
  lemma EventInfoAtEnds(date: Date)
    ensures DateLe(date, Caesar.date) ==> EventInfo(date) == "Julius Caesar assasinated"
    ensures DateLt(SeptemberEleven.date, date) ==> EventInfo(date) == "9/11"
  {
    TableLookup(date);
    DateOrderIsTotal(Caesar.date, PearlHarbour.date, date);
    DateOrderIsTotal(PearlHarbour.date, SeptemberEleven.date, date);
    DateOrderIsTotal(date, Caesar.date, PearlHarbour.date);
    DateOrderIsTotal(date, PearlHarbour.date, SeptemberEleven.date);
  }

  /** The date computation of `set_progress`: the years past the start of the anchor's year
      decide between an earlier year and the anchor's own; the result is a valid date of a year
      no later than the anchor's. */
  method ComputeTarget(now: Date, subtractTotalYears: real) returns (target: Date)
    requires AnchorHasDayOfYear(now)
    ensures target == TargetDate(now, subtractTotalYears)
    ensures ValidDate(target) && target.year <= now.year
  {
    var nowDoy := YmdToDayOfYear(now);
    var startProgYear := GetProgressThroughYear(nowDoy, now.year);
    assert startProgYear == StartProgress(now);
    var subY := subtractTotalYears - startProgYear;
    assert subY == SubYears(now, subtractTotalYears);
    if subY > 0.0 {
      // an earlier year
      var y := now.year - Ceil(subY);
      assert y == TargetYear(now, subtractTotalYears);
      assert 1.0 - Fract(subY) == TargetFraction(now, subtractTotalYears);
      var doy := FromProgressThroughYear(y, 1.0 - Fract(subY));
      target := DayOfYearToYmd(doy, y);
    } else {
      // the anchor's year
      var y := now.year;
      assert y == TargetYear(now, subtractTotalYears);
      var again := YmdToDayOfYear(now);
      assert GetProgressThroughYear(again, now.year) - subtractTotalYears ==
        TargetFraction(now, subtractTotalYears);
      var doy := FromProgressThroughYear(y, GetProgressThroughYear(again, now.year) - subtractTotalYears);
      target := DayOfYearToYmd(doy, y);
    }
    assert target == DayOfYearToDate(DayOfYearAtProgress(TargetYear(now, subtractTotalYears),
      TargetFraction(now, subtractTotalYears)), TargetYear(now, subtractTotalYears));
    TargetDateSpec(now, subtractTotalYears);
  }

  // ---------------------------------------------------------------- the progress record

  /** `Progress`: the anchor `now` is fixed at construction; `set_progress` overwrites the rest. */
  class Progress {
    const now: Date
    var progress: real
    var date: Date
    var title: Title
    var info: string

    /** The stored date, title and info agree with each other and with the anchor. */
    ghost predicate Valid()
      reads this
    {
      AnchorHasDayOfYear(now) && ValidDate(date) &&
      title == SelectTitle(date, now) && info == EventInfo(date)
    }

    /** `new_with_date`: anchors the record at `d` and sets progress 0, for which the formula
        yields `subtractTotalYears`. */
    constructor (d: Date, subtractTotalYears: real)
      requires AnchorHasDayOfYear(d)
      ensures Valid()
      ensures now == d && progress == 0.0
      ensures date == TargetDate(d, subtractTotalYears)
    {
      now := d;
      progress := 0.0;
      date := d;
      title := Empty;
      info := "";
      new;
      SetProgress(0.0, subtractTotalYears);
    }

    /** `set_progress`: stores `p` and recomputes the target date, its title and its info. */
    method SetProgress(p: real, subtractTotalYears: real)
      requires AnchorHasDayOfYear(now)
      modifies this
      ensures Valid()
      ensures progress == p
      ensures date == TargetDate(now, subtractTotalYears)
      ensures title == SelectTitle(date, now)
      ensures info == Table[LookupIndex(Table, date)].info
    {
      progress := p;
      var target := ComputeTarget(now, subtractTotalYears);
      date := target;
      TargetDateSpec(now, subtractTotalYears);
      title := SelectTitle(date, now);
      TableIsSortedPushed(Table);
      SortedIsSortedByDate(Table);
      var events := GetEvents(Table, now, date);
      InfoOfLookup(events, date);
      info := Join(Infos(events), ", ");
    }

    /** `get_progress`: the value the last `set_progress` stored. */
    method GetProgress() returns (p: real)
      ensures p == progress
    {
      p := progress;
    }
  }
}
