/**
  Proleptic Gregorian calendar arithmetic of the timeline (src/date.rs):
  leap years, month lengths and ordinals, the two loop-based conversions
  between a (year, month, day) date and a day of the year, and the clamping
  conversion from a fraction of the year to a day of the year.
 */
module Calendar {
  import opened Wrappers

  /** Rust's unsigned integer widths used by the calendar types. */
  type U8 = x: int | 0 <= x < 0x100
  type U16 = x: int | 0 <= x < 0x1_0000
  type U64 = x: int | 0 <= x < 0x1_0000_0000_0000_0000

  /** The twelve months in declaration order, which is also the order Rust derives.
      The second variant keeps the spelling it has in the program. */
  datatype Month = January | Feburary | March | April | May | June
                 | July | August | September | October | November | December

  /** A date: an `i64` year (unbounded here), a month and a `u8` day that is never range-checked. */
  datatype Date = Date(year: int, month: Month, day: U8)

  /** A date whose day lies within its month. */
  predicate ValidDate(d: Date)
  {
    1 <= d.day <= NumDays(d.month, d.year)
  }

  // ---------------------------------------------------------------- years

  /** Rust's `/` on `i64`: the quotient truncated toward zero. */
  function TruncDiv(a: int, b: int): int
    requires b > 0
  {
    if a >= 0 then a / b else -((-a) / b)
  }

  /** Rust's `%` on `i64`: the remainder of the truncated division. */
  function RemTrunc(a: int, b: int): int
    requires b > 0
  {
    if a >= 0 then a % b else -((-a) % b)
  }

  /** What Rust promises of `%`: `a == b * (a / b) + a % b` for the truncating `/`, the
      remainder taking the sign of `a` and staying strictly within `b`. */
  lemma RemTruncSpec(a: int, b: int)
    requires b > 0
    ensures -b < RemTrunc(a, b) < b
    ensures a >= 0 ==> RemTrunc(a, b) >= 0
    ensures a < 0 ==> RemTrunc(a, b) <= 0
    ensures a == b * TruncDiv(a, b) + RemTrunc(a, b)
  {
  }

  /** `Year::is_leap_year`: the Gregorian rule, applied to every year including negative ones. */
  predicate IsLeapYear(year: int)
  {
    if RemTrunc(year, 4) != 0 then false
    else if RemTrunc(year, 100) != 0 then true
    else if RemTrunc(year, 400) != 0 then false
    else true
  }

  /** The truncating tests agree with divisibility, so the rule holds for negative years too. */
  lemma LeapYearRule(year: int)
    ensures IsLeapYear(year) <==> year % 4 == 0 && (year % 100 != 0 || year % 400 == 0)
  {
    NegatedDivisible(year);
  }

  lemma NegatedDivisible(a: int)
    ensures (-a) % 4 == 0 <==> a % 4 == 0
    ensures (-a) % 100 == 0 <==> a % 100 == 0
    ensures (-a) % 400 == 0 <==> a % 400 == 0
  {
    NegatedDivisibleBy4(a);
    NegatedDivisibleBy100(a);
    NegatedDivisibleBy400(a);
  }

  lemma NegatedDivisibleBy4(a: int)
    ensures (-a) % 4 == 0 <==> a % 4 == 0
  {
  }

  lemma NegatedDivisibleBy100(a: int)
    ensures (-a) % 100 == 0 <==> a % 100 == 0
  {
  }

  lemma NegatedDivisibleBy400(a: int)
    ensures (-a) % 400 == 0 <==> a % 400 == 0
  {
  }

  /** `Year::get_num_days`. */
  function GetNumDays(year: int): (r: U16)
    ensures r == 365 || r == 366
    ensures r == 366 <==> IsLeapYear(year)
  {
    if IsLeapYear(year) then 366 else 365
  }

  // ---------------------------------------------------------------- months

  /** `Month::all_months`: the months in calendar order. */
  const AllMonths: seq<Month> :=
    [January, Feburary, March, April, May, June, July, August, September, October, November, December]

  /** `Month::ordinal0`: the month's position in `AllMonths`. */
  function Ordinal0(m: Month): (r: U8)
    ensures r < 12 && r < |AllMonths| && AllMonths[r] == m
  {
    match m
    case January => 0
    case Feburary => 1
    case March => 2
    case April => 3
    case May => 4
    case June => 5
    case July => 6
    case August => 7
    case September => 8
    case October => 9
    case November => 10
    case December => 11
  }

  /** `Month::ordinal1`: the 1-based month number. */
  function Ordinal1(m: Month): (r: U8)
    ensures 1 <= r <= 12
    ensures r == Ordinal0(m) + 1
  {
    match m
    case January => 1
    case Feburary => 2
    case March => 3
    case April => 4
    case May => 5
    case June => 6
    case July => 7
    case August => 8
    case September => 9
    case October => 10
    case November => 11
    case December => 12
  }

  /** `Month::from0`: the month with 0-based number `n`, if there is one. */
  function From0(n: U64): (r: Option<Month>)
    ensures r.None? <==> n >= 12
    ensures r.Some? ==> Ordinal0(r.value) == n
  {
    match n
    case 0 => Some(January)
    case 1 => Some(Feburary)
    case 2 => Some(March)
    case 3 => Some(April)
    case 4 => Some(May)
    case 5 => Some(June)
    case 6 => Some(July)
    case 7 => Some(August)
    case 8 => Some(September)
    case 9 => Some(October)
    case 10 => Some(November)
    case 11 => Some(December)
    case _ => None
  }

  /** `Month::from1`: the month with 1-based number `n`, if there is one. */
  function From1(n: U64): (r: Option<Month>)
    ensures r.None? <==> n == 0 || n > 12
    ensures r.Some? ==> Ordinal1(r.value) == n
  {
    match n
    case 1 => Some(January)
    case 2 => Some(Feburary)
    case 3 => Some(March)
    case 4 => Some(April)
    case 5 => Some(May)
    case 6 => Some(June)
    case 7 => Some(July)
    case 8 => Some(August)
    case 9 => Some(September)
    case 10 => Some(October)
    case 11 => Some(November)
    case 12 => Some(December)
    case _ => None
  }

  /** Both numberings are inverted by the matching `from` conversion. */
  lemma OrdinalRoundTrip(m: Month)
    ensures From0(Ordinal0(m)) == Some(m)
    ensures From1(Ordinal1(m)) == Some(m)
  {
  }

  /** `Month::num_days`: the Gregorian month lengths, February depending on the year. */
  function NumDays(m: Month, year: int): (r: U8)
    ensures 28 <= r <= 31
    ensures m == Feburary ==> (r == 29 <==> IsLeapYear(year)) && (r == 28 <==> !IsLeapYear(year))
    ensures m in {April, June, September, November} ==> r == 30
    ensures m !in {Feburary, April, June, September, November} ==> r == 31
  {
    match m
    case January => 31
    case Feburary => if IsLeapYear(year) then 29 else 28
    case March => 31
    case April => 30
    case May => 31
    case June => 30
    case July => 31
    case August => 31
    case September => 30
    case October => 31
    case November => 30
    case December => 31
  }

  /** The total length of the first `k` months of `year`. */
  function SumFirst(k: nat, year: int): nat
    requires k <= 12
  {
    if k == 0 then 0 else SumFirst(k - 1, year) + NumDays(AllMonths[k - 1], year)
  }

  /** The number of days of `year` before the first of month `m`. */
  function DaysBefore(m: Month, year: int): int
  {
    SumFirst(Ordinal0(m), year)
  }

  /** The intended day of the year of `d`: the lengths of the earlier months plus the day. */
  function DayOfYear(d: Date): int
  {
    DaysBefore(d.month, d.year) + d.day
  }

  /** The cumulative month lengths, spelled out. */
  lemma {:induction false} SumFirstTable(year: int)
    ensures var l := if IsLeapYear(year) then 1 else 0;
      SumFirst(1, year) == 31 && SumFirst(2, year) == 59 + l && SumFirst(3, year) == 90 + l &&
      SumFirst(4, year) == 120 + l && SumFirst(5, year) == 151 + l && SumFirst(6, year) == 181 + l &&
      SumFirst(7, year) == 212 + l && SumFirst(8, year) == 243 + l && SumFirst(9, year) == 273 + l &&
      SumFirst(10, year) == 304 + l && SumFirst(11, year) == 334 + l && SumFirst(12, year) == 365 + l
  {
  }

  /** The lengths of all twelve months add up to the length of the year. */
  lemma MonthsSumToYear(year: int)
    ensures SumFirst(12, year) == GetNumDays(year)
  {
    SumFirstTable(year);
  }

  /** Longer prefixes of the year hold at least as many days. */
  lemma {:induction false} SumFirstMonotone(i: nat, j: nat, year: int)
    requires i <= j <= 12
    ensures SumFirst(i, year) <= SumFirst(j, year)
    decreases j - i
  {
    if i < j {
      SumFirstMonotone(i, j - 1, year);
    }
  }

  // ---------------------------------------------------------------- ordering

  /** Rust's derived `Ord` on `Date`: lexicographic by year, month, day. */
  predicate DateLt(a: Date, b: Date)
  {
    a.year < b.year ||
    (a.year == b.year && (Ordinal0(a.month) < Ordinal0(b.month) ||
                          (a.month == b.month && a.day < b.day)))
  }

  predicate DateLe(a: Date, b: Date)
  {
    DateLt(a, b) || a == b
  }

  /** The derived order is a strict total order. */
  lemma DateOrderIsTotal(a: Date, b: Date, c: Date)
    ensures !DateLt(a, a)
    ensures DateLt(a, b) ==> !DateLt(b, a)
    ensures DateLt(a, b) && DateLt(b, c) ==> DateLt(a, c)
    ensures DateLt(a, b) || a == b || DateLt(b, a)
  {
    OrdinalRoundTrip(a.month);
    OrdinalRoundTrip(b.month);
  }

  /** Within one year and on valid dates, the derived order is chronological order. */
  lemma Chronological(a: Date, b: Date)
    requires ValidDate(a) && ValidDate(b) && a.year == b.year
    ensures DateLt(a, b) <==> DayOfYear(a) < DayOfYear(b)
  {
    var i, j := Ordinal0(a.month), Ordinal0(b.month);
    if i < j {
      SumFirstMonotone(i + 1, j, a.year);
    } else if j < i {
      SumFirstMonotone(j + 1, i, a.year);
    } else {
      OrdinalRoundTrip(a.month);
      OrdinalRoundTrip(b.month);
    }
  }

  // ---------------------------------------------------------------- day of year -> date

  /** The walk of `day_of_year_to_ymd` from month index `i` on, with `day` days left. */
  function WalkMonths(day: int, year: int, i: nat): Date
    requires 0 <= day && i <= 12
    decreases 12 - i
  {
    if i == 12 then Date(year, December, 31)
    else if day <= NumDays(AllMonths[i], year) then Date(year, AllMonths[i], day)
    else WalkMonths(day - NumDays(AllMonths[i], year), year, i + 1)
  }

  /** The date `day_of_year_to_ymd(doy, year)` returns. */
  function DayOfYearToDate(doy: U16, year: int): Date
  {
    WalkMonths(doy, year, 0)
  }

  /** `day_of_year_to_ymd`: subtracts month lengths from a running `u16` count until it fits. */
  method DayOfYearToYmd(doy: U16, year: int) returns (d: Date)
    ensures d == DayOfYearToDate(doy, year)
    ensures d.year == year
    ensures 1 <= doy <= GetNumDays(year) ==> ValidDate(d) && DayOfYear(d) == doy
    ensures doy > GetNumDays(year) ==> d == Date(year, December, 31)
    ensures doy == 0 ==> d == Date(year, January, 0)
  {
    var day: U16 := doy;
    for i := 0 to 12
      invariant WalkMonths(day, year, i) == DayOfYearToDate(doy, year)
    {
      var month := AllMonths[i];
      if day <= NumDays(month, year) {
        d := Date(year, month, day);
        assert d == DayOfYearToDate(doy, year);
        DayOfYearToDateSpec(doy, year);
        return;
      }
      day := day - NumDays(month, year);
    }
    d := Date(year, December, 31);
    assert d == DayOfYearToDate(doy, year);
    DayOfYearToDateSpec(doy, year);
  }

  lemma {:induction false} WalkInRange(day: int, year: int, i: nat)
    requires i <= 12 && 1 <= day && day + SumFirst(i, year) <= SumFirst(12, year)
    ensures var d := WalkMonths(day, year, i);
      d.year == year && ValidDate(d) && DayOfYear(d) == day + SumFirst(i, year)
    decreases 12 - i
  {
    if i < 12 {
      var n := NumDays(AllMonths[i], year);
      if day > n {
        WalkInRange(day - n, year, i + 1);
      }
    }
  }

  lemma {:induction false} WalkBeyond(day: int, year: int, i: nat)
    requires i <= 12 && 0 <= day && day + SumFirst(i, year) > SumFirst(12, year)
    ensures WalkMonths(day, year, i) == Date(year, December, 31)
    decreases 12 - i
  {
    if i < 12 {
      SumFirstMonotone(i + 1, 12, year);
      WalkBeyond(day - NumDays(AllMonths[i], year), year, i + 1);
    }
  }

  lemma {:induction false} WalkKeepsYear(day: int, year: int, i: nat)
    requires 0 <= day && i <= 12
    ensures WalkMonths(day, year, i).year == year
    decreases 12 - i
  {
    if i < 12 && day > NumDays(AllMonths[i], year) {
      WalkKeepsYear(day - NumDays(AllMonths[i], year), year, i + 1);
    }
  }

  /** What `day_of_year_to_ymd` promises: it keeps the year; a day of the year within the
      year becomes the valid date with that day of the year; anything past the end of the
      year becomes December 31; day 0 becomes January 0. */
  lemma DayOfYearToDateSpec(doy: U16, year: int)
    ensures DayOfYearToDate(doy, year).year == year
    ensures 1 <= doy <= GetNumDays(year) ==>
      ValidDate(DayOfYearToDate(doy, year)) && DayOfYear(DayOfYearToDate(doy, year)) == doy
    ensures doy > GetNumDays(year) ==> DayOfYearToDate(doy, year) == Date(year, December, 31)
    ensures doy == 0 ==> DayOfYearToDate(doy, year) == Date(year, January, 0)
  {
    WalkKeepsYear(doy, year, 0);
    MonthsSumToYear(year);
    if 1 <= doy <= GetNumDays(year) {
      WalkInRange(doy, year, 0);
    } else if doy > GetNumDays(year) {
      WalkBeyond(doy, year, 0);
    }
  }

  /** The intended round trip: a valid date survives conversion to its day of the year and back. */
  lemma DateRoundTrip(d: Date)
    requires ValidDate(d)
    ensures 1 <= DayOfYear(d) <= GetNumDays(d.year)
    ensures DayOfYearToDate(DayOfYear(d), d.year) == d
  {
    var i := Ordinal0(d.month);
    SumFirstMonotone(i + 1, 12, d.year);
    MonthsSumToYear(d.year);
    assert SumFirst(i + 1, d.year) == SumFirst(i, d.year) + NumDays(d.month, d.year);
    var e := DayOfYearToDate(DayOfYear(d), d.year);
    DayOfYearToDateSpec(DayOfYear(d), d.year);
    Chronological(d, e);
    Chronological(e, d);
    DateOrderIsTotal(d, e, e);
  }

  /** Converting a larger day of the year never gives an earlier date. */
  lemma DayOfYearToDateMonotone(k1: U16, k2: U16, year: int)
    requires 1 <= k1 <= k2 <= GetNumDays(year)
    ensures DateLe(DayOfYearToDate(k1, year), DayOfYearToDate(k2, year))
  {
    DayOfYearToDateSpec(k1, year);
    DayOfYearToDateSpec(k2, year);
    var a, b := DayOfYearToDate(k1, year), DayOfYearToDate(k2, year);
    Chronological(a, b);
    Chronological(b, a);
    DateOrderIsTotal(a, b, b);
  }

  // ---------------------------------------------------------------- date -> day of year

  /** What `ymd_to_day_of_year` computes as written: every pass of its loop adds the length
      of the date's own month rather than of the month being passed over. */
  function AsWrittenDayOfYear(d: Date): (r: U16)
    ensures r <= 11 * 31 + 255
  {
    Ordinal0(d.month) * NumDays(d.month, d.year) + d.day
  }

  /** `ymd_to_day_of_year`; the fall-back after the loop is never reached. */
  method YmdToDayOfYear(date: Date) returns (doy: U16)
    ensures doy == AsWrittenDayOfYear(date)
    ensures doy == DayOfYear(date) <==>
      date.month == January || (date.month == April && !IsLeapYear(date.year))
  {
    AsWrittenAgreesIff(date);
    doy := 0;
    for i := 0 to 12
      invariant i <= Ordinal0(date.month)
      invariant doy == i * NumDays(date.month, date.year)
    {
      var month := AllMonths[i];
      if month == date.month {
        doy := doy + date.day;
        return;
      }
      doy := doy + NumDays(date.month, date.year);
    }
    assert false;
  }

  /** The value as written equals the intended day of the year exactly for January, and for
      April in a common year (3 * 30 == 31 + 28 + 31). */
  lemma AsWrittenAgreesIff(d: Date)
    ensures AsWrittenDayOfYear(d) == DayOfYear(d) <==>
      d.month == January || (d.month == April && !IsLeapYear(d.year))
  {
    SumFirstTable(d.year);
  }

  /** Late December dates get a value as written past the end of the year. */
  lemma AsWrittenPastYearEnd(d: Date)
    requires d.month == December && d.day >= 26
    ensures AsWrittenDayOfYear(d) == 341 + d.day
    ensures AsWrittenDayOfYear(d) > GetNumDays(d.year)
  {
  }

  /** The round trip through `ymd_to_day_of_year` and `day_of_year_to_ymd`, as written, returns a
      valid date unchanged exactly for January, April of a common year and December 31. */
  lemma AsWrittenRoundTripIff(d: Date)
    requires ValidDate(d)
    ensures DayOfYearToDate(AsWrittenDayOfYear(d), d.year) == d <==>
      d.month == January || (d.month == April && !IsLeapYear(d.year)) ||
      (d.month == December && d.day == 31)
  {
    var k := AsWrittenDayOfYear(d);
    var e := DayOfYearToDate(k, d.year);
    AsWrittenAgreesIff(d);
    DayOfYearToDateSpec(k, d.year);
    DateRoundTrip(d);
    if d.month == December && d.day == 31 {
      AsWrittenPastYearEnd(d);
    } else if e == d {
      if k > GetNumDays(d.year) {
        assert e.month == December && e.day == 31;
      } else {
        assert DayOfYear(e) == k;
      }
    }
  }

  /** The round trip fails for February 1, 2023: it comes back as January 29. */
  lemma AsWrittenRoundTripFails()
    ensures AsWrittenDayOfYear(Date(2023, Feburary, 1)) == 29
    ensures DayOfYearToDate(29, 2023) == Date(2023, January, 29)
  {
  }

  // ---------------------------------------------------------------- fractions of a year

  /** `DayOfYear::get_progress_through_year` over exact reals: `(doy - 1) / days`, clamped to
      [0, 1]. The `u16` subtraction `doy - 1` requires `doy >= 1`. */
  function GetProgressThroughYear(doy: U16, year: int): (r: real)
    requires doy >= 1
    ensures 0.0 <= r <= 1.0
    ensures doy <= GetNumDays(year) ==> r == (doy - 1) as real / GetNumDays(year) as real
    ensures doy > GetNumDays(year) ==> r == 1.0
  {
    var p := (doy - 1) as real / GetNumDays(year) as real;
    var lower := if p < 0.0 then 0.0 else p;
    if lower > 1.0 then 1.0 else lower
  }

  /** Later days are never earlier in the year. */
  lemma ProgressThroughYearMonotone(k1: U16, k2: U16, year: int)
    requires 1 <= k1 <= k2
    ensures GetProgressThroughYear(k1, year) <= GetProgressThroughYear(k2, year)
  {
    var n := GetNumDays(year) as real;
    assert (k1 - 1) as real / n <= (k2 - 1) as real / n;
  }

  /** The day of the year `from_progress_through_year` returns for fraction `p`:
      `floor(days * p) + 1` after clamping `p` to [0, 1], capped at the last day. */
  function DayOfYearAtProgress(year: int, p: real): (r: U16)
    ensures 1 <= r <= GetNumDays(year)
    ensures p <= 0.0 ==> r == 1
    ensures p >= 1.0 ==> r == GetNumDays(year)
  {
    var n := GetNumDays(year);
    var q := if p < 0.0 then 0.0 else if p >= 1.0 then 1.0 else p;
    FloorScaledBound(n, q);
    var k := (n as real * q).Floor + 1;
    if k > n then n else k
  }

  lemma FloorScaledBound(n: nat, q: real)
    requires 0.0 <= q <= 1.0
    ensures 0 <= (n as real * q).Floor <= n
  {
    assert 0.0 <= n as real * q <= n as real;
  }

  /** A larger fraction of the year never gives an earlier day. */
  lemma DayOfYearAtProgressMonotone(year: int, p1: real, p2: real)
    requires p1 <= p2
    ensures DayOfYearAtProgress(year, p1) <= DayOfYearAtProgress(year, p2)
  {
    var n := GetNumDays(year) as real;
    var q1 := if p1 < 0.0 then 0.0 else if p1 >= 1.0 then 1.0 else p1;
    var q2 := if p2 < 0.0 then 0.0 else if p2 >= 1.0 then 1.0 else p2;
    assert q1 <= q2;
    assert n * q1 <= n * q2;
  }

  /** At the fraction of the year before a day, the day itself is found again. */
  lemma DayOfYearAtProgressInverts(k: U16, year: int)
    requires 1 <= k <= GetNumDays(year)
    ensures DayOfYearAtProgress(year, GetProgressThroughYear(k, year)) == k
  {
    var n := GetNumDays(year) as real;
    var p := GetProgressThroughYear(k, year);
    assert p == (k - 1) as real / n;
    assert n * p == (k - 1) as real;
  }

  /** `DayOfYear::from_progress_through_year`: clamps its argument and the result in place. */
  method FromProgressThroughYear(year: int, progress: real) returns (doy: U16)
    ensures doy == DayOfYearAtProgress(year, progress)
    ensures 1 <= doy <= GetNumDays(year)
  {
    var p := progress;
    if p < 0.0 {
      p := 0.0;
    } else if p >= 1.0 {
      p := 1.0;
    }
    FloorScaledBound(GetNumDays(year), p);
    doy := (GetNumDays(year) as real * p).Floor + 1;
    if doy > GetNumDays(year) {
      doy := GetNumDays(year);
    }
  }
}
