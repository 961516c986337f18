/** The day arithmetic of timestamps against the proleptic Gregorian calendar. */
module Calendar {
  datatype Date = Date(year: int, month: int, day: int)

  // ----- the calendar -----

  predicate IsLeap(y: int) {
    y % 4 == 0 && (y % 100 != 0 || y % 400 == 0)
  }

  function LeapDay(y: int): int {
    if IsLeap(y) then 1 else 0
  }

  function MonthLength(y: int, m: int): int {
    if m == 2 then 28 + LeapDay(y)
    else if m == 4 || m == 6 || m == 9 || m == 11 then 30
    else 31
  }

  predicate IsDate(d: Date) {
    0 <= d.year && 1 <= d.month <= 12 && 1 <= d.day <= MonthLength(d.year, d.month)
  }

  /** The day after. */
  function NextDay(d: Date): Date {
    if d.day < MonthLength(d.year, d.month) then Date(d.year, d.month, d.day + 1)
    else if d.month < 12 then Date(d.year, d.month + 1, 1)
    else Date(d.year + 1, 1, 1)
  }

  const EPOCH: Date := Date(1970, 1, 1)

  /** The date `n` days after the epoch, counted day by day. */
  function DateAfter(n: nat): Date {
    if n == 0 then EPOCH else NextDay(DateAfter(n - 1))
  }

  /** Days of the years `0 .. y - 1`. */
  function DaysBeforeYear(y: nat): int {
    if y == 0 then 0 else DaysBeforeYear(y - 1) + 365 + LeapDay(y - 1)
  }

  /** Days of the months before month `m`. */
  function DaysBeforeMonth(y: int, m: nat): int {
    if m <= 1 then 0 else DaysBeforeMonth(y, m - 1) + MonthLength(y, m - 1)
  }

  const EPOCH_DAY: int := 719_528

  /** Days from the epoch to a date, counted by whole years and months. */
  function DayNumber(d: Date): int
    requires IsDate(d)
  {
    DaysBeforeYear(d.year) + DaysBeforeMonth(d.year, d.month) + d.day - 1 - EPOCH_DAY
  }

  // ----- the algorithm -----

  /** Days of the years before `yoe` in a 400-year era whose years begin in March. */
  function EraDays(yoe: int): int {
    365 * yoe + yoe / 4 - yoe / 100
  }

  function YearOfEra(doe: int): int {
    (doe - doe / 1_460 + doe / 36_524 - doe / 146_096) / 365
  }

  /** Days before month `mp`, counted from March. */
  function MarchMonthDays(mp: int): int {
    (153 * mp + 2) / 5
  }

  /** The civil date of a day count, as the timestamp code computes it. */
  function CivilFromDays(days: int): Date {
    var z := days + 719_468;
    var era := z / 146_097;
    var doe := z % 146_097;
    var yoe := YearOfEra(doe);
    var doy := doe - EraDays(yoe);
    var mp := (5 * doy + 2) / 153;
    var day := doy - MarchMonthDays(mp) + 1;
    var month := if mp < 10 then mp + 3 else mp - 9;
    Date(yoe + era * 400 + (if month <= 2 then 1 else 0), month, day)
  }

  // ----- closed forms -----

  lemma NextQuotient(x: nat)
    ensures (x + 1) / 4 == x / 4 + (if (x + 1) % 4 == 0 then 1 else 0)
    ensures (x + 1) / 100 == x / 100 + (if (x + 1) % 100 == 0 then 1 else 0)
    ensures (x + 1) / 400 == x / 400 + (if (x + 1) % 400 == 0 then 1 else 0)
  {
  }

  lemma MultipleOf(x: nat, k: nat, q: nat)
    requires 0 < k && x == k * q
    ensures x % k == 0
  {
    QuotientIs(x, k, q);
  }

  lemma LeapByDivisors(y: nat)
    ensures LeapDay(y) ==
      (if y % 4 == 0 then 1 else 0) - (if y % 100 == 0 then 1 else 0) + (if y % 400 == 0 then 1 else 0)
  {
    if y % 100 == 0 {
      MultipleOf(y, 4, 25 * (y / 100));
    }
    if y % 400 == 0 {
      MultipleOf(y, 100, 4 * (y / 400));
    }
  }

  /** Leap years before year `y`. */
  function LeapsBefore(y: nat): int {
    (y + 3) / 4 - (y + 99) / 100 + (y + 399) / 400
  }

  lemma LeapsBeforeNext(y: nat)
    ensures LeapsBefore(y + 1) == LeapsBefore(y) + LeapDay(y)
  {
    NextQuotient(y + 3);
    NextQuotient(y + 99);
    NextQuotient(y + 399);
    LeapByDivisors(y);
    hide LeapDay;
    Shift4(y);
    Shift100(y);
    Shift400(y);
  }

  lemma Shift4(y: nat)
    ensures (y + 4) % 4 == y % 4 && (y + 4) / 4 == y / 4 + 1
  {
  }

  lemma Shift100(y: nat)
    ensures (y + 100) % 100 == y % 100 && (y + 100) / 100 == y / 100 + 1
  {
  }

  lemma Shift400(y: nat)
    ensures (y + 400) % 400 == y % 400 && (y + 400) / 400 == y / 400 + 1
  {
  }

  lemma {:induction false} YearClosedForm(y: nat)
    ensures DaysBeforeYear(y) == 365 * y + LeapsBefore(y)
  {
    if y > 0 {
      YearClosedForm(y - 1);
      LeapsBeforeNext(y - 1);
      hide LeapsBefore, LeapDay;
    }
  }

  lemma MonthTable(y: int)
    ensures DaysBeforeMonth(y, 1) == 0 && DaysBeforeMonth(y, 2) == 31
    ensures DaysBeforeMonth(y, 3) == 59 + LeapDay(y) && DaysBeforeMonth(y, 4) == 90 + LeapDay(y)
    ensures DaysBeforeMonth(y, 5) == 120 + LeapDay(y) && DaysBeforeMonth(y, 6) == 151 + LeapDay(y)
    ensures DaysBeforeMonth(y, 7) == 181 + LeapDay(y) && DaysBeforeMonth(y, 8) == 212 + LeapDay(y)
    ensures DaysBeforeMonth(y, 9) == 243 + LeapDay(y) && DaysBeforeMonth(y, 10) == 273 + LeapDay(y)
    ensures DaysBeforeMonth(y, 11) == 304 + LeapDay(y) && DaysBeforeMonth(y, 12) == 334 + LeapDay(y)
  {
    hide LeapDay;
    assert DaysBeforeMonth(y, 2) == 31;
    assert DaysBeforeMonth(y, 3) == 59 + LeapDay(y);
    assert DaysBeforeMonth(y, 4) == 90 + LeapDay(y);
    assert DaysBeforeMonth(y, 5) == 120 + LeapDay(y);
    assert DaysBeforeMonth(y, 6) == 151 + LeapDay(y);
    assert DaysBeforeMonth(y, 7) == 181 + LeapDay(y);
    assert DaysBeforeMonth(y, 8) == 212 + LeapDay(y);
    assert DaysBeforeMonth(y, 9) == 243 + LeapDay(y);
    assert DaysBeforeMonth(y, 10) == 273 + LeapDay(y);
    assert DaysBeforeMonth(y, 11) == 304 + LeapDay(y);
  }

  // ----- the parts of the algorithm -----

  /** A day of an era as century, four-year cycle, year and day of the year. */
  ghost predicate Decomposed(doe: int, h: int, p: int, s: int, u: int) {
    && doe == 36_524 * h + 1_461 * p + 365 * s + u
    && 0 <= h <= 3 && 0 <= p <= 24 && 0 <= s <= 3 && 0 <= u <= 365
    && (u == 365 ==> s == 3 && (p == 24 ==> h == 3))
  }

  lemma Decompose(doe: int) returns (h: int, p: int, s: int, u: int)
    requires 0 <= doe <= 146_096
    ensures Decomposed(doe, h, p, s, u)
  {
    h := if doe == 146_096 then 3 else doe / 36_524;
    var r := doe - 36_524 * h;
    p := r / 1_461;
    var t := r - 1_461 * p;
    s := if t == 1_460 then 3 else t / 365;
    u := t - 365 * s;
  }

  lemma YearOfDecomposed(doe: int, h: int, p: int, s: int, u: int)
    requires Decomposed(doe, h, p, s, u)
    ensures YearOfEra(doe) == 100 * h + 4 * p + s
  {
    var e := if 24 * h + p + 365 * s + u >= 1_460 then 1 else 0;
    QuotientIs(doe, 1_460, 25 * h + p + e);
    var last := if doe == 146_096 then 1 else 0;
    assert doe / 36_524 == h + last by {
      CenturyOfDecomposed(doe, h, p, s, u);
    }
    assert doe / 146_096 == last;
    QuotientIs(36_500 * h + 1_460 * p + 365 * s + u - e, 365, 100 * h + 4 * p + s);
  }

  lemma CenturyOfDecomposed(doe: int, h: int, p: int, s: int, u: int)
    requires Decomposed(doe, h, p, s, u)
    ensures 0 <= doe <= 146_096 && doe / 36_524 == h + (if doe == 146_096 then 1 else 0)
  {
    var rest := 1_461 * p + 365 * s + u;
    assert rest <= 36_524 && (rest == 36_524 ==> h == 3);
    QuotientIs(doe, 36_524, if rest == 36_524 then h + 1 else h);
  }

  lemma QuotientIs(x: int, k: int, q: int)
    requires 0 < k && k * q <= x < k * q + k
    ensures x / k == q
  {
    var r := x - k * q;
    if x / k > q {
      MulAtLeast(k, x / k, q + 1);
    } else if x / k < q {
      MulAtLeast(k, q, x / k + 1);
    }
  }

  lemma MulAtLeast(k: int, x: int, y: int)
    requires 0 < k && y <= x
    ensures k * y <= k * x
  {
  }

  /** The year of the era is the one whose days include the day, and that year is as long as the
      calendar's year from March of one year to February of the next. */
  lemma YearOfEraIsRight(era: int, doe: int)
    requires 0 <= era && 0 <= doe <= 146_096
    ensures
      var yoe := YearOfEra(doe);
      0 <= yoe <= 399 && 0 <= doe - EraDays(yoe) < 365 + LeapDay(400 * era + yoe + 1)
  {
    var h, p, s, u := Decompose(doe);
    YearOfDecomposed(doe, h, p, s, u);
    var yoe := 100 * h + 4 * p + s;
    hide YearOfEra;
    QuotientIs(yoe, 4, 25 * h + p);
    QuotientIs(yoe, 100, h);
    assert doe - EraDays(yoe) == u;
    if u == 365 {
      LastIsLeap(era, h, p);
    }
  }

  lemma LastIsLeap(era: int, h: int, p: int)
    requires 0 <= h <= 3 && 0 <= p <= 24 && (p == 24 ==> h == 3)
    ensures IsLeap(400 * era + 100 * h + 4 * p + 3 + 1)
  {
    var y := 400 * era + 100 * h + 4 * p + 4;
    assert y == 4 * (100 * era + 25 * h + p + 1);
    if p == 24 {
      assert y == 400 * (era + 1);
    } else {
      assert y == 100 * (4 * era + h) + (4 * p + 4);
    }
  }

  lemma MarchMonth(doy: int, mp: int)
    requires 0 <= doy <= 365 && mp == (5 * doy + 2) / 153
    ensures 0 <= mp <= 11 && MarchMonthDays(mp) <= doy
    ensures mp < 11 ==> doy < MarchMonthDays(mp + 1)
  {
  }

  /** `400 * era + yoe` in March: the days of the era's years are those of the calendar. */
  lemma MarchStart(era: int, yoe: int)
    requires 0 <= era && 0 <= yoe <= 399
    ensures
      var y := 400 * era + yoe;
      DaysBeforeYear(y) + 59 + LeapDay(y) == 146_097 * era + EraDays(yoe) + 60
  {
    var y := 400 * era + yoe;
    YearClosedForm(y);
    LeapsBeforeNext(y);
    hide LeapDay, DaysBeforeYear;
    LeapsThrough(y);
    QuotientIs(y, 4, 100 * era + yoe / 4);
    QuotientIs(y, 100, 4 * era + yoe / 100);
    QuotientIs(y, 400, era);
  }

  lemma LeapsThrough(y: nat)
    ensures LeapsBefore(y + 1) == y / 4 - y / 100 + y / 400 + 1
  {
    Shift4(y);
    Shift100(y);
    Shift400(y);
  }

  // ----- the algorithm is the calendar -----

  /** The algorithm yields a date, and exactly the one with this day number. */
  lemma CivilDayNumber(days: nat)
    ensures IsDate(CivilFromDays(days)) && DayNumber(CivilFromDays(days)) == days
  {
    hide CivilFromDays, YearOfEra, EraDays, LeapDay, MarchToDate, IsDate, DayNumber, MarchMonthDays, DaysBeforeYear;
    var era, doe := (days + 719_468) / 146_097, (days + 719_468) % 146_097;
    DivMod(days + 719_468);
    CivilIsMarch(days);
    YearOfEraIsRight(era, doe);
    var yoe := YearOfEra(doe);
    var doy := doe - EraDays(yoe);
    LeapDayRange(400 * era + yoe + 1);
    MarchMonth(doy, (5 * doy + 2) / 153);
    MarchStart(era, yoe);
    MarchDate(400 * era + yoe, doy, (5 * doy + 2) / 153);
  }

  lemma DivMod(z: nat)
    ensures z == 146_097 * (z / 146_097) + z % 146_097 && 0 <= z / 146_097 && 0 <= z % 146_097 < 146_097
  {
  }

  lemma CivilIsMarch(days: nat)
    ensures
      var era, doe := (days + 719_468) / 146_097, (days + 719_468) % 146_097;
      var yoe := YearOfEra(doe);
      var doy := doe - EraDays(yoe);
      CivilFromDays(days) == MarchToDate(400 * era + yoe, doy, (5 * doy + 2) / 153)
  {
    hide YearOfEra, EraDays, MarchMonthDays;
  }

  /** The date of day `doy` of the year that begins in March of `y`. */
  function MarchToDate(y: int, doy: int, mp: int): Date {
    var month := if mp < 10 then mp + 3 else mp - 9;
    Date(y + (if month <= 2 then 1 else 0), month, doy - MarchMonthDays(mp) + 1)
  }

  lemma MarchDate(y: nat, doy: int, mp: int)
    requires 0 <= doy < 365 + LeapDay(y + 1) && 0 <= mp <= 11 && MarchMonthDays(mp) <= doy
    requires mp < 11 ==> doy < MarchMonthDays(mp + 1)
    ensures
      var d := MarchToDate(y, doy, mp);
      IsDate(d) && DayNumber(d) == DaysBeforeYear(y) + 59 + LeapDay(y) + doy - EPOCH_DAY
  {
    MonthTable(y);
    MonthTable(y + 1);
    hide IsLeap, DaysBeforeMonth;
    assert DaysBeforeYear(y + 1) == DaysBeforeYear(y) + 365 + LeapDay(y);
    hide DaysBeforeYear;
    MarchTable(mp);
    hide MarchMonthDays;
  }

  lemma MarchTable(mp: int)
    requires 0 <= mp <= 11
    ensures MarchMonthDays(mp) == [0, 31, 61, 92, 122, 153, 184, 214, 245, 275, 306, 337][mp]
    ensures mp < 11 ==> MarchMonthDays(mp + 1) == [0, 31, 61, 92, 122, 153, 184, 214, 245, 275, 306, 337][mp + 1]
  {
    if mp < 4 { } else if mp < 8 { } else { }
  }

  /** The day after has the next number. */
  lemma NextDayNumber(d: Date)
    requires IsDate(d)
    ensures IsDate(NextDay(d)) && DayNumber(NextDay(d)) == DayNumber(d) + 1
  {
    MonthTable(d.year);
    MonthTable(d.year + 1);
    hide IsLeap;
    assert DaysBeforeYear(d.year + 1) == DaysBeforeYear(d.year) + 365 + LeapDay(d.year);
    hide DaysBeforeYear;
  }

  lemma {:induction false} YearsGrow(x: nat, y: nat)
    requires x < y
    ensures DaysBeforeYear(x) + 365 + LeapDay(x) <= DaysBeforeYear(y)
    decreases y - x
  {
    hide LeapDay;
    assert LeapDay(y - 1) >= 0 by {
      LeapDayRange(y - 1);
    }
    if x + 1 < y {
      YearsGrow(x, y - 1);
    }
  }

  lemma LeapDayRange(y: int)
    ensures 0 <= LeapDay(y) <= 1
  {
  }

  lemma {:induction false} MonthsGrow(y: int, m: nat, m': nat)
    requires 1 <= m < m'
    ensures DaysBeforeMonth(y, m) + MonthLength(y, m) <= DaysBeforeMonth(y, m')
    decreases m' - m
  {
    LeapDayRange(y);
    hide LeapDay;
    if m + 1 < m' {
      MonthsGrow(y, m, m' - 1);
    }
  }

  lemma DayWithinYear(d: Date)
    requires IsDate(d)
    ensures 0 <= DaysBeforeMonth(d.year, d.month) + d.day - 1 < 365 + LeapDay(d.year)
  {
    MonthTable(d.year);
    hide IsLeap, DaysBeforeMonth;
  }

  /** Different dates have different numbers. */
  lemma DayNumberInjective(x: Date, y: Date)
    requires IsDate(x) && IsDate(y) && DayNumber(x) == DayNumber(y)
    ensures x == y
  {
    hide LeapDay, DaysBeforeYear, DaysBeforeMonth, MonthLength;
    DayWithinYear(x);
    DayWithinYear(y);
    if x.year < y.year {
      YearsGrow(x.year, y.year);
    } else if y.year < x.year {
      YearsGrow(y.year, x.year);
    } else if x.month < y.month {
      MonthsGrow(x.year, x.month, y.month);
    } else if y.month < x.month {
      MonthsGrow(x.year, y.month, x.month);
    }
  }

  lemma EpochDay()
    ensures IsDate(EPOCH) && DayNumber(EPOCH) == 0
  {
    YearClosedForm(1970);
    MonthTable(1970);
    hide DaysBeforeYear, DaysBeforeMonth;
  }

  lemma {:induction false} DateAfterNumber(n: nat)
    ensures IsDate(DateAfter(n)) && DayNumber(DateAfter(n)) == n
  {
    hide IsDate, DayNumber, NextDay;
    if n == 0 {
      EpochDay();
    } else {
      DateAfterNumber(n - 1);
      NextDayNumber(DateAfter(n - 1));
    }
  }

  /** For every day count the algorithm gives the date that many days after 1 January 1970. */
  lemma CivilIsCalendar(days: nat)
    ensures CivilFromDays(days) == DateAfter(days)
  {
    hide CivilFromDays, DateAfter, DayNumber, IsDate;
    CivilDayNumber(days);
    DateAfterNumber(days);
    DayNumberInjective(CivilFromDays(days), DateAfter(days));
  }

  /** Every date from the epoch on is reached, from exactly its day number. */
  lemma CivilInverse(d: Date, n: nat)
    requires IsDate(d)
    ensures CivilFromDays(n) == d <==> DayNumber(d) == n
  {
    hide CivilFromDays, DayNumber, IsDate;
    CivilDayNumber(n);
    if DayNumber(d) == n {
      DayNumberInjective(CivilFromDays(n), d);
    }
  }

  predicate DateBefore(x: Date, y: Date) {
    x.year < y.year || (x.year == y.year && (x.month < y.month || (x.month == y.month && x.day < y.day)))
  }

  /** Dates are ordered as their day numbers are. */
  lemma DateOrder(x: Date, y: Date)
    requires IsDate(x) && IsDate(y)
    ensures DateBefore(x, y) <==> DayNumber(x) < DayNumber(y)
  {
    hide LeapDay, DaysBeforeYear, DaysBeforeMonth, MonthLength;
    DayWithinYear(x);
    DayWithinYear(y);
    if x.year < y.year {
      YearsGrow(x.year, y.year);
    } else if y.year < x.year {
      YearsGrow(y.year, x.year);
    } else if x.month < y.month {
      MonthsGrow(x.year, x.month, y.month);
    } else if y.month < x.month {
      MonthsGrow(x.year, y.month, x.month);
    }
  }
}
