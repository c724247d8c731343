/** Day and time arithmetic on ECMAScript time values (milliseconds from the
    epoch), following section 21.4.1 of ECMA-262, over unbounded integers and
    the proleptic Gregorian calendar. Months are numbered 0 to 11, as ECMAScript
    numbers them. */
module Calendar {

  // A day is 86,400,000 ms, an hour 3,600,000, a minute 60,000 and a second
  // 1,000; a 400-year cycle of the Gregorian calendar is 146,097 days. The
  // numbers are written out so that the solver sees linear arithmetic.

  function Day(t: int): int {
    t / 86400000
  }

  function TimeWithinDay(t: int): int {
    t % 86400000
  }

  function HourFromTime(t: int): int {
    (t / 3600000) % 24
  }

  function MinFromTime(t: int): int {
    (t / 60000) % 60
  }

  function SecFromTime(t: int): int {
    (t / 1000) % 60
  }

  function MsFromTime(t: int): int {
    t % 1000
  }

  /** The clock fields of a time value add back up to its time within the day. */
  lemma TimeWithinDayFields(t: int)
    ensures TimeWithinDay(t) == HourFromTime(t) * 3600000 + MinFromTime(t) * 60000
                                + SecFromTime(t) * 1000 + MsFromTime(t)
    ensures t == Day(t) * 86400000 + TimeWithinDay(t)
  {
    var s := t / 1000;
    var m := s / 60;
    var h := m / 60;
    var d := h / 24;
    var w := (h % 24) * 3600000 + (m % 60) * 60000 + (s % 60) * 1000 + t % 1000;
    assert t == d * 86400000 + w;
    DivUnique(t, 60000, m, (s % 60) * 1000 + t % 1000);
    DivUnique(t, 3600000, h, (m % 60) * 60000 + (s % 60) * 1000 + t % 1000);
    DivUnique(t, 86400000, d, w);
  }

  /** Euclidean division is determined by its quotient-remainder equation. */
  lemma DivUnique(a: int, c: int, q: int, r: int)
    requires c > 0 && a == q * c + r && 0 <= r < c
    ensures a / c == q && a % c == r
  {
    var q' := a / c;
    assert a == q' * c + a % c;
    if q' < q {
      assert (q - q') * c >= c by { MulAtLeast(q - q', c); }
    } else if q' > q {
      assert (q' - q) * c >= c by { MulAtLeast(q' - q, c); }
    }
  }

  lemma MulAtLeast(k: int, c: int)
    requires k >= 1 && c > 0
    ensures k * c >= c
  {
  }

  /** Moving one year forward crosses a multiple of `c` exactly when the new
      year is divisible by `c`; `base` is one more than a multiple of `c`. */
  lemma CrossingStep(y: int, base: int, c: int)
    requires c > 0 && base % c == 1
    ensures (y + 1 - base) / c == (y - base) / c + (if y % c == 0 then 1 else 0)
  {
    var a := y - base;
    var q := a / c;
    var r := a % c;
    var k := base / c;
    assert base == k * c + 1;
    assert y == (q + k) * c + r + 1;
    if r + 1 < c {
      DivUnique(a + 1, c, q, r + 1);
      DivUnique(y, c, q + k, r + 1);
    } else {
      DivUnique(a + 1, c, q + 1, 0);
      DivUnique(y, c, q + k + 1, 0);
    }
  }

  // ---------------------------------------------------------------- years

  function DaysInYear(y: int): int {
    if y % 4 != 0 then 365
    else if y % 100 != 0 then 366
    else if y % 400 != 0 then 365
    else 366
  }

  predicate InLeapYear(y: int) {
    DaysInYear(y) == 366
  }

  /** The day number of the first day of year `y`. */
  function DayFromYear(y: int): int {
    365 * (y - 1970) + (y - 1969) / 4 - (y - 1901) / 100 + (y - 1601) / 400
  }

  /** Consecutive years start `DaysInYear` days apart. */
  lemma DayFromYearStep(y: int)
    ensures DayFromYear(y + 1) == DayFromYear(y) + DaysInYear(y)
  {
    CrossingStep(y, 1969, 4);
    CrossingStep(y, 1901, 100);
    CrossingStep(y, 1601, 400);
  }

  /** The calendar repeats every 400 years. */
  lemma DayFromYearEra(y: int, k: int)
    ensures DayFromYear(y + 400 * k) == DayFromYear(y) + 146097 * k
  {
    DivUnique(y + 400 * k - 1969, 4, (y - 1969) / 4 + 100 * k, (y - 1969) % 4);
    DivUnique(y + 400 * k - 1901, 100, (y - 1901) / 100 + 4 * k, (y - 1901) % 100);
    DivUnique(y + 400 * k - 1601, 400, (y - 1601) / 400 + k, (y - 1601) % 400);
  }

  /** Years are 365 or 366 days long, so `DayFromYear` is increasing and
      grows by at most 366 a year. */
  lemma {:induction false} DayFromYearMonotone(a: int, b: int)
    requires a <= b
    ensures DayFromYear(a) + 365 * (b - a) <= DayFromYear(b) <= DayFromYear(a) + 366 * (b - a)
    decreases b - a
  {
    if a < b {
      DayFromYearMonotone(a, b - 1);
      DayFromYearStep(b - 1);
    }
  }

  /** The year, counted from 1970, of the 400-year cycle beginning in 1970
      that holds day `r` of the cycle. Years are 365 or 366 days long, so
      `r / 366` falls short of it by at most two. */
  function YearInEra(r: int): (k: int)
    requires 0 <= r < 146097
    ensures DayFromYear(1970 + k) <= r < DayFromYear(1970 + k + 1)
  {
    var k0 := r / 366;
    EraSearchBounds(r, k0);
    if r < DayFromYear(1970 + k0 + 1) then k0
    else if r < DayFromYear(1970 + k0 + 2) then k0 + 1
    else k0 + 2
  }

  lemma EraSearchBounds(r: int, k0: int)
    requires 0 <= r < 146097 && k0 == r / 366
    ensures DayFromYear(1970 + k0) <= r < DayFromYear(1970 + k0 + 3)
  {
    assert DayFromYear(1970) == 0;
    DayFromYearMonotone(1970, 1970 + k0);
    DayFromYearMonotone(1970, 1970 + k0 + 3);
  }

  /** The year that holds day `d` (ECMAScript's YearFromTime, on day numbers):
      whole 400-year cycles from 1970 and then the year inside the cycle. */
  function YearFromDay(d: int): int {
    1970 + YearInEra(d % 146097) + 400 * (d / 146097)
  }

  /** Day `d` lies in the span of the year `YearFromDay` finds for it. */
  lemma YearFromDaySpan(d: int)
    ensures DayFromYear(YearFromDay(d)) <= d < DayFromYear(YearFromDay(d) + 1)
  {
    hide DayFromYear;
    YearInCycle(d, d / 146097, d % 146097, YearInEra(d % 146097), YearFromDay(d));
  }

  /** Year `1970 + k` holds day `r` of its cycle, so the year `q` cycles on
      holds day `d`, which is `q` cycles after `r`. */
  lemma YearInCycle(d: int, q: int, r: int, k: int, y: int)
    requires d == 146097 * q + r && y == 1970 + k + 400 * q
    requires DayFromYear(1970 + k) <= r < DayFromYear(1970 + k + 1)
    ensures DayFromYear(y) <= d < DayFromYear(y + 1)
  {
    hide DayFromYear;
    DayFromYearEra(1970 + k, q);
    DayFromYearEra(1970 + k + 1, q);
    assert 1970 + k + 1 + 400 * q == y + 1;
  }

  /** The year holding a day is the only year whose span contains it. */
  lemma YearFromDayUnique(y: int, d: int)
    requires DayFromYear(y) <= d < DayFromYear(y + 1)
    ensures YearFromDay(d) == y
  {
    hide YearFromDay, YearInEra, DayFromYear;
    var y' := YearFromDay(d);
    YearFromDaySpan(d);
    if y' < y {
      DayFromYearMonotone(y' + 1, y);
    } else if y' > y {
      DayFromYearMonotone(y + 1, y');
    }
  }

  // --------------------------------------------------------------- months

  /** Days of the year before month `m` (0-based); `MonthStart(12, leap)` is
      the length of the year. */
  function MonthStart(m: int, leap: bool): int
    requires 0 <= m <= 12
  {
    var l := if leap then 1 else 0;
    if m == 0 then 0
    else if m == 1 then 31
    else if m == 2 then 59 + l
    else if m == 3 then 90 + l
    else if m == 4 then 120 + l
    else if m == 5 then 151 + l
    else if m == 6 then 181 + l
    else if m == 7 then 212 + l
    else if m == 8 then 243 + l
    else if m == 9 then 273 + l
    else if m == 10 then 304 + l
    else if m == 11 then 334 + l
    else 365 + l
  }

  function DaysInMonth(m: int, leap: bool): (n: int)
    requires 0 <= m < 12
    ensures 28 <= n <= 31
    ensures n == 29 <==> m == 1 && leap
    ensures n == 28 <==> m == 1 && !leap
  {
    MonthStart(m + 1, leap) - MonthStart(m, leap)
  }

  /** Only February's length depends on the year. */
  lemma LeapOnlyInFebruary(m: int, leap: bool)
    requires 0 <= m < 12 && m != 1
    ensures DaysInMonth(m, leap) == DaysInMonth(m, false)
  {
  }

  lemma YearLength(y: int)
    ensures MonthStart(12, InLeapYear(y)) == DaysInYear(y)
  {
  }

  /** The month holding day `k` of the year (ECMAScript's MonthFromTime). */
  function MonthFromDayInYear(k: int, leap: bool): (m: int)
    requires 0 <= k < MonthStart(12, leap)
    ensures 0 <= m < 12
    ensures MonthStart(m, leap) <= k < MonthStart(m + 1, leap)
  {
    if k < MonthStart(1, leap) then 0
    else if k < MonthStart(2, leap) then 1
    else if k < MonthStart(3, leap) then 2
    else if k < MonthStart(4, leap) then 3
    else if k < MonthStart(5, leap) then 4
    else if k < MonthStart(6, leap) then 5
    else if k < MonthStart(7, leap) then 6
    else if k < MonthStart(8, leap) then 7
    else if k < MonthStart(9, leap) then 8
    else if k < MonthStart(10, leap) then 9
    else if k < MonthStart(11, leap) then 10
    else 11
  }

  lemma MonthFromDayInYearUnique(m: int, k: int, leap: bool)
    requires 0 <= m < 12 && MonthStart(m, leap) <= k < MonthStart(m + 1, leap)
    ensures MonthFromDayInYear(k, leap) == m
  {
  }

  // ------------------------------------------------------- civil dates

  /** A calendar date and wall-clock time; `month` is 0-based, `date` is the
      day of the month. */
  datatype DateTime = DateTime(year: int, month: int, date: int,
                               hour: int, minute: int, second: int, ms: int)

  predicate ValidDate(y: int, m: int, dt: int) {
    0 <= m < 12 && 1 <= dt <= DaysInMonth(m, InLeapYear(y))
  }

  predicate ValidDateTime(x: DateTime) {
    && ValidDate(x.year, x.month, x.date)
    && 0 <= x.hour < 24 && 0 <= x.minute < 60
    && 0 <= x.second < 60 && 0 <= x.ms < 1000
  }

  /** The day number of a calendar date (days from civil). */
  function DayFromDate(y: int, m: int, dt: int): int
    requires 0 <= m < 12
  {
    DayFromYear(y) + MonthStart(m, InLeapYear(y)) + dt - 1
  }

  function TimeFromDateTime(x: DateTime): int
    requires 0 <= x.month < 12
  {
    DayFromDate(x.year, x.month, x.date) * 86400000
      + x.hour * 3600000 + x.minute * 60000 + x.second * 1000 + x.ms
  }

  function YearFromTime(t: int): int {
    YearFromDay(Day(t))
  }

  function DayWithinYear(t: int): (k: int)
    ensures 0 <= k < MonthStart(12, InLeapYear(YearFromTime(t)))
  {
    YearFromDaySpan(Day(t));
    DayFromYearStep(YearFromTime(t));
    YearLength(YearFromTime(t));
    Day(t) - DayFromYear(YearFromTime(t))
  }

  function MonthFromTime(t: int): int {
    MonthFromDayInYear(DayWithinYear(t), InLeapYear(YearFromTime(t)))
  }

  function DateFromTime(t: int): int {
    DayWithinYear(t) - MonthStart(MonthFromTime(t), InLeapYear(YearFromTime(t))) + 1
  }

  /** The calendar fields of a time value (civil from days): a valid date and
      time that denotes the same time value. */
  function DateTimeFromTime(t: int): (x: DateTime)
    ensures ValidDateTime(x)
    ensures TimeFromDateTime(x) == t
  {
    TimeWithinDayFields(t);
    DateTime(YearFromTime(t), MonthFromTime(t), DateFromTime(t),
             HourFromTime(t), MinFromTime(t), SecFromTime(t), MsFromTime(t))
  }

  /** A valid date lies inside its own year and its own month. */
  lemma DayFromDateInYear(y: int, m: int, dt: int)
    requires ValidDate(y, m, dt)
    ensures DayFromYear(y) <= DayFromDate(y, m, dt) < DayFromYear(y + 1)
    ensures YearFromDay(DayFromDate(y, m, dt)) == y
  {
    DayFromYearStep(y);
    YearFromDayUnique(y, DayFromDate(y, m, dt));
  }

  /** Time value +0 is midnight at the start of 1 January 1970. */
  lemma Epoch()
    ensures DateTimeFromTime(0) == DateTime(1970, 0, 1, 0, 0, 0, 0)
  {
    hide *;
    EpochFields(DateTime(1970, 0, 1, 0, 0, 0, 0));
    DateTimeRoundTrip(DateTime(1970, 0, 1, 0, 0, 0, 0));
  }

  lemma EpochFields(e: DateTime)
    requires e == DateTime(1970, 0, 1, 0, 0, 0, 0)
    ensures ValidDateTime(e) && TimeFromDateTime(e) == 0
  {
  }

  /** Splitting a day number and a time within the day. */
  lemma DayAndTime(d: int, w: int)
    requires 0 <= w < 86400000
    ensures Day(d * 86400000 + w) == d
    ensures TimeWithinDay(d * 86400000 + w) == w
  {
  }

  /** Calendar fields survive the trip to a time value and back. */
  lemma DateTimeRoundTrip(x: DateTime)
    requires ValidDateTime(x)
    ensures DateTimeFromTime(TimeFromDateTime(x)) == x
  {
    var d := DayFromDate(x.year, x.month, x.date);
    var w := x.hour * 3600000 + x.minute * 60000 + x.second * 1000 + x.ms;
    var t := TimeFromDateTime(x);
    DayAndTime(d, w);
    assert Day(t) == d;
    DayFromDateInYear(x.year, x.month, x.date);
    assert YearFromTime(t) == x.year;
    MonthFromDayInYearUnique(x.month, d - DayFromYear(x.year), InLeapYear(x.year));
    assert MonthFromTime(t) == x.month;
    ClockFields(t, d, x.hour, x.minute, x.second, x.ms);
  }

  lemma ClockFields(t: int, d: int, h: int, mi: int, s: int, ms: int)
    requires 0 <= h < 24 && 0 <= mi < 60 && 0 <= s < 60 && 0 <= ms < 1000
    requires t == d * 86400000 + h * 3600000 + mi * 60000 + s * 1000 + ms
    ensures HourFromTime(t) == h && MinFromTime(t) == mi
    ensures SecFromTime(t) == s && MsFromTime(t) == ms
  {
    DivUnique(t, 1000, d * 86400 + h * 3600 + mi * 60 + s, ms);
    DivUnique(t, 60000, d * 1440 + h * 60 + mi, s * 1000 + ms);
    DivUnique(t, 3600000, d * 24 + h, mi * 60000 + s * 1000 + ms);
    DivUnique(d * 86400 + h * 3600 + mi * 60 + s, 60, d * 1440 + h * 60 + mi, s);
    DivUnique(d * 1440 + h * 60 + mi, 60, d * 24 + h, mi);
    DivUnique(d * 24 + h, 24, d, h);
  }

  /** The date `dt - 1` days after the first of month `m` of year `y`, with the
      clock fields of `x`. A day of the month past the end of month `m` rolls
      into the following month (and from December into January of the next
      year) instead of being clamped. */
  function RollOver(x: DateTime, y: int, m: int, dt: int): (r: DateTime)
    requires ValidDateTime(x) && 0 <= m < 12 && 1 <= dt <= 31
    ensures ValidDateTime(r)
    ensures r.hour == x.hour && r.minute == x.minute && r.second == x.second && r.ms == x.ms
    ensures DayFromDate(r.year, r.month, r.date) == DayFromDate(y, m, 1) + dt - 1
  {
    var n := DaysInMonth(m, InLeapYear(y));
    if dt <= n then x.(year := y, month := m, date := dt)
    else if m < 11 then x.(year := y, month := m + 1, date := dt - n)
    else
      DayFromYearStep(y);
      x.(year := y + 1, month := 0, date := dt - n)
  }

  /** The calendar fields `RollOver` lands on: the day itself when month `m`
      has it, otherwise the overflow into the month after `m`. */
  lemma RollOverFields(x: DateTime, y: int, m: int, dt: int)
    requires ValidDateTime(x) && 0 <= m < 12 && 1 <= dt <= 31
    ensures var r := RollOver(x, y, m, dt);
      dt <= DaysInMonth(m, InLeapYear(y)) ==> r.year == y && r.month == m && r.date == dt
    ensures var r := RollOver(x, y, m, dt);
      dt > DaysInMonth(m, InLeapYear(y)) ==>
        12 * r.year + r.month == 12 * y + m + 1 && r.date == dt - DaysInMonth(m, InLeapYear(y))
  {
  }

  /** Every day number is the day of some valid date (days from civil is onto). */
  lemma DayOfDateFromDay(t: int)
    ensures DayFromDate(YearFromTime(t), MonthFromTime(t), DateFromTime(t)) == Day(t)
  {
  }
}
