/** The six units of the date calculator and the `switch` that turns an
    amount of one of them into Date setter calls. */
module Offsets {
  import opened Wrappers
  import opened Calendar
  import opened DateObject

  datatype Unit = Minutes | Hours | Days | Weeks | Months | Years

  /** The value of the unit selector for each unit. */
  function UnitName(u: Unit): string {
    match u
    case Minutes => "minutes"
    case Hours => "hours"
    case Days => "days"
    case Weeks => "weeks"
    case Months => "months"
    case Years => "years"
  }

  /** The unit a selector value names, if it names one. */
  function UnitFromName(s: string): (r: Option<Unit>)
    ensures r.Some? ==> UnitName(r.value) == s
    ensures r.None? ==> forall u: Unit :: UnitName(u) != s
  {
    if s == "minutes" then Some(Minutes)
    else if s == "hours" then Some(Hours)
    else if s == "days" then Some(Days)
    else if s == "weeks" then Some(Weeks)
    else if s == "months" then Some(Months)
    else if s == "years" then Some(Years)
    else None
  }

  /** The `switch (unit)` of calculateDate. A value outside the six units
      matches no case, so the date is left as it was. */
  function ApplyOffset(date: Number, n: int, unit: string): (r: Number)
    ensures UnitFromName(unit).None? ==> r == date
    ensures UnitFromName(unit).Some? && r.Int? ==> InTimeRange(r.v)
  {
    match UnitFromName(unit)
    case None => date
    case Some(u) => Shift(date, n, u)
  }

  /** One case of the switch: read the field of the unit, add the amount
      (seven times the amount, as days, for weeks) and write the field back. */
  function Shift(date: Number, n: int, u: Unit): (r: Number)
    ensures r.Int? ==> InTimeRange(r.v)
  {
    match u
    case Minutes => SetMinutes(date, Plus(GetMinutes(date), n))
    case Hours => SetHours(date, Plus(GetHours(date), n))
    case Days => SetDate(date, Plus(GetDate(date), n))
    case Weeks => SetDate(date, Plus(GetDate(date), n * 7))
    case Months => SetMonth(date, Plus(GetMonth(date), n))
    case Years => SetFullYear(date, Plus(GetFullYear(date), n))
  }

  /** Each unit's selector value selects that unit's case. */
  lemma UnitNameRoundTrip(u: Unit)
    ensures UnitFromName(UnitName(u)) == Some(u)
    ensures forall date: Number, n: int :: ApplyOffset(date, n, UnitName(u)) == Shift(date, n, u)
  {
  }

  /** An invalid date stays invalid whatever is added to it: every getter
      gives NaN, and NaN absorbs the addition and the setter. */
  lemma InvalidStaysInvalid(n: int, u: Unit)
    ensures Shift(NaN, n, u) == NaN
  {
    hide MonthFromTime, DateFromTime, TimeWithinDay;
  }

  // ------------------------------------------------ fixed-length units

  predicate FixedLength(u: Unit) {
    u.Minutes? || u.Hours? || u.Days? || u.Weeks?
  }

  /** The length of one unit in milliseconds, with no time zone to stretch a day. */
  function UnitLength(u: Unit): (ms: int)
    requires FixedLength(u)
    ensures ms >= 60000
  {
    match u
    case Minutes => 60000
    case Hours => 3600000
    case Days => 86400000
    case Weeks => 7 * 86400000
  }

  /** Minutes, hours, days and weeks shift a date by a fixed duration; the
      day shift crosses month and year ends without any clamping. */
  lemma ShiftByDuration(t: int, n: int, u: Unit)
    requires FixedLength(u)
    ensures Shift(Int(t), n, u) == TimeClip(Int(t + n * UnitLength(u)))
  {
    hide SetMinutes, SetHours, SetDate, YearFromDay, YearInEra, DayFromYear, DaysInYear, MonthStart,
         DaysInMonth, MonthFromDayInYear, DayWithinYear, DayFromDate, TimeFromDateTime, YearFromTime,
         MonthFromTime, DateFromTime, HourFromTime, MinFromTime, SecFromTime, MsFromTime, Day, TimeWithinDay;
    match u
    case Minutes => SetMinutesShifts(t, MinFromTime(t) + n);
    case Hours => SetHoursShifts(t, HourFromTime(t) + n);
    case Days => SetDateShifts(t, DateFromTime(t) + n);
    case Weeks => SetDateShifts(t, DateFromTime(t) + n * 7);
  }

  /** Adding n weeks is adding 7n days. */
  lemma WeeksAreSevenDays(date: Number, n: int)
    ensures Shift(date, n, Weeks) == Shift(date, 7 * n, Days)
  {
    hide SetDate, GetDate;
  }

  /** A fixed-length shift by n and then by -n restores the date, unless the
      first shift already left the time-value range. */
  lemma ShiftThenUnshift(t: int, n: int, u: Unit)
    requires InTimeRange(t) && FixedLength(u)
    requires Shift(Int(t), n, u).Int?
    ensures Shift(Shift(Int(t), n, u), -n, u) == Int(t)
  {
    hide *;
    var len := UnitLength(u);
    ShiftByDuration(t, n, u);
    ShiftByDuration(t + n * len, -n, u);
    assert t + n * len + -n * len == t;
  }

  // --------------------------------------------------- calendar units

  /** The calendar meaning of adding n months: the month count moves by n,
      and a day of the month the target month lacks rolls into the month
      after it rather than being clamped. */
  function MonthsLater(x: DateTime, n: int): (r: DateTime)
    requires ValidDateTime(x)
    ensures ValidDateTime(r)
    ensures r.hour == x.hour && r.minute == x.minute && r.second == x.second && r.ms == x.ms
    ensures var len := DaysInMonth((x.month + n) % 12, InLeapYear(x.year + (x.month + n) / 12));
      && (x.date <= len ==> 12 * r.year + r.month == 12 * x.year + x.month + n && r.date == x.date)
      && (x.date > len ==> 12 * r.year + r.month == 12 * x.year + x.month + n + 1 && r.date == x.date - len)
  {
    RollOverFields(x, x.year + (x.month + n) / 12, (x.month + n) % 12, x.date);
    RollOver(x, x.year + (x.month + n) / 12, (x.month + n) % 12, x.date)
  }

  /** The calendar meaning of adding n years: month and day are kept, except
      that 29 February becomes 1 March in a common year. */
  function YearsLater(x: DateTime, n: int): (r: DateTime)
    requires ValidDateTime(x)
    ensures ValidDateTime(r)
    ensures r.hour == x.hour && r.minute == x.minute && r.second == x.second && r.ms == x.ms
    ensures ValidDate(x.year + n, x.month, x.date) ==>
      r.year == x.year + n && r.month == x.month && r.date == x.date
    ensures !ValidDate(x.year + n, x.month, x.date) ==>
      x.month == 1 && x.date == 29 && r.year == x.year + n && r.month == 2 && r.date == 1
  {
    RollOverFields(x, x.year + n, x.month, x.date);
    if x.month != 1 then
      LeapOnlyInFebruary(x.month, InLeapYear(x.year));
      LeapOnlyInFebruary(x.month, InLeapYear(x.year + n));
      RollOver(x, x.year + n, x.month, x.date)
    else
      RollOver(x, x.year + n, x.month, x.date)
  }

  /** Adding months through setMonth gives the calendar meaning of adding
      months, with the clock fields kept. */
  lemma ShiftByMonths(t: int, n: int)
    ensures Shift(Int(t), n, Months) == TimeClip(Int(TimeFromDateTime(MonthsLater(DateTimeFromTime(t), n))))
  {
    hide YearFromDay, YearInEra, DayFromYear, DaysInYear, MonthStart, DaysInMonth, MonthFromDayInYear,
         DayWithinYear, DayFromDate, TimeFromDateTime, RollOver;
    SetMonthRollsOver(t, DateTimeFromTime(t).month + n);
  }

  /** The date that adding months lands on has the calendar fields of
      `MonthsLater`. */
  lemma ShiftByMonthsFields(t: int, n: int)
    requires Shift(Int(t), n, Months).Int?
    ensures DateTimeFromTime(Shift(Int(t), n, Months).v) == MonthsLater(DateTimeFromTime(t), n)
  {
    hide *;
    ShiftByMonths(t, n);
    DateTimeRoundTrip(MonthsLater(DateTimeFromTime(t), n));
  }

  /** Adding years through setFullYear gives the calendar meaning of adding
      years, with the clock fields kept. */
  lemma ShiftByYears(t: int, n: int)
    ensures Shift(Int(t), n, Years) == TimeClip(Int(TimeFromDateTime(YearsLater(DateTimeFromTime(t), n))))
  {
    hide YearInEra, DayFromYear, DaysInYear, MonthStart, DaysInMonth, MonthFromDayInYear,
         DayWithinYear, DayFromDate, TimeFromDateTime, RollOver;
    SetFullYearRollsOver(t, DateTimeFromTime(t).year + n);
  }

  /** The date that adding years lands on has the calendar fields of
      `YearsLater`. */
  lemma ShiftByYearsFields(t: int, n: int)
    requires Shift(Int(t), n, Years).Int?
    ensures DateTimeFromTime(Shift(Int(t), n, Years).v) == YearsLater(DateTimeFromTime(t), n)
  {
    hide *;
    ShiftByYears(t, n);
    DateTimeRoundTrip(YearsLater(DateTimeFromTime(t), n));
  }

  /** Twelve-month identities: a month count determines year and month. */
  lemma MonthCountUnique(y1: int, m1: int, y2: int, m2: int)
    requires 0 <= m1 < 12 && 0 <= m2 < 12 && 12 * y1 + m1 == 12 * y2 + m2
    ensures y1 == y2 && m1 == m2
  {
  }

  /** For a day of the month that every month has, n months on and then n
      months back is the same date. */
  lemma MonthsLaterThenBack(x: DateTime, n: int)
    requires ValidDateTime(x) && x.date <= 28
    ensures MonthsLater(MonthsLater(x, n), -n) == x
  {
    var y := MonthsLater(x, n);
    var z := MonthsLater(y, -n);
    MonthCountUnique(z.year, z.month, x.year, x.month);
  }

  /** Unless the date is 29 February, n years on and then n years back is
      the same date. */
  lemma YearsLaterThenBack(x: DateTime, n: int)
    requires ValidDateTime(x) && !(x.month == 1 && x.date == 29)
    ensures YearsLater(YearsLater(x, n), -n) == x
  {
    var y := YearsLater(x, n);
    assert y.year == x.year + n && y.month == x.month && y.date == x.date;
  }

  /** For a day of the month every month has, adding n months and then -n
      months restores the date. */
  lemma MonthsThenBack(t: int, n: int)
    requires InTimeRange(t) && DateTimeFromTime(t).date <= 28
    requires Shift(Int(t), n, Months).Int?
    ensures Shift(Shift(Int(t), n, Months), -n, Months) == Int(t)
  {
    hide *;
    var x := DateTimeFromTime(t);
    var t1 := Shift(Int(t), n, Months).v;
    ShiftByMonthsFields(t, n);
    ShiftByMonths(t1, -n);
    MonthsLaterThenBack(x, n);
  }

  /** Unless the date is 29 February, adding n years and then -n years
      restores the date. */
  lemma YearsThenBack(t: int, n: int)
    requires InTimeRange(t) && !(DateTimeFromTime(t).month == 1 && DateTimeFromTime(t).date == 29)
    requires Shift(Int(t), n, Years).Int?
    ensures Shift(Shift(Int(t), n, Years), -n, Years) == Int(t)
  {
    hide *;
    var x := DateTimeFromTime(t);
    var t1 := Shift(Int(t), n, Years).v;
    ShiftByYearsFields(t, n);
    ShiftByYears(t1, -n);
    YearsLaterThenBack(x, n);
  }

  /** Adding zero of any unit leaves a valid date as it was. */
  lemma ZeroOffsetIdentity(t: int, u: Unit)
    requires InTimeRange(t)
    ensures Shift(Int(t), 0, u) == Int(t)
  {
    var x := DateTimeFromTime(t);
    if FixedLength(u) {
      hide *;
      ShiftByDuration(t, 0, u);
      assert t + 0 * UnitLength(u) == t;
    } else if u == Months {
      hide *;
      ShiftByMonths(t, 0);
      MonthsLaterZero(x);
    } else {
      assert u == Years;
      hide *;
      ShiftByYears(t, 0);
      YearsLaterZero(x);
    }
  }

  lemma MonthsLaterZero(x: DateTime)
    requires ValidDateTime(x)
    ensures MonthsLater(x, 0) == x
  {
    hide MonthsLater, RollOver, DaysInMonth, MonthStart, DaysInYear, DayFromDate, DayFromYear;
    assert x.month / 12 == 0 && x.month % 12 == x.month;
  }

  lemma YearsLaterZero(x: DateTime)
    requires ValidDateTime(x)
    ensures YearsLater(x, 0) == x
  {
    hide YearsLater, RollOver, DaysInMonth, MonthStart, DaysInYear, DayFromDate, DayFromYear;
  }

  // ----------------------------------------------------------- examples

  lemma LeapYears()
    ensures InLeapYear(2024) && InLeapYear(2028) && !InLeapYear(2023) && !InLeapYear(2025)
  {
  }

  lemma JanuaryLength(leap: bool)
    ensures DaysInMonth(0, leap) == 31
  {
  }

  /** 31 January 2024 plus one month is 2 March: 2024 is a leap year. */
  lemma JanuaryEndLeapYear()
    ensures MonthsLater(DateTime(2024, 0, 31, 0, 0, 0, 0), 1) == DateTime(2024, 2, 2, 0, 0, 0, 0)
  {
    hide MonthsLater, RollOver, DaysInMonth, MonthStart, DaysInYear, DayFromDate, DayFromYear;
    LeapYears();
    JanuaryLength(true);
  }

  /** 31 January 2023 plus one month is 3 March. */
  lemma JanuaryEndCommonYear()
    ensures MonthsLater(DateTime(2023, 0, 31, 0, 0, 0, 0), 1) == DateTime(2023, 2, 3, 0, 0, 0, 0)
  {
    hide MonthsLater, RollOver, DaysInMonth, MonthStart, DaysInYear, DayFromDate, DayFromYear;
    LeapYears();
    JanuaryLength(false);
  }

  /** One month back from 2 March 2024 is 2 February, not 31 January. */
  lemma MarchBackToFebruary()
    ensures MonthsLater(DateTime(2024, 2, 2, 0, 0, 0, 0), -1) == DateTime(2024, 1, 2, 0, 0, 0, 0)
  {
    hide MonthsLater, RollOver, DaysInMonth, MonthStart, DaysInYear, DayFromDate, DayFromYear;
  }

  /** Minus thirteen months borrows from the year: 15 January 2024 becomes
      15 December 2022. */
  lemma NegativeMonthsBorrow()
    ensures MonthsLater(DateTime(2024, 0, 15, 10, 30, 0, 0), -13) == DateTime(2022, 11, 15, 10, 30, 0, 0)
  {
    hide MonthsLater, RollOver, DaysInMonth, MonthStart, DaysInYear, DayFromDate, DayFromYear;
  }

  /** 29 February 2024 plus one year is 1 March 2025; plus four years it is
      29 February 2028. */
  lemma LeapDayExamples()
    ensures YearsLater(DateTime(2024, 1, 29, 12, 0, 0, 0), 1) == DateTime(2025, 2, 1, 12, 0, 0, 0)
    ensures YearsLater(DateTime(2024, 1, 29, 12, 0, 0, 0), 4) == DateTime(2028, 1, 29, 12, 0, 0, 0)
  {
    hide YearsLater, RollOver, DaysInMonth, MonthStart, DaysInYear, DayFromDate, DayFromYear;
    LeapYears();
  }
}
