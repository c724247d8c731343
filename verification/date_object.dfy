/** The parts of ECMAScript's Date object (section 21.4 of ECMA-262) that the
    calculator uses. The local time zone is fixed at offset zero with no
    daylight saving time, so LocalTime and UTC are the identity and a Date's
    local fields are the fields of its time value. Numbers are NaN or integral. */
module DateObject {
  import opened Wrappers
  import opened Calendar
  import Decimal

  /** An ECMAScript Number that is NaN or an integer. A Date object's
      [[DateValue]] is one of these. */
  datatype Number = NaN | Int(v: int)

  /** The largest magnitude of a time value: 100,000,000 days. */
  const MaxTime: int := 8_640_000_000_000_000

  predicate InTimeRange(t: int) {
    -MaxTime <= t <= MaxTime
  }

  /** `a + n`; NaN absorbs the addition. */
  function Plus(a: Number, n: int): (r: Number)
    ensures r.Int? <==> a.Int?
    ensures r.Int? ==> r.v - n == a.v
  {
    match a
    case NaN => NaN
    case Int(x) => Int(x + n)
  }

  /** TimeClip: time values more than 100,000,000 days from the epoch are NaN. */
  function TimeClip(time: Number): (r: Number)
    ensures r.Int? <==> time.Int? && InTimeRange(time.v)
    ensures r.Int? ==> r == time
  {
    match time
    case NaN => NaN
    case Int(x) => if InTimeRange(x) then time else NaN
  }

  function MakeTime(hour: Number, min: Number, sec: Number, ms: Number): Number {
    if hour.NaN? || min.NaN? || sec.NaN? || ms.NaN? then NaN
    else Int(hour.v * 3600000 + min.v * 60000 + sec.v * 1000 + ms.v)
  }

  /** MakeDay: month overflow carries into the year by floor division, and
      the day of the month is counted from the first of the normalised month. */
  function MakeDay(year: Number, month: Number, date: Number): Number {
    if year.NaN? || month.NaN? || date.NaN? then NaN
    else Int(DayFromDate(year.v + month.v / 12, month.v % 12, 1) + date.v - 1)
  }

  function MakeDate(day: Number, time: Number): Number {
    if day.NaN? || time.NaN? then NaN else Int(day.v * 86400000 + time.v)
  }

  /** Within the months 0 to 11, MakeDay counts days from the first of the month. */
  lemma MakeDayInYear(y: int, m: int, dt: int)
    requires 0 <= m < 12
    ensures MakeDay(Int(y), Int(m), Int(dt)) == Int(DayFromDate(y, m, 1) + dt - 1)
    ensures DayFromDate(y, m, 1) + dt - 1 == DayFromDate(y, m, dt)
  {
    assert DayFromDate(y, m, 1) + dt - 1 == DayFromDate(y, m, dt);
    hide DayFromDate;
    assert m / 12 == 0 && m % 12 == m;
  }

  // ----------------------------------------------------------- getters

  function GetMinutes(dateValue: Number): (r: Number)
    ensures r.Int? <==> dateValue.Int?
    ensures r.Int? ==> 0 <= r.v < 60
  {
    match dateValue
    case NaN => NaN
    case Int(t) => Int(MinFromTime(t))
  }

  function GetHours(dateValue: Number): (r: Number)
    ensures r.Int? <==> dateValue.Int?
    ensures r.Int? ==> 0 <= r.v < 24
  {
    match dateValue
    case NaN => NaN
    case Int(t) => Int(HourFromTime(t))
  }

  function GetDate(dateValue: Number): (r: Number)
    ensures r.Int? <==> dateValue.Int?
    ensures r.Int? ==> 1 <= r.v <= 31
  {
    match dateValue
    case NaN => NaN
    case Int(t) => Int(DateTimeFromTime(t).date)
  }

  function GetMonth(dateValue: Number): (r: Number)
    ensures r.Int? <==> dateValue.Int?
    ensures r.Int? ==> 0 <= r.v < 12
  {
    match dateValue
    case NaN => NaN
    case Int(t) => Int(DateTimeFromTime(t).month)
  }

  function GetFullYear(dateValue: Number): (r: Number)
    ensures r.Int? <==> dateValue.Int?
    ensures r.Int? ==> DayFromYear(r.v) <= Day(dateValue.v) < DayFromYear(r.v + 1)
  {
    match dateValue
    case NaN => NaN
    case Int(t) =>
      YearFromDaySpan(Day(t));
      Int(YearFromTime(t))
  }

  // ----------------------------------------------------------- setters

  /** `setMinutes(min)`: the minute field of the time within the day is
      overwritten through MakeTime; hour, second and millisecond are kept. */
  function SetMinutes(dateValue: Number, min: Number): (r: Number)
    ensures dateValue.NaN? || min.NaN? ==> r.NaN?
    ensures r.Int? ==> InTimeRange(r.v)
  {
    match dateValue
    case NaN => NaN
    case Int(t) =>
      TimeClip(MakeDate(Int(Day(t)),
                        MakeTime(Int(HourFromTime(t)), min, Int(SecFromTime(t)), Int(MsFromTime(t)))))
  }

  /** `setHours(hour)`: the hour field is overwritten through MakeTime. */
  function SetHours(dateValue: Number, hour: Number): (r: Number)
    ensures dateValue.NaN? || hour.NaN? ==> r.NaN?
    ensures r.Int? ==> InTimeRange(r.v)
  {
    match dateValue
    case NaN => NaN
    case Int(t) =>
      TimeClip(MakeDate(Int(Day(t)),
                        MakeTime(hour, Int(MinFromTime(t)), Int(SecFromTime(t)), Int(MsFromTime(t)))))
  }

  /** `setDate(date)`: the day of the month is overwritten through MakeDay. */
  function SetDate(dateValue: Number, date: Number): (r: Number)
    ensures dateValue.NaN? || date.NaN? ==> r.NaN?
    ensures r.Int? ==> InTimeRange(r.v)
  {
    match dateValue
    case NaN => NaN
    case Int(t) =>
      TimeClip(MakeDate(MakeDay(Int(YearFromTime(t)), Int(MonthFromTime(t)), date),
                        Int(TimeWithinDay(t))))
  }

  /** `setMonth(month)`: the month field is overwritten through MakeDay. */
  function SetMonth(dateValue: Number, month: Number): (r: Number)
    ensures dateValue.NaN? || month.NaN? ==> r.NaN?
    ensures r.Int? ==> InTimeRange(r.v)
  {
    match dateValue
    case NaN => NaN
    case Int(t) =>
      TimeClip(MakeDate(MakeDay(Int(YearFromTime(t)), month, Int(DateFromTime(t))),
                        Int(TimeWithinDay(t))))
  }

  /** `setFullYear(year)`: the year field is overwritten through MakeDay. An
      invalid date is first taken as time value +0. */
  function SetFullYear(dateValue: Number, year: Number): (r: Number)
    ensures year.NaN? ==> r.NaN?
    ensures r.Int? ==> InTimeRange(r.v)
  {
    var t := if dateValue.Int? then dateValue.v else 0;
    TimeClip(MakeDate(MakeDay(year, Int(MonthFromTime(t)), Int(DateFromTime(t))),
                      Int(TimeWithinDay(t))))
  }

  /** Setting the minutes shifts the time value by the change of the minute
      field, in whole minutes. */
  lemma SetMinutesShifts(t: int, min: int)
    ensures SetMinutes(Int(t), Int(min)) == TimeClip(Int(t + (min - MinFromTime(t)) * 60000))
  {
    TimeWithinDayFields(t);
  }

  /** Setting the hours shifts the time value by the change of the hour
      field, in whole hours. */
  lemma SetHoursShifts(t: int, hour: int)
    ensures SetHours(Int(t), Int(hour)) == TimeClip(Int(t + (hour - HourFromTime(t)) * 3600000))
  {
    TimeWithinDayFields(t);
  }

  /** Setting the day of the month shifts the time value by whole days,
      however far the new day runs past the ends of the month and the year. */
  lemma SetDateShifts(t: int, date: int)
    ensures SetDate(Int(t), Int(date)) == TimeClip(Int(t + (date - DateFromTime(t)) * 86400000))
  {
    hide YearFromDay, YearInEra, DayFromYear, DaysInYear, MonthStart, DaysInMonth, MonthFromDayInYear,
         DayWithinYear, DayFromDate, TimeFromDateTime, RollOver, YearFromTime, MonthFromTime, DateFromTime,
         HourFromTime, MinFromTime, SecFromTime, MsFromTime, Day, TimeWithinDay, MakeDay;
    var x := DateTimeFromTime(t);
    TimeWithinDayFields(t);
    DayOfDateFromDay(t);
    MakeDayInYear(x.year, x.month, date);
    MakeDayInYear(x.year, x.month, x.date);
  }

  /** Setting the month carries a month outside 0..11 into the year and
      rolls a day of the month the new month lacks into the month after it;
      the clock fields are kept. */
  lemma SetMonthRollsOver(t: int, month: int)
    ensures var x := DateTimeFromTime(t);
      SetMonth(Int(t), Int(month))
        == TimeClip(Int(TimeFromDateTime(RollOver(x, x.year + month / 12, month % 12, x.date))))
  {
    hide YearFromDay, YearInEra, DayFromYear, DaysInYear, MonthStart, DaysInMonth, MonthFromDayInYear,
         DayWithinYear, DayFromDate, TimeFromDateTime, RollOver, YearFromTime, MonthFromTime, DateFromTime,
         HourFromTime, MinFromTime, SecFromTime, MsFromTime, Day, TimeWithinDay;
    var x := DateTimeFromTime(t);
    TimeWithinDayFields(t);
    RollOverTime(x, x.year + month / 12, month % 12, TimeWithinDay(t));
  }

  /** Setting the year keeps month, day and clock fields, except that a day
      the month lacks in the new year (29 February) rolls forward. */
  lemma SetFullYearRollsOver(t: int, year: int)
    ensures var x := DateTimeFromTime(t);
      SetFullYear(Int(t), Int(year)) == TimeClip(Int(TimeFromDateTime(RollOver(x, year, x.month, x.date))))
  {
    hide YearFromDay, YearInEra, DayFromYear, DaysInYear, MonthStart, DaysInMonth, MonthFromDayInYear,
         DayWithinYear, DayFromDate, TimeFromDateTime, RollOver, YearFromTime, MonthFromTime, DateFromTime,
         HourFromTime, MinFromTime, SecFromTime, MsFromTime, Day, TimeWithinDay, MakeDay;
    var x := DateTimeFromTime(t);
    TimeWithinDayFields(t);
    MakeDayInYear(year, x.month, x.date);
    RollOverTime(x, year, x.month, TimeWithinDay(t));
  }

  /** An invalid date takes its year from time value +0: 1 January 1970. */
  lemma SetFullYearOfInvalid(year: int)
    ensures SetFullYear(NaN, Int(year)) == SetFullYear(Int(0), Int(year))
    ensures SetFullYear(NaN, Int(year)) == TimeClip(Int(TimeFromDateTime(DateTime(year, 0, 1, 0, 0, 0, 0))))
  {
    InvalidAsZero(year);
    hide *;
    var e := DateTimeFromTime(0);
    Epoch();
    SetFullYearRollsOver(0, year);
    RollOverFields(e, year, 0, 1);
  }

  lemma InvalidAsZero(year: int)
    ensures SetFullYear(NaN, Int(year)) == SetFullYear(Int(0), Int(year))
  {
    hide MonthFromTime, DateFromTime, TimeWithinDay, MakeDay, MakeDate, TimeClip;
  }

  /** The time value of a roll-over, as MakeDate and MakeDay compute it from
      the first of the month, the day of the month and the time within the day. */
  lemma RollOverTime(x: DateTime, y: int, m: int, w: int)
    requires ValidDateTime(x) && 0 <= m < 12
    requires w == x.hour * 3600000 + x.minute * 60000 + x.second * 1000 + x.ms
    ensures (DayFromDate(y, m, 1) + x.date - 1) * 86400000 + w
              == TimeFromDateTime(RollOver(x, y, m, x.date))
  {
  }

  // ------------------------------------------------ date-time strings

  /** The fields of a string of the form `YYYY-MM-DDTHH:mm:ss`, one form of
      the Date Time String Format of section 21.4.1.32 of ECMA-262. */
  datatype DateTimeFields = DateTimeFields(year: nat, month: nat, day: nat,
                                           hour: nat, minute: nat, second: nat)

  predicate DigitsAt(s: string, i: nat, n: nat) {
    i + n <= |s| && Decimal.AllDigits(s[i..i + n])
  }

  function ParseDateTimeString(s: string): (r: Option<DateTimeFields>)
    ensures r.Some? ==> |s| == 19 && s[4] == '-' && s[10] == 'T' && s[13] == ':'
    ensures r.Some? ==> 0 <= r.value.year <= 9999 && 0 <= r.value.month <= 99 && 0 <= r.value.day <= 99
  {
    if && |s| == 19
       && DigitsAt(s, 0, 4) && s[4] == '-' && DigitsAt(s, 5, 2) && s[7] == '-' && DigitsAt(s, 8, 2)
       && s[10] == 'T'
       && DigitsAt(s, 11, 2) && s[13] == ':' && DigitsAt(s, 14, 2) && s[16] == ':' && DigitsAt(s, 17, 2)
    then
      Some(DateTimeFields(FieldValue(s, 0, 4), FieldValue(s, 5, 2), FieldValue(s, 8, 2),
                          FieldValue(s, 11, 2), FieldValue(s, 14, 2), FieldValue(s, 17, 2)))
    else None
  }

  function FieldValue(s: string, i: nat, n: nat): (v: nat)
    requires DigitsAt(s, i, n) && n <= 4
    ensures v < Decimal.Pow10(n)
  {
    DigitsBound(s[i..i + n]);
    Decimal.Value(s[i..i + n])
  }

  lemma {:induction false} DigitsBound(s: string)
    requires Decimal.AllDigits(s)
    ensures Decimal.Value(s) < Decimal.Pow10(|s|)
    decreases |s|
  {
    if |s| > 0 {
      DigitsBound(s[..|s| - 1]);
    }
  }

  /** `new Date(s)` for a local date-time string `YYYY-MM-DDTHH:mm:ss`.
      `None` marks two kinds of string: those outside the Date Time String
      Format, whose reading is engine-specific, and the format's other forms
      (date only, no seconds, fractions, an offset, hour 24), which are not
      modelled. */
  function NewDateFromString(s: string): (r: Option<Number>)
    ensures r.Some? ==> ParseDateTimeString(s).Some?
  {
    match ParseDateTimeString(s)
    case None => None
    case Some(f) => DateFromFields(f)
  }

  /** The time value of the fields of a date-time string: NaN for a field
      out of bounds, the local time value of a valid date and time. A day of
      the month between 29 and 31 that the month lacks is engine-specific,
      and hour 24 (midnight ending the day) is not modelled: both give
      `None`. */
  function DateFromFields(f: DateTimeFields): (r: Option<Number>)
    ensures r.Some? && r.value.Int? ==>
      && ValidDateTime(FieldsDateTime(f))
      && r.value.v == TimeFromDateTime(FieldsDateTime(f))
    ensures r.Some? && r.value.NaN? ==>
      !(1 <= f.month <= 12 && 1 <= f.day <= 31 && f.hour <= 24 && f.minute <= 59 && f.second <= 59)
      || (f.hour == 24 && (f.minute != 0 || f.second != 0))
      || !InTimeRange(TimeFromDateTime(FieldsDateTime(f)))
  {
    if f.month < 1 || f.month > 12 || f.day < 1 || f.day > 31
       || f.hour > 24 || f.minute > 59 || f.second > 59
       || (f.hour == 24 && (f.minute != 0 || f.second != 0))
    then Some(NaN)
    else if f.hour == 24 || f.day > DaysInMonth(f.month - 1, InLeapYear(f.year)) then None
    else
      FieldsTime(f);
      Some(TimeClip(MakeDate(MakeDay(Int(f.year), Int(f.month - 1), Int(f.day)),
                             MakeTime(Int(f.hour), Int(f.minute), Int(f.second), Int(0)))))
  }

  /** The calendar fields a date-time string names; its month is 1-based. */
  function FieldsDateTime(f: DateTimeFields): DateTime {
    DateTime(f.year, f.month - 1, f.day, f.hour, f.minute, f.second, 0)
  }

  lemma FieldsTime(f: DateTimeFields)
    requires 1 <= f.month <= 12 && 1 <= f.day <= DaysInMonth(f.month - 1, InLeapYear(f.year))
    requires 0 <= f.hour < 24 && 0 <= f.minute <= 59 && 0 <= f.second <= 59
    ensures ValidDateTime(FieldsDateTime(f))
    ensures MakeDate(MakeDay(Int(f.year), Int(f.month - 1), Int(f.day)),
                     MakeTime(Int(f.hour), Int(f.minute), Int(f.second), Int(0)))
              == Int(TimeFromDateTime(FieldsDateTime(f)))
  {
    MakeDayInYear(f.year, f.month - 1, f.day);
  }
}
