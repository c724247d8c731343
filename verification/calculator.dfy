/** The calculate button of the date calculator: the checks on the form,
    the start date-time string built from the date and time fields, the
    Date object read from it, and the offset added to that date. */
module DateCalculator {
  import opened Wrappers
  import opened Decimal
  import opened Calendar
  import opened DateObject
  import opened TimeField
  import opened Offsets

  const MissingFieldsMessage: string := "Please enter all required fields"
  const InvalidNumberMessage: string := "Please enter a valid number"

  /** A value of the date input, split at its dashes; the month is 1-based. */
  datatype IsoDate = IsoDate(year: nat, month: nat, day: nat)

  /** The date input holds a real calendar date with a four-digit year. */
  predicate ValidIsoDate(d: IsoDate) {
    && 1 <= d.year <= 9999
    && 1 <= d.month <= 12
    && 1 <= d.day <= DaysInMonth(d.month - 1, InLeapYear(d.year))
  }

  /** The state the calculation reads. `startDate` is `None` when the date
      input is empty; `numAmount` is what `parseFloat` makes of the amount
      text; `unit` is the selector's value. */
  datatype Form = Form(startDate: Option<IsoDate>, startTime: string,
                       amount: string, numAmount: Number, unit: string)

  /** What the inputs guarantee: a date input is empty or holds a date, the
      stored time always matches the time pattern (`StoredTimeMatches`), and
      `parseFloat` of the empty text is NaN. */
  predicate WellFormed(f: Form) {
    && (f.startDate.Some? ==> ValidIsoDate(f.startDate.value))
    && MatchesTimePattern(f.startTime)
    && (f.amount == "" ==> f.numAmount.NaN?)
  }

  /** The form passes both checks of calculateDate. */
  predicate PassesChecks(f: Form) {
    f.startDate.Some? && f.amount != "" && f.numAmount.Int?
  }

  /** The date and time the form names, as calendar fields (0-based month). */
  function StartDateTime(d: IsoDate, c: Clock): DateTime {
    DateTime(d.year, d.month - 1, d.day, c.hour, c.minute, 0, 0)
  }

  // ------------------------------------------- the start date-time string

  /** The start date-time string with every field zero-padded to its width:
      `YYYY-MM-DDTHH:mm:00`. */
  function ComposeDateTime(d: IsoDate, c: Clock): (r: string)
    requires ValidClock(c)
    ensures ValidIsoDate(d) ==>
      && |r| == 19
      && r[4] == '-' && r[7] == '-' && r[10] == 'T' && r[13] == ':' && r[16] == ':'
  {
    PaddedLayout(d, c);
    Join(Pad4(d.year), Pad2(d.month), Pad2(d.day), Pad2(c.hour), Pad2(c.minute))
  }

  /** The string as the calculator writes it: the padded string with its
      year written without padding. */
  function ComposeAsWritten(d: IsoDate, c: Clock): (r: string)
    requires ValidClock(c)
    ensures r == ToString(d.year) + ComposeDateTime(d, c)[|Pad4(d.year)|..]
  {
    var rest := Rest(Pad2(d.month), Pad2(d.day), Pad2(c.hour), Pad2(c.minute));
    assert ComposeDateTime(d, c)[|Pad4(d.year)|..] == rest;
    Join(ToString(d.year), Pad2(d.month), Pad2(d.day), Pad2(c.hour), Pad2(c.minute))
  }

  /** A valid date's padded fields fill the date-time layout. */
  lemma PaddedLayout(d: IsoDate, c: Clock)
    requires ValidClock(c)
    ensures ValidIsoDate(d) ==>
      var s := Join(Pad4(d.year), Pad2(d.month), Pad2(d.day), Pad2(c.hour), Pad2(c.minute));
      && |s| == 19
      && s[4] == '-' && s[7] == '-' && s[10] == 'T' && s[13] == ':' && s[16] == ':'
  {
    if ValidIsoDate(d) {
      Pad4Value(d.year);
      Pad2Value(d.month);
      Pad2Value(d.day);
      Pad2Value(c.hour);
      Pad2Value(c.minute);
      JoinedFields(Pad4(d.year), Pad2(d.month), Pad2(d.day), Pad2(c.hour), Pad2(c.minute));
    }
  }

  /** Reading the composed string back gives the fields it was built from. */
  lemma ComposeParses(d: IsoDate, c: Clock)
    requires ValidIsoDate(d) && ValidClock(c)
    ensures ParseDateTimeString(ComposeDateTime(d, c))
              == Some(DateTimeFields(d.year, d.month, d.day, c.hour, c.minute, 0))
  {
    hide ComposeDateTime, Pad4, Pad2, PadStart, ToString, Value, AllDigits, DaysInMonth, InLeapYear;
    Pad4Value(d.year);
    Pad2Value(d.month);
    Pad2Value(d.day);
    Pad2Value(c.hour);
    Pad2Value(c.minute);
    ZeroSeconds();
    ComposeIsJoin(d, c);
    JoinedFields(Pad4(d.year), Pad2(d.month), Pad2(d.day), Pad2(c.hour), Pad2(c.minute));
  }

  lemma ComposeIsJoin(d: IsoDate, c: Clock)
    requires ValidClock(c)
    ensures ComposeDateTime(d, c)
              == Join(Pad4(d.year), Pad2(d.month), Pad2(d.day), Pad2(c.hour), Pad2(c.minute))
  {
  }

  /** A date-time string: the year, then everything after it. */
  function Join(y: string, mo: string, d: string, h: string, mi: string): string {
    y + Rest(mo, d, h, mi)
  }

  function Rest(mo: string, d: string, h: string, mi: string): string {
    "-" + mo + "-" + d + "T" + h + ":" + mi + ":00"
  }

  lemma ZeroSeconds()
    ensures AllDigits("00") && Value("00") == 0
  {
    ValueOfTwo("00");
  }

  /** Where the parts of a joined date-time string sit. */
  lemma JoinedFields(y: string, mo: string, d: string, h: string, mi: string)
    requires |y| == 4 && |mo| == 2 && |d| == 2 && |h| == 2 && |mi| == 2
    ensures var s := Join(y, mo, d, h, mi);
      && |s| == 19
      && s[4] == '-' && s[7] == '-' && s[10] == 'T' && s[13] == ':' && s[16] == ':'
      && s[0..4] == y && s[5..7] == mo && s[8..10] == d
      && s[11..13] == h && s[14..16] == mi && s[17..19] == "00"
  {
    var s := Join(y, mo, d, h, mi);
  }

  /** A date input's date at a valid clock time lies well inside the
      time-value range. */
  lemma StartInRange(d: IsoDate, c: Clock)
    requires ValidIsoDate(d) && ValidClock(c)
    ensures ValidDateTime(StartDateTime(d, c))
    ensures InTimeRange(TimeFromDateTime(StartDateTime(d, c)))
  {
    hide DayFromYear, DayFromDate, MonthStart, DaysInYear, DaysInMonth, YearFromDay, YearInEra;
    DayFromDateInYear(d.year, d.month - 1, d.day);
    FourDigitYearDays(d.year);
  }

  /** Years 1 to 9999 lie within 366 days a year of 1970. */
  lemma FourDigitYearDays(y: int)
    requires 1 <= y <= 9999
    ensures -366 * 1969 <= DayFromYear(y) && DayFromYear(y + 1) <= 366 * 8030
  {
    assert DayFromYear(1970) == 0;
    hide DayFromYear;
    if y < 1970 {
      DayFromYearMonotone(y, 1970);
      DayFromYearMonotone(y + 1, 1970);
    } else {
      DayFromYearMonotone(1970, y);
      DayFromYearMonotone(1970, y + 1);
    }
  }

  /** `new Date(dateStr)`: the composed string is read as the local date and
      time the form names, and the Date object's fields are those of the form. */
  lemma ComposeRoundTrip(d: IsoDate, c: Clock)
    requires ValidIsoDate(d) && ValidClock(c)
    ensures NewDateFromString(ComposeDateTime(d, c)) == Some(Int(TimeFromDateTime(StartDateTime(d, c))))
    ensures DateTimeFromTime(TimeFromDateTime(StartDateTime(d, c))) == StartDateTime(d, c)
  {
    hide ComposeDateTime, ParseDateTimeString, DateTimeFromTime, TimeFromDateTime, MakeDate, MakeDay,
         MakeTime, TimeClip, DayFromDate, DayFromYear, DaysInYear, MonthStart, DaysInMonth;
    var f := DateTimeFields(d.year, d.month, d.day, c.hour, c.minute, 0);
    ComposeParses(d, c);
    StartInRange(d, c);
    DateTimeRoundTrip(StartDateTime(d, c));
    FieldsTime(f);
    assert FieldsDateTime(f) == StartDateTime(d, c);
  }

  /** For four-digit years the string as written is the padded one. */
  lemma AsWrittenFromYear1000(d: IsoDate, c: Clock)
    requires ValidClock(c) && 1000 <= d.year <= 9999
    ensures ComposeAsWritten(d, c) == ComposeDateTime(d, c)
  {
    assert Pow10(4) == 10000;
    ToStringFits(d.year, 4);
    if |ToString(d.year)| < 4 {
      assert Pow10(3) == 1000;
      ShortNumberIsSmall(ToString(d.year));
    }
  }

  lemma ShortNumberIsSmall(s: string)
    requires 1 <= |s| <= 3 && AllDigits(s)
    ensures Value(s) < 1000
  {
    DigitsBound(s);
    if |s| == 1 {
      assert Pow10(1) == 10;
    } else if |s| == 2 {
      assert Pow10(2) == 100;
    } else {
      assert Pow10(3) == 1000;
    }
  }

  /** For a year below 1000 the string as written is not of the form
      `YYYY-MM-DDTHH:mm:ss`, so how it is read is up to the engine. */
  lemma AsWrittenShortYear(d: IsoDate, c: Clock)
    requires ValidIsoDate(d) && ValidClock(c) && d.year < 1000
    ensures |ComposeAsWritten(d, c)| < 19
    ensures ParseDateTimeString(ComposeAsWritten(d, c)).None?
    ensures NewDateFromString(ComposeAsWritten(d, c)).None?
  {
    assert Pow10(3) == 1000;
    ToStringFits(d.year, 3);
    Pad2Value(d.month);
    Pad2Value(d.day);
    Pad2Value(c.hour);
    Pad2Value(c.minute);
  }

  /** 1 May 999 is written `999-05-01T00:00:00`, eighteen characters. */
  lemma AsWrittenExample()
    ensures ComposeAsWritten(IsoDate(999, 5, 1), Clock(0, 0)) == "999-05-01T00:00:00"
  {
    hide ToString, Pad2, PadStart;
    ToStringExample();
    Pad2Digits(5);
    Pad2Digits(1);
    Pad2Digits(0);
  }

  lemma ToStringExample()
    ensures ToString(999) == "999"
  {
    assert ToString(9) == "9";
    assert ToString(99) == "99";
  }

  // -------------------------------------------------------- calculateDate

  /** calculateDate: an empty date or amount is reported first, then an
      amount that is not a number; otherwise the offset is applied to the
      Date read from the padded start string. For years 1000 to 9999 that
      is the string the calculator writes; for years below 1000 it is the
      intended one (`AsWrittenShortYear`). */
  function CalculateDate(f: Form): (r: Result<Number, string>)
    requires WellFormed(f)
    ensures r == Failure(MissingFieldsMessage) <==> f.startDate.None? || f.amount == ""
    ensures r == Failure(InvalidNumberMessage) <==>
      f.startDate.Some? && f.amount != "" && f.numAmount.NaN?
    ensures r.Success? <==> PassesChecks(f)
    ensures r.Success? ==>
      r.value == ApplyOffset(Int(TimeFromDateTime(StartDateTime(f.startDate.value, ParseTime(f.startTime)))),
                             f.numAmount.v, f.unit)
  {
    if f.startDate.None? || f.amount == "" then Failure(MissingFieldsMessage)
    else if f.numAmount.NaN? then Failure(InvalidNumberMessage)
    else
      var d := f.startDate.value;
      var c := ParseTime(f.startTime);
      ComposeRoundTrip(d, c);
      var resultDate := NewDateFromString(ComposeDateTime(d, c)).value;
      Success(ApplyOffset(resultDate, f.numAmount.v, f.unit))
  }

  /** The start instant of a form that passes the checks. */
  function StartInstant(f: Form): int
    requires WellFormed(f) && f.startDate.Some?
  {
    TimeFromDateTime(StartDateTime(f.startDate.value, ParseTime(f.startTime)))
  }

  /** A unit outside the six leaves the start date as it was read. */
  lemma UnknownUnitKeepsStart(f: Form)
    requires WellFormed(f) && PassesChecks(f)
    requires UnitFromName(f.unit).None?
    ensures CalculateDate(f) == Success(Int(StartInstant(f)))
  {
  }

  /** An amount of zero in any unit gives back the start date. */
  lemma ZeroAmountKeepsStart(f: Form)
    requires WellFormed(f) && PassesChecks(f) && f.numAmount == Int(0)
    ensures CalculateDate(f) == Success(Int(StartInstant(f)))
  {
    StartInRange(f.startDate.value, ParseTime(f.startTime));
    match UnitFromName(f.unit)
    case None =>
    case Some(u) => ZeroOffsetIdentity(StartInstant(f), u);
  }

  /** Minutes, hours, days and weeks move the start instant by the amount
      times the unit's length. */
  lemma CalculateByDuration(f: Form, u: Unit)
    requires WellFormed(f) && PassesChecks(f)
    requires f.unit == UnitName(u) && FixedLength(u)
    ensures CalculateDate(f) == Success(TimeClip(Int(StartInstant(f) + f.numAmount.v * UnitLength(u))))
  {
    hide CalculateDate, ApplyOffset, Shift, DateTimeFromTime, TimeFromDateTime, ParseTime, DayFromDate,
         DayFromYear, DaysInYear, MonthStart, DaysInMonth, TimeClip, UnitLength;
    UnitNameRoundTrip(u);
    ShiftByDuration(StartInstant(f), f.numAmount.v, u);
  }

  /** Months land on the calendar fields of `MonthsLater` applied to the
      form's date and time. */
  lemma CalculateByMonths(f: Form)
    requires WellFormed(f) && PassesChecks(f) && f.unit == "months"
    requires CalculateDate(f).value.Int?
    ensures var x := StartDateTime(f.startDate.value, ParseTime(f.startTime));
      ValidDateTime(x) && DateTimeFromTime(CalculateDate(f).value.v) == MonthsLater(x, f.numAmount.v)
  {
    hide CalculateDate, ApplyOffset, Shift, MonthsLater, YearsLater, DateTimeFromTime, TimeFromDateTime,
         ParseTime, DayFromDate, DayFromYear, DaysInYear, MonthStart, DaysInMonth, TimeClip;
    var x := StartDateTime(f.startDate.value, ParseTime(f.startTime));
    StartInRange(f.startDate.value, ParseTime(f.startTime));
    DateTimeRoundTrip(x);
    UnitNameRoundTrip(Months);
    ShiftByMonthsFields(StartInstant(f), f.numAmount.v);
  }

  /** Years land on the calendar fields of `YearsLater` applied to the form's
      date and time. */
  lemma CalculateByYears(f: Form)
    requires WellFormed(f) && PassesChecks(f) && f.unit == "years"
    requires CalculateDate(f).value.Int?
    ensures var x := StartDateTime(f.startDate.value, ParseTime(f.startTime));
      ValidDateTime(x) && DateTimeFromTime(CalculateDate(f).value.v) == YearsLater(x, f.numAmount.v)
  {
    hide CalculateDate, ApplyOffset, Shift, MonthsLater, YearsLater, DateTimeFromTime, TimeFromDateTime,
         ParseTime, DayFromDate, DayFromYear, DaysInYear, MonthStart, DaysInMonth, TimeClip;
    var x := StartDateTime(f.startDate.value, ParseTime(f.startTime));
    StartInRange(f.startDate.value, ParseTime(f.startTime));
    DateTimeRoundTrip(x);
    UnitNameRoundTrip(Years);
    ShiftByYearsFields(StartInstant(f), f.numAmount.v);
  }
}
