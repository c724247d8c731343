/** The start-time field of the date calculator: the 24-hour pattern that
    guards every edit, and the split of the stored value into hours and
    minutes. */
module TimeField {
  import opened Decimal

  /** The stored value before any edit. */
  const InitialTime: string := "00:00"

  /** The pattern `^([0-1]?[0-9]|2[0-3]):[0-5][0-9]$`: an hour that is one
      digit, two digits starting with 0 or 1, or 20 to 23; a colon; a minute
      whose tens digit is 0 to 5. */
  predicate MatchesTimePattern(s: string)
    ensures MatchesTimePattern(s) ==>
      && (|s| == 4 || |s| == 5)
      && s[|s| - 3] == ':'
      && 1 <= |s[..|s| - 3]| <= 2 && AllDigits(s[..|s| - 3])
      && |s[|s| - 2..]| == 2 && AllDigits(s[|s| - 2..])
  {
    && (|s| == 4 || |s| == 5)
    && HourPattern(s[..|s| - 3])
    && s[|s| - 3] == ':'
    && '0' <= s[|s| - 2] <= '5' && IsDigit(s[|s| - 1])
  }

  predicate HourPattern(h: string) {
    || (|h| == 1 && IsDigit(h[0]))
    || (|h| == 2 && (h[0] == '0' || h[0] == '1') && IsDigit(h[1]))
    || (|h| == 2 && h[0] == '2' && '0' <= h[1] <= '3')
  }

  datatype Clock = Clock(hour: int, minute: int)

  predicate ValidClock(c: Clock) {
    0 <= c.hour < 24 && 0 <= c.minute < 60
  }

  /** `value.split(':').map(Number)` on a value the pattern accepts. */
  function ParseTime(s: string): (c: Clock)
    requires MatchesTimePattern(s)
    ensures ValidClock(c)
  {
    FieldValues(s);
    Clock(Value(s[..|s| - 3]), Value(s[|s| - 2..]))
  }

  lemma FieldValues(s: string)
    requires MatchesTimePattern(s)
    ensures AllDigits(s[..|s| - 3]) && AllDigits(s[|s| - 2..])
    ensures Value(s[..|s| - 3]) < 24 && Value(s[|s| - 2..]) < 60
  {
    var h := s[..|s| - 3];
    if |h| == 1 { ValueOfOne(h); } else { ValueOfTwo(h); }
    ValueOfTwo(s[|s| - 2..]);
  }

  /** The ways the calculator's own formatting spells a clock time: hour and
      minute zero-padded to two digits, and for a single-digit hour also
      the unpadded hour. */
  function ClockTexts(c: Clock): set<string>
    requires ValidClock(c)
  {
    {Pad2(c.hour) + ":" + Pad2(c.minute)}
      + (if c.hour < 10 then {ToString(c.hour) + ":" + Pad2(c.minute)} else {})
  }

  /** Everything the pattern accepts spells the clock time it parses to. */
  lemma TimePatternSound(s: string)
    requires MatchesTimePattern(s)
    ensures s in ClockTexts(ParseTime(s))
  {
    var h := s[..|s| - 3];
    var m := s[|s| - 2..];
    assert s == h + ":" + m;
    FieldValues(s);
    assert ParseTime(s) == Clock(Value(h), Value(m));
    assert |h| == 1 || |h| == 2;
    hide MatchesTimePattern, HourPattern, ParseTime;
    FieldsText(h, m, s);
  }

  lemma FieldsText(h: string, m: string, s: string)
    requires (|h| == 1 || |h| == 2) && |m| == 2 && AllDigits(h) && AllDigits(m)
    requires Value(h) < 24 && Value(m) < 60
    requires s == h + ":" + m
    ensures s in ClockTexts(Clock(Value(h), Value(m)))
  {
    TwoDigitText(m);
    if |h| == 1 {
      OneDigitText(h);
      hide Value, ToString, Pad2;
      assert s == ToString(Value(h)) + ":" + Pad2(Value(m));
    } else {
      TwoDigitText(h);
      hide Value, ToString, Pad2;
      assert s == Pad2(Value(h)) + ":" + Pad2(Value(m));
    }
  }

  /** Every spelling of every valid clock time is accepted and parses back to
      that clock time. */
  lemma TimePatternComplete(c: Clock, s: string)
    requires ValidClock(c) && s in ClockTexts(c)
    ensures MatchesTimePattern(s)
    ensures ParseTime(s) == c
  {
    var m := Pad2(c.minute);
    var h := if s == Pad2(c.hour) + ":" + m then Pad2(c.hour) else ToString(c.hour);
    assert s == h + ":" + m;
    HourText(c.hour, h);
    MinuteText(c.minute);
    hide ClockTexts, Pad2, ToString;
    JoinedText(h, m, s);
  }

  lemma HourText(hour: nat, h: string)
    requires hour < 24
    requires h == Pad2(hour) || (hour < 10 && h == ToString(hour))
    ensures HourPattern(h) && AllDigits(h) && Value(h) == hour
  {
    if h == Pad2(hour) {
      Pad2Digits(hour);
      Pad2Value(hour);
    } else {
      assert Pow10(1) == 10;
      ToStringFits(hour, 1);
    }
  }

  lemma MinuteText(minute: nat)
    requires minute < 60
    ensures var m := Pad2(minute);
      |m| == 2 && '0' <= m[0] <= '5' && IsDigit(m[1]) && AllDigits(m) && Value(m) == minute
  {
    Pad2Digits(minute);
    Pad2Value(minute);
  }

  lemma JoinedText(h: string, m: string, s: string)
    requires HourPattern(h) && |m| == 2 && '0' <= m[0] <= '5' && IsDigit(m[1])
    requires s == h + ":" + m
    ensures MatchesTimePattern(s) && s[..|s| - 3] == h && s[|s| - 2..] == m
  {
    assert s[..|s| - 3] == h;
    assert s[|s| - 2..] == m;
  }

  /** handleTimeChange: an edit that matches the pattern replaces the stored
      value exactly; any other edit leaves the stored value as it was. */
  function HandleTimeChange(stored: string, edit: string): (r: string)
    ensures MatchesTimePattern(edit) ==> r == edit
    ensures r != stored ==> r == edit && MatchesTimePattern(edit)
    ensures MatchesTimePattern(stored) ==> MatchesTimePattern(r)
  {
    if MatchesTimePattern(edit) then edit else stored
  }

  /** The stored value after a sequence of edits, starting from 00:00. */
  function TimeAfterEdits(edits: seq<string>): string {
    if |edits| == 0 then InitialTime
    else HandleTimeChange(TimeAfterEdits(edits[..|edits| - 1]), edits[|edits| - 1])
  }

  /** The stored value always matches the pattern, so no malformed time ever
      reaches the calculation. */
  lemma {:induction false} StoredTimeMatches(edits: seq<string>)
    ensures MatchesTimePattern(TimeAfterEdits(edits))
  {
    if |edits| == 0 {
      assert InitialTime[..2] == "00";
    } else {
      StoredTimeMatches(edits[..|edits| - 1]);
    }
  }

  /** The stored value is the last accepted edit, or 00:00 when no edit was
      accepted. */
  lemma {:induction false} StoredTimeIsLastAccepted(edits: seq<string>)
    ensures (forall j :: 0 <= j < |edits| ==> !MatchesTimePattern(edits[j]))
              ==> TimeAfterEdits(edits) == InitialTime
    ensures forall i :: 0 <= i < |edits| && MatchesTimePattern(edits[i])
              && (forall j :: i < j < |edits| ==> !MatchesTimePattern(edits[j]))
              ==> TimeAfterEdits(edits) == edits[i]
  {
    if |edits| > 0 {
      var init := edits[..|edits| - 1];
      StoredTimeIsLastAccepted(init);
      assert forall j :: 0 <= j < |init| ==> init[j] == edits[j];
    }
  }

  lemma PatternExamples()
    ensures MatchesTimePattern("13:30") && MatchesTimePattern("9:05") && MatchesTimePattern("00:00")
    ensures !MatchesTimePattern("25:00") && !MatchesTimePattern("24:00")
    ensures !MatchesTimePattern("12:5") && !MatchesTimePattern("1230")
    ensures ParseTime("13:30") == Clock(13, 30) && ParseTime("9:05") == Clock(9, 5)
  {
    assert "13:30"[..2] == "13";
    assert "9:05"[..1] == "9";
    assert "00:00"[..2] == "00";
    assert "25:00"[..2] == "25";
    assert "24:00"[..2] == "24";
    assert "12:5"[..1] == "1";
    assert "1230"[..1] == "1";
    ValueOfTwo("13");
    ValueOfTwo("30");
    ValueOfOne("9");
    ValueOfTwo("05");
  }
}
