/**
 * The countdown display of the activity (`updateCountDownText`): the time
 * left in milliseconds is cut into whole hours, minutes and seconds with Java's
 * truncating integer division, and shown as `H:MM:SS` when there is at least
 * one hour and as `MM:SS` otherwise.
 */
module CountdownFormat {
  import opened Options
  import opened JavaLang

  /** The three fields the display shows. */
  datatype Clock = Clock(hours: int, minutes: int, seconds: int)

  /**
   * The whole seconds `millis / 1000` are cast to a Java `int` before they are
   * divided further; the model stays within the range where that cast is exact.
   */
  predicate Displayable(millis: int) {
    INT_MIN <= Quot(millis, 1000) <= INT_MAX
  }

  /**
   * The fields of the display for a number of whole seconds. They recompose
   * the seconds; minutes and seconds are below 60 in magnitude and, like every
   * field, carry the sign of the seconds.
   */
  function ClockOf(total: int): (c: Clock)
    ensures c.hours * 3600 + c.minutes * 60 + c.seconds == total
    ensures -60 < c.minutes < 60 && -60 < c.seconds < 60
    ensures total >= 0 ==> c.hours >= 0 && c.minutes >= 0 && c.seconds >= 0
    ensures total <= 0 ==> c.hours <= 0 && c.minutes <= 0 && c.seconds <= 0
  {
    var r := Rem(total, 3600);
    var c := Clock(Quot(total, 3600), Quot(r, 60), Rem(total, 60));
    assert total == 60 * (60 * c.hours + c.minutes) + Rem(r, 60);
    QuotRemUnique(total, 60, 60 * c.hours + c.minutes, Rem(r, 60));
    QuotNonPositive(total, 3600);
    QuotNonPositive(r, 60);
    c
  }

  /**
   * `%02d`: at least two characters, zero-padded after the sign (a negative
   * value is never padded); a field from 0 to 59 is exactly two digits that
   * read back as the field.
   */
  function Pad2(v: int): (r: string)
    ensures |r| >= 2
    ensures v < 0 ==> r[0] == '-' && |r| == 1 + |Decimal(-v)|
    ensures 0 <= v < 60 ==> |r| == 2 && AllDigits(r) && DigitsValue(r) == v
  {
    if 0 <= v < 10 then
      var r := "0" + Decimal(v);
      assert r == ['0', DigitChar(v)];
      assert r[..1] == "0" && r[..1][..0] == [];
      assert DigitsValue(r) == DigitsValue(r[..1]) * 10 + v;
      r
    else if v >= 10 then
      assert Decimal(v) == Decimal(v / 10) + [DigitChar(v % 10)];
      DecimalRoundTrip(v);
      IntToString(v)
    else
      IntToString(v)
  }

  /** Whatever the value, negative ones included, `Long.parseLong` reads the `%02d` text back as the value. */
  lemma Pad2ReadsBack(v: int)
    ensures IsLongLiteral(Pad2(v)) && LiteralValue(Pad2(v)) == v
  {
    if 0 <= v < 10 {
      assert IsDigit(Pad2(v)[0]);
    } else {
      IntToStringRoundTrip(v);
    }
  }

  /** `%d:%02d:%02d` when there is at least one hour, `%02d:%02d` otherwise. */
  function Render(c: Clock): string {
    if c.hours > 0 then IntToString(c.hours) + ":" + Pad2(c.minutes) + ":" + Pad2(c.seconds)
    else Pad2(c.minutes) + ":" + Pad2(c.seconds)
  }

  /**
   * The text of the countdown display for a time left of `millis`. For a time
   * left that is not negative it loses nothing but the milliseconds: reading
   * it back gives the whole seconds left; and it has no hour field exactly
   * when less than an hour is left.
   */
  function FormatCountdown(millis: int): (r: string)
    requires Displayable(millis)
    ensures 0 <= millis ==> ReadClock(r) == Some(millis / 1000)
    ensures 0 <= millis ==> (|r| == 5 <==> millis < 3_600_000)
  {
    var total := Quot(millis, 1000);
    RenderReadBack(total);
    Render(ClockOf(total))
  }

  /** The display of a non-negative number of whole seconds reads back as that number. */
  lemma RenderReadBack(total: int)
    ensures total >= 0 ==> ReadClock(Render(ClockOf(total))) == Some(total)
    ensures total >= 0 ==> (|Render(ClockOf(total))| == 5 <==> total < 3600)
  {
    if total >= 0 {
      var c := ClockOf(total);
      if c.hours > 0 {
        RenderLongReadBack(c);
      } else {
        RenderShortReadBack(c);
      }
    }
  }

  /** With at least one hour, the display is `H:MM:SS`, at least 7 characters, and reads back. */
  lemma RenderLongReadBack(c: Clock)
    requires c.hours > 0 && 0 <= c.minutes < 60 && 0 <= c.seconds < 60
    ensures ReadClock(Render(c)) == Some(c.hours * 3600 + c.minutes * 60 + c.seconds)
    ensures |Render(c)| >= 7
  {
    LongText(c);
    LongFields(c);
    ReadLongForm(Decimal(c.hours), Pad2(c.minutes), Pad2(c.seconds));
  }

  lemma LongText(c: Clock)
    requires c.hours > 0
    ensures Render(c) == Decimal(c.hours) + ":" + Pad2(c.minutes) + ":" + Pad2(c.seconds)
  {
  }

  /** The three fields of the long display are well formed and hold the clock's values. */
  lemma LongFields(c: Clock)
    requires c.hours > 0 && 0 <= c.minutes < 60 && 0 <= c.seconds < 60
    ensures IsHourField(Decimal(c.hours)) && DigitsValue(Decimal(c.hours)) == c.hours
    ensures IsSixtyField(Pad2(c.minutes)) && DigitsValue(Pad2(c.minutes)) == c.minutes
    ensures IsSixtyField(Pad2(c.seconds)) && DigitsValue(Pad2(c.seconds)) == c.seconds
  {
    DecimalRoundTrip(c.hours);
    DecimalNoLeadingZero(c.hours);
  }

  /** Without an hour, the display is `MM:SS`, 5 characters, and reads back. */
  lemma RenderShortReadBack(c: Clock)
    requires c.hours <= 0 && 0 <= c.minutes < 60 && 0 <= c.seconds < 60
    ensures ReadClock(Render(c)) == Some(c.minutes * 60 + c.seconds)
    ensures |Render(c)| == 5
  {
    var mm, ss := Pad2(c.minutes), Pad2(c.seconds);
    assert |mm| == 2 && AllDigits(mm) && DigitsValue(mm) == c.minutes;
    assert |ss| == 2 && AllDigits(ss) && DigitsValue(ss) == c.seconds;
    assert Render(c) == mm + ":" + ss;
    ReadShortForm(mm, ss);
  }

  /**
   * Reads a display text back into whole seconds: `MM:SS` or `H:MM:SS` with
   * digits only, minutes and seconds below 60 and no leading zero in the
   * hour, and nothing for any other text.
   */
  function ReadClock(t: string): Option<int> {
    if |t| == 5 && t[2] == ':' && IsSixtyField(t[..2]) && IsSixtyField(t[3..]) then
      Some(DigitsValue(t[..2]) * 60 + DigitsValue(t[3..]))
    else if |t| >= 7 && t[|t| - 6] == ':' && t[|t| - 3] == ':'
            && IsHourField(t[..|t| - 6]) && IsSixtyField(t[|t| - 5..|t| - 3]) && IsSixtyField(t[|t| - 2..]) then
      Some(DigitsValue(t[..|t| - 6]) * 3600 + DigitsValue(t[|t| - 5..|t| - 3]) * 60 + DigitsValue(t[|t| - 2..]))
    else None
  }

  /**
   * The reader refuses what the display never shows: a field of 60 or more,
   * and an hour field with a leading zero.
   */
  lemma ReadClockStrict()
    ensures ReadClock("00:60") == None
    ensures ReadClock("01:00:00") == None
  {
    assert "00:60"[3..] == "60";
    assert DigitsValue("60") == 60 by {
      assert "60"[..1] == "6";
      assert "6"[..0] == [];
    }
    assert "01:00:00"[..2] == "01";
  }

  /** A minute or second field: two digits worth less than 60. */
  predicate IsSixtyField(f: string) {
    |f| == 2 && AllDigits(f) && DigitsValue(f) < 60
  }

  /** An hour field as `%d` writes a positive number: digits without a leading zero. */
  predicate IsHourField(h: string) {
    |h| >= 1 && AllDigits(h) && h[0] != '0'
  }

  /** A text `MM:SS` of two-digit fields below 60 reads back as minutes and seconds. */
  lemma {:induction false} ReadShortForm(mm: string, ss: string)
    requires IsSixtyField(mm) && IsSixtyField(ss)
    ensures ReadClock(mm + ":" + ss) == Some(DigitsValue(mm) * 60 + DigitsValue(ss))
  {
    var t := mm + ":" + ss;
    assert |t| == 5 && t[2] == ':';
    assert t[..2] == mm;
    assert t[3..] == ss;
    assert ReadClock(t).Some?;
    assert ReadClock(t).value == DigitsValue(t[..2]) * 60 + DigitsValue(t[3..]);
  }

  /** A text `H:MM:SS` with a positive hour field reads back as hours, minutes and seconds. */
  lemma {:induction false} ReadLongForm(hh: string, mm: string, ss: string)
    requires IsHourField(hh) && IsSixtyField(mm) && IsSixtyField(ss)
    ensures ReadClock(hh + ":" + mm + ":" + ss)
         == Some(DigitsValue(hh) * 3600 + DigitsValue(mm) * 60 + DigitsValue(ss))
  {
    var t := hh + ":" + mm + ":" + ss;
    var k := |t|;
    assert k == |hh| + 6;
    assert t[k - 6] == ':' && t[k - 3] == ':';
    assert t[..k - 6] == hh;
    assert t[k - 5..k - 3] == mm;
    assert t[k - 2..] == ss;
    assert IsHourField(t[..k - 6]) && IsSixtyField(t[k - 5..k - 3]) && IsSixtyField(t[k - 2..]);
    assert |t| != 5;
    assert ReadClock(t).Some?;
    assert ReadClock(t).value
        == DigitsValue(t[..k - 6]) * 3600 + DigitsValue(t[k - 5..k - 3]) * 60 + DigitsValue(t[k - 2..]);
    assert ReadClock(t) == Some(DigitsValue(hh) * 3600 + DigitsValue(mm) * 60 + DigitsValue(ss));
  }

  /**
   * Two non-negative times left show the same text exactly when they hold the
   * same number of whole seconds.
   */
  lemma FormatSameText(a: int, b: int)
    requires 0 <= a && Displayable(a) && 0 <= b && Displayable(b)
    ensures FormatCountdown(a) == FormatCountdown(b) <==> a / 1000 == b / 1000
  {
  }
}

/**
 * The countdown display on a few concrete times left. Each example is taken
 * in two steps: the fields for the time left, then the text for the fields.
 */
module CountdownExamples {
  import opened JavaLang
  import opened CountdownFormat

  lemma ZeroFields()
    ensures ClockOf(Quot(0, 1000)) == Clock(0, 0, 0)
  {
  }

  lemma ZeroText()
    ensures Render(Clock(0, 0, 0)) == "00:00"
  {
    assert Pad2(0) == "00";
  }

  /** Nothing left shows "00:00". */
  lemma FormatZero()
    ensures FormatCountdown(0) == "00:00"
  {
    ZeroFields();
    ZeroText();
  }

  lemma FiftyNineFields()
    ensures ClockOf(Quot(59_000, 1000)) == Clock(0, 0, 59)
  {
    assert Quot(59_000, 1000) == 59;
  }

  lemma AlmostSixtyFields()
    ensures ClockOf(Quot(59_999, 1000)) == Clock(0, 0, 59)
  {
    assert Quot(59_999, 1000) == 59;
  }

  lemma FiftyNineText()
    ensures Render(Clock(0, 0, 59)) == "00:59"
  {
    assert Pad2(0) == "00";
    assert Decimal(59) == "59";
    assert Pad2(59) == "59";
  }

  /** 59 seconds left show "00:59". */
  lemma FormatFiftyNineSeconds()
    ensures FormatCountdown(59_000) == "00:59"
  {
    FiftyNineFields();
    FiftyNineText();
  }

  /** The milliseconds are cut off: 59.999 seconds left show "00:59" too. */
  lemma FormatJustUnderOneMinute()
    ensures FormatCountdown(59_999) == "00:59"
  {
    AlmostSixtyFields();
    FiftyNineText();
  }

  lemma MinuteAndSecondFields()
    ensures ClockOf(Quot(61_500, 1000)) == Clock(0, 1, 1)
  {
    assert Quot(61_500, 1000) == 61;
  }

  lemma MinuteAndSecondText()
    ensures Render(Clock(0, 1, 1)) == "01:01"
  {
    assert Pad2(1) == "01";
  }

  /** 61.5 seconds left show one minute and one second: "01:01". */
  lemma FormatMinuteAndSecond()
    ensures FormatCountdown(61_500) == "01:01"
  {
    MinuteAndSecondFields();
    MinuteAndSecondText();
  }

  lemma HourFields()
    ensures ClockOf(Quot(3_600_000, 1000)) == Clock(1, 0, 0)
    ensures ClockOf(Quot(3_661_000, 1000)) == Clock(1, 1, 1)
  {
    assert Quot(3_600_000, 1000) == 3600;
    assert Quot(3_661_000, 1000) == 3661;
  }

  lemma HourTexts()
    ensures Render(Clock(1, 0, 0)) == "1:00:00"
    ensures Render(Clock(1, 1, 1)) == "1:01:01"
  {
    assert IntToString(1) == "1";
    assert Pad2(0) == "00";
    assert Pad2(1) == "01";
  }

  /** The texts the display shows for times left of one hour and more. */
  lemma FormatExamplesLong()
    ensures FormatCountdown(3_600_000) == "1:00:00"
    ensures FormatCountdown(3_661_000) == "1:01:01"
  {
    HourFields();
    HourTexts();
  }

  lemma NegativeFields()
    ensures ClockOf(Quot(-65_000, 1000)) == Clock(0, -1, -5)
    ensures ClockOf(Quot(-3_665_000, 1000)) == Clock(-1, -1, -5)
  {
    assert Quot(-65_000, 1000) == -65;
    assert Quot(-3_665_000, 1000) == -3665;
  }

  lemma NegativeTexts()
    ensures Render(Clock(0, -1, -5)) == "-1:-5"
    ensures Render(Clock(-1, -1, -5)) == "-1:-5"
  {
    assert Pad2(-1) == "-1";
    assert Pad2(-5) == "-5";
  }

  /**
   * A negative time left, which only a negative minute entry can produce, is
   * shown with a sign on each field: -65 seconds reads "-1:-5".
   */
  lemma FormatNegativeExample()
    ensures FormatCountdown(-65_000) == "-1:-5"
  {
    NegativeFields();
    NegativeTexts();
  }

  /**
   * Only a positive hour count selects the long form, so a negative time left
   * of an hour or more loses its hour field: -3665 seconds read "-1:-5" too.
   */
  lemma FormatNegativeHourDropped()
    ensures FormatCountdown(-3_665_000) == "-1:-5"
    ensures FormatCountdown(-3_665_000) == FormatCountdown(-65_000)
  {
    NegativeFields();
    NegativeTexts();
  }
}
