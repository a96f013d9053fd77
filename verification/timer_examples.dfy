/** The concrete displays the elapsed timer is expected to show, checked
    against the model: each whole-second elapsed time below a thousand hours
    is spelled out digit by digit, and the listed examples follow. */
module TimerExamples {
  import opened JsText
  import opened ElapsedTimer

  /** A field from one hundred to 999 is its three decimal digits. */
  lemma FieldThreeDigits(n: nat)
    requires 100 <= n < 1000
    ensures Field(n) == [DigitChar(n / 100), DigitChar(n / 10 % 10), DigitChar(n % 10)]
  {
    assert Decimal(n / 100) == [DigitChar(n / 100)];
    assert Decimal(n / 10) == [DigitChar(n / 100), DigitChar(n / 10 % 10)];
  }

  lemma JoinTwoDigitHours(a: string, b: string, c: string, a1: char, a2: char,
                          b1: char, b2: char, c1: char, c2: char)
    requires a == [a1, a2] && b == [b1, b2] && c == [c1, c2]
    ensures a + ":" + b + ":" + c == [a1, a2, ':', b1, b2, ':', c1, c2]
  {
  }

  lemma JoinThreeDigitHours(a: string, b: string, c: string, a1: char, a2: char, a3: char,
                            b1: char, b2: char, c1: char, c2: char)
    requires a == [a1, a2, a3] && b == [b1, b2] && c == [c1, c2]
    ensures a + ":" + b + ":" + c == [a1, a2, a3, ':', b1, b2, ':', c1, c2]
  {
  }

  /** The clock 0:0:1, rendered. */
  lemma RenderOneSecond()
    ensures Render(Clock(0, 0, 1)) == "00:00:01"
  {
    FieldTwoDigits(0);
    FieldTwoDigits(1);
    assert DigitChar(0) == '0' && DigitChar(1) == '1';
    JoinTwoDigitHours(Field(0), Field(0), Field(1), '0', '0', '0', '0', '0', '1');
  }

  /** One second. */
  lemma FormatOneSecond()
    ensures Format(1000) == "00:00:01"
  {
    SplitUnique(1000, Clock(0, 0, 1));
    RenderOneSecond();
  }

  /** The clock 0:0:10, rendered. */
  lemma RenderTenSeconds()
    ensures Render(Clock(0, 0, 10)) == "00:00:10"
  {
    FieldTwoDigits(0);
    FieldTwoDigits(10);
    assert DigitChar(0) == '0' && DigitChar(1) == '1';
    JoinTwoDigitHours(Field(0), Field(0), Field(10), '0', '0', '0', '0', '1', '0');
  }

  /** Ten seconds: the display has moved off the start text. */
  lemma FormatTenSeconds()
    ensures Format(10000) == "00:00:10"
  {
    SplitUnique(10000, Clock(0, 0, 10));
    RenderTenSeconds();
  }

  /** The clock 0:1:0, rendered. */
  lemma RenderOneMinute()
    ensures Render(Clock(0, 1, 0)) == "00:01:00"
  {
    FieldTwoDigits(0);
    FieldTwoDigits(1);
    assert DigitChar(0) == '0' && DigitChar(1) == '1';
    JoinTwoDigitHours(Field(0), Field(1), Field(0), '0', '0', '0', '1', '0', '0');
  }

  /** Sixty seconds roll over into the minutes field. */
  lemma FormatOneMinute()
    ensures Format(60000) == "00:01:00"
  {
    SplitUnique(60000, Clock(0, 1, 0));
    RenderOneMinute();
  }

  /** The clock 0:1:1, rendered. */
  lemma RenderOneMinuteOneSecond()
    ensures Render(Clock(0, 1, 1)) == "00:01:01"
  {
    FieldTwoDigits(0);
    FieldTwoDigits(1);
    assert DigitChar(0) == '0' && DigitChar(1) == '1';
    JoinTwoDigitHours(Field(0), Field(1), Field(1), '0', '0', '0', '1', '0', '1');
  }

  /** One minute and one second. */
  lemma FormatOneMinuteOneSecond()
    ensures Format(61000) == "00:01:01"
  {
    SplitUnique(61000, Clock(0, 1, 1));
    RenderOneMinuteOneSecond();
  }

  /** The clock 1:0:0, rendered. */
  lemma RenderOneHour()
    ensures Render(Clock(1, 0, 0)) == "01:00:00"
  {
    FieldTwoDigits(0);
    FieldTwoDigits(1);
    assert DigitChar(0) == '0' && DigitChar(1) == '1';
    JoinTwoDigitHours(Field(1), Field(0), Field(0), '0', '1', '0', '0', '0', '0');
  }

  /** Sixty minutes roll over into the hours field. */
  lemma FormatOneHour()
    ensures Format(3600000) == "01:00:00"
  {
    SplitUnique(3600000, Clock(1, 0, 0));
    RenderOneHour();
  }

  /** The clock 1:1:1, rendered. */
  lemma RenderOneHourOneMinuteOneSecond()
    ensures Render(Clock(1, 1, 1)) == "01:01:01"
  {
    FieldTwoDigits(1);
    assert DigitChar(0) == '0' && DigitChar(1) == '1';
    JoinTwoDigitHours(Field(1), Field(1), Field(1), '0', '1', '0', '1', '0', '1');
  }

  /** One hour, one minute and one second. */
  lemma FormatOneHourOneMinuteOneSecond()
    ensures Format(3661000) == "01:01:01"
  {
    SplitUnique(3661000, Clock(1, 1, 1));
    RenderOneHourOneMinuteOneSecond();
  }

  /** The clock 11:1:1, rendered. */
  lemma RenderElevenHours()
    ensures Render(Clock(11, 1, 1)) == "11:01:01"
  {
    FieldTwoDigits(1);
    FieldTwoDigits(11);
    assert DigitChar(0) == '0' && DigitChar(1) == '1';
    JoinTwoDigitHours(Field(11), Field(1), Field(1), '1', '1', '0', '1', '0', '1');
  }

  /** Eleven hours, one minute and one second. */
  lemma FormatElevenHours()
    ensures Format(39661000) == "11:01:01"
  {
    SplitUnique(39661000, Clock(11, 1, 1));
    RenderElevenHours();
  }

  /** The clock 111:1:1, rendered. */
  lemma RenderHundredElevenHours()
    ensures Render(Clock(111, 1, 1)) == "111:01:01"
  {
    FieldTwoDigits(1);
    FieldThreeDigits(111);
    assert DigitChar(0) == '0' && DigitChar(1) == '1';
    JoinThreeDigitHours(Field(111), Field(1), Field(1), '1', '1', '1', '0', '1', '0', '1');
  }

  /** The hours field grows past two digits instead of wrapping. */
  lemma FormatHundredElevenHours()
    ensures Format(399661000) == "111:01:01"
  {
    SplitUnique(399661000, Clock(111, 1, 1));
    RenderHundredElevenHours();
  }
}
