/** The elapsed-time display of `BreathingAnimationTimer.tsx`: the
    `HH:MM:SS` text the interval callback builds from elapsed milliseconds,
    and the reading of such a text back into hours, minutes and seconds. */
module ElapsedTimer {
  import opened Wrappers
  import opened JsText

  const MS_IN_SEC: nat := 1000
  const SEC_IN_MIN: nat := 60
  const MIN_IN_HR: nat := 60
  const MS_IN_MIN: nat := 60000
  const MS_IN_HR: nat := 3600000

  /** Period of the display refresh interval. */
  const TICK_PERIOD: nat := 1 * MS_IN_SEC

  /** The display before the first tick and after a reset. */
  const START_TEXT: string := "00:00:00"

  /** The three numbers the display shows. */
  datatype Clock = Clock(hours: nat, minutes: nat, seconds: nat)

  /** The whole seconds a clock stands for. */
  function TotalSeconds(c: Clock): nat {
    c.hours * 3600 + c.minutes * 60 + c.seconds
  }

  /** A clock whose minutes and seconds are proper sexagesimal digits. */
  predicate Normal(c: Clock) {
    c.minutes < MIN_IN_HR && c.seconds < SEC_IN_MIN
  }

  /** The fields computed from elapsed milliseconds d: hours are never
      wrapped, minutes and seconds are taken modulo 60, and together they
      account for every whole second of d. */
  function Split(d: nat): (c: Clock)
    ensures Normal(c)
    ensures TotalSeconds(c) == d / MS_IN_SEC
  {
    StagedDivision(d);
    Clock(d / MS_IN_HR, (d / MS_IN_MIN) % MIN_IN_HR, (d / MS_IN_SEC) % SEC_IN_MIN)
  }

  /** Dividing milliseconds down to minutes or hours in one step agrees
      with going through whole seconds first. */
  lemma StagedDivision(d: nat)
    ensures d / MS_IN_MIN == d / MS_IN_SEC / SEC_IN_MIN
    ensures d / MS_IN_HR == d / MS_IN_SEC / SEC_IN_MIN / MIN_IN_HR
  {
    var t, r := d / 1000, d % 1000;
    var u, v := t / 60, t % 60;
    var h, w := u / 60, u % 60;
    assert d == 1000 * t + r;
    assert d == 60000 * u + (1000 * v + r);
    assert d == 3600000 * h + (60000 * w + 1000 * v + r);
  }

  /** A normal clock is determined by the seconds it stands for, so Split
      is the only way to show d as hours, minutes and seconds. */
  lemma SplitUnique(d: nat, c: Clock)
    requires Normal(c) && TotalSeconds(c) == d / MS_IN_SEC
    ensures c == Split(d)
  {
    var t := d / MS_IN_SEC;
    var k := c.hours * 60 + c.minutes;
    assert t == k * 60 + c.seconds;
    assert t % 60 == c.seconds && t / 60 == k;
    assert k % 60 == c.minutes && k / 60 == c.hours;
  }

  /** A field as shown: `${n}.padStart(2, "0")`; two characters for
      any value below one hundred. */
  function Field(n: nat): (r: string)
    ensures |r| >= 2 && AllDigits(r)
    ensures n < 100 ==> |r| == 2
  {
    DecimalOfSmall(n);
    PadStart(Decimal(n), 2, '0')
  }

  /** A shown field denotes the number it was made from. */
  lemma FieldValue(n: nat)
    ensures DigitsValue(Field(n)) == n
  {
    DecimalRoundTrip(n);
    ZeroPadValue(Decimal(n), 2);
  }

  /** A field below one hundred is its two decimal digits. */
  lemma FieldTwoDigits(n: nat)
    requires n < 100
    ensures Field(n) == [DigitChar(n / 10), DigitChar(n % 10)]
  {
    if n < 10 {
      assert Decimal(n) == [DigitChar(n)];
      assert Repeat('0', 1) == ['0'];
    } else {
      assert Decimal(n / 10) == [DigitChar(n / 10)];
    }
  }

  /** The three fields joined with colons. For minutes and seconds below
      60 the text reads back as the clock it was made from. */
  function Render(c: Clock): (r: string)
    ensures |r| >= 8
    ensures Normal(c) ==> Parse(r) == Some(c)
  {
    var h, m, s := Field(c.hours), Field(c.minutes), Field(c.seconds);
    var r := h + ":" + m + ":" + s;
    if Normal(c) then
      JoinFields(h, m, s);
      FieldValue(c.hours);
      FieldValue(c.minutes);
      FieldValue(c.seconds);
      r
    else
      r
  }

  /** The display for d elapsed milliseconds: reading it back gives the
      clock Split computes. */
  function Format(d: nat): (r: string)
    ensures Parse(r) == Some(Split(d))
  {
    Render(Split(d))
  }

  /** No time elapsed shows the start text. */
  lemma FormatZero()
    ensures Format(0) == START_TEXT
  {
    SplitUnique(0, Clock(0, 0, 0));
    RenderZero();
  }

  /** The clock 0:0:0, rendered. */
  lemma RenderZero()
    ensures Render(Clock(0, 0, 0)) == START_TEXT
  {
    FieldTwoDigits(0);
    assert DigitChar(0) == '0';
    var z := Field(0);
    assert z == "00";
    assert z + ":" + z + ":" + z == START_TEXT;
  }

  /** The hours, minutes and seconds parts of a display of length n >= 8. */
  function HoursText(s: string): string
    requires |s| >= 8
  {
    s[..|s| - 6]
  }

  function MinutesText(s: string): string
    requires |s| >= 8
  {
    s[|s| - 5..|s| - 3]
  }

  function SecondsText(s: string): string
    requires |s| >= 8
  {
    s[|s| - 2..]
  }

  /** An hours field of two or more digits, then two-digit minutes and
      seconds fields, colon-separated. */
  predicate WellFormed(s: string) {
    && |s| >= 8
    && s[|s| - 6] == ':' && s[|s| - 3] == ':'
    && AllDigits(HoursText(s)) && AllDigits(MinutesText(s)) && AllDigits(SecondsText(s))
  }

  /** Reads a display back into the numbers its fields denote. */
  function Parse(s: string): Option<Clock> {
    if WellFormed(s)
    then Some(Clock(DigitsValue(HoursText(s)), DigitsValue(MinutesText(s)), DigitsValue(SecondsText(s))))
    else None
  }

  /** Joining an hours field of two or more digits and two-digit minutes
      and seconds fields with colons gives a well-formed display whose parts
      are those fields. */
  lemma JoinFields(a: string, b: string, c: string)
    requires |a| >= 2 && |b| == 2 && |c| == 2
    requires AllDigits(a) && AllDigits(b) && AllDigits(c)
    ensures var r := a + ":" + b + ":" + c;
      && WellFormed(r) && HoursText(r) == a && MinutesText(r) == b && SecondsText(r) == c
  {
    var r := a + ":" + b + ":" + c;
    assert |r| == |a| + 6;
    assert HoursText(r) == a;
    assert MinutesText(r) == b;
    assert SecondsText(r) == c;
  }

  /** The display's fields denote exactly the clock Split computes. */
  lemma FormatShowsSplit(d: nat)
    ensures var r := Format(d); var c := Split(d);
      && WellFormed(r)
      && DigitsValue(HoursText(r)) == c.hours
      && DigitsValue(MinutesText(r)) == c.minutes
      && DigitsValue(SecondsText(r)) == c.seconds
  {
    assert Parse(Format(d)) == Some(Split(d));
  }

  /** The display shows the hours d / MS_IN_HR in full (never wrapped or
      truncated) and the minutes and seconds in two digits each, below 60,
      and the three fields reconstruct the whole elapsed seconds. */
  lemma FormatFields(d: nat)
    ensures var r := Format(d);
      && WellFormed(r) && |MinutesText(r)| == 2 && |SecondsText(r)| == 2
      && DigitsValue(HoursText(r)) == d / MS_IN_HR
      && DigitsValue(MinutesText(r)) < 60 && DigitsValue(SecondsText(r)) < 60
      && DigitsValue(HoursText(r)) * 3600 + DigitsValue(MinutesText(r)) * 60
         + DigitsValue(SecondsText(r)) == d / MS_IN_SEC
  {
    FormatShowsSplit(d);
    var c := Split(d);
    assert TotalSeconds(c) == d / MS_IN_SEC;
  }

  /** The display of a whole number of seconds given as hours, minutes
      and seconds shows exactly those fields. */
  lemma FormatOfClock(c: Clock)
    requires Normal(c)
    ensures Format(TotalSeconds(c) * MS_IN_SEC) == Render(c)
  {
    SplitUnique(TotalSeconds(c) * MS_IN_SEC, c);
  }

  /** Two elapsed times show the same text exactly when they cover the same
      number of whole seconds: the display drops only the milliseconds. */
  lemma FormatDistinguishesSeconds(d1: nat, d2: nat)
    ensures Format(d1) == Format(d2) <==> d1 / MS_IN_SEC == d2 / MS_IN_SEC
  {
    if d1 / MS_IN_SEC == d2 / MS_IN_SEC {
      SplitUnique(d2, Split(d1));
    }
  }
}
