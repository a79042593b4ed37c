/** The 12-hour label a browser in the en-US locale produces for
    `toLocaleTimeString([], { hour: '2-digit', minute: '2-digit' })`,
    e.g. "03:30 PM", as a total function of the minute of the day, together
    with the parser that inverts it. */
module TimeLabel {
  import opened Wrappers
  import opened Decimal

  /** A minute of the day, 00:00 through 23:59. */
  type MinuteOfDay = t: nat | t < 1440

  /** Two digits, zero padded. */
  function TwoDigits(n: nat): (s: string)
    requires n < 100
    ensures |s| == 2 && AllDigits(s)
    ensures 10 * DigitValue(s[0]) + DigitValue(s[1]) == n
  {
    [Digit(n / 10), Digit(n % 10)]
  }

  /** The hour on a 12-hour clock face: midnight and noon read 12. */
  function ClockHour(hour: nat): (h: nat)
    requires hour < 24
    ensures 1 <= h <= 12
    ensures h % 12 == hour % 12
  {
    if hour % 12 == 0 then 12 else hour % 12
  }

  function Meridiem(hour: nat): string {
    if hour < 12 then "AM" else "PM"
  }

  /** Label of minute `t` of the day: "hh:mm AM" or "hh:mm PM". */
  function Label(t: MinuteOfDay): (text: string)
    ensures |text| == 8
  {
    var hour := t / 60;
    TwoDigits(ClockHour(hour)) + ":" + TwoDigits(t % 60) + " " + Meridiem(hour)
  }

  /** Parsing a label gives back the minute it was made from. */
  lemma LabelRoundTrip(t: MinuteOfDay)
    ensures ParseLabel(Label(t)) == Some(t)
  {
    var hour := t / 60;
    var text := Label(t);
    assert text[..2] == TwoDigits(ClockHour(hour));
    assert text[3..5] == TwoDigits(t % 60);
  }

  /** Reads a label back as a minute of the day; `None` for any string that
      is not exactly of the form "hh:mm AM" / "hh:mm PM" with 01 <= hh <= 12
      and mm <= 59. */
  function ParseLabel(s: string): Option<MinuteOfDay>
  {
    if |s| != 8 || s[2] != ':' || s[5] != ' ' || s[7] != 'M' || (s[6] != 'A' && s[6] != 'P')
       || !IsDigit(s[0]) || !IsDigit(s[1]) || !IsDigit(s[3]) || !IsDigit(s[4])
    then None
    else
      var clock := 10 * DigitValue(s[0]) + DigitValue(s[1]);
      var minute := 10 * DigitValue(s[3]) + DigitValue(s[4]);
      if clock < 1 || 12 < clock || 60 <= minute then None
      else
        var hour := clock % 12 + (if s[6] == 'P' then 12 else 0);
        Some(hour * 60 + minute)
  }

  /** Every string the parser accepts is the label of the minute it returns,
      so labels and minutes of the day are in one-to-one correspondence. */
  lemma ParseLabelSound(s: string, t: MinuteOfDay)
    requires ParseLabel(s) == Some(t)
    ensures Label(t) == s
  {
    var clock := 10 * DigitValue(s[0]) + DigitValue(s[1]);
    var minute := 10 * DigitValue(s[3]) + DigitValue(s[4]);
    ClockReading(clock, minute, s[6] == 'P', t);
    TwoDigitsOfDigits(s[0], s[1]);
    TwoDigitsOfDigits(s[3], s[4]);
    assert Meridiem(t / 60) == s[6..];
    assert s == s[..2] + ":" + s[3..5] + " " + s[6..];
  }

  /** The hour and minute fields of a 12-hour reading determine the minute
      of the day, and that minute reads back as the same fields. */
  lemma ClockReading(clock: nat, minute: nat, pm: bool, t: nat)
    requires 1 <= clock <= 12 && minute < 60
    requires t == (clock % 12 + (if pm then 12 else 0)) * 60 + minute
    ensures t / 60 == clock % 12 + (if pm then 12 else 0) && t % 60 == minute
    ensures ClockHour(t / 60) == clock
    ensures Meridiem(t / 60) == if pm then "PM" else "AM"
  {
  }

  /** Two digit characters are the zero-padded rendering of their value. */
  lemma TwoDigitsOfDigits(a: char, b: char)
    requires IsDigit(a) && IsDigit(b)
    ensures TwoDigits(10 * DigitValue(a) + DigitValue(b)) == [a, b]
  {
    DigitOfValue(a);
    DigitOfValue(b);
  }

  lemma LabelInjective(t: MinuteOfDay, u: MinuteOfDay)
    requires Label(t) == Label(u)
    ensures t == u
  {
    LabelRoundTrip(t);
    LabelRoundTrip(u);
  }

  /** Morning, evening and midnight readings; noon and the afternoon
      readings 03:30 PM and 05:00 PM are fixed where the blocked list is. */
  lemma ExampleLabels()
    ensures Label(600) == "10:00 AM"
    ensures Label(1230) == "08:30 PM"
    ensures Label(0) == "12:00 AM"
  {
    ParseLabelSound("10:00 AM", 600);
    ParseLabelSound("08:30 PM", 1230);
    ParseLabelSound("12:00 AM", 0);
  }
}
