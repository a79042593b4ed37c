/** The booking key `bookAppointment` builds from the chosen day:
    day, month and full year joined by '_' with no padding, e.g. "5_3_2026",
    and the parser that reads such a key back. */
module DateKey {
  import opened Wrappers
  import opened Decimal
  import opened CivilDate

  /** Fields of `s` between occurrences of `sep`; always at least one. */
  function Split(s: string, sep: char): (parts: seq<string>)
    ensures |parts| >= 1
    ensures forall i :: 0 <= i < |parts| ==> sep !in parts[i]
    decreases |s|
  {
    if |s| == 0 then [""]
    else
      var rest := Split(s[1..], sep);
      if s[0] == sep then [""] + rest
      else [[s[0]] + rest[0]] + rest[1..]
  }

  /** The fields put back together with `sep` between them. */
  function Join(parts: seq<string>, sep: char): string
    requires |parts| >= 1
    decreases |parts|
  {
    if |parts| == 1 then parts[0] else parts[0] + [sep] + Join(parts[1..], sep)
  }

  /** Joining the fields of a string gives the string back. */
  lemma {:induction false} JoinSplit(s: string, sep: char)
    ensures Join(Split(s, sep), sep) == s
    decreases |s|
  {
    if |s| > 0 {
      var rest := Split(s[1..], sep);
      JoinSplit(s[1..], sep);
      if s[0] == sep {
        assert Split(s, sep)[1..] == rest;
      } else if |rest| > 1 {
        assert Split(s, sep)[1..] == rest[1..];
      }
    }
  }

  /** A field free of `sep` in front of more text extends the first field. */
  lemma {:induction false} SplitPrefix(a: string, b: string, sep: char)
    requires sep !in a
    ensures Split(a + b, sep) == [a + Split(b, sep)[0]] + Split(b, sep)[1..]
    decreases |a|
  {
    if |a| > 0 {
      assert (a + b)[1..] == a[1..] + b;
      SplitPrefix(a[1..], b, sep);
      assert [a[0]] + (a[1..] + Split(b, sep)[0]) == a + Split(b, sep)[0];
    } else {
      var parts := Split(b, sep);
      assert a + b == b && a + parts[0] == parts[0];
      assert parts == [parts[0]] + parts[1..];
    }
  }

  /** Splitting undoes joining fields that do not contain the separator. */
  lemma {:induction false} SplitJoin(parts: seq<string>, sep: char)
    requires |parts| >= 1
    requires forall i :: 0 <= i < |parts| ==> sep !in parts[i]
    ensures Split(Join(parts, sep), sep) == parts
    decreases |parts|
  {
    if |parts| == 1 {
      SplitPrefix(parts[0], "", sep);
      assert parts[0] + "" == parts[0];
    } else {
      var tail := Join(parts[1..], sep);
      SplitJoin(parts[1..], sep);
      assert parts[0] + [sep] + tail == parts[0] + ([sep] + tail);
      SplitPrefix(parts[0], [sep] + tail, sep);
      assert ([sep] + tail)[1..] == tail;
      assert Split([sep] + tail, sep) == [""] + parts[1..];
      assert parts[0] + "" == parts[0];
      assert parts == [parts[0]] + parts[1..];
    }
  }

  /** `${day}_${month}_${year}` of a date: day of the month and 1-based
      month without padding, then the full year. */
  function Key(d: Date): (key: string)
    requires Valid(d)
    ensures |key| > 0 && key[0] != '0'
    ensures forall i :: 0 <= i < |key| ==> IsDigit(key[i]) || key[i] == '_' || key[i] == '-'
  {
    NatToString(d.day) + "_" + NatToString(d.month) + "_" + IntToString(d.year)
  }

  /** Reads a key back: exactly three '_'-separated fields, day and month
      unsigned, the year possibly negative, forming a valid date. */
  function ParseKey(s: string): Option<Date>
  {
    var fields := Split(s, '_');
    if |fields| != 3 then None
    else
      match (ParseNat(fields[0]), ParseNat(fields[1]), ParseInt(fields[2]))
      case (Some(day), Some(month), Some(year)) =>
        if Valid(Date(year, month, day)) then Some(Date(year, month, day)) else None
      case _ => None
  }

  /** The three fields of a key are the renderings of day, month and year. */
  lemma KeyFields(d: Date)
    requires Valid(d)
    ensures Split(Key(d), '_') == [NatToString(d.day), NatToString(d.month), IntToString(d.year)]
  {
    var parts := [NatToString(d.day), NatToString(d.month), IntToString(d.year)];
    assert Join(parts[2..], '_') == parts[2];
    assert Join(parts, '_') == Key(d);
    SplitJoin(parts, '_');
  }

  /** Parsing a key gives back the date it was made from. */
  lemma KeyRoundTrip(d: Date)
    requires Valid(d)
    ensures ParseKey(Key(d)) == Some(d)
  {
    KeyFields(d);
  }

  /** Distinct days get distinct keys. */
  lemma KeyInjective(d: Date, e: Date)
    requires Valid(d) && Valid(e) && Key(d) == Key(e)
    ensures d == e
  {
    KeyRoundTrip(d);
    KeyRoundTrip(e);
  }

  /** 5 March 2026 is stored as "5_3_2026"; 10 December 2026 as "10_12_2026". */
  lemma ExampleKeys()
    ensures Key(Date(2026, 3, 5)) == "5_3_2026"
    ensures Key(Date(2026, 12, 10)) == "10_12_2026"
  {
    ExampleRenderings();
  }
}
