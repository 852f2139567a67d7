/** The wall-clock value the server reads with `datetime.now()`, and the two
    `strftime` layouts it uses: "%m/%d/%Y" for the upload date of an index row
    and "%m/%d/%Y %H:%M:%S" for the timestamp that opens every log line. */
module Clock {
  import opened Text

  type Year = y: int | 1000 <= y <= 9999 witness 1000
  type Month = m: int | 1 <= m <= 12 witness 1
  type Day = d: int | 1 <= d <= 31 witness 1
  type Hour = h: int | 0 <= h < 24
  type Minute = m: int | 0 <= m < 60
  type Second = s: int | 0 <= s < 60

  datatype DateTime = DateTime(year: Year, month: Month, day: Day, hour: Hour, minute: Minute, second: Second)

  /** Two decimal digits with a leading zero, as `%m`, `%d`, `%H`, `%M`, `%S` print. */
  function Pad2(n: int): string
    requires 0 <= n < 100
  {
    [DigitChar(n / 10), DigitChar(n % 10)]
  }

  /** Four decimal digits, as `%Y` prints a four-digit year. */
  function Pad4(n: int): string
    requires 0 <= n < 10000
  {
    Pad2(n / 100) + Pad2(n % 100)
  }

  /** `strftime("%m/%d/%Y")`. */
  function FormatDate(t: DateTime): string {
    Pad2(t.month) + "/" + Pad2(t.day) + "/" + Pad4(t.year)
  }

  /** `strftime("%m/%d/%Y %H:%M:%S")`: the date, a space, then the time of day. */
  function Strftime(t: DateTime): (s: string)
    ensures |s| == 19
    ensures s[..10] == FormatDate(t)
  {
    FormatDate(t) + " " + Pad2(t.hour) + ":" + Pad2(t.minute) + ":" + Pad2(t.second)
  }

  /** Two decimal digits stand at offsets `at` and `at + 1` of `s`. */
  predicate TwoDigitsAt(s: string, at: int) {
    0 <= at && at + 1 < |s| && IsDigit(s[at]) && IsDigit(s[at + 1])
  }

  function Value2(s: string, at: int): int
    requires TwoDigitsAt(s, at)
  {
    DigitValue(s[at]) * 10 + DigitValue(s[at + 1])
  }

  /** Reads back a "%m/%d/%Y %H:%M:%S" timestamp; None for any other text. */
  function ParseTimestamp(s: string): Option<DateTime> {
    if |s| == 19 && s[2] == '/' && s[5] == '/' && s[10] == ' ' && s[13] == ':' && s[16] == ':'
       && TwoDigitsAt(s, 0) && TwoDigitsAt(s, 3) && TwoDigitsAt(s, 6) && TwoDigitsAt(s, 8)
       && TwoDigitsAt(s, 11) && TwoDigitsAt(s, 14) && TwoDigitsAt(s, 17)
    then
      var month, day := Value2(s, 0), Value2(s, 3);
      var year := Value2(s, 6) * 100 + Value2(s, 8);
      var hour, minute, second := Value2(s, 11), Value2(s, 14), Value2(s, 17);
      if 1 <= month <= 12 && 1 <= day <= 31 && 1000 <= year && hour < 24 && minute < 60 && second < 60
      then Some(DateTime(year, month, day, hour, minute, second))
      else None
    else None
  }

  lemma Pad2Value(s: string, at: int, n: int)
    requires 0 <= n < 100
    requires 0 <= at && at + 1 < |s| && s[at..at + 2] == Pad2(n)
    ensures TwoDigitsAt(s, at) && Value2(s, at) == n
  {
    assert s[at] == Pad2(n)[0] && s[at + 1] == Pad2(n)[1];
  }

  /** Parsing a formatted timestamp gives back the clock value. */
  lemma TimestampRoundTrip(t: DateTime)
    ensures ParseTimestamp(Strftime(t)) == Some(t)
  {
    var s := Strftime(t);
    Pad2Value(s, 0, t.month);
    Pad2Value(s, 3, t.day);
    Pad2Value(s, 6, t.year / 100);
    Pad2Value(s, 8, t.year % 100);
    Pad2Value(s, 11, t.hour);
    Pad2Value(s, 14, t.minute);
    Pad2Value(s, 17, t.second);
  }

  lemma Value2Pad(s: string, at: int)
    requires TwoDigitsAt(s, at)
    ensures 0 <= Value2(s, at) < 100 && Pad2(Value2(s, at)) == s[at..at + 2]
  {
    var v := Value2(s, at);
    assert v / 10 == DigitValue(s[at]) && v % 10 == DigitValue(s[at + 1]);
  }

  /** The only texts that parse are formatted timestamps. */
  lemma ParsedTimestampIsFormatted(s: string, t: DateTime)
    requires ParseTimestamp(s) == Some(t)
    ensures Strftime(t) == s
  {
    Value2Pad(s, 0);
    Value2Pad(s, 3);
    Value2Pad(s, 6);
    Value2Pad(s, 8);
    Value2Pad(s, 11);
    Value2Pad(s, 14);
    Value2Pad(s, 17);
    assert t.year / 100 == Value2(s, 6) && t.year % 100 == Value2(s, 8);
    var f := Strftime(t);
    assert f[0..2] == s[0..2] && f[3..5] == s[3..5] && f[6..8] == s[6..8] && f[8..10] == s[8..10];
    assert f[11..13] == s[11..13] && f[14..16] == s[14..16] && f[17..19] == s[17..19];
    assert forall k :: 0 <= k < 19 ==> f[k] == s[k] by {
      forall k | 0 <= k < 19 ensures f[k] == s[k] {
        if k in {0, 1} { assert f[k] == f[0..2][k]; assert s[k] == s[0..2][k]; }
        else if k in {3, 4} { assert f[k] == f[3..5][k - 3]; assert s[k] == s[3..5][k - 3]; }
        else if k in {6, 7} { assert f[k] == f[6..8][k - 6]; assert s[k] == s[6..8][k - 6]; }
        else if k in {8, 9} { assert f[k] == f[8..10][k - 8]; assert s[k] == s[8..10][k - 8]; }
        else if k in {11, 12} { assert f[k] == f[11..13][k - 11]; assert s[k] == s[11..13][k - 11]; }
        else if k in {14, 15} { assert f[k] == f[14..16][k - 14]; assert s[k] == s[14..16][k - 14]; }
        else if k in {17, 18} { assert f[k] == f[17..19][k - 17]; assert s[k] == s[17..19][k - 17]; }
      }
    }
  }
}
