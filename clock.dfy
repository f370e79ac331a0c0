/**
 * `get_current_time`'s formatting: `strftime("%I:%M %p")` applied to the
 * hour and minute of a wall-clock reading. `%I` is the hour on a 12-hour
 * clock as two digits 01-12, `%M` the minute as two digits 00-59 and `%p`
 * the "AM"/"PM" marker (section 7.23.3.5 of the ISO C99 standard, in the
 * C locale). Reading the clock itself is a parameter: the model starts
 * from the reading.
 */
module Clock {
  import opened Wrappers

  type Hour = h: int | 0 <= h < 24
  type Minute = m: int | 0 <= m < 60

  /** The part of `datetime.now()` that the format string reads. */
  datatype Reading = Reading(hour: Hour, minute: Minute)

  predicate IsDigit(c: char) {
    '0' <= c <= '9'
  }

  function DigitValue(c: char): (d: int)
    requires IsDigit(c)
    ensures 0 <= d < 10
  {
    c as int - '0' as int
  }

  function DigitChar(d: int): (c: char)
    requires 0 <= d < 10
    ensures IsDigit(c) && DigitValue(c) == d
  {
    ('0' as int + d) as char
  }

  /** The number written by the two digits at `s[i]` and `s[i + 1]`. */
  function FieldValue(s: string, i: nat): (n: int)
    requires i + 1 < |s| && IsDigit(s[i]) && IsDigit(s[i + 1])
    ensures 0 <= n < 100
  {
    10 * DigitValue(s[i]) + DigitValue(s[i + 1])
  }

  /** A number below 100 written with exactly two decimal digits, leading zero kept. */
  function TwoDigits(n: int): (s: string)
    requires 0 <= n < 100
    ensures |s| == 2 && IsDigit(s[0]) && IsDigit(s[1]) && FieldValue(s, 0) == n
  {
    [DigitChar(n / 10), DigitChar(n % 10)]
  }

  /** `%I`: the hour on the 12-hour clock, the one in 1..12 that agrees with `h` modulo 12. */
  function Hour12(h: Hour): (r: int)
    ensures 1 <= r <= 12 && r % 12 == h % 12
  {
    if h % 12 == 0 then 12 else h % 12
  }

  /** `%p`: "AM" before noon, "PM" from noon on. */
  function Meridiem(h: Hour): (p: string)
    ensures p == "AM" || p == "PM"
    ensures p == "AM" <==> h < 12
  {
    if h < 12 then "AM" else "PM"
  }

  /** The shape `HH:MM AM` / `HH:MM PM` with HH in 01..12 and MM in 00..59. */
  predicate IsTwelveHourTime(s: string) {
    && |s| == 8
    && IsDigit(s[0]) && IsDigit(s[1]) && s[2] == ':'
    && IsDigit(s[3]) && IsDigit(s[4]) && s[5] == ' '
    && (s[6..] == "AM" || s[6..] == "PM")
    && 1 <= FieldValue(s, 0) <= 12
    && FieldValue(s, 3) < 60
  }

  /** `now.strftime("%I:%M %p")`. */
  function FormatTime(now: Reading): (s: string)
    ensures IsTwelveHourTime(s)
    ensures FieldValue(s, 0) % 12 == now.hour % 12
    ensures FieldValue(s, 3) == now.minute
    ensures s[6..] == "AM" <==> now.hour < 12
  {
    var hh := TwoDigits(Hour12(now.hour));
    var mm := TwoDigits(now.minute);
    var s := hh + ":" + mm + " " + Meridiem(now.hour);
    assert s[0..2] == hh && s[3..5] == mm && s[6..] == Meridiem(now.hour);
    s
  }

  /**
   * Reading a 12-hour time back into 24-hour form: 12 AM is hour 0,
   * 12 PM is hour 12, any other PM hour gains 12.
   */
  function ParseTime(s: string): (r: Option<Reading>)
    ensures r.Some? <==> IsTwelveHourTime(s)
  {
    if IsTwelveHourTime(s) then
      var h := FieldValue(s, 0) % 12 + (if s[6..] == "PM" then 12 else 0);
      Some(Reading(h, FieldValue(s, 3)))
    else
      None
  }

  /** Formatting loses nothing: the 24-hour reading is recovered from the text. */
  lemma ParseFormat(now: Reading)
    ensures ParseTime(FormatTime(now)) == Some(now)
  {
  }

  /** Every well-shaped 12-hour text is the format of exactly one reading. */
  lemma FormatParse(s: string)
    requires IsTwelveHourTime(s)
    ensures FormatTime(ParseTime(s).value) == s
  {
    var now := ParseTime(s).value;
    PrintsBackTo(s, now, FormatTime(now));
  }

  /**
   * A 12-hour text whose numbers and marker agree with the reading parsed
   * from `s` is `s` itself.
   */
  lemma PrintsBackTo(s: string, now: Reading, t: string)
    requires IsTwelveHourTime(s) && IsTwelveHourTime(t)
    requires now.hour == FieldValue(s, 0) % 12 + (if s[6..] == "PM" then 12 else 0)
    requires now.minute == FieldValue(s, 3)
    requires FieldValue(t, 0) % 12 == now.hour % 12 && FieldValue(t, 3) == now.minute
    requires t[6..] == "AM" <==> now.hour < 12
    ensures t == s
  {
    assert FieldValue(t, 0) == FieldValue(s, 0);
    assert t[6..] == s[6..];
    SameFieldsSameText(s, t);
  }

  /** The text of the 12-hour shape is fixed by its two numbers and its marker. */
  lemma SameFieldsSameText(s: string, t: string)
    requires IsTwelveHourTime(s) && IsTwelveHourTime(t)
    requires FieldValue(s, 0) == FieldValue(t, 0) && FieldValue(s, 3) == FieldValue(t, 3)
    requires s[6..] == t[6..]
    ensures s == t
  {
    assert DigitValue(s[0]) == DigitValue(t[0]) && DigitValue(s[1]) == DigitValue(t[1]);
    assert DigitValue(s[3]) == DigitValue(t[3]) && DigitValue(s[4]) == DigitValue(t[4]);
    forall i | 0 <= i < 8
      ensures s[i] == t[i]
    {
      if 6 <= i {
        assert s[i] == s[6..][i - 6] && t[i] == t[6..][i - 6];
      }
    }
  }

  /** Midnight prints as "12:MM AM" and noon as "12:MM PM". */
  lemma MidnightAndNoon(m: Minute)
    ensures FormatTime(Reading(0, m))[..2] == "12" && FormatTime(Reading(0, m))[6..] == "AM"
    ensures FormatTime(Reading(12, m))[..2] == "12" && FormatTime(Reading(12, m))[6..] == "PM"
  {
  }
}
