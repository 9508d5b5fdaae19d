/** `add_duration` and `subtract_three_months` (zml/zml.py:181-202): parse a
    timestamp, drop its fraction of a second, force its zone to UTC, add a
    signed number of seconds, and render it with a literal `Z`. Only the
    ISO 8601 forms `YYYY-MM-DDTHH:MM:SS[.ffffff][Z|+HH:MM|-HH:MM]` are read. */
module Timestamps {
  import opened Wrappers
  import opened Decimal
  import opened CivilTime

  /** Why the Python code raises: the parser rejects the text (`ValueError`),
      or the result leaves the years 1..9999 (`OverflowError`). */
  datatype TimeError = Unparsable | OutOfRange

  /** A zone designator that the parser accepts; `replace(tzinfo=UTC)` then
      discards it, so none of them changes the result. */
  predicate IsZone(z: string)
  {
    z == "" || z == "Z" ||
    (|z| == 6 && (z[0] == '+' || z[0] == '-') && IsDigit(z[1]) && IsDigit(z[2]) &&
     z[3] == ':' && IsDigit(z[4]) && IsDigit(z[5]))
  }

  /** `s` without its leading run of digits. */
  function DropDigits(s: string): (r: string)
    ensures |r| <= |s| && r == s[|s| - |r|..]
    ensures r == [] || !IsDigit(r[0])
  {
    if s != [] && IsDigit(s[0]) then DropDigits(s[1..]) else s
  }

  /** What may follow the seconds: an optional fraction, then a zone. */
  predicate IsTail(x: string)
  {
    IsZone(x) ||
    (|x| >= 2 && x[0] == '.' && IsDigit(x[1]) && IsZone(DropDigits(x[1..])))
  }

  predicate HasLayout(s: string)
  {
    |s| >= 19 && s[4] == '-' && s[7] == '-' && s[10] == 'T' && s[13] == ':' && s[16] == ':' &&
    AllDigits(s[0..4]) && AllDigits(s[5..7]) && AllDigits(s[8..10]) &&
    AllDigits(s[11..13]) && AllDigits(s[14..16]) && AllDigits(s[17..19])
  }

  /** `dateutil.parser.parse` followed by `replace(microsecond=0)` and
      `replace(tzinfo=pytz.UTC)`: the fields as written, with the fraction
      and the zone dropped. */
  function Parse(s: string): (r: Option<DateTime>)
    ensures r.Some? ==> Representable(r.value)
  {
    if !HasLayout(s) || !IsTail(s[19..]) then None
    else
      var t := DateTime(ValueOf(s[0..4]), ValueOf(s[5..7]), ValueOf(s[8..10]),
                        ValueOf(s[11..13]), ValueOf(s[14..16]), ValueOf(s[17..19]));
      if Representable(t) then Some(t) else None
  }

  /** `isoformat()` of an aware UTC `datetime` with no microseconds, with
      `+00:00` replaced by `Z`. */
  function Render(t: DateTime): (s: string)
    requires Representable(t)
    ensures |s| == 20 && s[19] == 'Z'
  {
    Pad(t.year, 4) + "-" + Pad(t.month, 2) + "-" + Pad(t.day, 2) + "T" +
    Pad(t.hour, 2) + ":" + Pad(t.minute, 2) + ":" + Pad(t.second, 2) + "Z"
  }

  /** A parsed time has exactly the fields written in the text, read as
      decimal numbers; nothing after the seconds contributes. */
  lemma ParseFields(s: string)
    requires Parse(s).Some?
    ensures HasLayout(s) && IsTail(s[19..])
    ensures Parse(s).value == DateTime(ValueOf(s[0..4]), ValueOf(s[5..7]), ValueOf(s[8..10]),
                                       ValueOf(s[11..13]), ValueOf(s[14..16]), ValueOf(s[17..19]))
  {
  }

  /** The fraction of a second and the zone designator play no part: the
      time is read as written and taken to be UTC, whatever zone is named. */
  lemma ParseIgnoresTail(s: string)
    requires HasLayout(s) && IsTail(s[19..])
    ensures Parse(s) == Parse(s[..19] + "Z")
  {
    var z := s[..19] + "Z";
    assert z[19..] == "Z";
    assert z[0..4] == s[0..4] && z[5..7] == s[5..7] && z[8..10] == s[8..10];
    assert z[11..13] == s[11..13] && z[14..16] == s[14..16] && z[17..19] == s[17..19];
  }

  /** Rendering then parsing gives back the same date-time. */
  lemma ParseRender(t: DateTime)
    requires Representable(t)
    ensures Parse(Render(t)) == Some(t)
  {
    var s := Render(t);
    assert s[0..4] == Pad(t.year, 4);
    assert s[5..7] == Pad(t.month, 2);
    assert s[8..10] == Pad(t.day, 2);
    assert s[11..13] == Pad(t.hour, 2);
    assert s[14..16] == Pad(t.minute, 2);
    assert s[17..19] == Pad(t.second, 2);
    assert s[19..] == "Z";
    ValueOfPad(t.year, 4);
    ValueOfPad(t.month, 2);
    ValueOfPad(t.day, 2);
    ValueOfPad(t.hour, 2);
    ValueOfPad(t.minute, 2);
    ValueOfPad(t.second, 2);
  }

  /** The construction `add_duration` and `subtract_three_months` share:
      parse, add `n` seconds, render. */
  function Shift(s: string, n: int): (r: Result<string, TimeError>)
    ensures Parse(s).None? <==> r == Err(Unparsable)
    ensures r.Ok? ==> |r.value| == 20 && r.value[19] == 'Z'
    ensures r.Ok? ==> Parse(r.value).Some? &&
                      Seconds(Parse(r.value).value) == Seconds(Parse(s).value) + n
    ensures r == Err(OutOfRange) <==> Parse(s).Some? && !Representable(AddSeconds(Parse(s).value, n))
  {
    match Parse(s)
    case None => Err(Unparsable)
    case Some(t) =>
      var u := AddSeconds(t, n);
      if MinYear <= u.year <= MaxYear then
        ParseRender(u);
        Ok(Render(u))
      else Err(OutOfRange)
  }

  /** `add_duration(start_time, duration)`: the end time `duration` minutes
      after `start_time`, seconds kept, rendered with `Z`. */
  function AddDuration(startTime: string, duration: int): (r: Result<string, TimeError>)
    ensures Parse(startTime).None? <==> r == Err(Unparsable)
    ensures r.Ok? ==> |r.value| == 20 && r.value[19] == 'Z'
    ensures r.Ok? ==> Parse(r.value).Some? &&
                      Seconds(Parse(r.value).value) == Seconds(Parse(startTime).value) + 60 * duration
    ensures r.Ok? ==> Parse(r.value).value.second == Parse(startTime).value.second
    ensures r == Err(OutOfRange) <==>
            Parse(startTime).Some? && !Representable(AddSeconds(Parse(startTime).value, 60 * duration))
  {
    ShiftByMinutes(startTime, duration);
    Shift(startTime, 60 * duration)
  }

  lemma ShiftByMinutes(s: string, minutes: int)
    ensures var r := Shift(s, 60 * minutes);
            r.Ok? ==> Parse(r.value).value.second == Parse(s).value.second
  {
    var r := Shift(s, 60 * minutes);
    if r.Ok? {
      var t := Parse(s).value;
      SecondsInjective(Parse(r.value).value, AddSeconds(t, 60 * minutes));
      AddMinutesKeepsSecond(t, minutes);
    }
  }

  /** `subtract_three_months(start_time)`: the instant 90 days before,
      rendered with `Z`. */
  function SubtractThreeMonths(startTime: string): (r: Result<string, TimeError>)
    ensures Parse(startTime).None? <==> r == Err(Unparsable)
    ensures r.Ok? ==> |r.value| == 20 && r.value[19] == 'Z'
    ensures r.Ok? ==> Parse(r.value).Some? &&
                      DayNumber(Parse(r.value).value) == DayNumber(Parse(startTime).value) - 90 &&
                      SecondOfDay(Parse(r.value).value) == SecondOfDay(Parse(startTime).value)
    ensures r == Err(OutOfRange) <==>
            Parse(startTime).Some? && !Representable(AddSeconds(Parse(startTime).value, -90 * SecondsPerDay))
  {
    ShiftByDays(startTime, -90);
    Shift(startTime, -90 * SecondsPerDay)
  }

  lemma ShiftByDays(s: string, k: int)
    ensures var r := Shift(s, k * SecondsPerDay);
            r.Ok? ==> DayNumber(Parse(r.value).value) == DayNumber(Parse(s).value) + k &&
                      SecondOfDay(Parse(r.value).value) == SecondOfDay(Parse(s).value)
  {
    var r := Shift(s, k * SecondsPerDay);
    if r.Ok? {
      var t := Parse(s).value;
      SecondsInjective(Parse(r.value).value, AddSeconds(t, k * SecondsPerDay));
      AddDaysIsWholeDays(t, k);
    }
  }

  /** Shifting by whole days moves the day number and keeps the time of day. */
  lemma AddDaysIsWholeDays(t: DateTime, k: int)
    requires Valid(t)
    ensures DayNumber(AddSeconds(t, k * SecondsPerDay)) == DayNumber(t) + k
    ensures SecondOfDay(AddSeconds(t, k * SecondsPerDay)) == SecondOfDay(t)
  {
    var u := AddSeconds(t, k * SecondsPerDay);
    var v := AddDays(t, k);
    SecondsInjective(u, v);
  }

  /** The end time of a 90-minute meeting starting at midnight on
      2024-01-01 is half past one. */
  lemma AddDurationExample()
    ensures AddDuration("2024-01-01T00:00:00Z", 90) == Ok("2024-01-01T01:30:00Z")
  {
    var t := DateTime(2024, 1, 1, 0, 0, 0);
    ExampleRenderings();
    ParseRender(t);
    NinetyMinutesAfterMidnight(t);
  }

  /** A 10-minute meeting starting at 23:59 on 9999-12-31 would end in
      the year 10000, which `datetime` cannot hold: `OverflowError`. */
  lemma AddDurationOverflows()
    ensures Parse("9999-12-31T23:59:00Z") == Some(DateTime(9999, 12, 31, 23, 59, 0))
    ensures AddDuration("9999-12-31T23:59:00Z", 10) == Err(OutOfRange)
  {
    var t := DateTime(9999, 12, 31, 23, 59, 0);
    RenderLastMinute();
    ParseRender(t);
    LastMinutePlusTen();
  }

  lemma RenderLastMinute()
    ensures Render(DateTime(9999, 12, 31, 23, 59, 0)) == "9999-12-31T23:59:00Z"
  {
    PadLastYear();
    PadLastMinute();
    PadTwoDigits();
  }

  lemma PadLastYear()
    ensures Pad(9999, 4) == "9999"
  {
  }

  lemma PadLastMinute()
    ensures Pad(12, 2) == "12" && Pad(31, 2) == "31" && Pad(23, 2) == "23" && Pad(59, 2) == "59"
  {
  }

  lemma LastMinutePlusTen()
    ensures AddSeconds(DateTime(9999, 12, 31, 23, 59, 0), 60 * 10).year == 10000
  {
    var t := DateTime(9999, 12, 31, 23, 59, 0);
    assert AddDays(t, 1) == AddDays(NextMonthStart(t), 0);
  }

  lemma ExampleRenderings()
    ensures Render(DateTime(2024, 1, 1, 0, 0, 0)) == "2024-01-01T00:00:00Z"
    ensures Render(DateTime(2024, 1, 1, 1, 30, 0)) == "2024-01-01T01:30:00Z"
  {
    RenderMidnight();
    RenderHalfPastOne();
  }

  lemma RenderMidnight()
    ensures Render(DateTime(2024, 1, 1, 0, 0, 0)) == "2024-01-01T00:00:00Z"
  {
    PadYear();
    PadTwoDigits();
  }

  lemma RenderHalfPastOne()
    ensures Render(DateTime(2024, 1, 1, 1, 30, 0)) == "2024-01-01T01:30:00Z"
  {
    PadYear();
    PadTwoDigits();
  }

  lemma PadYear()
    ensures Pad(2024, 4) == "2024"
  {
  }

  lemma PadTwoDigits()
    ensures Pad(0, 2) == "00" && Pad(1, 2) == "01" && Pad(30, 2) == "30"
  {
  }

  lemma NinetyMinutesAfterMidnight(t: DateTime)
    requires Valid(t) && t.hour == 0 && t.minute == 0 && t.second == 0
    ensures AddSeconds(t, 60 * 90) == t.(hour := 1, minute := 30)
  {
    AddSecondsWithinDay(t, 60 * 90);
  }
}
