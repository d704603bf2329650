/** Due-date text: how the front end renders a picked calendar date, and
    the date-time syntax of section 5.6 of RFC 3339 that the back end's
    parser (Go's `time.RFC3339` layout) accepts. */
module DateText {
  import opened Models

  type Year = n: int | 0 <= n <= 9999
  type Month = n: int | 1 <= n <= 12 witness 1
  type Day = n: int | 1 <= n <= 31 witness 1
  type Hour = n: int | 0 <= n <= 23
  type Sixty = n: int | 0 <= n <= 59
  /** A UTC offset in minutes, east of Greenwich positive. */
  type Offset = n: int | -1439 <= n <= 1439

  /** A date and wall-clock time as the date picker yields it, with the
      local offset from UTC. */
  datatype CalendarDate = CalendarDate(
    year: Year, month: Month, day: Day,
    hour: Hour, minute: Sixty, second: Sixty,
    offset: Offset)

  predicate IsDigit(c: char) {
    '0' <= c <= '9'
  }

  predicate AllDigits(s: string) {
    forall i :: 0 <= i < |s| ==> IsDigit(s[i])
  }

  /** The number a string of decimal digits denotes. */
  function DigitsValue(s: string): nat
    requires AllDigits(s)
  {
    if s == [] then 0
    else DigitsValue(s[..|s| - 1]) * 10 + (s[|s| - 1] as int - '0' as int)
  }

  lemma {:induction false} DigitsValueAppend(a: string, b: string)
    requires AllDigits(a) && AllDigits(b)
    ensures AllDigits(a + b)
    ensures DigitsValue(a + b) == DigitsValue(a) * Power10(|b|) + DigitsValue(b)
  {
    if b == [] {
      assert a + b == a;
    } else {
      var front := b[..|b| - 1];
      assert AllDigits(front);
      var ab := a + b;
      assert AllDigits(ab);
      assert ab[..|ab| - 1] == a + front;
      DigitsValueAppend(a, front);
      var x, p, y := DigitsValue(a), Power10(|front|), DigitsValue(front);
      var last := b[|b| - 1] as int - '0' as int;
      assert DigitsValue(ab) == DigitsValue(a + front) * 10 + last;
      assert DigitsValue(b) == y * 10 + last;
      assert Power10(|b|) == 10 * p;
      Distribute(x, p, y);
    }
  }

  lemma Distribute(x: int, p: int, y: int)
    ensures (x * p + y) * 10 == x * (10 * p) + y * 10
  {
  }

  function Power10(n: nat): nat {
    if n == 0 then 1 else 10 * Power10(n - 1)
  }

  function Digit(d: int): char
    requires 0 <= d <= 9
  {
    ('0' as int + d) as char
  }

  /** Two digits, zero-padded (date-fns `MM`, `dd`, `HH`, `mm`, `ss`). */
  function Pad2(n: int): (r: string)
    requires 0 <= n <= 99
    ensures |r| == 2 && AllDigits(r)
    ensures DigitsValue(r) == n
  {
    var r := [Digit(n / 10), Digit(n % 10)];
    assert r[..1] == [Digit(n / 10)];
    assert r[..1][..0] == [];
    assert DigitsValue(r[..1]) == n / 10;
    r
  }

  /** Four digits, zero-padded (date-fns `yyyy` for years below 10000). */
  function Pad4(n: int): (r: string)
    requires 0 <= n <= 9999
    ensures |r| == 4 && AllDigits(r)
    ensures DigitsValue(r) == n
  {
    DigitsValueAppend(Pad2(n / 100), Pad2(n % 100));
    Pad2(n / 100) + Pad2(n % 100)
  }

  /** `yyyy-MM-dd` */
  function DatePart(d: CalendarDate): string {
    Pad4(d.year) + "-" + Pad2(d.month) + "-" + Pad2(d.day)
  }

  /** `HH:mm:ss` */
  function ClockPart(d: CalendarDate): string {
    Pad2(d.hour) + ":" + Pad2(d.minute) + ":" + Pad2(d.second)
  }

  /** date-fns `XXX`: `Z` for UTC, otherwise a sign and `HH:mm`. */
  function OffsetPart(m: Offset): string {
    if m == 0 then "Z"
    else
      var a := if m < 0 then -m else m;
      [if m < 0 then '-' else '+'] + Pad2(a / 60) + ":" + Pad2(a % 60)
  }

  /** The due-date text the add-task handler sends, as written:
      `format(selectedDate, 'yyyy-MM-dd HH:mm:ss')`. */
  function FormatPickerDate(d: CalendarDate): string {
    DatePart(d) + " " + ClockPart(d)
  }

  /** The due-date text in the layout the back end parses:
      `format(selectedDate, "yyyy-MM-dd'T'HH:mm:ssXXX")`. */
  function FormatRfc3339(d: CalendarDate): string {
    DatePart(d) + "T" + ClockPart(d) + OffsetPart(d.offset)
  }

  // The date-time production of section 5.6 of RFC 3339. Letters "T" and
  // "Z" may be lower case (the note in that section); field ranges are
  // restrictions on top of the syntax and are not part of it.

  /** full-date = date-fullyear "-" date-month "-" date-mday */
  predicate IsFullDate(s: string) {
    && |s| == 10
    && AllDigits(s[0..4]) && s[4] == '-'
    && AllDigits(s[5..7]) && s[7] == '-'
    && AllDigits(s[8..10])
  }

  /** partial-time = time-hour ":" time-minute ":" time-second [time-secfrac] */
  predicate IsPartialTime(s: string) {
    && |s| >= 8
    && AllDigits(s[0..2]) && s[2] == ':'
    && AllDigits(s[3..5]) && s[5] == ':'
    && AllDigits(s[6..8])
    && (|s| == 8 || (|s| >= 10 && s[8] == '.' && AllDigits(s[9..])))
  }

  /** time-offset = "Z" / ("+" / "-") time-hour ":" time-minute */
  predicate IsTimeOffset(s: string) {
    || s == "Z" || s == "z"
    || (&& |s| == 6
        && (s[0] == '+' || s[0] == '-')
        && AllDigits(s[1..3]) && s[3] == ':' && AllDigits(s[4..6]))
  }

  /** full-time = partial-time time-offset; the offset is the last one or the
      last six characters, so these are the only two ways to split. */
  predicate IsFullTime(s: string) {
    || (|s| >= 1 && IsTimeOffset(s[|s| - 1..]) && IsPartialTime(s[..|s| - 1]))
    || (|s| >= 6 && IsTimeOffset(s[|s| - 6..]) && IsPartialTime(s[..|s| - 6]))
  }

  /** date-time = full-date "T" full-time */
  predicate IsRfc3339DateTime(s: string) {
    && |s| >= 11
    && IsFullDate(s[..10])
    && (s[10] == 'T' || s[10] == 't')
    && IsFullTime(s[11..])
  }

  /** Whether `year` is a leap year of the Gregorian calendar. */
  predicate IsLeapYear(year: int) {
    year % 4 == 0 && (year % 100 != 0 || year % 400 == 0)
  }

  /** The number of days in a month of a year. */
  function DaysIn(month: Month, year: Year): (n: int)
    ensures 28 <= n <= 31
    ensures month == 2 ==> (n == 29 <==> IsLeapYear(year))
  {
    if month == 2 then (if IsLeapYear(year) then 29 else 28)
    else if month == 4 || month == 6 || month == 9 || month == 11 then 30
    else 31
  }

  /** A date the calendar has: its day exists in its month. */
  predicate IsRealDate(d: CalendarDate) {
    d.day <= DaysIn(d.month, d.year)
  }

  /** What Go's `time.RFC3339` layout demands of any text it accepts: the
      year, month and day fields take exactly ten characters, and a literal
      `T` follows them. (The layout is more lenient elsewhere: it takes a
      one-digit hour and a comma before fractional seconds, so not every
      accepted text is an RFC 3339 date-time.) */
  ghost predicate DemandsDateThenT(parse: string -> Option<Time>) {
    forall s :: parse(s).Some? ==> |s| > 10 && s[10] == 'T'
  }

  /** That the layout accepts the corrected text of every real date: four
      year digits, two-digit month and day within the month, two-digit
      clock fields and a `Z` or `+hh:mm` offset. */
  ghost predicate AcceptsRfc3339Text(parse: string -> Option<Time>) {
    forall d :: IsRealDate(d) ==> parse(FormatRfc3339(d)).Some?
  }

  /** The picker's text separates date and time with a space and carries no
      offset, so it is never an RFC 3339 date-time. */
  lemma PickerDateIsNotRfc3339(d: CalendarDate)
    ensures !IsRfc3339DateTime(FormatPickerDate(d))
    ensures |FormatPickerDate(d)| == 19 && FormatPickerDate(d)[10] == ' '
  {
    var s := FormatPickerDate(d);
    assert s[10] == ' ';
  }

  lemma DatePartIsFullDate(d: CalendarDate)
    ensures IsFullDate(DatePart(d))
  {
    var date := DatePart(d);
    assert date[0..4] == Pad4(d.year);
    assert date[5..7] == Pad2(d.month) && date[8..10] == Pad2(d.day);
  }

  lemma ClockPartIsPartialTime(d: CalendarDate)
    ensures |ClockPart(d)| == 8 && IsPartialTime(ClockPart(d))
  {
    var clock := ClockPart(d);
    assert clock[0..2] == Pad2(d.hour) && clock[3..5] == Pad2(d.minute) && clock[6..8] == Pad2(d.second);
  }

  lemma OffsetPartIsTimeOffset(m: Offset)
    ensures IsTimeOffset(OffsetPart(m))
    ensures |OffsetPart(m)| == if m == 0 then 1 else 6
  {
    if m != 0 {
      var off := OffsetPart(m);
      var a := if m < 0 then -m else m;
      assert off[1..3] == Pad2(a / 60) && off[4..6] == Pad2(a % 60);
    }
  }

  /** A partial-time followed by a one- or six-character time-offset is a
      full-time. */
  lemma FullTimeOfParts(clock: string, off: string)
    requires |clock| == 8 && IsPartialTime(clock)
    requires IsTimeOffset(off) && (|off| == 1 || |off| == 6)
    ensures IsFullTime(clock + off)
  {
    var rest := clock + off;
    if |off| == 1 {
      assert rest[|rest| - 1..] == off && rest[..|rest| - 1] == clock;
    } else {
      assert rest[|rest| - 6..] == off && rest[..|rest| - 6] == clock;
    }
  }

  /** A full-date, a `T` and a full-time make a date-time. */
  lemma DateTimeOfParts(date: string, rest: string)
    requires IsFullDate(date) && IsFullTime(rest)
    ensures IsRfc3339DateTime(date + "T" + rest)
  {
    var s := date + "T" + rest;
    assert s[..10] == date && s[11..] == rest;
  }

  /** The corrected text is always an RFC 3339 date-time. */
  lemma Rfc3339IsWellFormed(d: CalendarDate)
    ensures IsRfc3339DateTime(FormatRfc3339(d))
  {
    var date, clock, off := DatePart(d), ClockPart(d), OffsetPart(d.offset);
    assert FormatRfc3339(d) == date + "T" + (clock + off);
    DatePartIsFullDate(d);
    ClockPartIsPartialTime(d);
    OffsetPartIsTimeOffset(d.offset);
    FullTimeOfParts(clock, off);
    DateTimeOfParts(date, clock + off);
  }

  /** The two digits at `s[i..i+2]`, as a number. */
  function TwoDigits(s: string, i: nat): (r: Option<int>)
    ensures r.Some? ==> 0 <= r.value <= 99
  {
    if i + 2 <= |s| && AllDigits(s[i..i + 2]) then
      var v := DigitsValue(s[i..i + 2]);
      assert v == DigitsValue(s[i..i + 1]) * 10 + (s[i + 1] as int - '0' as int) by {
        assert s[i..i + 2][..1] == s[i..i + 1];
      }
      assert s[i..i + 1][..0] == [];
      assert IsDigit(s[i]) && IsDigit(s[i + 1]);
      assert 0 <= DigitsValue(s[i..i + 1]) <= 9;
      Some(v)
    else None
  }

  /** Reads a time-offset back as minutes east of UTC. Like Go's `Z07:00`
      layout element, only an upper-case `Z` stands for UTC. */
  function ReadOffset(s: string): (r: Option<int>)
    ensures r.Some? ==> -1439 <= r.value <= 1439
    ensures r.Some? ==> IsTimeOffset(s) && (|s| == 1 || |s| == 6)
  {
    if s == "Z" then Some(0)
    else if |s| == 6 && (s[0] == '+' || s[0] == '-') && s[3] == ':' then
      var oh := TwoDigits(s, 1);
      var om := TwoDigits(s, 4);
      if oh.None? || om.None? || oh.value > 23 || om.value > 59 then None
      else
        var a := oh.value * 60 + om.value;
        Some(if s[0] == '+' then a else -a)
    else None
  }

  /** The fixed punctuation of the corrected text: `-` twice in the date,
      an upper-case `T`, and `:` twice in the clock. */
  predicate HasLayout(s: string) {
    && |s| >= 20
    && s[4] == '-' && s[7] == '-' && s[10] == 'T' && s[13] == ':' && s[16] == ':'
  }

  /** Text laid out as `yyyy-MM-ddTHH:mm:ss` with two-digit fields and a
      time-offset after it is an RFC 3339 date-time. */
  lemma LayoutIsDateTime(s: string)
    requires HasLayout(s)
    requires TwoDigits(s, 0).Some? && TwoDigits(s, 2).Some? && TwoDigits(s, 5).Some? && TwoDigits(s, 8).Some?
    requires TwoDigits(s, 11).Some? && TwoDigits(s, 14).Some? && TwoDigits(s, 17).Some?
    requires ReadOffset(s[19..]).Some?
    ensures IsRfc3339DateTime(s)
  {
    DigitsValueAppend(s[0..2], s[2..4]);
    assert s[0..2] + s[2..4] == s[0..4];
    var date := s[..10];
    assert date[0..4] == s[0..4] && date[5..7] == s[5..7] && date[8..10] == s[8..10];
    assert IsFullDate(date);
    var clock := s[11..19];
    assert clock[0..2] == s[11..13] && clock[3..5] == s[14..16] && clock[6..8] == s[17..19];
    assert IsPartialTime(clock);
    var off := s[19..];
    FullTimeOfParts(clock, off);
    assert s[11..] == clock + off;
    DateTimeOfParts(date, s[11..]);
    assert s == date + "T" + s[11..];
  }

  /** A reference reader for the corrected text, the partner of
      `FormatRfc3339`: fixed positions, two-digit fields checked against
      their ranges, and an offset of `Z` or `+hh:mm`/`-hh:mm`. It is not
      Go's parser, which the model leaves as a parameter. */
  function ReadRfc3339(s: string): (r: Option<CalendarDate>)
    ensures r.Some? ==> IsRfc3339DateTime(s) && s[10] == 'T'
    ensures r.Some? ==> |s| == 20 || |s| == 25
  {
    if !HasLayout(s) then None
    else
      var hi, lo := TwoDigits(s, 0), TwoDigits(s, 2);
      var mo, dd := TwoDigits(s, 5), TwoDigits(s, 8);
      var hh, mi, ss := TwoDigits(s, 11), TwoDigits(s, 14), TwoDigits(s, 17);
      var off := ReadOffset(s[19..]);
      if hi.None? || lo.None? || mo.None? || dd.None? || hh.None? || mi.None? || ss.None? || off.None? then None
      else if !(1 <= mo.value <= 12 && 1 <= dd.value <= 31 && hh.value <= 23 && mi.value <= 59 && ss.value <= 59) then None
      else
        LayoutIsDateTime(s);
        Some(CalendarDate(hi.value * 100 + lo.value, mo.value, dd.value, hh.value, mi.value, ss.value, off.value))
  }

  /** Two digits written by `Pad2` read back as the number they encode. */
  lemma ReadPad2(s: string, i: nat, v: int)
    requires 0 <= v <= 99
    requires i + 2 <= |s| && s[i..i + 2] == Pad2(v)
    ensures TwoDigits(s, i) == Some(v)
  {
  }

  /** A date-time whose fields read as those of `d` reads back as `d`. */
  lemma ReadFields(s: string, d: CalendarDate)
    requires HasLayout(s)
    requires TwoDigits(s, 0) == Some(d.year / 100) && TwoDigits(s, 2) == Some(d.year % 100)
    requires TwoDigits(s, 5) == Some(d.month as int) && TwoDigits(s, 8) == Some(d.day as int)
    requires TwoDigits(s, 11) == Some(d.hour as int) && TwoDigits(s, 14) == Some(d.minute as int)
    requires TwoDigits(s, 17) == Some(d.second as int)
    requires ReadOffset(s[19..]) == Some(d.offset as int)
    ensures ReadRfc3339(s) == Some(d)
  {
    assert d.year / 100 * 100 + d.year % 100 == d.year;
  }

  /** Where each field sits in the corrected text. */
  lemma Rfc3339Layout(d: CalendarDate)
    ensures var s := FormatRfc3339(d);
      && HasLayout(s)
      && s[0..2] == Pad2(d.year / 100) && s[2..4] == Pad2(d.year % 100)
      && s[5..7] == Pad2(d.month) && s[8..10] == Pad2(d.day)
      && s[11..13] == Pad2(d.hour) && s[14..16] == Pad2(d.minute) && s[17..19] == Pad2(d.second)
      && s[19..] == OffsetPart(d.offset)
  {
    var date, clock, off := DatePart(d), ClockPart(d), OffsetPart(d.offset);
    var s := FormatRfc3339(d);
    assert s == date + "T" + clock + off;
    assert date[0..4] == Pad4(d.year) == Pad2(d.year / 100) + Pad2(d.year % 100);
    assert date[5..7] == Pad2(d.month) && date[8..10] == Pad2(d.day);
    assert clock[0..2] == Pad2(d.hour) && clock[3..5] == Pad2(d.minute) && clock[6..8] == Pad2(d.second);
    assert s[..10] == date;
    assert s[11..19] == clock;
  }

  /** Reading the corrected text gives back the picked date exactly. */
  lemma Rfc3339RoundTrip(d: CalendarDate)
    ensures ReadRfc3339(FormatRfc3339(d)) == Some(d)
  {
    var s := FormatRfc3339(d);
    Rfc3339IsWellFormed(d);
    Rfc3339Layout(d);
    ReadPad2(s, 0, d.year / 100);
    ReadPad2(s, 2, d.year % 100);
    ReadPad2(s, 5, d.month);
    ReadPad2(s, 8, d.day);
    ReadPad2(s, 11, d.hour);
    ReadPad2(s, 14, d.minute);
    ReadPad2(s, 17, d.second);
    OffsetRoundTrip(d.offset);
    ReadFields(s, d);
  }

  /** The offset text reads back as the offset it was written from. */
  lemma OffsetRoundTrip(m: Offset)
    ensures ReadOffset(OffsetPart(m)) == Some(m)
  {
    if m != 0 {
      var off := OffsetPart(m);
      var a := if m < 0 then -m else m;
      ReadPad2(off, 1, a / 60);
      ReadPad2(off, 4, a % 60);
    }
  }
  /** Two digits that read as `v` are the digits `Pad2` writes for `v`. */
  lemma TwoDigitsPad(s: string, i: nat)
    requires TwoDigits(s, i).Some?
    ensures Pad2(TwoDigits(s, i).value) == s[i..i + 2]
  {
    var v := TwoDigits(s, i).value;
    var a, b := s[i] as int - '0' as int, s[i + 1] as int - '0' as int;
    assert IsDigit(s[i]) && IsDigit(s[i + 1]) by {
      assert s[i] == s[i..i + 2][0] && s[i + 1] == s[i..i + 2][1];
    }
    var two := s[i..i + 2];
    assert two[..1] == s[i..i + 1] && s[i..i + 1][..0] == [];
    assert v == DigitsValue(two) == DigitsValue(s[i..i + 1]) * 10 + b;
    assert v / 10 == a && v % 10 == b;
    assert Pad2(v) == [Digit(a), Digit(b)];
  }

  /** An offset the reader accepts is written back unchanged, except that
      `+00:00` and `-00:00` come back as `Z`. */
  lemma OffsetReadBack(t: string)
    requires ReadOffset(t).Some?
    requires t != "+00:00" && t != "-00:00"
    ensures OffsetPart(ReadOffset(t).value) == t
  {
    if t != "Z" {
      TwoDigitsPad(t, 1);
      TwoDigitsPad(t, 4);
      var oh, om := TwoDigits(t, 1).value, TwoDigits(t, 4).value;
      var a := oh * 60 + om;
      assert a / 60 == oh && a % 60 == om;
      assert t == [t[0]] + t[1..3] + ":" + t[4..6];
    }
  }

  /** The other half of the round trip: text the reader accepts is exactly
      what `FormatRfc3339` writes for the date read, unless its offset is
      the non-canonical `+00:00` or `-00:00`. */
  lemma ReadThenFormat(s: string)
    requires ReadRfc3339(s).Some?
    requires s[19..] != "+00:00" && s[19..] != "-00:00"
    ensures FormatRfc3339(ReadRfc3339(s).value) == s
  {
    var d := ReadRfc3339(s).value;
    TwoDigitsPad(s, 0);
    TwoDigitsPad(s, 2);
    TwoDigitsPad(s, 5);
    TwoDigitsPad(s, 8);
    TwoDigitsPad(s, 11);
    TwoDigitsPad(s, 14);
    TwoDigitsPad(s, 17);
    OffsetReadBack(s[19..]);
    assert d.year / 100 == TwoDigits(s, 0).value && d.year % 100 == TwoDigits(s, 2).value;
    assert DatePart(d) == s[0..2] + s[2..4] + "-" + s[5..7] + "-" + s[8..10];
    assert ClockPart(d) == s[11..13] + ":" + s[14..16] + ":" + s[17..19];
    assert s[..10] == DatePart(d);
    assert s[11..19] == ClockPart(d);
    assert s == s[..10] + "T" + s[11..19] + s[19..];
  }
}
