/** The timestamp step of the lifecycle reshaper: a cell value with `':00'` appended
    is read with `strptime('%Y-%m-%d %H:%M:%S.%f%z')` and written back with
    `strftime('%b %d %Y, %H:%M:%S')`.

    The reader accepts the fixed-width form of that pattern: four-digit year, two-digit
    month, day, hour, minute and second, one to six fraction digits, and an offset
    `+HH:MM` or `+HH:MM:SS` (or with `-`), which are the two offset shapes that survive
    the `':00'` append (a cell ending in `+HH` or `+HH:MM`). A value is accepted only if
    it names a real calendar date and time and an offset under 24 hours. The writer
    keeps the wall-clock fields as they are: no conversion to another zone. */
module Timestamps {
  import opened Results
  import opened Decimal

  /** The naive part of a parsed `datetime`. */
  datatype LocalTime = LocalTime(
    year: nat, month: nat, day: nat,
    hour: nat, minute: nat, second: nat, microsecond: nat)

  /** An aware `datetime`: local wall-clock time and its offset from UTC in seconds. */
  datatype DateTime = DateTime(local: LocalTime, utcOffset: int)

  predicate IsLeapYear(year: nat) {
    year % 4 == 0 && (year % 100 != 0 || year % 400 == 0)
  }

  function DaysInMonth(year: nat, month: nat): nat
    requires 1 <= month <= 12
  {
    if month == 2 then (if IsLeapYear(year) then 29 else 28)
    else if month in {4, 6, 9, 11} then 30
    else 31
  }

  /** What `datetime` accepts: years 1 to 9999, real days of the month, no leap
      seconds. */
  predicate ValidLocal(t: LocalTime) {
    && 1 <= t.year <= 9999
    && 1 <= t.month <= 12
    && 1 <= t.day <= DaysInMonth(t.year, t.month)
    && t.hour < 24 && t.minute < 60 && t.second < 60
    && t.microsecond < 1000000
  }

  /** `timezone` accepts offsets strictly inside one day. */
  predicate ValidOffset(offset: int) {
    -86400 < offset < 86400
  }

  predicate Valid(t: DateTime) {
    ValidLocal(t.local) && ValidOffset(t.utcOffset)
  }

  // ---------------------------------------------------------------------------
  // Reading

  /** A fixed-width unsigned number at the front of `s`, and what follows it. */
  function Number(s: string, width: nat): (r: Option<(nat, string)>)
    ensures r.Some? ==> r.value.0 < Pow10(width) && |r.value.1| == |s| - width
  {
    if width <= |s| && AllDigits(s[..width]) then
      DecimalValueBound(s[..width]);
      Some((DecimalValue(s[..width]), s[width..]))
    else
      None
  }

  /** The literal character `c` at the front of `s`, and what follows it. */
  function Literal(s: string, c: char): Option<string> {
    if 0 < |s| && s[0] == c then Some(s[1..]) else None
  }

  /** The number of digits at the front of `s`. */
  function LeadingDigits(s: string): (n: nat)
    ensures n <= |s| && AllDigits(s[..n])
    ensures n < |s| ==> !IsDigit(s[n])
  {
    if 0 < |s| && IsDigit(s[0]) then
      var n := 1 + LeadingDigits(s[1..]);
      assert s[..n] == [s[0]] + s[1..][..n - 1];
      n
    else
      0
  }

  /** `%f`: one to six digits, read as a fraction of a second (so `5` is 500000
      microseconds). The pattern takes up to six digits greedily; a seventh digit
      cannot start an offset, so more than six digits fail. */
  function Fraction(s: string): (r: Option<(nat, string)>)
    ensures r.Some? ==> r.value.0 < 1000000
  {
    var n := LeadingDigits(s);
    if 1 <= n <= 6 then
      DecimalValueBound(s[..n]);
      FractionScale(DecimalValue(s[..n]), n);
      Some((DecimalValue(s[..n]) * Pow10(6 - n), s[n..]))
    else
      None
  }

  lemma {:induction false} FractionScale(v: nat, n: nat)
    requires n <= 6 && v < Pow10(n)
    ensures v * Pow10(6 - n) < 1000000
    decreases 6 - n
  {
    if n < 6 {
      assert Pow10(n + 1) == 10 * Pow10(n);
      assert Pow10(6 - n) == 10 * Pow10(6 - (n + 1));
      FractionScale(v * 10, n + 1);
    }
  }

  /** A fixed-width number followed by the separator `sep`, and what follows both. */
  function NumberThen(s: string, width: nat, sep: char): (r: Option<(nat, string)>)
    ensures r.Some? ==> r.value.0 < Pow10(width)
  {
    var n :- Number(s, width);
    var rest :- Literal(n.1, sep);
    Some((n.0, rest))
  }

  /** `%Y-%m-%d %H:%M:%S.%f` at the front of `s`, and what follows it. */
  function ReadLocal(s: string): Option<(LocalTime, string)> {
    var year :- NumberThen(s, 4, '-');
    var month :- NumberThen(year.1, 2, '-');
    var day :- NumberThen(month.1, 2, ' ');
    var hour :- NumberThen(day.1, 2, ':');
    var minute :- NumberThen(hour.1, 2, ':');
    var second :- NumberThen(minute.1, 2, '.');
    var fraction :- Fraction(second.1);
    Some((LocalTime(year.0, month.0, day.0, hour.0, minute.0, second.0, fraction.0), fraction.1))
  }

  /** The optional `:SS` that ends an offset, below 60; absent means zero. */
  function OffsetSeconds(s: string): Option<nat> {
    if |s| == 0 then
      Some(0)
    else
      var s1 :- Literal(s, ':');
      var seconds :- Number(s1, 2);
      if 60 <= seconds.0 || |seconds.1| != 0 then None else Some(seconds.0)
  }

  /** The unsigned part of `%z` filling the whole of `s`: two-digit hours, then a
      colon and minutes below 60, then optionally a colon and seconds below 60. */
  function OffsetMagnitude(s: string): Option<nat> {
    var hours :- NumberThen(s, 2, ':');
    var minutes :- Number(hours.1, 2);
    var seconds :- OffsetSeconds(minutes.1);
    if 60 <= minutes.0 then None else Some(hours.0 * 3600 + minutes.0 * 60 + seconds)
  }

  /** `%z` filling the whole of `s`: a sign and the magnitude, in seconds. */
  function ReadOffset(s: string): Option<int> {
    if |s| == 0 || (s[0] != '+' && s[0] != '-') then
      None
    else
      var magnitude :- OffsetMagnitude(s[1..]);
      var offset := if s[0] == '-' then -(magnitude as int) else magnitude as int;
      Some(offset)
  }

  /** `datetime.strptime(v, '%Y-%m-%d %H:%M:%S.%f%z')`; `None` stands for the
      `ValueError` it raises. */
  function ParseTimestamp(v: string): (r: Option<DateTime>)
    ensures r.Some? ==> Valid(r.value)
  {
    var local :- ReadLocal(v);
    var offset :- ReadOffset(local.1);
    var t := DateTime(local.0, offset);
    if Valid(t) then Some(t) else None
  }

  // ---------------------------------------------------------------------------
  // Writing the reader's input back (the partner of the reader)

  /** `n` zero-padded to `width` digits, then `sep`, then `rest`. */
  function Field(n: nat, width: nat, sep: char, rest: string): string {
    ZeroPadded(n, width) + ([sep] + rest)
  }

  /** The first `w` of the six fraction digits, one to six, hold `microsecond`
      exactly: the digits left off are all zeros. */
  predicate FractionFits(microsecond: nat, w: nat) {
    && 1 <= w <= 6
    && forall i :: w <= i < 6 ==> ZeroPadded(microsecond, 6)[i] == '0'
  }

  /** The fraction of a second as its first `w` digits (`500000` as `5`, `50`, … or
      `500000`). */
  function WriteFraction(microsecond: nat, w: nat): string
    requires w <= 6
  {
    ZeroPadded(microsecond, 6)[..w]
  }

  /** The local time in the reader's layout with `w` fraction digits, then `rest`. */
  function WriteLocal(t: LocalTime, w: nat, rest: string): string
    requires w <= 6
  {
    Field(t.year, 4, '-', Field(t.month, 2, '-', Field(t.day, 2, ' ',
      Field(t.hour, 2, ':', Field(t.minute, 2, ':', Field(t.second, 2, '.',
      WriteFraction(t.microsecond, w) + rest))))))
  }

  function SignOf(offset: int): char {
    if offset < 0 then '-' else '+'
  }

  function Abs(x: int): nat {
    if x < 0 then -x else x
  }

  /** The offset as `+HH:MM:SS`. */
  function WriteOffset(offset: int): string {
    var a := Abs(offset);
    [SignOf(offset)] + Field(a / 3600, 2, ':', Field(a % 3600 / 60, 2, ':', ZeroPadded(a % 60, 2)))
  }

  /** The offset as `+HH:MM`, for offsets in whole minutes. */
  function WriteShortOffset(offset: int): string {
    var a := Abs(offset);
    [SignOf(offset)] + Field(a / 3600, 2, ':', ZeroPadded(a % 3600 / 60, 2))
  }

  /** The offset as `+HH`, for offsets in whole hours. */
  function WriteHourOffset(offset: int): string {
    [SignOf(offset)] + ZeroPadded(Abs(offset) / 3600, 2)
  }

  /** A cell value whose offset is written `+HH:MM`; `':00'` turns the offset into
      `+HH:MM:00`. */
  function RawWithMinutes(t: DateTime, w: nat): string
    requires w <= 6
  {
    WriteLocal(t.local, w, WriteShortOffset(t.utcOffset))
  }

  /** A cell value whose offset is written `+HH`; `':00'` turns the offset into
      `+HH:00`. */
  function RawWithHours(t: DateTime, w: nat): string
    requires w <= 6
  {
    WriteLocal(t.local, w, WriteHourOffset(t.utcOffset))
  }

  lemma NumberOfField(n: nat, width: nat, sep: char, rest: string)
    requires n < Pow10(width)
    ensures Number(Field(n, width, sep, rest), width) == Some((n, [sep] + rest))
    ensures NumberThen(Field(n, width, sep, rest), width, sep) == Some((n, rest))
  {
    var s := Field(n, width, sep, rest);
    assert s[..width] == ZeroPadded(n, width);
    assert s[width..] == [sep] + rest;
  }

  lemma NumberOfPadded(n: nat, width: nat)
    requires n < Pow10(width)
    ensures Number(ZeroPadded(n, width), width) == Some((n, []))
  {
    assert ZeroPadded(n, width)[..width] == ZeroPadded(n, width);
  }

  /** The written digits scale back to the microseconds. */
  lemma FractionDigits(n: nat, w: nat)
    requires n < 1000000 && FractionFits(n, w)
    ensures AllDigits(WriteFraction(n, w))
    ensures DecimalValue(WriteFraction(n, w)) * Pow10(6 - w) == n
  {
    var z := ZeroPadded(n, 6);
    assert z == z[..w] + z[w..];
    ZerosValue(z[w..]);
    DecimalValueAppend(z[..w], z[w..]);
  }

  /** `%f` reads a written fraction of any width back to the same microseconds. */
  lemma FractionOfWritten(n: nat, w: nat, rest: string)
    requires n < 1000000 && FractionFits(n, w)
    requires |rest| > 0 && !IsDigit(rest[0])
    ensures Fraction(WriteFraction(n, w) + rest) == Some((n, rest))
  {
    FractionDigits(n, w);
    var s := WriteFraction(n, w) + rest;
    assert s[..w] == WriteFraction(n, w);
    assert s[w] == rest[0];
    LeadingDigitsStop(s, w);
    assert s[w..] == rest;
  }

  lemma {:induction false} LeadingDigitsStop(s: string, n: nat)
    requires n < |s| && AllDigits(s[..n]) && !IsDigit(s[n])
    ensures LeadingDigits(s) == n
    decreases n
  {
    if n > 0 {
      assert s[1..][..n - 1] == s[..n][1..];
      LeadingDigitsStop(s[1..], n - 1);
    }
  }

  lemma {:induction false} ReadWriteLocal(t: LocalTime, w: nat, rest: string)
    requires ValidLocal(t) && FractionFits(t.microsecond, w)
    requires |rest| > 0 && !IsDigit(rest[0])
    ensures ReadLocal(WriteLocal(t, w, rest)) == Some((t, rest))
  {
    var f := WriteFraction(t.microsecond, w) + rest;
    var sec := Field(t.second, 2, '.', f);
    var min := Field(t.minute, 2, ':', sec);
    var hour := Field(t.hour, 2, ':', min);
    var day := Field(t.day, 2, ' ', hour);
    var month := Field(t.month, 2, '-', day);
    var s := Field(t.year, 4, '-', month);
    assert s == WriteLocal(t, w, rest);
    NumberOfField(t.year, 4, '-', month);
    assert NumberThen(s, 4, '-') == Some((t.year, month));
    NumberOfField(t.month, 2, '-', day);
    assert NumberThen(month, 2, '-') == Some((t.month, day));
    NumberOfField(t.day, 2, ' ', hour);
    assert NumberThen(day, 2, ' ') == Some((t.day, hour));
    NumberOfField(t.hour, 2, ':', min);
    assert NumberThen(hour, 2, ':') == Some((t.hour, min));
    NumberOfField(t.minute, 2, ':', sec);
    assert NumberThen(min, 2, ':') == Some((t.minute, sec));
    NumberOfField(t.second, 2, '.', f);
    assert NumberThen(sec, 2, '.') == Some((t.second, f));
    FractionOfWritten(t.microsecond, w, rest);
    assert Fraction(f) == Some((t.microsecond, rest));
  }

  lemma OffsetParts(offset: int)
    requires ValidOffset(offset)
    ensures var a := Abs(offset);
      && a / 3600 < 100 && a % 3600 / 60 < 60 && a % 60 < 60
      && a / 3600 * 3600 + a % 3600 / 60 * 60 + a % 60 == a
  {
  }

  lemma ReadMagnitude(hours: nat, minutes: nat, seconds: nat)
    requires hours < 100 && minutes < 60 && seconds < 60
    ensures OffsetMagnitude(Field(hours, 2, ':', Field(minutes, 2, ':', ZeroPadded(seconds, 2))))
         == Some(hours * 3600 + minutes * 60 + seconds)
  {
    var secs := ZeroPadded(seconds, 2);
    var mins := Field(minutes, 2, ':', secs);
    NumberOfField(hours, 2, ':', mins);
    NumberOfField(minutes, 2, ':', secs);
    assert OffsetSeconds([':'] + secs) == Some(seconds) by {
      NumberOfPadded(seconds, 2);
    }
  }

  lemma ReadShortMagnitude(hours: nat, minutes: nat)
    requires hours < 100 && minutes < 60
    ensures OffsetMagnitude(Field(hours, 2, ':', ZeroPadded(minutes, 2)))
         == Some(hours * 3600 + minutes * 60)
  {
    var mins := ZeroPadded(minutes, 2);
    NumberOfField(hours, 2, ':', mins);
    NumberOfPadded(minutes, 2);
  }

  lemma ReadWriteOffset(offset: int)
    requires ValidOffset(offset)
    ensures ReadOffset(WriteOffset(offset)) == Some(offset)
  {
    var a := Abs(offset);
    OffsetParts(offset);
    var s := WriteOffset(offset);
    assert s[1..] == Field(a / 3600, 2, ':', Field(a % 3600 / 60, 2, ':', ZeroPadded(a % 60, 2)));
    ReadMagnitude(a / 3600, a % 3600 / 60, a % 60);
  }

  lemma ReadWriteShortOffset(offset: int)
    requires ValidOffset(offset) && Abs(offset) % 60 == 0
    ensures ReadOffset(WriteShortOffset(offset)) == Some(offset)
  {
    var a := Abs(offset);
    OffsetParts(offset);
    var s := WriteShortOffset(offset);
    assert s[1..] == Field(a / 3600, 2, ':', ZeroPadded(a % 3600 / 60, 2));
    ReadShortMagnitude(a / 3600, a % 3600 / 60);
  }

  /** Reading is a left inverse of writing with a full `+HH:MM:SS` offset: every
      valid aware timestamp is read back exactly, whatever number of fraction digits
      (one to six) it is written with, as long as they hold its microseconds. */
  lemma ParseWritten(t: DateTime, w: nat)
    requires Valid(t) && FractionFits(t.local.microsecond, w)
    ensures ParseTimestamp(WriteLocal(t.local, w, WriteOffset(t.utcOffset))) == Some(t)
  {
    ReadWriteLocal(t.local, w, WriteOffset(t.utcOffset));
    ReadWriteOffset(t.utcOffset);
  }

  /** The same for the short `+HH:MM` offset, for offsets in whole minutes. */
  lemma ParseWrittenShort(t: DateTime, w: nat)
    requires Valid(t) && FractionFits(t.local.microsecond, w) && Abs(t.utcOffset) % 60 == 0
    ensures ParseTimestamp(WriteLocal(t.local, w, WriteShortOffset(t.utcOffset))) == Some(t)
  {
    ReadWriteLocal(t.local, w, WriteShortOffset(t.utcOffset));
    ReadWriteShortOffset(t.utcOffset);
  }

  // ---------------------------------------------------------------------------
  // Rendering

  const MonthAbbreviations: seq<string> :=
    ["Jan", "Feb", "Mar", "Apr", "May", "Jun", "Jul", "Aug", "Sep", "Oct", "Nov", "Dec"]

  /** `%b` in the C locale. */
  function MonthAbbreviation(month: nat): (r: string)
    requires 1 <= month <= 12
    ensures |r| == 3
  {
    MonthAbbreviations[month - 1]
  }

  /** The month whose abbreviation is `name`. */
  function MonthNumber(name: string): (r: Option<nat>)
    ensures r.Some? ==> 1 <= r.value <= 12 && MonthAbbreviation(r.value) == name
  {
    if name == "Jan" then Some(1)
    else if name == "Feb" then Some(2)
    else if name == "Mar" then Some(3)
    else if name == "Apr" then Some(4)
    else if name == "May" then Some(5)
    else if name == "Jun" then Some(6)
    else if name == "Jul" then Some(7)
    else if name == "Aug" then Some(8)
    else if name == "Sep" then Some(9)
    else if name == "Oct" then Some(10)
    else if name == "Nov" then Some(11)
    else if name == "Dec" then Some(12)
    else None
  }

  /** `t.strftime('%b %d %Y, %H:%M:%S')`: fraction of a second dropped. */
  function Render(t: LocalTime): (r: string)
    requires ValidLocal(t)
    ensures |r| == 21
  {
    MonthAbbreviation(t.month) + ([' '] + Field(t.day, 2, ' ', Field(t.year, 4, ',',
      [' '] + Field(t.hour, 2, ':', Field(t.minute, 2, ':', ZeroPadded(t.second, 2))))))
  }

  /** A month abbreviation at the front of `s`, and what follows it. */
  function ReadMonth(s: string): Option<(nat, string)> {
    if |s| < 3 then None
    else
      var month :- MonthNumber(s[..3]);
      Some((month, s[3..]))
  }

  /** `HH:MM:SS` filling the whole of `s`. */
  function ReadClock(s: string): Option<(nat, nat, nat)> {
    var hour :- NumberThen(s, 2, ':');
    var minute :- NumberThen(hour.1, 2, ':');
    var second :- Number(minute.1, 2);
    if |second.1| != 0 then None else Some((hour.0, minute.0, second.0))
  }

  /** `DD YYYY, ` at the front of `s`, and what follows it. */
  function ReadDayYear(s: string): Option<(nat, nat, string)> {
    var day :- NumberThen(s, 2, ' ');
    var year :- NumberThen(day.1, 4, ',');
    var rest :- Literal(year.1, ' ');
    Some((day.0, year.0, rest))
  }

  /** Reads a rendered timestamp back into its fields (with no fraction). */
  function ReadRendered(s: string): Option<LocalTime> {
    var month :- ReadMonth(s);
    var s1 :- Literal(month.1, ' ');
    var date :- ReadDayYear(s1);
    var clock :- ReadClock(date.2);
    Some(LocalTime(date.1, month.0, date.0, clock.0, clock.1, clock.2, 0))
  }

  lemma MonthRoundTrip(month: nat, rest: string)
    requires 1 <= month <= 12
    ensures ReadMonth(MonthAbbreviation(month) + rest) == Some((month, rest))
  {
    var s := MonthAbbreviation(month) + rest;
    assert s[..3] == MonthAbbreviation(month);
    assert MonthNumber(MonthAbbreviation(month)) == Some(month);
  }

  lemma ReadWriteClock(hour: nat, minute: nat, second: nat)
    requires hour < 100 && minute < 100 && second < 100
    ensures ReadClock(Field(hour, 2, ':', Field(minute, 2, ':', ZeroPadded(second, 2))))
         == Some((hour, minute, second))
  {
    var secs := ZeroPadded(second, 2);
    var min := Field(minute, 2, ':', secs);
    NumberOfField(hour, 2, ':', min);
    NumberOfField(minute, 2, ':', secs);
    NumberOfPadded(second, 2);
  }

  lemma ReadWriteDayYear(day: nat, year: nat, rest: string)
    requires day < 100 && year < 10000
    ensures ReadDayYear(Field(day, 2, ' ', Field(year, 4, ',', [' '] + rest))) == Some((day, year, rest))
  {
    NumberOfField(day, 2, ' ', Field(year, 4, ',', [' '] + rest));
    NumberOfField(year, 4, ',', [' '] + rest);
  }

  /** Rendering keeps every wall-clock field of the parsed time, unconverted, and
      drops only the fraction of a second. */
  lemma ReadRender(t: LocalTime)
    requires ValidLocal(t)
    ensures ReadRendered(Render(t)) == Some(t.(microsecond := 0))
  {
    var clock := Field(t.hour, 2, ':', Field(t.minute, 2, ':', ZeroPadded(t.second, 2)));
    var day := Field(t.day, 2, ' ', Field(t.year, 4, ',', [' '] + clock));
    assert Render(t) == MonthAbbreviation(t.month) + ([' '] + day);
    MonthRoundTrip(t.month, [' '] + day);
    assert Literal([' '] + day, ' ') == Some(day);
    ReadWriteDayYear(t.day, t.year, clock);
    ReadWriteClock(t.hour, t.minute, t.second);
  }

  // ---------------------------------------------------------------------------
  // The whole step

  /** The stored value for one cell: `':00'` appended, parsed, rendered. */
  function Normalize(raw: string): (r: Option<string>)
    ensures r.Some? <==> ParseTimestamp(raw + ":00").Some?
    ensures r.Some? ==> |r.value| == 21
    ensures r.Some? ==>
      ReadRendered(r.value) == Some(ParseTimestamp(raw + ":00").value.local.(microsecond := 0))
  {
    var t :- ParseTimestamp(raw + ":00");
    ReadRender(t.local);
    Some(Render(t.local))
  }

  lemma AppendAfterField(n: nat, width: nat, sep: char, rest: string, tail: string)
    ensures Field(n, width, sep, rest) + tail == Field(n, width, sep, rest + tail)
  {
  }

  lemma AppendAfterLocal(t: LocalTime, w: nat, rest: string, tail: string)
    requires w <= 6
    ensures WriteLocal(t, w, rest) + tail == WriteLocal(t, w, rest + tail)
  {
    var f := WriteFraction(t.microsecond, w);
    assert f + rest + tail == f + (rest + tail);
    AppendAfterField(t.second, 2, '.', f + rest, tail);
    AppendAfterField(t.minute, 2, ':', Field(t.second, 2, '.', f + rest), tail);
    AppendAfterField(t.hour, 2, ':', Field(t.minute, 2, ':', Field(t.second, 2, '.', f + rest)), tail);
    AppendAfterField(t.day, 2, ' ',
      Field(t.hour, 2, ':', Field(t.minute, 2, ':', Field(t.second, 2, '.', f + rest))), tail);
    AppendAfterField(t.month, 2, '-', Field(t.day, 2, ' ',
      Field(t.hour, 2, ':', Field(t.minute, 2, ':', Field(t.second, 2, '.', f + rest)))), tail);
    AppendAfterField(t.year, 4, '-', Field(t.month, 2, '-', Field(t.day, 2, ' ',
      Field(t.hour, 2, ':', Field(t.minute, 2, ':', Field(t.second, 2, '.', f + rest))))), tail);
  }

  lemma WholeHours(a: nat)
    requires a % 3600 == 0
    ensures a % 60 == 0 && a % 3600 / 60 == 0
  {
    assert a == 3600 * (a / 3600);
  }

  /** `+HH:MM` followed by `':00'` is `+HH:MM:SS` for an offset in whole minutes. */
  lemma ShortOffsetThenSeconds(offset: int)
    requires Abs(offset) % 60 == 0
    ensures WriteShortOffset(offset) + ":00" == WriteOffset(offset)
  {
    var a := Abs(offset);
    var mins := ZeroPadded(a % 3600 / 60, 2);
    assert mins + ":00" == Field(a % 3600 / 60, 2, ':', ZeroPadded(a % 60, 2)) by {
      assert ZeroPadded(0, 2) == "00";
    }
    AppendAfterField(a / 3600, 2, ':', mins, ":00");
  }

  /** `+HH` followed by `':00'` is `+HH:MM` for an offset in whole hours. */
  lemma HourOffsetThenMinutes(offset: int)
    requires Abs(offset) % 3600 == 0
    ensures WriteHourOffset(offset) + ":00" == WriteShortOffset(offset)
  {
    var a := Abs(offset);
    WholeHours(a);
    assert ZeroPadded(0, 2) == "00";
    assert ZeroPadded(a / 3600, 2) + ":00" == Field(a / 3600, 2, ':', ZeroPadded(a % 3600 / 60, 2));
  }

  /** Appending `':00'` to a cell with a `+HH:MM` offset gives the full layout. */
  lemma AppendToMinutes(t: DateTime, w: nat)
    requires w <= 6 && Abs(t.utcOffset) % 60 == 0
    ensures RawWithMinutes(t, w) + ":00" == WriteLocal(t.local, w, WriteOffset(t.utcOffset))
  {
    ShortOffsetThenSeconds(t.utcOffset);
    AppendAfterLocal(t.local, w, WriteShortOffset(t.utcOffset), ":00");
  }

  /** Appending `':00'` to a cell with a `+HH` offset gives the short layout. */
  lemma AppendToHours(t: DateTime, w: nat)
    requires w <= 6 && Abs(t.utcOffset) % 3600 == 0
    ensures RawWithHours(t, w) + ":00" == WriteLocal(t.local, w, WriteShortOffset(t.utcOffset))
  {
    HourOffsetThenMinutes(t.utcOffset);
    AppendAfterLocal(t.local, w, WriteHourOffset(t.utcOffset), ":00");
  }

  /** A cell written `YYYY-MM-DD HH:MM:SS.f+HH:MM`, with one to six fraction digits,
      normalizes to the rendering of its own wall-clock fields. */
  lemma NormalizeRawWithMinutes(t: DateTime, w: nat)
    requires Valid(t) && FractionFits(t.local.microsecond, w) && Abs(t.utcOffset) % 60 == 0
    ensures Normalize(RawWithMinutes(t, w)) == Some(Render(t.local))
  {
    assert ParseTimestamp(RawWithMinutes(t, w) + ":00") == Some(t) by {
      AppendToMinutes(t, w);
      ParseWritten(t, w);
    }
  }

  /** A cell written `YYYY-MM-DD HH:MM:SS.f+HH`, with one to six fraction digits,
      normalizes to the rendering of its own wall-clock fields. */
  lemma NormalizeRawWithHours(t: DateTime, w: nat)
    requires Valid(t) && FractionFits(t.local.microsecond, w) && Abs(t.utcOffset) % 3600 == 0
    ensures Normalize(RawWithHours(t, w)) == Some(Render(t.local))
  {
    assert ParseTimestamp(RawWithHours(t, w) + ":00") == Some(t) by {
      WholeHours(Abs(t.utcOffset));
      AppendToHours(t, w);
      ParseWrittenShort(t, w);
    }
  }
}
