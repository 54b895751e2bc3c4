/** Conversion of the API's UTC timestamps into the display text in Beijing time
    (`Product.convert_to_beijing_time`): `datetime.strptime(s, '%Y-%m-%dT%H:%M:%SZ')`, a
    shift to UTC+8, and `strftime('%Y年%m月%d日 %p%I:%M (北京时间)')`. */
module BeijingTime {
  import opened Results

  datatype DateTime = DateTime(year: int, month: int, day: int, hour: int, minute: int, second: int)

  /** What the display text shows: the date, the hour on a 24-hour clock, and the minute. */
  datatype WallClock = WallClock(year: int, month: int, day: int, hour: int, minute: int)

  /** Why conversion raises: the text does not match the format (strptime's "does not match
      format"), the fields name no real date or time (datetime's "out of range"), or the
      shifted time lies past the last year `datetime` can hold (OverflowError). */
  datatype TimeError = FormatMismatch | FieldOutOfRange | DateOverflow

  /** The range of years Python's `datetime` accepts. */
  const MinYear := 1
  const MaxYear := 9999

  /** Asia/Shanghai, taken as a fixed offset from UTC. */
  const OffsetHours := 8

  const Am := "AM"
  const Pm := "PM"
  /** The text after the minutes: " (北京时间)", "Beijing time". */
  const ZoneLabel := " (\U{5317}\U{4EAC}\U{65F6}\U{95F4})"
  const YearMark := '\U{5E74}'
  const MonthMark := '\U{6708}'
  const DayMark := '\U{65E5}'

  predicate IsLeapYear(y: int) {
    y % 4 == 0 && (y % 100 != 0 || y % 400 == 0)
  }

  function DaysInMonth(y: int, m: int): int
    requires 1 <= m <= 12
  {
    if m == 2 then (if IsLeapYear(y) then 29 else 28)
    else if m == 4 || m == 6 || m == 9 || m == 11 then 30
    else 31
  }

  predicate ValidDateTime(t: DateTime) {
    && MinYear <= t.year <= MaxYear
    && 1 <= t.month <= 12
    && 1 <= t.day <= DaysInMonth(t.year, t.month)
    && 0 <= t.hour < 24 && 0 <= t.minute < 60 && 0 <= t.second < 60
  }

  // Day numbers, counted the way Python's datetime module counts them: day 1 is 0001-01-01.

  function DaysBeforeYear(y: int): int
    requires y >= 1
  {
    var p := y - 1;
    p * 365 + p / 4 - p / 100 + p / 400
  }

  function DaysBeforeMonth(y: int, m: int): int
    requires 1 <= m <= 12
  {
    [0, 31, 59, 90, 120, 151, 181, 212, 243, 273, 304, 334][m - 1]
      + (if m > 2 && IsLeapYear(y) then 1 else 0)
  }

  function Ordinal(t: DateTime): int
    requires t.year >= 1 && 1 <= t.month <= 12
  {
    DaysBeforeYear(t.year) + DaysBeforeMonth(t.year, t.month) + t.day
  }

  /** Seconds since the start of day 0: the instant a date and time stand for. */
  function Instant(t: DateTime): int
    requires t.year >= 1 && 1 <= t.month <= 12
  {
    ((Ordinal(t) * 24 + t.hour) * 60 + t.minute) * 60 + t.second
  }

  lemma {:induction false} DaysBeforeNextYear(y: int)
    requires y >= 1
    ensures DaysBeforeYear(y + 1) == DaysBeforeYear(y) + DaysBeforeMonth(y, 12) + 31
  {
    var p := y - 1;
    var a := MultiplesStep(y, 4);
    var b := MultiplesStep(y, 100);
    var c := MultiplesStep(y, 400);
    assert IsLeapYear(y) <==> (a == 1 && (b == 0 || c == 1));
    assert DaysBeforeYear(y + 1) == DaysBeforeYear(y) + 365 + a - b + c;
  }

  /** Going from `y - 1` to `y`, the count of multiples of `k` grows by one exactly when
      `y` is one. */
  lemma {:induction false} MultiplesStep(y: int, k: int) returns (step: int)
    requires y >= 1 && k > 0
    ensures step == y / k - (y - 1) / k
    ensures step == if y % k == 0 then 1 else 0
  {
    var q, r := (y - 1) / k, (y - 1) % k;
    assert y - 1 == k * q + r && 0 <= r < k;
    if r == k - 1 {
      assert y == k * (q + 1) + 0;
      DivisionUnique(y, k, q + 1, 0);
    } else {
      assert y == k * q + (r + 1);
      DivisionUnique(y, k, q, r + 1);
    }
    step := y / k - (y - 1) / k;
  }

  lemma {:induction false} DivisionUnique(y: int, k: int, q: int, r: int)
    requires k > 0 && 0 <= r < k && y == k * q + r
    ensures y / k == q && y % k == r
  {
    var q', r' := y / k, y % k;
    assert y == k * q' + r' && 0 <= r' < k;
    if q > q' {
      assert k * (q - q') == k * q - k * q';
      ProductAtLeast(k, q - q');
    } else if q < q' {
      assert k * (q' - q) == k * q' - k * q;
      ProductAtLeast(k, q' - q);
    }
  }

  lemma {:induction false} ProductAtLeast(k: int, d: int)
    requires k > 0 && d >= 1
    ensures k * d >= k
    decreases d
  {
    if d > 1 {
      ProductAtLeast(k, d - 1);
      assert k * d == k * (d - 1) + k;
    }
  }

  // Decimal fields.

  predicate IsDigit(c: char) {
    '0' <= c <= '9'
  }

  predicate AllDigits(s: string) {
    forall i :: 0 <= i < |s| ==> IsDigit(s[i])
  }

  function Pow10(n: nat): nat {
    if n == 0 then 1 else 10 * Pow10(n - 1)
  }

  function DigitChar(d: int): char
    requires 0 <= d <= 9
  {
    ('0' as int + d) as char
  }

  /** The value of a string of decimal digits, as `int()` reads it. */
  function Number(s: string): (v: nat)
    requires AllDigits(s)
    ensures v < Pow10(|s|)
  {
    if s == [] then 0 else Number(s[..|s| - 1]) * 10 + (s[|s| - 1] as int - '0' as int)
  }

  /** `v` written with exactly `width` digits, zero-padded as `%m`, `%d`, `%H`, `%I`, `%M`
      and `%S` print it. */
  function Pad(v: nat, width: nat): (r: string)
    requires v < Pow10(width)
    ensures |r| == width && AllDigits(r)
  {
    if width == 0 then "" else Pad(v / 10, width - 1) + [DigitChar(v % 10)]
  }

  /** The digits of a two-digit field, for reading off concrete values. */
  lemma PadTwo(v: nat, digits: string)
    requires v < 100 && |digits| == 2
    requires digits[0] == DigitChar(v / 10) && digits[1] == DigitChar(v % 10)
    ensures Pow10(2) == 100
    ensures Pad(v, 2) == digits
  {
    assert Pow10(2) == 100;
    assert Pad(v / 10, 1) == Pad(0, 0) + [DigitChar(v / 10)];
  }

  /** The digits of a four-digit year, for reading off concrete values. */
  lemma PadFour(v: nat, digits: string)
    requires v < 10000 && |digits| == 4
    requires digits[0] == DigitChar(v / 1000) && digits[1] == DigitChar(v / 100 % 10)
    requires digits[2] == DigitChar(v / 10 % 10) && digits[3] == DigitChar(v % 10)
    ensures Pow10(4) == 10000
    ensures Pad(v, 4) == digits
  {
    assert Pow10(4) == 10000;
    assert Pad(v, 4) == Pad(v / 10, 3) + [DigitChar(v % 10)];
    assert Pad(v / 10, 3) == Pad(v / 10 / 10, 2) + [DigitChar(v / 10 % 10)];
    assert v / 10 / 10 == v / 100 && v / 100 / 10 == v / 1000 && v / 100 < 100;
    PadTwo(v / 100, digits[..2]);
  }

  lemma {:induction false} NumberOfPad(v: nat, width: nat)
    requires v < Pow10(width)
    ensures Number(Pad(v, width)) == v
  {
    if width > 0 {
      var r := Pad(v, width);
      assert r[..width - 1] == Pad(v / 10, width - 1);
      NumberOfPad(v / 10, width - 1);
    }
  }

  lemma {:induction false} PadOfNumber(s: string)
    requires AllDigits(s)
    ensures Pad(Number(s), |s|) == s
  {
    if s != [] {
      var init := s[..|s| - 1];
      PadOfNumber(init);
      var v := Number(s);
      assert v / 10 == Number(init);
      assert s == init + [s[|s| - 1]];
    }
  }

  // Parsing: strptime with '%Y-%m-%dT%H:%M:%SZ'.

  /** The layout the format asks for, in its two-digit form: four digits, '-', two digits,
      '-', two digits, 'T', then hh:mm:ss and 'Z'. strptime matches the literal letters
      without regard to case. */
  predicate MatchesLayout(s: string) {
    && |s| == 20
    && AllDigits(s[0..4]) && s[4] == '-' && AllDigits(s[5..7]) && s[7] == '-' && AllDigits(s[8..10])
    && (s[10] == 'T' || s[10] == 't')
    && AllDigits(s[11..13]) && s[13] == ':' && AllDigits(s[14..16]) && s[16] == ':' && AllDigits(s[17..19])
    && (s[19] == 'Z' || s[19] == 'z')
  }

  /** The fields of a text that matches the layout, before any range check. */
  function Fields(s: string): DateTime
    requires MatchesLayout(s)
  {
    DateTime(Number(s[0..4]), Number(s[5..7]), Number(s[8..10]),
             Number(s[11..13]), Number(s[14..16]), Number(s[17..19]))
  }

  /** The two-digit values strptime's patterns accept: month 01-12, day 01-31, hour 00-23,
      minute 00-59 and second 00-61. */
  predicate FieldsMatch(t: DateTime) {
    1 <= t.month <= 12 && 1 <= t.day <= 31 && t.hour <= 23 && t.minute <= 59 && t.second <= 61
  }

  /** `datetime.strptime(s, '%Y-%m-%dT%H:%M:%SZ')`: a date and time when the text matches
      and names a real instant (year 0, the 30th of February and seconds 60 and 61 are
      refused), an error otherwise. */
  function ParseUtc(s: string): (r: Result<DateTime, TimeError>)
    ensures r.Ok? ==> ValidDateTime(r.value)
  {
    if !MatchesLayout(s) then Err(FormatMismatch)
    else
      var t := Fields(s);
      assert t.year < 10000 by { assert Pow10(4) == 10000; }
      if !FieldsMatch(t) then Err(FormatMismatch)
      else if t.year < MinYear || t.day > DaysInMonth(t.year, t.month) || t.second > 59 then Err(FieldOutOfRange)
      else Ok(t)
  }

  /** Fields that fit the layout's digit counts, whether or not they name a real time. */
  predicate Printable(t: DateTime) {
    0 <= t.year < 10000 && 0 <= t.month < 100 && 0 <= t.day < 100
      && 0 <= t.hour < 100 && 0 <= t.minute < 100 && 0 <= t.second < 100
  }

  /** The canonical text of a UTC date and time in the parsed format. */
  function IsoText(t: DateTime): (s: string)
    requires Printable(t)
    ensures |s| == 20
  {
    IsoDate(t) + "T" + IsoClock(t) + "Z"
  }

  function IsoDate(t: DateTime): (s: string)
    requires Printable(t)
    ensures |s| == 10
  {
    assert Pow10(2) == 100 && Pow10(4) == 10000;
    Pad(t.year, 4) + "-" + Pad(t.month, 2) + "-" + Pad(t.day, 2)
  }

  function IsoClock(t: DateTime): (s: string)
    requires Printable(t)
    ensures |s| == 8
  {
    assert Pow10(2) == 100;
    Pad(t.hour, 2) + ":" + Pad(t.minute, 2) + ":" + Pad(t.second, 2)
  }

  lemma {:induction false} IsoDateFields(t: DateTime)
    requires Printable(t)
    ensures Pow10(2) == 100 && Pow10(4) == 10000
    ensures var date := IsoDate(t);
      date[0..4] == Pad(t.year, 4) && date[4] == '-' && date[5..7] == Pad(t.month, 2)
        && date[7] == '-' && date[8..10] == Pad(t.day, 2)
  {
    assert Pow10(2) == 100 && Pow10(4) == 10000;
  }

  lemma {:induction false} IsoClockFields(t: DateTime)
    requires Printable(t)
    ensures Pow10(2) == 100
    ensures var time := IsoClock(t);
      time[0..2] == Pad(t.hour, 2) && time[2] == ':' && time[3..5] == Pad(t.minute, 2)
        && time[5] == ':' && time[6..8] == Pad(t.second, 2)
  {
    assert Pow10(2) == 100;
  }

  /** Where each field sits in the canonical text. */
  lemma {:induction false} IsoTextFields(t: DateTime)
    requires Printable(t)
    ensures Pow10(2) == 100 && Pow10(4) == 10000
    ensures var s := IsoText(t);
      && s[0..4] == Pad(t.year, 4) && s[5..7] == Pad(t.month, 2) && s[8..10] == Pad(t.day, 2)
      && s[11..13] == Pad(t.hour, 2) && s[14..16] == Pad(t.minute, 2) && s[17..19] == Pad(t.second, 2)
      && s[4] == '-' && s[7] == '-' && s[10] == 'T' && s[13] == ':' && s[16] == ':' && s[19] == 'Z'
  {
    assert Pow10(2) == 100 && Pow10(4) == 10000;
    var date, time, s := IsoDate(t), IsoClock(t), IsoText(t);
    IsoDateFields(t);
    IsoClockFields(t);
    assert s[0..4] == date[0..4] && s[4] == date[4] && s[5..7] == date[5..7] && s[7] == date[7] && s[8..10] == date[8..10];
    assert s[11..13] == time[0..2] && s[13] == time[2] && s[14..16] == time[3..5] && s[16] == time[5] && s[17..19] == time[6..8];
  }

  /** The canonical text matches the layout and carries the fields it was written from. */
  lemma {:induction false} FieldsOfIsoText(t: DateTime)
    requires Printable(t)
    ensures MatchesLayout(IsoText(t)) && Fields(IsoText(t)) == t
  {
    var s := IsoText(t);
    IsoTextFields(t);
    assert MatchesLayout(s);
    NumberOfPad(t.year, 4);
    NumberOfPad(t.month, 2);
    NumberOfPad(t.day, 2);
    NumberOfPad(t.hour, 2);
    NumberOfPad(t.minute, 2);
    NumberOfPad(t.second, 2);
  }

  /** Parsing the canonical text of a valid date and time gives it back; the canonical
      text of anything else is refused, as out of range when the two-digit patterns
      accept its fields and as a format mismatch otherwise. */
  lemma {:induction false} ParseOfIsoText(t: DateTime)
    requires Printable(t)
    ensures ValidDateTime(t) ==> ParseUtc(IsoText(t)) == Ok(t)
    ensures !ValidDateTime(t) ==> ParseUtc(IsoText(t)) == Err(if FieldsMatch(t) then FieldOutOfRange else FormatMismatch)
  {
    FieldsOfIsoText(t);
  }

  /** Whatever the parser accepts is the canonical text of what it returns, up to the case
      of the letters 'T' and 'Z'. With ParseOfIsoText: a text parses exactly when it is,
      up to that case, the canonical text of a valid date and time. */
  lemma {:induction false} IsoTextOfParse(s: string)
    requires ParseUtc(s).Ok?
    ensures IsoText(ParseUtc(s).value) == s[..10] + "T" + s[11..19] + "Z"
  {
    var t := ParseUtc(s).value;
    assert MatchesLayout(s) && t == Fields(s);
    assert Pad(t.year, 4) == s[0..4] by { PadOfNumber(s[0..4]); }
    assert Pad(t.month, 2) == s[5..7] by { PadOfNumber(s[5..7]); }
    assert Pad(t.day, 2) == s[8..10] by { PadOfNumber(s[8..10]); }
    assert Pad(t.hour, 2) == s[11..13] by { PadOfNumber(s[11..13]); }
    assert Pad(t.minute, 2) == s[14..16] by { PadOfNumber(s[14..16]); }
    assert Pad(t.second, 2) == s[17..19] by { PadOfNumber(s[17..19]); }
    assert s[..10] == s[0..4] + "-" + s[5..7] + "-" + s[8..10];
    assert s[11..19] == s[11..13] + ":" + s[14..16] + ":" + s[17..19];
  }

  // The shift to UTC+8.

  /** The shifted time falls past 9999-12-31 23:59, which `datetime` cannot hold. */
  predicate ShiftOverflows(t: DateTime) {
    t.year == MaxYear && t.month == 12 && t.day == 31 && t.hour + OffsetHours >= 24
  }

  predicate IsLastDay(t: DateTime) {
    t.year == MaxYear && t.month == 12 && t.day == 31
  }

  /** The following calendar day, at the same time of day. */
  function NextDay(t: DateTime): (n: DateTime)
    requires ValidDateTime(t) && !IsLastDay(t)
    ensures ValidDateTime(n)
    ensures n.hour == t.hour && n.minute == t.minute && n.second == t.second
    ensures Ordinal(n) == Ordinal(t) + 1
  {
    if t.day < DaysInMonth(t.year, t.month) then t.(day := t.day + 1)
    else if t.month < 12 then
      MonthStep(t.year, t.month);
      t.(month := t.month + 1, day := 1)
    else
      DaysBeforeNextYear(t.year);
      t.(year := t.year + 1, month := 1, day := 1)
  }

  lemma {:induction false} MonthStep(y: int, m: int)
    requires 1 <= m < 12
    ensures DaysBeforeMonth(y, m + 1) == DaysBeforeMonth(y, m) + DaysInMonth(y, m)
  {
  }

  /** The same instant on Beijing's wall clock: eight hours on, on the next day when the
      hour passes midnight. */
  function ToBeijing(t: DateTime): (b: DateTime)
    requires ValidDateTime(t) && !ShiftOverflows(t)
    ensures ValidDateTime(b)
    ensures b.hour == (t.hour + OffsetHours) % 24 && b.minute == t.minute && b.second == t.second
    ensures Ordinal(b) == Ordinal(t) + (t.hour + OffsetHours) / 24
  {
    if t.hour + OffsetHours < 24 then t.(hour := t.hour + OffsetHours)
    else NextDay(t).(hour := t.hour + OffsetHours - 24)
  }

  /** The shifted wall-clock time stands for the UTC instant plus eight hours. */
  lemma {:induction false} ToBeijingInstant(t: DateTime)
    requires ValidDateTime(t) && !ShiftOverflows(t)
    ensures Instant(ToBeijing(t)) == Instant(t) + OffsetHours * 3600
  {
    var b := ToBeijing(t);
    var carry := (t.hour + OffsetHours) / 24;
    assert b.hour == t.hour + OffsetHours - 24 * carry;
  }

  // Formatting: strftime with '%Y年%m月%d日 %p%I:%M (北京时间)'.

  /** `%I`: the hour on a 12-hour clock, 12 standing for 0. */
  function Hour12(h: int): (h12: int)
    requires 0 <= h < 24
    ensures 1 <= h12 <= 12 && h12 % 12 == h % 12
  {
    if h % 12 == 0 then 12 else h % 12
  }

  /** `%p` in the C locale. */
  function Meridiem(h: int): (m: string)
    requires 0 <= h < 24
    ensures m == Am || m == Pm
    ensures m == Am <==> h < 12
  {
    assert Am[0] != Pm[0];
    if h < 12 then Am else Pm
  }

  /** The hour on a 24-hour clock that `%I` and `%p` show together. */
  function Hour24(h12: int, pm: bool): int
    requires 1 <= h12 <= 12
  {
    (if h12 == 12 then 0 else h12) + (if pm then 12 else 0)
  }

  /** `%I` and `%p` lose nothing: together they give back the hour. */
  lemma HourOnTwelveHourClock(h: int)
    requires 0 <= h < 24
    ensures 1 <= Hour12(h) <= 12
    ensures Hour24(Hour12(h), h >= 12) == h
  {
  }

  /** The display text of a Beijing wall-clock time. */
  function FormatBeijing(b: DateTime): (s: string)
    requires ValidDateTime(b)
    ensures |s| == 26
  {
    DisplayDate(b) + " " + DisplayTime(b) + ZoneLabel
  }

  /** `%Y年%m月%d日` */
  function DisplayDate(b: DateTime): (s: string)
    requires ValidDateTime(b)
    ensures |s| == 11
  {
    assert Pow10(2) == 100 && Pow10(4) == 10000;
    Pad(b.year, 4) + [YearMark] + Pad(b.month, 2) + [MonthMark] + Pad(b.day, 2) + [DayMark]
  }

  /** `%p%I:%M` */
  function DisplayTime(b: DateTime): (s: string)
    requires ValidDateTime(b)
    ensures |s| == 7
  {
    assert Pow10(2) == 100;
    Meridiem(b.hour) + Pad(Hour12(b.hour), 2) + ":" + Pad(b.minute, 2)
  }

  function Clock(b: DateTime): WallClock {
    WallClock(b.year, b.month, b.day, b.hour, b.minute)
  }

  /** Reads a display text back: the clock it shows, or None when it is not laid out as
      FormatBeijing writes. */
  function ReadDisplay(s: string): (c: Option<WallClock>)
    ensures c.Some? ==> 0 <= c.value.hour < 24 && 0 <= c.value.minute < 100
  {
    if |s| != 26 then None
    else if !(AllDigits(s[0..4]) && s[4] == YearMark && AllDigits(s[5..7]) && s[7] == MonthMark
              && AllDigits(s[8..10]) && s[10] == DayMark && s[11] == ' '
              && (s[12..14] == Am || s[12..14] == Pm) && AllDigits(s[14..16]) && s[16] == ':'
              && AllDigits(s[17..19]) && s[19..] == ZoneLabel) then None
    else
      var h12 := Number(s[14..16]);
      if !(1 <= h12 <= 12) then None
      else
        assert Pow10(2) == 100;
        Some(WallClock(Number(s[0..4]), Number(s[5..7]), Number(s[8..10]),
                       Hour24(h12, s[12..14] == Pm), Number(s[17..19])))
  }

  lemma {:induction false} DisplayDateFields(b: DateTime)
    requires ValidDateTime(b)
    ensures Pow10(2) == 100 && Pow10(4) == 10000
    ensures var date := DisplayDate(b);
      && date[0..4] == Pad(b.year, 4) && date[4] == YearMark && date[5..7] == Pad(b.month, 2)
      && date[7] == MonthMark && date[8..10] == Pad(b.day, 2) && date[10] == DayMark
  {
    assert Pow10(2) == 100 && Pow10(4) == 10000;
  }

  lemma {:induction false} DisplayTimeFields(b: DateTime)
    requires ValidDateTime(b)
    ensures Pow10(2) == 100
    ensures var time := DisplayTime(b);
      time[0..2] == Meridiem(b.hour) && time[2..4] == Pad(Hour12(b.hour), 2) && time[4] == ':'
        && time[5..7] == Pad(b.minute, 2)
  {
    assert Pow10(2) == 100;
  }

  /** Where each field sits in the display text. */
  lemma {:induction false} DisplayFields(b: DateTime)
    requires ValidDateTime(b)
    ensures Pow10(2) == 100 && Pow10(4) == 10000
    ensures var s := FormatBeijing(b);
      && s[0..4] == Pad(b.year, 4) && s[4] == YearMark && s[5..7] == Pad(b.month, 2)
      && s[7] == MonthMark && s[8..10] == Pad(b.day, 2) && s[10] == DayMark && s[11] == ' '
      && s[12..14] == Meridiem(b.hour) && s[14..16] == Pad(Hour12(b.hour), 2) && s[16] == ':'
      && s[17..19] == Pad(b.minute, 2) && s[19..] == ZoneLabel
  {
    var date, time, s := DisplayDate(b), DisplayTime(b), FormatBeijing(b);
    DisplayDateFields(b);
    DisplayTimeFields(b);
    assert s[0..4] == date[0..4] && s[4] == date[4] && s[5..7] == date[5..7] && s[7] == date[7]
      && s[8..10] == date[8..10] && s[10] == date[10];
    assert s[12..14] == time[0..2] && s[14..16] == time[2..4] && s[16] == time[4] && s[17..19] == time[5..7];
  }

  /** The display text shows exactly the wall-clock time it was made from: the 12-hour
      field and the AM/PM marker together give back the hour. */
  lemma {:induction false} DisplayRoundTrip(b: DateTime)
    requires ValidDateTime(b)
    ensures ReadDisplay(FormatBeijing(b)) == Some(Clock(b))
  {
    var s := FormatBeijing(b);
    DisplayFields(b);
    assert Am != Pm by { assert Am[0] != Pm[0]; }
    HourOnTwelveHourClock(b.hour);
    assert Number(s[14..16]) == Hour12(b.hour) by { NumberOfPad(Hour12(b.hour), 2); }
    assert Number(s[0..4]) == b.year by { NumberOfPad(b.year, 4); }
    assert Number(s[5..7]) == b.month by { NumberOfPad(b.month, 2); }
    assert Number(s[8..10]) == b.day by { NumberOfPad(b.day, 2); }
    assert Number(s[17..19]) == b.minute by { NumberOfPad(b.minute, 2); }
    assert (s[12..14] == Pm) == (b.hour >= 12);
  }

  /** `%I` is always 1 to 12, and the marker is AM exactly for the hours before noon. */
  lemma {:induction false} DisplayClock(b: DateTime)
    requires ValidDateTime(b)
    ensures var s := FormatBeijing(b);
      && 1 <= Number(s[14..16]) <= 12
      && (s[12..14] == Am <==> b.hour < 12)
  {
    DisplayFields(b);
    NumberOfPad(Hour12(b.hour), 2);
    assert Am != Pm by { assert Am[0] != Pm[0]; }
  }

  /** `Product.convert_to_beijing_time`: the display text of the Beijing time of a UTC
      timestamp, or the error the conversion raises. */
  function ConvertToBeijingTime(s: string): (r: Result<string, TimeError>)
    ensures r.Ok? <==> ParseUtc(s).Ok? && !ShiftOverflows(ParseUtc(s).value)
    ensures r.Err? ==> (r.error == DateOverflow <==> ParseUtc(s).Ok?)
  {
    match ParseUtc(s)
    case Err(e) => Err(e)
    case Ok(t) => if ShiftOverflows(t) then Err(DateOverflow) else Ok(FormatBeijing(ToBeijing(t)))
  }

  /** What a successful conversion shows is the UTC instant eight hours on: the display
      reads back as a valid wall-clock time whose instant is the parsed one plus eight
      hours. */
  lemma {:induction false} ConvertShowsShiftedClock(s: string)
    requires ConvertToBeijingTime(s).Ok?
    ensures var t := ParseUtc(s).value;
      exists b: DateTime :: ValidDateTime(b) && Instant(b) == Instant(t) + OffsetHours * 3600
        && b.second == t.second && ReadDisplay(ConvertToBeijingTime(s).value) == Some(Clock(b))
  {
    var t := ParseUtc(s).value;
    var b := ToBeijing(t);
    ToBeijingInstant(t);
    DisplayRoundTrip(b);
  }

  /** A canonical timestamp converts to the display of its Beijing time, unless the shift
      leaves the calendar. */
  lemma {:induction false} ConvertOfIsoText(t: DateTime)
    requires ValidDateTime(t)
    ensures ShiftOverflows(t) ==> ConvertToBeijingTime(IsoText(t)) == Err(DateOverflow)
    ensures !ShiftOverflows(t) ==> ConvertToBeijingTime(IsoText(t)) == Ok(FormatBeijing(ToBeijing(t)))
  {
    ParseOfIsoText(t);
  }

  /** A late-afternoon UTC time, 2025-03-07T16:01:00Z, is shown on the next day just after
      midnight: "2025年03月08日 AM12:01 (北京时间)". */
  lemma ConvertAcrossMidnightExample(t: DateTime, b: DateTime)
    requires t == DateTime(2025, 3, 7, 16, 1, 0) && b == DateTime(2025, 3, 8, 0, 1, 0)
    ensures ConvertToBeijingTime(IsoText(t)) == Ok(FormatBeijing(b))
  {
    assert ToBeijing(t) == b;
    ConvertOfIsoText(t);
  }

  /** The display of 2025-03-08 00:01, character by character. */
  lemma AcrossMidnightText(b: DateTime)
    requires b == DateTime(2025, 3, 8, 0, 1, 0)
    ensures FormatBeijing(b) == "2025\U{5E74}03\U{6708}08\U{65E5} AM12:01 (\U{5317}\U{4EAC}\U{65F6}\U{95F4})"
  {
    AcrossMidnightDate(b);
    AcrossMidnightTime(b);
  }

  /** The example end to end: the timestamp converts to exactly this text. */
  lemma AcrossMidnightConverts(t: DateTime, b: DateTime)
    requires t == DateTime(2025, 3, 7, 16, 1, 0) && b == DateTime(2025, 3, 8, 0, 1, 0)
    ensures IsoText(t) == "2025-03-07T16:01:00Z"
    ensures ConvertToBeijingTime(IsoText(t))
      == Ok("2025\U{5E74}03\U{6708}08\U{65E5} AM12:01 (\U{5317}\U{4EAC}\U{65F6}\U{95F4})")
  {
    ConvertAcrossMidnightExample(t, b);
    AcrossMidnightText(b);
    AcrossMidnightIso(t);
  }

  /** The timestamp of that example, written out. */
  lemma AcrossMidnightIso(t: DateTime)
    requires t == DateTime(2025, 3, 7, 16, 1, 0)
    ensures IsoText(t) == "2025-03-07T16:01:00Z"
  {
    PadFour(2025, "2025");
    PadTwo(3, "03");
    PadTwo(7, "07");
    assert IsoDate(t) == "2025-03-07";
    PadTwo(16, "16");
    PadTwo(1, "01");
    PadTwo(0, "00");
    assert IsoClock(t) == "16:01:00";
  }

  /** The date part of that display, read off digit by digit. */
  lemma AcrossMidnightDate(b: DateTime)
    requires b == DateTime(2025, 3, 8, 0, 1, 0)
    ensures DisplayDate(b) == "2025\U{5E74}03\U{6708}08\U{65E5}"
  {
    PadFour(2025, "2025");
    PadTwo(3, "03");
    PadTwo(8, "08");
  }

  /** The time part of that display: hour 0 as "AM12", then the minutes. */
  lemma AcrossMidnightTime(b: DateTime)
    requires b == DateTime(2025, 3, 8, 0, 1, 0)
    ensures DisplayTime(b) == "AM12:01"
  {
    PadTwo(12, "12");
    PadTwo(1, "01");
  }

  /** The hour after midnight is written "AM12", as `%p%I` writes it. */
  lemma MidnightShownAsTwelve(b: DateTime)
    requires ValidDateTime(b) && b.hour == 0
    ensures DisplayTime(b)[..4] == "AM12"
  {
    PadTwo(12, "12");
  }

  /** The 30th of February, 2024-02-30T10:00:00Z, matches the format but is no date. */
  lemma NoSuchDayExample(t: DateTime)
    requires t == DateTime(2024, 2, 30, 10, 0, 0)
    ensures IsoText(t) == "2024-02-30T10:00:00Z"
    ensures ConvertToBeijingTime(IsoText(t)) == Err(FieldOutOfRange)
  {
    ParseOfIsoText(t);
    NoSuchDayIso(t);
  }

  /** The timestamp of that example, written out. */
  lemma NoSuchDayIso(t: DateTime)
    requires t == DateTime(2024, 2, 30, 10, 0, 0)
    ensures IsoText(t) == "2024-02-30T10:00:00Z"
  {
    PadFour(2024, "2024");
    PadTwo(2, "02");
    PadTwo(30, "30");
    assert IsoDate(t) == "2024-02-30";
    PadTwo(10, "10");
    PadTwo(0, "00");
    assert IsoClock(t) == "10:00:00";
  }

  /** A space in place of the 'T' does not match the format. */
  lemma SpaceSeparatorExample()
    ensures ConvertToBeijingTime("2024-02-03 10:00:00Z") == Err(FormatMismatch)
  {
    var s := "2024-02-03 10:00:00Z";
    assert s[10] == ' ';
    assert !MatchesLayout(s);
  }

  /** The evening of the last day `datetime` holds, 9999-12-31T16:00:00Z, has no Beijing
      time. */
  lemma LastEveningExample(t: DateTime)
    requires t == DateTime(9999, 12, 31, 16, 0, 0)
    ensures IsoText(t) == "9999-12-31T16:00:00Z"
    ensures ConvertToBeijingTime(IsoText(t)) == Err(DateOverflow)
  {
    ConvertOfIsoText(t);
    LastEveningIso(t);
  }

  /** The timestamp of that example, written out. */
  lemma LastEveningIso(t: DateTime)
    requires t == DateTime(9999, 12, 31, 16, 0, 0)
    ensures IsoText(t) == "9999-12-31T16:00:00Z"
  {
    PadFour(9999, "9999");
    PadTwo(12, "12");
    PadTwo(31, "31");
    assert IsoDate(t) == "9999-12-31";
    PadTwo(16, "16");
    PadTwo(0, "00");
    assert IsoClock(t) == "16:00:00";
  }
}
