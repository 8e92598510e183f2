/** The two `datetime.strptime` formats and the one `strftime` format the
    downloader uses, on a date-time with minute precision. */
module DateTimes {
  import opened Wrappers
  import opened Strings

  datatype DateTime = DateTime(year: int, month: int, day: int, hour: int, minute: int) {
    /** What `datetime(year, month, day, hour, minute)` accepts. */
    predicate IsValid()
    {
      && 1 <= year <= 9999
      && 1 <= month <= 12
      && 1 <= day <= DaysInMonth(year, month)
      && 0 <= hour < 24
      && 0 <= minute < 60
    }
  }

  predicate IsLeapYear(y: int) { y % 4 == 0 && (y % 100 != 0 || y % 400 == 0) }

  function DaysInMonth(y: int, m: int): (d: int)
    requires 1 <= m <= 12
    ensures 28 <= d <= 31
    ensures m == 2 ==> (d == 29 <==> IsLeapYear(y))
  {
    if m == 2 then (if IsLeapYear(y) then 29 else 28)
    else if m == 4 || m == 6 || m == 9 || m == 11 then 30
    else 31
  }

  // The texts each `%` directive of `strptime` accepts (CPython's `_strptime`
  // patterns: %m `1[0-2]|0[1-9]|[1-9]`, %d `3[01]|[12]\d|0[1-9]|[1-9]| [1-9]`,
  // %H `2[0-3]|[01]\d|\d`, %M `[0-5]\d|\d`).

  predicate NonZeroDigit(c: char) { '1' <= c <= '9' }

  predicate MonthField(t: string)
  {
    || (|t| == 2 && t[0] == '1' && '0' <= t[1] <= '2')
    || (|t| == 2 && t[0] == '0' && NonZeroDigit(t[1]))
    || (|t| == 1 && NonZeroDigit(t[0]))
  }

  predicate DayField(t: string)
  {
    || (|t| == 2 && t[0] == '3' && '0' <= t[1] <= '1')
    || (|t| == 2 && '1' <= t[0] <= '2' && IsDigit(t[1]))
    || (|t| == 2 && t[0] == '0' && NonZeroDigit(t[1]))
    || (|t| == 1 && NonZeroDigit(t[0]))
    || (|t| == 2 && t[0] == ' ' && NonZeroDigit(t[1]))
  }

  predicate HourField(t: string)
  {
    || (|t| == 2 && t[0] == '2' && '0' <= t[1] <= '3')
    || (|t| == 2 && '0' <= t[0] <= '1' && IsDigit(t[1]))
    || (|t| == 1 && IsDigit(t[0]))
  }

  predicate MinuteField(t: string)
  {
    || (|t| == 2 && '0' <= t[0] <= '5' && IsDigit(t[1]))
    || (|t| == 1 && IsDigit(t[0]))
  }

  /** `int(t)` for a field text; `int` ignores the leading blank of `" 5"`. */
  function FieldValue(t: string): (n: nat)
    requires MonthField(t) || DayField(t) || HourField(t) || MinuteField(t)
  {
    if t[0] == ' ' then DigitValue(t[1]) else DigitsValue(t)
  }

  /** First whitespace character at or after `from`. */
  function FindSpace(s: string, from: nat): (r: Option<nat>)
    ensures r.Some? ==> from <= r.value < |s| && IsSpace(s[r.value])
    ensures r.Some? ==> forall k :: from <= k < r.value ==> !IsSpace(s[k])
    ensures r.None? ==> forall k :: from <= k < |s| ==> !IsSpace(s[k])
    decreases |s| - from
  {
    if from >= |s| then None else if IsSpace(s[from]) then Some(from) else FindSpace(s, from + 1)
  }

  /** `datetime.strptime(s, "%Y-%m-%d %H:%M")`, None where it raises ValueError.
      The year is exactly four digits; every later field runs up to the separator
      that follows it (`-`, whitespace, `:`, the end of the text), and because the
      separators are not digits only one alternative of each directive can be
      followed by its separator, so the field must be one of that directive's texts.
      The blank between date and time matches one or more whitespace characters.
      Text left over after the minutes is an error (CPython's "unconverted data
      remains"), and so is a date `datetime` refuses (day 31 in April, year 0). */
  function ParseDateTime(s: string): (r: Option<DateTime>)
    ensures r.Some? ==> r.value.IsValid()
  {
    if |s| < 5 || !AllDigits(s[..4]) || s[4] != '-' then None
    else ParseFromMonth(DigitsValue(s[..4]), s[5..])
  }

  /** The month runs up to the next `-`. */
  function ParseFromMonth(year: nat, s: string): (r: Option<DateTime>)
    ensures r.Some? ==> r.value.IsValid()
  {
    match Find(s, '-', 0)
    case None => None
    case Some(i) =>
      if MonthField(s[..i]) then ParseFromDay(year, FieldValue(s[..i]), s[i + 1..]) else None
  }

  /** The day runs up to the first whitespace after its first character (its
      first character may itself be the blank of `" 5"`); then the whitespace run. */
  function ParseFromDay(year: nat, month: nat, s: string): (r: Option<DateTime>)
    ensures r.Some? ==> r.value.IsValid()
  {
    match FindSpace(s, 1)
    case None => None
    case Some(j) =>
      if DayField(s[..j]) then ParseFromHour(year, month, FieldValue(s[..j]), TrimLeft(s[j..], IsSpace)) else None
  }

  /** The hour runs up to the next `:`, the minutes to the end of the text. */
  function ParseFromHour(year: nat, month: nat, day: nat, s: string): (r: Option<DateTime>)
    ensures r.Some? ==> r.value.IsValid()
  {
    match Find(s, ':', 0)
    case None => None
    case Some(k) =>
      var hourText, minuteText := s[..k], s[k + 1..];
      if HourField(hourText) && MinuteField(minuteText) then
        var dt := DateTime(year, month, day, FieldValue(hourText), FieldValue(minuteText));
        if dt.IsValid() then Some(dt) else None
      else None
  }

  /** `datetime.strptime(g, "%Y%m%d%H%M")` on twelve digits. Each directive tries its
      two-digit texts before its one-digit text, so the only parse that uses up all
      twelve digits is the one taking two digits per field; any other match leaves
      digits over and fails. The result is therefore the date-time the digit pairs
      spell, when that is a valid one. */
  function ParseCompact(g: string): (r: Option<DateTime>)
    requires |g| == 12 && AllDigits(g)
    ensures r.Some? <==> DateTime(DigitsValue(g[..4]), DigitsValue(g[4..6]), DigitsValue(g[6..8]),
                                  DigitsValue(g[8..10]), DigitsValue(g[10..])).IsValid()
    ensures r.Some? ==> r.value == DateTime(DigitsValue(g[..4]), DigitsValue(g[4..6]), DigitsValue(g[6..8]),
                                            DigitsValue(g[8..10]), DigitsValue(g[10..]))
  {
    var dt := DateTime(DigitsValue(g[..4]), DigitsValue(g[4..6]), DigitsValue(g[6..8]),
                       DigitsValue(g[8..10]), DigitsValue(g[10..]));
    if dt.IsValid() then Some(dt) else None
  }

  /** `dt.strftime("%Y%m%d-%H%M")`, the snapshot time token. */
  function TimeToken(dt: DateTime): (t: string)
    requires dt.IsValid()
    ensures |t| == 13 && t[8] == '-'
    ensures AllDigits(t[..8]) && AllDigits(t[9..])
  {
    FourDigits(dt.year) + TwoDigits(dt.month) + TwoDigits(dt.day) + "-" + TwoDigits(dt.hour) + TwoDigits(dt.minute)
  }

  /** The canonical `YYYY-MM-DD HH:MM` text of a date-time. */
  function IsoText(dt: DateTime): (t: string)
    requires dt.IsValid()
    ensures |t| == 16
  {
    FourDigits(dt.year) + "-" + TwoDigits(dt.month) + "-" + TwoDigits(dt.day) + " "
      + TwoDigits(dt.hour) + ":" + TwoDigits(dt.minute)
  }

  /** Taking the digits of a time token apart again gives back the date-time. */
  lemma CompactOfToken(dt: DateTime)
    requires dt.IsValid()
    ensures var t := TimeToken(dt); ParseCompact(t[..8] + t[9..]) == Some(dt)
  {
    var t := TimeToken(dt);
    var y, mo, d, h, mi := FourDigits(dt.year), TwoDigits(dt.month), TwoDigits(dt.day), TwoDigits(dt.hour), TwoDigits(dt.minute);
    assert t == y + mo + d + "-" + h + mi;
    assert t[..8] == y + mo + d;
    assert t[9..] == h + mi;
    var g := t[..8] + t[9..];
    assert g == y + mo + d + h + mi;
    assert g[..4] == FourDigits(dt.year);
    assert g[4..6] == TwoDigits(dt.month);
    assert g[6..8] == TwoDigits(dt.day);
    assert g[8..10] == TwoDigits(dt.hour);
    assert g[10..] == TwoDigits(dt.minute);
  }

  /** Two-digit fields are accepted by every directive whose range they are in. */
  lemma TwoDigitFields(dt: DateTime)
    requires dt.IsValid()
    ensures MonthField(TwoDigits(dt.month)) && FieldValue(TwoDigits(dt.month)) == dt.month
    ensures DayField(TwoDigits(dt.day)) && FieldValue(TwoDigits(dt.day)) == dt.day
    ensures HourField(TwoDigits(dt.hour)) && FieldValue(TwoDigits(dt.hour)) == dt.hour
    ensures MinuteField(TwoDigits(dt.minute)) && FieldValue(TwoDigits(dt.minute)) == dt.minute
  {
  }

  /** `strptime` reads the canonical text of every valid date-time back. */
  lemma ParseIsoText(dt: DateTime)
    requires dt.IsValid()
    ensures ParseDateTime(IsoText(dt)) == Some(dt)
  {
    TwoDigitFields(dt);
    var y, mo, d, h, mi := FourDigits(dt.year), TwoDigits(dt.month), TwoDigits(dt.day), TwoDigits(dt.hour), TwoDigits(dt.minute);
    var afterDay := h + ":" + mi;
    var afterMonth := d + " " + afterDay;
    var afterYear := mo + "-" + afterMonth;
    var s := y + "-" + afterYear;
    assert IsoText(dt) == s;
    assert s[..4] == y && s[5..] == afterYear;
    calc {
      ParseDateTime(s);
      ParseFromMonth(dt.year, afterYear);
      { ParseMonthStep(dt.year, mo, afterMonth); }
      ParseFromDay(dt.year, dt.month, afterMonth);
      { ParseDayStep(dt.year, dt.month, d, afterDay); }
      ParseFromHour(dt.year, dt.month, dt.day, afterDay);
      { ParseHourStep(dt.year, dt.month, dt.day, h, mi); }
      Some(dt);
    }
  }

  lemma ParseMonthStep(year: nat, mo: string, rest: string)
    requires |mo| == 2 && AllDigits(mo) && MonthField(mo)
    ensures ParseFromMonth(year, mo + "-" + rest) == ParseFromDay(year, FieldValue(mo), rest)
  {
    var s := mo + "-" + rest;
    assert s[0] == mo[0] && s[1] == mo[1] && s[2] == '-';
    assert Find(s, '-', 0) == Some(2);
    assert s[..2] == mo && s[3..] == rest;
  }

  lemma ParseDayStep(year: nat, month: nat, d: string, rest: string)
    requires |d| == 2 && AllDigits(d) && DayField(d)
    requires rest == [] || !IsSpace(rest[0])
    ensures ParseFromDay(year, month, d + " " + rest) == ParseFromHour(year, month, FieldValue(d), rest)
  {
    var s := d + " " + rest;
    assert s[1] == d[1] && s[2] == ' ';
    assert FindSpace(s, 1) == Some(2);
    assert s[..2] == d && s[2..] == " " + rest;
    assert (" " + rest)[1..] == rest;
    assert TrimLeft(rest, IsSpace) == rest;
  }

  lemma ParseHourStep(year: nat, month: nat, day: nat, h: string, mi: string)
    requires |h| == 2 && AllDigits(h) && HourField(h) && MinuteField(mi)
    requires DateTime(year, month, day, FieldValue(h), FieldValue(mi)).IsValid()
    ensures ParseFromHour(year, month, day, h + ":" + mi) == Some(DateTime(year, month, day, FieldValue(h), FieldValue(mi)))
  {
    var s := h + ":" + mi;
    assert s[0] == h[0] && s[1] == h[1] && s[2] == ':';
    assert Find(s, ':', 0) == Some(2);
    assert s[..2] == h && s[3..] == mi;
  }
}
