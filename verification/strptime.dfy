/** The three `datetime.strptime` formats the tracker parses (`%Y-%m-%d`,
    `%H:%M:%S`, `%H:%M`) and the texts it formats dates and times into.

    CPython's `strptime` matches each directive with a fixed regular
    expression (`%Y` four digits, `%m` 1-12 with an optional leading zero,
    `%d` 1-31 with an optional leading zero or space, `%H` 0-23, `%M` 0-59,
    `%S` 0-61), requires the whole string to be consumed, and then builds a
    `date`/`datetime`, which rejects a day past the end of its month, year 0
    and a second of 60 or 61. Because a 1-2 character field is always
    followed by a literal separator or the end of the text, the position of
    the separator decides each field; the functions below split on it. */
module Strptime {
  import opened Common
  import opened Text

  lemma TwoDigitValue(t: string)
    requires |t| == 2 && AllDigits(t)
    ensures DigitsValue(t) == DigitValue(t[0]) * 10 + DigitValue(t[1])
  {
    var u := t[..1];
    assert u[..0] == [] && u[0] == t[0];
    assert DigitsValue(u) == DigitValue(t[0]);
  }

  /** `%m`: `1[0-2]|0[1-9]|[1-9]`. */
  function MonthToken(t: string): (r: Option<int>)
    ensures r.Some? ==> 1 <= r.value <= 12
  {
    if |t| == 2 && ((t[0] == '1' && '0' <= t[1] <= '2') || (t[0] == '0' && '1' <= t[1] <= '9')) then
      TwoDigitValue(t);
      Some(DigitsValue(t))
    else if |t| == 1 && '1' <= t[0] <= '9' then Some(DigitValue(t[0]))
    else None
  }

  /** `%d`: `3[0-1]|[1-2]\d|0[1-9]|[1-9]| [1-9]`. */
  function DayToken(t: string): (r: Option<int>)
    ensures r.Some? ==> 1 <= r.value <= 31
  {
    if |t| == 2 && ((t[0] == '3' && '0' <= t[1] <= '1') || ('1' <= t[0] <= '2' && IsDigit(t[1]))
                    || (t[0] == '0' && '1' <= t[1] <= '9')) then
      TwoDigitValue(t);
      Some(DigitsValue(t))
    else if |t| == 1 && '1' <= t[0] <= '9' then Some(DigitValue(t[0]))
    else if |t| == 2 && t[0] == ' ' && '1' <= t[1] <= '9' then Some(DigitValue(t[1]))
    else None
  }

  /** `%H`: `2[0-3]|[0-1]\d|\d`. */
  function HourToken(t: string): (r: Option<int>)
    ensures r.Some? ==> 0 <= r.value <= 23
  {
    if |t| == 2 && ((t[0] == '2' && '0' <= t[1] <= '3') || ('0' <= t[0] <= '1' && IsDigit(t[1]))) then
      TwoDigitValue(t);
      Some(DigitsValue(t))
    else if |t| == 1 && IsDigit(t[0]) then Some(DigitValue(t[0]))
    else None
  }

  /** `%M`: `[0-5]\d|\d`. */
  function MinuteToken(t: string): (r: Option<int>)
    ensures r.Some? ==> 0 <= r.value <= 59
  {
    if |t| == 2 && '0' <= t[0] <= '5' && IsDigit(t[1]) then
      TwoDigitValue(t);
      Some(DigitsValue(t))
    else if |t| == 1 && IsDigit(t[0]) then Some(DigitValue(t[0]))
    else None
  }

  /** `%S`: `6[0-1]|[0-5]\d|\d`. */
  function SecondToken(t: string): (r: Option<int>)
    ensures r.Some? ==> 0 <= r.value <= 61
  {
    if |t| == 2 && ((t[0] == '6' && '0' <= t[1] <= '1') || ('0' <= t[0] <= '5' && IsDigit(t[1]))) then
      TwoDigitValue(t);
      Some(DigitsValue(t))
    else if |t| == 1 && IsDigit(t[0]) then Some(DigitValue(t[0]))
    else None
  }

  /** Splits a 1-2 character field off the front of `s` at the ':' that must follow it. */
  function TakeField(s: string): (r: Option<(string, string)>)
    ensures r.Some? ==> 1 <= |r.value.0| <= 2 && s == r.value.0 + ":" + r.value.1
  {
    if |s| >= 2 && s[1] == ':' then Some((s[..1], s[2..]))
    else if |s| >= 3 && s[2] == ':' then Some((s[..2], s[3..]))
    else None
  }

  /** `datetime.strptime(s, '%Y-%m-%d').date()`, or None where it raises `ValueError`. */
  function ParseDate(s: string): (r: Option<Date>)
    ensures r.Some? ==> ValidDate(r.value)
  {
    if |s| < 8 || !AllDigits(s[..4]) || s[4] != '-' then None
    else
      var mlen := if s[6] == '-' then 1 else 2;
      if 5 + mlen >= |s| || s[5 + mlen] != '-' then None
      else
        var m := MonthToken(s[5..5 + mlen]);
        var d := DayToken(s[6 + mlen..]);
        if m.None? || d.None? then None
        else
          var date := Date(DigitsValue(s[..4]), m.value, d.value);
          if ValidDate(date) then Some(date) else None
  }

  /** `datetime.strptime(s, '%H:%M').time()`, or None where it raises `ValueError`. */
  function ParseTimeHM(s: string): (r: Option<TimeOfDay>)
    ensures r.Some? ==> ValidTime(r.value) && r.value.second == 0
  {
    match TakeField(s)
    case None => None
    case Some((h, m)) =>
      if HourToken(h).Some? && MinuteToken(m).Some? then
        Some(TimeOfDay(HourToken(h).value, MinuteToken(m).value, 0))
      else None
  }

  /** `datetime.strptime(s, '%H:%M:%S').time()`, or None where it raises `ValueError`. */
  function ParseTimeHMS(s: string): (r: Option<TimeOfDay>)
    ensures r.Some? ==> ValidTime(r.value)
  {
    match TakeField(s)
    case None => None
    case Some((h, rest)) =>
      match TakeField(rest)
      case None => None
      case Some((m, sec)) =>
        if HourToken(h).Some? && MinuteToken(m).Some? && SecondToken(sec).Some? && SecondToken(sec).value <= 59 then
          Some(TimeOfDay(HourToken(h).value, MinuteToken(m).value, SecondToken(sec).value))
        else None
  }

  /** `date.strftime('%Y-%m-%d')` (the year is not padded below 1000, as with glibc). */
  function FormatDate(d: Date): (r: string)
    requires ValidDate(d)
    ensures |r| == |NatToString(d.year)| + 6
    ensures r[..|NatToString(d.year)|] == NatToString(d.year)
    ensures r[|r| - 6] == '-' && r[|r| - 3] == '-'
  {
    Pad2Field(d.month);
    Pad2Field(d.day);
    NatToString(d.year) + "-" + Pad2(d.month) + "-" + Pad2(d.day)
  }

  /** `str(timedelta(seconds=secs))` for a time of day: `H:MM:SS`, the hour unpadded. */
  function TimedeltaText(secs: nat): (r: string)
    ensures |r| >= 7
    ensures r[|r| - 6] == ':' && r[|r| - 3] == ':'
  {
    Pad2Field(secs % 3600 / 60);
    Pad2Field(secs % 60);
    NatToString(secs / 3600) + ":" + Pad2(secs % 3600 / 60) + ":" + Pad2(secs % 60)
  }

  /** `t.strftime('%H:%M')`. */
  function ClockText(t: TimeOfDay): string
    requires ValidTime(t)
  {
    Pad2(t.hour) + ":" + Pad2(t.minute)
  }

  lemma {:induction false} NatToStringLength(n: nat, k: nat)
    requires k >= 1 && (k == 1 || Pow10(k - 1) <= n) && n < Pow10(k)
    ensures |NatToString(n)| == k
  {
    if k >= 2 {
      assert Pow10(k - 1) == 10 * Pow10(k - 2);
      NatToStringLength(n / 10, k - 1);
    }
  }

  lemma TakeFieldOf(a: string, b: string)
    requires 1 <= |a| <= 2 && AllDigits(a)
    ensures TakeField(a + ":" + b) == Some((a, b))
  {
    var s := a + ":" + b;
    if |a| == 1 {
      assert s[..1] == a && s[2..] == b;
    } else {
      assert s[1] == a[1];
      assert s[..2] == a && s[3..] == b;
    }
  }

  /** A two-digit field as `{:02d}` writes it. */
  lemma Pad2Digits(n: int)
    requires 0 <= n <= 99
    ensures Pad2(n) == [DigitChar(n / 10), DigitChar(n % 10)]
  {
    if n >= 10 {
      assert NatToString(n) == NatToString(n / 10) + [DigitChar(n % 10)];
    }
  }

  /** A two-digit field `{:02d}` writes is a digit pair that reads back as its value. */
  lemma Pad2Field(n: int)
    requires 0 <= n <= 99
    ensures |Pad2(n)| == 2 && AllDigits(Pad2(n)) && DigitsValue(Pad2(n)) == n
    ensures Pad2(n)[0] == DigitChar(n / 10) && Pad2(n)[1] == DigitChar(n % 10)
  {
    Pad2Digits(n);
    TwoDigitValue(Pad2(n));
  }

  lemma MonthField(m: int)
    requires 1 <= m <= 12
    ensures MonthToken(Pad2(m)) == Some(m)
  {
    Pad2Field(m);
  }

  lemma DayField(d: int)
    requires 1 <= d <= 31
    ensures DayToken(Pad2(d)) == Some(d)
  {
    Pad2Field(d);
  }

  lemma MinuteField(m: int)
    requires 0 <= m <= 59
    ensures MinuteToken(Pad2(m)) == Some(m)
  {
    Pad2Field(m);
  }

  lemma SecondField(sec: int)
    requires 0 <= sec <= 59
    ensures SecondToken(Pad2(sec)) == Some(sec)
  {
    Pad2Field(sec);
  }

  /** The unpadded hour `str(timedelta)` writes. */
  lemma HourField(h: int)
    requires 0 <= h <= 23
    ensures 1 <= |NatToString(h)| <= 2 && AllDigits(NatToString(h))
    ensures HourToken(NatToString(h)) == Some(h)
  {
    var t := NatToString(h);
    NatToStringDigits(h);
    if h >= 10 {
      assert t == NatToString(h / 10) + [DigitChar(h % 10)];
      TwoDigitValue(t);
    }
  }

  /** The hour, minute and second of a time of day as `timedelta` splits its seconds. */
  lemma SecondsOfDayParts(t: TimeOfDay)
    requires ValidTime(t)
    ensures SecondsOfDay(t) / 3600 == t.hour
    ensures SecondsOfDay(t) % 3600 / 60 == t.minute
    ensures SecondsOfDay(t) % 60 == t.second
  {
  }

  /** Dates written by `strftime('%Y-%m-%d')` are read back unchanged by
      `strptime(..., '%Y-%m-%d')` (for four-digit years). */
  lemma DateRoundTrip(d: Date)
    requires ValidDate(d) && d.year >= 1000
    ensures ParseDate(FormatDate(d)) == Some(d)
  {
    var y := NatToString(d.year);
    NatToStringDigits(d.year);
    assert Pow10(3) == 1000 && Pow10(4) == 10000;
    NatToStringLength(d.year, 4);
    Pad2Field(d.month);
    Pad2Field(d.day);
    MonthField(d.month);
    DayField(d.day);
    ParseDateFields(y, Pad2(d.month), Pad2(d.day));
    assert FormatDate(d) == y + "-" + Pad2(d.month) + "-" + Pad2(d.day);
  }

  /** How `%Y-%m-%d` reads a four-digit year, a two-digit month and a day field. */
  lemma ParseDateFields(y: string, mm: string, dd: string)
    requires |y| == 4 && AllDigits(y) && |mm| == 2 && AllDigits(mm) && |dd| == 2
    ensures var m, d := MonthToken(mm), DayToken(dd);
      m.Some? && d.Some? && ValidDate(Date(DigitsValue(y), m.value, d.value))
      ==> ParseDate(y + "-" + mm + "-" + dd) == Some(Date(DigitsValue(y), m.value, d.value))
  {
    var s := y + "-" + mm + "-" + dd;
    assert s[..4] == y && s[4] == '-' && s[6] == mm[1] && s[7] == '-';
    assert s[5..7] == mm;
    assert s[8..] == dd;
  }

  /** A clock time written as `HH:MM` is read back by `strptime(..., '%H:%M')`. */
  lemma ClockRoundTrip(h: int, m: int)
    requires 0 <= h <= 23 && 0 <= m <= 59
    ensures ParseTimeHM(Pad2(h) + ":" + Pad2(m)) == Some(TimeOfDay(h, m, 0))
  {
    Pad2Digits(h);
    Pad2Digits(m);
    TwoDigitValue(Pad2(h));
    TwoDigitValue(Pad2(m));
    TakeFieldOf(Pad2(h), Pad2(m));
  }

  /** `HH:MM` with an hour of 24 or more is rejected by `strptime(..., '%H:%M')`. */
  lemma ClockHourOutOfRange(h: int, m: int)
    requires 24 <= h <= 99 && 0 <= m <= 59
    ensures ParseTimeHM(Pad2(h) + ":" + Pad2(m)) == None
  {
    Pad2Digits(h);
    Pad2Digits(m);
    TakeFieldOf(Pad2(h), Pad2(m));
    assert h / 10 >= 2;
  }

  /** The text `str(timedelta)` gives a stored sleep time is read back by the
      importer's first format, `%H:%M:%S`. */
  lemma TimedeltaRoundTrip(t: TimeOfDay)
    requires ValidTime(t)
    ensures ParseTimeHMS(TimedeltaText(SecondsOfDay(t))) == Some(t)
    ensures var s := TimedeltaText(SecondsOfDay(t)); |s| > 0 && IsDigit(s[0]) && IsDigit(s[|s| - 1])
  {
    TimedeltaTextParts(t);
    HmsParsesBack(t.hour, t.minute, t.second);
    HourField(t.hour);
    Pad2Field(t.second);
    var h, s := NatToString(t.hour), TimedeltaText(SecondsOfDay(t));
    assert s[0] == h[0] && s[|s| - 1] == Pad2(t.second)[1];
  }

  /** An unpadded hour, a padded minute and a padded second joined by ':'
      parse back as that time of day. */
  lemma HmsParsesBack(h: int, m: int, sec: int)
    requires 0 <= h <= 23 && 0 <= m <= 59 && 0 <= sec <= 59
    ensures ParseTimeHMS(NatToString(h) + ":" + Pad2(m) + ":" + Pad2(sec)) == Some(TimeOfDay(h, m, sec))
  {
    HourField(h);
    MinuteField(m);
    SecondField(sec);
    Pad2Field(m);
    var rest := Pad2(m) + ":" + Pad2(sec);
    TakeFieldOf(NatToString(h), rest);
    TakeFieldOf(Pad2(m), Pad2(sec));
    assert NatToString(h) + ":" + Pad2(m) + ":" + Pad2(sec) == NatToString(h) + ":" + rest;
  }

  /** The three fields of `str(timedelta)` for a time of day are its hour,
      minute and second. */
  lemma TimedeltaTextParts(t: TimeOfDay)
    requires ValidTime(t)
    ensures TimedeltaText(SecondsOfDay(t)) == NatToString(t.hour) + ":" + Pad2(t.minute) + ":" + Pad2(t.second)
  {
    SecondsOfDayParts(t);
  }
}
