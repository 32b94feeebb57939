/** The one-off converter that turns a legacy sleep log, where sleep onset is
    an hour offset from midnight, into rows of the import template. */
module SleepConverter {
  import opened Common
  import opened Text
  import opened Strptime
  import opened ImportExport

  /** A cell of the legacy `S` column as the converter receives it. `Hours`
      carries whether the offset is below zero and `round(abs(offset) * 60)`,
      the offset's size in whole minutes. */
  datatype Offset = Missing | Blank | NotNumeric | Hours(negative: bool, minutes: nat)

  /** The hour and minute the conversion writes, or None where it writes ''.
      A negative offset counts back from midnight of the next day, a
      non-negative one forward from midnight; `//` and `%` floor, as Dafny's
      do for the positive divisor 60. */
  function ClockFields(o: Offset): (r: Option<(int, int)>)
    ensures r.Some? <==> o.Hours?
    ensures o.Hours? && !o.negative ==> r.value.0 * 60 + r.value.1 == o.minutes && 0 <= r.value.1 < 60
    ensures o.Hours? && o.negative ==> r.value.0 * 60 + r.value.1 == 1440 - o.minutes && 0 <= r.value.1 < 60
  {
    match o
    case Hours(neg, t) =>
      var a := if neg then 1440 - t else t;
      Some((a / 60, a % 60))
    case _ => None
  }

  /** `f"{hours:02d}:{minutes:02d}"`. */
  function ClockString(h: int, m: int): string {
    Pad2(h) + ":" + Pad2(m)
  }

  /** `convert_sleep_time`: '' for a missing, empty or non-numeric cell,
      otherwise the hour and minute written as `HH:MM`. */
  function ConvertSleepTime(o: Offset): (s: string)
    ensures !o.Hours? ==> s == ""
  {
    match ClockFields(o)
    case None => ""
    case Some((h, m)) => ClockString(h, m)
  }

  /** Both fields of a converted time are at least two characters wide and
      read back through `int()` as the hour and minute computed. */
  lemma ConvertedFieldsPadded(o: Offset)
    requires o.Hours?
    ensures var (h, m) := ClockFields(o).value;
      ConvertSleepTime(o) == Pad2(h) + ":" + Pad2(m)
      && |Pad2(h)| >= 2 && |Pad2(m)| >= 2
      && ParseInt(Pad2(h)) == Some(h) && ParseInt(Pad2(m)) == Some(m)
  {
    var (h, m) := ClockFields(o).value;
    Pad2ParsesBack(h);
    Pad2ParsesBack(m);
  }

  /** Two fields below 100 are written as exactly two digits each. */
  lemma ClockStringDigits(h: int, m: int)
    requires 0 <= h <= 99 && 0 <= m <= 99
    ensures ClockString(h, m) == [DigitChar(h / 10), DigitChar(h % 10), ':', DigitChar(m / 10), DigitChar(m % 10)]
  {
    Pad2Digits(h);
    Pad2Digits(m);
  }

  /** A text `HH:MM` for a clock time is what the importer's sleep-time parser reads. */
  lemma ClockTextImports(h: int, m: int)
    requires 0 <= h <= 23 && 0 <= m <= 59
    ensures ParseSleepTime(ClockString(h, m)) == Some(TimeOfDay(h, m, 0))
  {
    var s := ClockString(h, m);
    Pad2Digits(h);
    Pad2Digits(m);
    StripTrimmed(s);
    ClockRoundTrip(h, m);
    assert TakeField(s) == Some((Pad2(h), Pad2(m))) by { TakeFieldOf(Pad2(h), Pad2(m)); }
    assert TakeField(Pad2(m)) == None;
  }

  /** An offset of one minute to a full day before midnight, or of less than
      a day after it, becomes the clock time at the minute of the day it
      denotes, and the importer reads that time back. */
  lemma OffsetIsClock(o: Offset)
    requires o.Hours?
    requires o.negative ==> 1 <= o.minutes <= 1440
    requires !o.negative ==> o.minutes < 1440
    ensures ParseSleepTime(ConvertSleepTime(o)).Some?
    ensures SecondsOfDay(ParseSleepTime(ConvertSleepTime(o)).value) == MinuteOfDay(o) * 60
  {
    var (h, m) := ClockFields(o).value;
    ClockTextImports(h, m);
    assert ConvertSleepTime(o) == ClockString(h, m);
    assert SecondsOfDay(TimeOfDay(h, m, 0)) == (h * 60 + m) * 60;
    if o.negative {
      MinutesBeforeMidnight(o.minutes);
    }
  }

  lemma MinutesBeforeMidnight(t: nat)
    requires 1 <= t <= 1440
    ensures (1440 - t) % 1440 == 1440 - t
  {
  }

  /** A negative offset that rounds to no minutes at all (-0.001 hours, say)
      is written as "24:00", an hour `strptime` refuses, so importing the
      converted file loses that night's sleep time. */
  lemma NegativeZeroGivesHour24()
    ensures ConvertSleepTime(Hours(true, 0)) == "24:00"
    ensures ParseSleepTime(ConvertSleepTime(Hours(true, 0))) == None
  {
    assert ConvertSleepTime(Hours(true, 0)) == ClockString(24, 0) by {
      assert ClockFields(Hours(true, 0)) == Some((24, 0));
    }
    assert ClockString(24, 0) == "24:00" by {
      ClockStringDigits(24, 0);
      DigitChars();
    }
    ClockHourRejected(24, 0);
  }

  /** The characters `DigitChar` gives the ten digits. */
  lemma DigitChars()
    ensures DigitChar(0) == '0' && DigitChar(1) == '1' && DigitChar(2) == '2' && DigitChar(3) == '3'
    ensures DigitChar(4) == '4' && DigitChar(5) == '5' && DigitChar(6) == '6' && DigitChar(7) == '7'
    ensures DigitChar(8) == '8' && DigitChar(9) == '9'
  {
  }

  /** `HH:MM` with an hour from 24 to 99 is not a sleep time the importer reads. */
  lemma ClockHourRejected(h: int, m: int)
    requires 24 <= h <= 99 && 0 <= m <= 59
    ensures ParseSleepTime(ClockString(h, m)) == None
  {
    var s := ClockString(h, m);
    Pad2Digits(h);
    Pad2Digits(m);
    ClockHourOutOfRange(h, m);
    StripTrimmed(s);
    assert TakeField(Pad2(m)) == None;
    TakeFieldOf(Pad2(h), Pad2(m));
  }

  /** Two of the converter's own examples, with the minute counts
      `round(abs(offset) * 60)` gives them: -0.43 hours is 26 minutes before
      midnight, 23:34, and 0.5 hours is 00:30. */
  lemma ConversionExamples()
    ensures ConvertSleepTime(Hours(true, 26)) == "23:34"
    ensures ConvertSleepTime(Hours(false, 30)) == "00:30"
  {
    DigitChars();
    assert ConvertSleepTime(Hours(true, 26)) == "23:34" by { ExampleText(true, 26, 23, 34); }
    assert ConvertSleepTime(Hours(false, 30)) == "00:30" by { ExampleText(false, 30, 0, 30); }
  }

  lemma ExampleText(neg: bool, t: nat, h: int, m: int)
    requires 0 <= h <= 99 && 0 <= m < 60 && h * 60 + m == if neg then 1440 - t else t
    ensures ConvertSleepTime(Hours(neg, t)) == [DigitChar(h / 10), DigitChar(h % 10), ':', DigitChar(m / 10), DigitChar(m % 10)]
  {
    var (h', m') := ClockFields(Hours(neg, t)).value;
    assert h' == h && m' == m;
    ClockStringDigits(h, m);
  }

  /** The minute of the day an offset denotes: a negative offset counts back
      from the next midnight, modulo a day. */
  function MinuteOfDay(o: Offset): int
    requires o.Hours?
  {
    if o.negative then (1440 - o.minutes) % 1440 else o.minutes
  }

  /** A negative offset brought into one to 1440 minutes before midnight,
      the same minute of the day; any other offset unchanged. */
  function Wrap(o: Offset): (w: Offset)
    ensures w.Hours? <==> o.Hours?
    ensures w.Hours? ==> w.negative == o.negative && MinuteOfDay(w) == MinuteOfDay(o)
    ensures w.Hours? && w.negative ==> 1 <= w.minutes <= 1440
  {
    if o.Hours? && o.negative then
      var u := 1440 - (1440 - o.minutes) % 1440;
      MinutesBeforeMidnight(u);
      Hours(true, u)
    else o
  }

  /** The conversion with a negative offset first reduced modulo a day, so
      that it always lands on a clock time. */
  function ConvertSleepTimeWrapped(o: Offset): (s: string)
    ensures !o.Hours? ==> s == ""
  {
    ConvertSleepTime(Wrap(o))
  }

  /** Every negative offset becomes a clock time the importer reads: the
      minutes before midnight, modulo a day. */
  lemma WrappedBeforeMidnightIsClock(o: Offset)
    requires o.Hours? && o.negative
    ensures ParseSleepTime(ConvertSleepTimeWrapped(o)).Some?
    ensures SecondsOfDay(ParseSleepTime(ConvertSleepTimeWrapped(o)).value) == MinuteOfDay(o) * 60
  {
    OffsetIsClock(Wrap(o));
  }

  /** The wrapped conversion differs from the original only on a negative
      offset that rounds to zero minutes or exceeds a day. */
  lemma WrappedAgrees(o: Offset)
    requires !(o.Hours? && o.negative && (o.minutes == 0 || o.minutes > 1440))
    ensures ConvertSleepTimeWrapped(o) == ConvertSleepTime(o)
  {
    if o.Hours? && o.negative {
      MinutesBeforeMidnight(o.minutes);
      assert Wrap(o) == o;
    }
  }

  /** One row of the legacy file: the date cell (`None` for an empty cell,
      which pandas reads as NaN), the sleep offset and the weight cell as
      pandas writes it back. */
  datatype LegacyRow = LegacyRow(date: Option<string>, sleep: Offset, weight: Option<string>)

  /** A row of the template the converter writes, cell by cell. */
  datatype TemplateLine = TemplateLine(d: string, s: string, w: string, r: string, p: string, c: string, n: string)

  /** The line written for a row whose sleep cell is `sleep`: a date
      containing '-' is given the year 2025, any other date becomes ''; the
      weight is copied; rating, steps, calories and note are left empty. */
  function LineWith(row: LegacyRow, sleep: string): (l: TemplateLine)
    ensures l.s == sleep && l.r == "" && l.p == "" && l.c == "" && l.n == ""
    ensures l.w == if row.weight.Some? then row.weight.value else ""
    ensures l.d != "" <==> row.date.Some? && Contains(row.date.value, "-")
    ensures l.d != "" ==> l.d == "2025-" + row.date.value
  {
    var d := if row.date.Some? && row.date.value != "" && Contains(row.date.value, "-") then "2025-" + row.date.value else "";
    TemplateLine(d, sleep, if row.weight.Some? then row.weight.value else "", "", "", "", "")
  }

  /** The per-row mapping of `convert_sleep_data`: the sleep offset goes
      through `convert_sleep_time` as it is written. */
  function ConvertRow(row: LegacyRow): (l: TemplateLine)
    ensures l.r == "" && l.p == "" && l.c == "" && l.n == ""
    ensures l.w == if row.weight.Some? then row.weight.value else ""
    ensures l.d != "" <==> row.date.Some? && Contains(row.date.value, "-")
    ensures !row.sleep.Hours? ==> l.s == ""
  {
    LineWith(row, ConvertSleepTime(row.sleep))
  }

  /** The per-row mapping with the conversion reduced modulo a day. */
  function ConvertRowWrapped(row: LegacyRow): TemplateLine
  {
    LineWith(row, ConvertSleepTimeWrapped(row.sleep))
  }

  /** The line as the importer's `DictReader` sees it under the template header. */
  function AsCsvRow(l: TemplateLine): CsvRow {
    map["D" := Some(l.d), "S" := Some(l.s), "W" := Some(l.w), "R" := Some(l.r),
        "P" := Some(l.p), "C" := Some(l.c), "N" := Some(l.n)]
  }

  /** Importing a template line with empty rating, steps, calories and note
    cells: a blank date is skipped; a stored line carries its sleep cell as
    parsed and no rating, steps, calories or note. */
  lemma TemplateLineImport(l: TemplateLine)
    requires l.r == "" && l.p == "" && l.c == "" && l.n == ""
    ensures var o := ParseRow(Template, AsCsvRow(l));
      (l.d == "" ==> o == Skipped)
      && (o.Parsed? ==> o.fields.sleepTime == ParseSleepTime(l.s) && o.fields.rating.None? && o.fields.steps.None?
                        && o.fields.caloriesIntake.None? && o.fields.note.None?)
  {
    var r := AsCsvRow(l);
    assert Cell(r, "D") == Some(l.d) && Cell(r, "S") == Some(l.s) && Cell(r, "N") == Some("");
    assert Cell(r, "R") == Some("") && Cell(r, "P") == Some("") && Cell(r, "C") == Some("");
    assert Strip("") == "";
    assert ParseOptionalInt(Some("")) == None;
    if l.d == "" {
      BlankDateSkipped(Template, r);
    } else if ParseDate(Strip(l.d)).Some? {
      ParseRowStores(Template, r);
    }
  }

  /** The sleep cell of a converted row, as the importer parses it: the clock
      time the offset denotes, for an offset of one minute to a full day
      before midnight or of less than a day after it; nothing for a missing,
      blank or non-numeric cell, and nothing for a negative offset that
      rounds to no minutes, which is written "24:00". */
  lemma ConvertedSleepImport(row: LegacyRow)
    ensures var sleep := ParseSleepTime(ConvertRow(row).s);
      (row.sleep.Hours? && (row.sleep.negative ==> 1 <= row.sleep.minutes <= 1440)
         && (!row.sleep.negative ==> row.sleep.minutes < 1440) ==>
         sleep.Some? && SecondsOfDay(sleep.value) == MinuteOfDay(row.sleep) * 60)
      && (!row.sleep.Hours? ==> sleep.None?)
      && (row.sleep == Hours(true, 0) ==> ConvertRow(row).s == "24:00" && sleep.None?)
  {
    if row.sleep == Hours(true, 0) {
      NegativeZeroGivesHour24();
    } else if row.sleep.Hours? && (row.sleep.negative ==> 1 <= row.sleep.minutes <= 1440)
      && (!row.sleep.negative ==> row.sleep.minutes < 1440) {
      OffsetIsClock(row.sleep);
    } else if !row.sleep.Hours? {
      assert Strip("") == "";
    }
  }

  /** The corrected mapping writes the same line except for the sleep cell,
      and agrees with the original on every offset the original already
      turns into a clock time. */
  lemma ConvertRowBlankColumns(row: LegacyRow)
    ensures var l := ConvertRow(row);
      l.r == "" && l.p == "" && l.c == "" && l.n == "" && l.s == ConvertSleepTime(row.sleep)
    ensures ConvertRowWrapped(row) == ConvertRow(row).(s := ConvertSleepTimeWrapped(row.sleep))
    ensures !(row.sleep.Hours? && row.sleep.negative && (row.sleep.minutes == 0 || row.sleep.minutes > 1440)) ==>
      ConvertRowWrapped(row) == ConvertRow(row)
  {
    if !(row.sleep.Hours? && row.sleep.negative && (row.sleep.minutes == 0 || row.sleep.minutes > 1440)) {
      WrappedAgrees(row.sleep);
    }
  }

  /** Importing a converted row: a row whose date had no '-' is skipped; a
      stored row carries no rating, steps, calories or note, the clock time
      the offset denotes when that offset lies within a day of midnight, and
      no sleep time for a missing cell or a negative offset that rounds to no
      minutes. */
  lemma ConvertedRowImport(row: LegacyRow)
    ensures var o := ParseRow(Template, AsCsvRow(ConvertRow(row)));
      (ConvertRow(row).d == "" ==> o == Skipped)
      && (o.Parsed? ==> o.fields.rating.None? && o.fields.steps.None? && o.fields.caloriesIntake.None? && o.fields.note.None?)
      && (o.Parsed? && row.sleep.Hours? && (row.sleep.negative ==> 1 <= row.sleep.minutes <= 1440)
          && (!row.sleep.negative ==> row.sleep.minutes < 1440) ==>
            o.fields.sleepTime.Some? && SecondsOfDay(o.fields.sleepTime.value) == MinuteOfDay(row.sleep) * 60)
      && (o.Parsed? && !row.sleep.Hours? ==> o.fields.sleepTime.None?)
  {
    var l := ConvertRow(row);
    TemplateLineImport(l);
    ConvertedSleepImport(row);
    var o := ParseRow(Template, AsCsvRow(l));
    assert o.Parsed? ==> o.fields.sleepTime == ParseSleepTime(l.s);
  }

  /** A row whose offset is negative but rounds to no minutes is written with
      the sleep cell "24:00", and the importer stores it without a sleep
      time. */
  lemma NegativeZeroRowLosesSleep(row: LegacyRow)
    requires row.sleep == Hours(true, 0)
    ensures ConvertRow(row).s == "24:00"
    ensures var o := ParseRow(Template, AsCsvRow(ConvertRow(row)));
      o.Parsed? ==> o.fields.sleepTime.None?
  {
    TemplateLineImport(ConvertRow(row));
    ConvertedSleepImport(row);
  }

  /** Importing a row converted with the corrected mapping: every negative
      offset, and every non-negative one below a day, is stored with the
      clock time it denotes. */
  lemma WrappedRowImport(row: LegacyRow)
    requires row.sleep.Hours? && (row.sleep.negative || row.sleep.minutes < 1440)
    ensures var o := ParseRow(Template, AsCsvRow(ConvertRowWrapped(row)));
      (ConvertRowWrapped(row).d == "" ==> o == Skipped)
      && (o.Parsed? ==> o.fields.sleepTime.Some? && SecondsOfDay(o.fields.sleepTime.value) == MinuteOfDay(row.sleep) * 60
                        && o.fields.rating.None? && o.fields.steps.None? && o.fields.caloriesIntake.None? && o.fields.note.None?)
  {
    TemplateLineImport(ConvertRowWrapped(row));
    if row.sleep.negative {
      WrappedBeforeMidnightIsClock(row.sleep);
    } else {
      WrappedAgrees(row.sleep);
      OffsetIsClock(row.sleep);
    }
  }

  /** `convert_sleep_data`'s loop: one template line per legacy row, in order. */
  method ConvertSleepData(rows: seq<LegacyRow>) returns (lines: seq<TemplateLine>)
    ensures lines == MapSeq(ConvertRow, rows)
    ensures |lines| == |rows|
    ensures forall i :: 0 <= i < |rows| ==> lines[i] == ConvertRow(rows[i])
  {
    lines := [];
    var i := 0;
    while i < |rows|
      invariant 0 <= i <= |rows|
      invariant lines == MapSeq(ConvertRow, rows[..i])
    {
      MapSeqStep(ConvertRow, rows, i);
      lines := lines + [ConvertRow(rows[i])];
      i := i + 1;
    }
    MapSeqWhole(ConvertRow, rows);
    MapSeqIndex(ConvertRow, rows);
  }
}
