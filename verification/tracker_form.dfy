/** The logic of the tracker's main window (`DailyTrackerApp` in main.py):
    how a stored record is shown in the table and in the entry form, how
    the form is validated before it reaches the store, and when the table
    is filtered and silently refreshed. Widgets, dialogs and layout are
    not modelled; what a widget holds enters as a parameter. */
module TrackerForm {
  import opened Common
  import opened Text
  import opened Strptime
  import opened RecordStore
  import opened ImportExport

  // ---------------------------------------------------------------------
  // Sleep time as the driver delivers it
  // ---------------------------------------------------------------------

  /** The shapes a `sleep_time` value can arrive in, which the source tells
      apart with `hasattr`: a `time` object, a `timedelta` (what the MySQL
      driver returns for `TIME`, as whole seconds) or a string. */
  datatype SleepValue = ClockTime(t: TimeOfDay) | Duration(seconds: int) | Text(s: string)

  /** `if record[2]:` — a `time` is always truthy, a zero `timedelta` and
      an empty string are not. */
  predicate TruthySleep(v: Option<SleepValue>) {
    v.Some? &&
    match v.value
    case ClockTime(_) => true
    case Duration(secs) => secs != 0
    case Text(s) => s != ""
  }

  /** The value the driver hands back for a stored sleep time. */
  function Delivered(t: Option<TimeOfDay>): Option<SleepValue> {
    if t.Some? then Some(Duration(SecondsOfDay(t.value))) else None
  }

  /** `f"{hours:02d}:{minutes:02d}"` with `hours = s // 3600` and
      `minutes = (s % 3600) // 60`; Python's floor division and Dafny's
      agree for the positive divisors used. */
  function DurationShown(secs: int): (s: string)
    ensures |s| >= 5
  {
    Pad2ParsesBack(secs / 3600);
    Pad2ParsesBack(secs % 3600 / 60);
    Pad2(secs / 3600) + ":" + Pad2(secs % 3600 / 60)
  }

  /** A stored time of day shown through its `timedelta` is its `%H:%M`. */
  lemma DurationShownIsClock(t: TimeOfDay)
    requires ValidTime(t)
    ensures DurationShown(SecondsOfDay(t)) == ClockText(t)
  {
    SecondsOfDayParts(t);
  }

  /** `%H:%M` of a valid time is read back by `strptime(..., '%H:%M')` as
      the same hour and minute, with no surrounding white space to strip. */
  lemma ClockTextParses(t: TimeOfDay)
    requires ValidTime(t)
    ensures Strip(ClockText(t)) == ClockText(t)
    ensures ParseTimeHM(ClockText(t)) == Some(TimeOfDay(t.hour, t.minute, 0))
  {
    ClockRoundTrip(t.hour, t.minute);
    Pad2Field(t.hour);
    Pad2Field(t.minute);
    var s := ClockText(t);
    assert s[0] == Pad2(t.hour)[0] && s[|s| - 1] == Pad2(t.minute)[1];
    StripTrimmed(s);
  }

  /** A text containing the separator splits into at least two pieces. */
  lemma SeparatorSplits(s: string, sep: char)
    requires sep in s
    ensures |Split(s, sep)| >= 2
  {
    JoinSplit(s, sep);
  }

  /** The table's handling of a string sleep time: one containing ':' is
      re-padded from the integers before the first two colons; one without,
      or one whose parts `int()` rejects, is shown as it is. */
  function ReformattedText(s: string): (r: string)
    ensures ':' !in s ==> r == s
    ensures r == "" <==> s == ""
  {
    if ':' !in s then s
    else
      SeparatorSplits(s, ':');
      var parts := Split(s, ':');
      match (ParseInt(parts[0]), ParseInt(parts[1]))
      case (Some(h), Some(m)) =>
        Pad2ParsesBack(h);
        Pad2(h) + ":" + Pad2(m)
      case _ => s
  }

  /** The sleep cell of the table (main.py, `_update_table_with_records`). */
  function TableSleepText(v: Option<SleepValue>): (r: string)
    requires v.Some? && v.value.ClockTime? ==> ValidTime(v.value.t)
    ensures r == "" <==> !TruthySleep(v)
  {
    if !TruthySleep(v) then ""
    else match v.value
      case ClockTime(t) => ClockText(t)
      case Duration(secs) => DurationShown(secs)
      case Text(s) => ReformattedText(s)
  }

  /** The sleep field of the entry form (`_load_data_for_date`): as in the
      table, except that a string is put in unchanged. */
  function FormSleepText(v: Option<SleepValue>): (r: string)
    requires v.Some? && v.value.ClockTime? ==> ValidTime(v.value.t)
    ensures r == "" <==> !TruthySleep(v)
    ensures TruthySleep(v) && !v.value.Text? ==> r == TableSleepText(v)
  {
    if !TruthySleep(v) then ""
    else match v.value
      case ClockTime(t) => ClockText(t)
      case Duration(secs) => DurationShown(secs)
      case Text(s) => s
  }

  /** The three representations of one stored time agree in the table: the
      `time` object, its `timedelta`, and `str()` of that `timedelta`
      (`H:MM:SS`) are all shown as its `%H:%M`. */
  lemma SleepShapesAgree(t: TimeOfDay)
    requires ValidTime(t) && SecondsOfDay(t) != 0
    ensures TableSleepText(Some(ClockTime(t))) == ClockText(t)
    ensures TableSleepText(Some(Duration(SecondsOfDay(t)))) == ClockText(t)
    ensures TableSleepText(Some(Text(TimedeltaText(SecondsOfDay(t))))) == ClockText(t)
  {
    DurationShownIsClock(t);
    TimedeltaTextReformatted(t);
  }

  /** `str()` of the `timedelta` is re-padded to the time's `%H:%M`. */
  lemma TimedeltaTextReformatted(t: TimeOfDay)
    requires ValidTime(t)
    ensures ReformattedText(TimedeltaText(SecondsOfDay(t))) == ClockText(t)
  {
    TimedeltaPieces(t);
  }

  /** `str(timedelta)` of a time of day splits at ':' into hour, minute and
      second, each read back by `int()`. */
  lemma TimedeltaPieces(t: TimeOfDay)
    requires ValidTime(t)
    ensures var s := TimedeltaText(SecondsOfDay(t));
      ':' in s && |Split(s, ':')| == 3
      && ParseInt(Split(s, ':')[0]) == Some(t.hour)
      && ParseInt(Split(s, ':')[1]) == Some(t.minute)
  {
    var h, m, sec := NatToString(t.hour), Pad2(t.minute), Pad2(t.second);
    NatToStringDigits(t.hour);
    Pad2Field(t.minute);
    Pad2Field(t.second);
    DigitsExclude(h, ':');
    DigitsExclude(m, ':');
    DigitsExclude(sec, ':');
    SplitThree(h, m, sec, ':');
    DigitsParse(h);
    DigitsParse(m);
    SecondsOfDayParts(t);
    var s := TimedeltaText(SecondsOfDay(t));
    assert s == h + [':'] + m + [':'] + sec;
    assert s[|h|] == ':';
  }

  // ---------------------------------------------------------------------
  // Table cells
  // ---------------------------------------------------------------------

  /** A note is shown whole up to 50 characters; a longer one as its first
      50 characters followed by "...". None is shown as ''. */
  function NoteShown(note: Option<string>): (s: string)
    ensures |s| <= 53
    ensures s == "" <==> !TruthyText(note)
    ensures note.Some? && |note.value| <= 50 ==> s == note.value
    ensures note.Some? && |note.value| > 50 ==> |s| == 53 && s[..50] == note.value[..50] && s[50..] == "..."
  {
    if note.Some? && note.value != "" && |note.value| > 50 then note.value[..50] + "..."
    else if note.Some? then note.value
    else ""
  }

  /** `format(Decimal, '.1f')`: a magnitude in hundredths rounded to tenths,
      a tie going to the even neighbour (the decimal module's default). */
  function RoundTenths(a: nat): (t: nat)
    ensures -5 <= 10 * t - a <= 5
    ensures 10 * t - a == 5 || 10 * t - a == -5 ==> t % 2 == 0
  {
    var q, r := a / 10, a % 10;
    if r > 5 || (r == 5 && q % 2 == 1) then q + 1 else q
  }

  /** The text of a number of tenths: whole part, '.', one digit. */
  function TenthsText(t: nat): string {
    NatToString(t / 10) + "." + [DigitChar(t % 10)]
  }

  /** `f"{record[3]:.1f}" if record[3] else ''` for the `DECIMAL(5,2)`
      weight; a negative weight keeps its sign, as `Decimal` does. */
  function WeightShown(v: Option<real>): (s: string)
    ensures s == "" <==> !TruthyReal(v)
  {
    if TruthyReal(v) then
      var c := (v.value * 100.0).Floor;
      (if c < 0 then "-" else "") + TenthsText(RoundTenths(if c < 0 then -c else c))
    else ""
  }

  /** The weight shown reads back as a number within 0.05 of the stored
      weight. */
  lemma WeightShownNearest(w: real)
    requires w != 0.0 && IsHundredths(w)
    ensures ParseFloat(WeightShown(Some(w))).Some?
    ensures -0.05 <= ParseFloat(WeightShown(Some(w))).value - w <= 0.05
  {
    var c := (w * 100.0).Floor;
    var a: nat := if c < 0 then -c else c;
    var t := RoundTenths(a);
    var sign := if c < 0 then "-" else "";
    assert WeightShown(Some(w)) == sign + TenthsText(t);
    TenthsTextAsFloat(sign, t);
    RoundingGap(c, a, t);
  }

  /** The shown number differs from the hundredths it rounds by at most
      five hundredths. */
  lemma RoundingGap(c: int, a: nat, t: nat)
    requires a == (if c < 0 then -c else c) && -5 <= 10 * t - a <= 5
    ensures var v := if c < 0 then -(t as real / 10.0) else t as real / 10.0;
      -0.05 <= v - c as real / 100.0 <= 0.05
  {
  }

  /** A signed tenths text is read by `float()` as its value. */
  lemma TenthsTextAsFloat(sign: string, t: nat)
    requires sign == "-" || sign == ""
    ensures ParseFloat(sign + TenthsText(t)) == Some(if sign == "-" then -(t as real / 10.0) else t as real / 10.0)
  {
    TenthsTextValue(t);
    SignedAsFloat(sign, TenthsText(t), t as real / 10.0);
  }

  /** The tenths text is an unsigned decimal literal of value `t / 10`. */
  lemma TenthsTextValue(t: nat)
    ensures var u := TenthsText(t);
      |u| > 0 && IsDigit(u[0]) && IsDigit(u[|u| - 1]) && ParseUnsignedDecimal(u) == Some(t as real / 10.0)
  {
    var ip, fp := NatToString(t / 10), [DigitChar(t % 10)];
    NatToStringDigits(t / 10);
    assert AllDigits(fp) && DigitsValue(fp) == t % 10;
    PointAsDecimal(ip, fp);
    PointTextEnds(ip, fp);
    assert DecimalValue(ip, fp) == (t / 10) as real + (t % 10) as real / 10.0 by {
      assert Shift(t % 10, 1) == Shift(t % 10, 0) / 10.0;
    }
  }

  /** `date.strftime('%m-%d')`. */
  function DayText(d: Date): string {
    Pad2(d.month) + "-" + Pad2(d.day)
  }

  /** The eight cells the table shows for a fetched record. */
  function DisplayRow(r: Record): (row: seq<string>)
    ensures |row| == 8
    ensures row[0] == IntText(r.id)
    ensures row[2] == "" <==> !TruthyTime(r.fields.sleepTime)
    ensures row[3] == "" <==> !TruthyReal(r.fields.weight)
    ensures row[4] == "" <==> !TruthyInt(r.fields.rating)
    ensures row[5] == "" <==> !TruthyInt(r.fields.steps)
    ensures row[6] == "" <==> !TruthyInt(r.fields.caloriesIntake)
    ensures row[7] == "" <==> !TruthyText(r.fields.note)
  {
    var f := r.fields;
    var sleep := TableSleepText(Delivered(f.sleepTime));
    assert sleep == "" <==> !TruthyTime(f.sleepTime);
    [IntText(r.id), DayText(r.date), sleep, WeightShown(f.weight),
     IntCell(f.rating), IntCell(f.steps), IntCell(f.caloriesIntake), NoteShown(f.note)]
  }

  // ---------------------------------------------------------------------
  // The entry form
  // ---------------------------------------------------------------------

  /** What the entry widgets hold: the picked date and the text of each
      field. */
  datatype Form = Form(date: Date, sleep: string, weight: string, rating: string,
                       steps: string, calories: string, note: string)

  /** `_load_data_for_date`: the form filled from the record stored for the
      date, or cleared apart from the date when there is none. Falsy values
      leave their field empty; numbers are written with `str()`. */
  function FormFor(date: Date, rec: Option<Record>): (r: Form)
    requires rec.Some? ==> rec.value.fields.weight.Some? ==> IsHundredths(rec.value.fields.weight.value)
    ensures r.date == date
    ensures rec.None? ==> r.sleep == r.weight == r.rating == r.steps == r.calories == r.note == ""
    ensures rec.Some? ==> var f := rec.value.fields;
      && (r.sleep == "" <==> !TruthySleep(Delivered(f.sleepTime)))
      && (r.weight == "" <==> !TruthyReal(f.weight))
      && (r.rating == "" <==> !TruthyInt(f.rating))
      && (r.steps == "" <==> !TruthyInt(f.steps))
      && (r.calories == "" <==> !TruthyInt(f.caloriesIntake))
      && (r.note == "" <==> !TruthyText(f.note))
      && (r.note != "" ==> f.note == Some(r.note))
  {
    if rec.None? then Form(date, "", "", "", "", "", "")
    else
      var f := rec.value.fields;
      Form(date, FormSleepText(Delivered(f.sleepTime)), WeightCell(f.weight), IntCell(f.rating),
           IntCell(f.steps), IntCell(f.caloriesIntake), NoteCell(f.note))
  }

  /** What a numeric entry yields: nothing (blank), a number, or the
      `ValueError` that aborts the submit. */
  datatype Entry<T> = Empty | Entered(value: T) | Rejected

  function AsOption<T>(e: Entry<T>): Option<T> {
    if e.Entered? then Some(e.value) else None
  }

  /** The entry that reads back as the given value. */
  function EntryOf<T>(o: Option<T>): Entry<T> {
    if o.Some? then Entered(o.value) else Empty
  }

  /** `_parse_float_input`. */
  function FloatEntry(text: string): (e: Entry<real>)
    ensures e.Empty? <==> Strip(text) == ""
  {
    var t := Strip(text);
    if t == "" then Empty
    else match ParseFloat(t)
      case Some(x) => Entered(x)
      case None => Rejected
  }

  /** `_parse_int_input`: `int(float(text))`, truncating toward zero. */
  function IntEntry(text: string): (e: Entry<int>)
    ensures e.Empty? <==> Strip(text) == ""
    ensures e.Rejected? <==> FloatEntry(text).Rejected?
  {
    match FloatEntry(text)
    case Empty => Empty
    case Entered(x) => Entered(Truncate(x))
    case Rejected => Rejected
  }

  /** The sleep entry: blank is None, anything else must be `HH:MM`. */
  function SleepEntry(text: string): (e: Entry<TimeOfDay>)
    ensures e.Entered? ==> ValidTime(e.value) && e.value.second == 0
  {
    var t := Strip(text);
    if t == "" then Empty
    else match ParseTimeHM(t)
      case Some(tm) => Entered(tm)
      case None => Rejected
  }

  /** The form reads a number as the importer does, except that text the
      importer silently drops to None is refused here. */
  lemma EntriesMatchImporter(text: string)
    ensures FloatEntry(text) == Empty <==> Strip(text) == ""
    ensures FloatEntry(text).Entered? <==> ParseOptionalFloat(Some(text)).Some?
    ensures FloatEntry(text).Entered? ==> FloatEntry(text).value == ParseOptionalFloat(Some(text)).value
    ensures IntEntry(text).Entered? <==> ParseOptionalInt(Some(text)).Some?
    ensures IntEntry(text).Entered? ==> IntEntry(text).value == ParseOptionalInt(Some(text)).value
    ensures IntEntry(text).Empty? <==> FloatEntry(text).Empty?
  {
  }

  /** Why a submit is refused before anything reaches the store. */
  datatype Refusal = BadSleepTime | BadNumber(column: Column) | RatingOutOfRange

  datatype Validation = Refused(reason: Refusal) | Accepted(fields: Fields)

  /** A rating the form lets through: none, or 1 to 10. */
  predicate RatingAllowed(r: Option<int>) {
    r.None? || 1 <= r.value <= 10
  }

  /** The checks of `_submit_record`, in the source's order: the sleep time,
      then weight, rating, steps and calories, then the rating's range; the
      note is stripped and a blank one stored as None. */
  function ValidateForm(form: Form): (v: Validation)
    ensures v.Accepted? ==> RatingAllowed(v.fields.rating)
    ensures v.Accepted? && v.fields.sleepTime.Some? ==> ValidTime(v.fields.sleepTime.value) && v.fields.sleepTime.value.second == 0
    ensures v.Accepted? ==> (v.fields.note.None? <==> Strip(form.note) == "")
    ensures v.Accepted? && v.fields.note.Some? ==> v.fields.note.value == Strip(form.note)
  {
    Decide(SleepEntry(form.sleep), FloatEntry(form.weight), IntEntry(form.rating),
           IntEntry(form.steps), IntEntry(form.calories), Strip(form.note))
  }

  /** The decision `_submit_record` takes once every field has been read:
      the first refused entry, in the order the source reads them, refuses
      the submit. */
  function Decide(sleep: Entry<TimeOfDay>, weight: Entry<real>, rating: Entry<int>,
                  steps: Entry<int>, calories: Entry<int>, note: string): (v: Validation)
    ensures v.Accepted? ==> RatingAllowed(v.fields.rating) && v.fields.sleepTime == AsOption(sleep)
    ensures v.Accepted? ==> (v.fields.note.None? <==> note == "")
    ensures v.Accepted? && v.fields.note.Some? ==> v.fields.note.value == note
  {
    if sleep.Rejected? then Refused(BadSleepTime)
    else if weight.Rejected? then Refused(BadNumber(WeightColumn))
    else if rating.Rejected? then Refused(BadNumber(RatingColumn))
    else if steps.Rejected? then Refused(BadNumber(StepsColumn))
    else if calories.Rejected? then Refused(BadNumber(CaloriesIntakeColumn))
    else if !RatingAllowed(AsOption(rating)) then Refused(RatingOutOfRange)
    else
      Accepted(Fields(AsOption(sleep), AsOption(weight), AsOption(rating), AsOption(steps), AsOption(calories),
                      if note == "" then None else Some(note)))
  }

  /** Entries that read back as the values of `g`, with an allowed rating
      and `g`'s note, are accepted with exactly `g`; entries that are
      accepted read back as the values accepted. */
  lemma DecideAccepts(sleep: Entry<TimeOfDay>, weight: Entry<real>, rating: Entry<int>,
                      steps: Entry<int>, calories: Entry<int>, note: string, g: Fields)
    ensures Decide(sleep, weight, rating, steps, calories, note) == Accepted(g) <==>
      && sleep == EntryOf(g.sleepTime) && weight == EntryOf(g.weight)
      && rating == EntryOf(g.rating) && steps == EntryOf(g.steps)
      && calories == EntryOf(g.caloriesIntake)
      && RatingAllowed(g.rating)
      && g.note == (if note == "" then None else Some(note))
  {
  }

  /** A form is accepted exactly when no entry is refused and the rating is
      in range. */
  lemma AcceptedIff(form: Form)
    ensures ValidateForm(form).Accepted? <==>
      && !SleepEntry(form.sleep).Rejected?
      && !FloatEntry(form.weight).Rejected?
      && !IntEntry(form.rating).Rejected?
      && !IntEntry(form.steps).Rejected?
      && !IntEntry(form.calories).Rejected?
      && RatingAllowed(AsOption(IntEntry(form.rating)))
  {
  }

  /** An accepted form stores each value it read. */
  lemma AcceptedValues(form: Form)
    requires ValidateForm(form).Accepted?
    ensures var f := ValidateForm(form).fields;
      && f.sleepTime == AsOption(SleepEntry(form.sleep))
      && f.weight == AsOption(FloatEntry(form.weight))
      && f.rating == AsOption(IntEntry(form.rating))
      && f.steps == AsOption(IntEntry(form.steps))
      && f.caloriesIntake == AsOption(IntEntry(form.calories))
  {
    DecideValues(SleepEntry(form.sleep), FloatEntry(form.weight), IntEntry(form.rating),
                 IntEntry(form.steps), IntEntry(form.calories), Strip(form.note));
  }

  /** Accepted entries are stored as read. */
  lemma DecideValues(sleep: Entry<TimeOfDay>, weight: Entry<real>, rating: Entry<int>,
                     steps: Entry<int>, calories: Entry<int>, note: string)
    requires Decide(sleep, weight, rating, steps, calories, note).Accepted?
    ensures var f := Decide(sleep, weight, rating, steps, calories, note).fields;
      && f.sleepTime == AsOption(sleep) && f.weight == AsOption(weight)
      && f.rating == AsOption(rating) && f.steps == AsOption(steps)
      && f.caloriesIntake == AsOption(calories)
  {
  }

  /** An accepted form stores None exactly for the numeric fields left
      blank. */
  lemma BlankStoredAsNone(form: Form)
    requires ValidateForm(form).Accepted?
    ensures var f := ValidateForm(form).fields;
      && (f.weight.None? <==> Strip(form.weight) == "")
      && (f.rating.None? <==> Strip(form.rating) == "")
      && (f.steps.None? <==> Strip(form.steps) == "")
      && (f.caloriesIntake.None? <==> Strip(form.calories) == "")
  {
    AcceptedValues(form);
    AcceptedIff(form);
  }

  /** A sleep time that is not `HH:MM` refuses the submit, whatever the
      other fields hold. */
  lemma BadSleepTimeRefused(form: Form)
    requires Strip(form.sleep) != "" && ParseTimeHM(Strip(form.sleep)).None?
    ensures ValidateForm(form) == Refused(BadSleepTime)
  {
  }

  /** The values a record comes back with when it is loaded into the form
      and submitted unchanged: falsy values become None, the seconds of the
      sleep time are dropped and the note is stripped. */
  function Resubmitted(f: Fields): (g: Fields)
    ensures g.weight == Reimported(f).weight && g.note == Reimported(f).note
    ensures g.rating == Reimported(f).rating && g.steps == Reimported(f).steps
    ensures g.caloriesIntake == Reimported(f).caloriesIntake
  {
    Reimported(f).(sleepTime :=
      if TruthyTime(f.sleepTime) then Some(TimeOfDay(f.sleepTime.value.hour, f.sleepTime.value.minute, 0))
      else None)
  }

  /** Loading a stored record into the form and submitting it as it stands
      is accepted and stores the record's own values, up to the losses
      `Resubmitted` names. */
  lemma LoadThenSubmit(r: Record)
    requires r.fields.weight.Some? ==> IsHundredths(r.fields.weight.value)
    requires r.fields.sleepTime.Some? ==> ValidTime(r.fields.sleepTime.value)
    requires TruthyInt(r.fields.rating) ==> 1 <= r.fields.rating.value <= 10
    ensures ValidateForm(FormFor(r.date, Some(r))) == Accepted(Resubmitted(r.fields))
  {
    var f := r.fields;
    var g := Resubmitted(f);
    var form := FormFor(r.date, Some(r));
    assert SleepEntry(form.sleep) == EntryOf(g.sleepTime) by {
      SleepFieldResubmits(f.sleepTime);
    }
    assert FloatEntry(form.weight) == EntryOf(g.weight) by {
      WeightFieldResubmits(f.weight);
    }
    assert IntEntry(form.rating) == EntryOf(g.rating) by {
      IntFieldResubmits(f.rating);
    }
    assert IntEntry(form.steps) == EntryOf(g.steps) by {
      IntFieldResubmits(f.steps);
    }
    assert IntEntry(form.calories) == EntryOf(g.caloriesIntake) by {
      IntFieldResubmits(f.caloriesIntake);
    }
    assert g.note == if Strip(form.note) == "" then None else Some(Strip(form.note)) by {
      NoteFieldResubmits(f.note);
    }
    FormAccepted(form, g);
  }

  /** Where every entry of a form reads back as the matching value of `g`,
      the rating is allowed and the note is `g`'s, the form is accepted
      with exactly `g`. */
  lemma FormAccepted(form: Form, g: Fields)
    requires SleepEntry(form.sleep) == EntryOf(g.sleepTime)
    requires FloatEntry(form.weight) == EntryOf(g.weight)
    requires IntEntry(form.rating) == EntryOf(g.rating)
    requires IntEntry(form.steps) == EntryOf(g.steps)
    requires IntEntry(form.calories) == EntryOf(g.caloriesIntake)
    requires RatingAllowed(g.rating)
    requires g.note == if Strip(form.note) == "" then None else Some(Strip(form.note))
    ensures ValidateForm(form) == Accepted(g)
  {
    DecideAccepts(SleepEntry(form.sleep), FloatEntry(form.weight), IntEntry(form.rating),
                  IntEntry(form.steps), IntEntry(form.calories), Strip(form.note), g);
  }

  /** The note field filled from a stored note is stored back stripped, and
      as None when nothing but white space remains. */
  lemma NoteFieldResubmits(v: Option<string>)
    ensures var n := Strip(NoteCell(v));
      (if n == "" then None else Some(n)) == (if v.Some? && Strip(v.value) != "" then Some(Strip(v.value)) else None)
  {
    assert Strip("") == "";
  }

  /** The sleep field filled from a stored time reads back as its hour and
      minute; an empty one as None. */
  lemma SleepFieldResubmits(v: Option<TimeOfDay>)
    requires v.Some? ==> ValidTime(v.value)
    ensures SleepEntry(FormSleepText(Delivered(v))) ==
      EntryOf(if TruthyTime(v) then Some(TimeOfDay(v.value.hour, v.value.minute, 0)) else None)
  {
    if TruthyTime(v) {
      DurationShownIsClock(v.value);
      ClockTextParses(v.value);
    } else {
      assert FormSleepText(Delivered(v)) == "" && Strip("") == "";
    }
  }

  /** The weight field filled with `str(weight)` reads back as the weight. */
  lemma WeightFieldResubmits(v: Option<real>)
    requires v.Some? ==> IsHundredths(v.value)
    ensures FloatEntry(WeightCell(v)) == EntryOf(if TruthyReal(v) then v else None)
  {
    WeightCellReadBack(v);
    EntriesMatchImporter(WeightCell(v));
  }

  /** An integer field filled with `str(n)` reads back as `n`. */
  lemma IntFieldResubmits(v: Option<int>)
    ensures IntEntry(IntCell(v)) == EntryOf(if TruthyInt(v) then v else None)
  {
    IntCellReadBack(v);
    EntriesMatchImporter(IntCell(v));
  }

  // ---------------------------------------------------------------------
  // Filtering
  // ---------------------------------------------------------------------

  /** `filter_mode_mapping.get(mode, "year")`: the combobox's display name
      to the filter kind, anything unknown (the initial "year" included)
      counting as a filter by year. */
  function ModeValue(mode: string): (m: string)
    ensures m == "year" || m == "year_month" || m == "date_range"
    ensures m == "year_month" <==> mode == "按年月"
    ensures m == "date_range" <==> mode == "按日期范围"
    ensures mode != "按年月" && mode != "按日期范围" ==> m == "year"
  {
    if mode == "按年份" then "year"
    else if mode == "按年月" then "year_month"
    else if mode == "按日期范围" then "date_range"
    else "year"
  }

  /** The filter widgets' contents when "apply" is pressed. */
  datatype FilterInputs = FilterInputs(mode: string, yearText: string, monthText: string, start: Date, end: Date)

  /** What `_apply_filter` decides to do. */
  datatype FilterPlan =
    | NotANumber                                  // `int()` raised ValueError
    | StartAfterEnd                               // refused date range
    | YearMonthQuery(year: int, month: Option<int>)
    | RangeQuery(start: Date, end: Date)

  /** The decision, mode by mode: a year filter queries the parsed year
      with no month; a year-month filter queries the parsed year and month,
      and is refused when either text is not a number; a date-range filter
      makes no query when its end lies before its start and otherwise
      queries exactly that range. */
  function PlanFilter(inputs: FilterInputs): (p: FilterPlan)
    ensures ModeValue(inputs.mode) == "year" ==>
      p == (if ParseInt(inputs.yearText).Some? then YearMonthQuery(ParseInt(inputs.yearText).value, None) else NotANumber)
    ensures ModeValue(inputs.mode) == "year_month" ==>
      p == (if ParseInt(inputs.yearText).Some? && ParseInt(inputs.monthText).Some?
            then YearMonthQuery(ParseInt(inputs.yearText).value, Some(ParseInt(inputs.monthText).value))
            else NotANumber)
    ensures ModeValue(inputs.mode) == "date_range" ==>
      p == (if DateLt(inputs.end, inputs.start) then StartAfterEnd else RangeQuery(inputs.start, inputs.end))
    ensures p.StartAfterEnd? ==> ModeValue(inputs.mode) == "date_range" && DateLt(inputs.end, inputs.start)
    ensures p.RangeQuery? ==> ModeValue(inputs.mode) == "date_range" && DateLe(inputs.start, inputs.end)
    ensures p.NotANumber? ==> ModeValue(inputs.mode) != "date_range"
    ensures p.YearMonthQuery? ==> ParseInt(inputs.yearText) == Some(p.year)
  {
    var mode := ModeValue(inputs.mode);
    if mode == "year" then
      match ParseInt(inputs.yearText)
      case None => NotANumber
      case Some(y) => YearMonthQuery(y, None)
    else if mode == "year_month" then
      match (ParseInt(inputs.yearText), ParseInt(inputs.monthText))
      case (Some(y), Some(m)) => YearMonthQuery(y, Some(m))
      case _ => NotANumber
    else if DateLt(inputs.end, inputs.start) then StartAfterEnd
    else
      DateLeTotal(inputs.start, inputs.end);
      RangeQuery(inputs.start, inputs.end)
  }

  predicate Queries(p: FilterPlan) {
    p.YearMonthQuery? || p.RangeQuery?
  }

  /** The dates a query plan selects from the table. */
  function PlanKeys(p: FilterPlan, rows: map<Date, Row>): set<Date>
    requires Queries(p)
  {
    if p.YearMonthQuery? then
      HalfOpenKeys(rows, YearMonthBounds(p.year, p.month).0, YearMonthBounds(p.year, p.month).1)
    else RangeKeys(rows, p.start, p.end)
  }

  // ---------------------------------------------------------------------
  // The window
  // ---------------------------------------------------------------------

  class TrackerApp {
    const db: Store
    /** `current_filter_applied`. */
    var currentFilterApplied: bool
    /** The rows the table shows. */
    var table: seq<seq<string>>
    /** `current_record_id`: the id of the record loaded into the form. */
    var currentRecordId: Option<nat>

    constructor (db: Store)
      ensures this.db == db && !currentFilterApplied && table == [] && currentRecordId.None?
    {
      this.db := db;
      currentFilterApplied := false;
      table := [];
      currentRecordId := None;
    }

    /** `_update_table_with_records`: the table is cleared and one row is
        inserted per record, in order. */
    method UpdateTable(records: seq<Record>)
      modifies this
      ensures table == MapSeq(DisplayRow, records)
      ensures currentFilterApplied == old(currentFilterApplied) && currentRecordId == old(currentRecordId)
    {
      var rows: seq<seq<string>> := [];
      var i := 0;
      while i < |records|
        invariant 0 <= i <= |records|
        invariant rows == MapSeq(DisplayRow, records[..i])
        invariant unchanged(this)
      {
        MapSeqStep(DisplayRow, records, i);
        rows := rows + [DisplayRow(records[i])];
        i := i + 1;
      }
      MapSeqWhole(DisplayRow, records);
      table := rows;
    }

    /** `_apply_filter`: an unreadable year or month, or a start date after
        the end date, changes nothing; otherwise the query's records are
        shown and the filter counts as applied. */
    method ApplyFilter(inputs: FilterInputs, reachable: bool) returns (plan: FilterPlan, records: seq<Record>)
      modifies this
      ensures plan == PlanFilter(inputs)
      ensures !Queries(plan) ==> currentFilterApplied == old(currentFilterApplied) && table == old(table) && records == []
      ensures Queries(plan) ==> currentFilterApplied && table == MapSeq(DisplayRow, records)
      ensures Queries(plan) && reachable ==> Lists(records, db.rows, PlanKeys(plan, db.rows), true)
      ensures !reachable ==> records == []
      ensures currentRecordId == old(currentRecordId)
    {
      plan := PlanFilter(inputs);
      records := [];
      if Queries(plan) {
        records := ShowQuery(plan, reachable);
      }
    }

    /** The query branches of `_apply_filter`: the records of the year,
        month or date range are fetched and shown, and the filter counts as
        applied. */
    method ShowQuery(plan: FilterPlan, reachable: bool) returns (records: seq<Record>)
      requires Queries(plan)
      modifies this
      ensures currentFilterApplied && table == MapSeq(DisplayRow, records)
      ensures reachable ==> Lists(records, db.rows, PlanKeys(plan, db.rows), true)
      ensures !reachable ==> records == []
      ensures currentRecordId == old(currentRecordId)
    {
      match plan
      case YearMonthQuery(y, m) =>
        records := db.GetRecordsByYearMonth(reachable, y, m);
        UpdateTable(records);
        currentFilterApplied := true;
      case RangeQuery(s, e) =>
        records := db.GetRecordsByDateRange(reachable, s, e);
        UpdateTable(records);
        currentFilterApplied := true;
    }

    /** `_reset_filter`: the table is emptied and no filter counts as
        applied. */
    method ResetFilter()
      modifies this
      ensures !currentFilterApplied && table == [] && currentRecordId == old(currentRecordId)
    {
      table := [];
      currentFilterApplied := false;
    }

    /** `_load_data_for_date`. */
    method LoadDataForDate(date: Date, reachable: bool) returns (form: Form)
      requires db.Valid()
      requires forall d :: d in db.rows ==> db.rows[d].fields.weight.Some? ==> IsHundredths(db.rows[d].fields.weight.value)
      modifies this
      ensures reachable && date in db.rows ==>
        form == FormFor(date, Some(RecordOf(db.rows, date))) && currentRecordId == Some(db.rows[date].id)
      ensures !(reachable && date in db.rows) ==> form == FormFor(date, None) && currentRecordId.None?
      ensures currentFilterApplied == old(currentFilterApplied) && table == old(table)
    {
      var rec := db.GetRecordByDate(reachable, date);
      form := FormFor(date, rec);
      currentRecordId := if rec.Some? then Some(rec.value.id) else None;
    }

    /** The silent re-filter after a save or a delete:
        `_apply_filter(show_message=False)` when a filter is applied, nothing
        otherwise. `plan` and `records` are the re-filter's (no records when
        there is none). */
    method RefreshAfterChange(filter: FilterInputs, reachable: bool) returns (refreshed: bool, plan: FilterPlan, records: seq<Record>)
      modifies this
      ensures refreshed == old(currentFilterApplied)
      ensures plan == PlanFilter(filter)
      ensures refreshed && Queries(plan) ==> table == MapSeq(DisplayRow, records)
      ensures !(refreshed && Queries(plan)) ==> table == old(table)
      ensures refreshed && Queries(plan) && reachable ==> Lists(records, db.rows, PlanKeys(plan, db.rows), true)
      ensures !(refreshed && Queries(plan) && reachable) ==> records == []
      ensures currentFilterApplied == old(currentFilterApplied) && currentRecordId == old(currentRecordId)
    {
      refreshed := currentFilterApplied;
      plan, records := PlanFilter(filter), [];
      if refreshed {
        plan, records := ApplyFilter(filter, reachable);
      }
    }

    /** The save half of `_submit_record` for an accepted form: the day's
        values are upserted, and after a successful save the table is
        silently re-filtered exactly when a filter is applied. */
    method SaveAccepted(date: Date, f: Fields, reachable: bool, filter: FilterInputs, refreshReachable: bool)
      returns (saved: bool, refreshed: bool, plan: FilterPlan, records: seq<Record>)
      requires db.Valid() && ValidDate(date)
      modifies this, db
      ensures db.Valid() && saved == reachable
      ensures saved ==> db.rows == Upsert(old(db.rows), old(db.nextId), date, f) && db.nextId == old(db.nextId) + 1
      ensures !saved ==> db.rows == old(db.rows) && db.nextId == old(db.nextId)
      ensures refreshed <==> saved && old(currentFilterApplied)
      ensures plan == PlanFilter(filter)
      ensures refreshed && Queries(plan) ==> table == MapSeq(DisplayRow, records)
      ensures !(refreshed && Queries(plan)) ==> table == old(table)
      ensures refreshed && Queries(plan) && refreshReachable ==> Lists(records, db.rows, PlanKeys(plan, db.rows), true)
      ensures !(refreshed && Queries(plan) && refreshReachable) ==> records == []
      ensures currentFilterApplied == old(currentFilterApplied) && currentRecordId == old(currentRecordId)
    {
      refreshed, plan, records := false, PlanFilter(filter), [];
      saved := db.InsertRecord(reachable, date, f);
      if saved {
        refreshed, plan, records := RefreshAfterChange(filter, refreshReachable);
      }
    }

    /** `_submit_record`: a refused form makes no store call; an accepted
        one is saved as `SaveAccepted` describes. `plan` and `records` are
        the re-filter's (no records when there is none). */
    method SubmitRecord(form: Form, reachable: bool, filter: FilterInputs, refreshReachable: bool)
      returns (v: Validation, saved: bool, refreshed: bool, plan: FilterPlan, records: seq<Record>)
      requires db.Valid() && ValidDate(form.date)
      modifies this, db
      ensures db.Valid()
      ensures v == ValidateForm(form)
      ensures v.Refused? ==> !saved
      ensures v.Accepted? ==> saved == reachable
      ensures saved ==> db.rows == Upsert(old(db.rows), old(db.nextId), form.date, v.fields) && db.nextId == old(db.nextId) + 1
      ensures !saved ==> db.rows == old(db.rows) && db.nextId == old(db.nextId)
      ensures refreshed <==> saved && old(currentFilterApplied)
      ensures plan == PlanFilter(filter)
      ensures refreshed && Queries(plan) ==> table == MapSeq(DisplayRow, records)
      ensures !(refreshed && Queries(plan)) ==> table == old(table)
      ensures refreshed && Queries(plan) && refreshReachable ==> Lists(records, db.rows, PlanKeys(plan, db.rows), true)
      ensures !(refreshed && Queries(plan) && refreshReachable) ==> records == []
      ensures currentFilterApplied == old(currentFilterApplied) && currentRecordId == old(currentRecordId)
    {
      v := ValidateForm(form);
      if v.Refused? {
        saved, refreshed, plan, records := false, false, PlanFilter(filter), [];
        return;
      }
      saved, refreshed, plan, records := SaveAccepted(form.date, v.fields, reachable, filter, refreshReachable);
    }

    /** `_delete_record`: nothing happens without a selected row or without
        the user's confirmation; after a successful delete the table is
        silently re-filtered exactly when a filter is applied. `plan` and
        `records` are the re-filter's (no records when there is none). */
    method DeleteSelected(selected: Option<nat>, confirmed: bool, reachable: bool, filter: FilterInputs, refreshReachable: bool)
      returns (deleted: bool, refreshed: bool, plan: FilterPlan, records: seq<Record>)
      requires db.Valid()
      modifies this, db
      ensures db.Valid() && db.nextId == old(db.nextId)
      ensures deleted <==> selected.Some? && confirmed && reachable
      ensures deleted ==> db.rows == DeleteWhereId(old(db.rows), selected.value)
      ensures !deleted ==> db.rows == old(db.rows)
      ensures refreshed <==> deleted && old(currentFilterApplied)
      ensures plan == PlanFilter(filter)
      ensures refreshed && Queries(plan) ==> table == MapSeq(DisplayRow, records)
      ensures !(refreshed && Queries(plan)) ==> table == old(table)
      ensures refreshed && Queries(plan) && refreshReachable ==> Lists(records, db.rows, PlanKeys(plan, db.rows), true)
      ensures !(refreshed && Queries(plan) && refreshReachable) ==> records == []
      ensures currentFilterApplied == old(currentFilterApplied) && currentRecordId == old(currentRecordId)
    {
      deleted, refreshed := false, false;
      plan, records := PlanFilter(filter), [];
      if selected.None? || !confirmed {
        return;
      }
      deleted := db.DeleteRecord(reachable, selected.value);
      if deleted {
        refreshed, plan, records := RefreshAfterChange(filter, refreshReachable);
      }
    }
  }

  /** Every row the refreshed table shows is the display of the record in
      the same position. */
  lemma TableRowsMatchRecords(records: seq<Record>)
    ensures |MapSeq(DisplayRow, records)| == |records|
    ensures forall i :: 0 <= i < |records| ==> MapSeq(DisplayRow, records)[i] == DisplayRow(records[i])
  {
    MapSeqIndex(DisplayRow, records);
  }
}
