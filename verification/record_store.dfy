/** The `daily_records` table and the operations `DatabaseManager` runs on it
    (database_manager.py). The table is a map from the UNIQUE `date` column
    to the row's surrogate `id` and its six data columns; the MySQL server
    and driver are abstracted away. Every operation first connects; the
    outcome of that connection (and of the statement) is the `reachable`
    parameter, and when it is false the operation reports failure (`False`,
    `[]` or `None`) and leaves the table unchanged. */
module RecordStore {
  import opened Common

  /** The six nullable data columns: `sleep_time`, `weight`, `rating`,
      `steps`, `calories_intake`, `note`. */
  datatype Fields = Fields(
    sleepTime: Option<TimeOfDay>,
    weight: Option<real>,
    rating: Option<int>,
    steps: Option<int>,
    caloriesIntake: Option<int>,
    note: Option<string>)

  /** What the table stores under a date: the surrogate key and the data columns. */
  datatype Row = Row(id: nat, fields: Fields)

  /** A fetched row, `(id, date, sleep_time, weight, rating, steps, calories_intake, note, ...)`. */
  datatype Record = Record(id: nat, date: Date, fields: Fields)

  /** The columns `get_column_data` is asked for. */
  datatype Column = SleepTimeColumn | WeightColumn | RatingColumn | StepsColumn | CaloriesIntakeColumn | NoteColumn

  /** A non-null value of some column. */
  datatype Value = TimeValue(t: TimeOfDay) | RealValue(r: real) | IntValue(i: int) | TextValue(s: string)

  /** A keyword argument of `update_record`: a column and the value given for it (None included). */
  datatype Kwarg =
    | SleepTimeArg(sleepTime: Option<TimeOfDay>)
    | WeightArg(weight: Option<real>)
    | RatingArg(rating: Option<int>)
    | StepsArg(steps: Option<int>)
    | CaloriesIntakeArg(caloriesIntake: Option<int>)
    | NoteArg(note: Option<string>)

  function ColumnValue(f: Fields, c: Column): Option<Value> {
    match c
    case SleepTimeColumn => if f.sleepTime.Some? then Some(TimeValue(f.sleepTime.value)) else None
    case WeightColumn => if f.weight.Some? then Some(RealValue(f.weight.value)) else None
    case RatingColumn => if f.rating.Some? then Some(IntValue(f.rating.value)) else None
    case StepsColumn => if f.steps.Some? then Some(IntValue(f.steps.value)) else None
    case CaloriesIntakeColumn => if f.caloriesIntake.Some? then Some(IntValue(f.caloriesIntake.value)) else None
    case NoteColumn => if f.note.Some? then Some(TextValue(f.note.value)) else None
  }

  function RecordOf(rows: map<Date, Row>, d: Date): (r: Record)
    requires d in rows
  {
    Record(rows[d].id, d, rows[d].fields)
  }

  /** `a` comes before `b` in the requested date order. */
  predicate Precedes(a: Date, b: Date, ascending: bool) {
    if ascending then DateLt(a, b) else DateLt(b, a)
  }

  /** `rs` lists the rows whose dates are `keys`, each exactly as stored, strictly
      ordered by date (`ORDER BY date ASC` or `DESC`). */
  ghost predicate Lists(rs: seq<Record>, rows: map<Date, Row>, keys: set<Date>, ascending: bool) {
    && (forall i :: 0 <= i < |rs| ==> rs[i].date in keys && rs[i].date in rows && rs[i] == RecordOf(rows, rs[i].date))
    && (forall d :: d in keys ==> exists i :: 0 <= i < |rs| && rs[i].date == d)
    && (forall i, j :: 0 <= i < j < |rs| ==> Precedes(rs[i].date, rs[j].date, ascending))
  }

  /** The state of the selection loop: the rows already listed are the keys
      no longer remaining, in order, and each comes before every remaining key. */
  ghost predicate Collecting(rs: seq<Record>, rows: map<Date, Row>, keys: set<Date>, remaining: set<Date>, ascending: bool) {
    && keys <= rows.Keys && remaining <= keys
    && Lists(rs, rows, keys - remaining, ascending)
    && (forall i, x :: 0 <= i < |rs| && x in remaining ==> Precedes(rs[i].date, x, ascending))
  }

  /** Taking the first remaining key (in the requested order) keeps the loop's state. */
  lemma CollectStep(rs: seq<Record>, rows: map<Date, Row>, keys: set<Date>, remaining: set<Date>, ascending: bool, d: Date)
    requires Collecting(rs, rows, keys, remaining, ascending)
    requires d in remaining && forall x :: x in remaining && x != d ==> Precedes(d, x, ascending)
    ensures Collecting(rs + [RecordOf(rows, d)], rows, keys, remaining - {d}, ascending)
  {
    var rs', remaining' := rs + [RecordOf(rows, d)], remaining - {d};
    forall e | e in keys - remaining'
      ensures exists i :: 0 <= i < |rs'| && rs'[i].date == e
    {
      if e == d {
        assert rs'[|rs|].date == e;
      } else {
        assert e in keys - remaining;
        var i :| 0 <= i < |rs| && rs[i].date == e;
        assert rs'[i].date == e;
      }
    }
  }

  /** The pairs projected from the ascending listing of the rows whose column
      is not null are exactly those rows' values, in date order. */
  lemma ColumnSeries(rs: seq<Record>, rows: map<Date, Row>, c: Column, series: seq<(Date, Value)>)
    requires Lists(rs, rows, set d | d in rows && ColumnValue(rows[d].fields, c).Some?, true)
    requires |series| == |rs|
    requires forall k :: 0 <= k < |rs| ==> series[k] == (rs[k].date, ColumnValue(rs[k].fields, c).value)
    ensures forall i :: 0 <= i < |series| ==>
              series[i].0 in rows && ColumnValue(rows[series[i].0].fields, c) == Some(series[i].1)
    ensures forall d :: d in rows && ColumnValue(rows[d].fields, c).Some? ==>
              exists i :: 0 <= i < |series| && series[i].0 == d
    ensures forall i, j :: 0 <= i < j < |series| ==> DateLt(series[i].0, series[j].0)
  {
    var keys := set d | d in rows && ColumnValue(rows[d].fields, c).Some?;
    forall d | d in rows && ColumnValue(rows[d].fields, c).Some?
      ensures exists k :: 0 <= k < |series| && series[k].0 == d
    {
      assert d in keys;
      var k :| 0 <= k < |rs| && rs[k].date == d;
      assert series[k].0 == d;
    }
  }

  /** Python's `str.upper` on the characters that can spell "ASC": ASCII
      letters, and the two non-ASCII letters whose capitals are ASCII
      (dotless i and long s). */
  function UpperChar(c: char): char {
    if 'a' <= c <= 'z' then (c as int - 32) as char
    else if c == 'ı' then 'I'
    else if c == 'ſ' then 'S'
    else c
  }

  function Upper(s: string): (r: string)
    ensures |r| == |s| && forall i :: 0 <= i < |s| ==> r[i] == UpperChar(s[i])
  {
    if s == [] then [] else [UpperChar(s[0])] + Upper(s[1..])
  }

  /** `order.upper() == "ASC"`: any other order string sorts descending. */
  predicate IsAscending(order: string) {
    Upper(order) == "ASC"
  }

  /** Rows with `start <= date <= end` (`BETWEEN`, inclusive). */
  function RangeKeys(rows: map<Date, Row>, start: Date, end: Date): (ks: set<Date>)
    ensures forall d :: d in ks <==> d in rows && DateLe(start, d) && DateLe(d, end)
  {
    set d | d in rows && DateLe(start, d) && DateLe(d, end)
  }

  /** Rows with `lo <= date < hi` (the half-open year/month query). */
  function HalfOpenKeys(rows: map<Date, Row>, lo: Date, hi: Date): (ks: set<Date>)
    ensures forall d :: d in ks <==> d in rows && DateLe(lo, d) && DateLt(d, hi)
  {
    set d | d in rows && DateLe(lo, d) && DateLt(d, hi)
  }

  /** The bounds `get_records_by_year_month` queries: `[y-m-01, next month)`
      for a truthy month, the whole year `[y-01-01, (y+1)-01-01)` for a
      missing or zero month. */
  function YearMonthBounds(year: int, month: Option<int>): (Date, Date)
  {
    if month.Some? && month.value != 0 then
      (Date(year, month.value, 1),
       if month.value == 12 then Date(year + 1, 1, 1) else Date(year, month.value + 1, 1))
    else (Date(year, 1, 1), Date(year + 1, 1, 1))
  }

  /** For a month 1..12 the half-open bounds hold exactly the dates of that month. */
  lemma MonthBoundsSelectMonth(year: int, month: int, d: Date)
    requires 1 <= month <= 12 && ValidDate(d)
    ensures var (lo, hi) := YearMonthBounds(year, Some(month));
      DateLe(lo, d) && DateLt(d, hi) <==> d.year == year && d.month == month
  {
  }

  /** Without a month the bounds hold exactly the dates of that year. */
  lemma YearBoundsSelectYear(year: int, month: Option<int>, d: Date)
    requires month == None || month == Some(0)
    requires ValidDate(d)
    ensures var (lo, hi) := YearMonthBounds(year, month);
      DateLe(lo, d) && DateLt(d, hi) <==> d.year == year
  {
  }

  /** A month outside 1..12 (other than 0) selects no valid date. */
  lemma OutOfRangeMonthSelectsNothing(year: int, month: int, d: Date)
    requires month != 0 && (month < 1 || month > 12) && ValidDate(d)
    ensures var (lo, hi) := YearMonthBounds(year, Some(month));
      !(DateLe(lo, d) && DateLt(d, hi))
  {
  }

  /** The effect of `insert_record(date, ...)` (`INSERT ... ON DUPLICATE KEY
      UPDATE` on all six columns): afterwards there is exactly one row for
      `d`, its data columns are `f` (None erasing a stored value), an existing
      row keeps its id, a new one takes the next id, and no other row changes. */
  function Upsert(rows: map<Date, Row>, nextId: nat, d: Date, f: Fields): (r: map<Date, Row>)
    ensures r.Keys == rows.Keys + {d}
    ensures r[d].fields == f
    ensures r[d].id == if d in rows then rows[d].id else nextId
    ensures forall e :: e in rows && e != d ==> r[e] == rows[e]
  {
    rows[d := Row(if d in rows then rows[d].id else nextId, f)]
  }

  /** Upserting the same date twice leaves the second call's fields under the
      first call's id, and every other row as it was. */
  lemma UpsertTwiceLastWins(rows: map<Date, Row>, n1: nat, n2: nat, d: Date, f1: Fields, f2: Fields)
    ensures Upsert(Upsert(rows, n1, d, f1), n2, d, f2) == Upsert(rows, n1, d, f2)
  {
  }

  /** `update_record`'s SET list: the keyword arguments whose value is not None, in order. */
  function SetClause(kwargs: seq<Kwarg>): (s: seq<Kwarg>)
    ensures |s| <= |kwargs|
  {
    if kwargs == [] then []
    else
      var last := kwargs[|kwargs| - 1];
      SetClause(kwargs[..|kwargs| - 1]) + (if IsNone(last) then [] else [last])
  }

  /** The SET list holds exactly the keyword arguments that are not None. */
  lemma {:induction false} SetClauseMembers(kwargs: seq<Kwarg>)
    ensures forall k :: k in SetClause(kwargs) ==> k in kwargs && !IsNone(k)
    ensures forall k :: k in kwargs && !IsNone(k) ==> k in SetClause(kwargs)
  {
    if kwargs != [] {
      var init := kwargs[..|kwargs| - 1];
      SetClauseMembers(init);
      assert kwargs == init + [kwargs[|kwargs| - 1]];
    }
  }

  predicate IsNone(k: Kwarg) {
    match k
    case SleepTimeArg(v) => v.None?
    case WeightArg(v) => v.None?
    case RatingArg(v) => v.None?
    case StepsArg(v) => v.None?
    case CaloriesIntakeArg(v) => v.None?
    case NoteArg(v) => v.None?
  }

  function Assign(f: Fields, k: Kwarg): Fields {
    match k
    case SleepTimeArg(v) => f.(sleepTime := v)
    case WeightArg(v) => f.(weight := v)
    case RatingArg(v) => f.(rating := v)
    case StepsArg(v) => f.(steps := v)
    case CaloriesIntakeArg(v) => f.(caloriesIntake := v)
    case NoteArg(v) => f.(note := v)
  }

  /** The row's fields after `SET col = value, ...`, applied left to right. */
  function AssignAll(f: Fields, assignments: seq<Kwarg>): Fields
    decreases |assignments|
  {
    if assignments == [] then f else AssignAll(Assign(f, assignments[0]), assignments[1..])
  }

  /** A None keyword argument never reaches the row: with only None
      arguments the SET list is empty and the row is left as it is. */
  lemma {:induction false} NoneArgumentsSkipped(f: Fields, kwargs: seq<Kwarg>)
    requires forall k :: k in kwargs ==> IsNone(k)
    ensures AssignAll(f, SetClause(kwargs)) == f
  {
    SetClauseMembers(kwargs);
    var s := SetClause(kwargs);
    assert forall i :: 0 <= i < |s| ==> s[i] in s;
  }

  /** The column a keyword argument names. */
  function ArgColumn(k: Kwarg): Column {
    match k
    case SleepTimeArg(_) => SleepTimeColumn
    case WeightArg(_) => WeightColumn
    case RatingArg(_) => RatingColumn
    case StepsArg(_) => StepsColumn
    case CaloriesIntakeArg(_) => CaloriesIntakeColumn
    case NoteArg(_) => NoteColumn
  }

  /** The value a keyword argument gives its column. */
  function ArgValue(k: Kwarg): (v: Option<Value>)
    ensures v.None? <==> IsNone(k)
  {
    match k
    case SleepTimeArg(v) => if v.Some? then Some(TimeValue(v.value)) else None
    case WeightArg(v) => if v.Some? then Some(RealValue(v.value)) else None
    case RatingArg(v) => if v.Some? then Some(IntValue(v.value)) else None
    case StepsArg(v) => if v.Some? then Some(IntValue(v.value)) else None
    case CaloriesIntakeArg(v) => if v.Some? then Some(IntValue(v.value)) else None
    case NoteArg(v) => if v.Some? then Some(TextValue(v.value)) else None
  }

  /** One assignment sets its own column to its value and leaves the others. */
  lemma AssignColumn(f: Fields, k: Kwarg, c: Column)
    ensures ColumnValue(Assign(f, k), c) == if ArgColumn(k) == c then ArgValue(k) else ColumnValue(f, c)
  {
  }

  lemma {:induction false} AssignAllAppend(f: Fields, a: seq<Kwarg>, b: seq<Kwarg>)
    ensures AssignAll(f, a + b) == AssignAll(AssignAll(f, a), b)
    decreases |a|
  {
    if a != [] {
      assert (a + b)[1..] == a[1..] + b;
      AssignAllAppend(Assign(f, a[0]), a[1..], b);
    } else {
      assert a + b == b;
    }
  }

  /** Assignments to other columns leave a column as it was. */
  lemma {:induction false} AssignAllUntouched(f: Fields, assignments: seq<Kwarg>, c: Column)
    requires forall i :: 0 <= i < |assignments| ==> ArgColumn(assignments[i]) != c
    ensures ColumnValue(AssignAll(f, assignments), c) == ColumnValue(f, c)
    decreases |assignments|
  {
    if assignments != [] {
      AssignColumn(f, assignments[0], c);
      AssignAllUntouched(Assign(f, assignments[0]), assignments[1..], c);
    }
  }

  lemma {:induction false} SetClauseAppend(a: seq<Kwarg>, b: seq<Kwarg>)
    ensures SetClause(a + b) == SetClause(a) + SetClause(b)
    decreases |b|
  {
    if b == [] {
      assert a + b == a;
    } else {
      var n := |b| - 1;
      assert (a + b)[..|a + b| - 1] == a + b[..n];
      assert b[..n] == b[..|b| - 1];
      SetClauseAppend(a, b[..n]);
    }
  }

  /** A column that no argument sets to a non-None value keeps its stored
      value. */
  lemma ClauseKeepsUnsetColumn(f: Fields, kwargs: seq<Kwarg>, c: Column)
    requires forall i :: 0 <= i < |kwargs| && ArgColumn(kwargs[i]) == c ==> IsNone(kwargs[i])
    ensures ColumnValue(AssignAll(f, SetClause(kwargs)), c) == ColumnValue(f, c)
  {
    var s := SetClause(kwargs);
    SetClauseMembers(kwargs);
    forall i | 0 <= i < |s| ensures ArgColumn(s[i]) != c {
      assert s[i] in s;
    }
    AssignAllUntouched(f, s, c);
  }

  /** A column with a non-None argument takes the value of the last such
      argument (a keyword dictionary holds at most one per column). */
  lemma ClauseSetsGivenColumn(f: Fields, kwargs: seq<Kwarg>, i: int)
    requires 0 <= i < |kwargs| && !IsNone(kwargs[i])
    requires forall j :: i < j < |kwargs| && ArgColumn(kwargs[j]) == ArgColumn(kwargs[i]) ==> IsNone(kwargs[j])
    ensures ColumnValue(AssignAll(f, SetClause(kwargs)), ArgColumn(kwargs[i])) == ArgValue(kwargs[i])
  {
    var c, before, after := ArgColumn(kwargs[i]), kwargs[..i], kwargs[i + 1..];
    assert kwargs == before + [kwargs[i]] + after;
    SetClauseAppend(before + [kwargs[i]], after);
    SetClauseAppend(before, [kwargs[i]]);
    assert SetClause([kwargs[i]]) == [kwargs[i]] by {
      assert [kwargs[i]][..0] == [];
    }
    var head := SetClause(before) + [kwargs[i]];
    AssignAllAppend(f, head, SetClause(after));
    AssignAllAppend(f, SetClause(before), [kwargs[i]]);
    AssignColumn(AssignAll(f, SetClause(before)), kwargs[i], c);
    ClauseKeepsUnsetColumn(AssignAll(f, head), after, c);
  }

  /** `update_record` touches only the data columns: no date moves and no id changes. */
  function UpdateWhereId(rows: map<Date, Row>, id: nat, assignments: seq<Kwarg>): (r: map<Date, Row>)
    ensures r.Keys == rows.Keys
    ensures forall d :: d in rows ==> r[d].id == rows[d].id
    ensures forall d :: d in rows && rows[d].id != id ==> r[d] == rows[d]
  {
    map d | d in rows :: if rows[d].id == id then Row(id, AssignAll(rows[d].fields, assignments)) else rows[d]
  }

  /** After `update_record(id, **kwargs)` every row keeps each column that
      no keyword argument sets to a non-None value. */
  lemma UpdateKeepsUnsetColumn(rows: map<Date, Row>, id: nat, kwargs: seq<Kwarg>, d: Date, c: Column)
    requires d in rows
    requires forall i :: 0 <= i < |kwargs| && ArgColumn(kwargs[i]) == c ==> IsNone(kwargs[i])
    ensures d in UpdateWhereId(rows, id, SetClause(kwargs))
    ensures ColumnValue(UpdateWhereId(rows, id, SetClause(kwargs))[d].fields, c) == ColumnValue(rows[d].fields, c)
  {
    ClauseKeepsUnsetColumn(rows[d].fields, kwargs, c);
  }

  /** After `update_record(id, **kwargs)` the row with that id holds, in
      each column given a non-None keyword argument, that argument's value. */
  lemma UpdateSetsGivenColumn(rows: map<Date, Row>, id: nat, kwargs: seq<Kwarg>, d: Date, i: int)
    requires d in rows && rows[d].id == id
    requires 0 <= i < |kwargs| && !IsNone(kwargs[i])
    requires forall j :: i < j < |kwargs| && ArgColumn(kwargs[j]) == ArgColumn(kwargs[i]) ==> IsNone(kwargs[j])
    ensures d in UpdateWhereId(rows, id, SetClause(kwargs))
    ensures ColumnValue(UpdateWhereId(rows, id, SetClause(kwargs))[d].fields, ArgColumn(kwargs[i])) == ArgValue(kwargs[i])
  {
    ClauseSetsGivenColumn(rows[d].fields, kwargs, i);
  }

  /** `DELETE FROM daily_records WHERE id = %s`. */
  function DeleteWhereId(rows: map<Date, Row>, id: nat): (r: map<Date, Row>)
    ensures forall d :: d in r <==> d in rows && rows[d].id != id
    ensures forall d :: d in r ==> r[d] == rows[d]
  {
    map d | d in rows && rows[d].id != id :: rows[d]
  }

  lemma {:induction false} FirstExists(s: set<Date>, ascending: bool)
    requires s != {}
    ensures exists m :: m in s && forall x :: x in s && x != m ==> Precedes(m, x, ascending)
  {
    if ascending {
      EarliestExists(s);
      var m :| m in s && forall x :: x in s ==> DateLe(m, x);
      assert forall x :: x in s && x != m ==> Precedes(m, x, ascending);
    } else {
      LatestExists(s);
      var m :| m in s && forall x :: x in s ==> DateLe(x, m);
      assert forall x :: x in s && x != m ==> Precedes(m, x, ascending);
    }
  }

  /** The id of the row stored under a date. */
  function IdOf(rows: map<Date, Row>, d: Date): nat
    requires d in rows
  {
    rows[d].id
  }

  /** No two dates share an id. */
  ghost predicate UniqueIds(rows: map<Date, Row>) {
    forall d, e {:trigger IdOf(rows, d), IdOf(rows, e)} ::
      d in rows && e in rows && IdOf(rows, d) == IdOf(rows, e) ==> d == e
  }

  /** An upsert gives a new date the next id, above every id in use, so ids stay unique. */
  lemma UpsertKeepsIdsUnique(rows: map<Date, Row>, nextId: nat, date: Date, f: Fields)
    requires UniqueIds(rows) && forall d :: d in rows ==> rows[d].id < nextId
    ensures UniqueIds(Upsert(rows, nextId, date, f))
  {
    var r := Upsert(rows, nextId, date, f);
    forall d, e | d in r && e in r && IdOf(r, d) == IdOf(r, e)
      ensures d == e
    {
      if d != date && e != date {
        assert IdOf(rows, d) == IdOf(rows, e);
      } else if date in rows {
        assert IdOf(rows, d) == IdOf(rows, e);
      }
    }
  }

  /** Updating and deleting never change an id, so ids stay unique. */
  lemma SameIdsKeepIdsUnique(rows: map<Date, Row>, r: map<Date, Row>)
    requires UniqueIds(rows) && r.Keys <= rows.Keys && forall d :: d in r ==> r[d].id == rows[d].id
    ensures UniqueIds(r)
  {
    forall d, e | d in r && e in r && IdOf(r, d) == IdOf(r, e)
      ensures d == e
    {
      assert IdOf(rows, d) == IdOf(rows, e);
    }
  }

  class Store {
    var rows: map<Date, Row>
    var nextId: nat

    /** Keys are real dates, ids are unique and below the AUTO_INCREMENT counter. */
    ghost predicate Valid()
      reads this
    {
      && (forall d :: d in rows ==> ValidDate(d) && rows[d].id < nextId)
      && UniqueIds(rows)
    }

    constructor ()
      ensures Valid() && rows == map[] && nextId == 1
    {
      rows := map[];
      nextId := 1;
    }

    /** `insert_record`: an upsert keyed by date. The engine draws an
        AUTO_INCREMENT value for every such statement, also when it ends by
        updating the row already stored under that date. */
    method InsertRecord(reachable: bool, date: Date, f: Fields) returns (ok: bool)
      requires Valid() && ValidDate(date)
      modifies this
      ensures Valid()
      ensures ok == reachable
      ensures ok ==> rows == Upsert(old(rows), old(nextId), date, f)
      ensures !ok ==> rows == old(rows)
      ensures nextId == if ok then old(nextId) + 1 else old(nextId)
    {
      if !reachable {
        return false;
      }
      UpsertKeepsIdsUnique(rows, nextId, date, f);
      if date !in rows {
        rows := rows[date := Row(nextId, f)];
      } else {
        rows := rows[date := Row(rows[date].id, f)];
      }
      nextId := nextId + 1;
      ok := true;
    }

    /** `update_record(record_id, **kwargs)`: the row with that id is updated
        with the SET list of non-None arguments (what each column becomes is
        `UpdateKeepsUnsetColumn` and `UpdateSetsGivenColumn`). With nothing to
        set it returns False; an id that matches no row is a successful update
        that changes nothing. */
    method UpdateRecord(reachable: bool, id: nat, kwargs: seq<Kwarg>) returns (ok: bool)
      requires Valid()
      modifies this
      ensures Valid() && nextId == old(nextId)
      ensures ok == (reachable && SetClause(kwargs) != [])
      ensures ok ==> rows == UpdateWhereId(old(rows), id, SetClause(kwargs))
      ensures !ok ==> rows == old(rows)
    {
      if !reachable {
        return false;
      }
      var assignments := BuildSetClause(kwargs);
      if assignments == [] {
        return false;
      }
      var updated := UpdateWhereId(rows, id, assignments);
      SameIdsKeepIdsUnique(rows, updated);
      assert forall d :: d in updated ==> ValidDate(d) && updated[d].id < nextId;
      rows := updated;
      ok := true;
    }

    /** The loop in `update_record` that collects `col = %s` for every
        keyword argument that is not None, in argument order. */
    static method BuildSetClause(kwargs: seq<Kwarg>) returns (assignments: seq<Kwarg>)
      ensures assignments == SetClause(kwargs)
    {
      assignments := [];
      var i := 0;
      while i < |kwargs|
        invariant 0 <= i <= |kwargs|
        invariant assignments == SetClause(kwargs[..i])
      {
        assert kwargs[..i + 1][..i] == kwargs[..i];
        if !IsNone(kwargs[i]) {
          assignments := assignments + [kwargs[i]];
        }
        i := i + 1;
      }
      assert kwargs[..i] == kwargs;
    }

    /** `delete_record(record_id)`. */
    method DeleteRecord(reachable: bool, id: nat) returns (ok: bool)
      requires Valid()
      modifies this
      ensures Valid() && nextId == old(nextId)
      ensures ok == reachable
      ensures ok ==> rows == DeleteWhereId(old(rows), id)
      ensures !ok ==> rows == old(rows)
    {
      if !reachable {
        return false;
      }
      SameIdsKeepIdsUnique(rows, DeleteWhereId(rows, id));
      rows := DeleteWhereId(rows, id);
      ok := true;
    }

    /** The rows whose dates are `keys`, in the requested date order. */
    method Collect(keys: set<Date>, ascending: bool) returns (rs: seq<Record>)
      requires keys <= rows.Keys
      ensures Lists(rs, rows, keys, ascending)
    {
      var remaining := keys;
      rs := [];
      while remaining != {}
        invariant Collecting(rs, rows, keys, remaining, ascending)
        decreases remaining
      {
        FirstExists(remaining, ascending);
        var d :| d in remaining && forall x :: x in remaining && x != d ==> Precedes(d, x, ascending);
        CollectStep(rs, rows, keys, remaining, ascending, d);
        rs := rs + [RecordOf(rows, d)];
        remaining := remaining - {d};
      }
      assert keys - remaining == keys;
    }

    /** `get_all_records(order)`: every row, ascending iff `order.upper() == "ASC"`. */
    method GetAllRecords(reachable: bool, order: string) returns (rs: seq<Record>)
      ensures !reachable ==> rs == []
      ensures reachable ==> Lists(rs, rows, rows.Keys, IsAscending(order))
    {
      if !reachable {
        return [];
      }
      rs := Collect(rows.Keys, Upper(order) == "ASC");
    }

    /** `get_all_records_desc()`: every row, newest first. */
    method GetAllRecordsDesc(reachable: bool) returns (rs: seq<Record>)
      ensures !reachable ==> rs == []
      ensures reachable ==> Lists(rs, rows, rows.Keys, false)
    {
      rs := GetAllRecords(reachable, "DESC");
    }

    /** `get_records_by_date_range(start, end)`: the rows with `start <= date <= end`, ascending. */
    method GetRecordsByDateRange(reachable: bool, start: Date, end: Date) returns (rs: seq<Record>)
      ensures !reachable ==> rs == []
      ensures reachable ==> Lists(rs, rows, RangeKeys(rows, start, end), true)
    {
      if !reachable {
        return [];
      }
      rs := Collect(RangeKeys(rows, start, end), true);
    }

    /** `get_records_by_year_month(year, month)`: the half-open month or year query, ascending. */
    method GetRecordsByYearMonth(reachable: bool, year: int, month: Option<int>) returns (rs: seq<Record>)
      ensures !reachable ==> rs == []
      ensures reachable ==>
        Lists(rs, rows, HalfOpenKeys(rows, YearMonthBounds(year, month).0, YearMonthBounds(year, month).1), true)
    {
      if !reachable {
        return [];
      }
      var (lo, hi) := YearMonthBounds(year, month);
      rs := Collect(HalfOpenKeys(rows, lo, hi), true);
    }

    /** `get_record_by_date(target)`: the row for that date, if any. */
    method GetRecordByDate(reachable: bool, target: Date) returns (r: Option<Record>)
      ensures !reachable ==> r == None
      ensures reachable ==> (r.Some? <==> target in rows)
      ensures r.Some? ==> target in rows && r.value == RecordOf(rows, target)
    {
      if !reachable || target !in rows {
        return None;
      }
      r := Some(RecordOf(rows, target));
    }

    /** `get_column_data(column)`: `(date, value)` for the rows where the column
        is not null, ascending by date. */
    method GetColumnData(reachable: bool, c: Column) returns (series: seq<(Date, Value)>)
      ensures !reachable ==> series == []
      ensures reachable ==>
        && (forall i :: 0 <= i < |series| ==>
              series[i].0 in rows && ColumnValue(rows[series[i].0].fields, c) == Some(series[i].1))
        && (forall d :: d in rows && ColumnValue(rows[d].fields, c).Some? ==>
              exists i :: 0 <= i < |series| && series[i].0 == d)
        && (forall i, j :: 0 <= i < j < |series| ==> DateLt(series[i].0, series[j].0))
    {
      if !reachable {
        return [];
      }
      var keys := set d | d in rows && ColumnValue(rows[d].fields, c).Some?;
      var rs := Collect(keys, true);
      series := ProjectColumn(rs, c);
      ColumnSeries(rs, rows, c, series);
    }

    /** The `(date, value)` pairs of fetched rows whose column is not null. */
    static method ProjectColumn(rs: seq<Record>, c: Column) returns (series: seq<(Date, Value)>)
      requires forall k :: 0 <= k < |rs| ==> ColumnValue(rs[k].fields, c).Some?
      ensures |series| == |rs|
      ensures forall k :: 0 <= k < |rs| ==> series[k] == (rs[k].date, ColumnValue(rs[k].fields, c).value)
    {
      series := [];
      var i := 0;
      while i < |rs|
        invariant 0 <= i <= |rs| && |series| == i
        invariant forall k :: 0 <= k < i ==> series[k] == (rs[k].date, ColumnValue(rs[k].fields, c).value)
      {
        series := series + [(rs[i].date, ColumnValue(rs[i].fields, c).value)];
        i := i + 1;
      }
    }
  }
}
