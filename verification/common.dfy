/** Values shared by every part of the tracker: optional values, calendar
    dates in the DATE column's order, and times of day. */
module Common {

  datatype Option<+T> = None | Some(value: T)

  /** A calendar date, as Python's `datetime.date` and the `DATE` column hold it. */
  datatype Date = Date(year: int, month: int, day: int)

  predicate IsLeapYear(y: int) {
    y % 4 == 0 && (y % 100 != 0 || y % 400 == 0)
  }

  function DaysInMonth(y: int, m: int): (n: int)
    ensures 1 <= m <= 12 ==> 28 <= n <= 31
  {
    if m == 2 then (if IsLeapYear(y) then 29 else 28)
    else if m == 4 || m == 6 || m == 9 || m == 11 then 30
    else 31
  }

  /** The dates `datetime.date` accepts: years 1..9999 of the proleptic Gregorian calendar. */
  predicate ValidDate(d: Date) {
    1 <= d.year <= 9999 && 1 <= d.month <= 12 && 1 <= d.day <= DaysInMonth(d.year, d.month)
  }

  /** Chronological (lexicographic year, month, day) order. */
  predicate DateLe(a: Date, b: Date) {
    a.year < b.year || (a.year == b.year && (a.month < b.month || (a.month == b.month && a.day <= b.day)))
  }

  predicate DateLt(a: Date, b: Date) {
    DateLe(a, b) && a != b
  }

  lemma DateLeTotal(a: Date, b: Date)
    ensures DateLe(a, b) || DateLe(b, a)
    ensures DateLe(a, b) && DateLe(b, a) ==> a == b
  {
  }

  lemma DateLeTrans(a: Date, b: Date, c: Date)
    requires DateLe(a, b)
    requires DateLe(b, c)
    ensures DateLe(a, c)
  {
  }

  /** Every finite, non-empty set of dates has an earliest member. */
  lemma {:induction false} EarliestExists(s: set<Date>)
    requires s != {}
    ensures exists m :: m in s && forall x :: x in s ==> DateLe(m, x)
  {
    var a :| a in s;
    if s == {a} {
      assert forall x :: x in s ==> x == a;
    } else {
      var rest := s - {a};
      EarliestExists(rest);
      var lo :| lo in rest && forall x :: x in rest ==> DateLe(lo, x);
      EarlierOfTwo(s, a, lo);
      var m := if DateLe(a, lo) then a else lo;
      assert m in s && forall x :: x in s ==> DateLe(m, x);
    }
  }

  /** The earlier of `a` and the earliest of the other members is the earliest of all. */
  lemma EarlierOfTwo(s: set<Date>, a: Date, lo: Date)
    requires a in s && lo in s
    requires forall x :: x in s && x != a ==> DateLe(lo, x)
    ensures var m := if DateLe(a, lo) then a else lo;
      forall x :: x in s ==> DateLe(m, x)
  {
    var m := if DateLe(a, lo) then a else lo;
    forall x | x in s
      ensures DateLe(m, x)
    {
      if x == a {
        DateLeTotal(a, lo);
      } else {
        DateLeTrans(m, lo, x);
      }
    }
  }

  /** Every finite, non-empty set of dates has a latest member. */
  lemma {:induction false} LatestExists(s: set<Date>)
    requires s != {}
    ensures exists m :: m in s && forall x :: x in s ==> DateLe(x, m)
  {
    var a :| a in s;
    if s == {a} {
      assert forall x :: x in s ==> x == a;
    } else {
      var rest := s - {a};
      LatestExists(rest);
      var hi :| hi in rest && forall x :: x in rest ==> DateLe(x, hi);
      LaterOfTwo(s, a, hi);
      var m := if DateLe(hi, a) then a else hi;
      assert m in s && forall x :: x in s ==> DateLe(x, m);
    }
  }

  /** The later of `a` and the latest of the other members is the latest of all. */
  lemma LaterOfTwo(s: set<Date>, a: Date, hi: Date)
    requires a in s && hi in s
    requires forall x :: x in s && x != a ==> DateLe(x, hi)
    ensures var m := if DateLe(hi, a) then a else hi;
      forall x :: x in s ==> DateLe(x, m)
  {
    var m := if DateLe(hi, a) then a else hi;
    forall x | x in s
      ensures DateLe(x, m)
    {
      if x == a {
        DateLeTotal(a, hi);
      } else {
        DateLeTrans(x, hi, m);
      }
    }
  }

  /** A time of day, as `datetime.time` holds it (microseconds are not used here). */
  datatype TimeOfDay = TimeOfDay(hour: int, minute: int, second: int)

  predicate ValidTime(t: TimeOfDay) {
    0 <= t.hour <= 23 && 0 <= t.minute <= 59 && 0 <= t.second <= 59
  }

  /** Seconds since midnight: the `timedelta` the MySQL driver returns for a `TIME` value. */
  function SecondsOfDay(t: TimeOfDay): int {
    t.hour * 3600 + t.minute * 60 + t.second
  }

  /** `[f(x) for x in xs]`. */
  function MapSeq<A, B>(f: A -> B, xs: seq<A>): seq<B>
  {
    if xs == [] then [] else MapSeq(f, xs[..|xs| - 1]) + [f(xs[|xs| - 1])]
  }

  /** The mapped sequence has one element per input, each the image of
      the input at the same position. */
  lemma {:induction false} MapSeqIndex<A, B>(f: A -> B, xs: seq<A>)
    ensures |MapSeq(f, xs)| == |xs|
    ensures forall i :: 0 <= i < |xs| ==> MapSeq(f, xs)[i] == f(xs[i])
  {
    if xs != [] {
      MapSeqIndex(f, xs[..|xs| - 1]);
    }
  }

  /** Mapping a prefix one element longer appends that element's image. */
  lemma MapSeqStep<A, B>(f: A -> B, xs: seq<A>, i: nat)
    requires i < |xs|
    ensures MapSeq(f, xs[..i + 1]) == MapSeq(f, xs[..i]) + [f(xs[i])]
  {
    assert xs[..i + 1][..i] == xs[..i];
  }

  /** The prefix a loop has mapped once it reaches the end is the whole
      sequence. */
  lemma MapSeqWhole<A, B>(f: A -> B, xs: seq<A>)
    ensures MapSeq(f, xs[..|xs|]) == MapSeq(f, xs)
  {
    assert xs[..|xs|] == xs;
  }
}
