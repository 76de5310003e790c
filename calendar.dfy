/**
 * A small proleptic Gregorian calendar standing in for Python's naive
 * `datetime.datetime`: leap years, month lengths, day ordinals (`toordinal`,
 * 0001-01-01 is day 1), ISO weekdays (`isoweekday`, Monday 1 .. Sunday 7),
 * `replace` checks and adding whole days (`+ timedelta(days=n)`), with the
 * year range 1..9999 of the Python type.
 */
module Calendar {
  import opened Wrappers

  const MinYear := 1
  const MaxYear := 9999

  datatype DateTime = DateTime(year: int, month: int, day: int,
                               hour: int, minute: int, second: int, microsecond: int)

  predicate IsLeap(y: int) {
    y % 4 == 0 && (y % 100 != 0 || y % 400 == 0)
  }

  function DaysInMonth(y: int, m: int): (n: int)
    requires 1 <= m <= 12
    ensures 28 <= n <= 31
    ensures n == 31 <==> m in {1, 3, 5, 7, 8, 10, 12}
    ensures m == 2 ==> (n == 29 <==> IsLeap(y))
  {
    if m == 2 then (if IsLeap(y) then 29 else 28)
    else if m in {4, 6, 9, 11} then 30
    else 31
  }

  /** Every field within the range the Python type enforces. */
  predicate ValidDate(y: int, m: int, d: int) {
    MinYear <= y <= MaxYear && 1 <= m <= 12 && 1 <= d <= DaysInMonth(y, m)
  }

  predicate Valid(t: DateTime) {
    && ValidDate(t.year, t.month, t.day)
    && 0 <= t.hour < 24 && 0 <= t.minute < 60
    && 0 <= t.second < 60 && 0 <= t.microsecond < 1000000
  }

  /** Days in the years before year `y`. */
  function DaysBeforeYear(y: int): int {
    var p := y - 1;
    p * 365 + p / 4 - p / 100 + p / 400
  }

  /** Days in the months of year `y` before month `m`. */
  function DaysBeforeMonth(y: int, m: int): int
    requires 1 <= m <= 12
  {
    if m == 1 then 0 else DaysBeforeMonth(y, m - 1) + DaysInMonth(y, m - 1)
  }

  /** `date.toordinal()`. */
  function Ordinal(t: DateTime): int
    requires 1 <= t.month <= 12
  {
    DaysBeforeYear(t.year) + DaysBeforeMonth(t.year, t.month) + t.day
  }

  /** `date.isoweekday()`: 0001-01-01 (ordinal 1) is a Monday. */
  function IsoWeekday(t: DateTime): (w: int)
    requires 1 <= t.month <= 12
    ensures 1 <= w <= 7
  {
    (Ordinal(t) + 6) % 7 + 1
  }

  /** The same instant one calendar day later; None past 9999-12-31 (OverflowError). */
  function NextDate(t: DateTime): Option<DateTime>
    requires Valid(t)
  {
    if t.day < DaysInMonth(t.year, t.month) then Some(t.(day := t.day + 1))
    else if t.month < 12 then Some(t.(month := t.month + 1, day := 1))
    else if t.year < MaxYear then Some(t.(year := t.year + 1, month := 1, day := 1))
    else None
  }

  /** `t + n * timedelta(days=1)`; None when the result leaves the year range. */
  function AddDays(t: DateTime, n: nat): (r: Option<DateTime>)
    requires Valid(t)
    ensures r.Some? ==> Valid(r.value)
    ensures r.Some? ==> r.value.hour == t.hour && r.value.minute == t.minute
    ensures r.Some? ==> r.value.second == t.second && r.value.microsecond == t.microsecond
    decreases n
  {
    if n == 0 then Some(t)
    else match NextDate(t)
      case None => None
      case Some(u) => AddDays(u, n - 1)
  }

  /** Lexicographic order on the calendar date alone. */
  predicate DateBefore(a: DateTime, b: DateTime) {
    a.year < b.year ||
    (a.year == b.year && (a.month < b.month ||
    (a.month == b.month && a.day < b.day)))
  }

  /** Strict chronological order of two instants. */
  predicate Before(a: DateTime, b: DateTime) {
    DateBefore(a, b) ||
    (a.year == b.year && a.month == b.month && a.day == b.day &&
     (a.hour < b.hour ||
     (a.hour == b.hour && (a.minute < b.minute ||
     (a.minute == b.minute && (a.second < b.second ||
     (a.second == b.second && a.microsecond < b.microsecond)))))))
  }

  /** Day 1 of the count: 0001-01-01 is ordinal 1 and a Monday, as `toordinal` and `isoweekday` give it. */
  lemma FirstDayMonday(t: DateTime)
    requires t.year == 1 && t.month == 1 && t.day == 1
    ensures Ordinal(t) == 1 && IsoWeekday(t) == 1
  {
  }

  /** 2008-08-31 is ordinal 733285 and a Sunday. */
  lemma August31Sunday(t: DateTime)
    requires t.year == 2008 && t.month == 8 && t.day == 31
    ensures Ordinal(t) == 733285 && IsoWeekday(t) == 7
  {
    YearsBefore2008();
    MonthsBeforeAugust2008();
  }

  lemma YearsBefore2008()
    ensures DaysBeforeYear(2008) == 733041
  {
    assert 2007 / 4 == 501 && 2007 / 100 == 20 && 2007 / 400 == 5;
  }

  lemma MonthsBeforeAugust2008()
    ensures DaysBeforeMonth(2008, 8) == 213
  {
    assert IsLeap(2008);
  }

  // ---------------------------------------------------------------------------
  // Ordinals advance by one per calendar day.

  lemma {:induction false} DaysBeforeMonthEnd(y: int)
    ensures DaysBeforeMonth(y, 12) + DaysInMonth(y, 12) == if IsLeap(y) then 366 else 365
  {
    assert DaysBeforeMonth(y, 2) == 31;
    assert DaysBeforeMonth(y, 3) == 31 + DaysInMonth(y, 2);
    assert DaysBeforeMonth(y, 12) == DaysBeforeMonth(y, 3) + 275 by {
      assert DaysBeforeMonth(y, 4) == DaysBeforeMonth(y, 3) + 31;
      assert DaysBeforeMonth(y, 5) == DaysBeforeMonth(y, 3) + 61;
      assert DaysBeforeMonth(y, 6) == DaysBeforeMonth(y, 3) + 92;
      assert DaysBeforeMonth(y, 7) == DaysBeforeMonth(y, 3) + 122;
      assert DaysBeforeMonth(y, 8) == DaysBeforeMonth(y, 3) + 153;
      assert DaysBeforeMonth(y, 9) == DaysBeforeMonth(y, 3) + 184;
      assert DaysBeforeMonth(y, 10) == DaysBeforeMonth(y, 3) + 214;
      assert DaysBeforeMonth(y, 11) == DaysBeforeMonth(y, 3) + 245;
    }
  }

  /** Moving from `p` to `p + 1` raises `p / k` exactly when `p + 1` is a multiple of `k`. */
  lemma DivStep4(p: int)
    ensures (p + 1) / 4 - p / 4 == if (p + 1) % 4 == 0 then 1 else 0
  {
  }

  lemma DivStep100(p: int)
    ensures (p + 1) / 100 - p / 100 == if (p + 1) % 100 == 0 then 1 else 0
  {
  }

  lemma DivStep400(p: int)
    ensures (p + 1) / 400 - p / 400 == if (p + 1) % 400 == 0 then 1 else 0
  {
  }

  /** Multiples of 100 are multiples of 4, and multiples of 400 are multiples of 100. */
  lemma CenturyMultiples(y: int)
    ensures y % 100 == 0 ==> y % 4 == 0
    ensures y % 400 == 0 ==> y % 100 == 0
  {
    if y % 100 == 0 {
      var k := 25 * (y / 100);
      assert y == 4 * k;
    }
    if y % 400 == 0 {
      var k := 4 * (y / 400);
      assert y == 100 * k;
    }
  }

  /** A year has 366 days exactly when it is a leap year. */
  lemma YearLength(y: int)
    ensures DaysBeforeYear(y + 1) - DaysBeforeYear(y) == if IsLeap(y) then 366 else 365
  {
    var p := y - 1;
    DivStep4(p);
    DivStep100(p);
    DivStep400(p);
    CenturyMultiples(y);
    var a, b, c := (p + 1) / 4 - p / 4, (p + 1) / 100 - p / 100, (p + 1) / 400 - p / 400;
    assert DaysBeforeYear(y + 1) - DaysBeforeYear(y) == 365 + a - b + c;
  }

  lemma {:induction false} NextDateOrdinal(t: DateTime)
    requires Valid(t) && NextDate(t).Some?
    ensures Ordinal(NextDate(t).value) == Ordinal(t) + 1
  {
    if t.day < DaysInMonth(t.year, t.month) {
    } else if t.month < 12 {
    } else {
      DaysBeforeMonthEnd(t.year);
      YearLength(t.year);
    }
  }

  /** Adding `n` days adds `n` to the ordinal. */
  lemma {:induction false} AddDaysOrdinal(t: DateTime, n: nat)
    requires Valid(t) && AddDays(t, n).Some?
    ensures Ordinal(AddDays(t, n).value) == Ordinal(t) + n
    decreases n
  {
    if n > 0 {
      NextDateOrdinal(t);
      AddDaysOrdinal(NextDate(t).value, n - 1);
    }
  }

  /** The weekday advances cyclically with the days added. */
  lemma AddDaysWeekday(t: DateTime, n: nat)
    requires Valid(t) && AddDays(t, n).Some?
    ensures IsoWeekday(AddDays(t, n).value) == (IsoWeekday(t) - 1 + n) % 7 + 1
  {
    AddDaysOrdinal(t, n);
    var o := Ordinal(t) + 6;
    assert o == (o / 7) * 7 + o % 7;
    assert o + n == (o / 7) * 7 + (o % 7 + n);
    ModShift(o % 7 + n, o / 7);
  }

  /** Adding whole weeks does not change a remainder modulo 7. */
  lemma ModShift(a: int, q: int)
    ensures (q * 7 + a) % 7 == a % 7
  {
    var b, r := a / 7, a % 7;
    assert a == b * 7 + r;
    assert q * 7 + a == (q + b) * 7 + r;
  }

  /** Adding at least one day moves to a strictly later calendar date. */
  lemma {:induction false} AddDaysLater(t: DateTime, n: nat)
    requires Valid(t) && n > 0 && AddDays(t, n).Some?
    ensures DateBefore(t, AddDays(t, n).value)
    decreases n
  {
    if n > 1 {
      AddDaysLater(NextDate(t).value, n - 1);
    }
  }

  /** Within one month, adding days adds to the day of the month. */
  lemma SameMonthDay(t: DateTime, n: nat)
    requires Valid(t) && AddDays(t, n).Some?
    requires AddDays(t, n).value.year == t.year && AddDays(t, n).value.month == t.month
    ensures AddDays(t, n).value.day == t.day + n
  {
    AddDaysOrdinal(t, n);
  }

  /** Within one day of the month's end, adding days only moves the day of the month. */
  lemma {:induction false} AddDaysInMonth(t: DateTime, n: nat)
    requires Valid(t) && t.day + n <= DaysInMonth(t.year, t.month)
    ensures AddDays(t, n) == Some(t.(day := t.day + n))
    decreases n
  {
    if n > 0 {
      AddDaysInMonth(t.(day := t.day + 1), n - 1);
    }
  }

  /** Adding `a + b` days is adding `a` days, then `b` more. */
  lemma {:induction false} AddDaysSplit(t: DateTime, a: nat, b: nat)
    requires Valid(t)
    ensures AddDays(t, a + b) ==
      match AddDays(t, a)
      case None => None
      case Some(u) => AddDays(u, b)
    decreases a
  {
    if a > 0 {
      match NextDate(t)
      case None =>
      case Some(u) =>
        AddDaysSplit(u, a - 1, b);
    }
  }

  /**
   * Running past the end of the month by at most 28 days lands in another
   * month, or past 9999-12-31.
   */
  lemma AddDaysLeaveMonth(t: DateTime, n: nat)
    requires Valid(t)
    requires DaysInMonth(t.year, t.month) < t.day + n <= DaysInMonth(t.year, t.month) + 28
    ensures AddDays(t, n).Some? ==> AddDays(t, n).value.month != t.month
    ensures AddDays(t, n).None? ==> t.year == MaxYear && t.month == 12
  {
    var dim := DaysInMonth(t.year, t.month);
    var a: nat := dim - t.day;
    var rest: nat := n - a - 1;
    AddDaysInMonth(t, a);
    var last := t.(day := dim);
    AddDaysSplit(t, a, 1 + rest);
    AddDaysSplit(last, 1, rest);
    assert AddDays(last, 1) == NextDate(last);
    match NextDate(last)
    case None =>
    case Some(first) =>
      assert first.day == 1 && first.month != t.month;
      AddDaysInMonth(first, rest);
  }

  /** The weekday advances cyclically with the day of the month. */
  lemma WeekdayShift(t: DateTime, d: nat)
    requires 1 <= t.month <= 12
    ensures IsoWeekday(t.(day := t.day + d)) == (IsoWeekday(t) - 1 + d) % 7 + 1
  {
    var o := Ordinal(t) + 6;
    assert Ordinal(t.(day := t.day + d)) + 6 == o + d;
    assert o == (o / 7) * 7 + o % 7;
    assert o + d == (o / 7) * 7 + (o % 7 + d);
    ModShift(o % 7 + d, o / 7);
  }

  /** The weekday depends on the date alone. */
  lemma WeekdayOfDate(a: DateTime, b: DateTime)
    requires 1 <= a.month <= 12
    requires a.year == b.year && a.month == b.month && a.day == b.day
    ensures IsoWeekday(a) == IsoWeekday(b)
  {
  }
}
