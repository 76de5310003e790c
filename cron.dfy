/**
 * `CronSchedule` of cron.py: the five parsed lists of a cron line, equality
 * of schedules, and the search for the next matching minute
 * (`getNextEntry`), which descends month -> day -> hour -> minute and
 * backtracks with `NoMatch` when a level has nothing left.
 *
 * The search is written as functions over `DateTime` values. `NoMatch` is a
 * result, and so are the `ValueError`/`OverflowError` exceptions the datetime
 * arithmetic can raise; none of them is caught except `NoMatch`.
 */
module Cron {
  import opened Wrappers
  import opened Calendar
  import opened CronParse

  /** The five lists a `CronSchedule` keeps: `_minutes`, `_hours`, `_doms`, `_months`, `_dows`. */
  datatype CronSchedule = CronSchedule(minutes: seq<int>, hours: seq<int>, doms: seq<int>,
                                       months: seq<int>, dows: seq<int>)
  {
    /** Every list is as `parseCronLine` returns it. */
    predicate Valid() {
      FieldValid(minutes, 0, 59) && FieldValid(hours, 0, 23) && FieldValid(doms, 1, 31) &&
      FieldValid(months, 1, 12) && FieldValid(dows, 0, 6)
    }
  }

  /** `CronSchedule(cron_line)` of cron.py:24-31: the lists of the parsed line, or its error. */
  method NewCronSchedule(line: string) returns (r: Result<CronSchedule, CronError>)
    ensures r.Ok? <==> LineSpec(line).Ok?
    ensures r.Err? ==> r.error == LineSpec(line).error
    ensures r.Ok? ==> r.value.Valid()
    ensures r.Ok? ==> var e := LineSpec(line).value;
      r.value == CronSchedule(e.minutes, e.hours, e.doms, e.months, e.dows)
  {
    var entries := ParseCronLine(line);
    if entries.Err? {
      return Err(entries.error);
    }
    var e := entries.value;
    return Ok(CronSchedule(e.minutes, e.hours, e.doms, e.months, e.dows));
  }

  /** The right-hand side of `==`: another schedule, or any other Python object. */
  datatype Comparand = Schedule(schedule: CronSchedule) | Other

  /** `__eq__` of cron.py:33-41. */
  function Equals(a: CronSchedule, b: Comparand): (eq: bool)
    ensures eq <==> b.Schedule? && a == b.schedule
  {
    b.Schedule? &&
    a.minutes == b.schedule.minutes && a.hours == b.schedule.hours && a.doms == b.schedule.doms &&
    a.months == b.schedule.months && a.dows == b.schedule.dows
  }

  /** Two lines that parse to the same lists give equal schedules; anything else is never equal to one. */
  lemma EqualsLines(a: string, b: string)
    requires LineSpec(a).Ok? && LineSpec(b).Ok?
    ensures var ea, eb := LineSpec(a).value, LineSpec(b).value;
      var sa := CronSchedule(ea.minutes, ea.hours, ea.doms, ea.months, ea.dows);
      var sb := CronSchedule(eb.minutes, eb.hours, eb.doms, eb.months, eb.dows);
      (Equals(sa, Schedule(sb)) <==> ea == eb) && !Equals(sa, Other)
  {
  }

  // ---------------------------------------------------------------------------
  // First-match loops and the two day fields

  /** `for v in xs: if v > x: return v`: the first element above `x`, if any. */
  function FirstAbove(xs: seq<int>, x: int): (r: Option<int>)
    ensures r.Some? ==> r.value in xs && r.value > x
    ensures r.None? <==> forall k :: 0 <= k < |xs| ==> xs[k] <= x
    ensures r.Some? && StrictlyIncreasing(xs) ==> forall k :: 0 <= k < |xs| && xs[k] > x ==> r.value <= xs[k]
  {
    if xs == [] then None
    else if xs[0] > x then Some(xs[0])
    else
      assert StrictlyIncreasing(xs) ==> StrictlyIncreasing(xs[1..]);
      var r := FirstAbove(xs[1..], x);
      assert forall k :: 1 <= k < |xs| ==> xs[k] == xs[1..][k - 1];
      r
  }

  /** A strictly ascending list never falls behind its index. */
  lemma {:induction false} Spread(s: seq<int>, i: nat, j: nat)
    requires StrictlyIncreasing(s) && i <= j < |s|
    ensures s[j] - s[i] >= j - i
    decreases j - i
  {
    if i < j {
      Spread(s, i + 1, j);
    }
  }

  /** A field holds every value of its bounds exactly when it has that many elements. */
  lemma FullField(s: seq<int>, lo: int, hi: int)
    requires FieldValid(s, lo, hi)
    ensures |s| == hi - lo + 1 <==> forall v :: lo <= v <= hi ==> v in s
  {
    if |s| == hi - lo + 1 {
      forall v | lo <= v <= hi ensures v in s {
        Spread(s, 0, v - lo);
        Spread(s, v - lo, |s| - 1);
        assert s[v - lo] == v;
      }
    } else {
      if forall v :: lo <= v <= hi ==> v in s {
        assert |s| < hi - lo + 1 by {
          Spread(s, 0, |s| - 1);
        }
        MissingValue(s, lo, hi);
        assert false;
      }
    }
  }

  /** A strictly ascending list inside `[lo, hi]` that is shorter than the interval misses a value. */
  lemma MissingValue(s: seq<int>, lo: int, hi: int)
    requires FieldValid(s, lo, hi) && |s| < hi - lo + 1
    ensures exists v :: lo <= v <= hi && v !in s
  {
    var k := 0;
    while k < |s| && s[k] == lo + k
      invariant 0 <= k <= |s|
      invariant forall j :: 0 <= j < k ==> s[j] == lo + j
      decreases |s| - k
    {
      k := k + 1;
    }
    var v := lo + k;
    forall j | 0 <= j < |s| ensures s[j] != v {
      if j < k {
        assert s[j] == lo + j;
      } else {
        Spread(s, k, j);
        assert s[k] > lo + k by {
          if k > 0 { assert s[k] > s[k - 1]; }
        }
      }
    }
    assert lo <= v <= hi && v !in s;
  }

  /** ISO weekday `w` (Monday 1 .. Sunday 7) as cron numbers it (Sunday 0), i.e. `w % 7`. */
  function CronWeekday(w: int): int {
    if w == 7 then 0 else w
  }

  /**
   * The weekday list with cron's Sunday `0` moved to the end as ISO's `7`
   * (cron.py:87-91, 146-150).
   */
  function NormalisedDows(dows: seq<int>): (r: seq<int>)
    requires FieldValid(dows, 0, 6)
    ensures FieldValid(r, 1, 7) && |r| == |dows|
    ensures forall w :: 1 <= w <= 7 ==> (w in r <==> CronWeekday(w) in dows)
  {
    if dows[0] == 0 then
      var r := dows[1..] + [7];
      assert forall i :: 1 <= i < |dows| ==> dows[i] > 0 by {
        assert forall i :: 1 <= i < |dows| ==> dows[0] < dows[i];
      }
      assert forall w :: 1 <= w <= 6 ==> (w in r <==> w in dows);
      r
    else dows
  }

  /** The day-of-month field is `*`: it lists all 31 days (`len(self._doms) == 31`). */
  predicate AllDoms(s: CronSchedule) { |s.doms| == 31 }

  /** The day-of-week field lists all seven days (`len(self._dows) == 7`). */
  predicate AllDows(s: CronSchedule) { |s.dows| == 7 }

  /**
   * The day test cron's semantics calls for, and the one `_getFirstDay` and
   * the day distances of `_getNextDay` implement, on day `day` of a month
   * falling on ISO weekday `w`: with both day fields restricted a day
   * matches either one; with one of them unrestricted only the other one
   * counts.
   */
  predicate DayAdmittedOn(s: CronSchedule, day: int, w: int)
    requires s.Valid()
  {
    if AllDoms(s) && AllDows(s) then true
    else if AllDows(s) then day in s.doms
    else if AllDoms(s) then w in NormalisedDows(s.dows)
    else day in s.doms || w in NormalisedDows(s.dows)
  }

  /** The same-day test of `_getNextDay` as written (cron.py:153-155). */
  predicate LooseAdmittedOn(s: CronSchedule, day: int, w: int)
    requires s.Valid()
  {
    (AllDoms(s) && AllDows(s)) || day in s.doms || w in NormalisedDows(s.dows)
  }

  /** `DayAdmittedOn` for the date of `t`. */
  predicate DayAdmitted(s: CronSchedule, t: DateTime)
    requires s.Valid() && 1 <= t.month <= 12
  {
    DayAdmittedOn(s, t.day, IsoWeekday(t))
  }

  /** `LooseAdmittedOn` for the date of `t`. */
  predicate LooseAdmitted(s: CronSchedule, t: DateTime)
    requires s.Valid() && 1 <= t.month <= 12
  {
    LooseAdmittedOn(s, t.day, IsoWeekday(t))
  }

  /** Every field of the schedule admits `t`, with the day fields read as cron(8) reads them. */
  predicate Admits(s: CronSchedule, t: DateTime)
    requires s.Valid() && 1 <= t.month <= 12
  {
    t.minute in s.minutes && t.hour in s.hours && t.month in s.months && DayAdmitted(s, t)
  }

  /** `t` is a valid instant after `cur` with the same second and microsecond, as every search result is. */
  predicate Successor(cur: DateTime, t: DateTime) {
    Valid(t) && Before(cur, t) && t.second == cur.second && t.microsecond == cur.microsecond
  }

  /**
   * `AllDoms` and `AllDows` mean the fields admit every value; the strict
   * test implies the loose one; and with exactly one day field unrestricted
   * the loose test admits every day.
   */
  lemma DayTests(s: CronSchedule, day: int, w: int)
    requires s.Valid()
    ensures AllDoms(s) <==> forall d :: 1 <= d <= 31 ==> d in s.doms
    ensures AllDows(s) <==> forall v :: 0 <= v <= 6 ==> v in s.dows
    ensures DayAdmittedOn(s, day, w) ==> LooseAdmittedOn(s, day, w)
    ensures AllDoms(s) != AllDows(s) && 1 <= day <= 31 && 1 <= w <= 7 ==> LooseAdmittedOn(s, day, w)
  {
    FullField(s.doms, 1, 31);
    FullField(s.dows, 0, 6);
    if AllDows(s) && 1 <= w <= 7 {
      assert CronWeekday(w) in s.dows;
    }
  }

  /** The head of an ascending list is its least element. */
  lemma HeadLeast(xs: seq<int>)
    requires |xs| > 0 && StrictlyIncreasing(xs)
    ensures forall v :: v in xs ==> xs[0] <= v
  {
    forall v | v in xs ensures xs[0] <= v {
      var k :| 0 <= k < |xs| && xs[k] == v;
      if k > 0 { assert xs[0] < xs[k]; }
    }
  }

  // ---------------------------------------------------------------------------
  // The search

  /** The exceptions `datetime` raises during the search; `NoMatch` is the only one caught. */
  datatype DateError =
    | DayOutOfRange   // ValueError from `replace(day=...)`: day is out of range for month
    | YearOutOfRange  // ValueError from `replace(year=current.year + 1)`: year is out of range
    | Overflow        // OverflowError from `+ timedelta(days=n)`: date value out of range

  /** What one level of the search returns, signals or raises. */
  datatype Search = Found(t: DateTime) | NoMatch | Raised(error: DateError)

  /** Hour and minute of `a` strictly before those of `b`. */
  predicate ClockBefore(a: DateTime, b: DateTime) {
    a.hour < b.hour || (a.hour == b.hour && a.minute < b.minute)
  }

  /** `_getNextMinute` of cron.py:223-228: the least admitted minute above the current one. */
  function NextMinute(s: CronSchedule, cur: DateTime): (r: Option<DateTime>)
    requires s.Valid()
    ensures r.Some? ==> r.value == cur.(minute := r.value.minute)
    ensures r.Some? ==> r.value.minute in s.minutes && r.value.minute > cur.minute
    ensures forall m :: m in s.minutes && m > cur.minute ==> r.Some? && r.value.minute <= m
  {
    match FirstAbove(s.minutes, cur.minute)
    case None => None
    case Some(m) => Some(cur.(minute := m))
  }

  /**
   * `_getNextHour` of cron.py:210-221: the earliest admitted hour and minute
   * later on the same day.
   */
  function NextHour(s: CronSchedule, cur: DateTime): (r: Option<DateTime>)
    requires s.Valid()
    ensures r.Some? ==> r.value == cur.(hour := r.value.hour, minute := r.value.minute)
    ensures r.Some? ==> r.value.hour in s.hours && r.value.minute in s.minutes && ClockBefore(cur, r.value)
    ensures forall h, m :: h in s.hours && m in s.minutes && ClockBefore(cur, cur.(hour := h, minute := m)) ==>
      r.Some? && !ClockBefore(cur.(hour := h, minute := m), r.value)
  {
    HeadLeast(s.minutes);
    var inHour := if cur.hour in s.hours then NextMinute(s, cur) else None;
    if inHour.Some? then inHour
    else match FirstAbove(s.hours, cur.hour)
      case None => None
      case Some(h) => Some(cur.(hour := h, minute := s.minutes[0]))
  }

  /** The ISO weekday `e` days after ISO weekday `w`, for `0 <= e <= 7`. */
  function WeekdayAfter(w: int, e: int): int {
    if w + e <= 7 then w + e else w + e - 7
  }

  /** A week's shift leaves the weekday unchanged. */
  lemma WeekCycle(w: int)
    requires 1 <= w <= 7
    ensures WeekdayAfter(w, 0) == w && WeekdayAfter(w, 7) == w
  {
  }

  /**
   * `dow_distance`, the loop of cron.py:108-115 and 169-178 on weekday numbers: the days from
   * weekday `cw` to the next listed weekday later in the week, else to the
   * first listed one of the next week.
   */
  function WeekdayGap(dows: seq<int>, cw: int): (g: int)
    requires FieldValid(dows, 1, 7) && 1 <= cw <= 7
    ensures 1 <= g <= 7
    ensures WeekdayAfter(cw, g) in dows
    ensures forall e :: 1 <= e < g ==> WeekdayAfter(cw, e) !in dows
  {
    HeadLeast(dows);
    match FirstAbove(dows, cw)
    case Some(w) => w - cw
    case None =>
      dows[0] + 7 - cw
  }

  /** The weekday `d` days later within a month, as `WeekdayAfter` counts it. */
  lemma WeekdayLater(t: DateTime, d: nat)
    requires 1 <= t.month <= 12 && d <= 7
    ensures IsoWeekday(t.(day := t.day + d)) == WeekdayAfter(IsoWeekday(t), d)
  {
    WeekdayShift(t, d);
  }

  /** `dom_distance`: days from day `day` to the next listed day of the month, if any (cron.py:180-184). */
  function DomDistance(s: CronSchedule, day: int): (d: Option<int>)
    requires s.Valid()
    ensures d.Some? ==> d.value >= 1 && day + d.value in s.doms
    ensures forall dom :: dom in s.doms && dom > day ==> d.Some? && day + d.value <= dom
  {
    match FirstAbove(s.doms, day)
    case Some(dom) => Some(dom - day)
    case None => None
  }

  /**
   * `distance` of `_getNextDay` (cron.py:161-196) from day `day` falling on
   * ISO weekday `cw`: the nearer of the two distances the restricted fields give.
   */
  function DayDistance(s: CronSchedule, day: int, cw: int): (d: Option<int>)
    requires s.Valid() && 1 <= cw <= 7
  {
    if AllDoms(s) && AllDows(s) then Some(1)
    else
      var dowDist := if AllDows(s) then None else Some(WeekdayGap(NormalisedDows(s.dows), cw));
      var domDist := if AllDoms(s) then None else DomDistance(s, day);
      if dowDist.Some? && domDist.Some? then
        Some(if dowDist.value <= domDist.value then dowDist.value else domDist.value)
      else if dowDist.Some? then dowDist
      else domDist
  }

  /**
   * `_getNextDay` of cron.py:134-208. `strict` selects the same-day test:
   * false is the test as written, true the corrected one (see `DayAdmittedOn`).
   */
  function NextDay(s: CronSchedule, cur: DateTime, strict: bool): (r: Search)
    requires s.Valid() && Valid(cur)
  {
    var sameDay := if strict then DayAdmitted(s, cur) else LooseAdmitted(s, cur);
    var inDay := if sameDay then NextHour(s, cur) else None;
    if inDay.Some? then Found(inDay.value)
    else match DayDistance(s, cur.day, IsoWeekday(cur))
      case None => NoMatch
      case Some(distance) =>
        if distance <= 0 then NoMatch
        else match AddDays(cur.(hour := s.hours[0], minute := s.minutes[0]), distance)
          case None => Raised(Overflow)
          case Some(next) => if next.month != cur.month then NoMatch else Found(next)
  }

  /**
   * The day `_getFirstDay` (cron.py:66-132) picks in a month of `dim` days
   * whose 1st falls on ISO weekday `fw`; `None` is the `ValueError` that
   * `current.replace(day=self._doms[0])` raises when that day is past the
   * month's end (cron.py:82-83).
   */
  function FirstDayNumber(s: CronSchedule, fw: int, dim: int): (r: Option<int>)
    requires s.Valid() && 1 <= fw <= 7
  {
    if AllDoms(s) && AllDows(s) then Some(1)
    else if AllDows(s) then
      if s.doms[0] <= dim then Some(s.doms[0]) else None
    else if fw in NormalisedDows(s.dows) then Some(1)
    else if !AllDoms(s) && s.doms[0] == 1 then Some(1)
    else
      var dowDist := WeekdayGap(NormalisedDows(s.dows), fw);
      var distance := if !AllDoms(s) && s.doms[0] - 1 < dowDist then s.doms[0] - 1 else dowDist;
      Some(distance + 1)
  }

  /** `_getFirstDay`: the first admitted day of the month of `cur`. */
  function FirstDay(s: CronSchedule, cur: DateTime): (r: Search)
    requires s.Valid() && Valid(cur)
  {
    match FirstDayNumber(s, IsoWeekday(cur.(day := 1)), DaysInMonth(cur.year, cur.month))
    case None => Raised(DayOutOfRange)
    case Some(day) => Found(cur.(day := day))
  }

  /** `_getNextMonth` of cron.py:43-64. */
  function NextMonth(s: CronSchedule, cur: DateTime, strict: bool): (r: Search)
    requires s.Valid() && Valid(cur)
  {
    var inMonth := if cur.month in s.months then NextDay(s, cur, strict) else NoMatch;
    if !inMonth.NoMatch? then inMonth else LaterMonth(s, cur)
  }

  /** The second half of `_getNextMonth` (cron.py:51-64): `_getFirstDay` from the start of the next admitted month. */
  function LaterMonth(s: CronSchedule, cur: DateTime): (r: Search)
    requires s.Valid() && Valid(cur)
  {
    match LaterMonthStart(s, cur)
    case None => Raised(YearOutOfRange)
    case Some(start) => FirstDay(s, start)
  }

  /**
   * The first admitted month after that of `cur`, in its year or else
   * the next one (cron.py:51-64), as the instant the search resumes from;
   * `None` is the `ValueError` of a year past 9999.
   */
  function LaterMonthStart(s: CronSchedule, cur: DateTime): (r: Option<DateTime>)
    requires s.Valid() && Valid(cur)
  {
    match FirstAbove(s.months, cur.month)
    case Some(m) => Some(MonthStart(s, cur, cur.year, m))
    case None => if cur.year + 1 > MaxYear then None else Some(MonthStart(s, cur, cur.year + 1, s.months[0]))
  }

  /** The instant `_getNextMonth` starts month `m` of year `y` from: the 1st at the first admitted hour and minute. */
  function MonthStart(s: CronSchedule, cur: DateTime, y: int, m: int): DateTime
    requires s.Valid()
  {
    cur.(year := y, month := m, day := 1, hour := s.hours[0], minute := s.minutes[0])
  }

  /** The reference instant with seconds and microseconds cleared (cron.py:237). */
  function Truncate(t: DateTime): DateTime {
    t.(second := 0, microsecond := 0)
  }

  /** `getNextEntry(current)` of cron.py:230-237, with the same-day test as written. */
  function GetNextEntry(s: CronSchedule, current: DateTime): Search
    requires s.Valid() && Valid(current)
  {
    NextMonth(s, Truncate(current), false)
  }

  /** `getNextEntry(current)` with the corrected same-day test. */
  function GetNextEntryCorrected(s: CronSchedule, current: DateTime): Search
    requires s.Valid() && Valid(current)
  {
    NextMonth(s, Truncate(current), true)
  }

  // ---------------------------------------------------------------------------
  // Properties of the day level

  /** The day tests look at the date only. */
  lemma SameDate(s: CronSchedule, a: DateTime, b: DateTime)
    requires s.Valid() && 1 <= a.month <= 12
    requires a.year == b.year && a.month == b.month && a.day == b.day
    ensures DayAdmitted(s, a) == DayAdmitted(s, b) && LooseAdmitted(s, a) == LooseAdmitted(s, b)
  {
    WeekdayOfDate(a, b);
  }

  /**
   * The day `DayDistance` leads to is admitted; it lies at most a week ahead,
   * or, when only the day-of-month field counts, within the 31 days.
   */
  lemma DistanceLands(s: CronSchedule, day: int, cw: int)
    requires s.Valid() && 1 <= cw <= 7
    requires DayDistance(s, day, cw).Some?
    ensures var d := DayDistance(s, day, cw).value;
      1 <= d && (d <= 7 || (AllDows(s) && day + d <= 31)) && DayAdmittedOn(s, day + d, WeekdayAfter(cw, d))
  {
    if !(AllDoms(s) && AllDows(s)) {
      var g := WeekdayGap(NormalisedDows(s.dows), cw);
      var dom := DomDistance(s, day);
      if dom.Some? {
        var k :| 0 <= k < |s.doms| && s.doms[k] == day + dom.value;
        assert day + dom.value <= 31;
      }
    }
  }

  /** `DayDistance` is no larger than either distance a restricted field gives. */
  lemma DistanceBounds(s: CronSchedule, day: int, cw: int)
    requires s.Valid() && 1 <= cw <= 7
    ensures AllDoms(s) && AllDows(s) ==> DayDistance(s, day, cw) == Some(1)
    ensures !AllDows(s) ==>
      DayDistance(s, day, cw).Some? && DayDistance(s, day, cw).value <= WeekdayGap(NormalisedDows(s.dows), cw)
    ensures !AllDoms(s) && DomDistance(s, day).Some? ==>
      DayDistance(s, day, cw).Some? && DayDistance(s, day, cw).value <= DomDistance(s, day).value
  {
  }

  /**
   * No admitted day lies closer than `DayDistance`: day `day + e` falls on
   * weekday `w`, which is `WeekdayAfter(cw, e)` when that is defined.
   */
  lemma DistanceReaches(s: CronSchedule, day: int, cw: int, e: int, w: int)
    requires s.Valid() && 1 <= cw <= 7 && 1 <= e
    requires e <= 7 ==> w == WeekdayAfter(cw, e)
    requires DayAdmittedOn(s, day + e, w)
    ensures DayDistance(s, day, cw).Some? && DayDistance(s, day, cw).value <= e
  {
    DistanceBounds(s, day, cw);
    if !AllDows(s) {
      var g := WeekdayGap(NormalisedDows(s.dows), cw);
      if e <= 7 && w in NormalisedDows(s.dows) {
        assert g <= e;
      }
    }
  }

  /**
   * Moving `d = DayDistance` days ahead (cron.py:198-208) either overflows at
   * the end of December 9999, leaves the month, or lands on an admitted day
   * of the month at the first admitted hour and minute.
   */
  lemma MovedDay(s: CronSchedule, cur: DateTime, d: int)
    requires s.Valid() && Valid(cur)
    requires DayDistance(s, cur.day, IsoWeekday(cur)) == Some(d)
    ensures d >= 1
    ensures var next := AddDays(cur.(hour := s.hours[0], minute := s.minutes[0]), d);
      (next.None? ==> cur.year == MaxYear && cur.month == 12) &&
      (next.Some? && next.value.month == cur.month ==>
        cur.day + d <= DaysInMonth(cur.year, cur.month) &&
        next.value == cur.(day := cur.day + d, hour := s.hours[0], minute := s.minutes[0]) &&
        DayAdmitted(s, next.value))
  {
    var cw := IsoWeekday(cur);
    DistanceLands(s, cur.day, cw);
    var base := cur.(hour := s.hours[0], minute := s.minutes[0]);
    if cur.day + d <= DaysInMonth(cur.year, cur.month) {
      AddDaysInMonth(base, d);
      if d <= 7 {
        WeekdayLater(cur, d);
      }
      SameDate(s, cur.(day := cur.day + d), base.(day := cur.day + d));
    } else {
      AddDaysLeaveMonth(base, d);
    }
  }

  /** What `_getNextDay` returns: a later instant of the same month at an admitted hour and minute. */
  lemma NextDaySound(s: CronSchedule, cur: DateTime, strict: bool)
    requires s.Valid() && Valid(cur)
    ensures NextDay(s, cur, strict).Found? ==>
      var t := NextDay(s, cur, strict).t;
      Valid(t) && t.year == cur.year && t.month == cur.month && Before(cur, t) &&
      t.second == cur.second && t.microsecond == cur.microsecond &&
      t.hour in s.hours && t.minute in s.minutes &&
      (DayAdmitted(s, t) || (!strict && t.day == cur.day && LooseAdmitted(s, t)))
    ensures NextDay(s, cur, strict).Raised? ==>
      NextDay(s, cur, strict).error == Overflow && cur.year == MaxYear && cur.month == 12
  {
    var sameDay := if strict then DayAdmitted(s, cur) else LooseAdmitted(s, cur);
    var inDay := if sameDay then NextHour(s, cur) else None;
    if inDay.Some? {
      SameDate(s, cur, inDay.value);
    } else {
      var dist := DayDistance(s, cur.day, IsoWeekday(cur));
      if dist.Some? {
        MovedDay(s, cur, dist.value);
        HeadLeast(s.hours);
      }
    }
  }

  /** When the same-day test passes and an hour and minute remain, `_getNextDay` returns them (cron.py:153-159). */
  lemma SameDayFound(s: CronSchedule, cur: DateTime, strict: bool)
    requires s.Valid() && Valid(cur)
    requires if strict then DayAdmitted(s, cur) else LooseAdmitted(s, cur)
    requires NextHour(s, cur).Some?
    ensures NextDay(s, cur, strict).Found? && NextDay(s, cur, strict).t == NextHour(s, cur).value
  {
  }

  /** `_getNextDay` skips no admitted instant later on the same day. */
  lemma SameDayEarliest(s: CronSchedule, cur: DateTime, strict: bool, u: DateTime)
    requires s.Valid() && Valid(cur) && u.day == cur.day
    requires u.year == cur.year && u.month == cur.month
    requires u.second == cur.second && u.microsecond == cur.microsecond && Before(cur, u)
    requires u.hour in s.hours && u.minute in s.minutes && DayAdmitted(s, u)
    ensures NextDay(s, cur, strict).Found? && !Before(u, NextDay(s, cur, strict).t)
  {
    SameDate(s, cur, u);
    DayTests(s, cur.day, IsoWeekday(cur));
    assert u == cur.(hour := u.hour, minute := u.minute);
    var r := NextHour(s, cur);
    assert r.Some? && !ClockBefore(u, r.value);
    SameDayFound(s, cur, strict);
  }

  /** `_getNextDay` skips no admitted instant on a later day of the month. */
  lemma LaterDayEarliest(s: CronSchedule, cur: DateTime, strict: bool, u: DateTime)
    requires s.Valid() && Valid(cur) && Valid(u) && u.day > cur.day
    requires u.year == cur.year && u.month == cur.month
    requires u.second == cur.second && u.microsecond == cur.microsecond
    requires u.hour in s.hours && u.minute in s.minutes && DayAdmitted(s, u)
    ensures NextDay(s, cur, strict).Found? && !Before(u, NextDay(s, cur, strict).t)
  {
    var cw := IsoWeekday(cur);
    var sameDay := if strict then DayAdmitted(s, cur) else LooseAdmitted(s, cur);
    var inDay := if sameDay then NextHour(s, cur) else None;
    if inDay.None? {
      var e := u.day - cur.day;
      if e <= 7 {
        WeekdayLater(cur, e);
        WeekdayOfDate(u, cur.(day := cur.day + e));
      }
      DistanceReaches(s, cur.day, cw, e, IsoWeekday(u));
      var d := DayDistance(s, cur.day, cw).value;
      DistanceLands(s, cur.day, cw);
      AddDaysInMonth(cur.(hour := s.hours[0], minute := s.minutes[0]), d);
      HeadLeast(s.hours);
      HeadLeast(s.minutes);
    }
  }

  /** `_getNextDay` skips no admitted instant of the month. */
  lemma NextDayEarliest(s: CronSchedule, cur: DateTime, strict: bool, u: DateTime)
    requires s.Valid() && Valid(cur) && Valid(u)
    requires u.year == cur.year && u.month == cur.month
    requires u.second == cur.second && u.microsecond == cur.microsecond && Before(cur, u)
    requires u.hour in s.hours && u.minute in s.minutes && DayAdmitted(s, u)
    ensures NextDay(s, cur, strict).Found? && !Before(u, NextDay(s, cur, strict).t)
  {
    if u.day == cur.day {
      SameDayEarliest(s, cur, strict, u);
    } else {
      LaterDayEarliest(s, cur, strict, u);
    }
  }

  // ---------------------------------------------------------------------------
  // Properties of the first-day level

  /** The day `_getFirstDay` computes when neither shortcut applies (cron.py:106-132), in terms of the week gap `g`. */
  lemma FirstDayGap(s: CronSchedule, fw: int, dim: int, g: int)
    requires s.Valid() && 1 <= fw <= 7 && !AllDows(s)
    requires fw !in NormalisedDows(s.dows)
    requires AllDoms(s) || s.doms[0] != 1
    requires g == WeekdayGap(NormalisedDows(s.dows), fw)
    ensures FirstDayNumber(s, fw, dim).Some?
    ensures FirstDayNumber(s, fw, dim).value == 1 + (if !AllDoms(s) && s.doms[0] - 1 < g then s.doms[0] - 1 else g)
  {
  }

  /** `DayDistance` from the 1st with both day fields restricted and the 1st not listed. */
  lemma DistanceFromFirst(s: CronSchedule, fw: int, g: int)
    requires s.Valid() && 1 <= fw <= 7 && !AllDows(s) && !AllDoms(s)
    requires s.doms[0] != 1
    requires g == WeekdayGap(NormalisedDows(s.dows), fw)
    ensures DayDistance(s, 1, fw).Some?
    ensures DayDistance(s, 1, fw).value == (if s.doms[0] - 1 < g then s.doms[0] - 1 else g)
  {
    assert s.doms[0] in s.doms;
    assert FirstAbove(s.doms, 1).value == s.doms[0];
  }

  /**
   * When neither shortcut of `_getFirstDay` applies (cron.py:98-104), it lands
   * where `DayDistance` from the 1st leads, less than a week in.
   */
  lemma FirstDayDistance(s: CronSchedule, fw: int, dim: int)
    requires s.Valid() && 1 <= fw <= 7 && !AllDows(s)
    requires fw !in NormalisedDows(s.dows)
    requires AllDoms(s) || s.doms[0] != 1
    ensures DayDistance(s, 1, fw).Some? && DayDistance(s, 1, fw).value <= 6
    ensures FirstDayNumber(s, fw, dim).Some?
    ensures FirstDayNumber(s, fw, dim).value == 1 + DayDistance(s, 1, fw).value
  {
    var g := WeekdayGap(NormalisedDows(s.dows), fw);
    WeekCycle(fw);
    assert g != 7;
    FirstDayGap(s, fw, dim, g);
    if !AllDoms(s) {
      DistanceFromFirst(s, fw, g);
    }
  }

  /**
   * What `_getFirstDay` picks in a month of `dim` days whose 1st falls on
   * weekday `fw`: the error exactly when only the day-of-month field is
   * restricted and its first day is past the month's end; otherwise an
   * admitted day of the month, `e` days after the 1st.
   */
  lemma FirstDayNumberMeaning(s: CronSchedule, fw: int, dim: int)
    requires s.Valid() && 1 <= fw <= 7 && 28 <= dim <= 31
    ensures FirstDayNumber(s, fw, dim).None? <==> AllDows(s) && !AllDoms(s) && s.doms[0] > dim
    ensures FirstDayNumber(s, fw, dim).Some? ==>
      var e := FirstDayNumber(s, fw, dim).value - 1;
      0 <= e < dim && (e <= 7 || AllDows(s)) && DayAdmittedOn(s, 1 + e, WeekdayAfter(fw, e))
  {
    WeekCycle(fw);
    FirstDayShortcuts(s, fw, dim);
    if !AllDows(s) && fw !in NormalisedDows(s.dows) && (AllDoms(s) || s.doms[0] != 1) {
      FirstDayDistance(s, fw, dim);
      DistanceLands(s, 1, fw);
    } else if !AllDoms(s) {
      assert s.doms[0] in s.doms;
    }
  }

  /** The shortcuts of `_getFirstDay` (cron.py:78-104). */
  lemma FirstDayShortcuts(s: CronSchedule, fw: int, dim: int)
    requires s.Valid() && 1 <= fw <= 7
    ensures AllDows(s) && !AllDoms(s) ==>
      (FirstDayNumber(s, fw, dim).Some? <==> s.doms[0] <= dim) &&
      (FirstDayNumber(s, fw, dim).Some? ==> FirstDayNumber(s, fw, dim).value == s.doms[0])
    ensures (AllDoms(s) && AllDows(s)) || (!AllDows(s) && fw in NormalisedDows(s.dows)) ||
            (!AllDows(s) && !AllDoms(s) && s.doms[0] == 1) ==>
      FirstDayNumber(s, fw, dim).Some? && FirstDayNumber(s, fw, dim).value == 1
  {
  }

  /**
   * No admitted day of the month comes before the one `_getFirstDay` picks:
   * day `1 + e` falls on weekday `w`, which is `WeekdayAfter(fw, e)` when
   * that is defined.
   */
  lemma FirstDayNumberEarliest(s: CronSchedule, fw: int, dim: int, e: int, w: int)
    requires s.Valid() && 1 <= fw <= 7 && 0 <= e && 1 + e <= dim
    requires e <= 7 ==> w == WeekdayAfter(fw, e)
    requires DayAdmittedOn(s, 1 + e, w)
    ensures FirstDayNumber(s, fw, dim).Some? && FirstDayNumber(s, fw, dim).value <= 1 + e
  {
    FirstDayShortcuts(s, fw, dim);
    if AllDows(s) && !AllDoms(s) {
      HeadLeast(s.doms);
      assert 1 + e in s.doms;
    } else if !AllDows(s) && fw !in NormalisedDows(s.dows) && (AllDoms(s) || s.doms[0] != 1) {
      FirstDayDistance(s, fw, dim);
      if e == 0 {
        WeekCycle(fw);
        HeadLeast(s.doms);
        assert false;
      } else {
        DistanceReaches(s, 1, fw, e, w);
      }
    }
  }

  /** `_getFirstDay` on instants: never `NoMatch`, and on success an admitted day of the same month. */
  lemma FirstDaySound(s: CronSchedule, cur: DateTime)
    requires s.Valid() && Valid(cur)
    ensures !FirstDay(s, cur).NoMatch?
    ensures FirstDay(s, cur).Raised? <==>
      AllDows(s) && !AllDoms(s) && s.doms[0] > DaysInMonth(cur.year, cur.month)
    ensures FirstDay(s, cur).Raised? ==> FirstDay(s, cur).error == DayOutOfRange
    ensures FirstDay(s, cur).Found? ==>
      var t := FirstDay(s, cur).t;
      Valid(t) && t == cur.(day := t.day) && DayAdmitted(s, t)
  {
    var fdom := cur.(day := 1);
    var fw := IsoWeekday(fdom);
    var dim := DaysInMonth(cur.year, cur.month);
    FirstDayNumberMeaning(s, fw, dim);
    var r := FirstDayNumber(s, fw, dim);
    if r.Some? {
      var e := r.value - 1;
      if e <= 7 {
        WeekdayLater(fdom, e);
      }
      SameDate(s, fdom.(day := 1 + e), cur.(day := r.value));
    }
  }

  /** `_getFirstDay` skips no admitted day of the month. */
  lemma FirstDayEarliest(s: CronSchedule, cur: DateTime, u: DateTime)
    requires s.Valid() && Valid(cur) && Valid(u)
    requires u.year == cur.year && u.month == cur.month && DayAdmitted(s, u)
    ensures FirstDay(s, cur).Found? && FirstDay(s, cur).t.day <= u.day
  {
    var fdom := cur.(day := 1);
    var fw := IsoWeekday(fdom);
    var e := u.day - 1;
    if e <= 7 {
      WeekdayLater(fdom, e);
      WeekdayOfDate(u, fdom.(day := 1 + e));
    }
    FirstDayNumberEarliest(s, fw, DaysInMonth(cur.year, cur.month), e, IsoWeekday(u));
  }

  // ---------------------------------------------------------------------------
  // Properties of the month level

  /** `_getFirstDay` from the start of an admitted month: an instant of that month at the first hour and minute, or the day error. */
  lemma MonthStartSound(s: CronSchedule, cur: DateTime, y: int, m: int)
    requires s.Valid() && Valid(cur) && MinYear <= y <= MaxYear && m in s.months
    ensures Valid(MonthStart(s, cur, y, m))
    ensures !FirstDay(s, MonthStart(s, cur, y, m)).NoMatch?
    ensures FirstDay(s, MonthStart(s, cur, y, m)).Raised? ==>
      FirstDay(s, MonthStart(s, cur, y, m)).error == DayOutOfRange && AllDows(s) && !AllDoms(s)
    ensures FirstDay(s, MonthStart(s, cur, y, m)).Found? ==>
      var t := FirstDay(s, MonthStart(s, cur, y, m)).t;
      Valid(t) && t.year == y && t.month == m && t.hour == s.hours[0] && t.minute == s.minutes[0] &&
      t.second == cur.second && t.microsecond == cur.microsecond && DayAdmitted(s, t)
  {
    var k :| 0 <= k < |s.months| && s.months[k] == m;
    assert s.hours[0] in s.hours && s.minutes[0] in s.minutes;
    FirstDaySound(s, MonthStart(s, cur, y, m));
  }

  /**
   * What `_getNextMonth` returns: never `NoMatch`; a later instant at an
   * admitted minute, hour and month on an admitted day (or, with the
   * same-day test as written, on the reference day); or an error, which is
   * the day error of cron.py:82-83 or happens in year 9999.
   */
  lemma NextMonthSound(s: CronSchedule, cur: DateTime, strict: bool)
    requires s.Valid() && Valid(cur)
    ensures !NextMonth(s, cur, strict).NoMatch?
    ensures NextMonth(s, cur, strict).Found? ==>
      var t := NextMonth(s, cur, strict).t;
      Valid(t) && Before(cur, t) && t.second == cur.second && t.microsecond == cur.microsecond &&
      t.minute in s.minutes && t.hour in s.hours && t.month in s.months &&
      (DayAdmitted(s, t) ||
       (!strict && t.year == cur.year && t.month == cur.month && t.day == cur.day && LooseAdmitted(s, t)))
    ensures NextMonth(s, cur, strict).Raised? ==>
      (NextMonth(s, cur, strict).error == DayOutOfRange && AllDows(s) && !AllDoms(s)) || cur.year == MaxYear
  {
    if cur.month in s.months && !NextDay(s, cur, strict).NoMatch? {
      NextDaySound(s, cur, strict);
    } else {
      LaterMonthResult(s, cur);
    }
  }

  /** The later-month half of `_getNextMonth`: never `NoMatch`; a later instant matching every field, or an error. */
  lemma LaterMonthResult(s: CronSchedule, cur: DateTime)
    requires s.Valid() && Valid(cur)
    ensures !LaterMonth(s, cur).NoMatch?
    ensures LaterMonth(s, cur).Found? ==>
      Successor(cur, LaterMonth(s, cur).t) && Admits(s, LaterMonth(s, cur).t)
    ensures LaterMonth(s, cur).Raised? ==>
      (LaterMonth(s, cur).error == DayOutOfRange && AllDows(s) && !AllDoms(s)) || cur.year == MaxYear
  {
    var start := LaterMonthStart(s, cur);
    LaterMonthStartFacts(s, cur);
    if start.Some? {
      LaterMonthSound(s, cur, start.value.year, start.value.month);
    }
  }

  /** The month `_getNextMonth` moves to is admitted and later than the reference month; none exists only in year 9999. */
  lemma LaterMonthStartFacts(s: CronSchedule, cur: DateTime)
    requires s.Valid() && Valid(cur)
    ensures LaterMonthStart(s, cur).None? ==> cur.year == MaxYear
    ensures LaterMonthStart(s, cur).Some? ==>
      var start := LaterMonthStart(s, cur).value;
      start == MonthStart(s, cur, start.year, start.month) && start.year <= MaxYear && start.month in s.months &&
      (start.year > cur.year || (start.year == cur.year && start.month > cur.month))
  {
    assert s.months[0] in s.months;
  }

  /** `_getFirstDay` in an admitted month after the reference month: a later instant that matches every field, or the day error. */
  lemma LaterMonthSound(s: CronSchedule, cur: DateTime, y: int, m: int)
    requires s.Valid() && Valid(cur) && y <= MaxYear && m in s.months
    requires y > cur.year || (y == cur.year && m > cur.month)
    ensures !FirstDay(s, MonthStart(s, cur, y, m)).NoMatch?
    ensures FirstDay(s, MonthStart(s, cur, y, m)).Raised? ==>
      FirstDay(s, MonthStart(s, cur, y, m)).error == DayOutOfRange && AllDows(s) && !AllDoms(s)
    ensures FirstDay(s, MonthStart(s, cur, y, m)).Found? ==>
      Successor(cur, FirstDay(s, MonthStart(s, cur, y, m)).t) && Admits(s, FirstDay(s, MonthStart(s, cur, y, m)).t)
  {
    MonthStartSound(s, cur, y, m);
    assert s.hours[0] in s.hours && s.minutes[0] in s.minutes;
  }


  /** The month `_getNextMonth` moves to is no later than the month of any later admitted instant. */
  lemma LaterMonthStartEarliest(s: CronSchedule, cur: DateTime, u: DateTime)
    requires s.Valid() && Valid(cur) && Valid(u) && u.month in s.months
    requires u.year > cur.year || (u.year == cur.year && u.month > cur.month)
    ensures LaterMonthStart(s, cur).Some?
    ensures LaterMonthStart(s, cur).value.year < u.year ||
      (LaterMonthStart(s, cur).value.year == u.year && LaterMonthStart(s, cur).value.month <= u.month)
  {
    var k :| 0 <= k < |s.months| && s.months[k] == u.month;
    HeadLeast(s.months);
  }

  /**
   * No admitted instant after `cur` in a later month lies before what the
   * later-month half of `_getNextMonth` returns, unless that half raises
   * the day error on the way (cron.py:82-83).
   */
  lemma LaterMonthEarliest(s: CronSchedule, cur: DateTime, u: DateTime)
    requires s.Valid() && Valid(cur) && Successor(cur, u) && Admits(s, u)
    requires u.year > cur.year || (u.year == cur.year && u.month > cur.month)
    ensures (LaterMonth(s, cur).Found? && !Before(u, LaterMonth(s, cur).t)) ||
      (LaterMonth(s, cur).Raised? && LaterMonth(s, cur).error == DayOutOfRange)
  {
    LaterMonthStartEarliest(s, cur, u);
    LaterMonthStartFacts(s, cur);
    var start := LaterMonthStart(s, cur).value;
    FirstDaySound(s, start);
    if start.year == u.year && start.month == u.month {
      FirstDayEarliest(s, start, u);
      HeadLeast(s.hours);
      HeadLeast(s.minutes);
    }
  }

  /**
   * No admitted instant after `cur` lies before what `_getNextMonth`
   * returns, unless the search raises the day error first.
   */
  lemma NextMonthEarliest(s: CronSchedule, cur: DateTime, strict: bool, u: DateTime)
    requires s.Valid() && Valid(cur) && Successor(cur, u) && Admits(s, u)
    ensures (NextMonth(s, cur, strict).Found? && !Before(u, NextMonth(s, cur, strict).t)) ||
      (NextMonth(s, cur, strict).Raised? && NextMonth(s, cur, strict).error == DayOutOfRange)
  {
    if u.year == cur.year && u.month == cur.month {
      NextDayEarliest(s, cur, strict, u);
    } else {
      if cur.month in s.months {
        NextDaySound(s, cur, strict);
      }
      LaterMonthEarliest(s, cur, u);
    }
  }

  // ---------------------------------------------------------------------------
  // Properties of getNextEntry

  /** An instant on a whole minute is after `current` exactly when it is after `current` with its seconds dropped. */
  lemma TruncateOrder(current: DateTime, u: DateTime)
    requires Valid(current) && u.second == 0 && u.microsecond == 0
    ensures Before(current, u) <==> Before(Truncate(current), u)
  {
  }

  /**
   * `getNextEntry` (cron.py:230-237) never lets `NoMatch` escape; what it
   * returns is a whole minute after `current` whose minute, hour and month
   * are admitted and whose day is admitted too, except that the same-day
   * test as written may accept the date of `current` itself; it raises
   * only the day error of cron.py:82-83 or in year 9999.
   */
  lemma GetNextEntrySound(s: CronSchedule, current: DateTime)
    requires s.Valid() && Valid(current)
    ensures !GetNextEntry(s, current).NoMatch?
    ensures GetNextEntry(s, current).Found? ==>
      var t := GetNextEntry(s, current).t;
      Valid(t) && Before(current, t) && t.second == 0 && t.microsecond == 0 &&
      t.minute in s.minutes && t.hour in s.hours && t.month in s.months &&
      (DayAdmitted(s, t) ||
       (t.year == current.year && t.month == current.month && t.day == current.day && LooseAdmitted(s, t)))
    ensures GetNextEntry(s, current).Raised? ==>
      (GetNextEntry(s, current).error == DayOutOfRange && AllDows(s) && !AllDoms(s)) || current.year == MaxYear
  {
    NextMonthSound(s, Truncate(current), false);
    if GetNextEntry(s, current).Found? {
      TruncateOrder(current, GetNextEntry(s, current).t);
    }
  }

  /**
   * No whole minute after `current` that the schedule admits comes before
   * what `getNextEntry` returns, unless the search raises the day error of
   * cron.py:82-83 on the way.
   */
  lemma GetNextEntryEarliest(s: CronSchedule, current: DateTime, u: DateTime)
    requires s.Valid() && Valid(current) && Valid(u) && u.second == 0 && u.microsecond == 0
    requires Before(current, u) && Admits(s, u)
    ensures (GetNextEntry(s, current).Found? && !Before(u, GetNextEntry(s, current).t)) ||
      (GetNextEntry(s, current).Raised? && GetNextEntry(s, current).error == DayOutOfRange)
  {
    TruncateOrder(current, u);
    NextMonthEarliest(s, Truncate(current), false, u);
  }

  /**
   * With the corrected same-day test, `getNextEntry` returns exactly the
   * first whole minute after `current` that the schedule admits: it is
   * admitted, and no admitted minute after `current` comes before it.
   */
  lemma GetNextEntryCorrectedExact(s: CronSchedule, current: DateTime, u: DateTime)
    requires s.Valid() && Valid(current)
    ensures !GetNextEntryCorrected(s, current).NoMatch?
    ensures GetNextEntryCorrected(s, current).Found? ==>
      var t := GetNextEntryCorrected(s, current).t;
      Valid(t) && Before(current, t) && t.second == 0 && t.microsecond == 0 && Admits(s, t)
    ensures Valid(u) && u.second == 0 && u.microsecond == 0 && Before(current, u) && Admits(s, u) ==>
      (GetNextEntryCorrected(s, current).Found? && !Before(u, GetNextEntryCorrected(s, current).t)) ||
      (GetNextEntryCorrected(s, current).Raised? && GetNextEntryCorrected(s, current).error == DayOutOfRange)
  {
    NextMonthSound(s, Truncate(current), true);
    if GetNextEntryCorrected(s, current).Found? {
      TruncateOrder(current, GetNextEntryCorrected(s, current).t);
    }
    if Valid(u) && u.second == 0 && u.microsecond == 0 && Before(current, u) && Admits(s, u) {
      TruncateOrder(current, u);
      NextMonthEarliest(s, Truncate(current), true, u);
    }
  }

  // ---------------------------------------------------------------------------
  // The same-day test as written

  /**
   * When exactly the day-of-week field is `*`, the same-day test of
   * cron.py:152-164 accepts any date: from a day that is not in the
   * day-of-month list, with an admitted hour still ahead, `getNextEntry`
   * returns a time on that same day, which the schedule does not admit.
   */
  lemma LooseSameDay(s: CronSchedule, current: DateTime)
    requires s.Valid() && Valid(current) && AllDows(s) && !AllDoms(s)
    requires current.day !in s.doms && current.month in s.months && current.hour < s.hours[|s.hours| - 1]
    ensures GetNextEntry(s, current).Found?
    ensures var t := GetNextEntry(s, current).t;
      t.year == current.year && t.month == current.month && t.day == current.day && !DayAdmitted(s, t)
  {
    var cur := Truncate(current);
    DayTests(s, cur.day, IsoWeekday(cur));
    assert s.hours[|s.hours| - 1] in s.hours && s.minutes[0] in s.minutes;
    assert ClockBefore(cur, cur.(hour := s.hours[|s.hours| - 1], minute := s.minutes[0]));
    NextDaySound(s, cur, false);
  }

  /** `0 12 15 * *`: minute 0 of hour 12 on the 15th of every month, on any weekday. */
  function NoonOnFifteenth(): (s: CronSchedule)
    ensures s.Valid() && AllDows(s) && !AllDoms(s)
  {
    IntervalAscending(1, 12);
    IntervalAscending(0, 6);
    CronSchedule([0], [12], [15], Interval(1, 12), Interval(0, 6))
  }

  /** With the day-of-week field `*`, the corrected test admits exactly the days of the day-of-month list. */
  lemma DowsUnrestricted(s: CronSchedule, t: DateTime)
    requires s.Valid() && 1 <= t.month <= 12 && AllDows(s) && !AllDoms(s)
    ensures DayAdmitted(s, t) <==> t.day in s.doms
  {
  }

  /**
   * `0 12 15 * *` as written: from any time before noon on a day other
   * than the 15th (2008-03-01 10:00, say), `getNextEntry` returns noon of
   * that same day.
   */
  lemma NoonOnFifteenthAsWritten(current: DateTime)
    requires Valid(current) && current.day != 15 && current.hour < 12
    ensures GetNextEntry(NoonOnFifteenth(), current) ==
      Found(current.(hour := 12, minute := 0, second := 0, microsecond := 0))
  {
    var s := NoonOnFifteenth();
    assert current.month in s.months by { assert s.months[current.month - 1] == current.month; }
    LooseSameDay(s, current);
    GetNextEntrySound(s, current);
  }

  /** `0 12 15 * *` corrected: from any time in the first fortnight of a month, the search returns noon on the 15th. */
  lemma NoonOnFifteenthCorrected(current: DateTime)
    requires Valid(current) && current.day < 15
    ensures GetNextEntryCorrected(NoonOnFifteenth(), current) ==
      Found(current.(day := 15, hour := 12, minute := 0, second := 0, microsecond := 0))
  {
    var s := NoonOnFifteenth();
    var u := current.(day := 15, hour := 12, minute := 0, second := 0, microsecond := 0);
    assert current.month in s.months by { assert s.months[current.month - 1] == current.month; }
    DowsUnrestricted(s, u);
    GetNextEntryCorrectedExact(s, current, u);
    var t := GetNextEntryCorrected(s, current).t;
    DowsUnrestricted(s, t);
  }

  /** `0 0 31 * *`: midnight on the 31st of every month, on any weekday. */
  function MidnightOnThirtyFirst(): (s: CronSchedule)
    ensures s.Valid() && AllDows(s) && !AllDoms(s)
  {
    IntervalAscending(1, 12);
    IntervalAscending(0, 6);
    CronSchedule([0], [0], [31], Interval(1, 12), Interval(0, 6))
  }

  /**
   * `0 0 31 * *` from any time on the 31st of a month followed by a
   * shorter one: `_getFirstDay` tries to put the next month on its 31st and
   * `getNextEntry` raises the day error of cron.py:82-83 instead of moving
   * on to the next month that has one.
   */
  lemma ThirtyFirstRaises(current: DateTime)
    requires Valid(current) && current.day == 31 && current.month in {1, 3, 5, 8, 10}
    ensures GetNextEntry(MidnightOnThirtyFirst(), current) == Raised(DayOutOfRange)
  {
    var s, cur := MidnightOnThirtyFirst(), Truncate(current);
    ThirtyFirstLastDay(cur);
    ThirtyFirstNextMonth(cur);
  }

  /** From the 31st, nothing is left in the month for `0 0 31 * *`. */
  lemma ThirtyFirstLastDay(cur: DateTime)
    requires Valid(cur) && cur.day == 31 && cur.month < 12
    ensures NextDay(MidnightOnThirtyFirst(), cur, false).NoMatch?
  {
    NextDaySound(MidnightOnThirtyFirst(), cur, false);
  }

  /** The month after a 31st that has no 31st itself makes `_getFirstDay` raise for `0 0 31 * *`. */
  lemma ThirtyFirstNextMonth(cur: DateTime)
    requires Valid(cur) && cur.month in {1, 3, 5, 8, 10}
    ensures LaterMonth(MidnightOnThirtyFirst(), cur) == Raised(DayOutOfRange)
  {
    var s := MidnightOnThirtyFirst();
    assert s.months[cur.month] == cur.month + 1;
    LaterMonthStartFacts(s, cur);
    ShortMonthRaises(LaterMonthStart(s, cur).value);
  }

  /** `_getFirstDay` for `0 0 31 * *` raises in a month of fewer than 31 days. */
  lemma ShortMonthRaises(start: DateTime)
    requires Valid(start) && start.month in {2, 4, 6, 9, 11}
    ensures FirstDay(MidnightOnThirtyFirst(), start) == Raised(DayOutOfRange)
  {
    FirstDaySound(MidnightOnThirtyFirst(), start);
  }

  // ---------------------------------------------------------------------------
  // A day-of-week schedule across a month boundary

  /** `* * * * 0,3,5`: every minute of every Sunday, Wednesday and Friday. */
  function EveryMinuteSunWedFri(): (s: CronSchedule)
    ensures s.Valid() && AllDoms(s) && !AllDows(s)
    ensures NormalisedDows(s.dows) == [3, 5, 7]
  {
    IntervalAscending(0, 59);
    IntervalAscending(0, 23);
    IntervalAscending(1, 31);
    IntervalAscending(1, 12);
    CronSchedule(Interval(0, 59), Interval(0, 23), Interval(1, 31), Interval(1, 12), [0, 3, 5])
  }

  /** 2008-09-01 was a Monday, so day `d` of September 2008 falls on ISO weekday `(d + 6) % 7 + 1`. */
  lemma September2008(t: DateTime)
    requires t.year == 2008 && t.month == 9
    ensures IsoWeekday(t) == (t.day + 6) % 7 + 1
    ensures 1 <= t.day <= 7 ==> IsoWeekday(t) == t.day
  {
    var lastOfAugust := t.(month := 8, day := 31);
    August31Sunday(lastOfAugust);
    assert Ordinal(t) == Ordinal(lastOfAugust) + t.day;
  }

  /**
   * `* * * * 0,3,5` from 2008-08-31 23:59, a Sunday with no minute left:
   * Monday the 1st and Tuesday the 2nd are not admitted, and the next
   * entry is 2008-09-03 00:00, the Wednesday.
   */
  lemma SunWedFriNextEntry(current: DateTime)
    requires current.year == 2008 && current.month == 8 && current.day == 31
    requires current.hour == 23 && current.minute == 59 && current.second == 0 && current.microsecond == 0
    ensures GetNextEntry(EveryMinuteSunWedFri(), current) == Found(DateTime(2008, 9, 3, 0, 0, 0, 0))
  {
    var s := EveryMinuteSunWedFri();
    var u := current.(month := 9, day := 3, hour := 0, minute := 0);
    September2008(u);
    assert Admits(s, u) by {
      assert s.minutes[0] == 0 && s.hours[0] == 0 && s.months[8] == 9;
    }
    GetNextEntryEarliest(s, current, u);
    GetNextEntrySound(s, current);
    var t := GetNextEntry(s, current).t;
    assert t.year == 2008 && t.month == 9 && t.day <= 3;
    assert DayAdmitted(s, t);
    September2008(t);
    assert t.day == 3;
  }
}
