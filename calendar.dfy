/**
 * Proleptic Gregorian dates as Python's `datetime` handles them, and the
 * `relativedelta(weekday=...)` jump of dateutil that the normaliser uses to
 * find the Monday and the Sunday of the current week.
 *
 * Day arithmetic walks one day at a time (`NextDay`, `PrevDay`) and is
 * proved against Python's day ordinal (`toordinal()`, 0001-01-01 is day 1):
 * adding n days moves the ordinal by exactly n, and fails exactly where
 * Python raises `OverflowError` (before 0001-01-01 or after 9999-12-31).
 */
module Calendar {
  import opened Wrappers

  datatype Date = Date(year: int, month: int, day: int)

  /** `datetime.MINYEAR` and `datetime.MAXYEAR`. */
  const MinYear := 1
  const MaxYear := 9999

  /** `date(9999, 12, 31).toordinal()`. */
  const MaxOrdinal := 3652059

  /** Weekday numbers as Python's `weekday()` returns them. */
  const Monday := 0
  const Sunday := 6

  predicate IsLeap(y: int)
  {
    y % 4 == 0 && (y % 100 != 0 || y % 400 == 0)
  }

  function DaysInMonth(y: int, m: int): int
    requires 1 <= m <= 12
  {
    if m == 2 then (if IsLeap(y) then 29 else 28)
    else if m == 4 || m == 6 || m == 9 || m == 11 then 30
    else 31
  }

  function DaysInYear(y: int): int
  {
    if IsLeap(y) then 366 else 365
  }

  /** A date Python's `datetime` can represent. */
  predicate Valid(d: Date)
  {
    && MinYear <= d.year <= MaxYear
    && 1 <= d.month <= 12
    && 1 <= d.day <= DaysInMonth(d.year, d.month)
  }

  /** Days in the years before `y` (Python's `_days_before_year`). */
  function DaysBeforeYear(y: int): int
    requires y >= 1
  {
    var y1 := y - 1;
    y1 * 365 + y1 / 4 - y1 / 100 + y1 / 400
  }

  /** Days in the months of year `y` before month `m` (Python's `_days_before_month`). */
  function DaysBeforeMonth(y: int, m: int): int
    requires 1 <= m <= 12
  {
    [0, 31, 59, 90, 120, 151, 181, 212, 243, 273, 304, 334][m - 1]
      + (if m > 2 && IsLeap(y) then 1 else 0)
  }

  /** `d.toordinal()`. */
  function ToOrdinal(d: Date): int
    requires Valid(d)
  {
    DaysBeforeYear(d.year) + DaysBeforeMonth(d.year, d.month) + d.day
  }

  /** `d.weekday()`: Monday is 0, Sunday is 6. */
  function Weekday(d: Date): int
    requires Valid(d)
  {
    (ToOrdinal(d) + 6) % 7
  }

  /** Calendar order: `a` falls on or before `b`. */
  predicate OnOrBefore(a: Date, b: Date)
  {
    || a.year < b.year
    || (a.year == b.year && a.month < b.month)
    || (a.year == b.year && a.month == b.month && a.day <= b.day)
  }

  /** The following day, or `None` past 9999-12-31. */
  function NextDay(d: Date): (r: Option<Date>)
    requires Valid(d)
    ensures r.Some? ==> Valid(r.value)
  {
    if d.day < DaysInMonth(d.year, d.month) then Some(Date(d.year, d.month, d.day + 1))
    else if d.month < 12 then Some(Date(d.year, d.month + 1, 1))
    else if d.year < MaxYear then Some(Date(d.year + 1, 1, 1))
    else None
  }

  /** The preceding day, or `None` before 0001-01-01. */
  function PrevDay(d: Date): (r: Option<Date>)
    requires Valid(d)
    ensures r.Some? ==> Valid(r.value)
  {
    if d.day > 1 then Some(Date(d.year, d.month, d.day - 1))
    else if d.month > 1 then Some(Date(d.year, d.month - 1, DaysInMonth(d.year, d.month - 1)))
    else if d.year > MinYear then Some(Date(d.year - 1, 12, 31))
    else None
  }

  /** `d + timedelta(days=n)`, with `None` where Python raises `OverflowError`. */
  function AddDays(d: Date, n: int): (r: Option<Date>)
    requires Valid(d)
    ensures r.Some? ==> Valid(r.value)
    decreases Abs(n)
  {
    if n == 0 then Some(d)
    else if n > 0 then
      match NextDay(d)
      case None => None
      case Some(e) => AddDays(e, n - 1)
    else
      match PrevDay(d)
      case None => None
      case Some(e) => AddDays(e, n + 1)
  }

  function Abs(n: int): nat
  {
    if n < 0 then -n else n
  }

  /** The number of days dateutil's `relativedelta(weekday=W(nth))` moves a
      date whose weekday is `current`; `nth == 0` stands for an absent `n`,
      which dateutil reads as 1.  Both `%` operands here are such that
      Python's floored remainder and Dafny's Euclidean one agree. */
  function WeekdayJump(current: int, target: int, nth: int): int
  {
    var n := if nth == 0 then 1 else nth;
    var whole := (Abs(n) - 1) * 7;
    if n > 0 then whole + (7 - current + target) % 7
    else -(whole + (current - target) % 7)
  }

  /** `d + relativedelta(weekday=W(nth))` where `W` is weekday `target`. */
  function RelativeWeekday(d: Date, target: int, nth: int): Option<Date>
    requires Valid(d)
  {
    AddDays(d, WeekdayJump(Weekday(d), target, nth))
  }

  datatype Week = Week(start: Date, end: Date)

  /** The Monday on or before `d` (`MO(-1)`) and the Sunday on or after it
      (`SU(1)`); `None` when the Sunday lies past 9999-12-31. */
  function WeekBounds(d: Date): (r: Option<Week>)
    requires Valid(d)
    ensures r.Some? ==> Valid(r.value.start) && Valid(r.value.end)
  {
    match RelativeWeekday(d, Monday, -1)
    case None => None
    case Some(start) =>
      match RelativeWeekday(d, Sunday, 1)
      case None => None
      case Some(end) => Some(Week(start, end))
  }

  // ---------------------------------------------------------------------
  // Lemmas

  /** The closed form of `DaysBeforeYear` adds one year's length per year. */
  lemma DaysBeforeYearStep(y: int)
    requires y >= 1
    ensures DaysBeforeYear(y + 1) == DaysBeforeYear(y) + DaysInYear(y)
  {
    assert y / 4 - (y - 1) / 4 == (if y % 4 == 0 then 1 else 0);
    assert y / 100 - (y - 1) / 100 == (if y % 100 == 0 then 1 else 0);
    assert y / 400 - (y - 1) / 400 == (if y % 400 == 0 then 1 else 0);
  }

  lemma {:induction false} DaysBeforeYearMonotone(a: int, b: int)
    requires 1 <= a <= b
    ensures DaysBeforeYear(a) + 365 * (b - a) <= DaysBeforeYear(b)
    decreases b - a
  {
    if a < b {
      DaysBeforeYearStep(a);
      DaysBeforeYearMonotone(a + 1, b);
    }
  }

  lemma DaysBeforeMonthStep(y: int, m: int)
    requires 1 <= m < 12
    ensures DaysBeforeMonth(y, m + 1) == DaysBeforeMonth(y, m) + DaysInMonth(y, m)
  {
  }

  lemma DaysBeforeMonthLast(y: int)
    ensures DaysBeforeMonth(y, 12) + DaysInMonth(y, 12) == DaysInYear(y)
  {
  }

  /** The day within the year never exceeds the year's length. */
  lemma DayOfYearBound(d: Date)
    requires Valid(d)
    ensures DaysBeforeMonth(d.year, d.month) + d.day <= DaysInYear(d.year)
  {
  }

  /** Every valid date has an ordinal between 0001-01-01 and 9999-12-31. */
  lemma OrdinalBounds(d: Date)
    requires Valid(d)
    ensures 1 <= ToOrdinal(d) <= MaxOrdinal
  {
    DayOfYearBound(d);
    DaysBeforeYearStep(d.year);
    DaysBeforeYearMonotone(d.year + 1, MaxYear + 1);
  }

  /** Calendar order and ordinal order agree. */
  lemma OrdinalOrder(a: Date, b: Date)
    requires Valid(a) && Valid(b)
    ensures OnOrBefore(a, b) <==> ToOrdinal(a) <= ToOrdinal(b)
  {
    if a.year < b.year {
      DayOfYearBound(a);
      DaysBeforeYearStep(a.year);
      DaysBeforeYearMonotone(a.year + 1, b.year);
    } else if b.year < a.year {
      DayOfYearBound(b);
      DaysBeforeYearStep(b.year);
      DaysBeforeYearMonotone(b.year + 1, a.year);
    }
  }

  /** Distinct valid dates have distinct ordinals. */
  lemma OrdinalInjective(a: Date, b: Date)
    requires Valid(a) && Valid(b) && ToOrdinal(a) == ToOrdinal(b)
    ensures a == b
  {
    OrdinalOrder(a, b);
    OrdinalOrder(b, a);
  }

  lemma NextDayOrdinal(d: Date)
    requires Valid(d)
    ensures NextDay(d).None? <==> ToOrdinal(d) == MaxOrdinal
    ensures NextDay(d).Some? ==> ToOrdinal(NextDay(d).value) == ToOrdinal(d) + 1
  {
    OrdinalBounds(d);
    if d.day == DaysInMonth(d.year, d.month) {
      if d.month < 12 {
        DaysBeforeMonthStep(d.year, d.month);
      } else if d.year < MaxYear {
        DaysBeforeMonthLast(d.year);
        DaysBeforeYearStep(d.year);
        OrdinalBounds(NextDay(d).value);
      }
    }
  }

  lemma PrevDayOrdinal(d: Date)
    requires Valid(d)
    ensures PrevDay(d).None? <==> ToOrdinal(d) == 1
    ensures PrevDay(d).Some? ==> ToOrdinal(PrevDay(d).value) == ToOrdinal(d) - 1
  {
    OrdinalBounds(d);
    if d.day == 1 {
      if d.month > 1 {
        DaysBeforeMonthStep(d.year, d.month - 1);
      } else if d.year > MinYear {
        DaysBeforeMonthLast(d.year - 1);
        DaysBeforeYearStep(d.year - 1);
        OrdinalBounds(PrevDay(d).value);
      }
    }
  }

  /** Adding `n` days is Python's ordinal arithmetic: it succeeds exactly when
      the target ordinal is in range, and then moves the ordinal by `n`. */
  lemma {:induction false} AddDaysOrdinal(d: Date, n: int)
    requires Valid(d)
    ensures AddDays(d, n).Some? <==> 1 <= ToOrdinal(d) + n <= MaxOrdinal
    ensures AddDays(d, n).Some? ==> ToOrdinal(AddDays(d, n).value) == ToOrdinal(d) + n
    decreases Abs(n)
  {
    OrdinalBounds(d);
    if n > 0 {
      NextDayOrdinal(d);
      if NextDay(d).Some? {
        AddDaysOrdinal(NextDay(d).value, n - 1);
      }
    } else if n < 0 {
      PrevDayOrdinal(d);
      if PrevDay(d).Some? {
        AddDaysOrdinal(PrevDay(d).value, n + 1);
      }
    }
  }

  /** The remainder of `7 * q + r` for a digit `r` of base 7. */
  lemma Mod7(x: int, q: int, r: int)
    requires x == 7 * q + r && 0 <= r < 7
    ensures x % 7 == r
  {
  }

  /** Moving by `n` days shifts the weekday by `n` modulo 7. */
  lemma WeekdayShift(d: Date, e: Date, n: int)
    requires Valid(d) && Valid(e) && ToOrdinal(e) == ToOrdinal(d) + n
    ensures Weekday(e) == (Weekday(d) + n) % 7
  {
    var o := ToOrdinal(d);
    var w := (o + 6) % 7;
    var q := (o + 6) / 7;
    var w' := (w + n) % 7;
    var q' := (w + n) / 7;
    assert o + 6 == 7 * q + w;
    assert w + n == 7 * q' + w';
    Mod7(o + n + 6, q + q', w');
  }

  /** The jump forward to weekday `target` lands on it, within week `nth`. */
  lemma JumpForward(current: int, target: int, nth: int)
    requires 0 <= current <= 6 && 0 <= target <= 6 && nth >= 1
    ensures (current + WeekdayJump(current, target, nth)) % 7 == target
    ensures (nth - 1) * 7 <= WeekdayJump(current, target, nth) < nth * 7
  {
    var k := if target >= current then target - current else 7 - current + target;
    Mod7(7 - current + target, if target >= current then 1 else 0, k);
    Mod7(current + (nth - 1) * 7 + k, nth - 1 + (if current + k >= 7 then 1 else 0), target);
  }

  /** The jump back to weekday `target` lands on it, within week `|nth|`. */
  lemma JumpBackward(current: int, target: int, nth: int)
    requires 0 <= current <= 6 && 0 <= target <= 6 && nth <= -1
    ensures (current + WeekdayJump(current, target, nth)) % 7 == target
    ensures (-nth - 1) * 7 <= -WeekdayJump(current, target, nth) < -nth * 7
  {
    var k := if current >= target then current - target else 7 + current - target;
    Mod7(current - target, if current >= target then 0 else -1, k);
    Mod7(current - (-nth - 1) * 7 - k, -(-nth - 1) + (if current - k < 0 then -1 else 0), target);
  }

  /** `relativedelta(weekday=W(nth))` with a positive `nth` lands on weekday
      `target`, between `(nth-1)*7` and `nth*7 - 1` days later. */
  lemma RelativeWeekdayForward(d: Date, target: int, nth: int)
    requires Valid(d) && 0 <= target <= 6 && nth >= 1
    ensures RelativeWeekday(d, target, nth).Some? <==>
              ToOrdinal(d) + WeekdayJump(Weekday(d), target, nth) <= MaxOrdinal
    ensures RelativeWeekday(d, target, nth).Some? ==>
              var r := RelativeWeekday(d, target, nth).value;
              && Weekday(r) == target
              && (nth - 1) * 7 <= ToOrdinal(r) - ToOrdinal(d) < nth * 7
  {
    var j := WeekdayJump(Weekday(d), target, nth);
    AddDaysOrdinal(d, j);
    OrdinalBounds(d);
    if AddDays(d, j).Some? {
      WeekdayShift(d, AddDays(d, j).value, j);
      JumpForward(Weekday(d), target, nth);
    }
  }

  /** `relativedelta(weekday=W(nth))` with a negative `nth` lands on weekday
      `target`, between `(|nth|-1)*7` and `|nth|*7 - 1` days earlier. */
  lemma RelativeWeekdayBackward(d: Date, target: int, nth: int)
    requires Valid(d) && 0 <= target <= 6 && nth <= -1
    ensures RelativeWeekday(d, target, nth).Some? <==>
              1 <= ToOrdinal(d) + WeekdayJump(Weekday(d), target, nth)
    ensures RelativeWeekday(d, target, nth).Some? ==>
              var r := RelativeWeekday(d, target, nth).value;
              && Weekday(r) == target
              && (-nth - 1) * 7 <= ToOrdinal(d) - ToOrdinal(r) < -nth * 7
  {
    var j := WeekdayJump(Weekday(d), target, nth);
    AddDaysOrdinal(d, j);
    OrdinalBounds(d);
    if AddDays(d, j).Some? {
      WeekdayShift(d, AddDays(d, j).value, j);
      JumpBackward(Weekday(d), target, nth);
    }
  }

  /** The jumps of `MO(-1)` and `SU(1)` for a date of weekday `wd`. */
  lemma WeekJumps(wd: int)
    requires 0 <= wd <= 6
    ensures WeekdayJump(wd, Monday, -1) == -wd
    ensures WeekdayJump(wd, Sunday, 1) == Sunday - wd
  {
    Mod7(wd, 0, wd);
    Mod7(13 - wd, 1, 6 - wd);
  }

  /** Stepping back from ordinal `o` to its Monday stays at or after day 1. */
  lemma MondayInRange(o: int)
    requires o >= 1
    ensures 1 <= o - (o + 6) % 7
  {
    var q := (o + 6) / 7;
    assert o + 6 == 7 * q + (o + 6) % 7;
  }

  /** `MO(-1)` always succeeds: it moves back by the weekday number. */
  lemma WeekStart(d: Date)
    requires Valid(d)
    ensures RelativeWeekday(d, Monday, -1).Some?
    ensures var start := RelativeWeekday(d, Monday, -1).value;
            ToOrdinal(start) == ToOrdinal(d) - Weekday(d) && Weekday(start) == Monday
  {
    var wd := Weekday(d);
    WeekJumps(wd);
    OrdinalBounds(d);
    MondayInRange(ToOrdinal(d));
    AddDaysOrdinal(d, -wd);
    WeekdayShift(d, AddDays(d, -wd).value, -wd);
  }

  /** `SU(1)` moves forward by six minus the weekday number, unless that
      passes 9999-12-31. */
  lemma WeekEnd(d: Date)
    requires Valid(d)
    ensures RelativeWeekday(d, Sunday, 1).Some? <==> ToOrdinal(d) + (Sunday - Weekday(d)) <= MaxOrdinal
    ensures RelativeWeekday(d, Sunday, 1).Some? ==>
              var end := RelativeWeekday(d, Sunday, 1).value;
              ToOrdinal(end) == ToOrdinal(d) + (Sunday - Weekday(d)) && Weekday(end) == Sunday
  {
    var wd := Weekday(d);
    WeekJumps(wd);
    AddDaysOrdinal(d, Sunday - wd);
    if AddDays(d, Sunday - wd).Some? {
      WeekdayShift(d, AddDays(d, Sunday - wd).value, Sunday - wd);
    }
  }

  /** The week of `d` runs from a Monday on or before `d`, less than a week
      earlier, to the Sunday six days after that Monday, on or after `d`.
      It fails only when that Sunday would lie past 9999-12-31. */
  lemma WeekBoundsSpec(d: Date)
    requires Valid(d)
    ensures WeekBounds(d).Some? <==> ToOrdinal(d) + (Sunday - Weekday(d)) <= MaxOrdinal
    ensures WeekBounds(d).Some? ==>
              var w := WeekBounds(d).value;
              && Valid(w.start) && Valid(w.end)
              && Weekday(w.start) == Monday && Weekday(w.end) == Sunday
              && OnOrBefore(w.start, d) && OnOrBefore(d, w.end)
              && 0 <= ToOrdinal(d) - ToOrdinal(w.start) < 7
              && ToOrdinal(w.end) == ToOrdinal(w.start) + 6
              && (Weekday(d) == Monday ==> w.start == d)
              && (Weekday(d) == Sunday ==> w.end == d)
  {
    WeekStart(d);
    WeekEnd(d);
    if WeekBounds(d).Some? {
      var w := WeekBounds(d).value;
      OrdinalOrder(w.start, d);
      OrdinalOrder(d, w.end);
      if Weekday(d) == Monday {
        OrdinalInjective(w.start, d);
      }
      if Weekday(d) == Sunday {
        OrdinalInjective(w.end, d);
      }
    }
  }
}
