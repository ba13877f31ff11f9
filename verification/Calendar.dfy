/** The billing windows of scripts/provision-pilot-account.ts: calendar months in UTC, by the day and
    time arithmetic of ECMA-262, section 21.4.1. Instants are milliseconds since 1 January 1970. */
module Calendar {

  const MS_PER_DAY := 86_400_000

  function DayFromYear(y: int): int {
    365 * (y - 1970) + (y - 1969) / 4 - (y - 1901) / 100 + (y - 1601) / 400
  }

  predicate IsLeap(y: int) {
    y % 4 == 0 && (y % 100 != 0 || y % 400 == 0)
  }

  function DaysInMonth(m: int, leap: bool): (n: int)
    ensures 28 <= n <= 31
  {
    if m == 1 then (if leap then 29 else 28) else if m == 3 || m == 5 || m == 8 || m == 10 then 30 else 31
  }

  /** Days of the year before month `m`. */
  function DaysBefore(m: nat, leap: bool): int
    requires m <= 12
  {
    [0, 31, 59, 90, 120, 151, 181, 212, 243, 273, 304, 334, 365][m] + if leap && m >= 2 then 1 else 0
  }

  lemma DaysBeforeNext(m: nat, leap: bool)
    requires m < 12
    ensures DaysBefore(m + 1, leap) == DaysBefore(m, leap) + DaysInMonth(m, leap)
  {
  }

  lemma FourthYear(y: int)
    ensures (y - 1968) / 4 - (y - 1969) / 4 == if y % 4 == 0 then 1 else 0
  {
  }

  lemma Century(y: int)
    ensures (y - 1900) / 100 - (y - 1901) / 100 == if y % 100 == 0 then 1 else 0
  {
  }

  lemma FourthCentury(y: int)
    ensures (y - 1600) / 400 - (y - 1601) / 400 == if y % 400 == 0 then 1 else 0
  {
  }

  lemma YearLength(y: int)
    ensures DayFromYear(y + 1) == DayFromYear(y) + DaysBefore(12, IsLeap(y))
  {
    hide IsLeap;
    FourthYear(y);
    Century(y);
    FourthCentury(y);
    LeapByCounting(y);
  }

  lemma LeapByCounting(y: int)
    ensures (if y % 4 == 0 then 1 else 0) - (if y % 100 == 0 then 1 else 0) + (if y % 400 == 0 then 1 else 0)
         == if IsLeap(y) then 1 else 0
  {
  }

  function YearFrom(day: int, y: int): (r: int)
    requires DayFromYear(y) <= day
    ensures DayFromYear(r) <= day < DayFromYear(r + 1)
    decreases day - DayFromYear(y)
  {
    YearLength(y);
    if day < DayFromYear(y + 1) then y else YearFrom(day, y + 1)
  }

  /** The year whose days include `day`. */
  function YearOfDay(day: int): (r: int)
    ensures DayFromYear(r) <= day < DayFromYear(r + 1)
  {
    YearFrom(day, if day >= 0 then 1970 else 1970 + day)
  }

  function MonthFrom(offset: int, leap: bool, m: nat): (r: nat)
    requires m < 12 && DaysBefore(m, leap) <= offset < DaysBefore(12, leap)
    ensures r < 12 && DaysBefore(r, leap) <= offset < DaysBefore(r + 1, leap)
    decreases 12 - m
  {
    if offset < DaysBefore(m + 1, leap) then m else MonthFrom(offset, leap, m + 1)
  }

  function DayOf(t: int): int {
    t / MS_PER_DAY
  }

  /** `getUTCFullYear` and `getUTCMonth`. */
  function YearOf(t: int): int {
    YearOfDay(DayOf(t))
  }

  function MonthOf(t: int): (m: nat)
    ensures m < 12
  {
    var y := YearOf(t);
    YearLength(y);
    assert DaysBefore(0, IsLeap(y)) == 0;
    MonthFrom(DayOf(t) - DayFromYear(y), IsLeap(y), 0)
  }

  /** First day of the month with index `k`, twelve to the year. */
  function MonthStart(k: int): int {
    DayFromYear(k / 12) + DaysBefore(k % 12, IsLeap(k / 12))
  }

  function MonthIndex(t: int): int {
    12 * YearOf(t) + MonthOf(t)
  }

  /** `Date.UTC(year, month, 1)`; a year from 0 to 99 stands for one of the 1900s. */
  function UtcMonth(year: int, month: int): int {
    MonthStart(12 * (if 0 <= year <= 99 then 1900 + year else year) + month) * MS_PER_DAY
  }

  function StartOfCurrentMonth(t: int): int {
    UtcMonth(YearOf(t), MonthOf(t))
  }

  function StartOfNextMonth(t: int): int {
    UtcMonth(YearOf(t), MonthOf(t) + 1)
  }

  // ---- Months follow one another ----

  lemma MonthSteps(k: int)
    ensures MonthStart(k + 1) == MonthStart(k) + DaysInMonth(k % 12, IsLeap(k / 12))
    ensures MonthStart(12 * 1970) == 0
  {
    hide DayFromYear;
    hide IsLeap;
    hide DaysBefore;
    hide DaysInMonth;
    FirstMonth();
    DaysBeforeNext(k % 12, IsLeap(k / 12));
    if k % 12 == 11 {
      YearLength(k / 12);
      YearStart(k / 12 + 1);
      assert (k + 1) / 12 == k / 12 + 1 && (k + 1) % 12 == 0;
    } else {
      assert (k + 1) / 12 == k / 12 && (k + 1) % 12 == k % 12 + 1;
    }
  }

  /** The Gregorian rule. */
  predicate HasLeapDay(y: int) {
    y % 400 == 0 || (y % 4 == 0 && y % 100 != 0)
  }

  /** The calendar: month 0 of 1970 starts on day 0, and each month where the one before it ends. */
  lemma MonthLength(k: int)
    ensures MonthStart(12 * 1970) == 0
    ensures MonthStart(k + 1) - MonthStart(k)
         == match k % 12
            case 1 => if HasLeapDay(k / 12) then 29 else 28
            case 3 => 30
            case 5 => 30
            case 8 => 30
            case 10 => 30
            case _ => 31
  {
    hide MonthStart;
    MonthSteps(k);
  }

  lemma YearStart(y: int)
    ensures MonthStart(12 * y) == DayFromYear(y) && DaysBefore(0, IsLeap(y)) == 0
  {
  }

  lemma FirstMonth()
    ensures MonthStart(12 * 1970) == 0
  {
  }

  lemma {:induction false} MonthsIncrease(j: int, k: int)
    requires j <= k
    ensures MonthStart(j) <= MonthStart(k) && (j < k ==> MonthStart(j) < MonthStart(k))
    decreases k - j
  {
    hide MonthStart;
    if j < k {
      MonthsIncrease(j, k - 1);
      MonthSteps(k - 1);
    }
  }

  lemma MonthOfDay(t: int)
    ensures MonthStart(MonthIndex(t)) <= DayOf(t) < MonthStart(MonthIndex(t) + 1)
  {
    hide DayFromYear;
    hide IsLeap;
    hide DaysBefore;
    hide DaysInMonth;
    var y, m := YearOf(t), MonthOf(t);
    MonthIndexParts(t);
    MonthSteps(MonthIndex(t));
    DaysBeforeNext(m, IsLeap(y));
    MonthBounds(t);
  }

  lemma MonthBounds(t: int)
    ensures var leap, offset := IsLeap(YearOf(t)), DayOf(t) - DayFromYear(YearOf(t));
            DaysBefore(MonthOf(t), leap) <= offset < DaysBefore(MonthOf(t) + 1, leap)
  {
  }

  lemma MonthIndexParts(t: int)
    ensures MonthIndex(t) / 12 == YearOf(t) && MonthIndex(t) % 12 == MonthOf(t)
  {
  }

  /** An instant lies in the month that its year and month name, from its first millisecond to its last. */
  lemma MonthOfInstant(t: int)
    ensures var k := 12 * YearOf(t) + MonthOf(t);
            MonthOf(t) < 12 && MonthStart(k) * 86_400_000 <= t < MonthStart(k + 1) * 86_400_000
  {
    hide MonthStart, YearOf, MonthOf, DayOf;
    MonthOfDay(t);
    InDay(t, MonthStart(MonthIndex(t)));
    InDay(t, MonthStart(MonthIndex(t) + 1));
  }

  /** No other month holds it. */
  lemma MonthUnique(t: int, k: int)
    requires MonthStart(k) <= DayOf(t) < MonthStart(k + 1)
    ensures MonthIndex(t) == k
  {
    hide MonthStart;
    hide MonthIndex;
    hide DayOf;
    var i := MonthIndex(t);
    MonthOfDay(t);
    if i < k {
      MonthsIncrease(i + 1, k);
    } else if k < i {
      MonthsIncrease(k + 1, i);
    }
  }

  lemma InDay(t: int, day: int)
    ensures day * MS_PER_DAY <= t <==> day <= DayOf(t)
    ensures DayOf(day * MS_PER_DAY) == day
  {
  }

  /** The index of the month that the windows of `t` start in. */
  function WindowIndex(t: int): int {
    if 0 <= YearOf(t) <= 99 then MonthIndex(t) + 12 * 1900 else MonthIndex(t)
  }

  lemma Windows(t: int)
    ensures StartOfCurrentMonth(t) == MonthStart(WindowIndex(t)) * MS_PER_DAY
    ensures StartOfNextMonth(t) == MonthStart(WindowIndex(t) + 1) * MS_PER_DAY
  {
    hide MonthStart;
    hide YearOf;
    hide MonthOf;
  }

  /** Every window is one calendar month, of 28 to 31 days: that of the instant, but nineteen centuries later for the
      years 0 to 99. */
  lemma WindowLength(t: int)
    ensures var year := if 0 <= YearOf(t) <= 99 then 1900 + YearOf(t) else YearOf(t);
            var k := 12 * year + MonthOf(t);
            && StartOfCurrentMonth(t) == MonthStart(k) * 86_400_000
            && StartOfNextMonth(t) == MonthStart(k + 1) * 86_400_000
            && 28 <= MonthStart(k + 1) - MonthStart(k) <= 31
  {
    hide MonthStart;
    hide WindowIndex;
    hide StartOfCurrentMonth;
    hide StartOfNextMonth;
    hide IsLeap;
    Windows(t);
    MonthSteps(WindowIndex(t));
    WindowIndexParts(t);
  }

  lemma WindowIndexParts(t: int)
    ensures WindowIndex(t) == 12 * (if 0 <= YearOf(t) <= 99 then 1900 + YearOf(t) else YearOf(t)) + MonthOf(t)
  {
    hide YearOf, MonthOf;
  }

  /** The window of an instant contains it, unless its year is one of 0 to 99. */
  lemma WindowContains(t: int)
    ensures StartOfCurrentMonth(t) <= t < StartOfNextMonth(t) <==> !(0 <= YearOf(t) <= 99)
  {
    hide MonthStart;
    hide YearOf;
    hide MonthIndex;
    hide DayOf;
    hide StartOfCurrentMonth;
    hide StartOfNextMonth;
    var k := WindowIndex(t);
    Windows(t);
    MonthOfDay(t);
    InDay(t, MonthStart(k));
    InDay(t, MonthStart(k + 1));
    if 0 <= YearOf(t) <= 99 {
      MonthsIncrease(MonthIndex(t) + 1, k);
    }
  }

  /** Windows never overlap: an instant inside the window of another has the same window. */
  lemma WindowsTile(s: int, t: int)
    requires StartOfCurrentMonth(s) <= t < StartOfNextMonth(s)
    ensures StartOfCurrentMonth(t) == StartOfCurrentMonth(s) && StartOfNextMonth(t) == StartOfNextMonth(s)
  {
    hide MonthStart;
    hide YearOf;
    hide MonthOf;
    hide DayOf;
    hide StartOfCurrentMonth;
    hide StartOfNextMonth;
    var k := WindowIndex(s);
    Windows(s);
    InDay(t, MonthStart(k));
    InDay(t, MonthStart(k + 1));
    MonthUnique(t, k);
    MonthIndexParts(t);
    MonthIndexParts(s);
    assert YearOf(t) == k / 12;
    assert 0 <= YearOf(s) <= 99 ==> k / 12 == YearOf(s) + 1900;
    Windows(t);
  }

  /** The next window starts exactly where this one ends, except that the window after December of
      year -1 would start in year 0. */
  lemma NextWindowStarts(t: int)
    ensures StartOfCurrentMonth(StartOfNextMonth(t)) == StartOfNextMonth(t)
            <==> !(YearOf(t) == -1 && MonthOf(t) == 11)
  {
    hide MonthStart;
    hide YearOf;
    hide MonthOf;
    hide DayOf;
    hide StartOfCurrentMonth;
    hide StartOfNextMonth;
    var k := WindowIndex(t) + 1;
    var next := StartOfNextMonth(t);
    Windows(t);
    InDay(next, MonthStart(k));
    MonthSteps(k);
    MonthUnique(next, k);
    Windows(next);
    MonthIndexParts(next);
    MonthIndexParts(t);
    assert YearOf(next) == k / 12;
    if YearOf(t) == -1 && MonthOf(t) == 11 {
      assert k == 0;
      MonthsIncrease(0, 12 * 1900);
    }
  }

  // ---- The failing years, concretely ----

  lemma InstantOfMonth(k: int)
    ensures YearOf(MonthStart(k) * MS_PER_DAY) == k / 12 && MonthOf(MonthStart(k) * MS_PER_DAY) == k % 12
  {
    hide MonthStart;
    hide YearOf;
    hide MonthOf;
    hide DayOf;
    var t := MonthStart(k) * MS_PER_DAY;
    InDay(t, MonthStart(k));
    MonthSteps(k);
    MonthUnique(t, k);
    MonthIndexParts(t);
  }

  /** January of the year 50 is given a window of January 1950. */
  lemma EarlyYearMisplaced()
    ensures var t := MonthStart(12 * 50) * 86_400_000;
            t < StartOfCurrentMonth(t) == MonthStart(12 * 1950) * 86_400_000
  {
    hide MonthStart;
    hide YearOf;
    hide MonthOf;
    var t := MonthStart(12 * 50) * MS_PER_DAY;
    InstantOfMonth(12 * 50);
    MonthsIncrease(12 * 50, 12 * 1950);
  }

  /** The window after December of the year -1 does not start where that one ends. */
  lemma YearMinusOneBreaks()
    ensures var t := MonthStart(-1) * 86_400_000; StartOfCurrentMonth(StartOfNextMonth(t)) != StartOfNextMonth(t)
  {
    hide MonthStart;
    hide YearOf;
    hide MonthOf;
    hide StartOfCurrentMonth;
    hide StartOfNextMonth;
    InstantOfMonth(-1);
    NextWindowStarts(MonthStart(-1) * MS_PER_DAY);
  }
}
