/**
 * The proleptic Gregorian calendar over day numbers, as `Date.UTC` and the `getUTC…`
 * methods compute it (section 21.4.1 of ECMA-262). Day 0 is 1 January 1970.
 */
module Calendar {
  datatype Ymd = Ymd(y: int, m: int, d: int)

  predicate IsLeap(y: int) {
    y % 4 == 0 && (y % 100 != 0 || y % 400 == 0)
  }

  function MonthDays(y: int, m: int): (n: int)
    ensures 28 <= n <= 31
  {
    if m == 2 then (if IsLeap(y) then 29 else 28)
    else if m == 4 || m == 6 || m == 9 || m == 11 then 30
    else 31
  }

  predicate IsDate(a: Ymd) {
    1 <= a.m <= 12 && 1 <= a.d <= MonthDays(a.y, a.m)
  }

  /** The order of the calendar: by year, then month, then day. */
  predicate Earlier(a: Ymd, b: Ymd) {
    a.y < b.y || (a.y == b.y && (a.m < b.m || (a.m == b.m && a.d < b.d)))
  }

  // ---- dates to day numbers --------------------------------------------

  function YearStart(y: int): int {
    365 * (y - 1970) + (y - 1969) / 4 - (y - 1901) / 100 + (y - 1601) / 400
  }

  function YearDays(y: int): int {
    if IsLeap(y) then 366 else 365
  }

  /** The days of a common year before the month `m`; 13 stands for its end. */
  function CommonDaysBefore(m: int): int
    requires 1 <= m <= 13
  {
    if m == 1 then 0 else if m == 2 then 31 else if m == 3 then 59 else if m == 4 then 90
    else if m == 5 then 120 else if m == 6 then 151 else if m == 7 then 181 else if m == 8 then 212
    else if m == 9 then 243 else if m == 10 then 273 else if m == 11 then 304 else if m == 12 then 334
    else 365
  }

  function DaysBefore(y: int, m: int): int
    requires 1 <= m <= 13
  {
    CommonDaysBefore(m) + (if m > 2 && IsLeap(y) then 1 else 0)
  }

  function DayNumber(a: Ymd): int
    requires 1 <= a.m <= 12
  {
    YearStart(a.y) + DaysBefore(a.y, a.m) + a.d - 1
  }

  // ---- day numbers to dates --------------------------------------------

  /** The year that holds day `n`: an estimate from the mean year, corrected by one. */
  function YearOf(n: int): int {
    var e := 1970 + n * 400 / 146097;
    if n < YearStart(e) then e - 1 else if YearStart(e + 1) <= n then e + 1 else e
  }

  /** The month, from `m` on, that holds the day `k` of the year. */
  function MonthFrom(y: int, m: int, k: int): (r: int)
    requires 1 <= m <= 12
    ensures m <= r <= 12
    decreases 12 - m
  {
    if m == 12 || k < DaysBefore(y, m + 1) then m else MonthFrom(y, m + 1, k)
  }

  function DateOf(n: int): Ymd {
    var y := YearOf(n);
    var m := MonthFrom(y, 1, n - YearStart(y));
    Ymd(y, m, n - YearStart(y) - DaysBefore(y, m) + 1)
  }

  function Weekday(n: int): (w: int)
    ensures 0 <= w < 7
  {
    (n + 4) % 7
  }

  // ---- the bijection ---------------------------------------------------

  lemma FourthYear(y: int)
    ensures (y + 1 - 1969) / 4 == (y - 1969) / 4 + (if y % 4 == 0 then 1 else 0)
  {
  }

  lemma HundredthYear(y: int)
    ensures (y + 1 - 1901) / 100 == (y - 1901) / 100 + (if y % 100 == 0 then 1 else 0)
  {
  }

  lemma FourHundredthYear(y: int)
    ensures (y + 1 - 1601) / 400 == (y - 1601) / 400 + (if y % 400 == 0 then 1 else 0)
  {
  }

  lemma YearLength(y: int)
    ensures YearStart(y + 1) == YearStart(y) + YearDays(y)
  {
    FourthYear(y);
    HundredthYear(y);
    FourHundredthYear(y);
    LeapCount(y);
    hide IsLeap;
  }

  lemma LeapCount(y: int)
    ensures (if IsLeap(y) then 1 else 0)
         == (if y % 4 == 0 then 1 else 0) - (if y % 100 == 0 then 1 else 0) + (if y % 400 == 0 then 1 else 0)
  {
    if y % 400 == 0 {
      assert y == 100 * (4 * (y / 400));
    }
    if y % 100 == 0 {
      assert y == 4 * (25 * (y / 100));
    }
  }

  lemma MonthLength(y: int, m: int)
    requires 1 <= m <= 12
    ensures DaysBefore(y, m + 1) == DaysBefore(y, m) + MonthDays(y, m)
  {
  }

  lemma {:induction false} YearsInOrder(x: int, y: int)
    requires x <= y
    ensures YearStart(x) + 365 * (y - x) <= YearStart(y)
    decreases y - x
  {
    if x < y {
      YearsInOrder(x, y - 1);
      YearLength(y - 1);
    }
  }

  /** The first day of a year against the mean year of 146097/400 days. */
  lemma YearStartEstimate(k: int)
    ensures 146097 * k - 506 <= 400 * YearStart(1970 + k) <= 146097 * k + 589
  {
  }

  lemma YearOfHolds(n: int)
    ensures YearStart(YearOf(n)) <= n < YearStart(YearOf(n) + 1)
  {
    var k := n * 400 / 146097;
    YearStartEstimate(k);
    YearStartEstimate(k + 2);
    hide YearStart;
    YearsInOrder(1970 + k - 1, 1970 + k);
    assert YearStart(1970 + k) <= n + 1;
    assert n < YearStart(1970 + k + 2);
  }

  lemma {:induction false} MonthFromHolds(y: int, m: int, k: int)
    requires 1 <= m <= 12 && DaysBefore(y, m) <= k < DaysBefore(y, 13)
    ensures var r := MonthFrom(y, m, k); DaysBefore(y, r) <= k < DaysBefore(y, r + 1)
    decreases 12 - m
  {
    if m < 12 && DaysBefore(y, m + 1) <= k {
      MonthFromHolds(y, m + 1, k);
    }
  }

  lemma YearEnds(y: int)
    ensures DaysBefore(y, 1) == 0 && DaysBefore(y, 13) == YearDays(y)
  {
  }

  /** Every day number is the number of a date of the calendar. */
  lemma DayNumberOfDateOf(n: int)
    ensures IsDate(DateOf(n)) && DayNumber(DateOf(n)) == n
  {
    hide DaysBefore, YearStart, YearOf, MonthFrom, MonthDays, YearDays;
    var y := YearOf(n);
    YearOfHolds(n);
    YearLength(y);
    YearEnds(y);
    MonthFromHolds(y, 1, n - YearStart(y));
    MonthLength(y, MonthFrom(y, 1, n - YearStart(y)));
  }

  lemma {:induction false} MonthsInOrder(y: int, m: int, k: int)
    requires 1 <= m <= k <= 13
    ensures DaysBefore(y, m) + 28 * (k - m) <= DaysBefore(y, k)
    decreases k - m
  {
    if m < k {
      MonthsInOrder(y, m, k - 1);
      MonthLength(y, k - 1);
    }
  }

  lemma DayInYear(a: Ymd)
    requires IsDate(a)
    ensures YearStart(a.y) <= DayNumber(a) < YearStart(a.y + 1)
  {
    MonthsInOrder(a.y, 1, a.m);
    MonthsInOrder(a.y, a.m + 1, 13);
    YearLength(a.y);
  }

  /** Day numbers follow the order of the calendar. */
  lemma DayNumberOrder(a: Ymd, b: Ymd)
    requires IsDate(a) && IsDate(b)
    ensures Earlier(a, b) <==> DayNumber(a) < DayNumber(b)
    ensures a == b <==> DayNumber(a) == DayNumber(b)
  {
    if Earlier(a, b) {
      EarlierIsLess(a, b);
    } else if Earlier(b, a) {
      EarlierIsLess(b, a);
    }
  }

  lemma EarlierIsLess(a: Ymd, b: Ymd)
    requires IsDate(a) && IsDate(b) && Earlier(a, b)
    ensures DayNumber(a) < DayNumber(b)
  {
    if a.y < b.y {
      DayInYear(a);
      DayInYear(b);
      YearsInOrder(a.y + 1, b.y);
    } else if a.m < b.m {
      MonthsInOrder(a.y, a.m + 1, b.m);
    }
  }

  /** Every date comes back from its day number. */
  lemma DateOfDayNumber(a: Ymd)
    requires IsDate(a)
    ensures DateOf(DayNumber(a)) == a
  {
    DayNumberOfDateOf(DayNumber(a));
    DayNumberOrder(a, DateOf(DayNumber(a)));
  }

  // ---- Date.UTC --------------------------------------------------------

  /** The day of `(y, month0, d)`, with months and days out of range carried over. */
  function MakeDay(y: int, month0: int, d: int): int {
    DayNumber(Ymd(y + month0 / 12, month0 % 12 + 1, 1)) + d - 1
  }

  /** `Date.UTC` in days: the years 0 to 99 stand for 1900 to 1999. */
  function Utc(y: int, month0: int, d: int): int {
    MakeDay(if 0 <= y <= 99 then 1900 + y else y, month0, d)
  }

  lemma UtcOfDate(a: Ymd, n: int)
    requires IsDate(a) && 100 <= a.y
    ensures Utc(a.y, a.m - 1, a.d + n) == DayNumber(a) + n
  {
  }

  /** `new Date(Date.UTC(y, m, 0)).getUTCDate()`: day 0 of a month is the last of the month before. */
  function LastDay(y: int, m: int): int {
    DateOf(Utc(y, m, 0)).d
  }

  lemma MakeDayFirst(y: int, month0: int)
    ensures MakeDay(y, month0, 1) == DayNumber(MonthStart(y * 12 + month0))
    ensures MakeDay(y, month0, 0) == DayNumber(MonthEnd(y * 12 + month0 - 1))
  {
    hide DayNumber, MonthDays, MonthEnd, MonthIndex;
    MonthCarries(y, month0);
    MonthsTile(y * 12 + month0 - 1);
    hide MonthStart;
    DayBeforeFirst(y, month0);
  }

  lemma MonthCarries(y: int, month0: int)
    ensures MonthStart(y * 12 + month0) == Ymd(y + month0 / 12, month0 % 12 + 1, 1)
  {
    assert (y * 12 + month0) / 12 == y + month0 / 12 && (y * 12 + month0) % 12 == month0 % 12;
    hide MonthDays;
  }

  lemma DayBeforeFirst(y: int, month0: int)
    ensures MakeDay(y, month0, 0) == MakeDay(y, month0, 1) - 1
  {
    hide DayNumber;
  }

  lemma LastDayIsMonthDays(y: int, m: int)
    requires 100 <= y
    ensures var last := MonthEnd(y * 12 + m - 1); LastDay(y, m) == last.d == MonthDays(last.y, last.m)
  {
    hide DayNumber, DateOf, MonthDays, MakeDay;
    MakeDayFirst(y, m);
    DateOfDayNumber(MonthEnd(y * 12 + m - 1));
  }

  // ---- weekdays and months ---------------------------------------------

  /** The months since year 0. */
  function MonthIndex(a: Ymd): int {
    a.y * 12 + a.m - 1
  }

  function MonthStart(index: int): (a: Ymd)
    ensures IsDate(a) && MonthIndex(a) == index
  {
    Ymd(index / 12, index % 12 + 1, 1)
  }

  function MonthEnd(index: int): (a: Ymd)
    ensures IsDate(a) && MonthIndex(a) == index
  {
    Ymd(index / 12, index % 12 + 1, MonthDays(index / 12, index % 12 + 1))
  }

  /** Months follow one another without a gap. */
  lemma MonthsTile(index: int)
    ensures DayNumber(MonthEnd(index)) + 1 == DayNumber(MonthStart(index + 1))
    ensures DayNumber(MonthStart(index)) <= DayNumber(MonthEnd(index))
  {
    var a := MonthEnd(index);
    if a.m == 12 {
      YearLength(a.y);
      assert MonthStart(index + 1) == Ymd(a.y + 1, 1, 1);
    } else {
      assert MonthStart(index + 1) == Ymd(a.y, a.m + 1, 1);
    }
  }

  /** A date lies in its month. */
  lemma InItsMonth(a: Ymd)
    requires IsDate(a)
    ensures DayNumber(a) == DayNumber(MonthStart(MonthIndex(a))) + a.d - 1
    ensures DayNumber(MonthStart(MonthIndex(a))) <= DayNumber(a) <= DayNumber(MonthEnd(MonthIndex(a)))
  {
    assert MonthStart(MonthIndex(a)) == Ymd(a.y, a.m, 1);
    assert MonthEnd(MonthIndex(a)) == Ymd(a.y, a.m, MonthDays(a.y, a.m));
  }

  /** A later month lies wholly after. */
  lemma MonthOrder(a: Ymd, b: Ymd)
    requires IsDate(a) && IsDate(b)
    ensures MonthIndex(a) < MonthIndex(b) ==> DayNumber(a) < DayNumber(b)
    ensures DayNumber(a) <= DayNumber(b) ==> MonthIndex(a) <= MonthIndex(b)
  {
    DayNumberOrder(a, b);
  }

  // ---- adding months ---------------------------------------------------

  /** The date `n` months later, on the same day or the last one of a shorter month. */
  function PlusMonths(a: Ymd, n: int): (r: Ymd)
    requires IsDate(a)
    ensures IsDate(r) && MonthIndex(r) == MonthIndex(a) + n
    ensures r.d == (if a.d <= MonthDays(r.y, r.m) then a.d else MonthDays(r.y, r.m))
  {
    var s := MonthStart(MonthIndex(a) + n);
    s.(d := if a.d <= MonthDays(s.y, s.m) then a.d else MonthDays(s.y, s.m))
  }

  function PlusDays(a: Ymd, n: int): Ymd
    requires 1 <= a.m <= 12
  {
    DateOf(DayNumber(a) + n)
  }

  function Min(a: int, b: int): int {
    if a <= b then a else b
  }
}
