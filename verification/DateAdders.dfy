/** The day and month adders that the repository has in three places, and why they agree. */
module DateAdders {
  import opened Calendar
  import opened DateText

  // ---- business reminders ----------------------------------------------

  /** The remainder of `%`, with the sign of the dividend. */
  function JsRem(n: int, k: int): int
    requires k > 0
  {
    if n >= 0 then n % k else -(-n % k)
  }

  /** `addDaysToDate`. */
  function AddDaysToDate(a: Ymd, days: int): (r: Ymd)
    ensures IsDate(r)
  {
    DayNumberOfDateOf(Utc(a.y, a.m - 1, a.d + days));
    DateOf(Utc(a.y, a.m - 1, a.d + days))
  }

  /** `addMonthsToDate`, as the three numbers that it prints. */
  function AddMonthsToDate(a: Ymd, months: int): Ymd {
    var total := a.y * 12 + (a.m - 1) + months;
    var ny, nm := total / 12, JsRem(total, 12) + 1;
    Ymd(ny, nm, Min(a.d, LastDay(ny, nm)))
  }

  /** `daysBetween`. */
  function DaysBetween(a: Ymd, b: Ymd): int {
    Utc(b.y, b.m - 1, b.d) - Utc(a.y, a.m - 1, a.d)
  }

  // ---- contracts -------------------------------------------------------

  /** `addDaysYmd`. */
  function AddDaysYmd(a: Ymd, days: int): (r: Ymd)
    ensures IsDate(r)
  {
    DayNumberOfDateOf(Utc(a.y, a.m - 1, a.d + days));
    DateOf(Utc(a.y, a.m - 1, a.d + days))
  }

  /** `addMonthsYmd`. */
  function AddMonthsYmd(a: Ymd, months: int): (r: Ymd)
    ensures IsDate(r)
  {
    var lastDay := DateOf(Utc(a.y, a.m - 1 + months + 1, 0)).d;
    DayNumberOfDateOf(Utc(a.y, a.m - 1 + months, Min(a.d, lastDay)));
    DateOf(Utc(a.y, a.m - 1 + months, Min(a.d, lastDay)))
  }

  // ---- payment plans ---------------------------------------------------

  /** `addDays`: the day of the month is set on the Date itself. */
  function AddDays(a: Ymd, n: int): (r: Ymd)
    requires IsDate(a)
    ensures IsDate(r)
  {
    var d := DateOf(DayNumber(a));
    DayNumberOfDateOf(MakeDay(d.y, d.m - 1, d.d + n));
    DateOf(MakeDay(d.y, d.m - 1, d.d + n))
  }

  /** `addMonths`. */
  function AddMonths(a: Ymd, n: int): (r: Ymd)
    ensures IsDate(r)
  {
    var last := DateOf(Utc(a.y, a.m - 1 + n + 1, 0)).d;
    DayNumberOfDateOf(Utc(a.y, a.m - 1 + n, Min(a.d, last)));
    DateOf(Utc(a.y, a.m - 1 + n, Min(a.d, last)))
  }

  // ---- what they compute -----------------------------------------------

  /** The three day adders move along the day numbers. */
  lemma DayAddersAgree(a: Ymd, n: int)
    requires IsDate(a) && 100 <= a.y
    ensures AddDaysToDate(a, n) == AddDaysYmd(a, n) == AddDays(a, n) == PlusDays(a, n)
    ensures DayNumber(AddDaysToDate(a, n)) == DayNumber(a) + n
  {
    hide DayNumber, DateOf, Utc, MakeDay;
    UtcOfDate(a, n);
    DateOfDayNumber(a);
    DayNumberOfDateOf(DayNumber(a) + n);
    MakeDayOfDate(a, n);
  }

  lemma MakeDayOfDate(a: Ymd, n: int)
    requires IsDate(a)
    ensures MakeDay(a.y, a.m - 1, a.d + n) == DayNumber(a) + n
  {
  }

  lemma MonthWithDay(y: int, month0: int, r: Ymd)
    requires 100 <= y && IsDate(r) && MonthIndex(r) == y * 12 + month0
    ensures Utc(y, month0, r.d) == DayNumber(r)
  {
    hide DayNumber, MonthDays;
    MakeDayFirst(y, month0);
    InItsMonth(r);
    hide MonthIndex, MonthStart;
    assert Utc(y, month0, r.d) == MakeDay(y, month0, 1) + r.d - 1;
  }

  lemma MonthFloor(a: Ymd, n: int)
    requires IsDate(a) && 100 <= a.y && 1200 <= MonthIndex(a) + n
    ensures var r, total := PlusMonths(a, n), a.y * 12 + (a.m - 1) + n;
            && r.y == total / 12 && r.m == JsRem(total, 12) + 1 && 100 <= r.y
            && MonthEnd(total).y == r.y && MonthEnd(total).m == r.m
  {
  }

  /**
   * Back or forth to any year from 100 on, the three month adders give the same date: on the
   * same day, or on the last one of a shorter month.
   */
  lemma MonthAddersAgree(a: Ymd, n: int)
    requires IsDate(a) && 100 <= a.y && 1200 <= MonthIndex(a) + n
    ensures AddMonthsToDate(a, n) == AddMonthsYmd(a, n) == AddMonths(a, n) == PlusMonths(a, n)
  {
    hide AddMonthsToDate, AddMonthsYmd, AddMonths, PlusMonths, MonthIndex;
    ReminderAdderIs(a, n);
    ContractAddersAre(a, n);
  }

  lemma ReminderAdderIs(a: Ymd, n: int)
    requires IsDate(a) && 100 <= a.y && 1200 <= MonthIndex(a) + n
    ensures AddMonthsToDate(a, n) == PlusMonths(a, n)
  {
    hide DateOf, MonthDays, Utc, MonthStart;
    var r, total := PlusMonths(a, n), a.y * 12 + (a.m - 1) + n;
    MonthFloor(a, n);
    LastDayIsMonthDays(r.y, r.m);
    assert r.y * 12 + r.m - 1 == total;
    hide MonthEnd, JsRem, LastDay;
  }

  lemma ContractAddersAre(a: Ymd, n: int)
    requires IsDate(a) && 100 <= a.y && 1200 <= MonthIndex(a) + n
    ensures AddMonthsYmd(a, n) == AddMonths(a, n) == PlusMonths(a, n)
  {
    hide DateOf, DayNumber, MonthDays, Utc, MonthStart;
    var r, total := PlusMonths(a, n), a.y * 12 + (a.m - 1) + n;
    MonthFloor(a, n);
    LastDayIsMonthDays(a.y, a.m + n);
    assert MonthIndex(r) == total;
    hide MonthEnd;
    MonthWithDay(a.y, a.m - 1 + n, r);
    DateOfDayNumber(r);
    assert LastDay(a.y, a.m + n) == DateOf(Utc(a.y, a.m - 1 + n + 1, 0)).d;
    hide LastDay;
  }

  /** From year 1000 on, the printed results of the adders agree exactly while the year has four digits. */
  lemma AddersPrintAlike(a: Ymd, n: int)
    requires IsDate(a) && 1000 <= a.y && 0 <= n
    ensures Fmt(AddDaysToDate(a, n)) == IsoDay(AddDaysYmd(a, n)) <==> IsFourDigitYear(AddDaysToDate(a, n).y)
    ensures Fmt(PlusMonths(a, n)) == IsoDay(AddMonthsYmd(a, n)) <==> IsFourDigitYear(PlusMonths(a, n).y)
  {
    DayAddersAgree(a, n);
    assert 1200 <= MonthIndex(a) + n;
    MonthAddersAgree(a, n);
    DayNumberOrder(a, AddDaysToDate(a, n));
    PrintersAgree(AddDaysToDate(a, n));
    PrintersAgree(PlusMonths(a, n));
  }

  /** Adding the days between two dates leads from one to the other, and measuring undoes adding. */
  lemma DaysBetweenInverse(a: Ymd, b: Ymd, n: int)
    requires IsDate(a) && IsDate(b) && 100 <= a.y && 100 <= b.y
    ensures AddDaysToDate(a, DaysBetween(a, b)) == b
    ensures 100 <= AddDaysToDate(a, n).y ==> DaysBetween(a, AddDaysToDate(a, n)) == n
  {
    hide DayNumber, DateOf, Utc, AddDaysToDate;
    UtcOfDate(a, 0);
    UtcOfDate(b, 0);
    DayAddersAgree(a, DaysBetween(a, b));
    DayAddersAgree(a, n);
    DayNumberOrder(AddDaysToDate(a, DaysBetween(a, b)), b);
    var r := AddDaysToDate(a, n);
    if 100 <= r.y {
      UtcOfDate(r, 0);
    }
  }

  /** `daysBetween` is the distance of the day numbers. */
  lemma DaysBetweenIs(a: Ymd, b: Ymd)
    requires IsDate(a) && IsDate(b) && 100 <= a.y && 100 <= b.y
    ensures DaysBetween(a, b) == DayNumber(b) - DayNumber(a)
  {
    hide DayNumber, DateOf, Utc;
    UtcOfDate(a, 0);
    UtcOfDate(b, 0);
  }

  // ---- repeating a month step ------------------------------------------

  /** `nextReminderDueDate` applied `k` times with a period of `months`. */
  function Repeated(a: Ymd, months: int, k: nat): Ymd
  {
    if k == 0 then a else AddMonthsToDate(Repeated(a, months, k - 1), months)
  }

  /** The shortest month met in `k` steps. */
  function ShortestMet(index: int, months: int, k: nat): (n: int)
    ensures 28 <= n <= 31
  {
    if k == 0 then 31
    else
      var e := MonthEnd(index + months * k);
      Min(ShortestMet(index, months, k - 1), MonthDays(e.y, e.m))
  }

  /**
   * Stepping from due date to due date drifts: after `k` steps the day is cut to the
   * shortest month met on the way, and never grows back.
   */
  lemma {:induction false} RepeatedDrifts(a: Ymd, months: nat, k: nat)
    requires IsDate(a) && 1000 <= a.y
    ensures var r := Repeated(a, months, k);
            && IsDate(r) && 1000 <= r.y && MonthIndex(r) == MonthIndex(a) + months * k
            && r.d == Min(a.d, ShortestMet(MonthIndex(a), months, k))
  {
    hide AddMonthsToDate, PlusMonths;
    if k > 0 {
      RepeatedDrifts(a, months, k - 1);
      var before := Repeated(a, months, k - 1);
      MonthAddersAgree(before, months);
      assert months * k == months * (k - 1) + months;
      hide ShortestMet, MonthDays;
      var r := Repeated(a, months, k);
      assert r == PlusMonths(before, months);
      RepeatedStep(a, months, k, before, r);
    } else {
      assert months * k == 0;
    }
  }

  lemma RepeatedStep(a: Ymd, months: nat, k: nat, before: Ymd, r: Ymd)
    requires k > 0 && IsDate(a) && IsDate(before) && r == PlusMonths(before, months)
    requires MonthIndex(r) == MonthIndex(a) + months * k
    requires before.d == Min(a.d, ShortestMet(MonthIndex(a), months, k - 1))
    ensures r.d == Min(a.d, ShortestMet(MonthIndex(a), months, k))
  {
    var e := MonthEnd(MonthIndex(a) + months * k);
    assert e.y == r.y && e.m == r.m;
  }

  /**
   * The stepped date is the one counted from the start if and only if no month on the
   * way was shorter than the day and the month reached allow.
   */
  lemma RepeatedExact(a: Ymd, months: nat, k: nat)
    requires IsDate(a) && 1000 <= a.y
    ensures var target := PlusMonths(a, months * k);
            Repeated(a, months, k) == target <==> target.d <= ShortestMet(MonthIndex(a), months, k)
  {
    RepeatedDrifts(a, months, k);
    var target, r := PlusMonths(a, months * k), Repeated(a, months, k);
    assert r.y == target.y && r.m == target.m;
    ShortestIsShort(a, months, k);
    hide ShortestMet;
  }

  lemma ShortestIsShort(a: Ymd, months: nat, k: nat)
    requires IsDate(a)
    ensures var target := PlusMonths(a, months * k);
            k > 0 ==> ShortestMet(MonthIndex(a), months, k) <= MonthDays(target.y, target.m)
    ensures k == 0 ==> PlusMonths(a, months * k) == a
  {
    var target := PlusMonths(a, months * k);
    var e := MonthEnd(MonthIndex(a) + months * k);
    assert e.y == target.y && e.m == target.m;
    if k == 0 {
      assert months * k == 0;
    }
  }

  lemma ShortestOfTwo(index: int)
    ensures ShortestMet(index, 1, 2) <= MonthDays(MonthEnd(index + 1).y, MonthEnd(index + 1).m)
  {
    hide MonthEnd, MonthDays;
    assert ShortestMet(index, 1, 2) <= ShortestMet(index, 1, 1);
  }

  /** Monthly from 31 January: after a month of 28 days the day never gets back to the 31st. */
  lemma DriftExample(a: Ymd)
    requires IsDate(a) && a == Ymd(2026, 1, 31)
    ensures Repeated(a, 1, 2).d == 28
    ensures PlusMonths(a, 2).d == 31
  {
    hide AddMonthsToDate, Repeated, ShortestMet, PlusMonths;
    assert IsDate(a);
    hide MonthDays, MonthEnd;
    RepeatedDrifts(a, 1, 2);
    ShortestOfTwo(MonthIndex(a));
    ExampleMonths(a);
  }

  lemma ExampleMonths(a: Ymd)
    requires a == Ymd(2026, 1, 31)
    ensures var e := MonthEnd(MonthIndex(a) + 1); MonthDays(e.y, e.m) == 28
    ensures PlusMonths(a, 2) == Ymd(2026, 3, 31)
  {
    assert MonthIndex(a) == 24312;
  }
}
