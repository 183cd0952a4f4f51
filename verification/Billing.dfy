/** The first monthly payment of a contract and the charges that follow it. */
module Billing {
  import opened Text
  import opened Calendar

  // ---- the first payment -----------------------------------------------

  datatype Plan = Plan(
    periodStart: Ymd, periodEnd: Ymd, days: int, daysInMonth: int,
    fullFirstMonth: bool, includesNextMonth: bool,
    nextMonthStart: Option<Ymd>, billingStartsOn: Ymd)

  function UtcDate(y: int, month0: int, d: int): Ymd {
    DateOf(Utc(y, month0, d))
  }

  /** `firstMonthPlan`; a threshold of null or 0 never includes the next month. */
  function FirstMonthPlan(start: Ymd, nextMonthFromDay: Option<int>): Plan {
    var month := start.m - 1;
    var daysInMonth := UtcDate(start.y, month + 1, 0).d;
    var full := start.d == 1;
    var includes := !full && nextMonthFromDay.Some? && nextMonthFromDay.value != 0 && nextMonthFromDay.value <= start.d;
    Plan(UtcDate(start.y, month, start.d),
         if includes then UtcDate(start.y, month + 2, 0) else UtcDate(start.y, month + 1, 0),
         daysInMonth - start.d + 1, daysInMonth, full, includes,
         if includes then Some(UtcDate(start.y, month + 1, 1)) else None,
         if includes then UtcDate(start.y, month + 2, 1) else UtcDate(start.y, month + 1, 1))
  }

  lemma UtcMonthEdges(y: int, month0: int)
    requires 100 <= y
    ensures UtcDate(y, month0, 1) == MonthStart(y * 12 + month0)
    ensures UtcDate(y, month0, 0) == MonthEnd(y * 12 + month0 - 1)
  {
    MakeDayFirst(y, month0);
    hide DayNumber, DateOf, MakeDay;
    DateOfDayNumber(MonthStart(y * 12 + month0));
    DateOfDayNumber(MonthEnd(y * 12 + month0 - 1));
    assert Utc(y, month0, 1) == MakeDay(y, month0, 1);
    assert Utc(y, month0, 0) == MakeDay(y, month0, 0);
  }

  lemma MonthEndShape(i: int)
    ensures MonthEnd(i).d == MonthDays(MonthEnd(i).y, MonthEnd(i).m) && MonthStart(i).d == 1
    ensures forall a: Ymd :: IsDate(a) && MonthIndex(a) == i ==> a.y == MonthEnd(i).y && a.m == MonthEnd(i).m
  {
  }

  /** The plan in whole months: from the entry day to the end of this month or the next. */
  lemma PlanInMonths(start: Ymd, threshold: Option<int>)
    requires IsDate(start) && 100 <= start.y
    ensures var p, i := FirstMonthPlan(start, threshold), MonthIndex(start);
            var last := if p.includesNextMonth then i + 1 else i;
            && p.periodStart == start && p.periodEnd == MonthEnd(last) && p.billingStartsOn == MonthStart(last + 1)
            && p.daysInMonth == MonthDays(start.y, start.m) && 1 <= p.days == p.daysInMonth - start.d + 1
            && p.nextMonthStart == (if p.includesNextMonth then Some(MonthStart(i + 1)) else None)
  {
    hide DateOf, Utc, DayNumber, MonthStart, MonthEnd, MonthDays;
    var y, month, i := start.y, start.m - 1, MonthIndex(start);
    UtcOfDate(start, 0);
    DateOfDayNumber(start);
    assert UtcDate(y, month, start.d) == start;
    hide UtcDate;
    UtcMonthEdges(y, month + 1);
    UtcMonthEdges(y, month + 2);
    MonthEndShape(i);
    assert y * 12 + month == i;
    hide MonthIndex;
  }

  /**
   * The first payment reaches the end of the next month if and only if the entry day is not the
   * first, there is a threshold other than 0 and the entry day is not before it.
   */
  lemma NextMonthExactly(start: Ymd, threshold: Option<int>)
    requires IsDate(start) && 100 <= start.y
    ensures var p, i := FirstMonthPlan(start, threshold), MonthIndex(start);
            var reaches := start.d != 1 && threshold.Some? && threshold.value != 0 && start.d >= threshold.value;
            && (p.includesNextMonth <==> reaches)
            && p.periodEnd == (if reaches then MonthEnd(i + 1) else MonthEnd(i))
            && p.billingStartsOn == (if reaches then MonthStart(i + 2) else MonthStart(i + 1))
            && (p.fullFirstMonth <==> start.d == 1)
  {
    IncludesMeans(start, threshold);
    hide FirstMonthPlan, MonthStart, MonthEnd, MonthIndex, MonthDays;
    PlanInMonths(start, threshold);
  }

  lemma IncludesMeans(start: Ymd, threshold: Option<int>)
    ensures var p := FirstMonthPlan(start, threshold);
            && (p.fullFirstMonth <==> start.d == 1)
            && (p.includesNextMonth
                <==> start.d != 1 && threshold.Some? && threshold.value != 0 && start.d >= threshold.value)
  {
    hide UtcDate;
  }

  /**
   * The first payment leaves no gap: billing starts the day after the period ends, and the
   * days paid are those of the entry month plus, when included, the whole next month.
   */
  lemma PlanTiles(start: Ymd, threshold: Option<int>)
    requires IsDate(start) && 100 <= start.y
    ensures var p := FirstMonthPlan(start, threshold);
            && DayNumber(p.billingStartsOn) == DayNumber(p.periodEnd) + 1
            && p.billingStartsOn.d == 1
            && DayNumber(p.periodEnd) - DayNumber(p.periodStart) + 1
               == p.days + (if p.includesNextMonth then MonthDays(p.periodEnd.y, p.periodEnd.m) else 0)
            && (p.includesNextMonth ==> DayNumber(p.nextMonthStart.value) == DayNumber(p.periodStart) + p.days)
  {
    hide FirstMonthPlan, DayNumber, MonthDays, MonthStart, MonthEnd, MonthIndex, IsLeap;
    PlanInMonths(start, threshold);
    ToMonthEnd(start);
    MonthsTile(MonthIndex(start));
    MonthsTile(MonthIndex(start) + 1);
    WholeMonth(MonthIndex(start) + 1);
    MonthEndShape(MonthIndex(start) + 1);
    MonthEndShape(MonthIndex(start) + 2);
  }

  lemma ToMonthEnd(a: Ymd)
    requires IsDate(a)
    ensures DayNumber(MonthEnd(MonthIndex(a))) - DayNumber(a) == MonthDays(a.y, a.m) - a.d
  {
    hide DayNumber, MonthDays, MonthStart;
    var end := MonthEnd(MonthIndex(a));
    assert end.y == a.y && end.m == a.m && end.d == MonthDays(a.y, a.m);
    hide MonthEnd;
    InItsMonth(a);
    InItsMonth(end);
  }

  lemma WholeMonth(i: int)
    ensures DayNumber(MonthEnd(i)) - DayNumber(MonthStart(i)) + 1 == MonthDays(MonthEnd(i).y, MonthEnd(i).m)
  {
    hide DayNumber, MonthDays;
    InItsMonth(MonthEnd(i));
  }

  // ---- the next charge -------------------------------------------------

  datatype Contract = Contract(
    billingIntervalMonths: int, billingStartsOn: Option<Ymd>, freeMonthsRemaining: int,
    prepayDiscountPct: real, coveredUntil: Option<Ymd>)

  predicate IsLateDate(a: Ymd) {
    IsDate(a) && 100 <= a.y
  }

  predicate AreLateDates(days: seq<Ymd>) {
    forall k :: 0 <= k < |days| ==> IsLateDate(days[k])
  }

  predicate IsContract(c: Contract) {
    && (c.billingStartsOn.Some? ==> IsLateDate(c.billingStartsOn.value))
    && (c.coveredUntil.Some? ==> IsLateDate(c.coveredUntil.value))
  }

  function NextDay(a: Ymd): (r: Ymd)
    requires IsDate(a)
    ensures IsDate(r) && DayNumber(r) == DayNumber(a) + 1 && a.y <= r.y
  {
    DayNumberOfDateOf(DayNumber(a) + 1);
    DayNumberOrder(a, DateOf(DayNumber(a) + 1));
    DateOf(DayNumber(a) + 1)
  }

  /** The first day that is not paid yet and the first day of billing, when known. */
  function Candidates(c: Contract): (r: seq<Ymd>)
    requires IsContract(c)
    ensures AreLateDates(r)
  {
    (if c.coveredUntil.Some? then [NextDay(c.coveredUntil.value)] else [])
    + (if c.billingStartsOn.Some? then [c.billingStartsOn.value] else [])
  }

  /** The month charged: the one after today, or a later one that a candidate falls in. */
  function ChargeMonth(month: int, candidates: seq<Ymd>): int {
    if candidates == [] then month
    else
      var before := ChargeMonth(month, candidates[..|candidates| - 1]);
      Max(before, MonthIndex(candidates[|candidates| - 1]))
  }

  function Max(a: int, b: int): int {
    if a < b then b else a
  }

  /** The first day that the charge of `month` pays: its latest candidate, or its first day. */
  function FirstPaidDay(month: int, candidates: seq<Ymd>): (r: Ymd)
    requires AreLateDates(candidates)
    ensures IsDate(r) && MonthIndex(r) == month
    ensures forall k :: 0 <= k < |candidates| && MonthIndex(candidates[k]) == month ==> candidates[k].d <= r.d
    ensures r == MonthStart(month) || r in candidates
  {
    if candidates == [] then MonthStart(month)
    else
      var before, last := FirstPaidDay(month, candidates[..|candidates| - 1]), candidates[|candidates| - 1];
      if MonthIndex(last) == month && before.d < last.d then last else before
  }

  /** The part of its month that a first paid day leaves to pay. */
  function Share(first: Ymd): real {
    (MonthDays(first.y, first.m) - first.d + 1) as real / MonthDays(first.y, first.m) as real
  }

  lemma ShareIsProper(first: Ymd)
    requires IsDate(first)
    ensures 0.0 < Share(first) <= 1.0
    ensures Share(first) == 1.0 <==> first.d == 1
  {
  }

  /** The month and first day that a monthly contract is charged for next. */
  function NextPaidDay(c: Contract, today: Ymd): (r: Ymd)
    requires IsContract(c)
    ensures IsDate(r) && MonthIndex(r) == ChargeMonth(MonthIndex(today) + 1, Candidates(c))
  {
    FirstPaidDay(ChargeMonth(MonthIndex(today) + 1, Candidates(c)), Candidates(c))
  }

  function ChargeDate(c: Contract, today: Ymd): Ymd
    requires IsContract(c)
  {
    if c.billingIntervalMonths > 1 then
      if c.coveredUntil.Some? then NextDay(c.coveredUntil.value)
      else if c.billingStartsOn.Some? then c.billingStartsOn.value
      else MonthStart(MonthIndex(today) + 1)
    else MonthStart(MonthIndex(NextPaidDay(c, today)))
  }

  function RentDue(c: Contract, rent: real): real {
    if c.freeMonthsRemaining > 0 then 0.0 else rent
  }

  function Prorated(price: real, share: real): real {
    price * share
  }

  function Prepaid(rent: real, insurance: real, discount: real, months: real): real {
    (rent * (1.0 - discount) + insurance) * months
  }

  function ChargeAmount(c: Contract, rent: real, insurance: real, today: Ymd): real
    requires IsContract(c)
  {
    if c.billingIntervalMonths > 1 then
      Prepaid(RentDue(c, rent), insurance, c.prepayDiscountPct / 100.0, c.billingIntervalMonths as real)
    else Prorated(RentDue(c, rent) + insurance, Share(NextPaidDay(c, today)))
  }

  function StartOfMonth(a: Ymd): Ymd {
    UtcDate(a.y, a.m - 1, 1)
  }

  lemma StartOfMonthIs(a: Ymd)
    requires IsLateDate(a)
    ensures StartOfMonth(a) == MonthStart(MonthIndex(a))
  {
    hide UtcDate, MonthStart, MonthEnd;
    UtcMonthEdges(a.y, a.m - 1);
    assert a.y * 12 + (a.m - 1) == MonthIndex(a);
  }

  /** Starts of months compare as their months. */
  lemma MonthStartOrder(i: int, j: int)
    ensures DayNumber(MonthStart(i)) < DayNumber(MonthStart(j)) <==> i < j
    ensures MonthStart(i) == MonthStart(j) <==> i == j
  {
    MonthOrder(MonthStart(i), MonthStart(j));
    MonthOrder(MonthStart(j), MonthStart(i));
  }

  lemma NextMonthStart(today: Ymd)
    requires IsLateDate(today)
    ensures UtcDate(today.y, today.m, 1) == MonthStart(MonthIndex(today) + 1)
    ensures 100 <= MonthStart(MonthIndex(today) + 1).y
  {
    hide UtcDate;
    UtcMonthEdges(today.y, today.m);
    assert today.y * 12 + today.m == MonthIndex(today) + 1;
  }

  /** `nextContractCharge`. */
  method NextContractCharge(c: Contract, rent: real, insurance: real, today: Ymd)
    returns (date: Ymd, amount: real)
    requires IsContract(c) && IsLateDate(today)
    ensures date == ChargeDate(c, today)
    ensures amount == ChargeAmount(c, rent, insurance, today)
  {
    hide UtcDate, DayNumber, MonthStart, Share, FirstPaidDay, ChargeMonth, NextDay;
    var firstOfNextMonth := UtcDate(today.y, today.m, 1);
    ghost var next := MonthIndex(today) + 1;
    NextMonthStart(today);
    var due := if c.freeMonthsRemaining > 0 then 0.0 else rent;
    var candidates := Candidates(c);
    if c.billingIntervalMonths > 1 {
      var pct := c.prepayDiscountPct / 100.0;
      date := if candidates != [] then candidates[0] else firstOfNextMonth;
      amount := (due * (1.0 - pct) + insurance) * c.billingIntervalMonths as real;
      return;
    }
    date := LaterStart(firstOfNextMonth, next, candidates);
    var share := MonthShare(date, ChargeMonth(next, candidates), candidates);
    amount := (due + insurance) * share;
  }

  /** The share of the month that starts on `date`, from its latest candidate on. */
  method MonthShare(date: Ymd, ghost month: int, candidates: seq<Ymd>) returns (share: real)
    requires date == MonthStart(month) && 100 <= date.y && AreLateDates(candidates)
    ensures share == Share(FirstPaidDay(month, candidates))
  {
    hide UtcDate, DayNumber, MonthDays, FirstPaidDay;
    share := 1.0;
    var from := LatestIn(date, month, candidates);
    ghost var first := FirstPaidDay(month, candidates);
    ShareIsProper(first);
    MonthLengthOf(date);
    assert first.y == date.y && first.m == date.m && date.d == 1;
    if from.Some? && from.value.d > 1 {
      var days := UtcDate(date.y, date.m, 0).d;
      share := (days - from.value.d + 1) as real / days as real;
    }
  }

  lemma MonthLengthOf(date: Ymd)
    requires IsDate(date)
    ensures 100 <= date.y ==> UtcDate(date.y, date.m, 0).d == MonthDays(date.y, date.m)
  {
    hide UtcDate, MonthStart, MonthEnd;
    if 100 <= date.y {
      UtcMonthEdges(date.y, date.m);
      assert date.y * 12 + date.m - 1 == MonthIndex(date);
      MonthEndShape(MonthIndex(date));
    }
  }

  /** The loop over the candidates: each one may push the date to the start of its month. */
  method LaterStart(start: Ymd, ghost month: int, candidates: seq<Ymd>) returns (date: Ymd)
    requires start == MonthStart(month) && 100 <= start.y
    requires AreLateDates(candidates)
    ensures date == MonthStart(ChargeMonth(month, candidates)) && 100 <= date.y
  {
    hide DateOf, DayNumber, MonthStart;
    date := start;
    for i := 0 to |candidates|
      invariant date == MonthStart(ChargeMonth(month, candidates[..i])) && 100 <= date.y
    {
      assert candidates[..i + 1][..i] == candidates[..i];
      StartOfMonthIs(candidates[i]);
      MonthStartOrder(ChargeMonth(month, candidates[..i]), MonthIndex(candidates[i]));
      if DayNumber(StartOfMonth(candidates[i])) > DayNumber(date) {
        date := StartOfMonth(candidates[i]);
        StartYear(candidates[i]);
      }
    }
    assert candidates[..|candidates|] == candidates;
  }

  lemma StartYear(a: Ymd)
    requires IsDate(a)
    ensures MonthStart(MonthIndex(a)) == Ymd(a.y, a.m, 1)
  {
  }

  /** The latest candidate in the month that starts on `date`. */
  method LatestIn(date: Ymd, ghost month: int, candidates: seq<Ymd>) returns (from: Option<Ymd>)
    requires date == MonthStart(month)
    requires AreLateDates(candidates)
    ensures FirstPaidDay(month, candidates) == if from.Some? then from.value else date
  {
    hide DateOf, DayNumber, MonthStart;
    from := None;
    for i := 0 to |candidates|
      invariant FirstPaidDay(month, candidates[..i]) == if from.Some? then from.value else date
    {
      assert candidates[..i + 1][..i] == candidates[..i];
      StartOfMonthIs(candidates[i]);
      MonthStartOrder(month, MonthIndex(candidates[i]));
      StartYear(candidates[i]);
      if StartOfMonth(candidates[i]) == date {
        if from.None? || from.value.d < candidates[i].d {
          from := Some(candidates[i]);
        }
      }
    }
    assert candidates[..|candidates|] == candidates;
  }
}
