/** What the charges of a contract cover over time. */
module BillingRuns {
  import opened Text
  import opened Calendar
  import opened Billing

  lemma {:induction false} ChargeMonthIs(month: int, candidates: seq<Ymd>)
    ensures var r := ChargeMonth(month, candidates);
            && month <= r && (forall k :: 0 <= k < |candidates| ==> MonthIndex(candidates[k]) <= r)
            && (r == month || exists k :: 0 <= k < |candidates| && MonthIndex(candidates[k]) == r)
  {
    if candidates != [] {
      ChargeMonthIs(month, candidates[..|candidates| - 1]);
    }
  }

  /** `latest` is one of the candidates and none is after it. */
  predicate IsLatest(latest: Ymd, candidates: seq<Ymd>) {
    && AreLateDates(candidates) && latest in candidates
    && forall k :: 0 <= k < |candidates| ==> DayNumber(candidates[k]) <= DayNumber(latest)
  }

  /**
   * A monthly charge starts on the latest of the first unpaid day and the start of billing
   * if and only if that day is in a month after today's.
   */
  lemma ChargeStartsAtLatest(c: Contract, today: Ymd, latest: Ymd)
    requires IsContract(c) && IsLateDate(today) && IsLatest(latest, Candidates(c))
    ensures NextPaidDay(c, today) == latest <==> MonthIndex(today) < MonthIndex(latest)
  {
    hide DayNumber, Candidates, MonthDays, ChargeMonth, IsContract, MonthStart;
    var cs := Candidates(c);
    var month := ChargeMonth(MonthIndex(today) + 1, cs);
    ChargeMonthIs(MonthIndex(today) + 1, cs);
    forall k | 0 <= k < |cs| ensures MonthIndex(cs[k]) <= MonthIndex(latest) {
      MonthOrder(cs[k], latest);
    }
    if MonthIndex(today) < MonthIndex(latest) {
      assert month == MonthIndex(latest);
      var r := NextPaidDay(c, today);
      StartYear(latest);
      if r in cs {
        DayNumberOrder(latest, r);
        DayNumberOrder(r, latest);
      }
    }
  }

  /** A monthly charge never passes the month's price, and reaches it exactly from the first of a month. */
  lemma MonthlyAmountFits(c: Contract, rent: real, insurance: real, today: Ymd)
    requires IsContract(c) && c.billingIntervalMonths <= 1 && 0.0 <= rent && 0.0 <= insurance
    ensures var amount, price := ChargeAmount(c, rent, insurance, today), RentDue(c, rent) + insurance;
            && 0.0 <= amount <= price
            && (0.0 < price ==> 0.0 < amount && (amount == price <==> NextPaidDay(c, today).d == 1))
  {
    hide MonthDays, MonthStart, Candidates, ChargeMonth, FirstPaidDay, IsContract;
    ShareIsProper(NextPaidDay(c, today));
    hide Share, NextPaidDay, Prorated;
    PartOf(RentDue(c, rent) + insurance, Share(NextPaidDay(c, today)));
  }

  /** A prepaid charge is its months of protection and of discounted rent. */
  lemma PrepaidAmountFits(c: Contract, rent: real, insurance: real, today: Ymd)
    requires IsContract(c) && 1 < c.billingIntervalMonths && 0.0 <= rent && 0.0 <= insurance
    requires 0.0 <= c.prepayDiscountPct <= 100.0
    ensures var amount, n := ChargeAmount(c, rent, insurance, today), c.billingIntervalMonths as real;
            && insurance * n <= amount <= (RentDue(c, rent) + insurance) * n
            && (c.prepayDiscountPct == 0.0 ==> amount == (RentDue(c, rent) + insurance) * n)
            && (c.prepayDiscountPct == 100.0 ==> amount == insurance * n)
  {
    hide IsContract, RentDue, Prepaid, NextPaidDay, Share;
    DueIsNotNegative(c, rent);
    PrepaidFits(RentDue(c, rent), insurance, c.prepayDiscountPct / 100.0, c.billingIntervalMonths as real);
  }

  /**
   * The discount takes off exactly its percentage of the rent of the months, and nothing of the
   * protection; the charge falls on the first day not paid yet or, failing that, on the first day
   * of billing, or else of the next month.
   */
  lemma PrepaidExactly(c: Contract, rent: real, insurance: real, today: Ymd)
    requires IsContract(c) && 1 < c.billingIntervalMonths
    ensures var n := c.billingIntervalMonths as real;
            var rentOfMonths := if c.freeMonthsRemaining > 0 then 0.0 else rent * n;
            ChargeAmount(c, rent, insurance, today)
            == rentOfMonths - rentOfMonths * c.prepayDiscountPct / 100.0 + insurance * n
    ensures var date := ChargeDate(c, today);
            if c.coveredUntil.Some? then IsDate(date) && DayNumber(date) == DayNumber(c.coveredUntil.value) + 1
            else if c.billingStartsOn.Some? then date == c.billingStartsOn.value
            else date.d == 1 && MonthIndex(date) == MonthIndex(today) + 1
  {
    hide NextPaidDay, Share, DayNumber, IsLateDate;
    DiscountedMonths(RentDue(c, rent), insurance, c.prepayDiscountPct, c.billingIntervalMonths as real);
    hide Prepaid;
  }

  lemma DiscountedMonths(rent: real, insurance: real, pct: real, months: real)
    ensures Prepaid(rent, insurance, pct / 100.0, months)
            == rent * months - rent * months * pct / 100.0 + insurance * months
  {
    var part, whole := pct / 100.0, rent * months;
    assert (rent * (1.0 - part) + insurance) * months == rent * (1.0 - part) * months + insurance * months;
    assert rent * (1.0 - part) * months == whole * (1.0 - part);
    assert whole * (1.0 - part) == whole - whole * part;
    assert whole * part == whole * pct / 100.0;
  }

  lemma DueIsNotNegative(c: Contract, rent: real)
    requires 0.0 <= rent
    ensures 0.0 <= RentDue(c, rent)
  {
  }

  /** While free months are left the rent does not matter, and only the protection is charged. */
  lemma FreeMonthsChargeNoRent(c: Contract, rent: real, insurance: real, today: Ymd)
    requires IsContract(c) && 0 < c.freeMonthsRemaining && 0.0 < insurance
    ensures ChargeAmount(c, rent, insurance, today) == ChargeAmount(c, 0.0, insurance, today)
    ensures 0.0 < ChargeAmount(c, rent, insurance, today)
  {
    hide MonthDays, MonthStart, Candidates, ChargeMonth, FirstPaidDay, IsContract;
    ShareIsProper(NextPaidDay(c, today));
    hide Share, NextPaidDay, Prorated;
    PartOf(insurance, Share(NextPaidDay(c, today)));
    if 1 < c.billingIntervalMonths {
      TimesReal(insurance, insurance, c.billingIntervalMonths as real);
      assert 0.0 < insurance * c.billingIntervalMonths as real;
    }
  }

  lemma PrepaidFits(rent: real, insurance: real, part: real, months: real)
    requires 0.0 <= rent && 0.0 <= insurance && 0.0 <= part <= 1.0 && 0.0 <= months
    ensures var amount := Prepaid(rent, insurance, part, months);
            && insurance * months <= amount <= (rent + insurance) * months
            && (part == 0.0 ==> amount == (rent + insurance) * months)
            && (part == 1.0 ==> amount == insurance * months)
  {
    PartOf(rent, 1.0 - part);
    var discounted := rent * (1.0 - part);
    TimesReal(insurance, discounted + insurance, months);
    TimesReal(discounted + insurance, rent + insurance, months);
  }

  lemma PartOf(x: real, share: real)
    requires 0.0 <= x && 0.0 <= share <= 1.0
    ensures 0.0 <= Prorated(x, share) <= x
    ensures 0.0 < x && 0.0 < share ==> 0.0 < Prorated(x, share) && (Prorated(x, share) == x <==> share == 1.0)
  {
    Product(x, share);
    Product(x, 1.0 - share);
    assert x * (1.0 - share) == x - x * share;
  }

  lemma Product(x: real, y: real)
    requires 0.0 <= x && 0.0 <= y
    ensures 0.0 <= x * y && (0.0 < x && 0.0 < y ==> 0.0 < x * y)
  {
  }

  lemma TimesReal(x: real, y: real, k: real)
    requires x <= y && 0.0 <= k
    ensures x * k <= y * k
  {
    assert (y - x) * k >= 0.0;
  }

  /**
   * After a first payment: on every day of its period, the next charge is for the day
   * billing starts, for the whole month.
   */
  lemma PlanThenCharge(start: Ymd, threshold: Option<int>, today: Ymd, c: Contract)
    requires IsLateDate(start) && IsLateDate(today)
    requires var p := FirstMonthPlan(start, threshold);
             && IsLateDate(p.periodEnd) && DayNumber(p.periodStart) <= DayNumber(today) <= DayNumber(p.periodEnd)
             && IsContract(c) && c.billingIntervalMonths <= 1 && c.coveredUntil == Some(p.periodEnd)
             && (c.billingStartsOn == None || c.billingStartsOn == Some(p.billingStartsOn))
    ensures var p := FirstMonthPlan(start, threshold);
            && ChargeDate(c, today) == p.billingStartsOn == NextPaidDay(c, today)
            && Share(NextPaidDay(c, today)) == 1.0
  {
    hide DateOf, DayNumber, MonthDays, ChargeMonth, FirstPaidDay;
    var p := FirstMonthPlan(start, threshold);
    PlanInMonths(start, threshold);
    PlanTiles(start, threshold);
    hide FirstMonthPlan;
    DayNumberOrder(NextDay(p.periodEnd), p.billingStartsOn);
    assert IsLatest(p.billingStartsOn, Candidates(c));
    hide IsLatest, Candidates;
    MonthOrder(today, p.periodEnd);
    ChargeStartsAtLatest(c, today, p.billingStartsOn);
    StartYear(p.billingStartsOn);
    hide MonthStart, MonthEnd, NextPaidDay;
    ShareIsProper(p.billingStartsOn);
  }

  // ---- a run of charges ------------------------------------------------

  datatype Span = Span(first: int, last: int)

  function MonthlyFrom(covered: Ymd, starts: Option<Ymd>): Contract {
    Contract(1, starts, 0, 0.0, Some(covered))
  }

  predicate AreDates(covered: Ymd, starts: Option<Ymd>) {
    IsLateDate(covered) && (starts.Some? ==> IsLateDate(starts.value))
  }

  /** The first day to charge: the one after the covered ones, or the start of billing when that is later. */
  function Due(covered: Ymd, starts: Option<Ymd>): (r: Ymd)
    requires AreDates(covered, starts)
    ensures IsLateDate(r) && DayNumber(covered) < DayNumber(r)
    ensures starts.Some? ==> DayNumber(starts.value) <= DayNumber(r)
  {
    if starts.Some? && DayNumber(NextDay(covered)) < DayNumber(starts.value) then starts.value else NextDay(covered)
  }

  /** What a monthly charge asked on `today` pays, with the contract paid until `covered`. */
  function Charged(covered: Ymd, starts: Option<Ymd>, today: Ymd): Span
    requires AreDates(covered, starts)
  {
    var first := NextPaidDay(MonthlyFrom(covered, starts), today);
    Span(DayNumber(first), DayNumber(MonthEnd(MonthIndex(first))))
  }

  function CoveredAfter(covered: Ymd, starts: Option<Ymd>, today: Ymd): (r: Ymd)
    requires AreDates(covered, starts)
    ensures IsLateDate(r)
  {
    var first := NextPaidDay(MonthlyFrom(covered, starts), today);
    ChargeMonthIs(MonthIndex(today) + 1, Candidates(MonthlyFrom(covered, starts)));
    assert Candidates(MonthlyFrom(covered, starts))[0] == NextDay(covered);
    LateMonthEnd(NextDay(covered), MonthIndex(first));
    MonthEnd(MonthIndex(first))
  }

  lemma LateMonthEnd(a: Ymd, month: int)
    requires IsLateDate(a) && MonthIndex(a) <= month
    ensures 100 <= MonthEnd(month).y
  {
  }

  /** Each charge is asked on a day of a month before that of the first day to charge. */
  predicate InTime(covered: Ymd, starts: Option<Ymd>, todays: seq<Ymd>)
    requires AreDates(covered, starts)
    decreases |todays|
  {
    todays == []
    || (MonthIndex(todays[0]) < MonthIndex(Due(covered, starts))
        && InTime(CoveredAfter(covered, starts, todays[0]), starts, todays[1..]))
  }

  function Spans(covered: Ymd, starts: Option<Ymd>, todays: seq<Ymd>): seq<Span>
    requires AreDates(covered, starts)
    decreases |todays|
  {
    if todays == [] then []
    else [Charged(covered, starts, todays[0])] + Spans(CoveredAfter(covered, starts, todays[0]), starts, todays[1..])
  }

  function CoveredAtLast(covered: Ymd, starts: Option<Ymd>, todays: seq<Ymd>): (r: Ymd)
    requires AreDates(covered, starts)
    ensures IsLateDate(r)
    decreases |todays|
  {
    if todays == [] then covered
    else CoveredAtLast(CoveredAfter(covered, starts, todays[0]), starts, todays[1..])
  }

  /** The number of charges that pay a day. */
  function TimesPaid(spans: seq<Span>, day: int): nat {
    if spans == [] then 0
    else (if spans[0].first <= day <= spans[0].last then 1 else 0) + TimesPaid(spans[1..], day)
  }

  lemma DueIsLatest(covered: Ymd, starts: Option<Ymd>)
    requires AreDates(covered, starts)
    ensures IsLatest(Due(covered, starts), Candidates(MonthlyFrom(covered, starts)))
  {
    hide DayNumber;
    var next, cs := NextDay(covered), Candidates(MonthlyFrom(covered, starts));
    assert cs[0] == next;
    assert starts.Some? ==> cs == [next, starts.value];
  }

  /**
   * A charge pays from the first day to charge, or from a later one when it is asked too late, to
   * the end of the month.
   */
  lemma ChargedTiles(covered: Ymd, starts: Option<Ymd>, today: Ymd)
    requires AreDates(covered, starts) && IsLateDate(today)
    ensures var s, due := Charged(covered, starts, today), Due(covered, starts);
            var after := CoveredAfter(covered, starts, today);
            && DayNumber(due) <= s.first <= s.last == DayNumber(after)
            && (s.first == DayNumber(due) <==> MonthIndex(today) < MonthIndex(due))
            && Due(after, starts) == NextDay(after)
  {
    var due, cs := Due(covered, starts), Candidates(MonthlyFrom(covered, starts));
    var first := NextPaidDay(MonthlyFrom(covered, starts), today);
    DueIsLatest(covered, starts);
    ChargeStartsAtLatest(MonthlyFrom(covered, starts), today, due);
    ChargeMonthIs(MonthIndex(today) + 1, cs);
    InItsMonth(first);
    MonthOrder(due, first);
    DayNumberOrder(due, first);
    hide DayNumber, ChargeMonth, MonthEnd, MonthIndex, FirstPaidDay, Candidates, IsLatest, NextPaidDay;
  }

  lemma {:induction false} CoveredGrows(covered: Ymd, starts: Option<Ymd>, todays: seq<Ymd>)
    requires AreDates(covered, starts) && AreLateDates(todays)
    ensures DayNumber(covered) <= DayNumber(CoveredAtLast(covered, starts, todays))
    decreases |todays|
  {
    if todays != [] {
      ChargedTiles(covered, starts, todays[0]);
      hide DayNumber, Charged, CoveredAfter, Due, MonthIndex;
      CoveredGrows(CoveredAfter(covered, starts, todays[0]), starts, todays[1..]);
    }
  }

  /**
   * Whenever charges are asked, no day is paid twice, none before the first day to charge and none
   * after the last covered.
   */
  lemma {:induction false} NoDayTwice(covered: Ymd, starts: Option<Ymd>, todays: seq<Ymd>, day: int)
    requires AreDates(covered, starts) && AreLateDates(todays)
    ensures TimesPaid(Spans(covered, starts, todays), day) <= 1
    ensures day < DayNumber(Due(covered, starts)) || DayNumber(CoveredAtLast(covered, starts, todays)) < day ==>
              TimesPaid(Spans(covered, starts, todays), day) == 0
    decreases |todays|
  {
    if todays != [] {
      var after := CoveredAfter(covered, starts, todays[0]);
      ChargedTiles(covered, starts, todays[0]);
      hide DayNumber, Charged, CoveredAfter, NextDay, MonthIndex, Due;
      NoDayTwice(after, starts, todays[1..], day);
      CoveredGrows(after, starts, todays[1..]);
      var spans := Spans(covered, starts, todays);
      assert spans[1..] == Spans(after, starts, todays[1..]);
    }
  }

  /** Every day from the first to charge to the last covered is paid once. */
  ghost predicate NoneSkipped(covered: Ymd, starts: Option<Ymd>, todays: seq<Ymd>)
    requires AreDates(covered, starts)
  {
    forall day :: DayNumber(Due(covered, starts)) <= day <= DayNumber(CoveredAtLast(covered, starts, todays)) ==>
      TimesPaid(Spans(covered, starts, todays), day) == 1
  }

  lemma OneMoreCharge(covered: Ymd, starts: Option<Ymd>, todays: seq<Ymd>, day: int)
    requires AreDates(covered, starts) && todays != []
    ensures var s, after := Charged(covered, starts, todays[0]), CoveredAfter(covered, starts, todays[0]);
            TimesPaid(Spans(covered, starts, todays), day)
            == (if s.first <= day <= s.last then 1 else 0) + TimesPaid(Spans(after, starts, todays[1..]), day)
    ensures CoveredAtLast(covered, starts, todays)
         == CoveredAtLast(CoveredAfter(covered, starts, todays[0]), starts, todays[1..])
  {
    hide Charged, CoveredAfter;
    var after := CoveredAfter(covered, starts, todays[0]);
    assert Spans(covered, starts, todays)[1..] == Spans(after, starts, todays[1..]);
  }

  /** Up to the end of the first charge only that charge pays; later days are left to the others. */
  lemma FirstChargePays(covered: Ymd, starts: Option<Ymd>, todays: seq<Ymd>, day: int)
    requires AreDates(covered, starts) && AreLateDates(todays) && todays != []
    ensures var s, after := Charged(covered, starts, todays[0]), CoveredAfter(covered, starts, todays[0]);
            TimesPaid(Spans(covered, starts, todays), day)
            == if day <= s.last then (if s.first <= day then 1 else 0)
               else TimesPaid(Spans(after, starts, todays[1..]), day)
  {
    ChargedTiles(covered, starts, todays[0]);
    hide DayNumber, Charged, CoveredAfter, MonthIndex, Due, TimesPaid, Spans, CoveredAtLast;
    NoDayTwice(CoveredAfter(covered, starts, todays[0]), starts, todays[1..], day);
    OneMoreCharge(covered, starts, todays, day);
  }

  /** A charge asked too late skips the first day to charge. */
  lemma LateChargeSkips(covered: Ymd, starts: Option<Ymd>, todays: seq<Ymd>)
    requires AreDates(covered, starts) && AreLateDates(todays) && todays != []
    requires MonthIndex(Due(covered, starts)) <= MonthIndex(todays[0])
    ensures !NoneSkipped(covered, starts, todays)
  {
    var rest, after := todays[1..], CoveredAfter(covered, starts, todays[0]);
    ChargedTiles(covered, starts, todays[0]);
    hide DayNumber, Charged, CoveredAfter, MonthIndex, Due, TimesPaid, Spans, CoveredAtLast;
    CoveredGrows(after, starts, rest);
    var due := DayNumber(Due(covered, starts));
    OneMoreCharge(covered, starts, todays, due);
    FirstChargePays(covered, starts, todays, due);
  }

  /** A charge asked in time pays each day up to the first day of the next charge, and no later one. */
  lemma TimelyChargePays(covered: Ymd, starts: Option<Ymd>, todays: seq<Ymd>, day: int)
    requires AreDates(covered, starts) && AreLateDates(todays) && todays != []
    requires MonthIndex(todays[0]) < MonthIndex(Due(covered, starts))
    ensures var after := CoveredAfter(covered, starts, todays[0]);
            var next := DayNumber(Due(after, starts));
            && DayNumber(Due(covered, starts)) <= next
            && (next <= day ==>
                  TimesPaid(Spans(covered, starts, todays), day) == TimesPaid(Spans(after, starts, todays[1..]), day))
            && (DayNumber(Due(covered, starts)) <= day < next ==> TimesPaid(Spans(covered, starts, todays), day) == 1)
  {
    ChargedTiles(covered, starts, todays[0]);
    FirstChargePays(covered, starts, todays, day);
    hide DayNumber, Charged, CoveredAfter, MonthIndex, Due, TimesPaid, Spans;
  }

  /** After a charge asked in time, skipping nothing is left to the later ones. */
  lemma LaterChargesDecide(covered: Ymd, starts: Option<Ymd>, todays: seq<Ymd>)
    requires AreDates(covered, starts) && AreLateDates(todays) && todays != []
    requires MonthIndex(todays[0]) < MonthIndex(Due(covered, starts))
    ensures NoneSkipped(covered, starts, todays)
            <==> NoneSkipped(CoveredAfter(covered, starts, todays[0]), starts, todays[1..])
  {
    hide DayNumber, Charged, CoveredAfter, MonthIndex, Due, TimesPaid, Spans, CoveredAtLast, AreLateDates, NextDay;
    var rest, after := todays[1..], CoveredAfter(covered, starts, todays[0]);
    var due, next := DayNumber(Due(covered, starts)), DayNumber(Due(after, starts));
    var last := DayNumber(CoveredAtLast(covered, starts, todays));
    OneMoreCharge(covered, starts, todays, next);
    TimelyChargePays(covered, starts, todays, next);
    if NoneSkipped(covered, starts, todays) {
      forall day | next <= day <= last ensures TimesPaid(Spans(after, starts, rest), day) == 1 {
        TimelyChargePays(covered, starts, todays, day);
      }
    }
    if NoneSkipped(after, starts, rest) {
      forall day | due <= day <= last ensures TimesPaid(Spans(covered, starts, todays), day) == 1 {
        TimelyChargePays(covered, starts, todays, day);
      }
    }
  }

  /**
   * Over any run of charges, each day from the first to charge to the last covered is paid exactly
   * once if and only if every charge is asked in time.
   */
  lemma {:induction false} ChargesTileTime(covered: Ymd, starts: Option<Ymd>, todays: seq<Ymd>)
    requires AreDates(covered, starts) && AreLateDates(todays)
    ensures NoneSkipped(covered, starts, todays) <==> InTime(covered, starts, todays)
    decreases |todays|
  {
    hide DayNumber, Charged, CoveredAfter, MonthIndex, Due, TimesPaid, NextDay;
    if todays == [] {
      assert CoveredAtLast(covered, starts, todays) == covered;
    } else {
      hide NoneSkipped;
      ChargesTileTime(CoveredAfter(covered, starts, todays[0]), starts, todays[1..]);
      if MonthIndex(todays[0]) < MonthIndex(Due(covered, starts)) {
        LaterChargesDecide(covered, starts, todays);
      } else {
        LateChargeSkips(covered, starts, todays);
      }
    }
  }

  /** Paid until 10 January and asked on the 15th, the charge does not start on the 11th. */
  lemma LateChargeExample(covered: Ymd, next: Ymd, today: Ymd)
    requires IsLateDate(covered) && IsLateDate(next) && IsLateDate(today)
    requires covered == Ymd(2026, 1, 10) && next == Ymd(2026, 1, 11) && today == Ymd(2026, 1, 15)
    ensures Due(covered, None) == next && Charged(covered, None, today).first != DayNumber(next)
  {
    hide NextPaidDay, MonthEnd;
    assert DayNumber(next) == DayNumber(covered) + 1;
    DateOfDayNumber(next);
    assert MonthIndex(today) == MonthIndex(next);
    hide DayNumber, DateOf;
    ChargedTiles(covered, None, today);
  }
}
