/** What the first payment of a contract comes to, branch by branch, said on the contract's own fields. */
module FirstRent {
  import opened Text
  import opened Calendar
  import opened Billing
  import opened Money
  import opened Quote
  import opened FirstInvoice

  /**
   * The rent in cents, before any credit, of a contract that pays `month` cents a month: of the months
   * less the free ones or the discount of the coupon, down to nothing; of the months less their
   * percentage for paying ahead, to the nearest cent, a half going up; or, for a single month without
   * coupon in an open facility, of the days from the entry.
   */
  ghost predicate IsFirstRent(c: Terms, rent: int) {
    var month: int := c.price - c.discount;
    var n := if c.interval == 1 then c.firstMonths else c.interval;
    match c.coupon
    case Some(coupon) =>
      if coupon.freeMonths > 0 then rent == month * (n - coupon.freeMonths)
      else rent == if coupon.discount <= month * n then month * n - coupon.discount else 0
    case None =>
      if c.interval != 1 then -0.5 < rent as real - LessPart(month * n, c.prepayPct) <= 0.5
      else if n != 1 || c.preOpening then rent == month * n
      else IsDate(c.start) && 0 <= month && IsEntryRent(month, c.start, c.threshold, rent)
  }

  /** An amount less a percentage of it. */
  function LessPart(cents: int, pct: real): real {
    cents as real - cents as real * pct / 100.0
  }

  lemma FirstRentExactly(c: Terms)
    requires AreTerms(c)
    ensures IsFirstRent(c, Total(RentCents(c)))
  {
    hide PlanOf, FirstMonthCents, PrepaidRent, Round, LessPart, IsEntryRent, Total;
    var month, n := FirstInvoice.MonthCents(c), Months(c);
    assert n == if c.interval == 1 then c.firstMonths else c.interval;
    if c.coupon.Some? || c.preOpening || n != 1 || c.interval != 1 {
      WholeRent(c);
    } else {
      EntryRent(c);
    }
  }

  lemma WholeRent(c: Terms)
    requires AreTerms(c) && (c.coupon.Some? || c.preOpening || Months(c) != 1 || c.interval != 1)
    ensures IsFirstRent(c, Total(RentCents(c)))
  {
    assert IsFullPeriod(c);
    hide PlanOf, FirstMonthCents, PrepaidRent, Round, LessPart, IsEntryRent;
    var month, n := FirstInvoice.MonthCents(c), Months(c);
    TotalOfOne(RentCents(c));
    hide Total;
    ProductNotNegative(month, n);
    if c.preOpening {
      assert n == 1 && month * n == month;
    }
    if c.coupon.None? {
      NearestRest(month * n, PrepayPct(c));
      PrepaidOfNothing(month * n);
    }
  }

  lemma TotalOfOne(cents: seq<int>)
    ensures |cents| == 1 ==> Total(cents) == cents[0]
  {
  }

  lemma NearestRest(s: int, pct: real)
    ensures -0.5 < PrepaidRent(s, pct) as real - LessPart(s, pct) <= 0.5
  {
    RestOfAmount(s as real, pct);
  }

  lemma EntryRent(c: Terms)
    requires AreTerms(c) && c.coupon.None? && !c.preOpening && Months(c) == 1 && c.interval == 1
    ensures IsFirstRent(c, Total(RentCents(c)))
  {
    hide PlanOf, FirstMonthCents, IsEntryRent, FirstMonthPlan, Total, IsDate, LessPart;
    var month := FirstInvoice.MonthCents(c);
    PlanIs(c);
    EntryRentExactly(month, c.start, c.threshold);
    SplitOf(month, PlanOf(c));
    var s := FirstMonthCents(month, PlanOf(c));
    TwoTotals(s.firstMonth, s.nextMonth, 0);
    assert [s.firstMonth] + [] == [s.firstMonth];
  }

  lemma PlanIs(c: Terms)
    requires AreTerms(c)
    ensures PlanOf(c) == FirstMonthPlan(c.start, c.threshold)
  {
  }

  /**
   * The protection, before VAT: of every month paid ahead, or of the days from the entry; and its VAT,
   * at the rate of its plan or, when that is gone, at 21 %.
   */
  lemma ProtectionExactly(c: Terms)
    requires AreTerms(c)
    ensures var n := if c.interval == 1 then c.firstMonths else c.interval;
            if c.preOpening || c.interval != 1 || n != 1 || c.coupon.Some? then InsuranceCents(c) == c.insurance * n
            else IsEntryRent(c.insurance, c.start, c.threshold, InsuranceCents(c))
    ensures Announced(c) == WithVat(InsuranceCents(c), match c.planRate case Some(rate) => rate case None => 21)
    ensures ChargedInsurance(c) == match c.planRate case Some(rate) => WithVat(InsuranceCents(c), rate) case None => 0
  {
    hide WithVat, IsEntryRent, FirstMonthCents;
    EntryRentExactly(c.insurance, c.start, c.threshold);
    hide FirstMonthPlan;
    if c.preOpening {
      assert c.insurance * 1 == c.insurance;
    }
  }
}
