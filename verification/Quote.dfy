/** Coupons and the quote of the first payment. */
module Quote {
  import opened Text
  import opened Calendar
  import opened Billing
  import opened Money

  // ---- the first month in cents ----------------------------------------

  datatype MonthSplit = MonthSplit(firstMonth: int, nextMonth: int, total: int)

  /** `firstMonthCents`. */
  function FirstMonthCents(monthCents: int, plan: Plan): MonthSplit
    requires 0 < plan.daysInMonth
  {
    var first := if plan.fullFirstMonth then monthCents else RoundDiv(monthCents * plan.days, plan.daysInMonth);
    var next := if plan.includesNextMonth then monthCents else 0;
    MonthSplit(first, next, first + next)
  }

  predicate IsPlan(p: Plan) {
    1 <= p.days <= p.daysInMonth <= 31 && (p.fullFirstMonth ==> p.days == p.daysInMonth)
  }

  lemma PlansArePlans(start: Ymd, threshold: Option<int>)
    requires IsDate(start) && 100 <= start.y
    ensures IsPlan(FirstMonthPlan(start, threshold))
  {
    PlanInMonths(start, threshold);
  }

  /** `cents` are within half a cent of `days` of a month, never above it, and all of it for all its days. */
  predicate IsPartOfMonth(cents: int, month: int, days: int, daysInMonth: int) {
    && 0 <= cents <= month && (days == daysInMonth ==> cents == month)
    && -daysInMonth <= 2 * (cents * daysInMonth - month * days) <= daysInMonth
  }

  /** The part of a month is within half a cent of its days, never above the month, and whole for whole months. */
  lemma FirstMonthFits(monthCents: nat, plan: Plan)
    requires IsPlan(plan)
    ensures IsPartOfMonth(FirstMonthCents(monthCents, plan).firstMonth, monthCents, plan.days, plan.daysInMonth)
  {
    var n, d := monthCents * plan.days, plan.daysInMonth;
    assert 0 <= n <= monthCents * d;
    RoundDivBounds(n, d);
    var q := RoundDiv(n, d);
    hide RoundDiv;
    RoundBetween(n, d, q, monthCents);
    assert q * d == d * q;
  }

  /**
   * `cents` pay from the entry day to the end of its month, to within half a cent of its days, and the
   * whole next month when the entry is late in the month.
   */
  predicate IsEntryRent(month: nat, start: Ymd, threshold: Option<int>, cents: int)
    requires IsDate(start)
  {
    var days := MonthDays(start.y, start.m);
    var isLate := start.d != 1 && threshold.Some? && threshold.value != 0 && threshold.value <= start.d;
    IsPartOfMonth(cents - (if isLate then month else 0), month, days - start.d + 1, days)
  }

  /** What the first month of an entry costs. */
  lemma EntryRentExactly(month: nat, start: Ymd, threshold: Option<int>)
    requires IsDate(start) && 100 <= start.y
    ensures var p := FirstMonthPlan(start, threshold);
            0 < p.daysInMonth && IsEntryRent(month, start, threshold, FirstMonthCents(month, p).total)
  {
    hide FirstMonthPlan, FirstMonthCents, MonthDays, MonthStart, MonthEnd, MonthIndex, IsDate, IsPartOfMonth, DayNumber;
    var p := FirstMonthPlan(start, threshold);
    PlansArePlans(start, threshold);
    PlanInMonths(start, threshold);
    NextMonthExactly(start, threshold);
    FirstMonthFits(month, p);
    NextMonthIsWhole(month, p);
  }

  lemma NextMonthIsWhole(month: nat, plan: Plan)
    requires IsPlan(plan)
    ensures var s := FirstMonthCents(month, plan);
            s.total == s.firstMonth + (if plan.includesNextMonth then month else 0)
  {
    hide RoundDiv;
  }

  lemma RoundBetween(n: int, d: int, q: int, top: nat)
    requires 0 < d && 2 * d * q <= 2 * n + d < 2 * d * q + 2 * d && 0 <= n <= top * d
    ensures 0 <= q <= top && (n == top * d ==> q == top)
  {
    var p, t := d * q, d * top;
    if q < 0 {
      TimesInOrder(d, q, -1);
    } else if top < q {
      TimesInOrder(d, top + 1, q);
    } else if q < top {
      TimesInOrder(d, q + 1, top);
    }
  }

  lemma TimesInOrder(d: int, x: int, y: int)
    requires 0 < d && x <= y
    ensures d * x <= d * y
  {
  }

  // ---- coupons ---------------------------------------------------------

  datatype DiscountType = Percentage | Fixed | FreeMonths

  datatype Reason =
    | Inactive | NotStarted | Expired | MaxUsesReached | InvalidMonths | MinMonths
    | UnitType | Facility | NewCustomersOnly | AlreadyUsed | PreOpeningOnly | MinAmount

  /** Instants are in milliseconds, amounts in euros without VAT. */
  datatype Coupon = Coupon(
    discountType: DiscountType, discountValue: real, minMonths: int, minAmount: Option<real>,
    unitTypeIds: set<string>, facilityIds: set<string>, newCustomersOnly: bool, oncePerCustomer: bool,
    preOpeningOnly: bool, maxUses: Option<int>, usedCount: int,
    validFrom: Option<int>, validUntil: Option<int>, isActive: bool)

  /** `months` is absent when it is not a whole number. */
  datatype Order = Order(
    monthlyPrice: real, months: Option<int>, unitTypeId: Option<string>, facilityId: Option<string>,
    isNewCustomer: Option<bool>, usedByCustomer: Option<bool>, preOpening: bool, now: int)

  const MAX_MONTHS := 12

  datatype CouponQuote =
    | Rejected(reason: Reason)
    | Accepted(months: int, subtotal: int, discount: int, freeMonths: int, rentTotal: int)

  function Clamp(x: int, top: int): int {
    Min(if 0 <= x then x else 0, top)
  }

  function MonthCents(order: Order): nat {
    var c := Round(order.monthlyPrice * 100.0);
    if 0 <= c then c else 0
  }

  /** `Math.trunc`. */
  function Trunc(x: real): int {
    if x >= 0.0 then x.Floor else -((-x).Floor)
  }

  predicate ListsOrEmpty(ids: set<string>, id: Option<string>) {
    ids == {} || (id.Some? && id.value != "" && id.value in ids)
  }

  function PartOf(subtotal: int, percentage: real): real {
    subtotal as real * percentage / 100.0
  }

  /** `quoteCoupon`, amounts in cents. */
  function QuoteCoupon(c: Coupon, order: Order): CouponQuote {
    if !c.isActive then Rejected(Inactive)
    else if c.validFrom.Some? && c.validFrom.value > order.now then Rejected(NotStarted)
    else if c.validUntil.Some? && c.validUntil.value < order.now then Rejected(Expired)
    else if c.maxUses.Some? && c.usedCount >= c.maxUses.value then Rejected(MaxUsesReached)
    else if order.months.None? || order.months.value < 1 || order.months.value > MAX_MONTHS then Rejected(InvalidMonths)
    else if order.months.value < c.minMonths then Rejected(MinMonths)
    else if !ListsOrEmpty(c.unitTypeIds, order.unitTypeId) then Rejected(UnitType)
    else if !ListsOrEmpty(c.facilityIds, order.facilityId) then Rejected(Facility)
    else if c.newCustomersOnly && order.isNewCustomer == Some(false) then Rejected(NewCustomersOnly)
    else if c.oncePerCustomer && order.usedByCustomer == Some(true) then Rejected(AlreadyUsed)
    else if c.preOpeningOnly && !order.preOpening then Rejected(PreOpeningOnly)
    else
      var months, monthCents := order.months.value, MonthCents(order);
      var subtotal := monthCents * months;
      if c.minAmount.Some? && subtotal < Round(c.minAmount.value * 100.0) then Rejected(MinAmount)
      else
        var free := if c.discountType.FreeMonths? then Min(Trunc(c.discountValue), months - 1) else 0;
        var raw := match c.discountType
          case Percentage => Round(PartOf(subtotal, if c.discountValue <= 100.0 then c.discountValue else 100.0))
          case Fixed => Round(c.discountValue * 100.0)
          case FreeMonths => free * monthCents;
        var discount := Clamp(raw, subtotal);
        Accepted(months, subtotal, discount, free, subtotal - discount)
  }

  /**
   * An accepted coupon never discounts more than the rent; free months leave at least one month to
   * pay and take off exactly their rent; a full percentage leaves nothing; a fixed amount is taken
   * off whole, or all the rent when that is less.
   */
  lemma CouponIsBounded(c: Coupon, order: Order)
    requires QuoteCoupon(c, order).Accepted?
    ensures var q := QuoteCoupon(c, order);
            && 0 <= q.discount <= q.subtotal == MonthCents(order) * q.months
            && q.rentTotal == q.subtotal - q.discount
            && (c.discountType.FreeMonths? && 0.0 <= c.discountValue ==>
                  && 0 <= q.freeMonths < q.months && q.rentTotal == MonthCents(order) * (q.months - q.freeMonths)
                  && MonthCents(order) <= q.rentTotal)
            && (c.discountType.Percentage? && 100.0 <= c.discountValue ==> q.rentTotal == 0)
            && (c.discountType.Fixed? && 0.0 <= c.discountValue ==>
                  q.discount == Min(Round(c.discountValue * 100.0), q.subtotal))
  {
    if 0.0 <= c.discountValue {
      RoundKeepsSign(c.discountValue * 100.0);
    }
    hide Round, MonthCents, ListsOrEmpty;
    var q, m := QuoteCoupon(c, order), MonthCents(order);
    FreeMonthsRent(m, q.months, q.freeMonths);
    WholePercentage(q.subtotal);
    assert q.subtotal == m * q.months;
    hide Trunc;
    if c.discountType.FreeMonths? && 0.0 <= c.discountValue {
      TruncFloor(c.discountValue);
      assert q.discount == Clamp(q.freeMonths * m, q.subtotal);
    }
  }

  /**
   * The free months are the greatest number of whole months, not above the value of the coupon, that
   * leaves one to pay; other coupons give none, and a value below zero takes nothing off.
   */
  lemma FreeMonthsExactly(c: Coupon, order: Order, f: nat)
    requires QuoteCoupon(c, order).Accepted?
    ensures var q := QuoteCoupon(c, order);
            && (!c.discountType.FreeMonths? ==> q.freeMonths == 0)
            && (c.discountType.FreeMonths? && 0.0 <= c.discountValue ==>
                  && 0 <= q.freeMonths < q.months && q.freeMonths as real <= c.discountValue
                  && (f < q.months && f as real <= c.discountValue ==> f <= q.freeMonths))
            && (c.discountType.FreeMonths? && c.discountValue < 0.0 ==>
                  && c.discountValue <= q.freeMonths as real < c.discountValue + 1.0
                  && q.discount == 0 && q.rentTotal == q.subtotal)
  {
    CouponIsBounded(c, order);
    hide Round, MonthCents, ListsOrEmpty;
    if c.discountType.FreeMonths? && c.discountValue < 0.0 {
      var q, m := QuoteCoupon(c, order), MonthCents(order);
      assert q.freeMonths <= 0;
      NegativeTimes(q.freeMonths, m);
      assert q.discount == Clamp(q.freeMonths * m, q.subtotal);
    }
  }

  lemma NegativeTimes(x: int, m: nat)
    requires x <= 0
    ensures x * m <= 0
  {
  }

  /** The price of a month in cents is the nearest to the price in euros. */
  lemma MonthIsNearest(order: Order)
    requires 0.0 <= order.monthlyPrice
    ensures -0.5 < MonthCents(order) as real - order.monthlyPrice * 100.0 <= 0.5
  {
  }

  // ---- when a coupon is accepted ---------------------------------------

  /** What makes each reason true of a coupon and an order, whatever the other reasons. */
  predicate Fails(c: Coupon, order: Order, reason: Reason) {
    match reason
    case Inactive => c.isActive == false
    case NotStarted => c.validFrom != None && order.now < c.validFrom.value
    case Expired => c.validUntil != None && c.validUntil.value < order.now
    case MaxUsesReached => c.maxUses != None && c.maxUses.value <= c.usedCount
    case InvalidMonths => !(order.months != None && 1 <= order.months.value <= 12)
    case MinMonths => order.months != None && order.months.value < c.minMonths
    case UnitType =>
      && c.unitTypeIds != {}
      && (order.unitTypeId.None? || order.unitTypeId.value == "" || order.unitTypeId.value !in c.unitTypeIds)
    case Facility =>
      && c.facilityIds != {}
      && (order.facilityId.None? || order.facilityId.value == "" || order.facilityId.value !in c.facilityIds)
    case NewCustomersOnly => c.newCustomersOnly && order.isNewCustomer == Some(false)
    case AlreadyUsed => c.oncePerCustomer && order.usedByCustomer == Some(true)
    case PreOpeningOnly => c.preOpeningOnly && order.preOpening == false
    case MinAmount =>
      order.months != None && c.minAmount != None
      && (MonthCents(order) * order.months.value) as real + 0.5 <= c.minAmount.value * 100.0
  }

  /** The reasons in the order in which they are given. */
  function Place(reason: Reason): nat {
    match reason
    case Inactive => 1
    case NotStarted => 2
    case Expired => 3
    case MaxUsesReached => 4
    case InvalidMonths => 5
    case MinMonths => 6
    case UnitType => 7
    case Facility => 8
    case NewCustomersOnly => 9
    case AlreadyUsed => 10
    case PreOpeningOnly => 11
    case MinAmount => 12
  }

  ghost predicate NoneBefore(c: Coupon, order: Order, place: nat) {
    forall r :: Place(r) < place ==> !Fails(c, order, r)
  }

  /** The reason given holds and none before it does. */
  lemma GivenReason(c: Coupon, order: Order)
    ensures match QuoteCoupon(c, order)
            case Rejected(reason) => Fails(c, order, reason) && NoneBefore(c, order, Place(reason))
            case Accepted(_, _, _, _, _) => NoneBefore(c, order, 13)
  {
    hide MonthCents, Round, ListsOrEmpty, Trunc, PartOf, Clamp;
    if c.minAmount.Some? && order.months.Some? {
      LessThanRounded(MonthCents(order) * order.months.value, c.minAmount.value * 100.0);
    }
    ListsExactly(c.unitTypeIds, order.unitTypeId);
    ListsExactly(c.facilityIds, order.facilityId);
  }

  lemma ListsExactly(ids: set<string>, id: Option<string>)
    ensures !ListsOrEmpty(ids, id) <==> ids != {} && (id.None? || id.value == "" || id.value !in ids)
  {
  }

  lemma PlacesDiffer(a: Reason, b: Reason)
    ensures Place(a) == Place(b) <==> a == b
    ensures Place(a) < 13
  {
  }

  /** A coupon is rejected for the first reason that holds, and accepted if and only if none does. */
  lemma RejectedExactly(c: Coupon, order: Order, reason: Reason)
    ensures QuoteCoupon(c, order) == Rejected(reason)
            <==> Fails(c, order, reason) && forall r :: Place(r) < Place(reason) ==> !Fails(c, order, r)
    ensures QuoteCoupon(c, order).Accepted? <==> forall r :: !Fails(c, order, r)
  {
    GivenReason(c, order);
    hide QuoteCoupon, Fails, Place;
    forall r ensures Place(r) < 13 && (Place(r) == Place(reason) <==> r == reason) {
      PlacesDiffer(r, reason);
    }
  }

  lemma LessThanRounded(n: int, x: real)
    ensures n < Round(x) <==> n as real + 0.5 <= x
  {
  }

  /** A percentage of up to 100 is taken off to within half a cent. */
  lemma PercentageTakesOff(c: Coupon, order: Order)
    requires QuoteCoupon(c, order).Accepted? && 0.0 <= c.discountValue <= 100.0 && c.discountType.Percentage?
    ensures var q := QuoteCoupon(c, order);
            -0.5 <= q.discount as real - PartOf(q.subtotal, c.discountValue) <= 0.5
  {
    CouponIsBounded(c, order);
    hide MonthCents, ListsOrEmpty, Trunc, Round, PartOf;
    PercentageFits(QuoteCoupon(c, order).subtotal, c.discountValue);
  }

  lemma RoundKeepsSign(x: real)
    requires 0.0 <= x
    ensures 0 <= Round(x)
  {
  }

  lemma PercentageFits(subtotal: nat, pct: real)
    requires 0.0 <= pct <= 100.0
    ensures var x := PartOf(subtotal, pct);
            0.0 <= x <= subtotal as real && 0 <= Round(x) <= subtotal && -0.5 <= Round(x) as real - x <= 0.5
  {
    var s := subtotal as real;
    var x := s * pct / 100.0;
    assert 0.0 <= s * pct;
    assert s * (100.0 - pct) >= 0.0;
    assert s * pct <= s * 100.0;
    assert 0.0 <= x <= s;
  }

  lemma TruncFloor(x: real)
    requires 0.0 <= x
    ensures 0 <= Trunc(x)
  {
  }

  lemma FreeMonthsRent(m: nat, months: int, free: int)
    requires 1 <= months
    ensures 0 <= m * months
    ensures 0 <= free < months ==>
              0 <= free * m <= m * months && m * months - free * m == m * (months - free) && m <= m * (months - free)
  {
    if 0 < m {
      TimesInOrder(m, 0, months);
    }
    if 0 < m && 0 <= free < months {
      TimesInOrder(m, 0, free);
      TimesInOrder(m, 1, months - free);
      Distributes(m, months, free);
    }
  }

  lemma Distributes(m: int, x: int, y: int)
    ensures m * (x - y) == m * x - m * y && y * m == m * y
  {
  }

  lemma WholePercentage(subtotal: int)
    ensures Round(subtotal as real * 100.0 / 100.0) == subtotal
  {
    assert subtotal as real * 100.0 / 100.0 == subtotal as real;
    RoundIs(subtotal as real, subtotal);
  }

  // ---- the quote of the first payment ----------------------------------

  datatype Args = Args(
    monthlyPrice: real, months: nat, vatRate: nat, discountAmount: real, deposit: real,
    insuranceWithVat: real, prorated: bool, firstMonth: Option<Plan>, preOpening: bool)

  predicate AreArgs(a: Args) {
    0.0 <= a.monthlyPrice && (a.firstMonth.Some? ==> IsPlan(a.firstMonth.value))
  }

  /** The amounts of the quote, in cents. */
  datatype FirstPayment = FirstPayment(
    subtotal: int, discount: int, rentTotal: int, rentTotalWithVat: int,
    insurance: int, deposit: int, totalToPay: int, plan: Option<Plan>, split: Option<MonthSplit>)

  /** `buildFirstPaymentQuote`. */
  function BuildFirstPaymentQuote(a: Args): FirstPayment
    requires AreArgs(a)
  {
    var monthCents := Round(a.monthlyPrice * 100.0);
    var plan := if !a.preOpening && a.prorated && a.months == 1 then a.firstMonth else None;
    var split := if plan.Some? then Some(FirstMonthCents(monthCents, plan.value)) else None;
    var subtotal := if split.Some? then split.value.total else monthCents * a.months;
    var discount := Clamp(Round(a.discountAmount * 100.0), subtotal);
    var rentTotal := subtotal - discount;
    var withVat := if split.Some?
                   then WithVat(split.value.firstMonth, a.vatRate) + WithVat(split.value.nextMonth, a.vatRate)
                   else WithVat(rentTotal, a.vatRate);
    var insurance, deposit := Round(a.insuranceWithVat * 100.0), Round(a.deposit * 100.0);
    FirstPayment(subtotal, discount, rentTotal, withVat, insurance, deposit, withVat + insurance + deposit, plan, split)
  }

  lemma QuoteShape(a: Args)
    requires AreArgs(a)
    ensures var q := BuildFirstPaymentQuote(a);
            && 0 <= q.discount <= q.subtotal && q.rentTotal == q.subtotal - q.discount
            && (q.split.Some? <==> q.plan.Some?)
            && (q.split.Some? ==>
                  && 0 <= q.split.value.firstMonth && 0 <= q.split.value.nextMonth
                  && q.subtotal == q.split.value.firstMonth + q.split.value.nextMonth
                  && (!q.plan.value.includesNextMonth ==> q.split.value.nextMonth == 0)
                  && q.rentTotalWithVat
                     == WithVat(q.split.value.firstMonth, a.vatRate) + WithVat(q.split.value.nextMonth, a.vatRate))
            && (q.split.None? ==> q.rentTotalWithVat == WithVat(q.rentTotal, a.vatRate))
  {
    var monthCents := Round(a.monthlyPrice * 100.0);
    assert 0 <= monthCents;
    assert 0 <= monthCents * a.months;
    if a.firstMonth.Some? {
      FirstMonthFits(monthCents, a.firstMonth.value);
    }
    hide WithVat, Round, RoundDiv;
  }

  /** The rounded rent is within a cent of VAT on its sum. */
  lemma QuoteWithinACent(a: Args)
    requires AreArgs(a)
    ensures var q := BuildFirstPaymentQuote(a);
            q.split.None? || q.discount == 0 ==>
              -1 <= q.rentTotalWithVat - WithVat(q.rentTotal, a.vatRate) <= 1
  {
    QuoteShape(a);
    var q := BuildFirstPaymentQuote(a);
    hide BuildFirstPaymentQuote, WithVat;
    if q.split.Some? {
      VatOfSum(q.split.value.firstMonth, q.split.value.nextMonth, a.vatRate);
    }
  }

  /** A discount is given for a split first month whose rent is not zero. */
  predicate DiscountMeetsSplit(a: Args)
    requires AreArgs(a)
  {
    && !a.preOpening && a.prorated && a.months == 1 && a.firstMonth.Some?
    && 0 < Round(a.discountAmount * 100.0)
    && 0 < FirstMonthCents(Round(a.monthlyPrice * 100.0), a.firstMonth.value).total
  }

  /** The rent on which the quote puts VAT: that of a split payment is taken before its discount. */
  function RentWithVatBase(q: FirstPayment): int {
    if q.split.Some? then q.split.value.firstMonth + q.split.value.nextMonth else q.rentTotal
  }

  /** The rent announced is the one on which VAT is put if and only if no discount meets a split first month. */
  lemma RentIsTheTaxedOne(a: Args)
    requires AreArgs(a)
    ensures var q := BuildFirstPaymentQuote(a);
            q.rentTotal == RentWithVatBase(q) <==> !DiscountMeetsSplit(a)
  {
    QuoteShape(a);
    hide WithVat, Round, FirstMonthCents;
  }

  /** Half a month of 100 euros with 10 off: 40 are announced, and VAT is put on 50. */
  lemma SplitDiscountExample(a: Args, p: Plan)
    requires p == Plan(Ymd(2026, 4, 16), Ymd(2026, 4, 30), 15, 30, false, false, None, Ymd(2026, 5, 1))
    requires a == Args(100.0, 1, 21, 10.0, 0.0, 0.0, true, Some(p), false)
    ensures var q := BuildFirstPaymentQuote(a); q.rentTotal == 4000 && RentWithVatBase(q) == 5000
  {
    RoundIs(10000.0, 10000);
    RoundIs(1000.0, 1000);
    RoundIs(0.0, 0);
    hide Round;
    assert 100.0 * 100.0 == 10000.0 && 10.0 * 100.0 == 1000.0 && 0.0 * 100.0 == 0.0;
    assert FirstMonthCents(10000, p).total == 5000;
  }

  /** A coupon's rent is the rent of the quote that carries its discount. */
  lemma CouponCarriesOver(c: Coupon, order: Order, a: Args)
    requires QuoteCoupon(c, order).Accepted? && AreArgs(a)
    requires a.monthlyPrice == order.monthlyPrice && order.months == Some(a.months)
    requires a.discountAmount == Euros(QuoteCoupon(c, order).discount) && !a.prorated
    ensures var q, p := QuoteCoupon(c, order), BuildFirstPaymentQuote(a);
            p.subtotal == q.subtotal && p.discount == q.discount && p.rentTotal == q.rentTotal
  {
    CouponIsBounded(c, order);
    CentsRoundTrip(QuoteCoupon(c, order).discount);
    var q := QuoteCoupon(c, order);
    assert 0 <= Round(order.monthlyPrice * 100.0);
    assert q.months == a.months;
    hide QuoteCoupon, Round;
  }
}
