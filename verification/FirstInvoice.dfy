/**
 * The first payment of a contract, twice: as the signing page announces it and as the first
 * invoice charges it. Both start from the contract, each with its own arithmetic.
 */
module FirstInvoice {
  import opened Text
  import opened Calendar
  import opened Billing
  import opened Money
  import opened Quote

  // ---- the contract ----------------------------------------------------

  /** A coupon as it was redeemed when the contract was made; the discount in cents. */
  datatype Redemption = Redemption(discount: nat, freeMonths: int)

  /**
   * Amounts in cents; `credit` is what the contract has in its favour, `preOpening` a facility still
   * to open. `insurance` is the price of the protection kept on the contract and `planRate` the VAT of
   * its plan, when the contract still has one: deleting a plan leaves the price behind.
   */
  datatype Terms = Terms(
    price: nat, discount: nat, interval: nat, firstMonths: nat, prepayPct: real, coupon: Option<Redemption>,
    preOpening: bool, start: Ymd, threshold: Option<int>, vatRate: nat,
    insurance: nat, planRate: Option<nat>, deposit: nat, cashDeposit: bool, credit: nat)

  function Months(c: Terms): nat {
    if 1 < c.interval then c.interval else c.firstMonths
  }

  function MonthCents(c: Terms): int {
    c.price - c.discount
  }

  const DEFAULT_RATE: nat := 21

  function InsuranceRate(c: Terms): nat {
    if c.planRate.Some? then c.planRate.value else DEFAULT_RATE
  }

  /** What redeeming a coupon for these months at this price leaves on record. */
  predicate IsRedemption(r: Redemption, month: nat, months: nat) {
    r.freeMonths > 0 ==> r.freeMonths < months && r.discount == r.freeMonths * month
  }

  /** What making a contract guarantees of its terms. */
  predicate AreTerms(c: Terms) {
    && c.discount <= c.price && 1 <= c.interval && 1 <= c.firstMonths && 0.0 <= c.prepayPct <= 100.0
    && (c.preOpening ==> c.interval == 1 && c.firstMonths == 1)
    && (c.coupon.Some? ==> IsRedemption(c.coupon.value, MonthCents(c), Months(c)))
    && IsDate(c.start) && 100 <= c.start.y
  }

  /** Every accepted coupon is redeemed so. */
  lemma AcceptedIsRedemption(rules: Coupon, order: Order)
    requires QuoteCoupon(rules, order).Accepted?
    ensures var q := QuoteCoupon(rules, order);
            && 0 <= q.discount && 1 <= q.months
            && IsRedemption(Redemption(q.discount, q.freeMonths), Quote.MonthCents(order), q.months)
  {
    CouponIsBounded(rules, order);
    var q, m := QuoteCoupon(rules, order), Quote.MonthCents(order);
    hide Quote.MonthCents, Round, ListsOrEmpty, Trunc;
    if q.freeMonths > 0 {
      FreeMonthsRent(m, q.months, q.freeMonths);
    }
  }

  // ---- the quote of the signing page -----------------------------------

  function MonthlyPrice(c: Terms): real {
    Euros(c.price) - Euros(c.discount)
  }

  function PrepayPct(c: Terms): real {
    if 1 < c.interval then c.prepayPct else 0.0
  }

  predicate IsFullPeriod(c: Terms) {
    c.preOpening || 1 < c.interval || 1 < Months(c) || c.coupon.Some?
  }

  function PlanOf(c: Terms): (p: Plan)
    requires AreTerms(c)
    ensures IsPlan(p)
  {
    PlansArePlans(c.start, c.threshold);
    FirstMonthPlan(c.start, c.threshold)
  }

  /** The discount for paying ahead, in euros. */
  function PrepayDiscount(price: real, months: nat, pct: real): real {
    Euros(Round(price * months as real * pct))
  }

  /** The price of the protection for the days or months of the first payment, in euros without VAT. */
  function SigningInsurance(c: Terms): real
    requires AreTerms(c)
  {
    if IsFullPeriod(c) then Euros(c.insurance) * Months(c) as real
    else Euros(FirstMonthCents(Round(Euros(c.insurance) * 100.0), PlanOf(c)).total)
  }

  function PriceWithVat(price: real, rate: nat): real {
    Euros(Round(price * (100 + rate) as real))
  }

  /** `firstPaymentOf`: what the signing page asks `buildFirstPaymentQuote` for. */
  function SigningArgs(c: Terms): (a: Args)
    requires AreTerms(c)
    ensures a.firstMonth.Some? ==> IsPlan(a.firstMonth.value)
  {
    var discountAmount := if c.coupon.Some? then Euros(c.coupon.value.discount)
                          else PrepayDiscount(MonthlyPrice(c), Months(c), PrepayPct(c));
    var plan := if IsFullPeriod(c) then None else Some(PlanOf(c));
    Args(MonthlyPrice(c), Months(c), c.vatRate, discountAmount,
         if c.cashDeposit then 0.0 else Euros(c.deposit),
         PriceWithVat(SigningInsurance(c), InsuranceRate(c)), !IsFullPeriod(c), plan, c.preOpening)
  }

  // ---- the first invoice -----------------------------------------------

  datatype Item = Item(quantity: real, unitPrice: real, taxRate: real)

  /** The rent of the months paid ahead, with its discount. */
  function PrepaidRent(subtotal: int, pct: real): int {
    Round(subtotal as real * (1.0 - pct / 100.0))
  }

  /** The rent lines of the first invoice, before the credit. */
  function RentItems(c: Terms): seq<Item>
    requires AreTerms(c)
  {
    var month, rate := ToCents(MonthlyPrice(c)), c.vatRate as real;
    if c.preOpening then
      var discount := if c.coupon.Some? then Min(ToCents(Euros(c.coupon.value.discount)), month) else 0;
      [Item(1.0, Euros(month - discount), rate)]
    else if 1 < c.interval || 1 < Months(c) || c.coupon.Some? then
      var subtotal := month * Months(c);
      if c.coupon.Some? && c.coupon.value.freeMonths > 0 then
        var free := Min(c.coupon.value.freeMonths, Months(c) - 1);
        [Item(1.0, Euros(month * (Months(c) - free)), rate), Item(free as real, 0.0, rate)]
      else if c.coupon.Some? then
        [Item(1.0, Euros(subtotal - Min(ToCents(Euros(c.coupon.value.discount)), subtotal)), rate)]
      else [Item(1.0, Euros(PrepaidRent(subtotal, PrepayPct(c))), rate)]
    else
      var s := FirstMonthCents(month, PlanOf(c));
      [Item(1.0, Euros(s.firstMonth), rate)]
      + (if PlanOf(c).includesNextMonth then [Item(1.0, Euros(s.nextMonth), rate)] else [])
  }

  /** The lines on which the credit is taken off: the first one, and the second of a split payment. */
  function CreditLines(c: Terms): (n: nat)
    requires AreTerms(c)
    ensures n <= |RentItems(c)|
  {
    if !IsFullPeriod(c) && PlanOf(c).includesNextMonth then 2 else 1
  }

  function ItemCents(i: Item): int {
    ToCents(i.unitPrice) * i.quantity.Floor
  }

  function SumItems(items: seq<Item>): int {
    if items == [] then 0 else ItemCents(items[0]) + SumItems(items[1..])
  }

  /** The items with `left` cents taken off, from the first one on. */
  function WithCredit(items: seq<Item>, left: int): (r: seq<Item>)
    ensures |r| == |items|
  {
    if items == [] || left <= 0 then items
    else
      var applied := Min(ItemCents(items[0]), left);
      [items[0].(quantity := 1.0, unitPrice := Euros(ItemCents(items[0]) - applied))]
      + WithCredit(items[1..], left - applied)
  }

  /** `claimContractCredit`: no more than the rent. */
  function Claimed(c: Terms): int
    requires AreTerms(c)
  {
    var rent := SumItems(RentItems(c)[..CreditLines(c)]);
    if rent <= 0 then 0 else Min(c.credit, rent)
  }

  function InsuranceItems(c: Terms): seq<Item>
    requires AreTerms(c)
  {
    var cents := ToCents(Euros(c.insurance));
    if c.planRate.None? || c.insurance == 0 then []
    else
      var price := if c.preOpening then Euros(c.insurance)
                   else if IsFullPeriod(c) then Euros(cents * Months(c))
                   else Euros(FirstMonthCents(cents, PlanOf(c)).total);
      [Item(1.0, price, InsuranceRate(c) as real)]
  }

  function InvoiceItems(c: Terms): seq<Item>
    requires AreTerms(c)
  {
    var rent, n := RentItems(c), CreditLines(c);
    WithCredit(rent[..n], Claimed(c)) + rent[n..] + InsuranceItems(c)
  }

  function ItemTotal(i: Item): int {
    LineCents(i.quantity, i.unitPrice, i.taxRate).total
  }

  function InvoiceTotal(items: seq<Item>): int {
    if items == [] then 0 else ItemTotal(items[0]) + InvoiceTotal(items[1..])
  }

  /** The deposit receipt that is paid together with the invoice. */
  function BundledDeposit(c: Terms): int {
    if c.cashDeposit then 0 else c.deposit
  }

  lemma CreditStep(rent: seq<Item>, i: nat, left: int)
    requires i < |rent| && 0 < left
    ensures var cents := ItemCents(rent[i]);
            var applied := Min(cents, left);
            WithCredit(rent[i..], left)
            == [rent[i].(quantity := 1.0, unitPrice := Euros(cents - applied))]
               + WithCredit(rent[i + 1..], left - applied)
  {
    hide ItemCents, Euros;
    assert rent[i..][1..] == rent[i + 1..];
  }

  /** The loop that takes the credit off the rent lines. */
  method ApplyCredit(rent: seq<Item>, credit: nat) returns (lines: seq<Item>)
    ensures lines == WithCredit(rent, credit)
  {
    hide ItemCents, Euros, Min, WithCredit;
    lines := [];
    var remaining: int := credit;
    var i := 0;
    assert rent[0..] == rent;
    while i < |rent|
      invariant i <= |rent| && lines + WithCredit(rent[i..], remaining) == WithCredit(rent, credit)
    {
      if remaining <= 0 {
        NoCredit(rent[i..], remaining);
        lines := lines + rent[i..];
        return;
      }
      CreditStep(rent, i, remaining);
      var cents := ItemCents(rent[i]);
      var applied := Min(cents, remaining);
      var line := rent[i].(quantity := 1.0, unitPrice := Euros(cents - applied));
      assert lines + ([line] + WithCredit(rent[i + 1..], remaining - applied))
          == lines + [line] + WithCredit(rent[i + 1..], remaining - applied);
      remaining := remaining - applied;
      lines := lines + [line];
      i := i + 1;
    }
    NoCredit([], remaining);
    assert rent[i..] == [];
  }

  lemma NoCredit(items: seq<Item>, left: int)
    requires items == [] || left <= 0
    ensures WithCredit(items, left) == items
  {
  }

  // ---- lines in cents --------------------------------------------------

  function Priced(cents: seq<int>, rate: nat): (r: seq<Item>)
    ensures |r| == |cents|
  {
    seq(|cents|, k requires 0 <= k < |cents| => Item(1.0, Euros(cents[k]), rate as real))
  }

  predicate AreCents(cents: seq<int>) {
    forall k :: 0 <= k < |cents| ==> 0 <= cents[k]
  }

  function Total(cents: seq<int>): int {
    if cents == [] then 0 else cents[0] + Total(cents[1..])
  }

  function TotalWithVat(cents: seq<int>, rate: nat): int {
    if cents == [] then 0 else WithVat(cents[0], rate) + TotalWithVat(cents[1..], rate)
  }

  /** Amounts with `left` taken off, from the first one on. */
  function Reduced(cents: seq<int>, left: int): (r: seq<int>)
    ensures |r| == |cents|
  {
    if cents == [] || left <= 0 then cents
    else [cents[0] - Min(cents[0], left)] + Reduced(cents[1..], left - Min(cents[0], left))
  }

  lemma PricedTail(cents: seq<int>, rate: nat)
    requires cents != []
    ensures Priced(cents, rate)[0] == Item(1.0, Euros(cents[0]), rate as real)
    ensures Priced(cents, rate)[1..] == Priced(cents[1..], rate)
  {
    hide Euros;
  }

  lemma PricedCents(i: Item, cents: int)
    requires i.quantity == 1.0 && i.unitPrice == Euros(cents)
    ensures ItemCents(i) == cents
  {
    CentsRoundTrip(cents);
    hide ToCents;
    assert 1.0.Floor == 1;
  }

  lemma {:induction false} PricedSum(cents: seq<int>, rate: nat)
    ensures SumItems(Priced(cents, rate)) == Total(cents)
  {
    hide ItemCents, Priced;
    if cents != [] {
      PricedTail(cents, rate);
      PricedCents(Priced(cents, rate)[0], cents[0]);
      PricedSum(cents[1..], rate);
    }
  }

  lemma {:induction false} PricedCredit(cents: seq<int>, rate: nat, left: int)
    ensures WithCredit(Priced(cents, rate), left) == Priced(Reduced(cents, left), rate)
  {
    hide ItemCents, Priced, Euros;
    if cents != [] && 0 < left {
      PricedTail(cents, rate);
      PricedCents(Priced(cents, rate)[0], cents[0]);
      PricedCredit(cents[1..], rate, left - Min(cents[0], left));
      var r := Reduced(cents, left);
      PricedTail(r, rate);
      assert r[1..] == Reduced(cents[1..], left - Min(cents[0], left));
      assert Priced(r, rate) == [Priced(r, rate)[0]] + Priced(r, rate)[1..];
    }
  }

  lemma {:induction false} PricedTotal(cents: seq<int>, rate: nat)
    requires AreCents(cents)
    ensures InvoiceTotal(Priced(cents, rate)) == TotalWithVat(cents, rate)
  {
    hide Priced, LineCents, WithVat, Euros;
    if cents != [] {
      PricedTail(cents, rate);
      LineOfCents(cents[0], rate);
      PricedTotal(cents[1..], rate);
    }
  }

  lemma {:induction false} TotalOfBoth(a: seq<Item>, b: seq<Item>)
    ensures InvoiceTotal(a + b) == InvoiceTotal(a) + InvoiceTotal(b)
    decreases |a|
  {
    hide ItemTotal;
    if a == [] {
      assert a + b == b;
    } else {
      assert (a + b)[1..] == a[1..] + b;
      TotalOfBoth(a[1..], b);
    }
  }

  /** An amount with VAT grows at least as much as the amount. */
  lemma VatGrows(a: int, b: int, rate: nat)
    requires a <= b
    ensures WithVat(a, rate) + (b - a) <= WithVat(b, rate)
  {
    WithVatSplits(a, rate);
    WithVatSplits(b, rate);
    assert a * rate <= b * rate;
    RoundDivGrows(a * rate, b * rate);
    hide RoundDiv, WithVat;
  }

  lemma RoundDivGrows(x: int, y: int)
    requires x <= y
    ensures RoundDiv(x, 100) <= RoundDiv(y, 100)
  {
  }

  /** Taking `left` off lowers the invoice by that much at least, and the rent by exactly that. */
  lemma {:induction false} ReducedTotal(cents: seq<int>, left: int, rate: nat)
    requires AreCents(cents) && 0 <= left <= Total(cents)
    ensures AreCents(Reduced(cents, left)) && Total(Reduced(cents, left)) == Total(cents) - left
    ensures TotalWithVat(Reduced(cents, left), rate) + left <= TotalWithVat(cents, rate)
  {
    hide WithVat;
    if cents != [] && 0 < left {
      var applied := Min(cents[0], left);
      var r := Reduced(cents, left);
      TotalIsNotNegative(cents[1..]);
      ReducedTotal(cents[1..], left - applied, rate);
      assert r[1..] == Reduced(cents[1..], left - applied);
      VatGrows(cents[0] - applied, cents[0], rate);
    }
  }

  lemma {:induction false} TotalIsNotNegative(cents: seq<int>)
    requires AreCents(cents)
    ensures 0 <= Total(cents)
  {
    if cents != [] {
      TotalIsNotNegative(cents[1..]);
    }
  }

  // ---- the two sides in cents ------------------------------------------

  /** The rent of the invoice, in cents a line, before the credit. */
  function RentCents(c: Terms): seq<int>
    requires AreTerms(c)
  {
    var month, months := MonthCents(c), Months(c);
    if c.preOpening then [month - (if c.coupon.Some? then Min(c.coupon.value.discount, month) else 0)]
    else if !IsFullPeriod(c) then
      var s := FirstMonthCents(month, PlanOf(c));
      [s.firstMonth] + (if PlanOf(c).includesNextMonth then [s.nextMonth] else [])
    else if c.coupon.Some? && c.coupon.value.freeMonths > 0 then [month * (months - c.coupon.value.freeMonths)]
    else if c.coupon.Some? then [month * months - Min(c.coupon.value.discount, month * months)]
    else [PrepaidRent(month * months, PrepayPct(c))]
  }

  lemma PriceInCents(c: Terms)
    requires AreTerms(c)
    ensures MonthlyPrice(c) == Euros(MonthCents(c)) && 0 <= MonthCents(c)
    ensures ToCents(MonthlyPrice(c)) == MonthCents(c) && Round(MonthlyPrice(c) * 100.0) == MonthCents(c)
  {
    assert MonthlyPrice(c) == Euros(MonthCents(c));
    CentsRoundTrip(MonthCents(c));
  }

  lemma PartNotNegative(s: int, pct: real)
    requires 0 <= s && 0.0 <= pct <= 100.0
    ensures 0 <= PrepaidRent(s, pct)
  {
    assert 0.0 <= s as real * (1.0 - pct / 100.0);
  }

  lemma ProductNotNegative(x: int, y: int)
    requires 0 <= x && 0 <= y
    ensures 0 <= x * y
  {
  }

  lemma RentIsInCents(c: Terms)
    requires AreTerms(c)
    ensures AreCents(RentCents(c)) && 1 <= |RentCents(c)| <= 2
  {
    hide FirstMonthCents, PlanOf, PrepaidRent, Months, Euros, MonthlyPrice, ToCents;
    var month, months := MonthCents(c), Months(c);
    PriceInCents(c);
    if c.preOpening {
    } else if !IsFullPeriod(c) {
      hide IsFullPeriod;
      SplitIsNotNegative(month, PlanOf(c));
    } else if c.coupon.Some? && c.coupon.value.freeMonths > 0 {
      hide IsFullPeriod;
      ProductNotNegative(month, months - c.coupon.value.freeMonths);
    } else if c.coupon.Some? {
      hide IsFullPeriod;
      ProductNotNegative(month, months);
    } else {
      hide IsFullPeriod;
      ProductNotNegative(month, months);
      PartNotNegative(month * months, PrepayPct(c));
    }
  }

  lemma SplitIsNotNegative(month: nat, plan: Plan)
    requires IsPlan(plan)
    ensures var s := FirstMonthCents(month, plan); 0 <= s.firstMonth && 0 <= s.nextMonth
  {
    FirstMonthFits(month, plan);
    hide RoundDiv;
  }

  /** The line of the free months, at no price. */
  function FreeLine(c: Terms): seq<Item>
    requires AreTerms(c)
  {
    if !c.preOpening && c.coupon.Some? && c.coupon.value.freeMonths > 0
    then [Item(c.coupon.value.freeMonths as real, 0.0, c.vatRate as real)] else []
  }

  lemma RentItemsAre(c: Terms)
    requires AreTerms(c)
    ensures RentItems(c) == Priced(RentCents(c), c.vatRate) + FreeLine(c)
    ensures CreditLines(c) == |RentCents(c)|
  {
    hide FirstMonthCents, PlanOf, PrepaidRent, Months, Euros, MonthlyPrice, ToCents;
    PriceInCents(c);
    if c.coupon.Some? {
      RedeemedInCents(c.coupon.value.discount);
    }
  }

  lemma RedeemedInCents(cents: nat)
    ensures ToCents(Euros(cents)) == cents
  {
    CentsRoundTrip(cents);
  }

  lemma FreeLineIsFree(c: Terms)
    requires AreTerms(c)
    ensures InvoiceTotal(FreeLine(c)) == 0
  {
    if FreeLine(c) != [] {
      NothingCosts(c.coupon.value.freeMonths as real, c.vatRate as real);
      hide LineCents;
      assert FreeLine(c)[1..] == [];
    }
  }

  lemma NothingCosts(quantity: real, rate: real)
    ensures LineCents(quantity, 0.0, rate).total == 0
  {
    assert quantity * 0.0 * 100.0 == 0.0;
    assert (0 as real) * rate / 100.0 == 0.0;
  }

  function InsuranceCents(c: Terms): int
    requires AreTerms(c)
  {
    if c.preOpening then c.insurance
    else if IsFullPeriod(c) then c.insurance * Months(c)
    else FirstMonthCents(c.insurance, PlanOf(c)).total
  }

  lemma InsuranceIsInCents(c: Terms)
    requires AreTerms(c)
    ensures 0 <= InsuranceCents(c) && (c.insurance == 0 ==> InsuranceCents(c) == 0)
  {
    hide FirstMonthCents, PlanOf, Months;
    ProductNotNegative(c.insurance, Months(c));
    SplitIsNotNegative(c.insurance, PlanOf(c));
    SplitOf(c.insurance, PlanOf(c));
  }

  lemma SplitOf(month: nat, plan: Plan)
    requires IsPlan(plan)
    ensures var s := FirstMonthCents(month, plan);
            s.total == s.firstMonth + s.nextMonth && (month == 0 ==> s.total == 0)
            && (!plan.includesNextMonth ==> s.nextMonth == 0)
  {
    FirstMonthFits(month, plan);
    hide RoundDiv;
  }

  /** The protection with its VAT, as the signing page announces it. */
  function Announced(c: Terms): int
    requires AreTerms(c)
  {
    WithVat(InsuranceCents(c), InsuranceRate(c))
  }

  /** The protection with its VAT, as the invoice charges it: only while the contract has a plan. */
  function ChargedInsurance(c: Terms): int
    requires AreTerms(c)
  {
    if c.planRate.Some? then Announced(c) else 0
  }

  lemma InsuranceInvoiced(c: Terms)
    requires AreTerms(c)
    ensures InvoiceTotal(InsuranceItems(c)) == ChargedInsurance(c)
  {
    InsuranceIsInCents(c);
    RedeemedInCents(c.insurance);
    VatOfNothing(InsuranceRate(c));
    if c.insurance != 0 && c.planRate.Some? {
      LineOfCents(InsuranceCents(c), InsuranceRate(c));
      hide FirstMonthCents, PlanOf, Months, Euros, ToCents, LineCents, WithVat;
      var items := InsuranceItems(c);
      assert items == [Item(1.0, Euros(InsuranceCents(c)), InsuranceRate(c) as real)];
      assert items[1..] == [];
    }
  }

  lemma VatOfNothing(rate: nat)
    ensures WithVat(0, rate) == 0
  {
    assert 0 * (100 + rate) == 0;
  }

  /**
   * What the first invoice charges, in cents: the rent of its branch less the credit, and the
   * protection while there is a plan.
   */
  lemma InvoiceIs(c: Terms)
    requires AreTerms(c)
    ensures Claimed(c) == Min(c.credit, Total(RentCents(c))) && 0 <= Claimed(c)
    ensures InvoiceTotal(InvoiceItems(c))
         == TotalWithVat(Reduced(RentCents(c), Claimed(c)), c.vatRate) + ChargedInsurance(c)
  {
    hide RentItems, RentCents, FreeLine, InsuranceItems, ChargedInsurance, WithVat, CreditLines, AreTerms;
    var cents, n := RentCents(c), CreditLines(c);
    RentItemsAre(c);
    RentIsInCents(c);
    var rent := RentItems(c);
    assert rent[..n] == Priced(cents, c.vatRate) && rent[n..] == FreeLine(c);
    hide Priced;
    PricedSum(cents, c.vatRate);
    TotalIsNotNegative(cents);
    var k := Claimed(c);
    PricedCredit(cents, c.vatRate, k);
    ReducedTotal(cents, k, c.vatRate);
    hide Claimed, InvoiceTotal, WithCredit, Reduced, TotalWithVat, AreCents, Total;
    PricedTotal(Reduced(cents, k), c.vatRate);
    var paid := Priced(Reduced(cents, k), c.vatRate);
    TotalOfBoth(paid + FreeLine(c), InsuranceItems(c));
    TotalOfBoth(paid, FreeLine(c));
    FreeLineIsFree(c);
    InsuranceInvoiced(c);
  }

  // ---- half a cent -----------------------------------------------------

  /** Half past a whole number. */
  predicate IsHalf(x: real) {
    x + 0.5 == (x + 0.5).Floor as real
  }

  /** The discount for paying ahead ends in exactly half a cent. */
  predicate DiscountEndsInHalf(c: Terms) {
    && 1 < c.interval && c.coupon.None?
    && IsHalf(PartOf(MonthCents(c) * Months(c), c.prepayPct))
  }

  /** The quote rounds the discount and the invoice the rent: they differ exactly on half a cent. */
  lemma RoundingMeets(s: nat, pct: real)
    requires 0.0 <= pct <= 100.0
    ensures var x := PartOf(s, pct);
            && 0 <= Round(x) <= s
            && PrepaidRent(s, pct) == s - Round(x) + (if IsHalf(x) then 1 else 0)
  {
    PercentageFits(s, pct);
    RestOfAmount(s as real, pct);
    RoundOfRest(s, PartOf(s, pct));
    hide Round, IsHalf;
  }

  lemma RestOfAmount(t: real, pct: real)
    ensures t * (1.0 - pct / 100.0) == t - t * pct / 100.0
  {
  }

  lemma RoundOfRest(s: nat, x: real)
    requires 0.0 <= x <= s as real
    ensures 0 <= Round(x) <= s && Round(s as real - x) == s - Round(x) + (if IsHalf(x) then 1 else 0)
  {
    var k := (x + 0.5).Floor;
    if IsHalf(x) {
      RoundIs(s as real - x, s - k + 1);
    } else {
      RoundIs(s as real - x, s - k);
    }
  }

  // ---- the quote in cents ----------------------------------------------

  function Half(c: Terms): int {
    if DiscountEndsInHalf(c) then 1 else 0
  }

  /** The rent that the quote puts VAT on, in cents a line. */
  function QuoteCents(c: Terms): seq<int>
    requires AreTerms(c)
  {
    if IsFullPeriod(c) && RentCents(c) != [] then [RentCents(c)[0] - Half(c)] else RentCents(c)
  }

  lemma EurosTimes(cents: int, n: int, pct: real)
    ensures Euros(cents) * n as real == Euros(cents * n)
    ensures Euros(cents) * n as real * pct == PartOf(cents * n, pct)
  {
    ProductAsReal(cents, n);
    var e := Euros(cents) * n as real;
    assert e == Euros(cents * n);
    assert e * 100.0 == (cents * n) as real;
    assert e * pct * 100.0 == (cents * n) as real * pct;
  }

  /** The discount of the signing page, in cents. */
  lemma SigningDiscount(c: Terms)
    requires AreTerms(c)
    ensures Round(SigningArgs(c).discountAmount * 100.0)
         == if c.coupon.Some? then c.coupon.value.discount
            else Round(PartOf(MonthCents(c) * Months(c), PrepayPct(c)))
  {
    hide PlanOf, Round, FirstMonthCents, PartOf, Months, PrepayPct;
    PriceInCents(c);
    hide MonthlyPrice, SigningInsurance, PrepayDiscount;
    if c.coupon.Some? {
      CentsRoundTrip(c.coupon.value.discount);
    } else {
      PrepayDiscountIs(MonthCents(c), Months(c), PrepayPct(c));
    }
    hide Euros;
  }

  lemma PrepayDiscountIs(month: int, months: nat, pct: real)
    ensures Round(PrepayDiscount(Euros(month), months, pct) * 100.0) == Round(PartOf(month * months, pct))
  {
    EurosTimes(month, months, pct);
    CentsRoundTrip(Round(PartOf(month * months, pct)));
    hide Round, Euros, PartOf;
  }

  lemma NothingOff(s: int)
    ensures Round(PartOf(s, 0.0)) == 0 && !IsHalf(PartOf(s, 0.0))
  {
    assert s as real * 0.0 / 100.0 == 0.0;
  }

  /** The rent left by the discount of the signing page, against the rent of the invoice. */
  lemma FullRent(c: Terms)
    requires AreTerms(c) && IsFullPeriod(c)
    ensures var subtotal := MonthCents(c) * Months(c);
            var discount := Clamp(Round(SigningArgs(c).discountAmount * 100.0), subtotal);
            0 <= subtotal && RentCents(c) == [subtotal - discount + Half(c)]
  {
    SigningDiscount(c);
    PriceInCents(c);
    hide SigningArgs, MonthlyPrice, Round, Euros, ToCents, PlanOf, FirstMonthCents, PrepaidRent, IsHalf, PartOf;
    if c.coupon.Some? {
      CouponRent(c);
    } else {
      PlainRent(c);
    }
  }

  lemma PlainRent(c: Terms)
    requires AreTerms(c) && IsFullPeriod(c) && c.coupon.None?
    ensures var subtotal := MonthCents(c) * Months(c);
            var discount := Round(PartOf(subtotal, PrepayPct(c)));
            0 <= discount <= subtotal && RentCents(c) == [subtotal - discount + Half(c)]
  {
    hide Round, PlanOf, FirstMonthCents, PrepaidRent, IsHalf, PartOf;
    var month, months := MonthCents(c), Months(c);
    ProductNotNegative(month, months);
    RoundingMeets(month * months, PrepayPct(c));
    NothingOff(month * months);
    PrepaidOfNothing(month * months);
    if c.preOpening {
      assert month * months == month;
    }
  }

  lemma PrepaidOfNothing(s: int)
    ensures PrepaidRent(s, 0.0) == s
  {
    assert s as real * (1.0 - 0.0 / 100.0) == s as real;
    RoundIs(s as real, s);
  }

  lemma CouponRent(c: Terms)
    requires AreTerms(c) && c.coupon.Some?
    ensures 0 <= MonthCents(c) * Months(c)
    ensures RentCents(c) == [MonthCents(c) * Months(c) - Clamp(c.coupon.value.discount, MonthCents(c) * Months(c))]
  {
    hide PlanOf, FirstMonthCents, PrepaidRent;
    var month, months, free := MonthCents(c), Months(c), c.coupon.value.freeMonths;
    ProductNotNegative(month, months);
    if c.preOpening {
      assert months == 1 && month * 1 == month;
    } else if free > 0 {
      FreeMonthsRent(month, months, free);
    }
  }

  /** The amounts of the signing page, in cents. */
  lemma QuoteRentIs(c: Terms)
    requires AreTerms(c)
    ensures AreArgs(SigningArgs(c))
    ensures var q := BuildFirstPaymentQuote(SigningArgs(c));
            && q.rentTotal == Total(QuoteCents(c))
            && q.rentTotalWithVat == TotalWithVat(QuoteCents(c), c.vatRate)
  {
    PriceInCents(c);
    RentIsInCents(c);
    if IsFullPeriod(c) {
      FullRent(c);
      assert SigningArgs(c).firstMonth == None;
      hide SigningArgs, RentCents, WithVat, Round, MonthlyPrice, Months, IsFullPeriod;
      assert [RentCents(c)[0] - Half(c)][1..] == [];
    } else {
      SplitRent(c);
    }
  }

  lemma SplitRent(c: Terms)
    requires AreTerms(c) && !IsFullPeriod(c) && AreArgs(SigningArgs(c))
    ensures var q := BuildFirstPaymentQuote(SigningArgs(c));
            && q.rentTotal == Total(RentCents(c))
            && q.rentTotalWithVat == TotalWithVat(RentCents(c), c.vatRate)
  {
    SigningDiscount(c);
    NothingOff(MonthCents(c) * Months(c));
    PriceInCents(c);
    var a, month := SigningArgs(c), MonthCents(c);
    assert a.firstMonth == Some(PlanOf(c)) && a.months == 1 && a.prorated && !a.preOpening && a.vatRate == c.vatRate;
    assert Round(a.monthlyPrice * 100.0) == month && Round(a.discountAmount * 100.0) == 0;
    hide SigningArgs, FirstMonthCents, PlanOf, WithVat, Round, MonthlyPrice, PartOf, Months, ToCents, Euros;
    SplitQuote(a, month, PlanOf(c));
    var s := FirstMonthCents(month, PlanOf(c));
    SplitIsNotNegative(month, PlanOf(c));
    SplitOf(month, PlanOf(c));
    VatOfNothing(c.vatRate);
    hide BuildFirstPaymentQuote;
    TwoTotals(s.firstMonth, s.nextMonth, c.vatRate);
    assert [s.firstMonth] + [] == [s.firstMonth];
    hide Total, TotalWithVat;
  }

  lemma SplitQuote(a: Args, month: nat, plan: Plan)
    requires AreArgs(a) && a.firstMonth == Some(plan) && a.months == 1 && a.prorated && !a.preOpening && IsPlan(plan)
    requires Round(a.monthlyPrice * 100.0) == month && Round(a.discountAmount * 100.0) == 0
    ensures var q, s := BuildFirstPaymentQuote(a), FirstMonthCents(month, plan);
            && q.rentTotal == s.firstMonth + s.nextMonth
            && q.rentTotalWithVat == WithVat(s.firstMonth, a.vatRate) + WithVat(s.nextMonth, a.vatRate)
  {
    SplitIsNotNegative(month, plan);
    SplitOf(month, plan);
    hide FirstMonthCents, WithVat, Round;
  }

  lemma TwoTotals(a: int, b: int, rate: nat)
    ensures Total([a]) == a && TotalWithVat([a], rate) == WithVat(a, rate)
    ensures Total([a] + [b]) == a + b && TotalWithVat([a] + [b], rate) == WithVat(a, rate) + WithVat(b, rate)
  {
    hide WithVat;
    assert [a][1..] == [] && ([a] + [b])[1..] == [b] && [b][1..] == [];
  }

  lemma VatOfEuros(cents: nat, rate: nat)
    ensures PriceWithVat(Euros(cents), rate) == Euros(WithVat(cents, rate))
  {
    var n := cents * (100 + rate);
    ProductAsReal(cents, 100 + rate);
    assert Euros(cents) * (100 + rate) as real == n as real / 100.0;
    RoundQuotient(n, 100, 0.0);
    assert 100 as real == 100.0;
    hide Round, RoundDiv;
  }

  /**
   * The deposit is announced as it is charged. So is the protection if and only if the contract
   * still has its plan or the protection costs nothing.
   */
  lemma RestOfQuote(c: Terms)
    requires AreTerms(c) && AreArgs(SigningArgs(c))
    ensures var q := BuildFirstPaymentQuote(SigningArgs(c));
            && q.deposit == BundledDeposit(c) && q.insurance == Announced(c)
            && (q.insurance == InvoiceTotal(InsuranceItems(c)) <==> IsInsuranceKept(c))
            && q.insurance - InvoiceTotal(InsuranceItems(c)) == if c.planRate.Some? then 0 else Announced(c)
  {
    RestOfSigning(c);
    InsuranceInvoiced(c);
    AnnouncedIsPositive(c);
    RestOfArgs(SigningArgs(c), Announced(c), BundledDeposit(c));
    hide BuildFirstPaymentQuote, SigningArgs, Announced;
  }

  /** The contract still has the plan of its protection, or the protection costs nothing. */
  predicate IsInsuranceKept(c: Terms)
    requires AreTerms(c)
  {
    c.planRate.Some? || InsuranceCents(c) == 0
  }

  lemma AnnouncedIsPositive(c: Terms)
    requires AreTerms(c)
    ensures InsuranceCents(c) <= Announced(c) && (InsuranceCents(c) == 0 <==> Announced(c) == 0)
  {
    InsuranceIsInCents(c);
    hide InsuranceCents;
    VatOfNothing(InsuranceRate(c));
    VatGrows(0, InsuranceCents(c), InsuranceRate(c));
    hide WithVat;
  }

  lemma RestOfArgs(a: Args, insurance: int, deposit: int)
    requires AreArgs(a)
    requires Round(a.insuranceWithVat * 100.0) == insurance && Round(a.deposit * 100.0) == deposit
    ensures var q := BuildFirstPaymentQuote(a); q.insurance == insurance && q.deposit == deposit
  {
    hide Round, WithVat, FirstMonthCents;
  }

  lemma RestOfSigning(c: Terms)
    requires AreTerms(c)
    ensures var a := SigningArgs(c);
            && Round(a.insuranceWithVat * 100.0) == WithVat(InsuranceCents(c), InsuranceRate(c))
            && Round(a.deposit * 100.0) == BundledDeposit(c)
  {
    InsuranceInEuros(c);
    InsuranceIsInCents(c);
    hide MonthlyPrice, Months, WithVat, PlanOf, PrepayPct, SigningInsurance, InsuranceCents, IsFullPeriod;
    hide PrepayDiscount, FirstMonthCents, Euros, PriceWithVat;
    CentsRoundTrip(c.deposit);
    VatOfEuros(InsuranceCents(c), InsuranceRate(c));
    CentsRoundTrip(WithVat(InsuranceCents(c), InsuranceRate(c)));
    RoundIs(0.0, 0);
    hide Round;
  }

  lemma InsuranceInEuros(c: Terms)
    requires AreTerms(c)
    ensures SigningInsurance(c) == Euros(InsuranceCents(c))
  {
    CentsRoundTrip(c.insurance);
    EurosTimes(c.insurance, Months(c), 0.0);
    if c.preOpening {
      OneMonth(c);
    }
    hide Months, PlanOf, FirstMonthCents, Round, Euros;
  }

  lemma OneMonth(c: Terms)
    requires AreTerms(c) && c.preOpening
    ensures Months(c) == 1 && Euros(c.insurance) * Months(c) as real == Euros(c.insurance)
  {
  }

  // ---- the two meet ----------------------------------------------------

  lemma OneLineMeets(rent: nat, half: int, left: int, rate: nat)
    requires 0 <= left <= rent
    ensures TotalWithVat([rent - half], rate) == TotalWithVat(Reduced([rent], left), rate) <==> left == half
  {
    TwoTotals(rent - half, 0, rate);
    TwoTotals(rent - left, 0, rate);
    assert [rent][1..] == [];
    assert Reduced([rent], left) == [rent - left];
    if half <= left {
      VatGrows(rent - left, rent - half, rate);
    } else {
      VatGrows(rent - half, rent - left, rate);
    }
    hide WithVat, TotalWithVat, Reduced;
  }

  lemma VatMeets(c: Terms)
    requires AreTerms(c)
    ensures var left := Min(c.credit, Total(RentCents(c)));
            TotalWithVat(QuoteCents(c), c.vatRate) == TotalWithVat(Reduced(RentCents(c), left), c.vatRate)
            <==> left == Half(c)
  {
    RentIsInCents(c);
    var rent := RentCents(c);
    TotalIsNotNegative(rent);
    var left := Min(c.credit, Total(rent));
    hide Reduced, TotalWithVat;
    if IsFullPeriod(c) {
      FullRent(c);
      hide RentCents, IsFullPeriod, SigningArgs;
      TwoTotals(rent[0], 0, c.vatRate);
      OneLineMeets(rent[0], Half(c), left, c.vatRate);
    } else {
      assert Half(c) == 0;
      hide RentCents;
      ReducedTotal(rent, left, c.vatRate);
      NothingReduced(rent);
    }
  }

  lemma NothingReduced(cents: seq<int>)
    ensures Reduced(cents, 0) == cents
  {
  }

  /**
   * The first payment announced when signing against what the first invoice and its deposit charge,
   * protection and VAT included. While the protection is kept, they are the same to the cent if and
   * only if the credit taken off is exactly the cent that rounding adds: none, or one when the
   * discount for paying ahead ends in half a cent. When its plan has been deleted, the announcement
   * exceeds the charge by the whole protection on top of what the rents differ.
   */
  lemma QuoteEqualsInvoice(c: Terms)
    requires AreTerms(c)
    ensures AreArgs(SigningArgs(c))
    ensures var charged := InvoiceTotal(InvoiceItems(c)) + BundledDeposit(c);
            var total := BuildFirstPaymentQuote(SigningArgs(c)).totalToPay;
            && (IsInsuranceKept(c) ==> (total == charged <==> Min(c.credit, Total(RentCents(c))) == Half(c)))
            && total - charged == RentDifference(c) + (if c.planRate.Some? then 0 else Announced(c))
  {
    hide SigningArgs, QuoteCents, RentCents, InsuranceCents, TotalWithVat, InvoiceItems, InvoiceTotal, Claimed, Total;
    hide WithVat, Reduced, BundledDeposit, AreTerms, Half, InsuranceItems, Announced;
    QuoteRentIs(c);
    RestOfQuote(c);
    InvoiceIs(c);
    VatMeets(c);
    AnnouncedIsPositive(c);
    TotalToPay(SigningArgs(c));
    hide BuildFirstPaymentQuote;
  }

  /** The announced rent with VAT less the charged one. */
  function RentDifference(c: Terms): int
    requires AreTerms(c)
  {
    TotalWithVat(QuoteCents(c), c.vatRate)
    - TotalWithVat(Reduced(RentCents(c), Min(c.credit, Total(RentCents(c)))), c.vatRate)
  }

  /** One cent of rent more is at most two cents more with VAT of up to 100 %. */
  lemma OneCentMore(rent: int, rate: nat)
    requires rate <= 100
    ensures WithVat(rent, rate) - 2 <= WithVat(rent - 1, rate)
  {
    WithVatSplits(rent, rate);
    WithVatSplits(rent - 1, rate);
    assert (rent - 1) * rate == rent * rate - rate;
    hide WithVat;
  }

  lemma RentDifferenceIs(c: Terms)
    requires AreTerms(c) && c.vatRate <= 100
    ensures -2 * Half(c) <= RentDifference(c)
    ensures Half(c) == 1 ==> 1 < c.interval
  {
    RentIsInCents(c);
    var rent := RentCents(c);
    TotalIsNotNegative(rent);
    var left := Min(c.credit, Total(rent));
    ReducedTotal(rent, left, c.vatRate);
    hide Reduced, TotalWithVat;
    if IsFullPeriod(c) {
      FullRent(c);
      hide RentCents, IsFullPeriod, SigningArgs;
      TwoTotals(rent[0], 0, c.vatRate);
      TwoTotals(rent[0] - Half(c), 0, c.vatRate);
      OneCentMore(rent[0], c.vatRate);
      hide WithVat, Total;
    } else {
      assert Half(c) == 0;
    }
  }

  /**
   * With the intervals that a contract can have (one month, or paying six or twelve ahead), the two
   * totals are the same if and only if the protection is kept and the credit is the rounding cent.
   */
  lemma QuoteEqualsInvoiceExactly(c: Terms)
    requires AreTerms(c) && c.vatRate <= 100 && (c.interval == 1 || 6 <= c.interval)
    ensures AreArgs(SigningArgs(c))
    ensures BuildFirstPaymentQuote(SigningArgs(c)).totalToPay == InvoiceTotal(InvoiceItems(c)) + BundledDeposit(c)
            <==> IsInsuranceKept(c) && Min(c.credit, Total(RentCents(c))) == Half(c)
  {
    QuoteEqualsInvoice(c);
    RentDifferenceIs(c);
    AnnouncedIsPositive(c);
    InsuranceIsInCents(c);
    if Half(c) == 1 && InsuranceCents(c) != 0 {
      SixMonths(c);
    }
    hide SigningArgs, RentCents, InsuranceCents, RentDifference, InvoiceItems, InvoiceTotal, Total, Announced, Half;
    hide BuildFirstPaymentQuote, BundledDeposit;
  }

  /** Protection paid for six months or more is six cents or more. */
  lemma SixMonths(c: Terms)
    requires AreTerms(c) && 6 <= c.interval && InsuranceCents(c) != 0
    ensures 6 <= InsuranceCents(c)
  {
    assert IsFullPeriod(c) && !c.preOpening && Months(c) == c.interval;
    AtLeastSix(c.insurance, c.interval);
  }

  lemma AtLeastSix(x: nat, n: nat)
    requires 6 <= n && x * n != 0
    ensures 6 <= x * n
  {
    assert 1 <= x;
  }

  lemma TotalToPay(a: Args)
    requires AreArgs(a)
    ensures var q := BuildFirstPaymentQuote(a); q.totalToPay == q.rentTotalWithVat + q.insurance + q.deposit
  {
    hide WithVat, Round;
  }

  /**
   * With nothing to take off, the announced rent is the invoiced one in every branch (split month,
   * coupon, free months, several months, before an opening), and for a discount for paying ahead
   * if and only if it does not end in half a cent; otherwise the invoice charges one cent more. The
   * same holds of the totals while the protection is kept.
   */
  lemma RentEqualsInvoice(c: Terms)
    requires AreTerms(c) && c.credit == 0
    ensures AreArgs(SigningArgs(c))
    ensures var q := BuildFirstPaymentQuote(SigningArgs(c));
            && SumItems(RentItems(c)[..CreditLines(c)]) - q.rentTotal == (if DiscountEndsInHalf(c) then 1 else 0)
            && (IsInsuranceKept(c) ==>
                  (q.totalToPay == InvoiceTotal(InvoiceItems(c)) + BundledDeposit(c) <==> !DiscountEndsInHalf(c)))
  {
    QuoteEqualsInvoice(c);
    QuoteRentIs(c);
    RentItemsAre(c);
    RentIsInCents(c);
    TotalIsNotNegative(RentCents(c));
    var cents := RentCents(c);
    PricedSum(cents, c.vatRate);
    assert RentItems(c)[..CreditLines(c)] == Priced(cents, c.vatRate);
    hide Priced, SumItems, RentItems, InvoiceItems, InvoiceTotal, BuildFirstPaymentQuote, SigningArgs, CreditLines;
    if IsFullPeriod(c) {
      FullRent(c);
      hide RentCents, IsFullPeriod;
      TwoTotals(cents[0], 0, c.vatRate);
      TwoTotals(cents[0] - Half(c), 0, c.vatRate);
    } else {
      assert Half(c) == 0;
    }
  }

  /** A discount that meets a split month is ignored by the VAT; no contract asks for one. */
  lemma SigningSplitsWithoutDiscount(c: Terms)
    requires AreTerms(c)
    ensures AreArgs(SigningArgs(c)) && !DiscountMeetsSplit(SigningArgs(c))
  {
    PriceInCents(c);
    SigningDiscount(c);
    NothingOff(MonthCents(c) * Months(c));
    hide FirstMonthCents, Round, PlanOf, MonthlyPrice, Euros, IsHalf, PartOf;
  }

  /** Six months at 49.95 paid ahead with 5 % off: 344.50 announced, 344.51 charged. */
  lemma HalfCentExample(c: Terms)
    requires AreTerms(c)
    requires c.price == 4995 && c.discount == 0 && c.interval == 6 && c.prepayPct == 5.0 && c.coupon.None?
    requires c.vatRate == 21 && c.insurance == 0 && c.deposit == 0 && c.credit == 0
    ensures AreArgs(SigningArgs(c)) && BuildFirstPaymentQuote(SigningArgs(c)).rentTotal == 28471
    ensures BuildFirstPaymentQuote(SigningArgs(c)).totalToPay == 34450 && InvoiceTotal(InvoiceItems(c)) == 34451
  {
    QuoteRentIs(c);
    RestOfQuote(c);
    InvoiceIs(c);
    RentIsInCents(c);
    TotalToPay(SigningArgs(c));
    ExampleRent(c);
    VatOfNothing(InsuranceRate(c));
    hide SigningArgs, InvoiceItems, InvoiceTotal, BuildFirstPaymentQuote, RentCents, Claimed;
    TwoTotals(28472, 0, 21);
    TwoTotals(28471, 0, 21);
    NothingReduced([28472]);
    InsuranceIsInCents(c);
    hide Total, TotalWithVat, Reduced;
    assert WithVat(28471, 21) == 34450 && WithVat(28472, 21) == 34451;
  }

  lemma ExampleRent(c: Terms)
    requires AreTerms(c)
    requires c.price == 4995 && c.discount == 0 && c.interval == 6 && c.prepayPct == 5.0 && c.coupon.None?
    ensures RentCents(c) == [28472] && QuoteCents(c) == [28471]
  {
    assert MonthCents(c) * Months(c) == 29970;
    assert PartOf(29970, 5.0) == 1498.5;
    RoundingMeets(29970, 5.0);
    assert IsHalf(1498.5);
    RoundIs(1498.5, 1499);
    hide PrepaidRent, IsHalf, Round;
  }

  /**
   * A month at 50.00 before an opening, with protection at 5.00 whose plan has been deleted: 66.55
   * announced, 60.50 charged.
   */
  lemma DeletedPlanExample(c: Terms)
    requires AreTerms(c)
    requires c.price == 5000 && c.discount == 0 && c.preOpening && c.coupon.None? && c.vatRate == 21
    requires c.insurance == 500 && c.planRate.None? && c.deposit == 0 && c.credit == 0
    ensures AreArgs(SigningArgs(c))
    ensures BuildFirstPaymentQuote(SigningArgs(c)).totalToPay == 6655 && InvoiceTotal(InvoiceItems(c)) == 6050
  {
    QuoteEqualsInvoice(c);
    InvoiceIs(c);
    assert RentCents(c) == [5000] && InsuranceCents(c) == 500;
    assert Half(c) == 0 && QuoteCents(c) == [5000];
    hide SigningArgs, InvoiceItems, InvoiceTotal, BuildFirstPaymentQuote, RentCents, Claimed, QuoteCents;
    TwoTotals(5000, 0, 21);
    NothingReduced([5000]);
    hide Total, TotalWithVat, Reduced;
    assert WithVat(5000, 21) == 6050 && WithVat(500, 21) == 605;
  }
}
