/** Payment plans: splitting a debt into installments and spreading what is paid over them. */
module Installments {
  import opened Calendar
  import opened DateText
  import opened DateAdders
  import opened Money

  datatype Frequency = Weekly | Biweekly | Monthly
  datatype Installment = Installment(dueDate: Ymd, amount: real)

  // ---- building a plan -------------------------------------------------

  function DueDate(first: Ymd, frequency: Frequency, k: nat): (r: Ymd)
    requires IsDate(first)
    ensures IsDate(r)
  {
    match frequency
    case Monthly => AddMonths(first, k)
    case Weekly => AddDays(first, k * 7)
    case Biweekly => AddDays(first, k * 14)
  }

  /** The cents of installment `k`: the last one takes what is left. */
  function PartCents(cents: int, count: nat, k: nat): int
    requires 0 < count
  {
    var base := cents / count;
    if k == count - 1 then cents - base * (count - 1) else base
  }

  /** `buildInstallments`. */
  function BuildInstallments(total: real, count: nat, first: Ymd, frequency: Frequency): (r: seq<Installment>)
    requires 0 < count && IsDate(first)
    ensures |r| == count && AreDates(r)
  {
    var cents := Round(total * 100.0);
    seq(count, k requires 0 <= k < count =>
      Installment(DueDate(first, frequency, k), Euros(PartCents(cents, count, k))))
  }

  /** An amount in euros as `allocateInstallments` reads it. */
  function Cents(i: Installment): int {
    Round(i.amount * 100.0)
  }

  function CentsOf(plan: seq<Installment>): (r: seq<int>)
    ensures |r| == |plan|
  {
    seq(|plan|, k requires 0 <= k < |plan| => Cents(plan[k]))
  }

  function Sum(s: seq<int>): int {
    if s == [] then 0 else Sum(s[..|s| - 1]) + s[|s| - 1]
  }

  lemma {:induction false} SumOfEqual(s: seq<int>, x: int)
    requires forall k :: 0 <= k < |s| ==> s[k] == x
    ensures Sum(s) == x * |s|
  {
    if s != [] {
      SumOfEqual(s[..|s| - 1], x);
    }
  }

  /** Read back in cents, a plan holds its parts. */
  lemma PlanCents(total: real, count: nat, first: Ymd, frequency: Frequency)
    requires 0 < count && IsDate(first)
    ensures var c := CentsOf(BuildInstallments(total, count, first, frequency));
            |c| == count && forall k: nat :: k < count ==> c[k] == PartCents(Round(total * 100.0), count, k)
  {
    hide Round, DueDate, PartCents, Euros;
    var cents := Round(total * 100.0);
    forall k: nat | k < count
      ensures CentsOf(BuildInstallments(total, count, first, frequency))[k] == PartCents(cents, count, k)
    {
      CentsRoundTrip(PartCents(cents, count, k));
    }
  }

  lemma PartsAddUp(c: seq<int>, cents: int, count: nat)
    requires 0 < count == |c| && forall k: nat :: k < count ==> c[k] == PartCents(cents, count, k)
    ensures Sum(c) == cents && 0 <= c[count - 1] - cents / count < count
    ensures forall k :: 0 <= k < count - 1 ==> c[k] == cents / count
  {
    var base := cents / count;
    assert forall k :: 0 <= k < count - 1 ==> c[k] == base;
    SumOfEqual(c[..count - 1], base);
    Quotient(cents, count);
    assert base * (count - 1) == base * count - base;
  }

  /**
   * A plan adds up to the total to the cent; its parts are equal except the last, which
   * exceeds them by less than one cent an installment.
   */
  lemma PlanAddsUp(total: real, count: nat, first: Ymd, frequency: Frequency)
    requires 0 < count && IsDate(first)
    ensures var c := CentsOf(BuildInstallments(total, count, first, frequency));
            && |c| == count && Sum(c) == Round(total * 100.0)
            && (forall k :: 0 <= k < count - 1 ==> c[k] == Round(total * 100.0) / count)
            && 0 <= c[count - 1] - Round(total * 100.0) / count < count
  {
    hide Round, CentsOf, BuildInstallments, PartCents;
    PlanCents(total, count, first, frequency);
    PartsAddUp(CentsOf(BuildInstallments(total, count, first, frequency)), Round(total * 100.0), count);
  }

  lemma Quotient(n: int, d: nat)
    requires 0 < d
    ensures 0 <= n - n / d * d < d
  {
  }

  lemma DueDateIs(first: Ymd, frequency: Frequency, k: nat)
    requires IsDate(first) && 1000 <= first.y
    ensures var r := DueDate(first, frequency, k);
            && IsDate(r)
            && (frequency.Monthly? ==> r == PlusMonths(first, k))
            && (frequency.Weekly? ==> DayNumber(r) == DayNumber(first) + 7 * k)
            && (frequency.Biweekly? ==> DayNumber(r) == DayNumber(first) + 14 * k)
  {
    hide DayNumber, PlusMonths, AddMonths, AddDays;
    MonthAddersAgree(first, k);
    DayAddersAgree(first, k * 7);
    DayAddersAgree(first, k * 14);
  }

  /** Due dates increase strictly and each is counted from the first: monthly plans keep its day. */
  lemma DueDatesIncrease(total: real, count: nat, first: Ymd, frequency: Frequency, i: nat, j: nat)
    requires IsDate(first) && 1000 <= first.y && i < j < count
    ensures var plan := BuildInstallments(total, count, first, frequency);
            && IsDate(plan[i].dueDate) && IsDate(plan[j].dueDate)
            && DayNumber(plan[i].dueDate) < DayNumber(plan[j].dueDate)
            && (frequency.Monthly? ==>
                  plan[j].dueDate.d == Min(first.d, MonthDays(plan[j].dueDate.y, plan[j].dueDate.m)))
  {
    hide DayNumber, MonthDays, PlusMonths, DueDate;
    DueDateIs(first, frequency, i);
    DueDateIs(first, frequency, j);
    if frequency.Monthly? {
      MonthOrder(PlusMonths(first, i), PlusMonths(first, j));
    }
  }

  // ---- spreading a payment ---------------------------------------------

  datatype Status = Paid | Partial | Pending | Late
  datatype Allocation = Allocation(dueDate: Ymd, amount: real, paid: real, status: Status)

  function Bounded(x: int, top: int): int {
    var m := Min(top, x);
    if 0 <= m then m else 0
  }

  function StatusOf(covered: int, cents: int, late: bool): Status {
    if covered >= cents then Paid
    else if late then Late
    else if covered > 0 then Partial
    else Pending
  }

  predicate IsLate(dueDate: Ymd, today: Ymd, graceDays: int)
    requires IsDate(dueDate) && IsDate(today)
  {
    Before(AddDays(dueDate, graceDays), today)
  }

  /** What is covered of each part when `left` cents are spread from the first on. */
  function Covered(cents: seq<int>, left: int): (r: seq<int>)
    ensures |r| == |cents|
  {
    if cents == [] then []
    else
      var before := Covered(cents[..|cents| - 1], left);
      before + [Bounded(left - Sum(before), cents[|cents| - 1])]
  }

  predicate AreDates(plan: seq<Installment>) {
    forall k :: 0 <= k < |plan| ==> IsDate(plan[k].dueDate)
  }

  function Allocated(plan: seq<Installment>, paid: real, today: Ymd, graceDays: int): (r: seq<Allocation>)
    requires AreDates(plan) && IsDate(today)
    ensures |r| == |plan|
  {
    var cents := CentsOf(plan);
    var covered := Covered(cents, Round(paid * 100.0));
    seq(|plan|, k requires 0 <= k < |plan| =>
      Allocation(plan[k].dueDate, plan[k].amount, Euros(covered[k]),
                 StatusOf(covered[k], cents[k], IsLate(plan[k].dueDate, today, graceDays))))
  }

  lemma CoveredPrefix(cents: seq<int>, left: int, k: nat)
    requires k < |cents|
    ensures Covered(cents, left)[..k] == Covered(cents[..k], left)
    ensures Covered(cents, left)[k] == Bounded(left - Sum(Covered(cents[..k], left)), cents[k])
    decreases |cents|
  {
    var n := |cents| - 1;
    if k < n {
      CoveredPrefix(cents[..n], left, k);
      assert cents[..n][..k] == cents[..k];
    }
  }

  /** `allocateInstallments`: `left` goes down as the list is walked. */
  method AllocateInstallments(plan: seq<Installment>, paid: real, today: Ymd, graceDays: int)
    returns (r: seq<Allocation>)
    requires AreDates(plan) && IsDate(today)
    ensures r == Allocated(plan, paid, today, graceDays)
  {
    hide Round, Less, Fmt, AddDays, StatusOf, Bounded, Covered;
    var left := Round(paid * 100.0);
    ghost var whole := Allocated(plan, paid, today, graceDays);
    ghost var cents := CentsOf(plan);
    ghost var covers := Covered(cents, Round(paid * 100.0));
    r := [];
    NothingCovered(Round(paid * 100.0));
    for k := 0 to |plan|
      invariant r == whole[..k]
      invariant left == Round(paid * 100.0) - Sum(Covered(cents[..k], Round(paid * 100.0)))
    {
      CoveredPrefix(cents, Round(paid * 100.0), k);
      CoveredStep(cents, Round(paid * 100.0), k);
      var c := Cents(plan[k]);
      var covered := Bounded(left, c);
      left := left - covered;
      var graceEnd := AddDays(plan[k].dueDate, graceDays);
      var status := StatusOf(covered, c, Before(graceEnd, today));
      r := r + [Allocation(plan[k].dueDate, plan[k].amount, Euros(covered), status)];
    }
  }

  lemma NothingCovered(left: int)
    ensures Sum(Covered([], left)) == 0
  {
  }

  lemma CoveredSnoc(cents: seq<int>, left: int, c: int)
    ensures var before := Covered(cents, left);
            Covered(cents + [c], left) == before + [Bounded(left - Sum(before), c)]
  {
    assert (cents + [c])[..|cents|] == cents;
  }

  lemma SumSnoc(s: seq<int>, x: int)
    ensures Sum(s + [x]) == Sum(s) + x
  {
    assert (s + [x])[..|s|] == s;
  }

  lemma CoveredStep(cents: seq<int>, left: int, k: nat)
    requires k < |cents|
    ensures Sum(Covered(cents[..k + 1], left)) == Sum(Covered(cents[..k], left)) + Covered(cents, left)[k]
  {
    hide Covered, Sum, Bounded;
    var prefix, c := cents[..k], cents[k];
    assert cents[..k + 1] == prefix + [c];
    CoveredPrefix(cents, left, k);
    CoveredSnoc(prefix, left, c);
    var before := Covered(prefix, left);
    SumSnoc(before, Bounded(left - Sum(before), c));
  }

  // ---- what a payment covers -------------------------------------------

  predicate NoNegative(cents: seq<int>) {
    forall k :: 0 <= k < |cents| ==> 0 <= cents[k]
  }

  lemma {:induction false} SumGrows(cents: seq<int>, k: nat)
    requires NoNegative(cents) && k <= |cents|
    ensures 0 <= Sum(cents[..k]) <= Sum(cents)
    decreases |cents|
  {
    var n := |cents| - 1;
    if k == |cents| {
      assert cents[..k] == cents;
      if k > 0 {
        SumGrows(cents[..n], n);
        assert cents[..n][..n] == cents[..n];
      }
    } else {
      SumGrows(cents[..n], k);
      assert cents[..n][..k] == cents[..k];
    }
  }

  /**
   * The payment covers exactly what it can, and each part takes what the parts before it
   * leave: part `k` gets the share of `left` above the sum of the earlier parts.
   */
  lemma {:induction false} CoveredSum(cents: seq<int>, left: int)
    requires NoNegative(cents)
    ensures Sum(Covered(cents, left)) == Bounded(left, Sum(cents))
  {
    SumGrows(cents, 0);
    if cents != [] {
      var n := |cents| - 1;
      CoveredSum(cents[..n], left);
      SumGrows(cents, n);
      var c := Covered(cents, left);
      assert c[..n] == Covered(cents[..n], left);
    }
  }

  lemma CoveredIs(cents: seq<int>, left: int, k: nat)
    requires NoNegative(cents) && k < |cents|
    ensures Covered(cents, left)[k] == Bounded(left - Sum(cents[..k]), cents[k])
  {
    CoveredPrefix(cents, left, k);
    CoveredSum(cents[..k], left);
    SumGrows(cents[..k], 0);
  }

  /** Greedy: nothing goes to a part while an earlier one is short. */
  lemma CoversInOrder(cents: seq<int>, left: int, i: nat, j: nat)
    requires NoNegative(cents) && i < j < |cents| && 0 < Covered(cents, left)[j]
    ensures Covered(cents, left)[i] == cents[i]
  {
    CoveredIs(cents, left, i);
    CoveredIs(cents, left, j);
    var upto := cents[..j];
    SumGrows(upto, i + 1);
    assert upto[..i + 1] == cents[..i + 1];
    assert cents[..i + 1][..i] == cents[..i];
  }

  /** `a` is a right answer for a part of `own` cents after `before` cents, late or not. */
  predicate IsAnswer(a: Allocation, own: int, before: int, payment: int, overdue: bool) {
    && a.paid * 100.0
       == (if payment <= before then 0 else if before + own <= payment then own else payment - before) as real
    && (a.status == Paid <==> before + own <= payment || own == 0)
    && (a.status == Late <==> payment < before + own && own != 0 && overdue)
    && (a.status == Partial <==> payment < before + own && before < payment && !overdue)
    && (a.status == Pending <==> payment <= before && own != 0 && !overdue)
  }

  /**
   * What becomes of a part, from the cents of the payment and those of the parts up to it: paid when
   * the payment reaches the sum or there is nothing to pay; otherwise late once the days of grace
   * are over; otherwise partial when the payment exceeds the parts before, and pending when not.
   */
  lemma StatusExactly(plan: seq<Installment>, paid: real, today: Ymd, graceDays: int, k: nat)
    requires AreDates(plan) && IsDate(today) && NoNegative(CentsOf(plan)) && k < |plan|
    requires IsFourDigitYear(today.y) && 100 <= plan[k].dueDate.y
    requires IsFourDigitYear(PlusDays(plan[k].dueDate, graceDays).y)
    ensures var a := Allocated(plan, paid, today, graceDays)[k];
            && a.dueDate == plan[k].dueDate && a.amount == plan[k].amount
            && IsAnswer(a, CentsOf(plan)[k], Sum(CentsOf(plan)[..k]), Round(paid * 100.0),
                        DayNumber(plan[k].dueDate) + graceDays < DayNumber(today))
  {
    hide CentsOf, Sum, Less, Fmt, AddDays, Round, Covered, DayNumber, IsFourDigitYear, PlusDays;
    CoveredIs(CentsOf(plan), Round(paid * 100.0), k);
    PartIsNotNegative(CentsOf(plan), k);
    DayAddersAgree(plan[k].dueDate, graceDays);
    TextOrder(AddDays(plan[k].dueDate, graceDays), today);
  }

  /** No worse for the debtor: unchanged, newly paid, or newly started. */
  predicate NotWorse(before: Status, after: Status) {
    before == after || after == Paid || (before == Pending && after == Partial)
  }

  /** Paying more never uncovers a part nor worsens its status. */
  lemma PayingMoreHelps(plan: seq<Installment>, paid: real, more: real, today: Ymd, graceDays: int, k: nat)
    requires AreDates(plan) && IsDate(today) && NoNegative(CentsOf(plan)) && k < |plan| && paid <= more
    ensures var a, b := Allocated(plan, paid, today, graceDays)[k], Allocated(plan, more, today, graceDays)[k];
            a.paid <= b.paid && NotWorse(a.status, b.status)
  {
    hide Less, Fmt, AddDays;
    var cents := CentsOf(plan);
    CoveredIs(cents, Round(paid * 100.0), k);
    CoveredIs(cents, Round(more * 100.0), k);
    assert Round(paid * 100.0) <= Round(more * 100.0);
    hide Round, Covered;
  }

  /** Paying the sum of its parts covers every one of them. */
  lemma SumCoversAll(cents: seq<int>, k: nat)
    requires NoNegative(cents) && k < |cents|
    ensures Covered(cents, Sum(cents))[k] == cents[k]
  {
    hide Covered, Sum, NoNegative;
    CoveredIs(cents, Sum(cents), k);
    SumGrows(cents, k + 1);
    assert cents[..k + 1] == cents[..k] + [cents[k]];
    SumSnoc(cents[..k], cents[k]);
    PartIsNotNegative(cents, k);
  }

  lemma PartIsNotNegative(cents: seq<int>, k: nat)
    requires NoNegative(cents) && k < |cents|
    ensures 0 <= cents[k]
  {
  }

  /** Paying the total of a built plan marks every installment as paid. */
  lemma PayingTheTotal(total: real, count: nat, first: Ymd, frequency: Frequency, today: Ymd, graceDays: int, k: nat)
    requires 0.0 <= total && IsDate(first) && k < count && IsDate(today)
    ensures Allocated(BuildInstallments(total, count, first, frequency), total, today, graceDays)[k].status == Paid
  {
    var plan := BuildInstallments(total, count, first, frequency);
    var cents := CentsOf(plan);
    PlanAddsUp(total, count, first, frequency);
    assert 0 <= Round(total * 100.0);
    hide BuildInstallments, CentsOf, Less, Fmt, AddDays, Round, Covered, Sum;
    Quotient(Round(total * 100.0), count);
    QuotientOfNat(Round(total * 100.0), count);
    assert NoNegative(cents);
    SumCoversAll(cents, k);
  }

  lemma QuotientOfNat(n: nat, d: nat)
    requires 0 < d
    ensures 0 <= n / d
  {
  }
}
