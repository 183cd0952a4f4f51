/** What a customer gets back when a reservation is cancelled before its facility opens. */
module PreOpening {
  import opened Text
  import opened Calendar
  import opened DateText
  import opened DateAdders

  const WITHDRAWAL_DAYS := 14

  datatype Reason = Withdrawal | NotOpenedInTime | Standard

  datatype Outcome = Outcome(allowed: bool, reason: Option<Reason>, refundRent: bool, refundDeposit: bool,
                             withdrawalEndsOn: Ymd)

  /** `preOpeningCancelOutcome`. */
  function CancelOutcome(signedOn: Ymd, today: Ymd, deadline: Option<Ymd>, started: bool): Outcome
    requires IsDate(today) && (deadline.Some? ==> IsDate(deadline.value))
  {
    var ends := AddDaysYmd(signedOn, WITHDRAWAL_DAYS);
    if started then Outcome(false, None, false, false, ends)
    else if !Before(ends, today) then Outcome(true, Some(Withdrawal), true, true, ends)
    else if deadline.Some? && Before(deadline.value, today) then
      Outcome(true, Some(NotOpenedInTime), true, true, ends)
    else Outcome(true, Some(Standard), true, false, ends)
  }

  predicate IsPlainDate(a: Ymd) {
    IsDate(a) && IsFourDigitYear(a.y)
  }

  /**
   * Before the start the rent always comes back, and the deposit is kept exactly on the
   * days after the fourteenth from signing and not after the deadline.
   */
  lemma DepositKeptBetween(signedOn: Ymd, today: Ymd, deadline: Option<Ymd>, started: bool)
    requires IsPlainDate(signedOn) && signedOn.y < 9999 && IsPlainDate(today)
    requires deadline.Some? ==> IsPlainDate(deadline.value)
    ensures var o := CancelOutcome(signedOn, today, deadline, started);
            var sinceSigned := DayNumber(today) - DayNumber(signedOn);
            var late := deadline.Some? && DayNumber(deadline.value) < DayNumber(today);
            && DayNumber(o.withdrawalEndsOn) == DayNumber(signedOn) + 14
            && (o.allowed <==> !started) && (o.refundRent <==> o.allowed) && (o.reason.Some? <==> o.allowed)
            && (o.refundDeposit <==> !started && (sinceSigned <= 14 || late))
            && (o.reason == Some(Withdrawal) <==> !started && sinceSigned <= 14)
            && (o.reason == Some(NotOpenedInTime) <==> !started && 14 < sinceSigned && late)
            && (o.reason == Some(Standard) <==> !started && 14 < sinceSigned && !late)
  {
    hide DayNumber, Fmt, Less, AddDaysYmd, AddDaysToDate;
    var ends := AddDaysYmd(signedOn, WITHDRAWAL_DAYS);
    DayAddersAgree(signedOn, WITHDRAWAL_DAYS);
    YearHolds(signedOn, ends);
    TextOrder(ends, today);
    LessIsStrict(ends, today);
    if deadline.Some? {
      TextOrder(deadline.value, today);
    }
  }

  lemma LessIsStrict(a: Ymd, b: Ymd)
    requires IsPlainDate(a) && IsPlainDate(b)
    ensures !Before(a, b) <==> DayNumber(b) <= DayNumber(a)
  {
    hide DayNumber, Fmt, Less;
    TextOrder(a, b);
  }

  /** Fourteen days later the year is the same or the next one. */
  lemma YearHolds(a: Ymd, r: Ymd)
    requires IsPlainDate(a) && a.y < 9999 && IsDate(r) && DayNumber(r) == DayNumber(a) + WITHDRAWAL_DAYS
    ensures IsPlainDate(r)
  {
    var after := Ymd(a.y + 1, 12, 31);
    MonthsApart(a, 1);
    DayNumberOrder(a, r);
    DayNumberOrder(PlusMonths(a, 1), after);
    DayNumberOrder(r, after);
    hide DayNumber;
  }

  /** A date some months later is at least four weeks later. */
  lemma MonthsApart(a: Ymd, n: nat)
    requires IsDate(a) && 1 <= n
    ensures DayNumber(a) + 28 <= DayNumber(PlusMonths(a, n))
  {
    hide DayNumber, MonthDays;
    var next := PlusMonths(a, 1);
    InItsMonth(a);
    InItsMonth(next);
    MonthsTile(MonthIndex(a));
    InItsMonth(MonthEnd(MonthIndex(a)));
    MonthOrder(next, PlusMonths(a, n));
  }

  /**
   * A contract signed on the day it was made, with its deadline some months from that day: the
   * withdrawal days are over before the deadline, so there are days on which the deposit is kept.
   */
  lemma DeadlineAfterWithdrawal(signedOn: Ymd, months: nat)
    requires IsPlainDate(signedOn) && 1 <= months
    ensures DayNumber(AddDaysYmd(signedOn, WITHDRAWAL_DAYS)) + 14 <= DayNumber(AddMonthsYmd(signedOn, months))
  {
    hide DayNumber, AddDaysYmd, AddDaysToDate, AddMonthsYmd, AddMonthsToDate, PlusMonths;
    DayAddersAgree(signedOn, WITHDRAWAL_DAYS);
    MonthAddersAgree(signedOn, months);
    MonthsApart(signedOn, months);
  }
}
