/** The notices of a business reminder: which one a day calls for, and what a run of checks sends. */
module Notices {
  import opened Text
  import opened Calendar
  import opened DateText
  import opened DateAdders

  /** `d<n>`, `overdue:<day>` and `snooze:<day>`, days as day numbers. */
  datatype Kind = Milestone(days: int) | Overdue(on: int) | Snooze(until: int)

  datatype Reminder = Reminder(
    dueDate: Ymd, notifyDaysBefore: seq<int>, overdueReminders: bool, overdueMaxDays: int,
    snoozedUntil: Option<Ymd>)

  /** The smallest milestone not below `daysLeft`. */
  function Reached(milestones: seq<int>, daysLeft: int): Option<int> {
    if milestones == [] then None
    else
      var before, last := Reached(milestones[..|milestones| - 1], daysLeft), milestones[|milestones| - 1];
      if last < daysLeft || (before.Some? && before.value <= last) then before else Some(last)
  }

  /** `reminderNoticeKind`: dates compared as texts, days counted by `daysBetween`. */
  function NoticeKind(r: Reminder, today: Ymd): Option<Kind>
    requires IsUsable(r) && IsUsableDay(today)
  {
    if r.snoozedUntil.Some? && Before(today, r.snoozedUntil.value) then None
    else if r.snoozedUntil.Some? && Fmt(today) == Fmt(r.snoozedUntil.value) then
      Some(Snooze(DayNumber(today)))
    else
      var daysLeft := DaysBetween(today, r.dueDate);
      if daysLeft >= 0 then
        var reached := Reached(r.notifyDaysBefore, daysLeft);
        if reached.Some? then Some(Milestone(reached.value)) else None
      else if r.overdueReminders && -daysLeft <= r.overdueMaxDays then Some(Overdue(DayNumber(today)))
      else None
  }

  predicate IsUsableDay(a: Ymd) {
    IsDate(a) && IsFourDigitYear(a.y)
  }

  predicate IsUsable(r: Reminder) {
    IsUsableDay(r.dueDate) && (r.snoozedUntil.Some? ==> IsUsableDay(r.snoozedUntil.value))
  }

  // ---- the rule on day numbers -----------------------------------------

  /** What is due on a day, said on day numbers. */
  function KindOn(r: Reminder, today: int): Option<Kind>
    requires IsUsable(r)
  {
    var due := DayNumber(r.dueDate);
    if r.snoozedUntil.Some? && today <= DayNumber(r.snoozedUntil.value) then
      if today == DayNumber(r.snoozedUntil.value) then Some(Snooze(today)) else None
    else if today <= due then
      var reached := Reached(r.notifyDaysBefore, due - today);
      if reached.Some? then Some(Milestone(reached.value)) else None
    else if r.overdueReminders && today - due <= r.overdueMaxDays then Some(Overdue(today))
    else None
  }

  /** The text comparisons and the day count amount to the rule on day numbers. */
  lemma NoticeKindIs(r: Reminder, today: Ymd)
    requires IsUsable(r) && IsUsableDay(today)
    ensures NoticeKind(r, today) == KindOn(r, DayNumber(today))
  {
    hide DayNumber, Fmt, Less, Reached, Utc, DaysBetween;
    DaysBetweenIs(today, r.dueDate);
    if r.snoozedUntil.Some? {
      TextOrder(today, r.snoozedUntil.value);
      DayNumberOrder(today, r.snoozedUntil.value);
    }
  }

  // ---- runs of checks --------------------------------------------------

  /** Notices stored once each: a kind already stored is not sent again. */
  function Send(log: seq<Kind>, kind: Option<Kind>): seq<Kind> {
    if kind.None? || kind.value in log then log else log + [kind.value]
  }

  /** The notices sent by checks on the given days, in order. */
  function Sent(r: Reminder, days: seq<int>): seq<Kind>
    requires IsUsable(r)
  {
    if days == [] then []
    else Send(Sent(r, days[..|days| - 1]), KindOn(r, days[|days| - 1]))
  }

  ghost predicate SomeDayAsks(r: Reminder, days: seq<int>, kind: Kind)
    requires IsUsable(r)
  {
    exists i :: 0 <= i < |days| && KindOn(r, days[i]) == Some(kind)
  }

  /** A run sends exactly what some check asked for, each notice once. */
  lemma {:induction false} SentIsAsked(r: Reminder, days: seq<int>, kind: Kind)
    requires IsUsable(r)
    ensures kind in Sent(r, days) <==> SomeDayAsks(r, days, kind)
    ensures NoRepeats(Sent(r, days))
  {
    hide KindOn;
    if days != [] {
      var before := days[..|days| - 1];
      SentIsAsked(r, before, kind);
      if SomeDayAsks(r, before, kind) {
        var i :| 0 <= i < |before| && KindOn(r, before[i]) == Some(kind);
        assert days[i] == before[i];
      }
      if SomeDayAsks(r, days, kind) {
        var i :| 0 <= i < |days| && KindOn(r, days[i]) == Some(kind);
        if i < |before| {
          assert before[i] == days[i];
        }
      }
    }
  }

  /** Every check of `fewer` is one of `days`. */
  predicate IsPartOf(fewer: seq<int>, days: seq<int>) {
    forall d | d in fewer :: d in days
  }

  /** Skipping check days never adds a notice and never sends one twice. */
  lemma SkippingNeverAdds(r: Reminder, fewer: seq<int>, days: seq<int>)
    requires IsUsable(r) && IsPartOf(fewer, days)
    ensures NoRepeats(Sent(r, fewer)) && |Sent(r, fewer)| <= |Sent(r, days)|
    ensures forall k | k in Sent(r, fewer) :: k in Sent(r, days)
  {
    hide KindOn, Sent;
    SentIsAsked(r, fewer, Snooze(0));
    forall k | k in Sent(r, fewer) ensures k in Sent(r, days) {
      SentIsAsked(r, fewer, k);
      SentIsAsked(r, days, k);
      var i :| 0 <= i < |fewer| && KindOn(r, fewer[i]) == Some(k);
      assert fewer[i] in fewer;
      var j :| 0 <= j < |days| && days[j] == fewer[i];
    }
    DistinctWithin(Sent(r, fewer), Sent(r, days));
  }

  // ---- before the due date ---------------------------------------------

  lemma {:induction false} ReachedIs(milestones: seq<int>, daysLeft: int)
    ensures var m := Reached(milestones, daysLeft);
            if m.Some? then
              m.value in milestones && daysLeft <= m.value
              && forall x | x in milestones :: daysLeft <= x ==> m.value <= x
            else forall x | x in milestones :: x < daysLeft
  {
    if milestones != [] {
      var before := milestones[..|milestones| - 1];
      ReachedIs(before, daysLeft);
      assert milestones == before + [milestones[|milestones| - 1]];
    }
  }

  /** Every day from `first` to `last`. */
  function DaysFrom(first: int, last: int): (r: seq<int>)
    ensures first <= last + 1 ==> |r| == last - first + 1
    ensures forall i :: 0 <= i < |r| ==> r[i] == first + i <= last
  {
    seq(if first <= last then last - first + 1 else 0, i => first + i)
  }

  lemma DayAsks(r: Reminder, first: int, last: int, day: int, kind: Kind)
    requires IsUsable(r) && first <= day <= last && KindOn(r, day) == Some(kind)
    ensures SomeDayAsks(r, DaysFrom(first, last), kind)
  {
    assert DaysFrom(first, last)[day - first] == day;
  }

  /**
   * First seen with `left` days to go and checked every day to the due date, a reminder
   * sends one notice for the smallest milestone not below `left`, if there is one, and one
   * for each smaller milestone; nothing else.
   */
  lemma MilestonesOnce(r: Reminder, left: nat, kind: Kind)
    requires IsUsable(r) && r.snoozedUntil.None?
    ensures var due := DayNumber(r.dueDate);
            var sent := Sent(r, DaysFrom(due - left, due));
            && NoRepeats(sent)
            && (kind in sent <==>
                  kind.Milestone?
                  && (Reached(r.notifyDaysBefore, left) == Some(kind.days)
                      || (kind.days in r.notifyDaysBefore && 0 <= kind.days < left)))
  {
    hide DayNumber, Sent, Reached;
    var due := DayNumber(r.dueDate);
    var days := DaysFrom(due - left, due);
    SentIsAsked(r, days, kind);
    hide DaysFrom;
    if SomeDayAsks(r, days, kind) {
      var i :| 0 <= i < |days| && KindOn(r, days[i]) == Some(kind);
      ReachedIs(r.notifyDaysBefore, due - days[i]);
      ReachedIs(r.notifyDaysBefore, left);
    }
    if kind.Milestone? {
      ReachedIs(r.notifyDaysBefore, left);
      if Reached(r.notifyDaysBefore, left) == Some(kind.days) {
        DayAsks(r, due - left, due, due - left, kind);
      } else if kind.days in r.notifyDaysBefore && 0 <= kind.days < left {
        ReachedIs(r.notifyDaysBefore, kind.days);
        DayAsks(r, due - left, due, due - kind.days, kind);
      }
    }
  }

  // ---- after the due date ----------------------------------------------

  /** Once overdue, one notice a day for exactly `overdueMaxDays` days, and none later. */
  lemma {:induction false} OverdueOneADay(r: Reminder, last: int)
    requires IsUsable(r) && r.snoozedUntil.None? && r.overdueReminders && 0 <= r.overdueMaxDays
    requires DayNumber(r.dueDate) <= last
    ensures var due := DayNumber(r.dueDate);
            var n := Min(last - due, r.overdueMaxDays);
            Sent(r, DaysFrom(due + 1, last)) == seq(n, i => Overdue(due + 1 + i))
    decreases last - DayNumber(r.dueDate)
  {
    hide DayNumber;
    var due := DayNumber(r.dueDate);
    if due < last {
      OverdueOneADay(r, last - 1);
      var days := DaysFrom(due + 1, last);
      assert days[..|days| - 1] == DaysFrom(due + 1, last - 1);
      var n := Min(last - 1 - due, r.overdueMaxDays);
      var before := seq(n, i => Overdue(due + 1 + i));
      assert Sent(r, days) == Send(before, KindOn(r, last));
      assert Overdue(last) !in before;
    }
  }

  /** Without overdue reminders no run of checks sends an overdue notice, nor anything after the due date. */
  lemma {:induction false} SilentOnceOverdue(r: Reminder, days: seq<int>)
    requires IsUsable(r) && !r.overdueReminders
    ensures forall k | k in Sent(r, days) :: !k.Overdue?
    ensures r.snoozedUntil.None? && (forall i :: 0 <= i < |days| ==> DayNumber(r.dueDate) < days[i]) ==>
              Sent(r, days) == []
  {
    hide DayNumber, Reached;
    if days != [] {
      SilentOnceOverdue(r, days[..|days| - 1]);
    }
  }

  // ---- snoozed ---------------------------------------------------------

  /** Before its snooze day a reminder sends nothing; on it, the snooze notice; later, as if never snoozed. */
  lemma SnoozeHoldsBack(r: Reminder, today: int)
    requires IsUsable(r) && r.snoozedUntil.Some?
    ensures var until := DayNumber(r.snoozedUntil.value);
            KindOn(r, today) == (if today < until then None
                                 else if today == until then Some(Snooze(until))
                                 else KindOn(r.(snoozedUntil := None), today))
  {
  }

  lemma {:induction false} NothingBeforeSnooze(r: Reminder, days: seq<int>)
    requires IsUsable(r) && r.snoozedUntil.Some?
    requires forall i :: 0 <= i < |days| ==> days[i] < DayNumber(r.snoozedUntil.value)
    ensures Sent(r, days) == []
  {
    hide DayNumber;
    if days != [] {
      NothingBeforeSnooze(r, days[..|days| - 1]);
    }
  }

  /** The checks after a day. */
  function DaysAfter(days: seq<int>, until: int): seq<int> {
    if days == [] then []
    else
      DaysAfter(days[..|days| - 1], until)
      + (if until < days[|days| - 1] then [days[|days| - 1]] else [])
  }

  function Unsnoozed(r: Reminder): Reminder {
    r.(snoozedUntil := None)
  }

  lemma LastAsks(r: Reminder, days: seq<int>, kind: Kind)
    requires IsUsable(r) && days != []
    ensures SomeDayAsks(r, days, kind)
            <==> SomeDayAsks(r, days[..|days| - 1], kind) || KindOn(r, days[|days| - 1]) == Some(kind)
  {
    hide KindOn;
    var before := days[..|days| - 1];
    if SomeDayAsks(r, before, kind) {
      var i :| 0 <= i < |before| && KindOn(r, before[i]) == Some(kind);
      assert days[i] == before[i];
    }
    if SomeDayAsks(r, days, kind) {
      var i :| 0 <= i < |days| && KindOn(r, days[i]) == Some(kind);
      assert i < |before| ==> before[i] == days[i];
    }
  }

  lemma {:induction false} SnoozedAsks(r: Reminder, days: seq<int>, kind: Kind)
    requires IsUsable(r) && r.snoozedUntil.Some?
    ensures var until := DayNumber(r.snoozedUntil.value);
            SomeDayAsks(r, days, kind)
            <==> (kind == Snooze(until) && until in days) || SomeDayAsks(Unsnoozed(r), DaysAfter(days, until), kind)
  {
    hide DayNumber, SomeDayAsks;
    var until := DayNumber(r.snoozedUntil.value);
    if days == [] {
      NobodyAsks(r, kind);
      NobodyAsks(Unsnoozed(r), kind);
    } else {
      var before, last := days[..|days| - 1], days[|days| - 1];
      SnoozedAsks(r, before, kind);
      LastAsks(r, days, kind);
      SnoozeHoldsBack(r, last);
      var later := DaysAfter(before, until);
      if until < last {
        LastAsks(Unsnoozed(r), later + [last], kind);
        assert (later + [last])[..|later|] == later;
      } else {
        assert later + [] == later;
      }
      hide KindOn, IsUsable;
      assert until in days <==> until in before || until == last by {
        assert days == before + [last];
      }
    }
  }

  lemma NobodyAsks(r: Reminder, kind: Kind)
    requires IsUsable(r)
    ensures !SomeDayAsks(r, [], kind)
  {
  }

  /**
   * Over any run of checks a snoozed reminder sends its snooze notice, once, if it is checked on
   * that day, and besides exactly what it would send unsnoozed on the later checks.
   */
  lemma SnoozedRun(r: Reminder, days: seq<int>, kind: Kind)
    requires IsUsable(r) && r.snoozedUntil.Some?
    ensures var until := DayNumber(r.snoozedUntil.value);
            && NoRepeats(Sent(r, days))
            && (kind in Sent(r, days)
                <==> (kind == Snooze(until) && until in days) || kind in Sent(Unsnoozed(r), DaysAfter(days, until)))
  {
    hide DayNumber, SomeDayAsks, Sent, NoRepeats;
    SentIsAsked(r, days, kind);
    SentIsAsked(Unsnoozed(r), DaysAfter(days, DayNumber(r.snoozedUntil.value)), kind);
    SnoozedAsks(r, days, kind);
  }
}
