/** Fiscal due dates: a fixed day of the year that moves from a weekend to Monday. */
module Fiscal {
  import opened Text
  import opened Calendar
  import opened DateText
  import opened DateAdders

  // ---- one occurrence --------------------------------------------------

  /** `shiftWeekend`. */
  function ShiftWeekend(a: Ymd): Ymd {
    var dow := Weekday(Utc(a.y, a.m - 1, a.d));
    if dow == 6 then AddDaysToDate(a, 2)
    else if dow == 0 then AddDaysToDate(a, 1)
    else a
  }

  /** The rule's occurrence of a year. */
  function At(month: int, day: int, year: int): Ymd {
    ShiftWeekend(Ymd(year, month, Min(day, LastDay(year, month))))
  }

  predicate IsRule(month: int, day: int) {
    1 <= month <= 12 && 1 <= day
  }

  /** The official day of a year: the last one in a shorter month. */
  function Official(month: int, day: int, year: int): (r: Ymd)
    requires IsRule(month, day)
    ensures IsDate(r) && r.y == year && r.m == month
  {
    Ymd(year, month, Min(day, MonthDays(year, month)))
  }

  function WeekendShift(n: int): (s: int)
    ensures 0 <= s <= 2 && 1 <= Weekday(n + s) <= 5
    ensures (s == 0 <==> 1 <= Weekday(n) <= 5) && (s == 2 ==> Weekday(n + 1) == 0)
  {
    if Weekday(n) == 6 then 2 else if Weekday(n) == 0 then 1 else 0
  }

  /** An occurrence is the first weekday from its official day on. */
  lemma AtIs(month: int, day: int, year: int)
    requires IsRule(month, day) && 100 <= year
    ensures var n := DayNumber(Official(month, day, year));
            && IsDate(At(month, day, year))
            && DayNumber(At(month, day, year)) == n + WeekendShift(n)
            && year <= At(month, day, year).y <= year + 1
  {
    hide DateOf, DayNumber, MonthDays, Utc, AddDaysToDate;
    LastDayIsMonthDays(year, month);
    MonthEndOf(year, month);
    hide LastDay, MonthEnd;
    var a := Official(month, day, year);
    UtcOfDate(a, 0);
    DayAddersAgree(a, 1);
    DayAddersAgree(a, 2);
    NearYear(a, AddDaysToDate(a, 1));
    NearYear(a, AddDaysToDate(a, 2));
  }

  lemma MonthEndOf(year: int, month: int)
    requires 1 <= month <= 12
    ensures MonthEnd(year * 12 + month - 1) == Ymd(year, month, MonthDays(year, month))
  {
  }

  lemma NearYear(a: Ymd, b: Ymd)
    requires IsDate(a) && IsDate(b) && DayNumber(a) <= DayNumber(b) <= DayNumber(a) + 3
    ensures a.y <= b.y <= a.y + 1
  {
    DayNumberOrder(a, b);
    hide DayNumber;
    DayInYear(a);
    DayInYear(b);
    if a.y + 2 <= b.y {
      YearsInOrder(a.y + 2, b.y);
      YearsInOrder(a.y + 1, a.y + 2);
    }
  }

  /** Official days are about a year apart. */
  lemma OfficialsApart(month: int, day: int, x: int, y: int)
    requires IsRule(month, day) && x < y
    ensures DayNumber(Official(month, day, x)) + 300 <= DayNumber(Official(month, day, y))
  {
    var a, b := Official(month, day, x), Official(month, day, y);
    YearsInOrder(x + 1, y);
    YearLength(x);
    assert DayNumber(a) - YearStart(x) <= DayNumber(b) - YearStart(y) + 2;
  }

  // ---- the search ------------------------------------------------------

  /** The years whose dates compare as texts, with room for the occurrences looked at. */
  predicate IsSearchable(from: Ymd) {
    IsDate(from) && 1000 <= from.y <= 9997
  }

  /** The occurrence of the year of `from`, or of the next one when that is already past. */
  function FiscalDate(month: int, day: int, from: Ymd): Ymd
    requires IsRule(month, day) && IsSearchable(from)
  {
    AtIs(month, day, from.y);
    if DayNumber(At(month, day, from.y)) < DayNumber(from) then At(month, day, from.y + 1)
    else At(month, day, from.y)
  }

  /** `fiscalDateOnOrAfter`: the loop looks at no more than one extra year. */
  method FiscalDateOnOrAfter(month: int, day: int, from: Ymd) returns (date: Ymd)
    requires IsRule(month, day) && IsSearchable(from)
    ensures date == FiscalDate(month, day, from)
  {
    hide At, DayNumber, Official, Less, Fmt;
    var year := from.y;
    date := At(month, day, year);
    CompareAt(month, day, year, from);
    while Before(date, from)
      invariant from.y <= year <= from.y + 1 && date == At(month, day, year) && IsDate(date)
      invariant Before(date, from) <==> DayNumber(date) < DayNumber(from)
      invariant year == from.y + 1 ==>
                  !Before(date, from) && Before(At(month, day, from.y), from)
      invariant IsDate(At(month, day, from.y))
      decreases from.y + 1 - year
    {
      year := year + 1;
      date := At(month, day, year);
      CompareAt(month, day, year, from);
      NextYearIsLater(month, day, from);
    }
    CompareAt(month, day, from.y, from);
  }

  lemma CompareAt(month: int, day: int, year: int, from: Ymd)
    requires IsRule(month, day) && IsSearchable(from) && from.y <= year <= from.y + 1
    ensures IsDate(At(month, day, year))
    ensures Before(At(month, day, year), from) <==> DayNumber(At(month, day, year)) < DayNumber(from)
  {
    hide At, DayNumber, Official;
    AtIs(month, day, year);
    TextOrder(At(month, day, year), from);
  }

  lemma NextYearIsLater(month: int, day: int, from: Ymd)
    requires IsRule(month, day) && IsSearchable(from)
    ensures IsDate(At(month, day, from.y + 1)) && DayNumber(from) < DayNumber(At(month, day, from.y + 1))
  {
    hide At;
    AtIs(month, day, from.y + 1);
    DayNumberOrder(from, Official(month, day, from.y + 1));
  }

  /** The date found is a weekday, not before `from`, and the shifted official day of one of two years. */
  lemma FiscalDateFits(month: int, day: int, from: Ymd)
    requires IsRule(month, day) && IsSearchable(from)
    ensures var r := FiscalDate(month, day, from);
            && IsDate(r) && DayNumber(from) <= DayNumber(r) && 1 <= Weekday(DayNumber(r)) <= 5
            && (r == At(month, day, from.y) || r == At(month, day, from.y + 1))
  {
    hide At, DayNumber, Official, Weekday;
    AtIs(month, day, from.y);
    AtIs(month, day, from.y + 1);
    NextYearIsLater(month, day, from);
  }

  // ---- when it is the least --------------------------------------------

  /** No occurrence of any year lies between `from` and `r`. */
  ghost predicate IsLeastFrom(month: int, day: int, from: Ymd, r: int)
    requires IsRule(month, day) && IsSearchable(from)
  {
    forall y :: 100 <= y ==> Skips(month, day, y, DayNumber(from), r)
  }

  predicate Skips(month: int, day: int, y: int, from: int, r: int)
    requires IsRule(month, day) && 100 <= y
  {
    AtIs(month, day, y);
    var n := DayNumber(At(month, day, y));
    n < from || r <= n
  }

  /**
   * The turn of the year: the rule is in the last two days of December, last year's day fell
   * on a weekend, and `from` is not after the Monday it moved to.
   */
  predicate AtTurnOfYear(month: int, day: int, from: Ymd)
    requires 1 <= from.m <= 12
  {
    var w := Weekday(DayNumber(from));
    && month == 12 && from.m == 1
    && ((day == 30 && from.d == 1 && w == 1)
        || (day >= 31 && ((from.d == 1 && (w == 1 || w == 0)) || (from.d == 2 && w == 1))))
  }

  /** Where a rule's official day lies before the end of its year. */
  lemma OfficialBeforeNewYear(month: int, day: int, year: int)
    requires IsRule(month, day)
    ensures month == 12 ==> DayNumber(Official(month, day, year)) == YearStart(year + 1) - 32 + Min(day, 31)
    ensures month < 12 ==> DayNumber(Official(month, day, year)) < YearStart(year + 1) - 31
  {
    YearLength(year);
    if month < 12 {
      MonthsInOrder(year, month + 1, 12);
      MonthLength(year, month);
    }
  }

  lemma DayAfterNewYear(a: Ymd)
    requires IsDate(a)
    ensures a.m == 1 ==> DayNumber(a) == YearStart(a.y) + a.d - 1
    ensures 1 < a.m ==> YearStart(a.y) + 31 <= DayNumber(a)
  {
    MonthsInOrder(a.y, 2, if a.m == 1 then 2 else a.m);
  }

  lemma WeekendAtNewYear(day: int, newYear: int, f: int)
    requires 1 <= day && newYear <= f
    ensures var n := newYear - 32 + Min(day, 31);
            f <= n + WeekendShift(n)
            <==> (day == 30 && f == newYear && Weekday(f) == 1)
                 || (day >= 31 && ((f == newYear && (Weekday(f) == 1 || Weekday(f) == 0))
                                   || (f == newYear + 1 && Weekday(f) == 1)))
  {
  }

  /** Last year's occurrence is still to come exactly at the turn of the year. */
  lemma LastYearStillDue(month: int, day: int, from: Ymd)
    requires IsRule(month, day) && IsSearchable(from)
    ensures IsDate(At(month, day, from.y - 1))
    ensures DayNumber(from) <= DayNumber(At(month, day, from.y - 1)) <==> AtTurnOfYear(month, day, from)
  {
    hide At, DayNumber, Official, YearStart, Weekday, WeekendShift;
    AtIs(month, day, from.y - 1);
    OfficialBeforeNewYear(month, day, from.y - 1);
    DayAfterNewYear(from);
    WeekendAtNewYear(day, YearStart(from.y), DayNumber(from));
  }

  lemma OccurrencesApart(month: int, day: int, x: int, y: int)
    requires IsRule(month, day) && 100 <= x < y
    ensures IsDate(At(month, day, x)) && IsDate(At(month, day, y))
    ensures DayNumber(At(month, day, x)) < DayNumber(At(month, day, y))
  {
    hide At, DayNumber, Official, Weekday;
    AtIs(month, day, x);
    AtIs(month, day, y);
    OfficialsApart(month, day, x, y);
  }

  /**
   * The date found is the least occurrence not before `from` if and only if `from` is not
   * at the turn of the year: the search never looks at last year's shifted day.
   */
  lemma LeastExceptAtTurnOfYear(month: int, day: int, from: Ymd)
    requires IsRule(month, day) && IsSearchable(from)
    ensures IsDate(FiscalDate(month, day, from))
    ensures IsLeastFrom(month, day, from, DayNumber(FiscalDate(month, day, from))) <==> !AtTurnOfYear(month, day, from)
  {
    hide At, DayNumber, Official, Weekday, AtTurnOfYear;
    FiscalDateFits(month, day, from);
    AtIs(month, day, from.y);
    var r, f := FiscalDate(month, day, from), DayNumber(from);
    LastYearStillDue(month, day, from);
    OccurrencesApart(month, day, from.y - 1, from.y);
    OccurrencesApart(month, day, from.y, from.y + 1);
    if AtTurnOfYear(month, day, from) {
      assert !Skips(month, day, from.y - 1, f, DayNumber(r));
    } else {
      forall y | 100 <= y ensures Skips(month, day, y, f, DayNumber(r)) {
        AtIs(month, day, y);
        if y < from.y - 1 {
          OccurrencesApart(month, day, y, from.y - 1);
        } else if from.y + 1 < y {
          OccurrencesApart(month, day, from.y + 1, y);
        }
      }
    }
  }

  /** 31 December 2022 was a Saturday: from New Year's Day its Monday, 2 January, is passed over. */
  lemma TurnOfYearExample(from: Ymd)
    requires from == Ymd(2023, 1, 1)
    ensures AtTurnOfYear(12, 31, from)
  {
  }

  /** The rules of the fiscal templates: month and day. */
  const FISCAL_RULES: set<(int, int)> :=
    {(1, 20), (1, 30), (1, 31), (2, 28), (4, 20), (7, 20), (7, 25), (7, 30), (10, 20), (12, 20)}

  /** For every rule in use the date found is the least occurrence not before `from`, on any day. */
  lemma LeastForEveryTemplate(month: int, day: int, from: Ymd)
    requires (month, day) in FISCAL_RULES && IsSearchable(from)
    ensures IsRule(month, day) && IsDate(FiscalDate(month, day, from))
    ensures IsLeastFrom(month, day, from, DayNumber(FiscalDate(month, day, from)))
  {
    assert IsRule(month, day) && !(month == 12 && 30 <= day);
    assert !AtTurnOfYear(month, day, from);
    hide FiscalDate, IsLeastFrom, AtTurnOfYear, DayNumber;
    LeastExceptAtTurnOfYear(month, day, from);
  }

  // ---- year after year -------------------------------------------------

  /** `fiscalNextDueDate` of a rule. */
  function NextDue(month: int, day: int, after: Ymd): Ymd
    requires IsRule(month, day) && IsSearchable(AddDaysToDate(after, 1))
  {
    FiscalDate(month, day, AddDaysToDate(after, 1))
  }

  lemma NotBeforeNewYear(month: int, day: int, year: int, from: Ymd)
    requires IsRule(month, day) && 1000 <= year && IsDate(from)
    requires DayNumber(from) <= DayNumber(Official(month, day, year)) + 3
    ensures IsDate(At(month, day, year + 1)) && DayNumber(from) <= DayNumber(At(month, day, year + 1))
  {
    hide At, DayNumber, Official, Weekday;
    AtIs(month, day, year + 1);
    OfficialsApart(month, day, year, year + 1);
  }

  lemma FiscalPicks(month: int, day: int, year: int, from: Ymd)
    requires IsRule(month, day) && IsSearchable(from) && year <= from.y <= year + 1 && 100 <= year
    requires IsDate(At(month, day, year)) && DayNumber(At(month, day, year)) < DayNumber(from)
    requires IsDate(At(month, day, year + 1)) && DayNumber(from) <= DayNumber(At(month, day, year + 1))
    ensures FiscalDate(month, day, from) == At(month, day, year + 1)
  {
    hide At, DayNumber;
  }

  /** After an occurrence comes that of the next year, with no drift from its weekend shift. */
  lemma NextAfterOccurrence(month: int, day: int, year: int)
    requires IsRule(month, day) && 1000 <= year <= 9995
    ensures IsSearchable(AddDaysToDate(At(month, day, year), 1))
    ensures NextDue(month, day, At(month, day, year)) == At(month, day, year + 1)
  {
    hide At, DayNumber, Official, Weekday, AddDaysToDate, WeekendShift, FiscalDate;
    AtIs(month, day, year);
    var a := At(month, day, year);
    var from := AddDaysToDate(a, 1);
    DayAddersAgree(a, 1);
    hide PlusDays, AddDays, AddDaysYmd;
    var official := Official(month, day, year);
    assert DayNumber(official) < DayNumber(from) <= DayNumber(official) + 3;
    NearYear(official, from);
    NotBeforeNewYear(month, day, year, from);
    FiscalPicks(month, day, year, from);
  }

  /** Marking an occurrence done year after year visits exactly one occurrence a year. */
  ghost predicate FollowsRule(month: int, day: int, year: int, dues: seq<Ymd>)
  {
    IsRule(month, day) && 1000 <= year && year + |dues| <= 9996
    && forall k :: 0 <= k < |dues| ==>
         && (k == 0 ==> dues[k] == At(month, day, year))
         && (k > 0 ==> IsSearchable(AddDaysToDate(dues[k - 1], 1)) && dues[k] == NextDue(month, day, dues[k - 1]))
  }

  lemma {:induction false} YearAfterYear(month: int, day: int, year: int, dues: seq<Ymd>, k: nat)
    requires FollowsRule(month, day, year, dues) && k < |dues|
    ensures dues[k] == At(month, day, year + k)
    ensures k > 0 ==> IsDate(dues[k - 1]) && IsDate(dues[k]) && DayNumber(dues[k - 1]) < DayNumber(dues[k])
  {
    hide At, NextDue, DayNumber, IsSearchable, AddDaysToDate, IsDate;
    if k > 0 {
      YearAfterYear(month, day, year, dues, k - 1);
      NextAfterOccurrence(month, day, year + k - 1);
      OccurrencesApart(month, day, year + k - 1, year + k);
    }
  }

  // ---- template keys ---------------------------------------------------

  predicate IsBaseChar(c: char) {
    'a' <= c <= 'z' || IsDigit(c) || c == '_'
  }

  predicate IsBaseKey(s: string) {
    |s| > 7 && s[..7] == "fiscal_" && forall k :: 0 <= k < |s| ==> IsBaseChar(s[k])
  }

  predicate IsShortNumber(s: string) {
    1 <= |s| <= 2 && IsDigits(s)
  }

  /** The key under which a fiscal date is created. */
  function OccurrenceKey(base: string, month: nat, day: nat): string {
    base + ":" + (Decimal(month) + "-" + Decimal(day))
  }

  /** Month and day of a key of a fiscal template; any other key has none. */
  function ReadKey(key: string): Option<(nat, nat)> {
    var p := Split(key, ':');
    if |p| != 2 || !IsBaseKey(p[0]) then None
    else
      var q := Split(p[1], '-');
      if |q| != 2 || !IsShortNumber(q[0]) || !IsShortNumber(q[1]) then None
      else Some((DecimalValue(q[0]), DecimalValue(q[1])))
  }

  /** The rule of a fiscal date is read back from the key it was created under. */
  lemma KeyRoundTrip(base: string, month: nat, day: nat)
    requires IsBaseKey(base) && month < 100 && day < 100
    ensures ReadKey(OccurrenceKey(base, month, day)) == Some((month, day))
  {
    var m, d := Decimal(month), Decimal(day);
    DecimalLength(month);
    DecimalLength(day);
    DecimalRoundTrip(month);
    DecimalRoundTrip(day);
    hide Decimal, DecimalValue;
    SplitFirst(base, m + "-" + d, ':');
    SplitPiece(m + "-" + d, ':');
    SplitFirst(m, d, '-');
    SplitPiece(d, '-');
  }
}
