/**
 * Local days of a time zone as instants. The zone is any function from an instant to its
 * offset from UTC, both in milliseconds.
 */
module ZonedDays {
  import opened Calendar

  const DAY: int := 86_400_000
  const HOUR: int := 3_600_000

  type Zone = int -> int

  function Local(zone: Zone, u: int): int {
    u + zone(u)
  }

  /** The local date at an instant. */
  function LocalDate(zone: Zone, u: int): Ymd {
    DateOf(Local(zone, u) / DAY)
  }

  function UtcMidnight(day: Ymd): int {
    Utc(day.y, day.m - 1, day.d) * DAY
  }

  /** The instant computed for the local midnight `m`: the offset is looked up twice. */
  function StartAt(zone: Zone, m: int): int {
    var t := m - zone(m);
    var second := m - zone(t);
    if second != t then second else t
  }

  /** `zonedDayStart`. */
  function ZonedDayStart(zone: Zone, day: Ymd): int {
    StartAt(zone, UtcMidnight(day))
  }

  /** `zonedNextDayStart`. */
  function ZonedNextDayStart(zone: Zone, day: Ymd): int {
    ZonedDayStart(zone, DateOf(Utc(day.y, day.m - 1, day.d + 1)))
  }

  // ---- zones with one change around a day ------------------------------

  /** Offsets are below a day, and between `lo` and `hi` they go from `a` to `b` at the instant `change`. */
  ghost predicate ChangesOnce(zone: Zone, lo: int, hi: int, change: int, a: int, b: int) {
    && -DAY < a < DAY && -DAY < b < DAY
    && (forall u :: -DAY < zone(u) < DAY)
    && forall u :: lo <= u <= hi ==> zone(u) == if u < change then a else b
  }

  /** Whenever local midnight exists, the instant found is a local midnight. */
  lemma MidnightWhenItExists(zone: Zone, m: int, change: int, a: int, b: int, u: int)
    requires ChangesOnce(zone, m - DAY, m + DAY, change, a, b)
    requires Local(zone, u) == m
    ensures Local(zone, StartAt(zone, m)) == m
  {
  }

  /** `s` separates the instants before local time `m` from the others. */
  ghost predicate Separates(zone: Zone, m: int, s: int) {
    forall u :: s <= u <==> m <= Local(zone, u)
  }

  /** The change skips or repeats local time `m`. */
  predicate Touches(change: int, a: int, b: int, m: int) {
    change + a <= m < change + b || change + b <= m < change + a
  }

  /**
   * The change leaves midnight usable: it does not touch it; or it skips forward from exactly
   * midnight and the zone is not behind UTC; or it falls back to exactly midnight and the
   * zone is then behind UTC.
   */
  predicate LeavesMidnight(change: int, a: int, b: int, m: int) {
    !Touches(change, a, b, m) || (a < b && m == change + a && 0 <= a) || (b < a && m == change + b && b < 0)
  }

  lemma SeparatesWhenLeft(zone: Zone, m: int, change: int, a: int, b: int)
    requires ChangesOnce(zone, m - DAY, m + DAY, change, a, b) && LeavesMidnight(change, a, b, m)
    ensures Separates(zone, m, StartAt(zone, m))
  {
    var s := StartAt(zone, m);
    forall u ensures s <= u <==> m <= Local(zone, u) {
      assert -DAY < zone(u) < DAY;
    }
  }

  lemma WitnessWhenTouched(zone: Zone, m: int, change: int, a: int, b: int) returns (u: int)
    requires ChangesOnce(zone, m - DAY, m + DAY, change, a, b) && !LeavesMidnight(change, a, b, m)
    ensures var s := StartAt(zone, m); !(s <= u <==> m <= Local(zone, u))
  {
    var s := StartAt(zone, m);
    if a < b {
      u := if s < change then s else change;
    } else if m - a < s {
      u := m - a;
    } else {
      u := change;
    }
  }

  /**
   * The instant found is the boundary of the local day if and only if the change leaves that
   * midnight usable.
   */
  lemma BoundaryExactly(zone: Zone, m: int, change: int, a: int, b: int)
    requires ChangesOnce(zone, m - DAY, m + DAY, change, a, b)
    ensures Separates(zone, m, StartAt(zone, m)) <==> LeavesMidnight(change, a, b, m)
  {
    if LeavesMidnight(change, a, b, m) {
      SeparatesWhenLeft(zone, m, change, a, b);
    } else {
      var u := WitnessWhenTouched(zone, m, change, a, b);
    }
  }

  lemma NextMidnight(day: Ymd, zone: Zone)
    requires IsDate(day) && 100 <= day.y
    ensures UtcMidnight(day) == DayNumber(day) * DAY
    ensures ZonedNextDayStart(zone, day) == StartAt(zone, UtcMidnight(day) + DAY)
  {
    hide DayNumber, DateOf, Utc;
    var n := DayNumber(day);
    UtcOfDate(day, 0);
    UtcOfDate(day, 1);
    DayNumberOfDateOf(n + 1);
    var next := DateOf(n + 1);
    DayNumberOrder(day, next);
    UtcOfDate(next, 0);
    assert (n + 1) * DAY == n * DAY + DAY;
  }

  lemma LocalDateIs(zone: Zone, day: Ymd, u: int)
    requires IsDate(day)
    ensures LocalDate(zone, u) == day <==> DayNumber(day) * DAY <= Local(zone, u) < DayNumber(day) * DAY + DAY
  {
    hide DayNumber, DateOf;
    var k := Local(zone, u) / DAY;
    DateOfDayNumber(day);
    DayNumberOfDateOf(k);
  }

  /**
   * Local days tile time: when the change leaves both midnights of a day usable, an instant
   * lies between the two starts if and only if its local date is that day.
   */
  lemma LocalDaysTile(zone: Zone, day: Ymd, change: int, a: int, b: int, u: int)
    requires IsDate(day) && 100 <= day.y
    requires var m := UtcMidnight(day);
             && ChangesOnce(zone, m - DAY, m + DAY + DAY, change, a, b)
             && LeavesMidnight(change, a, b, m) && LeavesMidnight(change, a, b, m + DAY)
    ensures ZonedDayStart(zone, day) <= u < ZonedNextDayStart(zone, day) <==> LocalDate(zone, u) == day
  {
    hide LocalDate, UtcMidnight, DayNumber, StartAt, LeavesMidnight;
    NextMidnight(day, zone);
    LocalDateIs(zone, day, u);
    var m := UtcMidnight(day);
    BoundaryExactly(zone, m, change, a, b);
    BoundaryExactly(zone, m + DAY, change, a, b);
  }

  /** One hour forward at midnight in a zone five hours behind UTC: the day is made to start an hour early. */
  lemma TouchedExample(zone: Zone)
    requires forall u :: zone(u) == if u < 5 * HOUR then -5 * HOUR else -4 * HOUR
    ensures Local(zone, StartAt(zone, 0)) == -HOUR
    ensures !Separates(zone, 0, StartAt(zone, 0))
  {
    BoundaryExactly(zone, 0, 5 * HOUR, -5 * HOUR, -4 * HOUR);
  }

  // ---- the current month -----------------------------------------------

  /** `currentMonth().start`: the offset is read as the local hour at UTC midnight of day 1. */
  function CurrentMonthStart(zone: Zone, now: int): int {
    var today := LocalDate(zone, now);
    var guess := UtcMidnight(Ymd(today.y, today.m, 1));
    var hour := Local(zone, guess) / HOUR % 24;
    guess - hour * HOUR
  }

  lemma HourOfMidnight(n: int, offset: int)
    requires offset % HOUR == 0
    ensures (n * DAY + offset) / HOUR % 24 * HOUR == offset % DAY
  {
    var h := offset / HOUR;
    assert n * DAY + offset == (n * 24 + h) * HOUR;
    assert (n * 24 + h) * HOUR / HOUR == n * 24 + h;
    assert (n * 24 + h) % 24 == h % 24;
    assert h == h / 24 * 24 + h % 24;
    assert offset == h / 24 * DAY + h % 24 * HOUR;
  }

  /**
   * With whole-hour offsets, the month starts when its first day does if and only if the
   * offset at local midnight is the one at UTC midnight read as an hour of the day.
   */
  lemma MonthStartsWithItsFirstDay(zone: Zone, now: int)
    requires forall u :: zone(u) % HOUR == 0
    ensures var today := LocalDate(zone, now);
            var first := Ymd(today.y, today.m, 1);
            var m := UtcMidnight(first);
            CurrentMonthStart(zone, now) == ZonedDayStart(zone, first)
            <==> zone(m - zone(m)) == zone(m) % DAY
  {
    hide LocalDate, Utc;
    var today := LocalDate(zone, now);
    var first := Ymd(today.y, today.m, 1);
    HourOfMidnight(Utc(first.y, first.m - 1, first.d), zone(UtcMidnight(first)));
  }

  /** East of UTC by whole hours, a month without a change between the two midnights starts right. */
  lemma MonthStartsRightEastOfUtc(zone: Zone, now: int)
    requires forall u :: zone(u) % HOUR == 0 && 0 <= zone(u) < DAY
    ensures var today := LocalDate(zone, now);
            var first := Ymd(today.y, today.m, 1);
            var m := UtcMidnight(first);
            CurrentMonthStart(zone, now) == ZonedDayStart(zone, first) <==> zone(m - zone(m)) == zone(m)
  {
    hide LocalDate, CurrentMonthStart, ZonedDayStart, UtcMidnight;
    MonthStartsWithItsFirstDay(zone, now);
    var today := LocalDate(zone, now);
    var m := UtcMidnight(Ymd(today.y, today.m, 1));
    assert zone(m) % DAY == zone(m);
  }

  /** The zone is one or two hours ahead of UTC and changes only at 01:00 UTC, as Europe/Madrid does. */
  ghost predicate ChangesAtOneUtc(zone: Zone) {
    && (forall u :: zone(u) == HOUR || zone(u) == 2 * HOUR)
    && forall u, v :: u < v && zone(u) != zone(v) ==> exists n: int :: u < OneUtc(n) <= v
  }

  /** 01:00 UTC of day `n`. */
  function OneUtc(n: int): int {
    n * DAY + HOUR
  }

  /** In Madrid the month always starts with its first day. */
  lemma MonthStartsRightInMadrid(zone: Zone, now: int)
    requires ChangesAtOneUtc(zone)
    ensures var today := LocalDate(zone, now);
            CurrentMonthStart(zone, now) == ZonedDayStart(zone, Ymd(today.y, today.m, 1))
  {
    hide LocalDate, CurrentMonthStart, ZonedDayStart, Utc;
    MonthStartsRightEastOfUtc(zone, now);
    var today := LocalDate(zone, now);
    var n := Utc(today.y, today.m - 1, 1);
    var m := n * DAY;
    assert UtcMidnight(Ymd(today.y, today.m, 1)) == m;
    if zone(m - zone(m)) != zone(m) {
      var k: int :| m - zone(m) < OneUtc(k) <= m;
      NotLateInTheDay(n, k);
    }
  }

  /** The last 01:00 UTC before a midnight is more than two hours before it. */
  lemma NotLateInTheDay(n: int, k: int)
    requires OneUtc(k) <= n * DAY
    ensures OneUtc(k) < n * DAY - 2 * HOUR
  {
    assert k < n;
    assert k * DAY <= (n - 1) * DAY;
  }

  /**
   * With a change between local and UTC midnight of the first, which Madrid does not have, the
   * month starts an hour early.
   */
  lemma MonthExample(zone: Zone, now: int, first: Ymd)
    requires forall u :: zone(u) == if u < -HOUR / 2 then HOUR else 2 * HOUR
    requires first == Ymd(LocalDate(zone, now).y, LocalDate(zone, now).m, 1) && UtcMidnight(first) == 0
    ensures CurrentMonthStart(zone, now) == -2 * HOUR && ZonedDayStart(zone, first) == -HOUR
  {
    hide LocalDate, UtcMidnight;
  }
}
