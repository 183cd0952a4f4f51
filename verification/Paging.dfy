/** Cursor paging: each page asks for one row more than it shows, and the next starts after its last row. */
module Paging {
  import opened Text

  const DEFAULT_PAGE_SIZE := 50
  const MAX_PAGE_SIZE := 100

  /** A row with its sort key; the order ends in the id, so it is strict. */
  datatype Row = Row(key: int, id: int)

  predicate Comes(a: Row, b: Row) {
    a.key < b.key || (a.key == b.key && a.id < b.id)
  }

  /** A table as a query lists it: in strict order, one row an id. */
  ghost predicate IsTable(rows: seq<Row>) {
    && (forall i, j :: 0 <= i < j < |rows| ==> Comes(rows[i], rows[j]))
    && (forall i, j :: 0 <= i < j < |rows| ==> rows[i].id != rows[j].id)
  }

  // ---- the request -----------------------------------------------------

  function DigitRun(s: string): (r: string)
    ensures IsDigits(r)
  {
    if s != "" && IsDigit(s[0]) then [s[0]] + DigitRun(s[1..]) else ""
  }

  /** `Number.parseInt(s, 10)`: white space, a sign, and the digits that follow. */
  function ParseInt(s: string): Option<int> {
    var t := s[SkipSpaces(s, 0)..];
    var signed := t != "" && (t[0] == '-' || t[0] == '+');
    var digits := DigitRun(if signed then t[1..] else t);
    var value: int := DecimalValue(digits);
    if digits == "" then None else Some(if signed && t[0] == '-' then -value else value)
  }

  /** The page size of `parsePageRequest`. */
  function PageLimit(limit: Option<string>): (n: int)
    ensures 1 <= n <= MAX_PAGE_SIZE
  {
    var n := ParseInt(if limit.Some? then limit.value else "");
    if n.None? then DEFAULT_PAGE_SIZE
    else if n.value < 1 then 1
    else if MAX_PAGE_SIZE < n.value then MAX_PAGE_SIZE
    else n.value
  }

  predicate IsHex(c: char) {
    IsDigit(c) || 'a' <= c <= 'f' || 'A' <= c <= 'F'
  }

  /** The 8-4-4-4-12 form of an id. */
  predicate IsUuid(s: string) {
    && |s| == 36
    && forall k :: 0 <= k < 36 ==> if k == 8 || k == 13 || k == 18 || k == 23 then s[k] == '-' else IsHex(s[k])
  }

  datatype PageRequest = PageRequest(cursor: Option<string>, limit: int)
  datatype Parsed = BadCursor | Request(page: PageRequest)

  /** `parsePageRequest`: an empty cursor is no cursor, any other must be an id. */
  function ParsePageRequest(cursor: Option<string>, limit: Option<string>): Parsed {
    if cursor.Some? && cursor.value != "" && !IsUuid(cursor.value) then BadCursor
    else Request(PageRequest(if cursor.Some? && cursor.value != "" then cursor else None, PageLimit(limit)))
  }

  lemma NoSpaceBefore(s: string)
    requires s != "" && !IsSpace(s[0])
    ensures s[SkipSpaces(s, 0)..] == s
  {
    assert SkipSpaces(s, 0) == 0;
  }

  lemma ParseDigits(d: string)
    requires IsDigits(d) && d != ""
    ensures var v: int := DecimalValue(d); ParseInt(d) == Some(v) && ParseInt("-" + d) == Some(-v)
  {
    hide DecimalValue, DigitRun, SkipSpaces;
    DigitRunOfDigits(d);
    assert IsDigit(d[0]);
    NoSpaceBefore(d);
    var m := "-" + d;
    NoSpaceBefore(m);
    assert m[1..] == d;
    hide IsDigits;
  }

  /** A page size written as a number is used as it is within 1 and 100, and cut to them outside. */
  lemma WrittenLimits(n: nat)
    ensures PageLimit(Some(Decimal(n))) == if n < 1 then 1 else if n <= 100 then n else 100
    ensures PageLimit(Some("-" + Decimal(n))) == 1
  {
    hide Decimal, DecimalValue, ParseInt;
    ParseDigits(Decimal(n));
    DecimalRoundTrip(n);
  }

  lemma DigitRunOfDigits(s: string)
    requires IsDigits(s)
    ensures DigitRun(s) == s
  {
    if s != "" {
      DigitRunOfDigits(s[1..]);
      assert s == [s[0]] + s[1..];
    }
  }

  /** White space, perhaps a sign, all the digits of a number, and whatever follows. */
  predicate IsNumberText(s: string, a: string, sign: string, digits: string, rest: string) {
    && s == a + (sign + (digits + rest)) && AllSpace(a) && (sign == "" || sign == "-" || sign == "+")
    && digits != "" && IsDigits(digits) && (rest == "" || !IsDigit(rest[0]))
  }

  lemma {:induction false} DigitRunIs(digits: string, rest: string)
    requires IsDigits(digits) && (rest == "" || !IsDigit(rest[0]))
    ensures DigitRun(digits + rest) == digits
  {
    if digits == "" {
      assert digits + rest == rest;
    } else {
      assert (digits + rest)[1..] == digits[1..] + rest;
      DigitRunIs(digits[1..], rest);
      assert digits == [digits[0]] + digits[1..];
    }
  }

  lemma {:induction false} DigitRunSplits(s: string)
    ensures var d := DigitRun(s); |d| <= |s| && s == d + s[|d|..] && (|d| < |s| ==> !IsDigit(s[|d|]))
  {
    if s != "" && IsDigit(s[0]) {
      DigitRunSplits(s[1..]);
    }
  }

  lemma NumberTextIsRead(s: string, a: string, sign: string, digits: string, rest: string)
    requires IsNumberText(s, a, sign, digits, rest)
    ensures var v: int := DecimalValue(digits); ParseInt(s) == Some(if sign == "-" then -v else v)
  {
    hide DecimalValue, DigitRun, IsDigits, IsSpace, SkipSpaces;
    var body := digits + rest;
    var t := sign + body;
    assert s[|a|..] == t && s[0..|a|] == a;
    FrontOfNumber(sign, digits, rest);
    assert s[|a|] == t[0];
    SkipSpacesIs(s, 0, |a|);
    assert sign != "" ==> t[0] == sign[0] && t[1..] == body;
    assert sign == "" ==> t == body;
    DigitRunIs(digits, rest);
  }

  lemma FrontOfNumber(sign: string, digits: string, rest: string)
    requires sign == "" || sign == "-" || sign == "+"
    requires digits != "" && IsDigits(digits)
    ensures var t := sign + (digits + rest);
            t != "" && !IsSpace(t[0]) && (sign == "" ==> t[0] != '-' && t[0] != '+')
  {
    assert IsDigit(digits[0]);
  }

  lemma ReadIsNumberText(s: string)
    requires ParseInt(s).Some?
    ensures exists a, sign, digits, rest :: IsNumberText(s, a, sign, digits, rest)
  {
    hide DecimalValue, DigitRun, IsDigits, IsSpace, SkipSpaces, IsNumberText;
    var p := SkipSpaces(s, 0);
    var t := s[p..];
    var signed := t != "" && (t[0] == '-' || t[0] == '+');
    var sign, body := if signed then t[..1] else "", if signed then t[1..] else t;
    var digits := DigitRun(body);
    DigitRunSplits(body);
    assert t == sign + body;
    assert sign == "" || sign == "-" || sign == "+";
    hide ParseInt;
    NumberTextPut(s, p, sign, digits, body[|digits|..]);
  }

  lemma NumberTextPut(s: string, p: nat, sign: string, digits: string, rest: string)
    requires p <= |s| && (forall k :: 0 <= k < p ==> IsSpace(s[k])) && s[p..] == sign + (digits + rest)
    requires sign == "" || sign == "-" || sign == "+"
    requires digits != "" && IsDigits(digits) && (rest == "" || !IsDigit(rest[0]))
    ensures IsNumberText(s, s[..p], sign, digits, rest)
  {
    hide IsSpace, IsDigits;
    assert s == s[..p] + s[p..];
  }

  /** The number with its sign, whatever follows it, cut to 1 and 100; 50 when there is none. */
  lemma LimitExactly(s: string, a: string, sign: string, digits: string, rest: string)
    ensures IsNumberText(s, a, sign, digits, rest) ==>
              var n := DecimalValue(digits);
              PageLimit(Some(s)) == if sign == "-" || n < 1 then 1 else if n <= 100 then n else 100
    ensures (forall b, g, d, r :: !IsNumberText(s, b, g, d, r)) ==> PageLimit(Some(s)) == 50
    ensures PageLimit(None) == 50
  {
    hide ParseInt, DecimalValue, IsNumberText;
    if IsNumberText(s, a, sign, digits, rest) {
      NumberTextIsRead(s, a, sign, digits, rest);
    }
    if ParseInt(s).Some? {
      ReadIsNumberText(s);
    }
    NoNumber();
  }

  lemma NoNumber()
    ensures ParseInt("").None?
  {
  }

  /** Five runs of 8, 4, 4, 4 and 12 hexadecimal digits between hyphens. */
  predicate IsIdText(s: string, runs: seq<string>) {
    && |runs| == 5 && |runs[0]| == 8 && |runs[1]| == |runs[2]| == |runs[3]| == 4 && |runs[4]| == 12
    && (forall i, k :: 0 <= i < 5 && 0 <= k < |runs[i]| ==>
          '0' <= runs[i][k] <= '9' || 'a' <= runs[i][k] <= 'f' || 'A' <= runs[i][k] <= 'F')
    && s == runs[0] + "-" + runs[1] + "-" + runs[2] + "-" + runs[3] + "-" + runs[4]
  }

  lemma UuidExactly(s: string)
    ensures IsUuid(s) <==> exists runs :: IsIdText(s, runs)
  {
    if IsUuid(s) {
      var runs := [s[..8], s[9..13], s[14..18], s[19..23], s[24..]];
      assert s == s[..8] + s[8..9] + s[9..13] + s[13..14] + s[14..18] + s[18..19] + s[19..23] + s[23..24] + s[24..];
      assert s[8..9] == s[13..14] == s[18..19] == s[23..24] == "-";
      assert IsIdText(s, runs);
    }
    if runs :| IsIdText(s, runs) {
      IdTextIsUuid(s, runs);
    }
  }

  lemma IdTextIsUuid(s: string, runs: seq<string>)
    requires IsIdText(s, runs)
    ensures IsUuid(s)
  {
    forall k | 0 <= k < 36
      ensures if k == 8 || k == 13 || k == 18 || k == 23 then s[k] == '-' else IsHex(s[k])
    {
      var i := if k < 9 then 0 else if k < 14 then 1 else if k < 19 then 2 else if k < 24 then 3 else 4;
      var from := [0, 9, 14, 19, 24][i];
      var at := k - from;
      assert at < |runs[i]| ==> s[k] == runs[i][at];
    }
  }

  /** A request is refused if and only if it has a cursor that is not empty and not an id. */
  lemma RequestExactly(cursor: Option<string>, limit: Option<string>)
    ensures ParsePageRequest(cursor, limit) == BadCursor
            <==> cursor.Some? && cursor.value != "" && forall runs :: !IsIdText(cursor.value, runs)
    ensures ParsePageRequest(cursor, limit).Request? ==>
              var page := ParsePageRequest(cursor, limit).page;
              && page.cursor == (if cursor == Some("") then None else cursor) && page.limit == PageLimit(limit)
  {
    hide IsUuid, IsIdText, PageLimit;
    if cursor.Some? {
      UuidExactly(cursor.value);
    }
  }

  // ---- one page --------------------------------------------------------

  function IndexOfId(rows: seq<Row>, id: int): (i: nat)
    ensures i <= |rows| && (i < |rows| ==> rows[i].id == id)
    ensures forall k :: 0 <= k < i ==> rows[k].id != id
  {
    if rows == [] || rows[0].id == id then 0 else 1 + IndexOfId(rows[1..], id)
  }

  /** The query of `pageArgs`: from after the cursor row, one row more than the page holds. */
  function Query(rows: seq<Row>, cursor: Option<int>, limit: nat): seq<Row> {
    var i := if cursor.Some? then IndexOfId(rows, cursor.value) else 0;
    var from := if cursor.Some? && i < |rows| then i + 1 else i;
    if from + limit + 1 <= |rows| then rows[from..from + limit + 1] else rows[from..]
  }

  datatype Page = Page(items: seq<Row>, nextCursor: Option<int>)

  /** `toPage`. */
  function ToPage(rows: seq<Row>, limit: nat): Page
    requires 0 < limit
  {
    if |rows| > limit then Page(rows[..limit], Some(rows[limit - 1].id)) else Page(rows, None)
  }

  function Fetch(rows: seq<Row>, cursor: Option<int>, limit: nat): Page
    requires 0 < limit
  {
    ToPage(Query(rows, cursor, limit), limit)
  }

  // ---- following the cursor --------------------------------------------

  /** The pages got by following the cursor over a table that does not change. */
  function Pages(rows: seq<Row>, cursor: Option<int>, limit: nat, left: nat): seq<Page>
    requires 0 < limit
    decreases left
  {
    var p := Fetch(rows, cursor, limit);
    if p.nextCursor.None? || left == 0 then [p] else [p] + Pages(rows, p.nextCursor, limit, left - 1)
  }

  function Items(pages: seq<Page>): seq<Row> {
    if pages == [] then [] else pages[0].items + Items(pages[1..])
  }

  lemma IndexOfRow(rows: seq<Row>, i: nat)
    requires IsTable(rows) && i < |rows|
    ensures IndexOfId(rows, rows[i].id) == i
  {
  }

  /** The cursor that stands after the first `seen` rows. */
  function CursorAfter(rows: seq<Row>, seen: nat): Option<int>
    requires seen <= |rows|
  {
    if seen == 0 then None else Some(rows[seen - 1].id)
  }

  /** A page is the next run of rows; there is a next cursor exactly when rows are left. */
  lemma FetchIs(rows: seq<Row>, seen: nat, limit: nat)
    requires IsTable(rows) && seen <= |rows| && 0 < limit
    ensures var p := Fetch(rows, CursorAfter(rows, seen), limit);
            if seen + limit < |rows| then
              p.items == rows[seen..seen + limit] && p.nextCursor == CursorAfter(rows, seen + limit)
            else p.items == rows[seen..] && p.nextCursor == None
  {
    hide IndexOfId, IsTable;
    if seen > 0 {
      IndexOfRow(rows, seen - 1);
    }
    var q := Query(rows, CursorAfter(rows, seen), limit);
    assert q == if seen + limit + 1 <= |rows| then rows[seen..seen + limit + 1] else rows[seen..];
  }

  /** The pages needed for `n` rows. */
  function PageCount(n: nat, limit: nat): nat
    requires 0 < limit
  {
    if n <= limit then 1 else 1 + PageCount(n - limit, limit)
  }

  /** `max(1, ⌈n / limit⌉)`. */
  lemma PageCountIs(n: nat, limit: nat)
    requires 0 < limit
    ensures var c := PageCount(n, limit); 1 <= c && n <= c * limit && (1 < c ==> (c - 1) * limit < n)
  {
    if n > limit {
      PageCountIs(n - limit, limit);
      var c := PageCount(n - limit, limit);
      assert (c + 1) * limit == c * limit + limit;
      assert (c - 1) * limit == c * limit - limit;
    }
  }

  lemma OnePage(rows: seq<Row>, cursor: Option<int>, limit: nat, left: nat)
    requires 0 < limit
    ensures var p, pages := Fetch(rows, cursor, limit), Pages(rows, cursor, limit, left);
            if p.nextCursor.None? || left == 0 then
              pages == [p] && Items(pages) == p.items
            else
              var rest := Pages(rows, p.nextCursor, limit, left - 1);
              pages == [p] + rest && Items(pages) == p.items + Items(rest)
  {
    hide Fetch;
    var p := Fetch(rows, cursor, limit);
    if p.nextCursor.None? || left == 0 {
      assert [p][1..] == [] && p.items + [] == p.items;
    } else {
      var rest := Pages(rows, p.nextCursor, limit, left - 1);
      assert ([p] + rest)[1..] == rest;
    }
  }

  /**
   * Over a table that does not change, following the cursor returns every row exactly once
   * and in order, in as many pages as needed and no more, none of them empty but the only one.
   */
  lemma {:induction false} PagesListTheRest(rows: seq<Row>, seen: nat, limit: nat, left: nat)
    requires IsTable(rows) && seen <= |rows| && 0 < limit && PageCount(|rows| - seen, limit) <= left + 1
    ensures var pages := Pages(rows, CursorAfter(rows, seen), limit, left);
            && Items(pages) == rows[seen..] && |pages| == PageCount(|rows| - seen, limit)
            && pages != [] && pages[|pages| - 1].nextCursor == None
            && (seen < |rows| ==> forall k :: 0 <= k < |pages| ==> pages[k].items != [])
    decreases left
  {
    hide Fetch, IsTable, Pages, Items, CursorAfter;
    FetchIs(rows, seen, limit);
    OnePage(rows, CursorAfter(rows, seen), limit, left);
    if seen + limit < |rows| {
      PageCountIs(|rows| - seen - limit, limit);
      assert |rows| - seen - limit == |rows| - (seen + limit);
      CursorIsThere(rows, seen + limit);
      PagesListTheRest(rows, seen + limit, limit, left - 1);
      assert rows[seen..seen + limit] + rows[seen + limit..] == rows[seen..];
    }
  }

  /**
   * A listing asked without a cursor and with any text as page size, valid or not, is refused by
   * nobody and returns the whole table in pages of 1 to 100 rows.
   */
  lemma AnyRequestListsAll(rows: seq<Row>, limit: Option<string>, left: nat)
    requires IsTable(rows) && |rows| <= left
    ensures var parsed := ParsePageRequest(None, limit);
            && parsed.Request? && parsed.page.cursor == None && 1 <= parsed.page.limit <= 100
            && var pages := Pages(rows, None, parsed.page.limit, left);
            Items(pages) == rows && |pages| == PageCount(|rows|, parsed.page.limit)
  {
    hide PageLimit, IsTable, Pages, Items, PageCount;
    var n := ParsePageRequest(None, limit).page.limit;
    PageCountIs(|rows|, n);
    FewPages(|rows|, n, PageCount(|rows|, n));
    assert rows[0..] == rows && CursorAfter(rows, 0) == None;
    PagesListTheRest(rows, 0, n, left);
  }

  lemma FewPages(rows: nat, limit: nat, count: nat)
    requires 1 <= limit && (1 < count ==> (count - 1) * limit < rows)
    ensures count <= rows + 1
  {
    if 1 < count {
      assert (count - 1) * limit >= count - 1;
    }
  }

  lemma CursorIsThere(rows: seq<Row>, seen: nat)
    requires 0 < seen <= |rows|
    ensures CursorAfter(rows, seen).Some?
  {
  }

  // ---- rows inserted between requests ----------------------------------

  /** Tables at each request: rows may have been inserted since the request before, never deleted. */
  ghost predicate OnlyInserts(tables: seq<seq<Row>>) {
    && (forall k :: 0 <= k < |tables| ==> IsTable(tables[k]))
    && forall k :: 0 < k < |tables| ==> forall r | r in tables[k - 1] :: r in tables[k]
  }

  /** The pages got by following the cursor, each request over its own table, as far as they go. */
  function Follow(tables: seq<seq<Row>>, cursor: Option<int>, limit: nat): seq<Page>
    requires 0 < limit
  {
    if tables == [] then []
    else
      var p := Fetch(tables[0], cursor, limit);
      [p] + (if p.nextCursor.None? then [] else Follow(tables[1..], p.nextCursor, limit))
  }

  predicate Ended(pages: seq<Page>) {
    pages != [] && pages[|pages| - 1].nextCursor.None?
  }

  function IdOf(cursor: Option<Row>): Option<int> {
    if cursor.Some? then Some(cursor.value.id) else None
  }

  lemma CursorPlace(rows: seq<Row>, cursor: Option<Row>) returns (seen: nat)
    requires cursor.Some? ==> cursor.value in rows
    ensures seen <= |rows| && CursorAfter(rows, seen) == IdOf(cursor)
    ensures if cursor.Some? then 0 < seen && rows[seen - 1] == cursor.value else seen == 0
  {
    seen := 0;
    if cursor.Some? {
      var i :| 0 <= i < |rows| && rows[i] == cursor.value;
      seen := i + 1;
    }
  }

  /** In strict order, and after the cursor's row when there is one. */
  ghost predicate InOrderAfter(items: seq<Row>, cursor: Option<Row>) {
    && (forall i, j :: 0 <= i < j < |items| ==> Comes(items[i], items[j]))
    && (cursor.Some? ==> forall i :: 0 <= i < |items| ==> Comes(cursor.value, items[i]))
  }

  /** The row that the next request starts after. */
  function LastRow(p: Page): Option<Row> {
    if p.nextCursor.Some? && p.items != [] then Some(p.items[|p.items| - 1]) else None
  }

  lemma RequestInOrder(rows: seq<Row>, cursor: Option<Row>, seen: nat, end: nat)
    requires IsTable(rows) && seen <= end <= |rows|
    requires if cursor.Some? then 0 < seen && rows[seen - 1] == cursor.value else seen == 0
    ensures InOrderAfter(rows[seen..end], cursor)
  {
  }

  lemma RequestFinds(rows: seq<Row>, cursor: Option<Row>, seen: nat, end: nat, r: Row)
    requires IsTable(rows) && seen < end <= |rows| && r in rows
    requires if cursor.Some? then 0 < seen && rows[seen - 1] == cursor.value else seen == 0
    requires cursor.None? || Comes(cursor.value, r)
    ensures r in rows[seen..end] || (end < |rows| && Comes(rows[end - 1], r))
  {
    var i :| 0 <= i < |rows| && rows[i] == r;
    if i < end {
      assert seen <= i;
      assert rows[seen..end][i - seen] == r;
    }
  }

  /** The page of a request, by its place in the table. */
  lemma PageShape(rows: seq<Row>, seen: nat, limit: nat, end: nat)
    requires IsTable(rows) && 0 < limit && seen <= |rows|
    requires end == if seen + limit < |rows| then seen + limit else |rows|
    ensures var p := Fetch(rows, CursorAfter(rows, seen), limit);
            && p.items == rows[seen..end] && p.nextCursor == IdOf(LastRow(p))
            && LastRow(p) == (if end < |rows| then Some(rows[end - 1]) else None)
  {
    hide Fetch, IsTable;
    FetchIs(rows, seen, limit);
    assert rows[seen..|rows|] == rows[seen..];
    LastOfPage(rows, seen, end);
    hide CursorAfter;
    var p := Fetch(rows, CursorAfter(rows, seen), limit);
    assert p.items == rows[seen..end];
  }

  /**
   * One request: its rows come from the table, in order and after the cursor, and a row of the
   * table after the cursor is among them or after the last of them.
   */
  lemma OneRequest(rows: seq<Row>, cursor: Option<Row>, limit: nat, r: Row)
    requires IsTable(rows) && 0 < limit && (cursor.Some? ==> cursor.value in rows)
    ensures var p := Fetch(rows, IdOf(cursor), limit);
            && InOrderAfter(p.items, cursor)
            && p.nextCursor == IdOf(LastRow(p)) && (LastRow(p).Some? ==> LastRow(p).value in rows && p.items != [])
            && (r in rows && (cursor.None? || Comes(cursor.value, r)) ==>
                  r in p.items || (LastRow(p).Some? && Comes(LastRow(p).value, r)))
  {
    var seen := CursorPlace(rows, cursor);
    hide Fetch, Comes, InOrderAfter, IsTable, CursorAfter, LastRow;
    var end := if seen + limit < |rows| then seen + limit else |rows|;
    PageShape(rows, seen, limit, end);
    RequestInOrder(rows, cursor, seen, end);
    LastOfPage(rows, seen, end);
    if r in rows && (cursor.None? || Comes(cursor.value, r)) {
      if seen < end {
        RequestFinds(rows, cursor, seen, end, r);
      } else {
        NoneAfterLast(rows, cursor, r);
      }
    }
  }

  lemma LastOfPage(rows: seq<Row>, seen: nat, end: nat)
    requires seen <= end <= |rows|
    ensures seen < end ==>
              && rows[seen..end] != [] && rows[seen..end][end - seen - 1] == rows[end - 1]
              && rows[end - 1] in rows
    ensures 0 < end ==> CursorAfter(rows, end) == Some(rows[end - 1].id)
  {
  }

  lemma NoneAfterLast(rows: seq<Row>, cursor: Option<Row>, r: Row)
    requires IsTable(rows) && r in rows && cursor.Some? && |rows| > 0 && rows[|rows| - 1] == cursor.value
    ensures !Comes(cursor.value, r)
  {
  }

  lemma JoinInOrder(a: seq<Row>, b: seq<Row>, cursor: Option<Row>)
    requires InOrderAfter(a, cursor) && a != [] && InOrderAfter(b, Some(a[|a| - 1]))
    ensures InOrderAfter(a + b, cursor)
  {
    var all, last := a + b, a[|a| - 1];
    forall i, j | 0 <= i < j < |all| ensures Comes(all[i], all[j]) {
      if i < |a| <= j {
        assert Comes(last, b[j - |a|]);
      }
    }
    if cursor.Some? {
      forall i | 0 <= i < |all| ensures Comes(cursor.value, all[i]) {
        if |a| <= i {
          assert Comes(last, b[i - |a|]);
        }
      }
    }
  }

  lemma FollowStep(tables: seq<seq<Row>>, cursor: Option<int>, limit: nat)
    requires tables != [] && 0 < limit
    ensures var p, pages := Fetch(tables[0], cursor, limit), Follow(tables, cursor, limit);
            if p.nextCursor.None? then pages == [p] && Items(pages) == p.items
            else
              var rest := Follow(tables[1..], p.nextCursor, limit);
              && pages == [p] + rest && Items(pages) == p.items + Items(rest) && (Ended(pages) <==> Ended(rest))
  {
    hide Fetch;
    var p := Fetch(tables[0], cursor, limit);
    if p.nextCursor.None? {
      assert [p] + [] == [p] && [p][1..] == [] && p.items + [] == p.items;
    } else {
      var rest := Follow(tables[1..], p.nextCursor, limit);
      assert ([p] + rest)[1..] == rest;
    }
  }

  lemma NextTables(tables: seq<seq<Row>>, cursor: Option<Row>)
    requires OnlyInserts(tables) && tables != []
    ensures OnlyInserts(tables[1..]) && IsTable(tables[0])
    ensures 1 < |tables| && cursor.Some? && cursor.value in tables[0] ==> cursor.value in tables[1..][0]
  {
  }

  /** Whatever is inserted between requests, the rows returned are in strict order: none comes twice. */
  lemma {:induction false} FollowInOrder(tables: seq<seq<Row>>, cursor: Option<Row>, limit: nat)
    requires OnlyInserts(tables) && 0 < limit
    requires tables != [] && cursor.Some? ==> cursor.value in tables[0]
    ensures InOrderAfter(Items(Follow(tables, IdOf(cursor), limit)), cursor)
    decreases |tables|
  {
    if tables != [] {
      hide Fetch, Follow, InOrderAfter, Items, OnlyInserts, IsTable;
      NextTables(tables, cursor);
      OneRequest(tables[0], cursor, limit, Row(0, 0));
      FollowStep(tables, IdOf(cursor), limit);
      var p := Fetch(tables[0], IdOf(cursor), limit);
      var last := LastRow(p);
      NextTables(tables, last);
      if p.nextCursor.Some? {
        FollowInOrder(tables[1..], last, limit);
        JoinInOrder(p.items, Items(Follow(tables[1..], p.nextCursor, limit)), cursor);
      }
    }
  }

  /** Once the pages end, every row present from the start and after the cursor has been returned. */
  lemma {:induction false} FollowFinds(tables: seq<seq<Row>>, cursor: Option<Row>, limit: nat, row: Row)
    requires OnlyInserts(tables) && 0 < limit && tables != [] && Ended(Follow(tables, IdOf(cursor), limit))
    requires cursor.Some? ==> cursor.value in tables[0] && Comes(cursor.value, row)
    requires row in tables[0]
    ensures row in Items(Follow(tables, IdOf(cursor), limit))
    decreases |tables|
  {
    NothingFollows(IdOf(cursor), limit);
    hide Fetch, Follow, InOrderAfter, Items, OnlyInserts, IsTable, Ended, Comes;
    NextTables(tables, Some(row));
    OneRequest(tables[0], cursor, limit, row);
    FollowStep(tables, IdOf(cursor), limit);
    var p := Fetch(tables[0], IdOf(cursor), limit);
    var last := LastRow(p);
    NextTables(tables, last);
    if row !in p.items {
      NothingFollows(p.nextCursor, limit);
      FollowFinds(tables[1..], last, limit, row);
    }
  }

  lemma NothingFollows(cursor: Option<int>, limit: nat)
    requires 0 < limit
    ensures !Ended(Follow([], cursor, limit))
  {
  }

  lemma FullPage(rows: seq<Row>, cursor: Option<int>, limit: nat)
    requires 0 < limit
    ensures var p := Fetch(rows, cursor, limit);
            (p.nextCursor.Some? ==> |p.items| == limit) && forall r | r in p.items :: r in rows
  {
  }

  /** The rows of `n` full pages. */
  function FullRows(n: int, limit: nat): int {
    n * limit
  }

  lemma OneMorePage(n: int, limit: nat)
    ensures FullRows(n, limit) == FullRows(n - 1, limit) + limit && FullRows(0, limit) == 0
  {
  }

  /** Every page before the last is full, and while the pages have not ended the last is full too. */
  lemma {:induction false} FullPages(tables: seq<seq<Row>>, cursor: Option<int>, limit: nat)
    requires 0 < limit && tables != []
    ensures var pages := Follow(tables, cursor, limit);
            && pages != [] && FullRows(|pages| - 1, limit) <= |Items(pages)|
            && (!Ended(pages) ==> |pages| == |tables| && FullRows(|tables|, limit) <= |Items(pages)|)
    decreases |tables|
  {
    hide Fetch, FullRows, Items;
    FullPage(tables[0], cursor, limit);
    FollowStep(tables, cursor, limit);
    OneMorePage(1, limit);
    var p, rest := Fetch(tables[0], cursor, limit), tables[1..];
    if p.nextCursor.Some? {
      var pages := Follow(rest, p.nextCursor, limit);
      if rest != [] {
        FullPages(rest, p.nextCursor, limit);
        OneMorePage(|pages|, limit);
        OneMorePage(|tables|, limit);
      }
    }
    hide Follow, Ended;
  }

  lemma {:induction false} ItemsAreListed(tables: seq<seq<Row>>, cursor: Option<int>, limit: nat, r: Row)
    requires OnlyInserts(tables) && 0 < limit && tables != [] && r in Items(Follow(tables, cursor, limit))
    ensures r in tables[|tables| - 1]
    decreases |tables|
  {
    hide Fetch, IsTable;
    FullPage(tables[0], cursor, limit);
    FollowStep(tables, cursor, limit);
    var p, rest := Fetch(tables[0], cursor, limit), tables[1..];
    if r in p.items {
      StaysListed(tables, |tables| - 1, r);
    } else {
      assert rest != [];
      ItemsAreListed(rest, p.nextCursor, limit, r);
    }
  }

  lemma {:induction false} StaysListed(tables: seq<seq<Row>>, k: nat, r: Row)
    requires OnlyInserts(tables) && k < |tables| && r in tables[0]
    ensures r in tables[k]
  {
    hide IsTable;
    if 0 < k {
      StaysListed(tables, k - 1, r);
    }
  }

  /**
   * Whatever is inserted, the full pages fit in the last table: the pages end as soon as the
   * requests made, each of `limit` rows, exceed the rows that there are.
   */
  lemma PagesEnd(tables: seq<seq<Row>>, limit: nat)
    requires OnlyInserts(tables) && 0 < limit && tables != []
    ensures var pages, last := Follow(tables, None, limit), tables[|tables| - 1];
            && FullRows(|pages| - 1, limit) <= |Items(pages)| <= |last|
            && (|last| < FullRows(|tables|, limit) ==> Ended(pages))
  {
    hide FullRows, Follow, Items, IsTable, Ended, Comes;
    var items, last := Items(Follow(tables, None, limit)), tables[|tables| - 1];
    FullPages(tables, None, limit);
    FollowInOrder(tables, None, limit);
    forall i, j | 0 <= i < j < |items| ensures items[i] != items[j] {
      assert Comes(items[i], items[j]);
      NeverBeforeItself(items[i]);
    }
    forall r | r in items ensures r in last {
      ItemsAreListed(tables, None, limit, r);
    }
    DistinctWithin(items, last);
  }

  lemma NeverBeforeItself(r: Row)
    ensures !Comes(r, r)
  {
  }

  /**
   * With rows inserted but never deleted between requests, every row present from the start is
   * returned exactly once by the time the pages end, and no row more than once.
   */
  lemma RowsInsertedBetweenRequests(tables: seq<seq<Row>>, limit: nat, row: Row)
    requires OnlyInserts(tables) && 0 < limit && tables != [] && Ended(Follow(tables, None, limit))
    ensures Times(Items(Follow(tables, None, limit)), row) <= 1
    ensures row in tables[0] ==> Times(Items(Follow(tables, None, limit)), row) == 1
  {
    hide Follow, Items;
    FollowInOrder(tables, None, limit);
    TimesInOrder(Items(Follow(tables, None, limit)), row);
    if row in tables[0] {
      FollowFinds(tables, None, limit, row);
    }
  }

  function Times(items: seq<Row>, row: Row): nat {
    if items == [] then 0 else (if items[0] == row then 1 else 0) + Times(items[1..], row)
  }

  lemma {:induction false} TimesInOrder(items: seq<Row>, row: Row)
    requires forall i, j :: 0 <= i < j < |items| ==> Comes(items[i], items[j])
    ensures Times(items, row) == if row in items then 1 else 0
  {
    if items != [] {
      TimesInOrder(items[1..], row);
    }
  }
}
