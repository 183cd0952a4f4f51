/** The accountant's CSV and a reader of its format (section 2 of RFC 4180, with `;` between fields). */
module Csv {
  import opened Text

  const BOM: char := '\U{FEFF}'
  const CRLF := "\r\n"

  // ---- cells -----------------------------------------------------------

  datatype Cell = Null | Number(x: real) | Str(s: string)

  /** `toFixed(2)` with a decimal comma: the nearest cents, halves up, after the sign. */
  function Amount(x: real): string {
    if x < 0.0 then "-" + Cents((-x * 100.0 + 0.5).Floor) else Cents((x * 100.0 + 0.5).Floor)
  }

  function Cents(n: int): string
    requires 0 <= n
  {
    var d := Pad(n, 3);
    d[..|d| - 2] + "," + d[|d| - 2..]
  }

  /**
   * The text of a number reads back as its sign, its whole part without leading zeros and two digits
   * after a comma; together they are the nearest cents, a half going away from zero.
   */
  lemma AmountReadsBack(x: real) returns (whole: string, decimals: string)
    ensures Amount(x) == (if x < 0.0 then "-" else "") + (whole + "," + decimals)
    ensures whole != "" && IsDigits(whole) && (whole[0] == '0' ==> |whole| == 1)
    ensures |decimals| == 2 && IsDigits(decimals)
    ensures var cents := DecimalValue(whole) * 100 + DecimalValue(decimals);
            -0.5 < cents as real - (if x < 0.0 then -x else x) * 100.0 <= 0.5
  {
    var n := AmountOfCents(x);
    whole, decimals := WholeAndDecimals(n);
    hide Amount, Cents;
  }

  lemma AmountOfCents(x: real) returns (n: nat)
    ensures Amount(x) == (if x < 0.0 then "-" else "") + Cents(n)
    ensures -0.5 < n as real - (if x < 0.0 then -x else x) * 100.0 <= 0.5
  {
    hide Cents;
    n := ((if x < 0.0 then -x else x) * 100.0 + 0.5).Floor;
    assert "" + Cents(n) == Cents(n);
  }

  lemma WholeAndDecimals(n: nat) returns (whole: string, decimals: string)
    ensures Cents(n) == whole + "," + decimals
    ensures whole != "" && IsDigits(whole) && (whole[0] == '0' ==> |whole| == 1)
    ensures |decimals| == 2 && IsDigits(decimals)
    ensures DecimalValue(whole) * 100 + DecimalValue(decimals) == n
  {
    hide Pad, DecimalValue;
    var d := Pad(n, 3);
    whole, decimals := d[..|d| - 2], d[|d| - 2..];
    PaddedIs(n);
    TwoDigits(d);
  }

  lemma PaddedIs(n: nat)
    ensures DecimalValue(Pad(n, 3)) == n && (Pad(n, 3)[0] == '0' ==> |Pad(n, 3)| == 3)
  {
    hide Decimal, DecimalValue, Zeros;
    PadValue(n, 3);
    NoLeadingZero(n);
    assert Zeros(3, Decimal(n)) == "" ==> Pad(n, 3) == Decimal(n);
  }

  lemma {:induction false} NoLeadingZero(n: nat)
    ensures Decimal(n)[0] == '0' ==> |Decimal(n)| == 1
  {
    if 10 <= n {
      NoLeadingZero(n / 10);
      assert 10 <= n < 100 ==> Decimal(n / 10)[0] == DigitChar(n / 10) && n / 10 != 0;
      assert 100 <= n ==> |Decimal(n / 10)| > 1;
    }
  }

  lemma TwoDigits(d: string)
    requires 2 <= |d| && IsDigits(d)
    ensures DecimalValue(d) == DecimalValue(d[..|d| - 2]) * 100 + DecimalValue(d[|d| - 2..])
  {
    var front, last := d[..|d| - 1], d[|d| - 2..];
    assert front[..|front| - 1] == d[..|d| - 2];
    assert last[..1][..0] == "" && last[0] == front[|front| - 1];
  }

  function CellText(c: Cell): string {
    match c
    case Null => ""
    case Number(x) => Amount(x)
    case Str(s) => s
  }

  predicate IsSpecial(c: char) {
    c == '"' || c == ';' || c == '\n' || c == '\r'
  }

  predicate NeedsQuotes(s: string) {
    exists k :: 0 <= k < |s| && IsSpecial(s[k])
  }

  /** `replace(/"/g, '""')`. */
  function Doubled(s: string): string {
    if s == "" then "" else (if s[0] == '"' then "\"\"" else [s[0]]) + Doubled(s[1..])
  }

  function Quoted(s: string): string {
    if NeedsQuotes(s) then "\"" + Doubled(s) + "\"" else s
  }

  /** `csvCell`; an absent value is not quoted and neither is the empty text. */
  function CsvCell(c: Cell): string {
    if c.Null? then "" else Quoted(CellText(c))
  }

  // ---- the writer ------------------------------------------------------

  function QuotedAll(texts: seq<string>): (r: seq<string>)
    ensures |r| == |texts|
  {
    seq(|texts|, k requires 0 <= k < |texts| => Quoted(texts[k]))
  }

  function Record(texts: seq<string>): string {
    Join(QuotedAll(texts), ";")
  }

  function Records(table: seq<seq<string>>): seq<string> {
    seq(|table|, k requires 0 <= k < |table| => Record(table[k]))
  }

  /** The file of a table of texts, its header first. */
  function CsvText(table: seq<seq<string>>): string {
    [BOM] + Join(Records(table), CRLF)
  }

  datatype Column<!T> = Column(header: string, value: T -> Cell)

  function Headers<T>(columns: seq<Column<T>>): seq<string> {
    seq(|columns|, k requires 0 <= k < |columns| => columns[k].header)
  }

  function RowTexts<T>(columns: seq<Column<T>>, row: T): seq<string> {
    seq(|columns|, k requires 0 <= k < |columns| => CellText(columns[k].value(row)))
  }

  /** The texts that the file stands for. */
  function Table<T>(columns: seq<Column<T>>, rows: seq<T>): seq<seq<string>> {
    [Headers(columns)] + seq(|rows|, k requires 0 <= k < |rows| => RowTexts(columns, rows[k]))
  }

  /** `toAccountantCsv`. */
  method ToAccountantCsv<T>(columns: seq<Column<T>>, rows: seq<T>) returns (csv: string)
    ensures csv == CsvText(Table(columns, rows))
  {
    hide Quoted, CellText, Join;
    HeaderLine(columns);
    var lines := [Join(seq(|columns|, k requires 0 <= k < |columns| => CsvCell(Str(columns[k].header))), ";")];
    var table := Table(columns, rows);
    for i := 0 to |rows|
      invariant lines == Records(table[..i + 1])
    {
      RowLine(columns, rows[i]);
      lines := lines + [Join(seq(|columns|, k requires 0 <= k < |columns| => CsvCell(columns[k].value(rows[i]))), ";")];
    }
    assert table[..|rows| + 1] == table;
    csv := [BOM] + Join(lines, CRLF);
  }

  lemma HeaderLine<T>(columns: seq<Column<T>>)
    ensures Join(seq(|columns|, k requires 0 <= k < |columns| => CsvCell(Str(columns[k].header))), ";")
            == Record(Headers(columns))
  {
    hide Quoted;
    var cells := seq(|columns|, k requires 0 <= k < |columns| => CsvCell(Str(columns[k].header)));
    assert cells == QuotedAll(Headers(columns));
  }

  lemma RowLine<T>(columns: seq<Column<T>>, row: T)
    ensures Join(seq(|columns|, k requires 0 <= k < |columns| => CsvCell(columns[k].value(row))), ";")
            == Record(RowTexts(columns, row))
  {
    var cells := seq(|columns|, k requires 0 <= k < |columns| => CsvCell(columns[k].value(row)));
    assert !NeedsQuotes("") && Quoted("") == "";
    assert forall c: Cell :: CsvCell(c) == Quoted(CellText(c));
    hide Quoted, CsvCell, CellText;
    var quoted := QuotedAll(RowTexts(columns, row));
    forall k | 0 <= k < |columns| ensures cells[k] == quoted[k] {
      var c := columns[k].value(row);
      assert RowTexts(columns, row)[k] == CellText(c);
      assert cells[k] == CsvCell(c);
    }
    assert cells == quoted;
  }

  // ---- the reader ------------------------------------------------------

  /** The rest of a quoted field: two quotes are one, a single quote ends it. */
  function ReadQuoted(s: string): Option<(string, string)>
    decreases |s|
  {
    if s == "" then None
    else if s[0] != '"' then
      var r := ReadQuoted(s[1..]);
      if r.Some? then Some(([s[0]] + r.value.0, r.value.1)) else None
    else if |s| > 1 && s[1] == '"' then
      var r := ReadQuoted(s[2..]);
      if r.Some? then Some(("\"" + r.value.0, r.value.1)) else None
    else Some(("", s[1..]))
  }

  function ReadPlain(s: string): (r: (string, string))
    ensures |r.1| <= |s|
  {
    if s == "" || IsSpecial(s[0]) then ("", s)
    else
      var r := ReadPlain(s[1..]);
      ([s[0]] + r.0, r.1)
  }

  function ReadField(s: string): Option<(string, string)> {
    if s != "" && s[0] == '"' then ReadQuoted(s[1..]) else Some(ReadPlain(s))
  }

  /** One record: fields between `;` up to a line break or the end, and what follows it. */
  function ReadRecord(s: string, fuel: nat): Option<(seq<string>, string)>
    decreases fuel
  {
    var f := ReadField(s);
    if f.None? || fuel == 0 then None
    else
      var (text, rest) := f.value;
      if rest != "" && rest[0] == ';' then
        var more := ReadRecord(rest[1..], fuel - 1);
        if more.Some? then Some(([text] + more.value.0, more.value.1)) else None
      else Some(([text], rest))
  }

  /** The records of a file; the line break after the last one is optional. */
  function ReadRecords(s: string, fuel: nat): Option<seq<seq<string>>>
    decreases fuel
  {
    var r := ReadRecord(s, |s| + 1);
    if r.None? || fuel == 0 then None
    else
      var (record, rest) := r.value;
      if rest == "" || rest == CRLF then Some([record])
      else if !StartsWith(rest, CRLF) then None
      else
        var more := ReadRecords(rest[2..], fuel - 1);
        if more.Some? then Some([record] + more.value) else None
  }

  /** Reading a file, without the byte order mark. No record is longer than the file. */
  function ReadCsv(s: string): Option<seq<seq<string>>> {
    var body := if s != "" && s[0] == BOM then s[1..] else s;
    ReadRecords(body, |body| + 1)
  }

  // ---- the way back ----------------------------------------------------

  lemma {:induction false} QuotedBack(t: string, rest: string)
    requires rest == "" || rest[0] != '"'
    ensures ReadQuoted(Doubled(t) + "\"" + rest) == Some((t, rest))
  {
    var s := Doubled(t) + "\"" + rest;
    if t == "" {
      assert s == "\"" + rest;
    } else {
      QuotedBack(t[1..], rest);
      var tail := Doubled(t[1..]) + "\"" + rest;
      if t[0] == '"' {
        assert s == "\"\"" + tail && s[2..] == tail;
      } else {
        assert s == [t[0]] + tail && s[1..] == tail;
      }
      assert t == [t[0]] + t[1..];
    }
  }

  lemma {:induction false} PlainBack(t: string, rest: string)
    requires !NeedsQuotes(t) && (rest == "" || IsSpecial(rest[0]))
    ensures ReadPlain(t + rest) == (t, rest)
  {
    var s := t + rest;
    if t == "" {
      assert s == rest;
    } else {
      assert !IsSpecial(t[0]);
      assert s[0] == t[0] && s[1..] == t[1..] + rest;
      forall k | 0 <= k < |t[1..]| ensures !IsSpecial(t[1..][k]) {
        assert !IsSpecial(t[k + 1]);
      }
      PlainBack(t[1..], rest);
      assert t == [t[0]] + t[1..];
    }
  }

  /** What follows a field: nothing, a separator or a line break. */
  predicate EndsField(rest: string) {
    rest == "" || rest[0] == ';' || rest[0] == '\r'
  }

  lemma FieldBack(t: string, rest: string)
    requires EndsField(rest)
    ensures ReadField(Quoted(t) + rest) == Some((t, rest))
  {
    hide ReadQuoted, ReadPlain, Doubled;
    if NeedsQuotes(t) {
      QuotedBack(t, rest);
      var s := Quoted(t) + rest;
      assert s[1..] == Doubled(t) + "\"" + rest;
    } else {
      PlainBack(t, rest);
      var s := t + rest;
      if t != "" {
        assert !IsSpecial(t[0]) && s[0] == t[0];
      } else {
        assert s == rest;
      }
    }
  }

  /** A record is followed by nothing or by a line break. */
  predicate EndsRecord(rest: string) {
    rest == "" || StartsWith(rest, CRLF)
  }

  lemma RecordSplits(texts: seq<string>, rest: string)
    requires texts != []
    ensures Record(texts) + rest
            == if |texts| == 1 then Quoted(texts[0]) + rest
               else Quoted(texts[0]) + (";" + (Record(texts[1..]) + rest))
  {
    hide Quoted;
    var q := QuotedAll(texts);
    if |texts| > 1 {
      assert q[1..] == QuotedAll(texts[1..]);
      var more := Record(texts[1..]);
      assert Record(texts) == q[0] + ";" + more;
      assert q[0] + ";" + more + rest == q[0] + (";" + (more + rest));
    }
  }

  lemma {:induction false} RecordBack(texts: seq<string>, rest: string, fuel: nat)
    requires texts != [] && EndsRecord(rest) && |texts| <= fuel
    ensures ReadRecord(Record(texts) + rest, fuel) == Some((texts, rest))
    decreases |texts|
  {
    hide ReadField, Quoted, Record;
    RecordSplits(texts, rest);
    assert rest == "" || rest[0] == rest[..2][0] == '\r';
    if |texts| == 1 {
      FieldBack(texts[0], rest);
      assert [texts[0]] == texts;
    } else {
      var more := Record(texts[1..]) + rest;
      FieldBack(texts[0], ";" + more);
      assert (";" + more)[1..] == more;
      RecordBack(texts[1..], rest, fuel - 1);
      assert [texts[0]] + texts[1..] == texts;
    }
  }

  lemma {:induction false} RecordIsLong(texts: seq<string>)
    requires texts != []
    ensures |texts| <= |Record(texts)| + 1
  {
    hide Quoted;
    if |texts| > 1 {
      RecordIsLong(texts[1..]);
      assert QuotedAll(texts)[1..] == QuotedAll(texts[1..]);
    }
  }

  predicate HasColumns(table: seq<seq<string>>, n: nat) {
    forall k :: 0 <= k < |table| ==> |table[k]| == n
  }

  function Body(table: seq<seq<string>>): string {
    Join(Records(table), CRLF)
  }

  lemma BodySplits(table: seq<seq<string>>)
    requires table != []
    ensures Body(table) == if |table| == 1 then Record(table[0]) + ""
                           else Record(table[0]) + (CRLF + Body(table[1..]))
  {
    hide Record;
    var r := Records(table);
    assert r[0] + "" == r[0];
    if |table| > 1 {
      assert r[1..] == Records(table[1..]);
      var more := Body(table[1..]);
      assert r[0] + CRLF + more == r[0] + (CRLF + more);
    }
  }

  /** The one file that cannot be told apart: one column, ending in a row with an empty text. */
  predicate EndsInLoneEmpty(table: seq<seq<string>>) {
    |table| > 1 && table[|table| - 1] == [""]
  }

  lemma RecordIsEmpty(texts: seq<string>)
    requires texts != []
    ensures Record(texts) == "" <==> texts == [""]
  {
    RecordSplits(texts, "");
    assert Record(texts) + "" == Record(texts);
    if |texts| == 1 {
      assert Quoted(texts[0]) == "" <==> texts[0] == "";
      assert texts == [texts[0]];
    }
  }

  /** The body that follows a record is empty only when it is a lone empty record. */
  lemma {:induction false} BodyIsEmpty(table: seq<seq<string>>)
    requires table != [] && table[0] != []
    ensures Body(table) == "" <==> table == [[""]]
  {
    hide Record;
    BodySplits(table);
    RecordIsEmpty(table[0]);
    assert Record(table[0]) + "" == Record(table[0]);
    if |table| == 1 {
      assert table == [table[0]];
    }
  }

  lemma {:induction false} BodyIsLong(table: seq<seq<string>>)
    requires table != []
    ensures |table| <= |Body(table)| + 1
  {
    BodySplits(table);
    hide Record, Body;
    if |table| > 1 {
      BodyIsLong(table[1..]);
    }
  }

  lemma ReadOne(s: string, record: seq<string>, rest: string, fuel: nat)
    requires ReadRecord(s, |s| + 1) == Some((record, rest)) && 0 < fuel
    requires rest == "" || (StartsWith(rest, CRLF) && (rest == CRLF || ReadRecords(rest[2..], fuel - 1).Some?))
    ensures ReadRecords(s, fuel)
            == Some(if rest == "" || rest == CRLF then [record]
                    else [record] + ReadRecords(rest[2..], fuel - 1).value)
  {
    hide ReadRecord;
  }

  lemma {:induction false} BodyBack(table: seq<seq<string>>, n: nat, fuel: nat)
    requires table != [] && 0 < n && HasColumns(table, n) && |table| <= fuel
    ensures ReadRecords(Body(table), fuel)
            == Some(if EndsInLoneEmpty(table) then table[..|table| - 1] else table)
    decreases |table|
  {
    hide ReadRecord, Record, Body, ReadRecords, EndsInLoneEmpty;
    var first, s := table[0], Body(table);
    BodySplits(table);
    RecordIsLong(first);
    Tails(table);
    if |table| == 1 {
      RecordBack(first, "", |s| + 1);
      ReadOne(s, first, "", fuel);
    } else {
      var more := Body(table[1..]);
      var rest := CRLF + more;
      assert rest[..2] == CRLF && rest[2..] == more;
      assert rest == CRLF <==> more == "";
      RecordBack(first, rest, |s| + 1);
      BodyIsEmpty(table[1..]);
      BodyBack(table[1..], n, fuel - 1);
      ReadOne(s, first, rest, fuel);
    }
  }

  lemma Tails(table: seq<seq<string>>)
    requires table != []
    ensures |table| == 1 ==> table == [table[0]] && !EndsInLoneEmpty(table)
    ensures |table| > 1 ==> [table[0]] + table[1..] == table
    ensures |table| > 2 ==> [table[0]] + table[1..][..|table| - 2] == table[..|table| - 1]
    ensures |table| == 2 ==> table[..1] == [table[0]] && (table[1..] == [[""]] <==> EndsInLoneEmpty(table))
    ensures |table| == 2 ==> !EndsInLoneEmpty(table[1..])
    ensures |table| > 2 ==> table[1..] != [[""]] && (EndsInLoneEmpty(table) <==> EndsInLoneEmpty(table[1..]))
  {
    if |table| == 2 {
      assert table[1..] == [table[1]];
    }
  }

  /**
   * CSV round trip: the reader recovers header and cells exactly, whatever characters they
   * hold, if and only if the file is not one column that ends in an empty row.
   */
  lemma CsvRoundTrip(table: seq<seq<string>>, n: nat)
    requires table != [] && 0 < n && HasColumns(table, n)
    ensures ReadCsv(CsvText(table)) == Some(table) <==> !(n == 1 && 1 < |table| && table[|table| - 1] == [""])
  {
    hide ReadRecords, Record, Join;
    var s := CsvText(table);
    assert s[1..] == Body(table);
    BodyIsLong(table);
    BodyBack(table, n, |Body(table)| + 1);
    if EndsInLoneEmpty(table) {
      assert |table[|table| - 1]| == n;
      assert |table[..|table| - 1]| != |table|;
    }
  }

  /** A column headed "h" with one empty row: the file is the header and a line break, and the row is lost. */
  lemma LoneEmptyExample(table: seq<seq<string>>)
    requires table == [["h"], [""]]
    ensures CsvText(table) == [BOM] + "h\r\n" && ReadCsv(CsvText(table)) != Some(table)
  {
    assert HasColumns(table, 1);
    CsvRoundTrip(table, 1);
    hide ReadCsv;
    assert !NeedsQuotes("h") && !NeedsQuotes("");
    hide NeedsQuotes;
    assert Record(["h"]) == "h" && Record([""]) == "";
    assert Records(table) == ["h", ""];
    assert ["h", ""][1..] == [""];
  }

  /** The text that a cell is read back as: nothing, the text itself, or the nearest cents of a number. */
  ghost predicate IsTextOf(text: string, c: Cell) {
    match c
    case Null => text == ""
    case Str(s) => text == s
    case Number(x) =>
      exists whole, decimals ::
        && text == (if x < 0.0 then "-" else "") + (whole + "," + decimals)
        && whole != "" && IsDigits(whole) && (whole[0] == '0' ==> |whole| == 1)
        && |decimals| == 2 && IsDigits(decimals)
        && var cents := DecimalValue(whole) * 100 + DecimalValue(decimals);
           -0.5 < cents as real - (if x < 0.0 then -x else x) * 100.0 <= 0.5
  }

  lemma CellTextIs(c: Cell)
    ensures IsTextOf(CellText(c), c)
  {
    if c.Number? {
      var whole, decimals := AmountReadsBack(c.x);
    }
  }

  /**
   * With two columns or more, as every export has, the file reads back as the headers and, row by
   * row, the text of each cell.
   */
  lemma AccountantCsvReadsBack<T>(columns: seq<Column<T>>, rows: seq<T>)
    requires 2 <= |columns|
    ensures var read := ReadCsv(CsvText(Table(columns, rows)));
            && read.Some? && |read.value| == |rows| + 1
            && |read.value[0]| == |columns|
            && (forall k :: 0 <= k < |columns| ==> read.value[0][k] == columns[k].header)
            && forall i :: 0 <= i < |rows| ==>
                 && |read.value[i + 1]| == |columns|
                 && forall k :: 0 <= k < |columns| ==> IsTextOf(read.value[i + 1][k], columns[k].value(rows[i]))
  {
    hide ReadCsv, CsvText, CellText, IsTextOf;
    var table := Table(columns, rows);
    CsvRoundTrip(table, |columns|);
    forall i, k | 0 <= i < |rows| && 0 <= k < |columns| ensures IsTextOf(table[i + 1][k], columns[k].value(rows[i])) {
      CellTextIs(columns[k].value(rows[i]));
    }
  }
}
