/** Dates as `YYYY-MM-DD` text: the two printers, the reader and the order of strings. */
module DateText {
  import opened Text
  import opened Calendar

  /** Month and day, two digits each. */
  function DayText(a: Ymd): string
    requires IsDate(a)
  {
    "-" + Pad(a.m, 2) + "-" + Pad(a.d, 2)
  }

  /** The template `${y}-${MM}-${DD}`: the year as it is. */
  function Fmt(a: Ymd): string
    requires IsDate(a)
  {
    (if a.y < 0 then "-" + Decimal(-a.y) else Decimal(a.y)) + DayText(a)
  }

  /** `toISOString().slice(0, 10)`: four digits of year, or a sign and six outside 0 to 9999. */
  function IsoDay(a: Ymd): string
    requires IsDate(a)
  {
    var s := if 0 <= a.y <= 9999 then Pad(a.y, 4) + DayText(a)
             else (if a.y < 0 then "-" + Pad(-a.y, 6) else "+" + Pad(a.y, 6)) + DayText(a);
    if |s| <= 10 then s else s[..10]
  }

  /** `split('-').map(Number)`, or nothing when the text is not three runs of digits. */
  function ParseDate(s: string): Option<Ymd> {
    var p := Split(s, '-');
    if |p| == 3 && p[0] != "" && p[1] != "" && p[2] != "" && IsDigits(p[0]) && IsDigits(p[1]) && IsDigits(p[2])
    then Some(Ymd(DecimalValue(p[0]), DecimalValue(p[1]), DecimalValue(p[2]))) else None
  }

  /** The years whose text has four digits. */
  predicate IsFourDigitYear(y: int) {
    1000 <= y <= 9999
  }

  // ---- the order of strings --------------------------------------------

  /** `<` on strings. */
  predicate Less(s: string, t: string) {
    t != "" && (s == "" || s[0] < t[0] || (s[0] == t[0] && Less(s[1..], t[1..])))
  }

  lemma {:induction false} LessJoined(a: string, b: string, x: string, y: string)
    requires |a| == |b|
    ensures Less(a + x, b + y) <==> Less(a, b) || (a == b && Less(x, y))
  {
    if a == "" {
      assert a + x == x && b + y == y;
    } else {
      assert (a + x)[1..] == a[1..] + x && (b + y)[1..] == b[1..] + y;
      LessJoined(a[1..], b[1..], x, y);
      assert a == [a[0]] + a[1..] && b == [b[0]] + b[1..];
    }
  }

  /** Digits of the same length compare as numbers. */
  lemma {:induction false} DigitsCompare(s: string, t: string)
    requires |s| == |t| && IsDigits(s) && IsDigits(t)
    ensures Less(s, t) <==> DecimalValue(s) < DecimalValue(t)
    ensures s == t <==> DecimalValue(s) == DecimalValue(t)
  {
    if s != "" {
      var n := |s| - 1;
      DigitsCompare(s[..n], t[..n]);
      LessJoined(s[..n], t[..n], s[n..], t[n..]);
      assert s == s[..n] + s[n..] && t == t[..n] + t[n..];
      assert s[n..][1..] == "" && t[n..][1..] == "";
      assert IsDigit(s[n]) && IsDigit(t[n]);
    }
  }

  lemma DecimalLength(n: nat)
    ensures n < 10 ==> |Decimal(n)| == 1
    ensures 10 <= n < 100 ==> |Decimal(n)| == 2
    ensures 100 <= n < 1000 ==> |Decimal(n)| == 3
    ensures 1000 <= n < 10000 ==> |Decimal(n)| == 4
    ensures 10000 <= n ==> |Decimal(n)| >= 5
  {
    if 10 <= n {
      DecimalLength(n / 10);
    }
  }

  /** With four digits of year the two printers agree and each piece keeps its width. */
  lemma FourDigits(a: Ymd)
    requires IsDate(a) && IsFourDigitYear(a.y)
    ensures |Pad(a.m, 2)| == |Pad(a.d, 2)| == 2
    ensures Pad(a.y, 4) == Decimal(a.y) && |Pad(a.y, 4)| == 4
    ensures Fmt(a) == IsoDay(a) == Pad(a.y, 4) + ("-" + (Pad(a.m, 2) + ("-" + Pad(a.d, 2))))
    ensures |Fmt(a)| == 10
  {
    DecimalLength(a.y);
    DecimalLength(a.m);
    DecimalLength(a.d);
    assert Zeros(4, Decimal(a.y)) == "";
    assert Pad(a.y, 4) == Decimal(a.y);
    hide Pad, Decimal;
    var y, m, d := Pad(a.y, 4), Pad(a.m, 2), Pad(a.d, 2);
    assert y + ("-" + m + "-" + d) == y + ("-" + (m + ("-" + d)));
  }

  /** From year 1000 on the two printers agree exactly on four-digit years. */
  lemma PrintersAgree(a: Ymd)
    requires IsDate(a) && 1000 <= a.y
    ensures Fmt(a) == IsoDay(a) <==> IsFourDigitYear(a.y)
  {
    if a.y <= 9999 {
      FourDigits(a);
    } else {
      hide Pad, Decimal;
      assert IsoDay(a)[0] == '+';
      assert IsDigit(Decimal(a.y)[0]);
      assert Fmt(a)[0] == Decimal(a.y)[0];
    }
  }

  /** Reading a printed date gives it back. */
  lemma DateRoundTrip(a: Ymd)
    requires IsDate(a) && IsFourDigitYear(a.y)
    ensures ParseDate(Fmt(a)) == Some(a)
  {
    FourDigits(a);
    var y, m, d := Pad(a.y, 4), Pad(a.m, 2), Pad(a.d, 2);
    PadValue(a.y, 4);
    PadValue(a.m, 2);
    PadValue(a.d, 2);
    var p := [y, m, d];
    assert Join([d], "-") == d;
    assert Join([m, d], "-") == m + "-" + d by { assert [m, d][1..] == [d]; }
    assert Join(p, "-") == y + "-" + (m + "-" + d) by { assert p[1..] == [m, d]; }
    assert Fmt(a) == Join(p, "-");
    assert forall k :: 0 <= k < 3 ==> IsDigits(p[k]);
    SplitJoin(p, '-');
  }

  /** Comparing the texts of dates compares the dates. */
  lemma TextOrder(a: Ymd, b: Ymd)
    requires IsDate(a) && IsDate(b) && IsFourDigitYear(a.y) && IsFourDigitYear(b.y)
    ensures Less(Fmt(a), Fmt(b)) <==> DayNumber(a) < DayNumber(b)
    ensures Fmt(a) == Fmt(b) <==> a == b
  {
    DateRoundTrip(a);
    DateRoundTrip(b);
    DayNumberOrder(a, b);
    PiecesOrder(a, b);
  }

  lemma PiecesOrder(a: Ymd, b: Ymd)
    requires IsDate(a) && IsDate(b) && IsFourDigitYear(a.y) && IsFourDigitYear(b.y)
    ensures Less(Fmt(a), Fmt(b)) <==> Earlier(a, b)
  {
    FourDigits(a);
    FourDigits(b);
    var y, m, d := Pad(a.y, 4), Pad(a.m, 2), Pad(a.d, 2);
    var y', m', d' := Pad(b.y, 4), Pad(b.m, 2), Pad(b.d, 2);
    PadsCompare(a.y, b.y, 4);
    PadsCompare(a.m, b.m, 2);
    PadsCompare(a.d, b.d, 2);
    hide Pad, Fmt, IsoDay, DecimalValue;
    LessJoined(y, y', "-" + (m + ("-" + d)), "-" + (m' + ("-" + d')));
    LessJoined("-", "-", m + ("-" + d), m' + ("-" + d'));
    LessJoined(m, m', "-" + d, "-" + d');
    LessJoined("-", "-", d, d');
    assert !Less("-", "-");
    hide Less;
  }

  lemma PadsCompare(i: nat, j: nat, width: nat)
    requires |Pad(i, width)| == |Pad(j, width)|
    ensures Less(Pad(i, width), Pad(j, width)) <==> i < j
    ensures Pad(i, width) == Pad(j, width) <==> i == j
  {
    PadValue(i, width);
    PadValue(j, width);
    DigitsCompare(Pad(i, width), Pad(j, width));
  }

  // ---- comparisons on dates --------------------------------------------

  /** `a < b` on the texts of two dates. */
  predicate Before(a: Ymd, b: Ymd)
    requires IsDate(a) && IsDate(b)
  {
    Less(Fmt(a), Fmt(b))
  }
}
