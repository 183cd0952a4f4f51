/** String and byte-sequence helpers with JavaScript's meaning, shared by the other modules. */
module Text {
  type byte = x: int | 0 <= x < 256

  datatype Option<+T> = None | Some(value: T)

  // ---- searching -------------------------------------------------------

  /** `pat` stands in `s` at position `k`. */
  predicate OccursAt<T(==)>(s: seq<T>, pat: seq<T>, k: int) {
    0 <= k && k + |pat| <= |s| && s[k..k + |pat|] == pat
  }

  /** `indexOf` with a start position: the first occurrence at or after `from`, or -1. */
  function IndexOf<T(==)>(s: seq<T>, pat: seq<T>, from: nat): (r: int)
    requires from <= |s|
    ensures r == -1 || (from <= r && OccursAt(s, pat, r))
    ensures forall k :: from <= k && OccursAt(s, pat, k) ==> 0 <= r <= k
    decreases |s| - from
  {
    if |s| < from + |pat| then -1
    else if OccursAt(s, pat, from) then from
    else if from == |s| then -1
    else IndexOf(s, pat, from + 1)
  }

  lemma OccursAtExtended<T>(s: seq<T>, x: seq<T>, pat: seq<T>, k: int)
    requires k + |pat| <= |s|
    ensures OccursAt(s + x, pat, k) <==> OccursAt(s, pat, k)
  {
    if 0 <= k {
      assert (s + x)[k..k + |pat|] == s[k..k + |pat|];
    }
  }

  /** A first occurrence stays the first one however much text arrives after it. */
  lemma IndexOfStable<T>(s: seq<T>, x: seq<T>, pat: seq<T>, from: nat)
    requires from <= |s| && 0 <= IndexOf(s, pat, from)
    ensures IndexOf(s + x, pat, from) == IndexOf(s, pat, from)
  {
    var r := IndexOf(s, pat, from);
    OccursAtExtended(s, x, pat, r);
    var q := IndexOf(s + x, pat, from);
    OccursAtExtended(s, x, pat, q);
  }

  predicate StartsWith<T(==)>(s: seq<T>, pat: seq<T>) {
    |pat| <= |s| && s[..|pat|] == pat
  }

  // ---- white space -----------------------------------------------------

  /** The characters that `\s` matches and that `trim` removes. */
  predicate IsSpace(c: char) {
    || '\t' <= c <= '\r' || c == ' ' || c == '\U{A0}' || c == '\U{1680}'
    || '\U{2000}' <= c <= '\U{200A}' || c == '\U{2028}' || c == '\U{2029}'
    || c == '\U{202F}' || c == '\U{205F}' || c == '\U{3000}' || c == '\U{FEFF}'
  }

  /** The characters that `.` does not match. */
  predicate IsLineEnd(c: char) {
    c == '\n' || c == '\r' || c == '\U{2028}' || c == '\U{2029}'
  }

  predicate HasLineEnd(s: string) {
    exists k :: 0 <= k < |s| && IsLineEnd(s[k])
  }

  /** The first position at or after `p` that holds no white space. */
  function SkipSpaces(s: string, p: nat): (q: nat)
    requires p <= |s|
    ensures p <= q <= |s|
    ensures forall k :: p <= k < q ==> IsSpace(s[k])
    ensures q == |s| || !IsSpace(s[q])
    decreases |s| - p
  {
    if p < |s| && IsSpace(s[p]) then SkipSpaces(s, p + 1) else p
  }

  lemma SkipSpacesIs(s: string, p: nat, q: nat)
    requires p <= q <= |s| && AllSpace(s[p..q]) && (q < |s| ==> !IsSpace(s[q]))
    ensures SkipSpaces(s, p) == q
  {
    forall k | p <= k < q ensures IsSpace(s[k]) {
      assert s[k] == s[p..q][k - p];
    }
  }

  /** Where the white space that ends at `q` begins. */
  function BackSpaces(s: string, q: nat): (p: nat)
    requires q <= |s|
    ensures p <= q
    ensures forall k :: p <= k < q ==> IsSpace(s[k])
    ensures p == 0 || !IsSpace(s[p - 1])
  {
    if q > 0 && IsSpace(s[q - 1]) then BackSpaces(s, q - 1) else q
  }

  /** `trim`. */
  function Trim(s: string): (r: string) {
    var p, q := SkipSpaces(s, 0), BackSpaces(s, |s|);
    if p < q then s[p..q] else ""
  }

  predicate IsTrimmed(s: string) {
    s == "" || (!IsSpace(s[0]) && !IsSpace(s[|s| - 1]))
  }

  predicate AllSpace(s: string) {
    forall k :: 0 <= k < |s| ==> IsSpace(s[k])
  }

  /** What `trim` leaves is fixed by its ends. */
  lemma TrimIs(s: string, p: nat, q: nat)
    requires p <= q <= |s|
    requires forall k :: 0 <= k < p || q <= k < |s| ==> IsSpace(s[k])
    requires IsTrimmed(s[p..q])
    ensures Trim(s) == s[p..q]
  {
    var a, b := SkipSpaces(s, 0), BackSpaces(s, |s|);
    if p < q {
      assert !IsSpace(s[p..q][0]) && !IsSpace(s[p..q][q - p - 1]);
      assert !IsSpace(s[p]) && !IsSpace(s[q - 1]);
      assert a == p;
      assert b == q;
    } else {
      assert a == |s|;
    }
  }

  /** `trim` removes exactly the white space around a trimmed text. */
  lemma TrimPadded(a: string, s: string, b: string)
    requires AllSpace(a) && AllSpace(b) && IsTrimmed(s)
    ensures Trim(a + s + b) == s
  {
    var whole := a + s + b;
    assert whole[|a|..|a| + |s|] == s;
    TrimIs(whole, |a|, |a| + |s|);
  }

  lemma TrimOfTrimmed(s: string)
    requires IsTrimmed(s)
    ensures Trim(s) == s
  {
    assert s[0..|s|] == s;
    TrimIs(s, 0, |s|);
  }

  lemma TrimIsTrimmed(s: string)
    ensures IsTrimmed(Trim(s))
    ensures exists p, q :: 0 <= p <= q <= |s| && Trim(s) == s[p..q]
  {
    var p, q := SkipSpaces(s, 0), BackSpaces(s, |s|);
    assert Trim(s) == if p < q then s[p..q] else s[0..0];
  }

  /** `trim` takes nothing but white space off. */
  lemma TrimLeaves(s: string)
    ensures IsTrimmed(Trim(s))
    ensures exists a, b :: AllSpace(a) && AllSpace(b) && s == a + Trim(s) + b
  {
    TrimIsTrimmed(s);
    var p, q := SkipSpaces(s, 0), BackSpaces(s, |s|);
    if p < q {
      assert AllSpace(s[..p]) && AllSpace(s[q..]) && s == s[..p] + Trim(s) + s[q..];
    } else {
      assert p == |s|;
      assert AllSpace(s) && AllSpace("") && s == s + Trim(s) + "";
    }
  }

  // ---- splitting and joining -------------------------------------------

  /** `s.split(sep)` for a one-character separator. */
  function Split(s: string, sep: char): (r: seq<string>)
    ensures |r| >= 1
    ensures forall p | p in r :: sep !in p
  {
    if s == "" then [""]
    else if s[0] == sep then [""] + Split(s[1..], sep)
    else
      var rest := Split(s[1..], sep);
      [[s[0]] + rest[0]] + rest[1..]
  }

  /** `parts.join(sep)`. */
  function Join(parts: seq<string>, sep: string): string {
    if parts == [] then ""
    else if |parts| == 1 then parts[0]
    else parts[0] + sep + Join(parts[1..], sep)
  }

  lemma SplitPiece(s: string, sep: char)
    requires sep !in s
    ensures Split(s, sep) == [s]
  {
    if s != "" {
      SplitPiece(s[1..], sep);
      assert [s[0]] + s[1..] == s;
    }
  }

  lemma SplitFirst(a: string, b: string, sep: char)
    requires sep !in a
    ensures Split(a + [sep] + b, sep) == [a] + Split(b, sep)
  {
    if a == "" {
      assert (a + [sep] + b)[1..] == b;
    } else {
      assert (a + [sep] + b)[1..] == a[1..] + [sep] + b;
      SplitFirst(a[1..], b, sep);
      assert [a[0]] + a[1..] == a;
    }
  }

  /** Splitting undoes joining when no part holds the separator. */
  lemma SplitJoin(parts: seq<string>, sep: char)
    requires parts != [] && forall p | p in parts :: sep !in p
    ensures Split(Join(parts, [sep]), sep) == parts
  {
    if |parts| == 1 {
      SplitPiece(parts[0], sep);
    } else {
      SplitFirst(parts[0], Join(parts[1..], [sep]), sep);
      SplitJoin(parts[1..], sep);
    }
  }

  /** Joining undoes splitting. */
  lemma JoinSplit(s: string, sep: char)
    ensures Join(Split(s, sep), [sep]) == s
  {
    if s != "" {
      JoinSplit(s[1..], sep);
      var rest := Split(s[1..], sep);
      if s[0] == sep {
        assert ([""] + rest)[1..] == rest;
        assert "" + [sep] + s[1..] == s;
      } else if |rest| > 1 {
        assert ([[s[0]] + rest[0]] + rest[1..])[1..] == rest[1..];
        assert [s[0]] + rest[0] + [sep] + Join(rest[1..], [sep]) == [s[0]] + s[1..];
      }
    }
  }

  // ---- decimal numbers -------------------------------------------------

  predicate IsDigit(c: char) {
    '0' <= c <= '9'
  }

  predicate IsDigits(s: string) {
    forall k :: 0 <= k < |s| ==> IsDigit(s[k])
  }

  function DigitChar(n: nat): (c: char)
    requires n < 10
    ensures IsDigit(c) && c as int == n + '0' as int
  {
    (n + '0' as int) as char
  }

  /** A number as decimal digits, without leading zeros. */
  function Decimal(n: nat): (s: string)
    ensures s != "" && IsDigits(s)
  {
    if n < 10 then [DigitChar(n)] else Decimal(n / 10) + [DigitChar(n % 10)]
  }

  /** `padStart(width, '0')` of a number. */
  function Pad(n: nat, width: nat): (s: string)
    ensures width <= |s| && IsDigits(s)
  {
    Zeros(width, Decimal(n)) + Decimal(n)
  }

  function Zeros(width: nat, s: string): (z: string)
    ensures |z| == if |s| < width then width - |s| else 0
    ensures IsDigits(z) && forall k :: 0 <= k < |z| ==> z[k] == '0'
  {
    seq(if |s| < width then width - |s| else 0, _ => '0')
  }

  /** `Number` of a run of digits. */
  function DecimalValue(s: string): nat
    requires IsDigits(s)
  {
    if s == "" then 0
    else
      DecimalValue(s[..|s| - 1]) * 10 + (s[|s| - 1] as int - '0' as int)
  }

  lemma DecimalRoundTrip(n: nat)
    ensures DecimalValue(Decimal(n)) == n
  {
    if n >= 10 {
      DecimalRoundTrip(n / 10);
      assert Decimal(n)[..|Decimal(n)| - 1] == Decimal(n / 10);
    }
  }

  lemma {:induction false} ZerosValue(z: string, s: string)
    requires IsDigits(z) && IsDigits(s) && forall k :: 0 <= k < |z| ==> z[k] == '0'
    ensures DecimalValue(z + s) == DecimalValue(s)
  {
    var w := z + s;
    if s != "" {
      assert w[..|w| - 1] == z + s[..|s| - 1];
      ZerosValue(z, s[..|s| - 1]);
    } else if z != "" {
      assert w == z && w[..|w| - 1] == z[..|z| - 1] + s;
      ZerosValue(z[..|z| - 1], s);
    }
  }

  lemma PadValue(n: nat, width: nat)
    ensures DecimalValue(Pad(n, width)) == n
  {
    ZerosValue(Zeros(width, Decimal(n)), Decimal(n));
    DecimalRoundTrip(n);
  }

  /** The end of the longest run of digits of `s` that starts at `p`. */
  function DigitsEnd(s: string, p: nat): (q: nat)
    requires p <= |s|
    ensures p <= q <= |s|
    ensures forall k :: p <= k < q ==> IsDigit(s[k])
    ensures q == |s| || !IsDigit(s[q])
    decreases |s| - p
  {
    if p < |s| && IsDigit(s[p]) then DigitsEnd(s, p + 1) else p
  }

  lemma DigitsEndIs(s: string, p: nat, q: nat)
    requires p <= q <= |s| && IsDigits(s[p..q])
    requires q == |s| || !IsDigit(s[q])
    ensures DigitsEnd(s, p) == q
  {
    forall k | p <= k < q ensures IsDigit(s[k]) {
      assert s[k] == s[p..q][k - p];
    }
  }

  // ---- letter case -----------------------------------------------------

  /** Lower case of an ASCII letter; every other character is itself. */
  function LowerAscii(c: char): char {
    if 'A' <= c <= 'Z' then (c as int + 32) as char else c
  }

  /** `s` is the word `small`, each ASCII letter of it small or capital. */
  predicate IsAnyCase(s: string, small: string) {
    && |s| == |small|
    && forall k :: 0 <= k < |s| ==>
         s[k] == small[k] || ('a' <= small[k] <= 'z' && s[k] as int + 32 == small[k] as int)
  }

  /** `toLowerCase` on the characters that one byte can hold. */
  function LowerLatin1(c: char): char {
    if 'A' <= c <= 'Z' || ('\U{C0}' <= c <= '\U{DE}' && c != '\U{D7}') then (c as int + 32) as char else c
  }

  // ---- lists -----------------------------------------------------------

  function Concat<T>(parts: seq<seq<T>>): seq<T> {
    if parts == [] then [] else parts[0] + Concat(parts[1..])
  }

  ghost predicate NoRepeats<T>(s: seq<T>) {
    forall i, j :: 0 <= i < j < |s| ==> s[i] != s[j]
  }

  /** Distinct elements of a list are no more than the list holds. */
  lemma {:induction false} DistinctWithin<T>(a: seq<T>, b: seq<T>)
    requires NoRepeats(a) && forall k | k in a :: k in b
    ensures |a| <= |b|
  {
    if a != [] {
      var last := a[|a| - 1];
      assert last in a;
      var i :| 0 <= i < |b| && b[i] == last;
      var a', b' := a[..|a| - 1], b[..i] + b[i + 1..];
      forall k | k in a' ensures k in b' {
        var p :| 0 <= p < |a'| && a'[p] == k;
        assert a[p] in a && k != last;
        var q :| 0 <= q < |b| && b[q] == k;
        assert b'[if q < i then q else q - 1] == k;
      }
      DistinctWithin(a', b');
    }
  }
}
