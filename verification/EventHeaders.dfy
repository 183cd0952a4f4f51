/**
 * What the parser reads in the headers of a part and in the first line of a stream, said on
 * their characters: the first length and the first media type, in any letter case and with any
 * white space, whatever other headers stand around them, and the boundary.
 */
module EventHeaders {
  import opened Text
  import opened EventStream
  import Utf8

  // ---- the name of a header --------------------------------------------

  lemma NameExactly(h: string, p: nat, small: string)
    requires p <= |h| && forall k :: 0 <= k < |small| ==> !('A' <= small[k] <= 'Z')
    ensures NameAt(h, p, small) <==> p + |small| <= |h| && IsAnyCase(h[p..p + |small|], small)
  {
    if p + |small| <= |h| {
      var name := h[p..p + |small|];
      assert forall k :: 0 <= k < |small| ==> name[k] == h[p + k];
    }
  }

  lemma NamesAreSmall()
    ensures forall k :: 0 <= k < |LENGTH_NAME| ==> !('A' <= LENGTH_NAME[k] <= 'Z')
    ensures forall k :: 0 <= k < |TYPE_NAME| ==> !('A' <= TYPE_NAME[k] <= 'Z')
  {
  }

  /** From `p` on the text is the name of a header, spaces, a value and the rest. */
  predicate IsLaidOut(h: string, p: nat, name: string, spaces: string, value: string, rest: string) {
    p <= |h| && h[p..] == name + (spaces + (value + rest))
  }

  lemma FourPieces(h: string, p: nat, name: string, spaces: string, value: string, rest: string)
    requires IsLaidOut(h, p, name, spaces, value, rest)
    ensures var a := p + |name|;
            var b := a + |spaces|;
            var c := b + |value|;
            c + |rest| == |h| && h[p..a] == name && h[a..b] == spaces && h[b..c] == value && h[c..] == rest
  {
    var tail := spaces + (value + rest);
    var a := p + |name|;
    assert h[a..] == h[p..][|name|..] == tail;
    assert h[a + |spaces|..] == h[a..][|spaces|..] == value + rest;
    assert h[p..a] == h[p..][..|name|] && h[a..a + |spaces|] == h[a..][..|spaces|];
  }

  lemma PutTogether(h: string, p: nat, a: nat, b: nat, c: nat)
    requires p <= a <= b <= c <= |h|
    ensures IsLaidOut(h, p, h[p..a], h[a..b], h[b..c], h[c..])
  {
  }

  // ---- the length ------------------------------------------------------

  /** At `p` stands the name of the length header, white space, and all the digits of `n`. */
  ghost predicate LengthAt(h: string, p: nat, n: nat) {
    exists name, spaces, digits, rest ::
      && IsLaidOut(h, p, name, spaces, digits, rest)
      && IsAnyCase(name, "content-length:") && AllSpace(spaces)
      && digits != "" && IsDigits(digits) && (rest == "" || !IsDigit(rest[0])) && DecimalValue(digits) == n
  }

  /** What the reader finds at `p`. */
  predicate ReadsLength(h: string, p: nat) {
    p <= |h| && NameAt(h, p, LENGTH_NAME)
    && var q := SkipSpaces(h, p + |LENGTH_NAME|); q < DigitsEnd(h, q)
  }

  lemma LengthAtIsRead(h: string, p: nat, n: nat)
    requires LengthAt(h, p, n)
    ensures ReadsLength(h, p)
    ensures var q := SkipSpaces(h, p + |LENGTH_NAME|);
            IsDigits(h[q..DigitsEnd(h, q)]) && DecimalValue(h[q..DigitsEnd(h, q)]) == n
  {
    hide AllSpace, IsAnyCase, NameAt, SkipSpaces, DigitsEnd, IsLaidOut;
    var name, spaces, digits, rest :|
      && IsLaidOut(h, p, name, spaces, digits, rest)
      && IsAnyCase(name, "content-length:") && AllSpace(spaces)
      && digits != "" && IsDigits(digits) && (rest == "" || !IsDigit(rest[0])) && DecimalValue(digits) == n;
    FourPieces(h, p, name, spaces, digits, rest);
    var a := p + |name|;
    var b := a + |spaces|;
    var c := b + |digits|;
    assert c < |h| ==> h[c] == h[c..][0];
    hide ReadsLength, IsDigits;
    LengthScan(h, p, a, b, c);
  }

  lemma LengthScan(h: string, p: nat, a: nat, b: nat, c: nat)
    requires p <= a <= b < c <= |h| && (c < |h| ==> !IsDigit(h[c]))
    requires IsAnyCase(h[p..a], "content-length:") && AllSpace(h[a..b]) && IsDigits(h[b..c])
    ensures ReadsLength(h, p) && a == p + |LENGTH_NAME| && SkipSpaces(h, a) == b && DigitsEnd(h, b) == c
  {
    hide AllSpace, IsAnyCase, NameAt, SkipSpaces, DigitsEnd;
    SameLength(h[p..a], "content-length:");
    NamesAreSmall();
    NameExactly(h, p, LENGTH_NAME);
    assert h[b] == h[b..c][0];
    DigitIsNoSpace(h[b]);
    SkipSpacesIs(h, a, b);
    DigitsEndIs(h, b, c);
  }

  lemma SameLength(s: string, small: string)
    requires IsAnyCase(s, small)
    ensures |s| == |small|
  {
  }

  lemma DigitIsNoSpace(c: char)
    requires IsDigit(c)
    ensures !IsSpace(c)
  {
  }

  lemma ReadIsLengthAt(h: string, p: nat)
    requires ReadsLength(h, p)
    ensures var q := SkipSpaces(h, p + |LENGTH_NAME|);
            IsDigits(h[q..DigitsEnd(h, q)]) && LengthAt(h, p, DecimalValue(h[q..DigitsEnd(h, q)]))
  {
    var a := p + |LENGTH_NAME|;
    var b := SkipSpaces(h, a);
    var c := DigitsEnd(h, b);
    assert AllSpace(h[a..b]) && IsDigits(h[b..c]) && (h[c..] == "" || !IsDigit(h[c..][0]));
    hide AllSpace, IsDigits, IsAnyCase, NameAt, SkipSpaces, DigitsEnd, IsLaidOut;
    NamesAreSmall();
    NameExactly(h, p, LENGTH_NAME);
    PutTogether(h, p, a, b, c);
  }

  /** The length that stands first in the headers from `p` on. */
  ghost predicate IsFirstLength(h: string, p: nat, n: nat) {
    exists k :: p <= k && LengthAt(h, k, n) && forall j, m :: p <= j < k ==> !LengthAt(h, j, m)
  }

  lemma {:induction false} FirstLengthIsRead(h: string, p: nat, k: nat, n: nat)
    requires p <= k && LengthAt(h, k, n) && forall j, m :: p <= j < k ==> !LengthAt(h, j, m)
    ensures p <= |h| && LengthFrom(h, p) == Some(n)
    decreases k - p
  {
    hide LengthAt, NameAt, SkipSpaces, DigitsEnd;
    LengthAtIsRead(h, k, n);
    if p < k {
      if ReadsLength(h, p) {
        ReadIsLengthAt(h, p);
      }
      FirstLengthIsRead(h, p + 1, k, n);
    }
  }

  lemma {:induction false} ReadLengthIsFirst(h: string, p: nat)
    requires p <= |h|
    ensures match LengthFrom(h, p)
            case Some(n) => IsFirstLength(h, p, n)
            case None => forall j, m :: p <= j ==> !LengthAt(h, j, m)
    decreases |h| - p
  {
    hide LengthAt, NameAt, SkipSpaces, DigitsEnd, IsFirstLength;
    if ReadsLength(h, p) {
      ReadIsLengthAt(h, p);
      FirstHere(h, p, LengthFrom(h, p).value);
    } else {
      forall m ensures !LengthAt(h, p, m) {
        if LengthAt(h, p, m) {
          LengthAtIsRead(h, p, m);
        }
      }
      if p < |h| {
        ReadLengthIsFirst(h, p + 1);
        if LengthFrom(h, p + 1).Some? {
          FirstFurther(h, p, LengthFrom(h, p + 1).value);
        }
      } else {
        NothingBeyond(h);
      }
    }
  }

  lemma FirstHere(h: string, p: nat, n: nat)
    requires LengthAt(h, p, n)
    ensures IsFirstLength(h, p, n)
  {
    hide LengthAt;
  }

  lemma FirstFurther(h: string, p: nat, n: nat)
    requires IsFirstLength(h, p + 1, n) && forall m :: !LengthAt(h, p, m)
    ensures IsFirstLength(h, p, n)
  {
    hide LengthAt;
    var k :| p + 1 <= k && LengthAt(h, k, n) && forall j, m :: p + 1 <= j < k ==> !LengthAt(h, j, m);
  }

  lemma NothingBeyond(h: string)
    ensures forall j, m :: |h| < j ==> !LengthAt(h, j, m)
  {
  }

  /** The length read is that of the first length header, whatever else the headers hold; none if there is none. */
  lemma LengthExactly(h: string, n: nat)
    ensures LengthFrom(h, 0) == Some(n) <==> IsFirstLength(h, 0, n)
    ensures LengthFrom(h, 0) == None <==> forall j, m :: !LengthAt(h, j, m)
  {
    hide LengthAt, LengthFrom;
    ReadLengthIsFirst(h, 0);
    if IsFirstLength(h, 0, n) {
      var k :| 0 <= k && LengthAt(h, k, n) && forall j, m :: 0 <= j < k ==> !LengthAt(h, j, m);
      FirstLengthIsRead(h, 0, k, n);
    }
  }

  // ---- the media type --------------------------------------------------

  predicate IsStop(c: char) {
    c == '\r' || c == '\n' || c == ';'
  }

  /** `d` is `c` in small letters: ASCII letters and those of Latin-1, a multiplication sign being none. */
  predicate IsSmallOf(d: string, s: string) {
    && |d| == |s|
    && forall k :: 0 <= k < |s| ==>
         if 'A' <= s[k] <= 'Z' || ('\U{C0}' <= s[k] <= '\U{D6}') || ('\U{D8}' <= s[k] <= '\U{DE}')
         then d[k] as int == s[k] as int + 32 else d[k] == s[k]
  }

  lemma LowerTextExactly(d: string, s: string)
    ensures d == LowerText(s) <==> IsSmallOf(d, s)
  {
    if IsSmallOf(d, s) {
      assert forall k :: 0 <= k < |s| ==> d[k] == LowerText(s)[k];
    }
  }

  /** No line break and no semicolon stands in the value, and one of them, if anything, after it. */
  predicate IsTypeValue(value: string, rest: string) {
    (forall k :: 0 <= k < |value| ==> !IsStop(value[k])) && (rest == "" || IsStop(rest[0]))
  }

  /**
   * At `p` stand the name of the type header, white space and a value, read as `t`: the value
   * without white space around it and in small letters; or blanks alone, read as the empty text.
   */
  ghost predicate TypeAt(h: string, p: nat, t: string) {
    exists name, spaces, value, rest ::
      && IsLaidOut(h, p, name, spaces, value, rest)
      && IsAnyCase(name, "content-type:") && AllSpace(spaces) && IsTypeValue(value, rest)
      && if value != "" then !IsSpace(value[0]) && IsSmallOf(t, Trim(value))
         else (rest == "" || rest[0] == ';') && HasBlank(spaces) && t == ""
  }

  predicate HasBlank(spaces: string) {
    exists k :: 0 <= k < |spaces| && spaces[k] != '\r' && spaces[k] != '\n'
  }

  /** What the reader finds at `p`. */
  function ReadsType(h: string, p: nat): Option<string> {
    if !(p <= |h| && NameAt(h, p, TYPE_NAME)) then None
    else
      var from := p + |TYPE_NAME|;
      var q := SkipSpaces(h, from);
      var e := TypeEnd(h, q);
      if q < e then Some(LowerText(Trim(h[q..e])))
      else if HasBlank(h[from..q]) then Some("") else None
  }

  lemma TypeAtIsRead(h: string, p: nat, t: string)
    requires TypeAt(h, p, t)
    ensures p <= |h| && ReadsType(h, p) == Some(t)
  {
    hide AllSpace, IsAnyCase, NameAt, SkipSpaces, TypeEnd, IsLaidOut, IsSmallOf, Trim, IsSpace, HasBlank, LowerText;
    var name, spaces, value, rest :|
      && IsLaidOut(h, p, name, spaces, value, rest)
      && IsAnyCase(name, "content-type:") && AllSpace(spaces) && IsTypeValue(value, rest)
      && if value != "" then !IsSpace(value[0]) && IsSmallOf(t, Trim(value))
         else (rest == "" || rest[0] == ';') && HasBlank(spaces) && t == "";
    FourPieces(h, p, name, spaces, value, rest);
    var a := p + |name|;
    var b := a + |spaces|;
    var c := b + |value|;
    assert c < |h| ==> h[c] == h[c..][0];
    assert b < c ==> h[b] == h[b..c][0];
    SemicolonIsNoSpace();
    LowerTextExactly(t, Trim(value));
    TypeScan(h, p, a, b, c);
  }

  lemma SemicolonIsNoSpace()
    ensures !IsSpace(';')
  {
  }

  lemma TypeScan(h: string, p: nat, a: nat, b: nat, c: nat)
    requires p <= a <= b <= c <= |h| && (b < |h| ==> !IsSpace(h[b]))
    requires IsAnyCase(h[p..a], "content-type:") && AllSpace(h[a..b]) && IsTypeValue(h[b..c], h[c..])
    ensures NameAt(h, p, TYPE_NAME) && a == p + |TYPE_NAME| && SkipSpaces(h, a) == b && TypeEnd(h, b) == c
  {
    hide AllSpace, IsAnyCase, NameAt, SkipSpaces, TypeEnd, IsSpace;
    SameLength(h[p..a], "content-type:");
    NamesAreSmall();
    NameExactly(h, p, TYPE_NAME);
    SkipSpacesIs(h, a, b);
    TypeEndIs(h, b, c);
  }

  lemma TypeEndIs(h: string, b: nat, c: nat)
    requires b <= c <= |h| && IsTypeValue(h[b..c], h[c..])
    ensures TypeEnd(h, b) == c
  {
    forall k | b <= k < c ensures !IsStop(h[k]) {
      assert h[k] == h[b..c][k - b];
    }
    assert c < |h| ==> h[c] == h[c..][0];
  }

  lemma ReadIsTypeAt(h: string, p: nat)
    requires ReadsType(h, p).Some?
    ensures TypeAt(h, p, ReadsType(h, p).value)
  {
    hide IsAnyCase, NameAt, Trim, HasBlank, LowerText, IsSmallOf, TypeAt;
    var a := p + |TYPE_NAME|;
    assert a <= |h| by {
      NameIsInside(h, p, TYPE_NAME);
    }
    var b := SkipSpaces(h, a);
    var c := TypeEnd(h, b);
    TypeValueIs(h, b, c);
    assert AllSpace(h[a..b]);
    hide AllSpace, IsTypeValue, SkipSpaces, TypeEnd;
    NamesAreSmall();
    NameExactly(h, p, TYPE_NAME);
    LowerTextExactly(ReadsType(h, p).value, Trim(h[b..c]));
    LineBreaksAreSpaces();
    TypeIsThere(h, p, a, b, c, ReadsType(h, p).value);
  }

  lemma NameIsInside(h: string, p: nat, name: string)
    requires NameAt(h, p, name)
    ensures p + |name| <= |h|
  {
  }

  lemma TypeValueIs(h: string, b: nat, c: nat)
    requires b <= |h| && c == TypeEnd(h, b)
    ensures IsTypeValue(h[b..c], h[c..])
  {
  }

  lemma TypeIsThere(h: string, p: nat, a: nat, b: nat, c: nat, t: string)
    requires p <= a <= b <= c <= |h| && IsAnyCase(h[p..a], "content-type:") && AllSpace(h[a..b])
    requires IsTypeValue(h[b..c], h[c..])
    requires if b < c then !IsSpace(h[b]) && IsSmallOf(t, Trim(h[b..c]))
             else (c == |h| || h[c] == ';') && HasBlank(h[a..b]) && t == ""
    ensures TypeAt(h, p, t)
  {
    hide IsAnyCase, Trim, HasBlank, IsSmallOf, AllSpace, IsTypeValue, IsLaidOut, IsSpace;
    PutTogether(h, p, a, b, c);
    assert c < |h| ==> h[c] == h[c..][0];
    if b < c {
      assert h[b] == h[b..c][0];
    } else {
      assert h[b..c] == "";
    }
  }

  lemma LineBreaksAreSpaces()
    ensures IsSpace('\r') && IsSpace('\n')
  {
  }

  lemma TypeStep(h: string, p: nat)
    requires p <= |h|
    ensures TypeFrom(h, p)
            == if ReadsType(h, p).Some? then ReadsType(h, p).value
               else if p == |h| then "" else TypeFrom(h, p + 1)
  {
    hide NameAt, SkipSpaces, TypeEnd, Trim, LowerText;
    var from := p + |TYPE_NAME|;
    if NameAt(h, p, TYPE_NAME) && from <= |h| {
      var q := SkipSpaces(h, from);
      assert HasBlank(h[from..q]) ==> exists k :: from <= k < q && h[k] != '\r' && h[k] != '\n' by {
        if HasBlank(h[from..q]) {
          var k :| 0 <= k < |h[from..q]| && h[from..q][k] != '\r' && h[from..q][k] != '\n';
          assert h[from + k] == h[from..q][k];
        }
      }
      if k :| from <= k < q && h[k] != '\r' && h[k] != '\n' {
        assert h[from..q][k - from] == h[k];
      }
    }
  }

  /** The type that stands first in the headers from `p` on. */
  ghost predicate IsFirstType(h: string, p: nat, t: string) {
    exists k :: p <= k && TypeAt(h, k, t) && forall j, u :: p <= j < k ==> !TypeAt(h, j, u)
  }

  lemma {:induction false} FirstTypeIsRead(h: string, p: nat, k: nat, t: string)
    requires p <= k && TypeAt(h, k, t) && forall j, u :: p <= j < k ==> !TypeAt(h, j, u)
    ensures p <= |h| && TypeFrom(h, p) == t
    decreases k - p
  {
    hide TypeAt, ReadsType, TypeFrom;
    TypeAtIsRead(h, k, t);
    TypeStep(h, p);
    if p < k {
      if ReadsType(h, p).Some? {
        ReadIsTypeAt(h, p);
      }
      FirstTypeIsRead(h, p + 1, k, t);
    }
  }

  lemma {:induction false} ReadTypeIsFirst(h: string, p: nat)
    requires p <= |h|
    ensures IsFirstType(h, p, TypeFrom(h, p)) || (TypeFrom(h, p) == "" && forall j, u :: p <= j ==> !TypeAt(h, j, u))
    decreases |h| - p
  {
    hide TypeAt, ReadsType, TypeFrom;
    TypeStep(h, p);
    if ReadsType(h, p).Some? {
      ReadIsTypeAt(h, p);
      assert TypeAt(h, p, TypeFrom(h, p));
    } else {
      forall u ensures !TypeAt(h, p, u) {
        if TypeAt(h, p, u) {
          TypeAtIsRead(h, p, u);
        }
      }
      if p < |h| {
        ReadTypeIsFirst(h, p + 1);
      } else {
        NoTypeBeyond(h);
      }
    }
  }

  lemma NoTypeBeyond(h: string)
    ensures forall j, u :: |h| < j ==> !TypeAt(h, j, u)
  {
  }

  /** The media type read is that of the first type header, whatever else the headers hold; empty if there is none. */
  lemma TypeExactly(h: string, t: string)
    ensures TypeFrom(h, 0) == t <==> IsFirstType(h, 0, t) || (t == "" && forall j, u :: !TypeAt(h, j, u))
  {
    hide TypeAt, TypeFrom;
    ReadTypeIsFirst(h, 0);
    if IsFirstType(h, 0, t) {
      var k :| 0 <= k && TypeAt(h, k, t) && forall j, u :: 0 <= j < k ==> !TypeAt(h, j, u);
      FirstTypeIsRead(h, 0, k, t);
    }
  }

  // ---- the boundary ----------------------------------------------------

  /** `line` is what stands before the first line break of the buffer. */
  predicate IsFirstLine(buf: seq<byte>, line: seq<byte>, rest: seq<byte>) {
    && buf == line + CRLF + rest
    && forall k :: 0 <= k < |line| ==> !(buf[k] == 13 && buf[k + 1] == 10)
  }

  /** A boundary is announced if and only if the first line, without white space around it, begins with two dashes. */
  lemma BoundaryExactly(buf: seq<byte>, boundary: seq<byte>)
    ensures Detect(buf) == Some(boundary)
            <==> exists line, rest ::
                   && IsFirstLine(buf, line, rest) && |Trim(Latin1(line))| >= 2
                   && Trim(Latin1(line))[0] == Trim(Latin1(line))[1] == '-'
                   && boundary == Utf8.Encode(Trim(Latin1(line)))
  {
    hide Trim, Utf8.Encode;
    var nl := IndexOf(buf, CRLF, 0);
    if 0 <= nl {
      FirstLineIs(buf, nl);
      var text := Trim(Latin1(buf[..nl]));
      assert |text| >= 2 ==> text[..2] == [text[0], text[1]];
      assert StartsWith(text, "--") <==> |text| >= 2 && text[0] == text[1] == '-';
    }
    forall line, rest | IsFirstLine(buf, line, rest) ensures 0 <= nl && line == buf[..nl] {
      LineIsFirst(buf, line, rest);
    }
  }

  lemma FirstLineIs(buf: seq<byte>, nl: nat)
    requires IndexOf(buf, CRLF, 0) == nl
    ensures IsFirstLine(buf, buf[..nl], buf[nl + 2..])
  {
    assert buf[nl..nl + 2] == CRLF;
    assert buf == buf[..nl] + buf[nl..nl + 2] + buf[nl + 2..];
    forall k | 0 <= k < nl ensures !(buf[k] == 13 && buf[k + 1] == 10) {
      assert !OccursAt(buf, CRLF, k);
      assert buf[k..k + 2] == [buf[k], buf[k + 1]];
    }
  }

  lemma LineIsFirst(buf: seq<byte>, line: seq<byte>, rest: seq<byte>)
    requires IsFirstLine(buf, line, rest)
    ensures IndexOf(buf, CRLF, 0) == |line| && line == buf[..|line|]
  {
    assert buf[|line|..|line| + 2] == CRLF;
    assert OccursAt(buf, CRLF, |line|);
    var nl := IndexOf(buf, CRLF, 0);
    assert buf[nl] == buf[nl..nl + 2][0] == 13 && buf[nl + 1] == buf[nl..nl + 2][1] == 10;
  }

  // ---- a part ----------------------------------------------------------

  /** `mark` stands at `k`, and nowhere between `from` and there. */
  ghost predicate IsFirstAt(buf: seq<byte>, mark: seq<byte>, from: nat, k: nat) {
    from <= k && OccursAt(buf, mark, k) && forall j :: from <= j < k ==> !OccursAt(buf, mark, j)
  }

  /**
   * Headers lie between the first boundary, wherever it is, and the first blank line after it; they
   * tell the media type and how many bytes of body follow.
   */
  ghost predicate IsPartAt(boundary: seq<byte>, buf: seq<byte>, s: nat, e: nat, part: Part, rest: seq<byte>) {
    && IsFirstAt(buf, boundary, 0, s) && IsFirstAt(buf, BLANK_LINE, s + |boundary|, e)
    && e + 4 + |part.body| <= |buf| && buf[e + 4..e + 4 + |part.body|] == part.body
    && buf[e + 4 + |part.body|..] == rest
    && LengthFrom(Latin1(buf[s + |boundary|..e]), 0) == Some(|part.body|)
    && TypeFrom(Latin1(buf[s + |boundary|..e]), 0) == part.contentType
  }

  lemma IndexOfExactly(buf: seq<byte>, mark: seq<byte>, from: nat, k: nat)
    requires from <= |buf|
    ensures IndexOf(buf, mark, from) == k <==> IsFirstAt(buf, mark, from, k)
  {
    hide IndexOf;
  }

  /** A part is taken if and only if it is whole at the front of the buffer, after anything without a boundary. */
  lemma PartExactly(boundary: seq<byte>, buf: seq<byte>, part: Part, rest: seq<byte>)
    ensures ScanPart(boundary, buf) == Whole(part, rest)
            <==> exists s: nat, e: nat :: IsPartAt(boundary, buf, s, e, part, rest)
  {
    hide LengthFrom, TypeFrom, Latin1, IndexOf, OccursAt, IsFirstAt;
    if ScanPart(boundary, buf) == Whole(part, rest) {
      var h := FindHeaders(boundary, buf);
      assert h.At?;
      HeadersStart(boundary, buf);
      var s := h.from - |boundary|;
      IndexOfExactly(buf, boundary, 0, s);
      IndexOfExactly(buf, BLANK_LINE, s + |boundary|, h.to);
      assert IsPartAt(boundary, buf, s, h.to, part, rest);
    }
    if s: nat, e: nat :| IsPartAt(boundary, buf, s, e, part, rest) {
      PartIsInside(buf, boundary, s);
      IndexOfExactly(buf, boundary, 0, s);
      IndexOfExactly(buf, BLANK_LINE, s + |boundary|, e);
      assert FindHeaders(boundary, buf) == At(s + |boundary|, e);
    }
  }

  lemma HeadersStart(boundary: seq<byte>, buf: seq<byte>)
    requires FindHeaders(boundary, buf).At?
    ensures var h := FindHeaders(boundary, buf);
            && 0 <= h.from - |boundary| == IndexOf(buf, boundary, 0)
            && h.from <= |buf| && h.to == IndexOf(buf, BLANK_LINE, h.from)
  {
    hide IndexOf;
  }

  lemma PartIsInside(buf: seq<byte>, mark: seq<byte>, k: nat)
    requires IsFirstAt(buf, mark, 0, k)
    ensures k + |mark| <= |buf|
  {
  }
}
